/**
 * The segment record shared by the recogniser's output, the reconciled
 * timeline and the subtitle writer: a dict with keys "start", "end" (in
 * seconds) and "text". Seconds are exact reals here.
 */
module Segments {

  datatype Segment = Segment(start: real, end: real, text: string)

  /** The recogniser's promise for a chunk-relative segment: it does not end before it starts. */
  predicate WellTimed(seg: Segment) {
    seg.start <= seg.end
  }
}
