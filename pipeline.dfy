/**
 * process_video of app/main.py end to end, from the length of the extracted
 * audio to the text of the SubRip file: split with the configured chunk
 * length and overlap, reconcile the recogniser's segments, write the cues.
 */
module Pipeline {
  import opened Wrappers
  import opened Segments
  import opened AudioChunks
  import opened Timeline
  import opened Subtitles

  /** The chunks process_video works on: split_audio with the values of app/config.py. */
  function ConfiguredChunks(audioMs: nat): seq<Chunk> {
    Chunks(audioMs, ChunkLengthMs, ChunkOverlapMs)
  }

  /** The SubRip file process_video writes, for a recogniser output of one list per chunk. */
  function SrtFor(audioMs: nat, asr: seq<seq<Segment>>, translate: Option<string -> string>): string
    requires |asr| == |ConfiguredChunks(audioMs)|
  {
    SrtText(Reconciled(ConfiguredChunks(audioMs), asr, translate))
  }

  /**
   * process_video: split, transcribe (the given `asr`, one result per chunk),
   * shift and gather, translate when asked, sort, and write the file.
   */
  method ProcessVideo(audioMs: nat, asr: seq<seq<Segment>>, translate: Option<string -> string>, hasCallback: bool)
    returns (srt: string, progress: seq<(nat, nat)>)
    requires |asr| == ChunkCount(audioMs, ChunkLengthMs - ChunkOverlapMs)
    ensures srt == SrtFor(audioMs, asr, translate)
    ensures |progress| == (if hasCallback then |asr| else 0)
    ensures forall k :: 0 <= k < |progress| ==> progress[k] == (k + 1, |asr|)
  {
    var chunks := SplitAudio(audioMs, ChunkLengthMs, ChunkOverlapMs);
    var segments;
    segments, progress := Reconcile(chunks, asr, translate, hasCallback);
    srt := GenerateSrt(segments);
  }

  /** The text a recognised segment carries into the file: its own, or its translation. */
  function FinalText(seg: Segment, translate: Option<string -> string>): string {
    if translate.Some? then translate.value(seg.text) else seg.text
  }

  /**
   * Every segment the recogniser returned for every chunk reaches the file:
   * its (possibly translated) text, stripped, occurs in the SubRip text.
   */
  lemma EveryRecognisedTextInSrt(audioMs: nat, asr: seq<seq<Segment>>, translate: Option<string -> string>, k: nat, j: nat)
    requires |asr| == |ConfiguredChunks(audioMs)|
    requires k < |asr| && j < |asr[k]|
    ensures IsSubstring(Strip(FinalText(asr[k][j], translate)), SrtFor(audioMs, asr, translate))
  {
    var chunks := ConfiguredChunks(audioMs);
    var segs := Reconciled(chunks, asr, translate);
    var shifted := Shift(asr[k][j], chunks[k].startMs);
    var seg := if translate.Some? then Retext(shifted, translate.value) else shifted;
    RecognisedSegmentSurvives(chunks, asr, translate, k, j);
    var i :| 0 <= i < |segs| && segs[i] == seg;
    SrtContainsEveryCue(segs, i);
  }

  /** Silent audio, or audio in which nothing was recognised, gives an empty file. */
  lemma NothingRecognisedEmptyFile(audioMs: nat, asr: seq<seq<Segment>>, translate: Option<string -> string>)
    requires |asr| == |ConfiguredChunks(audioMs)|
    requires audioMs == 0 || TotalCount(asr) == 0
    ensures SrtFor(audioMs, asr, translate) == ""
  {
    EmptyAudioNoChunks(audioMs, ChunkLengthMs, ChunkOverlapMs);
    ReconciledFacts(ConfiguredChunks(audioMs), asr, translate);
    AccumulateLength(ConfiguredChunks(audioMs), asr);
    SrtOfNothing();
  }

  /** The file has one cue per recognised segment, numbered from 1, in start-time order. */
  lemma OneCuePerSegment(audioMs: nat, asr: seq<seq<Segment>>, translate: Option<string -> string>)
    requires |asr| == |ConfiguredChunks(audioMs)|
    ensures var segs := Reconciled(ConfiguredChunks(audioMs), asr, translate);
      SrtFor(audioMs, asr, translate) == Join(Numbered(Cue, segs, 1)) &&
      |Numbered(Cue, segs, 1)| == TotalCount(asr) && SortedByStart(segs)
  {
    ReconciledFacts(ConfiguredChunks(audioMs), asr, translate);
  }
}
