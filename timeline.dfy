/**
 * The reconciliation step of `process_video` in app/main.py: the segments
 * the recogniser returns for each chunk are moved onto the timeline of the
 * whole audio by the chunk's start offset, gathered in chunk order,
 * optionally translated, and finally sorted by start time with Python's
 * stable `sorted`. The recogniser's output is given, one list per chunk,
 * and the translator is a function on texts.
 */
module Timeline {
  import opened Wrappers
  import opened Segments
  import opened AudioChunks

  // ---------------------------------------------------------------------
  // Moving chunk-relative times onto the audio's timeline
  // ---------------------------------------------------------------------

  /** The adjusted segment: both times moved by offset_ms / 1000.0 seconds, the text kept. */
  function Shift(seg: Segment, offsetMs: nat): Segment {
    var d := offsetMs as real / 1000.0;
    Segment(seg.start + d, seg.end + d, seg.text)
  }

  /** A shift keeps the text, the duration, and the order of the two times. */
  lemma ShiftKeepsShape(seg: Segment, offsetMs: nat)
    ensures var r := Shift(seg, offsetMs);
      r.text == seg.text && r.end - r.start == seg.end - seg.start &&
      r.start >= seg.start && (WellTimed(r) <==> WellTimed(seg))
  {
  }

  /** Two segments shifted by one offset keep their relative order. */
  lemma ShiftKeepsOrder(x: Segment, y: Segment, offsetMs: nat)
    ensures x.start <= y.start <==> Shift(x, offsetMs).start <= Shift(y, offsetMs).start
  {
  }

  /** The segments of one chunk, each shifted by the chunk's offset, in the recogniser's order. */
  function Adjusted(segs: seq<Segment>, offsetMs: nat): (r: seq<Segment>)
    ensures |r| == |segs|
  {
    seq(|segs|, (i: nat) requires i < |segs| => Shift(segs[i], offsetMs))
  }

  // ---------------------------------------------------------------------
  // Gathering the chunks' segments in chunk order
  // ---------------------------------------------------------------------

  /** The number of segments the recogniser returned over all chunks. */
  function TotalCount(asr: seq<seq<Segment>>): nat {
    if asr == [] then 0 else TotalCount(asr[..|asr| - 1]) + |asr[|asr| - 1]|
  }

  /**
   * `all_segments` after the transcription loop: the adjusted segments of
   * chunk 0, then those of chunk 1, and so on. `asr[k]` is what the
   * recogniser returned for chunk k.
   */
  function Accumulate(chunks: seq<Chunk>, asr: seq<seq<Segment>>): seq<Segment>
    requires |asr| == |chunks|
  {
    if chunks == [] then []
    else
      var n := |chunks| - 1;
      Accumulate(chunks[..n], asr[..n]) + Adjusted(asr[n], chunks[n].startMs)
  }

  /** Nothing is dropped and nothing is merged: there are as many segments as the recogniser returned. */
  lemma {:induction false} AccumulateLength(chunks: seq<Chunk>, asr: seq<seq<Segment>>)
    requires |asr| == |chunks|
    ensures |Accumulate(chunks, asr)| == TotalCount(asr)
  {
    if chunks != [] {
      var n := |chunks| - 1;
      AccumulateLength(chunks[..n], asr[..n]);
    }
  }

  lemma {:induction false} TotalCountPrefix(asr: seq<seq<Segment>>, k: nat)
    requires k < |asr|
    ensures TotalCount(asr[..k]) + |asr[k]| <= TotalCount(asr)
  {
    var n := |asr| - 1;
    assert asr[..n + 1] == asr;
    if k < n {
      TotalCountPrefix(asr[..n], k);
      assert asr[..n][..k] == asr[..k];
    } else {
      assert asr[..n] == asr[..k];
    }
  }

  /**
   * Segment j of chunk k lands at position TotalCount(asr[..k]) + j: after
   * every segment of the earlier chunks and after the segments of its own
   * chunk that came before it, moved by the chunk's offset.
   */
  lemma {:induction false} AccumulateAt(chunks: seq<Chunk>, asr: seq<seq<Segment>>, k: nat, j: nat)
    requires |asr| == |chunks|
    requires k < |chunks| && j < |asr[k]|
    ensures TotalCount(asr[..k]) + j < |Accumulate(chunks, asr)|
    ensures Accumulate(chunks, asr)[TotalCount(asr[..k]) + j] == Shift(asr[k][j], chunks[k].startMs)
  {
    var n := |chunks| - 1;
    AccumulateLength(chunks[..n], asr[..n]);
    if k == n {
      assert asr[..n] == asr[..k];
    } else {
      AccumulateAt(chunks[..n], asr[..n], k, j);
      assert asr[..n][..k] == asr[..k];
    }
  }

  lemma {:induction false} TotalCountGrows(asr: seq<seq<Segment>>, a: nat, b: nat)
    requires a < b <= |asr|
    ensures TotalCount(asr[..a]) + |asr[a]| <= TotalCount(asr[..b])
  {
    TotalCountPrefix(asr[..b], a);
    assert asr[..b][..a] == asr[..a];
  }

  /**
   * No deduplication: two different recognised segments, even with the same
   * text and times (from overlapping chunks), occupy different positions.
   */
  lemma DistinctSlots(asr: seq<seq<Segment>>, k1: nat, j1: nat, k2: nat, j2: nat)
    requires k1 < |asr| && j1 < |asr[k1]| && k2 < |asr| && j2 < |asr[k2]|
    requires (k1, j1) != (k2, j2)
    ensures TotalCount(asr[..k1]) + j1 != TotalCount(asr[..k2]) + j2
  {
    if k1 < k2 {
      TotalCountGrows(asr, k1, k2);
    } else if k2 < k1 {
      TotalCountGrows(asr, k2, k1);
    }
  }

  /** Position p of the gathered list holds segment j of chunk k, shifted by that chunk's offset. */
  predicate ComesFrom(chunks: seq<Chunk>, asr: seq<seq<Segment>>, p: nat, k: nat, j: nat)
    requires |asr| == |chunks|
  {
    k < |chunks| && j < |asr[k]| && p < |Accumulate(chunks, asr)| &&
    Accumulate(chunks, asr)[p] == Shift(asr[k][j], chunks[k].startMs)
  }

  /** Every gathered segment is a recognised segment, shifted by the offset of the chunk it came from. */
  lemma {:induction false} AccumulateFrom(chunks: seq<Chunk>, asr: seq<seq<Segment>>, p: nat)
    requires |asr| == |chunks|
    requires p < |Accumulate(chunks, asr)|
    ensures exists k, j :: ComesFrom(chunks, asr, p, k, j)
  {
    var n := |chunks| - 1;
    var front := Accumulate(chunks[..n], asr[..n]);
    if p < |front| {
      AccumulateFrom(chunks[..n], asr[..n], p);
      var k: nat, j: nat :| ComesFrom(chunks[..n], asr[..n], p, k, j);
      assert ComesFrom(chunks, asr, p, k, j);
    } else {
      assert ComesFrom(chunks, asr, p, n, p - |front|);
    }
  }

  /** When the recogniser's segments are well timed, so is everything gathered. */
  lemma AccumulateWellTimed(chunks: seq<Chunk>, asr: seq<seq<Segment>>)
    requires |asr| == |chunks|
    requires forall k, j :: 0 <= k < |asr| && 0 <= j < |asr[k]| ==> WellTimed(asr[k][j])
    ensures forall p :: 0 <= p < |Accumulate(chunks, asr)| ==> WellTimed(Accumulate(chunks, asr)[p])
  {
    forall p | 0 <= p < |Accumulate(chunks, asr)|
      ensures WellTimed(Accumulate(chunks, asr)[p])
    {
      AccumulateFrom(chunks, asr, p);
      var k: nat, j: nat :| ComesFrom(chunks, asr, p, k, j);
      ShiftKeepsShape(asr[k][j], chunks[k].startMs);
    }
  }

  // ---------------------------------------------------------------------
  // Optional translation
  // ---------------------------------------------------------------------

  /** One segment with its text replaced by the translation; the times are kept. */
  function Retext(seg: Segment, translate: string -> string): Segment {
    seg.(text := translate(seg.text))
  }

  /** Every segment translated, in place and in order. */
  function TranslateAll(segs: seq<Segment>, translate: string -> string): (r: seq<Segment>)
    ensures |r| == |segs|
  {
    seq(|segs|, (i: nat) requires i < |segs| => Retext(segs[i], translate))
  }

  /** The translation block runs only when a target language is given. */
  function MaybeTranslate(segs: seq<Segment>, translate: Option<string -> string>): seq<Segment> {
    match translate
    case None => segs
    case Some(tr) => TranslateAll(segs, tr)
  }

  /** Translation changes texts only: same number of segments, same times, each text replaced by its translation. */
  lemma TranslateChangesOnlyText(segs: seq<Segment>, translate: Option<string -> string>)
    ensures var r := MaybeTranslate(segs, translate);
      |r| == |segs| &&
      forall i :: 0 <= i < |segs| ==>
        r[i].start == segs[i].start && r[i].end == segs[i].end &&
        r[i].text == (if translate.Some? then translate.value(segs[i].text) else segs[i].text)
  {
  }

  lemma TranslateCons(x: Segment, t: seq<Segment>, translate: string -> string)
    ensures TranslateAll([x] + t, translate) == [Retext(x, translate)] + TranslateAll(t, translate)
  {
    assert TranslateAll([x] + t, translate)[1..] == TranslateAll(t, translate);
  }

  // ---------------------------------------------------------------------
  // The stable sort by start time
  // ---------------------------------------------------------------------

  /** Puts x in front of the first segment that does not start earlier than x. */
  function Insert(x: Segment, sorted: seq<Segment>): (r: seq<Segment>)
    ensures |r| == |sorted| + 1
  {
    if sorted == [] || x.start <= sorted[0].start then [x] + sorted
    else [sorted[0]] + Insert(x, sorted[1..])
  }

  /**
   * An insertion sort on the start time. Each segment is inserted in front
   * of all later segments with a start time at least as large, so segments
   * that start together keep their input order, as Python's `sorted` does.
   */
  function SortByStart(segs: seq<Segment>): seq<Segment> {
    if segs == [] then [] else Insert(segs[0], SortByStart(segs[1..]))
  }

  predicate SortedByStart(s: seq<Segment>) {
    forall i, j :: 0 <= i < j < |s| ==> s[i].start <= s[j].start
  }

  /** The segments of `s` that start at `key`, in their order in `s`. */
  function WithStart(s: seq<Segment>, key: real): seq<Segment> {
    if s == [] then [] else (if s[0].start == key then [s[0]] else []) + WithStart(s[1..], key)
  }

  lemma WithStartCons(x: Segment, t: seq<Segment>, key: real)
    ensures WithStart([x] + t, key) == (if x.start == key then [x] else []) + WithStart(t, key)
  {
    assert ([x] + t)[1..] == t;
  }

  /** No segment of `s` starts before `v`. */
  predicate StartsFrom(s: seq<Segment>, v: real) {
    forall i :: 0 <= i < |s| ==> v <= s[i].start
  }

  lemma {:induction false} InsertStartsFrom(x: Segment, t: seq<Segment>, v: real)
    requires StartsFrom(t, v) && v <= x.start
    ensures StartsFrom(Insert(x, t), v)
  {
    if t != [] && x.start > t[0].start {
      InsertStartsFrom(x, t[1..], v);
      assert Insert(x, t) == [t[0]] + Insert(x, t[1..]);
    }
  }

  lemma SortedCons(y: Segment, rest: seq<Segment>)
    requires SortedByStart(rest) && StartsFrom(rest, y.start)
    ensures SortedByStart([y] + rest)
  {
    var r := [y] + rest;
    forall i, j | 0 <= i < j < |r| ensures r[i].start <= r[j].start {
      assert r[j] == rest[j - 1];
      if i > 0 {
        assert r[i] == rest[i - 1];
      }
    }
  }

  lemma {:induction false} InsertSorted(x: Segment, t: seq<Segment>)
    requires SortedByStart(t)
    ensures SortedByStart(Insert(x, t))
  {
    if t == [] || x.start <= t[0].start {
      assert StartsFrom(t, x.start) by {
        forall i | 0 <= i < |t| ensures x.start <= t[i].start {
          assert t[0].start <= t[i].start;
        }
      }
      SortedCons(x, t);
    } else {
      var rest := t[1..];
      assert SortedByStart(rest) by {
        forall i, j | 0 <= i < j < |rest| ensures rest[i].start <= rest[j].start {
          assert rest[i] == t[i + 1] && rest[j] == t[j + 1];
        }
      }
      assert StartsFrom(rest, t[0].start) by {
        forall i | 0 <= i < |rest| ensures t[0].start <= rest[i].start {
          assert rest[i] == t[i + 1];
        }
      }
      InsertSorted(x, rest);
      InsertStartsFrom(x, rest, t[0].start);
      SortedCons(t[0], Insert(x, rest));
    }
  }

  lemma {:induction false} InsertPermutes(x: Segment, t: seq<Segment>)
    ensures multiset(Insert(x, t)) == multiset{x} + multiset(t)
  {
    if t != [] && x.start > t[0].start {
      InsertPermutes(x, t[1..]);
      assert t == [t[0]] + t[1..];
    }
  }

  /** Inserting x keeps the segments of each start time in the order "x first, then those of t". */
  lemma {:induction false} InsertStable(x: Segment, t: seq<Segment>, key: real)
    ensures WithStart(Insert(x, t), key) == WithStart([x] + t, key)
  {
    if t != [] && x.start > t[0].start {
      var y, rest := t[0], t[1..];
      var r := Insert(x, rest);
      assert Insert(x, t) == [y] + r;
      assert t == [y] + rest;
      InsertStable(x, rest, key);
      WithStartCons(y, r, key);
      WithStartCons(x, rest, key);
      WithStartCons(x, t, key);
      WithStartCons(y, rest, key);
      if key == x.start {
        assert WithStart(Insert(x, t), key) == WithStart(r, key);
        assert WithStart(t, key) == WithStart(rest, key);
      } else {
        assert WithStart(r, key) == WithStart(rest, key);
        assert WithStart([x] + t, key) == WithStart(t, key);
      }
    }
  }

  /** The sorted list is ordered by start time and is a rearrangement of its input. */
  lemma {:induction false} SortSortsAndPermutes(s: seq<Segment>)
    ensures |SortByStart(s)| == |s|
    ensures SortedByStart(SortByStart(s))
    ensures multiset(SortByStart(s)) == multiset(s)
  {
    if s != [] {
      SortSortsAndPermutes(s[1..]);
      InsertSorted(s[0], SortByStart(s[1..]));
      InsertPermutes(s[0], SortByStart(s[1..]));
      assert s == [s[0]] + s[1..];
    }
  }

  /** Stability: the segments that share a start time come out in the order they went in. */
  lemma {:induction false} SortIsStable(s: seq<Segment>, key: real)
    ensures WithStart(SortByStart(s), key) == WithStart(s, key)
  {
    if s != [] {
      SortIsStable(s[1..], key);
      InsertStable(s[0], SortByStart(s[1..]), key);
      WithStartCons(s[0], SortByStart(s[1..]), key);
      WithStartCons(s[0], s[1..], key);
      assert s == [s[0]] + s[1..];
    }
  }

  lemma WithStartTail(s: seq<Segment>, key: real)
    requires s != []
    ensures WithStart(s[1..], key) == if s[0].start == key then WithStart(s, key)[1..] else WithStart(s, key)
  {
  }

  /** A list with no segment at any start time is empty. */
  lemma NoKeysNoSegments(s: seq<Segment>)
    requires forall key :: WithStart(s, key) == []
    ensures s == []
  {
    if s != [] {
      var w := WithStart(s, s[0].start);
    }
  }

  lemma {:induction false} HeadStartsFirst(s: seq<Segment>, key: real)
    requires SortedByStart(s) && WithStart(s, key) != []
    ensures s[0].start <= key
  {
    if s[0].start != key {
      assert WithStart(s[1..], key) != [];
      HeadStartsFirst(s[1..], key);
      assert s[1..][0] == s[1];
    }
  }

  /**
   * A sorted list is determined by its per-start-time sublists: two sorted
   * lists whose segments at each start time agree, order included, are
   * equal.
   */
  lemma {:induction false} SortedUnique(r1: seq<Segment>, r2: seq<Segment>)
    requires SortedByStart(r1) && SortedByStart(r2)
    requires forall key :: WithStart(r1, key) == WithStart(r2, key)
    ensures r1 == r2
    decreases |r1|
  {
    if r1 == [] {
      NoKeysNoSegments(r2);
    } else if r2 == [] {
      NoKeysNoSegments(r1);
    } else {
      var k1, k2 := r1[0].start, r2[0].start;
      var a, b := r1[1..], r2[1..];
      assert r1 == [r1[0]] + a && r2 == [r2[0]] + b;
      WithStartCons(r1[0], a, k1);
      WithStartCons(r2[0], b, k2);
      HeadStartsFirst(r2, k1);
      HeadStartsFirst(r1, k2);
      assert k1 == k2;
      WithStartCons(r2[0], b, k1);
      assert WithStart(r1, k1) == WithStart(r2, k1);
      assert r1[0] == WithStart(r1, k1)[0] == WithStart(r2, k1)[0] == r2[0];
      forall key ensures WithStart(a, key) == WithStart(b, key) {
        WithStartTail(r1, key);
        WithStartTail(r2, key);
      }
      assert SortedByStart(a) by {
        forall i, j | 0 <= i < j < |a| ensures a[i].start <= a[j].start {
          assert a[i] == r1[i + 1] && a[j] == r1[j + 1];
        }
      }
      assert SortedByStart(b) by {
        forall i, j | 0 <= i < j < |b| ensures b[i].start <= b[j].start {
          assert b[i] == r2[i + 1] && b[j] == r2[j + 1];
        }
      }
      SortedUnique(a, b);
    }
  }

  /**
   * The sort is the only arrangement with both properties: any ordering of
   * the segments by start time that keeps the input order among equal
   * start times is SortByStart's result.
   */
  lemma SortIsTheStableSort(s: seq<Segment>, r: seq<Segment>)
    requires SortedByStart(r)
    requires forall key :: WithStart(r, key) == WithStart(s, key)
    ensures r == SortByStart(s)
  {
    SortSortsAndPermutes(s);
    forall key ensures WithStart(r, key) == WithStart(SortByStart(s), key) {
      SortIsStable(s, key);
    }
    SortedUnique(r, SortByStart(s));
  }

  lemma {:induction false} InsertRetext(x: Segment, t: seq<Segment>, translate: string -> string)
    ensures Insert(Retext(x, translate), TranslateAll(t, translate)) == TranslateAll(Insert(x, t), translate)
  {
    TranslateCons(x, t, translate);
    if t != [] && x.start > t[0].start {
      InsertRetext(x, t[1..], translate);
      assert t == [t[0]] + t[1..];
      TranslateCons(t[0], t[1..], translate);
      TranslateCons(t[0], Insert(x, t[1..]), translate);
      assert TranslateAll(t, translate)[1..] == TranslateAll(t[1..], translate);
    }
  }

  /**
   * Translating before the sort, as process_video does, gives the same list
   * as sorting first: translation does not touch the sort key.
   */
  lemma {:induction false} SortCommutesWithTranslation(s: seq<Segment>, translate: string -> string)
    ensures SortByStart(TranslateAll(s, translate)) == TranslateAll(SortByStart(s), translate)
  {
    if s != [] {
      SortCommutesWithTranslation(s[1..], translate);
      assert s == [s[0]] + s[1..];
      TranslateCons(s[0], s[1..], translate);
      InsertRetext(s[0], SortByStart(s[1..]), translate);
    }
  }

  // ---------------------------------------------------------------------
  // The reconciliation loop of process_video
  // ---------------------------------------------------------------------

  /** The segment list process_video hands to generate_srt. */
  function Reconciled(chunks: seq<Chunk>, asr: seq<seq<Segment>>, translate: Option<string -> string>): seq<Segment>
    requires |asr| == |chunks|
  {
    SortByStart(MaybeTranslate(Accumulate(chunks, asr), translate))
  }

  /**
   * Steps 4 and 5 of process_video. For each chunk the recogniser's
   * segments are shifted and appended one by one; after each chunk the
   * progress callback, when there is one, receives (chunks processed,
   * total chunks), recorded here in `progress`. Then the texts are
   * translated in place when a translator is given, and the list is sorted.
   */
  method Reconcile(chunks: seq<Chunk>, asr: seq<seq<Segment>>, translate: Option<string -> string>, hasCallback: bool)
    returns (segments: seq<Segment>, progress: seq<(nat, nat)>)
    requires |asr| == |chunks|
    ensures segments == Reconciled(chunks, asr, translate)
    ensures |progress| == (if hasCallback then |chunks| else 0)
    ensures forall k :: 0 <= k < |progress| ==> progress[k] == (k + 1, |chunks|)
  {
    var all: seq<Segment> := [];
    var processed := 0;
    progress := [];
    for c := 0 to |chunks|
      invariant all == Accumulate(chunks[..c], asr[..c])
      invariant processed == c
      invariant |progress| == (if hasCallback then c else 0)
      invariant forall k :: 0 <= k < |progress| ==> progress[k] == (k + 1, |chunks|)
    {
      var offsetMs := chunks[c].startMs;
      var result := asr[c];
      ghost var before := all;
      for j := 0 to |result|
        invariant all == before + Adjusted(result[..j], offsetMs)
      {
        all := all + [Shift(result[j], offsetMs)];
        assert Adjusted(result[..j + 1], offsetMs) == Adjusted(result[..j], offsetMs) + [Shift(result[j], offsetMs)];
      }
      assert result[..|result|] == result;
      assert chunks[..c + 1][..c] == chunks[..c] && asr[..c + 1][..c] == asr[..c];
      processed := processed + 1;
      if hasCallback {
        progress := progress + [(processed, |chunks|)];
      }
    }
    assert chunks[..|chunks|] == chunks && asr[..|asr|] == asr;
    if translate.Some? {
      var tr := translate.value;
      ghost var gathered := all;
      for i := 0 to |all|
        invariant |all| == |gathered|
        invariant forall p :: 0 <= p < i ==> all[p] == Retext(gathered[p], tr)
        invariant forall p :: i <= p < |all| ==> all[p] == gathered[p]
      {
        all := all[i := all[i].(text := tr(all[i].text))];
      }
      assert all == TranslateAll(gathered, tr);
    }
    segments := SortByStart(all);
  }

  /**
   * What reaches the subtitle writer: exactly the recognised segments (as many
   * as the recogniser returned, each shifted and possibly translated),
   * ordered by start time, stably.
   */
  lemma ReconciledFacts(chunks: seq<Chunk>, asr: seq<seq<Segment>>, translate: Option<string -> string>)
    requires |asr| == |chunks|
    ensures var out := Reconciled(chunks, asr, translate);
      |out| == TotalCount(asr) && SortedByStart(out) &&
      multiset(out) == multiset(MaybeTranslate(Accumulate(chunks, asr), translate))
    ensures forall key ::
      WithStart(Reconciled(chunks, asr, translate), key) == WithStart(MaybeTranslate(Accumulate(chunks, asr), translate), key)
  {
    var gathered := MaybeTranslate(Accumulate(chunks, asr), translate);
    AccumulateLength(chunks, asr);
    TranslateChangesOnlyText(Accumulate(chunks, asr), translate);
    SortSortsAndPermutes(gathered);
    forall key ensures WithStart(SortByStart(gathered), key) == WithStart(gathered, key) {
      SortIsStable(gathered, key);
    }
  }

  /** When the recogniser's segments are well timed, every segment handed to the writer is. */
  lemma ReconciledWellTimed(chunks: seq<Chunk>, asr: seq<seq<Segment>>, translate: Option<string -> string>)
    requires |asr| == |chunks|
    requires forall k, j :: 0 <= k < |asr| && 0 <= j < |asr[k]| ==> WellTimed(asr[k][j])
    ensures forall i :: 0 <= i < |Reconciled(chunks, asr, translate)| ==> WellTimed(Reconciled(chunks, asr, translate)[i])
  {
    var acc := Accumulate(chunks, asr);
    var gathered := MaybeTranslate(acc, translate);
    var out := Reconciled(chunks, asr, translate);
    AccumulateWellTimed(chunks, asr);
    TranslateChangesOnlyText(acc, translate);
    SortSortsAndPermutes(gathered);
    forall i | 0 <= i < |out| ensures WellTimed(out[i]) {
      assert out[i] in multiset(gathered);
      var p :| 0 <= p < |gathered| && gathered[p] == out[i];
      assert WellTimed(acc[p]);
    }
  }

  /** Segment j of chunk k (shifted, and translated if a translator is given) is among the segments handed to the writer. */
  lemma RecognisedSegmentSurvives(chunks: seq<Chunk>, asr: seq<seq<Segment>>, translate: Option<string -> string>, k: nat, j: nat)
    requires |asr| == |chunks|
    requires k < |chunks| && j < |asr[k]|
    ensures var seg := Shift(asr[k][j], chunks[k].startMs);
      (if translate.Some? then Retext(seg, translate.value) else seg) in Reconciled(chunks, asr, translate)
  {
    var acc := Accumulate(chunks, asr);
    var gathered := MaybeTranslate(acc, translate);
    var p := TotalCount(asr[..k]) + j;
    AccumulateAt(chunks, asr, k, j);
    TranslateChangesOnlyText(acc, translate);
    SortSortsAndPermutes(gathered);
    assert gathered[p] in multiset(Reconciled(chunks, asr, translate));
  }
}
