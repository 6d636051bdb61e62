/**
 * The subtitle writer of app/subtitle_generator.py: `format_timestamp`,
 * which renders milliseconds as HH:MM:SS,mmm through chained `divmod`, and
 * `generate_srt`, which writes numbered SubRip cues. The file handle is
 * replaced by the string the successive writes would put in the file.
 */
module Subtitles {
  import opened Wrappers
  import opened Decimal
  import opened Segments

  // ---------------------------------------------------------------------
  // Python's str.strip()
  // ---------------------------------------------------------------------

  /** The characters Python's `str.isspace` accepts, which `str.strip()` removes. */
  predicate IsSpace(c: char) {
    var n := c as int;
    (0x09 <= n <= 0x0D) || (0x1C <= n <= 0x20) || n == 0x85 || n == 0xA0 || n == 0x1680 ||
    (0x2000 <= n <= 0x200A) || n == 0x2028 || n == 0x2029 || n == 0x202F || n == 0x205F || n == 0x3000
  }

  /** Drops leading whitespace. */
  function TrimStart(s: string): string {
    if s != [] && IsSpace(s[0]) then TrimStart(s[1..]) else s
  }

  /** Drops trailing whitespace. */
  function TrimEnd(s: string): string {
    if s != [] && IsSpace(s[|s| - 1]) then TrimEnd(s[..|s| - 1]) else s
  }

  /** `str.strip()`. */
  function Strip(s: string): string {
    TrimEnd(TrimStart(s))
  }

  /** What TrimStart leaves is a suffix that does not start with whitespace, and all it drops is whitespace. */
  lemma {:induction false} TrimStartSpec(s: string)
    ensures var r := TrimStart(s);
      |r| <= |s| && r == s[|s| - |r|..] &&
      (forall i :: 0 <= i < |s| - |r| ==> IsSpace(s[i])) &&
      (r != [] ==> !IsSpace(r[0]))
  {
    if s != [] && IsSpace(s[0]) {
      TrimStartSpec(s[1..]);
      var r := TrimStart(s);
      assert forall i :: 1 <= i < |s| - |r| ==> s[i] == s[1..][i - 1];
    }
  }

  /** What TrimEnd leaves is a prefix that does not end with whitespace, and all it drops is whitespace. */
  lemma {:induction false} TrimEndSpec(s: string)
    ensures var r := TrimEnd(s);
      |r| <= |s| && r == s[..|r|] &&
      (forall i :: |r| <= i < |s| ==> IsSpace(s[i])) &&
      (r != [] ==> !IsSpace(r[|r| - 1]))
  {
    if s != [] && IsSpace(s[|s| - 1]) {
      TrimEndSpec(s[..|s| - 1]);
      var r := TrimEnd(s);
      assert forall i :: |r| <= i < |s| - 1 ==> s[i] == s[..|s| - 1][i];
    }
  }

  /** `r` is the piece s[i..i + |r|] of `s`, and everything outside that piece is whitespace. */
  predicate CutAt(s: string, r: string, i: int) {
    0 <= i <= |s| - |r| && r == s[i..i + |r|] &&
    (forall k :: 0 <= k < i ==> IsSpace(s[k])) &&
    (forall k :: i + |r| <= k < |s| ==> IsSpace(s[k]))
  }

  /**
   * What `str.strip()` returns is one contiguous piece of the input, so
   * interior characters (newlines included) are kept; everything cut off on
   * either side is whitespace, and the result neither starts nor ends with it.
   */
  lemma StripSpec(s: string)
    ensures exists i :: CutAt(s, Strip(s), i)
    ensures var r := Strip(s); r != [] ==> !IsSpace(r[0]) && !IsSpace(r[|r| - 1])
  {
    var t := TrimStart(s);
    var r := TrimEnd(t);
    TrimStartSpec(s);
    TrimEndSpec(t);
    var i := |s| - |t|;
    assert r == s[i..i + |r|];
    forall k | i + |r| <= k < |s| ensures IsSpace(s[k]) {
      assert s[k] == t[k - i];
    }
    assert CutAt(s, r, i);
    assert r == Strip(s);
  }

  /** Stripping twice strips no more than stripping once. */
  lemma StripIdempotent(s: string)
    ensures Strip(Strip(s)) == Strip(s)
  {
    StripSpec(s);
    var r := Strip(s);
    if r != [] {
      assert TrimStart(r) == r;
      assert TrimEnd(r) == r;
    }
  }

  /** Text without surrounding whitespace passes through unchanged, embedded newlines and all. */
  lemma StripKeepsTrimmedText(s: string)
    requires s != [] ==> !IsSpace(s[0]) && !IsSpace(s[|s| - 1])
    ensures Strip(s) == s
  {
  }

  // ---------------------------------------------------------------------
  // format_timestamp
  // ---------------------------------------------------------------------

  /**
   * format_timestamp(ms), step for step: the first divmod, by 1000, takes
   * the floored quotient and a remainder in [0, 1000); the next two
   * `divmod`s act on whole numbers, where Dafny's `/` and `%` (positive
   * divisor) agree with Python's floor division. `int()` of the non-negative
   * remainder truncates, which is its floor. Hours are not wrapped.
   */
  function FormatTimestamp(ms: real): string {
    var seconds := (ms / 1000.0).Floor;
    var millis := ms - 1000.0 * seconds as real;
    var minutes, secs := seconds / 60, seconds % 60;
    var hours, mins := minutes / 60, minutes % 60;
    RenderClock(Clock(hours, mins, secs, millis.Floor))
  }

  /** The fields of a clock reading; a reading is normal when minutes and seconds are below 60 and millis below 1000. */
  datatype Clock = Clock(hours: int, minutes: nat, seconds: nat, millis: nat)

  predicate NormalClock(c: Clock) {
    c.minutes < 60 && c.seconds < 60 && c.millis < 1000
  }

  /** The milliseconds a clock reading stands for. */
  function ClockValue(c: Clock): int {
    c.hours * 3600000 + c.minutes * 60000 + c.seconds * 1000 + c.millis
  }

  /** The normal clock reading of a whole number of milliseconds (negative hours for negative times). */
  function ClockOf(ms: int): (c: Clock)
    ensures NormalClock(c) && ClockValue(c) == ms
  {
    var hours, inHour := ms / 3600000, ms % 3600000;
    var minutes, inMinute := inHour / 60000, inHour % 60000;
    Clock(hours, minutes, inMinute / 1000, inMinute % 1000)
  }

  /** HH:MM:SS,mmm for a clock reading, with the widths Python's `02` and `03` format specs give. */
  function RenderClock(c: Clock): string {
    PadInt(c.hours, 2) + ClockTail(c)
  }

  /** The fixed-width part ":MM:SS,mmm" after the hours. */
  function ClockTail(c: Clock): string {
    ":" + PadInt(c.minutes, 2) + ":" + PadInt(c.seconds, 2) + "," + PadInt(c.millis, 3)
  }

  /**
   * The chained divmod of format_timestamp yields exactly the normal clock
   * reading of floor(ms): h * 3600000 + m * 60000 + s * 1000 + millis == floor(ms).
   */
  lemma FormatTimestampIsClock(ms: real)
    ensures FormatTimestamp(ms) == RenderClock(ClockOf(ms.Floor))
  {
    var seconds := (ms / 1000.0).Floor;
    var f := (ms - 1000.0 * seconds as real).Floor;
    var minutes := seconds / 60;
    var c' := Clock(minutes / 60, minutes % 60, seconds % 60, f);
    assert FormatTimestamp(ms) == RenderClock(c');
    FirstDivmod(ms);
    LaterDivmods(seconds, f);
    ClockUnique(ClockOf(ms.Floor), c');
  }

  /** `divmod(ms, 1000)` on a real: the remainder lies in [0, 1000) and floor(ms) is 1000 * quotient + floor(remainder). */
  lemma FirstDivmod(ms: real)
    ensures var seconds := (ms / 1000.0).Floor; var millis := ms - 1000.0 * seconds as real;
      0.0 <= millis < 1000.0 && ms.Floor == 1000 * seconds + millis.Floor
  {
    var seconds := (ms / 1000.0).Floor;
    var millis := ms - 1000.0 * seconds as real;
    var f := millis.Floor;
    assert ms == (1000 * seconds + f) as real + (millis - f as real);
  }

  /** The two whole-number divmods by 60 give minutes and seconds below 60 and keep the total. */
  lemma LaterDivmods(seconds: int, f: int)
    requires 0 <= f < 1000
    ensures var minutes := seconds / 60; var c := Clock(minutes / 60, minutes % 60, seconds % 60, f);
      NormalClock(c) && ClockValue(c) == 1000 * seconds + f
  {
    var minutes := seconds / 60;
    assert seconds == 60 * minutes + seconds % 60;
    assert minutes == 60 * (minutes / 60) + minutes % 60;
  }

  /** A whole number of milliseconds has only one normal clock reading. */
  lemma ClockUnique(a: Clock, b: Clock)
    requires NormalClock(a) && NormalClock(b) && ClockValue(a) == ClockValue(b)
    ensures a == b
  {
    var ra := a.minutes * 60000 + a.seconds * 1000 + a.millis;
    var rb := b.minutes * 60000 + b.seconds * 1000 + b.millis;
    assert 0 <= ra < 3600000 && 0 <= rb < 3600000;
    assert a.hours == b.hours;
    assert a.minutes * 60000 + (a.seconds * 1000 + a.millis) == b.minutes * 60000 + (b.seconds * 1000 + b.millis);
    assert a.minutes == b.minutes;
    assert a.seconds == b.seconds;
  }

  /** Any normal clock reading of floor(ms) is what format_timestamp writes for ms. */
  lemma TimestampOfClock(ms: real, c: Clock)
    requires NormalClock(c) && ClockValue(c) == ms.Floor
    ensures FormatTimestamp(ms) == RenderClock(c)
  {
    FormatTimestampIsClock(ms);
    ClockUnique(ClockOf(ms.Floor), c);
  }

  /** Reads HH:MM:SS,mmm back: hours of any width (and sign), then exactly 2, 2 and 3 digits. */
  function ParseClock(t: string): Option<Clock> {
    if |t| < 11 then None
    else
      var tail := t[|t| - 10..];
      var mm, ss, fff := tail[1..3], tail[4..6], tail[7..];
      if tail[0] == ':' && tail[3] == ':' && tail[6] == ',' && AllDigits(mm) && AllDigits(ss) && AllDigits(fff) then
        match ParseInt(t[..|t| - 10])
        case Some(h) => Some(Clock(h, Value(mm), Value(ss), Value(fff)))
        case None => None
      else None
  }

  /** The parser of the timestamps format_timestamp writes; defined on its own, from the text. */
  function ParseTimestamp(t: string): Option<int> {
    match ParseClock(t)
    case Some(c) => if NormalClock(c) then Some(ClockValue(c)) else None
    case None => None
  }

  lemma ClockTailLayout(c: Clock)
    requires NormalClock(c)
    ensures var tail := ClockTail(c);
      |tail| == 10 && tail[0] == ':' && tail[3] == ':' && tail[6] == ',' &&
      tail[1..3] == PadInt(c.minutes, 2) && tail[4..6] == PadInt(c.seconds, 2) && tail[7..] == PadInt(c.millis, 3)
  {
    var mm, ss, fff := PadInt(c.minutes, 2), PadInt(c.seconds, 2), PadInt(c.millis, 3);
    PadIntWidth(c.minutes, 2);
    PadIntWidth(c.seconds, 2);
    PadIntWidth(c.millis, 3);
    var tail := ClockTail(c);
    assert tail == [':'] + mm + [':'] + ss + [','] + fff;
  }

  lemma ParseRenderClock(c: Clock)
    requires NormalClock(c)
    ensures ParseClock(RenderClock(c)) == Some(c)
  {
    var hh := PadInt(c.hours, 2);
    var tail := ClockTail(c);
    ClockTailLayout(c);
    PadIntWidth(c.minutes, 2);
    PadIntWidth(c.seconds, 2);
    PadIntWidth(c.millis, 3);
    ValueOfZeroPad(c.minutes, 2);
    ValueOfZeroPad(c.seconds, 2);
    ValueOfZeroPad(c.millis, 3);
    ParsePadInt(c.hours, 2);
    assert |hh| >= 1;
    var t := RenderClock(c);
    assert t == hh + tail;
    assert t[..|t| - 10] == hh;
    assert t[|t| - 10..] == tail;
  }

  /**
   * Round trip: parsing what format_timestamp writes gives back floor(ms).
   * The hours field is not wrapped at 24; minutes and seconds take exactly
   * two characters and milliseconds exactly three.
   */
  lemma TimestampRoundTrip(ms: real)
    ensures ParseTimestamp(FormatTimestamp(ms)) == Some(ms.Floor)
  {
    FormatTimestampIsClock(ms);
    ParseRenderClock(ClockOf(ms.Floor));
  }

  /** The layout of a timestamp: an hours field of two characters at least, then ":MM:SS,mmm". */
  lemma TimestampLayout(ms: real)
    ensures var t := FormatTimestamp(ms); var n := |t|;
      n >= 12 && t[n - 10] == ':' && t[n - 7] == ':' && t[n - 4] == ',' &&
      t[..n - 10] == PadInt(ms.Floor / 3600000, 2) &&
      AllDigits(t[n - 9..n - 7]) && AllDigits(t[n - 6..n - 4]) && AllDigits(t[n - 3..])
  {
    var c := ClockOf(ms.Floor);
    FormatTimestampIsClock(ms);
    ClockTailLayout(c);
    PadIntWidth(c.minutes, 2);
    PadIntWidth(c.seconds, 2);
    PadIntWidth(c.millis, 3);
    var hh := PadInt(c.hours, 2);
    var t := RenderClock(c);
    var n := |t|;
    assert t == hh + ClockTail(c);
    assert t[..n - 10] == hh;
    var tail := t[n - 10..];
    assert tail == ClockTail(c);
    assert t[n - 9..n - 7] == tail[1..3];
    assert t[n - 6..n - 4] == tail[4..6];
    assert t[n - 3..] == tail[7..];
  }

  // ---------------------------------------------------------------------
  // generate_srt
  // ---------------------------------------------------------------------

  /** The first write of an iteration: the cue number on a line of its own. */
  function NumberLine(index: nat): string {
    Digits(index) + "\n"
  }

  /** The second write: both times, turned from seconds into milliseconds by `* 1000`, around " --> ". */
  function TimingLine(seg: Segment): string {
    FormatTimestamp(seg.start * 1000.0) + " --> " + FormatTimestamp(seg.end * 1000.0) + "\n"
  }

  /** The third write: the stripped text, then the blank line that ends the cue. */
  function TextLine(seg: Segment): string {
    Strip(seg.text) + "\n\n"
  }

  /** Everything one iteration writes for the segment numbered `index`. */
  function Cue(index: nat, seg: Segment): string {
    NumberLine(index) + TimingLine(seg) + TextLine(seg)
  }

  /** The concatenation of a list of strings, in order. */
  function Join(parts: seq<string>): string {
    if parts == [] then "" else parts[0] + Join(parts[1..])
  }

  /** `enumerate(xs, start=first)` followed by rendering each numbered item. */
  function Numbered<T>(render: (nat, T) -> string, xs: seq<T>, first: nat): (r: seq<string>)
    ensures |r| == |xs|
  {
    seq(|xs|, (i: nat) requires i < |xs| => render(first + i, xs[i]))
  }

  /** The whole file: the cues of the segments, numbered from 1, in input order. */
  function SrtText(segs: seq<Segment>): string {
    Join(Numbered(Cue, segs, 1))
  }

  lemma {:induction false} JoinAppend(a: seq<string>, b: seq<string>)
    ensures Join(a + b) == Join(a) + Join(b)
  {
    if a == [] {
      assert a + b == b;
    } else {
      assert (a + b)[1..] == a[1..] + b;
      JoinAppend(a[1..], b);
    }
  }

  lemma JoinSingle(x: string)
    ensures Join([x]) == x
  {
    assert [x][1..] == [];
  }

  /** Numbering a concatenation numbers the second part on from where the first stopped. */
  lemma NumberedAppend<T>(render: (nat, T) -> string, a: seq<T>, b: seq<T>, first: nat)
    ensures Numbered(render, a + b, first) == Numbered(render, a, first) + Numbered(render, b, first + |a|)
  {
  }

  /** Item i of a numbered list sits between the items before it and those after, and carries number first + i. */
  lemma JoinNumberedAt<T>(render: (nat, T) -> string, xs: seq<T>, first: nat, i: nat)
    requires i < |xs|
    ensures Join(Numbered(render, xs, first)) ==
      Join(Numbered(render, xs[..i], first)) + render(first + i, xs[i]) + Join(Numbered(render, xs[i + 1..], first + i + 1))
  {
    var x := xs[i];
    var a, b, c := Numbered(render, xs[..i], first), Numbered(render, [x], first + i), Numbered(render, xs[i + 1..], first + i + 1);
    NumberedAppend(render, xs[..i] + [x], xs[i + 1..], first);
    NumberedAppend(render, xs[..i], [x], first);
    assert xs == xs[..i] + [x] + xs[i + 1..];
    JoinAppend(a + b, c);
    JoinAppend(a, b);
    JoinSingle(render(first + i, x));
    assert b == [render(first + i, x)];
  }

  /**
   * The file is the cues in input order: what precedes segment i is the cues
   * of segments 0..i-1, then comes segment i's cue, numbered i + 1, then the
   * cues of the rest, numbered on from i + 2. No re-sorting, no gap in the
   * numbering.
   */
  lemma CueAt(segs: seq<Segment>, i: nat)
    requires i < |segs|
    ensures SrtText(segs) == SrtText(segs[..i]) + Cue(i + 1, segs[i]) + Join(Numbered(Cue, segs[i + 1..], i + 2))
  {
    JoinNumberedAt(Cue, segs, 1, i);
  }

  /** Numbering one more item appends its rendering, with the next number. */
  lemma JoinNumberedSnoc<T>(render: (nat, T) -> string, xs: seq<T>, first: nat, i: nat)
    requires i < |xs|
    ensures Join(Numbered(render, xs[..i + 1], first)) == Join(Numbered(render, xs[..i], first)) + render(first + i, xs[i])
  {
    var p := xs[..i + 1];
    JoinNumberedAt(render, p, first, i);
    assert p[..i] == xs[..i];
    assert p[i + 1..] == [];
    assert Numbered(render, [], first + i + 1) == [];
  }

  /** One more segment appends one more cue, numbered after the others. */
  lemma SrtSnoc(segs: seq<Segment>, i: nat)
    requires i < |segs|
    ensures SrtText(segs[..i + 1]) == SrtText(segs[..i]) + Cue(i + 1, segs[i])
  {
    JoinNumberedSnoc(Cue, segs, 1, i);
  }

  /** No segments, no text: an empty list gives an empty file. */
  lemma SrtOfNothing()
    ensures SrtText([]) == ""
  {
  }

  lemma Regroup(before: string, a: string, b: string, c: string)
    ensures before + a + b + c == before + (a + b + c)
  {
  }

  /**
   * generate_srt: a loop over `enumerate(segments, start=1)` issuing three
   * writes per segment; `out` accumulates what the writes put in the file.
   */
  method GenerateSrt(segs: seq<Segment>) returns (out: string)
    ensures out == SrtText(segs)
  {
    out := "";
    var i := 0;
    while i < |segs|
      invariant 0 <= i <= |segs|
      invariant out == SrtText(segs[..i])
    {
      var seg := segs[i];
      ghost var before := out;
      out := out + NumberLine(i + 1);
      out := out + TimingLine(seg);
      out := out + TextLine(seg);
      Regroup(before, NumberLine(i + 1), TimingLine(seg), TextLine(seg));
      SrtSnoc(segs, i);
      i := i + 1;
    }
    assert segs[..i] == segs;
  }

  predicate OccursAt(x: string, s: string, p: int) {
    0 <= p <= |s| - |x| && s[p..p + |x|] == x
  }

  ghost predicate IsSubstring(x: string, s: string) {
    exists p :: OccursAt(x, s, p)
  }

  lemma OccursWithin(x: string, a: string, b: string, c: string, p: int)
    requires OccursAt(x, b, p)
    ensures OccursAt(x, a + b + c, |a| + p)
  {
    assert (a + b + c)[|a| + p..|a| + p + |x|] == b[p..p + |x|];
  }

  lemma SubstringWithin(x: string, a: string, b: string, c: string)
    requires IsSubstring(x, b)
    ensures IsSubstring(x, a + b + c)
  {
    var p :| OccursAt(x, b, p);
    OccursWithin(x, a, b, c, p);
  }

  lemma ArrowBetween(t1: string, t2: string)
    ensures IsSubstring(" --> ", t1 + " --> " + t2 + "\n")
  {
    var t := t1 + " --> " + t2 + "\n";
    assert t[|t1|..|t1| + 5] == " --> ";
    assert OccursAt(" --> ", t, |t1|);
  }

  lemma TextFirst(text: string)
    ensures IsSubstring(text, text + "\n\n")
  {
    assert (text + "\n\n")[..|text|] == text;
    assert OccursAt(text, text + "\n\n", 0);
  }

  /** A cue holds the separator and the stripped text. */
  lemma CueContains(index: nat, seg: Segment)
    ensures IsSubstring(" --> ", Cue(index, seg))
    ensures IsSubstring(Strip(seg.text), Cue(index, seg))
  {
    ArrowBetween(FormatTimestamp(seg.start * 1000.0), FormatTimestamp(seg.end * 1000.0));
    SubstringWithin(" --> ", NumberLine(index), TimingLine(seg), TextLine(seg));
    TextFirst(Strip(seg.text));
    SubstringWithin(Strip(seg.text), NumberLine(index) + TimingLine(seg), TextLine(seg), "");
    assert NumberLine(index) + TimingLine(seg) + TextLine(seg) + "" == Cue(index, seg);
  }

  /** Every segment's stripped text, and the " --> " separator, occur in the file. */
  lemma SrtContainsEveryCue(segs: seq<Segment>, i: nat)
    requires i < |segs|
    ensures IsSubstring(Strip(segs[i].text), SrtText(segs))
    ensures IsSubstring(" --> ", SrtText(segs))
  {
    var pre, post := SrtText(segs[..i]), Join(Numbered(Cue, segs[i + 1..], i + 2));
    var c := Cue(i + 1, segs[i]);
    CueAt(segs, i);
    CueContains(i + 1, segs[i]);
    var p :| OccursAt(" --> ", c, p);
    OccursWithin(" --> ", pre, c, post, p);
    var q :| OccursAt(Strip(segs[i].text), c, q);
    OccursWithin(Strip(segs[i].text), pre, c, post, q);
  }
}
