/**
 * Decimal rendering of integers as the subtitle writer uses it: Python's
 * `str(n)` for a natural number, and the format spec `0<w>` (as in
 * `f"{n:02}"`), which pads with zeros after the sign up to a total width.
 * A parser for the same digits is the partner that the round-trip lemmas
 * connect to the renderer.
 */
module Decimal {
  import opened Wrappers

  predicate IsDigit(c: char) {
    '0' <= c <= '9'
  }

  predicate AllDigits(s: string) {
    forall i :: 0 <= i < |s| ==> IsDigit(s[i])
  }

  function DigitChar(d: nat): (c: char)
    requires d < 10
    ensures IsDigit(c)
  {
    ('0' as int + d) as char
  }

  function DigitValue(c: char): (d: nat)
    requires IsDigit(c)
    ensures d < 10
  {
    c as int - '0' as int
  }

  /** Python's `str(n)` for `n >= 0`: most significant digit first, no leading zero. */
  function Digits(n: nat): (s: string)
    ensures 1 <= |s|
    ensures (n < 10 ==> |s| == 1) && (n < 100 ==> |s| <= 2) && (n < 1000 ==> |s| <= 3)
    decreases n
  {
    if n < 10 then [DigitChar(n)] else Digits(n / 10) + [DigitChar(n % 10)]
  }

  /** Digits writes only digit characters, and no leading zero. */
  lemma {:induction false} DigitsSpec(n: nat)
    ensures AllDigits(Digits(n)) && (|Digits(n)| > 1 ==> Digits(n)[0] != '0')
    decreases n
  {
    if n >= 10 {
      DigitsSpec(n / 10);
    }
  }

  /** The number a string of decimal digits denotes (leading zeros allowed). */
  function Value(s: string): nat
    requires AllDigits(s)
  {
    if s == [] then 0 else 10 * Value(s[..|s| - 1]) + DigitValue(s[|s| - 1])
  }

  /** A run of `k` zero digits. */
  function Zeros(k: nat): (z: string)
    ensures |z| == k
  {
    if k == 0 then "" else "0" + Zeros(k - 1)
  }

  /** Left-pads `s` with '0' up to width `w`; a longer `s` is kept whole. */
  function ZeroPad(s: string, w: nat): (r: string)
    ensures |r| == if |s| >= w then |s| else w
  {
    if |s| >= w then s else Zeros(w - |s|) + s
  }

  /** Python's `format(n, "0<w>")` for an integer `n`: the sign, then zeros, then the digits, `w` characters at least. */
  function PadInt(n: int, w: nat): string {
    if n >= 0 then ZeroPad(Digits(n), w)
    else "-" + ZeroPad(Digits(-n), if w > 0 then w - 1 else 0)
  }

  /** Reads an optionally negative decimal integer; the partner of PadInt. */
  function ParseInt(s: string): Option<int> {
    if |s| > 0 && s[0] == '-' then
      if |s| > 1 && AllDigits(s[1..]) then Some(-(Value(s[1..]) as int)) else None
    else if |s| > 0 && AllDigits(s) then Some(Value(s))
    else None
  }

  lemma {:induction false} ValueOfDigits(n: nat)
    ensures AllDigits(Digits(n)) && Value(Digits(n)) == n
    decreases n
  {
    DigitsSpec(n);
    var s := Digits(n);
    if n >= 10 {
      ValueOfDigits(n / 10);
      assert s[..|s| - 1] == Digits(n / 10);
    }
  }

  lemma {:induction false} ZerosLength(k: nat)
    ensures |Zeros(k)| == k && AllDigits(Zeros(k))
  {
    if k > 0 {
      ZerosLength(k - 1);
    }
  }

  lemma {:induction false} ValueIgnoresLeadingZeros(k: nat, s: string)
    requires AllDigits(s)
    ensures AllDigits(Zeros(k) + s) && Value(Zeros(k) + s) == Value(s)
    decreases |s|, k
  {
    ZerosLength(k);
    var t := Zeros(k) + s;
    if s == [] {
      assert t == Zeros(k);
      if k > 0 {
        ValueIgnoresLeadingZeros(k - 1, []);
        assert Zeros(k - 1) + [] == Zeros(k - 1);
        ZerosLength(k - 1);
        assert t[..|t| - 1] == Zeros(k - 1) by {
          assert Zeros(k) == "0" + Zeros(k - 1);
          assert Zeros(k) == Zeros(k - 1) + "0" by { ZerosSnoc(k - 1); }
        }
      }
    } else {
      ValueIgnoresLeadingZeros(k, s[..|s| - 1]);
      assert t[..|t| - 1] == Zeros(k) + s[..|s| - 1];
    }
  }

  lemma {:induction false} ZerosSnoc(k: nat)
    ensures "0" + Zeros(k) == Zeros(k) + "0"
  {
    if k > 0 {
      ZerosSnoc(k - 1);
      assert Zeros(k) + "0" == "0" + (Zeros(k - 1) + "0");
    }
  }

  /** Zero padding never changes the number the digits denote. */
  lemma ValueOfZeroPad(n: nat, w: nat)
    ensures AllDigits(ZeroPad(Digits(n), w)) && Value(ZeroPad(Digits(n), w)) == n
  {
    var s := Digits(n);
    ValueOfDigits(n);
    ZerosLength(w);
    if |s| < w {
      ValueIgnoresLeadingZeros(w - |s|, s);
    }
  }

  lemma ParseUnsigned(r: string)
    requires |r| > 0 && AllDigits(r)
    ensures ParseInt(r) == Some(Value(r))
  {
    assert IsDigit(r[0]);
  }

  lemma ParseNegative(r: string)
    requires |r| > 0 && AllDigits(r)
    ensures ParseInt("-" + r) == Some(-(Value(r) as int))
  {
    assert ("-" + r)[1..] == r;
  }

  /** Parsing what PadInt rendered gives back the integer, whatever the width. */
  lemma ParsePadInt(n: int, w: nat)
    ensures ParseInt(PadInt(n, w)) == Some(n)
  {
    if n >= 0 {
      var r := ZeroPad(Digits(n), w);
      ValueOfZeroPad(n, w);
      ParseUnsigned(r);
      var v: int := Value(r);
      assert v == n;
      assert PadInt(n, w) == r;
    } else {
      var m: nat := -n;
      var w' := if w > 0 then w - 1 else 0;
      var r := ZeroPad(Digits(m), w');
      ValueOfZeroPad(m, w');
      ParseNegative(r);
      var v: int := -(Value(r) as int);
      assert v == n;
      assert PadInt(n, w) == "-" + r;
    }
  }

  /** 10^w. */
  function Pow10(w: nat): (p: nat)
    ensures p >= 1
  {
    if w == 0 then 1 else 10 * Pow10(w - 1)
  }

  /** A number below 10^w has at most w digits (and always at least one). */
  lemma {:induction false} DigitsLength(n: nat, w: nat)
    requires 1 <= w && n < Pow10(w)
    ensures |Digits(n)| <= w
    decreases w
  {
    if n >= 10 {
      DigitsLength(n / 10, w - 1);
    }
  }

  /** A natural number below 10^w is rendered by PadInt in exactly `w` digits. */
  lemma PadIntWidth(n: int, w: nat)
    requires 0 <= n < Pow10(w) && 1 <= w
    ensures |PadInt(n, w)| == w && AllDigits(PadInt(n, w))
  {
    DigitsLength(n, w);
    ValueOfZeroPad(n, w);
  }
}
