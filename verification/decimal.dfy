/**
 Decimal rendering of integers as Python's format specs produce it
 (`str(n)`, `f"{n:04d}"`, `f"{m:02d}"`), and the value a digit string denotes,
 which is what makes every rendered identifier or period code readable back.
 */
module Decimal {
  import opened Text
  import Wrappers

  predicate AllDigits(s: string) {
    forall k :: 0 <= k < |s| ==> IsDigit(s[k])
  }

  function DigitChar(d: nat): (c: char)
    requires d < 10
    ensures IsDigit(c)
  {
    (('0' as int) + d) as char
  }

  function DigitValue(c: char): (d: nat)
    requires IsDigit(c)
    ensures d < 10
  {
    (c as int) - ('0' as int)
  }

  /** `str(n)` for a non-negative integer. */
  function Dec(n: nat): (r: string)
    ensures r != [] && AllDigits(r)
    ensures n < 10 <==> |r| == 1
  {
    if n < 10 then [DigitChar(n)] else Dec(n / 10) + [DigitChar(n % 10)]
  }

  function Pow10(w: nat): (r: nat)
    ensures r >= 1
  {
    if w == 0 then 1 else 10 * Pow10(w - 1)
  }

  /** A number below 10^w has at most `w` digits (and always at least one). */
  lemma {:induction false} DecWidth(n: nat, w: nat)
    requires 1 <= w && n < Pow10(w)
    ensures |Dec(n)| <= w
  {
    if n >= 10 {
      assert w > 1;
      assert n / 10 < Pow10(w - 1);
      DecWidth(n / 10, w - 1);
    }
  }

  /** The number a digit string denotes; leading zeros are allowed. */
  function ValueOf(s: string): nat
    requires AllDigits(s)
  {
    if s == [] then 0 else ValueOf(s[..|s| - 1]) * 10 + DigitValue(s[|s| - 1])
  }

  /** Reading back `str(n)` gives `n`. */
  lemma {:induction false} ValueOfDec(n: nat)
    ensures ValueOf(Dec(n)) == n
  {
    if n >= 10 {
      var d := Dec(n);
      assert d[..|d| - 1] == Dec(n / 10);
      ValueOfDec(n / 10);
    }
  }

  function Zeros(k: nat): (r: string)
    ensures |r| == k && AllDigits(r)
  {
    seq(k, _ => '0')
  }

  lemma {:induction false} ZerosValue(k: nat)
    ensures ValueOf(Zeros(k)) == 0
  {
    if k > 0 {
      assert Zeros(k)[..k - 1] == Zeros(k - 1);
      ZerosValue(k - 1);
    }
  }

  lemma {:induction false} LeadingZerosValue(k: nat, s: string)
    requires AllDigits(s)
    ensures ValueOf(Zeros(k) + s) == ValueOf(s)
  {
    var t := Zeros(k) + s;
    if s == [] {
      assert t == Zeros(k);
      ZerosValue(k);
    } else {
      assert t[..|t| - 1] == Zeros(k) + s[..|s| - 1];
      assert t[|t| - 1] == s[|s| - 1];
      LeadingZerosValue(k, s[..|s| - 1]);
    }
  }

  /** `f"{n:0{w}d}"`: `str(n)` left-padded with zeros to width `w`; a wider
      number is not truncated. */
  function Pad(n: nat, w: nat): string
  {
    var d := Dec(n);
    if |d| < w then Zeros(w - |d|) + d else d
  }

  /** Padding is readable back and never cuts digits off. */
  lemma PadValue(n: nat, w: nat)
    ensures AllDigits(Pad(n, w)) && |Pad(n, w)| >= w
    ensures ValueOf(Pad(n, w)) == n
  {
    var d := Dec(n);
    ValueOfDec(n);
    if |d| < w {
      LeadingZerosValue(w - |d|, d);
    }
  }

  /** So two different numbers never render to the same padded string. */
  lemma PadInjective(a: nat, b: nat, w: nat)
    requires Pad(a, w) == Pad(b, w)
    ensures a == b
  {
    PadValue(a, w);
    PadValue(b, w);
  }

  /** `str(n)` for any integer. */
  function Str(n: int): (r: string)
    ensures n >= 0 ==> r == Dec(n)
  {
    if n >= 0 then Dec(n) else "-" + Dec(-n)
  }

  /** `f"{m:02d}"` for any integer: the sign counts towards the width, so
      -2 renders as "-2" and 5 as "05". */
  function Format2(m: int): string
  {
    if m >= 0 then Pad(m, 2) else "-" + Dec(-m)
  }

  /** `int(s)` restricted to non-empty ASCII digit strings. */
  function ParseNat(s: string): (r: Wrappers.Option<nat>)
    ensures r.Some? <==> s != [] && AllDigits(s)
  {
    if s != [] && AllDigits(s) then Wrappers.Some(ValueOf(s)) else Wrappers.None
  }
}
