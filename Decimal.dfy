/** Decimal text of integers, as JavaScript's `Number.prototype.toString()`
    renders a whole number of magnitude below 1e21 (larger ones switch to
    exponential notation, which is not modelled), its inverse, and
    `String.prototype.padStart`. */
module Decimal {

  import opened Common

  predicate IsDigit(c: char) {
    '0' <= c <= '9'
  }

  predicate AllDigits(s: string) {
    forall i :: 0 <= i < |s| ==> IsDigit(s[i])
  }

  function DigitChar(d: nat): (c: char)
    requires d < 10
    ensures IsDigit(c)
  {
    "0123456789"[d]
  }

  function DigitValue(c: char): (d: nat)
    requires IsDigit(c)
    ensures d < 10
    ensures DigitChar(d) == c
  {
    (c as int - '0' as int) as nat
  }

  lemma DigitValueOfChar(d: nat)
    requires d < 10
    ensures DigitValue(DigitChar(d)) == d
  {
  }

  /** The shortest decimal rendering of `n`: no sign, no leading zero. */
  function NatToString(n: nat): (r: string)
    ensures 1 <= |r|
    ensures AllDigits(r)
    ensures |r| > 1 ==> r[0] != '0'
    ensures n < 10 <==> |r| == 1
    ensures 10 <= n < 100 <==> |r| == 2
    decreases n
  {
    if n < 10 then [DigitChar(n)] else NatToString(n / 10) + [DigitChar(n % 10)]
  }

  /** The value of a string of decimal digits (the empty string reads as 0). */
  function ParseNat(s: string): (n: nat)
    requires AllDigits(s)
    ensures |s| <= 1 ==> n < 10
  {
    if |s| == 0 then 0 else ParseNat(s[..|s| - 1]) * 10 + DigitValue(s[|s| - 1])
  }

  /** Parsing the rendering of a number gives the number back. */
  lemma {:induction false} ParseNatToString(n: nat)
    ensures ParseNat(NatToString(n)) == n
    decreases n
  {
    var r := NatToString(n);
    if n < 10 {
      DigitValueOfChar(n);
    } else {
      var p := NatToString(n / 10);
      assert r == p + [DigitChar(n % 10)];
      assert r[..|r| - 1] == p;
      ParseNatToString(n / 10);
      DigitValueOfChar(n % 10);
    }
  }

  /** `Number.prototype.toString()` of a whole number: a '-' before the
      digits of its magnitude when negative, and no leading zero. */
  function IntToString(i: int): (r: string)
    ensures 1 <= |r|
    ensures i >= 0 ==> AllDigits(r)
    ensures i < 0 ==> r[0] == '-' && AllDigits(r[1..]) && |r| >= 2
    ensures i >= 0 && |r| > 1 ==> r[0] != '0'
    ensures i < 0 ==> r[1] != '0'
  {
    if i < 0 then "-" + NatToString(-i) else NatToString(i)
  }

  /** The inverse of `IntToString`. */
  function ParseInt(s: string): (r: Option<int>)
  {
    if 0 < |s| && AllDigits(s) then Some(ParseNat(s))
    else if 1 < |s| && s[0] == '-' && AllDigits(s[1..]) then Some(-(ParseNat(s[1..]) as int))
    else None
  }

  lemma ParseIntToString(i: int)
    ensures ParseInt(IntToString(i)) == Some(i)
  {
    var r := IntToString(i);
    if i < 0 {
      var m := NatToString(-i);
      assert r[1..] == m;
      assert !AllDigits(r) by { assert !IsDigit(r[0]); }
      ParseNatToString(-i);
      assert ParseInt(r) == Some(-(ParseNat(m) as int));
    } else {
      ParseNatToString(i);
    }
  }

  /** `s.padStart(width, [fill])`: `fill` repeated in front of `s` until it
      is `width` characters long; a string already that long is unchanged. */
  function PadStart(s: string, width: nat, fill: char): (r: string)
    ensures |r| == if |s| >= width then |s| else width
    ensures r[|r| - |s|..] == s
    ensures forall i :: 0 <= i < |r| - |s| ==> r[i] == fill
  {
    if |s| >= width then s else seq(width - |s|, _ => fill) + s
  }
}
