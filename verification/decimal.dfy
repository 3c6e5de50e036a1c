/**
 Decimal rendering of integers, as JavaScript's `String(n)` and template literals print them,
 and `padStart(2, '0')`. Parsing is the inverse used to show the rendering loses nothing.
 */
module Decimal {
  import Ascii

  function DigitChar(d: nat): (c: char)
    requires d < 10
    ensures Ascii.IsDigit(c)
  {
    "0123456789"[d]
  }

  function DigitValue(c: char): (d: nat)
    requires Ascii.IsDigit(c)
    ensures d < 10
  {
    c as int - '0' as int
  }

  predicate AllDigits(s: string) {
    forall i :: 0 <= i < |s| ==> Ascii.IsDigit(s[i])
  }

  /** Shortest decimal rendering of `n`: digits only, no leading zero except for `0` itself. */
  function NatToString(n: nat): (r: string)
    ensures |r| >= 1 && AllDigits(r)
    ensures r[0] == '0' ==> n == 0
    ensures |r| == 1 <==> n < 10
    decreases n
  {
    if n < 10 then [DigitChar(n)] else NatToString(n / 10) + [DigitChar(n % 10)]
  }

  /** `String(i)` for an integer: a minus sign followed by the magnitude when negative. */
  function IntToString(i: int): (r: string)
    ensures |r| >= 1
    ensures (r[0] == '-') <==> i < 0
  {
    if i < 0 then "-" + NatToString(-i) else NatToString(i)
  }

  /** Reads a string of digits back as a number (leading zeros allowed). */
  function ParseNat(s: string): nat
    requires AllDigits(s)
  {
    if |s| == 0 then 0 else 10 * ParseNat(s[..|s| - 1]) + DigitValue(s[|s| - 1])
  }

  lemma {:induction false} ParseNatToString(n: nat)
    ensures ParseNat(NatToString(n)) == n
    decreases n
  {
    if n >= 10 {
      var s := NatToString(n);
      assert s[..|s| - 1] == NatToString(n / 10);
      ParseNatToString(n / 10);
    }
  }

  /** Distinct numbers have distinct renderings. */
  lemma NatToStringInjective(a: nat, b: nat)
    requires NatToString(a) == NatToString(b)
    ensures a == b
  {
    ParseNatToString(a);
    ParseNatToString(b);
  }

  /** Reads an optional minus sign followed by digits; anything else reads as 0. */
  function ParseInt(s: string): int {
    if |s| >= 1 && s[0] == '-' && AllDigits(s[1..]) then 0 - ParseNat(s[1..]) as int
    else if AllDigits(s) then ParseNat(s)
    else 0
  }

  lemma ParseIntToString(i: int)
    ensures ParseInt(IntToString(i)) == i
  {
    if i < 0 {
      ParseNegative(i);
    } else {
      ParseNonNegative(i);
    }
  }

  lemma ParseNegative(i: int)
    requires i < 0
    ensures ParseInt(IntToString(i)) == i
  {
    var m: nat := -i;
    var t := NatToString(m);
    ParseNatToString(m);
    ParseMinus(t);
    assert IntToString(i) == "-" + t;
  }

  /** A minus sign followed by digits reads as the negated digits. */
  lemma ParseMinus(t: string)
    requires AllDigits(t)
    ensures ParseInt("-" + t) == 0 - ParseNat(t) as int
  {
    var r := "-" + t;
    assert r[0] == '-' && r[1..] == t;
  }

  lemma ParseNonNegative(i: nat)
    ensures ParseInt(IntToString(i)) == i
  {
    var r := IntToString(i);
    assert r == NatToString(i) && AllDigits(r) && r[0] != '-';
    ParseNatToString(i);
    assert ParseInt(r) == ParseNat(r);
  }

  /** Distinct integers have distinct renderings, signs included. */
  lemma IntToStringInjective(a: int, b: int)
    requires IntToString(a) == IntToString(b)
    ensures a == b
  {
    ParseIntToString(a);
    ParseIntToString(b);
  }

  /** `s.padStart(2, '0')`. */
  function PadStart2(s: string): (r: string)
    ensures |r| == if |s| >= 2 then |s| else 2
    ensures r[|r| - |s|..] == s
    ensures forall k :: 0 <= k < |r| - |s| ==> r[k] == '0'
  {
    if |s| >= 2 then s else if |s| == 1 then "0" + s else "00"
  }

  /** A one- or two-digit number padded to two digits reads back as itself. */
  lemma PadStart2RoundTrip(n: nat)
    requires n < 100
    ensures |PadStart2(NatToString(n))| == 2
    ensures AllDigits(PadStart2(NatToString(n)))
    ensures ParseNat(PadStart2(NatToString(n))) == n
  {
    ParseNatToString(n);
    var s := NatToString(n);
    if n < 10 {
      var p := PadStart2(s);
      assert p == ['0', s[0]];
      assert p[..1] == "0";
    } else {
      assert |NatToString(n / 10)| == 1;
    }
  }
}
