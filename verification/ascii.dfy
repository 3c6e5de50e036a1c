/**
 Character classes and case mapping restricted to ASCII: the source's `toLowerCase`,
 `toUpperCase`, `trim` and the regular-expression class `\s`.
 */
module Ascii {

  /** The ASCII members of `\s`: space, tab, line feed, vertical tab, form feed, carriage return. */
  predicate IsSpace(c: char) {
    c == ' ' || ('\t' <= c <= '\r')
  }

  predicate IsUpper(c: char) { 'A' <= c <= 'Z' }

  predicate IsLower(c: char) { 'a' <= c <= 'z' }

  predicate IsDigit(c: char) { '0' <= c <= '9' }

  /** The class `[a-zA-Z0-9]`. */
  predicate IsAlnum(c: char) { IsUpper(c) || IsLower(c) || IsDigit(c) }

  function ToLower(c: char): (r: char)
    ensures IsUpper(c) ==> IsLower(r)
    ensures !IsUpper(c) ==> r == c
  {
    if IsUpper(c) then (c as int + 32) as char else c
  }

  function ToUpper(c: char): (r: char)
    ensures IsLower(c) ==> IsUpper(r)
    ensures !IsLower(c) ==> r == c
  {
    if IsLower(c) then (c as int - 32) as char else c
  }

  /** `String.prototype.toLowerCase` on ASCII text. */
  function Lower(s: string): (r: string)
    ensures |r| == |s|
    ensures forall i :: 0 <= i < |s| ==> r[i] == ToLower(s[i])
  {
    seq(|s|, i requires 0 <= i < |s| => ToLower(s[i]))
  }

  lemma LowerAppend(a: string, b: string)
    ensures Lower(a + b) == Lower(a) + Lower(b)
  {
  }

  predicate AllSpace(s: string) {
    forall i :: 0 <= i < |s| ==> IsSpace(s[i])
  }

  /** The first position at or after `from` that holds a non-space, or `|s|`. */
  function SkipSpace(s: string, from: nat): (r: nat)
    requires from <= |s|
    ensures from <= r <= |s|
    ensures forall k :: from <= k < r ==> IsSpace(s[k])
    ensures r < |s| ==> !IsSpace(s[r])
    decreases |s| - from
  {
    if from == |s| || !IsSpace(s[from]) then from else SkipSpace(s, from + 1)
  }

  /** The end of the last non-space in `s[lo..hi]`, or `lo` when there is none. */
  function BackSpace(s: string, lo: nat, hi: nat): (r: nat)
    requires lo <= hi <= |s|
    ensures lo <= r <= hi
    ensures forall k :: r <= k < hi ==> IsSpace(s[k])
    ensures r > lo ==> !IsSpace(s[r - 1])
    decreases hi
  {
    if hi == lo || !IsSpace(s[hi - 1]) then hi else BackSpace(s, lo, hi - 1)
  }

  /**
   `String.prototype.trim` on ASCII text: the result is the slice of `s` left once the
   leading and trailing whitespace runs are cut off.
   */
  function Trim(s: string): (r: string)
    ensures exists i, j :: (0 <= i <= j <= |s| && r == s[i..j]
                           && (forall k :: 0 <= k < i ==> IsSpace(s[k]))
                           && (forall k :: j <= k < |s| ==> IsSpace(s[k])))
    ensures |r| > 0 ==> !IsSpace(r[0]) && !IsSpace(r[|r| - 1])
    ensures r == "" <==> AllSpace(s)
  {
    var i := SkipSpace(s, 0);
    var j := BackSpace(s, i, |s|);
    s[i..j]
  }

  /** Trimming is idempotent. */
  lemma TrimIdempotent(s: string)
    ensures Trim(Trim(s)) == Trim(s)
  {
    TrimOfTrimmed(Trim(s));
  }

  /** A string with no surrounding whitespace is its own trim. */
  lemma TrimOfTrimmed(t: string)
    requires |t| > 0 ==> !IsSpace(t[0]) && !IsSpace(t[|t| - 1])
    ensures Trim(t) == t
  {
  }

  /** Lower-casing neither creates nor removes whitespace, so it commutes with trimming. */
  lemma LowerKeepsSpace(c: char)
    ensures IsSpace(ToLower(c)) <==> IsSpace(c)
  {
  }

  /** Trimming only removes characters. */
  lemma TrimKeepsAbsent(s: string, c: char)
    requires c !in s
    ensures c !in Trim(s)
  {
    var t := Trim(s);
    var i, j :| 0 <= i <= j <= |s| && t == s[i..j];
    forall k | 0 <= k < |t| ensures t[k] != c {
      assert t[k] == s[i + k];
    }
  }

  /** Lower-casing never produces a character that is not a lower-case letter. */
  lemma LowerKeepsAbsent(s: string, c: char)
    requires c !in s && !IsLower(c)
    ensures c !in Lower(s)
  {
    var l := Lower(s);
    forall k | 0 <= k < |l| ensures l[k] != c {
      assert l[k] == ToLower(s[k]);
    }
  }

  /** A lower-cased trimmed string is still trimmed. */
  lemma LowerOfTrimmedIsTrimmed(s: string)
    ensures Trim(Lower(Trim(s))) == Lower(Trim(s))
  {
    var t := Trim(s);
    var l := Lower(t);
    if |l| > 0 {
      LowerKeepsSpace(t[0]);
      LowerKeepsSpace(t[|t| - 1]);
    }
    TrimOfTrimmed(l);
  }

  /** Lower-casing leaves the leading whitespace run where it was. */
  lemma {:induction false} SkipSpaceLower(s: string, from: nat)
    requires from <= |s|
    ensures SkipSpace(Lower(s), from) == SkipSpace(s, from)
    decreases |s| - from
  {
    if from < |s| {
      LowerKeepsSpace(s[from]);
      if IsSpace(s[from]) {
        SkipSpaceLower(s, from + 1);
      }
    }
  }

  /** Lower-casing leaves the trailing whitespace run where it was. */
  lemma {:induction false} BackSpaceLower(s: string, lo: nat, hi: nat)
    requires lo <= hi <= |s|
    ensures BackSpace(Lower(s), lo, hi) == BackSpace(s, lo, hi)
    decreases hi
  {
    if hi > lo {
      LowerKeepsSpace(s[hi - 1]);
      if IsSpace(s[hi - 1]) {
        BackSpaceLower(s, lo, hi - 1);
      }
    }
  }

  /** Trimming and lower-casing commute. */
  lemma TrimLowerCommute(s: string)
    ensures Trim(Lower(s)) == Lower(Trim(s))
  {
    SkipSpaceLower(s, 0);
    var i := SkipSpace(s, 0);
    BackSpaceLower(s, i, |s|);
    var j := BackSpace(s, i, |s|);
    assert Lower(s)[i..j] == Lower(s[i..j]);
  }

  /** A lower-cased string holds no upper-case letter. */
  lemma LowerHasNoUpper(s: string)
    ensures forall i :: 0 <= i < |Lower(s)| ==> !IsUpper(Lower(s)[i])
  {
  }
}
