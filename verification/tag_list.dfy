/**
 The comma-joined tag strings stored per image: `String.prototype.split(',')`,
 `Array.prototype.join(',')` and the trimming map applied after splitting.
 */
module TagList {
  import Ascii

  const Comma := ','

  /** Index of the first comma, or |s| when there is none. */
  function FirstComma(s: string): (k: nat)
    ensures k <= |s|
    ensures Comma !in s[..k]
    ensures k < |s| ==> s[k] == Comma
    decreases |s|
  {
    if s == [] then 0
    else if s[0] == Comma then 0
    else assert s[..1 + FirstComma(s[1..])] == [s[0]] + s[1..][..FirstComma(s[1..])]; 1 + FirstComma(s[1..])
  }

  /** `s.split(',')`: never empty; "" splits to [""] and a trailing comma to a trailing "". */
  function Split(s: string): (r: seq<string>)
    ensures |r| >= 1
    ensures forall i :: 0 <= i < |r| ==> Comma !in r[i]
    decreases |s|
  {
    var k := FirstComma(s);
    if k == |s| then [s] else [s[..k]] + Split(s[k + 1..])
  }

  /** `parts.join(',')`. */
  function Join(parts: seq<string>): string
    decreases |parts|
  {
    if |parts| == 0 then ""
    else if |parts| == 1 then parts[0]
    else parts[0] + [Comma] + Join(parts[1..])
  }

  predicate CommaFree(parts: seq<string>) {
    forall i :: 0 <= i < |parts| ==> Comma !in parts[i]
  }

  /** Joining what was split gives back the original string. */
  lemma {:induction false} JoinSplit(s: string)
    ensures Join(Split(s)) == s
    decreases |s|
  {
    var k := FirstComma(s);
    if k < |s| {
      JoinSplit(s[k + 1..]);
      JoinCons(s[..k], Split(s[k + 1..]));
      assert s == s[..k] + [Comma] + s[k + 1..];
    }
  }

  lemma JoinCons(p: string, rest: seq<string>)
    requires |rest| >= 1
    ensures Join([p] + rest) == p + [Comma] + Join(rest)
  {
    assert ([p] + rest)[1..] == rest;
  }

  /** Splitting what was joined gives back a non-empty list of comma-free parts. */
  lemma {:induction false} SplitJoin(parts: seq<string>)
    requires |parts| >= 1 && CommaFree(parts)
    ensures Split(Join(parts)) == parts
    decreases |parts|
  {
    if |parts| == 1 {
      assert Comma !in parts[0];
      CommaFreeHasNoComma(parts[0]);
    } else {
      var p, rest := parts[0], parts[1..];
      assert parts == [p] + rest;
      JoinCons(p, rest);
      SplitCons(p, Join(rest));
      CommaFreeTail(parts);
      SplitJoin(rest);
    }
  }

  lemma SplitCons(p: string, t: string)
    requires Comma !in p
    ensures Split(p + [Comma] + t) == [p] + Split(t)
  {
    var s := p + [Comma] + t;
    CommaAfter(p, t);
    assert s[|p| + 1..] == t;
    assert s[..|p|] == p;
  }

  lemma CommaFreeTail(parts: seq<string>)
    requires |parts| >= 1 && CommaFree(parts)
    ensures Comma !in parts[0] && CommaFree(parts[1..])
  {
    var rest := parts[1..];
    forall i | 0 <= i < |rest| ensures Comma !in rest[i] {
      assert rest[i] == parts[i + 1];
    }
  }

  lemma CommaFreeHasNoComma(s: string)
    requires Comma !in s
    ensures FirstComma(s) == |s|
  {
  }

  lemma CommaAfter(p: string, t: string)
    requires Comma !in p
    ensures FirstComma(p + [Comma] + t) == |p|
  {
    var s := p + [Comma] + t;
    assert s[..|p|] == p;
    assert s[|p|] == Comma;
  }

  /** `.map(t => t.trim())`. */
  function TrimAll(parts: seq<string>): (r: seq<string>)
    ensures |r| == |parts|
    ensures forall i :: 0 <= i < |parts| ==> r[i] == Ascii.Trim(parts[i])
  {
    seq(|parts|, i requires 0 <= i < |parts| => Ascii.Trim(parts[i]))
  }

  /** Every part is already trimmed. */
  predicate AllTrimmed(parts: seq<string>) {
    forall i :: 0 <= i < |parts| ==> Ascii.Trim(parts[i]) == parts[i]
  }

  lemma TrimAllTrimmed(parts: seq<string>)
    requires AllTrimmed(parts)
    ensures TrimAll(parts) == parts
  {
  }

  /** Trimming never introduces a comma. */
  lemma TrimAllCommaFree(parts: seq<string>)
    requires CommaFree(parts)
    ensures CommaFree(TrimAll(parts)) && AllTrimmed(TrimAll(parts))
  {
    forall i | 0 <= i < |parts| ensures Comma !in TrimAll(parts)[i] && Ascii.Trim(TrimAll(parts)[i]) == TrimAll(parts)[i] {
      var i0, j0 :| 0 <= i0 <= j0 <= |parts[i]| && Ascii.Trim(parts[i]) == parts[i][i0..j0];
      Ascii.TrimIdempotent(parts[i]);
    }
  }

  /** Joining gives "" only for no parts or a single empty part. */
  lemma JoinEmpty(parts: seq<string>)
    requires |parts| >= 1
    ensures Join(parts) == "" <==> parts == [""]
  {
    if |parts| > 1 {
      assert |Join(parts)| >= 1;
    }
  }
}
