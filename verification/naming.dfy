/**
 Project folder names: `toPascalCase` and `getDatePrefix` of the main process, and the modal's
 `toPascalCasePreview` duplicate. Case mapping, `\s` and `trim` are taken over ASCII.
 */
module Naming {
  import Ascii
  import Decimal
  import Seqs

  /** `.replace(/[^a-zA-Z0-9\s]/g, '')`: keeps letters, digits and whitespace. */
  function Clean(s: string): (r: string)
    ensures |r| <= |s|
    ensures forall i :: 0 <= i < |r| ==> Ascii.IsAlnum(r[i]) || Ascii.IsSpace(r[i])
    decreases |s|
  {
    if s == [] then []
    else (if Ascii.IsAlnum(s[0]) || Ascii.IsSpace(s[0]) then [s[0]] else []) + Clean(s[1..])
  }

  lemma {:induction false} CleanAppend(a: string, b: string)
    ensures Clean(a + b) == Clean(a) + Clean(b)
    decreases |a|
  {
    if a == [] {
      assert a + b == b;
    } else {
      assert (a + b)[1..] == a[1..] + b;
      CleanAppend(a[1..], b);
    }
  }

  /** Index of the first whitespace character at or after `from`, or |s|. */
  function NextSpace(s: string, from: nat): (r: nat)
    requires from <= |s|
    ensures from <= r <= |s|
    ensures forall k :: from <= k < r ==> !Ascii.IsSpace(s[k])
    ensures r < |s| ==> Ascii.IsSpace(s[r])
    decreases |s| - from
  {
    if from == |s| || Ascii.IsSpace(s[from]) then from else NextSpace(s, from + 1)
  }

  /**
   `.split(/\s+/)`: cuts at every maximal run of whitespace, so leading or trailing whitespace
   gives an empty first or last word, and "" gives [""].
   */
  function Words(s: string): (r: seq<string>)
    ensures |r| >= 1
    decreases |s|
  {
    var i := NextSpace(s, 0);
    if i == |s| then [s]
    else [s[..i]] + Words(s[Ascii.SkipSpace(s, i)..])
  }

  /** `word.charAt(0).toUpperCase() + word.slice(1)`. */
  function Capitalize(w: string): string {
    if w == [] then [] else [Ascii.ToUpper(w[0])] + w[1..]
  }

  /** `.map(capitalise).join('')`. */
  function ConcatCaps(ws: seq<string>): string
    decreases |ws|
  {
    if ws == [] then [] else Capitalize(ws[0]) + ConcatCaps(ws[1..])
  }

  /** `toPascalCase` in the main process. */
  function ToPascalCase(s: string): string {
    ConcatCaps(Words(Clean(Ascii.Lower(s))))
  }

  const NonEmpty: string -> bool := (w: string) => w != ""

  /** `toPascalCasePreview` in the modal: the same chain with `.filter(Boolean)` on the words. */
  function ToPascalCasePreview(s: string): string {
    ConcatCaps(Seqs.Filter(NonEmpty, Words(Clean(Ascii.Lower(s)))))
  }

  /** Dropping empty words changes nothing, since an empty word capitalises to "". */
  lemma {:induction false} FilterEmptyWords(ws: seq<string>)
    ensures ConcatCaps(Seqs.Filter(NonEmpty, ws)) == ConcatCaps(ws)
    decreases |ws|
  {
    if ws != [] {
      FilterEmptyWords(ws[1..]);
      assert ws == [ws[0]] + ws[1..];
      Seqs.FilterAppend(NonEmpty, [ws[0]], ws[1..]);
      Seqs.FilterSingle(NonEmpty, ws[0]);
      ConcatCapsAppend(Seqs.Filter(NonEmpty, [ws[0]]), Seqs.Filter(NonEmpty, ws[1..]));
    }
  }

  lemma {:induction false} ConcatCapsAppend(a: seq<string>, b: seq<string>)
    ensures ConcatCaps(a + b) == ConcatCaps(a) + ConcatCaps(b)
    decreases |a|
  {
    if a == [] {
      assert a + b == b;
    } else {
      assert (a + b)[1..] == a[1..] + b;
      ConcatCapsAppend(a[1..], b);
    }
  }

  /** The modal's preview and the main process agree on every input. */
  lemma PreviewEqualsPascal(s: string)
    ensures ToPascalCasePreview(s) == ToPascalCase(s)
  {
    FilterEmptyWords(Words(Clean(Ascii.Lower(s))));
  }

  /**
   A character-by-character reference: whitespace is dropped and marks the start of a word,
   and the first character of each word is uppercased.
   */
  function Camel(s: string, atStart: bool): (r: string)
    decreases |s|
  {
    if s == [] then []
    else if Ascii.IsSpace(s[0]) then Camel(s[1..], true)
    else [if atStart then Ascii.ToUpper(s[0]) else s[0]] + Camel(s[1..], false)
  }

  lemma {:induction false} CamelWord(w: string, t: string)
    requires w != [] && forall k :: 0 <= k < |w| ==> !Ascii.IsSpace(w[k])
    ensures Camel(w + t, true) == Capitalize(w) + Camel(t, false)
  {
    assert (w + t)[1..] == w[1..] + t;
    CamelRest(w[1..], t);
  }

  lemma {:induction false} CamelRest(w: string, t: string)
    requires forall k :: 0 <= k < |w| ==> !Ascii.IsSpace(w[k])
    ensures Camel(w + t, false) == w + Camel(t, false)
    decreases |w|
  {
    if w == [] {
      assert w + t == t;
    } else {
      assert (w + t)[1..] == w[1..] + t;
      CamelRest(w[1..], t);
    }
  }

  /** A run of whitespace resets to the start of a word and emits nothing. */
  lemma {:induction false} CamelSpaces(sp: string, t: string, atStart: bool)
    requires Ascii.AllSpace(sp) && (sp != [] || atStart)
    ensures Camel(sp + t, atStart) == Camel(t, true)
    decreases |sp|
  {
    if sp != [] {
      assert (sp + t)[1..] == sp[1..] + t;
      CamelSpaces(sp[1..], t, true);
    } else {
      assert sp + t == t;
    }
  }

  /** Trailing whitespace emits nothing. */
  lemma {:induction false} CamelTrailing(t: string, sp: string, atStart: bool)
    requires Ascii.AllSpace(sp)
    ensures Camel(t + sp, atStart) == Camel(t, atStart)
    decreases |t|
  {
    if t == [] {
      assert t + sp == sp;
      CamelSpaces(sp, [], true);
      CamelOnlySpaces(sp, atStart);
    } else {
      assert (t + sp)[1..] == t[1..] + sp;
      CamelTrailing(t[1..], sp, if Ascii.IsSpace(t[0]) then true else false);
    }
  }

  lemma {:induction false} CamelOnlySpaces(sp: string, atStart: bool)
    requires Ascii.AllSpace(sp)
    ensures Camel(sp, atStart) == []
    decreases |sp|
  {
    if sp != [] {
      CamelOnlySpaces(sp[1..], true);
    }
  }

  /** Splitting into words and capitalising each is the character-level reference. */
  lemma {:induction false} WordsAreCamel(s: string)
    ensures ConcatCaps(Words(s)) == Camel(s, true)
    decreases |s|, 1
  {
    if NextSpace(s, 0) == |s| {
      if s != [] {
        CamelWord(s, []);
        assert s + [] == s;
      }
    } else {
      WordsAreCamelAtSpace(s);
    }
  }

  lemma {:induction false} WordsAreCamelAtSpace(s: string)
    requires NextSpace(s, 0) < |s|
    ensures ConcatCaps(Words(s)) == Camel(s, true)
    decreases |s|, 0
  {
    var w, sp, rest := FirstWord(s);
    ConcatCapsCons(w, Words(rest));
    WordsAreCamel(rest);
    WordThenSpaces(w, sp, rest);
  }

  /** Cutting a text with whitespace into its first word, the run of whitespace after it, and the rest. */
  lemma FirstWord(s: string) returns (w: string, sp: string, rest: string)
    requires NextSpace(s, 0) < |s|
    ensures s == w + (sp + rest) && |rest| < |s|
    ensures Words(s) == [w] + Words(rest)
    ensures forall k :: 0 <= k < |w| ==> !Ascii.IsSpace(w[k])
    ensures sp != [] && Ascii.AllSpace(sp)
  {
    var i := NextSpace(s, 0);
    var j := Ascii.SkipSpace(s, i);
    w, sp, rest := s[..i], s[i..j], s[j..];
    assert s == w + (sp + rest);
    assert forall k :: 0 <= k < |w| ==> w[k] == s[k];
    assert forall k :: 0 <= k < |sp| ==> sp[k] == s[i + k];
  }

  lemma ConcatCapsCons(w: string, ws: seq<string>)
    ensures ConcatCaps([w] + ws) == Capitalize(w) + ConcatCaps(ws)
  {
    assert ([w] + ws)[1..] == ws;
  }

  lemma WordThenSpaces(w: string, sp: string, rest: string)
    requires forall k :: 0 <= k < |w| ==> !Ascii.IsSpace(w[k])
    requires sp != [] && Ascii.AllSpace(sp)
    ensures Camel(w + (sp + rest), true) == Capitalize(w) + Camel(rest, true)
  {
    if w != [] {
      CamelWord(w, sp + rest);
      CamelSpaces(sp, rest, false);
    } else {
      CamelSpaces(sp, rest, true);
      assert w + (sp + rest) == sp + rest;
    }
  }

  /** Lower-cased, cleaned text holds only lower-case letters, digits and whitespace. */
  predicate LowerClean(s: string) {
    forall k :: 0 <= k < |s| ==> Ascii.IsLower(s[k]) || Ascii.IsDigit(s[k]) || Ascii.IsSpace(s[k])
  }

  lemma CleanOfLower(s: string)
    ensures LowerClean(Clean(Ascii.Lower(s)))
  {
    var c := Clean(Ascii.Lower(s));
    forall k | 0 <= k < |c| ensures Ascii.IsLower(c[k]) || Ascii.IsDigit(c[k]) || Ascii.IsSpace(c[k]) {
      CleanKeepsLower(Ascii.Lower(s), k);
    }
  }

  lemma {:induction false} CleanKeepsLower(s: string, k: nat)
    requires forall i :: 0 <= i < |s| ==> !Ascii.IsUpper(s[i])
    requires k < |Clean(s)|
    ensures !Ascii.IsUpper(Clean(s)[k])
    decreases |s|
  {
    var head := if Ascii.IsAlnum(s[0]) || Ascii.IsSpace(s[0]) then [s[0]] else [];
    if k >= |head| {
      CleanKeepsLower(s[1..], k - |head|);
    }
  }

  /** The non-whitespace characters of `s`, in order. */
  function NonSpace(s: string): string
    decreases |s|
  {
    if s == [] then [] else (if Ascii.IsSpace(s[0]) then [] else [s[0]]) + NonSpace(s[1..])
  }

  /** The reference emits only letters and digits, and lower-casing it gives the words run together. */
  lemma {:induction false} CamelContents(s: string, atStart: bool)
    requires LowerClean(s)
    ensures forall k :: 0 <= k < |Camel(s, atStart)| ==> Ascii.IsAlnum(Camel(s, atStart)[k])
    ensures Ascii.Lower(Camel(s, atStart)) == NonSpace(s)
    decreases |s|
  {
    if s != [] {
      CamelContents(s[1..], Ascii.IsSpace(s[0]));
      if !Ascii.IsSpace(s[0]) {
        var c := if atStart then Ascii.ToUpper(s[0]) else s[0];
        Ascii.LowerAppend([c], Camel(s[1..], false));
        assert Ascii.Lower([c]) == [s[0]];
      }
    }
  }

  /**
   The pascal name holds only ASCII letters and digits, and lower-casing it gives the cleaned,
   lower-cased input with its whitespace removed.
   */
  lemma PascalCaseContents(s: string)
    ensures forall k :: 0 <= k < |ToPascalCase(s)| ==> Ascii.IsAlnum(ToPascalCase(s)[k])
    ensures Ascii.Lower(ToPascalCase(s)) == NonSpace(Clean(Ascii.Lower(s)))
  {
    var c := Clean(Ascii.Lower(s));
    WordsAreCamel(c);
    CleanOfLower(s);
    CamelContents(c, true);
  }

  /** Leading and trailing whitespace never reaches the pascal name. */
  lemma PascalCaseOfTrim(s: string)
    ensures ToPascalCase(Ascii.Trim(s)) == ToPascalCase(s)
  {
    var t := Ascii.Trim(s);
    var i, j :| 0 <= i <= j <= |s| && t == s[i..j]
                && (forall k :: 0 <= k < i ==> Ascii.IsSpace(s[k]))
                && (forall k :: j <= k < |s| ==> Ascii.IsSpace(s[k]));
    var lead, trail := s[..i], s[j..];
    assert forall k :: 0 <= k < |lead| ==> Ascii.IsSpace(lead[k]) by {
      forall k | 0 <= k < |lead| ensures Ascii.IsSpace(lead[k]) { assert lead[k] == s[k]; }
    }
    assert forall k :: 0 <= k < |trail| ==> Ascii.IsSpace(trail[k]) by {
      forall k | 0 <= k < |trail| ensures Ascii.IsSpace(trail[k]) { assert trail[k] == s[j + k]; }
    }
    SliceAround(s, i, j);
    PascalCaseAroundSpaces(lead, t, trail);
  }

  lemma SliceAround(s: string, i: nat, j: nat)
    requires i <= j <= |s|
    ensures s == s[..i] + s[i..j] + s[j..]
  {
  }

  lemma PascalCaseAroundSpaces(lead: string, t: string, trail: string)
    requires forall k :: 0 <= k < |lead| ==> Ascii.IsSpace(lead[k])
    requires forall k :: 0 <= k < |trail| ==> Ascii.IsSpace(trail[k])
    ensures ToPascalCase(lead + t + trail) == ToPascalCase(t)
  {
    PascalCaseIsCamel(t);
    PascalCaseIsCamel(lead + t + trail);
    CleanLowerSplit(lead, t, trail);
    SpacesSurvive(lead);
    SpacesSurvive(trail);
    CamelAroundSpaces(Clean(Ascii.Lower(lead)), Clean(Ascii.Lower(t)), Clean(Ascii.Lower(trail)));
  }

  lemma PascalCaseIsCamel(s: string)
    ensures ToPascalCase(s) == Camel(Clean(Ascii.Lower(s)), true)
  {
    WordsAreCamel(Clean(Ascii.Lower(s)));
  }

  lemma CleanLowerSplit(a: string, b: string, c: string)
    ensures Clean(Ascii.Lower(a + b + c))
            == Clean(Ascii.Lower(a)) + Clean(Ascii.Lower(b)) + Clean(Ascii.Lower(c))
  {
    Ascii.LowerAppend(a + b, c);
    Ascii.LowerAppend(a, b);
    CleanAppend(Ascii.Lower(a) + Ascii.Lower(b), Ascii.Lower(c));
    CleanAppend(Ascii.Lower(a), Ascii.Lower(b));
  }

  lemma CamelAroundSpaces(lead: string, t: string, trail: string)
    requires Ascii.AllSpace(lead) && Ascii.AllSpace(trail)
    ensures Camel(lead + t + trail, true) == Camel(t, true)
  {
    CamelSpaces(lead, t + trail, true);
    assert lead + t + trail == lead + (t + trail);
    CamelTrailing(t, trail, true);
  }

  /** Whitespace survives lower-casing and cleaning. */
  lemma SpacesSurvive(sp: string)
    requires forall k :: 0 <= k < |sp| ==> Ascii.IsSpace(sp[k])
    ensures Ascii.AllSpace(Clean(Ascii.Lower(sp)))
  {
    var l := Ascii.Lower(sp);
    assert forall k :: 0 <= k < |l| ==> Ascii.IsSpace(l[k]);
    CleanOfSpaces(l);
  }

  lemma {:induction false} CleanOfSpaces(sp: string)
    requires forall k :: 0 <= k < |sp| ==> Ascii.IsSpace(sp[k])
    ensures Ascii.AllSpace(Clean(sp))
    decreases |sp|
  {
    if sp != [] {
      CleanOfSpaces(sp[1..]);
    }
  }

  // ---------------------------------------------------------------- date prefix

  /** The local calendar date `new Date()` reports; `month` is `getMonth() + 1`. */
  datatype Date = Date(year: int, month: nat, day: nat)

  /** `getDatePrefix`: `YYYY_MM_DD` with month and day padded to two digits. */
  function DatePrefix(d: Date): string {
    Decimal.IntToString(d.year) + "_" + Decimal.PadStart2(Decimal.NatToString(d.month))
      + "_" + Decimal.PadStart2(Decimal.NatToString(d.day))
  }

  /** Calendar months and days pad to exactly two digits, so the prefix determines the date. */
  lemma DatePrefixInjective(a: Date, b: Date)
    requires a.month < 100 && a.day < 100 && b.month < 100 && b.day < 100
    requires DatePrefix(a) == DatePrefix(b)
    ensures a == b
  {
    Decimal.PadStart2RoundTrip(a.month);
    Decimal.PadStart2RoundTrip(a.day);
    Decimal.PadStart2RoundTrip(b.month);
    Decimal.PadStart2RoundTrip(b.day);
    SplitDateParts(Decimal.IntToString(a.year), Decimal.PadStart2(Decimal.NatToString(a.month)),
                   Decimal.PadStart2(Decimal.NatToString(a.day)),
                   Decimal.IntToString(b.year), Decimal.PadStart2(Decimal.NatToString(b.month)),
                   Decimal.PadStart2(Decimal.NatToString(b.day)));
    Decimal.IntToStringInjective(a.year, b.year);
  }

  /** Two-character month and day fields make the three parts of a prefix recoverable. */
  lemma SplitDateParts(ya: string, ma: string, da: string, yb: string, mb: string, db: string)
    requires |ma| == 2 && |da| == 2 && |mb| == 2 && |db| == 2
    requires ya + "_" + ma + "_" + da == yb + "_" + mb + "_" + db
    ensures ya == yb && ma == mb && da == db
  {
    var p := ya + "_" + ma + "_" + da;
    assert |ya| == |p| - 6 == |yb|;
    assert ya == p[..|ya|] == yb;
    assert ma == p[|ya| + 1..|ya| + 3] == mb;
    assert da == p[|ya| + 4..] == db;
  }

  /** `${getDatePrefix()}_${pascalName}`, the folder `create-project` makes. */
  function FolderName(d: Date, eventName: string): string {
    DatePrefix(d) + "_" + ToPascalCase(eventName)
  }

  /** The modal's `folderPreview`: empty for a blank name. */
  function FolderPreview(d: Date, eventName: string): string {
    if Ascii.Trim(eventName) == "" then ""
    else DatePrefix(d) + "_" + ToPascalCasePreview(eventName)
  }

  /**
   The preview shows exactly the folder that `create-project` will make from the trimmed name
   the modal sends, and nothing for a blank name.
   */
  lemma PreviewMatchesFolder(d: Date, eventName: string)
    ensures FolderPreview(d, eventName) == if Ascii.Trim(eventName) == "" then "" else FolderName(d, Ascii.Trim(eventName))
  {
    PreviewEqualsPascal(eventName);
    PascalCaseOfTrim(eventName);
  }
}
