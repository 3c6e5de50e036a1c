/**
 The tag handlers: the global tag list (`add-global-tag`, `remove-global-tag`) and the
 per-image comma-joined tag strings of a project (`get-image-tags`, `add-image-tag`,
 `remove-image-tag`). Stored JSON is read and written as whole values; a failed write leaves
 the stored value as it was and is reported as an error.
 */
module TagStore {
  import Ascii
  import Seqs
  import TagOrder
  import TagList

  datatype TagError = EmptyTag | WriteFailed {
    /** The reply's `error`; a failed write reports the thrown error's own text. */
    function Message(thrown: string): string {
      match this
      case EmptyTag => "Tag não pode estar vazia"
      case WriteFailed => thrown
    }
  }

  datatype Reply = Ok | Err(error: TagError)

  /** `tag.trim().toLowerCase()`. */
  function Normalize(tag: string): (r: string)
    ensures r == Ascii.Trim(Ascii.Lower(tag))
    ensures forall i :: 0 <= i < |r| ==> !Ascii.IsUpper(r[i])
    ensures Ascii.Trim(r) == r
    ensures r == "" <==> Ascii.AllSpace(tag)
    ensures |r| <= |tag|
  {
    Ascii.LowerOfTrimmedIsTrimmed(tag);
    Ascii.TrimLowerCommute(tag);
    Ascii.LowerHasNoUpper(Ascii.Trim(tag));
    Ascii.Lower(Ascii.Trim(tag))
  }

  /** Normalising a comma-free tag cannot produce a comma. */
  lemma NormalizeCommaFree(tag: string)
    requires TagList.Comma !in tag
    ensures TagList.Comma !in Normalize(tag)
  {
    Ascii.TrimKeepsAbsent(tag, TagList.Comma);
    Ascii.LowerKeepsAbsent(Ascii.Trim(tag), TagList.Comma);
  }

  // ---------------------------------------------------------------- global tags

  /** A reply and the global list stored afterwards. */
  datatype GlobalUpdate = GlobalUpdate(reply: Reply, tags: seq<string>)

  /**
   `add-global-tag`: a blank tag is refused with no write; a tag already listed changes
   nothing; otherwise the list with the tag appended is sorted and written.
   */
  function AddGlobalTag(tags: seq<string>, tag: string, writeOk: bool): (u: GlobalUpdate)
    ensures Normalize(tag) == "" ==> u == GlobalUpdate(Err(EmptyTag), tags)
    ensures Normalize(tag) != "" && Normalize(tag) in tags ==> u == GlobalUpdate(Ok, tags)
    ensures Normalize(tag) != "" && Normalize(tag) !in tags && !writeOk ==> u == GlobalUpdate(Err(WriteFailed), tags)
    ensures Normalize(tag) != "" && Normalize(tag) !in tags && writeOk ==>
              && u.reply == Ok
              && TagOrder.Sorted(u.tags)
              && multiset(u.tags) == multiset(tags) + multiset{Normalize(tag)}
  {
    var t := Normalize(tag);
    if t == "" then GlobalUpdate(Err(EmptyTag), tags)
    else if t in tags then GlobalUpdate(Ok, tags)
    else if !writeOk then GlobalUpdate(Err(WriteFailed), tags)
    else
      TagOrder.SortSorted(tags + [t]);
      GlobalUpdate(Ok, TagOrder.Sort(tags + [t]))
  }

  /** Adding the same tag again is answered `Ok` and changes nothing. */
  lemma AddGlobalTagIdempotent(tags: seq<string>, tag: string)
    requires Normalize(tag) != ""
    ensures var once := AddGlobalTag(tags, tag, true);
            AddGlobalTag(once.tags, tag, true) == GlobalUpdate(Ok, once.tags)
  {
    var once := AddGlobalTag(tags, tag, true);
    if Normalize(tag) !in tags {
      assert Normalize(tag) in multiset(once.tags);
    }
  }

  /** On a sorted list the sorted result is the tag inserted at its place. */
  lemma AddGlobalTagInserts(tags: seq<string>, tag: string)
    requires TagOrder.Sorted(tags)
    requires Normalize(tag) != "" && Normalize(tag) !in tags
    ensures AddGlobalTag(tags, tag, true).tags == TagOrder.Insert(Normalize(tag), tags)
  {
    var t := Normalize(tag);
    TagOrder.InsertSorted(t, tags);
    assert multiset(tags + [t]) == multiset(tags) + multiset{t};
    TagOrder.SortedUnique(AddGlobalTag(tags, tag, true).tags, TagOrder.Insert(t, tags));
  }

  lemma {:induction false} InsertDistinct(x: string, s: seq<string>)
    requires Seqs.Distinct(s) && x !in s
    ensures Seqs.Distinct(TagOrder.Insert(x, s))
    decreases |s|
  {
    if s != [] && !TagOrder.LexLe(x, s[0]) {
      InsertDistinct(x, s[1..]);
      var t := TagOrder.Insert(x, s[1..]);
      assert s[0] !in s[1..];
      assert s[0] !in multiset(t) by {
        assert multiset(t) == multiset(s[1..]) + multiset{x};
      }
      assert TagOrder.Insert(x, s) == [s[0]] + t;
    }
  }

  /** A sorted duplicate-free list stays sorted and duplicate-free. */
  lemma AddGlobalTagKeepsOrder(tags: seq<string>, tag: string, writeOk: bool)
    requires TagOrder.Sorted(tags) && Seqs.Distinct(tags)
    ensures TagOrder.Sorted(AddGlobalTag(tags, tag, writeOk).tags)
    ensures Seqs.Distinct(AddGlobalTag(tags, tag, writeOk).tags)
  {
    if Normalize(tag) != "" && Normalize(tag) !in tags && writeOk {
      AddGlobalTagInserts(tags, tag);
      InsertDistinct(Normalize(tag), tags);
    }
  }

  /** `indexOf`: the first position holding `x`, or |s| when there is none. */
  function IndexOf(s: seq<string>, x: string): (k: nat)
    ensures k <= |s|
    ensures x !in s[..k]
    ensures k < |s| ==> s[k] == x
    ensures k < |s| <==> x in s
    decreases |s|
  {
    if s == [] then 0
    else if s[0] == x then 0
    else assert s[..1 + IndexOf(s[1..], x)] == [s[0]] + s[1..][..IndexOf(s[1..], x)]; 1 + IndexOf(s[1..], x)
  }

  /** `splice(indexOf(x), 1)` when `x` occurs. */
  function RemoveFirst(s: seq<string>, x: string): seq<string> {
    var k := IndexOf(s, x);
    if k == |s| then s else s[..k] + s[k + 1..]
  }

  /**
   `remove-global-tag`: deletes the first occurrence of the normalised tag, writing only when
   there was one; a blank tag is not refused.
   */
  function RemoveGlobalTag(tags: seq<string>, tag: string, writeOk: bool): (u: GlobalUpdate)
    ensures Normalize(tag) !in tags ==> u == GlobalUpdate(Ok, tags)
    ensures Normalize(tag) in tags && !writeOk ==> u == GlobalUpdate(Err(WriteFailed), tags)
    ensures Normalize(tag) in tags && writeOk ==>
              u.reply == Ok &&
              exists i :: 0 <= i < |tags| && tags[i] == Normalize(tag) && Normalize(tag) !in tags[..i]
                          && u.tags == tags[..i] + tags[i + 1..]
  {
    var t := Normalize(tag);
    var k := IndexOf(tags, t);
    if k == |tags| then
      assert tags[..k] == tags;
      GlobalUpdate(Ok, tags)
    else if !writeOk then GlobalUpdate(Err(WriteFailed), tags)
    else GlobalUpdate(Ok, RemoveFirst(tags, t))
  }

  /** On a duplicate-free list the tag is gone afterwards and nothing else is. */
  lemma RemoveGlobalTagRemoves(tags: seq<string>, tag: string)
    requires Seqs.Distinct(tags)
    ensures var after := RemoveGlobalTag(tags, tag, true).tags;
            Normalize(tag) !in after && forall x :: x in tags && x != Normalize(tag) ==> x in after
  {
    RemoveFirstRemoves(tags, Normalize(tag));
  }

  lemma RemoveFirstRemoves(s: seq<string>, x: string)
    requires Seqs.Distinct(s)
    ensures x !in RemoveFirst(s, x)
    ensures forall y :: y in s && y != x ==> y in RemoveFirst(s, x)
  {
    var k := IndexOf(s, x);
    if k < |s| {
      var after := s[..k] + s[k + 1..];
      forall j | 0 <= j < |after| ensures after[j] != x {
        if j >= k {
          assert after[j] == s[j + 1];
        }
      }
      forall y | y in s && y != x ensures y in after {
        var j :| 0 <= j < |s| && s[j] == y;
        if j < k {
          assert after[j] == y;
        } else {
          assert after[j - 1] == y;
        }
      }
    }
  }

  lemma {:induction false} RemoveFirstInsert(x: string, s: seq<string>)
    requires x !in s
    ensures RemoveFirst(TagOrder.Insert(x, s), x) == s
    decreases |s|
  {
    if s == [] || TagOrder.LexLe(x, s[0]) {
      var r := TagOrder.Insert(x, s);
      assert r == [x] + s;
      assert r[1..] == s;
    } else {
      RemoveFirstInsert(x, s[1..]);
      assert x in multiset(TagOrder.Insert(x, s[1..]));
      RemoveFirstCons(s[0], TagOrder.Insert(x, s[1..]), x);
      assert s == [s[0]] + s[1..];
    }
  }

  /** Removing past a different head keeps the head. */
  lemma RemoveFirstCons(h: string, t: seq<string>, x: string)
    requires h != x && x in t
    ensures RemoveFirst([h] + t, x) == [h] + RemoveFirst(t, x)
  {
    var r := [h] + t;
    assert r[1..] == t;
    var k := IndexOf(t, x);
    assert IndexOf(r, x) == 1 + k;
    assert r[..1 + k] == [h] + t[..k];
    assert r[1 + k + 1..] == t[k + 1..];
    assert ([h] + t[..k]) + t[k + 1..] == [h] + (t[..k] + t[k + 1..]);
  }

  /** Adding a new tag to a sorted list and removing it again restores the list. */
  lemma AddThenRemoveGlobal(tags: seq<string>, tag: string)
    requires TagOrder.Sorted(tags) && Normalize(tag) != "" && Normalize(tag) !in tags
    ensures RemoveGlobalTag(AddGlobalTag(tags, tag, true).tags, tag, true).tags == tags
  {
    AddGlobalTagInserts(tags, tag);
    RemoveFirstInsert(Normalize(tag), tags);
  }

  // ---------------------------------------------------------------- image tags

  /** `get-image-tags` on the project's `imageTags` object: missing and "" both mean no tags. */
  function GetImageTags(imageTags: map<string, string>, image: string): (r: seq<string>)
    ensures r == [] <==> image !in imageTags || imageTags[image] == ""
    ensures image in imageTags && imageTags[image] != "" ==> |r| == |TagList.Split(imageTags[image])|
    ensures TagList.CommaFree(r) && TagList.AllTrimmed(r)
  {
    if image in imageTags && imageTags[image] != "" then
      TagList.TrimAllCommaFree(TagList.Split(imageTags[image]));
      TagList.TrimAll(TagList.Split(imageTags[image]))
    else []
  }

  /**
   An entry with no white space around its commas or at its ends reads back as tags whose
   join is the entry itself.
   */
  lemma GetImageTagsJoin(imageTags: map<string, string>, image: string)
    requires image in imageTags && imageTags[image] != ""
    requires TagList.AllTrimmed(TagList.Split(imageTags[image]))
    ensures TagList.Join(GetImageTags(imageTags, image)) == imageTags[image]
  {
    TagList.TrimAllTrimmed(TagList.Split(imageTags[image]));
    TagList.JoinSplit(imageTags[image]);
  }

  /** Storing the join of trimmed comma-free tags and reading it back gives those tags. */
  lemma JoinThenGetImageTags(imageTags: map<string, string>, image: string, parts: seq<string>)
    requires |parts| >= 1 && parts != [""]
    requires TagList.CommaFree(parts) && TagList.AllTrimmed(parts)
    ensures GetImageTags(imageTags[image := TagList.Join(parts)], image) == parts
  {
    TagList.SplitJoin(parts);
    TagList.JoinEmpty(parts);
    TagList.TrimAllTrimmed(parts);
  }

  /** A reply and the `imageTags` object stored afterwards. */
  datatype ImageUpdate = ImageUpdate(reply: Reply, imageTags: map<string, string>)

  /** Only `image`'s entry may differ. */
  ghost predicate OthersUnchanged(before: map<string, string>, after: map<string, string>, image: string) {
    forall k :: k != image ==> (k in after <==> k in before) && (k in before ==> after[k] == before[k])
  }

  /** Storing or deleting one image's entry leaves every other entry as it was. */
  lemma EditsKeepOthers(m: map<string, string>, image: string, v: string)
    ensures OthersUnchanged(m, m[image := v], image)
    ensures OthersUnchanged(m, m - {image}, image)
  {
  }

  /**
   `add-image-tag`: a blank tag is refused; a tag the image already has changes nothing;
   otherwise the trimmed old list with the tag appended is joined and stored for the image.
   */
  function AddImageTag(imageTags: map<string, string>, image: string, tag: string, writeOk: bool): (u: ImageUpdate)
    ensures OthersUnchanged(imageTags, u.imageTags, image)
    ensures Normalize(tag) == "" ==> u == ImageUpdate(Err(EmptyTag), imageTags)
    ensures Normalize(tag) != "" && Normalize(tag) in GetImageTags(imageTags, image) ==>
              u == ImageUpdate(Ok, imageTags)
    ensures Normalize(tag) != "" && Normalize(tag) !in GetImageTags(imageTags, image) ==>
              if writeOk then
                u.reply == Ok && image in u.imageTags
                && u.imageTags[image] == TagList.Join(GetImageTags(imageTags, image) + [Normalize(tag)])
              else u == ImageUpdate(Err(WriteFailed), imageTags)
  {
    var t := Normalize(tag);
    var current := GetImageTags(imageTags, image);
    if t == "" then ImageUpdate(Err(EmptyTag), imageTags)
    else if t in current then ImageUpdate(Ok, imageTags)
    else if !writeOk then ImageUpdate(Err(WriteFailed), imageTags)
    else ImageUpdate(Ok, imageTags[image := TagList.Join(current + [t])])
  }

  /** For a comma-free tag, reading back after adding gives the old list with the tag appended. */
  lemma AddThenGetImageTags(imageTags: map<string, string>, image: string, tag: string)
    requires TagList.Comma !in tag && Normalize(tag) != ""
    ensures var prior := GetImageTags(imageTags, image);
            var after := AddImageTag(imageTags, image, tag, true).imageTags;
            GetImageTags(after, image) == if Normalize(tag) in prior then prior else prior + [Normalize(tag)]
  {
    var t := Normalize(tag);
    var prior := GetImageTags(imageTags, image);
    if t !in prior {
      NormalizeCommaFree(tag);
      ReadBackAppended(AddImageTag(imageTags, image, tag, true).imageTags, image, prior, t);
    }
  }

  /** An entry written as the join of well-formed tags plus one more reads back as that list. */
  lemma ReadBackAppended(after: map<string, string>, image: string, prior: seq<string>, t: string)
    requires TagList.CommaFree(prior) && TagList.AllTrimmed(prior)
    requires TagList.Comma !in t && Ascii.Trim(t) == t && t != ""
    requires image in after && after[image] == TagList.Join(prior + [t])
    ensures GetImageTags(after, image) == prior + [t]
  {
    var parts := prior + [t];
    assert TagList.CommaFree(parts) by {
      forall i | 0 <= i < |parts| ensures TagList.Comma !in parts[i] {
        if i < |prior| {
          assert parts[i] == prior[i];
        }
      }
    }
    assert TagList.AllTrimmed(parts) by {
      forall i | 0 <= i < |parts| ensures Ascii.Trim(parts[i]) == parts[i] {
        if i < |prior| {
          assert parts[i] == prior[i];
        }
      }
    }
    TagList.SplitJoin(parts);
    TagList.JoinEmpty(parts);
    TagList.TrimAllTrimmed(parts);
  }

  /** Keeps the entries that differ from `t`. */
  function Other(t: string): string -> bool {
    x => x != t
  }

  /**
   `remove-image-tag`: drops every entry equal to the normalised tag, stores the rest joined,
   and deletes the image's key when nothing is left; an image without tags is left alone.
   */
  function RemoveImageTag(imageTags: map<string, string>, image: string, tag: string, writeOk: bool): (u: ImageUpdate)
    ensures OthersUnchanged(imageTags, u.imageTags, image)
    ensures GetImageTags(imageTags, image) == [] ==> u == ImageUpdate(Ok, imageTags)
    ensures !writeOk && GetImageTags(imageTags, image) != [] ==> u == ImageUpdate(Err(WriteFailed), imageTags)
    ensures writeOk && GetImageTags(imageTags, image) != [] ==>
              var rest := Seqs.Filter(Other(Normalize(tag)), GetImageTags(imageTags, image));
              && u.reply == Ok
              && (image in u.imageTags <==> rest != [])
              && (rest != [] ==> u.imageTags[image] == TagList.Join(rest))
  {
    var t := Normalize(tag);
    if image !in imageTags || imageTags[image] == "" then ImageUpdate(Ok, imageTags)
    else if !writeOk then ImageUpdate(Err(WriteFailed), imageTags)
    else
      var rest := Seqs.Filter(Other(t), GetImageTags(imageTags, image));
      EditsKeepOthers(imageTags, image, TagList.Join(rest));
      if |rest| > 0 then ImageUpdate(Ok, imageTags[image := TagList.Join(rest)])
      else ImageUpdate(Ok, imageTags - {image})
  }

  /** After a removal the image no longer carries the tag, and its other tags keep their order. */
  lemma RemoveThenGetImageTags(imageTags: map<string, string>, image: string, tag: string)
    ensures var prior := GetImageTags(imageTags, image);
            var rest := Seqs.Filter(Other(Normalize(tag)), prior);
            var now := GetImageTags(RemoveImageTag(imageTags, image, tag, true).imageTags, image);
            && Normalize(tag) !in now
            && now == (if rest == [""] then [] else rest)
  {
    var t := Normalize(tag);
    var prior := GetImageTags(imageTags, image);
    var rest := Seqs.Filter(Other(t), prior);
    Seqs.FilterMembers(Other(t), prior, t);
    if prior != [] && rest != [] {
      Seqs.FilterIsSubsequence(Other(t), prior);
      SubsequenceKeeps(rest, prior);
      TagList.SplitJoin(rest);
      TagList.JoinEmpty(rest);
      TagList.TrimAllTrimmed(rest);
    }
  }

  /** A subsequence of a trimmed comma-free list is trimmed and comma-free. */
  lemma {:induction false} SubsequenceKeeps(a: seq<string>, b: seq<string>)
    requires Seqs.IsSubsequence(a, b) && TagList.CommaFree(b) && TagList.AllTrimmed(b)
    ensures TagList.CommaFree(a) && TagList.AllTrimmed(a)
    decreases |b|
  {
    if |a| > 0 {
      assert TagList.CommaFree(b[1..]) && TagList.AllTrimmed(b[1..]) by {
        forall i | 0 <= i < |b| - 1 ensures TagList.Comma !in b[1..][i] && Ascii.Trim(b[1..][i]) == b[1..][i] {
          assert b[1..][i] == b[i + 1];
        }
      }
      if a[0] == b[0] && Seqs.IsSubsequence(a[1..], b[1..]) {
        SubsequenceKeeps(a[1..], b[1..]);
        forall i | 0 <= i < |a| ensures TagList.Comma !in a[i] && Ascii.Trim(a[i]) == a[i] {
          if i > 0 {
            assert a[i] == a[1..][i - 1];
          }
        }
      } else {
        SubsequenceKeeps(a, b[1..]);
      }
    }
  }
}
