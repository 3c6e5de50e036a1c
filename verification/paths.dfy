/**
 The parts of Node's POSIX `path` module the core relies on (`basename`, `dirname`, `extname`,
 `join`), for paths without trailing or repeated separators, and the fixed extension lists and
 destination folder names.
 */
module Paths {
  import Ascii
  import opened Wrappers

  /** Index of the last `c` in `s`, or -1. */
  function LastIndexOf(s: string, c: char): (r: int)
    ensures -1 <= r < |s|
    ensures r >= 0 ==> s[r] == c
    ensures forall k :: r < k < |s| ==> s[k] != c
    decreases |s|
  {
    if |s| == 0 then -1
    else if s[|s| - 1] == c then |s| - 1
    else LastIndexOf(s[..|s| - 1], c)
  }

  /** `path.basename`: everything after the last separator. */
  function BaseName(p: string): (r: string)
    ensures '/' !in r
    ensures |r| <= |p| && r == p[|p| - |r|..]
    ensures |r| < |p| ==> p[|p| - |r| - 1] == '/'
  {
    p[LastIndexOf(p, '/') + 1..]
  }

  /** `path.dirname`: everything before the last separator; "/" for a root entry, "." for none. */
  function DirName(p: string): (r: string)
    ensures '/' in p && p[0] != '/' ==> r + "/" + BaseName(p) == p
  {
    var k := LastIndexOf(p, '/');
    if k == -1 then "." else if k == 0 then "/" else p[..k]
  }

  /**
   `path.extname`: the basename from its last dot on, or "" when the basename has no dot,
   starts with its only dot (a dot-file such as `.jpg`), or is "..".
   */
  function ExtName(p: string): (r: string)
    ensures r == "" || (r[0] == '.' && '.' !in r[1..])
    ensures |r| <= |BaseName(p)| && r == BaseName(p)[|BaseName(p)| - |r|..]
    ensures r != "" ==> |r| < |BaseName(p)|
    ensures r == "" && '.' in BaseName(p) ==> BaseName(p)[0] == '.'
  {
    var b := BaseName(p);
    var k := LastIndexOf(b, '.');
    if k <= 0 || b == ".." then "" else b[k..]
  }

  /** `path.join` of two segments: empty segments vanish and exactly one separator is placed between. */
  function Join(a: string, b: string): string {
    if a == "" then b
    else if b == "" then a
    else if a[|a| - 1] == '/' then a + b
    else a + "/" + b
  }

  /** `a` names a folder above `p`: a non-empty prefix of `p` that stops just before a separator. */
  predicate IsAncestor(a: string, p: string) {
    0 < |a| < |p| && p[..|a|] == a && p[|a|] == '/'
  }

  /**
   The folders `fs.mkdirSync(p, {recursive: true})` leaves in place: `p` and every folder
   above it (the root is always there).
   */
  function Lineage(p: string): (r: set<string>)
    ensures forall a :: a in r <==> a == p || IsAncestor(a, p)
  {
    var r := {p} + set i | 0 < i < |p| && p[i] == '/' :: p[..i];
    forall a | IsAncestor(a, p) ensures a in r {
      assert a == p[..|a|];
    }
    r
  }

  /** A directory lies just above what is joined onto it. */
  lemma JoinedUnder(a: string, b: string)
    requires a != "" && a[|a| - 1] != '/' && b != ""
    ensures IsAncestor(a, Join(a, b))
  {
    assert Join(a, b) == a + "/" + b;
  }

  lemma JoinNonEmpty(a: string, b: string)
    requires b != ""
    ensures Join(a, b) != ""
  {
  }

  /** Joining a non-empty segment onto a non-empty directory gives a strictly longer path. */
  lemma JoinLonger(a: string, b: string)
    requires a != "" && b != ""
    ensures |Join(a, b)| > |a|
  {
  }

  lemma BaseNameOfJoin(a: string, b: string)
    requires b != "" && '/' !in b
    ensures BaseName(Join(a, b)) == b
  {
    var p := Join(a, b);
    if a == "" {
      assert p == b;
      assert LastIndexOf(b, '/') == -1;
    } else {
      var s := if a[|a| - 1] == '/' then a[..|a| - 1] else a;
      assert p == s + ['/'] + b;
      LastIndexOfBeforeSuffix(s, '/', b);
      assert p[|s| + 1..] == b;
    }
  }

  lemma DirNameOfJoin(a: string, b: string)
    requires a != "" && a[|a| - 1] != '/' && b != "" && '/' !in b
    ensures DirName(Join(a, b)) == a
  {
    var p := Join(a, b);
    assert p == a + "/" + b;
    assert p[|a|] == '/';
    assert p[|a| + 1..] == b;
    assert LastIndexOf(p, '/') == |a|;
  }

  /** Joining onto the same directory keeps distinct non-empty names distinct. */
  lemma JoinInjective(a: string, b1: string, b2: string)
    requires b1 != "" && b2 != "" && Join(a, b1) == Join(a, b2)
    ensures b1 == b2
  {
    if a != "" && a[|a| - 1] != '/' {
      assert Join(a, b1)[|a| + 1..] == b1;
      assert Join(a, b2)[|a| + 1..] == b2;
    } else if a != "" {
      assert Join(a, b1)[|a|..] == b1;
      assert Join(a, b2)[|a|..] == b2;
    }
  }

  lemma {:induction false} LastIndexOfBeforeSuffix(s: string, c: char, t: string)
    requires c !in t
    ensures LastIndexOf(s + [c] + t, c) == |s|
    decreases |t|
  {
    if |t| > 0 {
      var u := s + [c] + t;
      assert u[..|u| - 1] == s + [c] + t[..|t| - 1];
      LastIndexOfBeforeSuffix(s, c, t[..|t| - 1]);
    }
  }

  /** The extension only depends on the basename. */
  lemma ExtNameOfJoin(dir: string, name: string)
    requires name != "" && '/' !in name
    ensures ExtName(Join(dir, name)) == ExtName(name)
  {
    BaseNameOfJoin(dir, name);
    assert BaseName(name) == name;
  }

  lemma StemJpgExt(stem: string)
    requires stem != "" && '/' !in stem
    ensures '/' !in stem + ".jpg"
    ensures ExtName(stem + ".jpg") == ".jpg"
  {
    var name := stem + ".jpg";
    assert name == stem + ['.'] + "jpg";
    assert '/' !in name;
    assert BaseName(name) == name;
    LastIndexOfBeforeSuffix(stem, '.', "jpg");
    assert name[|stem|..] == ".jpg";
  }


  /** The lower-cased extension, as the source compares it. */
  function LowerExt(p: string): string {
    Ascii.Lower(ExtName(p))
  }

  lemma LowerJpg()
    ensures Ascii.Lower(".jpg") == ".jpg"
  {
    var l := Ascii.Lower(".jpg");
    assert l[0] == '.' && l[1] == 'j' && l[2] == 'p' && l[3] == 'g';
  }

  /** A separator-free name ending in `.jpg`, with something before the dot, has extension `.jpg`. */
  lemma JpgNameExt(dir: string, stem: string)
    requires stem != "" && '/' !in stem
    ensures LowerExt(Join(dir, stem + ".jpg")) == ".jpg"
  {
    StemJpgExt(stem);
    ExtNameOfJoin(dir, stem + ".jpg");
    var e := ExtName(Join(dir, stem + ".jpg"));
    assert e == ".jpg";
    LowerJpg();
  }

  const RawExtensions: seq<string> := [".nef", ".raw", ".cr2", ".arw", ".dng"]
  const JpegExtensions: seq<string> := [".jpg", ".jpeg"]
  /** The allow-list of the memory-card scan and of the drop filters. */
  const MediaExtensions: seq<string> := [".jpg", ".jpeg", ".nef", ".raw", ".cr2", ".arw", ".dng"]
  /** Formats the thumbnail handler hands back unchanged. */
  const DirectImageExtensions: seq<string> := [".jpg", ".jpeg", ".png"]

  /** The two destination sub-folders of a project that transfers write into. */
  datatype MediaFolder = RawFolder | JpgFolder {
    function Name(): string {
      match this
      case RawFolder => "RAW"
      case JpgFolder => "JPG"
    }
  }

  const EditedFolder: string := "Editados"

  /** RAW-family extensions go to `RAW`, JPEG extensions to `JPG`, everything else is unsupported. */
  function Classify(ext: string): (r: Option<MediaFolder>)
    ensures r.Some? <==> ext in MediaExtensions
  {
    if ext in RawExtensions then Some(RawFolder)
    else if ext in JpegExtensions then Some(JpgFolder)
    else None
  }

  /** The card scan's test: the lower-cased extension is on the allow-list. */
  predicate IsMediaName(name: string) {
    InList(LowerExt(name), MediaExtensions)
  }

  /** Membership in a list of strings, one element at a time (`Array.prototype.includes`). */
  predicate InList(x: string, l: seq<string>)
    decreases |l|
  {
    l != [] && (x == l[0] || InList(x, l[1..]))
  }

  lemma {:induction false} InListIsIn(x: string, l: seq<string>)
    ensures InList(x, l) <==> x in l
    decreases |l|
  {
    if l != [] {
      InListIsIn(x, l[1..]);
      assert l == [l[0]] + l[1..];
    }
  }

  /** A listed string is at least as long as the shortest entry of the list. */
  lemma {:induction false} InListMinLength(x: string, l: seq<string>, m: nat)
    requires InList(x, l) && forall i :: 0 <= i < |l| ==> |l[i]| >= m
    ensures |x| >= m
    decreases |l|
  {
    if x != l[0] {
      InListMinLength(x, l[1..], m);
    }
  }

  /** A name on the allow-list has a non-empty extension, so a non-empty basename. */
  lemma MediaNameHasBase(name: string)
    requires IsMediaName(name)
    ensures ExtName(name) != "" && BaseName(name) != ""
  {
    MediaExtensionsLong();
    InListMinLength(LowerExt(name), MediaExtensions, 4);
  }

  lemma MediaExtensionsLong()
    ensures forall i :: 0 <= i < |MediaExtensions| ==> |MediaExtensions[i]| >= 4
  {
    var l := MediaExtensions;
    assert |l| == 7;
    assert |l[0]| == 4 && |l[1]| == 5 && |l[2]| == 4 && |l[3]| == 4;
    assert |l[4]| == 4 && |l[5]| == 4 && |l[6]| == 4;
  }

  /** Joining a non-empty, separator-free segment gives a path ending in that segment. */
  lemma JoinSegment(a: string, b: string)
    requires b != "" && '/' !in b
    ensures Join(a, b) != "" && Join(a, b)[|Join(a, b)| - 1] != '/'
    ensures BaseName(Join(a, b)) == b
  {
    BaseNameOfJoin(a, b);
    assert Join(a, b)[|Join(a, b)| - 1] == b[|b| - 1];
  }
}
