/**
 Helpers the renderer's views share: the extension test applied to dropped files, and the
 mapping from the folder filter bar to the argument of the image queries.
 */
module Views {
  import opened Wrappers
  import Ascii
  import Seqs
  import Paths

  /** `String.prototype.endsWith`. */
  predicate EndsWith(s: string, suffix: string) {
    |suffix| <= |s| && s[|s| - |suffix|..] == suffix
  }

  /** One `endsWith` test per listed suffix, joined with `||`. */
  predicate EndsWithAny(s: string, suffixes: seq<string>)
    decreases |suffixes|
  {
    suffixes != [] && (EndsWith(s, suffixes[0]) || EndsWithAny(s, suffixes[1..]))
  }

  lemma {:induction false} EndsWithAnyIff(s: string, suffixes: seq<string>)
    ensures EndsWithAny(s, suffixes) <==> exists e :: e in suffixes && EndsWith(s, e)
    decreases |suffixes|
  {
    if suffixes != [] {
      EndsWithAnyIff(s, suffixes[1..]);
      assert suffixes == [suffixes[0]] + suffixes[1..];
    }
  }

  /**
   The drop handlers' test: the lower-cased path ends in one of the seven image extensions
   (the same seven the card scan allows, in the same order).
   */
  predicate IsDroppedImage(f: string) {
    EndsWithAny(Ascii.Lower(f), Paths.MediaExtensions)
  }

  const Droppable: string -> bool := (f: string) => IsDroppedImage(f)

  /** `files.filter(...)` with the extension test. */
  function DropImages(files: seq<string>): seq<string> {
    Seqs.Filter(Droppable, files)
  }

  /**
   The dropped images are exactly the qualifying files, in their original order: the filter
   distributes over concatenation and keeps a single file iff it qualifies.
   */
  lemma DropImagesExact(a: seq<string>, b: seq<string>, f: string)
    ensures DropImages(a + b) == DropImages(a) + DropImages(b)
    ensures DropImages([f]) == if IsDroppedImage(f) then [f] else []
    ensures DropImages([]) == []
  {
    Seqs.FilterAppend(Droppable, a, b);
    Seqs.FilterSingle(Droppable, f);
  }

  /** The result keeps the dropped order and holds a file iff it was dropped and qualifies. */
  lemma DropImagesMembers(files: seq<string>)
    ensures Seqs.IsSubsequence(DropImages(files), files)
    ensures forall x :: x in DropImages(files) <==> x in files && IsDroppedImage(x)
    ensures DropImages(files) == [] <==> forall x :: x in files ==> !IsDroppedImage(x)
  {
    Seqs.FilterIsSubsequence(Droppable, files);
    forall x ensures x in DropImages(files) <==> x in files && IsDroppedImage(x) {
      Seqs.FilterMembers(Droppable, files, x);
    }
    if DropImages(files) != [] {
      assert DropImages(files)[0] in DropImages(files);
    }
  }

  /** Every file the main process would accept by its extension passes the drop filter. */
  lemma MediaNamesAreDroppable(f: string)
    requires Paths.IsMediaName(f)
    ensures IsDroppedImage(f)
  {
    LowerEndsWithLowerExt(f);
    ListedSuffix(Ascii.Lower(f), Paths.LowerExt(f), Paths.MediaExtensions);
  }

  /** The lower-cased path ends in its lower-cased extension. */
  lemma LowerEndsWithLowerExt(f: string)
    ensures EndsWith(Ascii.Lower(f), Paths.LowerExt(f))
  {
    ExtIsSuffix(f);
    LowerSuffix(f, Paths.ExtName(f));
  }

  lemma ExtIsSuffix(f: string)
    ensures EndsWith(f, Paths.ExtName(f))
  {
    var e := Paths.ExtName(f);
    var b := Paths.BaseName(f);
    assert b == f[|f| - |b|..];
    assert e == b[|b| - |e|..];
  }

  lemma LowerSuffix(s: string, e: string)
    requires EndsWith(s, e)
    ensures EndsWith(Ascii.Lower(s), Ascii.Lower(e))
  {
    var k := |s| - |e|;
    assert s == s[..k] + e;
    Ascii.LowerAppend(s[..k], e);
  }

  lemma {:induction false} ListedSuffix(s: string, e: string, suffixes: seq<string>)
    requires Paths.InList(e, suffixes) && EndsWith(s, e)
    ensures EndsWithAny(s, suffixes)
    decreases |suffixes|
  {
    if e != suffixes[0] {
      ListedSuffix(s, e, suffixes[1..]);
    }
  }

  /**
   A dot-file named like an extension passes the drop filter although `path.extname` sees no
   extension in it, so the transfer then refuses it as unsupported.
   */
  lemma DotFileDroppedButUnsupported(dir: string)
    ensures IsDroppedImage(dir + "/.jpg")
    ensures !Paths.IsMediaName(dir + "/.jpg")
  {
    var p := dir + "/.jpg";
    Ascii.LowerAppend(dir, "/.jpg");
    LowerSlashJpg();
    assert Ascii.Lower(p)[|Ascii.Lower(p)| - 4..] == ".jpg";
    DotFileHasNoExtension(dir);
    Paths.InListIsIn("", Paths.MediaExtensions);
  }

  lemma LowerSlashJpg()
    ensures Ascii.Lower("/.jpg") == "/.jpg"
  {
    var l := Ascii.Lower("/.jpg");
    assert l[0] == '/' && l[1] == '.' && l[2] == 'j' && l[3] == 'p' && l[4] == 'g';
  }

  /** The base name `.jpg` is a dot-file name, which has no extension. */
  lemma DotFileHasNoExtension(dir: string)
    ensures Paths.LowerExt(dir + "/.jpg") == ""
  {
    var p := dir + "/.jpg";
    assert '/' !in ".jpg";
    assert p == dir + ['/'] + ".jpg";
    Paths.LastIndexOfBeforeSuffix(dir, '/', ".jpg");
    assert Paths.BaseName(p) == ".jpg";
    assert '.' !in "jpg";
    assert ".jpg" == "" + ['.'] + "jpg";
    Paths.LastIndexOfBeforeSuffix("", '.', "jpg");
  }

  // ---------------------------------------------------------------- folder filter

  /** The filter bar's choices (`ImageFilter`). */
  datatype FolderFilter = All | Raw | Jpg | Edited {
    function Label(): string {
      match this
      case All => "all"
      case Raw => "RAW"
      case Jpg => "JPG"
      case Edited => "Editados"
    }
  }

  /** `filter === 'all' ? undefined : filter`. */
  function FilterValue(f: FolderFilter): (r: Option<string>)
    ensures r.None? <==> f == All
    ensures r.Some? ==> r.value == f.Label()
  {
    if f == All then None else Some(f.Label())
  }

  /** Each folder choice names the project sub-folder it stands for, and no two collide. */
  lemma FilterValueNamesFolders(f: FolderFilter, g: FolderFilter)
    ensures FilterValue(Raw) == Some(Paths.MediaFolder.RawFolder.Name())
    ensures FilterValue(Jpg) == Some(Paths.MediaFolder.JpgFolder.Name())
    ensures FilterValue(Edited) == Some(Paths.EditedFolder)
    ensures FilterValue(f) == FilterValue(g) ==> f == g
  {
  }
}
