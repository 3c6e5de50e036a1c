/**
 Card discovery on one drive: `hasDCIMFolder` and the recursive `getImagesFromDCIM` scan. The
 directory tree is a value; a listing that cannot be read and an entry that cannot be stat'ed
 are explicit, because the source treats them differently.
 */
module MediaScan {
  import opened Wrappers
  import Paths
  import Seqs
  import Transfer

  /** What `statSync` reports for one listed name. */
  datatype Entry = File(name: string) | Dir(name: string, listing: Listing) | Unstattable(name: string)

  /** What `readdirSync` reports for one directory. */
  datatype Listing = Unreadable | Items(entries: seq<Entry>)

  /** What sits at `<drive>/DCIM`. */
  datatype DcimState = Missing | NotADirectory | Folder(listing: Listing)

  const DcimName := "DCIM"

  /** `hasDCIMFolder`: the DCIM path when it exists and is a directory. */
  function HasDcimFolder(drive: string, dcim: DcimState): (r: Option<string>)
    ensures r.Some? <==> dcim.Folder?
    ensures r.Some? ==> r.value == Paths.Join(drive, DcimName)
  {
    if dcim.Folder? then Some(Paths.Join(drive, DcimName)) else None
  }

  /**
   `scanDir`: an unreadable directory yields nothing; an entry whose stat fails ends the scan of
   its own directory (the `try` wraps the whole loop) but not of the directories above it.
   */
  function ScanListing(dir: string, l: Listing): seq<string>
    decreases l
  {
    match l
    case Unreadable => []
    case Items(es) => ScanItems(dir, es)
  }

  function ScanItems(dir: string, es: seq<Entry>): seq<string>
    decreases es
  {
    if es == [] || es[0].Unstattable? then []
    else ScanEntry(dir, es[0]) + ScanItems(dir, es[1..])
  }

  /** What one stat'ed entry of `dir` adds: the file itself if it is media, or its subtree. */
  function ScanEntry(dir: string, e: Entry): seq<string>
    decreases e
  {
    match e
    case Unstattable(_) => []
    case File(n) => if Paths.IsMediaName(n) then [Paths.Join(dir, n)] else []
    case Dir(n, sub) => ScanListing(Paths.Join(dir, n), sub)
  }

  /** `getImagesFromDCIM`. */
  function GetImagesFromDcim(dcimPath: string, l: Listing): seq<string> {
    ScanListing(dcimPath, l)
  }

  /** Directory entries as `readdirSync` returns them: non-empty names without a separator. */
  predicate WellNamed(l: Listing)
    decreases l
  {
    match l
    case Unreadable => true
    case Items(es) => WellNamedItems(es)
  }

  predicate WellNamedItems(es: seq<Entry>)
    decreases es
  {
    es == [] ||
    (es[0].name != "" && '/' !in es[0].name
     && (match es[0] case Dir(_, sub) => WellNamed(sub) case _ => true)
     && WellNamedItems(es[1..]))
  }

  /** A tree in which every listing can be read and every entry stat'ed. */
  predicate Healthy(l: Listing)
    decreases l
  {
    match l
    case Unreadable => false
    case Items(es) => HealthyItems(es)
  }

  predicate HealthyItems(es: seq<Entry>)
    decreases es
  {
    es == [] ||
    (!es[0].Unstattable?
     && (match es[0] case Dir(_, sub) => Healthy(sub) case _ => true)
     && HealthyItems(es[1..]))
  }

  /** The reference: every regular file of the tree, in pre-order. */
  function AllFiles(dir: string, l: Listing): seq<string>
    decreases l
  {
    match l
    case Unreadable => []
    case Items(es) => AllFilesItems(dir, es)
  }

  function AllFilesItems(dir: string, es: seq<Entry>): seq<string>
    decreases es
  {
    if es == [] then [] else AllFilesEntry(dir, es[0]) + AllFilesItems(dir, es[1..])
  }

  function AllFilesEntry(dir: string, e: Entry): seq<string>
    decreases e
  {
    match e
    case Unstattable(_) => []
    case File(n) => [Paths.Join(dir, n)]
    case Dir(n, sub) => AllFiles(Paths.Join(dir, n), sub)
  }

  const IsMediaPath: string -> bool := (p: string) => Paths.IsMediaName(p)

  /** Joining a well-formed name keeps its extension, so the name test is a path test. */
  lemma MediaNameOfJoin(dir: string, n: string)
    requires n != "" && '/' !in n
    ensures Paths.IsMediaName(Paths.Join(dir, n)) == Paths.IsMediaName(n)
  {
    Paths.ExtNameOfJoin(dir, n);
  }

  /** On a healthy tree the scan is exactly the media files of the tree, in pre-order. */
  lemma {:induction false} ScanIsFilteredTree(dir: string, l: Listing)
    requires WellNamed(l) && Healthy(l)
    ensures ScanListing(dir, l) == Seqs.Filter(IsMediaPath, AllFiles(dir, l))
    decreases l
  {
    match l
    case Items(es) => ScanItemsIsFiltered(dir, es);
  }

  lemma {:induction false} ScanItemsIsFiltered(dir: string, es: seq<Entry>)
    requires WellNamedItems(es) && HealthyItems(es)
    ensures ScanItems(dir, es) == Seqs.Filter(IsMediaPath, AllFilesItems(dir, es))
    decreases es
  {
    if es != [] {
      ScanItemsIsFiltered(dir, es[1..]);
      ScanEntryIsFiltered(dir, es[0]);
      Seqs.FilterAppend(IsMediaPath, AllFilesEntry(dir, es[0]), AllFilesItems(dir, es[1..]));
    }
  }

  lemma {:induction false} ScanEntryIsFiltered(dir: string, e: Entry)
    requires e.name != "" && '/' !in e.name && !e.Unstattable?
    requires e.Dir? ==> WellNamed(e.listing) && Healthy(e.listing)
    ensures ScanEntry(dir, e) == Seqs.Filter(IsMediaPath, AllFilesEntry(dir, e))
    decreases e
  {
    match e
    case File(n) =>
      MediaNameOfJoin(dir, n);
      Seqs.FilterSingle(IsMediaPath, Paths.Join(dir, n));
    case Dir(n, sub) =>
      ScanIsFilteredTree(Paths.Join(dir, n), sub);
  }

  /** Every scanned path is a media file of the tree. */
  lemma {:induction false} ScanYieldsMedia(dir: string, l: Listing)
    requires WellNamed(l)
    ensures forall i :: 0 <= i < |ScanListing(dir, l)| ==> Paths.IsMediaName(ScanListing(dir, l)[i])
    decreases l
  {
    match l
    case Unreadable =>
    case Items(es) => ScanItemsYieldMedia(dir, es);
  }

  lemma {:induction false} ScanItemsYieldMedia(dir: string, es: seq<Entry>)
    requires WellNamedItems(es)
    ensures forall i :: 0 <= i < |ScanItems(dir, es)| ==> Paths.IsMediaName(ScanItems(dir, es)[i])
    decreases es
  {
    if es != [] && !es[0].Unstattable? {
      ScanItemsYieldMedia(dir, es[1..]);
      ScanEntryYieldsMedia(dir, es[0]);
      AllMediaAppend(ScanEntry(dir, es[0]), ScanItems(dir, es[1..]));
    }
  }

  lemma {:induction false} ScanEntryYieldsMedia(dir: string, e: Entry)
    requires e.name != "" && '/' !in e.name
    requires e.Dir? ==> WellNamed(e.listing)
    ensures forall i :: 0 <= i < |ScanEntry(dir, e)| ==> Paths.IsMediaName(ScanEntry(dir, e)[i])
    decreases e
  {
    match e
    case Unstattable(_) =>
    case File(n) => FileYieldsMedia(dir, n);
    case Dir(n, sub) => ScanYieldsMedia(Paths.Join(dir, n), sub);
  }

  lemma FileYieldsMedia(dir: string, n: string)
    requires n != "" && '/' !in n
    ensures forall i :: 0 <= i < |ScanEntry(dir, File(n))| ==> Paths.IsMediaName(ScanEntry(dir, File(n))[i])
  {
    var r := ScanEntry(dir, File(n));
    MediaNameOfJoin(dir, n);
    assert r == [] || (r == [Paths.Join(dir, n)] && Paths.IsMediaName(Paths.Join(dir, n)));
    AtMostOne(r, Paths.Join(dir, n), Paths.IsMediaName);
  }

  lemma AtMostOne(r: seq<string>, x: string, p: string -> bool)
    requires r == [] || (r == [x] && p(x))
    ensures forall i :: 0 <= i < |r| ==> p(r[i])
  {
  }

  lemma AllMediaAppend(a: seq<string>, b: seq<string>)
    requires forall i :: 0 <= i < |a| ==> Paths.IsMediaName(a[i])
    requires forall i :: 0 <= i < |b| ==> Paths.IsMediaName(b[i])
    ensures forall i :: 0 <= i < |a + b| ==> Paths.IsMediaName((a + b)[i])
  {
    forall i | 0 <= i < |a + b| ensures Paths.IsMediaName((a + b)[i]) {
      if i >= |a| {
        assert (a + b)[i] == b[i - |a|];
      }
    }
  }

  /** An entry that cannot be stat'ed hides itself and every later sibling, nothing else. */
  lemma {:induction false} UnstattableEndsDirectory(dir: string, es: seq<Entry>, k: nat)
    requires k < |es| && es[k].Unstattable?
    ensures ScanItems(dir, es) == ScanItems(dir, es[..k])
    decreases k
  {
    if k > 0 {
      UnstattableEndsDirectory(dir, es[1..], k - 1);
      assert es[..k][1..] == es[1..][..k - 1];
    }
  }

  /** Siblings scan independently as long as the earlier ones can all be stat'ed. */
  lemma {:induction false} ScanItemsAppend(dir: string, a: seq<Entry>, b: seq<Entry>)
    requires forall i :: 0 <= i < |a| ==> !a[i].Unstattable?
    ensures ScanItems(dir, a + b) == ScanItems(dir, a) + ScanItems(dir, b)
    decreases |a|
  {
    if a == [] {
      assert a + b == b;
    } else {
      var tail := a[1..];
      assert forall i :: 0 <= i < |tail| ==> !tail[i].Unstattable? by {
        forall i | 0 <= i < |tail| ensures !tail[i].Unstattable? {
          assert tail[i] == a[i + 1];
        }
      }
      ScanItemsAppend(dir, tail, b);
      ConsAppend(dir, a, b);
    }
  }

  /** One unfolding of `ScanItems` on a concatenation whose first part starts with a stat'ed entry. */
  lemma ConsAppend(dir: string, a: seq<Entry>, b: seq<Entry>)
    requires a != [] && !a[0].Unstattable?
    requires ScanItems(dir, a[1..] + b) == ScanItems(dir, a[1..]) + ScanItems(dir, b)
    ensures ScanItems(dir, a + b) == ScanItems(dir, a) + ScanItems(dir, b)
  {
    var ab := a + b;
    assert ab[0] == a[0] && ab[1..] == a[1..] + b;
    ScanItemsCons(dir, ab);
    ScanItemsCons(dir, a);
    Regroup(ScanEntry(dir, a[0]), ScanItems(dir, a[1..]), ScanItems(dir, b),
            ScanItems(dir, ab), ScanItems(dir, a));
  }

  lemma Regroup(x: seq<string>, y: seq<string>, z: seq<string>, whole: seq<string>, front: seq<string>)
    requires whole == x + (y + z) && front == x + y
    ensures whole == front + z
  {
  }

  lemma ScanItemsCons(dir: string, es: seq<Entry>)
    requires es != [] && !es[0].Unstattable?
    ensures ScanItems(dir, es) == ScanEntry(dir, es[0]) + ScanItems(dir, es[1..])
  {
  }

  /**
   `import-from-card` after the scan: every scanned file is supported, so there is one result
   per scanned image, in scan order.
   */
  lemma ImportCoversScan(dcimPath: string, l: Listing, projectPath: string, existing: set<string>,
                         copy: nat -> Transfer.CopyOutcome, hasWindow: bool)
    requires WellNamed(l)
    ensures var images := GetImagesFromDcim(dcimPath, l);
            var b := Transfer.ImportFromCard(images, projectPath, existing, copy, hasWindow);
            |b.results| == |images| && forall i :: 0 <= i < |images| ==> b.results[i].file == images[i]
  {
    var images := GetImagesFromDcim(dcimPath, l);
    ScanYieldsMedia(dcimPath, l);
    forall x | x in images ensures Transfer.Supported(projectPath)(x) {
      Transfer.DestinationSupported(projectPath, x);
    }
    Seqs.FilterAll(Transfer.Supported(projectPath), images);
  }
}
