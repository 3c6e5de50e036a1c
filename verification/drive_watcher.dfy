/**
 The removable-drive watcher: the enumeration of candidate drives, and one tick of the timer
 that records newly seen drives, announces cards with images and forgets unplugged drives.
 */
module DriveWatcher {
  import opened Wrappers
  import Paths
  import MediaScan

  /** How many image paths a `card-detected` message carries as a preview. */
  const PreviewCount := 10

  /** The platforms `getRemovableDrives` distinguishes. */
  datatype Platform = Linux | Windows | OtherPlatform

  /** `X:\` for the character code `code`. */
  function DriveLetter(code: nat): (r: string)
    requires 68 <= code <= 90
    ensures |r| == 3 && r[0] as int == code && r[1] == ':' && r[2] == '\\'
  {
    [code as char, ':', '\\']
  }

  /** The Windows probe from `code` up to 90 (`Z`), keeping the letters that exist, in order. */
  function ProbeFrom(code: nat, present: string -> bool): (r: seq<string>)
    requires 68 <= code
    ensures forall i :: 0 <= i < |r| ==>
              |r[i]| == 3 && code <= r[i][0] as int <= 90 && r[i] == DriveLetter(r[i][0] as int) && present(r[i])
    ensures forall i, j :: 0 <= i < j < |r| ==> r[i][0] < r[j][0]
    ensures forall c :: code <= c <= 90 && present(DriveLetter(c)) ==> DriveLetter(c) in r
    decreases 91 - code
  {
    if code > 90 then []
    else
      var head := if present(DriveLetter(code)) then [DriveLetter(code)] else [];
      var rest := ProbeFrom(code + 1, present);
      ProbeCons(code, present, head, rest);
      head + rest
  }

  /** The facts `ProbeFrom` states about the letters it keeps from `code` on. */
  predicate Probed(code: nat, present: string -> bool, r: seq<string>)
    requires 68 <= code
  {
    ProbedLetters(code, present, r) && Ascending(r) && ProbedAll(code, present, r)
  }

  predicate ProbedLetters(code: nat, present: string -> bool, r: seq<string>)
    requires 68 <= code
  {
    forall i :: 0 <= i < |r| ==>
      |r[i]| == 3 && code <= r[i][0] as int <= 90 && r[i] == DriveLetter(r[i][0] as int) && present(r[i])
  }

  predicate Ascending(r: seq<string>) {
    forall i, j :: 0 <= i < j < |r| ==> |r[i]| > 0 && |r[j]| > 0 && r[i][0] < r[j][0]
  }

  predicate ProbedAll(code: nat, present: string -> bool, r: seq<string>)
    requires 68 <= code
  {
    forall c :: code <= c <= 90 && present(DriveLetter(c)) ==> DriveLetter(c) in r
  }

  /** Probing one letter and then the letters after it keeps the facts. */
  lemma ProbeCons(code: nat, present: string -> bool, head: seq<string>, rest: seq<string>)
    requires 68 <= code <= 90
    requires head == if present(DriveLetter(code)) then [DriveLetter(code)] else []
    requires Probed(code + 1, present, rest)
    ensures Probed(code, present, head + rest)
  {
    ProbeConsLetters(code, present, head, rest);
    ProbeConsAscending(code, present, head, rest);
    ProbeConsAll(code, present, head, rest);
  }

  lemma ProbeConsLetters(code: nat, present: string -> bool, head: seq<string>, rest: seq<string>)
    requires 68 <= code <= 90
    requires head == if present(DriveLetter(code)) then [DriveLetter(code)] else []
    requires ProbedLetters(code + 1, present, rest)
    ensures ProbedLetters(code, present, head + rest)
  {
    var r := head + rest;
    forall i | 0 <= i < |r|
      ensures |r[i]| == 3 && code <= r[i][0] as int <= 90 && r[i] == DriveLetter(r[i][0] as int) && present(r[i])
    {
      if i >= |head| {
        assert r[i] == rest[i - |head|];
      }
    }
  }

  lemma ProbeConsAscending(code: nat, present: string -> bool, head: seq<string>, rest: seq<string>)
    requires 68 <= code <= 90
    requires head == if present(DriveLetter(code)) then [DriveLetter(code)] else []
    requires ProbedLetters(code + 1, present, rest) && Ascending(rest)
    ensures Ascending(head + rest)
  {
    var r := head + rest;
    forall i, j | 0 <= i < j < |r| ensures |r[i]| > 0 && |r[j]| > 0 && r[i][0] < r[j][0] {
      assert r[j] == rest[j - |head|];
      if i >= |head| {
        assert r[i] == rest[i - |head|];
      }
    }
  }

  lemma ProbeConsAll(code: nat, present: string -> bool, head: seq<string>, rest: seq<string>)
    requires 68 <= code <= 90
    requires head == if present(DriveLetter(code)) then [DriveLetter(code)] else []
    requires ProbedAll(code + 1, present, rest)
    ensures ProbedAll(code, present, head + rest)
  {
    forall c | code <= c <= 90 && present(DriveLetter(c)) ensures DriveLetter(c) in head + rest {
      if c > code {
        assert DriveLetter(c) in rest;
      }
    }
  }

  /** Drive letters D: to Z: that exist, in alphabetical order. */
  function WindowsDrives(present: string -> bool): (r: seq<string>)
    ensures forall i :: 0 <= i < |r| ==> |r[i]| == 3 && 'D' <= r[i][0] <= 'Z' && r[i][1..] == ":\\" && present(r[i])
    ensures forall c: char :: 'D' <= c <= 'Z' && present([c, ':', '\\']) ==> [c, ':', '\\'] in r
    ensures forall i, j :: 0 <= i < j < |r| ==> r[i] != r[j]
  {
    var r := ProbeFrom(68, present);
    assert forall c: char :: 'D' <= c <= 'Z' ==> [c, ':', '\\'] == DriveLetter(c as int);
    r
  }

  /**
   `getRemovableDrives`: on Linux the mount points found under `/media`, `/mnt` and `/run/media`
   (enumerated outside the model), on Windows the letter probe, elsewhere nothing.
   */
  function RemovableDrives(platform: Platform, linuxMounts: seq<string>, present: string -> bool): (r: seq<string>)
    ensures platform == Linux ==> r == linuxMounts
    ensures platform == Windows ==>
              forall d :: d in r <==> |d| == 3 && 'D' <= d[0] <= 'Z' && d[1..] == ":\\" && present(d)
    ensures platform == Windows ==> forall i, j :: 0 <= i < j < |r| ==> r[i] != r[j]
    ensures platform == OtherPlatform ==> r == []
  {
    WindowsDrivesMembers(present);
    match platform
    case Linux => linuxMounts
    case Windows => WindowsDrives(present)
    case OtherPlatform => []
  }

  /** The letter probe finds exactly the present drives `D:\` to `Z:\`. */
  lemma WindowsDrivesMembers(present: string -> bool)
    ensures forall d :: d in WindowsDrives(present) <==>
              |d| == 3 && 'D' <= d[0] <= 'Z' && d[1..] == ":\\" && present(d)
  {
    var r := WindowsDrives(present);
    forall d | |d| == 3 && 'D' <= d[0] <= 'Z' && d[1..] == ":\\" && present(d)
      ensures d in r
    {
      assert d == [d[0], ':', '\\'];
    }
  }

  /** The `card-detected` message. */
  datatype CardEvent = CardEvent(drive: string, dcimPath: string, imageCount: nat, images: seq<string>)

  function Min(a: nat, b: nat): nat {
    if a <= b then a else b
  }

  /** What a newly seen drive announces: only a DCIM folder with images, and only to a window. */
  function Detect(drive: string, dcim: MediaScan.DcimState, hasWindow: bool): (r: Option<CardEvent>)
    ensures r.Some? <==> hasWindow && dcim.Folder?
                         && |MediaScan.GetImagesFromDcim(Paths.Join(drive, MediaScan.DcimName), dcim.listing)| > 0
    ensures r.Some? ==>
              var images := MediaScan.GetImagesFromDcim(Paths.Join(drive, MediaScan.DcimName), dcim.listing);
              && r.value.drive == drive
              && r.value.dcimPath == Paths.Join(drive, MediaScan.DcimName)
              && r.value.imageCount == |images|
              && |r.value.images| == Min(PreviewCount, |images|)
              && r.value.images == images[..|r.value.images|]
  {
    match MediaScan.HasDcimFolder(drive, dcim)
    case None => None
    case Some(dcimPath) =>
      if !hasWindow then None
      else
        var images := MediaScan.GetImagesFromDcim(dcimPath, dcim.listing);
        if |images| == 0 then None
        else Some(CardEvent(drive, dcimPath, |images|, images[..Min(PreviewCount, |images|)]))
  }

  /** The watcher's memory and the messages one tick sends. */
  datatype Watch = Watch(known: set<string>, events: seq<CardEvent>)

  /** The tick's first loop over the first `n` enumerated drives. */
  function AddPass(known: set<string>, current: seq<string>, probe: string -> MediaScan.DcimState,
                   hasWindow: bool, n: nat): Watch
    requires n <= |current|
    decreases n
  {
    if n == 0 then Watch(known, [])
    else
      var w := AddPass(known, current, probe, hasWindow, n - 1);
      var d := current[n - 1];
      if d in w.known then w
      else
        var announced := match Detect(d, probe(d), hasWindow) case None => [] case Some(e) => [e];
        Watch(w.known + {d}, w.events + announced)
  }

  /** What a watcher tick's detection gives for each drive. */
  function Found(probe: string -> MediaScan.DcimState, hasWindow: bool): string -> Option<CardEvent> {
    d => Detect(d, probe(d), hasWindow)
  }

  /**
   After the first loop has seen the drives `seen`: every one of them is remembered, each event
   is the detection of a drive new to this tick, no drive is announced twice, and every new
   drive the detection accepts is announced.
   */
  ghost predicate PassFacts(known: set<string>, seen: seq<string>, found: string -> Option<CardEvent>, w: Watch) {
    && (forall d :: d in w.known <==> d in known || d in seen)
    && (forall i :: 0 <= i < |w.events| ==>
          && w.events[i].drive in seen
          && w.events[i].drive !in known
          && w.events[i].drive in w.known
          && found(w.events[i].drive) == Some(w.events[i]))
    && (forall i, j :: 0 <= i < j < |w.events| ==> w.events[i].drive != w.events[j].drive)
    && (forall d :: d in seen && d !in known && found(d).Some? ==>
          exists i :: 0 <= i < |w.events| && w.events[i].drive == d)
  }

  /** Every drive the first loop saw is remembered, and its events are for drives new to this tick. */
  lemma {:induction false} AddPassFacts(known: set<string>, current: seq<string>,
                                        probe: string -> MediaScan.DcimState, hasWindow: bool, n: nat)
    requires n <= |current|
    ensures PassFacts(known, current[..n], Found(probe, hasWindow), AddPass(known, current, probe, hasWindow, n))
    decreases n
  {
    if n > 0 {
      AddPassFacts(known, current, probe, hasWindow, n - 1);
      assert current[..n] == current[..n - 1] + [current[n - 1]];
      PassStep(known, current[..n - 1], current[n - 1], Found(probe, hasWindow),
               AddPass(known, current, probe, hasWindow, n - 1));
    }
  }

  /** One iteration of the first loop keeps `PassFacts`. */
  lemma PassStep(known: set<string>, seen: seq<string>, d: string, found: string -> Option<CardEvent>, w: Watch)
    requires PassFacts(known, seen, found, w)
    requires found(d).Some? ==> found(d).value.drive == d
    ensures PassFacts(known, seen + [d], found,
                      if d in w.known then w
                      else Watch(w.known + {d}, w.events + match found(d) case None => [] case Some(e) => [e]))
  {
    var seen' := seen + [d];
    assert forall x :: x in seen' <==> x in seen || x == d;
    if d !in w.known {
      var w' := Watch(w.known + {d}, w.events + match found(d) case None => [] case Some(e) => [e]);
      assert w'.events[..|w.events|] == w.events;
      forall x | x in seen' && x !in known && found(x).Some?
        ensures exists i :: 0 <= i < |w'.events| && w'.events[i].drive == x
      {
        if x in seen {
          var i :| 0 <= i < |w.events| && w.events[i].drive == x;
          assert w'.events[i] == w.events[i];
        } else {
          assert w'.events[|w.events|].drive == x;
        }
      }
    }
  }

  /**
   One tick of the watcher: afterwards the known set is exactly the enumerated drives; each
   event is for a drive absent at the start of the tick, at most one per drive, and every such
   drive with a DCIM folder holding images gets one when a window exists.
   */
  function Tick(known: set<string>, current: seq<string>, probe: string -> MediaScan.DcimState,
                hasWindow: bool): (w: Watch)
    ensures forall d :: d in w.known <==> d in current
    ensures forall i :: 0 <= i < |w.events| ==>
              && w.events[i].drive in current
              && w.events[i].drive !in known
              && Detect(w.events[i].drive, probe(w.events[i].drive), hasWindow) == Some(w.events[i])
    ensures forall i, j :: 0 <= i < j < |w.events| ==> w.events[i].drive != w.events[j].drive
    ensures forall d :: d in current && d !in known && Detect(d, probe(d), hasWindow).Some? ==>
              exists i :: 0 <= i < |w.events| && w.events[i].drive == d
  {
    var added := AddPass(known, current, probe, hasWindow, |current|);
    AddPassFacts(known, current, probe, hasWindow, |current|);
    assert current[..|current|] == current;
    var kept := set d | d in added.known && d in current;
    Watch(kept, added.events)
  }

  /** The initial scan only records the drives already present. */
  function InitialKnown(drives: seq<string>): (known: set<string>)
    ensures forall d :: d in known <==> d in drives
  {
    set d | d in drives
  }

  /** A tick that enumerates only known drives is silent, however many drives disappeared. */
  lemma NoNewDriveNoEvent(known: set<string>, current: seq<string>, probe: string -> MediaScan.DcimState,
                          hasWindow: bool)
    requires forall d :: d in current ==> d in known
    ensures Tick(known, current, probe, hasWindow).events == []
  {
    var w := Tick(known, current, probe, hasWindow);
    assert |w.events| > 0 ==> w.events[0].drive in current;
  }

  /** On Windows a tick announces a newly inserted drive letter whose DCIM folder holds images. */
  lemma WindowsCardAnnounced(known: set<string>, present: string -> bool, probe: string -> MediaScan.DcimState,
                             hasWindow: bool, c: char)
    requires 'D' <= c <= 'Z' && present([c, ':', '\\']) && [c, ':', '\\'] !in known
    requires Detect([c, ':', '\\'], probe([c, ':', '\\']), hasWindow).Some?
    ensures var w := Tick(known, RemovableDrives(Windows, [], present), probe, hasWindow);
            exists i :: 0 <= i < |w.events| && w.events[i].drive == [c, ':', '\\']
  {
    var d := [c, ':', '\\'];
    var current := RemovableDrives(Windows, [], present);
    assert d[1..] == ":\\";
    assert d in current;
    TickAnnounces(known, current, probe, hasWindow, d);
  }

  lemma TickAnnounces(known: set<string>, current: seq<string>, probe: string -> MediaScan.DcimState,
                      hasWindow: bool, d: string)
    requires d in current && d !in known && Detect(d, probe(d), hasWindow).Some?
    ensures var w := Tick(known, current, probe, hasWindow);
            exists i :: 0 <= i < |w.events| && w.events[i].drive == d
  {
    var w := Tick(known, current, probe, hasWindow);
    assert d in current && d !in known && Detect(d, probe(d), hasWindow).Some?;
  }

  /** On a platform without a drive enumeration no tick announces anything. */
  lemma OtherPlatformSilent(known: set<string>, present: string -> bool, probe: string -> MediaScan.DcimState,
                            hasWindow: bool)
    ensures Tick(known, RemovableDrives(OtherPlatform, [], present), probe, hasWindow).events == []
  {
    NoNewDriveNoEvent(known, [], probe, hasWindow);
  }

  /** A drive that was unplugged for one tick is announced again when it comes back. */
  lemma ReinsertedDriveFiresAgain(known: set<string>, without: seq<string>, with: seq<string>, d: string,
                                  probe: string -> MediaScan.DcimState, hasWindow: bool)
    requires d !in without && d in with
    requires Detect(d, probe(d), hasWindow).Some?
    ensures var after := Tick(Tick(known, without, probe, hasWindow).known, with, probe, hasWindow);
            exists i :: 0 <= i < |after.events| && after.events[i].drive == d
  {
    var between := Tick(known, without, probe, hasWindow).known;
    assert d !in between;
    var after := Tick(between, with, probe, hasWindow);
    assert exists i :: 0 <= i < |after.events| && after.events[i].drive == d;
  }

  /** A drive present on two consecutive ticks is announced at most on the first. */
  lemma StillPluggedIsSilent(known: set<string>, first: seq<string>, second: seq<string>, d: string,
                             probe: string -> MediaScan.DcimState, hasWindow: bool)
    requires d in first
    ensures var after := Tick(Tick(known, first, probe, hasWindow).known, second, probe, hasWindow);
            forall i :: 0 <= i < |after.events| ==> after.events[i].drive != d
  {
  }
}
