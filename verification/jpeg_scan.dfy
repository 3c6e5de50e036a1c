/**
 The embedded-preview scanner: a byte-signature scan for the JPEG start-of-image (0xFF 0xD8)
 and end-of-image (0xFF 0xD9) marker codes of ITU-T T.81 (ISO/IEC 10918-1), Annex B, Table B.1,
 over the first 10 MiB of a RAW file. No JPEG segment is parsed.
 */
module JpegScan {
  import opened Wrappers

  /** At most this many leading bytes of the file are read. */
  const MaxRead: nat := 10 * 1024 * 1024
  /** A candidate must be strictly longer than this many bytes, end marker included. */
  const MinPreviewSize: nat := 10000

  const MarkerPrefix: bv8 := 0xFF
  const SoiCode: bv8 := 0xD8
  const EoiCode: bv8 := 0xD9

  /** The bytes actually scanned: the first `min(size, 10 MiB)` bytes of the file. */
  function Window(file: seq<bv8>): (w: seq<bv8>)
    ensures |w| == if |file| < MaxRead then |file| else MaxRead
    ensures w == file[..|w|]
  {
    if |file| < MaxRead then file else file[..MaxRead]
  }

  predicate IsSoi(buf: seq<bv8>, k: int) {
    0 <= k && k + 1 < |buf| && buf[k] == MarkerPrefix && buf[k + 1] == SoiCode
  }

  predicate IsEoi(buf: seq<bv8>, k: int) {
    0 <= k && k + 1 < |buf| && buf[k] == MarkerPrefix && buf[k + 1] == EoiCode
  }

  predicate IsMarker(buf: seq<bv8>, k: int) {
    IsSoi(buf, k) || IsEoi(buf, k)
  }

  /** The number of positions the scan visits: `i` runs while `i < bytesRead - 1`. */
  function Positions(buf: seq<bv8>): nat {
    if |buf| == 0 then 0 else |buf| - 1
  }

  /** A half-open byte range `[start, end)`; `end` counts the two bytes of the end marker. */
  datatype Span = Span(start: nat, end: nat) {
    function Size(): int { end - start }
  }

  /** The scan's loop state: the pending start (the source's -1 is `None`) and the kept spans. */
  datatype ScanState = ScanState(pending: Option<nat>, found: seq<Span>)

  /** A kept span starts with a start marker, ends with an end marker and passes the size filter. */
  predicate IsMarkedSpan(buf: seq<bv8>, sp: Span) {
    && sp.end <= |buf|
    && IsSoi(buf, sp.start)
    && IsEoi(buf, sp.end - 2)
    && sp.Size() > MinPreviewSize
  }

  /** One iteration of the scan loop at position `i`. */
  function Step(buf: seq<bv8>, i: nat, st: ScanState): ScanState
    requires i + 1 < |buf|
  {
    var pending := if IsSoi(buf, i) then Some(i) else st.pending;
    if pending.Some? && IsEoi(buf, i) then
      var sp := Span(pending.value, i + 2);
      ScanState(None, if sp.Size() > MinPreviewSize then st.found + [sp] else st.found)
    else
      ScanState(pending, st.found)
  }

  /** The loop state after visiting positions `0 .. n-1`. */
  function ScanUpTo(buf: seq<bv8>, n: nat): (st: ScanState)
    requires n <= Positions(buf)
    ensures st.pending.Some? ==> st.pending.value < n && IsSoi(buf, st.pending.value)
    ensures forall j :: 0 <= j < |st.found| ==>
              IsMarkedSpan(buf, st.found[j]) && st.found[j].end <= n + 1
    ensures forall j, k :: 0 <= j < k < |st.found| ==> st.found[j].end < st.found[k].end
    decreases n
  {
    if n == 0 then ScanState(None, []) else Step(buf, n - 1, ScanUpTo(buf, n - 1))
  }

  /**
   `jpegs.reduce((max, curr) => curr.size > max.size ? curr : max)`: the first span of
   greatest size.
   */
  function Largest(js: seq<Span>): (r: Span)
    requires |js| > 0
    ensures r in js
    ensures forall j :: 0 <= j < |js| ==> js[j].Size() <= r.Size()
    ensures exists k :: 0 <= k < |js| && js[k] == r && forall j :: 0 <= j < k ==> js[j].Size() < r.Size()
    decreases |js|
  {
    if |js| == 1 then js[0]
    else
      var m := Largest(js[..|js| - 1]);
      var c := js[|js| - 1];
      if c.Size() > m.Size() then c else m
  }

  /** The scanner's answer on a window of bytes. */
  function ScanWindow(buf: seq<bv8>): (r: Option<seq<bv8>>)
    ensures r.Some? ==> IsPreviewOf(buf, r.value)
  {
    var st := ScanUpTo(buf, Positions(buf));
    if |st.found| == 0 then None
    else
      var b := Largest(st.found);
      PreviewShape(buf, b);
      Some(buf[b.start..b.end])
  }

  /** `extractEmbeddedJpeg`; `None` as the file stands for a failed stat, open or read. */
  function EmbeddedJpeg(file: Option<seq<bv8>>): (r: Option<seq<bv8>>)
    ensures file.None? ==> r.None?
    ensures r.Some? ==> IsPreviewOf(Window(file.value), r.value)
  {
    match file
    case None => None
    case Some(bytes) => ScanWindow(Window(bytes))
  }

  /** What a returned preview looks like: a marker-delimited slice of the window above the size filter. */
  predicate IsPreviewOf(buf: seq<bv8>, p: seq<bv8>) {
    exists s, e :: 0 <= s <= e <= |buf| && p == buf[s..e]
      && |p| > MinPreviewSize
      && p[0] == MarkerPrefix && p[1] == SoiCode
      && p[|p| - 2] == MarkerPrefix && p[|p| - 1] == EoiCode
  }

  /** The scan loop as the source writes it, followed by the reduce. */
  method ExtractEmbeddedJpeg(file: Option<seq<bv8>>) returns (r: Option<seq<bv8>>)
    ensures r == EmbeddedJpeg(file)
    ensures file.None? ==> r.None?
    ensures r.Some? ==> IsPreviewOf(Window(file.value), r.value)
  {
    if file.None? {
      return None;
    }
    var buf := Window(file.value);
    var jpegs := CollectSpans(buf);
    if |jpegs| == 0 {
      return None;
    }
    var largest := PickLargest(jpegs);
    r := Some(buf[largest.start..largest.end]);
  }

  /** The `for` loop over positions `0 .. bytesRead-2`, collecting the spans that pass the filter. */
  method CollectSpans(buf: seq<bv8>) returns (jpegs: seq<Span>)
    ensures jpegs == ScanUpTo(buf, Positions(buf)).found
    ensures forall j :: 0 <= j < |jpegs| ==> IsMarkedSpan(buf, jpegs[j])
  {
    jpegs := [];
    var jpegStart: int := -1;
    var i := 0;
    while i < |buf| - 1
      invariant 0 <= i <= Positions(buf)
      invariant jpegs == ScanUpTo(buf, i).found
      invariant jpegStart == -1 <==> ScanUpTo(buf, i).pending.None?
      invariant jpegStart != -1 ==> ScanUpTo(buf, i).pending == Some(jpegStart)
    {
      if buf[i] == 0xFF && buf[i + 1] == 0xD8 {
        jpegStart := i;
      }
      if jpegStart != -1 && buf[i] == 0xFF && buf[i + 1] == 0xD9 {
        var jpegEnd := i + 2;
        var size := jpegEnd - jpegStart;
        if size > 10000 {
          jpegs := jpegs + [Span(jpegStart, jpegEnd)];
        }
        jpegStart := -1;
      }
      i := i + 1;
    }
  }

  /** The reduce: a running maximum that replaces the current best only on a strictly larger span. */
  method PickLargest(jpegs: seq<Span>) returns (largest: Span)
    requires |jpegs| > 0
    ensures largest == Largest(jpegs)
  {
    largest := jpegs[0];
    var k := 1;
    while k < |jpegs|
      invariant 1 <= k <= |jpegs|
      invariant largest == Largest(jpegs[..k])
    {
      LargestPrefix(jpegs, k);
      if jpegs[k].Size() > largest.Size() {
        largest := jpegs[k];
      }
      k := k + 1;
    }
    assert jpegs[..k] == jpegs;
  }

  /** One more element of the reduce: the running maximum moves only to a strictly larger span. */
  lemma LargestPrefix(js: seq<Span>, k: nat)
    requires 1 <= k < |js|
    ensures Largest(js[..k + 1])
            == if js[k].Size() > Largest(js[..k]).Size() then js[k] else Largest(js[..k])
  {
    var p := js[..k + 1];
    assert p[..|p| - 1] == js[..k];
    assert p[|p| - 1] == js[k];
  }

  lemma PreviewShape(buf: seq<bv8>, sp: Span)
    requires IsMarkedSpan(buf, sp)
    ensures IsPreviewOf(buf, buf[sp.start..sp.end])
  {
    var p := buf[sp.start..sp.end];
    assert p[0] == buf[sp.start] && p[1] == buf[sp.start + 1];
    assert p[|p| - 2] == buf[sp.end - 2] && p[|p| - 1] == buf[sp.end - 1];
  }

  /** No start or end marker at any position strictly between `a` and `b`. */
  ghost predicate NoMarkerBetween(buf: seq<bv8>, a: int, b: int) {
    forall k :: a < k < b ==> !IsMarker(buf, k)
  }

  /**
   A span the scan reports after `n` positions: its end marker was visited, it starts at a start
   marker, no marker of either kind lies strictly inside, and it passes the size filter.
   */
  ghost predicate IsCandidate(buf: seq<bv8>, n: nat, sp: Span) {
    sp.end - 2 < n && IsMarkedSpan(buf, sp) && NoMarkerBetween(buf, sp.start, sp.end - 2)
  }

  /** The pending start is the most recent start marker, provided no marker has been seen since. */
  lemma {:induction false} PendingIsLastStart(buf: seq<bv8>, n: nat)
    requires n <= Positions(buf)
    ensures ScanUpTo(buf, n).pending.Some? ==> NoMarkerBetween(buf, ScanUpTo(buf, n).pending.value, n)
    ensures forall j :: 0 <= j < n && IsSoi(buf, j) && NoMarkerBetween(buf, j, n) ==>
              ScanUpTo(buf, n).pending == Some(j)
    decreases n
  {
    if n > 0 {
      var i := n - 1;
      PendingIsLastStart(buf, i);
      var prev := ScanUpTo(buf, i);
      var cur := ScanUpTo(buf, n);
      assert cur == Step(buf, i, prev);
      forall j | 0 <= j < n && IsSoi(buf, j) && NoMarkerBetween(buf, j, n)
        ensures cur.pending == Some(j)
      {
        if j < i {
          assert !IsMarker(buf, i);
          assert NoMarkerBetween(buf, j, i);
        }
      }
    }
  }

  /** The kept spans are exactly the candidates. */
  lemma {:induction false} FoundAreCandidates(buf: seq<bv8>, n: nat)
    requires n <= Positions(buf)
    ensures forall sp :: sp in ScanUpTo(buf, n).found <==> IsCandidate(buf, n, sp)
    decreases n
  {
    if n > 0 {
      var i := n - 1;
      var prev := ScanUpTo(buf, i);
      var cur := ScanUpTo(buf, n);
      assert cur == Step(buf, i, prev);
      PendingIsLastStart(buf, i);
      FoundAreCandidates(buf, i);
      forall sp ensures sp in cur.found <==> IsCandidate(buf, n, sp) {
        if sp.end - 2 < i {
          assert sp in cur.found <==> sp in prev.found;
          assert IsCandidate(buf, n, sp) <==> IsCandidate(buf, i, sp);
        } else if sp.end - 2 == i {
          assert sp !in prev.found;
          if IsCandidate(buf, n, sp) {
            assert prev.pending == Some(sp.start);
          }
        }
      }
    }
  }

  /** The span the scanner should pick: a longest candidate, and among those the first one. */
  ghost predicate IsBest(buf: seq<bv8>, sp: Span) {
    && IsCandidate(buf, Positions(buf), sp)
    && forall c :: IsCandidate(buf, Positions(buf), c) ==>
         c.Size() < sp.Size() || (c.Size() == sp.Size() && sp.end <= c.end)
  }

  /**
   The scanner returns nothing exactly when there is no candidate, and otherwise the bytes of
   the longest candidate, ties going to the earliest.
   */
  lemma ScanWindowSelectsBest(buf: seq<bv8>)
    ensures ScanWindow(buf).None? <==> forall sp :: !IsCandidate(buf, Positions(buf), sp)
    ensures ScanWindow(buf).Some? ==>
              exists sp :: IsBest(buf, sp) && ScanWindow(buf).value == buf[sp.start..sp.end]
  {
    var n := Positions(buf);
    var found := ScanUpTo(buf, n).found;
    FoundAreCandidates(buf, n);
    if |found| == 0 {
      assert forall sp :: !IsCandidate(buf, n, sp);
    } else {
      assert IsCandidate(buf, n, found[0]);
      var b := Largest(found);
      LargestBeatsAll(found);
      assert IsBest(buf, b);
    }
  }

  /** With ends strictly increasing, `Largest` beats every span, and a span of equal size ends no earlier. */
  lemma LargestBeatsAll(found: seq<Span>)
    requires |found| > 0
    requires forall j, k :: 0 <= j < k < |found| ==> found[j].end < found[k].end
    ensures forall c :: c in found ==>
              c.Size() < Largest(found).Size() || (c.Size() == Largest(found).Size() && Largest(found).end <= c.end)
  {
    var b := Largest(found);
    var k :| 0 <= k < |found| && found[k] == b
             && forall j :: 0 <= j < k ==> found[j].Size() < b.Size();
    forall c | c in found
      ensures c.Size() < b.Size() || (c.Size() == b.Size() && b.end <= c.end)
    {
      var j :| 0 <= j < |found| && found[j] == c;
      if c.Size() == b.Size() && j != k {
        assert k < j;
      }
    }
  }

  /** At most one span is best, so the scanner's choice is determined by the bytes alone. */
  lemma BestIsUnique(buf: seq<bv8>, a: Span, b: Span)
    requires IsBest(buf, a) && IsBest(buf, b)
    ensures a == b
  {
    assert a.Size() == b.Size() && a.end == b.end;
  }

  /** Without a start marker there is no preview. */
  lemma NoStartMarkerNoPreview(buf: seq<bv8>)
    requires forall k :: !IsSoi(buf, k)
    ensures ScanWindow(buf) == None
  {
    ScanWindowSelectsBest(buf);
  }

  /**
   A start marker inside a preview hides it: every kept span starting at `a` ends before the
   next start marker `b`, so an outer preview that embeds a thumbnail is never kept.
   */
  lemma NestedStartHidesOuter(buf: seq<bv8>, a: nat, b: nat)
    requires IsSoi(buf, a) && IsSoi(buf, b) && a < b
    ensures forall sp :: sp in ScanUpTo(buf, Positions(buf)).found && sp.start == a ==> sp.end - 2 < b
  {
    var n := Positions(buf);
    FoundAreCandidates(buf, n);
    forall sp | sp in ScanUpTo(buf, n).found && sp.start == a ensures sp.end - 2 < b {
      assert IsCandidate(buf, n, sp);
      if sp.end - 2 > b {
        assert IsMarker(buf, b);
      }
    }
  }

  /**
   A preview `[a, d+2)` with a nested thumbnail `[b, c+2)`: the inner span is kept when it is
   large enough, and the outer one is lost.
   */
  lemma NestedThumbnailWins(buf: seq<bv8>, a: nat, b: nat, c: nat, d: nat)
    requires a < b < c < d && d < Positions(buf)
    requires IsSoi(buf, a) && IsSoi(buf, b) && IsEoi(buf, c) && IsEoi(buf, d)
    requires NoMarkerBetween(buf, b, c) && c + 2 - b > MinPreviewSize
    ensures Span(b, c + 2) in ScanUpTo(buf, Positions(buf)).found
    ensures Span(a, d + 2) !in ScanUpTo(buf, Positions(buf)).found
  {
    var n := Positions(buf);
    FoundAreCandidates(buf, n);
    assert IsCandidate(buf, n, Span(b, c + 2));
    assert IsMarker(buf, b);
    assert !IsCandidate(buf, n, Span(a, d + 2));
  }

  /** Bytes past the first 10 MiB never influence the result. */
  lemma EmbeddedJpegIgnoresTail(head: seq<bv8>, tail: seq<bv8>)
    requires |head| >= MaxRead
    ensures EmbeddedJpeg(Some(head + tail)) == EmbeddedJpeg(Some(head))
  {
    assert (head + tail)[..MaxRead] == head[..MaxRead];
  }
}
