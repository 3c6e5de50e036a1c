/**
 The batch transfer handlers `move-files-to-project` and `import-from-card`, and the single-file
 `move-to-edited`. The filesystem is the set of existing paths; each streamed copy is one atomic
 step whose outcome comes from an oracle indexed by the file's position in the batch.
 */
module Transfer {
  import opened Wrappers
  import Paths
  import Seqs

  datatype TransferError = Unsupported | AlreadyExists | CopyError {
    /** The text the source puts in `error`; a failed copy reports the thrown error's own text. */
    function Message(thrown: string): string {
      match this
      case Unsupported => "Formato não suportado"
      case AlreadyExists => "Arquivo já existe"
      case CopyError => thrown
    }
  }

  /** One entry of the returned list (`ImportResult`). */
  datatype FileResult = FileResult(file: string, success: bool, destination: Option<string>,
                                   error: Option<TransferError>)

  /** The `import-progress` message. */
  datatype Progress = Progress(completed: nat, total: nat, currentFile: string)

  /** How one streamed copy ends; a failed copy may leave a partly written destination behind. */
  datatype CopyOutcome = Copied | CopyFailed(leftPartial: bool)

  /** The two handlers differ only in what they do with unsupported files and destinations. */
  datatype Handler = MoveFiles | CardImport

  /** The loop state: results and progress messages so far, existing paths, the `completed` counter. */
  datatype Batch = Batch(results: seq<FileResult>, progress: seq<Progress>, existing: set<string>,
                         completed: nat)

  /** `path.join(projectPath, destFolder, fileName)`, or `None` for an unsupported extension. */
  function Destination(projectPath: string, file: string): Option<string> {
    match Paths.Classify(Paths.LowerExt(file))
    case None => None
    case Some(folder) => Some(Paths.Join(Paths.Join(projectPath, folder.Name()), Paths.BaseName(file)))
  }

  /** Exactly the seven media extensions have a destination folder. */
  lemma DestinationSupported(projectPath: string, file: string)
    ensures Destination(projectPath, file).Some? <==> Paths.IsMediaName(file)
  {
    Paths.InListIsIn(Paths.LowerExt(file), Paths.MediaExtensions);
  }

  /** `Destination` for one project, as a value the batch loop is parameterised by. */
  function Targets(projectPath: string): string -> Option<string> {
    f => Destination(projectPath, f)
  }

  /** The card import's test: the file has a destination folder. */
  function Supported(projectPath: string): string -> bool {
    Recorded(CardImport, Targets(projectPath))
  }

  /** Whether a handler records a result for this file at all. */
  function Recorded(h: Handler, target: string -> Option<string>): string -> bool {
    f => h == MoveFiles || target(f).Some?
  }

  const IsSuccess: FileResult -> bool := (r: FileResult) => r.success

  /** One iteration of the handler's `for` loop; `total` is the length of the whole batch. */
  function Attempt(h: Handler, st: Batch, file: string, target: Option<string>, total: nat,
                   copy: CopyOutcome, hasWindow: bool): Batch
  {
    match target
    case None =>
      if h == MoveFiles then st.(results := st.results + [FileResult(file, false, None, Some(Unsupported))])
      else st
    case Some(dest) =>
      if dest in st.existing then
        st.(results := st.results + [FileResult(file, false, None, Some(AlreadyExists))])
      else
        match copy
        case CopyFailed(partial) =>
          st.(results := st.results + [FileResult(file, false, None, Some(CopyError))],
              existing := if partial then st.existing + {dest} else st.existing)
        case Copied =>
          var completed := st.completed + 1;
          Batch(st.results + [FileResult(file, true, if h == MoveFiles then Some(dest) else None, None)],
                st.progress + (if hasWindow then [Progress(completed, total, Paths.BaseName(file))] else []),
                st.existing + {dest},
                completed)
  }

  /** One iteration adds a progress message exactly when it copies a file and a window exists. */
  lemma AttemptReports(h: Handler, st: Batch, file: string, target: Option<string>, total: nat,
                       copy: CopyOutcome, hasWindow: bool)
    ensures var b := Attempt(h, st, file, target, total, copy, hasWindow);
            var copied := target.Some? && target.value !in st.existing && copy.Copied?;
            && b.completed == st.completed + (if copied then 1 else 0)
            && b.progress == st.progress + (if copied && hasWindow then [Progress(b.completed, total, Paths.BaseName(file))] else [])
            && (if copied then b.results == st.results + [FileResult(file, true, if h == MoveFiles then target else None, None)]
                else b.results == st.results || (b.results == st.results + [b.results[|st.results|]] && !b.results[|st.results|].success))
  {
  }

  /** The state after the first `n` files. */
  function RunBatch(h: Handler, files: seq<string>, target: string -> Option<string>, existing: set<string>,
                    copy: nat -> CopyOutcome, hasWindow: bool, n: nat): Batch
    requires n <= |files|
    decreases n
  {
    if n == 0 then Batch([], [], existing, 0)
    else Attempt(h, RunBatch(h, files, target, existing, copy, hasWindow, n - 1),
                 files[n - 1], target(files[n - 1]), |files|, copy(n - 1), hasWindow)
  }

  /** One iteration appends at most one result, for its own file, and only for a recorded file. */
  lemma AttemptAppends(h: Handler, st: Batch, file: string, target: Option<string>, total: nat,
                       copy: CopyOutcome, hasWindow: bool)
    ensures var b := Attempt(h, st, file, target, total, copy, hasWindow);
            if h == MoveFiles || target.Some? then
              |b.results| == |st.results| + 1 && b.results[..|st.results|] == st.results
              && b.results[|st.results|].file == file
            else b.results == st.results
  {
  }

  /** Results follow the input order: one per recorded file, in that order. */
  lemma {:induction false} BatchOrder(h: Handler, files: seq<string>, target: string -> Option<string>,
                                      existing: set<string>, copy: nat -> CopyOutcome,
                                      hasWindow: bool, n: nat)
    requires n <= |files|
    ensures var b := RunBatch(h, files, target, existing, copy, hasWindow, n);
            var kept := Seqs.Filter(Recorded(h, target), files[..n]);
            |b.results| == |kept| && forall i :: 0 <= i < |kept| ==> b.results[i].file == kept[i]
    decreases n
  {
    if n > 0 {
      var prev := RunBatch(h, files, target, existing, copy, hasWindow, n - 1);
      var x := files[n - 1];
      var keep := Recorded(h, target);
      BatchOrder(h, files, target, existing, copy, hasWindow, n - 1);
      AttemptAppends(h, prev, x, target(x), |files|, copy(n - 1), hasWindow);
      assert files[..n] == files[..n - 1] + [x];
      Seqs.FilterAppend(keep, files[..n - 1], [x]);
      Seqs.FilterSingle(keep, x);
      assert keep(x) == (h == MoveFiles || target(x).Some?);
      OrderStep(prev.results, RunBatch(h, files, target, existing, copy, hasWindow, n).results,
                Seqs.Filter(keep, files[..n - 1]), x, keep(x));
    }
  }

  /** A result appended for a recorded file, and none for another, keeps results and files aligned. */
  lemma OrderStep(prev: seq<FileResult>, b: seq<FileResult>, kept: seq<string>, x: string, recorded: bool)
    requires |prev| == |kept| && forall i :: 0 <= i < |kept| ==> prev[i].file == kept[i]
    requires if recorded then |b| == |prev| + 1 && b[..|prev|] == prev && b[|prev|].file == x else b == prev
    ensures var k := kept + (if recorded then [x] else []);
            |b| == |k| && forall i :: 0 <= i < |k| ==> b[i].file == k[i]
  {
    if recorded {
      var k := kept + [x];
      forall i | 0 <= i < |k| ensures b[i].file == k[i] {
        if i < |prev| {
          assert b[i] == b[..|prev|][i];
        }
      }
    }
  }

  /**
   Every result carries its own file's outcome: `Unsupported` exactly for unsupported
   extensions, a success only at a destination absent before the batch and not reused by an
   earlier success, and a destination recorded only by `move-files-to-project`.
   */
  predicate Outcomes(h: Handler, b: Batch, target: string -> Option<string>, existing: set<string>) {
    && existing <= b.existing
    && (forall i :: 0 <= i < |b.results| ==>
          (b.results[i].error == Some(Unsupported) <==> target(b.results[i].file).None?))
    && (forall i :: 0 <= i < |b.results| ==> (b.results[i].success <==> b.results[i].error.None?))
    && (h == CardImport ==> forall i :: 0 <= i < |b.results| ==> b.results[i].error != Some(Unsupported))
    && (forall i :: 0 <= i < |b.results| && b.results[i].success ==>
          && target(b.results[i].file).Some?
          && target(b.results[i].file).value in b.existing
          && target(b.results[i].file).value !in existing
          && b.results[i].destination == (if h == MoveFiles then target(b.results[i].file) else None))
    && (forall i :: 0 <= i < |b.results| && !b.results[i].success ==> b.results[i].destination.None?)
    && (forall i, j :: 0 <= i < j < |b.results| && b.results[i].success && b.results[j].success ==>
          target(b.results[i].file) != target(b.results[j].file))
  }

  lemma {:induction false} BatchOutcomes(h: Handler, files: seq<string>, target: string -> Option<string>,
                                         existing: set<string>, copy: nat -> CopyOutcome,
                                         hasWindow: bool, n: nat)
    requires n <= |files|
    ensures Outcomes(h, RunBatch(h, files, target, existing, copy, hasWindow, n), target, existing)
    decreases n
  {
    if n > 0 {
      var prev := RunBatch(h, files, target, existing, copy, hasWindow, n - 1);
      BatchOutcomes(h, files, target, existing, copy, hasWindow, n - 1);
      AttemptOutcomes(h, prev, files[n - 1], target, existing, |files|, copy(n - 1), hasWindow);
    }
  }

  /** One iteration keeps every result's outcome faithful to its file. */
  lemma AttemptOutcomes(h: Handler, st: Batch, file: string, target: string -> Option<string>,
                        existing: set<string>, total: nat, copy: CopyOutcome, hasWindow: bool)
    requires Outcomes(h, st, target, existing)
    ensures Outcomes(h, Attempt(h, st, file, target(file), total, copy, hasWindow), target, existing)
  {
    var b := Attempt(h, st, file, target(file), total, copy, hasWindow);
    AttemptAppends(h, st, file, target(file), total, copy, hasWindow);
    if |b.results| > |st.results| {
      var r := b.results[|st.results|];
      assert b.results == st.results + [r];
      assert r.success ==> target(file).Some? && target(file).value !in st.existing;
      OutcomesAppend(h, st, b, r, target, existing);
    }
  }

  /** The facts `Outcomes` asks of one result `r` of a batch whose paths are `now`. */
  predicate ResultOutcome(h: Handler, r: FileResult, target: string -> Option<string>,
                          existing: set<string>, now: set<string>) {
    && (r.error == Some(Unsupported) <==> target(r.file).None?)
    && (r.success <==> r.error.None?)
    && (h == CardImport ==> r.error != Some(Unsupported))
    && (r.success ==>
          && target(r.file).Some? && target(r.file).value in now && target(r.file).value !in existing
          && r.destination == (if h == MoveFiles then target(r.file) else None))
    && (!r.success ==> r.destination.None?)
  }

  /** Appending a faithful result whose success claims a path still free keeps `Outcomes`. */
  lemma OutcomesAppend(h: Handler, st: Batch, b: Batch, r: FileResult, target: string -> Option<string>,
                       existing: set<string>)
    requires Outcomes(h, st, target, existing)
    requires b.results == st.results + [r] && st.existing <= b.existing
    requires ResultOutcome(h, r, target, existing, b.existing)
    requires r.success ==> target(r.file).value !in st.existing
    ensures Outcomes(h, b, target, existing)
  {
    assert forall i :: 0 <= i < |st.results| ==> b.results[i] == st.results[i];
  }

  // ---------------------------------------------------------------- reference outcomes

  /** Whether a copy that runs leaves something at its destination. */
  predicate Fills(copy: CopyOutcome) {
    copy.Copied? || copy.leftPartial
  }

  /**
   The paths that exist when the loop reaches file `i`: those from before the batch and the
   destination of every earlier supported file whose copy finished or left a partial file. A
   file refused because its destination was taken would only add a path already there, so
   this set does not depend on the outcomes.
   */
  function Taken(files: seq<string>, target: string -> Option<string>, existing: set<string>,
                 copy: nat -> CopyOutcome, i: nat): (t: set<string>)
    requires i <= |files|
    ensures existing <= t
    decreases i
  {
    if i == 0 then existing
    else
      var before := Taken(files, target, existing, copy, i - 1);
      match target(files[i - 1])
      case Some(d) => if Fills(copy(i - 1)) then before + {d} else before
      case None => before
  }

  /**
   The result file `i` receives: "Formato não suportado" without a destination folder,
   "Arquivo já existe" when its destination is taken, otherwise a success exactly when the
   copy finishes and the copy's own error when it does not.
   */
  function Expected(h: Handler, files: seq<string>, target: string -> Option<string>, existing: set<string>,
                    copy: nat -> CopyOutcome, i: nat): FileResult
    requires i < |files|
  {
    var f := files[i];
    match target(f)
    case None => FileResult(f, false, None, Some(Unsupported))
    case Some(d) =>
      if d in Taken(files, target, existing, copy, i) then FileResult(f, false, None, Some(AlreadyExists))
      else if copy(i).Copied? then FileResult(f, true, if h == MoveFiles then Some(d) else None, None)
      else FileResult(f, false, None, Some(CopyError))
  }

  /** The expected results of the first `n` files: one for each file the handler records. */
  function ExpectedResults(h: Handler, files: seq<string>, target: string -> Option<string>,
                           existing: set<string>, copy: nat -> CopyOutcome, n: nat): seq<FileResult>
    requires n <= |files|
    decreases n
  {
    if n == 0 then []
    else ExpectedResults(h, files, target, existing, copy, n - 1)
         + (if Recorded(h, target)(files[n - 1]) then [Expected(h, files, target, existing, copy, n - 1)] else [])
  }

  /** The loop produces exactly the expected results and leaves exactly the taken paths. */
  lemma {:induction false} BatchIsExpected(h: Handler, files: seq<string>, target: string -> Option<string>,
                                           existing: set<string>, copy: nat -> CopyOutcome,
                                           hasWindow: bool, n: nat)
    requires n <= |files|
    ensures var b := RunBatch(h, files, target, existing, copy, hasWindow, n);
            && b.existing == Taken(files, target, existing, copy, n)
            && b.results == ExpectedResults(h, files, target, existing, copy, n)
    decreases n
  {
    if n > 0 {
      BatchIsExpected(h, files, target, existing, copy, hasWindow, n - 1);
      ExpectedStep(h, files, target, existing, copy, hasWindow, n,
                   RunBatch(h, files, target, existing, copy, hasWindow, n - 1));
    }
  }

  lemma ExpectedStep(h: Handler, files: seq<string>, target: string -> Option<string>, existing: set<string>,
                     copy: nat -> CopyOutcome, hasWindow: bool, n: nat, prev: Batch)
    requires 0 < n <= |files|
    requires prev.existing == Taken(files, target, existing, copy, n - 1)
    requires prev.results == ExpectedResults(h, files, target, existing, copy, n - 1)
    ensures var b := Attempt(h, prev, files[n - 1], target(files[n - 1]), |files|, copy(n - 1), hasWindow);
            && b.existing == Taken(files, target, existing, copy, n)
            && b.results == ExpectedResults(h, files, target, existing, copy, n)
  {
  }

  /** As many expected results as recorded files. */
  lemma {:induction false} ExpectedLength(h: Handler, files: seq<string>, target: string -> Option<string>,
                                          existing: set<string>, copy: nat -> CopyOutcome, n: nat)
    requires n <= |files|
    ensures |ExpectedResults(h, files, target, existing, copy, n)| == |Seqs.Filter(Recorded(h, target), files[..n])|
    decreases n
  {
    if n > 0 {
      ExpectedLength(h, files, target, existing, copy, n - 1);
      assert files[..n] == files[..n - 1] + [files[n - 1]];
      Seqs.FilterAppend(Recorded(h, target), files[..n - 1], [files[n - 1]]);
      Seqs.FilterSingle(Recorded(h, target), files[n - 1]);
    }
  }

  /** A recorded file's expected result sits where the handler's filter puts the file. */
  lemma {:induction false} ExpectedAt(h: Handler, files: seq<string>, target: string -> Option<string>,
                                      existing: set<string>, copy: nat -> CopyOutcome, n: nat, i: nat)
    requires i < n <= |files| && Recorded(h, target)(files[i])
    ensures var k := |Seqs.Filter(Recorded(h, target), files[..i])|;
            var r := ExpectedResults(h, files, target, existing, copy, n);
            k < |r| && r[k] == Expected(h, files, target, existing, copy, i)
    decreases n
  {
    var prev := ExpectedResults(h, files, target, existing, copy, n - 1);
    var r := ExpectedResults(h, files, target, existing, copy, n);
    assert r[..|prev|] == prev;
    if i == n - 1 {
      ExpectedLength(h, files, target, existing, copy, n - 1);
    } else {
      ExpectedAt(h, files, target, existing, copy, n - 1, i);
      var k := |Seqs.Filter(Recorded(h, target), files[..i])|;
      assert r[k] == r[..|prev|][k];
    }
  }

  /** The outcome rule for a supported file, read off its expected result. */
  predicate Verdict(r: FileResult, d: string, taken: set<string>, copy: CopyOutcome) {
    && (r.error == Some(AlreadyExists) <==> d in taken)
    && (r.success <==> d !in taken && copy.Copied?)
    && (r.error == Some(CopyError) <==> d !in taken && copy.CopyFailed?)
  }

  lemma ExpectedVerdict(h: Handler, files: seq<string>, target: string -> Option<string>, existing: set<string>,
                        copy: nat -> CopyOutcome, i: nat)
    requires i < |files| && target(files[i]).Some?
    ensures Verdict(Expected(h, files, target, existing, copy, i), target(files[i]).value,
                    Taken(files, target, existing, copy, i), copy(i))
    ensures Expected(h, files, target, existing, copy, i).file == files[i]
  {
  }

  /** Taken paths stay taken, and a filled destination is taken from the next file on. */
  lemma {:induction false} TakenGrows(files: seq<string>, target: string -> Option<string>, existing: set<string>,
                                      copy: nat -> CopyOutcome, i: nat, j: nat)
    requires i < j <= |files|
    ensures Taken(files, target, existing, copy, i) <= Taken(files, target, existing, copy, j)
    ensures target(files[i]).Some? && Fills(copy(i)) ==> target(files[i]).value in Taken(files, target, existing, copy, j)
    decreases j
  {
    if j > i + 1 {
      TakenGrows(files, target, existing, copy, i, j - 1);
    }
  }

  /** `completed` counts the successes, and each progress message carries the running count. */
  predicate ProgressCounts(b: Batch, total: nat, hasWindow: bool) {
    var done := Seqs.Filter(IsSuccess, b.results);
    && b.completed == |done|
    && (hasWindow ==> |b.progress| == |done|)
    && (!hasWindow ==> b.progress == [])
    && forall k :: 0 <= k < |b.progress| ==>
         b.progress[k] == Progress(k + 1, total, Paths.BaseName(done[k].file))
  }

  /**
   The counter rises by one per successful copy only, and with a window present each success
   sends `{completed: k, total: files.length, currentFile}` for k = 1, 2, ...
   */
  lemma {:induction false} BatchProgress(h: Handler, files: seq<string>, target: string -> Option<string>,
                                         existing: set<string>, copy: nat -> CopyOutcome,
                                         hasWindow: bool, n: nat)
    requires n <= |files|
    ensures ProgressCounts(RunBatch(h, files, target, existing, copy, hasWindow, n), |files|, hasWindow)
    decreases n
  {
    if n > 0 {
      var prev := RunBatch(h, files, target, existing, copy, hasWindow, n - 1);
      BatchProgress(h, files, target, existing, copy, hasWindow, n - 1);
      AttemptCounts(h, prev, files[n - 1], target(files[n - 1]), |files|, copy(n - 1), hasWindow);
    }
  }

  /** One iteration keeps the progress messages in step with the successes. */
  lemma AttemptCounts(h: Handler, st: Batch, file: string, target: Option<string>, total: nat,
                      copy: CopyOutcome, hasWindow: bool)
    requires ProgressCounts(st, total, hasWindow)
    ensures ProgressCounts(Attempt(h, st, file, target, total, copy, hasWindow), total, hasWindow)
  {
    var b := Attempt(h, st, file, target, total, copy, hasWindow);
    AttemptReports(h, st, file, target, total, copy, hasWindow);
    var done := Seqs.Filter(IsSuccess, st.results);
    var now := Seqs.Filter(IsSuccess, b.results);
    if b.results != st.results {
      var last := b.results[|b.results| - 1];
      assert b.results == st.results + [last];
      Seqs.FilterAppend(IsSuccess, st.results, [last]);
      Seqs.FilterSingle(IsSuccess, last);
      if last.success {
        assert now == done + [last];
        forall k | 0 <= k < |b.progress|
          ensures b.progress[k] == Progress(k + 1, total, Paths.BaseName(now[k].file))
        {
          if k < |st.progress| {
            assert b.progress[k] == st.progress[k];
            assert now[k] == done[k];
          }
        }
      } else {
        assert now == done;
      }
    }
  }

  /**
   `move-files-to-project`: one result per input file, in input order; no destination is ever
   overwritten or filled twice; progress messages count the successes 1, 2, ... out of the
   batch length.
   */
  function MoveFilesToProject(files: seq<string>, projectPath: string, existing: set<string>,
                              copy: nat -> CopyOutcome, hasWindow: bool): (b: Batch)
    ensures |b.results| == |files|
    ensures forall i :: 0 <= i < |files| ==> b.results[i].file == files[i]
    ensures forall i :: 0 <= i < |files| ==>
              (b.results[i].error == Some(Unsupported) <==> Destination(projectPath, files[i]).None?)
    ensures forall i :: 0 <= i < |files| && b.results[i].success ==>
              && b.results[i].error.None?
              && b.results[i].destination == Destination(projectPath, files[i])
              && Destination(projectPath, files[i]).value !in existing
              && Destination(projectPath, files[i]).value in b.existing
    ensures forall i, j :: 0 <= i < j < |files| && b.results[i].success && b.results[j].success ==>
              Destination(projectPath, files[i]) != Destination(projectPath, files[j])
    ensures existing <= b.existing
    ensures b.completed == |Seqs.Filter(IsSuccess, b.results)|
    ensures |b.progress| == if hasWindow then b.completed else 0
    ensures forall k :: 0 <= k < |b.progress| ==>
              b.progress[k] == Progress(k + 1, |files|, Paths.BaseName(Seqs.Filter(IsSuccess, b.results)[k].file))
    ensures forall i :: 0 <= i < |files| && Destination(projectPath, files[i]).Some? ==>
              Verdict(b.results[i], Destination(projectPath, files[i]).value,
                      Taken(files, Targets(projectPath), existing, copy, i), copy(i))
    ensures b.existing == Taken(files, Targets(projectPath), existing, copy, |files|)
  {
    MoveFilesResults(files, Targets(projectPath), existing, copy, hasWindow);
    MoveFilesVerdicts(files, Targets(projectPath), existing, copy, hasWindow);
    BatchProgress(MoveFiles, files, Targets(projectPath), existing, copy, hasWindow, |files|);
    RunBatch(MoveFiles, files, Targets(projectPath), existing, copy, hasWindow, |files|)
  }

  /** The per-file facts of `move-files-to-project`, indexed by the input list. */
  lemma MoveFilesResults(files: seq<string>, target: string -> Option<string>, existing: set<string>,
                         copy: nat -> CopyOutcome, hasWindow: bool)
    ensures var b := RunBatch(MoveFiles, files, target, existing, copy, hasWindow, |files|);
            && |b.results| == |files|
            && (forall i :: 0 <= i < |files| ==> b.results[i].file == files[i])
            && (forall i :: 0 <= i < |files| ==>
                  (b.results[i].error == Some(Unsupported) <==> target(files[i]).None?))
            && (forall i :: 0 <= i < |files| && b.results[i].success ==>
                  && b.results[i].error.None?
                  && b.results[i].destination == target(files[i])
                  && target(files[i]).value !in existing
                  && target(files[i]).value in b.existing)
            && (forall i, j :: 0 <= i < j < |files| && b.results[i].success && b.results[j].success ==>
                  target(files[i]) != target(files[j]))
            && existing <= b.existing
  {
    var n := |files|;
    BatchOrder(MoveFiles, files, target, existing, copy, hasWindow, n);
    BatchOutcomes(MoveFiles, files, target, existing, copy, hasWindow, n);
    assert files[..n] == files;
    Seqs.FilterAll(Recorded(MoveFiles, target), files);
  }

  /**
   Each supported file's result follows the outcome rule: "Arquivo já existe" iff its
   destination is taken when the loop reaches it, a success iff it is free and the copy
   finishes, the copy's error iff it is free and the copy fails.
   */
  lemma MoveFilesVerdicts(files: seq<string>, target: string -> Option<string>, existing: set<string>,
                          copy: nat -> CopyOutcome, hasWindow: bool)
    ensures var b := RunBatch(MoveFiles, files, target, existing, copy, hasWindow, |files|);
            && |b.results| == |files|
            && b.existing == Taken(files, target, existing, copy, |files|)
            && forall i :: 0 <= i < |files| && target(files[i]).Some? ==>
                 Verdict(b.results[i], target(files[i]).value, Taken(files, target, existing, copy, i), copy(i))
  {
    var n := |files|;
    var keep := Recorded(MoveFiles, target);
    BatchIsExpected(MoveFiles, files, target, existing, copy, hasWindow, n);
    ExpectedLength(MoveFiles, files, target, existing, copy, n);
    assert files[..n] == files;
    Seqs.FilterAll(keep, files);
    var b := RunBatch(MoveFiles, files, target, existing, copy, hasWindow, n);
    forall i | 0 <= i < n && target(files[i]).Some?
      ensures Verdict(b.results[i], target(files[i]).value, Taken(files, target, existing, copy, i), copy(i))
    {
      ExpectedAt(MoveFiles, files, target, existing, copy, n, i);
      Seqs.FilterAll(keep, files[..i]);
      ExpectedVerdict(MoveFiles, files, target, existing, copy, i);
    }
  }

  /**
   `import-from-card` over the scanned list: unsupported files are skipped without a result,
   results carry no destination, and the progress total is the length of the whole list.
   */
  function ImportFromCard(images: seq<string>, projectPath: string, existing: set<string>,
                          copy: nat -> CopyOutcome, hasWindow: bool): (b: Batch)
    ensures var kept := Seqs.Filter(Supported(projectPath), images);
            |b.results| == |kept| && forall i :: 0 <= i < |kept| ==> b.results[i].file == kept[i]
    ensures forall i :: 0 <= i < |b.results| ==> b.results[i].destination.None?
    ensures forall i :: 0 <= i < |b.results| ==> b.results[i].error != Some(Unsupported)
    ensures forall i :: 0 <= i < |b.results| && b.results[i].success ==>
              && Destination(projectPath, b.results[i].file).Some?
              && Destination(projectPath, b.results[i].file).value !in existing
    ensures forall i, j :: 0 <= i < j < |b.results| && b.results[i].success && b.results[j].success ==>
              Destination(projectPath, b.results[i].file) != Destination(projectPath, b.results[j].file)
    ensures b.completed == |Seqs.Filter(IsSuccess, b.results)|
    ensures |b.progress| == if hasWindow then b.completed else 0
    ensures forall k :: 0 <= k < |b.progress| ==>
              b.progress[k] == Progress(k + 1, |images|, Paths.BaseName(Seqs.Filter(IsSuccess, b.results)[k].file))
    ensures forall i :: 0 <= i < |images| && Destination(projectPath, images[i]).Some? ==>
              var k := |Seqs.Filter(Supported(projectPath), images[..i])|;
              && k < |b.results| && b.results[k].file == images[i]
              && Verdict(b.results[k], Destination(projectPath, images[i]).value,
                         Taken(images, Targets(projectPath), existing, copy, i), copy(i))
    ensures b.existing == Taken(images, Targets(projectPath), existing, copy, |images|)
  {
    ImportShape(images, projectPath, existing, copy, hasWindow);
    ImportProgress(images, projectPath, existing, copy, hasWindow);
    ImportVerdicts(images, projectPath, existing, copy, hasWindow);
    RunBatch(CardImport, images, Targets(projectPath), existing, copy, hasWindow, |images|)
  }

  /** `CardResults` for the project's own destinations. */
  lemma ImportShape(images: seq<string>, projectPath: string, existing: set<string>,
                    copy: nat -> CopyOutcome, hasWindow: bool)
    ensures var b := RunBatch(CardImport, images, Targets(projectPath), existing, copy, hasWindow, |images|);
            var kept := Seqs.Filter(Supported(projectPath), images);
            && |b.results| == |kept| && (forall i :: 0 <= i < |kept| ==> b.results[i].file == kept[i])
            && (forall i :: 0 <= i < |b.results| ==> b.results[i].destination.None?)
            && (forall i :: 0 <= i < |b.results| ==> b.results[i].error != Some(Unsupported))
            && (forall i :: 0 <= i < |b.results| && b.results[i].success ==>
                  && Destination(projectPath, b.results[i].file).Some?
                  && Destination(projectPath, b.results[i].file).value !in existing)
            && (forall i, j :: 0 <= i < j < |b.results| && b.results[i].success && b.results[j].success ==>
                  Destination(projectPath, b.results[i].file) != Destination(projectPath, b.results[j].file))
  {
    CardResults(images, Targets(projectPath), existing, copy, hasWindow);
  }

  /** `BatchProgress` for the card import. */
  lemma ImportProgress(images: seq<string>, projectPath: string, existing: set<string>,
                       copy: nat -> CopyOutcome, hasWindow: bool)
    ensures var b := RunBatch(CardImport, images, Targets(projectPath), existing, copy, hasWindow, |images|);
            && b.completed == |Seqs.Filter(IsSuccess, b.results)|
            && |b.progress| == (if hasWindow then b.completed else 0)
            && forall k :: 0 <= k < |b.progress| ==>
                 b.progress[k] == Progress(k + 1, |images|, Paths.BaseName(Seqs.Filter(IsSuccess, b.results)[k].file))
  {
    BatchProgress(CardImport, images, Targets(projectPath), existing, copy, hasWindow, |images|);
  }

  /** The per-result facts of `import-from-card`. */
  lemma CardResults(images: seq<string>, target: string -> Option<string>, existing: set<string>,
                    copy: nat -> CopyOutcome, hasWindow: bool)
    ensures var b := RunBatch(CardImport, images, target, existing, copy, hasWindow, |images|);
            var kept := Seqs.Filter(Recorded(CardImport, target), images);
            && |b.results| == |kept| && (forall i :: 0 <= i < |kept| ==> b.results[i].file == kept[i])
            && (forall i :: 0 <= i < |b.results| ==> b.results[i].destination.None?)
            && (forall i :: 0 <= i < |b.results| ==> b.results[i].error != Some(Unsupported))
            && (forall i :: 0 <= i < |b.results| && b.results[i].success ==>
                  && target(b.results[i].file).Some?
                  && target(b.results[i].file).value !in existing)
            && (forall i, j :: 0 <= i < j < |b.results| && b.results[i].success && b.results[j].success ==>
                  target(b.results[i].file) != target(b.results[j].file))
  {
    var n := |images|;
    BatchOrder(CardImport, images, target, existing, copy, hasWindow, n);
    BatchOutcomes(CardImport, images, target, existing, copy, hasWindow, n);
    assert images[..n] == images;
  }

  /** The outcome rule for the card import, at the result position of each supported image. */
  lemma CardVerdicts(images: seq<string>, target: string -> Option<string>, existing: set<string>,
                     copy: nat -> CopyOutcome, hasWindow: bool)
    ensures var b := RunBatch(CardImport, images, target, existing, copy, hasWindow, |images|);
            && b.existing == Taken(images, target, existing, copy, |images|)
            && forall i :: 0 <= i < |images| && target(images[i]).Some? ==>
                 var k := |Seqs.Filter(Recorded(CardImport, target), images[..i])|;
                 && k < |b.results| && b.results[k].file == images[i]
                 && Verdict(b.results[k], target(images[i]).value, Taken(images, target, existing, copy, i), copy(i))
  {
    var n := |images|;
    BatchIsExpected(CardImport, images, target, existing, copy, hasWindow, n);
    var b := RunBatch(CardImport, images, target, existing, copy, hasWindow, n);
    forall i | 0 <= i < n && target(images[i]).Some?
      ensures var k := |Seqs.Filter(Recorded(CardImport, target), images[..i])|;
              && k < |b.results| && b.results[k].file == images[i]
              && Verdict(b.results[k], target(images[i]).value, Taken(images, target, existing, copy, i), copy(i))
    {
      ExpectedAt(CardImport, images, target, existing, copy, n, i);
      ExpectedVerdict(CardImport, images, target, existing, copy, i);
    }
  }

  /** `CardVerdicts` for the project's own destinations. */
  lemma ImportVerdicts(images: seq<string>, projectPath: string, existing: set<string>,
                       copy: nat -> CopyOutcome, hasWindow: bool)
    ensures var b := RunBatch(CardImport, images, Targets(projectPath), existing, copy, hasWindow, |images|);
            && b.existing == Taken(images, Targets(projectPath), existing, copy, |images|)
            && forall i :: 0 <= i < |images| && Destination(projectPath, images[i]).Some? ==>
                 var k := |Seqs.Filter(Supported(projectPath), images[..i])|;
                 && k < |b.results| && b.results[k].file == images[i]
                 && Verdict(b.results[k], Destination(projectPath, images[i]).value,
                            Taken(images, Targets(projectPath), existing, copy, i), copy(i))
  {
    CardVerdicts(images, Targets(projectPath), existing, copy, hasWindow);
  }

  /** A card file keeps its basename and extension whatever DCIM sub-folder it sits in. */
  lemma DestinationOfJoin(projectPath: string, dir: string, name: string)
    requires name != "" && '/' !in name
    ensures Destination(projectPath, Paths.Join(dir, name)) == Destination(projectPath, name)
  {
    var f := Paths.Join(dir, name);
    Paths.ExtNameOfJoin(dir, name);
    Paths.BaseNameOfJoin(dir, name);
    assert Paths.BaseName(name) == name;
    assert Paths.LowerExt(f) == Paths.LowerExt(name);
    assert Paths.BaseName(f) == Paths.BaseName(name);
    SameDestination(projectPath, f, name);
  }

  /** The destination depends only on the lower-cased extension and the basename. */
  lemma SameDestination(projectPath: string, f: string, g: string)
    requires Paths.LowerExt(f) == Paths.LowerExt(g) && Paths.BaseName(f) == Paths.BaseName(g)
    ensures Destination(projectPath, f) == Destination(projectPath, g)
  {
  }

  /**
   Two card files with the same name in different DCIM folders (`100NIKON/DSC_0001.NEF`,
   `101NIKON/DSC_0001.NEF`) share one destination: once the first copy finished or left a
   partial file, the second is refused with "Arquivo já existe" and is not copied.
   */
  lemma SameNameOnCardRefused(images: seq<string>, projectPath: string, existing: set<string>,
                              copy: nat -> CopyOutcome, hasWindow: bool,
                              dir1: string, dir2: string, name: string, i: nat, j: nat)
    requires name != "" && '/' !in name && Paths.IsMediaName(name)
    requires i < j < |images| && images[i] == Paths.Join(dir1, name) && images[j] == Paths.Join(dir2, name)
    requires Fills(copy(i))
    ensures var b := ImportFromCard(images, projectPath, existing, copy, hasWindow);
            var k := |Seqs.Filter(Supported(projectPath), images[..j])|;
            && k < |b.results| && b.results[k].file == images[j]
            && b.results[k].error == Some(AlreadyExists) && !b.results[k].success
  {
    DestinationOfJoin(projectPath, dir1, name);
    DestinationOfJoin(projectPath, dir2, name);
    DestinationSupported(projectPath, name);
    var target := Targets(projectPath);
    assert target(images[i]) == target(images[j]) && target(images[i]).Some?;
    TakenGrows(images, target, existing, copy, i, j);
  }

  /** How many of the first `n` files already have their destination before the batch. */
  function PreExisting(files: seq<string>, target: string -> Option<string>, existing: set<string>,
                       n: nat): (c: nat)
    requires n <= |files|
    ensures c <= n
  {
    if n == 0 then 0
    else PreExisting(files, target, existing, n - 1)
         + (if target(files[n - 1]).Some? && target(files[n - 1]).value in existing then 1 else 0)
  }

  /**
   With supported files, pairwise distinct destinations and copies that all succeed, a file
   fails exactly when its destination existed before the batch, and then with `AlreadyExists`.
   */
  lemma {:induction false} AllCopiesSucceed(files: seq<string>, target: string -> Option<string>,
                                            existing: set<string>, copy: nat -> CopyOutcome,
                                            hasWindow: bool, n: nat)
    requires n <= |files|
    requires forall i :: 0 <= i < |files| ==> target(files[i]).Some?
    requires forall i, j :: 0 <= i < j < |files| ==> target(files[i]) != target(files[j])
    requires forall i :: 0 <= i < |files| ==> copy(i).Copied?
    ensures CopiedState(files, target, existing, RunBatch(MoveFiles, files, target, existing, copy, hasWindow, n), n)
    decreases n
  {
    if n > 0 {
      var prev := RunBatch(MoveFiles, files, target, existing, copy, hasWindow, n - 1);
      AllCopiesSucceed(files, target, existing, copy, hasWindow, n - 1);
      CopiedStep(files, target, existing, prev, n, hasWindow);
    }
  }

  /**
   After the first `n` files of a batch whose copies all succeed: a file failed exactly when
   its destination existed before, then with `AlreadyExists`; the later files' destinations
   are as they were; and every other file was completed.
   */
  predicate CopiedState(files: seq<string>, target: string -> Option<string>, existing: set<string>,
                        b: Batch, n: nat)
    requires n <= |files|
    requires forall i :: 0 <= i < |files| ==> target(files[i]).Some?
  {
    && |b.results| == n
    && (forall i :: 0 <= i < n ==>
          (b.results[i].success <==> target(files[i]).value !in existing)
          && (!b.results[i].success ==> b.results[i].error == Some(AlreadyExists)))
    && (forall j :: n <= j < |files| ==>
          (target(files[j]).value in b.existing <==> target(files[j]).value in existing))
    && b.completed == n - PreExisting(files, target, existing, n)
  }

  lemma CopiedStep(files: seq<string>, target: string -> Option<string>, existing: set<string>,
                   prev: Batch, n: nat, hasWindow: bool)
    requires 0 < n <= |files|
    requires forall i :: 0 <= i < |files| ==> target(files[i]).Some?
    requires forall i, j :: 0 <= i < j < |files| ==> target(files[i]) != target(files[j])
    requires CopiedState(files, target, existing, prev, n - 1)
    ensures CopiedState(files, target, existing,
                        Attempt(MoveFiles, prev, files[n - 1], target(files[n - 1]), |files|, Copied, hasWindow), n)
  {
    var b := Attempt(MoveFiles, prev, files[n - 1], target(files[n - 1]), |files|, Copied, hasWindow);
    var t := target(files[n - 1]).value;
    assert t in prev.existing <==> t in existing;
    AttemptAppends(MoveFiles, prev, files[n - 1], target(files[n - 1]), |files|, Copied, hasWindow);
    forall j | n <= j < |files|
      ensures target(files[j]).value in b.existing <==> target(files[j]).value in existing
    {
      assert target(files[n - 1]) != target(files[j]);
    }
  }

  lemma {:induction false} PreExistingOne(files: seq<string>, target: string -> Option<string>,
                                          existing: set<string>, k: nat, n: nat)
    requires k < |files| && n <= |files|
    requires forall i :: 0 <= i < |files| ==>
               (target(files[i]).Some? && target(files[i]).value in existing <==> i == k)
    ensures PreExisting(files, target, existing, n) == if k < n then 1 else 0
    decreases n
  {
    if n > 0 {
      PreExistingOne(files, target, existing, k, n - 1);
    }
  }

  /**
   A batch whose k-th destination already exists: every other file is copied, file k fails with
   `AlreadyExists`, and the counter ends one short of the batch length.
   */
  lemma OneDestinationExists(files: seq<string>, projectPath: string, existing: set<string>,
                             copy: nat -> CopyOutcome, hasWindow: bool, k: nat)
    requires k < |files|
    requires forall i :: 0 <= i < |files| ==> Destination(projectPath, files[i]).Some?
    requires forall i, j :: 0 <= i < j < |files| ==>
               Destination(projectPath, files[i]) != Destination(projectPath, files[j])
    requires forall i :: 0 <= i < |files| ==> copy(i).Copied?
    requires forall i :: 0 <= i < |files| ==> (Destination(projectPath, files[i]).value in existing <==> i == k)
    ensures var b := MoveFilesToProject(files, projectPath, existing, copy, hasWindow);
            && (forall i :: 0 <= i < |files| ==> (b.results[i].success <==> i != k))
            && b.results[k].error == Some(AlreadyExists)
            && b.completed == |files| - 1
            && |b.progress| == (if hasWindow then |files| - 1 else 0)
  {
    var target := Targets(projectPath);
    AllCopiesSucceed(files, target, existing, copy, hasWindow, |files|);
    PreExistingOne(files, target, existing, k, |files|);
  }

  /** `move-to-edited`'s destination: the `Editados` folder beside the file's own folder. */
  function EditedPath(filePath: string): string {
    Paths.Join(Paths.Join(Paths.DirName(Paths.DirName(filePath)), Paths.EditedFolder), Paths.BaseName(filePath))
  }

  /** The `{success, path}` reply and the paths that exist afterwards. */
  datatype EditReply = EditReply(success: bool, path: Option<string>, existing: set<string>)

  /**
   `move-to-edited`: creates the folder when missing, together with any missing folder above it
   (a failure is caught like any other), and copies over whatever is already at the destination;
   it never checks for an existing file.
   */
  function MoveToEdited(existing: set<string>, filePath: string, mkdirOk: bool, copy: CopyOutcome): (r: EditReply)
    ensures r.success <==> (EditedDir(filePath) in existing || mkdirOk) && copy.Copied?
    ensures r.success ==> r.path == Some(EditedPath(filePath)) && EditedPath(filePath) in r.existing
    ensures !r.success ==> r.path.None?
    ensures existing <= r.existing
    ensures EditedDir(filePath) !in existing && mkdirOk ==>
              forall a :: Paths.IsAncestor(a, EditedDir(filePath)) ==> a in r.existing
    ensures forall q :: q in r.existing && q !in existing ==>
              q == EditedPath(filePath) || q == EditedDir(filePath) || Paths.IsAncestor(q, EditedDir(filePath))
  {
    CopyInto(existing, EditedDir(filePath), EditedPath(filePath), mkdirOk, copy)
  }

  /** Making `dir`, with any missing folder above it, when it is absent, then copying to `dest`. */
  function CopyInto(existing: set<string>, dir: string, dest: string, mkdirOk: bool, copy: CopyOutcome): (r: EditReply)
    ensures r.success <==> (dir in existing || mkdirOk) && copy.Copied?
    ensures r.success ==> r.path == Some(dest) && dest in r.existing
    ensures !r.success ==> r.path.None?
    ensures existing <= r.existing
    ensures dir !in existing && mkdirOk ==> forall a :: Paths.IsAncestor(a, dir) ==> a in r.existing
    ensures forall q :: q in r.existing && q !in existing ==> q == dest || q == dir || Paths.IsAncestor(q, dir)
  {
    if dir !in existing && !mkdirOk then EditReply(false, None, existing)
    else
      var withDir := if dir in existing then existing else existing + Paths.Lineage(dir);
      match copy
      case Copied => EditReply(true, Some(dest), withDir + {dest})
      case CopyFailed(partial) => EditReply(false, None, if partial then withDir + {dest} else withDir)
  }

  /**
   A stale path whose project folder is gone still gets that folder back: the recursive mkdir
   recreates `<project>` before the copy fails.
   */
  lemma StaleMoveRecreatesProject(existing: set<string>, filePath: string, copy: CopyOutcome)
    requires Paths.DirName(Paths.DirName(filePath)) != ""
    requires Paths.DirName(Paths.DirName(filePath))[|Paths.DirName(Paths.DirName(filePath))| - 1] != '/'
    requires Paths.DirName(Paths.DirName(filePath)) !in existing && EditedDir(filePath) !in existing
    ensures Paths.DirName(Paths.DirName(filePath)) in MoveToEdited(existing, filePath, true, copy).existing
  {
    Paths.JoinedUnder(Paths.DirName(Paths.DirName(filePath)), Paths.EditedFolder);
  }

  function EditedDir(filePath: string): string {
    Paths.Join(Paths.DirName(Paths.DirName(filePath)), Paths.EditedFolder)
  }

  /** Moving to edited does the same whether or not the destination already exists. */
  lemma MoveToEditedOverwrites(existing: set<string>, filePath: string, mkdirOk: bool, copy: CopyOutcome)
    requires Paths.BaseName(filePath) != ""
    ensures MoveToEdited(existing + {EditedPath(filePath)}, filePath, mkdirOk, copy).success
         == MoveToEdited(existing - {EditedPath(filePath)}, filePath, mkdirOk, copy).success
  {
    var p := EditedPath(filePath);
    var d := EditedDir(filePath);
    Paths.JoinNonEmpty(Paths.DirName(Paths.DirName(filePath)), Paths.EditedFolder);
    Paths.JoinLonger(d, Paths.BaseName(filePath));
    assert p == Paths.Join(d, Paths.BaseName(filePath));
    assert d != p;
  }

  /** A file stored under `project/RAW` or `project/JPG` goes to `project/Editados` under its own name. */
  lemma EditedPathOfImported(project: string, folder: Paths.MediaFolder, name: string)
    requires project != "" && project[|project| - 1] != '/'
    requires name != "" && '/' !in name
    ensures EditedPath(Paths.Join(Paths.Join(project, folder.Name()), name))
         == Paths.Join(Paths.Join(project, Paths.EditedFolder), name)
  {
    var sub := Paths.Join(project, folder.Name());
    assert sub == project + "/" + folder.Name();
    assert '/' !in folder.Name();
    Paths.DirNameOfJoin(sub, name);
    Paths.DirNameOfJoin(project, folder.Name());
    Paths.BaseNameOfJoin(sub, name);
  }
}
