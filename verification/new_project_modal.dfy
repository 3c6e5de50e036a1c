/**
 The new-project dialog: closing it, and the create button's handler, which asks the main
 process for the project and then moves the files dropped on the home view into it.
 The main process's answer is a parameter; the refreshed project list and the navigation to
 the new project that follow are not modelled.
 */
module NewProjectModal {
  import opened Wrappers
  import Ascii
  import Naming
  import Paths
  import Transfer
  import ProjectCreate

  /** The dialog's own state and the parts of the store it writes. */
  datatype ModalState = ModalState(open: bool, pendingFiles: seq<string>, eventName: string, error: string,
                                   importProgress: Option<Transfer.Progress>, isCreating: bool)

  /** The calls the handler makes into the main process. */
  datatype Call = CreateProjectCall(eventName: string, template: string) | MoveFilesCall(files: seq<string>, projectPath: string)

  const EmptyNameError: string := "Por favor, insira o nome do evento"
  const CreateFailedError: string := "Erro ao criar projeto"

  /** `handleClose`: ignored while a project is being created; otherwise hides and resets the dialog. */
  function HandleClose(st: ModalState): (r: ModalState)
    ensures st.isCreating ==> r == st
    ensures !st.isCreating ==>
              && !r.open && r.pendingFiles == [] && r.eventName == "" && r.error == ""
              && r.importProgress.None? && !r.isCreating
  {
    if st.isCreating then st
    else st.(open := false, pendingFiles := [], eventName := "", error := "", importProgress := None)
  }

  /** Closing twice is closing once. */
  lemma HandleCloseIdempotent(st: ModalState)
    ensures HandleClose(HandleClose(st)) == HandleClose(st)
  {
  }

  /** The calls made by one press of the create button, and the dialog state it leaves. */
  datatype CreateRun = CreateRun(calls: seq<Call>, state: ModalState)

  /**
   `handleCreate`. A blank name is refused before any call; otherwise the trimmed name is
   sent, a refusal is shown in the dialog, and a created project receives the pending files
   and closes the dialog. The closing `handleClose` sees the `isCreating` of the render the
   press came from, so it only closes when no creation was in progress then; the button is
   disabled during one.
   */
  function HandleCreate(st: ModalState, template: string, reply: ProjectCreate.Reply): (run: CreateRun)
    ensures Ascii.Trim(st.eventName) == "" ==> run == CreateRun([], st.(error := EmptyNameError))
    ensures Ascii.Trim(st.eventName) != "" ==>
              && |run.calls| >= 1
              && run.calls[0] == CreateProjectCall(Ascii.Trim(st.eventName), template)
              && forall i :: 1 <= i < |run.calls| ==> run.calls[i].MoveFilesCall?
    ensures Ascii.Trim(st.eventName) != "" && reply.Failed? ==>
              && run.calls == [CreateProjectCall(Ascii.Trim(st.eventName), template)]
              && run.state.open == st.open && run.state.pendingFiles == st.pendingFiles
              && run.state.error != "" && !run.state.isCreating
    ensures Ascii.Trim(st.eventName) != "" && reply.Created? ==>
              && !run.state.isCreating
              && (!st.isCreating ==> run.state == HandleClose(st))
              && (|run.calls| == 2 <==> st.pendingFiles != [] && reply.path != "")
              && (|run.calls| == 2 ==> run.calls[1] == MoveFilesCall(st.pendingFiles, reply.path))
              && |run.calls| <= 2
  {
    var name := Ascii.Trim(st.eventName);
    if name == "" then CreateRun([], st.(error := EmptyNameError))
    else
      var create := CreateProjectCall(name, template);
      match reply
      case Failed(e) =>
        var message := if e.Message() == "" then CreateFailedError else e.Message();
        CreateRun([create], st.(error := message, isCreating := false))
      case Created(path) =>
        var moves := if st.pendingFiles != [] && path != "" then [MoveFilesCall(st.pendingFiles, path)] else [];
        var done := st.(isCreating := false, error := "", importProgress := None);
        CreateRun([create] + moves, if st.isCreating then done else HandleClose(done))
  }

  /**
   When the main process creates the project the dialog asked for, the pending files go to
   the folder the dialog previewed.
   */
  lemma PreviewedFolderReceivesFiles(st: ModalState, template: string, projectsDir: string,
                                     existing: set<string>, date: Naming.Date, failAt: nat, thrown: string)
    requires st.pendingFiles != []
    requires var o := ProjectCreate.CreateProject(projectsDir, existing, date, Ascii.Trim(st.eventName),
                                                  template, failAt, thrown);
             o.reply.Created?
    ensures var o := ProjectCreate.CreateProject(projectsDir, existing, date, Ascii.Trim(st.eventName),
                                                 template, failAt, thrown);
            var run := HandleCreate(st, template, o.reply);
            Ascii.Trim(st.eventName) != "" ==>
              && |run.calls| == 2
              && run.calls[1].files == st.pendingFiles
              && Paths.BaseName(run.calls[1].projectPath) == Naming.FolderPreview(date, st.eventName)
  {
    var t := Ascii.Trim(st.eventName);
    if t != "" {
      Naming.PreviewMatchesFolder(date, st.eventName);
      ProjectCreate.ProjectPathShape(projectsDir, date, t);
    }
  }
}
