/**
 The home view's drop handler: qualifying dropped files become the pending files of a new
 project and open the new-project dialog; a drop with none changes nothing.
 */
module HomeView {
  import Seqs
  import Views
  import NewProjectModal
  import ProjectCreate
  import Ascii

  /** The parts of the store the handler writes. */
  datatype HomeState = HomeState(pendingFiles: seq<string>, showNewProjectModal: bool)

  /** `handleFileDrop`. */
  function HandleFileDrop(st: HomeState, files: seq<string>): (r: HomeState)
    ensures (forall f :: f in files ==> !Views.IsDroppedImage(f)) ==> r == st
    ensures (exists f :: f in files && Views.IsDroppedImage(f)) ==>
              && r.showNewProjectModal
              && Seqs.IsSubsequence(r.pendingFiles, files)
              && forall x :: x in r.pendingFiles <==> x in files && Views.IsDroppedImage(x)
  {
    Views.DropImagesMembers(files);
    var images := Views.DropImages(files);
    if |images| > 0 then HomeState(images, true) else st
  }

  /**
   Files dropped on the home view are the ones the dialog moves into the project it creates,
   once a name is given.
   */
  lemma DroppedFilesReachTransfer(st: HomeState, files: seq<string>, modal: NewProjectModal.ModalState,
                                  template: string, path: string)
    requires exists f :: f in files && Views.IsDroppedImage(f)
    requires modal.pendingFiles == HandleFileDrop(st, files).pendingFiles
    requires Ascii.Trim(modal.eventName) != "" && path != ""
    ensures var run := NewProjectModal.HandleCreate(modal, template, ProjectCreate.Created(path));
            |run.calls| == 2 && run.calls[1] == NewProjectModal.MoveFilesCall(Views.DropImages(files), path)
  {
    Views.DropImagesMembers(files);
  }
}
