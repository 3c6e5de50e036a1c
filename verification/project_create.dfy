/**
 `create-project`: the project folder `<projects dir>/<YYYY_MM_DD>_<PascalName>` is refused when
 it exists; otherwise it is created, with `RAW`, `JPG` and `Editados` inside for the `default`
 template, and the project metadata file is written into it. Creating the directories and
 writing the file may throw: `failAt` is the index of the first of those steps that throws
 (the directories in order, then the metadata file), and `thrown` the text of the error.
 */
module ProjectCreate {
  import opened Wrappers
  import Ascii
  import Decimal
  import Paths
  import Naming
  import Transfer

  datatype CreateError = ProjectExists | Thrown(text: string) {
    /** The reply's `error`: a fixed text, or `String(error)` of what was thrown. */
    function Message(): string {
      match this
      case ProjectExists => "Projeto já existe"
      case Thrown(text) => text
    }
  }

  /** `{ success: true, path }` or `{ success: false, error }`. */
  datatype Reply = Created(path: string) | Failed(error: CreateError)

  /** The metadata written to the new folder; `createdAt` is not modelled. */
  datatype Metadata = Metadata(name: string, pascalName: string, template: string)

  /** The reply, the directories made, in order, and the metadata written, if any. */
  datatype Outcome = Outcome(reply: Reply, made: seq<string>, metadata: Option<Metadata>)

  const DefaultTemplate: string := "default"

  /** `path.join(projectsDir, folderName)`. */
  function ProjectPath(projectsDir: string, date: Naming.Date, eventName: string): string {
    Paths.Join(projectsDir, Naming.FolderName(date, eventName))
  }

  /** The directories the handler creates, in the order it creates them. */
  function Layout(projectPath: string, template: string): seq<string> {
    if template == DefaultTemplate then
      [projectPath,
       Paths.Join(projectPath, Paths.MediaFolder.RawFolder.Name()),
       Paths.Join(projectPath, Paths.MediaFolder.JpgFolder.Name()),
       Paths.Join(projectPath, Paths.EditedFolder)]
    else [projectPath]
  }

  function CreateProject(projectsDir: string, existing: set<string>, date: Naming.Date, eventName: string,
                         template: string, failAt: nat, thrown: string): (r: Outcome)
    ensures r.reply == Failed(ProjectExists) <==> ProjectPath(projectsDir, date, eventName) in existing
    ensures ProjectPath(projectsDir, date, eventName) in existing ==> r.made == [] && r.metadata.None?
    ensures r.reply.Failed? && ProjectPath(projectsDir, date, eventName) !in existing ==>
              r.reply.error == Thrown(thrown) && r.metadata.None?
    ensures r.reply.Created? ==>
              && r.reply.path == ProjectPath(projectsDir, date, eventName)
              && Paths.BaseName(r.reply.path) == Naming.FolderName(date, eventName)
              && r.made == Layout(r.reply.path, template)
              && r.metadata == Some(Metadata(eventName, Naming.ToPascalCase(eventName), template))
    ensures |r.made| <= |Layout(ProjectPath(projectsDir, date, eventName), template)|
    ensures r.made == Layout(ProjectPath(projectsDir, date, eventName), template)[..|r.made|]
    ensures forall q :: q in r.made ==>
              q == ProjectPath(projectsDir, date, eventName) || Paths.DirName(q) == ProjectPath(projectsDir, date, eventName)
  {
    var path := ProjectPath(projectsDir, date, eventName);
    var dirs := Layout(path, template);
    ProjectPathShape(projectsDir, date, eventName);
    LayoutChildren(path, template);
    if path in existing then Outcome(Failed(ProjectExists), [], None)
    else if failAt <= |dirs| then
      Outcome(Failed(Thrown(thrown)), dirs[..failAt], None)
    else
      assert dirs[..|dirs|] == dirs;
      Outcome(Created(path), dirs, Some(Metadata(eventName, Naming.ToPascalCase(eventName), template)))
  }

  /** The project path is non-empty, does not end in a separator, and ends in the folder name. */
  lemma ProjectPathShape(projectsDir: string, date: Naming.Date, eventName: string)
    ensures var path := ProjectPath(projectsDir, date, eventName);
            && path != "" && path[|path| - 1] != '/'
            && Paths.BaseName(path) == Naming.FolderName(date, eventName)
  {
    FolderNameIsOneSegment(date, eventName);
    Paths.JoinSegment(projectsDir, Naming.FolderName(date, eventName));
  }

  /** A project folder name is one non-empty path segment. */
  lemma FolderNameIsOneSegment(date: Naming.Date, eventName: string)
    ensures Naming.FolderName(date, eventName) != ""
    ensures '/' !in Naming.FolderName(date, eventName)
  {
    Naming.PascalCaseContents(eventName);
    var p := Naming.ToPascalCase(eventName);
    assert '/' !in p by {
      forall k | 0 <= k < |p| ensures p[k] != '/' {
        assert Ascii.IsAlnum(p[k]);
      }
    }
    YearNoSlash(date.year);
    PaddedNoSlash(date.month);
    PaddedNoSlash(date.day);
  }

  lemma YearNoSlash(y: int)
    ensures '/' !in Decimal.IntToString(y)
  {
    var n := Decimal.NatToString(if y < 0 then -y else y);
    assert '/' !in n by {
      forall k | 0 <= k < |n| ensures n[k] != '/' {
        assert Ascii.IsDigit(n[k]);
      }
    }
    if y < 0 {
      assert Decimal.IntToString(y) == "-" + n;
    }
  }

  lemma PaddedNoSlash(m: nat)
    ensures '/' !in Decimal.PadStart2(Decimal.NatToString(m))
  {
    var n := Decimal.NatToString(m);
    var p := Decimal.PadStart2(n);
    forall k | 0 <= k < |p| ensures p[k] != '/' {
      if k >= |p| - |n| {
        assert p[k] == n[k - (|p| - |n|)];
        assert Ascii.IsDigit(n[k - (|p| - |n|)]);
      }
    }
  }

  /** Every directory of the layout is the project folder or a direct child of it. */
  lemma LayoutChildren(path: string, template: string)
    requires path != "" && '/' !in Paths.BaseName(path) && path[|path| - 1] != '/'
    ensures forall q :: q in Layout(path, template) ==> q == path || Paths.DirName(q) == path
  {
    if template == DefaultTemplate {
      ChildrenOf(path, Paths.MediaFolder.RawFolder.Name(), Paths.MediaFolder.JpgFolder.Name(), Paths.EditedFolder);
    }
  }

  lemma ChildrenOf(path: string, a: string, b: string, c: string)
    requires path != "" && path[|path| - 1] != '/'
    requires a != "" && '/' !in a && b != "" && '/' !in b && c != "" && '/' !in c
    ensures forall q :: q in [path, Paths.Join(path, a), Paths.Join(path, b), Paths.Join(path, c)] ==>
              q == path || Paths.DirName(q) == path
  {
    Paths.DirNameOfJoin(path, a);
    Paths.DirNameOfJoin(path, b);
    Paths.DirNameOfJoin(path, c);
  }

  /**
   A project made from the default template already holds the folder every transfer into it
   writes to, and the `Editados` folder `move-to-edited` uses for the transferred file.
   */
  lemma CreatedProjectHoldsDestinations(projectsDir: string, existing: set<string>, date: Naming.Date,
                                        eventName: string, failAt: nat, thrown: string, f: string)
    requires CreateProject(projectsDir, existing, date, eventName, DefaultTemplate, failAt, thrown).reply.Created?
    requires Transfer.Destination(ProjectPath(projectsDir, date, eventName), f).Some?
    ensures var o := CreateProject(projectsDir, existing, date, eventName, DefaultTemplate, failAt, thrown);
            var dest := Transfer.Destination(o.reply.path, f).value;
            && Paths.DirName(dest) in o.made
            && Transfer.EditedDir(dest) in o.made
  {
    ProjectPathShape(projectsDir, date, eventName);
    LayoutHoldsDestinations(ProjectPath(projectsDir, date, eventName), f);
  }

  lemma LayoutHoldsDestinations(path: string, f: string)
    requires path != "" && path[|path| - 1] != '/'
    requires Transfer.Destination(path, f).Some?
    ensures var dest := Transfer.Destination(path, f).value;
            && Paths.DirName(dest) in Layout(path, DefaultTemplate)
            && Transfer.EditedDir(dest) in Layout(path, DefaultTemplate)
  {
    Transfer.DestinationSupported(path, f);
    Paths.MediaNameHasBase(f);
    var folder := Paths.Classify(Paths.LowerExt(f)).value;
    assert Transfer.Destination(path, f).value
        == Paths.Join(Paths.Join(path, folder.Name()), Paths.BaseName(f));
    LayoutHoldsFolder(path, folder, Paths.BaseName(f));
  }

  lemma LayoutHoldsFolder(path: string, folder: Paths.MediaFolder, base: string)
    requires path != "" && path[|path| - 1] != '/'
    requires base != "" && '/' !in base
    ensures var dest := Paths.Join(Paths.Join(path, folder.Name()), base);
            && Paths.DirName(dest) in Layout(path, DefaultTemplate)
            && Transfer.EditedDir(dest) in Layout(path, DefaultTemplate)
  {
    var sub := Paths.Join(path, folder.Name());
    assert sub == path + "/" + folder.Name();
    Paths.DirNameOfJoin(sub, base);
    assert '/' !in folder.Name();
    Paths.DirNameOfJoin(path, folder.Name());
  }

  /** Once a project is created, creating it again under the same name and date is refused. */
  lemma CreateTwiceFails(projectsDir: string, existing: set<string>, date: Naming.Date, eventName: string,
                         template: string, failAt: nat, thrown: string, failAt2: nat, thrown2: string)
    requires CreateProject(projectsDir, existing, date, eventName, template, failAt, thrown).reply.Created?
    ensures var made := CreateProject(projectsDir, existing, date, eventName, template, failAt, thrown).made;
            var again := CreateProject(projectsDir, existing + (set q | q in made), date, eventName, template, failAt2, thrown2);
            again.reply == Failed(ProjectExists) && again.reply.error.Message() == "Projeto já existe"
  {
    var o := CreateProject(projectsDir, existing, date, eventName, template, failAt, thrown);
    assert o.made[0] == ProjectPath(projectsDir, date, eventName);
  }
}
