/**
 The project view: the selected-tag filter applied after each image query, the drop handler
 that hands qualifying files to `move-files-to-project` and counts the outcome, and the
 per-folder statistics shown above the grid.
 */
module ProjectView {
  import opened Wrappers
  import Seqs
  import Views
  import TagList
  import TagStore
  import Transfer
  import TagFilter
  import Ascii

  /** The fields of an `ImageFile` the view relies on. */
  datatype ImageFile = ImageFile(name: string, path: string, folder: string)

  // ---------------------------------------------------------------- tag filter

  /** `selectedTags.some(tag => imgTags.includes(tag))`. */
  predicate SharesTag(selected: seq<string>, tags: seq<string>) {
    exists t :: t in selected && t in tags
  }

  /**
   The per-image test of `refreshImages`; an image's tags are its entry of the project's
   `imageTags` split at commas and trimmed, exactly as `get-image-tags` reads them.
   */
  function HasSelectedTag(selected: seq<string>, imageTags: map<string, string>): ImageFile -> bool {
    (img: ImageFile) => SharesTag(selected, TagStore.GetImageTags(imageTags, img.name))
  }

  /** With no tag selected the query's images are shown as they are. */
  function FilterByTags(images: seq<ImageFile>, selected: seq<string>, imageTags: map<string, string>): seq<ImageFile> {
    if selected == [] then images else Seqs.Filter(HasSelectedTag(selected, imageTags), images)
  }

  /**
   Without a selection nothing is dropped; with one, an image stays iff one of the selected
   tags is among its trimmed comma-separated tags, and the survivors keep the query's order.
   */
  lemma FilterByTagsSpec(images: seq<ImageFile>, selected: seq<string>, imageTags: map<string, string>)
    ensures selected == [] ==> FilterByTags(images, selected, imageTags) == images
    ensures Seqs.IsSubsequence(FilterByTags(images, selected, imageTags), images)
    ensures selected != [] ==>
              forall img :: img in FilterByTags(images, selected, imageTags) <==>
                img in images && SharesTag(selected, TagStore.GetImageTags(imageTags, img.name))
  {
    if selected == [] {
      SubsequenceRefl(images);
    } else {
      var f := HasSelectedTag(selected, imageTags);
      Seqs.FilterIsSubsequence(f, images);
      forall img ensures img in Seqs.Filter(f, images) <==> img in images && f(img) {
        Seqs.FilterMembers(f, images, img);
      }
    }
  }

  lemma {:induction false} SubsequenceRefl(s: seq<ImageFile>)
    ensures Seqs.IsSubsequence(s, s)
    decreases |s|
  {
    if |s| > 0 {
      SubsequenceRefl(s[1..]);
    }
  }

  /** An image given one of the selected tags through `add-image-tag` is shown. */
  lemma TaggedImageShown(images: seq<ImageFile>, img: ImageFile, selected: seq<string>,
                         imageTags: map<string, string>, tag: string)
    requires img in images
    requires TagList.Comma !in tag && TagStore.Normalize(tag) != ""
    requires TagStore.Normalize(tag) in selected
    ensures img in FilterByTags(images, selected, TagStore.AddImageTag(imageTags, img.name, tag, true).imageTags)
  {
    var after := TagStore.AddImageTag(imageTags, img.name, tag, true).imageTags;
    TagStore.AddThenGetImageTags(imageTags, img.name, tag);
    var t := TagStore.Normalize(tag);
    var prior := TagStore.GetImageTags(imageTags, img.name);
    if t !in prior {
      assert (prior + [t])[|prior|] == t;
    }
    assert t in TagStore.GetImageTags(after, img.name);
    FilterByTagsSpec(images, selected, after);
  }

  /** Filtering by a single tag hides an image once `remove-image-tag` took that tag off it. */
  lemma UntaggedImageHidden(images: seq<ImageFile>, image: string, imageTags: map<string, string>, tag: string)
    ensures var after := TagStore.RemoveImageTag(imageTags, image, tag, true).imageTags;
            forall img :: img in FilterByTags(images, [TagStore.Normalize(tag)], after) ==> img.name != image
  {
    var t := TagStore.Normalize(tag);
    var after := TagStore.RemoveImageTag(imageTags, image, tag, true).imageTags;
    TagStore.RemoveThenGetImageTags(imageTags, image, tag);
    FilterByTagsSpec(images, [t], after);
  }

  // ---------------------------------------------------------------- tag bar refresh

  /** The selection a tag-bar action stores, and the grid the refresh it triggers shows. */
  datatype TagRefresh = TagRefresh(selected: seq<string>, shown: seq<ImageFile>)

  /** Whether the grid's tag test lets `img` through for the selection `selected`. */
  predicate Visible(img: ImageFile, selected: seq<string>, imageTags: map<string, string>) {
    selected == [] || SharesTag(selected, TagStore.GetImageTags(imageTags, img.name))
  }

  /**
   A click on a tag as the source wires it: `handleTagClick` stores the toggled selection and
   calls `onFilterChange`, but that callback's `refreshImages` reads the selection captured
   when the view last rendered, so the grid is filtered by the selection from before the click.
   */
  function TagClickRefreshAsWritten(selected: seq<string>, tag: string, images: seq<ImageFile>,
                                    imageTags: map<string, string>): (c: TagRefresh)
    ensures tag in c.selected <==> tag !in selected
    ensures forall img :: img in c.shown <==> img in images && Visible(img, selected, imageTags)
  {
    FilterByTagsSpec(images, selected, imageTags);
    TagRefresh(TagFilter.Toggle(selected, tag), FilterByTags(images, selected, imageTags))
  }

  /** "Clear" as the source wires it: the selection empties, the grid keeps the old filter. */
  function ClearAllRefreshAsWritten(selected: seq<string>, images: seq<ImageFile>,
                                    imageTags: map<string, string>): (c: TagRefresh)
    ensures c.selected == []
    ensures forall img :: img in c.shown <==> img in images && Visible(img, selected, imageTags)
  {
    FilterByTagsSpec(images, selected, imageTags);
    TagRefresh(TagFilter.ClearAll(selected), FilterByTags(images, selected, imageTags))
  }

  /** A click whose refresh filters by the selection the click stored. */
  function TagClickRefresh(selected: seq<string>, tag: string, images: seq<ImageFile>,
                           imageTags: map<string, string>): (c: TagRefresh)
    ensures tag in c.selected <==> tag !in selected
    ensures Seqs.IsSubsequence(c.shown, images)
    ensures forall img :: img in c.shown <==> img in images && Visible(img, c.selected, imageTags)
  {
    var now := TagFilter.Toggle(selected, tag);
    FilterByTagsSpec(images, now, imageTags);
    TagRefresh(now, FilterByTags(images, now, imageTags))
  }

  /** "Clear" whose refresh filters by the emptied selection: every queried image is shown. */
  function ClearAllRefresh(selected: seq<string>, images: seq<ImageFile>,
                           imageTags: map<string, string>): (c: TagRefresh)
    ensures c.selected == [] && c.shown == images
  {
    var now := TagFilter.ClearAll(selected);
    FilterByTagsSpec(images, now, imageTags);
    TagRefresh(now, FilterByTags(images, now, imageTags))
  }

  /**
   The stale refresh in one picture: with an image tagged only "sky", selecting "sea" still
   shows it, and clearing a "sea" selection still hides it; the corrected refreshes do the
   opposite in both cases.
   */
  lemma StaleTagRefresh()
    ensures var img := ImageFile("a.jpg", "/p/JPG/a.jpg", "JPG");
            var tags := map["a.jpg" := "sky"];
            && img in TagClickRefreshAsWritten([], "sea", [img], tags).shown
            && img !in TagClickRefresh([], "sea", [img], tags).shown
            && img !in ClearAllRefreshAsWritten(["sea"], [img], tags).shown
            && img in ClearAllRefresh(["sea"], [img], tags).shown
  {
    var img := ImageFile("a.jpg", "/p/JPG/a.jpg", "JPG");
    var tags := map["a.jpg" := "sky"];
    Ascii.TrimOfTrimmed("sky");
    TagStore.JoinThenGetImageTags(map[], "a.jpg", ["sky"]);
    assert map[]["a.jpg" := TagList.Join(["sky"])] == tags;
    assert TagStore.GetImageTags(tags, "a.jpg") == ["sky"];
    assert TagFilter.Toggle([], "sea") == ["sea"];
    assert !SharesTag(["sea"], ["sky"]);
  }

  // ---------------------------------------------------------------- drop handler

  /** The figures of the notification shown after an import. */
  datatype ImportSummary = ImportSummary(successful: nat, failed: nat)

  const IsFailure: Transfer.FileResult -> bool := (r: Transfer.FileResult) => !r.success

  /** `results.filter(r => r.success).length` and `results.filter(r => !r.success).length`. */
  function Summarize(results: seq<Transfer.FileResult>): (s: ImportSummary)
    ensures s.successful + s.failed == |results|
  {
    Seqs.FilterPartition(Transfer.IsSuccess, IsFailure, results);
    ImportSummary(|Seqs.Filter(Transfer.IsSuccess, results)|, |Seqs.Filter(IsFailure, results)|)
  }

  /**
   A drop with no qualifying file makes no import call; otherwise the qualifying files are
   moved into the project, and the notification counts the completed copies as successes
   and every other qualifying file as a failure.
   */
  function HandleFileDrop(files: seq<string>, projectPath: string, existing: set<string>,
                          copy: nat -> Transfer.CopyOutcome, hasWindow: bool): (r: Option<ImportSummary>)
    ensures r.None? <==> forall f :: f in files ==> !Views.IsDroppedImage(f)
    ensures r.Some? ==>
              && r.value.successful + r.value.failed == |Views.DropImages(files)|
              && r.value.successful
                 == Transfer.MoveFilesToProject(Views.DropImages(files), projectPath, existing, copy, hasWindow).completed
  {
    Views.DropImagesMembers(files);
    var request := Views.DropImages(files);
    if request == [] then None
    else Some(Summarize(Transfer.MoveFilesToProject(request, projectPath, existing, copy, hasWindow).results))
  }

  // ---------------------------------------------------------------- statistics

  function InFolder(folder: string): ImageFile -> bool {
    (img: ImageFile) => img.folder == folder
  }

  /** Images per destination folder. */
  datatype Stats = Stats(raw: nat, jpg: nat, edited: nat)

  function FolderStats(images: seq<ImageFile>): Stats {
    Stats(|Seqs.Filter(InFolder("RAW"), images)|, |Seqs.Filter(InFolder("JPG"), images)|,
          |Seqs.Filter(InFolder("Editados"), images)|)
  }

  /** Adding one image raises exactly the count of its own folder, by one. */
  lemma FolderStatsAppend(images: seq<ImageFile>, img: ImageFile)
    ensures var before := FolderStats(images);
            var after := FolderStats(images + [img]);
            && after.raw == before.raw + (if img.folder == "RAW" then 1 else 0)
            && after.jpg == before.jpg + (if img.folder == "JPG" then 1 else 0)
            && after.edited == before.edited + (if img.folder == "Editados" then 1 else 0)
  {
    Seqs.FilterAppend(InFolder("RAW"), images, [img]);
    Seqs.FilterAppend(InFolder("JPG"), images, [img]);
    Seqs.FilterAppend(InFolder("Editados"), images, [img]);
    Seqs.FilterSingle(InFolder("RAW"), img);
    Seqs.FilterSingle(InFolder("JPG"), img);
    Seqs.FilterSingle(InFolder("Editados"), img);
  }

  /** No image is counted twice, so the three figures never exceed the number of images. */
  lemma {:induction false} FolderStatsBound(images: seq<ImageFile>)
    ensures FolderStats(images).raw + FolderStats(images).jpg + FolderStats(images).edited <= |images|
    decreases |images|
  {
    if images != [] {
      var init := images[..|images| - 1];
      FolderStatsBound(init);
      assert images == init + [images[|images| - 1]];
      FolderStatsAppend(init, images[|images| - 1]);
    }
  }
}
