# PhotoCore: a verified model of the main process and the view helpers

PhotoCore is a desktop photo organiser for photographers. Its main process answers the
renderer's requests and watches for memory cards. It creates event projects
(`<projects dir>/<YYYY_MM_DD>_<PascalName>` with `RAW`, `JPG` and `Editados` inside). It copies
dropped or card-imported files into those folders and reports progress. It extracts the
embedded JPEG preview from RAW files and caches it under a key derived from the path and the
modification time. It keeps global and per-image tags. The renderer components filter
dropped files by extension, filter the image grid by the selected tags, count images per
folder, and drive project creation from the new-project dialog.

This project models that behaviour as pure Dafny functions over explicit state. The
filesystem is a set of existing paths, or a map from path to file info. Listings are
trees. The copy outcomes, the MD5 digest, the clock and the platform are parameters. The
properties below are proved about the model.

Modules, one per concern:

- `Ascii`, `Decimal`, `Seqs`, `Wrappers`: case mapping, trimming, number formatting,
  filtering and the `Option` type.
- `Paths`: the path operations the source uses and the extension tables.
- `Naming`: `toPascalCase`, the date prefix and the folder-name preview.
- `JpegScan`: the embedded-JPEG scanner.
- `ThumbnailCache`: the cache key, `extractThumbnail` and `get-thumbnail`.
- `Transfer`: `move-files-to-project`, `import-from-card` and `move-to-edited`.
- `MediaScan`: `hasDCIMFolder` and the recursive DCIM walk.
- `DriveWatcher`: drive probing and the polling tick.
- `TagList`, `TagOrder`, `TagStore`: the comma-separated tag strings, the sort used by
  `add-global-tag`, and the tag handlers.
- `ProjectCreate`: `create-project`.
- `NewProjectModal`, `HomeView`, `ProjectView`, `TagFilter`, `Views`: the renderer's
  handlers.

Behaviour worth knowing, all following the code:

- The JPEG scan counts the end marker in the size. The 10000-byte threshold is strict. A
  second start marker replaces the pending start, so a preview that embeds a thumbnail
  yields the thumbnail span, not the outer one (`NestedThumbnailWins`).
- `import-from-card` skips unsupported files without a result and reports no destination.
  `move-files-to-project` reports both.
- The drop filters test `endsWith` on the lower-cased path. A file named `.jpg` passes them,
  but `path.extname` gives `""` for it, so the transfer rejects it
  (`DotFileDroppedButUnsupported`).
- `move-to-edited` overwrites an existing file of the same name.
- `remove-image-tag` can store an empty entry instead of deleting it. When the stored string
  is blank but not empty, the tags left are `[""]`, which is a non-empty list, and its join
  `""` is written back.
- The dialog's final `handleClose` reads the `isCreating` of the render the click came from.
- A cache write that breaks off after creating the file leaves a truncated preview, which every later call returns as a cached thumbnail (`PartialCacheFileIsServed`).
- The tag bar's refresh filters the grid by the selection from before the click (see Findings).

## Model

| member | source | states |
|---|---|---|
| JpegScan.ExtractEmbeddedJpeg | electron/main.ts:35-77 | the loop and the reduce as written compute the reference scan; no file means no preview; a preview is a slice of the first 10 MiB that starts with FFD8, ends with FFD9 and is longer than 10000 bytes |
| JpegScan.ScanWindowSelectsBest | electron/main.ts:46-72 | no preview exactly when no span qualifies; otherwise the bytes of the longest qualifying span, the earliest on ties |
| JpegScan.FoundAreCandidates | electron/main.ts:49-64 | a span is kept iff it runs from a start marker to an end marker the loop reached, holds no marker strictly inside, and is over 10000 bytes |
| JpegScan.PendingIsLastStart | electron/main.ts:51-53 | the pending start is the latest start marker with no marker after it |
| JpegScan.NestedThumbnailWins | electron/main.ts:51-62 | with a start, an inner start, an inner end and an outer end, the inner span is kept and the outer one never is |
| JpegScan.NestedStartHidesOuter | electron/main.ts:51-53 | a kept span from an earlier start ends before any later start marker |
| JpegScan.NoStartMarkerNoPreview | electron/main.ts:55-68 | a buffer with no start marker has no preview |
| JpegScan.EmbeddedJpegIgnoresTail | electron/main.ts:39-42 | bytes past the first 10 MiB never change the result |
| JpegScan.BestIsUnique | electron/main.ts:71 | the reduce's choice is determined: at most one span is best |
| JpegScan.Largest | electron/main.ts:71 | the chosen span is in the list, no span is larger, and every earlier span is strictly smaller |
| JpegScan.ScanUpTo | electron/main.ts:49-64 | the pending start is a start marker already passed; kept spans are marked, size-filtered, in increasing end order |
| JpegScan.Window | electron/main.ts:39-42 | the read is the file's first min(size, 10 MiB) bytes |
| ThumbnailCache.CacheKey | electron/main.ts:27-31 | a key ends in `.jpg` |
| ThumbnailCache.CacheKeyChangesWithMtime | electron/main.ts:27-31 | for a collision-free digest, a new modification time gives a new key |
| ThumbnailCache.MakeDirs | electron/main.ts:21-22 | a recursive `mkdirSync` adds the folder and every folder above it, keeps the folders already there with their times, and touches no file |
| ThumbnailCache.EnsureCacheDir | electron/main.ts:17-24 | the cache directory exists afterwards and files are untouched; it fails only when the directory is missing and cannot be made; the folders added are exactly the cache directory and its missing ancestors, and only when it was missing |
| ThumbnailCache.ExtractThumbnail | electron/main.ts:80-104 | throws iff the cache directory cannot be made or the path cannot be stat'ed, and a directory made before a failing stat stays; a hit returns the cached path unchanged; a miss writes the extracted preview at the key's path and returns it, or returns null, leaving either no new file or, when the write broke off, a truncated prefix of the preview |
| ThumbnailCache.GetThumbnail | electron/main.ts:630-644 | `.jpg`, `.jpeg`, `.png` return the path itself, RAW extensions go through the cache, anything else gives null |
| ThumbnailCache.RouteOf | electron/main.ts:631-643 | the route is direct iff the extension is a direct image one, cached iff it is a RAW one |
| ThumbnailCache.SecondCallHits | electron/main.ts:86-96 | after a thumbnail is written, the next call returns it without extracting and changes nothing |
| ThumbnailCache.GetThumbnailIdempotent | electron/main.ts:630-644 | a second `get-thumbnail` for a RAW file gives the same answer and leaves the filesystem as the first left it |
| ThumbnailCache.ModifiedFileGetsNewThumbnail | electron/main.ts:27-31 | after a change of modification time the old cache path is no longer returned |
| ThumbnailCache.NoNegativeCaching | electron/main.ts:94-99 | a null result that leaves no cache file (no preview, or a write that failed before creating the file) lets the next call extract and cache the preview once the file holds one |
| ThumbnailCache.PartialCacheFileIsServed | electron/main.ts:86-99 | a write that breaks off after creating the cache file returns null, leaves a truncated preview, and every later call on the unchanged file returns that truncated file as a hit |
| ThumbnailCache.FolderPathIsNull | electron/main.ts:80-104 | a directory with a RAW-looking name passes the stat: the call returns a cache file existing for the directory's time, or otherwise null, and writes no file |
| ThumbnailCache.CachedThumbnailIsBestSpan | electron/main.ts:92-96 | a freshly written cache file holds exactly the best span of the RAW file's first 10 MiB |
| ThumbnailCache.CachePathIsJpg | electron/main.ts:27-31 | with a hex digest, a cache file's extension is `.jpg`, so it is never routed as RAW |
| Transfer.DestinationSupported | electron/main.ts:263-276 | a file has a destination iff its lower-cased extension is one of the seven media extensions |
| Transfer.MoveFilesToProject | electron/main.ts:256-300 | one result per file in order; a file gets "Formato não suportado" iff it has no supported extension; for a supported file, "Arquivo já existe" iff its destination is taken (existed, or an earlier copy filled it), success iff it is free and the copy finishes, the copy's error iff it is free and the copy fails; the paths afterwards are exactly the taken ones; `completed` counts successes; one progress message per success when a window exists |
| Transfer.ImportFromCard | electron/main.ts:579-622 | results for exactly the supported images in order, the k-th supported image at position k; no destination and never "unsupported"; the same three-way rule against the taken destinations as above; the same counts and progress |
| Transfer.BatchIsExpected | electron/main.ts:261-297 | the batch equals a reference that decides each file from the destinations taken before it, independently of earlier results |
| Transfer.SameNameOnCardRefused | electron/main.ts:579-622 | two card images with the same file name in different folders share a destination, so once the first is copied (or left partial) the second gets "Arquivo já existe" |
| Transfer.AttemptReports | electron/main.ts:276-295 | one file's attempt: a copy succeeds iff the destination is free and the stream finishes; the result and the progress message it adds |
| Transfer.BatchOrder | electron/main.ts:261-297 | results follow the input order, one per processed file |
| Transfer.BatchOutcomes | electron/main.ts:261-297 | the per-result facts of both handlers over any prefix of the batch |
| Transfer.BatchProgress | electron/main.ts:287-291 | `completed` and the progress messages count the successes, each message carrying the running count and the total |
| Transfer.AllCopiesSucceed | electron/main.ts:278-293 | with distinct supported destinations and no failing copy, only already-existing destinations fail, with "Arquivo já existe" |
| Transfer.OneDestinationExists | electron/main.ts:278-293 | when exactly one destination pre-exists, exactly that file fails and the others complete |
| Transfer.MoveToEdited | electron/main.ts:427-445 | succeeds iff `Editados` exists or can be made and the copy finishes; a success returns `<project>/Editados/<name>`, which then exists; making `Editados` also makes every missing folder above it; only those folders and that file can appear |
| Transfer.StaleMoveRecreatesProject | electron/main.ts:434-436 | moving a file whose project folder has gone recreates that project folder |
| Transfer.MoveToEditedOverwrites | electron/main.ts:434-441 | an existing file of the same name in `Editados` does not stop the copy |
| Transfer.EditedPathOfImported | electron/main.ts:429-438 | a file imported to `<project>/<RAW or JPG>/<name>` goes to `<project>/Editados/<name>` |
| MediaScan.HasDcimFolder | electron/main.ts:500-506 | `<drive>/DCIM` is returned iff it exists as a directory |
| MediaScan.ScanIsFilteredTree | electron/main.ts:509-535 | on a readable tree, the walk yields every file path in depth-first order that has a media extension, and nothing else |
| MediaScan.ScanYieldsMedia | electron/main.ts:522-525 | every path the walk yields has a media extension |
| MediaScan.UnstattableEndsDirectory | electron/main.ts:513-530 | an entry that cannot be stat'ed ends its directory's listing: later siblings are skipped |
| MediaScan.ScanItemsAppend | electron/main.ts:515-527 | the walk of a directory is the concatenation of its entries' walks when no entry fails |
| MediaScan.ImportCoversScan | electron/main.ts:579-585 | `import-from-card` reports every image the walk finds, in order |
| DriveWatcher.DriveLetter | electron/main.ts:488-489 | the drive for code c is the three characters c, `:`, `\` |
| DriveWatcher.ProbeFrom | electron/main.ts:488-493 | the probe from a letter on yields present drives in increasing letter order and misses none |
| DriveWatcher.WindowsDrives | electron/main.ts:486-494 | exactly the present drives `D:\` to `Z:\`, without repeats |
| DriveWatcher.RemovableDrives | electron/main.ts:447-496 | Linux gives the mount list; Windows gives exactly the present three-character roots `D:\` to `Z:\`, without repeats; any other platform gives none |
| DriveWatcher.WindowsCardAnnounced | electron/main.ts:486-494 | on Windows a newly present drive letter whose card qualifies is announced on the next tick |
| DriveWatcher.OtherPlatformSilent | electron/main.ts:447-496 | on a platform other than Linux and Windows the watcher never announces a card |
| DriveWatcher.Detect | electron/main.ts:553-564 | a card event fires iff a window exists, the drive has a DCIM folder and the walk finds images; it reports the drive, the DCIM path, the count and the first ten images |
| DriveWatcher.AddPassFacts | electron/main.ts:549-567 | the first loop adds every current drive; each event is for a new drive, once, and every new drive that qualifies gets one |
| DriveWatcher.Tick | electron/main.ts:546-575 | after a tick the known drives are exactly the current ones; events are for new qualifying drives, one each |
| DriveWatcher.InitialKnown | electron/main.ts:542-544 | the initial known set is exactly the drives seen at start |
| DriveWatcher.NoNewDriveNoEvent | electron/main.ts:549-551 | a tick that sees no new drive fires nothing |
| DriveWatcher.ReinsertedDriveFiresAgain | electron/main.ts:569-574 | a card removed for one tick and put back fires again |
| DriveWatcher.StillPluggedIsSilent | electron/main.ts:549-551 | a card present on the previous tick fires nothing on the next |
| TagStore.Normalize | electron/main.ts:671 | the normal form is the tag lower-cased and trimmed, holds no upper-case letter, is trimmed, is empty iff the tag is blank, and is no longer than the tag |
| TagStore.AddGlobalTag | electron/main.ts:669-685 | an empty tag is refused; a known tag changes nothing; otherwise the list gains exactly that tag and is sorted, or the write fails and nothing changes |
| TagStore.AddGlobalTagIdempotent | electron/main.ts:676-680 | adding the same tag twice is adding it once |
| TagStore.AddGlobalTagKeepsOrder | electron/main.ts:676-679 | a sorted duplicate-free list stays sorted and duplicate-free |
| TagStore.AddGlobalTagInserts | electron/main.ts:677-678 | on a sorted list, push-then-sort is insertion at the sorted position |
| TagStore.RemoveGlobalTag | electron/main.ts:688-701 | an absent tag changes nothing; otherwise its first occurrence is cut out, or the write fails and nothing changes |
| TagStore.RemoveGlobalTagRemoves | electron/main.ts:692-695 | on a duplicate-free list the tag is gone and every other tag stays |
| TagStore.AddThenRemoveGlobal | electron/main.ts:669-701 | removing a just-added tag gives back the original sorted list |
| TagStore.GetImageTags | electron/main.ts:704-709 | no tags iff the image has no entry or an empty one; otherwise one tag per comma-separated part; the tags hold no comma and are trimmed |
| TagStore.GetImageTagsJoin | electron/main.ts:704-709 | for an entry whose parts are already trimmed, joining the tags read back gives the stored entry |
| TagStore.JoinThenGetImageTags | electron/main.ts:704-709 | storing the join of trimmed comma-free tags and reading it back gives those tags |
| TagStore.AddImageTag | electron/main.ts:712-738 | other images are untouched; an empty tag is refused; a present tag changes nothing; otherwise the entry becomes the old tags plus the new one, joined with commas |
| TagStore.AddThenGetImageTags | electron/main.ts:704-738 | after adding a comma-free tag, reading the image's tags gives the old tags plus that tag, unless it was present |
| TagStore.RemoveImageTag | electron/main.ts:741-766 | other images are untouched; no entry means nothing changes; otherwise the entry keeps the other tags or is deleted when none remain |
| TagStore.RemoveThenGetImageTags | electron/main.ts:741-766 | after removal the tag is no longer read back; the other tags read back in their order, except that a lone empty tag reads back as no tags |
| TagList.JoinSplit | electron/main.ts:725-730 | joining the comma split of a string gives the string back |
| TagList.SplitJoin | electron/main.ts:725-730 | splitting the join of comma-free parts gives the parts back |
| TagList.Split | electron/main.ts:725 | the split has at least one part and no part holds a comma |
| TagList.TrimAll | electron/main.ts:725 | each part is trimmed in place |
| TagOrder.SortSorted | electron/main.ts:678 | the sort's result is in code-unit order |
| TagOrder.Sort | electron/main.ts:678 | the sort's result is a permutation of its input |
| TagOrder.SortedUnique | electron/main.ts:678 | two sorted permutations of the same tags are equal, so the result does not depend on how it is sorted |
| TagOrder.InsertSorted | electron/main.ts:677-678 | inserting into a sorted list keeps it sorted |
| Ascii.Trim | electron/main.ts:671 | the result is the input without leading and trailing white space; empty iff the input is blank |
| Decimal.PadStart2RoundTrip | electron/main.ts:157-158 | a month or day below 100 pads to two digits that read back as the number |
| Decimal.ParseNatToString | electron/main.ts:156-159 | the decimal form of a number reads back as that number |
| Naming.PascalCaseContents | electron/main.ts:144-151 | the PascalCase name holds only letters and digits, and lower-cased it is the cleaned input without its white space |
| Naming.WordsAreCamel | electron/main.ts:148-150 | capitalising the words split at white space equals one pass that upper-cases the first letter of each word |
| Naming.PascalCaseOfTrim | electron/main.ts:144-151 | surrounding white space does not change the name, so trimming before the call is harmless |
| Naming.PreviewEqualsPascal | src/components/NewProjectModal.tsx:34-42 | the dialog's preview conversion, which also drops empty words, gives the main process's name |
| Naming.DatePrefixInjective | electron/main.ts:154-160 | different dates give different prefixes |
| Naming.PreviewMatchesFolder | src/components/NewProjectModal.tsx:95-97 | the folder shown in the dialog is the folder `create-project` makes for the trimmed name, and empty for a blank name |
| Naming.CleanAppend | electron/main.ts:147 | character removal works character by character |
| ProjectCreate.CreateProject | electron/main.ts:218-253 | "Projeto já existe" iff the folder exists, with nothing made; a throw is reported with its text, after a prefix of the directories; a success returns `<projects dir>/<date>_<PascalName>`, makes the whole layout and writes the metadata; every directory made is the folder or a child of it |
| ProjectCreate.FolderNameIsOneSegment | electron/main.ts:219-222 | the folder name is non-empty and holds no separator |
| ProjectCreate.CreatedProjectHoldsDestinations | electron/main.ts:229-235 | a default project already holds the folder every supported transfer writes to, and the `Editados` folder `move-to-edited` uses |
| ProjectCreate.CreateTwiceFails | electron/main.ts:224-226 | creating the same name on the same day again is refused with "Projeto já existe" |
| NewProjectModal.HandleClose | src/components/NewProjectModal.tsx:44-51 | ignored while creating; otherwise hides the dialog and clears the pending files, the name, the error and the progress |
| NewProjectModal.HandleCreate | src/components/NewProjectModal.tsx:53-93 | a blank name only sets the error; otherwise the trimmed name is sent first; a refusal shows a non-empty error and makes no other call; a success moves the pending files iff there are some and a path came back, then closes the dialog |
| NewProjectModal.PreviewedFolderReceivesFiles | src/components/NewProjectModal.tsx:62-75 | when the main process creates the project, the pending files are sent to the folder the dialog previewed |
| HomeView.HandleFileDrop | src/components/HomeView.tsx:26-45 | a drop with no qualifying file changes nothing; otherwise the dialog opens with exactly the qualifying files, in drop order |
| HomeView.DroppedFilesReachTransfer | src/components/HomeView.tsx:26-45 | the files dropped on the home view are the ones the dialog moves into the new project |
| Views.DropImagesMembers | src/components/ProjectView.tsx:86-99 | the kept files are a subsequence of the drop; a file is kept iff its lower-cased path ends in a media extension; nothing is kept iff no file qualifies |
| Views.DropImagesExact | src/components/HomeView.tsx:28-40 | the drop filter works file by file |
| Views.MediaNamesAreDroppable | src/components/ProjectView.tsx:86-97 | every file the transfer supports passes the drop filter |
| Views.DotFileDroppedButUnsupported | src/components/ProjectView.tsx:86-97 | for every folder `dir`, `dir/.jpg` passes the drop filter yet has no supported extension |
| Views.EndsWithAnyIff | src/components/ProjectView.tsx:88-96 | the chain of `endsWith` tests holds iff one of the extensions is a suffix |
| Views.FilterValue | src/components/ProjectView.tsx:62 | `all` sends no filter; the others send their own label |
| Views.FilterValueNamesFolders | src/components/HomeView.tsx:18-24 | the labels are the project's folder names, and different filters send different values |
| ProjectView.FilterByTagsSpec | src/components/ProjectView.tsx:70-79 | no selection shows every image; otherwise an image stays iff one selected tag is among its trimmed comma-separated tags, in query order |
| ProjectView.TaggedImageShown | src/components/ProjectView.tsx:70-77 | an image given a selected tag through `add-image-tag` is shown |
| ProjectView.UntaggedImageHidden | src/components/ProjectView.tsx:70-77 | after `remove-image-tag`, filtering by that tag alone hides the image |
| ProjectView.Summarize | src/components/ProjectView.tsx:108-109 | successes and failures add up to the number of results |
| ProjectView.HandleFileDrop | src/components/ProjectView.tsx:83-110 | no qualifying file means no call; otherwise the counts add up to the qualifying files and the successes are the completed copies |
| ProjectView.FolderStatsAppend | src/components/ProjectView.tsx:127-131 | one more image raises only its own folder's count, by one |
| ProjectView.FolderStatsBound | src/components/ProjectView.tsx:127-131 | the three counts never add up to more than the images shown |
| TagFilter.Toggle | src/components/TagFilter.tsx:10-19 | the clicked tag is selected afterwards iff it was not before |
| TagFilter.ToggleSelected | src/components/TagFilter.tsx:12-13 | deselecting keeps every other tag, in order, and nothing else |
| TagFilter.ToggleUnselected | src/components/TagFilter.tsx:14-15 | selecting appends the tag after the current selection |
| TagFilter.ToggleTwice | src/components/TagFilter.tsx:10-19 | two clicks on an unselected tag give the selection back |
| TagFilter.ToggleDistinct | src/components/TagFilter.tsx:10-19 | a duplicate-free selection stays duplicate-free |
| TagFilter.ClearAll | src/components/TagFilter.tsx:21-24 | clearing leaves no tag selected, whatever was selected (a constant; no proof work) |
| ProjectView.TagClickRefreshAsWritten | src/components/ProjectView.tsx:54-81 | a tag click stores the toggled selection, but the grid it refreshes shows exactly the images the selection before the click lets through |
| ProjectView.ClearAllRefreshAsWritten | src/components/TagFilter.tsx:21-24 | "clear" empties the selection, but the grid still shows exactly the images the old selection lets through |
| ProjectView.TagClickRefresh | src/components/TagFilter.tsx:10-19 | a click whose refresh uses the stored selection shows, in query order, exactly the images that selection lets through |
| ProjectView.ClearAllRefresh | src/components/TagFilter.tsx:21-24 | "clear" whose refresh uses the emptied selection shows every queried image |
| ProjectView.StaleTagRefresh | src/components/ProjectView.tsx:54-81 | with an image tagged only "sky", selecting "sea" still shows it and clearing "sea" still hides it as written; the corrected refreshes do the opposite |

## Findings

| source | as written | input that shows it | evidently intended | confidence | as-written member | corrected member |
|---|---|---|---|---|---|---|
| src/components/ProjectView.tsx:54-81 | `handleTagFilterChange` runs the `refreshImages` of the render before the click, whose `selectedTags` is the selection before `setSelectedTags` took effect | no tag selected, click "sea", with one image tagged only "sky": the grid still shows it; then "clear": the grid still filters by "sea" | the grid follows the selection the click stored | high, not executed | ProjectView.TagClickRefreshAsWritten | ProjectView.TagClickRefresh |

`ProjectView.StaleTagRefresh` exhibits the input for both the click and the clear; the clear's pair is `ProjectView.ClearAllRefreshAsWritten` and `ProjectView.ClearAllRefresh`.

## Left out

- File contents are not streamed: `copyFileWithStream` is a per-file outcome parameter, and a failed copy is modelled as possibly leaving a partial file.
- The MD5 digest is an arbitrary function parameter. Properties that need collisions to be impossible, or digests to be 32 hex digits, take that as a hypothesis.
- The Linux branch of `getRemovableDrives` is taken as an input list of mount paths. Directory listings and `statSync` on `/media`, `/mnt` and `/run/media` are not modelled.
- The drive watcher's timer, the start guard `if (driveWatcher) return`, and the overlap of asynchronous ticks are not modelled. One tick is one function call.
- JSON parsing and printing are not modelled. The tag and metadata files are represented by their parsed values. The fallbacks of `readGlobalTags` and `readProjectMetadata` to an empty value on a parse error are not modelled.
- `createdAt` and the ISO date are left out of the metadata. The date prefix takes the date as a parameter instead of reading the clock.
- `get-projects`, `get-project-images`, `get-recent-images`, `get-dcim-images`, `select-folder` and `open-folder` are not part of this model. They are directory listing and sorting by time, or calls into the operating system shell.
- `getProjectsDir`'s `mkdirSync`, outside any try, is not modelled. The projects directory is a parameter.
- `formatSize` and the dialog's `progressPercent` use floating point and are not modelled.
- Characters are treated as ASCII. `toLowerCase`, `toUpperCase`, `trim` and `\s` are modelled on ASCII only. JavaScript's sort compares UTF-16 code units; the model compares characters. The two agree on ASCII and on the Basic Multilingual Plane.
- `path.join` is modelled as joining with `/` when the left side is non-empty. The normalisation of `..`, `.` and doubled separators is not modelled. `path.extname`, `path.basename` and `path.dirname` are modelled for `/`-separated paths without trailing separators.
- The dialog's refresh of the project list, the navigation to the new project, the import-progress listener and all rendering are not modelled.
- `NewProjectModal.HandleCreate`: a rejected `createProject` or `moveFilesToProject` promise is not modelled. The handler has no catch, so it would stop with `isCreating` still set.
- `ThumbnailCache.CacheKey`: states only the `.jpg` suffix. Which digest it is depends on the MD5 parameter.
- `ProjectView.Summarize`: states how the two counts relate, not how each is computed.
- ThumbnailCache.NoNegativeCaching: holds only when the failed write leaves no cache file; a write that breaks off after creating the file leaves a truncated preview that later calls serve as a hit (`PartialCacheFileIsServed`).
- A recursive `mkdirSync` that fails because a folder on the way is a file, or for lack of permission, is folded into the `mkdirOk` outcome; which folders it made before failing is not modelled.
- The tag-bar findings model the grid filtering only; the loading flag and the re-read of the image list are not modelled.
