# jxl_zip_maker, modelled in Dafny

jxl_zip_maker walks a folder tree and converts the PNG and JPEG images in each
folder to JPEG XL with the external `cjxl` encoder. It then packs each folder's
`.jxl` files into a `.zip` archive beside the folder. Optionally it deletes the
source images and the folder itself. A ledger of finished folders makes a run
resumable: a second run skips what the first one finished.

This project models the decision logic of that program (`src/main.rs`) and
proves what it does. The modules follow the program's parts:

- `Base`: `Option`, `Result`, `Unit`.
- `Text`: the parts of Rust's `str` API the program relies on. These are `trim`
  (Unicode white space), `trim_matches`, `split`, `lines`, `strip_prefix` and
  `to_lowercase`.
- `Paths`: paths as sequences of components, in the order `components()`
  gives them, with Windows' rules (the encoder is `cjxl.exe`). A root or a
  drive prefix is a component that is not a normal name. It has `file_name`
  (none for a root, a drive or ".."), `file_stem` and `extension` (with Rust's
  rules for leading dots and ".."), `with_extension` (which leaves a path
  without a file name unchanged), `with_file_name`, and the numbered collision
  names `stem(k).jxl`.
- `Config`: `read_cjxl_args` (a loop over the lines that updates the settings
  record) and the start-up check of the lists.
- `Console`: `time_display` and the extraction of a quoted folder path.
- `Worklist`: the `WorkInfo` ledger as a class whose map the methods update,
  and the filter over the directory walk.
- `Schedule`: the stable deepest-first sort of the folder list.
- `Store`: the filesystem, as a class holding a map from path to bytes and a
  set of directories.
- `Convert`: `is_image_file`, and `image_to_jxl` with its collision probe, its
  hash reconciliation and its final rename.
- `Package`: `make_zip`. The archive is a sequence of named entries.
- `Folder`: one iteration of the folder loop in `main`. It selects the files,
  converts them, decides whether to archive and whether to delete, and updates
  the ledger.
- `Run`: the folder loop over the sorted list, and the whole run from the walk
  to the end of the loop.

Each imperative piece of the program is a method with its loop. Each method is
proved equal to a specification function on the old state, and the lemmas state
the properties of those functions. A panic, or a `?` that ends `main`, is an
`AbortReason` in the model, and the run stops there. These are:

- the folder cannot be read;
- a file has no extension;
- an image file cannot be opened;
- a probed `.jxl` candidate is a directory, so hashing it fails;
- a source image cannot be deleted;
- a folder is missing from the ledger.

`ImageReader::open` takes the image format from the file's extension, so for
jpg, jpeg and png the format is always known. The panic on an unknown format
and the skip of other formats (src/main.rs:227-234) therefore never happen,
and the model has neither.

Behaviour of the code as written that the lemmas pin down:

- The comment at src/main.rs:194 says content-different files are never
  deleted. The rename at src/main.rs:200 still overwrites a content-different
  file at the canonical name (`Convert.RenameReplacesDifferentCanonical`).
- Any file other than a `.zip` whose extension is not jpg, jpeg, png or jxl
  fails its whole folder (`Folder.NonImageBlocksPacking`). The exception is a
  file whose path has a component containing "This file is skip". The error
  message holds the path, and the loop's `contains` test then takes it for a
  skip (`Folder.NonImageInSkipPathPasses`). A `.zip` is never selected
  (`Folder.ArchivesAreNotRepacked`), and a file without an extension aborts
  the whole run (`Folder.Selected`).
- The probe treats a directory at a candidate name as taken. If the output
  then lands at a numbered candidate, hashing that directory panics
  (`Convert.ConvertContract`).
- A list line in the settings file always yields at least one argument
  (`Config.SplitArgs`).
- `make_zip` deletes the archive only for an empty input list. When every
  listed file is already gone, an empty archive stays
  (`Package.AllMissingLeavesEmptyArchive`). The folder loop never calls it with
  an empty list.
- `with_extension("zip")` drops everything after the last dot, so sibling
  folders with the same stem, such as `vol.1` and `vol.2`, share the archive
  path `vol.zip` (`Paths.SiblingsShareZipPath`).
- A subfolder's archive lies inside its parent, so deleting the parent deletes
  it too (`Folder.ChildArchiveDeletedWithFolder`).
- A walk root without a file name, such as a drive root, keeps its own path
  as its archive path. `File::create` then fails on the directory, and
  nothing is archived (`Package.NamelessFolderNotArchived`).
- When the run aborts, `main` returns before it saves the ledger
  (src/main.rs:522-523). The marks that the run function returns alongside an
  abort would therefore not reach the saved ledger file.
- The comparison with "zip" in the file filter is case-sensitive, while the
  image extensions are compared after lower-casing.

## Model

| member | source | states |
|---|---|---|
| `Text.KeptFrom` | src/main.rs:556 | the first kept position at or after the start: every character before it is dropped, the one at it is kept |
| `Text.KeptUntil` | src/main.rs:556 | the end of the kept part: every character from it to the end is dropped, the one before it is kept |
| `Text.TrimMatches` | src/main.rs:575 | the result is the slice of the text left after the longest dropped prefix and suffix, and it starts and ends with kept characters |
| `Text.Trim` | src/main.rs:556 | the result is a slice of the line with only white space removed around it, and it has no white space at either end |
| `Text.Split` | src/main.rs:325 | `split(c)` gives one piece more than there are separators, and no piece holds the separator |
| `Text.JoinSplit` | src/main.rs:325 | joining the pieces with the separator gives back the text |
| `Text.SplitSecondPiece` | src/main.rs:325-326 | the second piece is the text between the first separator and the next one (or the end) |
| `Text.Lines` | src/main.rs:555 | no line holds a line feed |
| `Text.LinesRoundTrip` | src/main.rs:555 | the lines before the carriage returns are removed, joined with line feeds, give back the text, up to one final line feed |
| `Text.LineEnding` | src/main.rs:555 | each line loses one final '\r' exactly when a "\r\n" ended it, and is otherwise kept as it was |
| `Text.StripPrefix` | src/main.rs:557 | `Some` exactly when the prefix starts the text, and then the text is the prefix followed by the value |
| `Text.Lower` | src/main.rs:558 | lower-casing keeps the length and lowers each ASCII letter |
| `Paths.FileName` | src/main.rs:82-86 | the file name is empty or a normal name, never a root, a drive or ".." |
| `Paths.WithFileName` | src/main.rs:116-123 | the parent is kept, and the file name is replaced, or the name is appended when there is none |
| `Paths.StemAndExtension` | src/main.rs:117-120 | a name is its stem, or its stem, a dot and its dot-free extension |
| `Paths.WithExtensionParts` | src/main.rs:433 | `with_extension` keeps the parent and the stem and sets the extension |
| `Paths.NoNameKeepsPath` | src/main.rs:58 | a path without a file name is unchanged by `with_extension` |
| `Paths.DecimalInjective` | src/main.rs:116-123 | different numbers print differently |
| `Paths.CandidateInjective` | src/main.rs:108-127 | two different indices never give the same candidate path |
| `Paths.NumberedNameNormal` | src/main.rs:116-123 | a numbered name is always a normal file name |
| `Paths.NotOwnCandidate` | src/main.rs:116-123 | a numbered candidate is never the canonical `.jxl` path |
| `Paths.CandidateSibling` | src/main.rs:116 | every candidate lies in the directory of the canonical path |
| `Paths.SiblingsShareZipPath` | src/main.rs:58 | sibling folders with the same stem get the same archive path |
| `Paths.SiblingsCanShareZipPath` | src/main.rs:58 | two different sibling folders `stem.x` and `stem.y`, such as `vol.1` and `vol.2`, both get the archive `stem.zip` |
| `Paths.DottedZipPath` | src/main.rs:58 | a folder whose name has its last dot at a position past the first gets the name's part before that dot followed by ".zip", beside it |
| `Paths.DottedName` | src/main.rs:58 | the archive of a folder `stem.x` with a dot-free stem and a dot-free `x` is `stem.zip` |
| `Paths.CandidateNext` | src/main.rs:116-123 | renaming candidate k to the next numbered name gives candidate k + 1 |
| `Paths.NumberedNameExtension` | src/main.rs:116-123 | every numbered name has the extension "jxl" |
| `Paths.ChildArchiveInside` | src/main.rs:58 | a subfolder's archive lies inside every folder that contains the subfolder |
| `Config.SplitArgs` | src/main.rs:573-584 | a list value gives comma count + 1 arguments, so never none, each trimmed and free of commas |
| `Config.SplitArgsPieces` | src/main.rs:573-584 | the arguments are, in order, the comma-free pieces whose comma-join is the bracket-stripped value, each with its surrounding white space removed |
| `Config.ReadCjxlArgs` | src/main.rs:542-593 | an unreadable file gives `Err("Failed to open file")`; otherwise the settings are every line applied in order to the defaults |
| `Config.ReadLine` | src/main.rs:556-587 | one pass of the `else if` chain applies the line's setting to the record |
| `Config.SettingOf` | src/main.rs:557-584 | each branch is taken exactly when the trimmed line starts with its key, and the keys exclude each other |
| `Config.ApplySwitches` | src/main.rs:557-572 | a setting turns a switch on exactly when it is that switch's line with the value "true" in any case ("false" turns `make_zip` off), and a switch already set stays set |
| `Config.ApplyPng` | src/main.rs:573-578 | a `png_args=` setting replaces the PNG list by its split value, and any other setting keeps it |
| `Config.ApplyJpg` | src/main.rs:579-584 | a `jpg_args=` setting replaces the JPEG list by its split value, and any other setting keeps it |
| `Config.ParsedSwitches` | src/main.rs:545-572 | each switch leaves its default exactly when some line sets it with "true" (or "false" for `make_zip=`) in any case, and never goes back |
| `Config.ParsedArgLists` | src/main.rs:573-584 | each argument list comes from the last line that sets it, and is empty when no line does |
| `Config.StartupArgs` | src/main.rs:256-279 | the run starts only with two non-empty lists: the file's when it has both, the built-in ones when the file is unreadable |
| `Config.StartupStopsOnlyWithoutListLine` | src/main.rs:256-262 | a readable file stops the run exactly when it has no `png_args=` or no `jpg_args=` line |
| `Console.TimeDisplay` | src/main.rs:595-602 | minutes and seconds are below 60, milliseconds below 1000, and the four parts add back up to the input |
| `Console.UnquotedRejected` | src/main.rs:324-331 | a line without either quote character gives no path |
| `Console.DoubleQuoted` | src/main.rs:324-331 | the path is the non-empty text after the first double quote, up to the next one |
| `Console.SingleQuoted` | src/main.rs:324-331 | whenever the double quote gives no path, the single quote is used the same way |
| `Console.EmptyDoubleQuotesFallBack` | src/main.rs:324-331 | an empty double-quoted pair is passed over for a single-quoted path |
| `Console.ExtractedPath` | src/main.rs:324-331 | an extracted path is non-empty and holds no quote of the kind that delimited it |
| `Store.FileSystem.constructor` | src/main.rs:6-7 | a filesystem holds the given files and directories |
| `Store.FilesOutside` | src/main.rs:509-513 | deleting a folder removes exactly the files at or below it and keeps the other files' bytes |
| `Store.DirsOutside` | src/main.rs:509-513 | deleting a folder removes exactly the directories at or below it |
| `Worklist.MarkDone` | src/main.rs:646-652 | marking succeeds exactly for a registered folder, sets only that entry to true and keeps every other entry |
| `Worklist.WorkInfo.constructor` | src/main.rs:638-644 | a new ledger is empty and keeps the folder path and the settings |
| `Worklist.WorkInfo.UpdateListElement` | src/main.rs:646-652 | a registered folder is set to true and counted once; an unknown one is the panic, with nothing changed |
| `Worklist.WalkFilter` | src/main.rs:381-398 | the loop over the walk equals the filter function over the walk, in walk order |
| `Worklist.FilteredIsReference` | src/main.rs:381-398 | the filter keeps exactly the walked folders the ledger does not mark finished, and registers exactly the unseen ones as unfinished |
| `Worklist.FilterContract` | src/main.rs:384-394 | finished folders are dropped; unfinished and unseen ones are kept; unseen ones are added as false; other entries keep their value; no mark is lost |
| `Worklist.KeptAreRegistered` | src/main.rs:388-392 | every kept folder is in the new ledger, unfinished |
| `Worklist.RerunFindsNothing` | src/main.rs:384-387 | when every walked folder is finished, nothing is kept and the ledger is unchanged |
| `Worklist.FilteredDistinct` | src/main.rs:381-398 | a walk without repeats gives a folder list without repeats |
| `Schedule.SortByDepth` | src/main.rs:408-411 | the sorted list is a permutation of the input, deepest first |
| `Schedule.SortIsStable` | src/main.rs:408-411 | folders of equal depth keep their walk order |
| `Schedule.DeepestFirstUnique` | src/main.rs:408-411 | deepest-first order and the order within each depth determine the list |
| `Schedule.SortIsTheStableOrder` | src/main.rs:408-411 | any deepest-first list with the walk's order at each depth is the sorted list |
| `Schedule.SubfoldersFirst` | src/main.rs:407-411 | in the sorted list no folder comes before a folder inside it |
| `Schedule.SortKeepsDistinct` | src/main.rs:408-411 | sorting a list without repeats gives a list without repeats |
| `Convert.IsImageFile` | src/main.rs:213-247 | success exactly for a jpg/jpeg/png extension (any case) on a file that opens, with the format the extension names; "not image" exactly for the other extensions except jxl; skipped exactly for jxl; the open panic exactly for an image file that cannot be opened |
| `Convert.JxlIsSkipped` | src/main.rs:239-243 | a `.jxl` file is skipped, whether or not it opens |
| `Convert.FreeIndex` | src/main.rs:108-127 | the probe's index names a candidate that exists neither as a file nor as a directory, and all smaller candidates exist |
| `Convert.FreeIndexIsLeast` | src/main.rs:108-127 | no other index is free with all smaller ones taken |
| `Convert.Probe` | src/main.rs:108-127 | the loop stops at the least free index, with the path of that candidate |
| `Convert.LastDirBelow` | src/main.rs:167-188 | the highest candidate below the output that is a directory, or none exactly when there is none |
| `Convert.Reconcile` | src/main.rs:155-201 | without a directory among the candidates, the loop and the rename give the reconciled filesystem; otherwise the loop stops at the highest directory, with the duplicates above it already removed |
| `Convert.ImageToJxl` | src/main.rs:99-204 | the method's outcome and filesystem equal the conversion function on the old filesystem |
| `Convert.ReconcileMovesOutput` | src/main.rs:200 | the canonical path holds the new bytes and the numbered output is gone |
| `Convert.ReconcileCandidate` | src/main.rs:167-198 | an earlier numbered candidate is deleted exactly when its hash equals the new file's, otherwise left as it was |
| `Convert.ReconcileElsewhere` | src/main.rs:155-201 | no path outside the candidates changes |
| `Convert.ReconcileCreatesNothing` | src/main.rs:155-201 | no path is created |
| `Convert.RenameReplacesDifferentCanonical` | src/main.rs:194-200 | a canonical file with a different hash is replaced anyway |
| `Convert.ConvertContract` | src/main.rs:99-204 | failure exactly for an unsupported format or a failed encoding, and then no file changes; the hash panic exactly after a successful encoding at a numbered candidate with a directory among the earlier candidates; on success the canonical path holds the output; when nothing existed at the canonical path nothing else is touched |
| `Convert.NoDirsAllTaken` | src/main.rs:155-201 | without a directory among the candidates they are all files, so the reconciliation lemmas apply |
| `Convert.CandidateIsJxl` | src/main.rs:116-123 | every candidate of a `.jxl` path has the extension jxl |
| `Package.MakeZip` | src/main.rs:53-97 | the method's result and filesystem equal the archive function on the old filesystem |
| `Package.PackedIsReference` | src/main.rs:61-91 | the entries are the listed files that exist, at their first mention, in list order, and every listed file is removed |
| `Package.PresentNames` | src/main.rs:80-86 | each entry is named by the file name of a listed path and holds its bytes |
| `Package.DistinctAllPresent` | src/main.rs:61-91 | distinct existing files all become entries, in list order |
| `Package.ZipContract` | src/main.rs:53-97 | the archive fails to be created exactly on a directory, and then nothing changes; otherwise the archive stays exactly for a non-empty list, holding the encoded entries; listed files are gone; every other file keeps its bytes and no path other than the archive appears |
| `Package.NamelessFolderNotArchived` | src/main.rs:58-59 | a folder without a file name gets no archive, and nothing changes |
| `Package.AllMissingLeavesEmptyArchive` | src/main.rs:93-95 | with a non-empty list of missing files an archive with no entries stays |
| `Folder.Selected` | src/main.rs:425-429 | the selection is exactly the regular files whose extension is not "zip"; it fails exactly on a file without extension |
| `Folder.ConvertAll` | src/main.rs:430-464 | without an abort there is one result per selected file |
| `Folder.ConvertEntry` | src/main.rs:431-463 | the closure's step and filesystem equal the per-file function |
| `Folder.ConvertFolderFiles` | src/main.rs:424-464 | the loop over the selected files equals the conversion function, stopping at the first abort |
| `Folder.Decide` | src/main.rs:466-514 | any failure means no archive; an archive exactly with results, `make_zip` on and no failure; deletion exactly when `delete_folder` is also on |
| `Folder.PackList` | src/main.rs:490-504 | without failures the list has one path per result, in order |
| `Folder.ScanForErrors` | src/main.rs:473-480 | the scan reports exactly whether some result failed |
| `Folder.ProcessFolder` | src/main.rs:419-519 | the iteration's state and abort equal the folder function; a completed iteration marks the ledger exactly once |
| `Folder.MarkFolder` | src/main.rs:518 | marking a registered folder completes it; an unknown folder aborts with nothing changed |
| `Folder.NonImageIsError` | src/main.rs:455-461 | a non-image file whose path does not hold the skip phrase gives an error, not a skip, and changes no file |
| `Folder.NonImageInSkipPathPasses` | src/main.rs:455-461 | a non-image file whose path holds the skip phrase counts as already done |
| `Folder.SkipFolderExample` | src/main.rs:456-458 | a path with a folder named "This file is skip" holds the phrase |
| `Folder.NonImageResult` | src/main.rs:430-464 | the result of a non-image file outside such paths is its error |
| `Folder.NonImageBlocksPacking` | src/main.rs:456-488 | a single non-image file outside such paths means the folder is not archived |
| `Folder.FailureBlocksPacking` | src/main.rs:473-488 | with a failed file neither archive nor deletion happens |
| `Folder.DeletionNeedsAllFlags` | src/main.rs:507-514 | a folder is deleted only with `make_zip` and `delete_folder` on, files present and none failed, and then nothing below it remains |
| `Folder.CompletedMarksFolder` | src/main.rs:466-519 | a completed iteration sets exactly its own folder's entry to true |
| `Folder.FolderFrame` | src/main.rs:419-519 | an abort leaves the ledger alone; directories change only by deleting the folder |
| `Folder.ConversionStops` | src/main.rs:436-449 | converting files aborts only on an image that cannot be opened, a candidate that cannot be hashed, or a source that cannot be deleted |
| `Folder.NoDirCandidateNoHashPanic` | src/main.rs:155-201 | without a directory among an image's candidates its conversion never panics on a hash |
| `Folder.ChildArchiveDeletedWithFolder` | src/main.rs:507-513 | deleting a folder deletes the archives of its subfolders too |
| `Folder.ArchivesAreNotRepacked` | src/main.rs:428 | a folder's archive is never selected when its parent is processed |
| `Run.RunFolders` | src/main.rs:419-519 | the loop over the folders equals the run function, stopping at the first abort |
| `Run.ConvertTree` | src/main.rs:362-519 | walk filter, sort and folder loop compose as their functions |
| `Run.RunMarksAllDone` | src/main.rs:419-519 | a finished run marks every scheduled folder true and keeps all earlier marks |
| `Run.LaterFoldersSurvive` | src/main.rs:407-519 | after each iteration the later folders still exist and the ledger keeps its folders |
| `Run.NoLostFolders` | src/main.rs:407-519 | a deepest-first list without repeats never aborts on a missing or unregistered folder |
| `Run.TreeNeverLosesFolder` | src/main.rs:362-519 | from a walk of existing folders without repeats, the run never aborts on a missing or unregistered folder |

## Left out

- The logger (src/main.rs:31-51) and all log output: no behaviour depends on it.
- Console prompting, the retry loop over stdin and the final wait for Enter (src/main.rs:312-342, 537-538): interactive I/O. Only the quote extraction is modelled.
- Launching `cjxl.exe`, its existence check and the panic when it cannot be started (src/main.rs:129-152, 301-305): a foreign process. The encoder is a function parameter that returns written bytes or a failure.
- Opening an image with `ImageReader` (src/main.rs:223-226): a library call. The model takes the format from the extension, as `open` does. Whether the file opens is whether it is in the file map.
- `xxh3_64` and hex encoding (src/main.rs:206-211, 344): the hash is an uninterpreted function of the file contents.
- Loading and saving the ledger with bincode (src/main.rs:347-356, 522-523) and writing the default settings file (src/main.rs:266-267): serialisation I/O.
- The mechanics of the jwalk traversal (src/main.rs:367-380) and the order of `read_dir`: the walk is a given sequence of directories, and the listing is a function parameter.
- The zip byte format and compression options: the archive encoding is a function parameter over the entries.
- The `trash` crate: moving to the trash is modelled as deletion.
- Rayon parallelism (src/main.rs:430): the files of a folder are converted in order, one after the other.
- `Instant` timing (src/main.rs:359, 400): `time_display` takes the elapsed milliseconds as input.
- I/O errors other than a missing file, such as permissions or a full disk.
- Overflow of the `i32` collision counter.
- Paths.FileName: names are Unicode strings, so a non-UTF-8 name cannot occur. The `to_str().expect` panic at src/main.rs:218, and the empty-stem fallback at src/main.rs:119-121 and 173-176, are not modelled. The same holds for Paths.Stem, Paths.Extension, Paths.ZipPath and Paths.Candidate.
- Paths.NormalName: Windows verbatim and UNC prefixes are not told apart from other non-normal components.
- Package.MakeZip: a listed path that is not a regular file counts as missing. The source only skips NotFound errors, and opening a directory is not modelled.
- Text.Lower: lowers ASCII letters only. Comparisons with `true`, `false`, `jpg`, `jpeg`, `png` and `jxl` are still exact, because no other character lowers to the letters of those words.
