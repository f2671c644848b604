# mtz_extractor in Dafny

This project is a verified model of the two tree transforms in `mtz_extractor`. The tool unpacks and repacks `.mtz` theme containers, which are ZIP archives.

- **The unpacker.** The class `MTZExtractor` appears in `mtz_extractor.py` and again, without printing, in `py/main.py` (lines 332-439). The two copies have the same logic, so one set of members models both, and the table below cites the `mtz_extractor.py` lines. The class does the following:
  - checks that the container path exists and ends in `.mtz`;
  - picks a fresh folder `./extracted/<stem>`, `<stem>_copy1`, ... and creates it;
  - extracts the container into that folder and records its size and entry count;
  - runs a fixed pipeline over the tree:
    1. tag every file whose suffix is not allow-listed, by appending `.zip`;
    2. extract every `*.zip` file into a sibling folder named without `.zip`, then delete it;
    3. remove folders that were empty when the bottom-up walk listed them;
    4. add up the remaining file sizes.
- **The packer.** This is the class `MTZCompressor` and `main` in `mtz_packing.py`. It does the following:
  - validates the staging folder;
  - turns each child folder other than `wallpaper`/`preview` into `<child>.zip`;
  - verifies that archive, and deletes the child only once both the write and the check succeeded;
  - strips a trailing `.zip` from every top-level name;
  - seals the staging folder into `<folder>.mtz` and deletes the folder.

## How the model is organised

- `names.dfy` (module `Names`) covers the name arithmetic:
  - pathlib's `suffix`, `stem` and `with_suffix`;
  - the `.zip` marker, and the `name[:-4]` cut that removes it;
  - the `_copy<n>` candidate names.
- `filetree.dfy` (module `FileTree`) defines the filesystem as a value:
  - a `Tree` is a `map<Path, Node>` from absolute component paths to `File(size, content)` or `Dir`;
  - a file's content is either raw bytes or an abstract archive (a member map plus an `intact` flag that stands for the CRC check);
  - every operating-system call the core makes is a function returning `Result<Tree>`. These are `rename`, `unlink`, `rmdir`, `mkdir`, `makedirs`, `rmtree`, writing a file, and `extractall`.
  - `Relocated` describes a set of entries moved by one injective renaming. Both the tagging pass and the strip pass are characterised by it.
- `os.dfy` (module `Os`) holds the class `FileSystem`.
  - The mutable tree is its field, and each call is a method that either raises and changes nothing or moves to the state the `FileTree` function describes.
  - It also holds `Enumerate`, which takes a listing snapshot in some order, and `WalkSize`, the size-summing `os.walk` loop.
- `extractor.dfy` (module `Extractor`) models the unpacker.
  - Each loop of the pipeline is a fold over a snapshot listing (`TagPass`, `UnzipPass`, `PrunePass`). The class `MTZExtractor` runs these loops as `while` loops whose invariant ties the folds together.
  - Lemmas say what each pass does for every listing order.
- `packing.dfy` (module `Packing`) models the packer in the same way:
  - the members each archive receives (`FolderArchive`, `SealArchive`), with round-trip lemmas;
  - the walking loops that collect those members;
  - the strip pass (`StripPass`) and the compress loop of `main` (`CompressPass`);
  - the class `MTZCompressor`.

Clock readings are a parameter (`now`). The OS's refusals are a fixed set `locked` of entries it will not rename or remove. A write of an archive is described by a `ZipWriter`: the size `getsize` then reports, and whether `testzip` passes on the result. Both are functions of the compression method and the members.

## Model

| member | source | states |
|---|---|---|
| Extractor.MTZExtractor.constructor | mtz_extractor.py:131-145 | an empty or missing allow-list becomes the default list of 28 extensions; every counter starts at zero and no start time is set |
| Extractor.MTZExtractor.ValidateMtzFile | mtz_extractor.py:218-228 | accepts exactly the paths that exist and whose text ends in `.mtz`, case-sensitively |
| Extractor.ContainerStem | mtz_extractor.py:233 | `Path(file).stem` never holds a separator, so each candidate names one entry of `./extracted` |
| Extractor.MTZExtractor.CreateExtractFolder | mtz_extractor.py:230-247 | every candidate before the `k`-th exists and the `k`-th does not; `None` exactly when `mkdir(parents=True, exist_ok=True)` of it raises, and the tree is then unchanged; otherwise the result is a directory afterwards and, unless the stem is `..`, was absent before |
| Extractor.CopiesFitInTree | mtz_extractor.py:237-240 | the `_copy` counter cannot pass the number of entries in the tree, so the search loop ends |
| Names.CopyNamesDistinct | mtz_extractor.py:239 | different counters never give the same candidate name |
| Names.CopyNameIsName | mtz_extractor.py:239 | `<stem>_copy<n>` is always a single valid entry name |
| Names.DecimalInjective | mtz_extractor.py:239 | `str(n)` of different counters differ |
| Extractor.ExtractFolderIsFresh | mtz_extractor.py:237-243 | for any stem other than `..`, the folder handed back did not exist before |
| Extractor.DotDotStemReusesWorkingDir | mtz_extractor.py:233-243 | a container named `...mtz`, with no `./extracted` yet, gets the stem `..`; the folder handed back is the working directory itself, which already existed |
| FileTree.MakeDirsSpec | mtz_extractor.py:242 | in a tree where only files block it, `mkdir(parents=True, exist_ok=True)` fails exactly when some prefix of the path is a file; otherwise the path is a directory afterwards, and only directories are added |
| Extractor.MTZExtractor.ExtractMtz | mtz_extractor.py:249-264 | the start time is recorded first and the container's size before it is opened (a failing `getsize` fails the call); the entry count, directory entries included, is recorded only when extraction succeeds; the tree changes only on success |
| FileTree.ExtractAllPlaces | mtz_extractor.py:258-259 | a successful `extractall(dest)` leaves each file member at `dest/<member>` and every entry outside `dest` as it was |
| FileTree.ExtractFileKeeps | mtz_extractor.py:298-299 | extraction adds and overwrites files but removes nothing and never replaces a directory |
| Extractor.MTZExtractor.ProcessFiles | mtz_extractor.py:266-272 | tag, unzip and prune run once each in that order over snapshot listings; the first exception ends the run; `extracted_size` is then the total size of the files left below the folder, and is untouched when a step raised |
| Extractor.MTZExtractor.CalculateFolderSize | mtz_extractor.py:274-281 | the nested `os.walk` loop returns the total size of all files below the folder |
| Os.WalkSize | mtz_extractor.py:276-281 | the accumulating loop over the walked directories and their files adds up exactly the sizes of the files below the root; the packer's `calculate_size` runs the same walk |
| Os.AddFileSizes | mtz_extractor.py:278-281 | the inner loop over one walked directory's files adds exactly the sizes of the files directly inside it to the running total |
| Extractor.MTZExtractor.AddZipExtensionToFiles | mtz_extractor.py:283-288 | the loop over the `rglob("*")` listing ends in the state the tagging fold describes, and reports whether a rename raised |
| Extractor.MTZExtractor.TagOne | mtz_extractor.py:286-288 | one pass of the tagging loop: the rename happens exactly when the listed path is a file whose suffix is not allowed, and the new tree is the one the tagging step gives; `ok` is false exactly when that rename raised |
| Extractor.TagPassRenamesTagSet | mtz_extractor.py:283-288 | when no target name is taken and no file is locked, tagging renames exactly the files whose suffix is not allow-listed, each to `<name>.zip`, leaves everything else in place, and does so whatever the listing order |
| Extractor.TagPassFrom | mtz_extractor.py:285-288 | part way through the loop, the entries already handled have moved with their subtrees and the rest of the loop moves the others |
| Extractor.TagStepFrom | mtz_extractor.py:286-288 | one iteration renames an entry of the tag set and leaves any other entry alone |
| Names.TagNameIsWithSuffix | mtz_extractor.py:287 | `with_suffix(suffix + ".zip")` always appends `.zip` to the whole name, and the result matches `*.zip` |
| Names.StemAndSuffix | mtz_extractor.py:286 | a name is its stem followed by its suffix; a suffix is empty or a dot followed by at least one character |
| Extractor.ClashingSuffixes | mtz_extractor.py:132-138 | `a` has no suffix and `a.zip` has the suffix `.zip`; neither is in the default list, so both are tagged |
| Extractor.TagFirstLosesFile | mtz_extractor.py:285-288 | with files `a` and `a.zip`, the listing order `a` first makes `a` overwrite `a.zip` and get tagged again, so one file is lost |
| Extractor.TagLastKeepsBoth | mtz_extractor.py:285-288 | in the other listing order both files survive tagging, as `a.zip` and `a.zip.zip` |
| Extractor.MTZExtractor.UnzipFilesToFolders | mtz_extractor.py:290-302 | the loop over the `*.zip` entries present when it starts ends in the state the unzip fold describes; only a failing `mkdir`, which sits outside the `try`, propagates |
| Extractor.MTZExtractor.UnzipOne | mtz_extractor.py:293-302 | one pass of the unzip loop ends in the tree the unzip step gives, and reports failure only when the `mkdir` outside the `try` raised |
| Extractor.MTZExtractor.ExtractAndDelete | mtz_extractor.py:297-302 | the `try` block: extract the archive into the folder, then delete the archive; a failure at either step is swallowed and leaves the tree as that step found it |
| Extractor.UnzipStepExtracts | mtz_extractor.py:293-300 | a readable `<name>.zip` whose members fit becomes the folder `<name>` holding each member, and the file is deleted |
| Extractor.UnzipStepKeeps | mtz_extractor.py:292-302 | one iteration removes nothing but the file it handles and turns no folder into a file |
| Extractor.UnzipPassKeeps | mtz_extractor.py:292-302 | the loop keeps every entry it did not list and every folder |
| Extractor.UnzipPassRemovesOnlyArchives | mtz_extractor.py:290-302 | the unzip pass never removes a folder; the only entries it removes are `*.zip` files below the folder that it listed |
| Extractor.TagThenUnzip | mtz_extractor.py:294 | a tagged file is matched by `*.zip` and is unpacked into a folder carrying its untagged name |
| Names.UnzipFolderName | mtz_extractor.py:294 | `with_suffix("")` on `N.zip` with a non-empty `N` gives `N` |
| Names.BareMarkerKeepsName | mtz_extractor.py:294 | a file named just `.zip` has no suffix, so its folder would take its own name |
| Names.DropSuffix | mtz_extractor.py:294 | `with_suffix("")` is the stem, which is non-empty and holds no separator |
| Extractor.MTZExtractor.CleanupEmptyFolders | mtz_extractor.py:304-311 | the bottom-up walk ends in the state the pruning fold describes, with the listing taken before any removal |
| Extractor.PruneRemovesEmptyFolders | mtz_extractor.py:304-311 | pruning removes exactly the walked folders (the root included) that had no entries when listed and that the OS lets go, whatever the walk order |
| Extractor.PrunePassFrom | mtz_extractor.py:306-311 | part way through the walk, the folders handled so far are gone and the rest of the walk removes the others |
| Extractor.PruneIsSingleLevel | mtz_extractor.py:306-307 | in `/a/b`, both empty, pruning `/a` removes `/a/b` and leaves `/a`, now empty, behind |
| Extractor.ExpansionRatio | mtz_extractor.py:317-321 | `extracted_size / total_size * 100` in exact arithmetic when `total_size > 0`, else 0 |
| Extractor.ExpansionBelowFull | mtz_extractor.py:317-321 | the ratio is below 100% exactly when the unpacked files are smaller than the container |
| Packing.MTZCompressor.constructor | mtz_packing.py:129-136 | every counter starts at zero and no start time is set |
| Packing.MTZCompressor.ValidateFolder | mtz_packing.py:163-172 | accepts exactly the paths that exist and are directories |
| Packing.MTZCompressor.CalculateSize | mtz_packing.py:174-183 | a file's own size; for anything else, the total size of the files below it (0 when nothing is there) |
| Packing.MTZCompressor.ZipFolder | mtz_packing.py:193-219 | writes `<folder>.zip` holding the walk's members; returns `None` and changes nothing when the write fails; otherwise adds the number and total size of the files written to the counters |
| Packing.WalkForZip | mtz_packing.py:199-214 | the nested walk collects exactly the archive members, counts the files written, and sums their sizes |
| Packing.ZipDirFiles | mtz_packing.py:209-214 | the inner loop adds every file of one directory under its relative name and counts it |
| Packing.ZipRoundTrip | mtz_packing.py:200-214 | unpacking `<folder>.zip` into the folder puts back exactly the files the counters counted, each with its size and content |
| Packing.ArchiveRoundTrip | mtz_packing.py:206-212 | entries written under `relpath(entry, base)` come back at their own paths when the archive is unpacked into `base` |
| Packing.ZipDirEntries | mtz_packing.py:205-207 | the directory entries of the archive are exactly the walked, unskipped directories with nothing in them |
| Packing.SkipIsPerDirectory | mtz_packing.py:201-203 | a `wallpaper` directory hides only its own files: a file in its subdirectory is still written |
| Packing.MTZCompressor.VerifyZip | mtz_packing.py:221-234 | true exactly when the path is a readable archive whose checksums all match |
| Packing.MTZCompressor.RemoveZipExtension | mtz_packing.py:236-249 | the loop over the `listdir` snapshot ends in the state the strip fold describes; the first failing rename ends it and is swallowed |
| Packing.MTZCompressor.StripOne | mtz_packing.py:243-246 | one pass of the strip loop: a name ending in `.zip` is renamed to the name without it; `ok` is false exactly when the rename raised, and then the tree is unchanged |
| Packing.StripPassRenames | mtz_packing.py:242-246 | when every `*.zip` entry of the folder is unlocked and its cut name is valid and free, each is renamed to its name without `.zip`, a folder together with everything below it, and nothing else moves, whatever the listing order |
| Packing.StripPassFrom | mtz_packing.py:242-246 | part way through the loop, the entries already handled have moved with their subtrees and the rest of the loop moves the others |
| Packing.StripStepFrom | mtz_packing.py:243-246 | one iteration renames a marked entry, moving a folder's whole subtree with it, and leaves any other entry alone |
| Packing.StripFileStep | mtz_packing.py:243-246 | renaming a marked file to its free cut name moves just that file |
| Packing.StripDirStep | mtz_packing.py:243-246 | renaming a marked folder to its free cut name moves the folder and everything below it, re-rooted under the new name |
| Packing.StripOfInjective | mtz_packing.py:245 | different `*.zip` names never cut to the same name |
| Names.TagThenStrip | mtz_packing.py:245 | the cut `name[:-4]` undoes the unpacker's tagging, as does `with_suffix("")` |
| Packing.StripOverwritesSibling | mtz_packing.py:242-246 | with files `x` and `x.zip` in the folder, in either listing order the strip replaces `x` by the former `x.zip` |
| Packing.MTZCompressor.CreateMtz | mtz_packing.py:251-272 | writes `<folder>.mtz` holding every file below the folder, records its size once written, then removes the folder; `False` when the write or the removal raises, with the container already written in the second case |
| Packing.WalkForSeal | mtz_packing.py:257-263 | the walk collects every file below the folder under its relative name |
| Packing.SealRoundTrip | mtz_packing.py:257-263 | unpacking `<folder>.mtz` into the folder puts back every file that was below it |
| Packing.SealHasOnlyFiles | mtz_packing.py:258-262 | the container holds files only, each taken from below the folder, and no directory entries |
| Packing.CompressionRatio | mtz_packing.py:280-284 | `compressed_size / total_size * 100` in exact arithmetic when `total_size > 0`, else 0 |
| Packing.CompressionBelowFull | mtz_packing.py:280-284 | the ratio is below 100% exactly when the container is smaller than the files it packs |
| Packing.MTZCompressor.Pack | mtz_packing.py:313-345 | an invalid folder changes nothing and fails; otherwise the start time is set, and the children listed once are compressed as the compress fold describes; a removal that raises ends the run with failure; otherwise the top level is stripped and the folder sealed, and success is the sealing's success |
| Packing.MTZCompressor.CompressChild | mtz_packing.py:323-335 | one iteration over a listed child advances the tree and the counters exactly as the compress step does |
| Packing.MTZCompressor.ArchiveChild | mtz_packing.py:330-333 | for a child directory, a failed write changes nothing; otherwise the counters grow, and the child is removed when its archive passes `testzip` and `rmtree` does not raise |
| Packing.MTZCompressor.RemoveIfIntact | mtz_packing.py:331-333 | an archive failing `verify_zip` leaves the tree alone; an intact one leads to `rmtree` of the child, whose failure is reported |
| Packing.ArchivedBeforeRemoved | mtz_packing.py:330-333 | a child directory disappears exactly when its archive was written, passed `testzip`, and `rmtree` succeeded; it then sits beside an intact archive that unpacks back into its counted files |
| Packing.StepRemovesChild | mtz_packing.py:330-333 | the three conditions of the removal, write, `verify_zip` and `rmtree`, are each needed and together enough |
| Packing.CorruptArchiveKeepsChild | mtz_packing.py:330-333 | an archive that fails `testzip` leaves the child and the archive in place, the counters still grow, and the loop goes on |
| Packing.IntactStepRemoves | mtz_packing.py:331-333 | with an archive that checks out, the child goes exactly when `rmtree` succeeds |
| Packing.WrittenStep | mtz_packing.py:330-332 | the written archive passes `testzip` exactly when the write was sound, and the step then turns on that check and the removal |
| Packing.ArchivedStep | mtz_packing.py:330-335 | zipping a child and then removing it once verified is exactly the compress step |
| Packing.CompressSparesSkipped | mtz_packing.py:323-328 | the compress loop never touches a top-level `wallpaper` or `preview`, nor anything below it |
| Packing.StepSparesSkipped | mtz_packing.py:326-333 | one iteration on a sibling leaves a skipped child and its subtree as they were |

## Left out

- The ZIP format, STORED/DEFLATE compression and CRC computation. An archive is its member map plus a flag for whether `testzip` passes. The size of a written archive, and whether it then passes `testzip`, are fixed functions of the compression method and the members (`ZipWriter`). A write fault is seen only through that flag.
- `ExtractMtz` and `UnzipStep` treat `extractall` as all-or-nothing. Python may leave members it already wrote when a later member fails. Member names are assumed already sanitised: `..` and absolute member paths are not modelled.
- A member name listed twice in `namelist()`: the archive is a map, so the model cannot hold duplicates.
- The exact way a rename to `""`, `.` or `..` fails in `remove_zip_extension` is not modelled. Such a rename is an error (`InvalidName`), and like any other error it ends the loop.
- Path strings: paths are component sequences. Relative input paths, `abspath`, trailing slashes and the `name/` spelling of directory entries are not modelled.
- Platform differences: case-insensitive globbing, and `os.rename` refusing to replace an existing file on Windows. The model follows POSIX.
- `ZipFolder` and `CreateMtz` walk the folder before writing the archive, where Python opens the archive first. The archive lies outside the walked folder, so this changes nothing, except for `create_mtz` on the filesystem root. There `/.mtz` would be inside the walk, and the model leaves it out of the members. That run fails at `rmtree("/")` anyway.
- `ZipFolder` and `CreateMtz` write all-or-nothing: a write that fails part-way, leaving a partial archive or partly updated counters, is not modelled.
- Extractor.MTZExtractor.CreateExtractFolder: its freshness promise is stated only for stems other than `..`; `DotDotStemReusesWorkingDir` shows why.
- Packing.MTZCompressor.ZipFolder: `calculate_size` is called there only to label the spinner, and its result is unused.
- Extractor.MTZExtractor.UnzipFilesToFolders: the loop runs over the `*.zip` entries that exist when it starts. Python's `rglob` reads each directory only when its walk reaches it, so a folder the loop creates is walked later in the same run, and a `*.zip` extracted into it is unpacked too. An `x.zip` holding `y.zip` ends as folder `x/y/` in Python and as file `x/y.zip` here. Tagging is unaffected, because its renames stay in directories already listed.
- Permission refusals exist only for rename and remove (the `locked` set). A refused `stat`, `exists`, `mkdir`, file write, `extractall` or `listdir` is not modelled. So `MakeDirsSpec` fails only on a file prefix, `Path.exists()` raising `PermissionError` in `create_extract_folder` (which then returns `None`) is not covered, and neither is a refused `os.listdir` in `main`.
- Extractor.ExpansionRatio: computed in exact reals, where Python divides in binary floating point. For sizes near 2^53 the rounded ratio can reach 100.0 while the sizes still differ, so `ExpansionBelowFull` holds for the exact quotient only.
- Packing.CompressionRatio: the same exact-real abstraction, so `CompressionBelowFull` holds for the exact quotient only.
- `rmtree` is all-or-nothing: it refuses when any entry below is locked, rather than deleting part of the subtree before raising.
- Logging, printing, the spinner threads, colours, banners, terminal clearing, the tkinter GUI and its worker thread, and `format_size`.
- The elapsed time in `show_completion`. `now` is only recorded as the start time.
- `get_user_input`, `sys.exit` and `KeyboardInterrupt`: `Pack` returns `false` where `main` exits with status 1.
