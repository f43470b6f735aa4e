# Downloads cleaner, modelled in Dafny

This project models the file organiser `downloads_cleaner.py`. The organiser sorts the regular files
directly inside a downloads directory into one sub-folder per category, chosen by extension.

The model covers five parts of that script:

- the `FILE_CATEGORIES` table and `get_category`: the lower-cased last suffix, first match in table
  order, and `"Other"` as the fallback;
- the scan of `organize_downloads`: it skips directories, hidden names, files younger than
  `--age` and files outside `--categories`, groups the rest by category in insertion order, and
  sums their sizes;
- the choice of a free destination `<category>/<name>`, or `<stem>_<k><suffix>` with the
  smallest free k;
- the move loop: `mkdir(exist_ok=True)` per category, then one `shutil.move` per file, with the
  moved and error counters;
- the argument checks of `main` that run before the organiser (category names, non-negative age).

Modules, one file each:

- `PathNames` (`pathnames.dfy`): pathlib's `stem`/`suffix` split, `str(k)`, and the
  collision names.
- `Categories` (`categories.dfy`): the table and `get_category`.
- `Files` (`files.dfy`): the filesystem. It is a map from absolute paths (lists of components) to
  entries, each a regular file with a size and an age in days, or a directory. A
  `FileSystem` class holds it, and its `MakeDir` and `Move` methods are the only operations that
  change it.
- `Scanner` (`scanner.dfy`): the scan loop, the method `Scan`, specified by the functions
  `KeptNames`, `GroupByCategory` and `TotalSize`.
- `Mover` (`mover.dfy`): the two nested move loops and the `while dest_path.exists()` loop, as
  module-level methods that take the `FileSystem` and change it through its `MakeDir` and
  `Move`. Each is specified by a function of the tree: `Destination`, `MoveFiles`,
  `MoveGroups`.
- `Cleaner` (`cleaner.dfy`): the whole of `organize_downloads` as the method
  `OrganizeDownloads`, specified by the function `Organize`, and `main`'s checks as
  `ValidateArgs` and `Run`. The theorems about a whole run are here:
  - whether the run finishes or is aborted, no entry present at the start is overwritten
    or lost: every kept file is either still where it was, unchanged, or at a place of its
    own that no other file shares;
  - in a finished run, every kept file whose move the system does not refuse lands in its
    category's folder;
  - the counters add up, and the errors are exactly the refused moves;
  - the only new paths are category folders and files inside them;
  - after a finished run with no errors, a rerun finds nothing more to do.

Everything the source takes from outside is a parameter:

- the order in which `iterdir()` lists the directory (`order`, constrained to list every entry
  once);
- each file's age in whole days (a field of the entry);
- the set of names whose move the operating system refuses (`failing`).

Creating a category folder can stop the whole run. `category_dir.mkdir(exist_ok=True)`
(downloads_cleaner.py:121) raises `FileExistsError` when a regular file already has the
category's name. The call sits outside the per-file `try` (lines 135-141), so the error ends
the run; the model's outcome is `Aborted`. In the model, `Cleaner.OrganizeAborted` proves
this is the only way a run is cut short. The file that blocks the folder must be present from
the start and carry the name of a category that some kept file falls into. A file literally named `Other`
with no extension is such a file when it is kept itself. In the source, any other `OSError`
from that `mkdir` ends the run too; the model leaves those failures out (see "## Left out").

## Model

| member | source | states |
|---|---|---|
| PathNames.StemSuffixSplit | downloads_cleaner/downloads_cleaner.py:128-129 | `stem + suffix` gives back the file name. The suffix is "" exactly when pathlib sees none; otherwise it is a dot followed by dot-free characters. |
| PathNames.SuffixOfJoin | downloads_cleaner/downloads_cleaner.py:128-132 | A non-empty stem joined to a well-formed extension splits back into exactly that stem and that extension. |
| PathNames.Decimal | downloads_cleaner/downloads_cleaner.py:132 | `str(counter)` is a non-empty string of decimal digits with no leading zero. |
| PathNames.DecimalRoundTrip | downloads_cleaner/downloads_cleaner.py:132 | Reading the decimal rendering of a counter back gives that counter. |
| PathNames.CandidateInjective | downloads_cleaner/downloads_cleaner.py:130-133 | Two different counters give two different `<stem>_<k><suffix>` names, so the search never retries a name. |
| PathNames.CandidateKeepsSuffix | downloads_cleaner/downloads_cleaner.py:128-132 | For a name with a suffix, the counter goes before the last suffix: the renamed file keeps its extension, and its stem is the old stem followed by `_<k>`. |
| PathNames.LastDotAppend | downloads_cleaner/downloads_cleaner.py:128-132 | Appending dot-free text to a name leaves its last dot where it was. |
| PathNames.CandidateWithoutSuffix | downloads_cleaner/downloads_cleaner.py:128-132 | A name without a suffix is renamed to `<name>_<k>`. The result has no suffix either, except when the name's last dot is its last character and not its first ("notes."); then it gains the suffix `._<k>`. |
| Categories.Lower | downloads_cleaner/downloads_cleaner.py:30 | Lower-casing keeps the length and lowers each character: A-Z to a-z, and the KELVIN SIGN to `k`. |
| Categories.KelvinSignFolds | downloads_cleaner/downloads_cleaner.py:30-33 | "clip.m\u212Av", whose suffix lowers to ".mkv", is a video. |
| Categories.ClassifyFirstMatch | downloads_cleaner/downloads_cleaner.py:31-33 | The first row, in table order, that lists the extension decides the category, whatever later rows list. |
| Categories.ClassifyNoMatch | downloads_cleaner/downloads_cleaner.py:34 | When no row lists the extension, the result is "Other". |
| Categories.ClassifyTotal | downloads_cleaner/downloads_cleaner.py:31-34 | The result is either a row that lists the extension or "Other". When no row is named "Other", it is "Other" exactly when no row lists the extension. |
| Categories.OtherIsNoRow | downloads_cleaner/downloads_cleaner.py:16-26 | "Other" is not a key of `FILE_CATEGORIES`. |
| Categories.NoEmptyExtension | downloads_cleaner/downloads_cleaner.py:16-26 | No row lists the empty suffix. |
| Categories.ListedOnce | downloads_cleaner/downloads_cleaner.py:16-26 | No extension is listed by two rows of `FILE_CATEGORIES`. |
| Categories.ListedSuffixClassified | downloads_cleaner/downloads_cleaner.py:28-34 | A name whose lower-cased suffix a row lists gets that row's category. |
| Categories.GetCategoryTotal | downloads_cleaner/downloads_cleaner.py:28-34 | `get_category` always returns a name `main` accepts, and returns "Other" exactly when no row lists the lower-cased suffix. |
| Categories.NoSuffixIsOther | downloads_cleaner/downloads_cleaner.py:30-34 | A name with no suffix (no dot, a leading dot only, or a trailing dot) is "Other". |
| Categories.SuffixCaseIgnored | downloads_cleaner/downloads_cleaner.py:30 | Two names with the same stem whose extensions differ only in letter case get the same category. |
| Categories.NoUnderscoreExtension | downloads_cleaner/downloads_cleaner.py:16-26 | No row lists an extension whose second character is `_`. |
| Categories.CandidateKeepsCategory | downloads_cleaner/downloads_cleaner.py:28-34 | Every file renamed with a counter keeps its category, with or without a suffix. A trailing-dot name gains the suffix `._<k>`, which no row lists, so it stays "Other". |
| Files.MakeDirFrame | downloads_cleaner/downloads_cleaner.py:121 | `mkdir(exist_ok=True)` changes no existing entry and adds at most the new directory. It succeeds exactly when the path is a directory afterwards. |
| Files.MoveFrame | downloads_cleaner/downloads_cleaner.py:136 | A move to a free destination leaves every other entry unchanged. On success the source is gone, the destination holds its entry, and the entry count is the same. On failure nothing changes. |
| Files.FileSystem.MakeDir | downloads_cleaner/downloads_cleaner.py:121 | The new tree and the success flag are those of `mkdir(exist_ok=True)`: a no-op on a directory, a failure on a file or a missing parent, a new directory otherwise. |
| Files.FileSystem.Move | downloads_cleaner/downloads_cleaner.py:136 | The new tree and the success flag are those of a rename, which fails when the source is missing or the system refuses it. |
| Scanner.Scan | downloads_cleaner/downloads_cleaner.py:63-82 | The loop builds exactly the category grouping of the kept names and the sum of their sizes. |
| Scanner.KeptNamesStep | downloads_cleaner/downloads_cleaner.py:66-82 | One more listed entry extends the kept names exactly when it passes the filter. The grouping gains it under its category, and the total gains its size. |
| Scanner.GroupByFilesOf | downloads_cleaner/downloads_cleaner.py:75-81 | The list of category c holds exactly the kept names of category c, in iteration order. |
| Scanner.GroupByKeysDistinct | downloads_cleaner/downloads_cleaner.py:63-81 | The grouping has no repeated key. |
| Scanner.GroupByKeys | downloads_cleaner/downloads_cleaner.py:63-81 | A category is a key exactly when some kept name belongs to it. |
| Scanner.GroupByFlatten | downloads_cleaner/downloads_cleaner.py:81 | The lists together hold the kept names, each as often as it was kept. |
| Scanner.KeptNamesMember | downloads_cleaner/downloads_cleaner.py:66-79 | A name is kept exactly when it is listed and passes the filter. |
| Scanner.ScanMembership | downloads_cleaner/downloads_cleaner.py:66-81 | A name is in the list of category c exactly when it is all of: a listed regular file, not hidden, old enough, allowed, and of category c. |
| Scanner.OfCategoryMember | downloads_cleaner/downloads_cleaner.py:75-81 | A name is among the names of category c exactly when it is one of the names and `get_category` gives c. |
| Scanner.AllowListRespected | downloads_cleaner/downloads_cleaner.py:77-79 | With a non-empty `categories` list, every key of `files_by_category` is on it. |
| Scanner.NoDirectoryOrHiddenGrouped | downloads_cleaner/downloads_cleaner.py:66-69 | No directory and no name beginning with "." is ever grouped. |
| Scanner.AgeThreshold | downloads_cleaner/downloads_cleaner.py:72-73 | With a positive threshold a kept file is at least that old, and a file exactly that old is not dropped for its age. With a threshold of 0 or less, no file is dropped for its age. |
| Scanner.FileCount | downloads_cleaner/downloads_cleaner.py:93 | `total_files` equals the number of kept files. |
| Mover.CandidatesOccupy | downloads_cleaner/downloads_cleaner.py:131-133 | While the first k candidates are all taken, at least k paths exist, so the search ends. |
| Mover.FirstFreeCounter | downloads_cleaner/downloads_cleaner.py:130-133 | The counter found is free, and every smaller counter from 1 is taken. |
| Mover.Destination | downloads_cleaner/downloads_cleaner.py:124-133 | The destination is free, and it lies directly in the category folder. It is `<category>/<name>` when that is free; otherwise it is `<stem>_<k><suffix>` with every smaller k taken. |
| Mover.DestinationSmallest | downloads_cleaner/downloads_cleaner.py:130-133 | The chosen counter is no larger than any free counter. |
| Mover.ResolveDestination | downloads_cleaner/downloads_cleaner.py:124-133 | The `while dest_path.exists()` loop ends on exactly that smallest free destination. |
| Mover.MoveGroupFiles | downloads_cleaner/downloads_cleaner.py:123-141 | The inner loop leaves the tree and the counters that `MoveFiles` specifies. |
| Mover.MoveAllGroups | downloads_cleaner/downloads_cleaner.py:114-141 | The outer loop leaves what `MoveGroups` specifies: finished with the tree and counters, or stopped at the category whose `mkdir` failed. |
| Mover.MoveOneFrame | downloads_cleaner/downloads_cleaner.py:124-141 | One file adds one to exactly one counter and leaves the other as it was. It is moved exactly when it exists and is not refused. Nothing else changes, and its new path lies in its category folder. |
| Mover.MoveFilesCounts | downloads_cleaner/downloads_cleaner.py:123-141 | Each file of a category is attempted once: moved plus errors grows by the number of files. |
| Mover.MoveFilesKeeps | downloads_cleaner/downloads_cleaner.py:123-141 | A refused source and every unrelated entry stay in place, unchanged. |
| Mover.MoveFilesGone | downloads_cleaner/downloads_cleaner.py:135-138 | A file whose move is not refused has left the downloads directory. |
| Mover.MoveFilesNew | downloads_cleaner/downloads_cleaner.py:124-136 | Every new path lies directly inside the category folder. |
| Mover.MoveFilesExact | downloads_cleaner/downloads_cleaner.py:135-141 | With distinct existing sources, the errors are exactly the refused names. |
| Mover.MoveGroupsStopsForGood | downloads_cleaner/downloads_cleaner.py:118-121 | Once a `mkdir` error has stopped the loop, later categories change nothing. |
| Mover.MoveGroupsCounts | downloads_cleaner/downloads_cleaner.py:114-141 | In a finished run every grouped file adds one to exactly one of the two counters. |
| Mover.MoveCategoryStep | downloads_cleaner/downloads_cleaner.py:118-141 | One category after a good `mkdir`: unrelated entries are kept, moved sources are gone, and new paths are the folder or lie inside it. |
| Mover.MoveGroupsKeeps | downloads_cleaner/downloads_cleaner.py:114-141 | Finished or stopped, every entry except a moved source is still in place, unchanged. `MoveGroupsPlaces` adds that every moved file lands on a path that was free at the start. |
| Mover.MoveGroupsNew | downloads_cleaner/downloads_cleaner.py:118-136 | Every new path is a folder of a grouped category directly inside the downloads directory, or lies directly inside one. |
| Mover.MoveGroupsGone | downloads_cleaner/downloads_cleaner.py:118-138 | After a finished run, a grouped file whose move was not refused is no longer a file in the downloads directory. |
| Mover.MoveGroupsExact | downloads_cleaner/downloads_cleaner.py:114-141 | With distinct existing sources, a finished run counts exactly the refused moves as errors. |
| Mover.DestinationShape | downloads_cleaner/downloads_cleaner.py:124-133 | The destination lies directly in the category folder, under the file's own name or a `<stem>_<k><suffix>` variant of it. |
| Mover.PlacesHoldGrow | downloads_cleaner/downloads_cleaner.py:121 | A step that keeps every existing entry, such as `mkdir`, keeps every file at its place. |
| Mover.PlaceMove | downloads_cleaner/downloads_cleaner.py:135-138 | A move to a path that is free, and was free at the start, keeps every earlier file at its place. On success the file sits at its new place, with its entry, and that place is no other file's. |
| Mover.PlacedSnoc | downloads_cleaner/downloads_cleaner.py:123-138 | Recording one more move keeps the earlier places and puts the new file in its category folder. |
| Mover.MoveFilesPlacedNames | downloads_cleaner/downloads_cleaner.py:123-138 | The inner loop places exactly its files whose move is not refused, each directly in the category folder under its name or a numbered variant, and keeps the earlier places. |
| Mover.MoveFilesPlaces | downloads_cleaner/downloads_cleaner.py:123-138 | After the inner loop every placed file holds, at a place that was free at the start, the entry it started with, and no two files share a place. |
| Mover.PlaceCategory | downloads_cleaner/downloads_cleaner.py:118-138 | After a good `mkdir` and one category's moves, every file of the grouping so far is placed in its category folder, and no place is shared. |
| Mover.MoveGroupsPlaces | downloads_cleaner/downloads_cleaner.py:114-138 | Finished or stopped, every file the run moved holds the entry it started with, at a place that was free at the start and that no other file shares. After a finished run, every grouped file not refused is in its category folder. |
| Mover.MoveGroupsUnplaced | downloads_cleaner/downloads_cleaner.py:114-141 | Finished or stopped, a file in the downloads directory that the run did not move is still there, unchanged. |
| Mover.StoppedOnFile | downloads_cleaner/downloads_cleaner.py:120-121 | With the downloads directory intact, the model's `mkdir` fails only where a file present from the start stands. |
| Mover.MoveGroupsStopped | downloads_cleaner/downloads_cleaner.py:118-121 | In the model, the loop stops only at a grouped category whose name is that of a regular file present from the start. |
| Cleaner.OrganizeDownloads | downloads_cleaner/downloads_cleaner.py:52-146 | The method's outcome and final tree are `Organize`'s: the directory checks, the scan, the empty and dry-run exits, and the move loop. |
| Cleaner.KeptDistinct | downloads_cleaner/downloads_cleaner.py:66-81 | Since `iterdir` names each entry once, no file is kept twice. |
| Cleaner.GroupedNames | downloads_cleaner/downloads_cleaner.py:66-81 | The grouping holds exactly the kept names, each once. |
| Cleaner.OrganizeReadOnly | downloads_cleaner/downloads_cleaner.py:54-112 | A missing directory, a non-directory, an empty grouping and a dry run leave the filesystem unchanged. |
| Cleaner.OrganizeNothing | downloads_cleaner/downloads_cleaner.py:84-86 | For an existing directory, "No files to organize" happens exactly when no listed entry passes the filter. |
| Cleaner.OrganizeCounts | downloads_cleaner/downloads_cleaner.py:114-146 | In a finished run, moved plus errors is the number of kept files, and the errors are exactly the kept files the system refused to move. |
| Cleaner.OrganizeKeeps | downloads_cleaner/downloads_cleaner.py:114-141 | Every entry except a kept, non-refused file's source is still in place, with its size and age. |
| Cleaner.OrganizeNothingLost | downloads_cleaner/downloads_cleaner.py:114-141 | Finished or aborted, each kept file is either still in the downloads directory, unchanged, or at the place the run moved it to, with its size and age. That place was free at the start, so nothing was overwritten, and no two files share a place. |
| Cleaner.OrganizeLands | downloads_cleaner/downloads_cleaner.py:118-138 | In a finished run, every kept file not refused is in the folder named by `get_category`, with its size and age, under its own name or a numbered variant. Distinct files are at distinct places. |
| Cleaner.OrganizeMovedOut | downloads_cleaner/downloads_cleaner.py:118-138 | In a finished run, no kept file not refused is left in the downloads directory. |
| Cleaner.OrganizeNewPaths | downloads_cleaner/downloads_cleaner.py:118-136 | The only new paths are folders, each named after the category of some kept file, and entries directly inside them. |
| Cleaner.OrganizeAborted | downloads_cleaner/downloads_cleaner.py:118-121 | In the model, a run is cut short only by a regular file present from the start whose name is the category of some kept file. |
| Cleaner.NotKeptAgain | downloads_cleaner/downloads_cleaner.py:66-79 | After a run with no refused move, no entry of the new tree passes the filter again. |
| Cleaner.OrganizeIdempotent | downloads_cleaner/downloads_cleaner.py:52-146 | With the same filters and ages, a second run after a finished run with no errors finds nothing to organize. |
| Cleaner.InvalidCategories | downloads_cleaner/downloads_cleaner.py:211 | The invalid names are exactly the given names that are neither a table key nor "Other". |
| Cleaner.ValidateArgs | downloads_cleaner/downloads_cleaner.py:209-220 | The arguments pass exactly when every category is valid and the age is non-negative. Invalid names are reported first, all of them. The age error comes only when every name is valid. |
| Cleaner.Run | downloads_cleaner/downloads_cleaner.py:209-228 | Rejected arguments leave the filesystem untouched. Otherwise the outcome and the tree are those of `organize_downloads` with the given filters. |

## Left out

- `keep_awake.py` is not part of this model. It is a loop over pointer-control calls and sleeps.
- Report printing is not modelled: the MB figures (float division and `:.1f`/`:.2f`), the
  sorted per-category summary, the dry-run listing, and the ✓/✗ lines. A dry run returns the
  grouping and the total size instead.
- `argparse`, `--list-categories`, help text, exit codes, and the `KeyboardInterrupt` and
  top-level `except` handlers are left out. The model returns the outcomes instead: `NotFound`,
  `NotADirectory`, `Aborted`, `Rejected`.
- `get_file_age_days` is not modelled. Each file's age in whole days is part of its entry, and
  both runs in `OrganizeIdempotent` read the same ages.
- The listing order of `iterdir()` is a parameter, and so is the set of names the operating
  system refuses to move. The kind of OS error is not modelled.
- The internals of `shutil.move` are not modelled: copying across volumes, and moving a
  directory. A move is a rename.
- `expanduser`, symbolic links, case-insensitive filesystems and `stat` errors are left out.
- Files.MakeDirResult: `mkdir` fails only for the two reasons modelled: a file at the path, or
  a missing parent. pathlib's `mkdir(exist_ok=True)` re-raises every other `OSError` (for
  example `PermissionError` on a downloads directory that is not writable, a read-only
  filesystem, a full disk). Line 121 is outside the per-file `try`, so in the source such an
  error also ends the run, after earlier categories have moved. The model's runs are never
  cut short that way.
- Cleaner.OrganizeAborted: holds only for the model's two `mkdir` failures. In the source, a
  run can also abort on any other `OSError` from `mkdir`, with no file in the way.
- Mover.MoveOne: a move counts as moved exactly when the rename happens. In the source, the
  ✓ `print` at line 137 runs inside the `try` after `shutil.move`. If that print raises (a
  `UnicodeEncodeError` for a name that is not valid Unicode, a `BrokenPipeError` on a closed
  stdout), the file has moved but `error_count` goes up. Printing is not modelled, and file
  names are sequences of Unicode characters, so such names cannot occur in the model.
- Cleaner.OrganizeCounts: "the errors are exactly the refused moves" holds only when every ✓
  line prints; a failed print after a move adds an error for a file that has moved.
- Categories.Lower: lowers A-Z and the KELVIN SIGN (U+212A, which lowers to `k`). Python's
  `str.lower()` also lowers other non-ASCII letters, for example `É` to `é`, and it turns
  U+0130 into `i` followed by U+0307. Each of those results still holds a non-ASCII
  character, and every extension in the table is ASCII. So the model classifies every name
  as the source does.
- PathNames.Suffix: follows pathlib up to Python 3.13, where a leading or trailing last dot
  starts no suffix.
- Mover.MoveGroupsPlaces: names where each file lands only up to its counter, since the counter
  depends on what the loop has moved before it.
  `Mover.DestinationSmallest` states the counter for a single move.
- The model follows the source's move order, the insertion order of `files_by_category`.
  It does not model the sorted order of the printed report.
