# Filesystem audit scanners, modelled in Dafny

The repository is a small command-line filesystem audit tool. Its core is three
scans over a directory tree:

- **File-type analysis.** `categorize_file` gives each file a category from the
  lower-cased suffix of its name. It looks the suffix up in the ordered table
  `CATEGORY_EXTENSIONS`, where the first row that lists it wins. When no row
  lists it, the file's execute permission chooses between `Executable` and
  `Other`. `analyze_file_types` walks the tree and keeps, per category, the
  number of files and their total size in bytes.
- **Large files.** `find_large_files` reports `(path, size)` for every file
  strictly larger than a threshold given in binary megabytes.
- **World-writable files.** `find_world_writable_files` reports the path of
  every file whose mode has the others-write bit (`S_IWOTH`, octal 0o002).

The filesystem is an input. A walk is the sequence of `(dirpath, filenames)`
listings that `os.walk` yields (`DirWalk.DirListing`). Each name carries what
`stat()` answers (`None` when it raises) and what `os.access(path, X_OK)`
answers. Each scan is a method that keeps the source's two nested loops. It is
proved equal to a specification function over the visited entries,
`Flatten(walk)`. Lemmas then prove what the source promises about those
functions.

Files:

- `walk.dfy`: the walk and the visited entries (module `DirWalk`).
- `file_utils.dfy`: the category table, the classifier and the per-category
  summary (module `FileUtils`).
- `large_files.dfy`: the size scan (module `LargeFiles`).
- `permissions.dfy`: the permission scan (module `Permissions`).
- `scenario.dfy`: the sample tree of `create_test_environment` and what each
  scan reports for it (module `Scenario`).

Where the code and its comments differ, the model follows the code.
`analyze_file_types` bumps a category's count (file_utils.py:72) before it
calls `stat()` (file_utils.py:73). So a file whose `stat()` raises is counted
with no bytes. It is not skipped entirely, as the comment at file_utils.py:76
suggests.

## Model

| member | source | states |
|---|---|---|
| FileUtils.LastIndexOf | file_utils.py:34 | the position of the last dot of a name, or -1 when the name has no dot; no dot follows that position |
| FileUtils.SuffixShape | file_utils.py:34 | a suffix is a dot plus at least one character that ends the name, has no other dot and is not the whole name; the suffix is empty exactly when the name has no dot, its only dot opens it, or it ends in a dot |
| FileUtils.ClassifyFirstListing | file_utils.py:37-39 | the first table row that lists the suffix decides the category, whatever later rows list |
| FileUtils.ClassifyUnlisted | file_utils.py:37-46 | a suffix that no row lists gives `Executable` when the file may be executed and `Other` otherwise |
| FileUtils.ClassifyListedIgnoresExecutable | file_utils.py:37-43 | a listed suffix gives the same category with or without execute permission, and that category is the key of the first row listing the suffix |
| FileUtils.OverlapsResolveInDeclarationOrder | file_utils.py:9-22 | suffixes listed in two rows resolve to the earlier row: `.csv` to Text, `.xls`, `.xlsx` and `.ods` to Document, `.tiff` to Image |
| FileUtils.SpreadsheetRowListedEarlier | file_utils.py:10-21 | every suffix of the Spreadsheet row is also listed under Text or Document |
| FileUtils.SpreadsheetNeverReturned | file_utils.py:9-22 | no file name and no execute permission ever gives the category Spreadsheet |
| FileUtils.ListedSuffixIgnoresExecutable | file_utils.py:37-43 | a file whose suffix the table lists gets the same category with or without execute permission, and that category is never Other |
| FileUtils.UnlistedSuffixFallsBack | file_utils.py:37-46 | a file is Other exactly when no row lists its suffix and it may not be executed; with no listing, Executable iff it may be executed |
| FileUtils.NoSuffixFallsBack | file_utils.py:34-46 | a name without a suffix gets Executable when the file may be executed and Other otherwise |
| FileUtils.CategorizeIgnoresCase | file_utils.py:34 | a name and its lower-cased form get the same category |
| FileUtils.SuffixOfLower | file_utils.py:34 | lower-casing a name lower-cases its suffix and does not move it |
| FileUtils.RecordFile | file_utils.py:69-73 | after one file the summary describes the visits so far plus this one: its category's count is up by one, and its bytes are up by its size only when `stat()` succeeds |
| FileUtils.RecordDirectory | file_utils.py:63-77 | after one listing the summary describes the visits so far plus every file of the listing, in order |
| FileUtils.AnalyzeFileTypes | file_utils.py:48-79 | the summary holds exactly the categories that have files; each holds its file count and the sizes of its files whose `stat()` succeeded; the counts add up to the number of visited files and the byte totals to their total size |
| FileUtils.SummaryIsDetermined | file_utils.py:59-79 | the visits of a scan determine its summary: two maps that both summarise them are equal |
| FileUtils.CountsSumToVisitedFiles | file_utils.py:62-73 | over all categories the counts add up to the number of visited files and the byte totals to the total size of the files whose `stat()` succeeded |
| FileUtils.ZeroCountZeroBytes | file_utils.py:72-73 | a category with no files has no bytes |
| FileUtils.CountBytesAppend | file_utils.py:62-73 | counts and byte totals add up over consecutive stretches of the walk |
| FileUtils.CountsNeverDecrease | file_utils.py:62-77 | no count and no byte total decreases as the scan goes on |
| FileUtils.FailedStatCountsButAddsNoBytes | file_utils.py:72-77 | a file whose `stat()` fails adds one to its category's count and no bytes, and the files after it are summarised as if it were absent |
| LargeFiles.LargeEntries | large_files.py:25-37 | the scan reports at most one pair per visited file, and every reported size is strictly above the threshold |
| LargeFiles.FindLargeFiles | large_files.py:6-43 | the scan returns the report of its specification for the walk at `threshold_mb * 1024 * 1024` bytes, and every reported size exceeds that threshold |
| LargeFiles.LargeSelection | large_files.py:25-37 | the report is a subsequence of the visited files in traversal order, one pair per file, each pair being that file's path and `stat()` size; every file whose `stat()` succeeds and whose size is above the threshold is reported |
| LargeFiles.LargeEntriesAppend | large_files.py:25-41 | the report over two stretches of the walk is the first stretch's report followed by the second's |
| LargeFiles.FailedStatSkipped | large_files.py:27-41 | a file whose `stat()` fails is left out, and the files around it are reported as before |
| LargeFiles.ThresholdIsStrict | large_files.py:19-37 | with `threshold_mb * 1048576` bytes as the threshold, a file of exactly that size is not reported and a file one byte larger is |
| LargeFiles.ZeroThresholdReportsNonEmptyFiles | large_files.py:19-37 | with threshold 0, every reported size is positive and every non-empty file whose `stat()` succeeds is reported |
| LargeFiles.NegativeThresholdReportsAll | large_files.py:19-37 | with a negative threshold, every file whose `stat()` succeeds is reported, in order |
| LargeFiles.EmptyWalkReportsNothing | large_files.py:22-43 | an empty walk gives an empty list |
| Permissions.BitAnd | permissions.py:31 | Python's `&` on non-negative integers, no larger than either operand |
| Permissions.BitAndBits | permissions.py:31 | each bit of `a & b` is set exactly when it is set in both `a` and `b` |
| Permissions.MaskKeepsOthersWriteBit | permissions.py:31 | `mode & S_IWOTH` is 2 when bit 1 of the mode is set and 0 otherwise |
| Permissions.WorldWritableIsOthersWriteBit | permissions.py:31 | a mode passes the test exactly when its others-write bit (bit 1) is set |
| Permissions.OtherBitsIrrelevant | permissions.py:31 | two modes with the same others-write bit pass or fail the test together, whatever their other bits |
| Permissions.PermissionExamples | permissions.py:31 | 0o777 and 0o100777 pass the test; 0o775 and 0o100644 do not |
| Permissions.FindWorldWritableFiles | permissions.py:7-38 | the scan returns, in traversal order, the paths its specification reports for the visited files: those whose `stat()` succeeds and whose mode has the others-write bit |
| Permissions.WritableSelection | permissions.py:21-32 | the report is a subsequence of the visited paths in traversal order, one path per file; a file is reported exactly when its `stat()` succeeds and its mode has the others-write bit |
| Permissions.WritablePathsAppend | permissions.py:21-36 | the report over two stretches of the walk is the first stretch's report followed by the second's |
| Permissions.FailedStatSkipped | permissions.py:23-36 | a file whose `stat()` fails is left out, and the files around it are reported as before |
| Permissions.EmptyWalkReportsNothing | permissions.py:18-38 | an empty walk gives an empty list |
| Scenario.TestWalkEntries | test_cases.py:4-27 | the sample tree is visited as `test_dir`'s four files in listing order, then `subdir/nested.py` |
| Scenario.TextCategory | test_cases.py:9-10 | `text1.txt` is a Text file |
| Scenario.ImageCategory | test_cases.py:13 | `image1.jpg` is an Image file |
| Scenario.ScriptCategory | test_cases.py:16-18 | `script.sh` is an Executable file, with or without execute permission, because `.sh` is listed under Executable |
| Scenario.ArchiveCategory | test_cases.py:21-22 | `bigfile.zip` is an Archive file |
| Scenario.CodeCategory | test_cases.py:25-27 | `nested.py` is a Code file |
| Scenario.OneMegabyteScan | test_cases.py:8-27 | with a 1 MB threshold, the scan reports the text file, the image and the archive, in traversal order, and not the 800,000-byte nested file |
| Scenario.WorldWritableScan | test_cases.py:15-18 | only the script made `chmod 0o777` is reported as world-writable |
| Scenario.FileTypeScan | test_cases.py:4-27 | the sample tree's summary has one file in each of Text, Image, Executable, Archive and Code, with that file's size |

## Left out

- The filesystem itself: `os.walk`, `Path.stat()` and `os.access` are I/O. The walk, the `stat()` results and the execute permission are inputs. A `stat()` that raises any exception is a missing `stat` value.
- The traversal order of `os.walk` and the order of names within a directory: the walk is given in the order the scans see it.
- Symbolic links: whether `stat()` follows them is decided by the filesystem, which is an input.
- `Path(dirpath) / file` is modelled as `dirpath + "/" + file`. pathlib's normalisation is not modelled. For example, a root of `/` gives `/name` in Python and `//name` here.
- `PurePath.suffix` follows its long-standing rule: no suffix for a name that starts with its only dot or that ends in a dot. Newer Python versions change the trailing-dot case, and that change is not modelled.
- `str.lower` is modelled for ASCII letters only. Unicode case mapping is not modelled.
- Category names are a Dafny datatype rather than the strings `'Text'`, `'Code'` and so on. The summary is a map from that datatype to a `(count, bytes)` pair rather than a `defaultdict` of two-element lists.
- Exception types inside the `except Exception` blocks are not modelled. `categorize_file` itself is modelled as never raising.
- analyzer.py (orchestration, printing and the float formatting of sizes in megabytes), cli.py (argument parsing) and the file-writing fixture code of test_cases.py are not part of this model. The fixture's tree appears only as the input of the sample scenario. Its sizes follow from the written contents, and its modes assume the usual `umask` of 0o022.
