# Disk usage visualizer — a Dafny model

The tool walks a directory tree, records one row per entry (path, size,
kind), and draws two charts: a horizontal bar chart of every row, largest
first, and a pie chart of how many files carry each extension. This project
models the logic under the drawing: the walk and its size sums over an
abstract filesystem tree, the extension extraction and counting, the size
ordering of the bars, and the decision sequence of a run. Each part is a pure
function, and lemmas prove what the scanner and the charts promise.

Files, one module each:

- `options.dfy` (`Options`): the optional value used for swallowed failures.
- `file_tree.dfy` (`FileTree`): the filesystem as a tree `Node` whose nodes
  carry the answers to the queries the scanner makes (`isfile`, `getsize`,
  listing), plus POSIX `os.path.join` and lookup of an entry by its names.
- `scan.dfy` (`Scan`): `collect_data` as `Collect`, with the per-directory
  sum `DirSize` and the per-entry `RecordOf`.
- `scan_lemmas.dfy` (`ScanLemmas`): which entries get a record, what each
  record holds, and why no path repeats.
- `extension.dfy` (`Extension`): the extension regex, both as a declarative
  "text after the last dot" function and as a model of `re.search` itself.
- `sequences.dfy` (`Sequences`): filter-and-map over sequences and its
  permutation lemma.
- `distribution.dfy` (`Distribution`): the per-extension counts of the pie
  chart.
- `bar_chart.dfy` (`BarChart`): the largest-first ordering of the bar chart.
- `visualizer.dfy` (`Visualizer`): `visualize_directory_usage` as a function
  returning the exit status and the charts drawn.

Modelling decisions:

- Sizes are whole bytes. The source divides each by 1024 * 1024. That is a
  power of two, so the division is exact for any realistic file size and
  keeps the order of sizes. The charts' ordering and the sums are therefore
  the same in bytes.
- A file node records two answers: `regular`, what `os.path.isfile` says,
  and `ok`, whether `os.path.getsize` returns. A directory node records
  whether it can be listed. The tree is a fixed oracle: every query about a
  path gets the same answer during one scan.
- The directory size sums only entries that `isfile` accepts. An entry that
  `isfile` rejects, such as a broken link or a special file, is skipped
  silently. The directory's record is dropped in two cases: the directory
  cannot be listed, or `getsize` raises on a file that `isfile` accepted.
  In the second case the same failure also drops that file's own record.
  Both calls stat the same path, so the second case needs the file to change
  between them. The model keeps it anyway, as an over-approximation of a
  fixed tree; every lemma about all trees also covers it.
  A child that `isfile` rejects never drops the parent's record. This
  includes a child whose `stat` fails, such as a broken link: it is skipped.
- An entry whose `is_dir` raises inside the walk is caught there and listed
  under `files`. A `File` node that `isfile` rejects and whose size cannot
  be read stands for it.
- Records are emitted only for the entries listed under the walked
  directories. The walk root never gets a record of its own. A directory
  that cannot be listed gets no record, and the walk does not enter it.
- The extension is taken from the whole path. A dot in a directory name
  therefore counts when the file name has none: `d.x/README` yields
  `x/README`. The model keeps this behaviour.

## Model

| member | source | states |
|---|---|---|
| Scan.SumFiles | disk_usage_visualizer_tool.py:16-20 | The generator sum fails exactly when some regular child's size cannot be read. Otherwise it is the declarative total of the immediate regular files. |
| Scan.DirSize | disk_usage_visualizer_tool.py:15-23 | A sub-directory's size is computed exactly when it can be listed and every regular child's size is readable. The size is then the total of its immediate regular files only. |
| ScanLemmas.NestedContentsIgnored | disk_usage_visualizer_tool.py:16-19 | Swapping a sub-directory for any other directory leaves the parent's size, and whether it is computed at all, unchanged. Nested files never count. |
| ScanLemmas.FiveMegabyteExample | disk_usage_visualizer_tool.py:16-21 | A directory with a 2 MiB file, a 3 MiB file and a sub-directory is reported at 5 MiB. |
| Scan.RecordOf | disk_usage_visualizer_tool.py:15-32 | The two `try` blocks, in terms of the tree. A file gets a record exactly when its size can be read. A sub-directory gets one exactly when it can be listed and no regular child's size fails. The record carries the joined path and the entry's kind. Its size is the file's size, or the total of the sub-directory's immediate regular files. |
| FileTree.Join | disk_usage_visualizer_tool.py:14-19 | POSIX `os.path.join`, used at lines 14, 17, 19 and 27. `Sep` keeps an empty directory or one ending in `/` as it is, and otherwise appends exactly one `/`. For a listed name (non-empty, no `/`) the result is `Sep` of the directory followed by the name, so it strictly extends the directory. |
| ScanLemmas.WalkOrder | disk_usage_visualizer_tool.py:11-30 | `Collect`'s order. A walk step on a listable directory reports its sub-directories' records first, then its files' records, and only then anything deeper. Every deeper record lies inside one of its sub-directories. |
| ScanLemmas.UnlistableNeverEntered | disk_usage_visualizer_tool.py:11 | The walk does not enter a directory it cannot list. No entry is reached below one, so by `CollectSound` no record comes from inside it. |
| ScanLemmas.CollectComplete | disk_usage_visualizer_tool.py:11-32 | Every entry the walk lists whose own `try` block succeeds has its record in the output. |
| ScanLemmas.CollectSound | disk_usage_visualizer_tool.py:11-32 | Every record belongs to an entry listed under a walked directory, never the root. It holds that entry's joined path, and either its file size or its directory sum. |
| ScanLemmas.CollectUnder | disk_usage_visualizer_tool.py:13-27 | Every record's path lies strictly inside the root: the root's joined prefix followed by at least one more character. |
| ScanLemmas.RootNeverRecorded | disk_usage_visualizer_tool.py:11-14 | No record carries the root's own path. |
| ScanLemmas.CollectUnique | disk_usage_visualizer_tool.py:11-30 | No two records share a path. Each listed directory and file yields at most one record. |
| Extension.ExtensionOf | disk_usage_visualizer_tool.py:56 | There is an extension exactly when the path has a dot and does not end in one. The extension is non-empty, dot-free, and is what follows the final dot. |
| Extension.ExtensionOfSplit | disk_usage_visualizer_tool.py:56 | Conversely, any non-empty dot-free text after a dot at the end of the path is its extension. |
| Extension.ExtensionOfLastComponent | disk_usage_visualizer_tool.py:55-56 | When the last component has a dot, the leading directories do not affect the result. |
| Extension.ExtensionThroughDirectory | disk_usage_visualizer_tool.py:55-56 | When the file name has no dot, the result runs from the last dot of the directory part through the separator and the file name. |
| Extension.DottedDirectoryExample | disk_usage_visualizer_tool.py:56 | `d.x/README` yields `x/README`. |
| Extension.SearchExtension | disk_usage_visualizer_tool.py:56 | Python's leftmost, greedy, backtracking search for `\.([^.]+)$` finds a match exactly when one exists. It returns the leftmost, longest one, which equals the after-the-last-dot extension. |
| Distribution.ValueCounts | disk_usage_visualizer_tool.py:57 | Every value that occurs gets a key and no other value does. Each count equals the value's multiplicity and is positive. |
| Distribution.FileExtensionsCount | disk_usage_visualizer_tool.py:53-56 | `ExtensionCell` and `FileExtensions`, the filtered and extracted column. Each extension occurs in it exactly as often as there are `File` rows whose path has that extension. |
| Distribution.TypeCountsAreFileCounts | disk_usage_visualizer_tool.py:53-57 | `TypeCounts`, the pie's input. A slice exists exactly for the extensions some `File` row has. Each slice counts exactly the `File` rows with that extension and is positive. |
| Distribution.TypeCountsTotal | disk_usage_visualizer_tool.py:53-57 | The counts add up to the number of `File` rows whose path has an extension. |
| Distribution.TypeCountsIgnoreOrder | disk_usage_visualizer_tool.py:53-57 | Reordering the rows leaves every count unchanged. |
| Distribution.DirectoryRowsIgnored | disk_usage_visualizer_tool.py:53 | Adding a `Directory` row anywhere changes no count. |
| Distribution.ExampleCounts | disk_usage_visualizer_tool.py:53-57 | For any five rows: two files whose paths share one extension (as `x.txt`, `y.txt`), one file with another extension (as `z.md`), one file with no `.` in its path (as `README`) and one directory row. The counts are 2 and 1, and the last two rows add nothing. |
| BarChart.SortBySizeDescending | disk_usage_visualizer_tool.py:39 | The bar rows are a permutation of the records, and no row is larger than any row above it. |
| BarChart.SortedBarsDetermined | disk_usage_visualizer_tool.py:39-42 | Any two largest-first orderings of the same rows draw the same bar lengths in the same order. Only the labels of equal-sized rows can trade places. |
| Visualizer.Visualize | disk_usage_visualizer_tool.py:68-87 | A non-directory exits with status 1 before any scan. An empty scan exits with status 1 before any chart. Otherwise the bar chart of all records, largest first, is drawn before the pie chart, the pie counts equal those of the bar chart's rows, and the status is 0. |
| Visualizer.ChartsIffSomeEntryReported | disk_usage_visualizer_tool.py:75-79 | Charts are drawn exactly when some entry listed by the walk has a successful `try` block. |
| Visualizer.DirectoryCheck | disk_usage_visualizer_tool.py:70-79 | `IsDirectory`, i.e. `Path(directory).is_dir()`. It accepts any directory, listable or not, and rejects files and missing paths. A directory that cannot be listed is scanned, yields no record, and ends with status 1 and no chart. |
| Visualizer.EmptyDirectoryExample | disk_usage_visualizer_tool.py:77-79 | An existing empty directory exits with status 1 and no chart. |
| Visualizer.RegularFileExample | disk_usage_visualizer_tool.py:70-72 | A regular file given as the target exits with status 1 without a scan. |

## Left out

- Drawing, lines 41-48 and 60-65: figure sizes, colours, axis labels, the inverted y axis, percentage labels and `show`. Only the data each chart is given is modelled.
- The order of the pie slices: `value_counts` sorts by count, but the model's counts are a map.
- The pandas DataFrame, line 34: rows are a sequence of `Record`.
- The megabyte conversion, lines 20 and 29: sizes stay in bytes (see above).
- Symbolic links: a link to a directory is listed with the sub-directories but not entered, and the model has no links.
- Races between `listdir`, `isfile`, `getsize` and the walk: the tree is a fixed oracle. The one race kept is a file accepted by `isfile` whose `getsize` then raises (see above). A failure of the walk's own listing is modelled; the walk's other internals are not.
- Command-line handling and messages, lines 71-98: only exit statuses are modelled, and the missing-argument check at lines 92-95 is not modelled.
- BarChart.SortBySizeDescending: orders rows of equal size one fixed way, while the unstable sort may order them differently. SortedBarsDetermined shows that the sizes drawn do not depend on that choice.
