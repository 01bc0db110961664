# plots_viewer navigation core, in Dafny

plots_viewer is a small Flask application that lets a user browse a tree of
pre-generated chart files (`.html` exports and `.json` chart descriptions)
under `static/plots` and step through them. This project models the logic
inside its two page handlers in `app.py`, lifted out of the framework and
the filesystem:

- **the listing page** (`index`): the folders and chart files directly inside
  a folder. Vanished entries are skipped. The rows are ordered by inode
  status-change time (`st_ctime`), oldest first, with a stable sort. The page also carries the link to
  the folder one level up. The model is in `listing.dfy`.
- **the chart view page** (`plot_view`): it splits the requested path into
  folder and file name. It finds the previous and next chart in the same
  folder by modification time. It finds the previous and next copy of the
  same-named chart elsewhere in the chart's run group, which is the folder
  with its last two segments dropped. It shows a `.json` chart under the
  fixed rendered name `plot_from_json.html`. The model is in
  `plot_view.dfy` and `navigation.dfy`.

Supporting modules:

- `paths.dfy` models the POSIX `/`-string behaviour the handlers rely on:
  `os.path.join`, `dirname`, `basename`, `rstrip("/")`, `split("/")` with
  `"/".join`, `replace` and the substring `in`.
- `sorting.dfy` models Python's stable `sort`/`sorted` with an integer key. It
  proves the result is ordered, is a permutation, and keeps the input order
  among equal keys. It also proves that these three facts determine the
  result.
- `filesystem.dfy` holds the observed filesystem: directory contents, stat
  results and walk results. It also holds the constants and the ways a
  request can fail.
- `wrappers.dfy` holds `Option` and `Result`.

The filesystem is an input. `Index` takes `listDir: string -> Folder`, the
result of `os.listdir`/`os.stat`/`isdir` at a path. `PlotView` also takes
`walkTree: string -> seq<WalkDir>`, the result of `os.walk` together with
`os.path.getmtime`.

A child whose stat failed carries `stat == None`. Timestamps are integers.

Where the code differs from its own comments or from what its `except`
clauses seem to expect, the model follows the code:

- the sorts are ascending (oldest first): both pass `reverse=False`
  (app.py:37 and app.py:66), although the comments above them (app.py:36 and
  app.py:65) say newest first;
- a cross-folder lookup with no match makes `next(...)` at app.py:92 raise
  `StopIteration`, which the `except ValueError` at app.py:93 does not catch,
  so it is an error page and not "no neighbour";
- `os.listdir` on a path that is a file raises `NotADirectoryError`, which
  the `except FileNotFoundError` at app.py:67 does not catch;
- the link text at app.py:116-117 removes every occurrence of
  `./static/plots/`, not only the leading one.

## Model

| member | source | states |
|---|---|---|
| `Listing.CollectEntries` | app.py:20-34 | the loop's entries are exactly `Listed(relPath, children)`: children in `os.listdir` order, skipping a vanished one (`continue`) and keeping folders and `.html`/`.json` files |
| `Listing.ListedExactly` | app.py:25-34 | a row is listed iff some child was stat'ed and is a directory or a chart file, and the row carries that child's kind, name, joined path and ctime |
| `Listing.ListedKinds` | app.py:31-34 | every row is a folder or a file named `*.html`/`*.json`, and its path is the folder path joined with its name |
| `Listing.ListedAppend` | app.py:21-34 | listing is a homomorphism over concatenation of children, so rows keep the `os.listdir` order |
| `Listing.ParentPath` | app.py:39 | the parent is none exactly when the path is empty; otherwise it is a strictly shorter prefix of the path |
| `Listing.ParentHasFewerSegments` | app.py:39 | for a path that names something, the parent has fewer non-empty `/`-segments than the path |
| `Listing.ParentOfChildFolder` | app.py:23-39 | the parent link on a sub-folder's page leads back to the folder that listed it |
| `Listing.Index` | app.py:13-41 | 404 unless the resolved path is a directory; otherwise the rows are sorted non-decreasing by time, are a permutation of the listed children, keep `os.listdir` order among equal times, and carry the current path and its parent |
| `StableSort.SortBy` | app.py:37 | the sort's result (also at app.py:66 and app.py:89) is non-decreasing by key and a permutation of its input |
| `StableSort.SortByStable` | app.py:37 | for every key value, the elements with that key appear in input order |
| `StableSort.StableSortUnique` | app.py:66 | two lists ordered by key that agree per key on their elements in order are equal, so any stable sort gives the same list |
| `Navigation.Names` | app.py:66 | `[f for f, _ in ...]`: same length, and the i-th name is the i-th entry's name |
| `Navigation.IndexOrMinusOne` | app.py:71-74 | -1 exactly when absent; otherwise the position of the first occurrence |
| `Navigation.Adjacent` | app.py:76-77 | there is a previous element iff the index is positive and a next one iff the index is neither -1 nor last; they are the elements on either side of the index |
| `Navigation.SameFolderNeighbours` | app.py:76-77 | there is a previous name iff the current name is listed and not first, and a next name iff its first occurrence is not last; both are taken next to that first occurrence |
| `Navigation.SameFolderNeighboursOrdered` | app.py:66-77 | in a list sorted by mtime, time(previous) <= time(current) <= time(next) |
| `Navigation.ThreeChartsExample` | app.py:70-77 | for `[a, b, c]`: `b` has `a`/`c`, `a` has none/`b`, `c` has `b`/none, and a missing name has none/none |
| `Navigation.FirstContaining` | app.py:91-94 | none exactly when no path contains the folder as a substring (the `StopIteration` case); otherwise the first index whose path contains it |
| `Navigation.CrossFolderNeighbours` | app.py:91-97 | fails iff no path contains the folder; otherwise there is a previous path iff the first path does not contain the folder, and a next path iff a path follows the match, each adjacent to the match |
| `Navigation.CrossFolderNeighboursOrdered` | app.py:89-97 | the cross-folder neighbours keep the mtime order around the matched path |
| `PathStrings.RStripSeps` | app.py:39 | `rstrip("/")`: the result is a prefix, does not end in `/`, and only `/` was removed |
| `PathStrings.Basename` | app.py:51 | `basename` has no `/` and is a suffix of the path |
| `PathStrings.Dirname` | app.py:49 | `dirname` is a prefix of the head (the path up to and including its last `/`) that is followed in the head only by `/`; it does not end in `/` unless it is all `/`, and a head made only of `/` is kept whole |
| `PathStrings.DirnameDetermined` | app.py:49 | any string with all of `Dirname`'s facts is the dirname, so those facts determine `os.path.dirname` |
| `PathStrings.SplitShape` | app.py:49-51 | the basename is the longest `/`-free suffix, and only `/` lies between dirname and basename |
| `PathStrings.JoinPathSplits` | app.py:49-51 | `dirname`/`basename` of `join(dir, name)` give back `dir` and `name` |
| `PathStrings.JoinPath` | app.py:22-23 | `os.path.join`: an absolute second part is the result; otherwise the result starts with the first part and ends with the second, with exactly one `/` inserted between them when the first part is non-empty and does not already end in `/`, and none otherwise |
| `PathStrings.ReplaceBackslashes` | app.py:23 | every backslash becomes `/`, every other character is unchanged, and the length is kept |
| `PathStrings.Split` | app.py:79 | `split("/")` gives at least one segment, none containing `/` |
| `PathStrings.JoinSplit` | app.py:79 | `"/".join(s.split("/")) == s` |
| `PathStrings.SplitJoin` | app.py:79 | splitting a join of `/`-free segments gives the segments back |
| `PathStrings.DropLastTwoSegmentsShape` | app.py:79 | the run-group path is empty for at most two segments; otherwise the folder is that path plus its last two segments, and it splits into the remaining segments |
| `PathStrings.PrefixedRunGroup` | app.py:79-82 | the walked root starts with the prefix; it is the prefix alone for a folder of at most two segments, and otherwise appending the folder's last two segments gives the prefix followed by the folder |
| `PathStrings.ContainsAt` | app.py:92 | an occurrence at any position makes Python's `in` true |
| `PathStrings.ContainsPosition` | app.py:92 | conversely, when `in` is true there is a position where the pattern occurs |
| `PathStrings.RemoveAll` | app.py:116-117 | `replace` with `""` never lengthens the string, leaves a string that does not contain the pattern unchanged, and makes a string that does contain it shorter by at least the pattern's length |
| `PathStrings.RemoveAllFirst` | app.py:116-117 | at the first occurrence of the pattern, everything before it is kept, the occurrence is dropped, and removal goes on in what follows it; with `RemoveAll`'s unchanged case this is the search-based definition of `str.replace` |
| `PathStrings.RemoveAllLeading` | app.py:116-117 | a leading pattern followed by a pattern-free rest becomes the rest |
| `PlotView.SameFolderOrder` | app.py:53-68 | a missing folder gives the empty list (the `except FileNotFoundError`), a folder that is a file fails with `NotADirectoryError`, and a directory gives its chart names sorted by mtime (`SortBy`), one per chart whose `getmtime` succeeded |
| `PlotView.SameFolderOrderNames` | app.py:55-66 | a name is in a directory's same-folder order exactly when a child has that chart name and its `getmtime` succeeded |
| `PlotView.CollectPlotFiles` | app.py:55-63 | the loop's list is exactly `PlotFiles(children)`: chart names with their mtime, in `os.listdir` order |
| `PlotView.PlotFilesExactly` | app.py:56-63 | an entry is kept iff the child's name ends in `.html`/`.json` and its `getmtime` succeeded; the entry carries that name and mtime |
| `PlotView.SearchRoot` | app.py:79-82 | the directory walked starts with `./static/plots/`; it is that root alone for a folder of at most two segments, and otherwise it plus the folder's last two segments is the folder's own path under the root |
| `PlotView.CollectCandidates` | app.py:81-86 | the nested loop's list is exactly `Candidates(walk, current)`, in walk order |
| `PlotView.CandidatesExactly` | app.py:81-86 | a candidate is present iff some walked directory holds a file named exactly `current`; its path is `join(root, name)` |
| `PlotView.CandidateBasename` | app.py:84-85 | every candidate's basename is the current file name |
| `PlotView.Stamped` | app.py:89 | the sort keys fail iff some candidate vanished; otherwise each path is paired with its own mtime, in order |
| `PlotView.CrossFolderOrder` | app.py:89 | the sort by `getmtime` fails exactly when a candidate vanished (`Stamped`); otherwise it gives the candidates' paths sorted by mtime (`SortBy`), one per candidate |
| `PlotView.CandidateInOrder` | app.py:89 | every candidate's path is among the sorted paths |
| `PlotView.WalkedChartIsFound` | app.py:81-94 | a chart that the walk sees in its own folder under the plot root never leads to `StopIteration` |
| `PlotView.DisplayName` | app.py:99-108 | a `.json` request is shown as `plot_from_json.html`, which always differs from the request; any other request is shown unchanged |
| `PlotView.PlotView` | app.py:48-118 | the modelled failures, checked in this order: the folder is a file, a same-named file vanished before the sort, no match (`StopIteration`); in every other case the page is produced, with the shown name, the parent, the same-folder links joined to the original folder, and the cross-folder links with the root removed, all four from the original folder and file name |
| `PlotView.LinkIn` | app.py:114-115 | a link exists iff the neighbour exists and is non-empty; it is the neighbour itself when absolute, and otherwise starts with the folder and ends with the neighbour |
| `PlotView.Unrooted` | app.py:116-117 | a link text exists iff the path exists and is non-empty; it is never longer than the path, and a path without `./static/plots/` is shown unchanged |
| `PlotView.SameFolderLinksPresent` | app.py:114-115 | a same-folder neighbour is never empty, so a link exists exactly when the neighbour does |
| `PlotView.MissingFolderHasNoNeighbours` | app.py:67-68 | a missing folder gives an empty sorted list and no same-folder neighbours |
| `PlotView.UnrootedStripsRoot` | app.py:116-117 | a path of the form `./static/plots/` + rel, with no other occurrence of the root, is shown as rel |
| `PlotView.UnrootedRemovesInnerPrefix` | app.py:116-117 | an inner occurrence of `./static/plots/`, for example under a folder named `x.`, is removed as well |
| `PlotView.TwoRunsFromOlder` | app.py:91-97 | with `run1/snap.json` older than `run2/snap.json`, from `run1` the next copy is `run2`'s and there is no previous one |
| `PlotView.TwoRunsFromNewer` | app.py:91-97 | from `run2` the previous copy is `run1`'s and there is no next one |
| `PlotView.UnrootedShortRest` | app.py:116-117 | the root followed by a non-empty rest shorter than the root is shown as that rest (such a rest cannot hold the root again) |
| `PlotView.TwoRunsLinks` | app.py:116-117 | those two paths are shown as `run1/snap.json` and `run2/snap.json` |
| `PlotView.SubstringMatchExample` | app.py:92 | the folder test is a substring test: `g/run1` matches an older `g/run10` path first, and the chart's own copy is then offered as its next one |

## Left out

- Flask routing, `request.args`, `render_template`, `abort` and `send_from_directory`, including the raw file route `plot`: this is framework plumbing. The 404 is the `NotFound` failure. The template values are the `Page` and `View` records.
- The filesystem calls themselves (`os.listdir`, `os.stat`, `isdir`, `os.path.getmtime`, `os.walk`): their results are inputs. The model does not check that the walk agrees with the directory listings. It does not model an entry that vanishes between `isdir` and `os.listdir` in `index`. Errors other than the ones named (for example `PermissionError`) are not modelled.
- Reading and parsing the JSON chart, rendering it with Plotly, and writing `plot_from_json.html`: this is a foreign library plus I/O. Only the substitution of the shown name is kept, so a malformed chart's error is not modelled.
- The `FileNotFoundError` that `open` at app.py:100 raises when the requested `.json` file does not exist: reading a file is I/O that the model does not observe. The case is reachable: a request for `a.json` at the top level, where only `run1/a.json` exists, passes the folder test at app.py:92 because the empty folder name occurs in every path. `PlotView` then returns a page where the handler fails.
- The race on the shared `plot_from_json.html` between concurrent requests: this is concurrency.
- Floating-point `st_ctime`/`st_mtime`: only their order matters, so they are integers.
- The Timsort algorithm behind `list.sort`: the sort is modelled by its result. `StableSortUnique` shows that every stable sort gives that result.
- Windows path rules and `os.path.join` with more than two arguments: the code uses only the two-argument POSIX behaviour.
- Path sanitisation: the code performs none and neither does the model, so `JoinPath` lets an absolute or `..` path leave the plot root.
- `Listing.ParentHasFewerSegments`: it counts non-empty `/`-segments and requires a path containing a character other than `/`. Python's own `split("/")` count is not smaller for `"a"`, whose parent `""` also splits into one segment. A path made only of `/` has the parent `""` with zero segments on both sides.
