/**
 * What the handlers observe of the plot tree. Filesystem calls are not made:
 * their results (`os.listdir` with `os.stat`/`isdir`, and `os.walk` with
 * `os.path.getmtime`) arrive as values. Timestamps are integers because only
 * their order matters.
 */
module FileSystem {
  import opened Wrappers
  import opened PathStrings

  /** `os.path.join('static', 'plots')`: the root that listings and folders are resolved against. */
  const PlotRoot: string := JoinPath("static", "plots")

  /** The same root as `plot_view` spells it when it walks the tree. */
  const WalkPrefix: string := "./static/plots/"

  /** The one file every rendered JSON chart is written to. */
  const RenderedName: string := "plot_from_json.html"

  /** A chart file: a name ending in `.html` or `.json`. */
  predicate IsPlotName(name: string) {
    EndsWith(name, ".html") || EndsWith(name, ".json")
  }

  /** The inode status-change (`st_ctime`, not a creation time on POSIX) and modification (`st_mtime`) times of one entry. */
  datatype Times = Times(ctime: int, mtime: int)

  /** One name from `os.listdir`; `stat` is `None` when the entry vanished before it could be stat'ed. */
  datatype Child = Child(name: string, isDir: bool, stat: Option<Times>)

  /** What is found at a path: nothing, a non-directory, or a directory with its children in `os.listdir` order. */
  datatype Folder = Missing | NotADirectory | Directory(children: seq<Child>)

  /** A file seen by `os.walk`; `mtime` is `None` when it vanished before `os.path.getmtime`. */
  datatype WalkFile = WalkFile(name: string, mtime: Option<int>)

  /** One `(root, dirs, files)` triple of `os.walk`. */
  datatype WalkDir = WalkDir(root: string, files: seq<WalkFile>)

  /**
   * How a request ends without a page: `NotFound` is the listing's 404; the
   * others are exceptions `plot_view` does not catch (`NotADirectoryError` from
   * `os.listdir`, `FileNotFoundError` from the sort key, `StopIteration` from `next`).
   */
  datatype Failure = NotFound | NotADirectoryError | VanishedDuringSort | StopIteration
}
