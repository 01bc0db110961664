/**
 * The chart view page (`plot_view` in app.py): the folder and file name of the
 * requested chart, its neighbours in the same folder by modification time,
 * its neighbours among the same-named charts of the surrounding run group,
 * and the name under which the chart is served.
 */
module PlotView {
  import opened Wrappers
  import opened PathStrings
  import opened StableSort
  import opened FileSystem
  import opened Navigation

  // ----- same folder -----

  /** The chart files of a folder with their modification times, in `os.listdir` order; vanished ones are skipped. */
  function PlotFiles(children: seq<Child>): seq<Timed>
  {
    if children == [] then []
    else
      var last := children[|children| - 1];
      PlotFiles(children[..|children| - 1])
        + (if IsPlotName(last.name) && last.stat.Some? then [Timed(last.name, last.stat.value.mtime)] else [])
  }

  /** The loop that builds `files_with_time`. */
  method CollectPlotFiles(children: seq<Child>) returns (files: seq<Timed>)
    ensures files == PlotFiles(children)
  {
    files := [];
    for i := 0 to |children|
      invariant files == PlotFiles(children[..i])
    {
      var f := children[i];
      assert children[..i + 1][..i] == children[..i];
      if IsPlotName(f.name) {
        if f.stat.None? {
          continue;
        }
        var mtime := f.stat.value.mtime;
        files := files + [Timed(f.name, mtime)];
      }
    }
    assert children[..|children|] == children;
  }

  /** The chart files kept for the same-folder list are exactly the chart names whose `getmtime` succeeded. */
  lemma {:induction false} PlotFilesExactly(children: seq<Child>, t: Timed)
    ensures t in PlotFiles(children) <==>
      exists i | 0 <= i < |children| :: IsPlotName(children[i].name) && children[i].stat.Some?
        && t == Timed(children[i].name, children[i].stat.value.mtime)
    decreases |children|
  {
    if children != [] {
      var n := |children|;
      PlotFilesExactly(children[..n - 1], t);
      assert forall i | 0 <= i < n - 1 :: children[..n - 1][i] == children[i];
    }
  }

  /**
   * `sorted_files`: the folder's chart names, oldest first; an empty list for a
   * missing folder; a `NotADirectoryError` failure when the folder is a file.
   */
  function SameFolderOrder(folder: Folder): (r: Result<seq<string>, Failure>)
    ensures r.Err? <==> folder.NotADirectory?
    ensures r.Err? ==> r.error == NotADirectoryError
    ensures folder.Missing? ==> r == Ok([])
    ensures folder.Directory? ==> r == Ok(Names(SortBy(PlotFiles(folder.children), TimeOf)))
    ensures folder.Directory? ==> |r.value| == |PlotFiles(folder.children)|
  {
    match folder
    case Missing => Ok([])
    case NotADirectory => Err(NotADirectoryError)
    case Directory(children) =>
      var sorted := SortBy(PlotFiles(children), TimeOf);
      assert |sorted| == |multiset(sorted)|;
      Ok(Names(sorted))
  }

  // ----- across folders -----

  /** A file found by the walk, by full path, with the time `getmtime` reports for it. */
  datatype Candidate = Candidate(path: string, mtime: Option<int>)

  /** The two segments above the chart's folder are dropped to reach its run group, which is walked. */
  function SearchRoot(parentFolder: string): (root: string)
    ensures StartsWith(root, WalkPrefix)
    ensures |Split(parentFolder)| <= 2 ==> root == WalkPrefix
    ensures var segs := Split(parentFolder); var n := |segs|;
      n > 2 ==> WalkPrefix + parentFolder == root + [Sep] + segs[n - 2] + [Sep] + segs[n - 1]
  {
    PrefixedRunGroup(WalkPrefix, parentFolder);
    WalkPrefix + DropLastTwoSegments(parentFolder)
  }

  /** The files named `current` in one directory of the walk, in order. */
  function DirCandidates(root: string, files: seq<WalkFile>, current: string): seq<Candidate>
  {
    if files == [] then []
    else
      var last := files[|files| - 1];
      DirCandidates(root, files[..|files| - 1], current)
        + (if last.name == current then [Candidate(JoinPath(root, last.name), last.mtime)] else [])
  }

  /** The files named `current` anywhere in the walk, in walk order. */
  function Candidates(walk: seq<WalkDir>, current: string): seq<Candidate>
  {
    if walk == [] then []
    else
      var last := walk[|walk| - 1];
      Candidates(walk[..|walk| - 1], current) + DirCandidates(last.root, last.files, current)
  }

  /** The nested loop that builds `all_files`. */
  method CollectCandidates(walk: seq<WalkDir>, current: string) returns (allFiles: seq<Candidate>)
    ensures allFiles == Candidates(walk, current)
  {
    allFiles := [];
    for i := 0 to |walk|
      invariant allFiles == Candidates(walk[..i], current)
    {
      var d := walk[i];
      assert walk[..i + 1][..i] == walk[..i];
      ghost var before := allFiles;
      for j := 0 to |d.files|
        invariant allFiles == before + DirCandidates(d.root, d.files[..j], current)
      {
        var file := d.files[j];
        assert d.files[..j + 1][..j] == d.files[..j];
        if file.name == current {
          var fullPath := JoinPath(d.root, file.name);
          allFiles := allFiles + [Candidate(fullPath, file.mtime)];
        }
      }
      assert d.files[..|d.files|] == d.files;
    }
    assert walk[..|walk|] == walk;
  }

  lemma {:induction false} DirCandidatesExactly(root: string, files: seq<WalkFile>, current: string, c: Candidate)
    ensures c in DirCandidates(root, files, current) <==>
      exists f | f in files :: f.name == current && c == Candidate(JoinPath(root, f.name), f.mtime)
    decreases |files|
  {
    if files != [] {
      var n := |files|;
      DirCandidatesExactly(root, files[..n - 1], current, c);
      assert files == files[..n - 1] + [files[n - 1]];
    }
  }

  /** The candidates are exactly the walked files whose name is the current file's name. */
  lemma {:induction false} CandidatesExactly(walk: seq<WalkDir>, current: string, c: Candidate)
    ensures c in Candidates(walk, current) <==>
      exists d, f | d in walk && f in d.files :: f.name == current && c == Candidate(JoinPath(d.root, f.name), f.mtime)
    decreases |walk|
  {
    if walk != [] {
      var n := |walk|;
      var last := walk[n - 1];
      CandidatesExactly(walk[..n - 1], current, c);
      DirCandidatesExactly(last.root, last.files, current, c);
      assert walk == walk[..n - 1] + [last];
    }
  }

  /** `os.path.basename(os.path.join(a, b))` is `b` for a `b` without separators. */
  lemma BasenameOfJoin(a: string, b: string)
    requires Sep !in b
    ensures Basename(JoinPath(a, b)) == b
  {
    assert b != [] ==> b[0] in b;
    if a == [] || a[|a| - 1] == Sep {
      assert JoinPath(a, b) == a + b;
      forall j | |a| <= j < |a + b| ensures (a + b)[j] != Sep {
        assert (a + b)[j] == b[j - |a|];
      }
      SplitPointUnique(a + b, |a|);
      assert (a + b)[|a|..] == b;
    } else {
      assert JoinPath(a, b) == a + [Sep] + b;
      SplitPointOfJoin(a, b);
      assert (a + [Sep] + b)[|a| + 1..] == b;
    }
  }

  /** Every candidate's path has the current file name as its basename. */
  lemma CandidateBasename(walk: seq<WalkDir>, current: string, c: Candidate)
    requires Sep !in current && c in Candidates(walk, current)
    ensures Basename(c.path) == current
  {
    CandidatesExactly(walk, current, c);
    var d, f :| d in walk && f in d.files && f.name == current && c == Candidate(JoinPath(d.root, f.name), f.mtime);
    BasenameOfJoin(d.root, f.name);
  }

  /**
   * The keys of `all_files.sort(key=os.path.getmtime)`: `None` when some
   * candidate vanished, which makes the sort raise; otherwise every path with its time.
   */
  function Stamped(cands: seq<Candidate>): (r: Option<seq<Timed>>)
    ensures r.None? <==> exists i | 0 <= i < |cands| :: cands[i].mtime.None?
    ensures r.Some? ==> |r.value| == |cands|
    ensures r.Some? ==> forall i | 0 <= i < |cands| :: r.value[i] == Timed(cands[i].path, cands[i].mtime.value)
  {
    if cands == [] then Some([])
    else match (cands[0].mtime, Stamped(cands[1..]))
      case (Some(t), Some(rest)) =>
        assert forall i | 1 <= i < |cands| :: cands[1..][i - 1] == cands[i];
        Some([Timed(cands[0].path, t)] + rest)
      case (None, _) => None
      case (_, None) =>
        assert forall i | 0 <= i < |cands| - 1 :: cands[1..][i] == cands[i + 1];
        None
  }

  /** The same-named files of the run group as full paths, oldest first, or the failure the sort raises. */
  function CrossFolderOrder(walk: seq<WalkDir>, current: string): (r: Result<seq<string>, Failure>)
    ensures r.Err? <==> Stamped(Candidates(walk, current)).None?
    ensures r.Err? ==> r.error == VanishedDuringSort
    ensures r.Ok? ==> r.value == Names(SortBy(Stamped(Candidates(walk, current)).value, TimeOf))
    ensures r.Ok? ==> |r.value| == |Candidates(walk, current)|
  {
    var stamped := Stamped(Candidates(walk, current));
    if stamped.None? then Err(VanishedDuringSort)
    else
      var sorted := SortBy(stamped.value, TimeOf);
      assert |sorted| == |multiset(sorted)|;
      Ok(Names(sorted))
  }

  // ----- the page -----

  /** What the chart view template receives. */
  datatype View = View(
    filename: string, parent: string,
    prevPath: Option<string>, nextPath: Option<string>,
    samePrev: Option<string>, sameNext: Option<string>)

  /** `os.path.join(parent, name) if name else None`. */
  function LinkIn(parent: string, name: Option<string>): (link: Option<string>)
    ensures link.Some? <==> name.Some? && name.value != []
    ensures link.Some? && name.value[0] != Sep ==> StartsWith(link.value, parent) && EndsWith(link.value, name.value)
    ensures link.Some? && name.value[0] == Sep ==> link.value == name.value
  {
    if name.Some? && name.value != [] then Some(JoinPath(parent, name.value)) else None
  }

  /** `path.replace("./static/plots/", "") if path else None`. */
  function Unrooted(path: Option<string>): (shown: Option<string>)
    ensures shown.Some? <==> path.Some? && path.value != []
    ensures shown.Some? ==> |shown.value| <= |path.value|
    ensures shown.Some? && !Contains(path.value, WalkPrefix) ==> shown.value == path.value
  {
    if path.Some? && path.value != [] then Some(RemoveAll(path.value, WalkPrefix)) else None
  }

  /** The name shown for the requested chart: a JSON chart is shown as the file it was rendered to. */
  function DisplayName(filename: string): (shown: string)
    ensures EndsWith(filename, ".json") ==> shown == RenderedName && shown != filename
    ensures !EndsWith(filename, ".json") ==> shown == filename
  {
    if EndsWith(filename, ".json") then
      assert RenderedName[|RenderedName| - 5..] != ".json";
      RenderedName
    else filename
  }

  /**
   * The chart view handler. It fails when the folder is a file, when a
   * same-named file vanishes before the sort reads its time, and when no
   * same-named file lies in a path containing the folder. Otherwise the page
   * shows the requested name (the rendered file for a JSON chart), while all
   * four links are computed from the requested folder and file name: the
   * same-folder ones joined to the folder, the cross-folder ones with the
   * plot-root prefix removed.
   */
  method PlotView(filename: string, listDir: string -> Folder, walkTree: string -> seq<WalkDir>)
    returns (r: Result<View, Failure>)
    ensures var parent := Dirname(filename);
      var same := SameFolderOrder(listDir(JoinPath(PlotRoot, parent)));
      var cross := CrossFolderOrder(walkTree(SearchRoot(parent)), Basename(filename));
      && (same.Err? ==> r == Err(same.error))
      && (same.Ok? && cross.Err? ==> r == Err(cross.error))
      && (same.Ok? && cross.Ok? && CrossFolderNeighbours(cross.value, parent).None? ==> r == Err(StopIteration))
      && (same.Ok? && cross.Ok? && CrossFolderNeighbours(cross.value, parent).Some? ==>
            var n := SameFolderNeighbours(same.value, Basename(filename));
            var m := CrossFolderNeighbours(cross.value, parent).value;
            r == Ok(View(DisplayName(filename), parent, LinkIn(parent, n.prev), LinkIn(parent, n.next),
                         Unrooted(m.prev), Unrooted(m.next))))
  {
    var parentFolder := Dirname(filename);
    var absFolder := JoinPath(PlotRoot, parentFolder);
    var currentFile := Basename(filename);

    var sortedFiles: seq<string>;
    match listDir(absFolder) {
      case Missing =>
        sortedFiles := [];
      case NotADirectory =>
        return Err(NotADirectoryError);
      case Directory(children) =>
        var filesWithTime := CollectPlotFiles(children);
        sortedFiles := Names(SortBy(filesWithTime, TimeOf));
    }
    var same := SameFolderNeighbours(sortedFiles, currentFile);

    var allFiles := CollectCandidates(walkTree(SearchRoot(parentFolder)), currentFile);
    var stamped := Stamped(allFiles);
    if stamped.None? {
      return Err(VanishedDuringSort);
    }
    var sortedPaths := Names(SortBy(stamped.value, TimeOf));
    var cross := CrossFolderNeighbours(sortedPaths, parentFolder);
    if cross.None? {
      return Err(StopIteration);
    }

    var shown := DisplayName(filename);
    r := Ok(View(shown, parentFolder, LinkIn(parentFolder, same.prev), LinkIn(parentFolder, same.next),
                 Unrooted(cross.value.prev), Unrooted(cross.value.next)));
  }

  // ----- properties of the page -----

  /** A same-folder neighbour is a chart name, never empty, so it always produces a link. */
  lemma SameFolderLinksPresent(children: seq<Child>, current: string, parent: string)
    ensures var n := SameFolderNeighbours(Names(SortBy(PlotFiles(children), TimeOf)), current);
      && (LinkIn(parent, n.prev).Some? <==> n.prev.Some?)
      && (LinkIn(parent, n.next).Some? <==> n.next.Some?)
  {
    var ts := SortBy(PlotFiles(children), TimeOf);
    forall i | 0 <= i < |ts| ensures Names(ts)[i] != [] {
      assert ts[i] in multiset(PlotFiles(children));
      PlotFilesExactly(children, ts[i]);
    }
  }

  /** A folder that is not there has no same-folder neighbours. */
  /**
   * A name is in the same-folder order of a directory exactly when one of its
   * children has that chart name and `getmtime` succeeded on it.
   */
  lemma SameFolderOrderNames(children: seq<Child>, name: string)
    ensures name in SameFolderOrder(Directory(children)).value <==>
      exists i | 0 <= i < |children| :: children[i].name == name && IsPlotName(name) && children[i].stat.Some?
  {
    var files := PlotFiles(children);
    var sorted := SortBy(files, TimeOf);
    var names := SameFolderOrder(Directory(children)).value;
    if name in names {
      var j :| 0 <= j < |names| && names[j] == name;
      assert sorted[j] in multiset(files);
      PlotFilesExactly(children, sorted[j]);
    }
    if exists i | 0 <= i < |children| :: children[i].name == name && IsPlotName(name) && children[i].stat.Some? {
      var i :| 0 <= i < |children| && children[i].name == name && IsPlotName(name) && children[i].stat.Some?;
      var t := Timed(name, children[i].stat.value.mtime);
      PlotFilesExactly(children, t);
      assert t in multiset(sorted);
      var j :| 0 <= j < |sorted| && sorted[j] == t;
      assert names[j] == name;
    }
  }

  lemma MissingFolderHasNoNeighbours(current: string)
    ensures SameFolderOrder(Missing) == Ok([])
    ensures SameFolderNeighbours([], current) == Neighbours(None, None)
  {
  }

  /**
   * A cross-folder neighbour of the form plot root + `rel`, where `rel` does not
   * repeat the plot-root prefix, is shown as `rel`.
   */
  lemma UnrootedStripsRoot(rel: string)
    requires !Contains(rel, WalkPrefix)
    ensures Unrooted(Some(WalkPrefix + rel)) == Some(rel)
  {
    RemoveAllLeading(WalkPrefix, rel);
  }

  /** A candidate's path is among the sorted paths when none of the candidates vanished. */
  lemma CandidateInOrder(cands: seq<Candidate>, k: nat)
    requires k < |cands| && Stamped(cands).Some?
    ensures cands[k].path in Names(SortBy(Stamped(cands).value, TimeOf))
  {
    var ts := Stamped(cands).value;
    assert ts[k].name == cands[k].path;
    var sorted := SortBy(ts, TimeOf);
    assert ts[k] in multiset(sorted);
    assert ts[k] in sorted;
    var j :| 0 <= j < |sorted| && sorted[j] == ts[k];
    assert Names(sorted)[j] == cands[k].path;
  }

  /**
   * A chart that the walk finds in its own folder, directly under the plot
   * root, is among the candidates with a path containing the folder, so the
   * cross-folder lookup does not raise `StopIteration`.
   */
  lemma WalkedChartIsFound(walk: seq<WalkDir>, parentFolder: string, current: string, t: int)
    requires Sep !in current
    requires exists d | d in walk :: d.root == WalkPrefix + parentFolder && WalkFile(current, Some(t)) in d.files
    requires CrossFolderOrder(walk, current).Ok?
    ensures CrossFolderNeighbours(CrossFolderOrder(walk, current).value, parentFolder).Some?
  {
    var d :| d in walk && d.root == WalkPrefix + parentFolder && WalkFile(current, Some(t)) in d.files;
    var c := Candidate(JoinPath(d.root, current), Some(t));
    CandidatesExactly(walk, current, c);
    var cands := Candidates(walk, current);
    var k :| 0 <= k < |cands| && cands[k] == c;
    CandidateInOrder(cands, k);
    PathWithinFolder(parentFolder, current);
  }

  /** The path of a file in a folder directly under the plot root contains the folder. */
  lemma PathWithinFolder(parentFolder: string, name: string)
    requires Sep !in name
    ensures Contains(JoinPath(WalkPrefix + parentFolder, name), parentFolder)
  {
    var root := WalkPrefix + parentFolder;
    var path := JoinPath(root, name);
    assert name != [] ==> name[0] in name;
    assert StartsWith(path, root);
    assert path[|WalkPrefix|..|WalkPrefix| + |parentFolder|] == root[|WalkPrefix|..];
    ContainsAt(path, parentFolder, |WalkPrefix|);
  }

  /**
   * Two runs of a group, `run1` older than `run2`, each holding `snap.json`.
   * From `run1` the next chart is `run2`'s and there is no previous one.
   */
  lemma TwoRunsFromOlder()
    ensures var paths := ["./static/plots/run1/snap.json", "./static/plots/run2/snap.json"];
      CrossFolderNeighbours(paths, "run1") == Some(Neighbours(None, Some(paths[1])))
  {
    var p1 := "./static/plots/run1/snap.json";
    assert p1[15..19] == "run1";
    ContainsAt(p1, "run1", 15);
  }

  /** From `run2` the previous chart is `run1`'s and there is no next one. */
  lemma TwoRunsFromNewer()
    ensures var paths := ["./static/plots/run1/snap.json", "./static/plots/run2/snap.json"];
      CrossFolderNeighbours(paths, "run2") == Some(Neighbours(Some(paths[0]), None))
  {
    var p1, p2 := "./static/plots/run1/snap.json", "./static/plots/run2/snap.json";
    assert p2[15..19] == "run2";
    ContainsAt(p2, "run2", 15);
    assert '2' !in p1;
    NotContainsChar(p1, "run2", '2');
  }

  /** The two walked paths, `./static/plots/run1/snap.json` and `./static/plots/run2/snap.json`, are shown relative to the plot root. */
  lemma TwoRunsLinks()
    ensures Unrooted(Some(WalkPrefix + "run1/snap.json")) == Some("run1/snap.json")
    ensures Unrooted(Some(WalkPrefix + "run2/snap.json")) == Some("run2/snap.json")
  {
    UnrootedShortRest(WalkPrefix + "run1/snap.json", "run1/snap.json");
    UnrootedShortRest(WalkPrefix + "run2/snap.json", "run2/snap.json");
  }

  /** A path that is the plot root followed by a rest too short to hold the root again is shown as that rest. */
  lemma UnrootedShortRest(path: string, rel: string)
    requires rel != [] && |rel| < |WalkPrefix| && path == WalkPrefix + rel
    ensures Unrooted(Some(path)) == Some(rel)
  {
    ShortNotContains(rel, WalkPrefix);
    UnrootedStripsRoot(rel);
  }

  /**
   * The folder test is a substring test: a chart in `g/run1` also matches the
   * path of `g/run10`, so when `run10`'s copy is older the lookup settles on it
   * and offers the chart's own copy as the next one.
   */
  lemma SubstringMatchExample()
    ensures var paths := ["./static/plots/g/run10/snap.json", "./static/plots/g/run1/snap.json"];
      CrossFolderNeighbours(paths, "g/run1") == Some(Neighbours(None, Some(paths[1])))
  {
    var p := "./static/plots/g/run10/snap.json";
    assert p[15..21] == "g/run1";
    ContainsAt(p, "g/run1", 15);
  }

  /**
   * Every occurrence of the plot-root prefix is removed, not just the leading
   * one: a folder named `c.` (`c` one character) holding `static/plots/`
   * makes the path spell the prefix a second time, and the link text loses
   * that inner occurrence too, so `./static/plots/x./static/plots/f.html`
   * is shown as `xf.html`.
   */
  lemma UnrootedRemovesInnerPrefix(c: char, rest: string)
    requires c != '.' && !Contains(rest, WalkPrefix)
    ensures Unrooted(Some(WalkPrefix + [c] + WalkPrefix + rest)) == Some([c] + rest)
  {
    RemoveAllPrefix(WalkPrefix, rest);
    RemoveAllKeep(c, WalkPrefix + rest, WalkPrefix);
    assert WalkPrefix + [c] + WalkPrefix + rest == WalkPrefix + ([c] + (WalkPrefix + rest));
    RemoveAllPrefix(WalkPrefix, [c] + (WalkPrefix + rest));
  }
}
