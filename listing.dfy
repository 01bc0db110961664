/**
 * The listing page (`index` in app.py): the folders and chart files directly
 * inside a folder of the plot tree, oldest first, and the link to the folder
 * one level up.
 */
module Listing {
  import opened Wrappers
  import opened PathStrings
  import opened StableSort
  import opened FileSystem

  datatype Kind = FolderKind | FileKind

  /** One row of the listing: its kind, name, path relative to the plot root, and status-change time (`st_ctime`). */
  datatype Entry = Entry(kind: Kind, name: string, path: string, time: int)

  /** What the listing template receives. */
  datatype Page = Page(entries: seq<Entry>, current: string, parent: Option<string>)

  function EntryTime(e: Entry): int { e.time }

  /** The relative path of a child: joined to the folder's path, with backslashes turned into `/`. */
  function EntryPath(relPath: string, name: string): string {
    ReplaceBackslashes(JoinPath(relPath, name))
  }

  /** A child is listed when its stat succeeded and it is a directory or a chart file. */
  predicate IsListed(c: Child) {
    c.stat.Some? && (c.isDir || IsPlotName(c.name))
  }

  /** The row for a listed child. */
  function EntryFor(relPath: string, c: Child): Entry
    requires c.stat.Some?
  {
    Entry(if c.isDir then FolderKind else FileKind, c.name, EntryPath(relPath, c.name), c.stat.value.ctime)
  }

  /** The rows for `children`, in `os.listdir` order, before sorting. */
  function Listed(relPath: string, children: seq<Child>): seq<Entry>
  {
    if children == [] then []
    else
      var last := children[|children| - 1];
      Listed(relPath, children[..|children| - 1]) + (if IsListed(last) then [EntryFor(relPath, last)] else [])
  }

  /** The loop of `index`: stat each child, skip it when it vanished, keep folders and chart files. */
  method CollectEntries(relPath: string, children: seq<Child>) returns (entries: seq<Entry>)
    ensures entries == Listed(relPath, children)
  {
    entries := [];
    for i := 0 to |children|
      invariant entries == Listed(relPath, children[..i])
    {
      var c := children[i];
      assert children[..i + 1][..i] == children[..i];
      if c.stat.None? {
        continue;
      }
      var timestamp := c.stat.value.ctime;
      var relEntry := EntryPath(relPath, c.name);
      if c.isDir {
        entries := entries + [Entry(FolderKind, c.name, relEntry, timestamp)];
      } else if IsPlotName(c.name) {
        entries := entries + [Entry(FileKind, c.name, relEntry, timestamp)];
      }
    }
    assert children[..|children|] == children;
  }

  /**
   * The parent link: none exactly at the root (an empty path); otherwise the
   * dirname of the path with trailing separators removed, a strictly shorter
   * prefix of the path.
   */
  function ParentPath(relPath: string): (parent: Option<string>)
    ensures parent.None? <==> relPath == []
    ensures parent.Some? ==> StartsWith(relPath, parent.value) && |parent.value| < |relPath|
  {
    if relPath == [] then None
    else
      var stripped := RStripSeps(relPath);
      var d := Dirname(stripped);
      assert |d| < |relPath| by {
        if |stripped| == |relPath| {
          assert stripped == relPath;
          var i := SplitPoint(stripped);
          assert i < |stripped|;
        }
      }
      assert relPath[..|d|] == stripped[..|d|];
      Some(d)
  }

  /**
   * The listing handler: 404 unless the path is a directory; otherwise the
   * listed children ordered by status-change time (`st_ctime`), oldest first, a permutation of
   * them in which children with equal times keep their `os.listdir` order,
   * together with the current path and its parent link.
   */
  method Index(relPath: string, listDir: string -> Folder) returns (r: Result<Page, Failure>)
    ensures r.Ok? <==> listDir(JoinPath(PlotRoot, relPath)).Directory?
    ensures r.Err? ==> r.error == NotFound
    ensures r.Ok? ==>
      var listed := Listed(relPath, listDir(JoinPath(PlotRoot, relPath)).children);
      && SortedBy(r.value.entries, EntryTime)
      && multiset(r.value.entries) == multiset(listed)
      && (forall t :: WithKey(r.value.entries, EntryTime, t) == WithKey(listed, EntryTime, t))
      && r.value.current == relPath
      && r.value.parent == ParentPath(relPath)
  {
    var absPath := JoinPath(PlotRoot, relPath);
    var folder := listDir(absPath);
    if !folder.Directory? {
      return Err(NotFound);
    }
    var entries := CollectEntries(relPath, folder.children);
    ghost var listed := entries;
    entries := SortBy(entries, EntryTime);
    forall t ensures WithKey(entries, EntryTime, t) == WithKey(listed, EntryTime, t) {
      SortByStable(listed, EntryTime, t);
    }
    var parentPath := ParentPath(relPath);
    r := Ok(Page(entries, relPath, parentPath));
  }

  // ----- properties of the listing -----

  /** Listing a concatenation of children lists each part in turn: the `os.listdir` order is kept. */
  lemma {:induction false} ListedAppend(relPath: string, xs: seq<Child>, ys: seq<Child>)
    ensures Listed(relPath, xs + ys) == Listed(relPath, xs) + Listed(relPath, ys)
    decreases |ys|
  {
    if ys == [] {
      assert xs + ys == xs;
    } else {
      var init := ys[..|ys| - 1];
      ListedAppend(relPath, xs, init);
      assert (xs + ys)[..|xs + ys| - 1] == xs + init;
      assert (xs + ys)[|xs + ys| - 1] == ys[|ys| - 1];
    }
  }

  /**
   * The rows are exactly those of the children that were stat'ed and are
   * folders or chart files: each such child has its row, and every row is such
   * a child's, of kind folder exactly when the child is a directory.
   */
  lemma ListedExactly(relPath: string, children: seq<Child>, e: Entry)
    ensures e in Listed(relPath, children) <==>
      exists i | 0 <= i < |children| :: children[i].stat.Some? && (children[i].isDir || IsPlotName(children[i].name))
        && e == Entry(if children[i].isDir then FolderKind else FileKind, children[i].name,
                      EntryPath(relPath, children[i].name), children[i].stat.value.ctime)
  {
    if e in Listed(relPath, children) {
      var i := ListedFromChild(relPath, children, e);
    }
    if exists i | 0 <= i < |children| :: IsListed(children[i]) && e == EntryFor(relPath, children[i]) {
      var i :| 0 <= i < |children| && IsListed(children[i]) && e == EntryFor(relPath, children[i]);
      ChildIsListed(relPath, children, i);
    }
  }

  /** Every row comes from a listed child. */
  lemma {:induction false} ListedFromChild(relPath: string, children: seq<Child>, e: Entry) returns (i: nat)
    requires e in Listed(relPath, children)
    ensures i < |children| && IsListed(children[i]) && e == EntryFor(relPath, children[i])
    decreases |children|
  {
    var n := |children|;
    var init := children[..n - 1];
    if e in Listed(relPath, init) {
      i := ListedFromChild(relPath, init, e);
      assert init[i] == children[i];
    } else {
      i := n - 1;
    }
  }

  /** Every listed child has its row. */
  lemma {:induction false} ChildIsListed(relPath: string, children: seq<Child>, i: nat)
    requires i < |children| && IsListed(children[i])
    ensures EntryFor(relPath, children[i]) in Listed(relPath, children)
    decreases |children|
  {
    var n := |children|;
    var init := children[..n - 1];
    if i < n - 1 {
      ChildIsListed(relPath, init, i);
      assert init[i] == children[i];
    }
  }

  /** Every row is a folder or a file whose name ends in `.html` or `.json`. */
  lemma {:induction false} ListedKinds(relPath: string, children: seq<Child>)
    ensures forall e | e in Listed(relPath, children) ::
      (e.kind == FolderKind || IsPlotName(e.name)) && e.path == EntryPath(relPath, e.name)
    decreases |children|
  {
    if children != [] {
      ListedKinds(relPath, children[..|children| - 1]);
    }
  }

  /** The parent of a path that names something has fewer named segments than the path. */
  lemma ParentHasFewerSegments(relPath: string)
    requires !AllSeps(relPath)
    ensures ParentPath(relPath).Some?
    ensures NamedSegments(ParentPath(relPath).value) < NamedSegments(relPath)
  {
    var stripped := RStripSeps(relPath);
    assert relPath[..|stripped|] == stripped;
    NamedSegmentsTrailingSeps(relPath, |stripped|);
    assert stripped != [];
    var i := SplitPoint(stripped);
    assert i < |stripped|;
    NamedSegmentsAtStart(stripped, i);
    var head := stripped[..i];
    var d := Dirname(stripped);
    assert StartsWith(head, d) by {
      if head != [] && !AllSeps(head) {
      } else {
        assert d == head;
      }
    }
    assert d == stripped[..|d|];
    assert head[..|d|] == d;
    assert d == head[..|d|];
    NamedSegmentsPrefix(head, |d|);
  }

  lemma ReplaceBackslashesNone(s: string)
    requires '\\' !in s
    ensures ReplaceBackslashes(s) == s
  {
    var r := ReplaceBackslashes(s);
    assert forall i | 0 <= i < |s| :: s[i] != '\\';
  }

  /**
   * Opening a sub-folder's row leads to a page whose parent link is the
   * current folder again, for a folder path without a trailing separator and
   * names without separators or backslashes.
   */
  lemma ParentOfChildFolder(relPath: string, name: string)
    requires relPath == [] || relPath[|relPath| - 1] != Sep
    requires '\\' !in relPath
    requires name != [] && Sep !in name && '\\' !in name
    ensures ParentPath(EntryPath(relPath, name)) == Some(relPath)
  {
    var p := JoinPath(relPath, name);
    assert name[0] in name;
    assert '\\' !in p by {
      if relPath == [] {
        assert p == name;
      } else {
        assert p == relPath + [Sep] + name;
      }
    }
    ReplaceBackslashesNone(p);
    assert EndsWith(p, name);
    assert p[|p| - 1] == name[|name| - 1];
    assert name[|name| - 1] in name;
    RStripSepsNoTrailing(p);
    JoinPathSplits(relPath, name);
  }
}
