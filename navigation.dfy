/**
 * Locating the current chart in an ordered list and picking its previous and
 * next neighbours with the guards of `plot_view`.
 */
module Navigation {
  import opened Wrappers
  import opened PathStrings
  import opened StableSort

  datatype Neighbours<T> = Neighbours(prev: Option<T>, next: Option<T>)

  /** A name (a file name or a full path) with the time it is ordered by. */
  datatype Timed = Timed(name: string, time: int)

  function TimeOf(t: Timed): int { t.time }

  /** The names of a list of timed entries, in order. */
  function Names(ts: seq<Timed>): (names: seq<string>)
    ensures |names| == |ts|
    ensures forall i | 0 <= i < |ts| :: names[i] == ts[i].name
  {
    seq(|ts|, i requires 0 <= i < |ts| => ts[i].name)
  }

  /** `s.index(x)`, with the `ValueError` for an absent `x` turned into -1. */
  function IndexOrMinusOne<T(==)>(s: seq<T>, x: T): (r: int)
    ensures -1 <= r < |s|
    ensures r == -1 <==> x !in s
    ensures r >= 0 ==> s[r] == x && x !in s[..r]
  {
    if s == [] then -1
    else if s[0] == x then 0
    else
      var i := IndexOrMinusOne(s[1..], x);
      assert i >= 0 ==> s[..i + 1] == [s[0]] + s[1..][..i];
      if i == -1 then -1 else i + 1
  }

  /** The element before `index` when `index > 0`, and after it when `index != -1` and there is one. */
  function Adjacent<T>(s: seq<T>, index: int): (n: Neighbours<T>)
    requires -1 <= index < |s|
    ensures n.prev.Some? <==> 0 < index
    ensures n.next.Some? <==> 0 <= index < |s| - 1
    ensures n.prev.Some? ==> n.prev.value == s[index - 1]
    ensures n.next.Some? ==> n.next.value == s[index + 1]
  {
    Neighbours(
      if index > 0 then Some(s[index - 1]) else None,
      if index != -1 && index + 1 < |s| then Some(s[index + 1]) else None)
  }

  /**
   * The neighbours of `current` among a folder's chart names: there is a
   * previous one exactly when `current` is listed but not first, and a next one
   * exactly when its first occurrence is not last. Both are taken around that
   * first occurrence.
   */
  function SameFolderNeighbours(sortedNames: seq<string>, current: string): (n: Neighbours<string>)
    ensures n.prev.Some? <==> current in sortedNames && sortedNames[0] != current
    ensures n.next.Some? <==> current in sortedNames && current in sortedNames[..|sortedNames| - 1]
    ensures var i := IndexOrMinusOne(sortedNames, current);
      && (n.prev.Some? ==> 0 < i && n.prev.value == sortedNames[i - 1])
      && (n.next.Some? ==> 0 <= i && n.next.value == sortedNames[i + 1])
  {
    var i := IndexOrMinusOne(sortedNames, current);
    assert i >= 0 ==> sortedNames[..i + 1] == sortedNames[..i] + [current];
    assert i >= 0 && i + 1 == |sortedNames| ==> sortedNames[..|sortedNames| - 1] == sortedNames[..i];
    assert i >= 0 && i + 1 < |sortedNames| ==> sortedNames[..|sortedNames| - 1][i] == current;
    Adjacent(sortedNames, i)
  }

  /**
   * `next(i for i in range(len(paths)) if folder in paths[i])`: the first path
   * containing `folder` as a substring; `None` stands for the `StopIteration`
   * raised when no path does.
   */
  function FirstContaining(paths: seq<string>, folder: string): (r: Option<nat>)
    ensures r.None? <==> forall i | 0 <= i < |paths| :: !Contains(paths[i], folder)
    ensures r.Some? ==> r.value < |paths| && Contains(paths[r.value], folder)
    ensures r.Some? ==> forall j | 0 <= j < r.value :: !Contains(paths[j], folder)
  {
    if paths == [] then None
    else if Contains(paths[0], folder) then Some(0)
    else match FirstContaining(paths[1..], folder)
      case None => None
      case Some(i) => Some(i + 1)
  }

  /**
   * The cross-folder neighbours: `None` when no path contains `parentFolder`;
   * otherwise the neighbours of the first path that does, where a previous one
   * exists exactly when the first path does not contain it.
   */
  function CrossFolderNeighbours(sortedPaths: seq<string>, parentFolder: string): (r: Option<Neighbours<string>>)
    ensures r.None? <==> forall i | 0 <= i < |sortedPaths| :: !Contains(sortedPaths[i], parentFolder)
    ensures r.Some? ==> var i := FirstContaining(sortedPaths, parentFolder).value;
      && (r.value.prev.Some? <==> !Contains(sortedPaths[0], parentFolder))
      && (r.value.prev.Some? ==> r.value.prev.value == sortedPaths[i - 1])
      && (r.value.next.Some? <==> i + 1 < |sortedPaths|)
      && (r.value.next.Some? ==> r.value.next.value == sortedPaths[i + 1])
  {
    match FirstContaining(sortedPaths, parentFolder)
    case None => None
    case Some(i) => Some(Adjacent(sortedPaths, i))
  }

  /** Around a position of a time-ordered list, the previous entry is not newer and the next one not older. */
  lemma AdjacentOrdered(ts: seq<Timed>, index: int)
    requires SortedBy(ts, TimeOf) && 0 <= index < |ts|
    ensures var n := Adjacent(Names(ts), index);
      && (n.prev.Some? ==> ts[index - 1].name == n.prev.value && ts[index - 1].time <= ts[index].time)
      && (n.next.Some? ==> ts[index + 1].name == n.next.value && ts[index].time <= ts[index + 1].time)
  {
    if index > 0 {
      assert TimeOf(ts[index - 1]) <= TimeOf(ts[index]);
    }
    if index + 1 < |ts| {
      assert TimeOf(ts[index]) <= TimeOf(ts[index + 1]);
    }
  }

  /**
   * Same-folder neighbours of a listed chart, taken from a list sorted by
   * modification time: time(previous) <= time(current) <= time(next).
   */
  lemma SameFolderNeighboursOrdered(ts: seq<Timed>, current: string)
    requires SortedBy(ts, TimeOf)
    ensures var i := IndexOrMinusOne(Names(ts), current);
      var n := SameFolderNeighbours(Names(ts), current);
      && (n.prev.Some? ==> ts[i - 1].name == n.prev.value && ts[i - 1].time <= ts[i].time && ts[i].name == current)
      && (n.next.Some? ==> ts[i + 1].name == n.next.value && ts[i].time <= ts[i + 1].time && ts[i].name == current)
  {
    var i := IndexOrMinusOne(Names(ts), current);
    if i >= 0 {
      AdjacentOrdered(ts, i);
    }
  }

  /** The same ordering for the cross-folder neighbours of the first matching path. */
  lemma CrossFolderNeighboursOrdered(ts: seq<Timed>, parentFolder: string)
    requires SortedBy(ts, TimeOf)
    ensures var r := CrossFolderNeighbours(Names(ts), parentFolder);
      r.Some? ==> var i := FirstContaining(Names(ts), parentFolder).value;
        && (r.value.prev.Some? ==> ts[i - 1].name == r.value.prev.value && ts[i - 1].time <= ts[i].time)
        && (r.value.next.Some? ==> ts[i + 1].name == r.value.next.value && ts[i].time <= ts[i + 1].time)
  {
    var f := FirstContaining(Names(ts), parentFolder);
    if f.Some? {
      AdjacentOrdered(ts, f.value);
    }
  }

  /** Three charts ordered `a`, `b`, `c`, and a name that is not among them. */
  lemma ThreeChartsExample()
    ensures SameFolderNeighbours(["a", "b", "c"], "b") == Neighbours(Some("a"), Some("c"))
    ensures SameFolderNeighbours(["a", "b", "c"], "a") == Neighbours(None, Some("b"))
    ensures SameFolderNeighbours(["a", "b", "c"], "c") == Neighbours(Some("b"), None)
    ensures SameFolderNeighbours(["a", "b", "c"], "missing.html") == Neighbours(None, None)
  {
    var s: seq<string> := ["a", "b", "c"];
    assert IndexOrMinusOne(s, "a") == 0;
    assert IndexOrMinusOne(s, "b") == 1;
    assert IndexOrMinusOne(s, "c") == 2;
    assert "missing.html" !in s;
  }
}
