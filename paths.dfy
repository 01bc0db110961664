/**
 * The `/`-separated string operations the handlers rely on: the POSIX flavour of
 * `os.path.join`, `os.path.dirname`, `os.path.basename`, `str.rstrip("/")`,
 * `str.split("/")` with `"/".join`, `str.replace` and the `in` substring test.
 */
module PathStrings {

  const Sep: char := '/'

  predicate StartsWith(s: string, prefix: string) {
    |prefix| <= |s| && s[..|prefix|] == prefix
  }

  predicate EndsWith(s: string, suffix: string) {
    |suffix| <= |s| && s[|s| - |suffix|..] == suffix
  }

  predicate AllSeps(s: string) {
    forall i | 0 <= i < |s| :: s[i] == Sep
  }

  /** Python's `pat in s`: `pat` occurs somewhere in `s` (the empty string occurs in every string). */
  predicate Contains(s: string, pat: string)
    decreases |s|
  {
    StartsWith(s, pat) || (s != [] && Contains(s[1..], pat))
  }

  /** `os.path.join(a, b)` on POSIX: an absolute `b` replaces `a`; otherwise one separator is inserted when needed. */
  function JoinPath(a: string, b: string): (r: string)
    ensures b != [] && b[0] == Sep ==> r == b
    ensures (b == [] || b[0] != Sep) ==> StartsWith(r, a) && EndsWith(r, b)
    ensures (b == [] || b[0] != Sep) && (a == [] || a[|a| - 1] == Sep) ==> |r| == |a| + |b|
    ensures (b == [] || b[0] != Sep) && a != [] && a[|a| - 1] != Sep ==> |r| == |a| + 1 + |b| && r[|a|] == Sep
    ensures |r| <= |a| + 1 + |b|
  {
    if b != [] && b[0] == Sep then b
    else if a == [] || a[|a| - 1] == Sep then a + b
    else a + [Sep] + b
  }

  /** `s.replace("\\", "/")`. */
  function ReplaceBackslashes(s: string): (r: string)
    ensures |r| == |s| && '\\' !in r
    ensures forall i | 0 <= i < |s| && s[i] == '\\' :: r[i] == Sep
    ensures forall i | 0 <= i < |s| && s[i] != '\\' :: r[i] == s[i]
  {
    seq(|s|, i requires 0 <= i < |s| => if s[i] == '\\' then Sep else s[i])
  }

  /** Where `os.path.split` cuts `p`: just after its last separator, or 0 when it has none. */
  function SplitPoint(p: string): (i: nat)
    ensures i <= |p|
    ensures i > 0 ==> p[i - 1] == Sep
    ensures forall j | i <= j < |p| :: p[j] != Sep
  {
    if p == [] then 0
    else if p[|p| - 1] == Sep then |p|
    else SplitPoint(p[..|p| - 1])
  }

  /** `os.path.basename(p)`. */
  function Basename(p: string): (b: string)
    ensures Sep !in b && EndsWith(p, b)
  {
    p[SplitPoint(p)..]
  }

  /** `s.rstrip("/")`. */
  function RStripSeps(s: string): (r: string)
    ensures StartsWith(s, r)
    ensures r == [] || r[|r| - 1] != Sep
    ensures forall i | |r| <= i < |s| :: s[i] == Sep
  {
    if s != [] && s[|s| - 1] == Sep then RStripSeps(s[..|s| - 1]) else s
  }

  /**
   * `os.path.dirname(p)`: the part before the last separator, with trailing
   * separators removed unless it is all separators. The four facts below
   * determine it: a prefix of the head `p[..SplitPoint(p)]` followed in it
   * only by separators, not ending in one unless the head is all separators,
   * in which case it is the whole head.
   */
  function Dirname(p: string): (d: string)
    ensures StartsWith(p, d) && |d| <= SplitPoint(p)
    ensures d == [] || AllSeps(d) || d[|d| - 1] != Sep
    ensures forall i | |d| <= i < SplitPoint(p) :: p[i] == Sep
    ensures AllSeps(p[..SplitPoint(p)]) ==> d == p[..SplitPoint(p)]
  {
    var head := p[..SplitPoint(p)];
    if head != [] && !AllSeps(head) then RStripSeps(head) else head
  }

  /** The facts `Dirname` promises about `d` as a dirname of `p`. */
  ghost predicate IsDirnameOf(p: string, d: string) {
    && StartsWith(p, d) && |d| <= SplitPoint(p)
    && (d == [] || AllSeps(d) || d[|d| - 1] != Sep)
    && (forall i | |d| <= i < SplitPoint(p) :: p[i] == Sep)
    && (AllSeps(p[..SplitPoint(p)]) ==> d == p[..SplitPoint(p)])
  }

  /** When the head has a character other than `/`, a dirname of `p` ends in such a character. */
  lemma DirnameEndsInName(p: string, d: string)
    requires IsDirnameOf(p, d) && !AllSeps(p[..SplitPoint(p)])
    ensures d != [] && d[|d| - 1] != Sep
  {
    var h := SplitPoint(p);
    if d == [] || AllSeps(d) {
      forall i | 0 <= i < h ensures p[..h][i] == Sep {
        if i < |d| { assert p[i] == d[i]; }
      }
      assert false;
    }
  }

  /** `Dirname`'s contract determines it: any string with the same facts is the dirname. */
  lemma DirnameDetermined(p: string, d: string)
    requires IsDirnameOf(p, d)
    ensures d == Dirname(p)
  {
    var e := Dirname(p);
    assert IsDirnameOf(p, e);
    if !AllSeps(p[..SplitPoint(p)]) {
      DirnameEndsInName(p, d);
      DirnameEndsInName(p, e);
      assert p[|d| - 1] == d[|d| - 1] && p[|e| - 1] == e[|e| - 1];
      assert |d| == |e|;
      assert d == p[..|d|] == e;
    }
  }

  /**
   * `os.path.split`: the basename is the longest suffix without separators,
   * and only separators lie between the dirname and the basename.
   */
  lemma SplitShape(p: string)
    ensures var b := Basename(p); |b| == |p| || p[|p| - |b| - 1] == Sep
    ensures forall i | |Dirname(p)| <= i < |p| - |Basename(p)| :: p[i] == Sep
  {
  }

  /** `s` is never shortened by `rstrip("/")` when it ends in a non-separator. */
  lemma RStripSepsNoTrailing(s: string)
    requires s == [] || s[|s| - 1] != Sep
    ensures RStripSeps(s) == s
  {
  }

  /** `SplitPoint` is the only cut point with its two defining properties. */
  lemma SplitPointUnique(p: string, i: nat)
    requires i <= |p|
    requires i > 0 ==> p[i - 1] == Sep
    requires forall j | i <= j < |p| :: p[j] != Sep
    ensures SplitPoint(p) == i
  {
    var k := SplitPoint(p);
    assert k >= i by { if i > 0 { assert p[i - 1] == Sep; } }
    assert k <= i by { if k > 0 { assert p[k - 1] == Sep; } }
  }

  /** The cut point of `dir + "/" + name`, for a `name` without separators, is just after that separator. */
  lemma SplitPointOfJoin(dir: string, name: string)
    requires Sep !in name
    ensures SplitPoint(dir + [Sep] + name) == |dir| + 1
  {
    var p := dir + [Sep] + name;
    forall j | |dir| + 1 <= j < |p|
      ensures p[j] != Sep
    {
      assert p[j] == name[j - |dir| - 1];
    }
    SplitPointUnique(p, |dir| + 1);
  }

  /**
   * A path built by `os.path.join(dir, name)` splits back into `dir` and `name`
   * under `dirname`/`basename`, provided `name` has no separator and `dir` is
   * empty or does not end in one.
   */
  lemma {:induction false} JoinPathSplits(dir: string, name: string)
    requires Sep !in name
    requires dir == [] || dir[|dir| - 1] != Sep
    ensures Dirname(JoinPath(dir, name)) == dir
    ensures Basename(JoinPath(dir, name)) == name
  {
    if dir == [] {
      assert JoinPath(dir, name) == name;
      assert SplitPoint(name) == 0;
    } else {
      var p := dir + [Sep] + name;
      assert JoinPath(dir, name) == p;
      SplitPointOfJoin(dir, name);
      var head := p[..|dir| + 1];
      assert head == dir + [Sep];
      assert head[|dir| - 1] != Sep;
      var r := RStripSeps(head);
      assert head[..|r|] == r;
      assert |r| == |dir|;
      assert r == head[..|dir|] == dir;
    }
  }

  // ----- counting named segments -----

  /** 1 when position `k` of `s` starts a non-empty `/`-separated segment. */
  function StartsSegment(s: string, k: nat): nat
    requires k < |s|
  {
    if s[k] != Sep && (k == 0 || s[k - 1] == Sep) then 1 else 0
  }

  /** The number of non-empty `/`-separated segments of `s` ("a//b/" has two). */
  function NamedSegments(s: string): nat
  {
    if s == [] then 0 else NamedSegments(s[..|s| - 1]) + StartsSegment(s, |s| - 1)
  }

  lemma {:induction false} NamedSegmentsPrefix(s: string, k: nat)
    requires k <= |s|
    ensures NamedSegments(s[..k]) <= NamedSegments(s)
    decreases |s| - k
  {
    if k < |s| {
      var t := s[..|s| - 1];
      NamedSegmentsPrefix(t, k);
      assert t[..k] == s[..k];
    } else {
      assert s[..k] == s;
    }
  }

  /** Separators at the end of a string add no segment. */
  lemma {:induction false} NamedSegmentsTrailingSeps(s: string, k: nat)
    requires k <= |s|
    requires forall i | k <= i < |s| :: s[i] == Sep
    ensures NamedSegments(s[..k]) == NamedSegments(s)
    decreases |s| - k
  {
    if k < |s| {
      var t := s[..|s| - 1];
      NamedSegmentsTrailingSeps(t, k);
      assert t[..k] == s[..k];
    } else {
      assert s[..k] == s;
    }
  }

  /** A segment that starts at position `k` is counted in `s` but not in `s[..k]`. */
  lemma NamedSegmentsAtStart(s: string, k: nat)
    requires k < |s| && s[k] != Sep && (k == 0 || s[k - 1] == Sep)
    ensures NamedSegments(s[..k]) < NamedSegments(s)
  {
    var t := s[..k + 1];
    assert t[..|t| - 1] == s[..k];
    assert NamedSegments(t) == NamedSegments(s[..k]) + 1;
    NamedSegmentsPrefix(s, k + 1);
  }

  // ----- str.split("/") and "/".join -----

  /** The position of the first separator of `s`, or `|s|` when there is none. */
  function FirstSep(s: string): (k: nat)
    ensures k <= |s|
    ensures forall j | 0 <= j < k :: s[j] != Sep
    ensures k < |s| ==> s[k] == Sep
  {
    if s == [] || s[0] == Sep then 0 else 1 + FirstSep(s[1..])
  }

  /** `s.split("/")`: never empty, and `"".split("/") == [""]`. */
  function Split(s: string): (segs: seq<string>)
    ensures |segs| >= 1
    ensures forall i | 0 <= i < |segs| :: Sep !in segs[i]
    decreases |s|
  {
    var k := FirstSep(s);
    if k == |s| then [s] else [s[..k]] + Split(s[k + 1..])
  }

  /** `"/".join(segs)`. */
  function JoinSegments(segs: seq<string>): string
  {
    if segs == [] then []
    else if |segs| == 1 then segs[0]
    else segs[0] + [Sep] + JoinSegments(segs[1..])
  }

  lemma {:induction false} JoinSplit(s: string)
    ensures JoinSegments(Split(s)) == s
    decreases |s|
  {
    var k := FirstSep(s);
    if k < |s| {
      JoinSplit(s[k + 1..]);
      JoinSplitStep(s, k, Split(s[k + 1..]));
    }
  }

  /** One step of `JoinSplit`: the first segment, a separator, and the rest joined back. */
  lemma JoinSplitStep(s: string, k: nat, rest: seq<string>)
    requires k == FirstSep(s) && k < |s|
    requires rest == Split(s[k + 1..]) && JoinSegments(rest) == s[k + 1..]
    ensures JoinSegments(Split(s)) == s
  {
    assert Split(s) == [s[..k]] + rest;
    JoinSegmentsCons(s[..k], rest);
    assert s == s[..k] + [Sep] + s[k + 1..];
  }

  /** `"/".join` of a segment followed by a non-empty list puts one separator after the segment. */
  lemma JoinSegmentsCons(x: string, rest: seq<string>)
    requires rest != []
    ensures JoinSegments([x] + rest) == x + [Sep] + JoinSegments(rest)
  {
    assert ([x] + rest)[1..] == rest;
  }

  lemma {:induction false} SplitJoin(segs: seq<string>)
    requires |segs| >= 1
    requires forall i | 0 <= i < |segs| :: Sep !in segs[i]
    ensures Split(JoinSegments(segs)) == segs
  {
    if |segs| == 1 {
      assert FirstSep(segs[0]) == |segs[0]|;
    } else {
      var s := JoinSegments(segs);
      assert s == segs[0] + [Sep] + JoinSegments(segs[1..]);
      var k := FirstSep(s);
      assert s[|segs[0]|] == Sep;
      assert forall j | 0 <= j < |segs[0]| :: s[j] == segs[0][j];
      assert k == |segs[0]|;
      assert s[..k] == segs[0];
      assert s[k + 1..] == JoinSegments(segs[1..]);
      SplitJoin(segs[1..]);
      assert segs == [segs[0]] + segs[1..];
    }
  }

  lemma {:induction false} JoinSegmentsAt(segs: seq<string>, k: nat)
    requires 1 <= k < |segs|
    ensures JoinSegments(segs) == JoinSegments(segs[..k]) + [Sep] + JoinSegments(segs[k..])
  {
    if k == 1 {
      assert segs[..1] == [segs[0]];
      assert segs[1..] == segs[k..];
    } else {
      JoinSegmentsAt(segs[1..], k - 1);
      assert segs[1..][..k - 1] == segs[..k][1..];
      assert segs[1..][k - 1..] == segs[k..];
    }
  }

  /** `"/".join(folder.split("/")[:-2])`: the folder with its last two segments dropped. */
  function DropLastTwoSegments(folder: string): string
  {
    var segs := Split(folder);
    JoinSegments(segs[..if |segs| >= 2 then |segs| - 2 else 0])
  }

  /**
   * Dropping the last two segments leaves the empty string for a folder of at
   * most two segments; otherwise the folder is the result followed by its last
   * two segments, and the result splits into the remaining segments.
   */
  lemma DropLastTwoSegmentsShape(folder: string)
    ensures var segs := Split(folder); var n := |segs|;
      && (n <= 2 ==> DropLastTwoSegments(folder) == [])
      && (n > 2 ==> folder == DropLastTwoSegments(folder) + [Sep] + segs[n - 2] + [Sep] + segs[n - 1])
      && (n > 2 ==> Split(DropLastTwoSegments(folder)) == segs[..n - 2])
  {
    var segs := Split(folder);
    if |segs| > 2 {
      DropLastTwoSegmentsLong(folder, segs);
    }
  }

  lemma DropLastTwoSegmentsLong(folder: string, segs: seq<string>)
    requires segs == Split(folder) && |segs| > 2
    ensures folder == DropLastTwoSegments(folder) + [Sep] + segs[|segs| - 2] + [Sep] + segs[|segs| - 1]
    ensures Split(DropLastTwoSegments(folder)) == segs[..|segs| - 2]
  {
    assert DropLastTwoSegments(folder) == JoinSegments(segs[..|segs| - 2]);
    JoinSplit(folder);
    JoinLastTwo(segs);
    SplitJoinPrefix(segs, |segs| - 2);
  }

  /** `"/".join` of three or more segments ends with the last two, each after a separator. */
  lemma JoinLastTwo(segs: seq<string>)
    requires |segs| > 2
    ensures var n := |segs|;
      JoinSegments(segs) == JoinSegments(segs[..n - 2]) + [Sep] + segs[n - 2] + [Sep] + segs[n - 1]
  {
    var n := |segs|;
    var tail := segs[n - 2..];
    JoinSegmentsAt(segs, n - 2);
    JoinSegmentsPair(tail);
    assert tail[0] == segs[n - 2] && tail[1] == segs[n - 1];
    var a, x, y := JoinSegments(segs[..n - 2]), segs[n - 2], segs[n - 1];
    assert JoinSegments(segs) == a + [Sep] + (x + [Sep] + y);
    assert a + [Sep] + (x + [Sep] + y) == a + [Sep] + x + [Sep] + y;
  }

  /** `"/".join` of two segments puts one separator between them. */
  lemma JoinSegmentsPair(segs: seq<string>)
    requires |segs| == 2
    ensures JoinSegments(segs) == segs[0] + [Sep] + segs[1]
  {
    assert segs[1..] == [segs[1]];
  }

  /**
   * The run-group path under a prefix: `pre` followed by the folder without its
   * last two segments. It is `pre` alone for a folder of at most two segments;
   * otherwise appending the last two segments gives `pre` followed by the folder.
   */
  lemma PrefixedRunGroup(pre: string, folder: string)
    ensures StartsWith(pre + DropLastTwoSegments(folder), pre)
    ensures |Split(folder)| <= 2 ==> pre + DropLastTwoSegments(folder) == pre
    ensures var segs := Split(folder); var n := |segs|;
      n > 2 ==> pre + folder == pre + DropLastTwoSegments(folder) + [Sep] + segs[n - 2] + [Sep] + segs[n - 1]
  {
    StartsWithConcat(pre, DropLastTwoSegments(folder));
    if |Split(folder)| <= 2 {
      DropLastTwoSegmentsShape(folder);
      assert DropLastTwoSegments(folder) == [];
    } else {
      PrefixedRunGroupLong(pre, folder, Split(folder));
    }
  }

  /** The case of more than two segments of `PrefixedRunGroup`. */
  lemma PrefixedRunGroupLong(pre: string, folder: string, segs: seq<string>)
    requires segs == Split(folder) && |segs| > 2
    ensures var n := |segs|;
      pre + folder == pre + DropLastTwoSegments(folder) + [Sep] + segs[n - 2] + [Sep] + segs[n - 1]
  {
    var n := |segs|;
    DropLastTwoSegmentsLong(folder, segs);
    PrependConcat(pre, DropLastTwoSegments(folder), [Sep], segs[n - 2], [Sep], segs[n - 1]);
  }

  /** Prepending to a concatenation of five parts. */
  lemma PrependConcat(pre: string, a: string, b: string, c: string, d: string, e: string)
    ensures pre + (a + b + c + d + e) == pre + a + b + c + d + e
  {
  }

  /** A string starts with any of its prefixes written as a concatenation. */
  lemma StartsWithConcat(a: string, b: string)
    ensures StartsWith(a + b, a)
  {
    assert (a + b)[..|a|] == a;
  }

  lemma SplitJoinPrefix(segs: seq<string>, k: nat)
    requires 1 <= k <= |segs|
    requires forall i | 0 <= i < |segs| :: Sep !in segs[i]
    ensures Split(JoinSegments(segs[..k])) == segs[..k]
  {
    var keep := segs[..k];
    assert forall i | 0 <= i < |keep| :: keep[i] == segs[i];
    SplitJoin(keep);
  }

  /** An occurrence of `pat` at position `k` of `s` makes `pat in s` true. */
  lemma {:induction false} ContainsAt(s: string, pat: string, k: nat)
    requires k + |pat| <= |s| && s[k..k + |pat|] == pat
    ensures Contains(s, pat)
    decreases k
  {
    if k > 0 {
      assert s[1..][k - 1..k - 1 + |pat|] == s[k..k + |pat|];
      ContainsAt(s[1..], pat, k - 1);
    }
  }

  /** Conversely, `pat in s` is witnessed by a position where `pat` occurs. */
  lemma {:induction false} ContainsPosition(s: string, pat: string) returns (k: nat)
    requires Contains(s, pat)
    ensures k + |pat| <= |s| && s[k..k + |pat|] == pat
    decreases |s|
  {
    if StartsWith(s, pat) {
      k := 0;
    } else {
      var j := ContainsPosition(s[1..], pat);
      assert s[1..][j..j + |pat|] == s[j + 1..j + 1 + |pat|];
      k := j + 1;
    }
  }

  /** A string shorter than a non-empty `pat` does not contain it. */
  lemma {:induction false} ShortNotContains(s: string, pat: string)
    requires |s| < |pat|
    ensures !Contains(s, pat)
    decreases |s|
  {
    if s != [] {
      ShortNotContains(s[1..], pat);
    }
  }

  /** A string lacking one of the characters of `pat` does not contain `pat`. */
  lemma {:induction false} NotContainsChar(s: string, pat: string, c: char)
    requires c in pat && c !in s
    ensures !Contains(s, pat)
    decreases |s|
  {
    assert !StartsWith(s, pat) by {
      if |pat| <= |s| {
        var k :| 0 <= k < |pat| && pat[k] == c;
        assert s[k] != c;
      }
    }
    if s != [] {
      NotContainsChar(s[1..], pat, c);
    }
  }

  // ----- str.replace(pat, "") -----

  /** `pat` occurs in `s` at position `k`. */
  predicate OccursAt(s: string, pat: string, k: nat) {
    k + |pat| <= |s| && s[k..k + |pat|] == pat
  }

  /**
   * `s.replace(pat, "")`: every occurrence of `pat`, found left to right without
   * overlap, is removed. A string without `pat` is unchanged, and one with it
   * loses at least one copy.
   */
  function RemoveAll(s: string, pat: string): (r: string)
    requires pat != []
    ensures |r| <= |s|
    ensures !Contains(s, pat) ==> r == s
    ensures Contains(s, pat) ==> |r| + |pat| <= |s|
    decreases |s|
  {
    if |s| < |pat| then ShortNotContains(s, pat); s
    else if s[..|pat|] == pat then RemoveAll(s[|pat|..], pat)
    else [s[0]] + RemoveAll(s[1..], pat)
  }

  /**
   * The step that defines `str.replace` by searching: when `pre` is followed by
   * `pat` and no occurrence starts inside `pre`, so that this is the first
   * occurrence, `pre` is kept, that occurrence is dropped, and the search
   * resumes in what follows it.
   */
  lemma {:induction false} RemoveAllFirst(pre: string, pat: string, post: string)
    requires pat != []
    requires forall j | 0 <= j < |pre| :: !OccursAt(pre + pat + post, pat, j)
    ensures RemoveAll(pre + pat + post, pat) == pre + RemoveAll(post, pat)
    decreases |pre|
  {
    if pre == [] {
      assert pre + pat + post == pat + post;
      RemoveAllPrefix(pat, post);
    } else {
      NoOccurrenceInTail(pre, pat, post);
      RemoveAllFirst(pre[1..], pat, post);
      KeepFirstOfPre(pre, pat, post);
    }
  }

  /** Dropping the first character of `pre` keeps `pre`'s remaining positions free of occurrences. */
  lemma NoOccurrenceInTail(pre: string, pat: string, post: string)
    requires pre != []
    requires forall j | 0 <= j < |pre| :: !OccursAt(pre + pat + post, pat, j)
    ensures forall j | 0 <= j < |pre| - 1 :: !OccursAt(pre[1..] + pat + post, pat, j)
  {
    var s := pre + pat + post;
    assert s[1..] == pre[1..] + pat + post;
    forall j | 0 <= j < |pre| - 1
      ensures !OccursAt(pre[1..] + pat + post, pat, j)
    {
      assert !OccursAt(s, pat, j + 1);
      OccursAtTail(s, pat, j);
    }
  }

  /** The first character of `pre`, where no occurrence starts, is kept in front of the rest's result. */
  lemma KeepFirstOfPre(pre: string, pat: string, post: string)
    requires pat != [] && pre != []
    requires !OccursAt(pre + pat + post, pat, 0)
    requires RemoveAll(pre[1..] + pat + post, pat) == pre[1..] + RemoveAll(post, pat)
    ensures RemoveAll(pre + pat + post, pat) == pre + RemoveAll(post, pat)
  {
    ConcatTail(pre, pat + post);
    assert pre + pat + post == pre + (pat + post);
    assert pre[1..] + pat + post == pre[1..] + (pat + post);
    RemoveAllKeepHead(pre + pat + post, pat);
    ConsPrefixAll(pre, RemoveAll(post, pat));
  }

  /** The tail of a concatenation with a non-empty front. */
  lemma ConcatTail(a: string, b: string)
    requires a != []
    ensures (a + b)[0] == a[0] && (a + b)[1..] == a[1..] + b
  {
  }

  /** Putting back the first character of `a` in front of its tail. */
  lemma ConsPrefixAll(a: string, r: string)
    requires a != []
    ensures [a[0]] + (a[1..] + r) == a + r
  {
    assert [a[0]] + a[1..] == a;
  }

  /** An occurrence in `s[1..]` is an occurrence in `s` one position later. */
  lemma OccursAtTail(s: string, pat: string, j: nat)
    requires s != []
    ensures OccursAt(s[1..], pat, j) <==> OccursAt(s, pat, j + 1)
  {
    if j + 1 + |pat| <= |s| {
      assert s[1..][j..j + |pat|] == s[j + 1..j + 1 + |pat|];
    }
  }

  /** A head that does not start an occurrence is kept. */
  lemma RemoveAllKeepHead(s: string, pat: string)
    requires pat != [] && |pat| <= |s| && !OccursAt(s, pat, 0)
    ensures RemoveAll(s, pat) == [s[0]] + RemoveAll(s[1..], pat)
  {
    assert s[..|pat|] != pat;
  }

  /** A leading `pat` is removed and the rest is processed on its own. */
  lemma RemoveAllPrefix(pat: string, rest: string)
    requires pat != []
    ensures RemoveAll(pat + rest, pat) == RemoveAll(rest, pat)
  {
    var s := pat + rest;
    assert s[..|pat|] == pat;
    assert s[|pat|..] == rest;
  }

  /** A leading character that does not start `pat` is kept. */
  lemma RemoveAllKeep(c: char, rest: string, pat: string)
    requires pat != [] && c != pat[0]
    ensures RemoveAll([c] + rest, pat) == [c] + RemoveAll(rest, pat)
  {
    var s := [c] + rest;
    assert s[1..] == rest;
    if |s| >= |pat| {
      assert s[..|pat|][0] == c;
    }
  }

  /** A leading `pat` is removed, and with no further occurrence what is left is the rest. */
  lemma RemoveAllLeading(pat: string, rest: string)
    requires pat != [] && !Contains(rest, pat)
    ensures RemoveAll(pat + rest, pat) == rest
  {
    var s := pat + rest;
    assert s[..|pat|] == pat;
    assert s[|pat|..] == rest;
  }
}
