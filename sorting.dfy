/**
 * Python's `list.sort(key=...)` and `sorted(..., key=...)` on integer keys:
 * ascending and stable. The sort is given by its result (a stable insertion
 * sort); the lemmas show that this result is ordered, is a permutation of the
 * input, keeps the input order among equal keys, and that these three facts
 * determine it, so any stable sort gives the same list.
 */
module StableSort {

  /** Non-decreasing by `key`. */
  ghost predicate SortedBy<T>(s: seq<T>, key: T -> int) {
    forall i, j | 0 <= i < j < |s| :: key(s[i]) <= key(s[j])
  }

  /** The elements of `s` whose key is `k`, in their order in `s`. */
  function WithKey<T>(s: seq<T>, key: T -> int, k: int): seq<T>
  {
    if s == [] then []
    else (if key(s[0]) == k then [s[0]] else []) + WithKey(s[1..], key, k)
  }

  /** `x` placed before the first element whose key is not smaller than its own. */
  function Insert<T>(x: T, s: seq<T>, key: T -> int): seq<T>
  {
    if s == [] || key(x) <= key(s[0]) then [x] + s
    else [s[0]] + Insert(x, s[1..], key)
  }

  /** The stable ascending sort of `s` by `key`: ordered by key and a permutation of `s`. */
  function SortBy<T>(s: seq<T>, key: T -> int): (r: seq<T>)
    ensures SortedBy(r, key)
    ensures multiset(r) == multiset(s)
  {
    if s == [] then []
    else
      var t := SortBy(s[1..], key);
      InsertSorted(s[0], t, key);
      InsertPermutation(s[0], t, key);
      assert s == [s[0]] + s[1..];
      Insert(s[0], t, key)
  }

  lemma {:induction false} InsertPermutation<T>(x: T, s: seq<T>, key: T -> int)
    ensures multiset(Insert(x, s, key)) == multiset{x} + multiset(s)
  {
    if s != [] && key(x) > key(s[0]) {
      InsertPermutation(x, s[1..], key);
      assert s == [s[0]] + s[1..];
    }
  }

  lemma {:induction false} InsertSorted<T>(x: T, s: seq<T>, key: T -> int)
    requires SortedBy(s, key)
    ensures SortedBy(Insert(x, s, key), key)
  {
    var r := Insert(x, s, key);
    if s == [] || key(x) <= key(s[0]) {
      assert r == [x] + s;
      forall i, j | 0 <= i < j < |r| ensures key(r[i]) <= key(r[j]) {
        if i > 0 { assert r[i] == s[i - 1]; }
        assert r[j] == s[j - 1];
      }
    } else {
      var t := Insert(x, s[1..], key);
      SortedTail(s, key);
      InsertSorted(x, s[1..], key);
      InsertPermutation(x, s[1..], key);
      assert r == [s[0]] + t;
      forall i, j | 0 <= i < j < |r| ensures key(r[i]) <= key(r[j]) {
        InsertedBound(x, s, key, j - 1);
        if i > 0 { assert r[i] == t[i - 1]; }
      }
    }
  }

  /** Inserting a larger element behind the head keeps every element at least the head's key. */
  lemma InsertedBound<T>(x: T, s: seq<T>, key: T -> int, j: nat)
    requires SortedBy(s, key) && s != [] && key(x) > key(s[0])
    requires j < |Insert(x, s[1..], key)|
    ensures key(s[0]) <= key(Insert(x, s[1..], key)[j])
  {
    var t := Insert(x, s[1..], key);
    InsertPermutation(x, s[1..], key);
    assert t[j] in multiset(t);
    if t[j] != x {
      assert t[j] in multiset(s[1..]);
      var i :| 0 <= i < |s[1..]| && s[1..][i] == t[j];
      assert s[1..][i] == s[i + 1];
    }
  }

  lemma {:induction false} InsertWithKey<T>(x: T, s: seq<T>, key: T -> int, k: int)
    ensures WithKey(Insert(x, s, key), key, k) == (if key(x) == k then [x] else []) + WithKey(s, key, k)
  {
    var r := Insert(x, s, key);
    if s == [] || key(x) <= key(s[0]) {
      assert r == [x] + s;
      assert r[1..] == s;
      assert WithKey(r, key, k) == (if key(x) == k then [x] else []) + WithKey(s, key, k);
    } else {
      var t := Insert(x, s[1..], key);
      InsertWithKey(x, s[1..], key, k);
      assert r == [s[0]] + t;
      assert r[1..] == t;
      var head: seq<T> := if key(s[0]) == k then [s[0]] else [];
      assert WithKey(r, key, k) == head + WithKey(t, key, k);
      assert WithKey(s, key, k) == head + WithKey(s[1..], key, k);
    }
  }

  /** The sort is stable: among equal keys the input order is kept. */
  lemma {:induction false} SortByStable<T>(s: seq<T>, key: T -> int, k: int)
    ensures WithKey(SortBy(s, key), key, k) == WithKey(s, key, k)
  {
    if s != [] {
      InsertWithKey(s[0], SortBy(s[1..], key), key, k);
      SortByStable(s[1..], key, k);
    }
  }

  lemma WithKeyHead<T>(s: seq<T>, key: T -> int)
    ensures s != [] ==> WithKey(s, key, key(s[0])) != []
  {
  }

  lemma {:induction false} WithKeyEmpty<T>(s: seq<T>, key: T -> int, i: nat)
    requires i < |s|
    ensures WithKey(s, key, key(s[i])) != []
  {
    if i > 0 { WithKeyEmpty(s[1..], key, i - 1); }
  }

  /**
   * Two lists that are ordered by key and agree, key by key, on their
   * elements in order, are equal: these facts pin down the result of a stable sort.
   */
  lemma {:induction false} StableSortUnique<T>(r1: seq<T>, r2: seq<T>, key: T -> int)
    requires SortedBy(r1, key) && SortedBy(r2, key)
    requires forall k :: WithKey(r1, key, k) == WithKey(r2, key, k)
    ensures r1 == r2
    decreases |r1|
  {
    WithKeyHead(r1, key);
    WithKeyHead(r2, key);
    if r1 != [] && r2 != [] {
      var k1, k2 := key(r1[0]), key(r2[0]);
      assert k1 <= k2 by {
        assert WithKey(r1, key, k2) != [] by { WithKeyEmpty(r2, key, 0); }
        WithKeyMember(r1, key, k2);
      }
      assert k2 <= k1 by {
        assert WithKey(r2, key, k1) != [] by { WithKeyEmpty(r1, key, 0); }
        WithKeyMember(r2, key, k1);
      }
      assert WithKey(r1, key, k1)[0] == r1[0];
      assert WithKey(r2, key, k1)[0] == r2[0];
      assert r1[0] == r2[0];
      SortedTail(r1, key);
      SortedTail(r2, key);
      forall k ensures WithKey(r1[1..], key, k) == WithKey(r2[1..], key, k) {
        var head: seq<T> := if key(r1[0]) == k then [r1[0]] else [];
        assert WithKey(r1, key, k) == head + WithKey(r1[1..], key, k);
        assert WithKey(r2, key, k) == head + WithKey(r2[1..], key, k);
        assert WithKey(r1[1..], key, k) == WithKey(r1, key, k)[|head|..];
        assert WithKey(r2[1..], key, k) == WithKey(r2, key, k)[|head|..];
      }
      StableSortUnique(r1[1..], r2[1..], key);
      assert r1 == [r1[0]] + r1[1..] && r2 == [r2[0]] + r2[1..];
    }
  }

  /** A key present in an ordered list is not smaller than its first element's. */
  lemma {:induction false} WithKeyMember<T>(s: seq<T>, key: T -> int, k: int)
    requires SortedBy(s, key) && s != [] && WithKey(s, key, k) != []
    ensures key(s[0]) <= k
  {
    if key(s[0]) != k {
      var i := WithKeyIndex(s, key, k);
      assert key(s[0]) <= key(s[i]);
    }
  }

  lemma {:induction false} WithKeyIndex<T>(s: seq<T>, key: T -> int, k: int) returns (i: nat)
    requires WithKey(s, key, k) != []
    ensures i < |s| && key(s[i]) == k
  {
    if key(s[0]) == k {
      i := 0;
    } else {
      var j := WithKeyIndex(s[1..], key, k);
      i := j + 1;
    }
  }

  lemma SortedTail<T>(s: seq<T>, key: T -> int)
    requires SortedBy(s, key) && s != []
    ensures SortedBy(s[1..], key)
  {
    forall i, j | 0 <= i < j < |s| - 1 ensures key(s[1..][i]) <= key(s[1..][j]) {
      assert s[1..][i] == s[i + 1] && s[1..][j] == s[j + 1];
    }
  }
}
