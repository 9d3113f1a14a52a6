/**
 * The stable in-place sort the source relies on (`Array.prototype.sort` with a
 * numeric comparator `(a, b) => key(a) - key(b)`, which ECMAScript requires to be
 * stable), specified by a functional insertion sort.
 */
module Sorting {

  /** `s` is in ascending order of `key`. */
  ghost predicate SortedBy<T>(s: seq<T>, key: T -> int) {
    forall i, j :: 0 <= i < j < |s| ==> key(s[i]) <= key(s[j])
  }

  /** Inserts `x` into `t` right after the last element whose key is at most `key(x)`. */
  function InsertAfter<T>(t: seq<T>, x: T, key: T -> int): seq<T>
    decreases |t|
  {
    if t == [] || key(t[|t| - 1]) <= key(x) then t + [x]
    else InsertAfter(t[..|t| - 1], x, key) + [t[|t| - 1]]
  }

  /** The stable sort of `s` by ascending `key`: elements with equal keys keep their order. */
  function SortBy<T>(s: seq<T>, key: T -> int): seq<T>
    decreases |s|
  {
    if s == [] then [] else InsertAfter(SortBy(s[..|s| - 1], key), s[|s| - 1], key)
  }

  /** The elements of `s` whose key is `v`, in their order in `s`. */
  function WithKey<T>(s: seq<T>, key: T -> int, v: int): seq<T>
    decreases |s|
  {
    if s == [] then []
    else WithKey(s[..|s| - 1], key, v) + (if key(s[|s| - 1]) == v then [s[|s| - 1]] else [])
  }

  lemma {:induction false} InsertAfterPermutes<T>(t: seq<T>, x: T, key: T -> int)
    ensures multiset(InsertAfter(t, x, key)) == multiset(t) + multiset{x}
    decreases |t|
  {
    if t == [] || key(t[|t| - 1]) <= key(x) {
    } else {
      var init, last := t[..|t| - 1], t[|t| - 1];
      InsertAfterPermutes(init, x, key);
      assert t == init + [last];
    }
  }

  lemma {:induction false} InsertAfterSorted<T>(t: seq<T>, x: T, key: T -> int)
    requires SortedBy(t, key)
    ensures SortedBy(InsertAfter(t, x, key), key)
    decreases |t|
  {
    if t == [] || key(t[|t| - 1]) <= key(x) {
    } else {
      var init, last := t[..|t| - 1], t[|t| - 1];
      InsertAfterSorted(init, x, key);
      InsertAfterPermutes(init, x, key);
      var r := InsertAfter(init, x, key);
      forall k | 0 <= k < |r| ensures key(r[k]) <= key(last) {
        assert r[k] in multiset(r);
        if r[k] == x {
        } else {
          assert r[k] in multiset(init);
          var m :| 0 <= m < |init| && init[m] == r[k];
          assert t[m] == init[m];
        }
      }
    }
  }

  /** Sorting is a permutation of its input. */
  lemma {:induction false} SortByPermutes<T>(s: seq<T>, key: T -> int)
    ensures |SortBy(s, key)| == |s|
    ensures multiset(SortBy(s, key)) == multiset(s)
    decreases |s|
  {
    if s != [] {
      var init, last := s[..|s| - 1], s[|s| - 1];
      SortByPermutes(init, key);
      InsertAfterPermutes(SortBy(init, key), last, key);
      assert s == init + [last];
      assert |multiset(SortBy(s, key))| == |multiset(s)|;
    }
  }

  /** Sorting yields ascending keys. */
  lemma {:induction false} SortBySorted<T>(s: seq<T>, key: T -> int)
    ensures SortedBy(SortBy(s, key), key)
    decreases |s|
  {
    if s != [] {
      SortBySorted(s[..|s| - 1], key);
      InsertAfterSorted(SortBy(s[..|s| - 1], key), s[|s| - 1], key);
    }
  }

  lemma {:induction false} InsertAfterKeepsKeyOrder<T>(t: seq<T>, x: T, key: T -> int, v: int)
    ensures WithKey(InsertAfter(t, x, key), key, v)
         == WithKey(t, key, v) + (if key(x) == v then [x] else [])
    decreases |t|
  {
    if t == [] || key(t[|t| - 1]) <= key(x) {
      var r := t + [x];
      assert r[..|r| - 1] == t;
    } else {
      var init, last := t[..|t| - 1], t[|t| - 1];
      InsertAfterKeepsKeyOrder(init, x, key, v);
      var r := InsertAfter(init, x, key) + [last];
      assert r[..|r| - 1] == InsertAfter(init, x, key);
    }
  }

  /** Stability: for every key value, the elements with that key keep their relative order. */
  lemma {:induction false} SortByStable<T>(s: seq<T>, key: T -> int, v: int)
    ensures WithKey(SortBy(s, key), key, v) == WithKey(s, key, v)
    decreases |s|
  {
    if s != [] {
      var init, last := s[..|s| - 1], s[|s| - 1];
      SortByStable(init, key, v);
      InsertAfterKeepsKeyOrder(SortBy(init, key), last, key, v);
    }
  }

  /** The first element after sorting is an element of the input with the least key. */
  lemma SortByHeadIsLeast<T>(s: seq<T>, key: T -> int)
    requires |s| > 0
    ensures |SortBy(s, key)| == |s|
    ensures SortBy(s, key)[0] in s
    ensures forall y :: y in s ==> key(SortBy(s, key)[0]) <= key(y)
  {
    var r := SortBy(s, key);
    SortByPermutes(s, key);
    SortBySorted(s, key);
    assert r[0] in multiset(r);
    forall y | y in s ensures key(r[0]) <= key(y) {
      assert y in multiset(s);
      var m :| 0 <= m < |r| && r[m] == y;
      if m > 0 {
        assert key(r[0]) <= key(r[m]);
      }
    }
  }

  /** `WithKey` keeps every element whose key is `v`, as often as it occurs, and nothing else. */
  lemma {:induction false} WithKeyCounts<T>(s: seq<T>, key: T -> int, v: int)
    ensures forall x :: multiset(WithKey(s, key, v))[x] == if key(x) == v then multiset(s)[x] else 0
    decreases |s|
  {
    if s != [] {
      var init, last := s[..|s| - 1], s[|s| - 1];
      WithKeyCounts(init, key, v);
      assert s == init + [last];
    }
  }

  /** `InsertAfter` places `x` at the index `j` that follows every key at most `key(x)`. */
  lemma {:induction false} InsertAfterAt<T>(t: seq<T>, j: nat, x: T, key: T -> int)
    requires j <= |t|
    requires j == 0 || key(t[j - 1]) <= key(x)
    requires forall k :: j <= k < |t| ==> key(t[k]) > key(x)
    ensures InsertAfter(t, x, key) == t[..j] + [x] + t[j..]
    decreases |t|
  {
    if j == |t| {
      assert t[..j] == t;
    } else {
      var init := t[..|t| - 1];
      InsertAfterAt(init, j, x, key);
      assert init[..j] == t[..j];
      assert init[j..] + [t[|t| - 1]] == t[j..];
    }
  }

  lemma {:induction false} WithKeyNone<T>(s: seq<T>, key: T -> int, v: int)
    requires forall j :: 0 <= j < |s| ==> key(s[j]) != v
    ensures WithKey(s, key, v) == []
    decreases |s|
  {
    if s != [] {
      WithKeyNone(s[..|s| - 1], key, v);
    }
  }

  /** The first element with key `v` heads the elements with key `v`. */
  lemma {:induction false} WithKeyHead<T>(s: seq<T>, key: T -> int, v: int, i: nat)
    requires i < |s| && key(s[i]) == v
    requires forall j :: 0 <= j < i ==> key(s[j]) != v
    ensures |WithKey(s, key, v)| > 0 && WithKey(s, key, v)[0] == s[i]
    decreases |s|
  {
    var init := s[..|s| - 1];
    if i == |s| - 1 {
      WithKeyNone(init, key, v);
    } else {
      WithKeyHead(init, key, v, i);
    }
  }

  /**
   * Because the sort is stable, its first element is the FIRST element of the
   * input that has the least key.
   */
  lemma SortByHeadIsFirstLeast<T>(s: seq<T>, key: T -> int)
    requires |s| > 0
    ensures |SortBy(s, key)| == |s|
    ensures exists i :: && 0 <= i < |s| && SortBy(s, key)[0] == s[i]
                        && (forall j :: 0 <= j < |s| ==> key(s[i]) <= key(s[j]))
                        && (forall j :: 0 <= j < i ==> key(s[j]) > key(s[i]))
  {
    SortByHeadIsLeast(s, key);
    var r := SortBy(s, key);
    var m := key(r[0]);
    assert exists i :: 0 <= i < |s| && key(s[i]) == m by {
      var i :| 0 <= i < |s| && s[i] == r[0];
    }
    var i :| 0 <= i < |s| && key(s[i]) == m && forall j :: 0 <= j < i ==> key(s[j]) != m by {
      var first := FirstWithKey(s, key, m);
      assert 0 <= first < |s| && key(s[first]) == m;
    }
    WithKeyHead(s, key, m, i);
    WithKeyHead(r, key, m, 0);
    SortByStable(s, key, m);
    forall j | 0 <= j < i ensures key(s[j]) > key(s[i]) {
      assert s[j] in s;
    }
  }

  /** The index of the first element of `s` whose key is `v`, when there is one. */
  function FirstWithKey<T>(s: seq<T>, key: T -> int, v: int): (i: nat)
    requires exists k :: 0 <= k < |s| && key(s[k]) == v
    ensures i < |s| && key(s[i]) == v
    ensures forall j :: 0 <= j < i ==> key(s[j]) != v
  {
    if key(s[0]) == v then 0
    else
      assert exists k :: 0 <= k < |s[1..]| && key(s[1..][k]) == v by {
        var k :| 0 <= k < |s| && key(s[k]) == v;
        assert s[1..][k - 1] == s[k];
      }
      1 + FirstWithKey(s[1..], key, v)
  }

  /**
   * Moves `a[i]` left past the elements of the sorted prefix `a[..i]` whose key is
   * strictly greater than its own.
   */
  method InsertLeft<T>(a: array<T>, i: nat, key: T -> int)
    requires i < a.Length
    modifies a
    ensures a[..i + 1] == InsertAfter(old(a[..i]), old(a[i]), key)
    ensures a[i + 1..] == old(a[i + 1..])
  {
    var x := a[i];
    ghost var t := a[..i];
    var j := i;
    while j > 0 && key(a[j - 1]) > key(x)
      invariant 0 <= j <= i
      invariant forall k :: 0 <= k < j ==> a[k] == t[k]
      invariant forall k :: j < k <= i ==> a[k] == t[k - 1]
      invariant forall k :: i < k < a.Length ==> a[k] == old(a[k])
      invariant forall k :: j <= k < i ==> key(t[k]) > key(x)
    {
      a[j] := a[j - 1];
      j := j - 1;
    }
    a[j] := x;
    InsertAfterAt(t, j, x, key);
    assert a[..i + 1] == t[..j] + [x] + t[j..];
  }

  /** Sorts `a` in place, stably, by ascending `key` (insertion sort). */
  method SortByKey<T>(a: array<T>, key: T -> int)
    modifies a
    ensures a[..] == SortBy(old(a[..]), key)
  {
    ghost var s := a[..];
    var i := 0;
    while i < a.Length
      invariant 0 <= i <= a.Length
      invariant a[..i] == SortBy(s[..i], key)
      invariant a[i..] == s[i..]
    {
      assert s[..i + 1][..i] == s[..i];
      InsertLeft(a, i, key);
      i := i + 1;
    }
    assert s[..a.Length] == s;
  }
}
