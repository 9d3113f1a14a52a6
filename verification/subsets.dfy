/**
 * The k-element subsets enumerated by `combinations` in src/lib/showdown.js:
 * a recursive `pick(start, acc)` that pushes `acc` into `out` once it has `k`
 * elements and otherwise tries each later index in turn.
 */
module Subsets {
  import opened Seqs


  /** `cs` with `p` put in front of each element. */
  function Prefixed<T>(p: seq<T>, cs: seq<seq<T>>): (r: seq<seq<T>>)
    ensures |r| == |cs|
  {
    seq(|cs|, i requires 0 <= i < |cs| => p + cs[i])
  }

  /**
   * The `k`-element subsequences of `s` in lexicographic order of their indices:
   * first those that take `s[0]`, then those that skip it.
   */
  function Choose<T>(s: seq<T>, k: nat): seq<seq<T>>
    decreases |s|
  {
    if k == 0 then [[]]
    else if s == [] then []
    else Prefixed([s[0]], Choose(s[1..], k - 1)) + Choose(s[1..], k)
  }

  /** Pascal's triangle: the number of `k`-element subsets of an `n`-element set. */
  function Binomial(n: nat, k: nat): nat {
    if k == 0 then 1
    else if n == 0 then 0
    else Binomial(n - 1, k - 1) + Binomial(n - 1, k)
  }

  lemma PrefixedAppend<T>(p: seq<T>, a: seq<seq<T>>, b: seq<seq<T>>)
    ensures Prefixed(p, a + b) == Prefixed(p, a) + Prefixed(p, b)
  {
  }

  lemma PrefixedTwice<T>(p: seq<T>, x: T, cs: seq<seq<T>>)
    ensures Prefixed(p, Prefixed([x], cs)) == Prefixed(p + [x], cs)
  {
    forall i | 0 <= i < |cs| ensures p + ([x] + cs[i]) == (p + [x]) + cs[i] { }
  }

  /** There are `Binomial(|s|, k)` results; in particular 21 five-card hands from seven cards. */
  lemma {:induction false} ChooseCount<T>(s: seq<T>, k: nat)
    ensures |Choose(s, k)| == Binomial(|s|, k)
    decreases |s|
  {
    if k > 0 && s != [] {
      ChooseCount(s[1..], k - 1);
      ChooseCount(s[1..], k);
    }
  }

  lemma SevenChooseFive()
    ensures Binomial(7, 5) == 21
  {
    assert Binomial(2, 0) == 1 && Binomial(2, 1) == 2 && Binomial(2, 2) == 1;
    assert Binomial(3, 1) == 3 && Binomial(3, 2) == 3 && Binomial(3, 3) == 1;
    assert Binomial(4, 2) == 6 && Binomial(4, 3) == 4 && Binomial(4, 4) == 1;
    assert Binomial(5, 3) == 10 && Binomial(5, 4) == 5 && Binomial(5, 5) == 1;
    assert Binomial(6, 4) == 15 && Binomial(6, 5) == 6;
  }

  /** Seven cards make 21 five-card hands. */
  lemma FiveOfSeven<T>(seven: seq<T>)
    requires |seven| == 7
    ensures |Choose(seven, 5)| == 21
  {
    ChooseCount(seven, 5);
    SevenChooseFive();
  }

  /** Every result is a subsequence of `s` with exactly `k` elements. */
  lemma {:induction false} ChooseSound<T>(s: seq<T>, k: nat, c: seq<T>)
    requires c in Choose(s, k)
    ensures |c| == k && IsSubsequence(c, s)
    decreases |s|
  {
    if k == 0 {
    } else if s != [] {
      var firsts := Prefixed([s[0]], Choose(s[1..], k - 1));
      if c in firsts {
        var i :| 0 <= i < |firsts| && firsts[i] == c;
        var d := Choose(s[1..], k - 1)[i];
        ChooseSound(s[1..], k - 1, d);
        assert c[1..] == d;
      } else {
        ChooseSound(s[1..], k, c);
        if c != [] {
          assert IsSubsequence(c, s[1..]);
        }
      }
    }
  }

  /** Every `k`-element subsequence of `s` is among the results. */
  lemma {:induction false} ChooseComplete<T>(s: seq<T>, k: nat, c: seq<T>)
    requires |c| == k && IsSubsequence(c, s)
    ensures c in Choose(s, k)
    decreases |s|
  {
    if k == 0 {
      assert c == [];
    } else {
      assert s != [];
      if c[0] == s[0] && IsSubsequence(c[1..], s[1..]) {
        ChooseComplete(s[1..], k - 1, c[1..]);
        var rest := Choose(s[1..], k - 1);
        var i :| 0 <= i < |rest| && rest[i] == c[1..];
        assert Prefixed([s[0]], rest)[i] == [s[0]] + c[1..] == c;
      } else {
        ChooseComplete(s[1..], k, c);
      }
    }
  }

  /** When the elements of `s` are distinct, no result occurs twice: each subset is listed once. */
  lemma {:induction false} ChooseDistinct<T>(s: seq<T>, k: nat)
    requires Distinct(s)
    ensures Distinct(Choose(s, k))
    decreases |s|
  {
    if k > 0 && s != [] {
      var rest := s[1..];
      assert Distinct(rest) by {
        forall i, j | 0 <= i < j < |rest| ensures rest[i] != rest[j] {
          assert rest[i] == s[i + 1] && rest[j] == s[j + 1];
        }
      }
      ChooseDistinct(rest, k - 1);
      ChooseDistinct(rest, k);
      var a := Prefixed([s[0]], Choose(rest, k - 1));
      var b := Choose(rest, k);
      assert s[0] !in rest by {
        forall j | 0 <= j < |rest| ensures rest[j] != s[0] {
          assert rest[j] == s[j + 1];
        }
      }
      forall i, j | 0 <= i < j < |a + b| ensures (a + b)[i] != (a + b)[j] {
        if j < |a| {
          assert a[i][1..] == Choose(rest, k - 1)[i];
          assert a[j][1..] == Choose(rest, k - 1)[j];
        } else if i >= |a| {
          assert (a + b)[i] == b[i - |a|] && (a + b)[j] == b[j - |a|];
        } else {
          var y := b[j - |a|];
          ChooseSound(rest, k, y);
          SubsequenceElements(y, rest);
          assert y[0] in rest;
          assert a[i][0] == s[0];
        }
      }
    }
  }

  lemma PrefixedEmpty<T>(cs: seq<seq<T>>)
    ensures Prefixed([], cs) == cs
  {
    forall i | 0 <= i < |cs| ensures [] + cs[i] == cs[i] { }
  }

  /** One iteration of `pick`'s loop: the completions from index `i` on, split on taking `arr[i]`. */
  lemma ChooseStep<T>(arr: seq<T>, i: nat, need: nat, acc: seq<T>)
    requires i < |arr| && need > 0
    ensures Prefixed(acc, Choose(arr[i..], need))
         == Prefixed(acc + [arr[i]], Choose(arr[i + 1..], need - 1)) + Prefixed(acc, Choose(arr[i + 1..], need))
  {
    var here := arr[i..];
    assert here[1..] == arr[i + 1..];
    assert Choose(here, need) == Prefixed([arr[i]], Choose(arr[i + 1..], need - 1)) + Choose(arr[i + 1..], need);
    PrefixedAppend(acc, Prefixed([arr[i]], Choose(arr[i + 1..], need - 1)), Choose(arr[i + 1..], need));
    PrefixedTwice(acc, arr[i], Choose(arr[i + 1..], need - 1));
  }

  /**
   * `pick(start, acc)` appends to `out` each completion of `acc` by `k - |acc|`
   * elements taken from `arr[start..]`, in order.
   */
  method Pick<T>(arr: seq<T>, k: nat, start: nat, acc: seq<T>, out: seq<seq<T>>) returns (out': seq<seq<T>>)
    requires start <= |arr| && |acc| <= k
    ensures out' == out + Prefixed(acc, Choose(arr[start..], k - |acc|))
    decreases k - |acc|
  {
    if |acc| == k {
      assert acc + [] == acc;
      assert Prefixed(acc, [[]]) == [acc];
      return out + [acc];
    }
    var need := k - |acc|;
    ghost var target := out + Prefixed(acc, Choose(arr[start..], need));
    out' := out;
    for i := start to |arr|
      invariant out' + Prefixed(acc, Choose(arr[i..], need)) == target
    {
      ChooseStep(arr, i, need, acc);
      var taken := acc + [arr[i]];
      assert k - |taken| == need - 1;
      ghost var before := out';
      ghost var withIt := Prefixed(taken, Choose(arr[i + 1..], need - 1));
      ghost var withoutIt := Prefixed(acc, Choose(arr[i + 1..], need));
      out' := Pick(arr, k, i + 1, taken, out');
      assert out' == before + withIt;
      AppendRegroup(before, out', withIt, withoutIt);
    }
    assert arr[|arr|..] == [];
  }

  lemma AppendRegroup<T>(before: seq<T>, after: seq<T>, taken: seq<T>, skipped: seq<T>)
    requires after == before + taken
    ensures after + skipped == before + (taken + skipped)
  {
  }

  /** `combinations(arr, k)`: every `k`-element subsequence of `arr`, each once, in lexicographic index order. */
  method Combinations<T>(arr: seq<T>, k: nat) returns (out: seq<seq<T>>)
    ensures out == Choose(arr, k)
  {
    out := Pick(arr, k, 0, [], []);
    assert arr[0..] == arr;
    PrefixedEmpty(Choose(arr, k));
  }
}
