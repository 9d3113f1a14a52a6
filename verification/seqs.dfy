/** Facts about sequences shared by the card, enumeration and showdown modules. */
module Seqs {
  import opened Wrappers

  /** No value occurs twice. */
  ghost predicate Distinct<T>(s: seq<T>) {
    forall i, j :: 0 <= i < j < |s| ==> s[i] != s[j]
  }

  /** The index of the first element `f` refuses (`|s|` when it refuses none). */
  function FirstErr<A, B, E>(f: A -> Result<B, E>, s: seq<A>): (k: nat)
    ensures k <= |s|
    ensures forall j :: 0 <= j < k ==> f(s[j]).Ok?
    ensures k < |s| ==> f(s[k]).Err?
  {
    if s == [] then 0
    else if f(s[0]).Err? then 0
    else
      var k := FirstErr(f, s[1..]);
      assert forall j :: 1 <= j < 1 + k ==> s[j] == s[1..][j - 1];
      1 + k
  }

  /**
   * `s.map(f)` where `f` may throw: every element's value, in order, or the
   * error of the first element refused.
   */
  function MapAll<A, B, E>(f: A -> Result<B, E>, s: seq<A>): (r: Result<seq<B>, E>)
    ensures r.Ok? <==> FirstErr(f, s) == |s|
    ensures r.Ok? ==> && |r.value| == |s|
                      && forall i :: 0 <= i < |s| ==> f(s[i]) == Ok(r.value[i])
    ensures r.Err? ==> r.error == f(s[FirstErr(f, s)]).error
  {
    if s == [] then Ok([])
    else match f(s[0])
      case Err(e) => Err(e)
      case Ok(b) =>
        var rest := MapAll(f, s[1..]);
        assert forall i :: 1 <= i < |s| ==> s[i] == s[1..][i - 1];
        if rest.Err? then Err(rest.error) else Ok([b] + rest.value)
  }

  /** The first refusal is at `i` when all before `i` are accepted and `i` is refused or past the end. */
  lemma FirstErrAt<A, B, E>(f: A -> Result<B, E>, s: seq<A>, i: nat)
    requires i <= |s|
    requires forall j :: 0 <= j < i ==> f(s[j]).Ok?
    requires i < |s| ==> f(s[i]).Err?
    ensures FirstErr(f, s) == i
  {
  }

  /** When every element is accepted, `MapAll` is their values in order. */
  lemma MapAllOk<A, B, E>(f: A -> Result<B, E>, s: seq<A>, values: seq<B>)
    requires |values| == |s|
    requires forall j :: 0 <= j < |s| ==> f(s[j]) == Ok(values[j])
    ensures MapAll(f, s) == Ok(values)
  {
    FirstErrAt(f, s, |s|);
    var r := MapAll(f, s);
    assert r.Ok? && |r.value| == |values|;
    forall j | 0 <= j < |s| ensures r.value[j] == values[j] {
      assert f(s[j]) == Ok(r.value[j]);
    }
    assert r.value == values;
  }

  /** Extending the values accepted so far by the next element's value keeps them element-wise. */
  lemma OkSnoc<A, B, E>(f: A -> Result<B, E>, s: seq<A>, values: seq<B>, v: B)
    requires |values| < |s|
    requires forall j :: 0 <= j < |values| ==> f(s[j]) == Ok(values[j])
    requires f(s[|values|]) == Ok(v)
    ensures forall j :: 0 <= j < |values| + 1 ==> f(s[j]) == Ok((values + [v])[j])
  {
  }

  /** `c` is obtained from `s` by deleting elements. */
  ghost predicate IsSubsequence<T>(c: seq<T>, s: seq<T>)
    decreases |s|
  {
    if c == [] then true
    else if s == [] then false
    else (c[0] == s[0] && IsSubsequence(c[1..], s[1..])) || IsSubsequence(c, s[1..])
  }

  lemma {:induction false} SubsequenceElements<T>(c: seq<T>, s: seq<T>)
    requires IsSubsequence(c, s)
    ensures forall x :: x in c ==> x in s
    decreases |s|
  {
    if c != [] && s != [] {
      if c[0] == s[0] && IsSubsequence(c[1..], s[1..]) {
        SubsequenceElements(c[1..], s[1..]);
        assert forall x :: x in c ==> x == c[0] || x in c[1..];
      } else {
        SubsequenceElements(c, s[1..]);
      }
    }
  }

  /** A subsequence of a sequence without repeats has no repeats. */
  lemma {:induction false} SubsequenceDistinct<T>(c: seq<T>, s: seq<T>)
    requires IsSubsequence(c, s) && Distinct(s)
    ensures Distinct(c)
    decreases |s|
  {
    if c != [] && s != [] {
      var rest := s[1..];
      assert Distinct(rest) by {
        forall i, j | 0 <= i < j < |rest| ensures rest[i] != rest[j] {
          assert rest[i] == s[i + 1] && rest[j] == s[j + 1];
        }
      }
      if c[0] == s[0] && IsSubsequence(c[1..], rest) {
        SubsequenceDistinct(c[1..], rest);
        SubsequenceElements(c[1..], rest);
        assert s[0] !in rest by {
          forall j | 0 <= j < |rest| ensures rest[j] != s[0] {
            assert rest[j] == s[j + 1];
          }
        }
        forall i, j | 0 <= i < j < |c| ensures c[i] != c[j] {
          if i == 0 {
            assert c[j] == c[1..][j - 1];
            assert c[j] in c[1..];
          } else {
            assert c[i] == c[1..][i - 1] && c[j] == c[1..][j - 1];
          }
        }
      } else {
        SubsequenceDistinct(c, rest);
      }
    }
  }
}
