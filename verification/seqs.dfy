/** Ordered-list operations the record keeper performs with comprehensions
    (`[x for x in xs if p(x)]`) and generator lookups (`next((x for x in xs if p(x)), None)`). */
module Seqs {
  import opened Wrappers

  /** `r` can be obtained from `s` by deleting elements, keeping the order of the rest. */
  predicate IsSubsequence<T(==)>(r: seq<T>, s: seq<T>)
    decreases |s|
  {
    r == [] || (s != [] && ((r[0] == s[0] && IsSubsequence(r[1..], s[1..])) || IsSubsequence(r, s[1..])))
  }

  /** `s` never goes down in `rank`. */
  predicate Ascending<T>(s: seq<T>, rank: T -> int) {
    forall i, j | 0 <= i < j < |s| :: rank(s[i]) <= rank(s[j])
  }

  /** `[x for x in s if p(x)]`: the elements satisfying `p`, each as often as in
      `s`, in the order of `s`; the others are gone. */
  function Filter<T(==,!new)>(s: seq<T>, p: T -> bool): (r: seq<T>)
    ensures IsSubsequence(r, s)
    decreases |s|
  {
    if s == [] then []
    else
      var rest := Filter(s[1..], p);
      assert s == [s[0]] + s[1..];
      if p(s[0]) then
        assert ([s[0]] + rest)[1..] == rest;
        [s[0]] + rest
      else
        rest
  }

  /** Filtering keeps every element satisfying `p` as often as it occurs in
      `s`, and no other element. */
  lemma {:induction false} FilterCounts<T(!new)>(s: seq<T>, p: T -> bool)
    ensures forall x :: multiset(Filter(s, p))[x] == if p(x) then multiset(s)[x] else 0
    ensures forall x :: x in Filter(s, p) <==> x in s && p(x)
    decreases |s|
  {
    if s != [] {
      FilterCounts(s[1..], p);
      assert s == [s[0]] + s[1..];
      assert multiset(s) == multiset{s[0]} + multiset(s[1..]);
      var rest := Filter(s[1..], p);
      if p(s[0]) {
        assert Filter(s, p) == [s[0]] + rest;
        assert multiset(Filter(s, p)) == multiset{s[0]} + multiset(rest);
      } else {
        assert Filter(s, p) == rest;
      }
      forall x
        ensures x in Filter(s, p) <==> x in s && p(x)
      {
        assert x in Filter(s, p) <==> multiset(Filter(s, p))[x] > 0;
        assert x in s <==> multiset(s)[x] > 0;
      }
    }
  }

  /** Filtering with a condition every element meets changes nothing. */
  lemma {:induction false} FilterKeepsAll<T(!new)>(s: seq<T>, p: T -> bool)
    requires forall k | 0 <= k < |s| :: p(s[k])
    ensures Filter(s, p) == s
    decreases |s|
  {
    if s != [] {
      FilterKeepsAll(s[1..], p);
    }
  }

  /** Deleting elements from an ascending sequence leaves it ascending. */
  lemma {:induction false} SubsequenceAscending<T>(r: seq<T>, s: seq<T>, rank: T -> int)
    requires IsSubsequence(r, s) && Ascending(s, rank)
    ensures Ascending(r, rank)
    decreases |s|
  {
    if r != [] {
      assert s != [];
      assert Ascending(s[1..], rank);
      if r[0] == s[0] && IsSubsequence(r[1..], s[1..]) {
        SubsequenceAscending(r[1..], s[1..], rank);
        SubsequenceElements(r[1..], s[1..]);
        forall j | 0 < j < |r|
          ensures rank(r[0]) <= rank(r[j])
        {
          assert r[j] == r[1..][j - 1];
          var k :| 0 <= k < |s[1..]| && s[1..][k] == r[j];
          assert s[k + 1] == r[j];
        }
        forall i, j | 0 <= i < j < |r|
          ensures rank(r[i]) <= rank(r[j])
        {
          if i > 0 {
            assert r[i] == r[1..][i - 1] && r[j] == r[1..][j - 1];
          }
        }
      } else {
        SubsequenceAscending(r, s[1..], rank);
      }
    }
  }

  /** Every element of a subsequence sits somewhere in the sequence. */
  lemma {:induction false} SubsequenceElements<T>(r: seq<T>, s: seq<T>)
    requires IsSubsequence(r, s)
    ensures forall i | 0 <= i < |r| :: exists k :: 0 <= k < |s| && s[k] == r[i]
    decreases |s|
  {
    if r != [] {
      if r[0] == s[0] && IsSubsequence(r[1..], s[1..]) {
        SubsequenceElements(r[1..], s[1..]);
        forall i | 0 < i < |r|
          ensures exists k :: 0 <= k < |s| && s[k] == r[i]
        {
          assert r[i] == r[1..][i - 1];
          var k :| 0 <= k < |s[1..]| && s[1..][k] == r[i];
          assert s[k + 1] == r[i];
        }
        assert s[0] == r[0];
      } else {
        SubsequenceElements(r, s[1..]);
        forall i | 0 <= i < |r|
          ensures exists k :: 0 <= k < |s| && s[k] == r[i]
        {
          var k :| 0 <= k < |s[1..]| && s[1..][k] == r[i];
          assert s[k + 1] == r[i];
        }
      }
    }
  }

  /** `next((x for x in s if p(x)), None)`, by position: the index of the first
      element satisfying `p`, or `None` when there is none. */
  function FirstIndex<T>(s: seq<T>, p: T -> bool): (r: Option<nat>)
    ensures r.Some? ==> r.value < |s| && p(s[r.value]) && forall j | 0 <= j < r.value :: !p(s[j])
    ensures r.None? <==> forall j | 0 <= j < |s| :: !p(s[j])
    decreases |s|
  {
    if s == [] then None
    else if p(s[0]) then Some(0)
    else
      match FirstIndex(s[1..], p)
      case None => None
      case Some(k) => Some(k + 1)
  }
}
