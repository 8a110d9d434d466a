/** Cardinality facts shared by the generator's stack bound and the solvers' buffer
    bounds: a container of distinct cells drawn from a finite range is no larger than it. */
module Counting {

  lemma DisjointUnionSize<T>(a: set<T>, b: set<T>)
    requires a !! b
    ensures |a + b| == |a| + |b|
  {
  }

  /** A subset is no larger, and a proper subset is smaller. */
  lemma {:induction false} SubsetSize<T>(a: set<T>, b: set<T>)
    requires a <= b
    ensures |a| <= |b|
    ensures a < b ==> |a| < |b|
  {
    assert b == a + (b - a);
    DisjointUnionSize(a, b - a);
    if a < b {
      var x :| x in b && x !in a;
      assert x in b - a;
    }
  }

  /** No entry occurs twice. */
  predicate Distinct<T(==)>(s: seq<T>) {
    forall j, k :: 0 <= j < k < |s| ==> s[j] != s[k]
  }

  /** The entries of `s` as a set. */
  function Members<T(!new)>(s: seq<T>): (m: set<T>)
    ensures forall x :: x in m <==> x in s
  {
    set x | x in s
  }

  /** A sequence without repeats has as many members as entries. */
  lemma {:induction false} DistinctMembers<T(!new)>(s: seq<T>)
    requires Distinct(s)
    ensures |Members(s)| == |s|
  {
    if |s| > 0 {
      var s' := s[..|s| - 1];
      var x := s[|s| - 1];
      assert s == s' + [x];
      assert Distinct(s');
      DistinctMembers(s');
      assert x !in s';
      assert Members(s) == Members(s') + {x};
    }
  }

  /** The flat indices `0 .. n - 1`, with exactly `n` members. */
  function Range(n: nat): (r: set<int>)
    ensures forall i :: i in r <==> 0 <= i < n
    ensures |r| == n
  {
    if n == 0 then {} else Range(n - 1) + {n - 1}
  }

  /** A sequence of distinct indices below `n` has at most `n` entries. */
  lemma DistinctBound(s: seq<int>, n: nat)
    requires Distinct(s) && forall k :: 0 <= k < |s| ==> 0 <= s[k] < n
    ensures |s| <= n
  {
    DistinctMembers(s);
    SubsetSize(Members(s), Range(n));
  }

  /** A sequence without repeats whose entries all occur in another sequence without
      repeats is no longer than it. */
  lemma DistinctWithin<T(!new)>(a: seq<T>, b: seq<T>)
    requires Distinct(a) && Distinct(b) && forall k :: 0 <= k < |a| ==> a[k] in b
    ensures |a| <= |b|
  {
    DistinctMembers(a);
    DistinctMembers(b);
    SubsetSize(Members(a), Members(b));
  }
}
