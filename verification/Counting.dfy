/** Finite sets of integers and how large they are. */
module Counting {

  /** A subset is no larger. */
  lemma {:induction false} SubsetSize<T>(a: set<T>, b: set<T>)
    requires a <= b
    ensures |a| <= |b|
  {
    if a != {} {
      var x :| x in a;
      SubsetSize(a - {x}, b - {x});
    }
  }

  /** The n integers from `from` on. */
  ghost function Interval(from: int, n: nat): (s: set<int>)
    ensures forall x :: x in s <==> from <= x < from + n
    ensures |s| == n
  {
    if n == 0 then {} else Interval(from, n - 1) + {from + n - 1}
  }

  ghost function Elements(s: seq<int>): (e: set<int>)
    ensures forall x :: x in e <==> x in s
  {
    if s == [] then {} else
    var front := s[..|s| - 1];
    assert forall x :: x in s <==> x in front || x == s[|s| - 1] by {
      assert s == front + [s[|s| - 1]];
    }
    Elements(front) + {s[|s| - 1]}
  }

  ghost predicate Distinct(s: seq<int>) {
    forall i, j :: 0 <= i < j < |s| ==> s[i] != s[j]
  }

  lemma {:induction false} ElementsSize(s: seq<int>)
    requires Distinct(s)
    ensures |Elements(s)| == |s|
  {
    if s != [] {
      ElementsSize(s[..|s| - 1]);
    }
  }

  /** Pigeonhole: distinct values in 0..m are no more than m. */
  lemma Pigeonhole(s: seq<int>, m: nat)
    requires Distinct(s) && forall i :: 0 <= i < |s| ==> 0 <= s[i] < m
    ensures |s| <= m
  {
    ElementsSize(s);
    SubsetSize(Elements(s), Interval(0, m));
  }
}
