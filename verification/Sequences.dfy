/**
 Facts about finite sequences that several components share.
 */
module Sequences {

  ghost predicate Distinct<T>(s: seq<T>) {
    forall i, j :: 0 <= i < j < |s| ==> s[i] != s[j]
  }

  function Elems<T>(s: seq<T>): set<T> {
    set x | x in s
  }

  /** Position of the first occurrence, like `Array.prototype.indexOf` on an element that is present. */
  function IndexOf<T(==)>(s: seq<T>, x: T): (k: nat)
    requires x in s
    ensures k < |s| && s[k] == x && x !in s[..k]
  {
    if s[0] == x then 0 else 1 + IndexOf(s[1..], x)
  }

  lemma {:induction false} DistinctCount<T>(s: seq<T>)
    requires Distinct(s)
    ensures |Elems(s)| == |s|
  {
    if s != [] {
      var front, last := s[..|s| - 1], s[|s| - 1];
      assert s == front + [last];
      assert Distinct(front) && last !in front;
      hide Distinct;
      DistinctCount(front);
      ElemsSnoc(front, last);
    }
  }

  lemma ElemsSnoc<T>(s: seq<T>, x: T)
    ensures Elems(s + [x]) == Elems(s) + {x}
    ensures x in Elems(s) <==> x in s
  {
  }

  /** Pigeonhole: distinct elements of a finite set are no more than the set. */
  lemma DistinctFits<T>(s: seq<T>, u: set<T>)
    requires Distinct(s) && Elems(s) <= u
    ensures |s| <= |u|
    ensures |s| == |u| ==> Elems(s) == u
  {
    DistinctCount(s);
    SubsetSize(Elems(s), u);
  }

  lemma SubsetSize<T>(a: set<T>, b: set<T>)
    requires a <= b
    ensures |a| <= |b|
    ensures |a| == |b| ==> a == b
  {
    assert b == a + (b - a);
    assert |b| == |a| + |b - a|;
  }
}
