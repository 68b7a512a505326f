/** Scans over sequences shared by the search and the agents. */
module Seqs {
  import opened Wrappers

  /**
   * The first strict maximum: the running-maximum scan "replace the best when strictly
   * greater", read from left to right, ends on this index.
   */
  function FirstMax(s: seq<real>): (k: nat)
    requires |s| > 0
    ensures k < |s|
    ensures forall j :: 0 <= j < |s| ==> s[j] <= s[k]
    ensures forall j :: 0 <= j < k ==> s[j] < s[k]
  {
    if |s| == 1 then 0
    else
      var k := FirstMax(s[..|s| - 1]);
      if s[|s| - 1] > s[k] then |s| - 1 else k
  }

  /**
   * The running-maximum scan: walk the sequence keeping the first element strictly greater
   * than the best so far, which starts at a floor below every element.
   */
  method ScanMax(s: seq<real>, floor: real) returns (k: nat)
    requires |s| > 0 && forall j :: 0 <= j < |s| ==> s[j] > floor
    ensures k == FirstMax(s)
  {
    var max := floor;
    k := 0;
    for i := 0 to |s|
      invariant i == 0 ==> max == floor
      invariant i > 0 ==> k == FirstMax(s[..i]) && max == s[k]
    {
      assert s[..i + 1][..i] == s[..i];
      if s[i] > max {
        max := s[i];
        k := i;
      }
    }
    assert s[..|s|] == s;
  }

  predicate Distinct<T(==)>(s: seq<T>)
  {
    forall i, j :: 0 <= i < j < |s| ==> s[i] != s[j]
  }

  predicate Increasing(s: seq<int>)
  {
    forall i, j :: 0 <= i < j < |s| ==> s[i] < s[j]
  }

  /** Appending a value above every element keeps a sequence strictly increasing. */
  lemma IncreasingAppend(s: seq<int>, x: int)
    requires Increasing(s) && forall k :: 0 <= k < |s| ==> s[k] < x
    ensures Increasing(s + [x])
  {
  }

  /** In a strictly increasing sequence every value occurs at most once. */
  lemma {:induction false} IncreasingOccurrences(s: seq<int>, x: int)
    requires Increasing(s)
    ensures multiset(s)[x] == if x in s then 1 else 0
  {
    if s != [] {
      assert s == [s[0]] + s[1..];
      IncreasingOccurrences(s[1..], x);
      if x == s[0] {
        assert x !in s[1..];
      }
    }
  }

  /** The elements of a sequence, as a set. */
  ghost function Elems<T>(s: seq<T>): set<T>
  {
    set x | x in s
  }

  /** A duplicate-free sequence has as many distinct elements as positions. */
  lemma {:induction false} DistinctCard<T>(s: seq<T>)
    requires Distinct(s)
    ensures |Elems(s)| == |s|
  {
    if s != [] {
      var tail := s[1..];
      DistinctCard(tail);
      assert Elems(s) == {s[0]} + Elems(tail);
      assert s[0] !in tail;
    }
  }

  /** A sequence has at most as many distinct elements as positions. */
  lemma {:induction false} ElemsBound<T>(s: seq<T>)
    ensures |Elems(s)| <= |s|
  {
    if s != [] {
      ElemsBound(s[1..]);
      assert Elems(s) == {s[0]} + Elems(s[1..]);
    }
  }

  /** Dropping the later of two equal elements keeps the set of elements. */
  lemma ElemsWithout<T>(s: seq<T>, i: nat, j: nat)
    requires i < j < |s|
    ensures s[i] == s[j] ==> Elems(s) == Elems(s[..j] + s[j + 1..])
  {
    var r := s[..j] + s[j + 1..];
    if s[i] == s[j] {
      forall x | x in Elems(s) ensures x in Elems(r) {
        var k :| 0 <= k < |s| && s[k] == x;
        if k < j {
          assert r[k] == x;
        } else if k > j {
          assert r[k - 1] == x;
        } else {
          assert r[i] == x;
        }
      }
      forall x | x in Elems(r) ensures x in Elems(s) {
        var k :| 0 <= k < |r| && r[k] == x;
        if k < j {
          assert s[k] == x;
        } else {
          assert s[k + 1] == x;
        }
      }
    }
  }

  /** A sequence with as many distinct elements as positions has no repeated element. */
  lemma FullElemsDistinct<T>(s: seq<T>)
    requires |Elems(s)| == |s|
    ensures Distinct(s)
  {
    forall i, j | 0 <= i < j < |s| ensures s[i] != s[j] {
      ElemsWithout(s, i, j);
      ElemsBound(s[..j] + s[j + 1..]);
    }
  }

  /** A subset is no larger than its superset, and equal to it when as large. */
  lemma SubsetCard<T>(a: set<T>, b: set<T>)
    requires a <= b
    ensures |a| <= |b|
    ensures |a| == |b| ==> a == b
  {
    assert b == (b - a) + a;
    assert (b - a) * a == {};
    if |a| == |b| {
      assert |b - a| == 0;
    }
  }
}
