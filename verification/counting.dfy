/** Cardinality facts about finite sets of vertex indices and vertex pairs,
    shared by the degree, edge-count and connectivity proofs. */
module Counting {

  /** The vertex indices 0 .. n-1. */
  function Range(n: int): (r: set<int>)
    ensures forall x :: x in r <==> 0 <= x < n
  {
    if n <= 0 then {} else Range(n - 1) + {n - 1}
  }

  lemma {:induction false} RangeCard(n: nat)
    ensures |Range(n)| == n
  {
    if n > 0 {
      var below := Range(n - 1);
      RangeCard(n - 1);
      assert n - 1 !in below;
      assert |below + {n - 1}| == |below| + 1;
    }
  }

  /** A subset of a finite set with the same size is the whole set. */
  lemma SubsetSameCard<T>(a: set<T>, b: set<T>)
    requires a <= b && |a| == |b|
    ensures a == b
  {
    var d := b - a;
    assert b == a + d;
    assert |b| == |a| + |d|;
  }

  /** Subsets are no larger than their supersets. */
  lemma SubsetCard<T>(a: set<T>, b: set<T>)
    requires a <= b
    ensures |a| <= |b|
  {
    var d := b - a;
    assert b == a + d;
    assert |b| == |a| + |d|;
  }

  /** A set of vertex indices is empty or has a member to pick. */
  lemma EmptyOrMember(s: set<int>)
    ensures s == {} || exists x :: x in s
  {
    if !exists x :: x in s {
      assert s == {};
    }
  }

  /** A subset of 0 .. n-1 has at most n elements, and exactly n only if it is all of them. */
  lemma SubsetOfRange(s: set<int>, n: nat)
    requires s <= Range(n)
    ensures |s| <= n
    ensures |s| == n <==> s == Range(n)
  {
    RangeCard(n);
    SubsetCard(s, Range(n));
    if |s| == n {
      SubsetSameCard(s, Range(n));
    }
  }

  /** The members of s below i, the part a scan over 0 .. i-1 has seen. */
  function Below(s: set<int>, i: int): (r: set<int>)
    ensures forall x :: x in r <==> x in s && 0 <= x < i
  {
    set x | x in s && 0 <= x < i
  }

  /** One more index scanned: the seen part grows by that index exactly when it is in s. */
  lemma BelowStep(s: set<int>, i: nat)
    ensures |Below(s, i + 1)| == |Below(s, i)| + (if i in s then 1 else 0)
  {
    if i in s {
      assert Below(s, i + 1) == Below(s, i) + {i};
    } else {
      assert Below(s, i + 1) == Below(s, i);
    }
  }

  /** A scan that has covered 0 .. n-1 has seen every member of a subset of Range(n). */
  lemma BelowAll(s: set<int>, n: int)
    requires forall x :: x in s ==> 0 <= x < n
    ensures Below(s, n) == s
  {
  }

  /** The pairs (k, v) for v in s. */
  function Row(k: int, s: set<int>): set<(int, int)>
  {
    set v | v in s :: (k, v)
  }

  lemma {:induction false} RowCard(k: int, s: set<int>)
    ensures |Row(k, s)| == |s|
    decreases |s|
  {
    EmptyOrMember(s);
    if s != {} {
      var x :| x in s;
      RowCard(k, s - {x});
      assert Row(k, s) == Row(k, s - {x}) + {(k, x)};
      assert (k, x) !in Row(k, s - {x});
    } else {
      assert Row(k, s) == {};
    }
  }
}
