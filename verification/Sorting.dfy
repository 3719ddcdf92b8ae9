/** Ascending enumeration of finite sets of numbers, as sorted vectors and B-tree iterators give it. */
module Sorting {
  import opened Words

  ghost predicate Ascending(r: seq<u64>)
  {
    forall i, j :: 0 <= i < j < |r| ==> r[i] < r[j]
  }

  lemma HasLeast(s: set<u64>)
    requires s != {}
    ensures exists m :: m in s && forall k :: k in s ==> m <= k
  {
    var c :| c in s;
    HasLeastUpTo(s, c);
  }

  lemma {:induction false} HasLeastUpTo(s: set<u64>, c: u64)
    requires c in s
    ensures exists m :: m in s && forall k :: k in s ==> m <= k
    decreases c
  {
    if k :| k in s && k < c { HasLeastUpTo(s, k); }
  }

  ghost function Least(s: set<u64>): (m: u64)
    requires s != {}
    ensures m in s && forall k :: k in s ==> m <= k
  {
    HasLeast(s);
    var m :| m in s && forall k :: k in s ==> m <= k; m
  }

  /** The members of `s` in ascending order. */
  ghost function Sorted(s: set<u64>): (r: seq<u64>)
    ensures Ascending(r)
    ensures forall k :: k in r <==> k in s
    ensures |r| == |s|
    decreases |s|
  {
    if s == {} then []
    else
      var m := Least(s);
      [m] + Sorted(s - {m})
  }

  /** Epochs in ascending order. */
  ghost function SortedEpochs(s: set<u32>): (r: seq<u32>)
    ensures r == Sorted(s)
  {
    var r := Sorted(s);
    assert forall i :: 0 <= i < |r| ==> r[i] in s;
    r
  }

  /** There is only one ascending enumeration. */
  lemma {:induction false} SortedUnique(r: seq<u64>, s: set<u64>)
    requires Ascending(r) && forall k :: k in r <==> k in s
    ensures r == Sorted(s)
    decreases |r|
  {
    if r == [] {
      assert s == {};
    } else {
      assert r[0] in s;
      var m := Least(s);
      assert r[0] == m;
      forall k ensures k in r[1..] <==> k in s - {m} { assert r == [r[0]] + r[1..]; }
      SortedUnique(r[1..], s - {m});
    }
  }

  /** Sorts by repeatedly taking the least remaining member. */
  method SortSet(s: set<u64>) returns (r: seq<u64>)
    ensures r == Sorted(s)
  {
    var rest := s;
    r := [];
    while rest != {}
      invariant Sorted(s) == r + Sorted(rest)
      decreases |rest|
    {
      HasLeast(rest);
      var m :| m in rest && forall k :: k in rest ==> m <= k;
      ghost var tail := Sorted(rest - {m});
      assert Sorted(rest) == [m] + tail by { assert m == Least(rest); }
      Regroup(r, m, tail);
      r := r + [m];
      rest := rest - {m};
    }
  }

  lemma Regroup(r: seq<u64>, m: u64, tail: seq<u64>)
    ensures r + ([m] + tail) == (r + [m]) + tail
  {
  }
}
