/** Walking down the octree into the cells that pass a test, and which leaves such a walk reaches. */
module Descent {
  import opened Words
  import opened Keys
  import opened Sorting

  /** Which cells, by depth and prefix, the walk enters. */
  type Test = (nat, u64) -> bool

  /** Leaf prefixes the walk from cell (d, p) reaches. */
  ghost function Cells(t: Test, d: nat, p: u64, leaf: nat): seq<u64>
    requires IsDepth(d) && IsDepth(leaf) && d <= leaf
    decreases leaf - d, 10
  {
    if d == leaf then [p] else ChildCells(t, d, p, leaf, 8)
  }

  /** ... from its first `n` children. */
  ghost function ChildCells(t: Test, d: nat, p: u64, leaf: nat, n: nat): seq<u64>
    requires IsDepth(d) && IsDepth(leaf) && d < leaf && n <= 8
    decreases leaf - d, n + 1
  {
    if n == 0 then []
    else ChildCells(t, d, p, leaf, n - 1) + ChildPart(t, d, p, leaf, n - 1)
  }

  /** ... from child `c`. */
  ghost function ChildPart(t: Test, d: nat, p: u64, leaf: nat, c: nat): seq<u64>
    requires IsDepth(d) && IsDepth(leaf) && d < leaf && c < 8
    decreases leaf - d, 0
  {
    NextDepth(d, leaf);
    var q := ChildPrefix(p, d, c);
    if t(d + 3, q) then Cells(t, d + 3, q, leaf) else []
  }

  /** A leaf cell below (d, p) that passes the test at every depth below `d`. */
  ghost predicate Below(t: Test, d: nat, p: u64, leaf: nat, q: u64)
    requires d <= leaf <= 63
  {
    && IsPrefix(q, leaf) && PrefixAt(q, d) == p
    && forall x :: d < x <= leaf && x % 3 == 0 ==> t(x, PrefixAt(q, x))
  }

  /** Child `c` of (d, p) passes and has the leaf below it. */
  ghost predicate Via(t: Test, d: nat, p: u64, leaf: nat, q: u64, c: nat)
    requires d + 3 <= leaf <= 63 && c < 8
  {
    var r := ChildPrefix(p, d, c);
    t(d + 3, r) && Below(t, d + 3, r, leaf, q)
  }

  lemma BelowVia(t: Test, d: nat, p: u64, leaf: nat, q: u64)
    requires IsDepth(d) && d + 3 <= leaf <= 63 && IsPrefix(p, d) && Below(t, d, p, leaf, q)
    ensures Via(t, d, p, leaf, q, ChildIndex(q, d))
  {
    hide ChildPrefix, PrefixAt, ChildIndex;
    ChildOfCode(q, d, p, ChildIndex(q, d));
    assert t(d + 3, PrefixAt(q, d + 3));
  }

  lemma ViaBelow(t: Test, d: nat, p: u64, leaf: nat, q: u64, c: nat)
    requires IsDepth(d) && d + 3 <= leaf <= 63 && IsPrefix(p, d) && c < 8 && Via(t, d, p, leaf, q, c)
    ensures Below(t, d, p, leaf, q)
  {
    hide ChildPrefix, PrefixAt, ChildIndex;
    ChildOfCode(q, d, p, c);
    forall x | d < x <= leaf && x % 3 == 0 ensures t(x, PrefixAt(q, x)) {
      assert x == d + 3 || d + 3 < x;
    }
  }

  /** A leaf reached below a cell is reached below the one child that holds it. */
  lemma BelowStep(t: Test, d: nat, p: u64, leaf: nat, q: u64)
    requires IsDepth(d) && IsDepth(leaf) && d < leaf && d + 3 <= leaf && IsPrefix(p, d)
    ensures Below(t, d, p, leaf, q) <==> exists c :: 0 <= c < 8 && Via(t, d, p, leaf, q, c)
  {
    hide Below, Via, PrefixAt;
    if Below(t, d, p, leaf, q) { BelowVia(t, d, p, leaf, q); }
    if c :| 0 <= c < 8 && Via(t, d, p, leaf, q, c) { ViaBelow(t, d, p, leaf, q, c); }
  }

  /** The walk reaches exactly the leaves that pass at every depth on the way. */
  lemma {:induction false} CellsExact(t: Test, d: nat, p: u64, leaf: nat, q: u64)
    requires IsDepth(d) && IsDepth(leaf) && d <= leaf && IsPrefix(p, d)
    ensures q in Cells(t, d, p, leaf) <==> Below(t, d, p, leaf, q)
    decreases leaf - d, 10
  {
    if d < leaf {
      NextDepth(d, leaf);
      BelowStep(t, d, p, leaf, q);
      ChildCellsExact(t, d, p, leaf, 8, q);
    } else {
      hide PrefixAt;
    }
  }

  lemma {:induction false} ChildCellsExact(t: Test, d: nat, p: u64, leaf: nat, n: nat, q: u64)
    requires IsDepth(d) && IsDepth(leaf) && d < leaf && d + 3 <= leaf && n <= 8 && IsPrefix(p, d)
    ensures q in ChildCells(t, d, p, leaf, n) <==> exists c :: 0 <= c < n && Via(t, d, p, leaf, q, c)
    decreases leaf - d, n + 1
  {
    if n > 0 {
      ChildPrefixIsPrefix(p, d, n - 1);
      hide ChildPrefix, PrefixAt, Below, CellWidth;
      NextDepth(d, leaf);
      ChildCellsExact(t, d, p, leaf, n - 1, q);
      CellsExact(t, d + 3, ChildPrefix(p, d, n - 1), leaf, q);
      assert Via(t, d, p, leaf, q, n - 1) <==> q in ChildPart(t, d, p, leaf, n - 1);
      hide Via, Cells;
    }
  }

  /** Leaves are reached in strictly ascending order, inside the cell descended into. */
  lemma {:induction false} CellsAscend(t: Test, d: nat, p: u64, leaf: nat)
    requires IsDepth(d) && IsDepth(leaf) && d <= leaf && IsPrefix(p, d)
    ensures Ascending(Cells(t, d, p, leaf))
    ensures Within(Cells(t, d, p, leaf), p, CellWidth(d))
    decreases leaf - d, 10
  {
    hide PrefixAt, CellWidth;
    if d < leaf {
      NextDepth(d, leaf);
      ChildCellsAscend(t, d, p, leaf, 8);
      EightWidths(d);
    }
  }

  ghost predicate Within(qs: seq<u64>, lo: nat, width: nat)
  {
    forall i :: 0 <= i < |qs| ==> lo <= qs[i] < lo + width
  }

  lemma {:induction false} ChildCellsAscend(t: Test, d: nat, p: u64, leaf: nat, n: nat)
    requires IsDepth(d) && IsDepth(leaf) && d < leaf && d + 3 <= leaf && n <= 8 && IsPrefix(p, d)
    ensures Ascending(ChildCells(t, d, p, leaf, n))
    ensures Within(ChildCells(t, d, p, leaf, n), p, n * CellWidth(d + 3))
    decreases leaf - d, n + 1
  {
    hide PrefixAt, CellWidth, ChildPart;
    if n > 0 {
      var w := CellWidth(d + 3);
      ChildCellsAscend(t, d, p, leaf, n - 1);
      ChildPartAscends(t, d, p, leaf, n - 1);
      JoinAscending(ChildCells(t, d, p, leaf, n - 1), ChildPart(t, d, p, leaf, n - 1), p, (n - 1) * w, w);
      Distribute(n - 1, 1, w);
    }
  }

  lemma {:induction false} ChildPartAscends(t: Test, d: nat, p: u64, leaf: nat, c: nat)
    requires IsDepth(d) && IsDepth(leaf) && d < leaf && d + 3 <= leaf && c < 8 && IsPrefix(p, d)
    ensures Ascending(ChildPart(t, d, p, leaf, c))
    ensures Within(ChildPart(t, d, p, leaf, c), p + c * CellWidth(d + 3), CellWidth(d + 3))
    decreases leaf - d, 0
  {
    ChildPrefixIsPrefix(p, d, c);
    ChildPrefixIsSum(p, d, c);
    hide ChildPrefix, PrefixAt, CellWidth, Cells;
    NextDepth(d, leaf);
    CellsAscend(t, d + 3, ChildPrefix(p, d, c), leaf);
  }

  lemma JoinAscending(xs: seq<u64>, ys: seq<u64>, lo: nat, width: nat, more: nat)
    requires Ascending(xs) && Within(xs, lo, width) && Ascending(ys) && Within(ys, lo + width, more)
    ensures Ascending(xs + ys) && Within(xs + ys, lo, width + more)
  {
  }

  /** Tests that agree walk to the same leaves. */
  lemma {:induction false} CellsSame(t: Test, u: Test, d: nat, p: u64, leaf: nat)
    requires IsDepth(d) && IsDepth(leaf) && d <= leaf && forall x, r :: t(x, r) <==> u(x, r)
    ensures Cells(t, d, p, leaf) == Cells(u, d, p, leaf)
    decreases leaf - d, 10
  {
    hide ChildPrefix;
    if d < leaf { ChildCellsSame(t, u, d, p, leaf, 8); }
  }

  lemma {:induction false} ChildCellsSame(t: Test, u: Test, d: nat, p: u64, leaf: nat, n: nat)
    requires IsDepth(d) && IsDepth(leaf) && d < leaf && n <= 8 && forall x, r :: t(x, r) <==> u(x, r)
    ensures ChildCells(t, d, p, leaf, n) == ChildCells(u, d, p, leaf, n)
    decreases leaf - d, n + 1
  {
    hide ChildPrefix;
    if n > 0 {
      NextDepth(d, leaf);
      ChildCellsSame(t, u, d, p, leaf, n - 1);
      CellsSame(t, u, d + 3, ChildPrefix(p, d, n - 1), leaf);
    }
  }
}
