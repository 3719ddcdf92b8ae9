/** The stepped walk over Morton cells that meet a bounding box, and the depth it is run at. */
module GridWalk {
  import opened Words
  import opened Keys
  import opened Morton
  import opened Planner

  // -------------------------------------------------------------------------
  // Grid cells of one axis
  // -------------------------------------------------------------------------

  /** `(v >> shift) << shift`. */
  function Snap(v: u32, k: nat): (s: u32)
    ensures s <= v
  {
    SnapBounds(v, Pow2(k));
    ShrIsDiv(v, k);
    ShlIsMul(Shr(v, k), k);
    Shl(Shr(v, k), k)
  }

  predicate OnGrid(v: nat, k: nat)
  {
    Shl(Shr(v, k), k) == v
  }

  lemma SnapOnGrid(v: u32, k: nat)
    ensures OnGrid(Snap(v, k), k) && Shr(Snap(v, k), k) == Shr(v, k)
  {
    ShrOfShl(Shr(v, k), 0, k);
  }

  /** From a grid point, the points before the next one share its cell and the next one is on the grid. */
  lemma GridStep(v: nat, c: nat, k: nat)
    requires OnGrid(v, k)
    ensures v <= c < v + Pow2(k) ==> Shr(c, k) == Shr(v, k)
    ensures OnGrid(v + Pow2(k), k)
  {
    var q := Shr(v, k);
    if v <= c < v + Pow2(k) { ShrOfShl(q, c - v, k); }
    ShlSum(q, 1, k);
    ShlIsMul(1, k);
    ShrOfShl(q + 1, 0, k);
  }

  // -------------------------------------------------------------------------
  // The three nested loops
  // -------------------------------------------------------------------------

  /** A box of quantised coordinates and the depth of the cells asked for. */
  datatype Box = Box(xMin: u32, xMax: u32, yMin: u32, yMax: u32, zMin: u32, zMax: u32, depth: nat)
  {
    predicate Valid()
    {
      && 3 <= depth && IsDepth(depth)
      && xMin <= xMax <= AXIS_MAX && yMin <= yMax <= AXIS_MAX && zMin <= zMax <= AXIS_MAX
    }

    function K(): nat
      requires Valid()
    {
      AxisShift(depth)
    }

    predicate Holds(x: nat, y: nat, z: nat)
    {
      xMin <= x <= xMax && yMin <= y <= yMax && zMin <= z <= zMax
    }
  }

  function PrefixOf(x: u32, y: u32, z: u32, depth: nat): u64
    requires depth <= 64
  {
    PrefixAt(Encode(x, y, z), depth)
  }

  ghost function ZWalk(b: Box, x: u32, y: u32, z: nat): set<u64>
    requires b.Valid()
    decreases b.zMax + 1 - z
  {
    if z > b.zMax then {} else {PrefixOf(x, y, z, b.depth)} + ZWalk(b, x, y, z + Pow2(b.K()))
  }

  ghost function YWalk(b: Box, x: u32, y: nat): set<u64>
    requires b.Valid()
    decreases b.yMax + 1 - y
  {
    if y > b.yMax then {} else ZWalk(b, x, y, Snap(b.zMin, b.K())) + YWalk(b, x, y + Pow2(b.K()))
  }

  ghost function XWalk(b: Box, x: nat): set<u64>
    requires b.Valid()
    decreases b.xMax + 1 - x
  {
    if x > b.xMax then {} else YWalk(b, x, Snap(b.yMin, b.K())) + XWalk(b, x + Pow2(b.K()))
  }

  lemma StepSmall(b: Box)
    requires b.Valid()
    ensures Pow2(b.K()) <= 0x10_0000
  {
    Pow2Mono(b.K(), 20);
    Pow2Code();
    assert Pow2(21) == 2 * Pow2(20);
  }

  /** The walk: `encode`, cut to the prefix, insert; the overflow breaks are never taken. */
  method WalkZ(b: Box, x: u32, y: u32, prefixes: set<u64>) returns (res: set<u64>)
    requires b.Valid()
    ensures res == prefixes + ZWalk(b, x, y, Snap(b.zMin, b.K()))
  {
    hide Encode, PrefixAt, AxisShift;
    var step := Pow2(b.K());
    StepSmall(b);
    var z: nat := Snap(b.zMin, b.K());
    res := prefixes;
    while z <= b.zMax
      invariant res + ZWalk(b, x, y, z) == prefixes + ZWalk(b, x, y, Snap(b.zMin, b.K()))
      decreases b.zMax + 1 - z
    {
      var m := Encode3dMorton(x, y, z);
      res := res + {PrefixAt(m, b.depth)};
      if z > U32_MAX - step { assert false; break; }
      z := z + step;
    }
  }

  method WalkY(b: Box, x: u32, prefixes: set<u64>) returns (res: set<u64>)
    requires b.Valid()
    ensures res == prefixes + YWalk(b, x, Snap(b.yMin, b.K()))
  {
    hide ZWalk, AxisShift;
    var step := Pow2(b.K());
    StepSmall(b);
    var y: nat := Snap(b.yMin, b.K());
    res := prefixes;
    while y <= b.yMax
      invariant res + YWalk(b, x, y) == prefixes + YWalk(b, x, Snap(b.yMin, b.K()))
      decreases b.yMax + 1 - y
    {
      res := WalkZ(b, x, y, res);
      if y > U32_MAX - step { assert false; break; }
      y := y + step;
    }
  }

  method WalkX(b: Box) returns (prefixes: set<u64>)
    requires b.Valid()
    ensures prefixes == XWalk(b, Snap(b.xMin, b.K()))
  {
    hide YWalk, AxisShift;
    var step := Pow2(b.K());
    StepSmall(b);
    var x: nat := Snap(b.xMin, b.K());
    prefixes := {};
    while x <= b.xMax
      invariant prefixes + XWalk(b, x) == XWalk(b, Snap(b.xMin, b.K()))
      decreases b.xMax + 1 - x
    {
      prefixes := WalkY(b, x, prefixes);
      if x > U32_MAX - step { assert false; break; }
      x := x + step;
    }
  }

  // -------------------------------------------------------------------------
  // The walk misses nothing and adds nothing
  // -------------------------------------------------------------------------

  /** Some point between z and the end of the axis has prefix `p`. */
  ghost predicate ZReach(b: Box, x: u32, y: u32, z: nat, p: u64)
    requires b.Valid()
  {
    exists c: nat :: z <= c <= b.zMax && PrefixOf(x, y, c, b.depth) == p
  }

  ghost predicate YReach(b: Box, x: u32, y: nat, p: u64)
    requires b.Valid()
  {
    exists a: nat :: y <= a <= b.yMax && ZReach(b, x, a, b.zMin, p)
  }

  ghost predicate XReach(b: Box, x: nat, p: u64)
    requires b.Valid()
  {
    exists a: nat :: x <= a <= b.xMax && YReach(b, a, b.yMin, p)
  }

  lemma {:induction false} ZWalkExact(b: Box, x: u32, y: u32, z: nat, p: u64)
    requires b.Valid() && OnGrid(z, b.K())
    ensures p in ZWalk(b, x, y, z) <==> ZReach(b, x, y, z, p)
    decreases b.zMax + 1 - z
  {
    if z <= b.zMax {
      var k := b.K();
      GridStep(z, z, k);
      ZWalkExact(b, x, y, z + Pow2(k), p);
      if c: nat :| z <= c <= b.zMax && PrefixOf(x, y, c, b.depth) == p {
        GridStep(z, c, k);
        if c < z + Pow2(k) { SameGridCellSamePrefix(x, y, c, x, y, z, b.depth); }
      }
      hide PrefixOf, AxisShift, OnGrid;
    }
  }

  /** Starting at the cell boundary below the box adds no prefix. */
  lemma ZFromSnap(b: Box, x: u32, y: u32, p: u64)
    requires b.Valid()
    ensures p in ZWalk(b, x, y, Snap(b.zMin, b.K())) <==> ZReach(b, x, y, b.zMin, p)
  {
    var k := b.K();
    var z0 := Snap(b.zMin, k);
    SnapOnGrid(b.zMin, k);
    ZWalkExact(b, x, y, z0, p);
    if c: nat :| z0 <= c <= b.zMax && PrefixOf(x, y, c, b.depth) == p {
      BelowBox(b.zMin, c, k);
      if c < b.zMin {
        SameGridCellSamePrefix(x, y, c, x, y, b.zMin, b.depth);
        assert PrefixOf(x, y, b.zMin, b.depth) == p;
      }
      assert ZReach(b, x, y, b.zMin, p);
    }
    assert z0 <= b.zMin;
    hide PrefixOf, AxisShift, Snap, ZWalk;
  }

  lemma BelowBox(lo: u32, c: nat, k: nat)
    requires Snap(lo, k) <= c
    ensures c < lo ==> Shr(c, k) == Shr(lo, k)
  {
    SnapOnGrid(lo, k);
    SnapBounds(lo, Pow2(k));
    ShrIsDiv(lo, k);
    ShlIsMul(Shr(lo, k), k);
    GridStep(Snap(lo, k), c, k);
  }

  /** Rows of one grid line reach the same prefixes. */
  lemma SameLine(b: Box, x: u32, y: u32, x': u32, y': u32, p: u64)
    requires b.Valid() && Shr(x, b.K()) == Shr(x', b.K()) && Shr(y, b.K()) == Shr(y', b.K())
    ensures ZReach(b, x, y, b.zMin, p) ==> ZReach(b, x', y', b.zMin, p)
  {
    if c: nat :| b.zMin <= c <= b.zMax && PrefixOf(x, y, c, b.depth) == p {
      SameGridCellSamePrefix(x, y, c, x', y', c, b.depth);
      assert PrefixOf(x', y', c, b.depth) == p;
    }
  }

  lemma {:induction false} YWalkExact(b: Box, x: u32, y: nat, p: u64)
    requires b.Valid() && OnGrid(y, b.K())
    ensures p in YWalk(b, x, y) <==> YReach(b, x, y, p)
    decreases b.yMax + 1 - y
  {
    if y <= b.yMax {
      var k := b.K();
      GridStep(y, y, k);
      YWalkExact(b, x, y + Pow2(k), p);
      ZFromSnap(b, x, y, p);
      if a: nat :| y <= a <= b.yMax && ZReach(b, x, a, b.zMin, p) {
        GridStep(y, a, k);
        if a < y + Pow2(k) { SameLine(b, x, a, x, y, p); }
      }
      hide ZReach, AxisShift, OnGrid, ZWalk, Snap;
    }
  }

  lemma YFromSnap(b: Box, x: u32, p: u64)
    requires b.Valid()
    ensures p in YWalk(b, x, Snap(b.yMin, b.K())) <==> YReach(b, x, b.yMin, p)
  {
    var k := b.K();
    var y0 := Snap(b.yMin, k);
    SnapOnGrid(b.yMin, k);
    YWalkExact(b, x, y0, p);
    if a: nat :| y0 <= a <= b.yMax && ZReach(b, x, a, b.zMin, p) {
      BelowBox(b.yMin, a, k);
      if a < b.yMin { SameLine(b, x, a, x, b.yMin, p); }
    }
    hide ZReach, AxisShift, Snap, YWalk;
  }

  lemma SamePlane(b: Box, x: u32, x': u32, p: u64)
    requires b.Valid() && Shr(x, b.K()) == Shr(x', b.K())
    ensures YReach(b, x, b.yMin, p) ==> YReach(b, x', b.yMin, p)
  {
    if a: nat :| b.yMin <= a <= b.yMax && ZReach(b, x, a, b.zMin, p) {
      SameLine(b, x, a, x', a, p);
    }
  }

  lemma {:induction false} XWalkExact(b: Box, x: nat, p: u64)
    requires b.Valid() && OnGrid(x, b.K())
    ensures p in XWalk(b, x) <==> XReach(b, x, p)
    decreases b.xMax + 1 - x
  {
    if x <= b.xMax {
      var k := b.K();
      GridStep(x, x, k);
      XWalkExact(b, x + Pow2(k), p);
      YFromSnap(b, x, p);
      if a: nat :| x <= a <= b.xMax && YReach(b, a, b.yMin, p) {
        GridStep(x, a, k);
        if a < x + Pow2(k) { SamePlane(b, a, x, p); }
      }
      hide YReach, AxisShift, OnGrid, YWalk, Snap;
    }
  }

  /** Some integer point of the box has a Morton code with this prefix. */
  ghost predicate InImage(b: Box, p: u64)
    requires b.Valid()
  {
    exists x: nat, y: nat, z: nat :: b.Holds(x, y, z) && PrefixOf(x, y, z, b.depth) == p
  }

  /** The walk visits one corner per grid cell, yet returns the prefixes of all points of the box and no others. */
  lemma WalkIsImage(b: Box, p: u64)
    requires b.Valid()
    ensures p in XWalk(b, Snap(b.xMin, b.K())) <==> InImage(b, p)
  {
    var k := b.K();
    var x0 := Snap(b.xMin, k);
    SnapOnGrid(b.xMin, k);
    XWalkExact(b, x0, p);
    if a: nat :| x0 <= a <= b.xMax && YReach(b, a, b.yMin, p) {
      BelowBox(b.xMin, a, k);
      if a < b.xMin { SamePlane(b, a, b.xMin, p); }
    }
    assert p in XWalk(b, x0) <==> XReach(b, b.xMin, p) by { hide YReach, Snap, XWalk; }
    ReachIsImage(b, p);
  }

  lemma ReachIsImage(b: Box, p: u64)
    requires b.Valid()
    ensures XReach(b, b.xMin, p) <==> InImage(b, p)
  {
    hide PrefixOf;
    if x, y, z: nat :| b.Holds(x, y, z) && PrefixOf(x, y, z, b.depth) == p {
      assert ZReach(b, x, y, b.zMin, p);
      assert YReach(b, x, b.yMin, p);
    }
    if x: nat :| b.xMin <= x <= b.xMax && YReach(b, x, b.yMin, p) {
      var y: nat :| b.yMin <= y <= b.yMax && ZReach(b, x, y, b.zMin, p);
      var z: nat :| b.zMin <= z <= b.zMax && PrefixOf(x, y, z, b.depth) == p;
      assert b.Holds(x, y, z);
    }
  }
}
