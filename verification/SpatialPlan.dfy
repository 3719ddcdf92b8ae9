/** Which cells a sphere query scans: the prefixes, the depth chosen for a radius, the key ranges of a time window. */
module SpatialPlan {
  import opened Words
  import opened Keys
  import opened Sorting
  import opened Morton
  import opened Planner
  import opened GridWalk

  /** The quantised bounding box of a sphere. */
  function BoxAt(ix: Indexer, c: (real, real, real), r: real, depth: nat): (b: Box)
    requires ix.Valid() && r >= 0.0 && 3 <= depth && IsDepth(depth)
    ensures b.Valid() && b.depth == depth
  {
    NormalizeMono(ix, c.0 - r, c.0 + r);
    NormalizeMono(ix, c.1 - r, c.1 + r);
    NormalizeMono(ix, c.2 - r, c.2 + r);
    Box(Normalize(ix, c.0 - r), Normalize(ix, c.0 + r), Normalize(ix, c.1 - r), Normalize(ix, c.1 + r),
        Normalize(ix, c.2 - r), Normalize(ix, c.2 + r), depth)
  }

  /** The prefixes of all points of the box. */
  ghost function ImageOf(b: Box): (s: set<u64>)
    requires b.Valid()
    ensures forall p :: p in s <==> InImage(b, p)
  {
    forall p ensures p in XWalk(b, Snap(b.xMin, b.K())) <==> InImage(b, p) { WalkIsImage(b, p); }
    XWalk(b, Snap(b.xMin, b.K()))
  }

  method ComputeSpatialPrefixes(ix: Indexer, c: (real, real, real), r: real, depth: nat) returns (prefixes: set<u64>)
    requires ix.Valid() && r >= 0.0 && 3 <= depth && IsDepth(depth)
    ensures forall p :: p in prefixes <==> InImage(BoxAt(ix, c, r, depth), p)
    ensures prefixes == ImageOf(BoxAt(ix, c, r, depth))
  {
    var b := BoxAt(ix, c, r, depth);
    ghost var image := ImageOf(b);
    prefixes := WalkX(b);
    assert prefixes == image by { hide XWalk, Snap, InImage; }
    hide *;
  }

  // -------------------------------------------------------------------------
  // The depth for a radius
  // -------------------------------------------------------------------------

  /** How often `f` can be doubled, at most `cap` times, without passing 1: floor(log2(1 / f)), capped. */
  function Doublings(f: real, cap: nat): (s: nat)
    requires 0.0 <= f <= 1.0
    ensures s <= cap
    decreases cap
  {
    if cap == 0 || f * 2.0 > 1.0 then 0 else 1 + Doublings(f * 2.0, cap - 1)
  }

  /** `f * 2^s`. */
  function Scale(f: real, s: nat): real
    decreases s
  {
    if s == 0 then f else Scale(f * 2.0, s - 1)
  }

  lemma {:induction false} DoublingsLargest(f: real, cap: nat)
    requires 0.0 <= f <= 1.0
    ensures var s := Doublings(f, cap);
            Scale(f, s) <= 1.0 && (s < cap ==> Scale(f, s + 1) > 1.0)
    decreases cap
  {
    if cap > 0 && f * 2.0 <= 1.0 {
      DoublingsLargest(f * 2.0, cap - 1);
    } else {
      assert Scale(f, 1) == Scale(f * 2.0, 0);
    }
  }

  lemma {:induction false} ScaleIsProduct(f: real, s: nat)
    ensures Scale(f, s) == f * Pow2(s) as real
    decreases s
  {
    if s > 0 {
      ScaleIsProduct(f * 2.0, s - 1);
      DoubleOnce(f, Pow2(s - 1) as real);
      assert Pow2(s) as real == 2.0 * Pow2(s - 1) as real;
    }
  }

  lemma DoubleOnce(f: real, p: real)
    ensures f * 2.0 * p == f * (2.0 * p)
  {
  }

  /** The sphere's diameter as a fraction of the whole range. */
  function Fraction(ix: Indexer, r: real): (f: real)
    requires ix.Valid() && r >= 0.0
    ensures f >= 0.0
  {
    FractionSign(r * 2.0, ix.maxRange * 2.0);
    r * 2.0 / (ix.maxRange * 2.0)
  }

  lemma FractionSign(a: real, b: real)
    requires a >= 0.0 && b > 0.0
    ensures a / b >= 0.0
  {
  }

  /** `calculate_optimal_depth`. A zero radius gives the deepest grid. */
  function OptimalDepth(ix: Indexer, r: real): (d: nat)
    requires ix.Valid() && r >= 0.0
    ensures 3 <= d && IsDepth(d)
  {
    var f := Fraction(ix, r);
    if f >= 1.0 then 3
    else
      var s := Doublings(f, AXIS_BITS);
      3 * (if s < 1 then 1 else s)
  }

  lemma {:induction false} ScaleGrows(f: real, s: nat)
    requires f >= 0.0
    ensures Scale(f, s) >= f
    decreases s
  {
    if s > 0 { ScaleGrows(f * 2.0, s - 1); }
  }

  lemma {:induction false} DoublingsExactly(f: real, cap: nat, s: nat)
    requires 0.0 <= f <= 1.0 && s <= cap
    ensures s <= Doublings(f, cap) <==> Scale(f, s) <= 1.0
    decreases cap
  {
    if s > 0 {
      if f * 2.0 > 1.0 { ScaleGrows(f * 2.0, s - 1); } else { DoublingsExactly(f * 2.0, cap - 1, s - 1); }
    }
  }

  /** In doublings of the fraction the depth is the largest that stays within 1, but never less than 3. */
  lemma DepthByDoublings(ix: Indexer, r: real, s: nat)
    requires ix.Valid() && r >= 0.0 && 1 <= s <= AXIS_BITS
    ensures 3 * s <= OptimalDepth(ix, r) <==> s == 1 || Scale(Fraction(ix, r), s) <= 1.0
  {
    hide Fraction;
    var f := Fraction(ix, r);
    if f >= 1.0 { ScaleGrows(f * 2.0, s - 1); } else { DoublingsExactly(f, AXIS_BITS, s); }
  }

  /** The fraction taken `p` times stays within 1 just when the radius taken `p` times stays within the range. */
  lemma FractionTimes(ix: Indexer, r: real, p: real)
    requires ix.Valid() && r >= 0.0 && p > 0.0
    ensures Fraction(ix, r) * p <= 1.0 <==> r * p <= ix.maxRange
  {
    var f, m := Fraction(ix, r), ix.maxRange;
    assert f * m == r by { TimesRatio(r * 2.0, m * 2.0); }
    hide Fraction;
    assert f * p * m == r * p;
    if f * p <= 1.0 { TimesPositive(f * p, 1.0, m); }
    if f * p > 1.0 { TimesMore(f * p, m); }
  }

  lemma TimesMore(x: real, m: real)
    requires x > 1.0 && m > 0.0
    ensures x * m > m
  {
  }

  /**
   * `calculate_optimal_depth`: the largest depth whose cells, `2 maxRange / 2^s` wide with `s` bits per axis, are at
   * least as wide as the diameter `2 r`, but never less than 3.
   */
  lemma OptimalDepthIsDeepest(ix: Indexer, r: real, s: nat)
    requires ix.Valid() && r >= 0.0 && 1 <= s <= AXIS_BITS
    ensures 3 * s <= OptimalDepth(ix, r) <==> s == 1 || r * Pow2(s) as real <= ix.maxRange
  {
    hide Fraction, OptimalDepth, Scale, Pow2;
    DepthByDoublings(ix, r, s);
    ScaleIsProduct(Fraction(ix, r), s);
    FractionTimes(ix, r, Pow2(s) as real);
  }

  /** The cells are at least as wide as the diameter exactly when that is at most half of the range. */
  lemma CellsAsWide(ix: Indexer, r: real)
    requires ix.Valid() && r >= 0.0
    ensures r * Pow2(OptimalDepth(ix, r) / 3) as real <= ix.maxRange <==> 2.0 * r <= ix.maxRange
  {
    hide Fraction, OptimalDepth, Pow2;
    var s := OptimalDepth(ix, r) / 3;
    DepthInBits(ix, r);
    OptimalDepthIsDeepest(ix, r, s);
    Pow2Mono(1, s);
    Pow2Byte();
    TimesMono(r, 2.0, Pow2(s) as real);
  }

  lemma TimesMono(r: real, x: real, y: real)
    requires r >= 0.0 && x <= y
    ensures r * x <= r * y
  {
  }

  lemma DepthInBits(ix: Indexer, r: real)
    requires ix.Valid() && r >= 0.0
    ensures 1 <= OptimalDepth(ix, r) / 3 <= AXIS_BITS && OptimalDepth(ix, r) == 3 * (OptimalDepth(ix, r) / 3)
  {
    hide Fraction;
  }

  /** A diameter of three quarters of the range gets cells of half the range. */
  lemma CellsTooNarrow()
    ensures var ix := Indexer(1.0, 1);
            OptimalDepth(ix, 0.75) == 3 && 0.75 * Pow2(OptimalDepth(ix, 0.75) / 3) as real > ix.maxRange
  {
    var ix := Indexer(1.0, 1);
    DepthInBits(ix, 0.75);
    OptimalDepthIsDeepest(ix, 0.75, 2);
    assert Pow2(1) == 2 && Pow2(2) == 4;
  }

  // -------------------------------------------------------------------------
  // At that depth the box meets at most two cells per axis
  // -------------------------------------------------------------------------

  lemma ClampLipschitz(v: real, w: real, lo: real, hi: real)
    requires v <= w && lo <= hi
    ensures Clamp(w, lo, hi) - Clamp(v, lo, hi) <= w - v
  {
  }

  lemma QuotientDifference(a: real, b: real, w: real, m: real)
    requires m > 0.0 && b - a <= w
    ensures b / m - a / m <= w / m
  {
    RatioMono(b, a + w, m);
    assert (a + w) / m == a / m + w / m;
  }

  lemma TimesScale(x: real, y: real)
    requires x <= y
    ensures x * AXIS_SCALE <= y * AXIS_SCALE
  {
  }

  /** Before rounding the box is no wider than the fraction of the scale. */
  lemma ScaledWidth(ix: Indexer, c: real, r: real)
    requires ix.Valid() && r >= 0.0
    ensures Scaled(ix, c + r) - Scaled(ix, c - r) <= Fraction(ix, r) * AXIS_SCALE
  {
    var m := ix.maxRange;
    var a, b := Clamp(c - r, -m, m) + m, Clamp(c + r, -m, m) + m;
    ClampLipschitz(c - r, c + r, -m, m);
    QuotientDifference(a, b, r * 2.0, 2.0 * m);
    TimesScale(b / (2.0 * m) - a / (2.0 * m), r * 2.0 / (2.0 * m));
    assert m * 2.0 == 2.0 * m;
  }

  /** A width that `2^s` copies of cannot exceed the scale is less than one grid step. */
  lemma WidthBelowStep(w: real, f: real, s: nat)
    requires s <= AXIS_BITS && w <= f * AXIS_SCALE && Scale(f, s) <= 1.0
    ensures w < Pow2(AXIS_BITS - s) as real
  {
    hide Pow2, Scale;
    ScaleIsProduct(f, s);
    StepsFillAxis(s);
    StepBound(w, f, Pow2(s), Pow2(AXIS_BITS - s));
  }

  lemma StepsFillAxis(s: nat)
    requires s <= AXIS_BITS
    ensures Pow2(s) * Pow2(AXIS_BITS - s) == 0x20_0000
  {
    Pow2Add(s, AXIS_BITS - s);
    Pow2Code();
  }

  lemma StepBound(w: real, f: real, p: nat, step: nat)
    requires p > 0 && p * step == 0x20_0000 && w <= f * AXIS_SCALE && f * p as real <= 1.0
    ensures w < step as real
  {
    RealProduct(p, step);
    ProductBound(w, f, p as real, step as real);
  }

  lemma RealProduct(p: nat, q: nat)
    ensures p as real * q as real == (p * q) as real
  {
  }

  lemma ProductBound(w: real, f: real, p: real, step: real)
    requires p > 0.0 && w <= f * AXIS_SCALE && f * p <= 1.0 && p * step == 2097152.0
    ensures w < step
  {
    TimesPositive(w, f * AXIS_SCALE, p);
    assert f * AXIS_SCALE * p == f * p * AXIS_SCALE;
    TimesScale(f * p, 1.0);
    CancelPositive(w, step, p);
  }

  lemma TimesPositive(x: real, y: real, p: real)
    requires x <= y && p > 0.0
    ensures x * p <= y * p
  {
  }

  lemma CancelPositive(x: real, y: real, p: real)
    requires x * p < y * p && p > 0.0
    ensures x < y
  {
  }

  lemma RoundedWidth(a: real, b: real, step: nat)
    requires b - a < step as real
    ensures (b + 0.5).Floor - (a + 0.5).Floor <= step
  {
  }

  /** Two points at most one step apart, or any two points of a two-cell grid, lie in the same or adjacent cells. */
  lemma AdjacentCells(lo: u32, hi: u32, k: nat)
    requires lo <= hi <= AXIS_MAX && (hi - lo <= Pow2(k) || k == 20)
    ensures Shr(lo, k) <= Shr(hi, k) <= Shr(lo, k) + 1
  {
    var step := Pow2(k);
    ShrIsDiv(lo, k);
    ShrIsDiv(hi, k);
    DivMono(lo, hi, step);
    if k == 20 {
      Pow2Code();
      assert Pow2(21) == 2 * step;
    } else {
      DivMono(hi, lo + step, step);
      SnapBounds(lo, step);
      DivAddMultiple(lo / step + 1, lo - lo / step * step, step);
      Distribute(lo / step, 1, step);
    }
  }

  lemma AxisCells(ix: Indexer, c: real, r: real)
    requires ix.Valid() && r >= 0.0
    ensures var k := AxisShift(OptimalDepth(ix, r));
            Shr(Normalize(ix, c - r), k) <= Shr(Normalize(ix, c + r), k) <= Shr(Normalize(ix, c - r), k) + 1
  {
    var f, d := Fraction(ix, r), OptimalDepth(ix, r);
    var k := AxisShift(d);
    NormalizeMono(ix, c - r, c + r);
    if k != 20 {
      var s := Doublings(f, AXIS_BITS);
      assert d == 3 * s && k == AXIS_BITS - s;
      DoublingsLargest(f, AXIS_BITS);
      ScaledWidth(ix, c, r);
      WidthBelowStep(Scaled(ix, c + r) - Scaled(ix, c - r), f, s);
      RoundedWidth(Scaled(ix, c - r), Scaled(ix, c + r), Pow2(k));
    }
    AdjacentCells(Normalize(ix, c - r), Normalize(ix, c + r), k);
  }

  // -------------------------------------------------------------------------
  // ... hence at most eight cells
  // -------------------------------------------------------------------------

  /** In an axis spanning at most two grid cells every point shares its cell with one of the ends. */
  lemma EndCell(lo: u32, v: u32, hi: u32, k: nat)
    requires lo <= v <= hi && Shr(hi, k) <= Shr(lo, k) + 1
    ensures Shr(v, k) == Shr(lo, k) || Shr(v, k) == Shr(hi, k)
  {
    ShrIsDiv(lo, k);
    ShrIsDiv(v, k);
    ShrIsDiv(hi, k);
    DivMono(lo, v, Pow2(k));
    DivMono(v, hi, Pow2(k));
  }

  ghost function Corner(b: Box, i: nat): u64
    requires b.Valid() && i < 8
  {
    PrefixOf(if i / 4 == 0 then b.xMin else b.xMax, if i / 2 % 2 == 0 then b.yMin else b.yMax,
             if i % 2 == 0 then b.zMin else b.zMax, b.depth)
  }

  ghost predicate TwoCellsPerAxis(b: Box)
    requires b.Valid()
  {
    var k := b.K();
    && Shr(b.xMax, k) <= Shr(b.xMin, k) + 1
    && Shr(b.yMax, k) <= Shr(b.yMin, k) + 1
    && Shr(b.zMax, k) <= Shr(b.zMin, k) + 1
  }

  /** Every prefix of such a box is the prefix of one of its eight corners. */
  lemma ImageHasCorners(b: Box, p: u64)
    requires b.Valid() && TwoCellsPerAxis(b) && InImage(b, p)
    ensures exists i :: 0 <= i < 8 && Corner(b, i) == p
  {
    var x, y, z: nat :| b.Holds(x, y, z) && PrefixOf(x, y, z, b.depth) == p;
    var k := b.K();
    EndCell(b.xMin, x, b.xMax, k);
    EndCell(b.yMin, y, b.yMax, k);
    EndCell(b.zMin, z, b.zMax, k);
    var i := if Shr(x, k) == Shr(b.xMin, k) then 0 else 1;
    var j := if Shr(y, k) == Shr(b.yMin, k) then 0 else 1;
    var l := if Shr(z, k) == Shr(b.zMin, k) then 0 else 1;
    CornerAt(b, i, j, l);
    hide Encode, PrefixAt, AxisShift, Corner;
    SameGridCellSamePrefix(x, y, z, if i == 0 then b.xMin else b.xMax, if j == 0 then b.yMin else b.yMax,
                           if l == 0 then b.zMin else b.zMax, b.depth);
    assert Corner(b, 4 * i + 2 * j + l) == p;
  }

  lemma CornerAt(b: Box, i: nat, j: nat, l: nat)
    requires b.Valid() && i < 2 && j < 2 && l < 2
    ensures Corner(b, 4 * i + 2 * j + l)
            == PrefixOf(if i == 0 then b.xMin else b.xMax, if j == 0 then b.yMin else b.yMax,
                        if l == 0 then b.zMin else b.zMax, b.depth)
  {
    hide PrefixOf;
    CornerDigits(i, j, l);
  }

  lemma CornerDigits(i: nat, j: nat, l: nat)
    requires i < 2 && j < 2 && l < 2
    ensures var n := 4 * i + 2 * j + l; n / 4 == i && n / 2 % 2 == j && n % 2 == l
  {
  }

  lemma {:induction false} RangeCount(s: set<u64>, f: seq<u64>)
    requires forall p :: p in s ==> p in f
    ensures |s| <= |f|
    decreases |f|
  {
    if f == [] {
      assert s == {};
    } else {
      var n := |f| - 1;
      forall p | p in s - {f[n]} ensures p in f[..n] { assert f == f[..n] + [f[n]]; }
      RangeCount(s - {f[n]}, f[..n]);
    }
  }

  /** At the depth chosen for its radius a query scans at least one and at most eight cells. */
  lemma OneToEightPrefixes(ix: Indexer, c: (real, real, real), r: real)
    requires ix.Valid() && r >= 0.0
    ensures 1 <= |ImageOf(BoxAt(ix, c, r, OptimalDepth(ix, r)))| <= 8
  {
    BoxTwoCells(ix, c, r);
    CornersCover(BoxAt(ix, c, r, OptimalDepth(ix, r)));
    ImageNonEmpty(BoxAt(ix, c, r, OptimalDepth(ix, r)));
  }

  lemma BoxTwoCells(ix: Indexer, c: (real, real, real), r: real)
    requires ix.Valid() && r >= 0.0
    ensures TwoCellsPerAxis(BoxAt(ix, c, r, OptimalDepth(ix, r)))
  {
    hide Normalize, OptimalDepth, Shr, AxisShift;
    AxisCells(ix, c.0, r);
    AxisCells(ix, c.1, r);
    AxisCells(ix, c.2, r);
  }

  lemma ImageNonEmpty(b: Box)
    requires b.Valid()
    ensures ImageOf(b) != {}
  {
    var p := PrefixOf(b.xMin, b.yMin, b.zMin, b.depth);
    assert b.Holds(b.xMin, b.yMin, b.zMin);
    assert InImage(b, p);
    assert p in ImageOf(b);
  }

  lemma CornersCover(b: Box)
    requires b.Valid() && TwoCellsPerAxis(b)
    ensures |ImageOf(b)| <= 8
  {
    var corners := seq(8, i requires 0 <= i < 8 => Corner(b, i));
    forall p | p in ImageOf(b) ensures p in corners {
      ImageHasCorners(b, p);
      var i :| 0 <= i < 8 && Corner(b, i) == p;
      assert corners[i] == p;
    }
    RangeCount(ImageOf(b), corners);
  }
}
