/** Key ranges for a sphere over a time window, and exactly which rows they reach. */
module WindowPlan {
  import opened Words
  import opened Keys
  import opened Sorting
  import opened Morton
  import opened Planner
  import opened GridWalk
  import opened SpatialPlan
  import opened Options

  datatype Query = Query(c: (real, real, real), r: real, startSecs: u64, endSecs: u64)

  /** What the planner asserts of its caller. */
  predicate Plannable(ix: Indexer, q: Query)
  {
    ix.Valid() && q.r >= 0.0 && q.startSecs <= q.endSecs
  }

  /** The epoch of a second, cut to the 32 bits of its field. */
  function CutEpoch(ix: Indexer, secs: u64): u32
    requires ix.Valid()
  {
    secs / ix.epochDuration % 0x1_0000_0000
  }

  lemma NotCut(ix: Indexer, secs: u64)
    requires ix.Valid() && secs / ix.epochDuration <= U32_MAX
    ensures CutEpoch(ix, secs) == secs / ix.epochDuration
  {
  }

  function StartEpoch(ix: Indexer, q: Query): u32
    requires Plannable(ix, q)
  {
    CutEpoch(ix, q.startSecs)
  }

  function EndEpoch(ix: Indexer, q: Query): u32
    requires Plannable(ix, q)
  {
    CutEpoch(ix, q.endSecs)
  }

  /** The number of epochs, counted in 32 bits, neither falls below zero nor overflows. */
  predicate CountFits(ix: Indexer, q: Query)
    requires Plannable(ix, q)
  {
    StartEpoch(ix, q) <= EndEpoch(ix, q) && EndEpoch(ix, q) - StartEpoch(ix, q) + 1 <= U32_MAX
  }

  /** Nanosecond offset of a second within its epoch. */
  function OffsetOf(ix: Indexer, secs: u64): u64
    requires ix.Valid()
  {
    secs % ix.epochDuration * NANOS
  }

  /** The key range of one cell in one epoch; the offset is clamped in the first and the last epoch. */
  function RangeAt(ix: Indexer, q: Query, depth: nat, e: u32, p: u64): (Key, Key)
    requires Plannable(ix, q) && 3 <= depth && IsDepth(depth)
  {
    (Key(e, p, if e == StartEpoch(ix, q) then OffsetOf(ix, q.startSecs) else 0),
     Key(e, LastCode(p, depth), if e == EndEpoch(ix, q) then OffsetOf(ix, q.endSecs) else U64_MAX))
  }

  function EpochRanges(ix: Indexer, q: Query, depth: nat, ps: seq<u64>, e: u32): seq<(Key, Key)>
    requires Plannable(ix, q) && 3 <= depth && IsDepth(depth)
  {
    seq(|ps|, i requires 0 <= i < |ps| => RangeAt(ix, q, depth, e, ps[i]))
  }

  /** Ranges for the epochs from the first up to, not including, `e`. */
  function RangesTo(ix: Indexer, q: Query, depth: nat, ps: seq<u64>, e: nat): seq<(Key, Key)>
    requires Plannable(ix, q) && 3 <= depth && IsDepth(depth)
    requires StartEpoch(ix, q) <= e <= EndEpoch(ix, q) + 1
  {
    if e == StartEpoch(ix, q) then [] else RangesTo(ix, q, depth, ps, e - 1) + EpochRanges(ix, q, depth, ps, e - 1)
  }

  /** ... for all epochs of the window; none when its end was cut below its start. */
  function AllRanges(ix: Indexer, q: Query, depth: nat, ps: seq<u64>): seq<(Key, Key)>
    requires Plannable(ix, q) && 3 <= depth && IsDepth(depth)
  {
    if EndEpoch(ix, q) < StartEpoch(ix, q) then [] else RangesTo(ix, q, depth, ps, EndEpoch(ix, q) + 1)
  }

  /** The plan of a query: by epoch, then by cell. */
  ghost function PlanOf(ix: Indexer, q: Query, depth: nat): seq<(Key, Key)>
    requires Plannable(ix, q) && 3 <= depth && IsDepth(depth)
  {
    AllRanges(ix, q, depth, Sorted(ImageOf(BoxAt(ix, q.c, q.r, depth))))
  }

  /**
   * Where arithmetic is `checked` a window whose epochs cannot be counted is refused. Otherwise the count
   * wraps, which only misjudges the size of the buffer.
   */
  method TimeWindowRanges(ix: Indexer, q: Query, depth: nat, checked: bool) returns (ranges: Option<seq<(Key, Key)>>)
    requires Plannable(ix, q) && 3 <= depth && IsDepth(depth)
    ensures ranges.None? <==> checked && !CountFits(ix, q)
    ensures ranges.Some? ==> ranges.value == PlanOf(ix, q, depth)
  {
    hide CountFits, AllRanges;
    var cells := ComputeSpatialPrefixes(ix, q.c, q.r, depth);
    if checked && !CountFits(ix, q) { return None; }
    var ps := SortSet(cells);
    var all := StampEpochs(ix, q, depth, ps);
    ranges := Some(all);
  }

  method StampEpochs(ix: Indexer, q: Query, depth: nat, ps: seq<u64>) returns (ranges: seq<(Key, Key)>)
    requires Plannable(ix, q) && 3 <= depth && IsDepth(depth)
    ensures ranges == AllRanges(ix, q, depth, ps)
  {
    hide RangeAt, CutEpoch;
    var startEpoch: nat, endEpoch: nat := StartEpoch(ix, q), EndEpoch(ix, q);
    ranges := [];
    var epoch: nat := startEpoch;
    while epoch <= endEpoch
      invariant startEpoch <= epoch && (epoch <= endEpoch + 1 || epoch == startEpoch)
      invariant ranges == if epoch <= endEpoch + 1 then RangesTo(ix, q, depth, ps, epoch) else []
    {
      var e: u32 := epoch;
      ghost var before := ranges;
      for i := 0 to |ps|
        invariant ranges == before + EpochRanges(ix, q, depth, ps, e)[..i]
      {
        ranges := ranges + [RangeAt(ix, q, depth, e, ps[i])];
      }
      epoch := epoch + 1;
    }
  }

  /** `get_boundary_protected_ranges`: the whole cells of one epoch. */
  method BoundaryProtectedRanges(ix: Indexer, c: (real, real, real), r: real, secs: u64, depth: nat)
    returns (ranges: seq<(Key, Key)>)
    requires ix.Valid() && r >= 0.0 && 3 <= depth && IsDepth(depth)
    ensures forall k: Key :: (exists i :: 0 <= i < |ranges| && InRange(k, ranges[i]))
              <==> k.epoch == secs / ix.epochDuration % 0x1_0000_0000
                   && InImage(BoxAt(ix, c, r, depth), PrefixAt(k.morton, depth))
    ensures PlanAscends(ranges) && |ranges| == |ImageOf(BoxAt(ix, c, r, depth))|
  {
    hide InImage, BoxAt, PrefixAt, InRange, PlanAscends, WholeCells, ImageOf;
    var epoch: u32 := secs / ix.epochDuration % 0x1_0000_0000;
    var cells := ComputeSpatialPrefixes(ix, c, r, depth);
    var ps := SortSet(cells);
    ranges := WholeCells(epoch, ps, depth);
    WholeCellsAre(BoxAt(ix, c, r, depth), epoch);
  }

  /** One range for each cell that meets the box, in order, and together they reach the keys of those cells. */
  lemma WholeCellsAre(b: Box, e: u32)
    requires b.Valid()
    ensures var ranges := WholeCells(e, Sorted(ImageOf(b)), b.depth);
            && PlanAscends(ranges) && |ranges| == |ImageOf(b)|
            && forall k: Key :: (exists i :: 0 <= i < |ranges| && InRange(k, ranges[i]))
                 <==> k.epoch == e && InImage(b, PrefixAt(k.morton, b.depth))
  {
    hide InRange, PrefixAt, InImage, PlanAscends, ImageOf, Enumerates, IsPrefix, LastCode;
    var ps := Sorted(ImageOf(b));
    SortedEnumerates(b);
    WholeCellsAscend(b, e);
    forall k: Key { WholeCellsReach(b, e, ps, k); }
  }

  lemma WholeCellsAscend(b: Box, e: u32)
    requires b.Valid()
    ensures PlanAscends(WholeCells(e, Sorted(ImageOf(b)), b.depth))
  {
    SortedEnumerates(b);
    var ps := Sorted(ImageOf(b));
    forall i, j | 0 <= i < j < |ps| ensures LastCode(ps[i], b.depth) < ps[j] {
      LastCodeIsSum(ps[i], b.depth);
      PrefixApart(ps[i], ps[j], b.depth);
    }
    hide LastCode, IsPrefix, ImageOf;
  }

  function WholeCells(e: u32, ps: seq<u64>, depth: nat): seq<(Key, Key)>
    requires 1 <= depth <= 63
  {
    seq(|ps|, i requires 0 <= i < |ps| => LeafKeyRange(e, ps[i], depth))
  }

  lemma WholeCellsReach(b: Box, e: u32, ps: seq<u64>, k: Key)
    requires b.Valid() && Enumerates(ps, b)
    ensures var ranges := WholeCells(e, ps, b.depth);
            (exists i :: 0 <= i < |ranges| && InRange(k, ranges[i]))
              <==> k.epoch == e && InImage(b, PrefixAt(k.morton, b.depth))
  {
    var ranges, p := WholeCells(e, ps, b.depth), PrefixAt(k.morton, b.depth);
    forall i | 0 <= i < |ps| ensures InRange(k, ranges[i]) <==> k.epoch == e && p == ps[i] {
      assert ps[i] in ps;
      ImagePrefix(b, ps[i]);
      LeafRangeIsCell(k, e, ps[i], b.depth);
    }
    if k.epoch == e && InImage(b, p) {
      var i :| 0 <= i < |ps| && ps[i] == p;
      assert InRange(k, ranges[i]);
    }
    hide LeafKeyRange, PrefixAt, InRange;
  }

  lemma ImagePrefix(b: Box, p: u64)
    requires b.Valid() && InImage(b, p)
    ensures IsPrefix(p, b.depth)
  {
    var x, y, z: nat :| b.Holds(x, y, z) && PrefixOf(x, y, z, b.depth) == p;
    PrefixBrackets(Encode(x, y, z), b.depth, p);
  }

  // -------------------------------------------------------------------------
  // Order of the plan
  // -------------------------------------------------------------------------

  ghost predicate PlanAscends(ranges: seq<(Key, Key)>)
  {
    forall i, j :: 0 <= i < j < |ranges| ==> KeyLess(ranges[i].1, ranges[j].0)
  }

  ghost predicate AllPrefixes(ps: seq<u64>, depth: nat)
    requires depth <= 64
  {
    forall i :: 0 <= i < |ps| ==> IsPrefix(ps[i], depth)
  }

  lemma {:induction false} RangesAscend(ix: Indexer, q: Query, depth: nat, ps: seq<u64>, e: nat)
    requires Plannable(ix, q) && 3 <= depth && IsDepth(depth) && Ascending(ps) && AllPrefixes(ps, depth)
    requires StartEpoch(ix, q) <= e <= EndEpoch(ix, q) + 1
    ensures PlanAscends(RangesTo(ix, q, depth, ps, e))
    ensures forall i :: 0 <= i < |RangesTo(ix, q, depth, ps, e)| ==> RangesTo(ix, q, depth, ps, e)[i].1.epoch < e
    decreases e
  {
    if e > StartEpoch(ix, q) {
      RangesAscend(ix, q, depth, ps, e - 1);
      var mine := EpochRanges(ix, q, depth, ps, e - 1);
      forall i, j | 0 <= i < j < |ps| ensures KeyLess(mine[i].1, mine[j].0) {
        LastCodeIsSum(ps[i], depth);
        PrefixApart(ps[i], ps[j], depth);
      }
      hide LastCode, IsPrefix, OffsetOf, StartEpoch, EndEpoch;
    }
  }

  /** The planned ranges are in key order and disjoint. */
  lemma PlanInOrder(ix: Indexer, q: Query, depth: nat)
    requires Plannable(ix, q) && 3 <= depth && IsDepth(depth)
    ensures PlanAscends(PlanOf(ix, q, depth))
  {
    hide RangesTo, CutEpoch;
    var b := BoxAt(ix, q.c, q.r, depth);
    SortedEnumerates(b);
    if StartEpoch(ix, q) <= EndEpoch(ix, q) { RangesAscend(ix, q, depth, Sorted(ImageOf(b)), EndEpoch(ix, q) + 1); }
  }

  lemma {:induction false} CountRanges(ix: Indexer, q: Query, depth: nat, ps: seq<u64>, e: nat)
    requires Plannable(ix, q) && 3 <= depth && IsDepth(depth)
    requires StartEpoch(ix, q) <= e <= EndEpoch(ix, q) + 1
    ensures |RangesTo(ix, q, depth, ps, e)| == (e - StartEpoch(ix, q)) * |ps|
    decreases e
  {
    hide RangeAt, CutEpoch;
    if e > StartEpoch(ix, q) {
      CountRanges(ix, q, depth, ps, e - 1);
      Distribute(e - 1 - StartEpoch(ix, q), 1, |ps|);
    }
  }

  /** At the depth chosen for the radius a plan has at most eight ranges an epoch, and one at least. */
  lemma PlanFanOut(ix: Indexer, q: Query)
    requires Plannable(ix, q) && StartEpoch(ix, q) <= EndEpoch(ix, q)
    ensures var epochs := EndEpoch(ix, q) - StartEpoch(ix, q) + 1;
            epochs <= |PlanOf(ix, q, OptimalDepth(ix, q.r))| <= 8 * epochs
  {
    hide RangesTo, StartEpoch, EndEpoch, OptimalDepth, BoxAt, ImageOf;
    var depth := OptimalDepth(ix, q.r);
    var ps := Sorted(ImageOf(BoxAt(ix, q.c, q.r, depth)));
    CountRanges(ix, q, depth, ps, EndEpoch(ix, q) + 1);
    OneToEightPrefixes(ix, q.c, q.r);
    OneToEightTimes(EndEpoch(ix, q) - StartEpoch(ix, q) + 1, |ps|);
  }

  lemma OneToEightTimes(n: nat, c: nat)
    requires 1 <= c <= 8
    ensures n <= n * c <= 8 * n
  {
  }

  // -------------------------------------------------------------------------
  // What the plan reaches
  // -------------------------------------------------------------------------

  ghost predicate Planned(ix: Indexer, q: Query, depth: nat, k: Key)
    requires Plannable(ix, q) && 3 <= depth && IsDepth(depth)
  {
    exists i :: 0 <= i < |PlanOf(ix, q, depth)| && InRange(k, PlanOf(ix, q, depth)[i])
  }

  ghost predicate InSome(k: Key, ranges: seq<(Key, Key)>)
  {
    exists i :: 0 <= i < |ranges| && InRange(k, ranges[i])
  }

  lemma InSomeConcat(k: Key, a: seq<(Key, Key)>, b: seq<(Key, Key)>)
    ensures InSome(k, a + b) <==> InSome(k, a) || InSome(k, b)
  {
    if i :| 0 <= i < |a| && InRange(k, a[i]) { assert (a + b)[i] == a[i]; }
    if i :| 0 <= i < |b| && InRange(k, b[i]) { assert (a + b)[|a| + i] == b[i]; }
  }

  lemma {:induction false} InRangesTo(ix: Indexer, q: Query, depth: nat, ps: seq<u64>, e: nat, k: Key)
    requires Plannable(ix, q) && 3 <= depth && IsDepth(depth)
    requires StartEpoch(ix, q) <= e <= EndEpoch(ix, q) + 1
    ensures InSome(k, RangesTo(ix, q, depth, ps, e))
            <==> StartEpoch(ix, q) <= k.epoch < e && InSome(k, EpochRanges(ix, q, depth, ps, k.epoch))
    decreases e
  {
    if e > StartEpoch(ix, q) {
      InRangesTo(ix, q, depth, ps, e - 1, k);
      InSomeConcat(k, RangesTo(ix, q, depth, ps, e - 1), EpochRanges(ix, q, depth, ps, e - 1));
      hide LastCode, OffsetOf;
    }
  }

  /** Inside its epoch a key is reached when its cell is planned and its offset is not clamped away. */
  lemma InEpochRanges(ix: Indexer, q: Query, depth: nat, ps: seq<u64>, k: Key)
    requires Plannable(ix, q) && 3 <= depth && IsDepth(depth) && AllPrefixes(ps, depth)
    ensures var p := PrefixAt(k.morton, depth);
            InSome(k, EpochRanges(ix, q, depth, ps, k.epoch))
            <==> p in ps && InRange(k, RangeAt(ix, q, depth, k.epoch, p))
  {
    var rs := EpochRanges(ix, q, depth, ps, k.epoch);
    var p := PrefixAt(k.morton, depth);
    forall i | 0 <= i < |ps| && InRange(k, rs[i]) ensures ps[i] == p {
      LastCodeIsSum(ps[i], depth);
      PrefixBrackets(k.morton, depth, ps[i]);
    }
    hide LastCode, PrefixAt, OffsetOf, RangeAt, InRange;
    if p in ps {
      var i :| 0 <= i < |ps| && ps[i] == p;
      assert rs[i] == RangeAt(ix, q, depth, k.epoch, p);
    }
  }

  ghost predicate Enumerates(ps: seq<u64>, b: Box)
    requires b.Valid()
  {
    forall p :: p in ps <==> InImage(b, p)
  }

  lemma SortedEnumerates(b: Box)
    requires b.Valid()
    ensures Enumerates(Sorted(ImageOf(b)), b) && AllPrefixes(Sorted(ImageOf(b)), b.depth)
            && Ascending(Sorted(ImageOf(b)))
  {
    var cells := ImageOf(b);
    var ps := Sorted(cells);
    forall p ensures p in ps <==> InImage(b, p) { assert p in ps <==> p in cells; }
    forall i | 0 <= i < |ps| ensures IsPrefix(ps[i], b.depth) {
      assert ps[i] in cells;
      ImagePrefix(b, ps[i]);
    }
  }

  lemma PlannedInRange(ix: Indexer, q: Query, depth: nat, k: Key)
    requires Plannable(ix, q) && 3 <= depth && IsDepth(depth)
    ensures var p := PrefixAt(k.morton, depth);
            Planned(ix, q, depth, k)
            <==> StartEpoch(ix, q) <= k.epoch <= EndEpoch(ix, q) && InImage(BoxAt(ix, q.c, q.r, depth), p)
                 && InRange(k, RangeAt(ix, q, depth, k.epoch, p))
  {
    var b := BoxAt(ix, q.c, q.r, depth);
    SortedEnumerates(b);
    PlannedBy(ix, q, depth, b, Sorted(ImageOf(b)), k);
    assert Planned(ix, q, depth, k) <==> InSome(k, PlanOf(ix, q, depth)) by { hide PlanOf, InRange; }
    assert PlanOf(ix, q, depth) == AllRanges(ix, q, depth, Sorted(ImageOf(b)));
    hide *;
  }

  /** The offsets clamp at the ends of a cell alone: its first code in the first epoch, its last code in the last. */
  lemma ClampedRange(ix: Indexer, q: Query, depth: nat, k: Key)
    requires Plannable(ix, q) && 3 <= depth && IsDepth(depth)
    ensures var p := PrefixAt(k.morton, depth);
            InRange(k, RangeAt(ix, q, depth, k.epoch, p))
            <==> (k.epoch == StartEpoch(ix, q) && k.morton == p ==> OffsetOf(ix, q.startSecs) <= k.nano)
                 && (k.epoch == EndEpoch(ix, q) && k.morton == p + CellWidth(depth) - 1
                     ==> k.nano <= OffsetOf(ix, q.endSecs))
  {
    hide PrefixAt, CellWidth, LastCode, OffsetOf, CutEpoch;
    PrefixBrackets(k.morton, depth, PrefixAt(k.morton, depth));
    LastCodeIsSum(PrefixAt(k.morton, depth), depth);
  }

  /**
   * A key is reached just when its epoch lies between the epochs of the two ends, each cut to 32 bits, its cell meets
   * the box, and it is not clamped away: before the start on the first code of its cell, past the end on the last.
   */
  lemma PlannedExactly(ix: Indexer, q: Query, depth: nat, k: Key)
    requires Plannable(ix, q) && 3 <= depth && IsDepth(depth)
    ensures var d, p := ix.epochDuration, PrefixAt(k.morton, depth);
            var first, last := q.startSecs / d % 0x1_0000_0000, q.endSecs / d % 0x1_0000_0000;
            Planned(ix, q, depth, k)
            <==> && first <= k.epoch <= last && InImage(BoxAt(ix, q.c, q.r, depth), p)
                 && (k.epoch == first && k.morton == p ==> q.startSecs % d * NANOS <= k.nano)
                 && (k.epoch == last && k.morton == p + CellWidth(depth) - 1 ==> k.nano <= q.endSecs % d * NANOS)
  {
    hide Planned, InImage, BoxAt, PrefixAt, CellWidth, InRange, RangeAt;
    PlannedInRange(ix, q, depth, k);
    ClampedRange(ix, q, depth, k);
  }

  lemma PlannedBy(ix: Indexer, q: Query, depth: nat, b: Box, ps: seq<u64>, k: Key)
    requires Plannable(ix, q) && 3 <= depth && IsDepth(depth) && b.Valid() && Enumerates(ps, b)
             && AllPrefixes(ps, depth)
    ensures var p := PrefixAt(k.morton, depth);
            InSome(k, AllRanges(ix, q, depth, ps))
            <==> StartEpoch(ix, q) <= k.epoch <= EndEpoch(ix, q) && InImage(b, p)
                 && InRange(k, RangeAt(ix, q, depth, k.epoch, p))
  {
    hide RangesTo, EpochRanges, RangeAt, InRange, PrefixAt, InImage, CutEpoch;
    if StartEpoch(ix, q) <= EndEpoch(ix, q) { InRangesTo(ix, q, depth, ps, EndEpoch(ix, q) + 1, k); }
    InEpochRanges(ix, q, depth, ps, k);
    assert PrefixAt(k.morton, depth) in ps <==> InImage(b, PrefixAt(k.morton, depth));
  }
}
