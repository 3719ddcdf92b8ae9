/** Which matching rows the plan of a query reaches: all but the lost, which for a window that fits the epochs are
    those just past its end on a cell's last code. */
module Coverage {
  import opened Words
  import opened Keys
  import opened Morton
  import opened Planner
  import opened GridWalk
  import opened SpatialPlan
  import opened WindowPlan

  /** A key some call of `generate_key` made without truncating its time. */
  predicate Generated(ix: Indexer, k: Key)
    requires ix.Valid()
  {
    && k.morton < 0x8000_0000_0000_0000
    && k.nano < ix.epochDuration * NANOS
    && k.epoch * ix.epochDuration * NANOS + k.nano <= U64_MAX
  }

  /** A generated key tells its epoch and its offset from its time. */
  lemma TimeParts(ix: Indexer, k: Key)
    requires ix.Valid() && Generated(ix, k)
    ensures var secs := Secs(ix, k);
            && secs / ix.epochDuration == k.epoch
            && secs % ix.epochDuration * NANOS + SubNanos(ix, k) == k.nano
            && Untruncated(ix, secs, SubNanos(ix, k))
  {
    var d, off := ix.epochDuration, k.nano / NANOS;
    var total := k.epoch * d * NANOS + k.nano;
    assert TotalNanos(ix, k) == total;
    assert k.nano == off * NANOS + k.nano % NANOS;
    OffsetBelow(k.nano, d);
    Distribute(k.epoch * d, off, NANOS);
    DivAddMultiple(k.epoch * d + off, k.nano % NANOS, NANOS);
    assert Secs(ix, k) == k.epoch * d + off && SubNanos(ix, k) == k.nano % NANOS;
    DivAddMultiple(k.epoch, off, d);
  }

  lemma OffsetBelow(nano: nat, d: nat)
    requires nano < d * NANOS
    ensures nano / NANOS < d
  {
  }

  /** The generated keys are the image of untruncated calls. */
  lemma GeneratedExactly(ix: Indexer, k: Key)
    requires ix.Valid()
    ensures Generated(ix, k) <==> exists x: real, y: real, z: real, secs: u64, nanos: nat ::
      nanos < NANOS && Untruncated(ix, secs, nanos) && GenerateKey(ix, x, y, z, secs, nanos) == k
  {
    if Generated(ix, k) { GeneratedAgain(ix, k); }
    if x, y, z: real, secs: u64, nanos: nat :|
        nanos < NANOS && Untruncated(ix, secs, nanos) && GenerateKey(ix, x, y, z, secs, nanos) == k {
      KeyIsGenerated(ix, x, y, z, secs, nanos);
    }
    hide Generated, Untruncated;
    hide GenerateKey;
  }

  lemma GeneratedAgain(ix: Indexer, k: Key)
    requires ix.Valid() && Generated(ix, k)
    ensures exists x: real, y: real, z: real, secs: u64, nanos: nat ::
      nanos < NANOS && Untruncated(ix, secs, nanos) && GenerateKey(ix, x, y, z, secs, nanos) == k
  {
    var p, secs, nanos := Position(ix, k), Secs(ix, k), SubNanos(ix, k);
    TimeParts(ix, k);
    QuantisedPosition(ix, k);
    hide Encode, Decode, Normalize, Denormalize, TotalNanos, Position, Secs, SubNanos;
    assert GenerateKey(ix, p.0, p.1, p.2, secs, nanos) == k;
    hide GenerateKey, Untruncated;
  }

  lemma KeyIsGenerated(ix: Indexer, x: real, y: real, z: real, secs: u64, nanos: nat)
    requires ix.Valid() && nanos < NANOS && Untruncated(ix, secs, nanos)
    ensures Generated(ix, GenerateKey(ix, x, y, z, secs, nanos))
  {
    EpochCut(secs, ix.epochDuration, nanos);
    OffsetFits(secs % ix.epochDuration, ix.epochDuration, nanos);
    hide Encode, Normalize;
  }

  lemma OffsetFits(s: nat, d: nat, nanos: nat)
    requires s < d && nanos < NANOS
    ensures s * NANOS + nanos < d * NANOS
  {
  }

  /** Quantising the decoded position of a key gives its code back. */
  lemma QuantisedPosition(ix: Indexer, k: Key)
    requires ix.Valid() && k.morton < 0x8000_0000_0000_0000
    ensures var p := Position(ix, k);
            (Normalize(ix, p.0), Normalize(ix, p.1), Normalize(ix, p.2)) == Decode(k.morton)
    ensures Encode(Decode(k.morton).0, Decode(k.morton).1, Decode(k.morton).2) == k.morton
  {
    var (nx, ny, nz) := Decode(k.morton);
    EncodeDecode(k.morton);
    NormalizeDenormalize(ix, nx);
    NormalizeDenormalize(ix, ny);
    NormalizeDenormalize(ix, nz);
    hide Encode, Decode, Normalize, Denormalize;
  }

  // -------------------------------------------------------------------------
  // The filters
  // -------------------------------------------------------------------------

  function Squared(dx: real, dy: real, dz: real): real
  {
    dx * dx + dy * dy + dz * dz
  }

  predicate InSphere(ix: Indexer, q: Query, k: Key)
  {
    var (x, y, z) := Position(ix, k);
    Squared(x - q.c.0, y - q.c.1, z - q.c.2) <= q.r * q.r
  }

  predicate InTime(ix: Indexer, q: Query, k: Key)
  {
    q.startSecs <= Secs(ix, k) <= q.endSecs
  }

  predicate Matches(ix: Indexer, q: Query, k: Key)
  {
    InTime(ix, q, k) && InSphere(ix, q, k)
  }

  /** On every line through the centre the sphere is the segment of the points at most `r` away. */
  lemma SphereOnLine(ix: Indexer, q: Query, k: Key, a: real, b: real, c: real, t: real)
    requires q.r >= 0.0 && a * a + b * b + c * c == 1.0
    requires Position(ix, k) == (q.c.0 + a * t, q.c.1 + b * t, q.c.2 + c * t)
    ensures InSphere(ix, q, k) <==> -q.r <= t <= q.r
  {
    hide Position;
    LineSquared(a, b, c, t);
    if -q.r <= t <= q.r {
      SquareMono(t, q.r);
    } else if t * t <= q.r * q.r {
      RootBound(t, q.r);
    }
  }

  lemma LineSquared(a: real, b: real, c: real, t: real)
    requires a * a + b * b + c * c == 1.0
    ensures Squared(a * t, b * t, c * t) == t * t
  {
    assert Squared(a * t, b * t, c * t) == (a * a + b * b + c * c) * (t * t);
  }

  lemma SquareMono(t: real, r: real)
    requires -r <= t <= r
    ensures t * t <= r * r
  {
    assert (r - t) * (r + t) >= 0.0;
  }

  /** The window holds every nanosecond of its seconds, the last one included. */
  lemma WindowOfNanos(ix: Indexer, q: Query, k: Key)
    ensures InTime(ix, q, k) <==> q.startSecs * NANOS <= TotalNanos(ix, k) < (q.endSecs + 1) * NANOS
  {
    hide TotalNanos;
    SecondOf(TotalNanos(ix, k), q.startSecs);
    SecondOf(TotalNanos(ix, k), q.endSecs + 1);
  }

  lemma SecondOf(t: nat, s: nat)
    ensures s <= t / NANOS <==> s * NANOS <= t
  {
    assert t == t / NANOS * NANOS + t % NANOS;
  }

  /** In the last second, past its first nanosecond, on the last code of the cell. */
  predicate Missed(ix: Indexer, q: Query, depth: nat, k: Key)
    requires 1 <= depth <= 63
  {
    Secs(ix, k) == q.endSecs && SubNanos(ix, k) > 0 && k.morton == LastCode(PrefixAt(k.morton, depth), depth)
  }

  /** Past the cut end epoch, or past the end's offset in it on the last code of the cell. */
  predicate Lost(ix: Indexer, q: Query, depth: nat, k: Key)
    requires Plannable(ix, q) && 1 <= depth <= 63
  {
    || EndEpoch(ix, q) < k.epoch
    || (k.epoch == EndEpoch(ix, q) && k.nano > OffsetOf(ix, q.endSecs)
        && k.morton == LastCode(PrefixAt(k.morton, depth), depth))
  }

  lemma SquareNonNegative(v: real)
    ensures v * v >= 0.0
  {
  }

  lemma RootBound(d: real, r: real)
    requires r >= 0.0 && d * d <= r * r
    ensures -r <= d <= r
  {
    if d > r { TimesBoth(r, d); }
    if d < -r { TimesBoth(r, -d); }
  }

  lemma TimesBoth(r: real, d: real)
    requires 0.0 <= r < d
    ensures r * r < d * d
  {
    assert r * (d - r) >= 0.0;
    assert d * (d - r) > 0.0;
  }

  /** Each coordinate of a point in the sphere is within the radius of the centre's. */
  lemma SphereInBox(dx: real, dy: real, dz: real, r: real)
    requires r >= 0.0 && Squared(dx, dy, dz) <= r * r
    ensures -r <= dx <= r && -r <= dy <= r && -r <= dz <= r
  {
    SquareNonNegative(dx);
    SquareNonNegative(dy);
    SquareNonNegative(dz);
    RootBound(dx, r);
    RootBound(dy, r);
    RootBound(dz, r);
  }

  /** The cell of a key in the sphere is one of the cells planned. */
  lemma SphereCellPlanned(ix: Indexer, q: Query, depth: nat, k: Key)
    requires Plannable(ix, q) && 3 <= depth && IsDepth(depth) && k.morton < 0x8000_0000_0000_0000
    requires InSphere(ix, q, k)
    ensures InImage(BoxAt(ix, q.c, q.r, depth), PrefixAt(k.morton, depth))
  {
    hide Encode, Decode, Normalize, Denormalize, Squared, PrefixAt;
    var (nx, ny, nz) := Decode(k.morton);
    EncodeDecode(k.morton);
    SphereInBox(Denormalize(ix, nx) - q.c.0, Denormalize(ix, ny) - q.c.1, Denormalize(ix, nz) - q.c.2, q.r);
    AxisHolds(ix, q.c.0, q.r, nx);
    AxisHolds(ix, q.c.1, q.r, ny);
    AxisHolds(ix, q.c.2, q.r, nz);
    HoldsInImage(BoxAt(ix, q.c, q.r, depth), nx, ny, nz);
  }

  lemma AxisHolds(ix: Indexer, c: real, r: real, n: u32)
    requires ix.Valid() && n <= AXIS_MAX && -r <= Denormalize(ix, n) - c <= r
    ensures Normalize(ix, c - r) <= n <= Normalize(ix, c + r)
  {
    var v := Denormalize(ix, n);
    NormalizeDenormalize(ix, n);
    NormalizeMono(ix, c - r, v);
    NormalizeMono(ix, v, c + r);
  }

  lemma HoldsInImage(b: Box, x: nat, y: nat, z: nat)
    requires b.Valid() && b.Holds(x, y, z)
    ensures InImage(b, PrefixOf(x, y, z, b.depth))
  {
  }

  lemma SubNanosBound(ix: Indexer, k: Key)
    ensures SubNanos(ix, k) < NANOS
  {
    hide TotalNanos;
  }

  /** A generated key of the window is no earlier than its first epoch, which then is not cut. */
  lemma StartKept(ix: Indexer, q: Query, k: Key)
    requires Plannable(ix, q) && Generated(ix, k) && InTime(ix, q, k)
    ensures StartEpoch(ix, q) == q.startSecs / ix.epochDuration <= k.epoch
    ensures k.epoch == StartEpoch(ix, q) ==> OffsetOf(ix, q.startSecs) <= k.nano
  {
    hide TotalNanos, Secs, SubNanos, Untruncated, Generated, CutEpoch;
    var d, secs := ix.epochDuration, Secs(ix, k);
    TimeParts(ix, k);
    DivMono(q.startSecs, secs, d);
    NotCut(ix, q.startSecs);
    if q.startSecs / d == k.epoch {
      RemOrder(q.startSecs, secs, d);
      SubNanosBound(ix, k);
      ClampCases(secs % d, SubNanos(ix, k), q.startSecs % d);
    }
  }

  /** Of the keys in the window the cut epochs and the clamped offsets leave out exactly the lost ones. */
  lemma TimeClamp(ix: Indexer, q: Query, depth: nat, k: Key)
    requires Plannable(ix, q) && 3 <= depth && IsDepth(depth) && Generated(ix, k) && InTime(ix, q, k)
    ensures StartEpoch(ix, q) <= k.epoch
    ensures k.epoch <= EndEpoch(ix, q) && InRange(k, RangeAt(ix, q, depth, k.epoch, PrefixAt(k.morton, depth)))
            <==> !Lost(ix, q, depth, k)
  {
    hide PrefixAt, LastCode, TotalNanos, CellWidth, OffsetOf, CutEpoch, Generated, InTime;
    var p := PrefixAt(k.morton, depth);
    StartKept(ix, q, k);
    PrefixBrackets(k.morton, depth, p);
    LastCodeIsSum(p, depth);
  }

  /** A generated key of the window is no later than an end epoch that is not cut. */
  lemma EndKept(ix: Indexer, q: Query, k: Key)
    requires Plannable(ix, q) && Generated(ix, k) && InTime(ix, q, k) && q.endSecs / ix.epochDuration <= U32_MAX
    ensures k.epoch <= EndEpoch(ix, q)
    ensures k.epoch == EndEpoch(ix, q) && k.nano > OffsetOf(ix, q.endSecs)
            <==> Secs(ix, k) == q.endSecs && SubNanos(ix, k) > 0
  {
    hide TotalNanos, Secs, SubNanos, Untruncated, Generated, CutEpoch;
    var d, secs := ix.epochDuration, Secs(ix, k);
    TimeParts(ix, k);
    DivMono(secs, q.endSecs, d);
    NotCut(ix, q.endSecs);
    if q.endSecs / d == k.epoch {
      RemOrder(secs, q.endSecs, d);
      SubNanosBound(ix, k);
      ClampCases(secs % d, SubNanos(ix, k), q.endSecs % d);
    }
  }

  /** When the epoch of the end fits its field the lost rows are the missed ones. */
  lemma LostIsMissed(ix: Indexer, q: Query, depth: nat, k: Key)
    requires Plannable(ix, q) && 1 <= depth <= 63 && Generated(ix, k) && InTime(ix, q, k)
    requires q.endSecs / ix.epochDuration <= U32_MAX
    ensures Lost(ix, q, depth, k) <==> Missed(ix, q, depth, k)
  {
    hide PrefixAt, LastCode, TotalNanos, Secs, SubNanos, Untruncated, Generated, EndEpoch, OffsetOf, InTime;
    EndKept(ix, q, k);
  }

  lemma RemOrder(a: nat, b: nat, d: nat)
    requires d > 0 && a / d == b / d && a <= b
    ensures a % d <= b % d && (a % d == b % d <==> a == b)
  {
    assert a == a / d * d + a % d && b == b / d * d + b % d;
  }

  lemma ClampCases(s: nat, nanos: nat, t: nat)
    requires nanos < NANOS
    ensures s * NANOS + nanos >= t * NANOS <==> s >= t
    ensures s * NANOS + nanos <= t * NANOS <==> s < t || (s == t && nanos == 0)
  {
  }

  /** The plan reaches a matching row exactly when it is not one of the lost. */
  lemma PlanCoversMatches(ix: Indexer, q: Query, depth: nat, k: Key)
    requires Plannable(ix, q) && 3 <= depth && IsDepth(depth) && Generated(ix, k) && Matches(ix, q, k)
    ensures Planned(ix, q, depth, k) <==> !Lost(ix, q, depth, k)
  {
    hide Planned, StartEpoch, EndEpoch, InImage, BoxAt, RangeAt, InRange, PrefixAt, Lost, InTime, InSphere;
    PlannedInRange(ix, q, depth, k);
    SphereCellPlanned(ix, q, depth, k);
    TimeClamp(ix, q, depth, k);
  }

  // -------------------------------------------------------------------------
  // Which windows lose more than the missed rows
  // -------------------------------------------------------------------------

  /** The latest time, in nanoseconds, a generated key can have. */
  function LatestNanos(ix: Indexer): nat
    requires ix.Valid()
  {
    var all := 0x1_0000_0000 * (ix.epochDuration * NANOS) - 1;
    if all <= U64_MAX then all else U64_MAX
  }

  /** The nanosecond at which the plan of a window ends. */
  function PlanEndNanos(ix: Indexer, endSecs: u64): nat
    requires ix.Valid()
  {
    CutEpoch(ix, endSecs) * (ix.epochDuration * NANOS) + OffsetOf(ix, endSecs)
  }

  /**
   * What a caller can check: the epoch of the end fits its field, or no generated key is as late as the start,
   * or none is later than the end of the plan.
   */
  predicate EndSafe(ix: Indexer, startSecs: u64, endSecs: u64)
    requires ix.Valid()
  {
    || endSecs / ix.epochDuration <= U32_MAX
    || LatestNanos(ix) < startSecs * NANOS
    || LatestNanos(ix) <= PlanEndNanos(ix, endSecs)
  }

  /** A matching row of a query over the window. */
  ghost predicate MatchIn(ix: Indexer, startSecs: u64, endSecs: u64, q: Query, k: Key)
    requires ix.Valid()
  {
    q.startSecs == startSecs && q.endSecs == endSecs && Plannable(ix, q) && Generated(ix, k) && Matches(ix, q, k)
  }

  /** The window loses the missed rows and no others, for every sphere and every generated key. */
  ghost predicate OnlyMissed(ix: Indexer, startSecs: u64, endSecs: u64)
    requires ix.Valid()
  {
    forall q: Query, k: Key :: MatchIn(ix, startSecs, endSecs, q, k) ==>
      (Lost(ix, q, OptimalDepth(ix, q.r), k) <==> Missed(ix, q, OptimalDepth(ix, q.r), k))
  }

  /** A time in nanoseconds determines epoch and offset. */
  lemma SplitNanos(t: nat, w: nat)
    requires w > 0
    ensures t == t / w * w + t % w && t % w < w
  {
  }

  lemma TotalIs(ix: Indexer, k: Key)
    requires ix.Valid() && Generated(ix, k)
    ensures TotalNanos(ix, k) == k.epoch * (ix.epochDuration * NANOS) + k.nano
    ensures TotalNanos(ix, k) <= LatestNanos(ix)
  {
    var d, w := ix.epochDuration, ix.epochDuration * NANOS;
    Reassociate(k.epoch, d, NANOS);
    MulMono(k.epoch + 1, 0x1_0000_0000, w);
    Distribute(k.epoch, 1, w);
  }

  /** A key past the end of the plan is later than it. */
  lemma LostIsLate(ix: Indexer, q: Query, depth: nat, k: Key)
    requires Plannable(ix, q) && 1 <= depth <= 63 && Generated(ix, k) && Lost(ix, q, depth, k)
    ensures PlanEndNanos(ix, q.endSecs) < TotalNanos(ix, k)
  {
    hide TotalNanos, PrefixAt, LastCode, CutEpoch;
    var w := ix.epochDuration * NANOS;
    TotalIs(ix, k);
    OffsetBelowEpoch(ix, q.endSecs);
    hide OffsetOf;
    if EndEpoch(ix, q) < k.epoch {
      MulMono(EndEpoch(ix, q) + 1, k.epoch, w);
      Distribute(EndEpoch(ix, q), 1, w);
    }
  }

  lemma OffsetBelowEpoch(ix: Indexer, secs: u64)
    requires ix.Valid()
    ensures OffsetOf(ix, secs) < ix.epochDuration * NANOS
  {
    MulMono(secs % ix.epochDuration + 1, ix.epochDuration, NANOS);
  }

  lemma SafeLosesMissedOnly(ix: Indexer, q: Query, depth: nat, k: Key)
    requires Plannable(ix, q) && 1 <= depth <= 63 && EndSafe(ix, q.startSecs, q.endSecs)
    requires Generated(ix, k) && InTime(ix, q, k)
    ensures Lost(ix, q, depth, k) <==> Missed(ix, q, depth, k)
  {
    hide TotalNanos, Lost, LatestNanos, PlanEndNanos, LastCode, PrefixAt, Generated;
    if q.endSecs / ix.epochDuration <= U32_MAX {
      LostIsMissed(ix, q, depth, k);
    } else {
      TotalIs(ix, k);
      SecsOfTotal(ix, k, q.startSecs);
      EndAfterAll(ix, q.endSecs, k);
      if Lost(ix, q, depth, k) { LostIsLate(ix, q, depth, k); }
    }
  }

  lemma SecsOfTotal(ix: Indexer, k: Key, startSecs: u64)
    requires startSecs <= Secs(ix, k)
    ensures startSecs * NANOS <= TotalNanos(ix, k)
  {
    hide TotalNanos;
    MulMono(startSecs, Secs(ix, k), NANOS);
  }

  /** Every generated key is earlier than an end whose epoch does not fit. */
  lemma EndAfterAll(ix: Indexer, endSecs: u64, k: Key)
    requires ix.Valid() && Generated(ix, k) && endSecs / ix.epochDuration > U32_MAX
    ensures Secs(ix, k) < endSecs
  {
    hide TotalNanos;
    TimeParts(ix, k);
    var d := ix.epochDuration;
    if endSecs <= Secs(ix, k) { DivMono(endSecs, Secs(ix, k), d); }
  }

  /** Outside the guard the latest key of all, at its own position, is lost and not missed. */
  lemma UnsafeLosesMore(ix: Indexer, startSecs: u64, endSecs: u64)
    requires ix.Valid() && startSecs <= endSecs && !EndSafe(ix, startSecs, endSecs)
    ensures !OnlyMissed(ix, startSecs, endSecs)
  {
    hide Position, OptimalDepth, InSphere, LastCode, PrefixAt, EndSafe, OnlyMissed;
    var w := ix.epochDuration * NANOS;
    var k := LatestKey(ix);
    var q := Query(Position(ix, k), 0.0, startSecs, endSecs);
    LatestKeyMatches(ix, startSecs, endSecs, q);
    AtCentre(ix, q, k);
    DeepestDepth(ix);
    assert MatchIn(ix, startSecs, endSecs, q, k);
    LatestKeyLost(ix, q);
    NotOnlyMissed(ix, q, k);
  }

  function LatestKey(ix: Indexer): Key
    requires ix.Valid()
  {
    LatestFits(ix);
    Key(LatestNanos(ix) / (ix.epochDuration * NANOS), 1, LatestNanos(ix) % (ix.epochDuration * NANOS))
  }

  lemma LatestFits(ix: Indexer)
    requires ix.Valid()
    ensures LatestNanos(ix) / (ix.epochDuration * NANOS) <= U32_MAX
    ensures LatestNanos(ix) % (ix.epochDuration * NANOS) <= U64_MAX
  {
    var w, t := ix.epochDuration * NANOS, LatestNanos(ix);
    SplitNanos(t, w);
    if t / w > U32_MAX { MulMono(0x1_0000_0000, t / w, w); }
    DivMono(t % w, t, 1);
  }

  lemma LatestKeyMatches(ix: Indexer, startSecs: u64, endSecs: u64, q: Query)
    requires ix.Valid() && startSecs <= endSecs && !EndSafe(ix, startSecs, endSecs)
    requires q.startSecs == startSecs && q.endSecs == endSecs && q.r == 0.0
    ensures Generated(ix, LatestKey(ix)) && InTime(ix, q, LatestKey(ix))
    ensures TotalNanos(ix, LatestKey(ix)) == LatestNanos(ix)
  {
    hide PlanEndNanos;
    var w, t, k := ix.epochDuration * NANOS, LatestNanos(ix), LatestKey(ix);
    SplitNanos(t, w);
    Reassociate(k.epoch, ix.epochDuration, NANOS);
    assert Generated(ix, k);
    TotalIs(ix, k);
    hide LatestNanos, LatestKey, TotalNanos;
    DivMono(startSecs * NANOS, t, NANOS);
    DivAddMultiple(startSecs, 0, NANOS);
    EndAfterAll(ix, endSecs, k);
  }

  lemma LatestKeyLost(ix: Indexer, q: Query)
    requires Plannable(ix, q) && q.r == 0.0 && !EndSafe(ix, q.startSecs, q.endSecs)
    requires Generated(ix, LatestKey(ix)) && TotalNanos(ix, LatestKey(ix)) == LatestNanos(ix)
    ensures Lost(ix, q, 63, LatestKey(ix)) && !Missed(ix, q, 63, LatestKey(ix))
  {
    hide TotalNanos, LatestNanos, PrefixAt, LastCode, CutEpoch;
    var k, w := LatestKey(ix), ix.epochDuration * NANOS;
    LastOfFirstPair();
    TotalIs(ix, k);
    EndAfterAll(ix, q.endSecs, k);
    assert k.morton == 1;
    hide LatestKey, OffsetOf;
    if k.epoch < EndEpoch(ix, q) {
      MulMono(k.epoch + 1, EndEpoch(ix, q), w);
      Distribute(k.epoch, 1, w);
    }
  }

  lemma NotOnlyMissed(ix: Indexer, q: Query, k: Key)
    requires ix.Valid() && MatchIn(ix, q.startSecs, q.endSecs, q, k)
    requires Lost(ix, q, OptimalDepth(ix, q.r), k) != Missed(ix, q, OptimalDepth(ix, q.r), k)
    ensures !OnlyMissed(ix, q.startSecs, q.endSecs)
  {
    hide Matches, Lost, Missed, Generated, OptimalDepth;
  }

  /** A window loses the missed rows only exactly when its end is safe, which it is when its epoch fits 32 bits. */
  lemma WindowGuard(ix: Indexer, startSecs: u64, endSecs: u64)
    requires ix.Valid() && startSecs <= endSecs
    ensures OnlyMissed(ix, startSecs, endSecs) <==> EndSafe(ix, startSecs, endSecs)
    ensures endSecs / ix.epochDuration <= U32_MAX ==> EndSafe(ix, startSecs, endSecs)
  {
    if EndSafe(ix, startSecs, endSecs) {
      hide Lost, Missed, Generated, OptimalDepth, InTime, InSphere;
      forall q: Query, k: Key | MatchIn(ix, startSecs, endSecs, q, k)
        ensures Lost(ix, q, OptimalDepth(ix, q.r), k) <==> Missed(ix, q, OptimalDepth(ix, q.r), k)
      {
        SafeLosesMissedOnly(ix, q, OptimalDepth(ix, q.r), k);
      }
    } else {
      UnsafeLosesMore(ix, startSecs, endSecs);
    }
  }

  /** When the epoch of the end fits, the window is refused only if it spans every epoch there is. */
  lemma RefusedWindows(ix: Indexer, q: Query)
    requires Plannable(ix, q) && q.endSecs / ix.epochDuration <= U32_MAX
    ensures !CountFits(ix, q) <==> q.startSecs / ix.epochDuration == 0 && q.endSecs / ix.epochDuration == U32_MAX
  {
    hide CutEpoch;
    DivMono(q.startSecs, q.endSecs, ix.epochDuration);
    NotCut(ix, q.startSecs);
    NotCut(ix, q.endSecs);
  }

  // -------------------------------------------------------------------------
  // The missed rows exist
  // -------------------------------------------------------------------------

  lemma {:induction false} ZeroDoubles(cap: nat)
    ensures Doublings(0.0, cap) == cap
    decreases cap
  {
    if cap > 0 { ZeroDoubles(cap - 1); }
  }

  lemma DeepestDepth(ix: Indexer)
    requires ix.Valid()
    ensures OptimalDepth(ix, 0.0) == 63
  {
    ZeroDoubles(AXIS_BITS);
    ZeroOver(ix.maxRange * 2.0);
    assert Fraction(ix, 0.0) == 0.0;
  }

  lemma ZeroOver(m: real)
    requires m > 0.0
    ensures 0.0 * 2.0 / m == 0.0
  {
  }

  lemma LastOfFirstPair()
    ensures LastCode(PrefixAt(1, 63), 63) == 1
  {
    assert CellWidth(63) == 2;
    assert PrefixAt(1, 63) == 0;
  }

  /** A point query one nanosecond into its only second does not reach the row at its very centre. */
  lemma WindowEndMisses()
    ensures var ix, k := Indexer(1.0, 3600), Key(0, 1, 1);
            var q := Query(Position(ix, k), 0.0, 0, 0);
            && Plannable(ix, q) && Generated(ix, k) && Matches(ix, q, k)
            && !Planned(ix, q, OptimalDepth(ix, q.r), k)
  {
    hide OptimalDepth, Position, LastCode, PrefixAt, InSphere, Planned;
    var ix, k := Indexer(1.0, 3600), Key(0, 1, 1);
    var q := Query(Position(ix, k), 0.0, 0, 0);
    DeepestDepth(ix);
    LastOfFirstPair();
    AtCentre(ix, q, k);
    assert Missed(ix, q, 63, k);
    PlanCoversMatches(ix, q, 63, k);
  }

  /** A window ending with epoch 2^32 is planned as if it ended with epoch 0: the row at its centre is out of reach. */
  lemma CutEndLoses()
    ensures var ix, k := Indexer(1.0, 3600), Key(1, 1, 0);
            var q := Query(Position(ix, k), 0.0, 0, 0x1_0000_0000 * 3600);
            && Plannable(ix, q) && CountFits(ix, q) && Generated(ix, k) && Matches(ix, q, k)
            && !Missed(ix, q, OptimalDepth(ix, q.r), k) && !Planned(ix, q, OptimalDepth(ix, q.r), k)
  {
    hide OptimalDepth, Position, LastCode, PrefixAt, InSphere, Planned;
    var ix, k := Indexer(1.0, 3600), Key(1, 1, 0);
    var q := Query(Position(ix, k), 0.0, 0, 0x1_0000_0000 * 3600);
    DeepestDepth(ix);
    AtCentre(ix, q, k);
    assert Lost(ix, q, 63, k);
    PlanCoversMatches(ix, q, 63, k);
  }

  /** Started an hour later, the same window is refused where arithmetic is checked and empty where it is not. */
  lemma CutEndRefused()
    ensures var ix, k := Indexer(1.0, 3600), Key(1, 1, 0);
            var q := Query(Position(ix, k), 0.0, 3600, 0x1_0000_0000 * 3600);
            && Plannable(ix, q) && !CountFits(ix, q) && Generated(ix, k) && Matches(ix, q, k)
            && PlanOf(ix, q, OptimalDepth(ix, q.r)) == []
  {
    hide OptimalDepth, Position, InSphere, RangesTo;
    var ix, k := Indexer(1.0, 3600), Key(1, 1, 0);
    var q := Query(Position(ix, k), 0.0, 3600, 0x1_0000_0000 * 3600);
    AtCentre(ix, q, k);
  }

  lemma AtCentre(ix: Indexer, q: Query, k: Key)
    requires q.c == Position(ix, k) && q.r == 0.0
    ensures InSphere(ix, q, k)
  {
    hide Position;
    assert Squared(0.0, 0.0, 0.0) == 0.0;
  }
}
