/** The byte ranges `open` scans: every data key of an unsealed epoch once, none of a sealed one. */
module ScanRanges {
  import opened Words
  import opened Bytes
  import opened Keys
  import opened Sorting
  import opened Options
  import opened SealRecords
  import opened Kv

  function Zeros(n: nat): (b: Bytes)
    ensures |b| == n
  {
    seq(n, _ => 0)
  }

  /** The least 20-byte string of an epoch. */
  function EpochStart(e: u32): (b: Bytes)
    ensures |b| == KEY_LEN
  {
    ToBe(e, 4) + Zeros(16)
  }

  /** Sorts after every 20-byte key. */
  function KeyspaceEnd(): Bytes { seq(21, _ => 0xFF) }

  lemma {:induction false} ToBeZero(n: nat)
    ensures ToBe(0, n) == Zeros(n)
  {
    if n > 0 { ToBeZero(n - 1); }
  }

  lemma BeforeEpoch(b: Bytes, e: u32)
    requires |b| == KEY_LEN
    ensures Less(b, EpochStart(e)) <==> KeyOf(b).epoch < e
  {
    var first := Key(e, 0, 0);
    ToBeZero(8);
    assert KeyBytes(first) == EpochStart(e);
    BytesRoundTrip(b);
    KeyOrder(KeyOf(b), first);
  }

  /** The range of the epochs from `lo` up to, not including, `hi`. */
  ghost function RangeOf(epochs: (nat, nat)): (Bytes, Bytes)
    requires epochs.0 <= U32_MAX
  {
    (EpochStart(epochs.0), if epochs.1 > U32_MAX then KeyspaceEnd() else EpochStart(epochs.1))
  }

  predicate Hits(r: (Bytes, Bytes), b: Bytes)
  {
    Within(b, r.0, r.1)
  }

  lemma RangeIsEpochs(b: Bytes, epochs: (nat, nat))
    requires |b| == KEY_LEN && epochs.0 <= U32_MAX
    ensures Hits(RangeOf(epochs), b) <==> epochs.0 <= KeyOf(b).epoch < epochs.1
  {
    BeforeEpoch(b, epochs.0);
    if epochs.1 > U32_MAX { LessAllOnes(b, 21); } else { BeforeEpoch(b, epochs.1); }
  }

  // -------------------------------------------------------------------------
  // The cut
  // -------------------------------------------------------------------------

  ghost predicate OnlyHit(ranges: seq<(Bytes, Bytes)>, i: nat, b: Bytes)
  {
    i < |ranges| && Hits(ranges[i], b) && forall j :: 0 <= j < |ranges| && Hits(ranges[j], b) ==> j == i
  }

  /** Each 20-byte key is in exactly one range, or in none if its epoch is sealed. */
  ghost predicate Partitions(ranges: seq<(Bytes, Bytes)>, sealed: set<u32>)
  {
    forall b: Bytes :: |b| == KEY_LEN ==>
      if KeyOf(b).epoch in sealed then forall i :: 0 <= i < |ranges| ==> !Hits(ranges[i], b)
      else exists i: nat :: OnlyHit(ranges, i, b)
  }

  ghost predicate Inside(epochs: (nat, nat), e: nat)
  {
    epochs.0 <= e < epochs.1
  }

  /** Non-empty, ascending and disjoint intervals that hold, below `end`, exactly the epochs outside `sealed`. */
  ghost predicate Gaps(gaps: seq<(nat, nat)>, sealed: set<u32>, end: nat)
  {
    && end <= U32_MAX + 1
    && (forall i :: 0 <= i < |gaps| ==> gaps[i].0 < gaps[i].1 <= end)
    && (forall i, j :: 0 <= i < j < |gaps| ==> gaps[i].1 <= gaps[j].0)
    && (forall e: nat :: e < end ==> (e in sealed <==> forall i :: 0 <= i < |gaps| ==> !Inside(gaps[i], e)))
  }

  ghost predicate AreRangesOf(ranges: seq<(Bytes, Bytes)>, gaps: seq<(nat, nat)>)
  {
    |ranges| == |gaps| && forall i :: 0 <= i < |gaps| ==> gaps[i].0 <= U32_MAX && ranges[i] == RangeOf(gaps[i])
  }

  /** A gap from the cursor to the next sealed epoch, or to the end of the epochs. */
  lemma ExtendGaps(gaps: seq<(nat, nat)>, sealed: set<u32>, start: nat, stop: nat, end: nat)
    requires Gaps(gaps, sealed, start) && start < stop <= end <= U32_MAX + 1
    requires forall e: nat :: start <= e < end ==> (e in sealed <==> stop <= e)
    ensures Gaps(gaps + [(start, stop)], sealed, end)
  {
    var more := gaps + [(start, stop)];
    forall e: nat | e < end ensures e in sealed <==> forall i :: 0 <= i < |more| ==> !Inside(more[i], e) {
      if e in sealed {
        forall i | 0 <= i < |gaps| ensures !Inside(more[i], e) { assert more[i] == gaps[i]; }
      } else if e < start {
        var i :| 0 <= i < |gaps| && Inside(gaps[i], e);
        assert Inside(more[i], e);
      } else {
        assert Inside(more[|gaps|], e);
      }
    }
  }

  ghost predicate Enumerates(es: seq<u64>, sealed: set<u32>)
  {
    Ascending(es) && forall e :: e in es <==> e in sealed
  }

  /** Moving the cursor past the next sealed epoch. */
  lemma GapStep(gaps: seq<(nat, nat)>, es: seq<u64>, sealed: set<u32>, i: nat, cursor: nat)
    requires Enumerates(es, sealed) && i < |es| && Gaps(gaps, sealed, cursor)
    requires forall j :: 0 <= j < |es| ==> (j < i <==> es[j] < cursor)
    ensures cursor <= es[i] <= U32_MAX
    ensures Gaps(if es[i] > cursor then gaps + [(cursor, es[i])] else gaps, sealed, es[i] + 1)
    ensures forall j :: 0 <= j < |es| ==> (j < i + 1 <==> es[j] < es[i] + 1)
  {
    assert es[i] in sealed;
    if es[i] > cursor {
      forall e: nat | cursor <= e < es[i] + 1 ensures e in sealed <==> es[i] <= e {
        if e in sealed { var j :| 0 <= j < |es| && es[j] == e; }
      }
      ExtendGaps(gaps, sealed, cursor, es[i], es[i] + 1);
    }
  }

  /** The gap above the last sealed epoch. */
  lemma GapTail(gaps: seq<(nat, nat)>, es: seq<u64>, sealed: set<u32>, cursor: nat)
    requires Enumerates(es, sealed) && cursor <= U32_MAX && Gaps(gaps, sealed, cursor)
    requires forall j :: 0 <= j < |es| ==> es[j] < cursor
    ensures Gaps(gaps + [(cursor, U32_MAX + 1)], sealed, U32_MAX + 1)
  {
    forall e | e in sealed ensures e < cursor { var j :| 0 <= j < |es| && es[j] == e; }
    ExtendGaps(gaps, sealed, cursor, U32_MAX + 1, U32_MAX + 1);
  }

  lemma GapsPartition(ranges: seq<(Bytes, Bytes)>, gaps: seq<(nat, nat)>, sealed: set<u32>)
    requires Gaps(gaps, sealed, U32_MAX + 1) && AreRangesOf(ranges, gaps)
    ensures Partitions(ranges, sealed)
  {
    hide RangeOf, Hits, KeyOf, Gaps, AreRangesOf, OnlyHit, Inside;
    forall b: Bytes | |b| == KEY_LEN
      ensures if KeyOf(b).epoch in sealed then forall i :: 0 <= i < |ranges| ==> !Hits(ranges[i], b)
              else exists i: nat :: OnlyHit(ranges, i, b)
    {
      KeyHitsOnce(ranges, gaps, sealed, b);
    }
  }

  lemma KeyHitsOnce(ranges: seq<(Bytes, Bytes)>, gaps: seq<(nat, nat)>, sealed: set<u32>, b: Bytes)
    requires Gaps(gaps, sealed, U32_MAX + 1) && AreRangesOf(ranges, gaps) && |b| == KEY_LEN
    ensures if KeyOf(b).epoch in sealed then forall i :: 0 <= i < |ranges| ==> !Hits(ranges[i], b)
            else exists i: nat :: OnlyHit(ranges, i, b)
  {
    forall i | 0 <= i < |gaps| ensures Hits(ranges[i], b) <==> Inside(gaps[i], KeyOf(b).epoch) {
      RangeIsEpochs(b, gaps[i]);
    }
    hide RangeOf, Hits, KeyOf, Gaps, Inside, OnlyHit;
    if KeyOf(b).epoch !in sealed {
      InOneGap(ranges, gaps, sealed, b, KeyOf(b).epoch);
    } else {
      InNoGap(gaps, sealed, KeyOf(b).epoch);
    }
  }

  lemma InNoGap(gaps: seq<(nat, nat)>, sealed: set<u32>, e: u32)
    requires Gaps(gaps, sealed, U32_MAX + 1) && e in sealed
    ensures forall i :: 0 <= i < |gaps| ==> !Inside(gaps[i], e)
  {
  }

  lemma InOneGap(ranges: seq<(Bytes, Bytes)>, gaps: seq<(nat, nat)>, sealed: set<u32>, b: Bytes, e: u32)
    requires Gaps(gaps, sealed, U32_MAX + 1) && e !in sealed && |ranges| == |gaps|
    requires forall i :: 0 <= i < |gaps| ==> (Hits(ranges[i], b) <==> Inside(gaps[i], e))
    ensures exists i: nat :: OnlyHit(ranges, i, b)
  {
    hide Hits;
    var i :| 0 <= i < |gaps| && Inside(gaps[i], e);
    assert OnlyHit(ranges, i, b);
  }

  method UnsealedScanRanges(sealed: set<u32>) returns (ranges: seq<(Bytes, Bytes)>)
    ensures Partitions(ranges, sealed)
  {
    var es := SortSet(sealed);
    assert Enumerates(es, sealed);
    ranges := CutAround(es, sealed);
  }

  /** Walks the sealed epochs upwards with a cursor that is gone once epoch 2^32 - 1 is behind it. */
  method CutAround(es: seq<u64>, ghost sealed: set<u32>) returns (ranges: seq<(Bytes, Bytes)>)
    requires Enumerates(es, sealed)
    ensures Partitions(ranges, sealed)
  {
    hide RangeOf, EpochStart, Gaps, Partitions, Enumerates;
    ghost var gaps: seq<(nat, nat)> := [];
    ghost var done: nat := 0;
    var cursor: Option<u32> := Some(0);
    ranges := [];
    NoGaps(sealed);
    var i := 0;
    while i < |es| && cursor.Some?
      invariant 0 <= i <= |es|
      invariant cursor == if done > U32_MAX then None else Some(done)
      invariant forall j :: 0 <= j < |es| ==> (j < i <==> es[j] < done)
      invariant Gaps(gaps, sealed, done) && AreRangesOf(ranges, gaps)
      decreases |es| - i
    {
      var start, e := cursor.value, es[i];
      GapStep(gaps, es, sealed, i, start);
      if e > start {
        AppendRange(ranges, gaps, (start as nat, e as nat));
        ranges := ranges + [(EpochStart(start), EpochStart(e))];
        gaps := gaps + [(start, e)];
      }
      cursor := if e == U32_MAX then None else Some(e + 1);
      done := e + 1;
      i := i + 1;
    }
    if cursor.Some? {
      var start := cursor.value;
      GapTail(gaps, es, sealed, start);
      AppendRange(ranges, gaps, (start as nat, U32_MAX + 1));
      ranges := ranges + [(EpochStart(start), KeyspaceEnd())];
      gaps := gaps + [(start, U32_MAX + 1)];
      done := U32_MAX + 1;
    }
    GapsPartition(ranges, gaps, sealed) by { GapsEnd(gaps, sealed, done); }
  }

  lemma NoGaps(sealed: set<u32>)
    ensures Gaps([], sealed, 0)
  {
  }

  lemma GapsEnd(gaps: seq<(nat, nat)>, sealed: set<u32>, done: nat)
    requires Gaps(gaps, sealed, done) && done > U32_MAX
    ensures Gaps(gaps, sealed, U32_MAX + 1)
  {
  }

  lemma AppendRange(ranges: seq<(Bytes, Bytes)>, gaps: seq<(nat, nat)>, epochs: (nat, nat))
    requires AreRangesOf(ranges, gaps) && epochs.0 <= U32_MAX
    ensures epochs.1 <= U32_MAX
            ==> AreRangesOf(ranges + [(EpochStart(epochs.0), EpochStart(epochs.1))], gaps + [epochs])
    ensures epochs.1 > U32_MAX ==> AreRangesOf(ranges + [(EpochStart(epochs.0), KeyspaceEnd())], gaps + [epochs])
  {
  }
}
