/** `query_window`: scan the planned ranges, filter exactly, sort by time; and what that returns. */
module Queries {
  import opened Words
  import opened Options
  import opened Bytes
  import opened Keys
  import opened Forests
  import opened Kv
  import opened Layout
  import opened RowScans
  import opened Morton
  import opened Planner
  import opened SpatialPlan
  import opened WindowPlan
  import opened Coverage

  datatype Observation = Observation(key: Key, x: real, y: real, z: real, secs: u64, nanos: nat, payload: Payload)

  function Observe(ix: Indexer, k: Key, p: Payload): Observation
  {
    var (x, y, z) := Position(ix, k);
    Observation(k, x, y, z, Secs(ix, k), SubNanos(ix, k), p)
  }

  // -------------------------------------------------------------------------
  // Collecting
  // -------------------------------------------------------------------------

  ghost predicate KeysAscend(all: seq<Observation>)
  {
    forall i, j :: 0 <= i < j < |all| ==> KeyLess(all[i].key, all[j].key)
  }

  /** A stored row that passes the filters and lies in one of the ranges. */
  ghost predicate Accepted(ix: Indexer, q: Query, rows: Rows, ranges: seq<(Key, Key)>, o: Observation)
  {
    o.key in rows && o == Observe(ix, o.key, rows[o.key]) && Matches(ix, q, o.key) && InSome(o.key, ranges)
  }

  /** All accepted rows, each once, in key order. */
  ghost predicate Collected(ix: Indexer, q: Query, rows: Rows, ranges: seq<(Key, Key)>, all: seq<Observation>)
  {
    KeysAscend(all) && forall o :: o in all <==> Accepted(ix, q, rows, ranges, o)
  }

  /** The observations among some rows that pass the filters. */
  function Filtered(ix: Indexer, q: Query, rows: seq<(Key, Payload)>): seq<Observation>
  {
    if rows == [] then []
    else
      var n := |rows| - 1;
      var (k, p) := rows[n];
      Filtered(ix, q, rows[..n]) + if Matches(ix, q, k) then [Observe(ix, k, p)] else []
  }

  lemma ObserveParts(ix: Indexer, k: Key, p: Payload)
    ensures Observe(ix, k, p).key == k && Observe(ix, k, p).payload == p
  {
  }

  lemma {:induction false} FilteredIs(ix: Indexer, q: Query, rows: seq<(Key, Payload)>, o: Observation)
    ensures o in Filtered(ix, q, rows)
            <==> (o.key, o.payload) in rows && o == Observe(ix, o.key, o.payload) && Matches(ix, q, o.key)
    decreases |rows|
  {
    hide Matches, Position, Secs, SubNanos;
    if rows != [] {
      var n := |rows| - 1;
      FilteredIs(ix, q, rows[..n], o);
      assert rows == rows[..n] + [rows[n]];
      ObserveParts(ix, rows[n].0, rows[n].1);
      hide Observe;
    }
  }

  lemma {:induction false} FilteredAscends(ix: Indexer, q: Query, rows: seq<(Key, Payload)>)
    requires RowsAscend(rows)
    ensures KeysAscend(Filtered(ix, q, rows))
    decreases |rows|
  {
    hide Matches, Position, Secs, SubNanos;
    if rows != [] {
      var n := |rows| - 1;
      FilteredAscends(ix, q, rows[..n]);
      var all := Filtered(ix, q, rows[..n]);
      forall i | 0 <= i < |all| ensures KeyLess(all[i].key, rows[n].0) {
        FilteredIs(ix, q, rows[..n], all[i]);
        var j :| 0 <= j < n && rows[j] == (all[i].key, all[i].payload);
      }
    }
  }

  lemma FilteredScan(ix: Indexer, q: Query, rows: Rows, r: (Key, Key), scan: seq<(Key, Payload)>)
    requires IsRowScan(rows, r, scan)
    ensures Collected(ix, q, rows, [r], Filtered(ix, q, scan))
  {
    FilteredAscends(ix, q, scan);
    hide Matches, Position, Secs, SubNanos, Filtered, InRange, RowsAscend, KeysAscend;
    forall o ensures o in Filtered(ix, q, scan) <==> Accepted(ix, q, rows, [r], o) {
      FilteredIs(ix, q, scan, o);
      assert InSome(o.key, [r]) <==> InRange(o.key, r) by {
        if InRange(o.key, r) { assert InRange(o.key, [r][0]); }
      }
    }
  }

  /** Pushes the accepted rows of one range onto `all`. */
  method CollectRange(m: Entries, ix: Indexer, q: Query, r: (Key, Key), all: seq<Observation>)
    returns (more: seq<Observation>)
    requires ix.Valid()
    ensures |all| <= |more| && more[..|all|] == all
    ensures Collected(ix, q, DiskOf(m).rows, [r], more[|all|..])
  {
    hide KeyBytes, KeyOf, RowsIn, InOrder, Within, Matches, InTime, InSphere, Position, Secs, SubNanos, Filtered,
         IsRowScan, Collected;
    var keys := Range(m, KeyBytes(r.0), KeyBytes(r.1) + [0]);
    more := all;
    NothingFiltered(ix, q);
    for i := 0 to |keys|
      invariant forall b :: b in keys[..i] ==> b in m
      invariant more == all + Filtered(ix, q, Yield(m, keys[..i]))
    {
      YieldStep(m, keys, i);
      if |keys[i]| == KEY_LEN {
        var key, payload := KeyOf(keys[i]), m[keys[i]];
        FilteredStep(ix, q, Yield(m, keys[..i]), key, payload);
        MatchesIs(ix, q, key);
        if InTime(ix, q, key) && InSphere(ix, q, key) {
          more := more + [Observe(ix, key, payload)];
        }
      }
    }
    assert keys[..|keys|] == keys;
    YieldIsScan(m, keys, r);
    FilteredScan(ix, q, DiskOf(m).rows, r, Yield(m, keys));
    assert more[|all|..] == Filtered(ix, q, Yield(m, keys));
  }

  lemma MatchesIs(ix: Indexer, q: Query, k: Key)
    ensures Matches(ix, q, k) <==> InTime(ix, q, k) && InSphere(ix, q, k)
  {
  }

  lemma NothingFiltered(ix: Indexer, q: Query)
    ensures Filtered(ix, q, []) == []
  {
  }

  lemma FilteredStep(ix: Indexer, q: Query, rows: seq<(Key, Payload)>, k: Key, p: Payload)
    ensures Filtered(ix, q, rows + [(k, p)])
            == if Matches(ix, q, k) then Filtered(ix, q, rows) + [Observe(ix, k, p)] else Filtered(ix, q, rows)
  {
    hide Matches, Position, Secs, SubNanos;
    assert (rows + [(k, p)])[..|rows|] == rows;
  }

  /** Ranges in order collect without repeats. */
  lemma CollectNext(ix: Indexer, q: Query, rows: Rows, ranges: seq<(Key, Key)>, i: nat, all: seq<Observation>,
                    found: seq<Observation>)
    requires i < |ranges| && PlanAscends(ranges)
    requires Collected(ix, q, rows, ranges[..i], all) && Collected(ix, q, rows, [ranges[i]], found)
    ensures Collected(ix, q, rows, ranges[..i + 1], all + found)
  {
    hide Matches, Position, Secs, SubNanos;
    assert ranges[..i + 1] == ranges[..i] + [ranges[i]];
    forall o ensures o in all + found <==> Accepted(ix, q, rows, ranges[..i + 1], o) {
      InSomeConcat(o.key, ranges[..i], [ranges[i]]);
      hide InSome;
    }
    forall a, b | 0 <= a < |all| && 0 <= b < |found| ensures KeyLess(all[a].key, found[b].key) {
      assert all[a] in all && found[b] in found;
      var j :| 0 <= j < i && InRange(all[a].key, ranges[..i][j]);
      assert ranges[..i][j] == ranges[j];
      assert InRange(found[b].key, ranges[i]);
      assert KeyLess(ranges[j].1, ranges[i].0);
    }
    hide Accepted, InRange, PlanAscends;
  }

  // -------------------------------------------------------------------------
  // Sorting
  // -------------------------------------------------------------------------

  /** Strictly earlier by seconds, then nanoseconds. */
  predicate Earlier(a: Observation, b: Observation)
  {
    a.secs < b.secs || (a.secs == b.secs && a.nanos < b.nanos)
  }

  /** Chronological, ties in key order. */
  predicate Precedes(a: Observation, b: Observation)
  {
    Earlier(a, b) || (a.secs == b.secs && a.nanos == b.nanos && KeyLess(a.key, b.key))
  }

  ghost predicate Chronological(r: seq<Observation>)
  {
    forall i, j :: 0 <= i < j < |r| ==> Precedes(r[i], r[j])
  }

  ghost predicate SameMembers(a: seq<Observation>, b: seq<Observation>)
  {
    |a| == |b| && forall o :: o in a <==> o in b
  }

  /** Puts `o` behind everything not later than it: one step of a stable sort by time. */
  method InsertStably(r: seq<Observation>, o: Observation) returns (r': seq<Observation>)
    requires Chronological(r) && forall i :: 0 <= i < |r| ==> KeyLess(r[i].key, o.key)
    ensures Chronological(r') && SameMembers(r', r + [o])
  {
    var n := |r|;
    while n > 0 && Earlier(o, r[n - 1])
      invariant 0 <= n <= |r|
      invariant forall i :: n <= i < |r| ==> Earlier(o, r[i])
    {
      n := n - 1;
    }
    r' := r[..n] + [o] + r[n..];
    hide KeyLess;
    BeforeInserted(r, n, o);
    InsertedInOrder(r, n, o);
    assert r == r[..n] + r[n..];
  }

  lemma BeforeInserted(r: seq<Observation>, n: nat, o: Observation)
    requires Chronological(r) && n <= |r| && forall i :: 0 <= i < |r| ==> KeyLess(r[i].key, o.key)
    requires n == 0 || !Earlier(o, r[n - 1])
    ensures forall i :: 0 <= i < n ==> Precedes(r[i], o)
  {
    hide KeyLess;
    forall i | 0 <= i < n ensures Precedes(r[i], o) {
      if i < n - 1 { assert Precedes(r[i], r[n - 1]); }
    }
  }

  lemma InsertedInOrder(r: seq<Observation>, n: nat, o: Observation)
    requires Chronological(r) && n <= |r|
    requires forall i :: 0 <= i < n ==> Precedes(r[i], o)
    requires forall i :: n <= i < |r| ==> Earlier(o, r[i])
    ensures Chronological(r[..n] + [o] + r[n..])
  {
    hide KeyLess;
    var s := r[..n] + [o] + r[n..];
    forall i, j | 0 <= i < j < |s| ensures Precedes(s[i], s[j]) {
      hide Precedes;
      var a, b := if i < n then i else i - 1, if j < n then j else j - 1;
      if i != n && j != n { assert Precedes(r[a], r[b]); }
      if j == n { assert Precedes(r[i], o); }
      if i == n { LaterFollows(o, r[b]); }
    }
  }

  lemma LaterFollows(o: Observation, x: Observation)
    requires Earlier(o, x)
    ensures Precedes(o, x)
  {
  }

  /** A stable sort by time of observations in key order leaves ties in key order. */
  method SortByTime(all: seq<Observation>) returns (r: seq<Observation>)
    requires KeysAscend(all)
    ensures Chronological(r) && SameMembers(r, all)
  {
    r := [];
    for i := 0 to |all|
      invariant Chronological(r) && SameMembers(r, all[..i])
    {
      assert all[..i + 1] == all[..i] + [all[i]];
      forall j | 0 <= j < |r| ensures KeyLess(r[j].key, all[i].key) {
        assert r[j] in all[..i];
      }
      r := InsertStably(r, all[i]);
    }
    assert all[..|all|] == all;
  }

  // -------------------------------------------------------------------------
  // The query
  // -------------------------------------------------------------------------

  /** Exactly the rows both planned and matching, each once, in chronological order. */
  ghost predicate Answers(ix: Indexer, q: Query, rows: Rows, out: seq<Observation>)
    requires Plannable(ix, q)
  {
    && Chronological(out)
    && forall o :: o in out <==> (o.key in rows && o == Observe(ix, o.key, rows[o.key]) && Matches(ix, q, o.key)
                                 && Planned(ix, q, OptimalDepth(ix, q.r), o.key))
  }

  /** `collect`: scans the ranges in order, filters, sorts. */
  method Collect(m: Entries, ix: Indexer, q: Query, ranges: seq<(Key, Key)>) returns (out: seq<Observation>)
    requires ix.Valid() && PlanAscends(ranges)
    ensures Chronological(out)
    ensures forall o :: o in out <==> Accepted(ix, q, DiskOf(m).rows, ranges, o)
  {
    hide DiskOf, Accepted, KeysAscend, PlanAscends;
    var all := [];
    NothingCollected(ix, q, DiskOf(m).rows, ranges);
    for i := 0 to |ranges|
      invariant Collected(ix, q, DiskOf(m).rows, ranges[..i], all)
    {
      ghost var before := all;
      all := CollectRange(m, ix, q, ranges[i], all);
      assert all == before + all[|before|..];
      CollectNext(ix, q, DiskOf(m).rows, ranges, i, before, all[|before|..]);
    }
    assert ranges[..|ranges|] == ranges;
    out := SortByTime(all);
  }

  lemma NothingCollected(ix: Indexer, q: Query, rows: Rows, ranges: seq<(Key, Key)>)
    ensures Collected(ix, q, rows, ranges[..0], [])
  {
    hide Matches;
  }

  method RunQuery(m: Entries, ix: Indexer, q: Query, checked: bool) returns (out: Option<seq<Observation>>)
    requires Plannable(ix, q)
    ensures out.None? <==> checked && !CountFits(ix, q)
    ensures out.Some? ==> Answers(ix, q, DiskOf(m).rows, out.value)
  {
    hide DiskOf, PlanOf, Matches, PlanAscends, Position, Secs, SubNanos, Chronological, InRange, CountFits;
    var depth := OptimalDepth(ix, q.r);
    var ranges := TimeWindowRanges(ix, q, depth, checked);
    if ranges.None? { return None; }
    PlanInOrder(ix, q, depth);
    var found := Collect(m, ix, q, ranges.value);
    out := Some(found);
  }

  /** What an answer says of a row is what its key and the disk say. */
  lemma AnswerDecodes(ix: Indexer, q: Query, rows: Rows, out: seq<Observation>, o: Observation)
    requires Plannable(ix, q) && Answers(ix, q, rows, out) && o in out
    ensures o.key in rows && o.payload == rows[o.key]
    ensures o.secs * NANOS + o.nanos
            == (o.key.epoch * ix.epochDuration * NANOS + o.key.nano) % 0x1_0000_0000_0000_0000
    ensures o.nanos < NANOS
    ensures forall a: u32, b: u32, c: u32 ::
      a <= AXIS_MAX && b <= AXIS_MAX && c <= AXIS_MAX && o.key.morton == Encode(a, b, c) ==>
        o.x == Denormalize(ix, a) && o.y == Denormalize(ix, b) && o.z == Denormalize(ix, c)
  {
    hide TotalNanos, Position, Encode, Denormalize, Matches, Planned, Chronological;
    TotalOf(ix, o.key);
    forall a: u32, b: u32, c: u32
      | a <= AXIS_MAX && b <= AXIS_MAX && c <= AXIS_MAX && o.key.morton == Encode(a, b, c)
      ensures o.x == Denormalize(ix, a) && o.y == Denormalize(ix, b) && o.z == Denormalize(ix, c)
    {
      PositionOfCode(ix, o.key, a, b, c);
    }
  }

  lemma TotalOf(ix: Indexer, k: Key)
    ensures TotalNanos(ix, k) == (k.epoch * ix.epochDuration * NANOS + k.nano) % 0x1_0000_0000_0000_0000
  {
  }

  /** The answer ascends by the time its keys carry, ties by key. */
  lemma AnswerAscends(ix: Indexer, q: Query, rows: Rows, out: seq<Observation>, i: nat, j: nat)
    requires Plannable(ix, q) && Answers(ix, q, rows, out) && i < j < |out|
    ensures var k, l := out[i].key, out[j].key;
            TotalNanos(ix, k) < TotalNanos(ix, l) || (TotalNanos(ix, k) == TotalNanos(ix, l) && KeyLess(k, l))
  {
    hide TotalNanos, KeyLess, Answers;
    AnswerDecodes(ix, q, rows, out, out[i]);
    AnswerDecodes(ix, q, rows, out, out[j]);
    TotalOf(ix, out[i].key);
    TotalOf(ix, out[j].key);
    assert Precedes(out[i], out[j]) by { InOrderAt(ix, q, rows, out, i, j); }
  }

  lemma InOrderAt(ix: Indexer, q: Query, rows: Rows, out: seq<Observation>, i: nat, j: nat)
    requires Plannable(ix, q) && Answers(ix, q, rows, out) && i < j < |out|
    ensures Precedes(out[i], out[j])
  {
    hide Planned, Matches, Observe, Precedes;
  }

  /**
   * From the write to the answer: a row stored by a call that truncates nothing is returned when its second is in
   * the window, its place in the sphere and its key not lost, with the very time it was stored with, the payload on
   * disk and the grid point nearest to its place.
   */
  lemma StoredRowReturned(ix: Indexer, q: Query, rows: Rows, out: seq<Observation>, x: real, y: real, z: real,
                          secs: u64, nanos: nat)
    requires Plannable(ix, q) && Answers(ix, q, rows, out) && nanos < NANOS && Untruncated(ix, secs, nanos)
    requires GenerateKey(ix, x, y, z, secs, nanos) in rows
    ensures var k := GenerateKey(ix, x, y, z, secs, nanos);
            && ((exists o :: o in out && o.key == k)
                <==> q.startSecs <= secs <= q.endSecs && InSphere(ix, q, k) && !Lost(ix, q, OptimalDepth(ix, q.r), k))
            && forall o :: o in out && o.key == k ==>
                 && o.secs == secs && o.nanos == nanos && o.payload == rows[k]
                 && Quantised(ix, x, o.x) && Quantised(ix, y, o.y) && Quantised(ix, z, o.z)
  {
    hide GenerateKey, Untruncated, Secs, SubNanos, Position, InSphere, Lost, Planned, OptimalDepth, Quantised,
         Chronological, Generated;
    var k := GenerateKey(ix, x, y, z, secs, nanos);
    KeyIsGenerated(ix, x, y, z, secs, nanos);
    TimeRoundTrip(ix, x, y, z, secs, nanos);
    PositionRoundTrip(ix, x, y, z, secs, nanos);
    QueryReturns(ix, q, rows, out, k);
    assert Observe(ix, k, rows[k]).key == k;
  }

  // -------------------------------------------------------------------------
  // Against a full scan
  // -------------------------------------------------------------------------

  /** Every row of the store filtered by sphere and seconds, each once, in chronological order. */
  ghost predicate IsFilteredScan(ix: Indexer, q: Query, rows: Rows, out: seq<Observation>)
  {
    && Chronological(out)
    && forall o :: o in out <==> o.key in rows && o == Observe(ix, o.key, rows[o.key]) && Matches(ix, q, o.key)
  }

  /** A query over generated keys returns every matching row but the lost ones. */
  lemma QueryReturns(ix: Indexer, q: Query, rows: Rows, out: seq<Observation>, k: Key)
    requires Plannable(ix, q) && Answers(ix, q, rows, out)
    requires k in rows && Generated(ix, k)
    ensures Observe(ix, k, rows[k]) in out <==> Matches(ix, q, k) && !Lost(ix, q, OptimalDepth(ix, q.r), k)
  {
    hide Matches, Generated, Lost, Planned, Position, Secs, SubNanos, Chronological;
    if Matches(ix, q, k) { PlanCoversMatches(ix, q, OptimalDepth(ix, q.r), k); }
    assert Observe(ix, k, rows[k]).key == k;
  }

  /** It equals the filtered full scan exactly when no matching row is one of the lost. */
  lemma QueryIsFilteredScan(ix: Indexer, q: Query, rows: Rows, out: seq<Observation>)
    requires Plannable(ix, q) && Answers(ix, q, rows, out) && forall k :: k in rows ==> Generated(ix, k)
    ensures IsFilteredScan(ix, q, rows, out)
            <==> forall k :: k in rows && Matches(ix, q, k) ==> !Lost(ix, q, OptimalDepth(ix, q.r), k)
  {
    hide Matches, Generated, Lost, Planned, Position, Secs, SubNanos, Chronological;
    forall k | k in rows
      ensures Observe(ix, k, rows[k]).key == k
      ensures Observe(ix, k, rows[k]) in out <==> Matches(ix, q, k) && !Lost(ix, q, OptimalDepth(ix, q.r), k)
    {
      QueryReturns(ix, q, rows, out, k);
    }
    if IsFilteredScan(ix, q, rows, out) {
      forall k | k in rows && Matches(ix, q, k) ensures !Lost(ix, q, OptimalDepth(ix, q.r), k) {
        assert Observe(ix, k, rows[k]) in out;
      }
    }
    hide Observe;
  }

  /** For a window whose end is safe, exactly when no matching row is one of the missed. */
  lemma SafeQueryIsFilteredScan(ix: Indexer, q: Query, rows: Rows, out: seq<Observation>)
    requires Plannable(ix, q) && Answers(ix, q, rows, out) && forall k :: k in rows ==> Generated(ix, k)
    requires EndSafe(ix, q.startSecs, q.endSecs)
    ensures IsFilteredScan(ix, q, rows, out)
            <==> forall k :: k in rows && Matches(ix, q, k) ==> !Missed(ix, q, OptimalDepth(ix, q.r), k)
  {
    hide InSphere, Generated, Lost, Missed, EndSafe, Answers, IsFilteredScan, InTime, OptimalDepth;
    QueryIsFilteredScan(ix, q, rows, out);
    forall k | k in rows && Matches(ix, q, k)
      ensures Lost(ix, q, OptimalDepth(ix, q.r), k) <==> Missed(ix, q, OptimalDepth(ix, q.r), k)
    {
      SafeLosesMissedOnly(ix, q, OptimalDepth(ix, q.r), k);
    }
  }
}
