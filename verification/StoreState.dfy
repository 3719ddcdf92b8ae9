/** What the store's operations do, on values: writes, merges and seals, and when forest and disk stay in step. */
module StoreState {
  import opened Words
  import opened Bytes
  import opened Keys
  import opened Forests
  import opened Options
  import opened SealRecords
  import opened Merkle
  import opened Disk
  import opened SealProtocol
  import opened Sorting
  import opened Planner

  /** A store between two steps; `events` is everything published so far. */
  datatype Value = Value(disk: Disk, forest: Forest, sealed: set<u32>, inflight: map<u32, nat>,
                         events: seq<(Key, Payload)>)

  /** Outside `seal_io` the sealed set is the set of epochs with a record, none of them with a write in flight. */
  predicate Sane(v: Value)
  {
    && v.forest.Valid() && v.forest.depth == MERKLE_LEAF_DEPTH_BITS
    && v.sealed == v.disk.seals.Keys && Positive(v.inflight) && v.inflight.Keys !! v.sealed
  }

  /** Seal records are exact and the forest summarises the rows. */
  ghost predicate Lockstep(v: Value)
  {
    SealExact(v.disk) && Represents(v.forest, v.disk.rows)
  }

  // -------------------------------------------------------------------------
  // In-flight counts
  // -------------------------------------------------------------------------

  function BeginAll(inflight: map<u32, nat>, es: seq<u32>): map<u32, nat>
  {
    if es == [] then inflight else Increment(BeginAll(inflight, es[..|es| - 1]), es[|es| - 1])
  }

  predicate Distinct(es: seq<u32>)
  {
    forall i, j :: 0 <= i < j < |es| ==> es[i] != es[j]
  }

  lemma {:induction false} BeginPositive(inflight: map<u32, nat>, es: seq<u32>)
    requires Positive(inflight)
    ensures Positive(BeginAll(inflight, es))
    decreases |es|
  {
    if es != [] { BeginPositive(inflight, es[..|es| - 1]); }
  }

  lemma {:induction false} EndAfterIncrement(inflight: map<u32, nat>, es: seq<u32>, e: u32)
    requires e !in es
    ensures EndAll(Increment(inflight, e), es) == Increment(EndAll(inflight, es), e)
    ensures Count(EndAll(inflight, es), e) == Count(inflight, e)
    decreases |es|
  {
    if es != [] {
      var n := |es| - 1;
      assert es == es[..n] + [es[n]];
      EndAfterIncrement(inflight, es[..n], e);
    }
  }

  /** Ending what was begun puts every count back. */
  lemma {:induction false} EndUndoesBegin(inflight: map<u32, nat>, es: seq<u32>)
    requires Positive(inflight) && Distinct(es)
    ensures EndAll(BeginAll(inflight, es), es) == inflight
    decreases |es|
  {
    if es != [] {
      var n := |es| - 1;
      EndUndoesBegin(inflight, es[..n]);
      EndAfterIncrement(BeginAll(inflight, es[..n]), es[..n], es[n]);
    }
  }

  // -------------------------------------------------------------------------
  // The effect of each operation
  // -------------------------------------------------------------------------

  function SetOf(es: seq<u32>): set<u32>
  {
    set i | 0 <= i < |es| :: es[i]
  }

  /** Seal records of `es` deleted. */
  function Unsealed(v: Value, es: set<u32>): Value
  {
    v.(disk := v.disk.(seals := v.disk.seals - es), sealed := v.sealed - es)
  }

  /**
   * A write to the epochs `es` was given up: at a sealed epoch whose record could not be deleted or, all begun,
   * at its own commit. The records deleted by then stay deleted.
   */
  predicate Abandoned(v: Value, es: seq<u32>, u: Value)
  {
    exists i :: 0 <= i <= |es| && (i < |es| ==> es[i] in v.sealed) && u == Unsealed(v, SetOf(es[..i]))
  }

  lemma AbandonedAtCommit(v: Value, es: seq<u32>)
    ensures Abandoned(v, es, Unsealed(v, SetOf(es)))
  {
    assert es[..|es|] == es;
  }

  lemma UnsealNone(v: Value)
    ensures Unsealed(v, {}) == v
  {
    assert v.disk.seals - {} == v.disk.seals && v.sealed - {} == v.sealed;
  }

  lemma OneAbandoned(v: Value, e: u32, u: Value)
    ensures Abandoned(v, [e], u) <==> u == Unsealed(v, {e}) || (e in v.sealed && u == v)
  {
    UnsealNone(v);
    assert [e][..0] == [] && [e][..1] == [e] && [e][0] == e;
    assert SetOf([]) == {} && SetOf([e]) == {e};
    if e in v.sealed { assert v == Unsealed(v, SetOf([e][..0])); }
    AbandonedAtCommit(v, [e]);
  }

  function ItemEpochs(items: seq<(Key, Payload)>): set<u32>
  {
    set i | 0 <= i < |items| :: items[i].0.epoch
  }

  /** A local write: records deleted, rows put, each folded in, each published. */
  function Written(v: Value, items: seq<(Key, Payload)>): Value
    requires v.forest.depth <= 64
  {
    var u := Unsealed(v, ItemEpochs(items));
    u.(disk := u.disk.(rows := PutAll(u.disk.rows, items)), forest := InsertAll(u.forest, items),
       events := u.events + items)
  }

  /** A row that replaces what is held: nothing, or a different payload of smaller digest. */
  predicate Wins(rows: Rows, k: Key, p: Payload)
  {
    k in rows ==> rows[k] != p && ItemDigest(k, rows[k]) < ItemDigest(k, p)
  }

  /** A merged row; the row it displaces is folded out first. */
  function Merged(v: Value, k: Key, p: Payload): Value
    requires v.forest.depth <= 64
  {
    var u := Unsealed(v, {k.epoch});
    var f := if k in v.disk.rows then v.forest.Remove(k, v.disk.rows[k]) else v.forest;
    u.(disk := u.disk.(rows := u.disk.rows[k := p]), forest := f.Insert(k, p), events := u.events + [(k, p)])
  }

  /** A merge that wins changes the rows, and publishes that one row. */
  lemma MergeChanges(v: Value, k: Key, p: Payload)
    requires v.forest.depth <= 64 && Wins(v.disk.rows, k, p)
    ensures Merged(v, k, p).disk.rows != v.disk.rows
    ensures Merged(v, k, p).events == v.events + [(k, p)] != v.events
  {
    hide Forest.Insert, Forest.Remove;
    assert Merged(v, k, p).disk.rows[k] == p;
    assert |Merged(v, k, p).events| == |v.events| + 1;
  }

  // -------------------------------------------------------------------------
  // What stays in step
  // -------------------------------------------------------------------------

  /** Deleting records never hurts. */
  lemma UnsealKeeps(v: Value, es: set<u32>)
    requires Sane(v)
    ensures Sane(Unsealed(v, es))
    ensures Lockstep(v) ==> Lockstep(Unsealed(v, es))
  {
    hide RecordOf;
  }

  /** Records of epochs a write does not touch stay exact. */
  lemma RecordsStayExact(d: Disk, rows: Rows, es: set<u32>)
    requires SealExact(d) && forall k: Key :: k.epoch !in es ==> SameAt(rows, d.rows, k)
    ensures SealExact(Disk(rows, d.seals - es))
  {
    hide Summarise, Record;
    forall e | e in d.seals && e !in es ensures RecordOf(rows, e) == RecordOf(d.rows, e) {
      assert EpochRows(rows, e) == EpochRows(d.rows, e) by { SameEpoch(rows, d.rows, e, es); }
      SummariseCongruent(rows, d.rows, e, MERKLE_LEAF_DEPTH_BITS);
    }
  }

  lemma SameEpoch(a: Rows, b: Rows, e: u32, es: set<u32>)
    requires e !in es && forall k: Key :: k.epoch !in es ==> SameAt(a, b, k)
    ensures EpochRows(a, e) == EpochRows(b, e)
  {
    assert forall k: Key :: k.epoch == e ==> SameAt(a, b, k);
  }

  /** Of the puts of a key the last one stands. */
  lemma {:induction false} LastPut(rows: Rows, items: seq<(Key, Payload)>, i: nat)
    requires i < |items| && forall j :: i < j < |items| ==> items[j].0 != items[i].0
    ensures items[i].0 in PutAll(rows, items) && PutAll(rows, items)[items[i].0] == items[i].1
    decreases |items|
  {
    var n := |items| - 1;
    if i < n {
      assert items[..n][i] == items[i];
      LastPut(rows, items[..n], i);
    }
  }

  /**
   * What a local write does: the last put of each key stands and other rows stay, the records of the epochs it writes
   * to are gone and the others stay, nothing is in flight that was not, and every item is published once, in order.
   */
  lemma WriteEffect(v: Value, items: seq<(Key, Payload)>, i: nat, k: Key, e: u32)
    requires Sane(v)
    ensures var w := Written(v, items);
            && (i < |items| && (forall j :: i < j < |items| ==> items[j].0 != items[i].0)
                ==> items[i].0 in w.disk.rows && w.disk.rows[items[i].0] == items[i].1)
            && ((forall j :: 0 <= j < |items| ==> items[j].0 != k) ==> SameAt(w.disk.rows, v.disk.rows, k))
            && ((exists j :: 0 <= j < |items| && items[j].0.epoch == e) ==> e !in w.disk.seals && e !in w.sealed)
            && ((forall j :: 0 <= j < |items| ==> items[j].0.epoch != e)
                ==> (e in w.sealed <==> e in v.sealed) && (e in w.disk.seals <==> e in v.disk.seals)
                    && (e in v.disk.seals ==> w.disk.seals[e] == v.disk.seals[e]))
            && w.inflight == v.inflight && w.events == v.events + items
  {
    hide Sane, PutAll, InsertAll;
    if i < |items| && forall j :: i < j < |items| ==> items[j].0 != items[i].0 { LastPut(v.disk.rows, items, i); }
    PutAllAt(v.disk.rows, items, k);
  }

  /** A merge touches the row and the record of its own key and epoch alone. */
  lemma MergeEffect(v: Value, k: Key, p: Payload, l: Key, e: u32)
    requires Sane(v)
    ensures var w := Merged(v, k, p);
            && k in w.disk.rows && w.disk.rows[k] == p && k.epoch !in w.disk.seals && k.epoch !in w.sealed
            && (l != k ==> SameAt(w.disk.rows, v.disk.rows, l))
            && (e != k.epoch ==> (e in w.sealed <==> e in v.sealed) && (e in w.disk.seals <==> e in v.disk.seals)
                                 && (e in v.disk.seals ==> w.disk.seals[e] == v.disk.seals[e]))
            && w.inflight == v.inflight && w.events == v.events + [(k, p)]
  {
    hide Sane, Forest.Insert, Forest.Remove;
  }

  predicate AllFresh(rows: Rows, items: seq<(Key, Payload)>)
  {
    DistinctKeys(items) && forall k :: k in KeysOf(items) ==> k !in rows
  }

  /** A local write keeps forest and disk in step exactly when its keys are new and distinct. */
  lemma WriteInStep(v: Value, items: seq<(Key, Payload)>)
    requires Sane(v) && Lockstep(v)
    ensures Lockstep(Written(v, items)) <==> AllFresh(v.disk.rows, items)
  {
    var w := Written(v, items);
    forall k | k in KeysOf(items) ensures k.epoch in ItemEpochs(items) {
      var i :| 0 <= i < |items| && items[i].0 == k;
    }
    forall k: Key | k.epoch !in ItemEpochs(items) ensures SameAt(w.disk.rows, v.disk.rows, k) {
      PutAllAt(v.disk.rows, items, k);
    }
    RecordsStayExact(v.disk, w.disk.rows, ItemEpochs(items));
    hide SealExact, Represents, Forest.Valid, InsertAll, PutAll;
    if AllFresh(v.disk.rows, items) {
      InsertAllInStep(v.forest, v.disk.rows, items);
    } else {
      StaleWrite(v.forest, v.disk.rows, items);
    }
  }

  function Items(items: seq<(Key, Payload)>, e: u32): nat
  {
    if items == [] then 0
    else Items(items[..|items| - 1], e) + if items[|items| - 1].0.epoch == e then 1 else 0
  }

  lemma {:induction false} InsertCounts(f: Forest, items: seq<(Key, Payload)>, e: u32)
    requires f.depth <= 64
    ensures InsertAll(f, items).At(e).count == f.At(e).count + Items(items, e)
    decreases |items|
  {
    if items != [] { InsertCounts(f, items[..|items| - 1], e); }
  }

  lemma PutCount(rows: Rows, k: Key, v: Payload, e: u32)
    ensures |EpochRows(rows[k := v], e)| == |EpochRows(rows, e)| + if k !in rows && k.epoch == e then 1 else 0
  {
    if k !in rows && k.epoch == e {
      assert EpochRows(rows[k := v], e) == EpochRows(rows, e)[k := v];
    } else {
      assert EpochRows(rows[k := v], e).Keys == EpochRows(rows, e).Keys;
      assert |EpochRows(rows[k := v], e).Keys| == |EpochRows(rows, e).Keys|;
    }
  }

  /** A repeated or an old key is counted twice, once too often, and no later item makes up for it. */
  lemma {:induction false} CountLost(rows: Rows, items: seq<(Key, Payload)>, e: u32)
    ensures |EpochRows(PutAll(rows, items), e)| <= |EpochRows(rows, e)| + Items(items, e)
    decreases |items|
  {
    if items != [] {
      var n := |items| - 1;
      CountLost(rows, items[..n], e);
      PutCount(PutAll(rows, items[..n]), items[n].0, items[n].1, e);
    }
  }

  lemma {:induction false} StaleCount(rows: Rows, items: seq<(Key, Payload)>)
    requires !AllFresh(rows, items)
    ensures exists e: u32 :: |EpochRows(PutAll(rows, items), e)| < |EpochRows(rows, e)| + Items(items, e)
    decreases |items|
  {
    hide EpochRows;
    var n := |items| - 1;
    var k, was := items[n].0, PutAll(rows, items[..n]);
    if AllFresh(rows, items[..n]) {
      if k !in was { FreshLast(rows, items); }
      CountLost(rows, items[..n], k.epoch);
      PutCount(was, k, items[n].1, k.epoch);
    } else {
      StaleCount(rows, items[..n]);
      var e: u32 :| |EpochRows(was, e)| < |EpochRows(rows, e)| + Items(items[..n], e);
      PutCount(was, k, items[n].1, e);
    }
  }

  lemma FreshLast(rows: Rows, items: seq<(Key, Payload)>)
    requires items != [] && AllFresh(rows, items[..|items| - 1])
    requires items[|items| - 1].0 !in PutAll(rows, items[..|items| - 1])
    ensures AllFresh(rows, items)
  {
    var n := |items| - 1;
    KeysOfStep(items);
    PutAllAt(rows, items[..n], items[n].0);
    forall i, j | 0 <= i < j < |items| ensures items[i].0 != items[j].0 {
      assert items[..n][i].0 in KeysOf(items[..n]);
      if j < n { assert items[..n][j].0 == items[j].0; }
    }
  }

  lemma StaleWrite(f: Forest, rows: Rows, items: seq<(Key, Payload)>)
    requires Represents(f, rows) && !AllFresh(rows, items)
    ensures !Represents(InsertAll(f, items), PutAll(rows, items))
  {
    StaleCount(rows, items);
    var e: u32 :| |EpochRows(PutAll(rows, items), e)| < |EpochRows(rows, e)| + Items(items, e);
    assert f.Valid() && f.At(e) == Summarise(rows, e, f.depth);
    InsertCounts(f, items, e);
    hide AllFresh, PutAll, InsertAll, EpochRows, Canonical, LeafPrefixes, CellHash, Items;
    assert InsertAll(f, items).At(e) != Summarise(PutAll(rows, items), e, f.depth);
  }

  /** A merge keeps forest and disk in step whatever it replaces. */
  lemma MergeInStep(v: Value, k: Key, p: Payload)
    requires Sane(v) && Lockstep(v)
    ensures Lockstep(Merged(v, k, p))
  {
    forall l: Key | l.epoch !in {k.epoch} ensures SameAt(v.disk.rows[k := p], v.disk.rows, l) {}
    RecordsStayExact(v.disk, v.disk.rows[k := p], {k.epoch});
    hide SealExact;
    if k in v.disk.rows {
      ReplaceInStep(v.forest, v.disk.rows, k, p);
    } else {
      InsertInStep(v.forest, v.disk.rows, k, p);
    }
    hide Represents;
  }

  lemma MergedSane(v: Value, k: Key, p: Payload)
    requires Sane(v)
    ensures Sane(Merged(v, k, p))
  {
    var f := if k in v.disk.rows then v.forest.Remove(k, v.disk.rows[k]) else v.forest;
    if k in v.disk.rows { InsertValid(v.forest, k, v.disk.rows[k]); }
    InsertValid(f, k, p);
    hide Forest.Valid, ToggleLeaf;
  }

  lemma {:induction false} InsertAllValid(f: Forest, items: seq<(Key, Payload)>)
    requires f.Valid()
    ensures InsertAll(f, items).Valid()
    decreases |items|
  {
    if items != [] {
      var n := |items| - 1;
      InsertAllValid(f, items[..n]);
      InsertValid(InsertAll(f, items[..n]), items[n].0, items[n].1);
    }
  }

  // -------------------------------------------------------------------------
  // Sealing
  // -------------------------------------------------------------------------

  /** `now` less `grace`, saturating, in whole epochs. */
  function Cutoff(ix: Indexer, nowSecs: u64, graceSecs: u64): nat
    requires ix.Valid()
  {
    (if graceSecs <= nowSecs then nowSecs - graceSecs else 0) / ix.epochDuration
  }

  /** An epoch is before the cutoff when all of it ended at least the grace period ago. */
  lemma CutoffIsSettled(ix: Indexer, nowSecs: u64, graceSecs: u64, e: u32)
    requires ix.Valid()
    ensures e < Cutoff(ix, nowSecs, graceSecs) <==> (e + 1) * ix.epochDuration + graceSecs <= nowSecs
  {
    var d := ix.epochDuration;
    if graceSecs <= nowSecs {
      var span := nowSecs - graceSecs;
      SnapBounds(span, d);
      if e < span / d {
        MulMono(e + 1, span / d, d);
      } else {
        MulMono(span / d + 1, e + 1, d);
        Distribute(span / d, 1, d);
      }
    } else {
      assert 0 / d == 0;
      MulMono(1, e + 1, d);
    }
  }

  function Before(es: seq<u32>, cutoff: nat): seq<u32>
  {
    if es == [] then []
    else
      var n := |es| - 1;
      Before(es[..n], cutoff) + if es[n] < cutoff then [es[n]] else []
  }

  /** Epochs with a tree, before the cutoff, ascending. */
  ghost function Settled(v: Value, cutoff: nat): seq<u32>
  {
    Before(SortedEpochs(v.forest.trees.Keys), cutoff)
  }

  lemma {:induction false} BeforeIs(es: seq<u32>, cutoff: nat, e: u32)
    ensures e in Before(es, cutoff) <==> e in es && e < cutoff
    decreases |es|
  {
    if es != [] {
      assert es == es[..|es| - 1] + [es[|es| - 1]];
      BeforeIs(es[..|es| - 1], cutoff, e);
    }
  }

  lemma {:induction false} BeforeAscends(es: seq<u32>, cutoff: nat)
    requires Ascending(es)
    ensures Ascending(Before(es, cutoff))
    decreases |es|
  {
    if es != [] {
      var n := |es| - 1;
      BeforeAscends(es[..n], cutoff);
      var cs := Before(es[..n], cutoff);
      forall i | 0 <= i < |cs| ensures cs[i] < es[n] {
        BeforeIs(es[..n], cutoff, cs[i]);
        var j :| 0 <= j < n && es[j] == cs[i];
      }
    }
  }

  lemma SettledAscend(v: Value, cutoff: nat)
    ensures Distinct(Settled(v, cutoff)) && Ascending(Settled(v, cutoff))
    ensures Settled(v, cutoff) == Before(SortedEpochs(v.forest.trees.Keys), cutoff)
  {
    BeforeAscends(SortedEpochs(v.forest.trees.Keys), cutoff);
  }

  /** Neither sealed nor in flight, and with something to record. */
  ghost predicate Sealable(v: Value, e: u32)
    requires v.forest.depth <= 63
  {
    e !in v.sealed && e !in v.inflight && SealOf(v.forest, e).Some?
  }

  ghost function SealOne(v: Value, e: u32): Value
    requires v.forest.depth <= 63 && SealOf(v.forest, e).Some?
  {
    v.(disk := v.disk.(seals := v.disk.seals[e := SealOf(v.forest, e).value]), sealed := v.sealed + {e})
  }

  ghost function ToSeal(v: Value, cs: seq<u32>): seq<u32>
    requires v.forest.depth <= 63
  {
    if cs == [] then []
    else
      var n := |cs| - 1;
      ToSeal(v, cs[..n]) + if Sealable(v, cs[n]) then [cs[n]] else []
  }

  /** Records of `es` written. */
  ghost function SealAll(v: Value, es: seq<u32>): (w: Value)
    requires v.forest.depth <= 63
    ensures w.forest == v.forest
  {
    if es == [] then v
    else
      var n := |es| - 1;
      var u := SealAll(v, es[..n]);
      if SealOf(u.forest, es[n]).Some? then SealOne(u, es[n]) else u
  }

  lemma {:induction false} SealedOnly(v: Value, es: seq<u32>, e: u32)
    requires v.forest.depth <= 63 && e !in es
    ensures e in SealAll(v, es).sealed <==> e in v.sealed
    ensures SealAll(v, es).inflight == v.inflight
    decreases |es|
  {
    if es != [] { SealedOnly(v, es[..|es| - 1], e); }
  }

  lemma {:induction false} ToSealIs(v: Value, cs: seq<u32>, e: u32)
    requires v.forest.depth <= 63
    ensures e in ToSeal(v, cs) <==> e in cs && Sealable(v, e)
    decreases |cs|
  {
    if cs != [] {
      assert cs == cs[..|cs| - 1] + [cs[|cs| - 1]];
      ToSealIs(v, cs[..|cs| - 1], e);
    }
  }

  lemma {:induction false} ToSealAscends(v: Value, cs: seq<u32>)
    requires v.forest.depth <= 63 && Ascending(cs)
    ensures Ascending(ToSeal(v, cs))
    decreases |cs|
  {
    hide Sealable;
    if cs != [] {
      var n := |cs| - 1;
      ToSealAscends(v, cs[..n]);
      var s := ToSeal(v, cs[..n]);
      forall i | 0 <= i < |s| ensures s[i] < cs[n] {
        ToSealIs(v, cs[..n], s[i]);
        var j :| 0 <= j < n && cs[j] == s[i];
      }
    }
  }

  /**
   * What a pass seals, in ascending order: the epochs with something to record that ended at least the grace period
   * ago, are not sealed and have no write in flight.
   */
  lemma DueExactly(v: Value, ix: Indexer, nowSecs: u64, graceSecs: u64, e: u32)
    requires v.forest.depth <= 63 && ix.Valid()
    ensures var due := ToSeal(v, Settled(v, Cutoff(ix, nowSecs, graceSecs)));
            && Ascending(due)
            && (e in due <==> && (e + 1) * ix.epochDuration + graceSecs <= nowSecs
                              && e !in v.sealed && e !in v.inflight && v.forest.At(e).leaves != map[])
  {
    hide Cutoff, ToSeal, Before;
    var cutoff := Cutoff(ix, nowSecs, graceSecs);
    SettledAscend(v, cutoff);
    CutoffIsSettled(ix, nowSecs, graceSecs, e);
    BeforeIs(SortedEpochs(v.forest.trees.Keys), cutoff, e);
    ToSealIs(v, Settled(v, cutoff), e);
    ToSealAscends(v, Settled(v, cutoff));
    hide Settled;
  }

  /** Sealing writes the record of each epoch's tree and changes nothing else. */
  lemma {:induction false} SealAllEffect(v: Value, es: seq<u32>, e: u32)
    requires v.forest.depth <= 63 && forall x :: x in es ==> v.forest.At(x).leaves != map[]
    ensures var w := SealAll(v, es);
            && (e in es ==> e in w.sealed && e in w.disk.seals
                            && w.disk.seals[e] == Record(v.forest.depth, v.forest.At(e)))
            && (e !in es ==> (e in w.sealed <==> e in v.sealed) && (e in w.disk.seals <==> e in v.disk.seals)
                             && (e in v.disk.seals ==> w.disk.seals[e] == v.disk.seals[e]))
            && w.disk.rows == v.disk.rows && w.inflight == v.inflight && w.events == v.events
    decreases |es|
  {
    hide Record;
    if es != [] {
      var n := |es| - 1;
      assert es == es[..n] + [es[n]];
      SealAllEffect(v, es[..n], e);
    }
  }

  /** Whether a candidate can be sealed does not depend on those sealed before it. */
  lemma ToSealStep(v: Value, cs: seq<u32>, i: nat)
    requires v.forest.depth <= 63 && Distinct(cs) && i < |cs|
    ensures var done := ToSeal(v, cs[..i]);
            && (Sealable(SealAll(v, done), cs[i]) <==> Sealable(v, cs[i]))
            && ToSeal(v, cs[..i + 1]) == done + (if Sealable(v, cs[i]) then [cs[i]] else [])
            && (Sealable(v, cs[i]) ==> SealAll(v, done + [cs[i]]) == SealOne(SealAll(v, done), cs[i]))
  {
    var done := ToSeal(v, cs[..i]);
    assert cs[..i + 1][..i] == cs[..i];
    ToSealIs(v, cs[..i], cs[i]);
    SealedOnly(v, done, cs[i]);
    assert (done + [cs[i]])[..|done|] == done;
  }

  lemma {:induction false} ToSealPrefix(v: Value, cs: seq<u32>, i: nat)
    requires v.forest.depth <= 63 && i < |cs| && Sealable(v, cs[i])
    ensures ToSeal(v, cs[..i]) < ToSeal(v, cs)
    decreases |cs|
  {
    hide Sealable;
    var n := |cs| - 1;
    if i == n {
      assert ToSeal(v, cs) == ToSeal(v, cs[..n]) + [cs[n]];
    } else {
      assert cs[..n][..i] == cs[..i];
      ToSealPrefix(v, cs[..n], i);
    }
  }

  /** Sealing from a forest in step writes exact records. */
  lemma {:induction false} SealInStep(v: Value, es: seq<u32>)
    requires Sane(v) && Lockstep(v) && forall e :: e in es ==> Sealable(v, e)
    ensures Lockstep(SealAll(v, es))
    decreases |es|
  {
    if es != [] {
      var n := |es| - 1;
      SealInStep(v, es[..n]);
      SealedRowsKept(v, es[..n]);
      assert v.forest.At(es[n]) == Summarise(v.disk.rows, es[n], MERKLE_LEAF_DEPTH_BITS);
      hide Represents, Summarise, Record;
    }
  }

  lemma {:induction false} SealedRowsKept(v: Value, es: seq<u32>)
    requires v.forest.depth <= 63
    ensures SealAll(v, es).disk.rows == v.disk.rows
    decreases |es|
  {
    if es != [] { SealedRowsKept(v, es[..|es| - 1]); }
  }
}
