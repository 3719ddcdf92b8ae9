/** The store as an object: opening, local writes, merges and sealing, one call at a time; any commit may fail. */
module Store {
  import opened Words
  import opened Bytes
  import opened Keys
  import opened Sorting
  import opened Forests
  import opened Options
  import opened SealRecords
  import opened Merkle
  import opened Disk
  import opened SealProtocol
  import opened Kv
  import opened Layout
  import opened Opening
  import opened Planner
  import opened StoreState
  import opened WindowPlan
  import opened RowScans
  import opened Queries

  /** One record of a batch. */
  datatype Observed = Observed(x: real, y: real, z: real, secs: u64, nanos: nat, payload: Payload)

  function KeyFor(ix: Indexer, o: Observed): Key
    requires ix.Valid() && o.nanos < NANOS
  {
    GenerateKey(ix, o.x, o.y, o.z, o.secs, o.nanos)
  }

  predicate Timed(records: seq<Observed>)
  {
    forall i :: 0 <= i < |records| ==> records[i].nanos < NANOS
  }

  function ItemsOf(ix: Indexer, records: seq<Observed>): (items: seq<(Key, Payload)>)
    requires ix.Valid() && Timed(records)
    ensures |items| == |records|
    ensures forall i :: 0 <= i < |records| ==>
      var o := records[i]; items[i] == (GenerateKey(ix, o.x, o.y, o.z, o.secs, o.nanos), o.payload)
  {
    seq(|records|, i requires 0 <= i < |records| => (KeyFor(ix, records[i]), records[i].payload))
  }

  class SpatioTemporalStore {
    const indexer: Indexer
    const tree: KvTree
    const merkle: MerkleForest
    var sealed: set<u32>
    var inflight: map<u32, nat>
    var events: seq<(Key, Payload)>

    ghost function Now(): Value
      reads this, tree, merkle, merkle.repr
      requires merkle.Valid()
    {
      Value(DiskOf(tree.data), merkle.View(), sealed, inflight, events)
    }

    ghost predicate Wired()
      reads this, tree, merkle, merkle.repr
    {
      indexer.Valid() && merkle.Valid() && merkle.depth == MERKLE_LEAF_DEPTH_BITS && Sane(Now())
    }

    /** Rebuilds the forest from the tree; exact records leave the new store in step with its disk. */
    constructor Open(tree: KvTree, maxRange: real, epochDuration: u32)
      requires maxRange > 0.0 && epochDuration > 0
      ensures this.tree == tree && indexer == Indexer(maxRange, epochDuration) && fresh(merkle)
      ensures forall t :: t in merkle.repr ==> fresh(t)
      ensures merkle.Valid()
      ensures var d := DiskOf(tree.data); Now() == Value(d, OpenForest(d), ReadableSeals(d), map[], [])
      ensures SealExact(DiskOf(tree.data)) && |DiskOf(tree.data).rows| <= U64_MAX ==> Wired() && Lockstep(Now())
    {
      hide DiskOf, OpenForest, ReadableSeals, MerkleForest.View, MerkleForest.Valid, Sane, Lockstep, SealExact,
           Kv.InOrder;
      var forest, readable := Rebuild(tree.Snapshot());
      this.tree := tree;
      indexer := Indexer(maxRange, epochDuration);
      merkle, sealed, inflight, events := forest, readable, map[], [];
      new;
      OpenedInStep(DiskOf(tree.data));
    }

    // -----------------------------------------------------------------------
    // Seal bookkeeping of the write path
    // -----------------------------------------------------------------------

    method BeginWriteEpoch(epoch: u32) returns (ok: bool)
      requires Wired()
      modifies this`sealed, this`inflight, tree
      ensures Wired()
      ensures ok ==> Now() == Unsealed(old(Now()), {epoch}).(inflight := Increment(old(inflight), epoch))
      ensures !ok ==> epoch in old(sealed) && Now() == old(Now())
      ensures tree.failures == old(tree.failures) + if ok then 0 else 1
    {
      hide DiskOf, MerkleForest.View, MerkleForest.Valid, Forest.Valid, SealKey;
      if epoch !in sealed {
        inflight := Increment(inflight, epoch);
        return true;
      }
      DropSeal(tree.data, epoch);
      CommitDelete(tree.data, SealKey(epoch));
      ok := tree.Commit(map[], {SealKey(epoch)});
      if ok {
        sealed := sealed - {epoch};
        inflight := Increment(inflight, epoch);
      }
    }

    /** On failure no epoch is left marked, though the records deleted so far stay deleted. */
    method BeginWriteEpochs(epochs: seq<u32>) returns (ok: bool)
      requires Wired() && Distinct(epochs)
      modifies this`sealed, this`inflight, tree
      ensures Wired()
      ensures ok ==> Now() == Unsealed(old(Now()), SetOf(epochs)).(inflight := BeginAll(old(inflight), epochs))
      ensures !ok ==> Abandoned(old(Now()), epochs, Now())
      ensures tree.failures == old(tree.failures) + if ok then 0 else 1
    {
      hide DiskOf, MerkleForest.View, MerkleForest.Valid, Forest.Valid, Increment, Sane;
      ghost var before := Now();
      NoneBegun(before, epochs);
      for i := 0 to |epochs|
        invariant Wired()
        invariant Now() == Begun(before, epochs[..i]) && tree.failures == old(tree.failures)
      {
        BegunStep(before, epochs, i);
        var one := BeginWriteEpoch(epochs[i]);
        if !one {
          BegunThenEnded(before, epochs, i);
          EndWriteEpochs(epochs[..i]);
          return false;
        }
      }
      AllBegun(before, epochs);
      return true;
    }

    method EndWriteEpochs(epochs: seq<u32>)
      requires Positive(inflight)
      modifies this`inflight
      ensures inflight == EndAll(old(inflight), epochs)
    {
      for i := 0 to |epochs|
        invariant Positive(inflight) && inflight == EndAll(old(inflight), epochs[..i])
      {
        var e := epochs[i];
        assert epochs[..i + 1][..i] == epochs[..i];
        if e in inflight {
          inflight := inflight[e := inflight[e] - 1];
          if inflight[e] == 0 { inflight := inflight - {e}; }
        }
      }
      assert epochs[..|epochs|] == epochs;
    }

    // -----------------------------------------------------------------------
    // Writes
    // -----------------------------------------------------------------------

    method Publish(key: Key, payload: Payload)
      modifies this`events
      ensures events == old(events) + [(key, payload)]
    {
      events := events + [(key, payload)];
    }

    /** Local write of one row. On failure at most the epoch's seal record is gone. */
    method Store(x: real, y: real, z: real, secs: u64, nanos: nat, payload: Payload) returns (key: Option<Key>)
      requires Wired() && nanos < NANOS
      modifies this, tree, merkle, merkle.repr
      ensures Wired()
      ensures var k := GenerateKey(indexer, x, y, z, secs, nanos);
              && (key.Some? ==> key.value == k && Now() == Written(old(Now()), [(k, payload)]))
              && (key.None? ==> Abandoned(old(Now()), [k.epoch], Now()))
      ensures tree.failures == old(tree.failures) + if key.Some? then 0 else 1
    {
      hide DiskOf, MerkleForest.View, MerkleForest.Valid, Forest.Valid, GenerateKey, KeyBytes, Sane, Written,
           BeginAll, EndAll, Forest.Insert, SetOf;
      ghost var before := Now();
      var k := GenerateKey(indexer, x, y, z, secs, nanos);
      var epochs := [k.epoch];
      OneEpoch(before, k.epoch);
      var begun := BeginWriteEpochs(epochs);
      if !begun { return None; }
      CommitRow(tree.data, k, payload);
      StoreDone(before, k, payload);
      var ok := tree.Commit(map[KeyBytes(k) := payload], {});
      if ok {
        merkle.Insert(k, payload);
        Publish(k, payload);
      }
      EndWriteEpochs(epochs);
      key := if ok then Some(k) else None;
    }

    method FoldAll(items: seq<(Key, Payload)>)
      requires merkle.Valid()
      modifies merkle, merkle.repr
      ensures merkle.Valid() && merkle.View() == InsertAll(old(merkle.View()), items)
      ensures forall t :: t in merkle.repr ==> t in old(merkle.repr) || fresh(t)
    {
      hide MerkleForest.View, MerkleForest.Valid, Forest.Insert;
      ghost var before := merkle.View();
      assert items[..0] == [];
      for i := 0 to |items|
        invariant merkle.Valid() && merkle.View() == InsertAll(before, items[..i])
        invariant forall t :: t in merkle.repr ==> t in old(merkle.repr) || fresh(t)
      {
        assert items[..i + 1][..i] == items[..i];
        merkle.Insert(items[i].0, items[i].1);
      }
      assert items[..|items|] == items;
    }

    method PublishAll(items: seq<(Key, Payload)>)
      modifies this`events
      ensures events == old(events) + items
    {
      for i := 0 to |items|
        invariant events == old(events) + items[..i]
      {
        Publish(items[i].0, items[i].1);
      }
    }

    /** Local write of a batch in one transaction. On failure at most seal records of its epochs are gone. */
    method StoreBatch(records: seq<Observed>) returns (keys: Option<seq<Key>>)
      requires Wired() && Timed(records)
      modifies this, tree, merkle, merkle.repr
      ensures Wired()
      ensures var items := ItemsOf(indexer, records);
              && (keys.Some? ==> Now() == Written(old(Now()), items) && |keys.value| == |items|
                                 && forall i :: 0 <= i < |items| ==> keys.value[i] == items[i].0)
              && (keys.None? ==> Abandoned(old(Now()), SortedEpochs(ItemEpochs(items)), Now()))
      ensures tree.failures == old(tree.failures) + if keys.Some? then 0 else 1
    {
      hide DiskOf, MerkleForest.View, MerkleForest.Valid, Forest.Valid, KeyFor, Sane, Written, BeginAll, EndAll,
           InsertAll, PutAll, SetOf, ItemEpochs, PutsOf;
      ghost var before := Now();
      var items := ItemsOf(indexer, records);
      var epochs := DistinctEpochs(items);
      EpochsDone(before, epochs, items);
      var begun := BeginWriteEpochs(epochs);
      if !begun { return None; }
      var txn := Transaction(items);
      CommitBatch(tree.data, items);
      var ok := tree.Commit(txn, {});
      if ok {
        FoldAll(items);
        PublishAll(items);
      }
      EndWriteEpochs(epochs);
      WrittenIs(before, items);
      keys := if ok then Some(seq(|items|, i requires 0 <= i < |items| => items[i].0)) else None;
    }

    /** Merges one replicated row: the larger digest wins, an equal row or a loser changes nothing. */
    method Ingest(key: Key, payload: Payload) returns (changed: Option<bool>)
      requires Wired()
      modifies this, tree, merkle, merkle.repr
      ensures Wired()
      ensures changed.None? || changed.value <==> Wins(old(Now()).disk.rows, key, payload)
      ensures changed.None? ==> Abandoned(old(Now()), [key.epoch], Now())
      ensures tree.failures == old(tree.failures) + if changed.Some? then 0 else 1
      ensures changed.Some? ==> Now() == if changed.value then Merged(old(Now()), key, payload) else old(Now())
      ensures forall t :: t in merkle.repr ==> t in old(merkle.repr) || fresh(t)
    {
      hide DiskOf, MerkleForest.View, MerkleForest.Valid, Forest.Valid, KeyBytes, Sane, BeginAll, EndAll,
           Forest.Insert, Forest.Remove, SetOf;
      ghost var before := Now();
      RowLookup(tree.data, key);
      var existing := if KeyBytes(key) in tree.data then Some(tree.data[KeyBytes(key)]) else None;
      if existing.Some? {
        if existing.value == payload { return Some(false); }
        if ItemDigest(key, existing.value) >= ItemDigest(key, payload) { return Some(false); }
      }
      var epochs := [key.epoch];
      OneEpoch(before, key.epoch);
      var begun := BeginWriteEpochs(epochs);
      if !begun { return None; }
      CommitRow(tree.data, key, payload);
      var ok := tree.Commit(map[KeyBytes(key) := payload], {});
      if ok {
        if existing.Some? { merkle.Remove(key, existing.value); }
        merkle.Insert(key, payload);
        Publish(key, payload);
      }
      EndWriteEpochs(epochs);
      MergedSane(before, key, payload);
      changed := if ok then Some(true) else None;
    }

    // -----------------------------------------------------------------------
    // Sealing
    // -----------------------------------------------------------------------

    /** One candidate: Some(true) when its record was written, Some(false) when there is nothing to do. */
    method SealEpoch(epoch: u32) returns (written: Option<bool>)
      requires Wired()
      modifies this`sealed, tree
      ensures Wired()
      ensures written == Some(false) <==> !Sealable(old(Now()), epoch)
      ensures Now() == if written == Some(true) then SealOne(old(Now()), epoch) else old(Now())
      ensures tree.failures == old(tree.failures) + if written.Some? then 0 else 1
    {
      hide DiskOf, MerkleForest.View, MerkleForest.Valid, Forest.Valid, SealKey, SealOf;
      if epoch in sealed || epoch in inflight { return Some(false); }
      ghost var before := sealed;
      sealed := sealed + {epoch};
      var record := merkle.SerializeEpoch(epoch);
      if record.None? {
        sealed := sealed - {epoch};
        assert sealed == before;
        return Some(false);
      }
      CommitSeal(tree.data, epoch, record.value);
      var ok := tree.Commit(map[SealKey(epoch) := record.value], {});
      if !ok {
        sealed := sealed - {epoch};
        assert sealed == before;
        return None;
      }
      return Some(true);
    }

    /** Seals every settled epoch it can; the first failing commit ends the pass. */
    method SealSettledEpochs(nowSecs: u64, graceSecs: u64) returns (ok: bool, newly: seq<u32>)
      requires Wired()
      modifies this`sealed, tree
      ensures Wired()
      ensures var due := ToSeal(old(Now()), Settled(old(Now()), Cutoff(indexer, nowSecs, graceSecs)));
              if ok then newly == due else newly < due
      ensures Now() == SealAll(old(Now()), newly)
      ensures tree.failures == old(tree.failures) + if ok then 0 else 1
    {
      hide DiskOf, MerkleForest.View, MerkleForest.Valid, Forest.Valid, SealOf, Sane, SealOne, Sealable, SortedEpochs,
           Cutoff, ToSeal, SealAll, Before, Settled, Distinct;
      ghost var before := Now();
      NothingSealed(before);
      var cutoff := Cutoff(indexer, nowSecs, graceSecs);
      var epochs := merkle.Epochs();
      var candidates := Below(epochs, cutoff);
      SettledAscend(before, cutoff);
      newly := [];
      assert candidates[..0] == [];
      for i := 0 to |candidates|
        invariant Wired()
        invariant newly == ToSeal(before, candidates[..i]) && Now() == SealAll(before, newly)
        invariant tree.failures == old(tree.failures)
      {
        ToSealStep(before, candidates, i);
        var written := SealEpoch(candidates[i]);
        if written.None? {
          ToSealPrefix(before, candidates, i);
          return false, newly;
        }
        if written.value { newly := newly + [candidates[i]]; }
      }
      assert candidates[..|candidates|] == candidates;
      ok := true;
    }

    // -----------------------------------------------------------------------
    // Reading
    // -----------------------------------------------------------------------

    /** Every observation in a sphere over a window of seconds, in chronological order. */
    method QueryWindow(q: Query, checked: bool) returns (out: Option<seq<Observation>>)
      requires Wired() && Plannable(indexer, q)
      ensures out.None? <==> checked && !CountFits(indexer, q)
      ensures out.Some? ==> Answers(indexer, q, Now().disk.rows, out.value)
    {
      hide DiskOf, MerkleForest.View, MerkleForest.Valid, Sane, Answers;
      out := RunQuery(tree.Snapshot(), indexer, q, checked);
    }

    /** Rows of an inclusive key range, the unit a pull transfers. */
    method ScanRange(start: Key, end: Key) returns (rows: seq<(Key, Payload)>)
      requires Wired()
      ensures IsRowScan(Now().disk.rows, (start, end), rows)
    {
      hide DiskOf, MerkleForest.View, MerkleForest.Valid, Sane, IsRowScan;
      rows := RowScans.ScanRange(tree.Snapshot(), start, end);
    }
  }

  lemma OpenedInStep(d: Disk)
    ensures SealExact(d) && |d.rows| <= U64_MAX ==>
      var v := Value(d, OpenForest(d), ReadableSeals(d), map[], []); Sane(v) && Lockstep(v)
  {
    hide SealExact, OpenForest, ReadableSeals;
    if SealExact(d) && |d.rows| <= U64_MAX { OpenInStep(d); OpenDepth(d); }
  }

  lemma OpenDepth(d: Disk)
    ensures OpenForest(d).depth == MERKLE_LEAF_DEPTH_BITS
  {
  }

  lemma CommitDelete(m: Entries, b: Bytes)
    ensures m + map[] - {b} == m - {b}
  {
  }

  /** The store with a write to each of `es` begun. */
  function Begun(v: Value, es: seq<u32>): Value
  {
    Unsealed(v, SetOf(es)).(inflight := BeginAll(v.inflight, es))
  }

  lemma NoneBegun(v: Value, es: seq<u32>)
    ensures v == Begun(v, es[..0])
  {
    assert SetOf(es[..0]) == {};
    assert v.disk.seals - {} == v.disk.seals && v.sealed - {} == v.sealed;
  }

  lemma BegunStep(v: Value, es: seq<u32>, i: nat)
    requires i < |es|
    ensures var u := Begun(v, es[..i]);
            Begun(v, es[..i + 1]) == Unsealed(u, {es[i]}).(inflight := Increment(u.inflight, es[i]))
  {
    assert es[..i + 1][..i] == es[..i];
    SetOfStep(es, i);
    MinusTwice(v, SetOf(es[..i]), {es[i]});
  }

  lemma SetOfStep(es: seq<u32>, i: nat)
    requires i < |es|
    ensures SetOf(es[..i + 1]) == SetOf(es[..i]) + {es[i]}
  {
    forall e ensures e in SetOf(es[..i + 1]) <==> e in SetOf(es[..i]) + {es[i]} {
      if j :| 0 <= j < i && es[..i][j] == e { assert es[..i + 1][j] == e; }
      if e == es[i] { assert es[..i + 1][i] == e; }
    }
  }

  lemma MinusTwice(v: Value, a: set<u32>, b: set<u32>)
    ensures Unsealed(Unsealed(v, a), b) == Unsealed(v, a + b)
  {
    assert v.sealed - a - b == v.sealed - (a + b);
    assert v.disk.seals - a - b == v.disk.seals - (a + b);
  }

  lemma AllBegun(v: Value, es: seq<u32>)
    ensures Begun(v, es[..|es|]) == Begun(v, es)
  {
    assert es[..|es|] == es;
  }

  lemma BegunThenEnded(v: Value, es: seq<u32>, i: nat)
    requires Sane(v) && Distinct(es) && i < |es|
    ensures Positive(Begun(v, es[..i]).inflight) && EndAll(Begun(v, es[..i]).inflight, es[..i]) == v.inflight
    ensures Sane(Unsealed(v, SetOf(es[..i])))
  {
    BeginPositive(v.inflight, es[..i]);
    EndUndoesBegin(v.inflight, es[..i]);
    UnsealKeeps(v, SetOf(es[..i]));
  }

  /** Beginning and ending a write to a single epoch. */
  lemma OneEpoch(v: Value, e: u32)
    requires Sane(v)
    ensures Distinct([e]) && SetOf([e]) == {e}
    ensures Positive(BeginAll(v.inflight, [e])) && EndAll(BeginAll(v.inflight, [e]), [e]) == v.inflight
    ensures Sane(Unsealed(v, {e})) && Abandoned(v, [e], Unsealed(v, {e}))
  {
    hide Forest.Valid, EndAll, BeginAll, Unsealed;
    BeginPositive(v.inflight, [e]);
    EndUndoesBegin(v.inflight, [e]);
    UnsealKeeps(v, {e});
    OneAbandoned(v, e, Unsealed(v, {e}));
    assert SetOf([e]) == {e} by { assert [e][0] == e; }
  }

  lemma CommitRow(m: Entries, k: Key, p: Payload)
    ensures DiskOf(m + map[KeyBytes(k) := p] - {}) == DiskOf(m).(rows := DiskOf(m).rows[k := p])
  {
    hide DiskOf, KeyBytes;
    PutRow(m, k, p);
    assert m + map[KeyBytes(k) := p] - {} == m[KeyBytes(k) := p];
  }

  lemma StoreDone(v: Value, k: Key, p: Payload)
    requires Sane(v)
    ensures var u := Unsealed(v, {k.epoch});
            Written(v, [(k, p)])
            == u.(disk := u.disk.(rows := u.disk.rows[k := p]), forest := v.forest.Insert(k, p),
                  events := v.events + [(k, p)])
    ensures Sane(Written(v, [(k, p)]))
  {
    hide Forest.Valid, Forest.Insert, ToggleLeaf, PutAll;
    UnsealKeeps(v, {k.epoch});
    InsertValid(v.forest, k, p);
    SingleInsert(v.forest, k, p);
    SinglePut(v.disk.rows, [(k, p)]);
    assert ItemEpochs([(k, p)]) == {k.epoch} by { assert [(k, p)][0].0.epoch == k.epoch; }
    InsertDepth(v.forest, k, p);
  }

  lemma InsertDepth(f: Forest, k: Key, p: Payload)
    requires f.depth <= 64
    ensures f.Insert(k, p).depth == f.depth
  {
  }

  lemma RowLookup(m: Entries, k: Key)
    ensures k in DiskOf(m).rows <==> KeyBytes(k) in m
    ensures k in DiskOf(m).rows ==> DiskOf(m).rows[k] == m[KeyBytes(k)]
  {
    RowsInAre(m);
    hide RowsIn, KeyBytes;
  }

  lemma CommitBatch(m: Entries, items: seq<(Key, Payload)>)
    ensures DiskOf(m + PutsOf(items) - {}) == DiskOf(m).(rows := PutAll(DiskOf(m).rows, items))
  {
    hide DiskOf, PutsOf, PutAll;
    PutBatch(m, items);
    assert m + PutsOf(items) - {} == m + PutsOf(items);
  }

  /** The distinct epochs of a batch, ascending. */
  method DistinctEpochs(items: seq<(Key, Payload)>) returns (epochs: seq<u32>)
    ensures epochs == SortedEpochs(ItemEpochs(items))
  {
    var es: set<u32> := ItemEpochs(items);
    var sorted := SortSet(es);
    assert sorted == SortedEpochs(es);
    epochs := sorted;
  }

  lemma EpochsDone(v: Value, epochs: seq<u32>, items: seq<(Key, Payload)>)
    requires Sane(v) && epochs == SortedEpochs(ItemEpochs(items))
    ensures Distinct(epochs) && SetOf(epochs) == ItemEpochs(items)
    ensures Positive(BeginAll(v.inflight, epochs)) && EndAll(BeginAll(v.inflight, epochs), epochs) == v.inflight
    ensures Sane(Unsealed(v, ItemEpochs(items))) && Abandoned(v, epochs, Unsealed(v, ItemEpochs(items)))
  {
    hide Forest.Valid, BeginAll, EndAll, ItemEpochs, Abandoned;
    AbandonedAtCommit(v, epochs);
    assert forall e :: e in epochs <==> e in ItemEpochs(items);
    assert forall e :: e in epochs <==> e in SetOf(epochs);
    assert SetOf(epochs) == ItemEpochs(items);
    BeginPositive(v.inflight, epochs);
    EndUndoesBegin(v.inflight, epochs);
    UnsealKeeps(v, ItemEpochs(items));
  }

  /** The puts of a transaction, one by one. */
  method Transaction(items: seq<(Key, Payload)>) returns (txn: Entries)
    ensures txn == PutsOf(items)
  {
    hide KeyBytes;
    txn := map[];
    for i := 0 to |items|
      invariant txn == PutsOf(items[..i])
    {
      assert items[..i + 1][..i] == items[..i];
      txn := txn[KeyBytes(items[i].0) := items[i].1];
    }
    assert items[..|items|] == items;
  }

  lemma WrittenIs(v: Value, items: seq<(Key, Payload)>)
    requires Sane(v)
    ensures var u := Unsealed(v, ItemEpochs(items));
            Written(v, items)
            == u.(disk := u.disk.(rows := PutAll(u.disk.rows, items)), forest := InsertAll(v.forest, items),
                  events := v.events + items)
    ensures Sane(Written(v, items))
  {
    hide Forest.Valid, InsertAll, PutAll, ItemEpochs;
    UnsealKeeps(v, ItemEpochs(items));
    InsertAllValid(v.forest, items);
  }

  lemma NothingSealed(v: Value)
    requires Sane(v)
    ensures v.forest.depth == MERKLE_LEAF_DEPTH_BITS && ToSeal(v, []) == [] && SealAll(v, []) == v
  {
    hide Forest.Valid;
  }

  lemma CommitSeal(m: Entries, e: u32, r: Bytes)
    ensures DiskOf(m + map[SealKey(e) := r] - {}) == DiskOf(m).(seals := DiskOf(m).seals[e := r])
  {
    hide DiskOf, SealKey;
    PutSeal(m, e, r);
    assert m + map[SealKey(e) := r] - {} == m[SealKey(e) := r];
  }

  /** The candidates: epochs before the cutoff, in the order they come. */
  method Below(epochs: seq<u32>, cutoff: nat) returns (cs: seq<u32>)
    ensures cs == Before(epochs, cutoff)
  {
    cs := [];
    for i := 0 to |epochs|
      invariant cs == Before(epochs[..i], cutoff)
    {
      assert epochs[..i + 1][..i] == epochs[..i];
      if epochs[i] < cutoff { cs := cs + [epochs[i]]; }
    }
    assert epochs[..|epochs|] == epochs;
  }
}
