/** Rebuilding the forest from the tree: seal records first, then a scan of the unsealed epochs. */
module Opening {
  import opened Words
  import opened Bytes
  import opened Keys
  import opened Forests
  import opened Options
  import opened SealRecords
  import opened Merkle
  import opened Disk
  import opened Kv
  import opened Layout
  import opened ScanRanges

  /** The forest after the readable records of `loaded` and the rows of `done` have been taken in. */
  ghost function Partly(disk: Disk, loaded: set<u32>, done: Rows): Forest
    requires loaded <= ReadableSeals(disk)
  {
    Forest(MERKLE_LEAF_DEPTH_BITS,
           map e | e in loaded + EpochsOf(done)
             :: if e in loaded then Parse(MERKLE_LEAF_DEPTH_BITS, disk.seals[e]).value
                else Summarise(done, e, MERKLE_LEAF_DEPTH_BITS))
  }

  // -------------------------------------------------------------------------
  // Seal records
  // -------------------------------------------------------------------------

  ghost function LoadedBy(disk: Disk, keys: seq<Bytes>): (s: set<u32>)
    ensures s <= ReadableSeals(disk)
  {
    set e | e in ReadableSeals(disk) && SealKey(e) in keys
  }

  lemma LoadedStep(disk: Disk, keys: seq<Bytes>, i: nat)
    requires i < |keys|
    ensures LoadedBy(disk, keys[..i + 1])
            == LoadedBy(disk, keys[..i]) + (set e | e in ReadableSeals(disk) && SealKey(e) == keys[i])
  {
    assert keys[..i + 1] == keys[..i] + [keys[i]];
    hide SealKey, ReadableSeals;
  }

  lemma KeyNotBefore(keys: seq<Bytes>, i: nat)
    requires InOrder(keys) && i < |keys|
    ensures keys[i] !in keys[..i]
  {
    LessIrreflexive(keys[i]);
  }

  /** One more record read: its epoch was not loaded before, and a record that does not parse adds nothing. */
  lemma LoadStep(disk: Disk, m: Entries, keys: seq<Bytes>, i: nat)
    requires disk == DiskOf(m) && IsScan(m, SEAL_KEY_PREFIX, SEAL_KEY_END, keys) && i < |keys|
    ensures |keys[i]| != 6 ==> LoadedBy(disk, keys[..i + 1]) == LoadedBy(disk, keys[..i])
    ensures |keys[i]| == 6 ==>
      var e := SealEpoch(keys[i]);
      && e in disk.seals && disk.seals[e] == m[keys[i]] && e !in LoadedBy(disk, keys[..i])
      && LoadedBy(disk, keys[..i + 1])
         == LoadedBy(disk, keys[..i]) + if Parse(MERKLE_LEAF_DEPTH_BITS, m[keys[i]]).Some? then {e} else {}
  {
    hide Parse, RowsIn;
    SealsInAre(m);
    LoadedStep(disk, keys, i);
    KeyNotBefore(keys, i);
    assert keys[i] in keys;
    if |keys[i]| == 6 {
      var e := SealEpoch(keys[i]);
      SealRange(keys[i]);
      SameSeal(e);
      hide SealKey, SealEpoch, Within;
      assert (set f | f in ReadableSeals(disk) && SealKey(f) == keys[i])
             == if e in ReadableSeals(disk) then {e} else {};
    } else {
      assert (set f | f in ReadableSeals(disk) && SealKey(f) == keys[i]) == {};
    }
  }

  lemma AllLoaded(disk: Disk, m: Entries, keys: seq<Bytes>)
    requires disk == DiskOf(m) && IsScan(m, SEAL_KEY_PREFIX, SEAL_KEY_END, keys)
    ensures LoadedBy(disk, keys) == ReadableSeals(disk)
  {
    SealsInAre(m);
    forall e | e in ReadableSeals(disk) ensures SealKey(e) in keys {
      SealKeyRoundTrip(e);
      SealRange(SealKey(e));
    }
  }

  lemma NothingLoaded(disk: Disk)
    ensures LoadedBy(disk, []) == {}
    ensures Partly(disk, {}, map[]) == Forest(MERKLE_LEAF_DEPTH_BITS, map[])
  {
  }

  lemma PartlyLoads(disk: Disk, loaded: set<u32>, e: u32)
    requires loaded <= ReadableSeals(disk)
    ensures var f := Partly(disk, loaded, map[]);
            && f.depth == MERKLE_LEAF_DEPTH_BITS && (e in f.trees <==> e in loaded)
            && (e in ReadableSeals(disk) ==>
                  Partly(disk, loaded + {e}, map[])
                  == f.(trees := f.trees[e := Parse(MERKLE_LEAF_DEPTH_BITS, disk.seals[e]).value]))
  {
    hide Summarise, Parse;
  }

  lemma ReadableAt(disk: Disk, e: u32)
    ensures e in ReadableSeals(disk) <==> e in disk.seals && Parse(MERKLE_LEAF_DEPTH_BITS, disk.seals[e]).Some?
  {
    hide Parse;
  }

  method LoadSeals(m: Entries, forest: MerkleForest) returns (sealed: set<u32>)
    requires forest.Valid() && forest.depth == MERKLE_LEAF_DEPTH_BITS && forest.View() == Forest(forest.depth, map[])
             && forest.repr == {}
    modifies forest
    ensures forest.Valid() && (forall t :: t in forest.repr ==> fresh(t))
    ensures sealed == ReadableSeals(DiskOf(m))
    ensures forest.View() == Partly(DiskOf(m), sealed, map[])
  {
    ghost var disk := DiskOf(m);
    var keys := Range(m, SEAL_KEY_PREFIX, SEAL_KEY_END);
    hide DiskOf, Partly, Parse, SealEpoch, LoadedBy, MerkleForest.View, MerkleForest.Valid, ReadableSeals, Within,
         InOrder;
    sealed := {};
    NothingLoaded(disk);
    assert keys[..0] == [];
    for i := 0 to |keys|
      invariant forest.Valid() && (forall t :: t in forest.repr ==> fresh(t))
      invariant sealed == LoadedBy(disk, keys[..i])
      invariant forest.View() == Partly(disk, sealed, map[])
    {
      LoadStep(disk, m, keys, i);
      assert keys[i] in keys;
      if |keys[i]| == 6 {
        var epoch := SealEpoch(keys[i]);
        PartlyLoads(disk, sealed, epoch);
        ReadableAt(disk, epoch);
        var ok := forest.LoadSealedEpoch(epoch, m[keys[i]]);
        if ok {
          sealed := sealed + {epoch};
        }
      }
    }
    assert keys[..|keys|] == keys;
    AllLoaded(disk, m, keys);
  }

  // -------------------------------------------------------------------------
  // Rows of unsealed epochs
  // -------------------------------------------------------------------------

  /** Rows whose keys an iterator has passed. */
  ghost function Passed(m: Entries, keys: seq<Bytes>): Rows
  {
    map k | k in RowsIn(m) && KeyBytes(k) in keys :: RowsIn(m)[k]
  }

  ghost predicate HitBy(ranges: seq<(Bytes, Bytes)>, b: Bytes)
  {
    exists i :: 0 <= i < |ranges| && Hits(ranges[i], b)
  }

  ghost function RowsHit(m: Entries, ranges: seq<(Bytes, Bytes)>): Rows
  {
    map k | k in RowsIn(m) && HitBy(ranges, KeyBytes(k)) :: RowsIn(m)[k]
  }

  lemma PartlyInserts(disk: Disk, done: Rows, k: Key, v: Payload)
    requires k !in done && k.epoch !in ReadableSeals(disk)
    ensures var r := ReadableSeals(disk);
            Partly(disk, r, done).depth == MERKLE_LEAF_DEPTH_BITS
            && Partly(disk, r, done[k := v]) == Partly(disk, r, done).Insert(k, v)
  {
    hide Summarise, Parse, ReadableSeals, EpochsOf, Toggled;
    var r := ReadableSeals(disk);
    var f, g := Partly(disk, r, done), Partly(disk, r, done[k := v]);
    MoreEpochs(done, k, v);
    SummariseWith(done, k, v, MERKLE_LEAF_DEPTH_BITS);
    assert f.At(k.epoch) == Summarise(done, k.epoch, MERKLE_LEAF_DEPTH_BITS) by {
      if k.epoch !in EpochsOf(done) { NoRowsNoSummary(done, k.epoch); }
    }
    OtherSummaries(done, k, v);
    assert g.trees == f.Insert(k, v).trees;
  }

  lemma OtherSummaries(done: Rows, k: Key, v: Payload)
    ensures forall e: u32 :: e != k.epoch ==>
      Summarise(done[k := v], e, MERKLE_LEAF_DEPTH_BITS) == Summarise(done, e, MERKLE_LEAF_DEPTH_BITS)
  {
    hide Summarise;
    forall e: u32 | e != k.epoch
      ensures Summarise(done[k := v], e, MERKLE_LEAF_DEPTH_BITS) == Summarise(done, e, MERKLE_LEAF_DEPTH_BITS)
    {
      SummariseOtherEpoch(done, k, v, e, MERKLE_LEAF_DEPTH_BITS);
    }
  }

  /** One more key passed; it is a row when it is twenty bytes long. */
  lemma PassedOther(m: Entries, keys: seq<Bytes>, b: Bytes)
    requires |b| != KEY_LEN
    ensures Passed(m, keys + [b]) == Passed(m, keys)
  {
    RowsInAre(m);
    hide KeyBytes, RowsIn;
  }

  lemma PassedRow(m: Entries, keys: seq<Bytes>, k: Key)
    requires KeyBytes(k) in m && KeyBytes(k) !in keys
    ensures k !in Passed(m, keys) && Passed(m, keys + [KeyBytes(k)]) == Passed(m, keys)[k := m[KeyBytes(k)]]
  {
    RowsInAre(m);
    hide KeyBytes, RowsIn;
    SameKey(k);
  }

  /** Rows already done, and those whose keys an iterator has passed. */
  ghost function WithPassed(m: Entries, done: Rows, keys: seq<Bytes>): Rows
  {
    done + Passed(m, keys)
  }

  /** The rows in a range have not been met and belong to no loaded epoch. */
  ghost predicate NewRows(m: Entries, lo: Bytes, hi: Bytes, done: Rows, sealed: set<u32>)
  {
    forall k :: k in RowsHit(m, [(lo, hi)]) ==> k !in done && k.epoch !in sealed
  }

  lemma PassedStep(m: Entries, lo: Bytes, hi: Bytes, keys: seq<Bytes>, i: nat, done: Rows, sealed: set<u32>)
    requires IsScan(m, lo, hi, keys) && i < |keys| && NewRows(m, lo, hi, done, sealed)
    ensures keys[i] in m
    ensures var before, after := WithPassed(m, done, keys[..i]), WithPassed(m, done, keys[..i + 1]);
            if |keys[i]| != KEY_LEN then after == before
            else var k := KeyOf(keys[i]); k !in before && k.epoch !in sealed && after == before[k := m[keys[i]]]
  {
    RowsInAre(m);
    hide KeyBytes, KeyOf, RowsIn, Passed;
    KeyNotBefore(keys, i);
    assert keys[..i + 1] == keys[..i] + [keys[i]];
    assert keys[i] in keys;
    if |keys[i]| == KEY_LEN {
      BytesRoundTrip(keys[i]);
      PassedRow(m, keys[..i], KeyOf(keys[i]));
      assert Hits([(lo, hi)][0], keys[i]);
      assert KeyOf(keys[i]) in RowsHit(m, [(lo, hi)]);
    } else {
      PassedOther(m, keys[..i], keys[i]);
    }
    hide Within, InOrder;
  }

  /** ... and those of one range. */
  ghost function WithHit(m: Entries, done: Rows, lo: Bytes, hi: Bytes): Rows
  {
    done + RowsHit(m, [(lo, hi)])
  }

  lemma AllPassed(m: Entries, lo: Bytes, hi: Bytes, keys: seq<Bytes>, done: Rows)
    requires IsScan(m, lo, hi, keys)
    ensures WithPassed(m, done, keys) == WithHit(m, done, lo, hi)
  {
    RowsInAre(m);
    hide KeyBytes, RowsIn, InOrder;
    forall k | k in RowsIn(m) ensures KeyBytes(k) in keys <==> HitBy([(lo, hi)], KeyBytes(k)) {
      if Within(KeyBytes(k), lo, hi) { assert Hits([(lo, hi)][0], KeyBytes(k)); }
    }
    hide Within, HitBy;
    assert Passed(m, keys) == RowsHit(m, [(lo, hi)]);
  }

  method FoldRow(forest: MerkleForest, ghost disk: Disk, ghost done: Rows, key: Key, payload: Payload)
    requires forest.Valid() && forest.View() == Partly(disk, ReadableSeals(disk), done)
    requires key !in done && key.epoch !in ReadableSeals(disk)
    modifies forest, forest.repr
    ensures forest.Valid() && old(forest.repr) <= forest.repr
            && (forall t :: t in forest.repr ==> t in old(forest.repr) || fresh(t))
    ensures forest.View() == Partly(disk, ReadableSeals(disk), done[key := payload])
  {
    hide *;
    PartlyInserts(disk, done, key, payload);
    forest.Insert(key, payload);
  }

  method ScanRange(m: Entries, forest: MerkleForest, lo: Bytes, hi: Bytes, ghost disk: Disk, ghost done: Rows)
    requires disk == DiskOf(m) && NewRows(m, lo, hi, done, ReadableSeals(disk))
    requires forest.Valid() && forest.View() == Partly(disk, ReadableSeals(disk), done)
    modifies forest, forest.repr
    ensures forest.Valid() && old(forest.repr) <= forest.repr
            && (forall t :: t in forest.repr ==> t in old(forest.repr) || fresh(t))
    ensures forest.View() == Partly(disk, ReadableSeals(disk), WithHit(m, done, lo, hi))
  {
    hide *;
    var keys := Range(m, lo, hi);
    NonePassed(m, done);
    assert keys[..0] == [];
    for i := 0 to |keys|
      invariant forest.Valid() && old(forest.repr) <= forest.repr
                && (forall t :: t in forest.repr ==> t in old(forest.repr) || fresh(t))
      invariant forest.View() == Partly(disk, ReadableSeals(disk), WithPassed(m, done, keys[..i]))
    {
      PassedStep(m, lo, hi, keys, i, done, ReadableSeals(disk));
      if |keys[i]| == KEY_LEN {
        FoldRow(forest, disk, WithPassed(m, done, keys[..i]), KeyOf(keys[i]), m[keys[i]]);
      }
    }
    assert keys[..|keys|] == keys;
    AllPassed(m, lo, hi, keys, done);
  }

  lemma NonePassed(m: Entries, done: Rows)
    ensures WithPassed(m, done, []) == done && RowsHit(m, []) == map[]
  {
  }

  /** The next range meets no row met before and no row of a sealed epoch. */
  lemma RangeIsNew(m: Entries, ranges: seq<(Bytes, Bytes)>, sealed: set<u32>, i: nat, k: Key)
    requires Partitions(ranges, sealed) && i < |ranges| && k in RowsHit(m, [ranges[i]])
    ensures k !in RowsHit(m, ranges[..i]) && k.epoch !in sealed
  {
    var b := KeyBytes(k);
    KeyRoundTrip(k);
    hide KeyBytes, KeyOf, Within;
    assert Hits(ranges[i], b) by { var j :| 0 <= j < 1 && Hits([ranges[i]][j], b); }
    var j: nat :| OnlyHit(ranges, j, b);
    assert i == j;
    assert forall x :: 0 <= x < i ==> ranges[..i][x] == ranges[x];
  }

  lemma RangesAreNew(m: Entries, ranges: seq<(Bytes, Bytes)>, sealed: set<u32>, i: nat)
    requires Partitions(ranges, sealed) && i < |ranges|
    ensures NewRows(m, ranges[i].0, ranges[i].1, RowsHit(m, ranges[..i]), sealed)
  {
    hide RowsHit, Partitions;
    assert [(ranges[i].0, ranges[i].1)] == [ranges[i]];
    forall k | k in RowsHit(m, [ranges[i]]) ensures k !in RowsHit(m, ranges[..i]) && k.epoch !in sealed {
      RangeIsNew(m, ranges, sealed, i, k);
    }
  }

  lemma RowsHitStep(m: Entries, ranges: seq<(Bytes, Bytes)>, i: nat)
    requires i < |ranges|
    ensures RowsHit(m, ranges[..i + 1]) == WithHit(m, RowsHit(m, ranges[..i]), ranges[i].0, ranges[i].1)
  {
    forall b: Bytes ensures HitBy(ranges[..i + 1], b) <==> HitBy(ranges[..i], b) || HitBy([ranges[i]], b) {
      HitByStep(ranges, i, b);
    }
    hide HitBy, RowsIn, KeyBytes;
    assert [(ranges[i].0, ranges[i].1)] == [ranges[i]];
  }

  lemma HitByStep(ranges: seq<(Bytes, Bytes)>, i: nat, b: Bytes)
    requires i < |ranges|
    ensures HitBy(ranges[..i + 1], b) <==> HitBy(ranges[..i], b) || HitBy([ranges[i]], b)
  {
    hide Hits;
    if j :| 0 <= j < i && Hits(ranges[..i][j], b) { assert Hits(ranges[..i + 1][j], b); }
    if Hits(ranges[i], b) { assert Hits(ranges[..i + 1][i], b) && Hits([ranges[i]][0], b); }
    if HitBy(ranges[..i + 1], b) {
      var j :| 0 <= j < |ranges[..i + 1]| && Hits(ranges[..i + 1][j], b);
      if j < i { assert Hits(ranges[..i][j], b); } else { assert Hits([ranges[i]][0], b); }
    }
  }

  lemma HitWhenUnsealed(ranges: seq<(Bytes, Bytes)>, sealed: set<u32>, b: Bytes)
    requires Partitions(ranges, sealed) && |b| == KEY_LEN
    ensures HitBy(ranges, b) <==> KeyOf(b).epoch !in sealed
  {
    hide Hits;
    if KeyOf(b).epoch !in sealed {
      var i: nat :| OnlyHit(ranges, i, b);
      assert Hits(ranges[i], b);
    }
    hide KeyOf;
  }

  lemma MetWhenUnsealed(ranges: seq<(Bytes, Bytes)>, sealed: set<u32>, k: Key)
    requires Partitions(ranges, sealed)
    ensures HitBy(ranges, KeyBytes(k)) <==> k.epoch !in sealed
  {
    KeyRoundTrip(k);
    HitWhenUnsealed(ranges, sealed, KeyBytes(k));
    hide *;
  }

  /** The scan meets exactly the rows of the epochs without a readable record. */
  lemma ScanMeetsUnsealed(m: Entries, ranges: seq<(Bytes, Bytes)>, sealed: set<u32>)
    requires Partitions(ranges, sealed)
    ensures RowsHit(m, ranges) == map k | k in RowsIn(m) && k.epoch !in sealed :: RowsIn(m)[k]
  {
    hide HitBy, RowsIn, KeyBytes, Partitions;
    forall k: Key { MetWhenUnsealed(ranges, sealed, k); }
  }

  lemma PartlyAll(disk: Disk, done: Rows)
    requires done == map k | k in disk.rows && k.epoch !in ReadableSeals(disk) :: disk.rows[k]
    ensures Partly(disk, ReadableSeals(disk), done) == OpenForest(disk)
  {
    hide ReadableSeals, Parse, Summarise;
    var r := ReadableSeals(disk);
    forall e: u32 ensures e in r + EpochsOf(done) <==> e in r + EpochsOf(disk.rows) {
      if k :| k in disk.rows && k.epoch == e && e !in r { assert k in done; }
    }
    assert r + EpochsOf(done) == r + EpochsOf(disk.rows);
    hide EpochsOf;
    forall e: u32 | e !in r
      ensures Summarise(done, e, MERKLE_LEAF_DEPTH_BITS) == Summarise(disk.rows, e, MERKLE_LEAF_DEPTH_BITS)
    {
      assert EpochRows(done, e) == EpochRows(disk.rows, e);
      SummariseCongruent(done, disk.rows, e, MERKLE_LEAF_DEPTH_BITS);
    }
  }

  method ScanUnsealed(m: Entries, forest: MerkleForest, ranges: seq<(Bytes, Bytes)>, ghost sealed: set<u32>)
    requires sealed == ReadableSeals(DiskOf(m)) && Partitions(ranges, sealed)
    requires forest.Valid() && forest.View() == Partly(DiskOf(m), sealed, map[])
    modifies forest, forest.repr
    ensures forest.Valid() && (forall t :: t in forest.repr ==> t in old(forest.repr) || fresh(t))
    ensures forest.View() == OpenForest(DiskOf(m))
  {
    ghost var disk := DiskOf(m);
    hide *;
    NonePassed(m, map[]);
    assert ranges[..0] == [];
    for i := 0 to |ranges|
      invariant forest.Valid() && (forall t :: t in forest.repr ==> t in old(forest.repr) || fresh(t))
      invariant forest.View() == Partly(disk, sealed, RowsHit(m, ranges[..i]))
    {
      RangesAreNew(m, ranges, sealed, i);
      RowsHitStep(m, ranges, i);
      ScanRange(m, forest, ranges[i].0, ranges[i].1, disk, RowsHit(m, ranges[..i]));
    }
    assert ranges[..|ranges|] == ranges;
    RebuildDone(m, ranges, disk, sealed);
  }

  lemma RebuildDone(m: Entries, ranges: seq<(Bytes, Bytes)>, disk: Disk, sealed: set<u32>)
    requires disk == DiskOf(m) && sealed == ReadableSeals(disk) && Partitions(ranges, sealed)
    ensures Partly(disk, sealed, RowsHit(m, ranges)) == OpenForest(disk)
  {
    hide Partly, RowsHit, OpenForest, Partitions, ReadableSeals;
    ScanMeetsUnsealed(m, ranges, sealed);
    PartlyAll(disk, RowsHit(m, ranges));
  }

  lemma LeafDepth()
    ensures MERKLE_LEAF_DEPTH_BITS == 15
  {
  }

  /** The rebuild `open` does: every readable record is loaded, every other row is folded in exactly once. */
  method Rebuild(m: Entries) returns (forest: MerkleForest, sealed: set<u32>)
    ensures fresh(forest) && (forall t :: t in forest.repr ==> fresh(t))
    ensures forest.Valid() && forest.depth == MERKLE_LEAF_DEPTH_BITS
    ensures sealed == ReadableSeals(DiskOf(m))
    ensures forest.View() == OpenForest(DiskOf(m))
  {
    hide *;
    LeafDepth();
    NothingLoaded(DiskOf(m));
    forest := new MerkleForest(MERKLE_LEAF_DEPTH_BITS);
    sealed := LoadSeals(m, forest);
    var ranges := UnsealedScanRanges(sealed);
    ScanUnsealed(m, forest, ranges, sealed);
  }
}
