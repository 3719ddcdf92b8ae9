/** What survives a crash, and what `open` makes of it. */
module Disk {
  import opened Words
  import opened Bytes
  import opened Keys
  import opened Folds
  import opened Forests
  import opened Options
  import opened SealRecords
  import opened Merkle

  /** Leaf depth of the store's forest: five subdivisions per axis. */
  const MERKLE_LEAF_DEPTH_BITS: nat := 15

  /** Data rows and seal records. The two key spaces cannot meet: their keys have different lengths. */
  datatype Disk = Disk(rows: Rows, seals: map<u32, Bytes>)

  ghost function RecordOf(rows: Rows, e: u32): Bytes
  {
    Record(MERKLE_LEAF_DEPTH_BITS, Summarise(rows, e, MERKLE_LEAF_DEPTH_BITS))
  }

  /** Every seal record holds exactly the leaf hashes and the count of its epoch's rows. */
  ghost predicate SealExact(disk: Disk)
  {
    forall e :: e in disk.seals ==> disk.seals[e] == RecordOf(disk.rows, e)
  }

  /** Epochs whose record the forest accepts. */
  function ReadableSeals(disk: Disk): set<u32>
  {
    set e | e in disk.seals && Parse(MERKLE_LEAF_DEPTH_BITS, disk.seals[e]).Some?
  }

  ghost function EpochsOf(rows: Rows): set<u32>
  {
    set k | k in rows :: k.epoch
  }

  lemma MoreEpochs(rows: Rows, k: Key, p: Payload)
    ensures EpochsOf(rows[k := p]) == EpochsOf(rows) + {k.epoch}
  {
    forall e: u32 ensures e in EpochsOf(rows[k := p]) <==> e in EpochsOf(rows) + {k.epoch} {
      if l :| l in rows && l.epoch == e { assert l in rows[k := p]; }
      if e == k.epoch { assert k in rows[k := p]; }
    }
  }

  /** The forest `open` rebuilds: readable records are loaded, every other epoch is scanned. */
  ghost function OpenForest(disk: Disk): Forest
  {
    Forest(MERKLE_LEAF_DEPTH_BITS,
           map e | e in ReadableSeals(disk) + EpochsOf(disk.rows)
             :: if e in ReadableSeals(disk) then Parse(MERKLE_LEAF_DEPTH_BITS, disk.seals[e]).value
                else Summarise(disk.rows, e, MERKLE_LEAF_DEPTH_BITS))
  }

  // -------------------------------------------------------------------------
  // The counts fit their fields
  // -------------------------------------------------------------------------

  lemma {:induction false} BelowCount(s: set<nat>, n: nat)
    requires forall x :: x in s ==> x < n
    ensures |s| <= n
    decreases n
  {
    if n == 0 {
      assert s == {};
    } else {
      BelowCount(s - {n - 1}, n - 1);
    }
  }

  lemma {:induction false} ImageCount(s: set<u64>, w: nat)
    requires w > 0 && forall q :: q in s ==> q / w * w == q
    ensures |set q | q in s :: q / w| == |s|
    decreases |s|
  {
    if s != {} {
      var q :| q in s;
      var rest := s - {q};
      ImageCount(rest, w);
      var image, restImage := set r | r in s :: r / w, set r | r in rest :: r / w;
      forall r | r in rest ensures r / w != q / w { assert r == r / w * w && q == q / w * w; }
      forall x | x in image ensures x in restImage + {q / w} {
        var r :| r in s && r / w == x;
        assert r == q || r in rest;
      }
      assert image == restImage + {q / w};
    }
  }

  /** Aligned 64-bit numbers are few when the alignment is wide. */
  lemma AlignedCount(s: set<u64>, w: nat, n: nat)
    requires w > 0 && n * w == U64_MAX + 1 && forall q :: q in s ==> q / w * w == q
    ensures |s| <= n
  {
    ImageCount(s, w);
    var image: set<nat> := set q | q in s :: q / w;
    forall x | x in image ensures x < n {
      var q :| q in s && q / w == x;
      if x >= n { MulMono(n, x, w); }
    }
    BelowCount(image, n);
  }

  /** An epoch's tree has at most 2^15 leaves. */
  lemma LeavesAreFew(leaves: map<u64, u128>)
    requires Canonical(leaves, MERKLE_LEAF_DEPTH_BITS)
    ensures |leaves| <= 0x8000
  {
    var w := CellWidth(MERKLE_LEAF_DEPTH_BITS);
    assert 0x8000 * w == U64_MAX + 1 by { LeafWidth(); }
    assert forall q :: q in leaves.Keys ==> q / w * w == q by {
      assert forall q :: q in leaves ==> IsPrefix(q, MERKLE_LEAF_DEPTH_BITS);
    }
    AlignedCount(leaves.Keys, w, 0x8000);
    assert |leaves| == |leaves.Keys|;
  }

  lemma LeafWidth()
    ensures 0x8000 * CellWidth(MERKLE_LEAF_DEPTH_BITS) == U64_MAX + 1
  {
    Pow2Word();
    WidthSplit(0, MERKLE_LEAF_DEPTH_BITS);
    assert Pow2(15) == 0x8000;
  }

  lemma SubmapCount(a: Rows, b: Rows)
    requires a.Keys <= b.Keys
    ensures |a| <= |b|
  {
    assert b.Keys == a.Keys + (b.Keys - a.Keys);
    assert |b.Keys| == |a.Keys| + |b.Keys - a.Keys|;
    assert |a| == |a.Keys| && |b| == |b.Keys|;
  }

  lemma SummaryFits(rows: Rows, e: u32)
    requires |rows| <= U64_MAX
    ensures Fits(Summarise(rows, e, MERKLE_LEAF_DEPTH_BITS))
  {
    SummariseCanonical(rows, e, MERKLE_LEAF_DEPTH_BITS);
    LeavesAreFew(Summarise(rows, e, MERKLE_LEAF_DEPTH_BITS).leaves);
    SubmapCount(EpochRows(rows, e), rows);
  }

  // -------------------------------------------------------------------------
  // Reopening
  // -------------------------------------------------------------------------

  lemma ExactRecordParses(disk: Disk, e: u32)
    requires SealExact(disk) && |disk.rows| <= U64_MAX && e in disk.seals
    ensures Parse(MERKLE_LEAF_DEPTH_BITS, disk.seals[e]) == Some(Summarise(disk.rows, e, MERKLE_LEAF_DEPTH_BITS))
  {
    SummaryFits(disk.rows, e);
    SummariseCanonical(disk.rows, e, MERKLE_LEAF_DEPTH_BITS);
    RecordRoundTrip(MERKLE_LEAF_DEPTH_BITS, Summarise(disk.rows, e, MERKLE_LEAF_DEPTH_BITS));
  }

  lemma NoRowsNoSummary(rows: Rows, e: u32)
    requires e !in EpochsOf(rows)
    ensures Summarise(rows, e, MERKLE_LEAF_DEPTH_BITS) == EMPTY
  {
    assert EpochRows(rows, e) == map[];
    assert LeafPrefixes(rows, e, MERKLE_LEAF_DEPTH_BITS) == {};
  }

  lemma OpenAt(disk: Disk, e: u32)
    requires SealExact(disk) && |disk.rows| <= U64_MAX
    ensures OpenForest(disk).At(e) == Summarise(disk.rows, e, MERKLE_LEAF_DEPTH_BITS)
  {
    hide Summarise, Parse;
    if e in ReadableSeals(disk) {
      ExactRecordParses(disk, e);
    } else if e !in EpochsOf(disk.rows) {
      NoRowsNoSummary(disk.rows, e);
    }
  }

  /** If the seal records are exact, the reopened forest is in step with the rows and no record is lost. */
  lemma OpenInStep(disk: Disk)
    requires SealExact(disk) && |disk.rows| <= U64_MAX
    ensures Represents(OpenForest(disk), disk.rows)
    ensures ReadableSeals(disk) == disk.seals.Keys
  {
    hide Summarise, Parse, EpochsOf, Canonical, SealExact, OpenForest;
    AllReadable(disk);
    OpenIsValid(disk);
    forall e: u32 ensures OpenForest(disk).At(e) == Summarise(disk.rows, e, OpenForest(disk).depth) { OpenAt(disk, e); }
  }

  lemma AllReadable(disk: Disk)
    requires SealExact(disk) && |disk.rows| <= U64_MAX
    ensures ReadableSeals(disk) == disk.seals.Keys
  {
    hide Parse, SealExact;
    forall e | e in disk.seals ensures e in ReadableSeals(disk) { ExactRecordParses(disk, e); }
  }

  lemma OpenIsValid(disk: Disk)
    requires SealExact(disk) && |disk.rows| <= U64_MAX
    ensures OpenForest(disk).Valid() && OpenForest(disk).depth == MERKLE_LEAF_DEPTH_BITS
  {
    hide Summarise, Parse, EpochsOf, Canonical, ReadableSeals, SealExact;
    var f := OpenForest(disk);
    forall e | e in f.trees ensures Canonical(f.trees[e].leaves, f.depth) {
      OpenAt(disk, e);
      assert f.At(e) == f.trees[e];
      SummariseCanonical(disk.rows, e, f.depth);
    }
  }

  /** ... so every node hash is the fold of the persisted rows of its cell, and the length is their number. */
  lemma OpenHashesAndLength(disk: Disk, e: u32, d: nat, p: u64)
    requires SealExact(disk) && |disk.rows| <= U64_MAX && IsDepth(d) && d <= MERKLE_LEAF_DEPTH_BITS
    ensures OpenForest(disk).Hash(e, d, p) == CellHash(disk.rows, e, d, if d == 0 then 0 else p)
    ensures TotalCount(OpenForest(disk).trees) == |disk.rows|
  {
    OpenInStep(disk);
    var f := OpenForest(disk);
    HashIsFold(f, disk.rows, e, d, p);
    forall e' | e' in f.trees ensures f.trees[e'].count == |EpochRows(disk.rows, e')| {
      assert f.At(e') == f.trees[e'];
    }
    forall k | k in disk.rows ensures k.epoch in f.trees { assert k.epoch in EpochsOf(disk.rows); }
    LenIsRowCount(f.trees, disk.rows);
  }
}
