/** What pulls achieve: a whole pull is a join, and two nodes that pull from each other end up the same. */
module Convergence {
  import opened Words
  import opened Keys
  import opened Forests
  import opened Disk
  import opened StoreState
  import opened Joins
  import opened Descent
  import opened Diff
  import opened PullPlan
  import opened PullProgress
  import opened Sync

  // -------------------------------------------------------------------------
  // Collisions at the cells compared
  // -------------------------------------------------------------------------

  /** The peer's fold of the cell is not zero and not ours. */
  ghost predicate Entered(a: Rows, b: Rows, e: u32, d: nat, p: u64)
    requires d <= 64
  {
    CellHash(b, e, d, p) != 0 && CellHash(b, e, d, p) != CellHash(a, e, d, p)
  }

  /** The descent compares a cell when it has entered every cell above it. */
  ghost predicate Compared(a: Rows, b: Rows, e: u32, d: nat, p: u64)
    requires d <= 63
  {
    forall x :: 0 <= x < d && x % 3 == 0 ==> Entered(a, b, e, x, PrefixAt(p, x))
  }

  /** At the cells compared, equal hashes mean equal rows and a zero hash means no rows. */
  ghost predicate NoCollision(a: Rows, b: Rows, leaf: nat)
    requires leaf <= 63
  {
    forall e, d, p :: 0 <= d <= leaf && IsDepth(d) && Compared(a, b, e, d, p) ==> Faithful(a, b, e, d, p)
  }

  ghost predicate Faithful(a: Rows, b: Rows, e: u32, d: nat, p: u64)
    requires d <= 64
  {
    && (CellHash(a, e, d, p) == CellHash(b, e, d, p) ==> CellRows(a, e, d, p) == CellRows(b, e, d, p))
    && (CellHash(b, e, d, p) == 0 ==> CellRows(b, e, d, p) == map[])
  }

  lemma EnteredIsPulled(f: Forest, g: Forest, a: Rows, b: Rows, e: u32, d: nat, p: u64)
    requires Represents(f, a) && Represents(g, b) && IsDepth(d) && d <= f.depth && d <= g.depth && (d == 0 ==> p == 0)
    ensures Entered(a, b, e, d, p) <==> Pulled(f, g, e, d, p)
  {
    HashIsFold(f, a, e, d, p);
    HashIsFold(g, b, e, d, p);
  }

  /** Where the descent stops on the way to a peer's row, our row is the same. */
  lemma StopMeansSame(a: Rows, b: Rows, k: Key, d: nat)
    requires d <= 63 && k in b && Faithful(a, b, k.epoch, d, PrefixAt(k.morton, d))
    requires !Entered(a, b, k.epoch, d, PrefixAt(k.morton, d))
    ensures k in a && a[k] == b[k]
  {
    hide PrefixAt;
    var p := PrefixAt(k.morton, d);
    assert k in CellRows(b, k.epoch, d, p);
    assert CellRows(a, k.epoch, d, p) == CellRows(b, k.epoch, d, p);
    assert k in CellRows(a, k.epoch, d, p);
  }

  ghost predicate EnteredTo(a: Rows, b: Rows, k: Key, d: nat)
    requires d <= 66
  {
    forall x :: 0 <= x < d && x <= 63 && x % 3 == 0 ==> Entered(a, b, k.epoch, x, PrefixAt(k.morton, x))
  }

  lemma EnteredToIsCompared(a: Rows, b: Rows, k: Key, d: nat)
    requires d <= 63 && EnteredTo(a, b, k, d)
    ensures Compared(a, b, k.epoch, d, PrefixAt(k.morton, d))
  {
    hide PrefixAt, Entered;
    forall x | 0 <= x < d && x % 3 == 0 ensures Entered(a, b, k.epoch, x, PrefixAt(PrefixAt(k.morton, d), x)) {
      PrefixOfPrefix(k.morton, x, d);
    }
  }

  lemma FaithfulAt(a: Rows, b: Rows, leaf: nat, e: u32, d: nat, p: u64)
    requires leaf <= 63 && NoCollision(a, b, leaf) && d <= leaf && IsDepth(d) && Compared(a, b, e, d, p)
    ensures Faithful(a, b, e, d, p)
  {
    hide Faithful, Compared;
  }

  /** A peer's row either lies in an entered leaf or is one we hold as it is. */
  lemma {:induction false} RowReached(a: Rows, b: Rows, leaf: nat, k: Key, d: nat)
    requires IsDepth(leaf) && d <= leaf + 3 && d % 3 == 0 && NoCollision(a, b, leaf) && k in b && EnteredTo(a, b, k, d)
    ensures EnteredTo(a, b, k, leaf + 3) || (k in a && a[k] == b[k])
    decreases leaf + 3 - d
  {
    hide Faithful, Compared, PrefixAt, Entered;
    if d <= leaf {
      EnteredToIsCompared(a, b, k, d);
      FaithfulAt(a, b, leaf, k.epoch, d, PrefixAt(k.morton, d));
      hide NoCollision;
      if Entered(a, b, k.epoch, d, PrefixAt(k.morton, d)) {
        assert EnteredTo(a, b, k, d + 3);
        RowReached(a, b, leaf, k, d + 3);
      } else {
        StopMeansSame(a, b, k, d);
      }
    }
  }

  lemma EnteredToIsWanted(f: Forest, g: Forest, a: Rows, b: Rows, leaf: nat, k: Key)
    requires Represents(f, a) && Represents(g, b) && IsDepth(leaf) && leaf <= f.depth && leaf <= g.depth
    requires EnteredTo(a, b, k, leaf + 3)
    ensures Wanted(f, g, leaf, (k.epoch, PrefixAt(k.morton, leaf)))
  {
    var e, q := k.epoch, PrefixAt(k.morton, leaf);
    PrefixBrackets(k.morton, leaf, q);
    RootPrefix(k.morton);
    RootPrefix(q);
    hide PrefixAt, Entered, Represents, Pulled, IsPrefix;
    forall x | 0 <= x <= leaf && x % 3 == 0 ensures Pulled(f, g, e, x, PrefixAt(q, x)) {
      PrefixOfPrefix(k.morton, x, leaf);
      EnteredIsPulled(f, g, a, b, e, x, PrefixAt(k.morton, x));
    }
    assert Pulled(f, g, e, 0, 0);
    assert forall x :: 0 < x <= leaf && x % 3 == 0 ==> PullTest(f, g, e)(x, PrefixAt(q, x));
  }

  // -------------------------------------------------------------------------
  // One pull
  // -------------------------------------------------------------------------

  ghost predicate FetchedAll(u: Pull, fetched: seq<LeafCell>)
    requires u.leaf <= 63
  {
    forall l :: l in fetched <==> Wanted(u.start.forest, u.peer, u.leaf, l)
  }

  /** A pull that fetched every wanted leaf has joined the peer's rows to ours: at each key the larger digest stays. */
  lemma PullIsJoin(u: Pull, fetched: seq<LeafCell>)
    requires u.Valid() && Represents(u.start.forest, u.start.disk.rows) && Represents(u.peer, u.rows)
    requires u.leaf <= u.start.forest.depth && u.leaf <= u.peer.depth && FetchedAll(u, fetched)
    requires NoCollision(u.start.disk.rows, u.rows, u.leaf)
    ensures JoinOn(u.start.disk.rows, u.rows, u.Covered(fetched)) == Join(u.start.disk.rows, u.rows)
  {
    var a, b := u.start.disk.rows, u.rows;
    hide Represents, PrefixAt, NoCollision, EnteredTo, Wanted, Forest.Valid;
    forall k | k in b ensures k in u.Covered(fetched) || (k in a && a[k] == b[k]) {
      RowReachedFromRoot(a, b, u.leaf, k);
      if EnteredTo(a, b, k, u.leaf + 3) { EnteredToIsWanted(u.start.forest, u.peer, a, b, u.leaf, k); }
    }
    hide Pull.Covered, Wins;
    SkipSame(a, b, u.Covered(fetched));
  }

  lemma RowReachedFromRoot(a: Rows, b: Rows, leaf: nat, k: Key)
    requires leaf <= 63 && IsDepth(leaf) && NoCollision(a, b, leaf) && k in b
    ensures EnteredTo(a, b, k, leaf + 3) || (k in a && a[k] == b[k])
  {
    RowReached(a, b, leaf, k, 0);
  }

  /** Rows both sides hold alike need not be offered. */
  lemma SkipSame(a: Rows, b: Rows, s: set<Key>)
    requires forall k :: k in b ==> k in s || (k in a && a[k] == b[k])
    ensures JoinOn(a, b, s) == Join(a, b)
  {
  }

  // -------------------------------------------------------------------------
  // Two nodes
  // -------------------------------------------------------------------------

  /** A successful pull by `start` from a node in state `from`, ending in `end`. */
  ghost predicate PulledFrom(start: Value, from: Value, end: Value, stats: SyncStats)
  {
    exists fetched, done :: Outcome(PullFrom(start, from.forest, from.disk.rows), true, stats, fetched, done, end)
  }

  lemma PullJoins(start: Value, from: Value, end: Value, stats: SyncStats)
    requires PulledFrom(start, from, end, stats) && Lockstep(start) && Lockstep(from) && Sane(from)
    requires NoCollision(start.disk.rows, from.disk.rows, MERKLE_LEAF_DEPTH_BITS)
    ensures Sane(end) && Lockstep(end) && end.disk.rows == Join(start.disk.rows, from.disk.rows)
  {
    var u := PullFrom(start, from.forest, from.disk.rows);
    var fetched: seq<LeafCell>, done: set<Key> :| Outcome(u, true, stats, fetched, done, end);
    hide Wanted, JoinOn, NoCollision, Represents, SealExact, Pull.Covered, Pull.Stats, Pull.Applied, Forest.Valid;
    PullIsJoin(u, fetched);
  }

  /** Forests in step with the same rows agree on every epoch, so a pull between them has nothing to do. */
  lemma NothingToPull(start: Value, from: Value, end: Value, stats: SyncStats)
    requires PulledFrom(start, from, end, stats) && Lockstep(start) && Lockstep(from) && Sane(start) && Sane(from)
    requires start.disk.rows == from.disk.rows
    ensures stats == SyncStats(0, 0, 0) && end.disk.rows == start.disk.rows && |end.events| == |start.events|
  {
    var u := PullFrom(start, from.forest, from.disk.rows);
    var fetched: seq<LeafCell>, done: set<Key> :| Outcome(u, true, stats, fetched, done, end);
    hide Represents, SealExact, Forest.Valid, Wanted, Pull.Covered, Pull.Stats, Pull.Applied, JoinOn;
    NothingWanted(start.forest, from.forest, start.disk.rows, u.leaf);
    FirstIsIn(fetched);
    NoneCovered(u);
  }

  lemma FirstIsIn(ls: seq<LeafCell>)
    ensures ls == [] || ls[0] in ls
  {
  }

  lemma NothingWanted(f: Forest, g: Forest, rows: Rows, leaf: nat)
    requires Represents(f, rows) && Represents(g, rows) && f.depth == g.depth && leaf <= 63
    ensures forall l :: !Wanted(f, g, leaf, l)
  {
    hide Represents, Below, Pulled;
    forall l ensures !Wanted(f, g, leaf, l) { SameNotPulled(f, g, rows, l.0); }
  }

  lemma SameNotPulled(f: Forest, g: Forest, rows: Rows, e: u32)
    requires Represents(f, rows) && Represents(g, rows) && f.depth == g.depth
    ensures !Pulled(f, g, e, 0, 0)
  {
    hide Summarise, NodeHash;
    assert f.At(e) == g.At(e);
  }

  lemma NoneCovered(u: Pull)
    requires u.Valid()
    ensures u.Covered([]) == {} && u.Stats([]) == SyncStats(0, 0, 0) && u.Applied({}) == {}
    ensures JoinOn(u.start.disk.rows, u.rows, {}) == u.start.disk.rows
  {
    NothingMerged(u);
  }

  /** A pulls from B, then B pulls from A: both hold the join, their forests agree, and a further pull does nothing. */
  lemma TwoPullsConverge(a: Value, b: Value, a': Value, b': Value, s1: SyncStats, s2: SyncStats)
    requires Sane(a) && Sane(b) && Lockstep(a) && Lockstep(b)
    requires PulledFrom(a, b, a', s1) && PulledFrom(b, a', b', s2)
    requires NoTies(a.disk.rows, b.disk.rows)
    requires NoCollision(a.disk.rows, b.disk.rows, MERKLE_LEAF_DEPTH_BITS)
    requires NoCollision(b.disk.rows, a'.disk.rows, MERKLE_LEAF_DEPTH_BITS)
    ensures a'.disk.rows == b'.disk.rows == Join(a.disk.rows, b.disk.rows)
    ensures forall e: u32 :: a'.forest.At(e) == b'.forest.At(e)
    ensures forall a'', s :: PulledFrom(a', b', a'', s) ==> s == SyncStats(0, 0, 0) && a''.disk.rows == a'.disk.rows
    ensures forall b'', s :: PulledFrom(b', a', b'', s) ==> s == SyncStats(0, 0, 0) && b''.disk.rows == b'.disk.rows
  {
    hide NoCollision, PulledFrom, Join, NoTies, Sane;
    PullJoins(a, b, a', s1);
    PullJoins(b, a', b', s2);
    JoinAbsorbs(a.disk.rows, b.disk.rows);
    SameSummaries(a', b');
    forall a'', s | PulledFrom(a', b', a'', s) ensures s == SyncStats(0, 0, 0) && a''.disk.rows == a'.disk.rows {
      NothingToPull(a', b', a'', s);
    }
    forall b'', s | PulledFrom(b', a', b'', s) ensures s == SyncStats(0, 0, 0) && b''.disk.rows == b'.disk.rows {
      NothingToPull(b', a', b'', s);
    }
  }

  lemma SameSummaries(v: Value, w: Value)
    requires Sane(v) && Sane(w) && Lockstep(v) && Lockstep(w) && v.disk.rows == w.disk.rows
    ensures forall e: u32 :: v.forest.At(e) == w.forest.At(e)
  {
    hide SealExact, Forest.Valid, Summarise;
    forall e: u32 ensures v.forest.At(e) == w.forest.At(e) {}
  }

  /** Whichever of two nodes pulls first, all four outcomes hold the same rows. */
  lemma EitherPullsFirst(a: Value, b: Value, a1: Value, b1: Value, b2: Value, a2: Value,
                         s1: SyncStats, s2: SyncStats, s3: SyncStats, s4: SyncStats)
    requires Sane(a) && Sane(b) && Lockstep(a) && Lockstep(b) && NoTies(a.disk.rows, b.disk.rows)
    requires PulledFrom(a, b, a1, s1) && PulledFrom(b, a1, b1, s2)
    requires PulledFrom(b, a, b2, s3) && PulledFrom(a, b2, a2, s4)
    requires NoCollision(a.disk.rows, b.disk.rows, MERKLE_LEAF_DEPTH_BITS)
    requires NoCollision(b.disk.rows, a.disk.rows, MERKLE_LEAF_DEPTH_BITS)
    requires NoCollision(b.disk.rows, a1.disk.rows, MERKLE_LEAF_DEPTH_BITS)
    requires NoCollision(a.disk.rows, b2.disk.rows, MERKLE_LEAF_DEPTH_BITS)
    ensures a1.disk.rows == b1.disk.rows == a2.disk.rows == b2.disk.rows
  {
    hide NoCollision, PulledFrom, Join, Sane, Lockstep, Outcome;
    TwoPullsConverge(a, b, a1, b1, s1, s2);
    TwoPullsConverge(b, a, b2, a2, s3, s4);
    JoinCommutes(a.disk.rows, b.disk.rows);
  }
}
