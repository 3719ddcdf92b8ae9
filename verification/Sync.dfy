/** Anti-entropy: what a node serves, and one pull round against it. */
module Sync {
  import opened Words
  import opened Keys
  import opened Forests
  import opened Sorting
  import opened Options
  import opened SealRecords
  import opened Merkle
  import opened Disk
  import opened SealProtocol
  import opened Kv
  import opened Layout
  import opened RowScans
  import opened StoreState
  import opened Joins
  import opened Store
  import opened PullPlan
  import opened PullProgress

  /** Whether a puller accepts a peer's leaf depth. */
  predicate AcceptedDepth(d: nat)
  {
    3 <= d && d % 3 == 0
  }

  /** Read-only view of one node's forest and rows; the leaf depth it announces need not be ours. */
  class SyncService {
    const tree: KvTree
    const merkle: MerkleForest
    const announced: nat

    constructor (tree: KvTree, merkle: MerkleForest, announced: nat)
      ensures this.tree == tree && this.merkle == merkle && this.announced == announced
    {
      this.tree, this.merkle, this.announced := tree, merkle, announced;
    }

    /** What it announces is its forest's leaf depth, or no leaf depth at all. */
    predicate Honest()
    {
      announced == merkle.depth || !AcceptedDepth(announced)
    }

    method Roots() returns (roots: seq<(u32, u128)>, leafDepthBits: nat)
      requires merkle.Valid()
      ensures roots == RootsOf(merkle.View(), SortedEpochs(merkle.View().trees.Keys)) && leafDepthBits == announced
    {
      roots := merkle.EpochRoots();
      leafDepthBits := announced;
    }

    /** Refuses depths that have no children. */
    method Children(epoch: u32, depthBits: nat, prefix: u64) returns (reply: Option<seq<(u64, u128)>>)
      requires merkle.Valid()
      ensures reply.None? <==> depthBits % 3 != 0 || depthBits + 3 > merkle.depth
      ensures reply.Some?
              ==> depthBits + 3 <= 63 && reply.value == ChildrenOf(merkle.View(), epoch, depthBits, prefix, 8)
    {
      if depthBits % 3 != 0 || depthBits + 3 > merkle.depth { return None; }
      var children := merkle.ChildHashes(epoch, depthBits, prefix);
      reply := Some(children);
    }

    /** Refuses a range that ends before it starts. */
    method Fetch(start: Key, end: Key) returns (reply: Option<seq<(Key, Payload)>>)
      ensures reply.None? <==> KeyLess(end, start)
      ensures reply.Some? ==> IsRowScan(DiskOf(tree.data).rows, (start, end), reply.value)
    {
      hide DiskOf, IsRowScan;
      if KeyLess(end, start) { return None; }
      var rows := ScanRange(tree.Snapshot(), start, end);
      reply := Some(rows);
    }
  }

  // -------------------------------------------------------------------------
  // Filtering replies
  // -------------------------------------------------------------------------

  ghost function RootNodes(ours: Forest, roots: seq<(u32, u128)>): seq<Node>
  {
    if roots == [] then []
    else
      var n := |roots| - 1;
      var (e, theirs) := roots[n];
      RootNodes(ours, roots[..n]) + if theirs != 0 && theirs != ours.Hash(e, 0, 0) then [Node(e, 0, 0)] else []
  }

  lemma {:induction false} RootNodesAreEntered(ours: Forest, theirs: Forest, es: seq<u32>)
    ensures RootNodes(ours, RootsOf(theirs, es)) == EnteredRoots(ours, theirs, es)
    decreases |es|
  {
    hide Forest.Hash;
    if es != [] {
      var n := |es| - 1;
      var e := es[n];
      RootNodesAreEntered(ours, theirs, es[..n]);
      var before := RootsOf(theirs, es[..n]);
      if theirs.Hash(e, 0, 0) != 0 {
        assert RootsOf(theirs, es) == before + [(e, theirs.Hash(e, 0, 0))];
        assert (before + [(e, theirs.Hash(e, 0, 0))])[..|before|] == before;
      } else {
        assert RootsOf(theirs, es) == before;
        assert EnteredRoots(ours, theirs, es) == EnteredRoots(ours, theirs, es[..n]);
      }
    }
  }

  method OpeningWork(merkle: MerkleForest, roots: seq<(u32, u128)>) returns (work: seq<Node>)
    requires merkle.Valid()
    ensures work == RootNodes(merkle.View(), roots)
  {
    hide MerkleForest.View, MerkleForest.Valid, MerkleForest.NodeHash, Forest.Hash;
    work := [];
    for i := 0 to |roots|
      invariant work == RootNodes(merkle.View(), roots[..i])
    {
      assert roots[..i + 1][..i] == roots[..i];
      var (epoch, theirs) := roots[i];
      if theirs != 0 && theirs != merkle.NodeHash(epoch, 0, 0) { work := work + [Node(epoch, 0, 0)]; }
    }
    assert roots[..|roots|] == roots;
  }

  ghost function ChildNodes(ours: Forest, e: u32, d: nat, children: seq<(u64, u128)>): seq<Node>
    requires d + 3 <= 63
  {
    if children == [] then []
    else
      var n := |children| - 1;
      var (q, theirs) := children[n];
      ChildNodes(ours, e, d, children[..n])
      + if theirs != 0 && theirs != ours.Hash(e, d + 3, q) then [Node(e, d + 3, q)] else []
  }

  lemma {:induction false} ChildNodesAreEntered(ours: Forest, theirs: Forest, e: u32, d: nat, p: u64, n: nat)
    requires d + 3 <= 63 && n <= 8
    ensures ChildNodes(ours, e, d, ChildrenOf(theirs, e, d, p, n)) == Entered(ours, theirs, e, d, p, n)
    decreases n
  {
    hide Forest.Hash, ChildPrefix;
    if n > 0 {
      var q := ChildPrefix(p, d, n - 1);
      var h := theirs.Hash(e, d + 3, q);
      ChildNodesAreEntered(ours, theirs, e, d, p, n - 1);
      var before := ChildrenOf(theirs, e, d, p, n - 1);
      if h != 0 {
        assert ChildrenOf(theirs, e, d, p, n) == before + [(q, h)];
        assert (before + [(q, h)])[..|before|] == before;
      } else {
        assert ChildrenOf(theirs, e, d, p, n) == before;
        assert Entered(ours, theirs, e, d, p, n) == Entered(ours, theirs, e, d, p, n - 1);
      }
    }
  }

  method EnterChildren(merkle: MerkleForest, epoch: u32, depth: nat, children: seq<(u64, u128)>)
    returns (more: seq<Node>)
    requires merkle.Valid() && IsDepth(depth) && depth + 3 <= 63 && IsDepth(depth + 3) && depth + 3 <= merkle.depth
    ensures more == ChildNodes(merkle.View(), epoch, depth, children)
  {
    hide MerkleForest.View, MerkleForest.Valid, MerkleForest.NodeHash, Forest.Hash;
    more := [];
    for i := 0 to |children|
      invariant more == ChildNodes(merkle.View(), epoch, depth, children[..i])
    {
      assert children[..i + 1][..i] == children[..i];
      var (q, theirs) := children[i];
      if theirs != 0 && theirs != merkle.NodeHash(epoch, depth + 3, q) { more := more + [Node(epoch, depth + 3, q)]; }
    }
    assert children[..|children|] == children;
  }

  // -------------------------------------------------------------------------
  // Merging one leaf
  // -------------------------------------------------------------------------

  lemma FetchedRow(rows: Rows, r: (Key, Key), scan: seq<(Key, Payload)>, i: nat)
    requires IsRowScan(rows, r, scan) && i < |scan|
    ensures scan[i].0 in rows && rows[scan[i].0] == scan[i].1 && scan[i].0 !in KeysOf(scan[..i])
    ensures KeysOf(scan[..i + 1]) == KeysOf(scan[..i]) + {scan[i].0}
    ensures scan[i].0 in KeysOf(scan) && KeysOf(scan[..i]) <= KeysOf(scan)
  {
    forall k | k in KeysOf(scan[..i]) ensures k in KeysOf(scan) {
      var j :| 0 <= j < i && scan[..i][j].0 == k;
      assert scan[j].0 == k;
    }
    assert (scan[i].0, scan[i].1) in scan;
    assert scan[..i + 1][..i] == scan[..i];
    KeysOfStep(scan[..i + 1]);
    hide InRange;
    forall j | 0 <= j < i ensures scan[..i][j].0 != scan[i].0 {
      assert KeyLess(scan[j].0, scan[i].0);
    }
  }

  lemma FetchedCell(u: Pull, l: LeafCell, scan: seq<(Key, Payload)>)
    requires u.Valid() && IsPrefix(l.1, u.leaf) && IsRowScan(u.rows, LeafKeyRange(l.0, l.1, u.leaf), scan)
    ensures KeysOf(scan) == CellKeys(u, l)
    ensures |KeysOf(scan)| == |scan|
  {
    var r := LeafKeyRange(l.0, l.1, u.leaf);
    hide LeafKeyRange, PrefixAt, RowsAscend, InRange;
    forall k ensures k in KeysOf(scan) <==> k in CellKeys(u, l) {
      LeafRangeIsCell(k, l.0, l.1, u.leaf);
      if k in u.rows && InRange(k, r) {
        assert (k, u.rows[k]) in scan;
        var i :| 0 <= i < |scan| && scan[i] == (k, u.rows[k]);
      }
      if k in KeysOf(scan) {
        var i :| 0 <= i < |scan| && scan[i].0 == k;
        assert (scan[i].0, scan[i].1) in scan;
      }
    }
    KeyCount(u.rows, r, scan, |scan|);
    assert scan[..|scan|] == scan;
  }

  lemma {:induction false} KeyCount(rows: Rows, r: (Key, Key), scan: seq<(Key, Payload)>, n: nat)
    requires IsRowScan(rows, r, scan) && n <= |scan|
    ensures |KeysOf(scan[..n])| == n
    decreases n
  {
    hide IsRowScan, KeysOf;
    if n == 0 {
      NoKeys(scan);
    } else {
      KeyCount(rows, r, scan, n - 1);
      FetchedRow(rows, r, scan, n - 1);
    }
  }

  lemma NoKeys(items: seq<(Key, Payload)>)
    ensures KeysOf(items[..0]) == {}
  {
  }

  lemma WiredSane(store: SpatioTemporalStore)
    requires store.Wired()
    ensures store.merkle.Valid() && Sane(store.Now()) && store.Now().forest == store.merkle.View()
  {
  }

  lemma IngestNone(u: Pull, rows: seq<(Key, Payload)>, done: set<Key>)
    ensures KeysOf(rows[..0]) == {} && u.Applied({}) == {} && done + {} == done
  {
  }

  lemma OfferNext(u: Pull, done: set<Key>, got: set<Key>, v: Value, k: Key, changed: Option<bool>, w: Value)
    requires u.Valid() && u.Merged(done + got, v) && k in u.rows && k !in done && k !in got && Sane(w)
    requires changed.None? || changed.value <==> Wins(v.disk.rows, k, u.rows[k])
    requires changed.None? ==> Abandoned(v, [k.epoch], w)
    requires changed.Some? ==> w == if changed.value then StoreState.Merged(v, k, u.rows[k]) else v
    ensures changed.Some? ==> u.Merged(done + (got + {k}), w)
    ensures changed.Some? ==> |u.Applied(got + {k})| == |u.Applied(got)| + if changed.value then 1 else 0
    ensures changed.None? ==> u.Merged(done + got, w)
  {
    hide Wins, Sane, Lockstep, JoinOn, Forest.Insert, Forest.Remove, Pull.Applied, Pull.Valid;
    RowOffered(u, done + got, v, k, changed, w);
    MergeExtendsJoin(u.start.disk.rows, u.rows, done + got, k);
    MoreApplied(u, got, k);
    assert done + (got + {k}) == done + got + {k};
  }

  /** Ingests the rows of one fetched leaf; a failing commit ends the round with what was merged so far. */
  method IngestRows(store: SpatioTemporalStore, rows: seq<(Key, Payload)>, ghost u: Pull, ghost r: (Key, Key),
                    ghost done: set<Key>)
    returns (ok: bool, applied: nat, ghost got: set<Key>)
    requires store.Wired() && u.Valid() && u.Merged(done, store.Now())
    requires IsRowScan(u.rows, r, rows) && done !! KeysOf(rows)
    modifies store, store.tree, store.merkle, store.merkle.repr
    ensures store.Wired() && forall t :: t in store.merkle.repr ==> t in old(store.merkle.repr) || fresh(t)
    ensures got <= KeysOf(rows) && u.Merged(done + got, store.Now())
    ensures ok ==> got == KeysOf(rows) && applied == |u.Applied(got)|
    ensures store.tree.failures == old(store.tree.failures) + if ok then 0 else 1
  {
    hide *;
    applied, got := 0, {};
    IngestNone(u, rows, done);
    WiredSane(store);
    for i := 0 to |rows|
      invariant store.Wired() && store.merkle.Valid()
      invariant forall t :: t in store.merkle.repr ==> t in old(store.merkle.repr) || fresh(t)
      invariant got == KeysOf(rows[..i]) && u.Merged(done + got, store.Now())
      invariant applied == |u.Applied(got)| && store.tree.failures == old(store.tree.failures)
    {
      FetchedRow(u.rows, r, rows, i);
      WiredSane(store);
      ghost var v := store.Now();
      var changed := store.Ingest(rows[i].0, rows[i].1);
      WiredSane(store);
      OfferNext(u, done, got, v, rows[i].0, changed, store.Now());
      if changed.None? {
        return false, applied, got;
      }
      if changed.value { applied := applied + 1; }
      got := got + {rows[i].0};
    }
    assert rows[..|rows|] == rows;
    ok := true;
  }

  /** Fetches one leaf cell and merges its rows. */
  method PullLeaf(store: SpatioTemporalStore, client: SyncService, l: LeafCell, depth: nat, ghost u: Pull,
                  ghost done: set<Key>)
    returns (ok: bool, received: nat, applied: nat, ghost got: set<Key>)
    requires store.Wired() && u.Valid() && u.Merged(done, store.Now())
    requires depth == u.leaf && u.rows == DiskOf(client.tree.data).rows && IsPrefix(l.1, u.leaf)
             && done !! CellKeys(u, l)
    modifies store, store.tree, store.merkle, store.merkle.repr
    ensures store.Wired() && forall t :: t in store.merkle.repr ==> t in old(store.merkle.repr) || fresh(t)
    ensures got <= CellKeys(u, l) && u.Merged(done + got, store.Now())
    ensures ok ==> got == CellKeys(u, l) && received == |got| && applied == |u.Applied(got)|
    ensures store.tree.failures == old(store.tree.failures) + if ok then 0 else 1
  {
    hide *;
    ValidDepth(u);
    WiredSane(store);
    IngestNone(u, [], done);
    var range := LeafKeyRange(l.0, l.1, depth);
    var reply := client.Fetch(range.0, range.1);
    LeafRangeForward(l, depth);
    assert (range.0, range.1) == range;
    FetchedCell(u, l, reply.value);
    received := |reply.value|;
    ok, applied, got := IngestRows(store, reply.value, u, range, done);
  }

  /** The range asked for is never refused. */
  lemma LeafRangeForward(l: LeafCell, d: nat)
    requires 1 <= d <= 63 && IsPrefix(l.1, d)
    ensures var r := LeafKeyRange(l.0, l.1, d); !KeyLess(r.1, r.0)
  {
    LastCodeIsSum(l.1, d);
  }

  lemma ValidDepth(u: Pull)
    requires u.Valid()
    ensures 1 <= u.leaf <= 63
  {
  }

  /** What a round leaves behind. A failed one has still only merged rows of the peer in wanted leaves. */
  ghost predicate Outcome(u: Pull, ok: bool, stats: SyncStats, fetched: seq<LeafCell>, done: set<Key>, v: Value)
  {
    && u.Valid() && u.Merged(done, v) && u.WantedOnly(done)
    && (ok ==> && Unrepeated(fetched)
               && (forall l :: l in fetched <==> Wanted(u.start.forest, u.peer, u.leaf, l))
               && done == u.Covered(fetched) && stats == u.Stats(fetched))
  }

  lemma FailedRound(u: Pull, stats: SyncStats, fetched: seq<LeafCell>, done: set<Key>, v: Value)
    requires u.Valid() && u.Merged(done, v) && u.WantedOnly(done)
    ensures Outcome(u, false, stats, fetched, done, v)
  {
  }

  lemma CompleteRound(u: Pull, stats: SyncStats, fetched: seq<LeafCell>, v: Value)
    requires u.Valid() && Progress(u, [], fetched, stats, v)
    ensures Outcome(u, true, stats, fetched, u.Covered(fetched), v)
  {
    hide Pull.Merged, Wanted, Unrepeated, Pull.Covered, Pull.Stats, Pull.Valid, Pull.WantedOnly, Progress;
    ProgressEnd(u, fetched, stats, v);
    ProgressMerged(u, [], fetched, stats, v);
    CoveredWanted(u, fetched);
  }

  lemma ProgressMerged(u: Pull, work: seq<Node>, fetched: seq<LeafCell>, stats: SyncStats, v: Value)
    requires u.Valid() && Progress(u, work, fetched, stats, v)
    ensures u.Merged(u.Covered(fetched), v) && stats == u.Stats(fetched)
  {
    hide Pull.Merged, Pull.Covered, Pull.Stats, Pull.Valid, Pull.All, LeavesOf;
  }

  lemma CoveredWanted(u: Pull, fetched: seq<LeafCell>)
    requires u.Valid() && forall l :: l in fetched ==> Wanted(u.start.forest, u.peer, u.leaf, l)
    ensures u.WantedOnly(u.Covered(fetched))
  {
    hide Wanted, PrefixAt, Pull.Valid;
  }

  lemma NoneWanted(u: Pull)
    requires u.Valid()
    ensures u.WantedOnly({})
  {
  }

  lemma LeafOpens(u: Pull, work: seq<Node>, fetched: seq<LeafCell>, stats: SyncStats, v: Value)
    requires u.Valid() && Progress(u, work, fetched, stats, v) && work != []
             && (work[0].epoch, work[0].prefix) !in fetched
    ensures u.Merged(u.Covered(fetched), v) && stats == u.Stats(fetched)
    ensures u.Covered(fetched) !! CellKeys(u, (work[0].epoch, work[0].prefix))
  {
    hide Pull.Merged, Pull.Covered, Pull.Stats, CellKeys, LeavesOf, Pull.All, NodesOk, LevelOrder, AtLeaf, Pull.Valid;
    LeafCovers(u, fetched, (work[0].epoch, work[0].prefix));
  }

  lemma LeafDone(u: Pull, work: seq<Node>, fetched: seq<LeafCell>, stats: SyncStats, l: LeafCell, received: nat,
                 applied: nat, v: Value)
    requires u.Valid() && l !in fetched && stats == u.Stats(fetched)
    requires NodesOk(work, u.leaf) && LevelOrder(work) && AtLeaf(work, u.leaf)
    requires multiset((fetched + [l]) + LeavesOf(u.start.forest, u.peer, work, u.leaf)) == multiset(u.All())
    requires u.Merged(u.Covered(fetched) + CellKeys(u, l), v)
    requires received == |CellKeys(u, l)| && applied == |u.Applied(CellKeys(u, l))|
    ensures var after := SyncStats(stats.leavesFetched + 1, stats.rowsReceived + received, stats.rowsApplied + applied);
            Progress(u, work, fetched + [l], after, v)
  {
    hide Pull.Merged, Pull.Covered, Pull.Stats, CellKeys, LeavesOf, Pull.All, NodesOk, LevelOrder, AtLeaf, Pull.Valid;
    LeafCovers(u, fetched, l);
    LeafStats(u, fetched, l);
  }

  lemma PullIsValid(store: SpatioTemporalStore, client: SyncService, u: Pull)
    requires store.Wired() && client.merkle.Valid()
    requires u == PullFrom(store.Now(), client.merkle.View(), DiskOf(client.tree.data).rows)
    ensures u.Valid() && u.start == store.Now() && u.start.forest == store.merkle.View()
    ensures u.peer == client.merkle.View() && u.rows == DiskOf(client.tree.data).rows
    ensures u.leaf == if client.merkle.depth < MERKLE_LEAF_DEPTH_BITS then client.merkle.depth
            else MERKLE_LEAF_DEPTH_BITS
    ensures u.leaf <= store.merkle.depth && u.leaf <= client.merkle.depth && u.leaf <= 63
  {
    hide DiskOf, Consistent;
  }

  lemma AnnouncedDepth(client: SyncService)
    requires client.Honest()
    ensures AcceptedDepth(client.announced) <==> 3 <= client.announced && client.announced % 3 == 0
    ensures AcceptedDepth(client.announced) ==> client.announced == client.merkle.depth
  {
  }

  /** Asks the peer for the children of a divergent cell and keeps those to enter. */
  method EnterNode(store: SpatioTemporalStore, client: SyncService, n: Node) returns (more: seq<Node>)
    requires store.merkle.Valid() && client.merkle.Valid() && n.depth % 3 == 0 && IsDepth(n.depth)
             && IsDepth(n.depth + 3)
    requires n.depth + 3 <= store.merkle.depth && n.depth + 3 <= client.merkle.depth && n.depth + 3 <= 63
    ensures more == Entered(store.merkle.View(), client.merkle.View(), n.epoch, n.depth, n.prefix, 8)
  {
    hide *;
    var reply := client.Children(n.epoch, n.depth, n.prefix);
    more := EnterChildren(store.merkle, n.epoch, n.depth, reply.value);
    ChildNodesAreEntered(store.merkle.View(), client.merkle.View(), n.epoch, n.depth, n.prefix, 8);
  }

  /** Takes a leaf off the list: fetch, merge, count. */
  method VisitLeaf(store: SpatioTemporalStore, client: SyncService, work: seq<Node>, stats: SyncStats, depth: nat,
                   ghost u: Pull, ghost fetched: seq<LeafCell>)
    returns (ok: bool, stats': SyncStats, ghost fetched': seq<LeafCell>, ghost done: set<Key>)
    requires store.Wired() && store.merkle.Valid() && u.Valid() && depth == u.leaf
             && u.rows == DiskOf(client.tree.data).rows
    requires Progress(u, work, fetched, stats, store.Now()) && NodesOk(work, u.leaf) && work != []
             && work[0].depth == u.leaf
    modifies store, store.tree, store.merkle, store.merkle.repr
    ensures store.Wired() && store.merkle.Valid()
            && forall t :: t in store.merkle.repr ==> t in old(store.merkle.repr) || fresh(t)
    ensures u.Merged(done, store.Now()) && u.WantedOnly(done)
    ensures ok ==> Progress(u, work[1..], fetched', stats', store.Now())
    ensures store.tree.failures == old(store.tree.failures) + if ok then 0 else 1
    ensures NodesOk(work[1..], u.leaf) && Weight(work[1..], u.leaf) < Weight(work, u.leaf)
  {
    hide *;
    ProgressLeaf(u, work, fetched, stats, store.Now());
    LeafOpens(u, work, fetched, stats, store.Now());
    var l := (work[0].epoch, work[0].prefix);
    var received, applied;
    ghost var got;
    ok, received, applied, got := PullLeaf(store, client, l, depth, u, u.Covered(fetched));
    WiredSane(store);
    done := u.Covered(fetched) + got;
    OfferedWanted(u, fetched, l, LeavesOf(u.start.forest, u.peer, work[1..], u.leaf), got);
    if ok { LeafDone(u, work[1..], fetched, stats, l, received, applied, store.Now()); }
    stats' := SyncStats(stats.leavesFetched + 1, stats.rowsReceived + received, stats.rowsApplied + applied);
    fetched' := fetched + [l];
  }

  /**
   * One pull round. `fetched` lists the leaves asked for, `done` the peer's rows offered to the store. It fails
   * when the peer announces no leaf depth, or when a commit fails, and then only.
   */
  method SyncOnce(store: SpatioTemporalStore, client: SyncService)
    returns (ok: bool, stats: SyncStats, ghost fetched: seq<LeafCell>, ghost done: set<Key>)
    requires store.Wired() && client.merkle.Valid() && client.Honest()
    requires store.tree != client.tree && store.merkle != client.merkle && store.merkle.repr !! client.merkle.repr
    modifies store, store.tree, store.merkle, store.merkle.repr
    ensures store.Wired()
    ensures Outcome(old(PullFrom(store.Now(), client.merkle.View(), DiskOf(client.tree.data).rows)), ok, stats,
                    fetched, done, store.Now())
    ensures !AcceptedDepth(client.announced) ==> !ok && store.Now() == old(store.Now())
    ensures store.tree.failures == old(store.tree.failures) + if ok || !AcceptedDepth(client.announced) then 0 else 1
  {
    hide *;
    WiredSane(store);
    ghost var u := PullFrom(store.Now(), client.merkle.View(), DiskOf(client.tree.data).rows);
    var roots, remoteLeaf := client.Roots();
    PullIsValid(store, client, u);
    AnnouncedDepth(client);
    NothingMerged(u);
    NoneWanted(u);
    stats := SyncStats(0, 0, 0);
    fetched, done := [], {};
    if remoteLeaf < 3 || remoteLeaf % 3 != 0 {
      FailedRound(u, stats, fetched, done, store.Now());
      return false, stats, fetched, done;
    }
    var descendTo := if remoteLeaf < MERKLE_LEAF_DEPTH_BITS then remoteLeaf else MERKLE_LEAF_DEPTH_BITS;
    var work := OpeningWork(store.merkle, roots);
    RootNodesAreEntered(u.start.forest, u.peer, SortedEpochs(u.peer.trees.Keys));
    ProgressStart(u);
    while work != []
      invariant store.Wired() && store.merkle.Valid() && store.merkle.repr !! client.merkle.repr
      invariant forall t :: t in store.merkle.repr ==> t in old(store.merkle.repr) || fresh(t)
      invariant client.merkle.Valid() && client.merkle.View() == u.peer && DiskOf(client.tree.data).rows == u.rows
      invariant Progress(u, work, fetched, stats, store.Now()) && NodesOk(work, u.leaf)
      invariant store.tree.failures == old(store.tree.failures)
      decreases Weight(work, u.leaf)
    {
      var n := work[0];
      if n.depth == descendTo {
        var okLeaf, stats';
        ghost var fetched';
        okLeaf, stats', fetched', done := VisitLeaf(store, client, work, stats, descendTo, u, fetched);
        if !okLeaf {
          FailedRound(u, stats, fetched, done, store.Now());
          return false, stats, fetched, done;
        }
        work, stats, fetched := work[1..], stats', fetched';
      } else {
        ProgressAbove(u, work, fetched, stats, store.Now());
        WiredSane(store);
        var more := EnterNode(store, client, n);
        ProgressChildren(u, work, fetched, stats, store.Now());
        work := work[1..] + more;
      }
    }
    ok, done := true, u.Covered(fetched);
    CompleteRound(u, stats, fetched, store.Now());
  }
}
