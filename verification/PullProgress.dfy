/** How far a pull has come, and what its worklist keeps at every turn. */
module PullProgress {
  import opened Words
  import opened Keys
  import opened Forests
  import opened Sorting
  import opened Options
  import opened SealRecords
  import opened Disk
  import opened SealProtocol
  import opened StoreState
  import opened Joins
  import opened PullPlan
  import Diff

  datatype SyncStats = SyncStats(leavesFetched: nat, rowsReceived: nat, rowsApplied: nat)

  /** The puller as it started, the peer's forest and rows, and the depth the descent goes to. */
  datatype Pull = Pull(start: Value, peer: Forest, rows: Rows, leaf: nat)
  {
    ghost predicate Valid()
    {
      Sane(start) && peer.Valid() && 3 <= leaf <= 63 && IsDepth(leaf)
    }

    /** The leaves to fetch. */
    ghost function All(): seq<LeafCell>
      requires Valid()
    {
      Plan(start.forest, peer, leaf, SortedEpochs(peer.trees.Keys))
    }

    /** The peer's rows in some leaves. */
    ghost function Covered(leaves: seq<LeafCell>): set<Key>
      requires Valid()
    {
      set k | k in rows && (k.epoch, PrefixAt(k.morton, leaf)) in leaves
    }

    /** Those that replace or add to what the puller had. */
    ghost function Applied(keys: set<Key>): set<Key>
    {
      set k | k in keys && k in rows && Wins(start.disk.rows, k, rows[k])
    }

    /** The rows at `done` are merged in, the rest of the store is as good as it was. */
    ghost predicate Merged(done: set<Key>, v: Value)
    {
      && Sane(v) && v.inflight == start.inflight
      && v.disk.rows == JoinOn(start.disk.rows, rows, done)
      && |v.events| == |start.events| + |Applied(done)|
      && (Lockstep(start) ==> Lockstep(v))
    }

    /** Rows of the peer in leaves the descent leads to. */
    ghost predicate WantedOnly(done: set<Key>)
      requires Valid()
    {
      forall k :: k in done ==> k in rows && Wanted(start.forest, peer, leaf, (k.epoch, PrefixAt(k.morton, leaf)))
    }

    ghost function Stats(leaves: seq<LeafCell>): SyncStats
      requires Valid()
    {
      SyncStats(|leaves|, |Covered(leaves)|, |Applied(Covered(leaves))|)
    }
  }

  /** Descends to the shallower of the two leaf depths. */
  function PullFrom(start: Value, peer: Forest, rows: Rows): Pull
  {
    Pull(start, peer, rows, if peer.depth < MERKLE_LEAF_DEPTH_BITS then peer.depth else MERKLE_LEAF_DEPTH_BITS)
  }

  // -------------------------------------------------------------------------
  // One row
  // -------------------------------------------------------------------------

  lemma NothingMerged(u: Pull)
    requires u.Valid()
    ensures u.Merged({}, u.start) && u.Covered([]) == {} && u.Applied({}) == {}
  {
    JoinNothing(u.start.disk.rows, u.rows);
  }

  lemma MoreApplied(u: Pull, done: set<Key>, k: Key)
    requires k in u.rows && k !in done
    ensures |u.Applied(done + {k})| == |u.Applied(done)| + if Wins(u.start.disk.rows, k, u.rows[k]) then 1 else 0
  {
    hide Wins;
    if Wins(u.start.disk.rows, k, u.rows[k]) {
      assert u.Applied(done + {k}) == u.Applied(done) + {k};
    } else {
      assert u.Applied(done + {k}) == u.Applied(done);
    }
  }

  /** Offering one more of the peer's rows, whatever comes of it. */
  lemma RowOffered(u: Pull, done: set<Key>, v: Value, k: Key, changed: Option<bool>, w: Value)
    requires u.Valid() && u.Merged(done, v) && k in u.rows && k !in done && Sane(w)
    requires changed.None? || changed.value <==> Wins(v.disk.rows, k, u.rows[k])
    requires changed.None? ==> Abandoned(v, [k.epoch], w)
    requires changed.Some? ==> w == if changed.value then StoreState.Merged(v, k, u.rows[k]) else v
    ensures changed.Some? ==> u.Merged(done + {k}, w)
    ensures changed.Some? ==> |u.Applied(done + {k})| == |u.Applied(done)| + if changed.value then 1 else 0
    ensures changed.None? ==> u.Merged(done, w)
  {
    hide Wins, Sane, Lockstep, JoinOn, Forest.Insert, Forest.Remove, Pull.Applied, Abandoned;
    OneAbandoned(v, k.epoch, w);
    MergeExtendsJoin(u.start.disk.rows, u.rows, done, k);
    MoreApplied(u, done, k);
    if changed.Some? && changed.value { MergeInStepIf(v, k, u.rows[k]); }
    UnsealIf(v, {k.epoch});
  }

  lemma MergeInStepIf(v: Value, k: Key, p: Payload)
    requires Sane(v)
    ensures Lockstep(v) ==> Lockstep(StoreState.Merged(v, k, p))
  {
    hide Lockstep, StoreState.Merged;
    if Lockstep(v) { MergeInStep(v, k, p); }
  }

  lemma UnsealIf(v: Value, es: set<u32>)
    requires Sane(v)
    ensures Lockstep(v) ==> Lockstep(Unsealed(v, es))
  {
    UnsealKeeps(v, es);
  }

  // -------------------------------------------------------------------------
  // One leaf
  // -------------------------------------------------------------------------

  ghost function CellKeys(u: Pull, l: LeafCell): set<Key>
    requires u.Valid()
  {
    CellRows(u.rows, l.0, u.leaf, l.1).Keys
  }

  /** A leaf not fetched before brings only rows not seen before. */
  lemma LeafCovers(u: Pull, leaves: seq<LeafCell>, l: LeafCell)
    requires u.Valid() && l !in leaves
    ensures u.Covered(leaves + [l]) == u.Covered(leaves) + CellKeys(u, l)
    ensures u.Covered(leaves) !! CellKeys(u, l)
  {
    hide PrefixAt;
  }

  lemma LeafStats(u: Pull, leaves: seq<LeafCell>, l: LeafCell)
    requires u.Valid() && l !in leaves
    ensures var s := u.Stats(leaves);
            u.Stats(leaves + [l])
            == SyncStats(s.leavesFetched + 1, s.rowsReceived + |CellKeys(u, l)|,
                         s.rowsApplied + |u.Applied(CellKeys(u, l))|)
  {
    hide PrefixAt, Wins, Pull.Covered, CellKeys;
    LeafCovers(u, leaves, l);
    var a, b := u.Covered(leaves), CellKeys(u, l);
    assert u.Applied(a + b) == u.Applied(a) + u.Applied(b);
    assert u.Applied(a) !! u.Applied(b);
  }

  // -------------------------------------------------------------------------
  // The worklist
  // -------------------------------------------------------------------------

  /** By depth, at most two adjacent depths. */
  predicate LevelOrder(work: seq<Node>)
  {
    forall i, j :: 0 <= i < j < |work| ==> work[i].depth <= work[j].depth <= work[0].depth + 3
  }

  predicate AtLeaf(work: seq<Node>, leaf: nat)
  {
    forall i :: 0 <= i < |work| ==> work[i].depth == leaf
  }

  /** Fetched and still to come together are the plan; nothing changes before the first leaf is fetched. */
  ghost predicate Progress(u: Pull, work: seq<Node>, fetched: seq<LeafCell>, stats: SyncStats, v: Value)
    requires u.Valid()
  {
    && NodesOk(work, u.leaf) && LevelOrder(work)
    && (fetched == [] ==> v == u.start)
    && (fetched != [] ==> AtLeaf(work, u.leaf))
    && multiset(fetched + LeavesOf(u.start.forest, u.peer, work, u.leaf)) == multiset(u.All())
    && u.Merged(u.Covered(fetched), v) && stats == u.Stats(fetched)
  }

  lemma ProgressStart(u: Pull)
    requires u.Valid()
    ensures var work := EnteredRoots(u.start.forest, u.peer, SortedEpochs(u.peer.trees.Keys));
            NodesOk(work, u.leaf) && Progress(u, work, [], SyncStats(0, 0, 0), u.start)
  {
    hide Pull.Merged, Pull.All, Pull.Stats, Pull.Covered, NodesOk, LeavesOf, Forest.Valid, Sane, AtLeaf;
    StartLeaves(u);
    StartMerged(u);
    RootsOnTop(u.start.forest, u.peer, SortedEpochs(u.peer.trees.Keys));
    StartOrder(EnteredRoots(u.start.forest, u.peer, SortedEpochs(u.peer.trees.Keys)));
  }

  /** The roots entered lead to the whole plan. */
  lemma StartLeaves(u: Pull)
    requires u.Valid()
    ensures var work := EnteredRoots(u.start.forest, u.peer, SortedEpochs(u.peer.trees.Keys));
            && NodesOk(work, u.leaf)
            && multiset([] + LeavesOf(u.start.forest, u.peer, work, u.leaf)) == multiset(u.All())
  {
    hide Plan, NodesOk, LeavesOf, EnteredRoots, Forest.Valid, Sane, SortedEpochs;
    var es := SortedEpochs(u.peer.trees.Keys);
    RootLeaves(u.start.forest, u.peer, u.leaf, es);
    var leaves := LeavesOf(u.start.forest, u.peer, EnteredRoots(u.start.forest, u.peer, es), u.leaf);
    assert [] + leaves == leaves;
  }

  lemma StartMerged(u: Pull)
    requires u.Valid()
    ensures u.Merged(u.Covered([]), u.start) && u.Stats([]) == SyncStats(0, 0, 0)
  {
    hide Pull.Merged, Pull.Covered, Pull.Applied, Pull.Valid;
    NothingMerged(u);
  }

  /** Nodes of one depth are in level order. */
  lemma StartOrder(work: seq<Node>)
    requires AtLeaf(work, 0)
    ensures LevelOrder(work)
  {
  }

  lemma {:induction false} RootsOnTop(ours: Forest, theirs: Forest, es: seq<u32>)
    ensures AtLeaf(EnteredRoots(ours, theirs, es), 0)
    decreases |es|
  {
    hide Pulled;
    if es != [] { RootsOnTop(ours, theirs, es[..|es| - 1]); }
  }

  /** Above the leaves nothing has been fetched, so ours is still the forest the descent started from. */
  lemma ProgressAbove(u: Pull, work: seq<Node>, fetched: seq<LeafCell>, stats: SyncStats, v: Value)
    requires u.Valid() && Progress(u, work, fetched, stats, v) && work != [] && work[0].depth != u.leaf
    ensures fetched == [] && v == u.start
    ensures work[0].depth % 3 == 0 && IsDepth(work[0].depth) && IsDepth(work[0].depth + 3)
    ensures work[0].depth + 3 <= u.leaf <= 63 && IsPrefix(work[0].prefix, work[0].depth)
  {
    hide Pull.Merged, Pull.All, Pull.Stats, LeavesOf, PrefixAt;
    NextDepth(work[0].depth, u.leaf);
  }

  lemma ProgressChildren(u: Pull, work: seq<Node>, fetched: seq<LeafCell>, stats: SyncStats, v: Value)
    requires u.Valid() && Progress(u, work, fetched, stats, v) && work != [] && work[0].depth != u.leaf
             && work[0].depth + 3 <= u.leaf
    ensures var n := work[0];
            var more := Entered(u.start.forest, u.peer, n.epoch, n.depth, n.prefix, 8);
            && Progress(u, work[1..] + more, fetched, stats, v)
            && NodesOk(work, u.leaf) && NodesOk(work[1..] + more, u.leaf)
            && Weight(work[1..] + more, u.leaf) < Weight(work, u.leaf)
  {
    hide Pull.Merged, Pull.All, Pull.Stats, PrefixAt, Pull.Covered, Entered, LeavesUnder, LeavesOf, Pull.Valid;
    var ours, n := u.start.forest, work[0];
    var more := Entered(ours, u.peer, n.epoch, n.depth, n.prefix, 8);
    assert NodeOk(n, u.leaf) && n.depth < u.leaf;
    NodeLeaves(ours, u.peer, n, u.leaf);
    LeavesSplit(ours, u.peer, work, u.leaf);
    LeavesAppend(ours, u.peer, work[1..], more, u.leaf);
    EnteredFew(ours, u.peer, n.epoch, n.depth, n.prefix, 8);
    EnteredLighter(ours, u.peer, n, u.leaf);
    WeightAppend(work[1..], more, u.leaf);
    hide NodeOk, Weight;
    ProgressLevels(work, more);
    Rotate(fetched, LeavesUnder(ours, u.peer, n, u.leaf), LeavesOf(ours, u.peer, work[1..], u.leaf));
  }

  lemma ProgressLevels(work: seq<Node>, more: seq<Node>)
    requires LevelOrder(work) && work != [] && AtLeaf(more, work[0].depth + 3)
    ensures LevelOrder(work[1..] + more)
  {
  }

  lemma Rotate(f: seq<LeafCell>, a: seq<LeafCell>, b: seq<LeafCell>)
    ensures multiset(f + (a + b)) == multiset(f + (b + a))
  {
  }

  lemma ProgressLeaf(u: Pull, work: seq<Node>, fetched: seq<LeafCell>, stats: SyncStats, v: Value)
    requires u.Valid() && Progress(u, work, fetched, stats, v) && work != [] && work[0].depth == u.leaf
    ensures var l := (work[0].epoch, work[0].prefix);
            && l !in fetched && IsPrefix(l.1, u.leaf)
            && NodesOk(work, u.leaf) && NodesOk(work[1..], u.leaf) && Weight(work[1..], u.leaf) < Weight(work, u.leaf)
            && multiset((fetched + [l]) + LeavesOf(u.start.forest, u.peer, work[1..], u.leaf)) == multiset(u.All())
            && LevelOrder(work[1..]) && AtLeaf(work[1..], u.leaf)
  {
    hide Pull.Merged, Pull.Stats, PrefixAt, Pull.Covered, LeavesUnder, LeavesOf, Plan;
    var ours, l := u.start.forest, (work[0].epoch, work[0].prefix);
    LeafNode(ours, u.peer, work[0], u.leaf);
    LeavesSplit(ours, u.peer, work, u.leaf);
    var rest := LeavesOf(ours, u.peer, work[1..], u.leaf);
    Regroup(fetched, l, rest);
    PlanUnrepeated(ours, u.peer, u.leaf, SortedEpochs(u.peer.trees.Keys));
    OnceOnly(u.All(), fetched, l, rest);
  }

  lemma Regroup(f: seq<LeafCell>, l: LeafCell, rest: seq<LeafCell>)
    ensures (f + [l]) + rest == f + ([l] + rest)
  {
  }

  lemma {:induction false} UnrepeatedCounts(s: seq<LeafCell>, x: LeafCell)
    requires Unrepeated(s)
    ensures multiset(s)[x] <= 1
    decreases |s|
  {
    if s != [] {
      var n := |s| - 1;
      assert s == s[..n] + [s[n]];
      UnrepeatedCounts(s[..n], x);
      if x == s[n] { assert x !in s[..n]; }
    }
  }

  lemma OnceOnly(all: seq<LeafCell>, f: seq<LeafCell>, l: LeafCell, rest: seq<LeafCell>)
    requires Unrepeated(all) && multiset((f + [l]) + rest) == multiset(all)
    ensures l !in f
  {
    UnrepeatedCounts(all, l);
    assert multiset((f + [l]) + rest)[l] == multiset(f)[l] + 1 + multiset(rest)[l];
    assert l in f <==> l in multiset(f);
  }

  lemma CountsUnrepeated(s: seq<LeafCell>)
    requires forall x :: multiset(s)[x] <= 1
    ensures Unrepeated(s)
  {
    forall i, j | 0 <= i < j < |s| ensures s[i] != s[j] {
      assert s == s[..i] + [s[i]] + s[i + 1..j] + [s[j]] + s[j + 1..];
      assert multiset(s)
             == multiset(s[..i]) + multiset{s[i]} + multiset(s[i + 1..j]) + multiset{s[j]} + multiset(s[j + 1..]);
      assert multiset(s)[s[i]] >= 1 + multiset{s[j]}[s[i]];
    }
  }

  /** When the list is empty the leaves fetched are the wanted ones, each once. */
  lemma ProgressEnd(u: Pull, fetched: seq<LeafCell>, stats: SyncStats, v: Value)
    requires u.Valid() && Progress(u, [], fetched, stats, v)
    ensures Unrepeated(fetched)
    ensures forall l :: l in fetched <==> Wanted(u.start.forest, u.peer, u.leaf, l)
  {
    hide Pull.Merged, Pull.Stats, Pull.Covered, Plan, Wanted, Forest.Valid, SortedEpochs;
    var all := u.All();
    assert fetched + [] == fetched;
    assert multiset(fetched) == multiset(all);
    PlanUnrepeated(u.start.forest, u.peer, u.leaf, SortedEpochs(u.peer.trees.Keys));
    forall x { UnrepeatedCounts(all, x); }
    CountsUnrepeated(fetched);
    forall l ensures l in fetched <==> Wanted(u.start.forest, u.peer, u.leaf, l) {
      assert l in fetched <==> l in multiset(fetched);
      assert l in all <==> l in multiset(all);
      PlanExact(u.start.forest, u.peer, u.leaf, SortedEpochs(u.peer.trees.Keys), l);
      WantedHasTree(u.start.forest, u.peer, u.leaf, l);
    }
  }

  /** Part of the plan is wanted. */
  lemma PartWanted(u: Pull, part: seq<LeafCell>, rest: seq<LeafCell>, l: LeafCell)
    requires u.Valid() && multiset(part + rest) == multiset(u.All()) && l in part
    ensures Wanted(u.start.forest, u.peer, u.leaf, l)
  {
    hide Plan, Wanted, Forest.Valid, Sane, SortedEpochs;
    assert l in multiset(part + rest) && l in u.All();
    PlanExact(u.start.forest, u.peer, u.leaf, SortedEpochs(u.peer.trees.Keys), l);
  }

  /** Whatever was offered of the leaf at hand, no row outside the plan was. */
  lemma OfferedWanted(u: Pull, fetched: seq<LeafCell>, l: LeafCell, rest: seq<LeafCell>, got: set<Key>)
    requires u.Valid() && multiset((fetched + [l]) + rest) == multiset(u.All()) && got <= CellKeys(u, l)
    ensures u.WantedOnly(u.Covered(fetched) + got)
  {
    hide Pull.All, PrefixAt, Wanted, Forest.Valid, Sane;
    forall k | k in u.Covered(fetched) + got
      ensures k in u.rows && Wanted(u.start.forest, u.peer, u.leaf, (k.epoch, PrefixAt(k.morton, u.leaf)))
    {
      PartWanted(u, fetched + [l], rest, (k.epoch, PrefixAt(k.morton, u.leaf)));
    }
  }

  /** Only epochs the peer has a tree for are wanted. */
  lemma WantedHasTree(ours: Forest, theirs: Forest, leaf: nat, l: LeafCell)
    requires leaf <= 63
    ensures Wanted(ours, theirs, leaf, l) ==> l.0 in SortedEpochs(theirs.trees.Keys)
  {
    if l.0 !in theirs.trees { Diff.AbsentEpoch(theirs, l.0); }
  }
}
