/** What one pull asks for: the cells its worklist visits and the leaves it fetches. */
module PullPlan {
  import opened Words
  import opened Keys
  import opened Folds
  import opened Forests
  import opened Sorting
  import opened Merkle
  import opened Descent
  import opened Diff

  /** A cell on the worklist. */
  datatype Node = Node(epoch: u32, depth: nat, prefix: u64)

  type LeafCell = (u32, u64)

  /** The peer's hash of the cell is not zero and not ours. */
  ghost predicate Pulled(ours: Forest, theirs: Forest, e: u32, d: nat, p: u64)
    requires d <= 64
  {
    theirs.Hash(e, d, p) != 0 && theirs.Hash(e, d, p) != ours.Hash(e, d, p)
  }

  ghost function PullTest(ours: Forest, theirs: Forest, e: u32): Test
  {
    (d: nat, p: u64) => d <= 64 && Pulled(ours, theirs, e, d, p)
  }

  // -------------------------------------------------------------------------
  // Leaves still to come
  // -------------------------------------------------------------------------

  function Tagged(e: u32, qs: seq<u64>): seq<LeafCell>
  {
    seq(|qs|, i requires 0 <= i < |qs| => (e, qs[i]))
  }

  predicate NodeOk(n: Node, leaf: nat)
  {
    n.depth <= leaf <= 63 && IsDepth(n.depth) && IsDepth(leaf) && IsPrefix(n.prefix, n.depth)
      && (n.depth == 0 ==> n.prefix == 0)
  }

  predicate NodesOk(work: seq<Node>, leaf: nat)
  {
    forall i :: 0 <= i < |work| ==> NodeOk(work[i], leaf)
  }

  /** Leaves the descent from a node will fetch. */
  ghost function LeavesUnder(ours: Forest, theirs: Forest, n: Node, leaf: nat): seq<LeafCell>
    requires NodeOk(n, leaf)
  {
    Tagged(n.epoch, Cells(PullTest(ours, theirs, n.epoch), n.depth, n.prefix, leaf))
  }

  ghost function LeavesOf(ours: Forest, theirs: Forest, work: seq<Node>, leaf: nat): seq<LeafCell>
    requires NodesOk(work, leaf)
  {
    if work == [] then [] else
      LeavesOf(ours, theirs, work[..|work| - 1], leaf) + LeavesUnder(ours, theirs, work[|work| - 1], leaf)
  }

  lemma {:induction false} LeavesAppend(ours: Forest, theirs: Forest, xs: seq<Node>, ys: seq<Node>, leaf: nat)
    requires NodesOk(xs, leaf) && NodesOk(ys, leaf)
    ensures NodesOk(xs + ys, leaf)
    ensures LeavesOf(ours, theirs, xs + ys, leaf) == LeavesOf(ours, theirs, xs, leaf) + LeavesOf(ours, theirs, ys, leaf)
    decreases |ys|
  {
    hide LeavesUnder, NodeOk;
    if ys == [] {
      assert xs + ys == xs;
    } else {
      var n := |ys| - 1;
      assert (xs + ys)[..|xs| + n] == xs + ys[..n];
      LeavesAppend(ours, theirs, xs, ys[..n], leaf);
    }
  }

  lemma LeavesOfOne(ours: Forest, theirs: Forest, n: Node, leaf: nat)
    requires NodeOk(n, leaf)
    ensures NodesOk([n], leaf) && LeavesOf(ours, theirs, [n], leaf) == LeavesUnder(ours, theirs, n, leaf)
  {
    hide LeavesUnder, NodeOk;
    assert [n][..0] == [];
  }

  /** Taking the first node off the list. */
  lemma LeavesSplit(ours: Forest, theirs: Forest, work: seq<Node>, leaf: nat)
    requires NodesOk(work, leaf) && work != []
    ensures NodesOk(work[1..], leaf)
    ensures LeavesOf(ours, theirs, work, leaf)
            == LeavesUnder(ours, theirs, work[0], leaf) + LeavesOf(ours, theirs, work[1..], leaf)
  {
    hide LeavesUnder, NodeOk, LeavesOf;
    LeavesOfOne(ours, theirs, work[0], leaf);
    LeavesAppend(ours, theirs, [work[0]], work[1..], leaf);
    assert work == [work[0]] + work[1..];
  }

  // -------------------------------------------------------------------------
  // What goes on the list
  // -------------------------------------------------------------------------

  /** The children, among the first `n` replied, that the puller enters. */
  ghost function Entered(ours: Forest, theirs: Forest, e: u32, d: nat, p: u64, n: nat): seq<Node>
    requires d + 3 <= 63 && n <= 8
  {
    if n == 0 then []
    else
      var q := ChildPrefix(p, d, n - 1);
      Entered(ours, theirs, e, d, p, n - 1) + if Pulled(ours, theirs, e, d + 3, q) then [Node(e, d + 3, q)] else []
  }

  lemma TaggedAppend(e: u32, xs: seq<u64>, ys: seq<u64>)
    ensures Tagged(e, xs + ys) == Tagged(e, xs) + Tagged(e, ys)
  {
  }

  /** Replacing a node by its entered children loses and adds no leaf. */
  lemma {:induction false} EnteredLeaves(ours: Forest, theirs: Forest, e: u32, d: nat, p: u64, leaf: nat, n: nat)
    requires NodeOk(Node(e, d, p), leaf) && d < leaf && d + 3 <= leaf && n <= 8
    ensures NodesOk(Entered(ours, theirs, e, d, p, n), leaf)
    ensures LeavesOf(ours, theirs, Entered(ours, theirs, e, d, p, n), leaf)
            == Tagged(e, ChildCells(PullTest(ours, theirs, e), d, p, leaf, n))
    decreases n
  {
    hide ChildPrefix, PrefixAt, Pulled, Cells, Tagged;
    TaggedNone(e);
    if n > 0 {
      var t := PullTest(ours, theirs, e);
      var q := ChildPrefix(p, d, n - 1);
      EnteredLeaves(ours, theirs, e, d, p, leaf, n - 1);
      ChildPrefixIsPrefix(p, d, n - 1);
      TaggedAppend(e, ChildCells(t, d, p, leaf, n - 1), ChildPart(t, d, p, leaf, n - 1));
      EnteredChild(ours, theirs, e, d, p, leaf, n - 1);
      if Pulled(ours, theirs, e, d + 3, q) {
        LeavesOfOne(ours, theirs, Node(e, d + 3, q), leaf);
        LeavesAppend(ours, theirs, Entered(ours, theirs, e, d, p, n - 1), [Node(e, d + 3, q)], leaf);
      } else {
        assert Entered(ours, theirs, e, d, p, n) == Entered(ours, theirs, e, d, p, n - 1);
      }
    }
  }

  lemma TaggedNone(e: u32)
    ensures Tagged(e, []) == []
  {
  }

  lemma EnteredChild(ours: Forest, theirs: Forest, e: u32, d: nat, p: u64, leaf: nat, c: nat)
    requires NodeOk(Node(e, d, p), leaf) && d < leaf && d + 3 <= leaf && c < 8
    ensures var q := ChildPrefix(p, d, c);
            && NodeOk(Node(e, d + 3, q), leaf)
            && ChildPart(PullTest(ours, theirs, e), d, p, leaf, c)
               == if Pulled(ours, theirs, e, d + 3, q) then Cells(PullTest(ours, theirs, e), d + 3, q, leaf) else []
  {
    hide ChildPrefix, PrefixAt, Pulled, Cells;
    ChildPrefixIsPrefix(p, d, c);
    NextDepth(d, leaf);
  }

  lemma NodeLeaves(ours: Forest, theirs: Forest, n: Node, leaf: nat)
    requires NodeOk(n, leaf) && n.depth < leaf
    ensures n.depth + 3 <= leaf
    ensures var es := Entered(ours, theirs, n.epoch, n.depth, n.prefix, 8);
            NodesOk(es, leaf) && LeavesOf(ours, theirs, es, leaf) == LeavesUnder(ours, theirs, n, leaf)
  {
    hide LeavesOf, Entered, Pulled, PrefixAt;
    NextDepth(n.depth, leaf);
    EnteredLeaves(ours, theirs, n.epoch, n.depth, n.prefix, leaf, 8);
  }

  lemma LeafNode(ours: Forest, theirs: Forest, n: Node, leaf: nat)
    requires NodeOk(n, leaf) && n.depth == leaf
    ensures LeavesUnder(ours, theirs, n, leaf) == [(n.epoch, n.prefix)]
  {
  }

  /** The epochs among `es` whose roots the puller enters. */
  ghost function EnteredRoots(ours: Forest, theirs: Forest, es: seq<u32>): seq<Node>
  {
    if es == [] then []
    else
      var e := es[|es| - 1];
      EnteredRoots(ours, theirs, es[..|es| - 1]) + if Pulled(ours, theirs, e, 0, 0) then [Node(e, 0, 0)] else []
  }

  // -------------------------------------------------------------------------
  // The leaves a whole pull fetches
  // -------------------------------------------------------------------------

  /** A leaf whose cell, at every depth, has a peer hash that is not zero and not ours. */
  ghost predicate Wanted(ours: Forest, theirs: Forest, leaf: nat, l: LeafCell)
    requires leaf <= 63
  {
    Pulled(ours, theirs, l.0, 0, 0) && Below(PullTest(ours, theirs, l.0), 0, 0, leaf, l.1)
  }

  /** All leaves of a pull, in descent order. */
  ghost function Plan(ours: Forest, theirs: Forest, leaf: nat, es: seq<u32>): seq<LeafCell>
    requires leaf <= 63 && IsDepth(leaf)
  {
    if es == [] then []
    else
      var e := es[|es| - 1];
      Plan(ours, theirs, leaf, es[..|es| - 1])
      + if Pulled(ours, theirs, e, 0, 0) then Tagged(e, Cells(PullTest(ours, theirs, e), 0, 0, leaf)) else []
  }

  lemma {:induction false} RootLeaves(ours: Forest, theirs: Forest, leaf: nat, es: seq<u32>)
    requires leaf <= 63 && IsDepth(leaf)
    ensures NodesOk(EnteredRoots(ours, theirs, es), leaf)
    ensures LeavesOf(ours, theirs, EnteredRoots(ours, theirs, es), leaf) == Plan(ours, theirs, leaf, es)
    decreases |es|
  {
    hide Pulled, Cells, Tagged, PrefixAt;
    if es != [] {
      var n := |es| - 1;
      var e := es[n];
      RootLeaves(ours, theirs, leaf, es[..n]);
      RootPrefix(0);
      if Pulled(ours, theirs, e, 0, 0) {
        LeavesOfOne(ours, theirs, Node(e, 0, 0), leaf);
        LeavesAppend(ours, theirs, EnteredRoots(ours, theirs, es[..n]), [Node(e, 0, 0)], leaf);
      } else {
        assert EnteredRoots(ours, theirs, es) == EnteredRoots(ours, theirs, es[..n]);
      }
    }
  }

  lemma TaggedIn(e: u32, qs: seq<u64>, l: LeafCell)
    ensures l in Tagged(e, qs) <==> l.0 == e && l.1 in qs
  {
    if l.0 == e && l.1 in qs {
      var i :| 0 <= i < |qs| && qs[i] == l.1;
      assert Tagged(e, qs)[i] == l;
    }
  }

  lemma {:induction false} PlanExact(ours: Forest, theirs: Forest, leaf: nat, es: seq<u32>, l: LeafCell)
    requires leaf <= 63 && IsDepth(leaf)
    ensures l in Plan(ours, theirs, leaf, es) <==> l.0 in es && Wanted(ours, theirs, leaf, l)
    decreases |es|
  {
    hide Pulled, Cells, Tagged, PrefixAt, Below;
    if es != [] {
      var n := |es| - 1;
      var e := es[n];
      assert es == es[..n] + [e];
      PlanExact(ours, theirs, leaf, es[..n], l);
      RootPrefix(0);
      CellsExact(PullTest(ours, theirs, e), 0, 0, leaf, l.1);
      TaggedIn(e, Cells(PullTest(ours, theirs, e), 0, 0, leaf), l);
    }
  }

  ghost predicate Unrepeated(ls: seq<LeafCell>)
  {
    forall i, j :: 0 <= i < j < |ls| ==> ls[i] != ls[j]
  }

  /** No leaf is planned twice. */
  lemma {:induction false} PlanUnrepeated(ours: Forest, theirs: Forest, leaf: nat, es: seq<u32>)
    requires leaf <= 63 && IsDepth(leaf) && Ascending(es)
    ensures Unrepeated(Plan(ours, theirs, leaf, es))
    decreases |es|
  {
    hide Pulled, Cells, PrefixAt, Below;
    if es != [] {
      var n := |es| - 1;
      var e := es[n];
      PlanUnrepeated(ours, theirs, leaf, es[..n]);
      RootPrefix(0);
      CellsAscend(PullTest(ours, theirs, e), 0, 0, leaf);
      forall l | l in Plan(ours, theirs, leaf, es[..n]) ensures l.0 < e {
        PlanExact(ours, theirs, leaf, es[..n], l);
        var j :| 0 <= j < n && es[j] == l.0;
      }
      hide Plan;
    }
  }

  /** The leaves a pull fetches are the divergent leaves under which the peer has something at every level. */
  lemma WantedIsDivergent(ours: Forest, theirs: Forest, leaf: nat, l: LeafCell)
    requires ours.Valid() && theirs.Valid() && leaf == Min(ours.depth, theirs.depth)
    ensures Wanted(ours, theirs, leaf, l)
            <==> LeafAt(l.0, leaf, l.1) in DiffOf(ours, theirs)
                 && forall d :: 0 <= d <= leaf && d % 3 == 0 ==> theirs.Hash(l.0, d, PrefixAt(l.1, d)) != 0
  {
    hide Forest.Hash, PrefixAt, DiffOf, LeafKeyRange;
    var e, q := l.0, l.1;
    DiffExact(ours, theirs, LeafAt(e, leaf, q));
    RootPrefix(q);
    if Wanted(ours, theirs, leaf, l) {
      forall d | 0 <= d <= leaf && d % 3 == 0 ensures Pulled(ours, theirs, e, d, PrefixAt(q, d)) {}
      forall d | 0 < d <= leaf && d % 3 == 0 ensures DifferTest(ours, theirs, e)(d, PrefixAt(q, d)) {
        assert Pulled(ours, theirs, e, d, PrefixAt(q, d));
      }
    }
    if Divergent(ours, theirs, e, leaf, q)
       && forall d :: 0 <= d <= leaf && d % 3 == 0 ==> theirs.Hash(e, d, PrefixAt(q, d)) != 0 {
      forall d | 0 < d <= leaf && d % 3 == 0 ensures PullTest(ours, theirs, e)(d, PrefixAt(q, d)) {
        assert DifferTest(ours, theirs, e)(d, PrefixAt(q, d));
      }
    }
  }

  // -------------------------------------------------------------------------
  // The list gets shorter
  // -------------------------------------------------------------------------

  function Nine(n: nat): (w: nat)
    ensures w > 0
  {
    if n == 0 then 1 else 9 * Nine(n - 1)
  }

  function Weight(work: seq<Node>, leaf: nat): nat
    requires NodesOk(work, leaf)
  {
    if work == [] then 0 else Nine((leaf - work[0].depth) / 3) + Weight(work[1..], leaf)
  }

  lemma {:induction false} WeightAppend(xs: seq<Node>, ys: seq<Node>, leaf: nat)
    requires NodesOk(xs, leaf) && NodesOk(ys, leaf)
    ensures NodesOk(xs + ys, leaf) && Weight(xs + ys, leaf) == Weight(xs, leaf) + Weight(ys, leaf)
    decreases |xs|
  {
    hide NodeOk, Nine;
    if xs == [] {
      assert xs + ys == ys;
    } else {
      assert (xs + ys)[1..] == xs[1..] + ys;
      WeightAppend(xs[1..], ys, leaf);
    }
  }

  /** Nodes of one depth weigh their number times the weight of that depth. */
  lemma {:induction false} WeightOfLevel(xs: seq<Node>, leaf: nat, d: nat)
    requires NodesOk(xs, leaf) && d <= leaf && forall i :: 0 <= i < |xs| ==> xs[i].depth == d
    ensures Weight(xs, leaf) == |xs| * Nine((leaf - d) / 3)
    decreases |xs|
  {
    hide NodeOk, Nine;
    if xs != [] {
      WeightOfLevel(xs[1..], leaf, d);
      Distribute(|xs| - 1, 1, Nine((leaf - d) / 3));
    }
  }

  lemma {:induction false} EnteredFew(ours: Forest, theirs: Forest, e: u32, d: nat, p: u64, n: nat)
    requires d + 3 <= 63 && n <= 8
    ensures var es := Entered(ours, theirs, e, d, p, n);
            |es| <= n && forall i :: 0 <= i < |es| ==> es[i].depth == d + 3
    decreases n
  {
    hide Pulled, ChildPrefix;
    if n > 0 { EnteredFew(ours, theirs, e, d, p, n - 1); }
  }

  /** At most eight children weigh less than their parent. */
  lemma EnteredLighter(ours: Forest, theirs: Forest, n: Node, leaf: nat)
    requires NodeOk(n, leaf) && n.depth < leaf && n.depth + 3 <= leaf
    requires NodesOk(Entered(ours, theirs, n.epoch, n.depth, n.prefix, 8), leaf)
    ensures Weight(Entered(ours, theirs, n.epoch, n.depth, n.prefix, 8), leaf) < Nine((leaf - n.depth) / 3)
  {
    hide Entered, Weight, PrefixAt;
    var es := Entered(ours, theirs, n.epoch, n.depth, n.prefix, 8);
    EnteredFew(ours, theirs, n.epoch, n.depth, n.prefix, 8);
    WeightOfLevel(es, leaf, n.depth + 3);
    Levels(leaf, n.depth);
    EightOfNine(|es|, Nine((leaf - n.depth - 3) / 3));
  }

  lemma Levels(leaf: nat, d: nat)
    requires d + 3 <= leaf
    ensures Nine((leaf - d) / 3) == 9 * Nine((leaf - d - 3) / 3)
  {
    assert (leaf - d) / 3 == (leaf - d - 3) / 3 + 1;
  }

  lemma EightOfNine(n: nat, w: nat)
    requires n <= 8 && w > 0
    ensures n * w < 9 * w
  {
    MulMono(n, 8, w);
  }
}
