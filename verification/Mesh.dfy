/** A mesh of any number of nodes under any schedule of fresh local writes and pulls, whole or broken off. */
module Mesh {
  import opened Words
  import opened Keys
  import opened Forests
  import opened Disk
  import opened SealProtocol
  import opened StoreState
  import opened Joins
  import opened PullPlan
  import opened PullProgress
  import opened Sync
  import Convergence

  type NodeId = nat

  type Mesh = map<NodeId, Rows>

  /** `done` are the keys a pull merged before it ended. */
  datatype Event =
    | Wrote(node: NodeId, key: Key, payload: Payload)
    | Pulled(dst: NodeId, src: NodeId, done: set<Key>)

  predicate Enabled(m: Mesh, e: Event)
  {
    match e
    case Wrote(n, k, _) => n in m && k !in m[n]
    case Pulled(d, s, _) => d in m && s in m
  }

  function After(m: Mesh, e: Event): Mesh
    requires Enabled(m, e)
  {
    match e
    case Wrote(n, k, p) => m[n := m[n][k := p]]
    case Pulled(d, s, done) => m[d := JoinOn(m[d], m[s], done)]
  }

  /** A run: the mesh before the first event and after each one. */
  predicate IsRun(run: seq<Mesh>, events: seq<Event>)
  {
    && |run| == |events| + 1
    && forall i :: 0 <= i < |events| ==> Enabled(run[i], events[i]) && run[i + 1] == After(run[i], events[i])
  }

  lemma {:induction false} NodesStay(run: seq<Mesh>, events: seq<Event>, s: nat, t: nat)
    requires IsRun(run, events) && s <= t < |run|
    ensures run[t].Keys == run[s].Keys
    decreases t
  {
    if s < t {
      NodesStay(run, events, s, t - 1);
      assert run[t] == After(run[t - 1], events[t - 1]);
    }
  }

  // -------------------------------------------------------------------------
  // Where rows come from
  // -------------------------------------------------------------------------

  predicate Holds(m: Mesh, n: NodeId, k: Key, p: Payload)
  {
    n in m && k in m[n] && m[n][k] == p
  }

  predicate Writes(e: Event, k: Key, p: Payload)
  {
    e.Wrote? && e.key == k && e.payload == p
  }

  /** A row some node held at time `s`, or one written between `s` and `t`. */
  ghost predicate Source(run: seq<Mesh>, events: seq<Event>, s: nat, t: nat, k: Key, p: Payload)
    requires s < |run| && t <= |events|
  {
    (exists n :: Holds(run[s], n, k, p)) || (exists i :: s <= i < t && Writes(events[i], k, p))
  }

  lemma OneEvent(m: Mesh, e: Event, n: NodeId, k: Key, p: Payload)
    requires Enabled(m, e) && Holds(After(m, e), n, k, p)
    ensures (exists o :: Holds(m, o, k, p)) || Writes(e, k, p)
  {
    match e
    case Wrote(o, l, q) =>
      if o != n || l != k { assert Holds(m, n, k, p); }
    case Pulled(d, s, done) =>
      if !Holds(m, n, k, p) { assert Holds(m, s, k, p); }
  }

  /** Every row held was held or written somewhere before. */
  lemma {:induction false} Provenance(run: seq<Mesh>, events: seq<Event>, s: nat, t: nat, n: NodeId, k: Key, p: Payload)
    requires IsRun(run, events) && s <= t <= |events| && Holds(run[t], n, k, p)
    ensures Source(run, events, s, t, k, p)
    decreases t
  {
    if s < t {
      hide After, Enabled, Holds;
      var m, e := run[t - 1], events[t - 1];
      OneEvent(m, e, n, k, p);
      if o :| Holds(m, o, k, p) {
        Provenance(run, events, s, t - 1, o, k, p);
        EarlierSource(run, events, s, t, k, p);
      } else {
        assert Writes(events[t - 1], k, p);
      }
    } else {
      assert Holds(run[s], n, k, p);
    }
  }

  lemma EarlierSource(run: seq<Mesh>, events: seq<Event>, s: nat, t: nat, k: Key, p: Payload)
    requires s < t <= |events| && s < |run| && Source(run, events, s, t - 1, k, p)
    ensures Source(run, events, s, t, k, p)
  {
    hide Holds, Writes;
  }

  // -------------------------------------------------------------------------
  // Rows only rise
  // -------------------------------------------------------------------------

  lemma DominatesSelf(a: Rows)
    ensures Dominates(a, a)
  {
  }

  lemma EventRises(m: Mesh, e: Event, n: NodeId)
    requires Enabled(m, e) && n in m
    ensures n in After(m, e) && Dominates(After(m, e)[n], m[n])
  {
    if e.Pulled? { JoinRises(m[e.dst], m[e.src], e.done); }
    DominatesSelf(m[n]);
    hide JoinOn;
  }

  /** No node ever drops a key or goes back to a smaller digest. */
  lemma {:induction false} RowsOnlyRise(run: seq<Mesh>, events: seq<Event>, s: nat, t: nat, n: NodeId)
    requires IsRun(run, events) && s <= t < |run| && n in run[s]
    ensures n in run[t] && Dominates(run[t][n], run[s][n])
    decreases t
  {
    hide Dominates, After, Enabled;
    if s < t {
      RowsOnlyRise(run, events, s, t - 1, n);
      EventRises(run[t - 1], events[t - 1], n);
      DominatesTransitive(run[t][n], run[t - 1][n], run[s][n]);
    } else {
      DominatesSelf(run[s][n]);
    }
  }

  // -------------------------------------------------------------------------
  // Chains of pulls
  // -------------------------------------------------------------------------

  /** A pull that left nothing of the peer's out. */
  predicate Whole(m: Mesh, e: Event)
  {
    e.Pulled? && e.dst in m && e.src in m && JoinOn(m[e.dst], m[e.src], e.done) == Join(m[e.dst], m[e.src])
  }

  /** Whole pulls, one after the other, lead from `u` at time `s` to `v` at time `t`. */
  predicate Chain(run: seq<Mesh>, events: seq<Event>, s: nat, u: NodeId, t: nat, v: NodeId)
    requires IsRun(run, events) && s <= t < |run|
    decreases t
  {
    if s == t then u == v
    else
      || Chain(run, events, s, u, t - 1, v)
      || (Whole(run[t - 1], events[t - 1]) && events[t - 1].dst == v
          && Chain(run, events, s, u, t - 1, events[t - 1].src))
  }

  /** At the end of a chain a node is above what the first node held when the chain began. */
  lemma {:induction false} ChainDominates(run: seq<Mesh>, events: seq<Event>, s: nat, u: NodeId, t: nat, v: NodeId)
    requires IsRun(run, events) && s <= t < |run| && u in run[s] && Chain(run, events, s, u, t, v)
    ensures v in run[t] && Dominates(run[t][v], run[s][u])
    decreases t
  {
    hide Dominates, JoinOn;
    if s == t {
      DominatesSelf(run[s][u]);
    } else {
      var m, e := run[t - 1], events[t - 1];
      if Chain(run, events, s, u, t - 1, v) {
        ChainDominates(run, events, s, u, t - 1, v);
        EventRises(m, e, v);
        DominatesTransitive(run[t][v], m[v], run[s][u]);
      } else {
        ChainDominates(run, events, s, u, t - 1, e.src);
        JoinRises(m[v], m[e.src], {});
        DominatesTransitive(run[t][v], m[e.src], run[s][u]);
      }
    }
  }

  lemma {:induction false} ChainStays(run: seq<Mesh>, events: seq<Event>, s: nat, u: NodeId, i: nat, v: NodeId, t: nat)
    requires IsRun(run, events) && s <= i <= t < |run| && Chain(run, events, s, u, i, v)
    ensures Chain(run, events, s, u, t, v)
    decreases t
  {
    hide Whole, IsRun;
    if i < t { ChainStays(run, events, s, u, i, v, t - 1); }
  }

  /** Every node pulls everything from every other node at some point between `s` and `t`. */
  ghost predicate AllPull(run: seq<Mesh>, events: seq<Event>, s: nat, t: nat)
    requires IsRun(run, events) && s <= t < |run|
  {
    forall u, v :: u in run[s] && v in run[s] && u != v ==>
      exists i :: s <= i < t && Whole(run[i], events[i]) && events[i].src == u && events[i].dst == v
  }

  lemma PullIsChain(run: seq<Mesh>, events: seq<Event>, s: nat, u: NodeId, i: nat, v: NodeId, t: nat)
    requires IsRun(run, events) && s <= i < t < |run|
    requires Whole(run[i], events[i]) && events[i].src == u && events[i].dst == v
    ensures Chain(run, events, s, u, t, v)
  {
    hide JoinOn;
    assert Chain(run, events, s, u, s, u);
    ChainStays(run, events, s, u, s, u, i);
    assert Chain(run, events, s, u, i + 1, v);
    ChainStays(run, events, s, u, i + 1, v, t);
  }

  /** It is enough that every node pulls from every other one, in whatever order. */
  lemma AllPullConnects(run: seq<Mesh>, events: seq<Event>, s: nat, t: nat)
    requires IsRun(run, events) && s <= t < |run| && AllPull(run, events, s, t)
    ensures Connected(run, events, s, t)
  {
    hide Chain, JoinOn, Enabled, After;
    forall u, v | u in run[s] && v in run[s] ensures Chain(run, events, s, u, t, v) {
      if u == v {
        SelfChain(run, events, s, u, t);
      } else {
        var i :| s <= i < t && Whole(run[i], events[i]) && events[i].src == u && events[i].dst == v;
        PullIsChain(run, events, s, u, i, v, t);
      }
    }
  }

  lemma SelfChain(run: seq<Mesh>, events: seq<Event>, s: nat, u: NodeId, t: nat)
    requires IsRun(run, events) && s <= t < |run|
    ensures Chain(run, events, s, u, t, u)
  {
    hide Whole, Enabled, After;
    assert Chain(run, events, s, u, s, u);
    ChainStays(run, events, s, u, s, u, t);
  }

  // -------------------------------------------------------------------------
  // Convergence
  // -------------------------------------------------------------------------

  predicate Quiet(events: seq<Event>, s: nat, t: nat)
    requires s <= t <= |events|
  {
    forall i :: s <= i < t ==> !events[i].Wrote?
  }

  /** Chains from every node to every node. */
  ghost predicate Connected(run: seq<Mesh>, events: seq<Event>, s: nat, t: nat)
    requires IsRun(run, events) && s <= t < |run|
  {
    forall u, v :: u in run[s] && v in run[s] ==> Chain(run, events, s, u, t, v)
  }

  /** No two nodes hold different payloads of one digest at one key. */
  ghost predicate NoTiesIn(m: Mesh)
  {
    forall u, v :: u in m && v in m ==> NoTies(m[u], m[v])
  }

  /** Without writes, a row held later was held by some node at the start. */
  lemma QuietSource(run: seq<Mesh>, events: seq<Event>, s: nat, t: nat, v: NodeId, k: Key)
    requires IsRun(run, events) && s <= t <= |events| && Quiet(events, s, t) && v in run[t] && k in run[t][v]
    ensures exists u :: Holds(run[s], u, k, run[t][v][k])
  {
    hide Enabled, After;
    Provenance(run, events, s, t, v, k, run[t][v][k]);
  }

  lemma OneAboveOther(run: seq<Mesh>, events: seq<Event>, s: nat, t: nat, v: NodeId, w: NodeId)
    requires IsRun(run, events) && s <= t <= |events| && Quiet(events, s, t) && Connected(run, events, s, t)
    requires v in run[s] && w in run[t]
    ensures v in run[t] && Dominates(run[t][v], run[t][w])
  {
    hide Enabled, After, Chain, Quiet;
    NodesStay(run, events, s, t);
    forall k | k in run[t][w]
      ensures k in run[t][v] && ItemDigest(k, run[t][v][k]) >= ItemDigest(k, run[t][w][k])
    {
      QuietSource(run, events, s, t, w, k);
      var u :| Holds(run[s], u, k, run[t][w][k]);
      assert Chain(run, events, s, u, t, v);
      ChainDominates(run, events, s, u, t, v);
    }
  }

  /** Once writes stop and chains of whole pulls join all pairs, every node holds the same rows. */
  lemma MeshConverges(run: seq<Mesh>, events: seq<Event>, s: nat, t: nat, v: NodeId, w: NodeId)
    requires IsRun(run, events) && s <= t <= |events| && Quiet(events, s, t) && Connected(run, events, s, t)
    requires NoTiesIn(run[s]) && v in run[t] && w in run[t]
    ensures run[t][v] == run[t][w]
  {
    hide Enabled, After, Chain, Quiet, Connected, Dominates;
    NodesStay(run, events, s, t);
    OneAboveOther(run, events, s, t, v, w);
    OneAboveOther(run, events, s, t, w, v);
    forall k | k in run[t][v] && k in run[t][w] && ItemDigest(k, run[t][v][k]) == ItemDigest(k, run[t][w][k])
      ensures run[t][v][k] == run[t][w][k]
    {
      QuietSource(run, events, s, t, v, k);
      QuietSource(run, events, s, t, w, k);
      var x :| Holds(run[s], x, k, run[t][v][k]);
      var y :| Holds(run[s], y, k, run[t][w][k]);
      assert NoTies(run[s][x], run[s][y]);
    }
    DominatesAntisymmetric(run[t][v], run[t][w]);
  }

  /** ... so forests in step with them, of whatever leaf depths, agree on every node they share. */
  lemma MeshHashesAgree(run: seq<Mesh>, events: seq<Event>, s: nat, t: nat, v: NodeId, w: NodeId, f: Forest, g: Forest,
                        e: u32, d: nat, p: u64)
    requires IsRun(run, events) && s <= t <= |events| && Quiet(events, s, t) && Connected(run, events, s, t)
    requires NoTiesIn(run[s]) && v in run[t] && w in run[t]
    requires Represents(f, run[t][v]) && Represents(g, run[t][w]) && IsDepth(d) && d <= f.depth && d <= g.depth
    ensures f.Hash(e, d, p) == g.Hash(e, d, p) && f.At(e).count == g.At(e).count
  {
    hide Quiet, Connected, NoTiesIn, Forest.Valid, CellHash, LeafPrefixes;
    MeshConverges(run, events, s, t, v, w);
    HashIgnoresDepth(f, g, run[t][v], e, d, p);
  }

  // -------------------------------------------------------------------------
  // The events are what the store does
  // -------------------------------------------------------------------------

  /** A pull round, failed or not, is a pull event; a completed one without collisions is a whole one. */
  lemma RoundIsEvent(m: Mesh, d: NodeId, s: NodeId, u: Pull, ok: bool, stats: SyncStats, fetched: seq<LeafCell>,
                     done: set<Key>,
                     v: Value)
    requires d in m && s in m && u.start.disk.rows == m[d] && u.rows == m[s] && Outcome(u, ok, stats, fetched, done, v)
    ensures Enabled(m, Pulled(d, s, done)) && After(m, Pulled(d, s, done)) == m[d := v.disk.rows]
    ensures ok && Matched(u) ==> Whole(m, Pulled(d, s, done))
  {
    hide Wanted, JoinOn, Convergence.NoCollision, Represents, Pull.Covered, Pull.Stats, Pull.Applied, Forest.Valid,
         SealExact;
    if ok && Matched(u) { Convergence.PullIsJoin(u, fetched); }
  }

  /** Both forests in step with their rows, and no collision at the cells compared. */
  ghost predicate Matched(u: Pull)
    requires u.Valid()
  {
    && Lockstep(u.start) && Represents(u.peer, u.rows)
    && u.leaf <= u.start.forest.depth && u.leaf <= u.peer.depth
    && Convergence.NoCollision(u.start.disk.rows, u.rows, u.leaf)
  }

  /** A local write is a write event. */
  lemma WriteIsEvent(m: Mesh, n: NodeId, v: Value, k: Key, p: Payload)
    requires n in m && m[n] == v.disk.rows && k !in m[n] && v.forest.depth <= 64
    ensures After(m, Wrote(n, k, p)) == m[n := Written(v, [(k, p)]).disk.rows]
  {
    hide InsertAll;
    SinglePut(v.disk.rows, [(k, p)]);
  }
}
