/** Merging rows: a join that keeps, at each key, the payload with the larger digest. */
module Joins {
  import opened Words
  import opened Keys
  import opened Forests
  import opened Merkle
  import opened Disk
  import opened SealProtocol
  import opened StoreState

  /** What one merged row makes of the rows held. */
  function Merge(rows: Rows, k: Key, p: Payload): Rows
  {
    if Wins(rows, k, p) then rows[k := p] else rows
  }

  /** `a` with the rows of `b` at the keys in `s` merged in. */
  function JoinOn(a: Rows, b: Rows, s: set<Key>): Rows
  {
    map k | k in a.Keys + b.Keys * s :: if k in b && k in s && Wins(a, k, b[k]) then b[k] else a[k]
  }

  function Join(a: Rows, b: Rows): Rows
  {
    JoinOn(a, b, b.Keys)
  }

  /** `a` holds every key of `b`, with at least as large a digest. */
  predicate Dominates(a: Rows, b: Rows)
  {
    forall k :: k in b ==> k in a && ItemDigest(k, a[k]) >= ItemDigest(k, b[k])
  }

  /** At no key do the two sides hold different payloads with one digest. */
  predicate NoTies(a: Rows, b: Rows)
  {
    forall k :: k in a && k in b && ItemDigest(k, a[k]) == ItemDigest(k, b[k]) ==> a[k] == b[k]
  }

  /** Merging one more row of `b`. */
  lemma MergeExtendsJoin(a: Rows, b: Rows, done: set<Key>, k: Key)
    requires k in b && k !in done
    ensures Merge(JoinOn(a, b, done), k, b[k]) == JoinOn(a, b, done + {k})
    ensures Wins(JoinOn(a, b, done), k, b[k]) <==> Wins(a, k, b[k])
  {
  }

  lemma JoinNothing(a: Rows, b: Rows)
    ensures JoinOn(a, b, {}) == a
  {
  }

  /** The join has the keys of both sides and at each key the payload of larger digest; on a tie ours stays. */
  lemma JoinIsLarger(a: Rows, b: Rows, k: Key)
    ensures k in Join(a, b) <==> k in a || k in b
    ensures k in Join(a, b) ==> (k in a && Join(a, b)[k] == a[k]) || (k in b && Join(a, b)[k] == b[k])
    ensures k in a ==> ItemDigest(k, Join(a, b)[k]) >= ItemDigest(k, a[k])
    ensures k in b ==> ItemDigest(k, Join(a, b)[k]) >= ItemDigest(k, b[k])
    ensures k in a && k in b && ItemDigest(k, a[k]) == ItemDigest(k, b[k]) ==> Join(a, b)[k] == a[k]
  {
  }

  /** A merge, whole or partial, never goes back. */
  lemma JoinRises(a: Rows, b: Rows, s: set<Key>)
    ensures Dominates(JoinOn(a, b, s), a)
    ensures Dominates(Join(a, b), b)
  {
  }

  lemma DominatesTransitive(a: Rows, b: Rows, c: Rows)
    requires Dominates(a, b) && Dominates(b, c)
    ensures Dominates(a, c)
  {
  }

  /** Rows that dominate each other are the same rows. */
  lemma DominatesAntisymmetric(a: Rows, b: Rows)
    requires Dominates(a, b) && Dominates(b, a) && NoTies(a, b)
    ensures a == b
  {
    assert a.Keys == b.Keys;
    forall k | k in a ensures a[k] == b[k] {
      assert ItemDigest(k, a[k]) == ItemDigest(k, b[k]);
    }
  }

  /** The join is the least rows above both sides. */
  lemma JoinIsLeast(a: Rows, b: Rows, c: Rows)
    requires Dominates(c, a) && Dominates(c, b)
    ensures Dominates(c, Join(a, b))
  {
    forall k | k in Join(a, b) ensures k in c && ItemDigest(k, c[k]) >= ItemDigest(k, Join(a, b)[k]) {
      JoinIsLarger(a, b, k);
    }
  }

  lemma JoinCommutes(a: Rows, b: Rows)
    requires NoTies(a, b)
    ensures Join(a, b) == Join(b, a)
  {
  }

  /** Pulling back what was joined changes nothing more. */
  lemma JoinAbsorbs(a: Rows, b: Rows)
    requires NoTies(a, b)
    ensures Join(b, Join(a, b)) == Join(a, b)
  {
  }

  // -------------------------------------------------------------------------
  // Deliveries in any order
  // -------------------------------------------------------------------------

  function MergeAll(rows: Rows, items: seq<(Key, Payload)>): Rows
  {
    if items == [] then rows
    else
      var n := |items| - 1;
      Merge(MergeAll(rows, items[..n]), items[n].0, items[n].1)
  }

  /** A row a delivery starts with or brings. */
  predicate Supplied(rows: Rows, items: seq<(Key, Payload)>, k: Key, p: Payload)
  {
    (k in rows && rows[k] == p) || (k, p) in items
  }

  ghost predicate NoTiesAmong(rows: Rows, items: seq<(Key, Payload)>)
  {
    forall k, p, p' :: Supplied(rows, items, k, p) && Supplied(rows, items, k, p')
      && ItemDigest(k, p) == ItemDigest(k, p')
      ==> p == p'
  }

  lemma {:induction false} MergeAllSupplied(rows: Rows, items: seq<(Key, Payload)>, k: Key)
    ensures k in MergeAll(rows, items) ==> Supplied(rows, items, k, MergeAll(rows, items)[k])
    decreases |items|
  {
    if items != [] {
      var n := |items| - 1;
      assert items == items[..n] + [items[n]];
      MergeAllSupplied(rows, items[..n], k);
    }
  }

  lemma {:induction false} MergeAllAbove(rows: Rows, items: seq<(Key, Payload)>, k: Key, p: Payload)
    requires Supplied(rows, items, k, p)
    ensures k in MergeAll(rows, items) && ItemDigest(k, MergeAll(rows, items)[k]) >= ItemDigest(k, p)
    decreases |items|
  {
    if items != [] {
      var n := |items| - 1;
      assert items == items[..n] + [items[n]];
      if Supplied(rows, items[..n], k, p) { MergeAllAbove(rows, items[..n], k, p); }
    }
  }

  lemma MergeAllDominates(rows: Rows, s: seq<(Key, Payload)>, t: seq<(Key, Payload)>)
    requires forall i :: i in t ==> i in s
    ensures Dominates(MergeAll(rows, s), MergeAll(rows, t))
  {
    hide MergeAll;
    forall k | k in MergeAll(rows, t)
      ensures k in MergeAll(rows, s) && ItemDigest(k, MergeAll(rows, s)[k]) >= ItemDigest(k, MergeAll(rows, t)[k])
    {
      MergeAllSupplied(rows, t, k);
      MergeAllAbove(rows, s, k, MergeAll(rows, t)[k]);
    }
  }

  /** Deliveries of the same rows, in any order and with any repeats, end in the same rows. */
  lemma MergeOrder(rows: Rows, s: seq<(Key, Payload)>, t: seq<(Key, Payload)>)
    requires (forall i :: i in s <==> i in t) && NoTiesAmong(rows, s)
    ensures MergeAll(rows, s) == MergeAll(rows, t)
  {
    hide MergeAll;
    MergeAllDominates(rows, s, t);
    MergeAllDominates(rows, t, s);
    forall k | k in MergeAll(rows, s) && k in MergeAll(rows, t)
      ensures Supplied(rows, s, k, MergeAll(rows, s)[k]) && Supplied(rows, s, k, MergeAll(rows, t)[k])
    {
      MergeAllSupplied(rows, s, k);
      MergeAllSupplied(rows, t, k);
    }
    assert NoTies(MergeAll(rows, s), MergeAll(rows, t)) by { hide Supplied; }
    DominatesAntisymmetric(MergeAll(rows, s), MergeAll(rows, t));
  }

  // -------------------------------------------------------------------------
  // The same for the whole store
  // -------------------------------------------------------------------------

  /** `ingest` of each row in turn, no commit failing. */
  function IngestAll(v: Value, items: seq<(Key, Payload)>): (w: Value)
    requires v.forest.depth <= 64
    ensures w.forest.depth == v.forest.depth
  {
    if items == [] then v
    else
      var n := |items| - 1;
      var u := IngestAll(v, items[..n]);
      if Wins(u.disk.rows, items[n].0, items[n].1) then Merged(u, items[n].0, items[n].1) else u
  }

  lemma {:induction false} IngestAllRows(v: Value, items: seq<(Key, Payload)>)
    requires v.forest.depth <= 64
    ensures IngestAll(v, items).disk.rows == MergeAll(v.disk.rows, items)
    decreases |items|
  {
    hide Forest.Insert, Forest.Remove, Wins;
    if items != [] { IngestAllRows(v, items[..|items| - 1]); }
  }

  lemma {:induction false} IngestAllInStep(v: Value, items: seq<(Key, Payload)>)
    requires Sane(v) && Lockstep(v)
    ensures Sane(IngestAll(v, items)) && Lockstep(IngestAll(v, items))
    decreases |items|
  {
    hide Forest.Valid, Lockstep, Wins, Merged;
    if items != [] {
      var n := |items| - 1;
      IngestAllInStep(v, items[..n]);
      MergedSane(IngestAll(v, items[..n]), items[n].0, items[n].1);
      MergeInStep(IngestAll(v, items[..n]), items[n].0, items[n].1);
    }
  }

  /** Epochs with a tree: those there were, and those of the rows. */
  lemma {:induction false} IngestAllTrees(v: Value, items: seq<(Key, Payload)>)
    requires v.forest.depth <= 64 && EpochsOf(v.disk.rows) <= v.forest.trees.Keys
    ensures var w := IngestAll(v, items);
            w.forest.trees.Keys == v.forest.trees.Keys + EpochsOf(w.disk.rows)
    decreases |items|
  {
    hide Wins, EpochsOf, Toggled;
    if items == [] {
      assert v.forest.trees.Keys == v.forest.trees.Keys + EpochsOf(v.disk.rows);
    } else {
      var n := |items| - 1;
      IngestAllTrees(v, items[..n]);
      MoreEpochs(IngestAll(v, items[..n]).disk.rows, items[n].0, items[n].1);
    }
  }

  /** In step, every row's epoch has a tree. */
  lemma RowsHaveTrees(v: Value)
    requires Sane(v) && Lockstep(v)
    ensures EpochsOf(v.disk.rows) <= v.forest.trees.Keys
  {
    forall k | k in v.disk.rows ensures k.epoch in v.forest.trees {
      assert k in EpochRows(v.disk.rows, k.epoch);
      assert v.forest.At(k.epoch) == Summarise(v.disk.rows, k.epoch, v.forest.depth);
    }
  }

  /** Two forests in step with the same rows and with trees for the same epochs are the same forest. */
  lemma SameForest(f: Forest, g: Forest, rows: Rows)
    requires Represents(f, rows) && Represents(g, rows) && f.depth == g.depth && f.trees.Keys == g.trees.Keys
    ensures f == g
  {
    hide Summarise, Forest.Valid;
    forall e | e in f.trees ensures f.trees[e] == g.trees[e] {
      assert f.At(e) == g.At(e);
    }
    assert f.trees == g.trees;
  }

  /** Ingesting any two deliveries of the same rows ends in the same rows and the same forest. */
  lemma DeliveryOrder(v: Value, s: seq<(Key, Payload)>, t: seq<(Key, Payload)>)
    requires Sane(v) && Lockstep(v) && (forall i :: i in s <==> i in t) && NoTiesAmong(v.disk.rows, s)
    ensures IngestAll(v, s).disk.rows == IngestAll(v, t).disk.rows
    ensures IngestAll(v, s).forest == IngestAll(v, t).forest
  {
    hide IngestAll, MergeAll, NoTiesAmong, Represents, SealExact, Forest.Valid;
    IngestAllRows(v, s);
    IngestAllRows(v, t);
    MergeOrder(v.disk.rows, s, t);
    RowsHaveTrees(v);
    IngestAllTrees(v, s);
    IngestAllTrees(v, t);
    IngestAllInStep(v, s);
    IngestAllInStep(v, t);
    SameForest(IngestAll(v, s).forest, IngestAll(v, t).forest, IngestAll(v, s).disk.rows);
  }
}
