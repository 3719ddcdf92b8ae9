/** The Merkle octree and forest as they are kept: accumulators updated in place, level by level. */
module Merkle {
  import opened Words
  import opened Bytes
  import opened Keys
  import opened Folds
  import opened Forests
  import opened Sorting
  import opened Options
  import opened SealRecords

  function NonZero(level: map<u64, u128>): map<u64, u128>
  {
    map q | q in level && level[q] != 0 :: level[q]
  }

  /** In a canonical leaf map the node at leaf depth is the leaf. */
  lemma LeafIsNode(leaves: map<u64, u128>, depth: nat, q: u64)
    requires depth <= 64 && Canonical(leaves, depth)
    ensures NodeHash(leaves, depth, q) == LeafHash(leaves, q)
  {
    var under := map r | r in leaves && PrefixAt(r, depth) == q :: leaves[r];
    if q in leaves {
      assert under == map[q := leaves[q]];
      XorAllWithout(under, q);
      assert under - {q} == map[];
    } else {
      assert under == map[];
    }
  }

  ghost function TopLeaves(levels: seq<map<u64, u128>>): map<u64, u128>
  {
    if levels == [] then map[] else NonZero(levels[|levels| - 1])
  }

  /** Every accumulator holds the XOR of the leaves under its cell. */
  ghost predicate Consistent(depth: nat, root: u128, levels: seq<map<u64, u128>>)
  {
    && 3 <= depth && IsDepth(depth) && |levels| == depth / 3
    && Canonical(TopLeaves(levels), depth)
    && root == NodeHash(TopLeaves(levels), 0, 0)
    && forall i, p :: 0 <= i < |levels| ==> LeafHash(levels[i], p) == NodeHash(TopLeaves(levels), 3 * (i + 1), p)
  }

  function Bump(level: map<u64, u128>, p: u64, digest: u128): map<u64, u128>
  {
    level[p := XorHash(LeafHash(level, p), digest)]
  }

  ghost predicate Bumped(was: seq<map<u64, u128>>, now: seq<map<u64, u128>>, upTo: nat, morton: u64, digest: u128)
    requires |was| == |now| <= 21
  {
    && (forall j :: 0 <= j < upTo && j < |was| ==> now[j] == Bump(was[j], PrefixAt(morton, 3 * (j + 1)), digest))
    && (forall j :: upTo <= j < |was| ==> now[j] == was[j])
  }

  lemma BumpedLeaves(level: map<u64, u128>, p: u64, digest: u128)
    ensures NonZero(Bump(level, p, digest)) == ToggleLeaf(NonZero(level), p, digest)
  {
    assert LeafHash(NonZero(level), p) == LeafHash(level, p);
  }

  /** One level: a bumped accumulator is the fold of the toggled leaves. */
  lemma BumpedNode(leaves: map<u64, u128>, depth: nat, level: map<u64, u128>, d: nat, morton: u64, digest: u128, p: u64)
    requires d <= depth <= 64
    requires LeafHash(level, p) == NodeHash(leaves, d, p)
    ensures LeafHash(Bump(level, PrefixAt(morton, d), digest), p)
            == NodeHash(ToggleLeaf(leaves, PrefixAt(morton, depth), digest), d, p)
  {
    NodeHashToggle(leaves, PrefixAt(morton, depth), digest, d, p);
    PrefixOfPrefix(morton, d, depth);
    XorComm(LeafHash(level, p), digest);
  }

  lemma BumpedRoot(leaves: map<u64, u128>, q: u64, root: u128, digest: u128)
    requires root == NodeHash(leaves, 0, 0)
    ensures XorHash(root, digest) == NodeHash(ToggleLeaf(leaves, q, digest), 0, 0)
  {
    NodeHashToggle(leaves, q, digest, 0, 0);
    RootPrefix(q);
    XorComm(root, digest);
  }

  lemma ToggleCanonical(leaves: map<u64, u128>, depth: nat, morton: u64, digest: u128)
    requires depth <= 64 && Canonical(leaves, depth)
    ensures Canonical(ToggleLeaf(leaves, PrefixAt(morton, depth), digest), depth)
  {
    PrefixBrackets(morton, depth, PrefixAt(morton, depth));
  }

  /** Folding a digest into one cell per level keeps every level the fold of the leaves. */
  lemma BumpConsistent(depth: nat, root: u128, was: seq<map<u64, u128>>, now: seq<map<u64, u128>>,
                       morton: u64, digest: u128)
    requires Consistent(depth, root, was)
    requires |now| == |was| && Bumped(was, now, |was|, morton, digest)
    ensures Consistent(depth, XorHash(root, digest), now)
    ensures TopLeaves(now) == ToggleLeaf(TopLeaves(was), PrefixAt(morton, depth), digest)
  {
    hide NodeHash, ToggleLeaf, LeafHash, XorHash, NonZero, Canonical;
    var q, n, leaves := PrefixAt(morton, depth), |was| - 1, TopLeaves(was);
    BumpedLeaves(was[n], q, digest);
    ToggleCanonical(leaves, depth, morton, digest);
    BumpedRoot(leaves, q, root, digest);
    forall i, p | 0 <= i < |now|
      ensures LeafHash(now[i], p) == NodeHash(TopLeaves(now), 3 * (i + 1), p)
    {
      BumpedNode(leaves, depth, was[i], 3 * (i + 1), morton, digest, p);
    }
  }

  lemma EmptyHash(d: nat, p: u64)
    requires d <= 64
    ensures NodeHash(map[], d, p) == 0
  {
    var none: map<u64, u128> := map[];
    assert (map q | q in none && PrefixAt(q, d) == p :: none[q]) == map[];
  }

  /** Sparse octree of one epoch: `levels[i]` holds the cells at depth `3 (i + 1)`. */
  class EpochTree {
    var root: u128
    var count: nat
    var levels: seq<map<u64, u128>>
    /** The epoch it stands for, so that no two epochs share a tree. */
    ghost const epoch: u32

    ghost predicate Valid(depth: nat)
      reads this
    {
      Consistent(depth, root, levels)
    }

    ghost function View(): Summary
      reads this
    {
      Summary(count, TopLeaves(levels))
    }

    constructor (depth: nat, ghost epoch: u32)
      requires 3 <= depth && IsDepth(depth)
      ensures Valid(depth) && View() == EMPTY && this.epoch == epoch
    {
      this.epoch := epoch;
      root, count := 0, 0;
      levels := seq(depth / 3, _ => map[]);
      new;
      forall d: nat, p: u64 | d <= 64 ensures Forests.NodeHash(TopLeaves(levels), d, p) == 0 {
        EmptyHash(d, p);
      }
    }

    /** XOR `digest` into every cell on the path from the root to the leaf. */
    method Toggle(morton: u64, digest: u128, ghost depth: nat)
      requires Valid(depth)
      modifies this`root, this`levels
      ensures Valid(depth)
      ensures View() == old(View()).(leaves := ToggleLeaf(old(View()).leaves, PrefixAt(morton, depth), digest))
    {
      ghost var was := levels;
      root := XorHash(root, digest);
      for i := 0 to |levels|
        invariant |levels| == |was| == depth / 3
        invariant root == XorHash(old(root), digest)
        invariant Bumped(was, levels, i, morton, digest)
      {
        levels := levels[i := Bump(levels[i], PrefixAt(morton, 3 * (i + 1)), digest)];
      }
      BumpConsistent(depth, old(root), was, levels, morton, digest);
    }

    /** Fold one more item in. */
    method Add(morton: u64, digest: u128, ghost depth: nat)
      requires Valid(depth)
      modifies this
      ensures Valid(depth)
      ensures View() == Summary(old(View()).count + 1, ToggleLeaf(old(View()).leaves, PrefixAt(morton, depth), digest))
    {
      Toggle(morton, digest, depth);
      count := count + 1;
    }

    /** Fold one item out. */
    method Take(morton: u64, digest: u128, ghost depth: nat)
      requires Valid(depth)
      modifies this
      ensures Valid(depth)
      ensures View() == Summary(if old(View()).count == 0 then 0 else old(View()).count - 1,
                                ToggleLeaf(old(View()).leaves, PrefixAt(morton, depth), digest))
    {
      Toggle(morton, digest, depth);
      count := if count == 0 then 0 else count - 1;
    }

    /** `node_hash`: the prefix is ignored at depth 0. */
    function NodeHash(d: nat, p: u64, ghost depth: nat): (h: u128)
      reads this
      requires Valid(depth) && IsDepth(d) && d <= depth
      ensures h == Forests.NodeHash(View().leaves, d, if d == 0 then 0 else p)
    {
      if d == 0 then root else LeafHash(levels[d / 3 - 1], p)
    }
  }

  /** One tree per epoch, keyed by the epoch bucket in the key. */
  class MerkleForest {
    const depth: nat
    var trees: map<u32, EpochTree>
    ghost var repr: set<EpochTree>

    ghost predicate Valid()
      reads this, repr
    {
      && 3 <= depth && IsDepth(depth)
      && forall e :: e in trees ==> trees[e] in repr && trees[e].epoch == e && trees[e].Valid(depth)
    }

    ghost function View(): (f: Forest)
      reads this, repr
      requires Valid()
      ensures f.Valid()
    {
      Forest(depth, map e | e in trees :: trees[e].View())
    }

    constructor (leafDepthBits: nat)
      requires leafDepthBits >= 3 && leafDepthBits <= 63 && leafDepthBits % 3 == 0
      ensures Valid() && depth == leafDepthBits && View() == Forest(leafDepthBits, map[]) && repr == {}
    {
      depth := leafDepthBits;
      trees, repr := map[], {};
    }

    /** `entry(epoch).or_insert_with(..)`. */
    method Entry(e: u32) returns (tree: EpochTree)
      requires Valid()
      modifies this
      ensures Valid() && e in trees && trees[e] == tree
      ensures old(repr) <= repr && (forall t :: t in repr ==> t in old(repr) || fresh(t))
      ensures View() == old(View()).(trees := old(View()).trees[e := old(View()).At(e)])
    {
      hide Consistent;
      if e !in trees {
        var t := new EpochTree(depth, e);
        trees := trees[e := t];
        repr := repr + {t};
      }
      tree := trees[e];
    }

    /** Fold an item in. */
    method Insert(key: Key, payload: Payload)
      requires Valid()
      modifies this, repr
      ensures Valid() && old(repr) <= repr && (forall t :: t in repr ==> t in old(repr) || fresh(t))
      ensures View() == old(View()).Insert(key, payload)
    {
      hide Consistent, ToggleLeaf, PrefixAt, Canonical, Forests.NodeHash, TopLeaves, IsDepth;
      var e := key.epoch;
      var tree := Entry(e);
      tree.Add(key.morton, ItemDigest(key, payload), depth);
    }

    /** Fold an item back out; an absent epoch is left absent. */
    method Remove(key: Key, payload: Payload)
      requires Valid()
      modifies repr
      ensures Valid()
      ensures View() == old(View()).Remove(key, payload)
    {
      hide Consistent, ToggleLeaf, PrefixAt, Canonical;
      var e := key.epoch;
      if e in trees {
        var tree := trees[e];
        tree.Take(key.morton, ItemDigest(key, payload), depth);
      }
    }

    /** `node_hash` of the forest; 0 for an absent epoch. */
    function NodeHash(e: u32, d: nat, p: u64): (h: u128)
      reads this, repr
      requires Valid() && IsDepth(d) && d <= depth
      ensures h == View().Hash(e, d, p)
    {
      if e in trees then trees[e].NodeHash(d, p, depth)
      else
        EmptyHash(d, if d == 0 then 0 else p);
        0
    }

    /** Epochs with a tree present, ascending, including ones folded back to empty. */
    method Epochs() returns (es: seq<u32>)
      requires Valid()
      ensures es == SortedEpochs(View().trees.Keys)
    {
      hide Consistent, Canonical;
      ghost var present := View().trees.Keys;
      assert trees.Keys == present;
      var sorted := SortSet(trees.Keys);
      assert sorted == SortedEpochs(present);
      es := sorted;
    }

    /** Items folded in, over all epochs. */
    method Len() returns (n: nat)
      requires Valid()
      ensures n == TotalCount(View().trees)
    {
      hide Consistent, Canonical;
      var rest := trees.Keys;
      ghost var all := View().trees;
      assert all - (all.Keys - rest) == all;
      n := 0;
      while rest != {}
        invariant rest <= trees.Keys
        invariant TotalCount(all) == n + TotalCount(all - (all.Keys - rest))
      {
        var e :| e in rest;
        var m := trees[e].count;
        TotalWithout(all - (all.Keys - rest), e);
        assert all - (all.Keys - rest) - {e} == all - (all.Keys - (rest - {e}));
        n := n + m;
        rest := rest - {e};
      }
      assert all - (all.Keys - rest) == map[];
    }

    /** `serialize_epoch`: nothing for an absent or empty epoch, else the record of its leaves. */
    method SerializeEpoch(e: u32) returns (r: Option<Bytes>)
      requires Valid()
      ensures r == SealOf(View(), e)
    {
      hide Canonical, Forests.NodeHash, PrefixAt;
      if e !in trees { return None; }
      var tree := trees[e];
      var entries := NonZero(tree.levels[depth / 3 - 1]);
      if entries == map[] { return None; }
      var qs := SortSet(entries.Keys);
      var out := PrintRecord(depth, tree.count, entries, qs);
      r := Some(out);
    }

    /** `load_sealed_epoch`: true when the record was accepted; otherwise the forest is untouched. */
    method LoadSealedEpoch(e: u32, bytes: Bytes) returns (ok: bool)
      requires Valid()
      modifies this
      ensures Valid() && old(repr) <= repr && (forall t :: t in repr ==> t in old(repr) || fresh(t))
      ensures ok <==> e !in old(View()).trees && Parse(depth, bytes).Some?
      ensures View()
              == if ok then old(View()).(trees := old(View()).trees[e := Parse(depth, bytes).value]) else old(View())
    {
      hide Consistent, ToggleLeaf, PrefixAt, LoadLeaves, Forests.NodeHash, TopLeaves;
      if e in trees { return false; }
      if |bytes| < 14 { return false; }
      if bytes[0] != 1 { return false; }
      if bytes[1] != depth { return false; }
      var count := FromBe(bytes[2..10]);
      var n := FromBe(bytes[10..14]);
      if |bytes| != 14 + n * 24 { return false; }
      var tree := ReadTree(depth, e, bytes, n);
      tree.count := count;
      trees := trees[e := tree];
      repr := repr + {tree};
      return true;
    }

    /** `epoch_roots`: the non-zero roots, by ascending epoch. */
    method EpochRoots() returns (roots: seq<(u32, u128)>)
      requires Valid()
      ensures roots == RootsOf(View(), SortedEpochs(View().trees.Keys))
    {
      hide Consistent, Canonical, Forests.NodeHash, View, NodeHash, EpochTree.NodeHash, RootsOf, Forest.Hash;
      var es := Epochs();
      roots := [];
      assert es[..0] == [] && RootsOf(View(), []) == [] by { RootsNone(View()); }
      for i := 0 to |es|
        invariant roots == RootsOf(View(), es[..i])
      {
        RootsStep(View(), es, i);
        var h := NodeHash(es[i], 0, 0);
        if h != 0 { roots := roots + [(es[i], h)]; }
      }
      assert es[..|es|] == es;
    }

    /** `child_hashes`: the non-zero children of a cell, one level deeper. */
    method ChildHashes(e: u32, d: nat, p: u64) returns (children: seq<(u64, u128)>)
      requires Valid() && IsDepth(d) && d + 3 <= depth
      ensures children == ChildrenOf(View(), e, d, p, 8)
    {
      hide Consistent, Canonical, Forests.NodeHash, View, NodeHash, EpochTree.NodeHash, ChildPrefix;
      children := [];
      for c := 0 to 8
        invariant children == ChildrenOf(View(), e, d, p, c)
      {
        var q := ChildPrefix(p, d, c);
        var h := NodeHash(e, d + 3, q);
        if h != 0 { children := children + [(q, h)]; }
      }
    }
  }

  /** Folds each stored leaf up through every level of a fresh tree. */
  method ReadTree(depth: nat, ghost epoch: u32, bytes: Bytes, n: nat) returns (tree: EpochTree)
    requires 3 <= depth && IsDepth(depth) && HEADER_LEN + ENTRY_LEN * n <= |bytes|
    ensures fresh(tree) && tree.epoch == epoch && tree.Valid(depth)
            && tree.View() == Summary(0, LoadLeaves(depth, bytes, n))
  {
    hide Consistent, ToggleLeaf, PrefixAt, EntryAt;
    tree := new EpochTree(depth, epoch);
    for i := 0 to n
      invariant fresh(tree) && tree.Valid(depth) && tree.View() == Summary(0, LoadLeaves(depth, bytes, i))
    {
      var (prefix, hash) := EntryAt(bytes, i);
      tree.Toggle(prefix, hash, depth);
    }
  }

  /** Builds the record in a growing buffer, entry by entry. */
  method PrintRecord(depth: nat, count: nat, entries: map<u64, u128>, qs: seq<u64>) returns (out: Bytes)
    requires depth <= 63 && forall q :: q in qs ==> q in entries
    ensures out == Header(depth, count, |qs|) + EntriesBytes(entries, qs)
  {
    out := [VERSION] + [depth];
    out := out + ToBe(count, 8);
    out := out + ToBe(|qs|, 4);
    ghost var head := out;
    for i := 0 to |qs|
      invariant out == head + EntriesBytes(entries, qs[..i])
    {
      assert qs[..i + 1][..i] == qs[..i];
      ghost var before := out;
      out := out + ToBe(qs[i], 8);
      out := out + ToBe(entries[qs[i]], 16);
      assert out == before + EntryBytes(qs[i], entries[qs[i]]);
    }
    assert qs[..|qs|] == qs;
  }

  // -------------------------------------------------------------------------
  // What the reading operations return, as functions of the forest's value
  // -------------------------------------------------------------------------

  ghost function SealOf(f: Forest, e: u32): Option<Bytes>
    requires f.depth <= 63
  {
    if f.At(e).leaves == map[] then None else Some(Record(f.depth, f.At(e)))
  }

  ghost function RootsOf(f: Forest, es: seq<u32>): seq<(u32, u128)>
  {
    if es == [] then []
    else
      var e := es[|es| - 1];
      RootsOf(f, es[..|es| - 1]) + if f.Hash(e, 0, 0) != 0 then [(e, f.Hash(e, 0, 0))] else []
  }

  lemma RootsNone(f: Forest)
    ensures RootsOf(f, []) == []
  {
  }

  lemma RootsStep(f: Forest, es: seq<u32>, i: nat)
    requires i < |es|
    ensures RootsOf(f, es[..i + 1])
            == RootsOf(f, es[..i]) + if f.Hash(es[i], 0, 0) != 0 then [(es[i], f.Hash(es[i], 0, 0))] else []
  {
    assert es[..i + 1][..i] == es[..i];
  }

  ghost function ChildrenOf(f: Forest, e: u32, d: nat, p: u64, n: nat): seq<(u64, u128)>
    requires d + 3 <= 63 && n <= 8
  {
    if n == 0 then []
    else
      var q := ChildPrefix(p, d, n - 1);
      ChildrenOf(f, e, d, p, n - 1) + if f.Hash(e, d + 3, q) != 0 then [(q, f.Hash(e, d + 3, q))] else []
  }

  lemma {:induction false} ChildrenUpTo(f: Forest, e: u32, d: nat, p: u64, n: nat, q: u64, h: u128)
    requires d + 3 <= 63 && n <= 8
    ensures (q, h) in ChildrenOf(f, e, d, p, n)
            <==> exists c :: 0 <= c < n && q == ChildPrefix(p, d, c) && h == f.Hash(e, d + 3, q) && h != 0
    decreases n
  {
    hide ChildPrefix, Forest.Hash;
    if n > 0 { ChildrenUpTo(f, e, d, p, n - 1, q, h); }
  }

  /** The reply holds the cells one level below `p` that are not empty, each with its hash. */
  lemma ChildrenAre(f: Forest, e: u32, d: nat, p: u64, q: u64, h: u128)
    requires d + 3 <= 63 && IsPrefix(p, d)
    ensures (q, h) in ChildrenOf(f, e, d, p, 8)
            <==> IsPrefix(q, d + 3) && PrefixAt(q, d) == p && h == f.Hash(e, d + 3, q) && h != 0
  {
    hide ChildPrefix, PrefixAt, Forest.Hash, ChildrenOf;
    ChildrenUpTo(f, e, d, p, 8, q, h);
    forall c | 0 <= c < 8 && q == ChildPrefix(p, d, c) ensures IsPrefix(q, d + 3) { ChildPrefixIsPrefix(p, d, c); }
    forall c | 0 <= c < 8
      ensures PrefixAt(q, d + 3) == ChildPrefix(p, d, c) <==> PrefixAt(q, d) == p && c == ChildIndex(q, d)
    {
      ChildOfCode(q, d, p, c);
    }
    if IsPrefix(q, d + 3) && PrefixAt(q, d) == p { assert q == ChildPrefix(p, d, ChildIndex(q, d)); }
  }

  ghost predicate RepliesAscend(s: seq<(u64, u128)>)
  {
    forall i, j :: 0 <= i < j < |s| ==> s[i].0 < s[j].0
  }

  /** ... in ascending order. */
  lemma {:induction false} ChildrenAscend(f: Forest, e: u32, d: nat, p: u64, n: nat)
    requires d + 3 <= 63 && n <= 8 && IsPrefix(p, d)
    ensures RepliesAscend(ChildrenOf(f, e, d, p, n))
    ensures n < 8 ==> forall h :: h in ChildrenOf(f, e, d, p, n) ==> h.0 < ChildPrefix(p, d, n)
    decreases n
  {
    hide ChildPrefix, PrefixAt, Forest.Hash;
    if n > 0 {
      ChildrenAscend(f, e, d, p, n - 1);
      var before, q := ChildrenOf(f, e, d, p, n - 1), ChildPrefix(p, d, n - 1);
      forall i | 0 <= i < |before| ensures before[i].0 < q { assert before[i] in before; }
      if n < 8 { NextChild(p, d, n); }
    }
  }

  lemma NextChild(p: u64, d: nat, n: nat)
    requires d + 3 <= 63 && 0 < n < 8 && IsPrefix(p, d)
    ensures ChildPrefix(p, d, n - 1) < ChildPrefix(p, d, n)
  {
    hide ChildPrefix, CellWidth;
    ChildPrefixIsSum(p, d, n - 1);
    ChildPrefixIsSum(p, d, n);
    Distribute(n - 1, 1, CellWidth(d + 3));
  }

  lemma {:induction false} RootsAmong(f: Forest, es: seq<u32>, e: u32, h: u128)
    ensures (e, h) in RootsOf(f, es) <==> e in es && h == f.Hash(e, 0, 0) && h != 0
    decreases |es|
  {
    hide Forest.Hash;
    if es != [] {
      RootsAmong(f, es[..|es| - 1], e, h);
      assert es == es[..|es| - 1] + [es[|es| - 1]];
    }
  }

  /** The roots sent are those of the epochs that are not empty, each with its hash. */
  lemma RootsAre(f: Forest, e: u32, h: u128)
    ensures (e, h) in RootsOf(f, SortedEpochs(f.trees.Keys)) <==> h == f.Hash(e, 0, 0) && h != 0
  {
    RootsAmong(f, SortedEpochs(f.trees.Keys), e, h);
    if e !in f.trees { AbsentHash(f, e); }
  }

  lemma AbsentHash(f: Forest, e: u32)
    requires e !in f.trees
    ensures f.Hash(e, 0, 0) == 0
  {
    assert NodeHash(map[], 0, 0) == 0;
  }

  /** ... in ascending order. */
  lemma {:induction false} RootsAscend(f: Forest, es: seq<u32>)
    requires forall i, j :: 0 <= i < j < |es| ==> es[i] < es[j]
    ensures var s := RootsOf(f, es); forall i, j :: 0 <= i < j < |s| ==> s[i].0 < s[j].0
    decreases |es|
  {
    hide Forest.Hash;
    if es != [] {
      var n := |es| - 1;
      RootsAscend(f, es[..n]);
      var s := RootsOf(f, es[..n]);
      forall i | 0 <= i < |s| ensures s[i].0 < es[n] {
        RootsAmong(f, es[..n], s[i].0, s[i].1);
      }
    }
  }

  ghost function TotalCount(trees: map<u32, Summary>): nat
    decreases |trees|
  {
    if trees == map[] then 0
    else
      var e := Pick(trees);
      trees[e].count + TotalCount(trees - {e})
  }

  lemma {:induction false} TotalWithout(trees: map<u32, Summary>, e: u32)
    requires e in trees
    ensures TotalCount(trees) == trees[e].count + TotalCount(trees - {e})
    decreases |trees|
  {
    var c := Pick(trees);
    if c != e {
      TotalWithout(trees - {c}, e);
      TotalWithout(trees - {e}, c);
      assert trees - {c} - {e} == trees - {e} - {c};
    }
  }

  /** The length of a forest in step with its rows is the number of rows. */
  lemma {:induction false} LenIsRowCount(trees: map<u32, Summary>, rows: Rows)
    requires forall k :: k in rows ==> k.epoch in trees
    requires forall e :: e in trees ==> trees[e].count == |EpochRows(rows, e)|
    ensures TotalCount(trees) == |rows|
    decreases |trees|
  {
    if trees == map[] {
      assert rows == map[];
    } else {
      var e := Pick(trees);
      assert TotalCount(trees) == trees[e].count + TotalCount(trees - {e});
      var others := rows - EpochRows(rows, e).Keys;
      SplitByEpoch(rows, e);
      var rest := trees - {e};
      forall o | o in rest ensures rest[o].count == |EpochRows(others, o)| {
        WithoutEpoch(rows, e, o);
      }
      hide EpochRows, TotalCount;
      LenIsRowCount(rest, others);
    }
  }

  lemma WithoutEpoch(rows: Rows, e: u32, o: u32)
    requires o != e
    ensures EpochRows(rows - EpochRows(rows, e).Keys, o) == EpochRows(rows, o)
  {
  }

  lemma SplitByEpoch(rows: Rows, e: u32)
    ensures |rows| == |EpochRows(rows, e)| + |rows - EpochRows(rows, e).Keys|
  {
    var mine := EpochRows(rows, e);
    var others := rows - mine.Keys;
    assert mine.Keys + others.Keys == rows.Keys;
    assert |rows.Keys| == |mine.Keys| + |others.Keys|;
    assert |rows| == |rows.Keys| && |mine| == |mine.Keys| && |others| == |others.Keys|;
  }
}
