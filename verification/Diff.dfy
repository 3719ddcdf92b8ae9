/** Comparing two forests: the recursive descent and what its list of leaf cells means. */
module Diff {
  import opened Words
  import opened Keys
  import opened Folds
  import opened Forests
  import opened Sorting
  import opened Merkle
  import opened Descent

  /** One divergent cell at leaf depth; its first and last key bound the rows both sides should exchange. */
  datatype DivergentLeaf = DivergentLeaf(epoch: u32, depthBits: nat, prefix: u64, startKey: Key, endKey: Key)

  function LeafAt(e: u32, leaf: nat, q: u64): DivergentLeaf
    requires 1 <= leaf <= 63
  {
    var r := LeafKeyRange(e, q, leaf);
    DivergentLeaf(e, leaf, q, r.0, r.1)
  }

  function LeavesAt(e: u32, leaf: nat, qs: seq<u64>): seq<DivergentLeaf>
    requires 1 <= leaf <= 63
  {
    seq(|qs|, i requires 0 <= i < |qs| => LeafAt(e, leaf, qs[i]))
  }

  // -------------------------------------------------------------------------
  // The descent
  // -------------------------------------------------------------------------

  ghost predicate Differ(a: Forest, b: Forest, e: u32, d: nat, p: u64)
    requires d <= 64
  {
    a.Hash(e, d, p) != b.Hash(e, d, p)
  }

  ghost function DifferTest(a: Forest, b: Forest, e: u32): Test
  {
    (d: nat, p: u64) => d <= 64 && Differ(a, b, e, d, p)
  }

  method Descend(a: MerkleForest, b: MerkleForest, e: u32, d: nat, p: u64, leaf: nat, out: seq<DivergentLeaf>)
    returns (res: seq<DivergentLeaf>)
    requires a.Valid() && b.Valid() && IsDepth(d) && IsDepth(leaf) && d <= leaf && 3 <= leaf <= a.depth
             && leaf <= b.depth
    ensures res == out + LeavesAt(e, leaf, Cells(DifferTest(a.View(), b.View(), e), d, p, leaf))
    decreases leaf - d
  {
    hide Consistent, NodeHash, MerkleForest.View, MerkleForest.NodeHash, ChildPrefix, LeafAt, Forest.Hash;
    if d == leaf {
      var (startKey, endKey) := LeafKeyRange(e, p, d);
      assert LeafAt(e, leaf, p) == DivergentLeaf(e, d, p, startKey, endKey) by { SameLeaf(e, leaf, p); }
      return out + [DivergentLeaf(e, d, p, startKey, endKey)];
    }
    ghost var fa, fb := a.View(), b.View();
    NextDepth(d, leaf);
    res := out;
    for c := 0 to 8
      invariant res == out + LeavesAt(e, leaf, ChildCells(DifferTest(fa, fb, e), d, p, leaf, c))
    {
      var q := ChildPrefix(p, d, c);
      ghost var before := ChildCells(DifferTest(fa, fb, e), d, p, leaf, c);
      if a.NodeHash(e, d + 3, q) != b.NodeHash(e, d + 3, q) {
        LeavesAppend(e, leaf, before, Cells(DifferTest(fa, fb, e), d + 3, q, leaf));
        res := Descend(a, b, e, d + 3, q, leaf, res);
      } else {
        LeavesAppend(e, leaf, before, []);
      }
    }
  }

  lemma SameLeaf(e: u32, leaf: nat, q: u64)
    requires 1 <= leaf <= 63
    ensures LeafAt(e, leaf, q) == DivergentLeaf(e, leaf, q, LeafKeyRange(e, q, leaf).0, LeafKeyRange(e, q, leaf).1)
  {
  }

  lemma LeavesAppend(e: u32, leaf: nat, xs: seq<u64>, ys: seq<u64>)
    requires 1 <= leaf <= 63
    ensures LeavesAt(e, leaf, xs + ys) == LeavesAt(e, leaf, xs) + LeavesAt(e, leaf, ys)
  {
  }

  function Min(x: nat, y: nat): (m: nat)
    ensures m <= x && m <= y && (m == x || m == y)
  {
    if x <= y then x else y
  }

  /** The whole comparison, as a function of the two forests and the epochs visited. */
  ghost function DiffOver(a: Forest, b: Forest, es: seq<u32>): seq<DivergentLeaf>
    requires a.Valid() && b.Valid()
  {
    if es == [] then [] else DiffOver(a, b, es[..|es| - 1]) + EpochPart(a, b, es[|es| - 1])
  }

  lemma DiffNone(a: Forest, b: Forest)
    requires a.Valid() && b.Valid()
    ensures DiffOver(a, b, []) == []
  {
  }

  lemma DiffStep(a: Forest, b: Forest, es: seq<u32>, i: nat)
    requires a.Valid() && b.Valid() && i < |es|
    ensures DiffOver(a, b, es[..i + 1]) == DiffOver(a, b, es[..i]) + EpochPart(a, b, es[i])
  {
    assert es[..i + 1][..i] == es[..i];
  }

  ghost function DiffOf(a: Forest, b: Forest): seq<DivergentLeaf>
    requires a.Valid() && b.Valid()
  {
    DiffOver(a, b, SortedEpochs(a.trees.Keys + b.trees.Keys))
  }

  /** The epochs of both forests, sorted and without repeats. */
  method EpochsOfBoth(a: MerkleForest, b: MerkleForest) returns (epochs: seq<u32>)
    requires a.Valid() && b.Valid()
    ensures epochs == SortedEpochs(a.View().trees.Keys + b.View().trees.Keys)
  {
    hide Consistent, Canonical;
    var keys := a.trees.Keys + b.trees.Keys;
    assert keys == a.View().trees.Keys + b.View().trees.Keys;
    var sorted := SortSet(keys);
    assert sorted == SortedEpochs(keys);
    epochs := sorted;
  }

  /** Divergent leaves of one epoch. */
  ghost function EpochPart(a: Forest, b: Forest, e: u32): seq<DivergentLeaf>
    requires a.Valid() && b.Valid()
  {
    var leaf := Min(a.depth, b.depth);
    if Differ(a, b, e, 0, 0) then LeavesAt(e, leaf, Cells(DifferTest(a, b, e), 0, 0, leaf)) else []
  }

  method DiffEpoch(a: MerkleForest, b: MerkleForest, e: u32, leaf: nat, out: seq<DivergentLeaf>)
    returns (res: seq<DivergentLeaf>)
    requires a.Valid() && b.Valid() && leaf == Min(a.depth, b.depth)
    ensures res == out + EpochPart(a.View(), b.View(), e)
  {
    hide Consistent, NodeHash, Cells, LeavesAt, MerkleForest.NodeHash, Canonical, Forest.Hash;
    res := out;
    if a.NodeHash(e, 0, 0) != b.NodeHash(e, 0, 0) {
      res := Descend(a, b, e, 0, 0, leaf, res);
    }
  }

  method DiffEpochs(a: MerkleForest, b: MerkleForest, epochs: seq<u32>) returns (out: seq<DivergentLeaf>)
    requires a.Valid() && b.Valid()
    ensures out == DiffOver(a.View(), b.View(), epochs)
  {
    hide Consistent, NodeHash, MerkleForest.View, Canonical, Forest.Valid, DiffOver, EpochPart;
    ghost var fa, fb := a.View(), b.View();
    var leaf := Min(a.depth, b.depth);
    DiffNone(fa, fb);
    assert epochs[..0] == [];
    out := [];
    for i := 0 to |epochs|
      invariant out == DiffOver(fa, fb, epochs[..i])
    {
      DiffStep(fa, fb, epochs, i);
      out := DiffEpoch(a, b, epochs[i], leaf, out);
    }
    assert epochs[..|epochs|] == epochs;
  }

  method DiffForests(a: MerkleForest, b: MerkleForest) returns (out: seq<DivergentLeaf>)
    requires a.Valid() && b.Valid()
    ensures out == DiffOf(a.View(), b.View())
  {
    var epochs := EpochsOfBoth(a, b);
    out := DiffEpochs(a, b, epochs);
  }

  // -------------------------------------------------------------------------
  // What the list means
  // -------------------------------------------------------------------------

  /** A leaf cell whose hashes differ at every ancestor, root included. */
  ghost predicate Divergent(a: Forest, b: Forest, e: u32, leaf: nat, q: u64)
    requires leaf <= 63
  {
    Differ(a, b, e, 0, 0) && Below(DifferTest(a, b, e), 0, 0, leaf, q)
  }

  /** A differing cell above the leaf depth has a differing child. */
  lemma DifferingChild(a: Forest, b: Forest, e: u32, d: nat, p: u64)
    requires a.Valid() && b.Valid() && IsDepth(d) && d + 3 <= 63 && IsPrefix(p, d) && (d == 0 ==> p == 0)
    requires Differ(a, b, e, d, p)
    ensures exists c :: 0 <= c < 8 && Differ(a, b, e, d + 3, ChildPrefix(p, d, c))
  {
    hide Forests.NodeHash, ChildPrefix, PrefixAt, XorSeq, CellWidth;
    var la, lb := a.At(e).leaves, b.At(e).leaves;
    ParentIsXorOfChildren(la, d, p);
    ParentIsXorOfChildren(lb, d, p);
    var ca, cb := ChildHashSeq(la, d, p), ChildHashSeq(lb, d, p);
    assert ca != cb;
    var c :| 0 <= c < 8 && ca[c] != cb[c];
    assert Differ(a, b, e, d + 3, ChildPrefix(p, d, c));
  }

  /** A differing cell always leads the descent to some leaf. */
  lemma {:induction false} CellsNonEmpty(a: Forest, b: Forest, e: u32, d: nat, p: u64, leaf: nat)
    requires a.Valid() && b.Valid() && IsDepth(d) && IsDepth(leaf) && d <= leaf && IsPrefix(p, d) && (d == 0 ==> p == 0)
    requires Differ(a, b, e, d, p)
    ensures Cells(DifferTest(a, b, e), d, p, leaf) != []
    decreases leaf - d
  {
    if d < leaf {
      NextDepth(d, leaf);
      DifferingChild(a, b, e, d, p);
      var c :| 0 <= c < 8 && Differ(a, b, e, d + 3, ChildPrefix(p, d, c));
      var q := ChildPrefix(p, d, c);
      ChildPrefixIsPrefix(p, d, c);
      hide ChildPrefix, PrefixAt, Differ, CellWidth, Forest.Valid;
      CellsNonEmpty(a, b, e, d + 3, q, leaf);
      var r := Cells(DifferTest(a, b, e), d + 3, q, leaf)[0];
      CellsExact(DifferTest(a, b, e), d + 3, q, leaf, r);
      BelowStep(DifferTest(a, b, e), d, p, leaf, r);
      assert Via(DifferTest(a, b, e), d, p, leaf, r, c);
      CellsExact(DifferTest(a, b, e), d, p, leaf, r);
    }
  }

  // -------------------------------------------------------------------------
  // Main results on diff_forests
  // -------------------------------------------------------------------------

  lemma {:induction false} DiffOverExact(a: Forest, b: Forest, es: seq<u32>, l: DivergentLeaf)
    requires a.Valid() && b.Valid()
    ensures var leaf := Min(a.depth, b.depth);
            l in DiffOver(a, b, es)
            <==> l.epoch in es && l == LeafAt(l.epoch, leaf, l.prefix) && Divergent(a, b, l.epoch, leaf, l.prefix)
    decreases |es|
  {
    if es != [] {
      var n := |es| - 1;
      DiffOverExact(a, b, es[..n], l);
      assert es == es[..n] + [es[n]];
      EpochPartExact(a, b, es[n], l);
      hide EpochPart, LeafAt, Divergent;
    }
  }

  lemma EpochPartExact(a: Forest, b: Forest, e: u32, l: DivergentLeaf)
    requires a.Valid() && b.Valid()
    ensures var leaf := Min(a.depth, b.depth);
            l in EpochPart(a, b, e)
            <==> l.epoch == e && l == LeafAt(e, leaf, l.prefix) && Divergent(a, b, e, leaf, l.prefix)
  {
    var leaf := Min(a.depth, b.depth);
    var qs := Cells(DifferTest(a, b, e), 0, 0, leaf);
    RootPrefix(0);
    CellsExact(DifferTest(a, b, e), 0, 0, leaf, l.prefix);
    if l.prefix in qs && l == LeafAt(e, leaf, l.prefix) {
      var i :| 0 <= i < |qs| && qs[i] == l.prefix;
      assert LeavesAt(e, leaf, qs)[i] == l;
    }
    hide Cells, Below, LeafKeyRange;
  }

  lemma AbsentEpoch(f: Forest, e: u32)
    requires e !in f.trees
    ensures f.Hash(e, 0, 0) == 0
  {
    EmptyHash(0, 0);
  }

  /** The list is exactly the leaf cells whose hashes differ at every ancestor. */
  lemma DiffExact(a: Forest, b: Forest, l: DivergentLeaf)
    requires a.Valid() && b.Valid()
    ensures var leaf := Min(a.depth, b.depth);
            l in DiffOf(a, b) <==> l == LeafAt(l.epoch, leaf, l.prefix) && Divergent(a, b, l.epoch, leaf, l.prefix)
  {
    var keys := a.trees.Keys + b.trees.Keys;
    var es := SortedEpochs(keys);
    DiffOverExact(a, b, es, l);
    if l.epoch !in keys {
      AbsentEpoch(a, l.epoch);
      AbsentEpoch(b, l.epoch);
    }
    assert l.epoch in es <==> l.epoch in keys;
  }

  /** Differing roots of one epoch put one of its leaves on the list. */
  lemma RootsDifferReported(a: Forest, b: Forest, e: u32)
    requires a.Valid() && b.Valid() && Differ(a, b, e, 0, 0)
    ensures DiffOf(a, b) != []
  {
    var leaf := Min(a.depth, b.depth);
    RootPrefix(0);
    CellsNonEmpty(a, b, e, 0, 0, leaf);
    var q := Cells(DifferTest(a, b, e), 0, 0, leaf)[0];
    CellsExact(DifferTest(a, b, e), 0, 0, leaf, q);
    DiffExact(a, b, LeafAt(e, leaf, q));
  }

  /** Nothing is reported just when all epoch roots agree; no assumption on collisions is needed. */
  lemma DiffEmptyIffRootsAgree(a: Forest, b: Forest)
    requires a.Valid() && b.Valid()
    ensures DiffOf(a, b) == [] <==> forall e: u32 :: a.Hash(e, 0, 0) == b.Hash(e, 0, 0)
  {
    hide Forest.Hash, Forest.Valid;
    if DiffOf(a, b) == [] {
      forall e: u32 ensures a.Hash(e, 0, 0) == b.Hash(e, 0, 0) {
        if Differ(a, b, e, 0, 0) { RootsDifferReported(a, b, e); }
      }
    } else {
      hide DiffOf;
      var l := DiffOf(a, b)[0];
      DiffExact(a, b, l);
      assert Differ(a, b, l.epoch, 0, 0);
    }
  }

  /** Each range ends before the next one starts. */
  ghost predicate RangesAscend(ls: seq<DivergentLeaf>)
  {
    forall i, j :: 0 <= i < j < |ls| ==> KeyLess(ls[i].endKey, ls[j].startKey)
  }

  lemma EpochPartAscends(a: Forest, b: Forest, e: u32)
    requires a.Valid() && b.Valid()
    ensures RangesAscend(EpochPart(a, b, e))
    ensures forall l :: l in EpochPart(a, b, e) ==> l.startKey.epoch == l.endKey.epoch == e
  {
    var leaf := Min(a.depth, b.depth);
    var qs := Cells(DifferTest(a, b, e), 0, 0, leaf);
    RootPrefix(0);
    CellsAscend(DifferTest(a, b, e), 0, 0, leaf);
    forall i, j | 0 <= i < j < |qs| ensures LastCode(qs[i], leaf) < qs[j] {
      CellsExact(DifferTest(a, b, e), 0, 0, leaf, qs[i]);
      CellsExact(DifferTest(a, b, e), 0, 0, leaf, qs[j]);
      LastCodeIsSum(qs[i], leaf);
      PrefixApart(qs[i], qs[j], leaf);
    }
    hide Cells, LastCode, Differ;
  }

  lemma {:induction false} DiffOverAscends(a: Forest, b: Forest, es: seq<u32>)
    requires a.Valid() && b.Valid() && Ascending(es)
    ensures RangesAscend(DiffOver(a, b, es))
    ensures forall l :: l in DiffOver(a, b, es) ==> l.startKey.epoch == l.endKey.epoch && l.endKey.epoch in es
    decreases |es|
  {
    if es != [] {
      var n := |es| - 1;
      DiffOverAscends(a, b, es[..n]);
      EpochPartAscends(a, b, es[n]);
      hide EpochPart;
      var xs, ys := DiffOver(a, b, es[..n]), EpochPart(a, b, es[n]);
      forall i, j | 0 <= i < |xs| && 0 <= j < |ys| ensures KeyLess(xs[i].endKey, ys[j].startKey) {
        assert xs[i] in xs && ys[j] in ys;
        var m :| 0 <= m < n && es[m] == xs[i].endKey.epoch;
      }
    }
  }

  /** The reported ranges are in strict key order and pairwise disjoint. */
  lemma DiffAscends(a: Forest, b: Forest)
    requires a.Valid() && b.Valid()
    ensures RangesAscend(DiffOf(a, b))
  {
    DiffOverAscends(a, b, SortedEpochs(a.trees.Keys + b.trees.Keys));
  }

  lemma {:induction false} DiffOverSymmetric(a: Forest, b: Forest, es: seq<u32>)
    requires a.Valid() && b.Valid()
    ensures DiffOver(a, b, es) == DiffOver(b, a, es)
    decreases |es|
  {
    hide Forest.Hash, Cells, LeavesAt;
    if es != [] {
      DiffOverSymmetric(a, b, es[..|es| - 1]);
      CellsSame(DifferTest(a, b, es[|es| - 1]), DifferTest(b, a, es[|es| - 1]), 0, 0, Min(a.depth, b.depth));
    }
  }

  /** Both sides compute the same list. */
  lemma DiffSymmetric(a: Forest, b: Forest)
    requires a.Valid() && b.Valid()
    ensures DiffOf(a, b) == DiffOf(b, a)
  {
    assert a.trees.Keys + b.trees.Keys == b.trees.Keys + a.trees.Keys;
    DiffOverSymmetric(a, b, SortedEpochs(a.trees.Keys + b.trees.Keys));
  }

  // -------------------------------------------------------------------------
  // Reported ranges and the rows behind the forests
  // -------------------------------------------------------------------------

  /** One side has the key and the other has not, or they hold different payloads. */
  predicate Disagree(ra: Rows, rb: Rows, k: Key)
  {
    (k in ra) != (k in rb) || (k in ra && k in rb && ra[k] != rb[k])
  }

  /** Different cell hashes betray a row the two sides disagree on. */
  lemma DifferBetrays(ra: Rows, rb: Rows, e: u32, d: nat, p: u64)
    requires d <= 64 && CellHash(ra, e, d, p) != CellHash(rb, e, d, p)
    ensures exists k :: InCell(k, e, d, p) && Disagree(ra, rb, k)
  {
    if forall k :: InCell(k, e, d, p) ==> !Disagree(ra, rb, k) {
      AgreeingCells(ra, rb, e, d, p);
    }
  }

  lemma AgreeingCells(ra: Rows, rb: Rows, e: u32, d: nat, p: u64)
    requires d <= 64 && forall k :: InCell(k, e, d, p) ==> !Disagree(ra, rb, k)
    ensures CellRows(ra, e, d, p) == CellRows(rb, e, d, p)
  {
    var ca, cb := CellRows(ra, e, d, p), CellRows(rb, e, d, p);
    assert forall k :: k in ca ==> InCell(k, e, d, p) && !Disagree(ra, rb, k);
    assert forall k :: k in cb ==> InCell(k, e, d, p) && !Disagree(ra, rb, k);
  }

  /** No range is reported in vain: each one holds a key the two sides disagree on. */
  lemma DiffRangesHoldDisagreement(a: Forest, b: Forest, ra: Rows, rb: Rows, l: DivergentLeaf)
    requires Represents(a, ra) && Represents(b, rb) && l in DiffOf(a, b)
    ensures exists k :: InRange(k, (l.startKey, l.endKey)) && Disagree(ra, rb, k)
  {
    var leaf := Min(a.depth, b.depth);
    var e, q := l.epoch, l.prefix;
    DiffExact(a, b, l);
    assert Differ(a, b, e, leaf, PrefixAt(q, leaf));
    HashIsFold(a, ra, e, leaf, q);
    HashIsFold(b, rb, e, leaf, q);
    DifferBetrays(ra, rb, e, leaf, q);
    var k :| InCell(k, e, leaf, q) && Disagree(ra, rb, k);
    LeafRangeIsCell(k, e, q, leaf);
  }

  /** Along the path to a key, equal cell hashes mean equal cell contents. */
  ghost predicate NoCollisionAbove(ra: Rows, rb: Rows, k: Key, leaf: nat)
    requires leaf <= 63
  {
    forall d :: 0 <= d <= leaf && d % 3 == 0 ==>
      var p := PrefixAt(k.morton, d);
      CellHash(ra, k.epoch, d, p) == CellHash(rb, k.epoch, d, p)
      ==> CellRows(ra, k.epoch, d, p) == CellRows(rb, k.epoch, d, p)
  }

  lemma DisagreeingCells(ra: Rows, rb: Rows, k: Key, d: nat)
    requires d <= 64 && Disagree(ra, rb, k)
    ensures CellRows(ra, k.epoch, d, PrefixAt(k.morton, d)) != CellRows(rb, k.epoch, d, PrefixAt(k.morton, d))
  {
    var ca, cb := CellRows(ra, k.epoch, d, PrefixAt(k.morton, d)), CellRows(rb, k.epoch, d, PrefixAt(k.morton, d));
    assert k in ca <==> k in ra;
    assert k in cb <==> k in rb;
  }

  /** A disagreeing key none of whose ancestor cells collide is reported, in exactly one range. */
  lemma DiffCoversDisagreement(a: Forest, b: Forest, ra: Rows, rb: Rows, k: Key)
    requires Represents(a, ra) && Represents(b, rb) && Disagree(ra, rb, k)
    requires NoCollisionAbove(ra, rb, k, Min(a.depth, b.depth))
    ensures var ls := DiffOf(a, b);
            exists i :: 0 <= i < |ls| && InRange(k, (ls[i].startKey, ls[i].endKey))
                        && forall j :: 0 <= j < |ls| && InRange(k, (ls[j].startKey, ls[j].endKey)) ==> j == i
  {
    hide DiffOf, RangesAscend, InRange, Represents, Disagree, NoCollisionAbove, LeafAt;
    InStepValid(a, ra);
    InStepValid(b, rb);
    DisagreementReported(a, b, ra, rb, k);
    DiffAscends(a, b);
    UniqueRange(DiffOf(a, b), LeafAt(k.epoch, Min(a.depth, b.depth), PrefixAt(k.morton, Min(a.depth, b.depth))), k);
  }

  /** The leaf cell of such a key is reported, and its range holds the key. */
  lemma DisagreementReported(a: Forest, b: Forest, ra: Rows, rb: Rows, k: Key)
    requires Represents(a, ra) && Represents(b, rb) && Disagree(ra, rb, k)
    requires NoCollisionAbove(ra, rb, k, Min(a.depth, b.depth))
    ensures var leaf := Min(a.depth, b.depth);
            var l := LeafAt(k.epoch, leaf, PrefixAt(k.morton, leaf));
            l in DiffOf(a, b) && InRange(k, (l.startKey, l.endKey))
  {
    hide PrefixAt, DiffOf, Divergent, NoCollisionAbove, Disagree, InRange, LeafKeyRange;
    var leaf := Min(a.depth, b.depth);
    var e, q := k.epoch, PrefixAt(k.morton, leaf);
    PrefixBrackets(k.morton, leaf, q);
    PathDivergent(a, b, ra, rb, k, leaf);
    DiffExact(a, b, LeafAt(e, leaf, q));
    LeafRangeIsCell(k, e, q, leaf);
  }

  lemma PathDivergent(a: Forest, b: Forest, ra: Rows, rb: Rows, k: Key, leaf: nat)
    requires Represents(a, ra) && Represents(b, rb) && Disagree(ra, rb, k)
    requires leaf <= a.depth && leaf <= b.depth && leaf <= 63 && NoCollisionAbove(ra, rb, k, leaf)
    ensures Divergent(a, b, k.epoch, leaf, PrefixAt(k.morton, leaf))
  {
    hide PrefixAt, Represents, Disagree, NoCollisionAbove, Differ;
    var e, q := k.epoch, PrefixAt(k.morton, leaf);
    PrefixBrackets(k.morton, leaf, q);
    RootPrefix(q);
    forall d | 0 <= d <= leaf && d % 3 == 0 ensures Differ(a, b, e, d, PrefixAt(q, d)) {
      PathDiffers(a, b, ra, rb, k, leaf, d);
    }
    assert Differ(a, b, e, 0, PrefixAt(q, 0));
  }

  lemma PathDiffers(a: Forest, b: Forest, ra: Rows, rb: Rows, k: Key, leaf: nat, d: nat)
    requires Represents(a, ra) && Represents(b, rb) && Disagree(ra, rb, k)
    requires leaf <= a.depth && leaf <= b.depth && leaf <= 63 && NoCollisionAbove(ra, rb, k, leaf)
    requires d <= leaf && IsDepth(d)
    ensures Differ(a, b, k.epoch, d, PrefixAt(PrefixAt(k.morton, leaf), d))
  {
    PrefixOfPrefix(k.morton, d, leaf);
    DisagreeingCells(ra, rb, k, d);
    RootPrefix(k.morton);
    HashIsFold(a, ra, k.epoch, d, PrefixAt(k.morton, d));
    HashIsFold(b, rb, k.epoch, d, PrefixAt(k.morton, d));
  }

  lemma UniqueRange(ls: seq<DivergentLeaf>, l: DivergentLeaf, k: Key)
    requires RangesAscend(ls) && l in ls && InRange(k, (l.startKey, l.endKey))
    ensures exists i :: 0 <= i < |ls| && InRange(k, (ls[i].startKey, ls[i].endKey))
                        && forall j :: 0 <= j < |ls| && InRange(k, (ls[j].startKey, ls[j].endKey)) ==> j == i
  {
    var i :| 0 <= i < |ls| && ls[i] == l;
    forall j | 0 <= j < |ls| && j != i ensures !InRange(k, (ls[j].startKey, ls[j].endKey)) {
      if j < i { assert KeyLess(ls[j].endKey, ls[i].startKey); }
      if i < j { assert KeyLess(ls[i].endKey, ls[j].startKey); }
    }
  }
}
