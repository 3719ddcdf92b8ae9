/** Merkle forests as values: what a forest knows of a set of rows, and the plain fold it must equal. */
module Forests {
  import opened Words
  import opened Keys
  import opened Folds

  type Rows = map<Key, Payload>

  /**
   * SHA-256 of key and payload, cut to its leading 128 bits. Nothing is known of it here:
   * every result that needs absence of collisions says so in a precondition.
   */
  const ItemDigest: (Key, Payload) -> u128

  // -------------------------------------------------------------------------
  // The plain fold over stored rows
  // -------------------------------------------------------------------------

  ghost function CellRows(rows: Rows, e: u32, d: nat, p: u64): Rows
    requires d <= 64
  {
    map k | k in rows && InCell(k, e, d, p) :: rows[k]
  }

  ghost function EpochRows(rows: Rows, e: u32): Rows
  {
    map k | k in rows && k.epoch == e :: rows[k]
  }

  ghost function Digests(rows: Rows): map<Key, u128>
  {
    map k | k in rows :: ItemDigest(k, rows[k])
  }

  /** XOR of the digests of the rows in one cell. */
  ghost function CellHash(rows: Rows, e: u32, d: nat, p: u64): u128
    requires d <= 64
  {
    XorAll(Digests(CellRows(rows, e, d, p)))
  }

  lemma CellHashWith(rows: Rows, k: Key, v: Payload, e: u32, d: nat, p: u64)
    requires d <= 64 && k !in rows
    ensures CellHash(rows[k := v], e, d, p)
            == if InCell(k, e, d, p) then XorHash(ItemDigest(k, v), CellHash(rows, e, d, p))
               else CellHash(rows, e, d, p)
  {
    var before, after := CellRows(rows, e, d, p), CellRows(rows[k := v], e, d, p);
    if InCell(k, e, d, p) {
      assert Digests(after) == Digests(before)[k := ItemDigest(k, v)];
      XorAllWith(Digests(before), k, ItemDigest(k, v));
    } else {
      assert after == before;
    }
  }

  // -------------------------------------------------------------------------
  // What an epoch's tree stores: a count and the non-zero leaf hashes
  // -------------------------------------------------------------------------

  datatype Summary = Summary(count: nat, leaves: map<u64, u128>)

  const EMPTY := Summary(0, map[])

  function LeafHash(leaves: map<u64, u128>, q: u64): u128
  {
    if q in leaves then leaves[q] else 0
  }

  /** A leaf map with no zero entries, keyed by prefixes at depth `depth`. */
  predicate Canonical(leaves: map<u64, u128>, depth: nat)
    requires depth <= 64
  {
    forall q :: q in leaves ==> leaves[q] != 0 && IsPrefix(q, depth)
  }

  /** XOR `h` into leaf `q`, dropping the entry when it cancels. */
  function ToggleLeaf(leaves: map<u64, u128>, q: u64, h: u128): map<u64, u128>
  {
    var n := XorHash(LeafHash(leaves, q), h);
    if n == 0 then leaves - {q} else leaves[q := n]
  }

  lemma ToggleTwice(leaves: map<u64, u128>, q: u64, h: u128)
    requires q in leaves ==> leaves[q] != 0
    ensures ToggleLeaf(ToggleLeaf(leaves, q, h), q, h) == leaves
  {
    XorTwice(h, LeafHash(leaves, q));
  }

  /** XOR of the leaves under a cell: the hash an interior node must hold. */
  ghost function NodeHash(leaves: map<u64, u128>, d: nat, p: u64): u128
    requires d <= 64
  {
    XorAll(map q | q in leaves && PrefixAt(q, d) == p :: leaves[q])
  }

  /** Toggling a leaf toggles its ancestors at every depth and no other node. */
  lemma NodeHashToggle(leaves: map<u64, u128>, q: u64, h: u128, d: nat, p: u64)
    requires d <= 64
    ensures NodeHash(ToggleLeaf(leaves, q, h), d, p)
            == if PrefixAt(q, d) == p then XorHash(h, NodeHash(leaves, d, p)) else NodeHash(leaves, d, p)
  {
    var under := map r | r in leaves && PrefixAt(r, d) == p :: leaves[r];
    var after := map r | r in ToggleLeaf(leaves, q, h) && PrefixAt(r, d) == p :: ToggleLeaf(leaves, q, h)[r];
    var n := XorHash(LeafHash(leaves, q), h);
    if PrefixAt(q, d) != p {
      assert after == under;
    } else {
      var rest := under - {q};
      assert after == if n == 0 then rest else rest[q := n];
      assert XorAll(after) == XorHash(n, XorAll(rest)) by {
        if n != 0 { XorAllWith(rest, q, n); }
      }
      assert XorAll(under) == XorHash(LeafHash(leaves, q), XorAll(rest)) by {
        if q in under { XorAllWithout(under, q); } else { assert under == rest; }
      }
      XorComm(LeafHash(leaves, q), h);
      XorAssoc(h, LeafHash(leaves, q), XorAll(rest));
    }
  }

  ghost function ChildHashSeq(leaves: map<u64, u128>, d: nat, p: u64): (s: seq<u128>)
    requires d + 3 <= 63
    ensures |s| == 8
  {
    seq(8, c requires 0 <= c < 8 => NodeHash(leaves, d + 3, ChildPrefix(p, d, c)))
  }

  /** Toggling a leaf changes the one child of each ancestor that holds it. */
  lemma ChildHashToggle(leaves: map<u64, u128>, q: u64, h: u128, d: nat, p: u64)
    requires d + 3 <= 63 && IsPrefix(p, d)
    ensures var s, i := ChildHashSeq(leaves, d, p), ChildIndex(q, d);
            ChildHashSeq(ToggleLeaf(leaves, q, h), d, p)
            == if PrefixAt(q, d) == p then s[i := XorHash(h, s[i])] else s
  {
    var s, t := ChildHashSeq(leaves, d, p), ChildHashSeq(ToggleLeaf(leaves, q, h), d, p);
    var i := ChildIndex(q, d);
    forall c | 0 <= c < 8
      ensures t[c] == if PrefixAt(q, d) == p && c == i then XorHash(h, s[c]) else s[c]
    {
      NodeHashToggle(leaves, q, h, d + 3, ChildPrefix(p, d, c));
      ChildOfCode(q, d, p, c);
    }
  }

  /** Every node is the XOR of its at most eight children. */
  lemma {:induction false} ParentIsXorOfChildren(leaves: map<u64, u128>, d: nat, p: u64)
    requires d + 3 <= 63 && IsPrefix(p, d)
    requires forall q :: q in leaves ==> leaves[q] != 0
    ensures NodeHash(leaves, d, p) == XorSeq(ChildHashSeq(leaves, d, p))
    decreases |leaves|
  {
    var s := ChildHashSeq(leaves, d, p);
    if leaves == map[] {
      assert forall c :: 0 <= c < 8 ==> s[c] == 0;
      XorSeqZero(s);
    } else {
      var q :| q in leaves;
      var rest, h := leaves - {q}, leaves[q];
      assert ToggleLeaf(rest, q, h) == leaves;
      ParentIsXorOfChildren(rest, d, p);
      NodeHashToggle(rest, q, h, d, p);
      ChildHashToggle(rest, q, h, d, p);
      if PrefixAt(q, d) == p {
        XorSeqUpdate(ChildHashSeq(rest, d, p), ChildIndex(q, d), h);
      }
    }
  }

  // -------------------------------------------------------------------------
  // Forests
  // -------------------------------------------------------------------------

  /** One summary per epoch, all at one leaf depth. */
  datatype Forest = Forest(depth: nat, trees: map<u32, Summary>)
  {
    predicate Valid()
    {
      3 <= depth && IsDepth(depth) && forall e :: e in trees ==> Canonical(trees[e].leaves, depth)
    }

    function At(e: u32): Summary
    {
      if e in trees then trees[e] else EMPTY
    }

    /** Hash of a cell; the prefix is ignored at the root. */
    ghost function Hash(e: u32, d: nat, p: u64): u128
      requires d <= 64
    {
      NodeHash(At(e).leaves, d, if d == 0 then 0 else p)
    }

    function Insert(k: Key, v: Payload): Forest
      requires depth <= 64
    {
      var s := At(k.epoch);
      this.(trees := trees[k.epoch := Summary(s.count + 1, Toggled(s.leaves, depth, k, v))])
    }

    /** Folding out of an absent epoch does nothing; a count of zero stays zero. */
    function Remove(k: Key, v: Payload): Forest
      requires depth <= 64
    {
      if k.epoch !in trees then this
      else
        var s := trees[k.epoch];
        var n := if s.count == 0 then 0 else s.count - 1;
        this.(trees := trees[k.epoch := Summary(n, Toggled(s.leaves, depth, k, v))])
    }
  }

  function Toggled(leaves: map<u64, u128>, depth: nat, k: Key, v: Payload): map<u64, u128>
    requires depth <= 64
  {
    ToggleLeaf(leaves, PrefixAt(k.morton, depth), ItemDigest(k, v))
  }

  // -------------------------------------------------------------------------
  // Agreement of a forest with rows
  // -------------------------------------------------------------------------

  ghost function LeafPrefixes(rows: Rows, e: u32, depth: nat): set<u64>
    requires depth <= 64
  {
    set k | k in rows && k.epoch == e :: PrefixAt(k.morton, depth)
  }

  /** The count and the non-zero leaf hashes of one epoch's rows. */
  ghost function Summarise(rows: Rows, e: u32, depth: nat): Summary
    requires depth <= 64
  {
    Summary(|EpochRows(rows, e)|,
            map q | q in LeafPrefixes(rows, e, depth) && CellHash(rows, e, depth, q) != 0
              :: CellHash(rows, e, depth, q))
  }

  ghost predicate Represents(f: Forest, rows: Rows)
  {
    f.Valid() && forall e: u32 :: f.At(e) == Summarise(rows, e, f.depth)
  }

  lemma InStepValid(f: Forest, rows: Rows)
    requires Represents(f, rows)
    ensures f.Valid()
  {
  }

  lemma EmptyCell(rows: Rows, e: u32, depth: nat, q: u64)
    requires depth <= 64 && q !in LeafPrefixes(rows, e, depth)
    ensures CellHash(rows, e, depth, q) == 0
  {
    assert CellRows(rows, e, depth, q) == map[];
  }

  /** A summary's leaf map is exactly the cell-hash function at the leaf depth. */
  lemma SummariseLeaf(rows: Rows, e: u32, depth: nat, q: u64)
    requires depth <= 64
    ensures LeafHash(Summarise(rows, e, depth).leaves, q) == CellHash(rows, e, depth, q)
    ensures q in Summarise(rows, e, depth).leaves <==> CellHash(rows, e, depth, q) != 0
  {
    if q !in LeafPrefixes(rows, e, depth) { EmptyCell(rows, e, depth, q); }
  }

  lemma SummariseCanonical(rows: Rows, e: u32, depth: nat)
    requires depth <= 64
    ensures Canonical(Summarise(rows, e, depth).leaves, depth)
  {
    forall q | q in LeafPrefixes(rows, e, depth) ensures IsPrefix(q, depth) {
      var k :| k in rows && k.epoch == e && PrefixAt(k.morton, depth) == q;
      PrefixBrackets(k.morton, depth, q);
    }
  }

  lemma SummariseOtherEpoch(rows: Rows, k: Key, v: Payload, e: u32, depth: nat)
    requires depth <= 64 && e != k.epoch
    ensures Summarise(rows[k := v], e, depth) == Summarise(rows, e, depth)
    ensures Summarise(rows - {k}, e, depth) == Summarise(rows, e, depth)
  {
    assert EpochRows(rows[k := v], e) == EpochRows(rows, e) == EpochRows(rows - {k}, e);
    SummariseCongruent(rows[k := v], rows, e, depth);
    SummariseCongruent(rows - {k}, rows, e, depth);
  }

  lemma SummariseLocal(rows: Rows, e: u32, depth: nat)
    requires depth <= 64
    ensures Summarise(rows, e, depth) == Summarise(EpochRows(rows, e), e, depth)
  {
    var only := EpochRows(rows, e);
    assert EpochRows(only, e) == only;
    assert LeafPrefixes(only, e, depth) == LeafPrefixes(rows, e, depth);
    forall q: u64 ensures CellHash(only, e, depth, q) == CellHash(rows, e, depth, q) {
      assert CellRows(only, e, depth, q) == CellRows(rows, e, depth, q);
    }
  }

  /** A summary depends on the rows of its epoch alone. */
  lemma SummariseCongruent(a: Rows, b: Rows, e: u32, depth: nat)
    requires depth <= 64 && EpochRows(a, e) == EpochRows(b, e)
    ensures Summarise(a, e, depth) == Summarise(b, e, depth)
  {
    SummariseLocal(a, e, depth);
    SummariseLocal(b, e, depth);
  }

  lemma SummariseWith(rows: Rows, k: Key, v: Payload, depth: nat)
    requires depth <= 64 && k !in rows
    ensures var s := Summarise(rows, k.epoch, depth);
            Summarise(rows[k := v], k.epoch, depth) == Summary(s.count + 1, Toggled(s.leaves, depth, k, v))
  {
    hide ToggleLeaf, XorHash, PrefixAt;
    var e := k.epoch;
    var s, t := Summarise(rows, e, depth), Summarise(rows[k := v], e, depth);
    assert EpochRows(rows[k := v], e) == EpochRows(rows, e)[k := v];
    var want := Toggled(s.leaves, depth, k, v);
    forall q: u64
      ensures q in t.leaves <==> q in want
      ensures q in t.leaves ==> t.leaves[q] == want[q]
    {
      LeafWith(rows, k, v, depth, q);
    }
    assert t.leaves == want;
  }

  lemma LeafWith(rows: Rows, k: Key, v: Payload, depth: nat, q: u64)
    requires depth <= 64 && k !in rows
    ensures var after := Summarise(rows[k := v], k.epoch, depth).leaves;
            var want := Toggled(Summarise(rows, k.epoch, depth).leaves, depth, k, v);
            && (q in after <==> q in want)
            && (q in after ==> after[q] == want[q])
  {
    hide CellHash, Summarise, PrefixAt;
    SummariseLeaf(rows, k.epoch, depth, q);
    SummariseLeaf(rows[k := v], k.epoch, depth, q);
    CellHashWith(rows, k, v, k.epoch, depth, q);
    XorComm(ItemDigest(k, v), CellHash(rows, k.epoch, depth, q));
  }

  lemma InsertValid(f: Forest, k: Key, v: Payload)
    requires f.Valid()
    ensures f.Insert(k, v).Valid() && f.Remove(k, v).Valid()
  {
    PrefixBrackets(k.morton, f.depth, PrefixAt(k.morton, f.depth));
  }

  /** Folding a row in keeps a forest in step with its rows just when the key is fresh. */
  lemma InsertInStep(f: Forest, rows: Rows, k: Key, v: Payload)
    requires Represents(f, rows)
    ensures Represents(f.Insert(k, v), rows[k := v]) <==> k !in rows
  {
    InsertValid(f, k, v);
    var g := f.Insert(k, v);
    if k !in rows {
      forall e: u32 ensures g.At(e) == Summarise(rows[k := v], e, g.depth) {
        if e == k.epoch { SummariseWith(rows, k, v, f.depth); } else { SummariseOtherEpoch(rows, k, v, e, f.depth); }
      }
    } else {
      assert EpochRows(rows[k := v], k.epoch).Keys == EpochRows(rows, k.epoch).Keys;
      assert |EpochRows(rows[k := v], k.epoch).Keys| == |EpochRows(rows, k.epoch).Keys|;
      assert g.At(k.epoch).count == Summarise(rows, k.epoch, f.depth).count + 1;
      assert g.At(k.epoch) != Summarise(rows[k := v], k.epoch, g.depth);
    }
  }

  /** Folding out exactly the row that was folded in undoes it. */
  lemma RemoveInStep(f: Forest, rows: Rows, k: Key)
    requires Represents(f, rows) && k in rows
    ensures Represents(f.Remove(k, rows[k]), rows - {k})
  {
    hide Summarise, ToggleLeaf, PrefixAt;
    var v, rest := rows[k], rows - {k};
    assert rest[k := v] == rows;
    InsertValid(f, k, v);
    SummariseWith(rest, k, v, f.depth);
    SummariseCanonical(rest, k.epoch, f.depth);
    ToggleTwice(Summarise(rest, k.epoch, f.depth).leaves, PrefixAt(k.morton, f.depth), ItemDigest(k, v));
    var g := f.Remove(k, v);
    assert f.At(k.epoch).count > 0;
    forall e: u32 ensures g.At(e) == Summarise(rest, e, g.depth) {
      if e != k.epoch { SummariseOtherEpoch(rows, k, v, e, f.depth); }
    }
  }

  /** Swapping one row for another at the same key, as a merge does. */
  lemma ReplaceInStep(f: Forest, rows: Rows, k: Key, v: Payload)
    requires Represents(f, rows) && k in rows
    ensures Represents(f.Remove(k, rows[k]).Insert(k, v), rows[k := v])
  {
    RemoveInStep(f, rows, k);
    InsertInStep(f.Remove(k, rows[k]), rows - {k}, k, v);
    assert (rows - {k})[k := v] == rows[k := v];
  }

  /** The leaves of a summary fold up to the plain fold over rows at every depth. */
  lemma {:induction false} SummaryHash(rows: Rows, e: u32, depth: nat, d: nat, p: u64)
    requires d <= depth <= 64
    ensures NodeHash(Summarise(rows, e, depth).leaves, d, p) == CellHash(rows, e, d, p)
    decreases |rows|
  {
    if rows == map[] {
      assert Summarise(rows, e, depth).leaves == map[];
      assert CellRows(rows, e, d, p) == map[];
    } else {
      var k :| k in rows;
      var v, rest := rows[k], rows - {k};
      assert rest[k := v] == rows;
      SummaryHash(rest, e, depth, d, p);
      CellHashWith(rest, k, v, e, d, p);
      if k.epoch == e {
        var s := Summarise(rest, e, depth);
        SummariseWith(rest, k, v, depth);
        NodeHashToggle(s.leaves, PrefixAt(k.morton, depth), ItemDigest(k, v), d, p);
        PrefixOfPrefix(k.morton, d, depth);
      } else {
        SummariseOtherEpoch(rows, k, v, e, depth);
      }
    }
  }

  /** In a forest in step with its rows every node, at every depth, is the plain fold of its cell. */
  lemma HashIsFold(f: Forest, rows: Rows, e: u32, d: nat, p: u64)
    requires Represents(f, rows) && d <= f.depth && IsDepth(d)
    ensures f.Hash(e, d, p) == CellHash(rows, e, d, if d == 0 then 0 else p)
  {
    SummaryHash(rows, e, f.depth, d, if d == 0 then 0 else p);
  }

  /** Forests of different leaf depths over the same rows agree wherever both have a node. */
  lemma HashIgnoresDepth(f: Forest, g: Forest, rows: Rows, e: u32, d: nat, p: u64)
    requires Represents(f, rows) && Represents(g, rows)
    requires d <= f.depth && d <= g.depth && IsDepth(d)
    ensures f.Hash(e, d, p) == g.Hash(e, d, p)
  {
    HashIsFold(f, rows, e, d, p);
    HashIsFold(g, rows, e, d, p);
  }
}
