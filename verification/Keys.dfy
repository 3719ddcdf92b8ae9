/** The 20-byte spatio-temporal key, its Morton cells and the key range of one cell. */
module Keys {
  import opened Words
  import opened Bytes

  /** The three big-endian fields of a 20-byte key. */
  datatype Key = Key(epoch: u32, morton: u64, nano: u64)

  type Payload = Bytes

  const KEY_LEN: nat := 20

  function KeyBytes(k: Key): (b: Bytes)
    ensures |b| == KEY_LEN
  {
    ToBe(k.epoch, 4) + ToBe(k.morton, 8) + ToBe(k.nano, 8)
  }

  function KeyOf(b: Bytes): Key
    requires |b| == KEY_LEN
  {
    FieldBounds(b);
    Key(FromBe(b[..4]), FromBe(b[4..12]), FromBe(b[12..]))
  }

  lemma FieldBounds(b: Bytes)
    requires |b| == KEY_LEN
    ensures FromBe(b[..4]) <= U32_MAX && FromBe(b[4..12]) <= U64_MAX && FromBe(b[12..]) <= U64_MAX
  {
    Pow2Word();
    FromBeBound(b[..4]);
    FromBeBound(b[4..12]);
    FromBeBound(b[12..]);
  }

  /** Keys and 20-byte strings are in bijection. */
  lemma KeyRoundTrip(k: Key)
    ensures KeyOf(KeyBytes(k)) == k
  {
    Pow2Word();
    var b := KeyBytes(k);
    assert b[..4] == ToBe(k.epoch, 4) && b[4..12] == ToBe(k.morton, 8) && b[12..] == ToBe(k.nano, 8);
    FromToBe(k.epoch, 4);
    FromToBe(k.morton, 8);
    FromToBe(k.nano, 8);
  }

  lemma BytesRoundTrip(b: Bytes)
    requires |b| == KEY_LEN
    ensures KeyBytes(KeyOf(b)) == b
  {
    ToFromBe(b[..4]);
    ToFromBe(b[4..12]);
    ToFromBe(b[12..]);
    assert b == b[..4] + b[4..12] + b[12..];
  }

  /** Numeric order on (epoch, Morton code, nanosecond offset). */
  predicate KeyLess(a: Key, b: Key)
  {
    a.epoch < b.epoch
    || (a.epoch == b.epoch && a.morton < b.morton)
    || (a.epoch == b.epoch && a.morton == b.morton && a.nano < b.nano)
  }

  /** The byte order the KV tree scans in is the numeric order on the fields. */
  lemma KeyOrder(a: Key, b: Key)
    ensures Less(KeyBytes(a), KeyBytes(b)) <==> KeyLess(a, b)
  {
    Pow2Word();
    LessConcat(ToBe(a.epoch, 4) + ToBe(a.morton, 8), ToBe(a.nano, 8),
               ToBe(b.epoch, 4) + ToBe(b.morton, 8), ToBe(b.nano, 8));
    LessConcat(ToBe(a.epoch, 4), ToBe(a.morton, 8), ToBe(b.epoch, 4), ToBe(b.morton, 8));
    LessToBe(a.epoch, b.epoch, 4);
    LessToBe(a.morton, b.morton, 8);
    LessToBe(a.nano, b.nano, 8);
    PairEq(ToBe(a.epoch, 4), ToBe(a.morton, 8), ToBe(b.epoch, 4), ToBe(b.morton, 8));
  }

  lemma PairEq(a: Bytes, b: Bytes, c: Bytes, d: Bytes)
    requires |a| == |c|
    ensures a + b == c + d <==> a == c && b == d
  {
    if a + b == c + d {
      assert a == (a + b)[..|a|] && b == (a + b)[|a|..];
      assert c == (c + d)[..|c|] && d == (c + d)[|c|..];
    }
  }

  // -------------------------------------------------------------------------
  // Morton cells
  // -------------------------------------------------------------------------

  /** A tree depth in bits: the levels of the octree, the root at 0. */
  predicate IsDepth(d: nat)
  {
    d <= 63 && d % 3 == 0
  }

  lemma NextDepth(d: nat, leaf: nat)
    requires IsDepth(d) && IsDepth(leaf) && d < leaf
    ensures IsDepth(d + 3) && d + 3 <= leaf
  {
  }

  /** Width, in Morton codes, of a cell at depth `d`. */
  function CellWidth(d: nat): (w: nat)
    requires d <= 64
    ensures w > 0
  {
    Pow2(64 - d)
  }

  /** `(morton >> (64 - d)) << (64 - d)`. */
  function PrefixAt(morton: u64, d: nat): u64
    requires d <= 64
  {
    var w := CellWidth(d);
    SnapBounds(morton, w);
    morton / w * w
  }

  /** A prefix at depth `d` is a multiple of the cell width. */
  predicate IsPrefix(p: u64, d: nat)
    requires d <= 64
  {
    PrefixAt(p, d) == p
  }

  /** The prefix of a code names the one aligned cell that holds it. */
  lemma PrefixBrackets(m: u64, d: nat, p: u64)
    requires d <= 64
    ensures PrefixAt(m, d) == p <==> IsPrefix(p, d) && p <= m < p + CellWidth(d)
    ensures IsPrefix(PrefixAt(m, d), d)
  {
    SnapBrackets(m, CellWidth(d), p);
    SnapBrackets(m, CellWidth(d), PrefixAt(m, d));
  }

  /** Distinct prefixes are at least a cell apart. */
  lemma PrefixApart(p: u64, q: u64, d: nat)
    requires d <= 64 && IsPrefix(p, d) && IsPrefix(q, d) && p < q
    ensures p + CellWidth(d) <= q
  {
    PrefixBrackets(q, d, p);
  }

  lemma WidthSplit(d1: nat, d2: nat)
    requires d1 <= d2 <= 64
    ensures CellWidth(d1) == Pow2(d2 - d1) * CellWidth(d2)
  {
    Pow2Add(d2 - d1, 64 - d2);
  }

  /** A coarse prefix depends on the finer prefix alone. */
  lemma PrefixOfPrefix(m: u64, d1: nat, d2: nat)
    requires d1 <= d2 <= 64
    ensures PrefixAt(PrefixAt(m, d2), d1) == PrefixAt(m, d1)
  {
    var w1, w2, k := CellWidth(d1), CellWidth(d2), Pow2(d2 - d1);
    WidthSplit(d1, d2);
    SnapTwice(m, w2, k);
  }

  lemma RootPrefix(m: u64)
    ensures PrefixAt(m, 0) == 0
  {
    Pow2Word();
    DivUnique(m, CellWidth(0), 0);
  }

  /** Prefix of child `c` of a cell: `prefix | (c << (64 - child_depth))`. */
  function ChildPrefix(p: u64, d: nat, c: nat): u64
    requires d + 3 <= 63 && c < 8
  {
    var s := c * CellWidth(d + 3);
    assert s <= U64_MAX by { ChildOffset(d, c); }
    OrBound(p, s);
    Or(p, s)
  }

  lemma ChildOffset(d: nat, c: nat)
    requires d + 3 <= 63 && c < 8
    ensures c * CellWidth(d + 3) + CellWidth(d + 3) <= CellWidth(d) <= U64_MAX + 1
  {
    var v := CellWidth(d + 3);
    EightWidths(d);
    MulMono(c + 1, 8, v);
    Distribute(c, 1, v);
    WidthBound(d);
  }

  lemma WidthBound(d: nat)
    requires d <= 64
    ensures CellWidth(d) <= U64_MAX + 1
  {
    Pow2Word();
    Pow2Mono(64 - d, 64);
  }

  lemma {:induction false} OrBoundBits(a: nat, b: nat, k: nat)
    requires a < Pow2(k) && b < Pow2(k)
    ensures Or(a, b) < Pow2(k)
  {
    if a != 0 && b != 0 { OrBoundBits(a / 2, b / 2, k - 1); }
  }

  lemma OrBound(a: u64, b: u64)
    ensures Or(a, b) <= U64_MAX
  {
    Pow2Word();
    OrBoundBits(a, b, 64);
  }

  lemma ChildPrefixIsSum(p: u64, d: nat, c: nat)
    requires d + 3 <= 63 && c < 8 && IsPrefix(p, d)
    ensures ChildPrefix(p, d, c) == p + c * CellWidth(d + 3)
  {
    ChildOffset(d, c);
    OrIsSum(p, c * CellWidth(d + 3), 64 - d);
  }

  lemma ChildPrefixIsPrefix(p: u64, d: nat, c: nat)
    requires d + 3 <= 63 && c < 8 && IsPrefix(p, d)
    ensures ChildPrefix(p, d, c) == (8 * (p / CellWidth(d)) + c) * CellWidth(d + 3)
    ensures IsPrefix(ChildPrefix(p, d, c), d + 3)
  {
    hide ChildPrefix, CellWidth;
    var v, q := CellWidth(d + 3), p / CellWidth(d);
    ChildPrefixIsSum(p, d, c);
    EightWidths(d);
    OctantStart(p, v, q, c);
    MultipleIsPrefix(ChildPrefix(p, d, c), d + 3, 8 * q + c);
  }

  lemma MultipleIsPrefix(p: u64, d: nat, q: nat)
    requires d <= 64 && p == q * CellWidth(d)
    ensures IsPrefix(p, d)
  {
    hide CellWidth;
    DivAddMultiple(q, 0, CellWidth(d));
  }

  lemma EightWidths(d: nat)
    requires d + 3 <= 63
    ensures CellWidth(d) == 8 * CellWidth(d + 3)
  {
    WidthSplit(d, d + 3);
    Pow2Byte();
  }

  /** The child of a cell that a code falls in. */
  function ChildIndex(m: u64, d: nat): (c: nat)
    requires d + 3 <= 63
    ensures c < 8
  {
    m / CellWidth(d + 3) % 8
  }

  /** A code of a cell lies in exactly one of the eight children. */
  lemma ChildOfCode(m: u64, d: nat, p: u64, c: nat)
    requires d + 3 <= 63 && c < 8 && IsPrefix(p, d)
    ensures PrefixAt(m, d + 3) == ChildPrefix(p, d, c)
            <==> PrefixAt(m, d) == p && c == ChildIndex(m, d)
  {
    var w, v := CellWidth(d), CellWidth(d + 3);
    var pq := p / w;
    ChildPrefixIsPrefix(p, d, c);
    EightWidths(d);
    OctantOf(m, v, pq, c);
    SameBlock(m, v, 8 * pq + c);
    SameBlock(m, w, pq);
  }

  lemma SameBlock(m: nat, w: nat, q: nat)
    requires w > 0
    ensures m / w * w == q * w <==> m / w == q
  {
    if m / w * w == q * w { MulCancel(m / w, q, w); }
  }

  /** Whether a key belongs to cell (epoch, depth, prefix). */
  predicate InCell(k: Key, e: u32, d: nat, p: u64)
    requires d <= 64
  {
    k.epoch == e && PrefixAt(k.morton, d) == p
  }

  /** `leaf_key_range`: the first and the last key of a cell. */
  function LeafKeyRange(e: u32, p: u64, d: nat): (Key, Key)
    requires 1 <= d <= 63
  {
    (Key(e, p, 0), Key(e, LastCode(p, d), U64_MAX))
  }

  /** `prefix | spatial_mask`. */
  function LastCode(p: u64, d: nat): u64
    requires 1 <= d <= 63
  {
    Pow2Word();
    Pow2Mono(64 - d, 63);
    Pow2Mono(64 - d, 64);
    OrBound(p, CellWidth(d) - 1);
    Or(p, CellWidth(d) - 1)
  }

  lemma LastCodeIsSum(p: u64, d: nat)
    requires 1 <= d <= 63 && IsPrefix(p, d)
    ensures LastCode(p, d) == p + CellWidth(d) - 1
  {
    OrIsSum(p, CellWidth(d) - 1, 64 - d);
  }

  predicate InRange(k: Key, r: (Key, Key))
  {
    !KeyLess(k, r.0) && !KeyLess(r.1, k)
  }

  /** The inclusive key range of a cell holds the keys of the cell and no others. */
  lemma LeafRangeIsCell(k: Key, e: u32, p: u64, d: nat)
    requires 1 <= d <= 63 && IsPrefix(p, d)
    ensures InRange(k, LeafKeyRange(e, p, d)) <==> InCell(k, e, d, p)
  {
    LastCodeIsSum(p, d);
    PrefixBrackets(k.morton, d, p);
  }
}
