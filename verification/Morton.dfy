/** Bit interleaving of three 21-bit coordinates, and how cell prefixes see it. */
module Morton {
  import opened Words
  import opened Keys

  const AXIS_BITS: nat := 21
  const AXIS_MAX: u32 := 0x1F_FFFF

  /** Interleaves the low `n` bits of each coordinate: bit i of x, y, z goes to bit 3i+2, 3i+1, 3i. */
  function Interleave(x: nat, y: nat, z: nat, n: nat): nat
  {
    if n == 0 then 0 else 8 * Interleave(x / 2, y / 2, z / 2, n - 1) + 4 * (x % 2) + 2 * (y % 2) + z % 2
  }

  /** Every third bit of `m`, the lowest `n` of them. */
  function EveryThird(m: nat, n: nat): nat
  {
    if n == 0 then 0 else 2 * EveryThird(m / 8, n - 1) + m % 2
  }

  lemma Pow2Eight(n: nat)
    ensures Pow2(3 * n + 3) == 8 * Pow2(3 * n)
  {
    Pow2Add(3, 3 * n);
    Pow2Byte();
  }

  lemma {:induction false} InterleaveBound(x: nat, y: nat, z: nat, n: nat)
    ensures Interleave(x, y, z, n) < Pow2(3 * n)
  {
    if n > 0 {
      InterleaveBound(x / 2, y / 2, z / 2, n - 1);
      Pow2Eight(n - 1);
    }
  }

  lemma {:induction false} EveryThirdBound(m: nat, n: nat)
    ensures EveryThird(m, n) < Pow2(n)
  {
    if n > 0 { EveryThirdBound(m / 8, n - 1); }
  }

  function Encode(x: u32, y: u32, z: u32): (m: u64)
    ensures m < 0x8000_0000_0000_0000
  {
    InterleaveBound(x, y, z, 21);
    Pow2Code();
    Interleave(x, y, z, 21)
  }

  lemma LowGroup(a: nat, x: nat, y: nat, z: nat)
    requires x < 2 && y < 2 && z < 2
    ensures var m := 8 * a + 4 * x + 2 * y + z; Shr(m, 3) == a && Bit(m, 2) == x && Bit(m, 1) == y && Bit(m, 0) == z
  {
    var m := 8 * a + 4 * x + 2 * y + z;
    assert m / 2 == 4 * a + 2 * x + y && m / 2 / 2 == 2 * a + x && m / 2 / 2 / 2 == a;
    assert Shr(m, 3) == Shr(m / 2, 2) == Shr(m / 2 / 2, 1) == Shr(m / 2 / 2 / 2, 0);
    assert Shr(m, 2) == Shr(m / 2, 1) == Shr(m / 2 / 2, 0);
    assert Shr(m, 1) == Shr(m / 2, 0);
  }

  lemma {:induction false} InterleaveBits(x: nat, y: nat, z: nat, n: nat, i: nat)
    requires i < n
    ensures var m := Interleave(x, y, z, n);
            Bit(m, 3 * i + 2) == Bit(x, i) && Bit(m, 3 * i + 1) == Bit(y, i) && Bit(m, 3 * i) == Bit(z, i)
    decreases i
  {
    var m, high := Interleave(x, y, z, n), Interleave(x / 2, y / 2, z / 2, n - 1);
    LowGroup(high, x % 2, y % 2, z % 2);
    if i > 0 {
      InterleaveBits(x / 2, y / 2, z / 2, n - 1, i - 1);
      ShrShr(m, 3, 3 * i - 1);
      ShrShr(m, 3, 3 * i - 2);
      ShrShr(m, 3, 3 * i - 3);
    }
  }

  /** Bit `i` of the x, y and z axis is bit 3i+2, 3i+1 and 3i of the code. */
  lemma EncodeBits(x: u32, y: u32, z: u32, i: nat)
    requires i < 21
    ensures Bit(Encode(x, y, z), 3 * i + 2) == Bit(x, i)
    ensures Bit(Encode(x, y, z), 3 * i + 1) == Bit(y, i)
    ensures Bit(Encode(x, y, z), 3 * i) == Bit(z, i)
  {
    InterleaveBits(x, y, z, 21, i);
  }

  lemma Pow2Seven()
    ensures Pow2(7) == 0x80
  {
  }

  lemma Pow2Code()
    ensures Pow2(63) == 0x8000_0000_0000_0000 && Pow2(21) == 0x20_0000
  {
    hide Pow2;
    Pow2Seven();
    Pow2Add(7, 7);
    Pow2Add(14, 7);
    Pow2Add(21, 21);
    Pow2Add(42, 21);
  }

  // -------------------------------------------------------------------------
  // The loops
  // -------------------------------------------------------------------------

  /** The next group of three bits. */
  function Group(x: nat, y: nat, z: nat, n: nat): nat
  {
    4 * Bit(x, n) + 2 * Bit(y, n) + Bit(z, n)
  }

  lemma ShlEight(m: nat, n: nat)
    ensures Shl(m, n + 3) == 8 * Shl(m, n)
  {
    assert Shl(m, n + 3) == 2 * Shl(m, n + 2) && Shl(m, n + 2) == 2 * Shl(m, n + 1);
  }

  /** ... goes on top. */
  lemma {:induction false} InterleaveStep(x: nat, y: nat, z: nat, n: nat)
    ensures Interleave(x, y, z, n + 1) == Interleave(x, y, z, n) + Shl(Group(x, y, z, n), 3 * n)
    decreases n
  {
    if n > 0 {
      InterleaveStep(x / 2, y / 2, z / 2, n - 1);
      ShlEight(Group(x, y, z, n), 3 * n - 3);
      assert Group(x / 2, y / 2, z / 2, n - 1) == Group(x, y, z, n);
    }
  }

  lemma {:induction false} EveryThirdStep(m: nat, n: nat)
    ensures EveryThird(m, n + 1) == EveryThird(m, n) + Shl(Bit(m, 3 * n), n)
    decreases n
  {
    if n > 0 {
      EveryThirdStep(m / 8, n - 1);
      ShrEight(m, 3 * n - 3);
    }
  }

  lemma ShrEight(m: nat, n: nat)
    ensures Shr(m, n + 3) == Shr(m / 8, n)
  {
    assert Shr(m, n + 3) == Shr(m / 2, n + 2) && Shr(m / 2, n + 2) == Shr(m / 2 / 2, n + 1);
  }

  /** The three ORs of one round of the encoder. */
  lemma PutThree(m: nat, u: nat, v: nat, w: nat, k: nat)
    requires m < Pow2(k) && u < 2 && v < 2 && w < 2
    ensures Or(Or(Or(m, Shl(u, k + 2)), Shl(v, k + 1)), Shl(w, k)) == m + Shl(4 * u + 2 * v + w, k)
  {
    hide Or, Shl, Pow2;
    Pow2Mono(k, k + 1);
    Pow2Mono(k, k + 2);
    ShlIsMul(0, k + 3);
    PutBit(0, m, u, k + 2);
    PutBit(u, m, v, k + 1);
    PutBit(2 * u + v, m, w, k);
    ThreeShl(u, v, w, k);
  }

  lemma ThreeShl(u: nat, v: nat, w: nat, k: nat)
    ensures Shl(u, k + 2) + Shl(v, k + 1) == Shl(2 * u + v, k + 1)
    ensures Shl(2 * u + v, k + 1) + Shl(w, k) == Shl(4 * u + 2 * v + w, k)
  {
    ShlShl(u, 1, k + 1);
    ShlSum(2 * u, v, k + 1);
    ShlShl(2 * u + v, 1, k);
    ShlSum(4 * u + 2 * v, w, k);
  }

  method Encode3dMorton(x: u32, y: u32, z: u32) returns (morton: u64)
    ensures morton == Encode(x, y, z)
  {
    morton := 0;
    for i := 0 to 21
      invariant morton == Interleave(x, y, z, i)
    {
      ghost var m := morton;
      InterleaveBound(x, y, z, i);
      InterleaveStep(x, y, z, i);
      PutThree(m, Bit(x, i), Bit(y, i), Bit(z, i), 3 * i);
      EncodeBound(x, y, z, i + 1);
      hide Or, Shl, Bit, Interleave;
      var next := Or(morton, Shl(Bit(x, i), 3 * i + 2));
      next := Or(next, Shl(Bit(y, i), 3 * i + 1));
      next := Or(next, Shl(Bit(z, i), 3 * i));
      morton := next;
    }
  }

  lemma EncodeBound(x: nat, y: nat, z: nat, n: nat)
    requires n <= 21
    ensures Interleave(x, y, z, n) <= U64_MAX
  {
    InterleaveBound(x, y, z, n);
    Pow2Mono(3 * n, 63);
    Pow2Code();
  }

  /** Deinterleaved x, y and z: the bits at 3i+2, 3i+1 and 3i. */
  function Decode(m: u64): (u32, u32, u32)
  {
    AxisBound(m, 0);
    AxisBound(m, 1);
    AxisBound(m, 2);
    (Axis(m, 2), Axis(m, 1), Axis(m, 0))
  }

  function Axis(m: nat, s: nat): nat
  {
    EveryThird(Shr(m, s), 21)
  }

  lemma AxisBound(m: nat, s: nat)
    ensures Axis(m, s) <= AXIS_MAX
  {
    EveryThirdBound(Shr(m, s), 21);
    Pow2Code();
  }

  lemma AxisRound(m: nat, s: nat, i: nat)
    ensures Or(EveryThird(Shr(m, s), i), Shl(Bit(m, 3 * i + s), i)) == EveryThird(Shr(m, s), i + 1)
  {
    var a := EveryThird(Shr(m, s), i);
    EveryThirdBound(Shr(m, s), i);
    EveryThirdStep(Shr(m, s), i);
    ShrShr(m, s, 3 * i);
    ShlIsMul(0, i + 1);
    PutBit(0, a, Bit(m, 3 * i + s), i);
  }

  method Decode3dMorton(m: u64) returns (xyz: (u32, u32, u32))
    ensures xyz == Decode(m)
  {
    var x, y, z: nat := 0, 0, 0;
    for i := 0 to 21
      invariant x == EveryThird(Shr(m, 2), i) && y == EveryThird(Shr(m, 1), i) && z == EveryThird(Shr(m, 0), i)
    {
      AxisRound(m, 2, i);
      AxisRound(m, 1, i);
      AxisRound(m, 0, i);
      hide Or, Shl, Bit, Shr, EveryThird;
      x := Or(x, Shl(Bit(m, 3 * i + 2), i));
      y := Or(y, Shl(Bit(m, 3 * i + 1), i));
      z := Or(z, Shl(Bit(m, 3 * i), i));
    }
    AxisBound(m, 0);
    AxisBound(m, 1);
    AxisBound(m, 2);
    xyz := (x, y, z);
  }

  // -------------------------------------------------------------------------
  // Inverses
  // -------------------------------------------------------------------------

  /** One group on top of `r`, seen from its top, its middle and its bottom bit. */
  lemma GroupDigits(r: nat, u: nat, v: nat, w: nat)
    requires u < 2 && v < 2 && w < 2
    ensures var m := 8 * r + 4 * u + 2 * v + w;
            && m / 4 / 8 == r / 4 && m / 4 % 2 == u
            && m / 2 / 8 == r / 2 && m / 2 % 2 == v
            && m / 8 == r && m % 2 == w
  {
    var m := 8 * r + 4 * u + 2 * v + w;
    QuotRem(m, 4, 2 * r + u, 2 * v + w);
    QuotRem(m, 2, 4 * r + 2 * u + v, w);
    QuotRem(m, 8, r, 4 * u + 2 * v + w);
    QuotRem(2 * r + u, 2, r, u);
    QuotRem(4 * r + 2 * u + v, 2, 2 * r + u, v);
    QuotRem(2 * r + u, 8, r / 4, 2 * (r % 4) + u);
    QuotRem(4 * r + 2 * u + v, 8, r / 2, 4 * (r % 2) + 2 * u + v);
  }

  lemma QuotRem(m: nat, s: nat, q: nat, rem: nat)
    requires rem < s && m == s * q + rem
    ensures m / s == q && m % s == rem
  {
    DivAddMultiple(q, rem, s);
  }

  lemma Digits(m: nat)
    ensures m == 8 * (m / 8) + 4 * (m / 4 % 2) + 2 * (m / 2 % 2) + m % 2
  {
    assert m / 4 == m / 2 / 2 && m / 8 == m / 4 / 2;
  }

  lemma {:induction false} ThirdsOfInterleave(x: nat, y: nat, z: nat, n: nat)
    requires x < Pow2(n) && y < Pow2(n) && z < Pow2(n)
    ensures var m := Interleave(x, y, z, n);
            EveryThird(m / 4, n) == x && EveryThird(m / 2, n) == y && EveryThird(m, n) == z
    decreases n
  {
    if n > 0 {
      ThirdsOfInterleave(x / 2, y / 2, z / 2, n - 1);
      GroupDigits(Interleave(x / 2, y / 2, z / 2, n - 1), x % 2, y % 2, z % 2);
    }
  }

  lemma {:induction false} InterleaveOfThirds(m: nat, n: nat)
    requires m < Pow2(3 * n)
    ensures Interleave(EveryThird(m / 4, n), EveryThird(m / 2, n), EveryThird(m, n), n) == m
    decreases n
  {
    hide EveryThird, Interleave, Pow2;
    InterleaveNone(m);
    if n > 0 {
      var r := m / 8;
      BelowEight(m, n);
      InterleaveOfThirds(r, n - 1);
      ThirdsStep(m, n);
      Digits(m);
      InterleaveHalves(EveryThird(r / 4, n - 1), m / 4 % 2, EveryThird(r / 2, n - 1), m / 2 % 2, EveryThird(r, n - 1),
                       m % 2, n);
    }
  }

  lemma InterleaveNone(m: nat)
    ensures Interleave(EveryThird(m / 4, 0), EveryThird(m / 2, 0), EveryThird(m, 0), 0) == 0
    ensures m < Pow2(3 * 0) ==> m == 0
  {
  }

  lemma BelowEight(m: nat, n: nat)
    requires n > 0 && m < Pow2(3 * n)
    ensures m / 8 < Pow2(3 * (n - 1))
  {
    Pow2Eight(n - 1);
  }

  lemma ThirdsStep(m: nat, n: nat)
    requires n > 0
    ensures EveryThird(m / 4, n) == 2 * EveryThird(m / 8 / 4, n - 1) + m / 4 % 2
    ensures EveryThird(m / 2, n) == 2 * EveryThird(m / 8 / 2, n - 1) + m / 2 % 2
    ensures EveryThird(m, n) == 2 * EveryThird(m / 8, n - 1) + m % 2
  {
    Digits(m);
    GroupDigits(m / 8, m / 4 % 2, m / 2 % 2, m % 2);
  }

  lemma InterleaveHalves(x: nat, u: nat, y: nat, v: nat, z: nat, w: nat, n: nat)
    requires u < 2 && v < 2 && w < 2 && n > 0
    ensures Interleave(2 * x + u, 2 * y + v, 2 * z + w, n) == 8 * Interleave(x, y, z, n - 1) + 4 * u + 2 * v + w
  {
    QuotRem(2 * x + u, 2, x, u);
    QuotRem(2 * y + v, 2, y, v);
    QuotRem(2 * z + w, 2, z, w);
  }

  lemma ShrSmall(m: nat)
    ensures Shr(m, 0) == m && Shr(m, 1) == m / 2 && Shr(m, 2) == m / 4
  {
    assert Shr(m, 2) == Shr(m / 2, 1) && Shr(m / 2, 1) == Shr(m / 2 / 2, 0);
  }

  /** Decoding undoes encoding on 21-bit coordinates. */
  lemma DecodeEncode(x: u32, y: u32, z: u32)
    requires x <= AXIS_MAX && y <= AXIS_MAX && z <= AXIS_MAX
    ensures Decode(Encode(x, y, z)) == (x, y, z)
  {
    Pow2Code();
    ThirdsOfInterleave(x, y, z, 21);
    ShrSmall(Encode(x, y, z));
  }

  /** Encoding undoes decoding on codes below 2^63. */
  lemma EncodeDecode(m: u64)
    requires m < 0x8000_0000_0000_0000
    ensures Encode(Decode(m).0, Decode(m).1, Decode(m).2) == m
    ensures Decode(m).0 <= AXIS_MAX && Decode(m).1 <= AXIS_MAX && Decode(m).2 <= AXIS_MAX
  {
    Pow2Code();
    InterleaveOfThirds(m, 21);
    ShrSmall(m);
    AxisBound(m, 0);
    AxisBound(m, 1);
    AxisBound(m, 2);
  }

  // -------------------------------------------------------------------------
  // Prefixes
  // -------------------------------------------------------------------------

  /** Dropping `k` bits of every axis drops `3k` bits of the code. */
  lemma {:induction false} InterleaveShift(x: nat, y: nat, z: nat, n: nat, k: nat)
    requires k <= n
    ensures Shr(Interleave(x, y, z, n), 3 * k) == Interleave(Shr(x, k), Shr(y, k), Shr(z, k), n - k)
    decreases k
  {
    if k > 0 {
      InterleaveShift(x / 2, y / 2, z / 2, n - 1, k - 1);
      ShrEight(Interleave(x, y, z, n), 3 * k - 3);
    }
  }

  /** Bits of an axis below the grid of depth `d`. */
  function AxisShift(d: nat): nat
    requires 3 <= d && IsDepth(d)
  {
    21 - d / 3
  }

  lemma PrefixOfGrid(x: u32, y: u32, z: u32, d: nat)
    requires 3 <= d && IsDepth(d)
    ensures var k := AxisShift(d);
            PrefixAt(Encode(x, y, z), d) == Interleave(Shr(x, k), Shr(y, k), Shr(z, k), 21 - k) / 2 * CellWidth(d)
  {
    var k := AxisShift(d);
    var m := Encode(x, y, z);
    InterleaveShift(x, y, z, 21, k);
    ShrShr(m, 3 * k, 1);
    ShrIsDiv(m, 3 * k + 1);
    ShrSmall(Shr(m, 3 * k));
    assert 64 - d == 3 * k + 1;
    hide Shr, Interleave, Encode, Pow2;
  }

  /** Points of one grid cell share their prefix: it keeps only the cell's bits, all but the last of them. */
  lemma SameGridCellSamePrefix(x: u32, y: u32, z: u32, x': u32, y': u32, z': u32, d: nat)
    requires 3 <= d && IsDepth(d)
    requires var k := AxisShift(d); Shr(x, k) == Shr(x', k) && Shr(y, k) == Shr(y', k) && Shr(z, k) == Shr(z', k)
    ensures PrefixAt(Encode(x, y, z), d) == PrefixAt(Encode(x', y', z'), d)
  {
    PrefixOfGrid(x, y, z, d);
    PrefixOfGrid(x', y', z', d);
  }
}
