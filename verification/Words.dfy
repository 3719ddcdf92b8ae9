/** Fixed-width unsigned integers as naturals, their shifts and bitwise operators. */
module Words {

  type u8 = n: nat | n < 0x100
  type u32 = n: nat | n < 0x1_0000_0000
  type u64 = n: nat | n < 0x1_0000_0000_0000_0000
  type u128 = n: nat | n < 0x1_0000_0000_0000_0000_0000_0000_0000_0000

  const U32_MAX: u32 := 0xFFFF_FFFF
  const U64_MAX: u64 := 0xFFFF_FFFF_FFFF_FFFF

  function Pow2(k: nat): (r: nat)
    ensures r > 0
  {
    if k == 0 then 1 else 2 * Pow2(k - 1)
  }

  lemma {:induction false} Pow2Add(a: nat, b: nat)
    ensures Pow2(a + b) == Pow2(a) * Pow2(b)
  {
    if a > 0 {
      Pow2Add(a - 1, b);
      assert Pow2(a + b) == 2 * Pow2(a - 1 + b);
    }
  }

  lemma {:induction false} Pow2Mono(a: nat, b: nat)
    requires a <= b
    ensures Pow2(a) <= Pow2(b)
  {
    if a < b { Pow2Mono(a, b - 1); }
  }

  lemma Pow2Byte()
    ensures Pow2(0) == 1 && Pow2(1) == 2 && Pow2(3) == 8 && Pow2(8) == 0x100
  {
  }

  lemma Pow2Word()
    ensures Pow2(32) == 0x1_0000_0000
    ensures Pow2(64) == 0x1_0000_0000_0000_0000
  {
    Pow2Double(8, 0x100);
    Pow2Double(16, 0x1_0000);
    Pow2Double(32, 0x1_0000_0000);
  }

  lemma Pow2Double(n: nat, v: nat)
    requires Pow2(n) == v
    ensures Pow2(2 * n) == v * v
  {
    Pow2Add(n, n);
  }

  lemma Pow2Hash()
    ensures Pow2(128) == 0x1_0000_0000_0000_0000_0000_0000_0000_0000
  {
    Pow2Word();
    Pow2Double(64, 0x1_0000_0000_0000_0000);
  }

  // -------------------------------------------------------------------------
  // Division by a power of two, which is what a right shift does
  // -------------------------------------------------------------------------

  lemma MulMono(a: int, b: int, s: nat)
    requires a <= b
    ensures a * s <= b * s
  {
    assert (b - a) * s >= 0;
  }

  /** A quotient is the one multiple count that brackets its dividend. */
  lemma DivUnique(m: nat, s: nat, q: int)
    requires s > 0 && q * s <= m < q * s + s
    ensures m / s == q
  {
    var k := m / s;
    assert k * s <= m < k * s + s;
    if k < q {
      MulMono(k + 1, q, s);
    } else if k > q {
      MulMono(q + 1, k, s);
    }
  }

  lemma Distribute(x: int, y: int, z: int)
    ensures (x + y) * z == x * z + y * z
  {
  }

  lemma Reassociate(x: int, y: int, z: int)
    ensures (x * y) * z == x * (z * y)
  {
  }

  /** Rounding down to a multiple. */
  lemma SnapBounds(m: nat, s: nat)
    requires s > 0
    ensures 0 <= m / s * s <= m < m / s * s + s
  {
    var r := m % s;
    assert m == m / s * s + r;
  }

  lemma DivDiv(m: nat, a: nat, b: nat)
    requires a > 0 && b > 0
    ensures a * b > 0 && m / a / b == m / (a * b)
  {
    var k := m / a;
    var q := k / b;
    SnapBounds(m, a);
    SnapBounds(k, b);
    MulMono(q * b, k, a);
    MulMono(k + 1, q * b + b, a);
    Distribute(k, 1, a);
    Distribute(q * b, b, a);
    Reassociate(q, b, a);
    MulMono(1, b, a);
    DivUnique(m, a * b, q);
  }

  lemma DivMono(m: nat, n: nat, s: nat)
    requires m <= n && s > 0
    ensures m / s <= n / s
  {
    if m / s > n / s { MulMono(n / s + 1, m / s, s); }
  }

  /** Splits a quotient of a sum whose first part is a whole multiple. */
  lemma DivAddMultiple(q: nat, r: nat, s: nat)
    requires r < s
    ensures (q * s + r) / s == q && (q * s + r) % s == r
  {
    DivUnique(q * s + r, s, q);
  }

  /** Rounding down to a multiple of `w` finds the one aligned block that holds `m`. */
  lemma SnapBrackets(m: nat, w: nat, p: nat)
    requires w > 0
    ensures m / w * w == p <==> p / w * w == p && p <= m < p + w
  {
    var q := m / w;
    if q * w == p {
      DivUnique(p, w, q);
    } else if p / w * w == p && p <= m < p + w {
      DivUnique(m, w, p / w);
    }
  }

  /** Rounding down to a multiple of `w` first does not disturb rounding down to one of `k w`. */
  lemma SnapTwice(m: nat, w: nat, k: nat)
    requires w > 0 && k > 0
    ensures k * w > 0 && (m / w * w) / (k * w) * (k * w) == m / (k * w) * (k * w)
  {
    var f := m / w * w;
    DivAddMultiple(m / w, 0, w);
    DivDiv(m, w, k);
    DivDiv(f, w, k);
    assert w * k == k * w;
  }

  lemma MulCancel(a: nat, b: nat, s: nat)
    requires s > 0 && a * s == b * s
    ensures a == b
  {
    if a < b { MulMono(a + 1, b, s); } else if b < a { MulMono(b + 1, a, s); }
  }

  lemma OctantStart(p: nat, v: nat, pq: nat, c: nat)
    requires p == pq * (8 * v)
    ensures p + c * v == (8 * pq + c) * v
  {
    assert (8 * pq) * v == pq * (8 * v);
    assert (8 * pq + c) * v == (8 * pq) * v + c * v;
  }

  /** Block `pq` of width `8 v` is made of the eight blocks `8 pq + c` of width `v`. */
  lemma OctantOf(m: nat, v: nat, pq: nat, c: nat)
    requires v > 0 && c < 8
    ensures m / v == 8 * pq + c <==> m / (8 * v) == pq && m / v % 8 == c
  {
    DivDiv(m, v, 8);
    assert v * 8 == 8 * v;
  }

  // -------------------------------------------------------------------------
  // Shifts
  // -------------------------------------------------------------------------

  /** `m >> k`. */
  function Shr(m: nat, k: nat): nat
  {
    if k == 0 then m else Shr(m / 2, k - 1)
  }

  /** `m << k`, without overflow. */
  function Shl(m: nat, k: nat): nat
  {
    if k == 0 then m else 2 * Shl(m, k - 1)
  }

  lemma {:induction false} ShrIsDiv(m: nat, k: nat)
    ensures Shr(m, k) == m / Pow2(k)
    decreases k
  {
    if k > 0 {
      ShrIsDiv(m / 2, k - 1);
      DivDiv(m, 2, Pow2(k - 1));
    }
  }

  lemma {:induction false} ShlIsMul(m: nat, k: nat)
    ensures Shl(m, k) == m * Pow2(k)
  {
    if k > 0 {
      ShlIsMul(m, k - 1);
      assert 2 * (m * Pow2(k - 1)) == m * (2 * Pow2(k - 1));
    }
  }

  lemma {:induction false} ShrShr(m: nat, a: nat, b: nat)
    ensures Shr(Shr(m, a), b) == Shr(m, a + b)
    decreases a
  {
    if a > 0 { ShrShr(m / 2, a - 1, b); }
  }

  lemma {:induction false} ShrOfShl(hi: nat, lo: nat, k: nat)
    requires lo < Pow2(k)
    ensures Shr(Shl(hi, k) + lo, k) == hi
    decreases k
  {
    if k > 0 {
      ShrOfShl(hi, lo / 2, k - 1);
      assert (Shl(hi, k) + lo) / 2 == Shl(hi, k - 1) + lo / 2;
    }
  }

  lemma {:induction false} ShlSum(a: nat, b: nat, k: nat)
    ensures Shl(a + b, k) == Shl(a, k) + Shl(b, k)
    decreases k
  {
    if k > 0 { ShlSum(a, b, k - 1); }
  }

  lemma {:induction false} ShlShl(m: nat, a: nat, b: nat)
    ensures Shl(Shl(m, a), b) == Shl(m, a + b)
    decreases b
  {
    if b > 0 { ShlShl(m, a, b - 1); }
  }

  /** Bit `i` of `v`. */
  function Bit(v: nat, i: nat): nat
  {
    Shr(v, i) % 2
  }

  // -------------------------------------------------------------------------
  // Bitwise operators, bit by bit from the least significant end
  // -------------------------------------------------------------------------

  function Or(a: nat, b: nat): nat
  {
    if a == 0 then b
    else if b == 0 then a
    else 2 * Or(a / 2, b / 2) + (if a % 2 == 1 || b % 2 == 1 then 1 else 0)
  }

  /** An OR whose operands share no bits is a sum. */
  lemma {:induction false} OrIsSum(a: nat, b: nat, k: nat)
    requires a / Pow2(k) * Pow2(k) == a && b < Pow2(k)
    ensures Or(a, b) == a + b
  {
    if a != 0 && b != 0 {
      assert k > 0;
      var h := Pow2(k - 1);
      var q := a / Pow2(k);
      assert a == q * (2 * h) == 2 * (q * h);
      DivAddMultiple(q, 0, h);
      OrIsSum(a / 2, b / 2, k - 1);
    }
  }

  /** Setting a clear bit adds its weight. */
  lemma {:induction false} OrBit(a: nat, k: nat)
    requires Bit(a, k) == 0
    ensures Or(a, Shl(1, k)) == a + Shl(1, k)
    decreases k
  {
    if k > 0 {
      OrBit(a / 2, k - 1);
      OrDouble(a, Shl(1, k - 1));
    }
  }

  lemma OrDouble(a: nat, s: nat)
    requires Or(a / 2, s) == a / 2 + s
    ensures Or(a, 2 * s) == a + 2 * s
  {
  }

  /** Putting a bit into a gap left for it. */
  lemma PutBit(hi: nat, lo: nat, b: nat, k: nat)
    requires lo < Pow2(k) && b < 2
    ensures Or(Shl(hi, k + 1) + lo, Shl(b, k)) == Shl(hi, k + 1) + lo + Shl(b, k)
  {
    var a := Shl(hi, k + 1) + lo;
    ShlShl(hi, 1, k);
    ShrOfShl(2 * hi, lo, k);
    if b == 1 { OrBit(a, k); } else { ShlIsMul(0, k); }
  }

  function Xor(a: nat, b: nat): nat
  {
    if a == 0 then b
    else if b == 0 then a
    else 2 * Xor(a / 2, b / 2) + (if a % 2 != b % 2 then 1 else 0)
  }

  lemma {:induction false} XorComm(a: nat, b: nat)
    ensures Xor(a, b) == Xor(b, a)
  {
    if a != 0 && b != 0 { XorComm(a / 2, b / 2); }
  }

  lemma {:induction false} XorSelf(a: nat)
    ensures Xor(a, a) == 0
  {
    if a != 0 { XorSelf(a / 2); }
  }

  lemma XorHalves(a: nat, b: nat)
    ensures Xor(a, b) / 2 == Xor(a / 2, b / 2)
    ensures Xor(a, b) % 2 == if a % 2 != b % 2 then 1 else 0
  {
  }

  lemma {:induction false} XorAssoc(a: nat, b: nat, c: nat)
    ensures Xor(Xor(a, b), c) == Xor(a, Xor(b, c))
    decreases a + b + c
  {
    if a != 0 && b != 0 && c != 0 {
      XorAssoc(a / 2, b / 2, c / 2);
      var ab, bc := Xor(a, b), Xor(b, c);
      XorHalves(a, b);
      XorHalves(b, c);
      XorHalves(ab, c);
      XorHalves(a, bc);
    }
  }

  lemma {:induction false} XorBound(a: nat, b: nat, k: nat)
    requires a < Pow2(k) && b < Pow2(k)
    ensures Xor(a, b) < Pow2(k)
  {
    if a != 0 && b != 0 { XorBound(a / 2, b / 2, k - 1); }
  }

  lemma {:induction false} XorZero(a: nat, b: nat)
    requires Xor(a, b) == 0
    ensures a == b
  {
    if a != 0 && b != 0 { XorZero(a / 2, b / 2); }
  }

  /** XOR of two 128-bit hashes. */
  function XorHash(a: u128, b: u128): (r: u128)
    ensures a == 0 ==> r == b
    ensures b == 0 ==> r == a
  {
    Pow2Hash();
    XorBound(a, b, 128);
    Xor(a, b)
  }
}
