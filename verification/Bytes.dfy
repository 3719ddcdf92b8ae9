/** Byte strings: big-endian integers and the byte-lexicographic order of the KV tree. */
module Bytes {
  import opened Words

  type Bytes = seq<u8>

  /** The low `n` bytes of `v`, most significant first. */
  function ToBe(v: nat, n: nat): (b: Bytes)
    ensures |b| == n
  {
    if n == 0 then [] else ToBe(v / 0x100, n - 1) + [v % 0x100]
  }

  function FromBe(b: Bytes): nat
  {
    if b == [] then 0 else FromBe(b[..|b| - 1]) * 0x100 + b[|b| - 1]
  }

  lemma {:induction false} FromBeBound(b: Bytes)
    ensures FromBe(b) < Pow2(8 * |b|)
  {
    if b != [] {
      FromBeBound(b[..|b| - 1]);
      Pow2Add(8 * (|b| - 1), 8);
      Pow2Byte();
    }
  }

  /** A value that fits in `n` bytes survives the round trip. */
  lemma {:induction false} FromToBe(v: nat, n: nat)
    requires v < Pow2(8 * n)
    ensures FromBe(ToBe(v, n)) == v
  {
    if n > 0 {
      Pow2Add(8 * (n - 1), 8);
      Pow2Byte();
      FromToBe(v / 0x100, n - 1);
      assert ToBe(v, n)[..n - 1] == ToBe(v / 0x100, n - 1);
    }
  }

  lemma {:induction false} ToFromBe(b: Bytes)
    ensures ToBe(FromBe(b), |b|) == b
  {
    if b != [] {
      ToFromBe(b[..|b| - 1]);
      assert b == b[..|b| - 1] + [b[|b| - 1]];
    }
  }

  // -------------------------------------------------------------------------
  // Order
  // -------------------------------------------------------------------------

  /** Strict byte-lexicographic order; a proper prefix comes first. */
  predicate Less(a: Bytes, b: Bytes)
  {
    b != [] && (a == [] || a[0] < b[0] || (a[0] == b[0] && Less(a[1..], b[1..])))
  }

  lemma {:induction false} LessIrreflexive(a: Bytes)
    ensures !Less(a, a)
  {
    if a != [] { LessIrreflexive(a[1..]); }
  }

  lemma {:induction false} LessTransitive(a: Bytes, b: Bytes, c: Bytes)
    requires Less(a, b) && Less(b, c)
    ensures Less(a, c)
  {
    if a != [] && a[0] == b[0] == c[0] { LessTransitive(a[1..], b[1..], c[1..]); }
  }

  lemma {:induction false} LessTotal(a: Bytes, b: Bytes)
    ensures a == b || Less(a, b) || Less(b, a)
  {
    if a != [] && b != [] && a[0] == b[0] {
      LessTotal(a[1..], b[1..]);
      assert a == [a[0]] + a[1..] && b == [b[0]] + b[1..];
    }
  }

  /** Heads of equal length decide first, tails second. */
  lemma {:induction false} LessConcat(a: Bytes, b: Bytes, c: Bytes, d: Bytes)
    requires |a| == |c|
    ensures Less(a + b, c + d) <==> Less(a, c) || (a == c && Less(b, d))
  {
    if a == [] {
      assert a + b == b && c + d == d;
    } else {
      assert (a + b)[1..] == a[1..] + b && (c + d)[1..] == c[1..] + d;
      LessConcat(a[1..], b, c[1..], d);
      assert a == [a[0]] + a[1..] && c == [c[0]] + c[1..];
    }
  }

  lemma ByteDecides(x: nat, y: nat, i: u8, j: u8)
    ensures x * 0x100 + i < y * 0x100 + j <==> x < y || (x == y && i < j)
  {
  }

  /** On strings of one length the byte order is the numeric order. */
  lemma {:induction false} LessIsNumeric(a: Bytes, b: Bytes)
    requires |a| == |b|
    ensures Less(a, b) <==> FromBe(a) < FromBe(b)
    ensures FromBe(a) == FromBe(b) ==> a == b
    decreases |a|
  {
    if a != [] {
      var n := |a| - 1;
      LessIsNumeric(a[..n], b[..n]);
      LessConcat(a[..n], [a[n]], b[..n], [b[n]]);
      assert a == a[..n] + [a[n]] && b == b[..n] + [b[n]];
      ByteDecides(FromBe(a[..n]), FromBe(b[..n]), a[n], b[n]);
    }
  }

  lemma LessToBe(x: nat, y: nat, n: nat)
    requires x < Pow2(8 * n) && y < Pow2(8 * n)
    ensures Less(ToBe(x, n), ToBe(y, n)) <==> x < y
    ensures ToBe(x, n) == ToBe(y, n) <==> x == y
  {
    LessIsNumeric(ToBe(x, n), ToBe(y, n));
    FromToBe(x, n);
    FromToBe(y, n);
  }

  /** A trailing zero byte turns an inclusive upper bound into an exclusive one. */
  lemma {:induction false} LessPadded(a: Bytes, b: Bytes)
    requires |a| == |b|
    ensures Less(a, b + [0]) <==> a == b || Less(a, b)
  {
    LessConcat(a, [], b, [0]);
    assert a + [] == a;
  }

  /** Nothing up to twenty bytes long reaches twenty-one bytes of 0xFF. */
  lemma {:induction false} LessAllOnes(a: Bytes, n: nat)
    requires |a| < n
    ensures Less(a, seq(n, _ => 0xFF))
  {
    if a != [] {
      LessAllOnes(a[1..], n - 1);
      assert seq(n, _ => 0xFF as u8)[1..] == seq(n - 1, _ => 0xFF as u8);
    }
  }
}
