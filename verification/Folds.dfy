/** XOR folds over finite maps: commutative, so the order of the entries is immaterial. */
module Folds {
  import opened Words

  ghost function Pick<T, V>(m: map<T, V>): (k: T)
    requires m != map[]
    ensures k in m
  {
    var k :| k in m; k
  }

  /** XOR of all the values of a map; 0 for the empty map. */
  ghost function XorAll<T>(m: map<T, u128>): u128
    decreases |m|
  {
    if m == map[] then 0
    else
      var k := Pick(m);
      XorHash(m[k], XorAll(m - {k}))
  }

  lemma XorSwap(a: u128, b: u128, c: u128)
    ensures XorHash(a, XorHash(b, c)) == XorHash(b, XorHash(a, c))
  {
    XorAssoc(a, b, c);
    XorAssoc(b, a, c);
    XorComm(a, b);
  }

  /** XOR-ing the same value in twice leaves nothing behind. */
  lemma XorTwice(a: u128, b: u128)
    ensures XorHash(a, XorHash(a, b)) == b
    ensures XorHash(XorHash(b, a), a) == b
  {
    XorAssoc(a, a, b);
    XorAssoc(b, a, a);
    XorSelf(a);
  }

  /** Any entry can be the one taken out first. */
  lemma {:induction false} XorAllWithout<T>(m: map<T, u128>, k: T)
    requires k in m
    ensures XorAll(m) == XorHash(m[k], XorAll(m - {k}))
    decreases |m|
  {
    var c := Pick(m);
    if c != k {
      XorAllWithout(m - {c}, k);
      XorAllWithout(m - {k}, c);
      assert m - {c} - {k} == m - {k} - {c};
      XorSwap(m[c], m[k], XorAll(m - {c} - {k}));
    }
  }

  lemma XorAllWith<T>(m: map<T, u128>, k: T, v: u128)
    requires k !in m
    ensures XorAll(m[k := v]) == XorHash(v, XorAll(m))
  {
    XorAllWithout(m[k := v], k);
    assert m[k := v] - {k} == m;
  }

  /** XOR of a sequence of hashes. */
  function XorSeq(s: seq<u128>): u128
  {
    if s == [] then 0 else XorHash(s[0], XorSeq(s[1..]))
  }

  lemma {:induction false} XorSeqZero(s: seq<u128>)
    requires forall i :: 0 <= i < |s| ==> s[i] == 0
    ensures XorSeq(s) == 0
  {
    if s != [] { XorSeqZero(s[1..]); }
  }

  /** Folding `h` into one entry folds it into the whole. */
  lemma {:induction false} XorSeqUpdate(s: seq<u128>, i: nat, h: u128)
    requires i < |s|
    ensures XorSeq(s[i := XorHash(h, s[i])]) == XorHash(h, XorSeq(s))
  {
    var t := s[i := XorHash(h, s[i])];
    if i == 0 {
      assert t[1..] == s[1..];
      XorAssoc(h, s[0], XorSeq(s[1..]));
    } else {
      assert t[1..] == s[1..][i - 1 := XorHash(h, s[1..][i - 1])];
      XorSeqUpdate(s[1..], i - 1, h);
      XorSwap(s[0], h, XorSeq(s[1..]));
    }
  }
}
