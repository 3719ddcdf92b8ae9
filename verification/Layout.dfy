/** How rows and seal records share one key-value tree. */
module Layout {
  import opened Words
  import opened Bytes
  import opened Keys
  import opened Forests
  import opened Disk
  import opened Kv
  import opened SealProtocol

  /** `m!`, and the first string after everything that starts with it. */
  const SEAL_KEY_PREFIX: Bytes := [0x6D, 0x21]
  const SEAL_KEY_END: Bytes := [0x6D, 0x22]

  /** Seal keys are six bytes long, a length no data key has. */
  function SealKey(e: u32): (b: Bytes)
    ensures |b| == 6
  {
    SEAL_KEY_PREFIX + ToBe(e, 4)
  }

  function SealEpoch(b: Bytes): u32
    requires |b| == 6
  {
    Pow2Word();
    FromBeBound(b[2..]);
    FromBe(b[2..])
  }

  lemma SealKeyRoundTrip(e: u32)
    ensures SealEpoch(SealKey(e)) == e
  {
    Pow2Word();
    FromToBe(e, 4);
    assert SealKey(e)[2..] == ToBe(e, 4);
  }

  /** In the scanned range the six-byte keys are the seal keys. */
  lemma SealRange(b: Bytes)
    requires |b| == 6
    ensures Within(b, SEAL_KEY_PREFIX, SEAL_KEY_END) <==> b == SealKey(SealEpoch(b))
  {
    ToFromBe(b[2..]);
    var p, q := SEAL_KEY_PREFIX, SEAL_KEY_END;
    assert p[1..] == [0x21] && q[1..] == [0x22] && b[1..][1..] == b[2..];
    if b[..2] == p {
      assert b == p + b[2..];
    }
    if b == SealKey(SealEpoch(b)) {
      assert b[..2] == p;
    }
    assert Less(b, p) <==> b[0] < 0x6D || (b[0] == 0x6D && Less(b[1..], p[1..]));
    assert Less(b, q) <==> b[0] < 0x6D || (b[0] == 0x6D && Less(b[1..], q[1..]));
    assert Less(b[1..], p[1..]) <==> b[1] < 0x21;
    assert Less(b[1..], q[1..]) <==> b[1] <= 0x21;
    assert b[..2] == [b[0], b[1]];
  }

  // -------------------------------------------------------------------------
  // The disk a tree holds
  // -------------------------------------------------------------------------

  function RowKeys(m: Entries): (s: set<Key>)
    ensures forall k :: k in s <==> KeyBytes(k) in m
  {
    var s := set b | b in m && |b| == KEY_LEN :: KeyOf(b);
    assert forall k :: k in s <==> KeyBytes(k) in m by {
      forall k ensures k in s <==> KeyBytes(k) in m {
        KeyRoundTrip(k);
        if b :| b in m && |b| == KEY_LEN && KeyOf(b) == k { BytesRoundTrip(b); }
      }
    }
    s
  }

  function SealedIn(m: Entries): (s: set<u32>)
    ensures forall e :: e in s <==> SealKey(e) in m
  {
    var s := set b | b in m && |b| == 6 && b == SealKey(SealEpoch(b)) :: SealEpoch(b);
    assert forall e :: e in s <==> SealKey(e) in m by {
      forall e: u32 ensures e in s <==> SealKey(e) in m { SealKeyRoundTrip(e); }
    }
    s
  }

  function RowsIn(m: Entries): Rows
  {
    map k | k in RowKeys(m) :: m[KeyBytes(k)]
  }

  function SealsIn(m: Entries): map<u32, Bytes>
  {
    map e | e in SealedIn(m) :: m[SealKey(e)]
  }

  lemma RowsInAre(m: Entries)
    ensures forall k :: k in RowsIn(m) <==> KeyBytes(k) in m
    ensures forall k :: k in RowsIn(m) ==> RowsIn(m)[k] == m[KeyBytes(k)]
  {
    hide KeyBytes, RowKeys;
  }

  lemma SealsInAre(m: Entries)
    ensures forall e :: e in SealsIn(m) <==> SealKey(e) in m
    ensures forall e :: e in SealsIn(m) ==> SealsIn(m)[e] == m[SealKey(e)]
  {
    hide SealKey, SealedIn;
  }

  function DiskOf(m: Entries): Disk
  {
    Disk(RowsIn(m), SealsIn(m))
  }

  lemma SameKey(k: Key)
    ensures forall l :: KeyBytes(l) == KeyBytes(k) <==> l == k
  {
    KeyRoundTrip(k);
    forall l { KeyRoundTrip(l); }
  }

  lemma SameSeal(e: u32)
    ensures forall f :: SealKey(f) == SealKey(e) <==> f == e
  {
    SealKeyRoundTrip(e);
    forall f: u32 { SealKeyRoundTrip(f); }
  }

  /** Writing a row touches neither the other rows nor the seals. */
  lemma PutRow(m: Entries, k: Key, v: Payload)
    ensures DiskOf(m[KeyBytes(k) := v]) == DiskOf(m).(rows := DiskOf(m).rows[k := v])
  {
    var m' := m[KeyBytes(k) := v];
    RowsInAre(m);
    RowsInAre(m');
    SealsInAre(m);
    SealsInAre(m');
    hide RowsIn, SealsIn, KeyBytes, SealKey;
    SameKey(k);
    assert RowsIn(m') == RowsIn(m)[k := v];
    assert SealsIn(m') == SealsIn(m);
  }

  lemma PutSeal(m: Entries, e: u32, r: Bytes)
    ensures DiskOf(m[SealKey(e) := r]) == DiskOf(m).(seals := DiskOf(m).seals[e := r])
  {
    var m' := m[SealKey(e) := r];
    RowsInAre(m);
    RowsInAre(m');
    SealsInAre(m);
    SealsInAre(m');
    hide RowsIn, SealsIn, KeyBytes, SealKey;
    SameSeal(e);
    assert SealsIn(m') == SealsIn(m)[e := r];
    assert RowsIn(m') == RowsIn(m);
  }

  lemma DropSeal(m: Entries, e: u32)
    ensures DiskOf(m - {SealKey(e)}) == DiskOf(m).(seals := DiskOf(m).seals - {e})
  {
    var m' := m - {SealKey(e)};
    RowsInAre(m);
    RowsInAre(m');
    SealsInAre(m);
    SealsInAre(m');
    hide RowsIn, SealsIn, KeyBytes, SealKey;
    SameSeal(e);
    assert SealsIn(m') == SealsIn(m) - {e};
    assert RowsIn(m') == RowsIn(m);
  }

  /** What a batch's transaction writes. */
  function PutsOf(items: seq<(Key, Payload)>): Entries
  {
    if items == [] then map[]
    else
      var n := |items| - 1;
      PutsOf(items[..n])[KeyBytes(items[n].0) := items[n].1]
  }

  lemma {:induction false} PutBatch(m: Entries, items: seq<(Key, Payload)>)
    ensures DiskOf(m + PutsOf(items)) == DiskOf(m).(rows := PutAll(DiskOf(m).rows, items))
    decreases |items|
  {
    hide DiskOf, KeyBytes;
    if items == [] {
      assert m + PutsOf(items) == m;
    } else {
      var n := |items| - 1;
      PutBatch(m, items[..n]);
      PutRow(m + PutsOf(items[..n]), items[n].0, items[n].1);
      assert m + PutsOf(items) == (m + PutsOf(items[..n]))[KeyBytes(items[n].0) := items[n].1];
    }
  }
}
