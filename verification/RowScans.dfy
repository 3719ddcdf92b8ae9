/** Scanning data rows in an inclusive key range. */
module RowScans {
  import opened Words
  import opened Bytes
  import opened Keys
  import opened Forests
  import opened Kv
  import opened Layout

  ghost predicate RowsAscend(rows: seq<(Key, Payload)>)
  {
    forall i, j :: 0 <= i < j < |rows| ==> KeyLess(rows[i].0, rows[j].0)
  }

  /** The rows in a range, each once, in key order. */
  ghost predicate IsRowScan(rows: Rows, r: (Key, Key), out: seq<(Key, Payload)>)
  {
    RowsAscend(out) && forall k, v :: (k, v) in out <==> k in rows && rows[k] == v && InRange(k, r)
  }

  /** Padding the inclusive end with a zero byte makes it the exclusive end of the same keys. */
  lemma PaddedRange(k: Key, r: (Key, Key))
    ensures Within(KeyBytes(k), KeyBytes(r.0), KeyBytes(r.1) + [0]) <==> InRange(k, r)
  {
    hide KeyBytes, Less;
    KeyOrder(k, r.0);
    KeyOrder(k, r.1);
    LessPadded(KeyBytes(k), KeyBytes(r.1));
    SameKey(r.1);
  }

  /** What the keys passed so far yield: the twenty-byte ones. */
  ghost function Yield(m: Entries, keys: seq<Bytes>): seq<(Key, Payload)>
    requires forall b :: b in keys ==> b in m
  {
    if keys == [] then []
    else
      var n := |keys| - 1;
      Yield(m, keys[..n]) + if |keys[n]| == KEY_LEN then [(KeyOf(keys[n]), m[keys[n]])] else []
  }

  lemma YieldStep(m: Entries, keys: seq<Bytes>, i: nat)
    requires i < |keys| && forall b :: b in keys ==> b in m
    ensures forall b :: b in keys[..i + 1] ==> b in m
    ensures Yield(m, keys[..i + 1])
            == if |keys[i]| == KEY_LEN then Yield(m, keys[..i]) + [(KeyOf(keys[i]), m[keys[i]])]
               else Yield(m, keys[..i])
  {
    assert keys[..i + 1][..i] == keys[..i];
  }

  lemma {:induction false} YieldIs(m: Entries, keys: seq<Bytes>, k: Key, v: Payload)
    requires forall b :: b in keys ==> b in m
    ensures (k, v) in Yield(m, keys) <==> KeyBytes(k) in keys && m[KeyBytes(k)] == v
    decreases |keys|
  {
    if keys != [] {
      var n := |keys| - 1;
      YieldIs(m, keys[..n], k, v);
      assert keys == keys[..n] + [keys[n]];
      KeyRoundTrip(k);
      if |keys[n]| == KEY_LEN { BytesRoundTrip(keys[n]); }
      hide KeyBytes, KeyOf;
    }
  }

  lemma {:induction false} YieldAscends(m: Entries, keys: seq<Bytes>)
    requires InOrder(keys) && forall b :: b in keys ==> b in m
    ensures RowsAscend(Yield(m, keys))
    decreases |keys|
  {
    if keys != [] {
      var n := |keys| - 1;
      var rows := Yield(m, keys[..n]);
      YieldAscends(m, keys[..n]);
      if |keys[n]| == KEY_LEN {
        var last := KeyOf(keys[n]);
        BytesRoundTrip(keys[n]);
        hide KeyBytes, KeyOf, Less;
        forall i | 0 <= i < |rows| ensures KeyLess(rows[i].0, last) {
          YieldIs(m, keys[..n], rows[i].0, rows[i].1);
          assert (rows[i].0, rows[i].1) in rows;
          KeyOrder(rows[i].0, last);
        }
      }
    }
  }

  lemma YieldIsScan(m: Entries, keys: seq<Bytes>, r: (Key, Key))
    requires IsScan(m, KeyBytes(r.0), KeyBytes(r.1) + [0], keys)
    ensures IsRowScan(RowsIn(m), r, Yield(m, keys))
  {
    YieldAscends(m, keys);
    RowsInAre(m);
    hide KeyBytes, RowsIn, InOrder, Yield, Within, InRange;
    forall k, v ensures (k, v) in Yield(m, keys) <==> k in RowsIn(m) && RowsIn(m)[k] == v && InRange(k, r) {
      YieldIs(m, keys, k, v);
      PaddedRange(k, r);
    }
  }

  /** `scan_range`. */
  method ScanRange(m: Entries, start: Key, end: Key) returns (rows: seq<(Key, Payload)>)
    ensures IsRowScan(DiskOf(m).rows, (start, end), rows)
  {
    hide KeyBytes, KeyOf, RowsIn, InOrder, Within, IsRowScan;
    var keys := Range(m, KeyBytes(start), KeyBytes(end) + [0]);
    rows := [];
    for i := 0 to |keys|
      invariant forall b :: b in keys[..i] ==> b in m
      invariant rows == Yield(m, keys[..i])
    {
      YieldStep(m, keys, i);
      if |keys[i]| == KEY_LEN { rows := rows + [(KeyOf(keys[i]), m[keys[i]])]; }
    }
    assert keys[..|keys|] == keys;
    YieldIsScan(m, keys, (start, end));
  }
}
