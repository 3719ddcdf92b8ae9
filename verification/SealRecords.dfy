/** The bytes of a seal record: printing a summary, parsing a record, and the round trip. */
module SealRecords {
  import opened Options
  import opened Words
  import opened Bytes
  import opened Keys
  import opened Folds
  import opened Forests
  import opened Sorting

  const VERSION: u8 := 1
  const HEADER_LEN: nat := 14
  const ENTRY_LEN: nat := 24

  /** `(prefix u64, hash u128)`, both big-endian. */
  function EntryBytes(q: u64, h: u128): (b: Bytes)
    ensures |b| == ENTRY_LEN
  {
    ToBe(q, 8) + ToBe(h, 16)
  }

  function EntriesBytes(leaves: map<u64, u128>, qs: seq<u64>): (b: Bytes)
    requires forall q :: q in qs ==> q in leaves
    ensures |b| == ENTRY_LEN * |qs|
  {
    if qs == [] then []
    else
      var n := |qs| - 1;
      EntriesBytes(leaves, qs[..n]) + EntryBytes(qs[n], leaves[qs[n]])
  }

  function Header(depth: nat, count: nat, n: nat): (b: Bytes)
    requires depth <= 63
    ensures |b| == HEADER_LEN
  {
    [VERSION, depth] + ToBe(count, 8) + ToBe(n, 4)
  }

  /** The record of a summary: header, then the leaves by ascending prefix. The two counts are cut to their fields. */
  ghost function Record(depth: nat, s: Summary): (b: Bytes)
    requires depth <= 63
    ensures |b| == HEADER_LEN + ENTRY_LEN * |s.leaves|
  {
    assert |s.leaves| == |s.leaves.Keys|;
    Header(depth, s.count, |s.leaves|) + EntriesBytes(s.leaves, Sorted(s.leaves.Keys))
  }

  // -------------------------------------------------------------------------
  // Parsing
  // -------------------------------------------------------------------------

  function EntryCount(b: Bytes): nat
    requires |b| >= HEADER_LEN
  {
    FromBe(b[10..14])
  }

  lemma EightBytes(b: Bytes)
    requires |b| == 8
    ensures FromBe(b) <= U64_MAX
  {
    FromBeBound(b);
    Pow2Word();
  }

  lemma SixteenBytes(b: Bytes)
    requires |b| == 16
    ensures FromBe(b) < 0x1_0000_0000_0000_0000_0000_0000_0000_0000
  {
    FromBeBound(b);
    Pow2Hash();
  }

  function EntryAt(b: Bytes, i: nat): (u64, u128)
    requires HEADER_LEN + ENTRY_LEN * (i + 1) <= |b|
  {
    var off := HEADER_LEN + ENTRY_LEN * i;
    EightBytes(b[off..off + 8]);
    SixteenBytes(b[off + 8..off + 24]);
    (FromBe(b[off..off + 8]), FromBe(b[off + 8..off + 24]))
  }

  /** Leaves after folding in the first `n` entries, each at the cell of its own prefix. */
  function LoadLeaves(depth: nat, b: Bytes, n: nat): map<u64, u128>
    requires depth <= 63 && HEADER_LEN + ENTRY_LEN * n <= |b|
  {
    if n == 0 then map[]
    else
      var (q, h) := EntryAt(b, n - 1);
      ToggleLeaf(LoadLeaves(depth, b, n - 1), PrefixAt(q, depth), h)
  }

  lemma {:induction false} LoadLeavesCanonical(depth: nat, b: Bytes, n: nat)
    requires depth <= 63 && HEADER_LEN + ENTRY_LEN * n <= |b|
    ensures Canonical(LoadLeaves(depth, b, n), depth)
  {
    if n > 0 {
      LoadLeavesCanonical(depth, b, n - 1);
      PrefixBrackets(EntryAt(b, n - 1).0, depth, PrefixAt(EntryAt(b, n - 1).0, depth));
    }
  }

  /** Whether a record is accepted: version, leaf depth and length all fit. */
  predicate Readable(depth: nat, b: Bytes)
    requires depth <= 63
  {
    && |b| >= HEADER_LEN
    && b[0] == VERSION
    && b[1] == depth
    && |b| == HEADER_LEN + EntryCount(b) * ENTRY_LEN
  }

  function Parse(depth: nat, b: Bytes): Option<Summary>
    requires depth <= 63
  {
    if Readable(depth, b) then Some(Summary(FromBe(b[2..10]), LoadLeaves(depth, b, EntryCount(b)))) else None
  }

  // -------------------------------------------------------------------------
  // Round trip
  // -------------------------------------------------------------------------

  /** The counts of a summary fit the widths of their fields. */
  ghost predicate Fits(s: Summary)
  {
    s.count <= U64_MAX && |s.leaves| <= U32_MAX
  }

  lemma HeaderFields(depth: nat, count: nat, n: nat, rest: Bytes)
    requires depth <= 63
    ensures var b := Header(depth, count, n) + rest;
            b[0] == VERSION && b[1] == depth && b[2..10] == ToBe(count, 8) && b[10..14] == ToBe(n, 4)
  {
    var b := Header(depth, count, n) + rest;
    assert b[2..10] == ToBe(count, 8);
    assert b[10..14] == ToBe(n, 4);
  }

  lemma EntryRoundTrip(pre: Bytes, q: u64, h: u128, post: Bytes, i: nat)
    requires |pre| == HEADER_LEN + ENTRY_LEN * i
    ensures EntryAt(pre + EntryBytes(q, h) + post, i) == (q, h)
  {
    var b, off := pre + EntryBytes(q, h) + post, |pre|;
    assert b[off..off + 8] == ToBe(q, 8);
    assert b[off + 8..off + 24] == ToBe(h, 16);
    Pow2Word();
    Pow2Hash();
    FromToBe(q, 8);
    FromToBe(h, 16);
  }

  ghost function Restrict(leaves: map<u64, u128>, qs: seq<u64>): map<u64, u128>
  {
    map q | q in leaves && q in qs :: leaves[q]
  }

  /** Reading back printed entries restores exactly those leaves. */
  lemma {:induction false} LoadPrinted(depth: nat, head: Bytes, leaves: map<u64, u128>, qs: seq<u64>, post: Bytes)
    requires depth <= 63 && |head| == HEADER_LEN && Canonical(leaves, depth)
    requires Ascending(qs) && forall q :: q in qs ==> q in leaves
    ensures LoadLeaves(depth, head + EntriesBytes(leaves, qs) + post, |qs|) == Restrict(leaves, qs)
    decreases |qs|
  {
    if qs != [] {
      var n := |qs| - 1;
      var q := qs[n];
      var body, entry := EntriesBytes(leaves, qs[..n]), EntryBytes(q, leaves[q]);
      Reassemble(head, body, entry, post);
      LoadPrinted(depth, head, leaves, qs[..n], entry + post);
      EntryRoundTrip(head + body, q, leaves[q], post, n);
      RestrictStep(leaves, qs);
    }
  }

  lemma Reassemble(head: Bytes, body: Bytes, entry: Bytes, post: Bytes)
    ensures head + (body + entry) + post == (head + body) + entry + post == head + body + (entry + post)
  {
  }

  lemma RestrictStep(leaves: map<u64, u128>, qs: seq<u64>)
    requires qs != [] && Ascending(qs) && forall q :: q in qs ==> q in leaves && leaves[q] != 0
    ensures var n := |qs| - 1;
            Restrict(leaves, qs) == ToggleLeaf(Restrict(leaves, qs[..n]), qs[n], leaves[qs[n]])
  {
    var n := |qs| - 1;
    assert qs == qs[..n] + [qs[n]];
    assert qs[n] !in qs[..n];
  }

  lemma FieldTruncates(n: nat)
    requires n > U32_MAX
    ensures FromBe(ToBe(n, 4)) < n
  {
    Pow2Word();
    FromBeBound(ToBe(n, 4));
  }

  /** A count comes back from its eight bytes exactly when it fits them. */
  lemma CountField(count: nat)
    ensures FromBe(ToBe(count, 8)) == count <==> count <= U64_MAX
  {
    Pow2Word();
    FromBeBound(ToBe(count, 8));
    if count <= U64_MAX { FromToBe(count, 8); }
  }

  /** The entry count comes back from its four bytes exactly when it fits them. */
  lemma EntriesField(n: nat)
    ensures FromBe(ToBe(n, 4)) == n <==> n <= U32_MAX
  {
    Pow2Word();
    if n <= U32_MAX { FromToBe(n, 4); } else { FieldTruncates(n); }
  }

  /** The entries of a printed record load its leaves. */
  lemma LoadRecord(depth: nat, s: Summary)
    requires depth <= 63 && Canonical(s.leaves, depth)
    ensures LoadLeaves(depth, Record(depth, s), |s.leaves|) == s.leaves
  {
    hide EntriesBytes, LoadLeaves, ToBe, FromBe, Canonical;
    var n, qs := |s.leaves|, Sorted(s.leaves.Keys);
    var head := Header(depth, s.count, n);
    assert Record(depth, s) == head + EntriesBytes(s.leaves, qs) + [];
    LoadPrinted(depth, head, s.leaves, qs, []);
    assert |qs| == n;
    assert Restrict(s.leaves, qs) == s.leaves;
  }

  /** A printed record parses back to its summary exactly when the counts fit their fields. */
  lemma RecordRoundTrip(depth: nat, s: Summary)
    requires depth <= 63 && Canonical(s.leaves, depth)
    ensures Parse(depth, Record(depth, s)) == Some(s) <==> Fits(s)
  {
    hide EntriesBytes, LoadLeaves, ToBe, FromBe, Canonical, Header;
    var n := |s.leaves|;
    HeaderFields(depth, s.count, n, EntriesBytes(s.leaves, Sorted(s.leaves.Keys)));
    CountField(s.count);
    EntriesField(n);
    if n <= U32_MAX { LoadRecord(depth, s); }
  }

  lemma RecordHeader(depth: nat, s: Summary)
    requires depth <= 63 && Fits(s)
    ensures var r := Record(depth, s);
            r[0] == 1 && r[1] == depth && FromBe(r[10..14]) == |s.leaves| && |r| == HEADER_LEN + |s.leaves| * ENTRY_LEN
  {
    hide EntriesBytes, ToBe, FromBe, Header;
    EntriesField(|s.leaves|);
    HeaderFields(depth, s.count, |s.leaves|, EntriesBytes(s.leaves, Sorted(s.leaves.Keys)));
  }

  /** A string with the header of a record is accepted only at the record's length. */
  lemma OtherLength(depth: nat, r: Bytes, b: Bytes)
    requires depth <= 63 && HEADER_LEN <= |r| == HEADER_LEN + FromBe(r[10..14]) * ENTRY_LEN && |b| != |r|
    requires HEADER_LEN <= |b| ==> b[10..14] == r[10..14]
    ensures Parse(depth, b) == None
  {
    hide FromBe, LoadLeaves;
  }

  /** A record of another version or leaf depth, one cut short and one with bytes to spare are all rejected. */
  lemma DamagedRejected(depth: nat, s: Summary, other: nat, v: u8, n: nat, extra: Bytes)
    requires depth <= 63 && other <= 63 && Fits(s)
    ensures var r := Record(depth, s);
            && (other != depth ==> Parse(other, r) == None)
            && (v != 1 ==> Parse(depth, r[0 := v]) == None)
            && (n < |r| ==> Parse(depth, r[..n]) == None)
            && (extra != [] ==> Parse(depth, r + extra) == None)
  {
    hide Record, LoadLeaves, FromBe, Fits;
    var r := Record(depth, s);
    RecordHeader(depth, s);
    if extra != [] {
      assert (r + extra)[10..14] == r[10..14];
      OtherLength(depth, r, r + extra);
    }
    if n < |r| {
      assert HEADER_LEN <= n ==> r[..n][10..14] == r[10..14];
      OtherLength(depth, r, r[..n]);
    }
  }

  /** Different summaries have different records. */
  lemma RecordInjective(depth: nat, s: Summary, t: Summary)
    requires depth <= 63 && Canonical(s.leaves, depth) && Canonical(t.leaves, depth) && Fits(s) && Fits(t)
    ensures Record(depth, s) == Record(depth, t) ==> s == t
  {
    RecordRoundTrip(depth, s);
    RecordRoundTrip(depth, t);
  }
}
