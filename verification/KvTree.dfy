/** The key-value tree under the store: atomic commits and half-open scans in byte order. */
module Kv {
  import opened Words
  import opened Bytes

  type Entries = map<Bytes, Bytes>

  predicate Within(b: Bytes, lo: Bytes, hi: Bytes)
  {
    !Less(b, lo) && Less(b, hi)
  }

  ghost predicate InOrder(bs: seq<Bytes>)
  {
    forall i, j :: 0 <= i < j < |bs| ==> Less(bs[i], bs[j])
  }

  /** The keys of `m` from `lo` up to, not including, `hi`, in ascending order. */
  ghost predicate IsScan(m: Entries, lo: Bytes, hi: Bytes, keys: seq<Bytes>)
  {
    InOrder(keys) && forall b :: b in keys <==> b in m && Within(b, lo, hi)
  }

  ghost predicate IsFirst(b: Bytes, s: set<Bytes>)
  {
    b in s && forall c :: c in s && c != b ==> Less(b, c)
  }

  lemma {:induction false} HasFirst(s: set<Bytes>)
    requires s != {}
    ensures exists b :: IsFirst(b, s)
    decreases |s|
  {
    var b :| b in s;
    var rest := s - {b};
    if rest == {} {
      assert s == {b};
      assert IsFirst(b, s);
    } else {
      HasFirst(rest);
      var c :| IsFirst(c, rest);
      LessTotal(b, c);
      if Less(b, c) {
        forall x | x in s && x != b && x != c ensures Less(b, x) { LessTransitive(b, c, x); }
        assert IsFirst(b, s);
      } else {
        assert IsFirst(c, s);
      }
    }
  }

  class KvTree {
    var data: Entries

    /** How many commits have failed so far. */
    ghost var failures: nat

    constructor (data: Entries)
      ensures this.data == data
    {
      this.data := data;
      failures := 0;
    }

    /** All of a transaction or, when it fails, nothing of it. */
    method Commit(puts: Entries, deletes: set<Bytes>) returns (ok: bool)
      modifies this
      ensures data == if ok then old(data) + puts - deletes else old(data)
      ensures failures == old(failures) + if ok then 0 else 1
    {
      ok := *;
      if ok { data := data + puts - deletes; } else { failures := failures + 1; }
    }

    /** A read-only transaction sees one moment of the tree. */
    function Snapshot(): Entries
      reads this
    {
      data
    }
  }

  /** The keys an iterator over `lo .. hi` visits. */
  method Range(m: Entries, lo: Bytes, hi: Bytes) returns (keys: seq<Bytes>)
    ensures IsScan(m, lo, hi, keys)
  {
    var rest := set b | b in m && Within(b, lo, hi);
    keys := [];
    while rest != {}
      invariant forall b :: b in rest || b in keys <==> b in m && Within(b, lo, hi)
      invariant InOrder(keys)
      invariant forall i, b :: 0 <= i < |keys| && b in rest ==> Less(keys[i], b)
      decreases |rest|
    {
      HasFirst(rest);
      var b :| b in rest && forall c :: c in rest && c != b ==> Less(b, c);
      keys := keys + [b];
      rest := rest - {b};
    }
  }
}
