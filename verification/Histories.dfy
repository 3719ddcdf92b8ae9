/** Any history of a forest: insertions, matching removals and record loads, in any order. */
module Histories {
  import opened Words
  import opened Keys
  import opened Forests
  import opened Options
  import opened SealRecords

  /** What can happen to a forest, and the rows it concerns. */
  datatype Op =
    | Fold(key: Key, payload: Payload)
    | Unfold(key: Key)
    | Load(epoch: u32, rows: Rows)

  /** New keys are folded in, held rows folded out, and the record of an epoch's rows loaded where the epoch is
      absent. */
  ghost predicate Allowed(f: Forest, rows: Rows, op: Op)
    requires f.depth <= 63
  {
    match op
    case Fold(k, _) => k !in rows
    case Unfold(k) => k in rows
    case Load(e, more) => e !in f.trees && (forall k :: k in more ==> k.epoch == e) && Fits(Summarise(more, e, f.depth))
  }

  ghost function RowsAfter(rows: Rows, op: Op): Rows
  {
    match op
    case Fold(k, p) => rows[k := p]
    case Unfold(k) => rows - {k}
    case Load(_, more) => rows + more
  }

  ghost function ForestAfter(f: Forest, rows: Rows, op: Op): Forest
    requires f.depth <= 63 && Allowed(f, rows, op)
  {
    match op
    case Fold(k, p) => f.Insert(k, p)
    case Unfold(k) => f.Remove(k, rows[k])
    case Load(e, more) =>
      var parsed := Parse(f.depth, Record(f.depth, Summarise(more, e, f.depth)));
      if parsed.Some? then f.(trees := f.trees[e := parsed.value]) else f
  }

  /** A history: the forest and the rows before the first operation and after each one. */
  ghost predicate IsHistory(depth: nat, forests: seq<Forest>, rows: seq<Rows>, ops: seq<Op>)
  {
    && 3 <= depth && IsDepth(depth)
    && |forests| == |rows| == |ops| + 1 && forests[0] == Forest(depth, map[]) && rows[0] == map[]
    && forall i :: 0 <= i < |ops| ==> Advances(forests[i], rows[i], ops[i], forests[i + 1], rows[i + 1])
  }

  ghost predicate Advances(f: Forest, rows: Rows, op: Op, f': Forest, rows': Rows)
  {
    f.depth <= 63 && Allowed(f, rows, op) && f' == ForestAfter(f, rows, op) && rows' == RowsAfter(rows, op)
  }

  lemma EmptyInStep(depth: nat)
    requires 3 <= depth && IsDepth(depth)
    ensures Represents(Forest(depth, map[]), map[])
  {
    var none: Rows := map[];
    forall e: u32 ensures Summarise(none, e, depth) == EMPTY {
      assert EpochRows(none, e) == map[];
      assert LeafPrefixes(none, e, depth) == {};
    }
  }

  /** Without a tree an epoch has no rows. */
  lemma AbsentEpochEmpty(f: Forest, rows: Rows, e: u32)
    requires Represents(f, rows) && e !in f.trees
    ensures EpochRows(rows, e) == map[]
  {
    hide CellHash, LeafPrefixes;
    assert f.At(e) == Summarise(rows, e, f.depth);
    assert |EpochRows(rows, e)| == 0;
  }

  /** Loading the record of an epoch's rows is as good as folding each of them in. */
  lemma LoadInStep(f: Forest, rows: Rows, e: u32, more: Rows)
    requires Represents(f, rows) && f.depth <= 63 && Allowed(f, rows, Load(e, more))
    ensures Represents(ForestAfter(f, rows, Load(e, more)), rows + more)
    ensures f.trees.Keys < ForestAfter(f, rows, Load(e, more)).trees.Keys
  {
    hide Summarise, Record, Parse, Canonical, Fits;
    AbsentEpochEmpty(f, rows, e);
    SummariseCanonical(more, e, f.depth);
    RecordRoundTrip(f.depth, Summarise(more, e, f.depth));
    var g := ForestAfter(f, rows, Load(e, more));
    assert e in g.trees;
    forall o: u32 ensures g.At(o) == Summarise(rows + more, o, f.depth) {
      MergedEpoch(rows, more, e, o);
      if o == e {
        SummariseCongruent(rows + more, more, e, f.depth);
      } else {
        SummariseCongruent(rows + more, rows, o, f.depth);
      }
    }
  }

  lemma MergedEpoch(rows: Rows, more: Rows, e: u32, o: u32)
    requires EpochRows(rows, e) == map[] && forall k :: k in more ==> k.epoch == e
    ensures EpochRows(rows + more, o) == if o == e then EpochRows(more, e) else EpochRows(rows, o)
  {
    forall k | k in rows ensures k.epoch != e {
      assert k.epoch == e ==> k in EpochRows(rows, e);
    }
  }

  lemma StepInStep(f: Forest, rows: Rows, op: Op)
    requires Represents(f, rows) && f.depth <= 63 && Allowed(f, rows, op)
    ensures Represents(ForestAfter(f, rows, op), RowsAfter(rows, op)) && ForestAfter(f, rows, op).depth == f.depth
  {
    hide Represents, Record, Parse, Summarise, Toggled;
    match op
    case Fold(k, p) => InsertInStep(f, rows, k, p);
    case Unfold(k) => RemoveInStep(f, rows, k);
    case Load(e, more) => LoadInStep(f, rows, e, more);
  }

  lemma {:induction false} HistoryInStep(depth: nat, forests: seq<Forest>, rows: seq<Rows>, ops: seq<Op>, i: nat)
    requires IsHistory(depth, forests, rows, ops) && i <= |ops|
    ensures Represents(forests[i], rows[i]) && forests[i].depth == depth
    decreases i
  {
    hide Represents, Allowed, ForestAfter, RowsAfter;
    if i == 0 {
      EmptyInStep(depth);
    } else {
      HistoryInStep(depth, forests, rows, ops, i - 1);
      assert Advances(forests[i - 1], rows[i - 1], ops[i - 1], forests[i], rows[i]);
      StepInStep(forests[i - 1], rows[i - 1], ops[i - 1]);
    }
  }

  /** After any history every node, at every depth, is the XOR of the digests of the rows then in its cell. */
  lemma HistoryHash(depth: nat, forests: seq<Forest>, rows: seq<Rows>, ops: seq<Op>, i: nat, e: u32, d: nat, p: u64)
    requires IsHistory(depth, forests, rows, ops) && i <= |ops| && IsDepth(d) && d <= depth
    ensures forests[i].Hash(e, d, p) == CellHash(rows[i], e, d, if d == 0 then 0 else p)
  {
    hide Represents, Advances;
    HistoryInStep(depth, forests, rows, ops, i);
    HashIsFold(forests[i], rows[i], e, d, p);
  }

  /** Two histories that end in the same rows agree on every node both have, whatever their order and leaf depth. */
  lemma HistoriesAgree(depth: nat, forests: seq<Forest>, rows: seq<Rows>, ops: seq<Op>,
                       depth': nat, forests': seq<Forest>, rows': seq<Rows>, ops': seq<Op>, e: u32, d: nat, p: u64)
    requires IsHistory(depth, forests, rows, ops) && IsHistory(depth', forests', rows', ops')
    requires rows[|ops|] == rows'[|ops'|] && IsDepth(d) && d <= depth && d <= depth'
    ensures forests[|ops|].Hash(e, d, p) == forests'[|ops'|].Hash(e, d, p)
  {
    hide Advances;
    HistoryHash(depth, forests, rows, ops, |ops|, e, d, p);
    HistoryHash(depth', forests', rows', ops', |ops'|, e, d, p);
  }
}
