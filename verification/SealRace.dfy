/** Why the protocol admits one write per key at a time: without that a wrong seal record reaches the disk. */
module SealRace {
  import opened Words
  import opened Bytes
  import opened Keys
  import opened Folds
  import opened Forests
  import opened Options
  import opened SealRecords
  import opened Merkle
  import opened Disk
  import opened SealProtocol
  import opened StoreState
  import opened Store
  import opened StoreRuns

  /** A writer starts whatever the other writers are at. */
  ghost predicate SpawnAnyway(s: State, s': State, t: TaskId, task: Task)
  {
    && t !in s.tasks && s' == s.(tasks := s.tasks[t := task])
    && task.Begin? && task.i == 0 && Proper(task.w) && task.w.existing == Found(s.disk.rows, task.w.items)
  }

  function WriteOf(k: Key, p: Payload): Write
  {
    Write([(k, p)], map[], [k.epoch])
  }

  lemma WriteOfProper(k: Key, p: Payload, rows: Rows)
    requires k !in rows
    ensures Proper(WriteOf(k, p)) && Found(rows, [(k, p)]) == map[]
  {
    hide Found, KeysOf;
    FoundOne(rows, k, p);
  }

  // -------------------------------------------------------------------------
  // The first writer's commit, fold and end, with the second one waiting to begin
  // -------------------------------------------------------------------------

  ghost function Pair(v: Value, folded: Rows, first: Task, second: Task): State
  {
    State(v.disk, v.sealed, v.inflight, None, v.forest, folded, map[0 := first, 1 := second])
  }

  /** A step of task `t`, 0 or 1. */
  lemma PairStep(v: Value, folded: Rows, first: Task, second: Task, t: TaskId, s': State)
    requires v.forest.Valid() && v.forest.depth == MERKLE_LEAF_DEPTH_BITS && TaskSound(first) && TaskSound(second)
    requires t < 2 && var task := if t == 0 then first else second; !task.AwaitIo? && !task.Candidate?
    requires var s := Pair(v, folded, first, second);
             Sound(s) && Enabled(s, t) ==> s' == Advance(s, t, true) && |s'.disk.rows| <= U64_MAX
    ensures Next(Pair(v, folded, first, second), s')
  {
    hide Advance, Forest.Valid;
    var s := Pair(v, folded, first, second);
    assert Sound(s) && Enabled(s, t);
  }

  lemma AdvanceCommit(s: State, t: TaskId, w: Write)
    requires Sound(s) && Enabled(s, t) && s.tasks[t] == Begin(w, |w.epochs|)
    ensures Advance(s, t, true)
            == s.(disk := s.disk.(rows := PutAll(s.disk.rows, w.items)), tasks := s.tasks[t := Fold(w)])
  {
    hide Sound, Enabled, PutAll, FoldIn, EndAll, Increment;
  }

  lemma AdvanceFold(s: State, t: TaskId, w: Write)
    requires Sound(s) && Enabled(s, t) && s.tasks[t] == Fold(w)
    ensures Advance(s, t, true)
            == s.(forest := FoldIn(s.forest, w), folded := PutAll(s.folded, w.items), tasks := s.tasks[t := End(w)])
  {
    hide Sound, Enabled, PutAll, FoldIn, EndAll, Increment;
  }

  lemma PairCommit(u: Value, folded: Rows, w: Write, second: Task)
    requires Sane(u) && TaskSound(second) && |PutAll(u.disk.rows, w.items)| <= U64_MAX
    ensures Next(Pair(u, folded, Begin(w, |w.epochs|), second),
                 Pair(u.(disk := u.disk.(rows := PutAll(u.disk.rows, w.items))), folded, Fold(w), second))
  {
    hide Next, Forest.Valid, PutAll, Advance, Enabled, Sound;
    var a, b, s := Begin(w, |w.epochs|), Fold(w), Pair(u, folded, Begin(w, |w.epochs|), second);
    assert map[0 := a, 1 := second][0 := b] == map[0 := b, 1 := second];
    if Sound(s) && Enabled(s, 0) { AdvanceCommit(s, 0, w); }
    PairStep(u, folded, a, second, 0,
             Pair(u.(disk := u.disk.(rows := PutAll(u.disk.rows, w.items))), folded, b, second));
  }

  lemma PairFold(p: Value, folded: Rows, w: Write, second: Task)
    requires p.forest.Valid() && p.forest.depth == MERKLE_LEAF_DEPTH_BITS && Small(p) && TaskSound(second)
    ensures Next(Pair(p, folded, Fold(w), second),
                 Pair(p.(forest := FoldIn(p.forest, w)), PutAll(folded, w.items), End(w), second))
  {
    hide Next, Forest.Valid, PutAll, FoldIn, Advance, Enabled, Sound;
    var a, b, s := Fold(w), End(w), Pair(p, folded, Fold(w), second);
    assert map[0 := a, 1 := second][0 := b] == map[0 := b, 1 := second];
    if Sound(s) && Enabled(s, 0) { AdvanceFold(s, 0, w); }
    PairStep(p, folded, a, second, 0, Pair(p.(forest := FoldIn(p.forest, w)), PutAll(folded, w.items), b, second));
  }

  lemma PairEnd(f: Value, folded: Rows, w: Write, second: Task)
    requires f.forest.Valid() && f.forest.depth == MERKLE_LEAF_DEPTH_BITS && Small(f) && TaskSound(second)
    ensures Next(Pair(f, folded, End(w), second),
                 Alone(f.(inflight := EndAll(f.inflight, w.epochs)), folded, None, 1, second))
  {
    hide Next, Forest.Valid, EndAll;
    assert map[0 := End(w), 1 := second] - {0} == map[1 := second];
    PairStep(f, folded, End(w), second, 0,
             Alone(f.(inflight := EndAll(f.inflight, w.epochs)), folded, None, 1, second));
  }

  /** The first write runs to its end while the second stays where it read that the key is free. */
  lemma FirstWriteEnds(v: Value, folded: Rows, w: Write, second: Task)
    requires Sane(v) && Small(v) && Proper(w) && TaskSound(second) && |PutAll(v.disk.rows, w.items)| <= U64_MAX
    ensures Leads(Pair(Begun(v, w.epochs), folded, Begin(w, |w.epochs|), second),
                  Alone(WriteDone(v, w), PutAll(folded, w.items), None, 1, second))
  {
    hide Next, Leads, Alone, Pair, Forest.Valid, PutAll, FoldIn, EndAll, BeginAll, SetOf, KeysOf, DistinctKeys,
         TaskSound;
    var u := Begun(v, w.epochs);
    var p := u.(disk := u.disk.(rows := PutAll(u.disk.rows, w.items)));
    var f := p.(forest := FoldIn(p.forest, w));
    var s0 := Pair(u, folded, Begin(w, |w.epochs|), second);
    BegunSane(v, w.epochs);
    StaysPut(s0);
    PairCommit(u, folded, w, second);
    OneMore(s0, s0, Pair(p, folded, Fold(w), second));
    PairFold(p, folded, w, second);
    OneMore(s0, Pair(p, folded, Fold(w), second), Pair(f, PutAll(folded, w.items), End(w), second));
    FoldInValid(v.forest, w);
    PairEnd(f, PutAll(folded, w.items), w, second);
    EndUndoesBegin(v.inflight, w.epochs);
    OneMore(s0, Pair(f, PutAll(folded, w.items), End(w), second),
            Alone(WriteDone(v, w), PutAll(folded, w.items), None, 1, second));
  }

  // -------------------------------------------------------------------------
  // The second writer, then a sealer
  // -------------------------------------------------------------------------

  lemma WriteDoneSane(v: Value, w: Write)
    requires Sane(v)
    ensures Sane(WriteDone(v, w))
  {
    hide Forest.Valid, FoldIn, PutAll, SetOf;
    UnsealKeeps(v, SetOf(w.epochs));
    FoldInValid(v.forest, w);
  }

  lemma SecondWriteRuns(v: Value, folded: Rows, w: Write)
    requires Sane(v) && Small(v) && Proper(w) && |PutAll(v.disk.rows, w.items)| <= U64_MAX
    ensures Leads(Alone(v, folded, None, 1, Begin(w, 0)), AtRest(WriteDone(v, w), PutAll(folded, w.items)))
  {
    hide Next, Leads, Alone, AtRest, Forest.Valid, PutAll, FoldIn, EndAll, BeginAll, SetOf, KeysOf, DistinctKeys;
    var s0, n, u := Alone(v, folded, None, 1, Begin(w, 0)), |w.epochs|, Begun(v, w.epochs);
    var p := u.(disk := u.disk.(rows := PutAll(u.disk.rows, w.items)));
    var f := p.(forest := FoldIn(p.forest, w));
    BeginMany(v, folded, 1, w, n);
    AllBegun(v, w.epochs);
    BegunSane(v, w.epochs);
    StepCommit(u, folded, 1, w);
    OneMore(s0, Alone(u, folded, None, 1, Begin(w, n)), Alone(p, folded, None, 1, Fold(w)));
    StepFold(p, folded, 1, w);
    OneMore(s0, Alone(p, folded, None, 1, Fold(w)), Alone(f, PutAll(folded, w.items), None, 1, End(w)));
    FoldInValid(v.forest, w);
    StepEnd(f, PutAll(folded, w.items), 1, w);
    EndUndoesBegin(v.inflight, w.epochs);
    OneMore(s0, Alone(f, PutAll(folded, w.items), None, 1, End(w)), AtRest(WriteDone(v, w), PutAll(folded, w.items)));
  }

  // -------------------------------------------------------------------------
  // The record that comes out
  // -------------------------------------------------------------------------

  /** An empty store, just opened. */
  ghost function Fresh(): Value
  {
    Value(Disk(map[], map[]), Forest(MERKLE_LEAF_DEPTH_BITS, map[]), {}, map[], [])
  }

  lemma FreshIsOpen()
    ensures Reopen(Disk(map[], map[])) == AtRest(Fresh(), map[])
    ensures Sane(Fresh()) && Small(Fresh())
  {
    hide Summarise, Parse;
    var d := Disk(map[], map[]);
    assert ReadableSeals(d) == {} && EpochsOf(d.rows) == {};
    assert OpenForest(d).trees == map[];
  }

  lemma XorNonZero(a: u128, b: u128)
    requires a != b
    ensures XorHash(a, b) != 0
  {
    XorTwice(a, b);
  }

  /** Both rows were folded in: two of them, under one leaf that is not empty. */
  lemma TwiceFolded(k: Key, p: Payload, q: Payload)
    requires ItemDigest(k, p) != ItemDigest(k, q)
    ensures var f := Forest(MERKLE_LEAF_DEPTH_BITS, map[]).Insert(k, p).Insert(k, q);
            f.Valid() && f.At(k.epoch).count == 2 && f.At(k.epoch).leaves != map[]
  {
    hide PrefixAt, IsPrefix, XorHash;
    var f0 := Forest(MERKLE_LEAF_DEPTH_BITS, map[]);
    var dp, dq, c := ItemDigest(k, p), ItemDigest(k, q), PrefixAt(k.morton, MERKLE_LEAF_DEPTH_BITS);
    InsertValid(f0, k, p);
    InsertValid(f0.Insert(k, p), k, q);
    XorNonZero(dp, dq);
    assert LeafHash(f0.Insert(k, p).At(k.epoch).leaves, c) == dp;
    assert c in f0.Insert(k, p).Insert(k, q).At(k.epoch).leaves;
  }

  lemma RecordDiffers(f: Forest, rows: Rows, e: u32)
    requires f.Valid() && f.depth == MERKLE_LEAF_DEPTH_BITS && |rows| <= U64_MAX && f.At(e).count <= U64_MAX
    requires f.At(e).leaves != map[] && f.At(e).count != |EpochRows(rows, e)|
    ensures SealOf(f, e).Some? && SealOf(f, e).value != RecordOf(rows, e)
  {
    hide Record, CellHash, LeafPrefixes;
    assert Canonical(f.At(e).leaves, f.depth);
    LeavesAreFew(f.At(e).leaves);
    SummaryFits(rows, e);
    SummariseCanonical(rows, e, f.depth);
    RecordInjective(f.depth, f.At(e), Summarise(rows, e, f.depth));
  }

  /** The store after both writes. */
  ghost function BothWritten(k: Key, p: Payload, q: Payload): Value
  {
    WriteDone(WriteDone(Fresh(), WriteOf(k, p)), WriteOf(k, q))
  }

  lemma BothWrittenIs(k: Key, p: Payload, q: Payload)
    ensures var v := BothWritten(k, p, q);
            && v.forest == Forest(MERKLE_LEAF_DEPTH_BITS, map[]).Insert(k, p).Insert(k, q)
            && v.disk == Disk(map[k := q], map[]) && v.sealed == {} && v.inflight == map[]
    ensures PutAll(map[], [(k, p)]) == map[k := p] && PutAll(map[k := p], [(k, q)]) == map[k := q]
  {
    hide Forest.Insert, PutAll, InsertAll;
    var f0 := Forest(MERKLE_LEAF_DEPTH_BITS, map[]);
    SinglePut(map[], [(k, p)]);
    SinglePut(map[k := p], [(k, q)]);
    SingleInsert(f0, k, p);
    InsertDepth(f0, k, p);
    SingleInsert(f0.Insert(k, p), k, q);
    assert map[k := p][k := q] == map[k := q];
  }

  lemma WrongRecord(k: Key, p: Payload, q: Payload)
    requires ItemDigest(k, p) != ItemDigest(k, q)
    ensures var v := BothWritten(k, p, q);
            && Sane(v) && Small(v) && Sealable(v, k.epoch)
            && SealOne(v, k.epoch).disk.seals[k.epoch] != RecordOf(v.disk.rows, k.epoch)
  {
    hide Forest.Insert, Forest.Valid, RecordOf, SealOf;
    BothWrittenIs(k, p, q);
    TwiceFolded(k, p, q);
    var rows: Rows := map[k := q];
    assert EpochRows(rows, k.epoch) == rows;
    RecordDiffers(BothWritten(k, p, q).forest, rows, k.epoch);
  }

  // -------------------------------------------------------------------------
  // The whole race
  // -------------------------------------------------------------------------

  /** The first writer has begun. */
  ghost function OneBegun(k: Key, p: Payload): State
  {
    Alone(Begun(Fresh(), [k.epoch]), map[], None, 0, Begin(WriteOf(k, p), 1))
  }

  /** The second one has started as well. */
  ghost function BothStarted(k: Key, p: Payload, q: Payload): State
  {
    Pair(Begun(Fresh(), [k.epoch]), map[], Begin(WriteOf(k, p), 1), Begin(WriteOf(k, q), 0))
  }

  /** Both have ended and a sealer has passed. */
  ghost function Raced(k: Key, p: Payload, q: Payload): State
    requires ItemDigest(k, p) != ItemDigest(k, q)
  {
    WrongRecord(k, p, q);
    Alone(SealOne(BothWritten(k, p, q), k.epoch), map[k := q], None, 0, Candidate([]))
  }

  lemma FirstBegins(k: Key, p: Payload)
    ensures Leads(Reopen(Disk(map[], map[])), OneBegun(k, p))
  {
    hide Leads, Next, Alone, AtRest, Begun, Found, Proper, Reopen, Sane, Fresh;
    FreshIsOpen();
    FreshRows();
    WriteOfProper(k, p, map[]);
    BegunRun(Fresh(), map[], 0, WriteOf(k, p), 1);
    assert WriteOf(k, p).epochs[..1] == [k.epoch];
  }

  lemma SecondStarts(k: Key, p: Payload, q: Payload)
    ensures SpawnAnyway(OneBegun(k, p), BothStarted(k, p, q), 1, Begin(WriteOf(k, q), 0))
  {
    hide Found, Proper, SetOf, BeginAll;
    WriteOfProper(k, q, map[]);
    var a, b := Begin(WriteOf(k, p), 1), Begin(WriteOf(k, q), 0);
    assert map[0 := a][1 := b] == map[0 := a, 1 := b];
  }

  lemma BothEnd(k: Key, p: Payload, q: Payload)
    ensures Leads(BothStarted(k, p, q), AtRest(BothWritten(k, p, q), map[k := q]))
  {
    hide Leads, Next, Alone, AtRest, Pair, Begun, Proper, PutAll, SealOf, Found, Fresh, Sane, WriteDone;
    var w1, w2 := WriteOf(k, p), WriteOf(k, q);
    FreshIsOpen();
    FreshRows();
    var v1, v2 := WriteDone(Fresh(), w1), BothWritten(k, p, q);
    BothWrittenIs(k, p, q);
    OneRow(k, p);
    OneRow(k, q);
    FirstWritten(k, p);
    WriteOfProper(k, p, map[]);
    WriteOfProper(k, q, map[]);
    FirstWriteEnds(Fresh(), map[], w1, Begin(w2, 0));
    WriteDoneSane(Fresh(), w1);
    SecondWriteRuns(v1, map[k := p], w2);
    Continues(BothStarted(k, p, q), Alone(v1, map[k := p], None, 1, Begin(w2, 0)), AtRest(v2, map[k := q]));
  }

  lemma SealerPasses(k: Key, p: Payload, q: Payload)
    requires ItemDigest(k, p) != ItemDigest(k, q)
    ensures Leads(AtRest(BothWritten(k, p, q), map[k := q]), Raced(k, p, q))
  {
    hide Leads, Next, Alone, AtRest, SealOf, SealOne, Sealable, Sane, BothWritten;
    var v, e := BothWritten(k, p, q), k.epoch;
    WrongRecord(k, p, q);
    StaysPut(AtRest(v, map[k := q]));
    StepSealerStarts(v, map[k := q], 0, [e]);
    OneMore(AtRest(v, map[k := q]), AtRest(v, map[k := q]), Alone(v, map[k := q], None, 0, Candidate([e])));
    SealIsRun(v, map[k := q], 0, [e]);
    assert [e][1..] == [];
    Continues(AtRest(v, map[k := q]), Alone(v, map[k := q], None, 0, Candidate([e])), Raced(k, p, q));
  }

  lemma RacedIsWrong(k: Key, p: Payload, q: Payload)
    requires ItemDigest(k, p) != ItemDigest(k, q)
    ensures var d := Raced(k, p, q).disk; k.epoch in d.seals && d.seals[k.epoch] != RecordOf(d.rows, k.epoch)
  {
    hide RecordOf, SealOf, BothWritten, Sane;
    WrongRecord(k, p, q);
  }

  /**
   * From the empty store: one writer begins, a second starts on the same key and also finds it free, both finish,
   * a sealer passes. Every step but the second start is a step of the protocol, and the record written is not the
   * record of the rows.
   */
  lemma RaceSealsWrongRecord(k: Key, p: Payload, q: Payload)
    requires ItemDigest(k, p) != ItemDigest(k, q)
    ensures Leads(Reopen(Disk(map[], map[])), OneBegun(k, p))
    ensures SpawnAnyway(OneBegun(k, p), BothStarted(k, p, q), 1, Begin(WriteOf(k, q), 0))
    ensures Leads(BothStarted(k, p, q), Raced(k, p, q))
    ensures var d := Raced(k, p, q).disk; k.epoch in d.seals && d.seals[k.epoch] != RecordOf(d.rows, k.epoch)
  {
    hide *;
    FirstBegins(k, p);
    SecondStarts(k, p, q);
    BothEnd(k, p, q);
    SealerPasses(k, p, q);
    Continues(BothStarted(k, p, q), AtRest(BothWritten(k, p, q), map[k := q]), Raced(k, p, q));
    RacedIsWrong(k, p, q);
  }

  // -------------------------------------------------------------------------
  // Writers of different keys do overlap
  // -------------------------------------------------------------------------

  lemma SecondJoins(k: Key, p: Payload, l: Key, q: Payload)
    requires k != l
    ensures Next(OneBegun(k, p),
                 Pair(Begun(Fresh(), [k.epoch]), map[], Begin(WriteOf(k, p), 1), Begin(WriteOf(l, q), 0)))
  {
    hide Proper, SetOf, BeginAll;
    WriteOfProper(l, q, map[]);
    var a, b := Begin(WriteOf(k, p), 1), Begin(WriteOf(l, q), 0);
    assert map[0 := a][1 := b] == map[0 := a, 1 := b];
    var s' := Pair(Begun(Fresh(), [k.epoch]), map[], a, b);
    assert Spawn(OneBegun(k, p), s', 1, b);
  }

  lemma SecondMarks(v: Value, first: Task, w: Write)
    requires Sane(v) && Small(v) && TaskSound(first) && w.epochs != [] && w.epochs[0] !in v.sealed
    ensures Next(Pair(v, map[], first, Begin(w, 0)),
                 Pair(v.(inflight := Increment(v.inflight, w.epochs[0])), map[], first, Begin(w, 1)))
  {
    hide Next, Forest.Valid, Increment;
    var a, b := Begin(w, 0), Begin(w, 1);
    assert map[0 := first, 1 := a][1 := b] == map[0 := first, 1 := b];
    PairStep(v, map[], first, a, 1, Pair(v.(inflight := Increment(v.inflight, w.epochs[0])), map[], first, b));
  }

  lemma SecondCommits(u: Value, first: Task, w: Write)
    requires Sane(u) && TaskSound(first) && |PutAll(u.disk.rows, w.items)| <= U64_MAX
    ensures Next(Pair(u, map[], first, Begin(w, |w.epochs|)),
                 Pair(u.(disk := u.disk.(rows := PutAll(u.disk.rows, w.items))), map[], first, Fold(w)))
  {
    hide Next, Forest.Valid, PutAll;
    var a, b := Begin(w, |w.epochs|), Fold(w);
    assert map[0 := first, 1 := a][1 := b] == map[0 := first, 1 := b];
    PairStep(u, map[], first, a, 1, Pair(u.(disk := u.disk.(rows := PutAll(u.disk.rows, w.items))), map[], first, b));
  }

  /** Both in flight, neither committed. */
  ghost function BothBegun(k: Key, l: Key): Value
  {
    Fresh().(inflight := Increment(Increment(map[], k.epoch), l.epoch))
  }

  /** Both committed, neither folded. */
  ghost function BothCommitted(k: Key, p: Payload, l: Key, q: Payload): State
  {
    Pair(BothBegun(k, l).(disk := Disk(map[k := p, l := q], map[])), map[], Fold(WriteOf(k, p)), Fold(WriteOf(l, q)))
  }

  lemma MarkedIs(v: Value, e: u32)
    requires v.sealed == {} && v.disk.seals == map[]
    ensures Begun(v, [e]) == v.(inflight := Increment(v.inflight, e))
  {
    assert [e][..0] == [] && BeginAll(v.inflight, []) == v.inflight;
    assert v.disk.seals - SetOf([e]) == v.disk.seals && v.sealed - SetOf([e]) == v.sealed;
  }

  lemma BothBegunSane(k: Key, l: Key)
    ensures Sane(BothBegun(k, l)) && Small(BothBegun(k, l))
    ensures Begun(Fresh(), [k.epoch]) == Fresh().(inflight := Increment(map[], k.epoch))
    ensures Sane(Begun(Fresh(), [k.epoch])) && Small(Begun(Fresh(), [k.epoch]))
  {
    hide Sane, Begun, Increment;
    FreshIsOpen();
    MarkedIs(Fresh(), k.epoch);
    BegunSane(Fresh(), [k.epoch]);
    MarkedIs(Begun(Fresh(), [k.epoch]), l.epoch);
    BegunSane(Begun(Fresh(), [k.epoch]), [l.epoch]);
  }

  lemma BothCommittedIs(k: Key, p: Payload, l: Key, q: Payload)
    ensures var s := BothCommitted(k, p, l, q);
            s.disk.rows == map[k := p, l := q] && s.forest.trees == map[] && Count(s.inflight, k.epoch) > 0
  {
  }

  lemma RowsKeepSane(v: Value, rows: Rows)
    requires Sane(v)
    ensures Sane(v.(disk := v.disk.(rows := rows)))
  {
    hide Forest.Valid;
  }

  lemma BothBegin(k: Key, p: Payload, l: Key, q: Payload)
    requires k != l
    ensures Leads(Reopen(Disk(map[], map[])),
                  Pair(BothBegun(k, l), map[], Begin(WriteOf(k, p), 1), Begin(WriteOf(l, q), 1)))
  {
    hide Next, Leads, Begun, Increment, Sane, Fresh, Pair, Reopen;
    var w1, w2, s0 := WriteOf(k, p), WriteOf(l, q), Reopen(Disk(map[], map[]));
    var u, v := Begun(Fresh(), [k.epoch]), BothBegun(k, l);
    BothBegunSane(k, l);
    NothingSealedYet(k);
    FirstBegins(k, p);
    SecondJoins(k, p, l, q);
    OneMore(s0, OneBegun(k, p), Pair(u, map[], Begin(w1, 1), Begin(w2, 0)));
    SecondMarks(u, Begin(w1, 1), w2);
    OneMore(s0, Pair(u, map[], Begin(w1, 1), Begin(w2, 0)), Pair(v, map[], Begin(w1, 1), Begin(w2, 1)));
  }

  lemma NothingSealedYet(k: Key)
    ensures Begun(Fresh(), [k.epoch]).sealed == {}
  {
  }

  lemma BothCommit(k: Key, p: Payload, l: Key, q: Payload, s0: State)
    requires k != l && Leads(s0, Pair(BothBegun(k, l), map[], Begin(WriteOf(k, p), 1), Begin(WriteOf(l, q), 1)))
    ensures Leads(s0, BothCommitted(k, p, l, q))
  {
    hide Next, Leads, PutAll, Increment, Sane, Pair;
    var w1, w2, v := WriteOf(k, p), WriteOf(l, q), BothBegun(k, l);
    var c := v.(disk := v.disk.(rows := map[k := p]));
    BothBegunSane(k, l);
    RowsKeepSane(v, map[k := p]);
    TwoPuts(k, p, l, q);
    OneRow(k, p);
    PairCommit(v, map[], w1, Begin(w2, 1));
    OneMore(s0, Pair(v, map[], Begin(w1, 1), Begin(w2, 1)), Pair(c, map[], Fold(w1), Begin(w2, 1)));
    SecondCommits(c, Fold(w1), w2);
    OneMore(s0, Pair(c, map[], Fold(w1), Begin(w2, 1)), BothCommitted(k, p, l, q));
  }

  /**
   * Writers of different keys overlap, of one epoch too: from an empty store a run reaches a point where the rows of
   * two writes are on disk and the forest holds neither.
   */
  lemma WritersOverlap(k: Key, p: Payload, l: Key, q: Payload)
    requires k != l
    ensures Leads(Reopen(Disk(map[], map[])), BothCommitted(k, p, l, q))
    ensures var s := BothCommitted(k, p, l, q);
            s.disk.rows == map[k := p, l := q] && s.forest.trees == map[] && Count(s.inflight, k.epoch) > 0
  {
    hide Leads, BothCommitted, Pair, Reopen;
    BothCommittedIs(k, p, l, q);
    BothBegin(k, p, l, q);
    BothCommit(k, p, l, q, Reopen(Disk(map[], map[])));
  }

  lemma TwoPuts(k: Key, p: Payload, l: Key, q: Payload)
    requires k != l
    ensures PutAll(map[], [(k, p)]) == map[k := p] && PutAll(map[k := p], [(l, q)]) == map[k := p, l := q]
    ensures var rows: Rows := map[k := p, l := q]; |rows| == 2
  {
    SinglePut(map[], [(k, p)]);
    SinglePut(map[k := p], [(l, q)]);
    var rows: Rows := map[k := p, l := q];
    assert rows.Keys == {k, l} && |rows| == |rows.Keys|;
  }

  lemma FreshRows()
    ensures Fresh().disk.rows == map[] && Fresh().forest.depth <= 64
  {
  }

  lemma FirstWritten(k: Key, p: Payload)
    ensures WriteDone(Fresh(), WriteOf(k, p)).disk.rows == PutAll(map[], [(k, p)])
  {
    hide PutAll;
  }

  lemma OneRow(k: Key, p: Payload)
    ensures var rows: Rows := map[k := p]; |rows| == 1
  {
  }
}
