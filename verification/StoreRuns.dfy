/** The store's calls, run by themselves, are runs of the epoch-seal protocol. */
module StoreRuns {
  import opened Words
  import opened Bytes
  import opened Keys
  import opened Forests
  import opened Options
  import opened SealRecords
  import opened Merkle
  import opened Disk
  import opened SealProtocol
  import opened StoreState
  import opened Store

  // -------------------------------------------------------------------------
  // Paths
  // -------------------------------------------------------------------------

  ghost predicate IsPath(path: seq<State>)
  {
    path != [] && forall i :: 0 < i < |path| ==> Next(path[i - 1], path[i])
  }

  /** Protocol steps lead from `s` to `s'`. */
  ghost predicate Leads(s: State, s': State)
  {
    exists path :: IsPath(path) && path[0] == s && path[|path| - 1] == s'
  }

  lemma StaysPut(s: State)
    ensures Leads(s, s)
  {
    hide Next;
    assert IsPath([s]) && [s][0] == s;
  }

  lemma OneMore(s: State, m: State, s': State)
    requires Leads(s, m) && Next(m, s')
    ensures Leads(s, s')
  {
    hide Next;
    var path :| IsPath(path) && path[0] == s && path[|path| - 1] == m;
    var longer := path + [s'];
    assert IsPath(longer) && longer[0] == s && longer[|longer| - 1] == s';
  }

  lemma {:induction false} Continues(s: State, m: State, s': State)
    requires Leads(s, m) && Leads(m, s')
    ensures Leads(s, s')
  {
    hide Next;
    var p :| IsPath(p) && p[0] == s && p[|p| - 1] == m;
    var q :| IsPath(q) && q[0] == m && q[|q| - 1] == s';
    var r := p + q[1..];
    forall i | 0 < i < |r| ensures Next(r[i - 1], r[i]) {
      if i >= |p| { assert r[i] == q[i - |p| + 1] && r[i - 1] == q[i - |p|]; }
    }
    assert IsPath(r) && r[0] == s && r[|r| - 1] == s';
  }

  // -------------------------------------------------------------------------
  // A store at rest, and with a single task
  // -------------------------------------------------------------------------

  ghost function AtRest(v: Value, folded: Rows): State
  {
    State(v.disk, v.sealed, v.inflight, None, v.forest, folded, map[])
  }

  ghost function Alone(v: Value, folded: Rows, io: Option<TaskId>, t: TaskId, task: Task): State
  {
    State(v.disk, v.sealed, v.inflight, io, v.forest, folded, map[t := task])
  }

  predicate Small(v: Value)
  {
    |v.disk.rows| <= U64_MAX
  }

  /** A step of the only task. */
  lemma SoloStep(v: Value, folded: Rows, io: Option<TaskId>, t: TaskId, task: Task, ok: bool, s': State)
    requires v.forest.Valid() && v.forest.depth == MERKLE_LEAF_DEPTH_BITS && TaskSound(task)
    requires io == None || !(task.AwaitIo? || task.Candidate?)
    requires var s := Alone(v, folded, io, t, task);
             Sound(s) && Enabled(s, t) ==> s' == Advance(s, t, ok) && |s'.disk.rows| <= U64_MAX
    ensures Next(Alone(v, folded, io, t, task), s')
  {
    hide Advance, Forest.Valid;
    var s := Alone(v, folded, io, t, task);
    assert Sound(s) && Enabled(s, t);
  }

  // -------------------------------------------------------------------------
  // Beginning
  // -------------------------------------------------------------------------

  lemma StepMark(v: Value, folded: Rows, t: TaskId, w: Write, i: nat)
    requires Sane(v) && Small(v) && i < |w.epochs| && w.epochs[i] !in v.sealed
    ensures var u := v.(inflight := Increment(v.inflight, w.epochs[i]));
            Next(Alone(v, folded, None, t, Begin(w, i)), Alone(u, folded, None, t, Begin(w, i + 1)))
  {
    hide Next, Forest.Valid, Increment;
    var u := v.(inflight := Increment(v.inflight, w.epochs[i]));
    SoloStep(v, folded, None, t, Begin(w, i), true, Alone(u, folded, None, t, Begin(w, i + 1)));
  }

  lemma StepWait(v: Value, folded: Rows, t: TaskId, w: Write, i: nat)
    requires Sane(v) && Small(v) && i < |w.epochs| && w.epochs[i] in v.sealed
    ensures Next(Alone(v, folded, None, t, Begin(w, i)), Alone(v, folded, None, t, AwaitIo(w, i)))
  {
    hide Next, Forest.Valid;
    SoloStep(v, folded, None, t, Begin(w, i), true, Alone(v, folded, None, t, AwaitIo(w, i)));
  }

  lemma StepLock(v: Value, folded: Rows, t: TaskId, w: Write, i: nat)
    requires Sane(v) && Small(v) && i < |w.epochs|
    ensures Next(Alone(v, folded, None, t, AwaitIo(w, i)), Alone(v, folded, Some(t), t, Task.Unseal(w, i)))
  {
    hide Next, Forest.Valid;
    SoloStep(v, folded, None, t, AwaitIo(w, i), true, Alone(v, folded, Some(t), t, Task.Unseal(w, i)));
  }

  function RecordGone(v: Value, e: u32): Value
  {
    v.(disk := v.disk.(seals := v.disk.seals - {e}))
  }

  lemma StepDelete(v: Value, folded: Rows, t: TaskId, w: Write, i: nat)
    requires Sane(v) && Small(v) && i < |w.epochs|
    ensures Next(Alone(v, folded, Some(t), t, Task.Unseal(w, i)),
                 Alone(RecordGone(v, w.epochs[i]), folded, Some(t), t, Mark(w, i)))
  {
    hide Next, Forest.Valid;
    SoloStep(v, folded, Some(t), t, Task.Unseal(w, i), true,
             Alone(RecordGone(v, w.epochs[i]), folded, Some(t), t, Mark(w, i)));
  }

  lemma StepUnmark(v: Value, folded: Rows, t: TaskId, w: Write, i: nat)
    requires Sane(v) && Small(v) && i < |w.epochs|
    ensures var e := w.epochs[i];
            Next(Alone(RecordGone(v, e), folded, Some(t), t, Mark(w, i)),
                 Alone(Unsealed(v, {e}).(inflight := Increment(v.inflight, e)), folded, Some(t), t, Marked(w, i)))
  {
    hide Next, Forest.Valid, Increment;
    var e := w.epochs[i];
    var u := Unsealed(v, {e}).(inflight := Increment(v.inflight, e));
    SoloStep(RecordGone(v, e), folded, Some(t), t, Mark(w, i), true, Alone(u, folded, Some(t), t, Marked(w, i)));
  }

  lemma StepUnlock(u: Value, folded: Rows, t: TaskId, w: Write, i: nat)
    requires u.forest.Valid() && u.forest.depth == MERKLE_LEAF_DEPTH_BITS && Small(u) && i < |w.epochs|
    ensures Next(Alone(u, folded, Some(t), t, Marked(w, i)), Alone(u, folded, None, t, Begin(w, i + 1)))
  {
    hide Next, Forest.Valid;
    SoloStep(u, folded, Some(t), t, Marked(w, i), true, Alone(u, folded, None, t, Begin(w, i + 1)));
  }

  /** Directly when the epoch is not sealed, else through the lock: wait, delete the record, unmark, release. */
  lemma BeginOne(v: Value, folded: Rows, t: TaskId, w: Write, i: nat)
    requires Sane(v) && Small(v) && i < |w.epochs|
    ensures var u := Unsealed(v, {w.epochs[i]}).(inflight := Increment(v.inflight, w.epochs[i]));
            Leads(Alone(v, folded, None, t, Begin(w, i)), Alone(u, folded, None, t, Begin(w, i + 1)))
  {
    hide Next, Leads, Alone, Forest.Valid, Increment;
    var e := w.epochs[i];
    var u := Unsealed(v, {e}).(inflight := Increment(v.inflight, e));
    var s0 := Alone(v, folded, None, t, Begin(w, i));
    StaysPut(s0);
    if e in v.sealed {
      StepWait(v, folded, t, w, i);
      StepLock(v, folded, t, w, i);
      StepDelete(v, folded, t, w, i);
      StepUnmark(v, folded, t, w, i);
      StepUnlock(u, folded, t, w, i);
      OneMore(s0, s0, Alone(v, folded, None, t, AwaitIo(w, i)));
      OneMore(s0, Alone(v, folded, None, t, AwaitIo(w, i)), Alone(v, folded, Some(t), t, Task.Unseal(w, i)));
      OneMore(s0, Alone(v, folded, Some(t), t, Task.Unseal(w, i)),
              Alone(RecordGone(v, e), folded, Some(t), t, Mark(w, i)));
      OneMore(s0, Alone(RecordGone(v, e), folded, Some(t), t, Mark(w, i)), Alone(u, folded, Some(t), t, Marked(w, i)));
      OneMore(s0, Alone(u, folded, Some(t), t, Marked(w, i)), Alone(u, folded, None, t, Begin(w, i + 1)));
    } else {
      StepMark(v, folded, t, w, i);
      NotSealed(v, e);
      OneMore(s0, s0, Alone(u, folded, None, t, Begin(w, i + 1)));
    }
  }

  lemma NotSealed(v: Value, e: u32)
    requires Sane(v) && e !in v.sealed
    ensures Unsealed(v, {e}) == v
  {
    assert v.disk.seals - {e} == v.disk.seals && v.sealed - {e} == v.sealed;
  }

  lemma {:induction false} BeginMany(v: Value, folded: Rows, t: TaskId, w: Write, n: nat)
    requires Sane(v) && Small(v) && n <= |w.epochs|
    ensures Leads(Alone(v, folded, None, t, Begin(w, 0)), Alone(Begun(v, w.epochs[..n]), folded, None, t, Begin(w, n)))
    decreases n
  {
    hide Next, Leads, Alone, Forest.Valid, Begun;
    var s0 := Alone(v, folded, None, t, Begin(w, 0));
    if n == 0 {
      StaysPut(s0);
      NoneBegun(v, w.epochs);
    } else {
      var u := Begun(v, w.epochs[..n - 1]);
      BeginMany(v, folded, t, w, n - 1);
      BegunSane(v, w.epochs[..n - 1]);
      BeginOne(u, folded, t, w, n - 1);
      BegunStep(v, w.epochs, n - 1);
      Continues(s0, Alone(u, folded, None, t, Begin(w, n - 1)),
                Alone(Begun(v, w.epochs[..n]), folded, None, t, Begin(w, n)));
    }
  }

  lemma {:induction false} BegunKeys(inflight: map<u32, nat>, es: seq<u32>, e: u32)
    ensures e in BeginAll(inflight, es) <==> e in inflight || e in es
    decreases |es|
  {
    if es != [] {
      assert es == es[..|es| - 1] + [es[|es| - 1]];
      BegunKeys(inflight, es[..|es| - 1], e);
    }
  }

  lemma BegunSane(v: Value, es: seq<u32>)
    requires Sane(v)
    ensures Sane(Begun(v, es)) && (Small(v) ==> Small(Begun(v, es)))
  {
    hide Forest.Valid, BeginAll;
    BeginPositive(v.inflight, es);
    UnsealKeeps(v, SetOf(es));
    forall e | e in BeginAll(v.inflight, es) ensures e !in v.sealed - SetOf(es) {
      BegunKeys(v.inflight, es, e);
      if e in es { var i :| 0 <= i < |es| && es[i] == e; }
    }
  }

  // -------------------------------------------------------------------------
  // A whole write
  // -------------------------------------------------------------------------

  /** The rows are put, folded in as the write calls for, and the epochs' records are gone. */
  function WriteDone(v: Value, w: Write): Value
    requires v.forest.depth <= 64
  {
    var u := Unsealed(v, SetOf(w.epochs));
    u.(disk := u.disk.(rows := PutAll(u.disk.rows, w.items)), forest := FoldIn(v.forest, w))
  }

  lemma StepCommit(u: Value, folded: Rows, t: TaskId, w: Write)
    requires Sane(u) && |PutAll(u.disk.rows, w.items)| <= U64_MAX
    ensures Next(Alone(u, folded, None, t, Begin(w, |w.epochs|)),
                 Alone(u.(disk := u.disk.(rows := PutAll(u.disk.rows, w.items))), folded, None, t, Fold(w)))
  {
    hide Next, Forest.Valid, PutAll;
    var p := u.(disk := u.disk.(rows := PutAll(u.disk.rows, w.items)));
    SoloStep(u, folded, None, t, Begin(w, |w.epochs|), true, Alone(p, folded, None, t, Fold(w)));
  }

  lemma StepFold(p: Value, folded: Rows, t: TaskId, w: Write)
    requires p.forest.Valid() && p.forest.depth == MERKLE_LEAF_DEPTH_BITS && Small(p)
    ensures Next(Alone(p, folded, None, t, Fold(w)),
                 Alone(p.(forest := FoldIn(p.forest, w)), PutAll(folded, w.items), None, t, End(w)))
  {
    hide Next, Forest.Valid, PutAll, FoldIn;
    var f := p.(forest := FoldIn(p.forest, w));
    SoloStep(p, folded, None, t, Fold(w), true, Alone(f, PutAll(folded, w.items), None, t, End(w)));
  }

  lemma StepEnd(f: Value, folded: Rows, t: TaskId, w: Write)
    requires f.forest.Valid() && f.forest.depth == MERKLE_LEAF_DEPTH_BITS && Small(f)
    ensures Next(Alone(f, folded, None, t, End(w)), AtRest(f.(inflight := EndAll(f.inflight, w.epochs)), folded))
  {
    hide Next, Forest.Valid, EndAll;
    assert map[t := End(w)] - {t} == map[];
    SoloStep(f, folded, None, t, End(w), true, AtRest(f.(inflight := EndAll(f.inflight, w.epochs)), folded));
  }

  lemma StepSpawn(v: Value, folded: Rows, t: TaskId, w: Write)
    requires Proper(w) && w.existing == Found(v.disk.rows, w.items)
    ensures Next(AtRest(v, folded), Alone(v, folded, None, t, Begin(w, 0)))
  {
    hide Proper, Found;
    assert Spawn(AtRest(v, folded), Alone(v, folded, None, t, Begin(w, 0)), t, Begin(w, 0));
  }

  lemma FoldInValid(f: Forest, w: Write)
    requires f.Valid()
    ensures FoldIn(f, w).Valid() && FoldIn(f, w).depth == f.depth
  {
    hide Canonical, ToggleLeaf, InsertAll;
    InsertAllValid(f, w.items);
    if |w.items| == 1 && w.items[0].0 in w.existing {
      var k, p := w.items[0].0, w.existing[w.items[0].0];
      InsertValid(f, k, p);
      InsertValid(f.Remove(k, p), k, w.items[0].1);
    }
  }

  /** A proper write, run alone with all commits succeeding, is a run of the protocol. */
  lemma WriteIsRun(v: Value, folded: Rows, t: TaskId, w: Write)
    requires Sane(v) && Small(v) && Proper(w) && w.existing == Found(v.disk.rows, w.items)
    requires |PutAll(v.disk.rows, w.items)| <= U64_MAX
    ensures Leads(AtRest(v, folded), AtRest(WriteDone(v, w), PutAll(folded, w.items)))
  {
    hide Next, Leads, Alone, AtRest, Forest.Valid, PutAll, FoldIn, EndAll, BeginAll, Found, SetOf;
    var s0, s1 := AtRest(v, folded), Alone(v, folded, None, t, Begin(w, 0));
    var n := |w.epochs|;
    var u := Begun(v, w.epochs);
    var p := u.(disk := u.disk.(rows := PutAll(u.disk.rows, w.items)));
    var f := p.(forest := FoldIn(p.forest, w));
    StaysPut(s0);
    StepSpawn(v, folded, t, w);
    OneMore(s0, s0, s1);
    BeginMany(v, folded, t, w, n);
    AllBegun(v, w.epochs);
    BegunSane(v, w.epochs);
    Continues(s0, s1, Alone(u, folded, None, t, Begin(w, n)));
    StepCommit(u, folded, t, w);
    OneMore(s0, Alone(u, folded, None, t, Begin(w, n)), Alone(p, folded, None, t, Fold(w)));
    StepFold(p, folded, t, w);
    OneMore(s0, Alone(p, folded, None, t, Fold(w)), Alone(f, PutAll(folded, w.items), None, t, End(w)));
    FoldInValid(v.forest, w);
    StepEnd(f, PutAll(folded, w.items), t, w);
    EndUndoesBegin(v.inflight, w.epochs);
    OneMore(s0, Alone(f, PutAll(folded, w.items), None, t, End(w)), AtRest(WriteDone(v, w), PutAll(folded, w.items)));
  }

  // -------------------------------------------------------------------------
  // A write whose commit fails
  // -------------------------------------------------------------------------

  lemma StepDeleteFails(v: Value, folded: Rows, t: TaskId, w: Write, i: nat)
    requires Sane(v) && Small(v) && i < |w.epochs|
    ensures Next(Alone(v, folded, Some(t), t, Task.Unseal(w, i)), Alone(v, folded, Some(t), t, UnsealFailed(w, i)))
  {
    hide Next, Forest.Valid;
    SoloStep(v, folded, Some(t), t, Task.Unseal(w, i), false, Alone(v, folded, Some(t), t, UnsealFailed(w, i)));
  }

  lemma StepGiveUpLock(v: Value, folded: Rows, t: TaskId, w: Write, i: nat)
    requires Sane(v) && Small(v) && i < |w.epochs|
    ensures Next(Alone(v, folded, Some(t), t, UnsealFailed(w, i)), Alone(v, folded, None, t, Rollback(w, i)))
  {
    hide Next, Forest.Valid;
    SoloStep(v, folded, Some(t), t, UnsealFailed(w, i), true, Alone(v, folded, None, t, Rollback(w, i)));
  }

  lemma StepRollback(v: Value, folded: Rows, t: TaskId, w: Write, i: nat)
    requires Sane(v) && Small(v) && i < |w.epochs|
    ensures Next(Alone(v, folded, None, t, Rollback(w, i)),
                 AtRest(v.(inflight := EndAll(v.inflight, w.epochs[..i])), folded))
  {
    hide Next, Forest.Valid, EndAll;
    var r := v.(inflight := EndAll(v.inflight, w.epochs[..i]));
    assert map[t := Rollback(w, i)] - {t} == map[];
    SoloStep(v, folded, None, t, Rollback(w, i), true, AtRest(r, folded));
  }

  lemma StepCommitFails(u: Value, folded: Rows, t: TaskId, w: Write)
    requires Sane(u) && Small(u)
    ensures Next(Alone(u, folded, None, t, Begin(w, |w.epochs|)), Alone(u, folded, None, t, End(w)))
  {
    hide Next, Forest.Valid;
    SoloStep(u, folded, None, t, Begin(w, |w.epochs|), false, Alone(u, folded, None, t, End(w)));
  }

  lemma DistinctPrefix(es: seq<u32>, i: nat)
    requires Distinct(es) && i <= |es|
    ensures Distinct(es[..i])
  {
  }

  /** The first `i` epochs begun, from the store at rest. */
  lemma BegunRun(v: Value, folded: Rows, t: TaskId, w: Write, i: nat)
    requires Sane(v) && Small(v) && Proper(w) && w.existing == Found(v.disk.rows, w.items) && i <= |w.epochs|
    ensures var u := Begun(v, w.epochs[..i]);
            && Leads(AtRest(v, folded), Alone(u, folded, None, t, Begin(w, i)))
            && Sane(u) && Small(u) && Distinct(w.epochs[..i]) && EndAll(u.inflight, w.epochs[..i]) == v.inflight
  {
    hide Next, Leads, Alone, AtRest, Forest.Valid, EndAll, BeginAll, Found, SetOf, KeysOf, DistinctKeys;
    var s0, s1 := AtRest(v, folded), Alone(v, folded, None, t, Begin(w, 0));
    StaysPut(s0);
    StepSpawn(v, folded, t, w);
    OneMore(s0, s0, s1);
    BeginMany(v, folded, t, w, i);
    BegunSane(v, w.epochs[..i]);
    Continues(s0, s1, Alone(Begun(v, w.epochs[..i]), folded, None, t, Begin(w, i)));
    DistinctPrefix(w.epochs, i);
    EndUndoesBegin(v.inflight, w.epochs[..i]);
  }

  /** When the deletion of a record fails the records before it are gone and no count is left. */
  lemma BeginFailsIsRun(v: Value, folded: Rows, t: TaskId, w: Write, i: nat)
    requires Sane(v) && Small(v) && Proper(w) && w.existing == Found(v.disk.rows, w.items)
    requires i < |w.epochs| && w.epochs[i] in Begun(v, w.epochs[..i]).sealed
    ensures Leads(AtRest(v, folded), AtRest(Unsealed(v, SetOf(w.epochs[..i])), folded))
  {
    hide Next, Leads, Alone, AtRest, Forest.Valid, EndAll, BeginAll, Found, SetOf, Proper;
    var s0, u := AtRest(v, folded), Begun(v, w.epochs[..i]);
    BegunRun(v, folded, t, w, i);
    StepWait(u, folded, t, w, i);
    OneMore(s0, Alone(u, folded, None, t, Begin(w, i)), Alone(u, folded, None, t, AwaitIo(w, i)));
    StepLock(u, folded, t, w, i);
    OneMore(s0, Alone(u, folded, None, t, AwaitIo(w, i)), Alone(u, folded, Some(t), t, Task.Unseal(w, i)));
    StepDeleteFails(u, folded, t, w, i);
    OneMore(s0, Alone(u, folded, Some(t), t, Task.Unseal(w, i)), Alone(u, folded, Some(t), t, UnsealFailed(w, i)));
    StepGiveUpLock(u, folded, t, w, i);
    OneMore(s0, Alone(u, folded, Some(t), t, UnsealFailed(w, i)), Alone(u, folded, None, t, Rollback(w, i)));
    StepRollback(u, folded, t, w, i);
    OneMore(s0, Alone(u, folded, None, t, Rollback(w, i)), AtRest(Unsealed(v, SetOf(w.epochs[..i])), folded));
  }

  /** When the commit of the rows fails only the records of the epochs are gone. */
  lemma CommitFailsIsRun(v: Value, folded: Rows, t: TaskId, w: Write)
    requires Sane(v) && Small(v) && Proper(w) && w.existing == Found(v.disk.rows, w.items)
    ensures Leads(AtRest(v, folded), AtRest(Unsealed(v, SetOf(w.epochs)), folded))
  {
    hide Next, Leads, Alone, AtRest, Forest.Valid, EndAll, BeginAll, Found, SetOf, Proper;
    var s0, n, u := AtRest(v, folded), |w.epochs|, Begun(v, w.epochs);
    BegunRun(v, folded, t, w, n);
    AllBegun(v, w.epochs);
    assert w.epochs[..n] == w.epochs;
    StepCommitFails(u, folded, t, w);
    OneMore(s0, Alone(u, folded, None, t, Begin(w, n)), Alone(u, folded, None, t, End(w)));
    StepEnd(u, folded, t, w);
    OneMore(s0, Alone(u, folded, None, t, End(w)), AtRest(Unsealed(v, SetOf(w.epochs)), folded));
  }

  /** Every outcome of a write that fails is one the protocol reaches. */
  lemma FailedWriteIsRun(v: Value, folded: Rows, t: TaskId, w: Write, u: Value)
    requires Sane(v) && Small(v) && Proper(w) && w.existing == Found(v.disk.rows, w.items)
    requires Abandoned(v, w.epochs, u)
    ensures Leads(AtRest(v, folded), AtRest(u, folded))
  {
    hide Leads, AtRest, Forest.Valid, Found, BeginAll, SetOf;
    var es := w.epochs;
    var i :| 0 <= i <= |es| && (i < |es| ==> es[i] in v.sealed) && u == Unsealed(v, SetOf(es[..i]));
    if i < |es| {
      NotAmongEarlier(es, i);
      BeginFailsIsRun(v, folded, t, w, i);
    } else {
      assert es[..i] == es;
      CommitFailsIsRun(v, folded, t, w);
    }
  }

  lemma NotAmongEarlier(es: seq<u32>, i: nat)
    requires i < |es| && forall a, b :: 0 <= a < b < |es| ==> es[a] != es[b]
    ensures es[i] !in SetOf(es[..i])
  {
  }

  /** A value without the events, which the protocol does not track. */
  function Silent(v: Value): Value
  {
    v.(events := [])
  }

  lemma SameAtRest(v: Value, w: Value, folded: Rows)
    requires Silent(v) == Silent(w)
    ensures AtRest(v, folded) == AtRest(w, folded)
  {
  }

  lemma NothingFound(rows: Rows, items: seq<(Key, Payload)>)
    requires AllFresh(rows, items)
    ensures Found(rows, items) == map[]
  {
  }

  lemma EpochsCoverKeys(items: seq<(Key, Payload)>, es: seq<u32>)
    requires SetOf(es) == ItemEpochs(items)
    ensures forall k :: k in KeysOf(items) ==> k.epoch in es
  {
    forall k | k in KeysOf(items) ensures k.epoch in es {
      var i :| 0 <= i < |items| && items[i].0 == k;
      assert k.epoch in ItemEpochs(items);
    }
  }

  /** A local write of fresh rows is what the protocol's writer does. */
  lemma LocalWriteIsRun(v: Value, folded: Rows, t: TaskId, items: seq<(Key, Payload)>, es: seq<u32>)
    requires Sane(v) && Small(v) && AllFresh(v.disk.rows, items) && |PutAll(v.disk.rows, items)| <= U64_MAX
    requires Distinct(es) && SetOf(es) == ItemEpochs(items)
    ensures Leads(AtRest(v, folded), AtRest(Written(v, items), PutAll(folded, items)))
  {
    hide Leads, AtRest, Forest.Valid, PutAll, InsertAll, SetOf, ItemEpochs, KeysOf, Found;
    var w := Write(items, map[], es);
    NothingFound(v.disk.rows, items);
    EpochsCoverKeys(items, es);
    assert Proper(w);
    WriteIsRun(v, folded, t, w);
    SameAtRest(WriteDone(v, w), Written(v, items), PutAll(folded, items));
  }

  lemma FoundOne(rows: Rows, k: Key, p: Payload)
    ensures Found(rows, [(k, p)]) == if k in rows then map[k := rows[k]] else map[]
    ensures KeysOf([(k, p)]) == {k}
  {
    assert [(k, p)][0].0 == k;
    assert KeysOf([(k, p)]) == {k};
  }

  lemma MergeIsProper(rows: Rows, k: Key, p: Payload)
    requires Wins(rows, k, p)
    ensures Proper(Write([(k, p)], Found(rows, [(k, p)]), [k.epoch]))
  {
    hide Found, KeysOf;
    FoundOne(rows, k, p);
  }

  /** A merge that wins is what the protocol's writer does. */
  lemma MergeIsRun(v: Value, folded: Rows, t: TaskId, k: Key, p: Payload)
    requires Sane(v) && Small(v) && Wins(v.disk.rows, k, p) && |v.disk.rows[k := p]| <= U64_MAX
    ensures Leads(AtRest(v, folded), AtRest(Merged(v, k, p), folded[k := p]))
  {
    hide Leads, AtRest, Forest.Valid, PutAll, InsertAll, SetOf, KeysOf, Found, Forest.Insert, Forest.Remove;
    var items := [(k, p)];
    var w := Write(items, Found(v.disk.rows, items), [k.epoch]);
    FoundOne(v.disk.rows, k, p);
    MergeIsProper(v.disk.rows, k, p);
    hide Proper;
    OneEpoch(v, k.epoch);
    SinglePut(v.disk.rows, items);
    SinglePut(folded, items);
    SingleInsert(v.forest, k, p);
    WriteIsRun(v, folded, t, w);
    SameAtRest(WriteDone(v, w), Merged(v, k, p), folded[k := p]);
  }

  // -------------------------------------------------------------------------
  // Sealing and opening
  // -------------------------------------------------------------------------

  lemma StepTakeLock(v: Value, folded: Rows, t: TaskId, cs: seq<u32>)
    requires Sane(v) && Small(v) && cs != []
    ensures Next(Alone(v, folded, None, t, Candidate(cs)), Alone(v, folded, Some(t), t, Check(cs)))
  {
    hide Next, Forest.Valid;
    SoloStep(v, folded, None, t, Candidate(cs), true, Alone(v, folded, Some(t), t, Check(cs)));
  }

  lemma StepSkip(v: Value, folded: Rows, t: TaskId, cs: seq<u32>)
    requires Sane(v) && Small(v) && cs != [] && (cs[0] in v.sealed || cs[0] in v.inflight)
    ensures Next(Alone(v, folded, Some(t), t, Check(cs)), Alone(v, folded, Some(t), t, Release(cs[1..], false)))
  {
    hide Next, Forest.Valid;
    assert cs[0] !in v.inflight ==> v.sealed + {cs[0]} == v.sealed;
    SoloStep(v, folded, Some(t), t, Check(cs), true, Alone(v, folded, Some(t), t, Release(cs[1..], false)));
  }

  lemma StepSealMark(v: Value, folded: Rows, t: TaskId, cs: seq<u32>)
    requires Sane(v) && Small(v) && cs != [] && cs[0] !in v.sealed && cs[0] !in v.inflight
    ensures Next(Alone(v, folded, Some(t), t, Check(cs)),
                 Alone(v.(sealed := v.sealed + {cs[0]}), folded, Some(t), t, Serialize(cs)))
  {
    hide Next, Forest.Valid;
    SoloStep(v, folded, Some(t), t, Check(cs), true,
             Alone(v.(sealed := v.sealed + {cs[0]}), folded, Some(t), t, Serialize(cs)));
  }

  lemma StepSerialize(m: Value, folded: Rows, t: TaskId, cs: seq<u32>)
    requires m.forest.Valid() && m.forest.depth == MERKLE_LEAF_DEPTH_BITS && Small(m) && cs != []
    ensures var r := SealOf(m.forest, cs[0]);
            Next(Alone(m, folded, Some(t), t, Serialize(cs)),
                 Alone(m, folded, Some(t), t, if r.None? then Unmark(cs, false) else Commit(cs, r.value)))
  {
    hide Next, Forest.Valid, Record;
    var r := SealOf(m.forest, cs[0]);
    SoloStep(m, folded, Some(t), t, Serialize(cs), true,
             Alone(m, folded, Some(t), t, if r.None? then Unmark(cs, false) else Commit(cs, r.value)));
  }

  lemma StepSealCommit(m: Value, folded: Rows, t: TaskId, cs: seq<u32>, r: Bytes)
    requires m.forest.Valid() && m.forest.depth == MERKLE_LEAF_DEPTH_BITS && Small(m) && cs != []
    ensures Next(Alone(m, folded, Some(t), t, Commit(cs, r)),
                 Alone(m.(disk := m.disk.(seals := m.disk.seals[cs[0] := r])), folded, Some(t), t,
                       Release(cs[1..], false)))
  {
    hide Next, Forest.Valid;
    var c := m.(disk := m.disk.(seals := m.disk.seals[cs[0] := r]));
    SoloStep(m, folded, Some(t), t, Commit(cs, r), true, Alone(c, folded, Some(t), t, Release(cs[1..], false)));
  }

  lemma StepSealUnmark(v: Value, folded: Rows, t: TaskId, cs: seq<u32>)
    requires Sane(v) && Small(v) && cs != [] && cs[0] !in v.sealed
    ensures Next(Alone(v.(sealed := v.sealed + {cs[0]}), folded, Some(t), t, Unmark(cs, false)),
                 Alone(v, folded, Some(t), t, Release(cs[1..], false)))
  {
    hide Next, Forest.Valid;
    var m := v.(sealed := v.sealed + {cs[0]});
    assert m.sealed - {cs[0]} == v.sealed;
    SoloStep(m, folded, Some(t), t, Unmark(cs, false), true, Alone(v, folded, Some(t), t, Release(cs[1..], false)));
  }

  lemma StepRelease(v: Value, folded: Rows, t: TaskId, cs: seq<u32>)
    requires v.forest.Valid() && v.forest.depth == MERKLE_LEAF_DEPTH_BITS && Small(v)
    ensures Next(Alone(v, folded, Some(t), t, Release(cs, false)), Alone(v, folded, None, t, Candidate(cs)))
  {
    hide Next, Forest.Valid;
    SoloStep(v, folded, Some(t), t, Release(cs, false), true, Alone(v, folded, None, t, Candidate(cs)));
  }

  /** What the store does with a candidate is what the protocol's sealer does with it. */
  lemma SealIsRun(v: Value, folded: Rows, t: TaskId, cs: seq<u32>)
    requires Sane(v) && Small(v) && cs != []
    ensures var w := if Sealable(v, cs[0]) then SealOne(v, cs[0]) else v;
            Leads(Alone(v, folded, None, t, Candidate(cs)), Alone(w, folded, None, t, Candidate(cs[1..])))
  {
    hide Next, Leads, Alone, Forest.Valid, SealOf;
    var e := cs[0];
    var s0, s1 := Alone(v, folded, None, t, Candidate(cs)), Alone(v, folded, Some(t), t, Check(cs));
    var out := Alone(v, folded, Some(t), t, Release(cs[1..], false));
    StaysPut(s0);
    StepTakeLock(v, folded, t, cs);
    OneMore(s0, s0, s1);
    if e in v.sealed || e in v.inflight {
      StepSkip(v, folded, t, cs);
      OneMore(s0, s1, out);
      StepRelease(v, folded, t, cs[1..]);
      OneMore(s0, out, Alone(v, folded, None, t, Candidate(cs[1..])));
    } else {
      var m := v.(sealed := v.sealed + {e});
      var r := SealOf(v.forest, e);
      var s2 := Alone(m, folded, Some(t), t, Serialize(cs));
      StepSealMark(v, folded, t, cs);
      OneMore(s0, s1, s2);
      StepSerialize(m, folded, t, cs);
      if r.None? {
        var s3 := Alone(m, folded, Some(t), t, Unmark(cs, false));
        OneMore(s0, s2, s3);
        StepSealUnmark(v, folded, t, cs);
        OneMore(s0, s3, out);
        StepRelease(v, folded, t, cs[1..]);
        OneMore(s0, out, Alone(v, folded, None, t, Candidate(cs[1..])));
      } else {
        var s3 := Alone(m, folded, Some(t), t, Commit(cs, r.value));
        var w := SealOne(v, e);
        OneMore(s0, s2, s3);
        StepSealCommit(m, folded, t, cs, r.value);
        OneMore(s0, s3, Alone(w, folded, Some(t), t, Release(cs[1..], false)));
        StepRelease(w, folded, t, cs[1..]);
        OneMore(s0, Alone(w, folded, Some(t), t, Release(cs[1..], false)),
                Alone(w, folded, None, t, Candidate(cs[1..])));
      }
    }
  }

  lemma StepSealCommitFails(m: Value, folded: Rows, t: TaskId, cs: seq<u32>, r: Bytes)
    requires m.forest.Valid() && m.forest.depth == MERKLE_LEAF_DEPTH_BITS && Small(m) && cs != []
    ensures Next(Alone(m, folded, Some(t), t, Commit(cs, r)), Alone(m, folded, Some(t), t, Unmark(cs, true)))
  {
    hide Next, Forest.Valid;
    SoloStep(m, folded, Some(t), t, Commit(cs, r), false, Alone(m, folded, Some(t), t, Unmark(cs, true)));
  }

  lemma StepSealGiveUp(v: Value, folded: Rows, t: TaskId, cs: seq<u32>)
    requires Sane(v) && Small(v) && cs != [] && cs[0] !in v.sealed
    ensures Next(Alone(v.(sealed := v.sealed + {cs[0]}), folded, Some(t), t, Unmark(cs, true)),
                 Alone(v, folded, Some(t), t, Release(cs[1..], true)))
  {
    hide Next, Forest.Valid;
    var m := v.(sealed := v.sealed + {cs[0]});
    assert m.sealed - {cs[0]} == v.sealed;
    SoloStep(m, folded, Some(t), t, Unmark(cs, true), true, Alone(v, folded, Some(t), t, Release(cs[1..], true)));
  }

  lemma StepSealStop(v: Value, folded: Rows, t: TaskId, cs: seq<u32>)
    requires Sane(v) && Small(v)
    ensures Next(Alone(v, folded, Some(t), t, Release(cs, true)), AtRest(v, folded))
  {
    hide Next, Forest.Valid;
    assert map[t := Release(cs, true)] - {t} == map[];
    SoloStep(v, folded, Some(t), t, Release(cs, true), true, AtRest(v, folded));
  }

  /** When the commit of a record fails the epoch is unmarked and the pass ends. */
  lemma SealFailsIsRun(v: Value, folded: Rows, t: TaskId, cs: seq<u32>)
    requires Sane(v) && Small(v) && cs != [] && Sealable(v, cs[0])
    ensures Leads(Alone(v, folded, None, t, Candidate(cs)), AtRest(v, folded))
  {
    hide Next, Leads, Alone, AtRest, Forest.Valid, SealOf;
    var s0, m, r := Alone(v, folded, None, t, Candidate(cs)), v.(sealed := v.sealed + {cs[0]}), SealOf(v.forest, cs[0]);
    StaysPut(s0);
    StepTakeLock(v, folded, t, cs);
    OneMore(s0, s0, Alone(v, folded, Some(t), t, Check(cs)));
    StepSealMark(v, folded, t, cs);
    OneMore(s0, Alone(v, folded, Some(t), t, Check(cs)), Alone(m, folded, Some(t), t, Serialize(cs)));
    StepSerialize(m, folded, t, cs);
    OneMore(s0, Alone(m, folded, Some(t), t, Serialize(cs)), Alone(m, folded, Some(t), t, Commit(cs, r.value)));
    StepSealCommitFails(m, folded, t, cs, r.value);
    OneMore(s0, Alone(m, folded, Some(t), t, Commit(cs, r.value)), Alone(m, folded, Some(t), t, Unmark(cs, true)));
    StepSealGiveUp(v, folded, t, cs);
    OneMore(s0, Alone(m, folded, Some(t), t, Unmark(cs, true)), Alone(v, folded, Some(t), t, Release(cs[1..], true)));
    StepSealStop(v, folded, t, cs[1..]);
    OneMore(s0, Alone(v, folded, Some(t), t, Release(cs[1..], true)), AtRest(v, folded));
  }

  // -------------------------------------------------------------------------
  // A whole pass
  // -------------------------------------------------------------------------

  lemma StepSealerStarts(v: Value, folded: Rows, t: TaskId, cs: seq<u32>)
    ensures Next(AtRest(v, folded), Alone(v, folded, None, t, Candidate(cs)))
  {
    assert Spawn(AtRest(v, folded), Alone(v, folded, None, t, Candidate(cs)), t, Candidate(cs));
  }

  lemma StepSealerEnds(v: Value, folded: Rows, t: TaskId)
    requires Sane(v) && Small(v)
    ensures Next(Alone(v, folded, None, t, Candidate([])), AtRest(v, folded))
  {
    hide Next, Forest.Valid;
    var none: map<TaskId, Task> := map[t := Candidate([])] - {t};
    assert none == map[];
    SoloStep(v, folded, None, t, Candidate([]), true, AtRest(v, folded));
  }

  lemma SealOneSane(v: Value, e: u32)
    requires Sane(v) && Sealable(v, e)
    ensures Sane(SealOne(v, e)) && (Small(v) ==> Small(SealOne(v, e)))
  {
    hide Forest.Valid, SealOf;
  }

  lemma PassStep(v: Value, cs: seq<u32>, i: nat)
    requires v.forest.depth <= 63 && Distinct(cs) && i < |cs|
    ensures var w := SealAll(v, ToSeal(v, cs[..i]));
            SealAll(v, ToSeal(v, cs[..i + 1])) == if Sealable(w, cs[i]) then SealOne(w, cs[i]) else w
  {
    hide Sealable, SealOne, SealAll, ToSeal;
    ToSealStep(v, cs, i);
    var done := ToSeal(v, cs[..i]);
    assert done + [] == done;
  }

  lemma PassStarts(v: Value, cs: seq<u32>)
    requires v.forest.depth <= 63
    ensures SealAll(v, ToSeal(v, cs[..0])) == v && cs[0..] == cs
  {
  }

  /** After the first `i` candidates the records of those that could be sealed are written. */
  lemma {:induction false} PassReaches(v: Value, folded: Rows, t: TaskId, cs: seq<u32>, i: nat)
    requires Sane(v) && Small(v) && Distinct(cs) && i <= |cs|
    ensures var w := SealAll(v, ToSeal(v, cs[..i]));
            Sane(w) && Small(w) && Leads(AtRest(v, folded), Alone(w, folded, None, t, Candidate(cs[i..])))
    decreases i
  {
    hide Next, Leads, Alone, AtRest, Sane, Small, Sealable, SealOne, SealAll, ToSeal, Distinct;
    DepthOf(v);
    if i == 0 {
      PassStarts(v, cs);
      StaysPut(AtRest(v, folded));
      StepSealerStarts(v, folded, t, cs);
      OneMore(AtRest(v, folded), AtRest(v, folded), Alone(v, folded, None, t, Candidate(cs)));
    } else {
      var rest := cs[i - 1..];
      PassReaches(v, folded, t, cs, i - 1);
      PassStep(v, cs, i - 1);
      var w := SealAll(v, ToSeal(v, cs[..i - 1]));
      assert rest[0] == cs[i - 1] && rest[1..] == cs[i..];
      SealIsRun(w, folded, t, rest);
      if Sealable(w, cs[i - 1]) { SealOneSane(w, cs[i - 1]); }
      var w' := SealAll(v, ToSeal(v, cs[..i]));
      Continues(AtRest(v, folded), Alone(w, folded, None, t, Candidate(rest)),
                Alone(w', folded, None, t, Candidate(cs[i..])));
    }
  }

  lemma DepthOf(v: Value)
    requires Sane(v)
    ensures v.forest.depth == MERKLE_LEAF_DEPTH_BITS
  {
  }

  /** A pass that ends well is a run of the protocol from rest to rest. */
  lemma SealPassIsRun(v: Value, folded: Rows, t: TaskId, cs: seq<u32>)
    requires Sane(v) && Small(v) && Distinct(cs)
    ensures Leads(AtRest(v, folded), AtRest(SealAll(v, ToSeal(v, cs)), folded))
  {
    hide Next, Leads, Alone, AtRest, Sane, Small, Sealable, SealOne, SealAll, ToSeal;
    var n := |cs|;
    PassReaches(v, folded, t, cs, n);
    DepthOf(v);
    assert cs[..n] == cs && cs[n..] == [];
    var w := SealAll(v, ToSeal(v, cs));
    StepSealerEnds(w, folded, t);
    OneMore(AtRest(v, folded), Alone(w, folded, None, t, Candidate([])), AtRest(w, folded));
  }

  lemma {:induction false} PrefixEndsAt(v: Value, cs: seq<u32>, done: seq<u32>)
    requires v.forest.depth <= 63 && done < ToSeal(v, cs)
    ensures exists i :: 0 <= i < |cs| && done == ToSeal(v, cs[..i]) && Sealable(v, cs[i])
    decreases |cs|
  {
    hide Sealable;
    var n := |cs| - 1;
    var before := ToSeal(v, cs[..n]);
    if done < before {
      PrefixEndsAt(v, cs[..n], done);
      var i :| 0 <= i < n && done == ToSeal(v, cs[..n][..i]) && Sealable(v, cs[..n][i]);
      assert cs[..n][..i] == cs[..i] && cs[..n][i] == cs[i];
    } else {
      assert done == before && Sealable(v, cs[n]);
    }
  }

  /** ... and so is one that a failing commit breaks off, at whichever candidate. */
  lemma BrokenPassIsRun(v: Value, folded: Rows, t: TaskId, cs: seq<u32>, done: seq<u32>)
    requires Sane(v) && Small(v) && Distinct(cs) && done < ToSeal(v, cs)
    ensures Leads(AtRest(v, folded), AtRest(SealAll(v, done), folded))
  {
    hide Next, Leads, Alone, AtRest, Sane, Small, Sealable, SealOne, SealAll, ToSeal;
    DepthOf(v);
    PrefixEndsAt(v, cs, done);
    var i :| 0 <= i < |cs| && done == ToSeal(v, cs[..i]) && Sealable(v, cs[i]);
    PassReaches(v, folded, t, cs, i);
    ToSealStep(v, cs, i);
    assert cs[i..][0] == cs[i];
    SealFailsIsRun(SealAll(v, done), folded, t, cs[i..]);
    Continues(AtRest(v, folded), Alone(SealAll(v, done), folded, None, t, Candidate(cs[i..])),
              AtRest(SealAll(v, done), folded));
  }

  /** A store just opened is the protocol's state after a crash and a reopen. */
  lemma OpenIsReopen(d: Disk)
    ensures Reopen(d) == AtRest(Value(d, OpenForest(d), ReadableSeals(d), map[], []), d.rows)
  {
  }
}
