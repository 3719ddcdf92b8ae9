/** Every step of the epoch-seal protocol, crashes included, keeps the invariant; what that means for runs. */
module SealSafety {
  import opened Words
  import opened Bytes
  import opened Keys
  import opened Folds
  import opened Forests
  import opened Options
  import opened SealRecords
  import opened Merkle
  import opened Disk
  import opened SealProtocol

  // -------------------------------------------------------------------------
  // In-flight counts
  // -------------------------------------------------------------------------

  /** 1 when task `t` has the epoch in flight, else 0. */
  function Share(s: State, t: TaskId, e: u32): nat
  {
    if t in s.tasks && s.tasks[t].InFlight(e) then 1 else 0
  }

  lemma HoldersSplit(s: State, t: TaskId, e: u32)
    ensures |Holders(s, e)| == |Holders(s, e) - {t}| + Share(s, t, e)
  {
    if t in Holders(s, e) {
      assert Holders(s, e) == (Holders(s, e) - {t}) + {t};
    } else {
      assert Holders(s, e) - {t} == Holders(s, e);
    }
  }

  /** The counts stay right when each changes just as the moving task's own share does. */
  lemma CountsMove(s: State, s': State, t: TaskId)
    requires CountsInv(s) && s'.tasks - {t} == s.tasks - {t}
    requires forall e: u32 :: Count(s'.inflight, e) == Count(s.inflight, e) - Share(s, t, e) + Share(s', t, e)
    requires Positive(s'.inflight) && s'.inflight.Keys !! s'.sealed
    ensures CountsInv(s')
  {
    forall e: u32 ensures Count(s'.inflight, e) == |Holders(s', e)| {
      HoldersSplit(s, t, e);
      HoldersSplit(s', t, e);
      OtherHolders(s, s', t, e);
      hide Holders, Share;
    }
  }

  lemma OtherHolders(s: State, s': State, t: TaskId, e: u32)
    requires s'.tasks - {t} == s.tasks - {t}
    ensures Holders(s, e) - {t} == Holders(s', e) - {t}
  {
    hide Task.InFlight;
    var rest := s.tasks - {t};
    assert forall o :: o in Holders(s, e) - {t} <==> o in rest && rest[o].InFlight(e);
    assert forall o :: o in Holders(s', e) - {t} <==> o in rest && rest[o].InFlight(e);
  }

  /** Ending distinct epochs takes one off each of their counts. */
  lemma {:induction false} EndAllCounts(inflight: map<u32, nat>, es: seq<u32>, e: u32)
    requires Positive(inflight) && forall i, j :: 0 <= i < j < |es| ==> es[i] != es[j]
    requires forall x :: x in es ==> x in inflight
    ensures Positive(EndAll(inflight, es)) && EndAll(inflight, es).Keys <= inflight.Keys
    ensures Count(EndAll(inflight, es), e) == Count(inflight, e) - (if e in es then 1 else 0)
    decreases |es|
  {
    if es != [] {
      var n := |es| - 1;
      assert es == es[..n] + [es[n]];
      EndAllCounts(inflight, es[..n], e);
      EndAllCounts(inflight, es[..n], es[n]);
    }
  }

  lemma HeldInFlight(s: State, t: TaskId, e: u32)
    requires CountsInv(s) && t in s.tasks && s.tasks[t].InFlight(e)
    ensures e in s.inflight && e !in s.sealed
  {
    assert t in Holders(s, e);
    assert Count(s.inflight, e) > 0;
  }

  lemma EndAllOwn(s: State, t: TaskId, n: nat)
    requires Inv(s) && t in s.tasks && s.tasks[t].Writer?() && n == s.tasks[t].Begun() <= |s.tasks[t].w.epochs|
    ensures var m := EndAll(s.inflight, s.tasks[t].w.epochs[..n]);
            && Positive(m) && m.Keys !! s.sealed
            && forall e: u32 :: Count(m, e) == Count(s.inflight, e) - Share(s, t, e)
  {
    var es := s.tasks[t].w.epochs[..n];
    forall x | x in es ensures x in s.inflight { HeldInFlight(s, t, x); }
    forall e: u32
      ensures Count(EndAll(s.inflight, es), e) == Count(s.inflight, e) - Share(s, t, e)
    {
      EndAllCounts(s.inflight, es, e);
    }
    EndAllCounts(s.inflight, es, 0);
  }

  lemma BeginShares(w: Write, i: nat, e: u32)
    requires Proper(w) && i < |w.epochs|
    ensures e in w.epochs[..i + 1] <==> e in w.epochs[..i] || e == w.epochs[i]
    ensures w.epochs[i] !in w.epochs[..i]
  {
    assert w.epochs[..i + 1] == w.epochs[..i] + [w.epochs[i]];
  }

  /** Except where an epoch begins or all end, a step keeps its task's write and what it has begun. */
  lemma QuietStep(s: State, task: Task, ok: bool)
    requires TaskSound(task) && s.forest.depth <= 63
    requires !task.Mark? && !task.Rollback? && !task.End?
             && (task.Begin? ==> task.i == |task.w.epochs| || task.w.epochs[task.i] in s.sealed)
    ensures var next := NextTask(s, task, ok);
            && (next.Some? && next.value.Writer?() <==> task.Writer?())
            && (task.Writer?() ==> next.value.w == task.w && next.value.Begun() == task.Begun())
            && InflightAfter(s, task) == s.inflight
  {
    hide SealOf;
  }

  /** A step changes the epochs its own task has in flight just as it changes the counts. */
  lemma SharesMove(s: State, t: TaskId, ok: bool, e: u32)
    requires Inv(s) && Enabled(s, t)
    requires !s.tasks[t].Rollback? && !s.tasks[t].End?
    ensures var s' := Advance(s, t, ok);
            Count(s'.inflight, e) == Count(s.inflight, e) - Share(s, t, e) + Share(s', t, e)
  {
    var task := s.tasks[t];
    if task.Mark? || (task.Begin? && task.i < |task.w.epochs| && task.w.epochs[task.i] !in s.sealed) {
      hide FoldInv, SealsInv, Pending, CountsInv, IoInv, DiskAfter, SealedAfter, IoAfter, SealOf, EndAll, FoldIn,
           PutAll, Forest.Valid;
      BeginShares(task.w, task.i, e);
    } else {
      QuietStep(s, task, ok);
      hide FoldInv, SealsInv, Pending, CountsInv, IoInv, DiskAfter, SealedAfter, IoAfter, FoldIn, PutAll,
           Forest.Valid, NextTask, InflightAfter, TaskSound, WritesInv, Task.Begun;
    }
  }

  lemma CountsEnd(s: State, t: TaskId, ok: bool)
    requires Inv(s) && Enabled(s, t) && (s.tasks[t].Rollback? || s.tasks[t].End?)
    ensures CountsInv(Advance(s, t, ok))
  {
    var w, n := s.tasks[t].w, s.tasks[t].Begun();
    EndAllOwn(s, t, n);
    assert w.epochs[..|w.epochs|] == w.epochs;
    TasksMove(s.tasks, t, NextTask(s, s.tasks[t], ok));
    hide FoldInv, SealsInv, Pending, IoInv, WritesInv, Forest.Valid, Holders;
    CountsMove(s, Advance(s, t, ok), t);
  }

  lemma TasksMove(tasks: map<TaskId, Task>, t: TaskId, next: Option<Task>)
    ensures TasksAfter(tasks, t, next) - {t} == tasks - {t}
  {
  }

  lemma StillUnsealed(s: State, t: TaskId)
    requires CountsInv(s) && t in s.tasks && TaskSound(s.tasks[t])
    requires !s.tasks[t].Rollback? && !s.tasks[t].End?
    ensures Positive(InflightAfter(s, s.tasks[t]))
    ensures InflightAfter(s, s.tasks[t]).Keys !! SealedAfter(s, s.tasks[t])
  {
    hide Holders;
  }

  lemma CountsKept(s: State, t: TaskId, ok: bool)
    requires Inv(s) && Enabled(s, t)
    ensures CountsInv(Advance(s, t, ok))
  {
    if s.tasks[t].Rollback? || s.tasks[t].End? {
      CountsEnd(s, t, ok);
    } else {
      var s' := Advance(s, t, ok);
      forall e: u32
        ensures Count(s'.inflight, e) == Count(s.inflight, e) - Share(s, t, e) + Share(s', t, e)
      {
        SharesMove(s, t, ok, e);
      }
      TasksMove(s.tasks, t, NextTask(s, s.tasks[t], ok));
      StillUnsealed(s, t);
      assert s'.tasks - {t} == s.tasks - {t} && s'.inflight == InflightAfter(s, s.tasks[t])
             && s'.sealed == SealedAfter(s, s.tasks[t]);
      hide *;
      CountsMove(s, s', t);
    }
  }

  // -------------------------------------------------------------------------
  // The lock
  // -------------------------------------------------------------------------

  predicate IoAt(s: State, t: TaskId)
  {
    if t in s.tasks then (s.tasks[t].HoldsIo() <==> s.io == Some(t)) && TaskSound(s.tasks[t]) else s.io != Some(t)
  }

  lemma OtherTask(s: State, s': State, t: TaskId, o: TaskId)
    requires s'.tasks - {t} == s.tasks - {t} && o != t
    ensures o in s.tasks <==> o in s'.tasks
    ensures o in s.tasks ==> s.tasks[o] == s'.tasks[o]
  {
    assert o in s.tasks <==> o in s.tasks - {t};
    assert o in s'.tasks <==> o in s'.tasks - {t};
    if o in s.tasks { assert (s.tasks - {t})[o] == s.tasks[o] && (s'.tasks - {t})[o] == s'.tasks[o]; }
  }

  /** The lock changes hands only through the moving task. */
  lemma IoMove(s: State, s': State, t: TaskId)
    requires (forall o :: IoAt(s, o)) && s'.tasks - {t} == s.tasks - {t} && IoAt(s', t)
    requires s'.io == s.io || (s.io == None && s'.io == Some(t)) || (s.io == Some(t) && s'.io == None)
    ensures forall o :: IoAt(s', o)
  {
    forall o ensures IoAt(s', o) {
      assert IoAt(s, o);
      if o != t { OtherTask(s, s', t, o); }
    }
  }

  lemma IoPointwise(s: State)
    ensures (forall o :: IoAt(s, o)) <==> IoInv(s) && forall o :: o in s.tasks ==> TaskSound(s.tasks[o])
  {
    if forall o :: IoAt(s, o) {
      if s.io.Some? { assert IoAt(s, s.io.value); }
      forall t | t in s.tasks ensures TaskSound(s.tasks[t]) {
        assert IoAt(s, t);
      }
      forall t | t in s.tasks ensures s.tasks[t].HoldsIo() <==> s.io == Some(t) {
        assert IoAt(s, t);
      }
    }
  }

  lemma IoStep(s: State, t: TaskId, ok: bool)
    requires Sound(s) && Enabled(s, t) && IoAt(s, t)
    ensures var s' := Advance(s, t, ok);
            && IoAt(s', t)
            && (s'.io == s.io || (s.io == None && s'.io == Some(t)) || (s.io == Some(t) && s'.io == None))
  {
    hide Forest.Valid, SealOf, DiskAfter, SealedAfter, InflightAfter, FoldIn, PutAll;
  }

  lemma IoKept(s: State, t: TaskId, ok: bool)
    requires Inv(s) && Enabled(s, t)
    ensures IoInv(Advance(s, t, ok))
    ensures forall o :: o in Advance(s, t, ok).tasks ==> TaskSound(Advance(s, t, ok).tasks[o])
  {
    IoPointwise(s);
    assert IoAt(s, t);
    IoStep(s, t, ok);
    TasksMove(s.tasks, t, NextTask(s, s.tasks[t], ok));
    hide CountsInv, SealsInv, WritesInv, FoldInv, Forest.Valid, NextTask, DiskAfter, SealedAfter, InflightAfter,
         IoAfter, FoldIn, PutAll;
    IoMove(s, Advance(s, t, ok), t);
    IoPointwise(Advance(s, t, ok));
  }

  // -------------------------------------------------------------------------
  // Records
  // -------------------------------------------------------------------------

  lemma SameEpochRows(a: Rows, b: Rows, e: u32)
    requires forall k: Key :: k.epoch == e ==> SameAt(a, b, k)
    ensures EpochRows(a, e) == EpochRows(b, e)
  {
    assert forall k :: k in EpochRows(a, e) ==> SameAt(a, b, k);
    assert forall k :: k in EpochRows(b, e) ==> SameAt(a, b, k);
  }

  lemma SameRecord(a: Rows, b: Rows, e: u32)
    requires forall k: Key :: k.epoch == e ==> SameAt(a, b, k)
    ensures RecordOf(a, e) == RecordOf(b, e)
    ensures Summarise(a, e, MERKLE_LEAF_DEPTH_BITS) == Summarise(b, e, MERKLE_LEAF_DEPTH_BITS)
  {
    SameEpochRows(a, b, e);
    SummariseCongruent(a, b, e, MERKLE_LEAF_DEPTH_BITS);
  }

  /** No step writes a row of a sealed epoch. */
  lemma SealedRecordKept(s: State, t: TaskId, ok: bool, e: u32)
    requires Inv(s) && Enabled(s, t) && e in s.sealed
    ensures RecordOf(DiskAfter(s.disk, s.tasks[t], ok).rows, e) == RecordOf(s.disk.rows, e)
  {
    hide CountsInv, FoldInv, IoInv, SealsInv, RecordOf, FoldIn, Forest.Valid, PutAll;
    var task := s.tasks[t];
    if task.Begin? && task.i == |task.w.epochs| {
      assert task.w.epochs[..task.i] == task.w.epochs;
      if e in task.w.epochs { HeldInFlight(s, t, e); }
      forall k: Key | k.epoch == e
        ensures SameAt(PutAll(s.disk.rows, task.w.items), s.disk.rows, k)
      {
        PutAllAt(s.disk.rows, task.w.items, k);
      }
      SameRecord(PutAll(s.disk.rows, task.w.items), s.disk.rows, e);
    }
  }

  /** An epoch with no write in flight is folded in completely. */
  lemma SettledSummary(s: State, e: u32)
    requires Inv(s) && e !in s.inflight
    ensures s.forest.At(e) == Summarise(s.disk.rows, e, MERKLE_LEAF_DEPTH_BITS)
  {
    forall k: Key | k.epoch == e ensures SameAt(s.folded, s.disk.rows, k) {
      assert FoldAt(s, k);
      if t :| t in s.tasks && s.tasks[t].Fold? && s.tasks[t].Writes(k) {
        var w := s.tasks[t].w;
        assert w.epochs[..|w.epochs|] == w.epochs;
        HeldInFlight(s, t, e);
      }
    }
    SameRecord(s.folded, s.disk.rows, e);
  }

  /** What the sealer serializes is the record the disk calls for. */
  lemma SerializedIsExact(s: State, e: u32)
    requires Inv(s) && e in s.sealed
    ensures SealOf(s.forest, e).Some? ==> SealOf(s.forest, e).value == RecordOf(s.disk.rows, e)
  {
    assert e !in s.inflight;
    SettledSummary(s, e);
  }

  lemma PendingMove(s: State, s': State, t: TaskId)
    requires IoInv(s) && IoInv(s') && s'.tasks - {t} == s.tasks - {t} && t in s.tasks
    requires (forall o :: o in s.tasks ==> TaskSound(s.tasks[o]))
             && (forall o :: o in s'.tasks ==> TaskSound(s'.tasks[o]))
    requires s'.io == s.io || (s.io == None && s'.io == Some(t)) || (s.io == Some(t) && s'.io == None)
    ensures s.tasks[t].HoldsIo() ==> Pending(s) == PendingOf(s.tasks[t])
    ensures t in s'.tasks && s'.tasks[t].HoldsIo() ==> Pending(s') == PendingOf(s'.tasks[t])
    ensures s.io == None ==> Pending(s) == {}
    ensures s'.io == None ==> Pending(s') == {}
    ensures !s.tasks[t].HoldsIo() && s'.io == s.io ==> Pending(s') == Pending(s)
  {
    hide TaskSound;
    if s.io.Some? && s.io.value != t { OtherTask(s, s', t, s.io.value); }
  }

  ghost function PendingNext(next: Option<Task>): set<u32>
    requires next.Some? ==> TaskSound(next.value)
  {
    if next.Some? then PendingOf(next.value) else {}
  }

  /** A step inside the critical section keeps "records = sealed minus pending". */
  lemma HolderStep(s: State, task: Task, ok: bool)
    requires TaskSound(task) && s.forest.depth <= 63 && task.HoldsIo() && SealerSound(s.sealed, s.disk.rows, task)
    requires s.disk.seals.Keys == s.sealed - PendingOf(task)
    ensures var next := NextTask(s, task, ok);
            && (next.Some? ==> TaskSound(next.value))
            && DiskAfter(s.disk, task, ok).seals.Keys == SealedAfter(s, task) - PendingNext(next)
            && (next.Some? && !next.value.HoldsIo() ==> PendingNext(next) == {})
  {
    hide RecordOf, SealOf;
  }

  /** A step outside it touches neither set. */
  lemma OutsiderStep(s: State, task: Task, ok: bool)
    requires TaskSound(task) && s.forest.depth <= 63 && !task.HoldsIo()
    ensures DiskAfter(s.disk, task, ok).seals == s.disk.seals && SealedAfter(s, task) == s.sealed
    ensures var next := NextTask(s, task, ok);
            next.Some? ==> TaskSound(next.value) && (next.value.HoldsIo() ==> PendingOf(next.value) == {})
    ensures IoAfter(s, 0, task) == s.io || (NextTask(s, task, ok).Some? && NextTask(s, task, ok).value.HoldsIo())
  {
    hide RecordOf, SealOf, PutAll;
  }

  /** The sealed set and the set of records move together, step by step. */
  lemma SealedMove(s: State, t: TaskId, ok: bool)
    requires Inv(s) && Enabled(s, t)
    requires var s' := Advance(s, t, ok);
             IoInv(s') && forall o :: o in s'.tasks ==> TaskSound(s'.tasks[o])
    ensures var s' := Advance(s, t, ok);
            s'.disk.seals.Keys == s'.sealed - Pending(s')
  {
    var s' := Advance(s, t, ok);
    var task := s.tasks[t];
    TasksMove(s.tasks, t, NextTask(s, task, ok));
    assert IoAt(s, t);
    IoStep(s, t, ok);
    PendingMove(s, s', t);
    assert SealerSound(s.sealed, s.disk.rows, task);
    if task.HoldsIo() {
      HolderStep(s, task, ok);
    } else {
      OutsiderStep(s, task, ok);
      assert s'.io == IoAfter(s, t, task);
    }
    hide CountsInv, WritesInv, FoldInv, Forest.Valid, NextTask, DiskAfter, SealedAfter, InflightAfter, FoldIn, PutAll,
         Pending, PendingOf, SealExact, SealerSound, TaskSound;
  }

  /** The moving task's own seal data stays right. */
  lemma OwnSealer(s: State, task: Task, ok: bool)
    requires TaskSound(task) && s.forest.depth <= 63 && SealerSound(s.sealed, s.disk.rows, task)
    requires task.Serialize? && SealOf(s.forest, task.cs[0]).Some?
             ==> SealOf(s.forest, task.cs[0]).value == RecordOf(s.disk.rows, task.cs[0])
    ensures var next := NextTask(s, task, ok);
            next.Some? ==> SealerSound(SealedAfter(s, task), DiskAfter(s.disk, task, ok).rows, next.value)
  {
    hide SealOf, RecordOf, PutAll;
  }

  lemma SealerKept(s: State, t: TaskId, ok: bool, o: TaskId)
    requires Inv(s) && Enabled(s, t)
    requires o in Advance(s, t, ok).tasks
    ensures var s' := Advance(s, t, ok); SealerSound(s'.sealed, s'.disk.rows, s'.tasks[o])
  {
    if o == t {
      var task := s.tasks[t];
      assert SealerSound(s.sealed, s.disk.rows, task);
      if task.Serialize? { SerializedIsExact(s, task.cs[0]); }
      OwnSealer(s, task, ok);
    } else {
      var s' := Advance(s, t, ok);
      var task := s.tasks[t];
      TasksMove(s.tasks, t, NextTask(s, task, ok));
      OtherTask(s, s', t, o);
      var other := s.tasks[o];
      assert SealerSound(s.sealed, s.disk.rows, other);
      if other.HoldsIo() {
        OutsiderStep(s, task, ok);
        if other.Commit? { SealedRecordKept(s, t, ok, other.cs[0]); }
      }
      hide CountsInv, WritesInv, FoldInv, Forest.Valid, NextTask, DiskAfter, SealedAfter, EndAll, FoldIn, PutAll,
           Pending, SealExact, IoInv, IoAfter, InflightAfter, RecordOf, TaskSound;
    }
  }

  lemma ExactKept(s: State, t: TaskId, ok: bool)
    requires Inv(s) && Enabled(s, t)
    ensures SealExact(Advance(s, t, ok).disk)
  {
    var task := s.tasks[t];
    var disk := DiskAfter(s.disk, task, ok);
    assert SealerSound(s.sealed, s.disk.rows, task);
    forall e | e in disk.seals ensures disk.seals[e] == RecordOf(disk.rows, e) {
      if e in s.disk.seals { SealedRecordKept(s, t, ok, e); }
    }
  }

  // -------------------------------------------------------------------------
  // Writes and folds
  // -------------------------------------------------------------------------

  /** A task's write never changes, and only the two commit-related counters are entered by the steps that say so. */
  lemma WriteStep(s: State, task: Task, ok: bool)
    requires TaskSound(task) && s.forest.depth <= 63
    ensures var next := NextTask(s, task, ok);
            && (next.Some? && next.value.Writer?() ==> task.Writer?() && next.value.w == task.w)
            && (next.Some? && next.value.Fold? ==> task.Begin? && task.i == |task.w.epochs| && ok)
            && (next.Some? && next.value.Writer?() && !next.value.Fold? && !next.value.End?
                ==> !task.Fold? && !task.End?)
            && (DiskAfter(s.disk, task, ok).rows == s.disk.rows
                || (next.Some? && next.value.Fold?
                    && DiskAfter(s.disk, task, ok).rows == PutAll(s.disk.rows, task.w.items)))
            && (next.Some? && next.value.Fold?
                ==> DiskAfter(s.disk, task, ok).rows == PutAll(s.disk.rows, task.w.items))
  {
    hide SealOf, PutAll;
  }

  /** Rows at keys the moving task does not write stay as they were. */
  lemma OtherRowsKept(s: State, t: TaskId, ok: bool, k: Key)
    requires Sound(s) && Enabled(s, t) && !s.tasks[t].Writes(k)
    ensures SameAt(Advance(s, t, ok).disk.rows, s.disk.rows, k)
  {
    WriteStep(s, s.tasks[t], ok);
    if s.tasks[t].Writer?() { PutAllAt(s.disk.rows, s.tasks[t].w.items, k); }
    hide NextTask, DiskAfter, Forest.Valid;
  }

  lemma WritesKept(s: State, t: TaskId, ok: bool)
    requires Inv(s) && Enabled(s, t)
    ensures WritesInv(Advance(s, t, ok))
  {
    var s' := Advance(s, t, ok);
    var task := s.tasks[t];
    WriteStep(s, task, ok);
    TasksMove(s.tasks, t, NextTask(s, task, ok));
    forall o | o in s'.tasks && s'.tasks[o].Writer?()
      ensures o in s.tasks && s.tasks[o].Writer?() && s'.tasks[o].w == s.tasks[o].w
      ensures !s'.tasks[o].Fold? && !s'.tasks[o].End? ==> !s.tasks[o].Fold? && !s.tasks[o].End?
    {
      if o != t { OtherTask(s, s', t, o); }
    }
    forall o, k | o in s'.tasks && s'.tasks[o].Writes(k) && !s'.tasks[o].Fold? && !s'.tasks[o].End?
      ensures SameAt(s'.disk.rows, s'.tasks[o].w.existing, k)
    {
      assert s.tasks[o].Writes(k);
      assert SameAt(s.disk.rows, s.tasks[o].w.existing, k);
      if o != t { OtherRowsKept(s, t, ok, k); }
    }
    hide CountsInv, FoldInv, SealsInv, IoInv, NextTask, DiskAfter, SealedAfter, InflightAfter, Forest.Valid,
         TaskSound, Proper, SameAt;
  }

  /** The tasks between commit and fold. */
  lemma FoldTasks(s: State, t: TaskId, ok: bool, o: TaskId)
    requires Sound(s) && Enabled(s, t) && o != t
    ensures var s' := Advance(s, t, ok);
            (o in s.tasks <==> o in s'.tasks) && (o in s.tasks ==> s'.tasks[o] == s.tasks[o])
  {
    TasksMove(s.tasks, t, NextTask(s, s.tasks[t], ok));
    OtherTask(s, Advance(s, t, ok), t, o);
  }

  /** A key the moving task does not write. */
  lemma FoldElsewhere(s: State, t: TaskId, ok: bool, k: Key)
    requires Inv(s) && Enabled(s, t) && !s.tasks[t].Writes(k)
    ensures FoldAt(Advance(s, t, ok), k)
  {
    var s' := Advance(s, t, ok);
    var task := s.tasks[t];
    assert FoldAt(s, k);
    WriteStep(s, task, ok);
    OtherRowsKept(s, t, ok, k);
    if task.Fold? { PutAllAt(s.folded, task.w.items, k); }
    assert SameAt(s'.folded, s.folded, k);
    forall o ensures (o in s'.tasks && s'.tasks[o].Fold? && s'.tasks[o].Writes(k))
                     <==> (o in s.tasks && s.tasks[o].Fold? && s.tasks[o].Writes(k))
    {
      if o != t { FoldTasks(s, t, ok, o); }
    }
    forall o | o in s'.tasks && s'.tasks[o].Fold? && s'.tasks[o].Writes(k) ensures s'.tasks[o] == s.tasks[o] {
      FoldTasks(s, t, ok, o);
    }
    assert Unfolded(s', k) <==> Unfolded(s, k);
    hide CountsInv, SealsInv, IoInv, WritesInv, NextTask, DiskAfter, SealedAfter, InflightAfter, Forest.Valid,
         TaskSound, PutAll, FoldIn;
  }

  /** A key the moving task writes: nobody else does. */
  lemma FoldHere(s: State, t: TaskId, ok: bool, k: Key)
    requires Inv(s) && Enabled(s, t) && s.tasks[t].Writes(k)
    ensures FoldAt(Advance(s, t, ok), k)
  {
    var s' := Advance(s, t, ok);
    var task := s.tasks[t];
    assert FoldAt(s, k);
    WriteStep(s, task, ok);
    PutAllAt(s.disk.rows, task.w.items, k);
    PutAllAt(s.folded, task.w.items, k);
    assert Unfolded(s, k) <==> task.Fold?;
    forall o | o in s'.tasks && s'.tasks[o].Fold? && s'.tasks[o].Writes(k) ensures o == t {
      if o != t { FoldTasks(s, t, ok, o); }
    }
    assert t in s'.tasks && s'.tasks[t].Fold? ==> s'.tasks[t].Writes(k);
    hide CountsInv, SealsInv, IoInv, NextTask, DiskAfter, SealedAfter, InflightAfter, Forest.Valid, TaskSound, PutAll,
         FoldIn;
  }

  lemma FoldKept(s: State, t: TaskId, ok: bool)
    requires Inv(s) && Enabled(s, t)
    ensures FoldInv(Advance(s, t, ok))
  {
    var s' := Advance(s, t, ok);
    var task := s.tasks[t];
    assert Represents(s'.forest, s'.folded) by {
      if task.Fold? {
        forall k | k in KeysOf(task.w.items) ensures SameAt(s.folded, task.w.existing, k) {
          assert FoldAt(s, k) && task.Writes(k);
        }
        FoldInStep(s.forest, s.folded, task.w);
      }
    }
    forall k ensures FoldAt(s', k) {
      if task.Writes(k) { FoldHere(s, t, ok, k); } else { FoldElsewhere(s, t, ok, k); }
    }
  }

  // -------------------------------------------------------------------------
  // Every step keeps the invariant
  // -------------------------------------------------------------------------

  lemma StepKeepsInv(s: State, t: TaskId, ok: bool)
    requires Inv(s) && Enabled(s, t) && |Advance(s, t, ok).disk.rows| <= U64_MAX
    ensures Inv(Advance(s, t, ok))
  {
    var s' := Advance(s, t, ok);
    IoKept(s, t, ok);
    CountsKept(s, t, ok);
    WritesKept(s, t, ok);
    FoldKept(s, t, ok);
    ExactKept(s, t, ok);
    SealedMove(s, t, ok);
    forall o | o in s'.tasks ensures SealerSound(s'.sealed, s'.disk.rows, s'.tasks[o]) { SealerKept(s, t, ok, o); }
    assert s'.forest.Valid() by { InStepValid(s'.forest, s'.folded); }
    assert Sound(s') by { DepthKept(s, t, ok); }
    hide Advance, CountsInv, WritesInv, FoldInv, SealExact, Pending, IoInv, Sound;
  }

  lemma DepthKept(s: State, t: TaskId, ok: bool)
    requires Sound(s) && Enabled(s, t)
    ensures Advance(s, t, ok).forest.depth == s.forest.depth
  {
  }

  lemma SpawnKeepsInv(s: State, s': State, t: TaskId, task: Task)
    requires Inv(s) && Spawn(s, s', t, task)
    ensures Inv(s')
  {
    SpawnSeals(s, s', t, task);
    SpawnCounts(s, s', t, task);
    SpawnWrites(s, s', t, task);
    forall k ensures FoldAt(s', k) { SpawnFold(s, s', t, task, k); }
    hide FoldAt, CountsInv, Represents, SealsInv, WritesInv, IoInv, Sound, Proper, Found;
  }

  lemma SpawnSeals(s: State, s': State, t: TaskId, task: Task)
    requires Sound(s) && IoInv(s) && SealsInv(s) && Spawn(s, s', t, task)
    ensures Sound(s') && IoInv(s') && SealsInv(s')
  {
    hide Proper, Found, SealExact, RecordOf, Forest.Valid;
    assert Pending(s') == Pending(s);
  }

  lemma SpawnCounts(s: State, s': State, t: TaskId, task: Task)
    requires CountsInv(s) && Spawn(s, s', t, task)
    ensures CountsInv(s')
  {
    forall e: u32 ensures Count(s'.inflight, e) == |Holders(s', e)| {
      assert Holders(s', e) == Holders(s, e);
    }
  }

  lemma SpawnFold(s: State, s': State, t: TaskId, task: Task, k: Key)
    requires FoldAt(s, k) && Spawn(s, s', t, task)
    ensures FoldAt(s', k)
  {
    if o :| o in s.tasks && s.tasks[o].Fold? && s.tasks[o].Writes(k) {
      assert s'.tasks[o] == s.tasks[o];
    }
    hide Task.Writes, PutAll;
  }

  lemma SpawnWrites(s: State, s': State, t: TaskId, task: Task)
    requires WritesInv(s) && Spawn(s, s', t, task)
    ensures WritesInv(s')
  {
    hide Proper;
  }

  /** From a disk with exact records, reopening starts in the invariant: a crash loses nothing that matters. */
  lemma ReopenKeepsInv(disk: Disk)
    requires SealExact(disk) && |disk.rows| <= U64_MAX
    ensures Inv(Reopen(disk))
  {
    OpenInStep(disk);
    hide *;
    IdleInv(Reopen(disk)) by { ReopenIsIdle(disk); }
  }

  /** Nothing running, nothing pending, everything folded. */
  ghost predicate Idle(s: State)
  {
    && s.tasks == map[] && s.inflight == map[] && s.io == None && s.folded == s.disk.rows
    && s.forest.depth == MERKLE_LEAF_DEPTH_BITS && s.sealed == s.disk.seals.Keys
  }

  lemma ReopenIsIdle(disk: Disk)
    requires ReadableSeals(disk) == disk.seals.Keys
    ensures Idle(Reopen(disk)) && Reopen(disk).disk == disk && Reopen(disk).forest == OpenForest(disk)
  {
    hide ReadableSeals;
  }

  lemma IdleInv(s: State)
    requires Idle(s) && Represents(s.forest, s.disk.rows) && SealExact(s.disk) && |s.disk.rows| <= U64_MAX
    ensures Inv(s)
  {
    InStepValid(s.forest, s.folded);
    NoTasksCounts(s);
    hide Represents, SealExact, Forest.Valid, CountsInv, Unfolded;
  }

  lemma NoTasksCounts(s: State)
    requires s.tasks == map[] && s.inflight == map[]
    ensures CountsInv(s)
  {
    forall e: u32 ensures Holders(s, e) == {} {}
  }

  lemma NextKeepsInv(s: State, s': State)
    requires Inv(s) && Next(s, s')
    ensures Inv(s')
  {
    if t, task :| Spawn(s, s', t, task) {
      SpawnKeepsInv(s, s', t, task);
    } else if t, ok :| Sound(s) && Enabled(s, t) && s' == Advance(s, t, ok) && |s'.disk.rows| <= U64_MAX {
      StepKeepsInv(s, t, ok);
    } else {
      ReopenKeepsInv(s.disk);
    }
  }

  lemma {:induction false} RunKeepsInv(run: seq<State>, i: nat)
    requires IsRun(run) && i < |run|
    ensures Inv(run[i])
  {
    if i == 0 {
      ReopenKeepsInv(Disk(map[], map[]));
    } else {
      RunKeepsInv(run, i - 1);
      NextKeepsInv(run[i - 1], run[i]);
    }
  }

  // -------------------------------------------------------------------------
  // Main results
  // -------------------------------------------------------------------------

  /** At every point of every run, each seal record on disk is exactly the record of its epoch's rows on disk. */
  lemma SealsAlwaysExact(run: seq<State>, i: nat)
    requires IsRun(run) && i < |run|
    ensures forall e :: e in run[i].disk.seals ==>
              Parse(MERKLE_LEAF_DEPTH_BITS, run[i].disk.seals[e])
              == Some(Summarise(run[i].disk.rows, e, MERKLE_LEAF_DEPTH_BITS))
    ensures SealExact(run[i].disk)
  {
    RunKeepsInv(run, i);
    forall e | e in run[i].disk.seals { ExactRecordParses(run[i].disk, e); }
  }

  /** Wherever a run is cut, `open` rebuilds a forest whose every node is the fold of the persisted rows of its cell. */
  lemma OpenAfterAnyCrash(run: seq<State>, i: nat, e: u32, d: nat, p: u64)
    requires IsRun(run) && i < |run| && IsDepth(d) && d <= MERKLE_LEAF_DEPTH_BITS
    ensures var disk := run[i].disk;
            && OpenForest(disk).Hash(e, d, p) == CellHash(disk.rows, e, d, if d == 0 then 0 else p)
            && TotalCount(OpenForest(disk).trees) == |disk.rows|
            && ReadableSeals(disk) == disk.seals.Keys
  {
    RunKeepsInv(run, i);
    OpenHashesAndLength(run[i].disk, e, d, p);
    OpenInStep(run[i].disk);
  }

  /** `inflight(e)` is the number of writers between begin and end; such an epoch is never marked sealed. */
  lemma InflightIsWriterCount(run: seq<State>, i: nat, e: u32)
    requires IsRun(run) && i < |run|
    ensures Count(run[i].inflight, e) == |Holders(run[i], e)|
    ensures Count(run[i].inflight, e) > 0 ==> e !in run[i].sealed
  {
    RunKeepsInv(run, i);
  }

  /** Whenever `seal_io` is free, the sealed set is the set of epochs with a record on disk. */
  lemma SealedMatchesDisk(run: seq<State>, i: nat)
    requires IsRun(run) && i < |run| && run[i].io == None
    ensures run[i].sealed == run[i].disk.seals.Keys
  {
    RunKeepsInv(run, i);
  }

  lemma SameRows(a: Rows, b: Rows)
    requires forall k :: SameAt(a, b, k)
    ensures a == b
  {
    assert forall k :: k in a ==> SameAt(a, b, k);
    assert forall k :: k in b ==> SameAt(a, b, k);
  }

  /** With no write between commit and fold, the live forest is the fold of the rows on disk. */
  lemma ForestInStep(run: seq<State>, i: nat, e: u32, d: nat, p: u64)
    requires IsRun(run) && i < |run| && IsDepth(d) && d <= MERKLE_LEAF_DEPTH_BITS
    requires forall t :: t in run[i].tasks ==> !run[i].tasks[t].Fold?
    ensures run[i].forest.Hash(e, d, p) == CellHash(run[i].disk.rows, e, d, if d == 0 then 0 else p)
  {
    var s := run[i];
    RunKeepsInv(run, i);
    assert Represents(s.forest, s.folded);
    hide Represents;
    forall k ensures SameAt(s.folded, s.disk.rows, k) { assert FoldAt(s, k); }
    hide Inv, Unfolded, FoldAt;
    SameRows(s.folded, s.disk.rows);
    assert Represents(s.forest, s.disk.rows);
    HashIsFold(s.forest, s.disk.rows, e, d, p);
  }

  /** A begin that fails half way gives back every count it took: what is left is what the other tasks hold. */
  lemma FailedBeginRestores(run: seq<State>, i: nat, t: TaskId, e: u32)
    requires IsRun(run) && i < |run| && t in run[i].tasks && run[i].tasks[t].Rollback?
    ensures Sound(run[i]) && Enabled(run[i], t)
    ensures var s' := Advance(run[i], t, false);
            t !in s'.tasks && Count(s'.inflight, e) == |Holders(run[i], e) - {t}|
  {
    RunKeepsInv(run, i);
    CountsKept(run[i], t, false);
    var s' := Advance(run[i], t, false);
    TasksMove(run[i].tasks, t, None);
    OtherHolders(run[i], s', t, e);
    assert Holders(s', e) - {t} == Holders(s', e);
  }

  // -------------------------------------------------------------------------
  // Progress
  // -------------------------------------------------------------------------

  /** Some task can always move: the holder of `seal_io` never waits for it. */
  lemma NoDeadlock(run: seq<State>, i: nat)
    requires IsRun(run) && i < |run| && run[i].tasks != map[]
    ensures exists t :: Enabled(run[i], t)
    ensures forall t :: t in run[i].tasks && !Enabled(run[i], t) ==>
      && (run[i].tasks[t].AwaitIo? || (run[i].tasks[t].Candidate? && run[i].tasks[t].cs != []))
      && exists o :: o in run[i].tasks && o != t && run[i].tasks[o].HoldsIo() && Enabled(run[i], o)
  {
    var s := run[i];
    RunKeepsInv(run, i);
    var t :| t in s.tasks;
    if s.io == None {
      assert Enabled(s, t);
    } else {
      assert s.tasks[s.io.value].HoldsIo();
      assert Enabled(s, s.io.value);
    }
  }

  /** Steps a task can still take, at most. */
  function Remaining(task: Task): int
    requires TaskSound(task)
  {
    match task
    case Begin(w, i) => 10 * (|w.epochs| - i) + 5
    case AwaitIo(w, i) => 10 * (|w.epochs| - i) + 4
    case Unseal(w, i) => 10 * (|w.epochs| - i) + 3
    case Mark(w, i) => 10 * (|w.epochs| - i) + 2
    case Marked(w, i) => 10 * (|w.epochs| - i) + 1
    case UnsealFailed(_, _) => 2
    case Rollback(_, _) => 1
    case Fold(_) => 4
    case End(_) => 3
    case Candidate(cs) => 10 * |cs|
    case Check(cs) => 10 * |cs| - 1
    case Serialize(cs) => 10 * |cs| - 2
    case Commit(cs, _) => 10 * |cs| - 3
    case Unmark(cs, _) => 10 * |cs| - 4
    case Release(cs, _) => 10 * |cs| + 1
  }

  lemma RemainingStep(s: State, task: Task, ok: bool)
    requires TaskSound(task) && s.forest.depth <= 63
    ensures var next := NextTask(s, task, ok);
            next.Some? ==> TaskSound(next.value) && 0 <= Remaining(next.value) < Remaining(task)
  {
    hide SealOf;
  }

  /** Every step brings its task nearer its end, so no task runs for ever. */
  lemma TasksFinish(s: State, t: TaskId, ok: bool)
    requires Inv(s) && Enabled(s, t)
    ensures var s' := Advance(s, t, ok);
            t in s'.tasks ==> TaskSound(s'.tasks[t]) && 0 <= Remaining(s'.tasks[t]) < Remaining(s.tasks[t])
  {
    RemainingStep(s, s.tasks[t], ok);
    hide Inv, TaskSound, Remaining, NextTask, DiskAfter, SealedAfter, InflightAfter, IoAfter, FoldIn, PutAll;
  }

  // -------------------------------------------------------------------------
  // Why one write per key at a time
  // -------------------------------------------------------------------------

  /** Two writes of one key that both found nothing there fold two rows in where the disk keeps one. */
  lemma SameKeyRace(f: Forest, rows: Rows, k: Key, p: Payload, q: Payload)
    requires Represents(f, rows) && k !in rows
    ensures var first, second := Write([(k, p)], map[], [k.epoch]), Write([(k, q)], map[], [k.epoch]);
            f.depth <= 64 && FoldIn(f, first).depth <= 64
            && !Represents(FoldIn(FoldIn(f, first), second), PutAll(PutAll(rows, first.items), second.items))
  {
    hide Represents, Toggled;
    var first, second := Write([(k, p)], map[], [k.epoch]), Write([(k, q)], map[], [k.epoch]);
    InStepValid(f, rows);
    SinglePut(rows, first.items);
    SinglePut(rows[k := p], second.items);
    InsertInStep(f, rows, k, p);
    var g := f.Insert(k, p);
    SingleInsert(f, k, p);
    SingleInsert(g, k, q);
    assert FoldIn(f, first) == g && FoldIn(g, second) == g.Insert(k, q);
    InsertInStep(g, rows[k := p], k, q);
  }
}
