/**
 * The epoch-seal protocol: any number of writers and sealer passes, interleaved at every lock
 * acquisition, commit and fold, with a crash possible between any two steps.
 */
module SealProtocol {
  import opened Words
  import opened Bytes
  import opened Keys
  import opened Folds
  import opened Forests
  import opened Options
  import opened SealRecords
  import opened Merkle
  import opened Disk

  type TaskId = nat

  /** One write in progress: its rows, the rows it found at those keys, and the distinct epochs it touches. */
  datatype Write = Write(items: seq<(Key, Payload)>, existing: Rows, epochs: seq<u32>)

  /** Where a task stands. `i` is the epoch a writer is about to mark, `cs` a sealer's remaining candidates. */
  datatype Task =
    | Begin(w: Write, i: nat)          // before begin_write_epoch(epochs[i]); all begun when i == |epochs|
    | AwaitIo(w: Write, i: nat)        // epoch found sealed: waiting for seal_io
    | Unseal(w: Write, i: nat)         // holds seal_io, about to commit the record's deletion
    | Mark(w: Write, i: nat)           // record deleted
    | Marked(w: Write, i: nat)         // epoch unsealed and in flight, seal_io still held
    | UnsealFailed(w: Write, i: nat)   // deletion failed, seal_io still held
    | Rollback(w: Write, i: nat)       // about to end the first i epochs
    | Fold(w: Write)                   // rows committed, not yet folded
    | End(w: Write)                    // folded (or the commit failed): about to end all epochs
    | Candidate(cs: seq<u32>)          // sealer waiting for seal_io, or done
    | Check(cs: seq<u32>)              // holds seal_io, about to look at the seal state
    | Serialize(cs: seq<u32>)          // epoch marked sealed
    | Commit(cs: seq<u32>, record: Bytes)
    | Unmark(cs: seq<u32>, failed: bool)
    | Release(cs: seq<u32>, stop: bool)
  {
    predicate Writer?() {
      Begin? || AwaitIo? || Unseal? || Mark? || Marked? || UnsealFailed? || Rollback? || Fold? || End?
    }

    predicate HoldsIo()
    {
      Unseal? || Mark? || Marked? || UnsealFailed? || Check? || Serialize? || Commit? || Unmark? || Release?
    }

    /** How many of its epochs a writer has in flight. */
    function Begun(): nat
    {
      match this
      case Begin(_, i) => i
      case AwaitIo(_, i) => i
      case Unseal(_, i) => i
      case Mark(_, i) => i
      case Marked(_, i) => i + 1
      case UnsealFailed(_, i) => i
      case Rollback(_, i) => i
      case Fold(w) => |w.epochs|
      case End(w) => |w.epochs|
      case _ => 0
    }

    predicate InFlight(e: u32)
    {
      Writer?() && Begun() <= |w.epochs| && e in w.epochs[..Begun()]
    }

    predicate Writes(k: Key)
    {
      Writer?() && k in KeysOf(w.items)
    }
  }

  /** `folded` is auxiliary: the rows the forest has taken in so far. */
  datatype State = State(disk: Disk, sealed: set<u32>, inflight: map<u32, nat>, io: Option<TaskId>,
                         forest: Forest, folded: Rows, tasks: map<TaskId, Task>)

  // -------------------------------------------------------------------------
  // Rows of a write
  // -------------------------------------------------------------------------

  function KeysOf(items: seq<(Key, Payload)>): set<Key>
  {
    set i | 0 <= i < |items| :: items[i].0
  }

  function PutAll(rows: Rows, items: seq<(Key, Payload)>): Rows
  {
    if items == [] then rows
    else
      var n := |items| - 1;
      PutAll(rows, items[..n])[items[n].0 := items[n].1]
  }

  function InsertAll(f: Forest, items: seq<(Key, Payload)>): Forest
    requires f.depth <= 64
    ensures InsertAll(f, items).depth == f.depth
  {
    if items == [] then f
    else
      var n := |items| - 1;
      InsertAll(f, items[..n]).Insert(items[n].0, items[n].1)
  }

  /** The fold after a commit: `ingest` first takes out the row it found; local stores take nothing out. */
  function FoldIn(f: Forest, w: Write): Forest
    requires f.depth <= 64
  {
    if |w.items| == 1 && w.items[0].0 in w.existing then
      f.Remove(w.items[0].0, w.existing[w.items[0].0]).Insert(w.items[0].0, w.items[0].1)
    else InsertAll(f, w.items)
  }

  predicate DistinctKeys(items: seq<(Key, Payload)>)
  {
    forall i, j :: 0 <= i < j < |items| ==> items[i].0 != items[j].0
  }

  /** Local stores write fresh keys, `ingest` a single key whose old row it has read and beaten. */
  predicate Proper(w: Write)
  {
    && DistinctKeys(w.items)
    && w.existing.Keys <= KeysOf(w.items)
    && (w.existing != map[]
        ==> |w.items| == 1
            && ItemDigest(w.items[0].0, w.existing[w.items[0].0]) < ItemDigest(w.items[0].0, w.items[0].1))
    && (forall i, j :: 0 <= i < j < |w.epochs| ==> w.epochs[i] != w.epochs[j])
    && (forall k :: k in KeysOf(w.items) ==> k.epoch in w.epochs)
  }

  // -------------------------------------------------------------------------
  // Steps
  // -------------------------------------------------------------------------

  function Count(inflight: map<u32, nat>, e: u32): nat
  {
    if e in inflight then inflight[e] else 0
  }

  function Increment(inflight: map<u32, nat>, e: u32): map<u32, nat>
  {
    inflight[e := Count(inflight, e) + 1]
  }

  /** Entries are dropped when they reach zero. */
  function Decrement(inflight: map<u32, nat>, e: u32): map<u32, nat>
  {
    if e !in inflight || inflight[e] == 0 then inflight
    else if inflight[e] == 1 then inflight - {e}
    else inflight[e := inflight[e] - 1]
  }

  /** `end_write_epochs`. */
  function EndAll(inflight: map<u32, nat>, es: seq<u32>): map<u32, nat>
  {
    if es == [] then inflight else Decrement(EndAll(inflight, es[..|es| - 1]), es[|es| - 1])
  }

  /** A task can move unless it waits for `seal_io` while another task holds it. */
  predicate Enabled(s: State, t: TaskId)
  {
    && t in s.tasks
    && (s.tasks[t].AwaitIo? || (s.tasks[t].Candidate? && s.tasks[t].cs != []) ==> s.io == None)
  }

  /** Where a task goes next; None when it is done. `ok` is the outcome of the step's commit, if it has one. */
  ghost function NextTask(s: State, task: Task, ok: bool): Option<Task>
    requires TaskSound(task) && s.forest.depth <= 63
  {
    match task
    case Begin(w, i) =>
      if i < |w.epochs| then Some(if w.epochs[i] in s.sealed then AwaitIo(w, i) else Begin(w, i + 1))
      else Some(if ok then Fold(w) else End(w))
    case AwaitIo(w, i) => Some(Unseal(w, i))
    case Unseal(w, i) => Some(if ok then Mark(w, i) else UnsealFailed(w, i))
    case Mark(w, i) => Some(Marked(w, i))
    case Marked(w, i) => Some(Begin(w, i + 1))
    case UnsealFailed(w, i) => Some(Rollback(w, i))
    case Rollback(w, i) => None
    case Fold(w) => Some(End(w))
    case End(w) => None
    case Candidate(cs) => if cs == [] then None else Some(Check(cs))
    case Check(cs) =>
      Some(if cs[0] in s.sealed || cs[0] in s.inflight then Release(cs[1..], false) else Serialize(cs))
    case Serialize(cs) =>
      var record := SealOf(s.forest, cs[0]);
      Some(if record.None? then Unmark(cs, false) else Commit(cs, record.value))
    case Commit(cs, _) => Some(if ok then Release(cs[1..], false) else Unmark(cs, true))
    case Unmark(cs, failed) => Some(Release(cs[1..], failed))
    case Release(cs, stop) => if stop then None else Some(Candidate(cs))
  }

  /** The disk changes by the three commits only; a failed commit leaves it as it was. */
  function DiskAfter(disk: Disk, task: Task, ok: bool): Disk
    requires TaskSound(task)
  {
    match task
    case Begin(w, i) => if i == |w.epochs| && ok then disk.(rows := PutAll(disk.rows, w.items)) else disk
    case Unseal(w, i) => if ok then disk.(seals := disk.seals - {w.epochs[i]}) else disk
    case Commit(cs, record) => if ok then disk.(seals := disk.seals[cs[0] := record]) else disk
    case _ => disk
  }

  function SealedAfter(s: State, task: Task): set<u32>
    requires TaskSound(task)
  {
    match task
    case Mark(w, i) => s.sealed - {w.epochs[i]}
    case Check(cs) => if cs[0] in s.inflight then s.sealed else s.sealed + {cs[0]}
    case Unmark(cs, _) => s.sealed - {cs[0]}
    case _ => s.sealed
  }

  function InflightAfter(s: State, task: Task): map<u32, nat>
    requires TaskSound(task)
  {
    match task
    case Begin(w, i) =>
      if i < |w.epochs| && w.epochs[i] !in s.sealed then Increment(s.inflight, w.epochs[i]) else s.inflight
    case Mark(w, i) => Increment(s.inflight, w.epochs[i])
    case Rollback(w, i) => EndAll(s.inflight, w.epochs[..i])
    case End(w) => EndAll(s.inflight, w.epochs)
    case _ => s.inflight
  }

  function IoAfter(s: State, t: TaskId, task: Task): Option<TaskId>
  {
    match task
    case AwaitIo(_, _) => Some(t)
    case Candidate(cs) => if cs == [] then s.io else Some(t)
    case Marked(_, _) => None
    case UnsealFailed(_, _) => None
    case Release(_, _) => None
    case _ => s.io
  }

  function TasksAfter(tasks: map<TaskId, Task>, t: TaskId, next: Option<Task>): map<TaskId, Task>
  {
    if next.None? then tasks - {t} else tasks[t := next.value]
  }

  ghost function Advance(s: State, t: TaskId, ok: bool): State
    requires Sound(s) && Enabled(s, t)
  {
    var task := s.tasks[t];
    State(DiskAfter(s.disk, task, ok), SealedAfter(s, task), InflightAfter(s, task), IoAfter(s, t, task),
          if task.Fold? then FoldIn(s.forest, task.w) else s.forest,
          if task.Fold? then PutAll(s.folded, task.w.items) else s.folded,
          TasksAfter(s.tasks, t, NextTask(s, task, ok)))
  }

  /** What a task's program counter promises about its own data. */
  predicate TaskSound(task: Task)
  {
    match task
    case Begin(w, i) => i <= |w.epochs|
    case AwaitIo(w, i) => i < |w.epochs|
    case Unseal(w, i) => i < |w.epochs|
    case Mark(w, i) => i < |w.epochs|
    case Marked(w, i) => i < |w.epochs|
    case UnsealFailed(w, i) => i < |w.epochs|
    case Rollback(w, i) => i < |w.epochs|
    case Check(cs) => cs != []
    case Serialize(cs) => cs != []
    case Commit(cs, _) => cs != []
    case Unmark(cs, _) => cs != []
    case _ => true
  }

  ghost predicate Sound(s: State)
  {
    s.forest.Valid() && s.forest.depth == MERKLE_LEAF_DEPTH_BITS && forall t :: t in s.tasks ==> TaskSound(s.tasks[t])
  }

  /** What a starting write found on disk at its keys. */
  ghost function Found(rows: Rows, items: seq<(Key, Payload)>): Rows
  {
    map k | k in rows && k in KeysOf(items) :: rows[k]
  }

  /** A writer starts with at most one write in progress per key, a sealer with any list of candidates. */
  ghost predicate Spawn(s: State, s': State, t: TaskId, task: Task)
  {
    && t !in s.tasks && s' == s.(tasks := s.tasks[t := task])
    && (task.Candidate? || (task.Begin? && task.i == 0))
    && (task.Begin? ==> Proper(task.w) && task.w.existing == Found(s.disk.rows, task.w.items)
                        && forall o, k :: o in s.tasks && task.Writes(k) ==> !s.tasks[o].Writes(k))
  }

  /** Everything in memory is lost; `open` rebuilds it from the disk. */
  ghost function Reopen(disk: Disk): State
  {
    State(disk, ReadableSeals(disk), map[], None, OpenForest(disk), disk.rows, map[])
  }

  ghost predicate Next(s: State, s': State)
  {
    || (exists t, task :: Spawn(s, s', t, task))
    || (exists t, ok :: Sound(s) && Enabled(s, t) && s' == Advance(s, t, ok) && |s'.disk.rows| <= U64_MAX)
    || s' == Reopen(s.disk)
  }

  /** A run starts by opening an empty disk. */
  ghost predicate IsRun(run: seq<State>)
  {
    && run != [] && run[0] == Reopen(Disk(map[], map[]))
    && forall i :: 0 < i < |run| ==> Next(run[i - 1], run[i])
  }

  // -------------------------------------------------------------------------
  // The invariant
  // -------------------------------------------------------------------------

  /** Tasks that have an epoch in flight. */
  ghost function Holders(s: State, e: u32): set<TaskId>
  {
    set t | t in s.tasks && s.tasks[t].InFlight(e)
  }

  /** `inflight` counts the writers between begin and end, and such an epoch is not sealed. */
  ghost predicate CountsInv(s: State)
  {
    && (forall e: u32 :: Count(s.inflight, e) == |Holders(s, e)|)
    && Positive(s.inflight)
    && s.inflight.Keys !! s.sealed
  }

  predicate Positive(inflight: map<u32, nat>)
  {
    forall e :: e in inflight ==> inflight[e] > 0
  }

  /** `seal_io` is held by the one task that is inside its critical section. */
  ghost predicate IoInv(s: State)
  {
    && (s.io.Some? ==> s.io.value in s.tasks)
    && forall t :: t in s.tasks ==> (s.tasks[t].HoldsIo() <==> s.io == Some(t))
  }

  /** The epoch whose record a task is about to write or has just deleted. */
  function PendingOf(task: Task): set<u32>
    requires TaskSound(task)
  {
    match task
    case Mark(w, i) => {w.epochs[i]}
    case Serialize(cs) => {cs[0]}
    case Commit(cs, _) => {cs[0]}
    case Unmark(cs, _) => {cs[0]}
    case _ => {}
  }

  /** ... for the holder of `seal_io`. */
  function Pending(s: State): set<u32>
    requires forall t :: t in s.tasks ==> TaskSound(s.tasks[t])
  {
    if s.io.Some? && s.io.value in s.tasks then PendingOf(s.tasks[s.io.value]) else {}
  }

  /** Records on disk are exact, and the sealed set is the set of records but for the one being worked on. */
  ghost predicate SealsInv(s: State)
    requires Sound(s)
  {
    && SealExact(s.disk)
    && s.disk.seals.Keys == s.sealed - Pending(s)
    && (forall t :: t in s.tasks ==> SealerSound(s.sealed, s.disk.rows, s.tasks[t]))
  }

  /** A sealer past its check has its epoch marked; the record it carries is the one the disk calls for. */
  ghost predicate SealerSound(sealed: set<u32>, rows: Rows, task: Task)
  {
    match task
    case Serialize(cs) => cs != [] && cs[0] in sealed
    case Commit(cs, record) => cs != [] && cs[0] in sealed && record == RecordOf(rows, cs[0])
    case Unmark(cs, _) => cs != [] && cs[0] in sealed
    case _ => true
  }

  /** Writes in progress are proper, on separate keys, and still see on disk what they found. */
  ghost predicate WritesInv(s: State)
  {
    && (forall t :: t in s.tasks && s.tasks[t].Writer?() ==> Proper(s.tasks[t].w))
    && (forall t, o, k :: t in s.tasks && o in s.tasks && t != o && s.tasks[t].Writes(k) ==> !s.tasks[o].Writes(k))
    && (forall t, k :: t in s.tasks && s.tasks[t].Writes(k) && !s.tasks[t].Fold? && !s.tasks[t].End?
                       ==> SameAt(s.disk.rows, s.tasks[t].w.existing, k))
  }

  predicate SameAt(a: Rows, b: Rows, k: Key)
  {
    (k in a <==> k in b) && (k in a ==> a[k] == b[k])
  }

  /** Some writer has committed key `k` but not folded it yet. */
  ghost predicate Unfolded(s: State, k: Key)
  {
    exists t :: t in s.tasks && s.tasks[t].Fold? && s.tasks[t].Writes(k)
  }

  /** The forest has taken in what the disk holds at `k`, or still has what the committed write found there. */
  ghost predicate FoldAt(s: State, k: Key)
  {
    && (!Unfolded(s, k) ==> SameAt(s.folded, s.disk.rows, k))
    && (forall t :: t in s.tasks && s.tasks[t].Fold? && s.tasks[t].Writes(k)
          ==> SameAt(s.folded, s.tasks[t].w.existing, k) && SameAt(s.disk.rows, PutAll(map[], s.tasks[t].w.items), k))
  }

  /** The forest is in step with the disk except for the rows committed and not yet folded. */
  ghost predicate FoldInv(s: State)
  {
    Represents(s.forest, s.folded) && forall k :: FoldAt(s, k)
  }

  ghost predicate Inv(s: State)
  {
    Sound(s) && CountsInv(s) && IoInv(s) && SealsInv(s) && WritesInv(s) && FoldInv(s) && |s.disk.rows| <= U64_MAX
  }

  // -------------------------------------------------------------------------
  // Rows of a write, continued
  // -------------------------------------------------------------------------

  lemma {:induction false} PutAllAt(rows: Rows, items: seq<(Key, Payload)>, k: Key)
    ensures k !in KeysOf(items) ==> SameAt(PutAll(rows, items), rows, k)
    ensures k in KeysOf(items) ==> k in PutAll(rows, items) && SameAt(PutAll(rows, items), PutAll(map[], items), k)
    decreases |items|
  {
    if items != [] {
      KeysOfStep(items);
      PutAllAt(rows, items[..|items| - 1], k);
    }
  }

  lemma KeysOfStep(items: seq<(Key, Payload)>)
    requires items != []
    ensures KeysOf(items) == KeysOf(items[..|items| - 1]) + {items[|items| - 1].0}
  {
    var n := |items| - 1;
    forall k ensures k in KeysOf(items) <==> k in KeysOf(items[..n]) + {items[n].0} {
      if i :| 0 <= i < n && items[i].0 == k { assert items[..n][i].0 == k; }
      if i :| 0 <= i < n && items[..n][i].0 == k { assert items[i].0 == k; }
    }
  }

  lemma LastKeyFresh(items: seq<(Key, Payload)>)
    requires items != [] && DistinctKeys(items)
    ensures items[|items| - 1].0 !in KeysOf(items[..|items| - 1])
    ensures DistinctKeys(items[..|items| - 1])
  {
  }

  lemma {:induction false} InsertAllInStep(f: Forest, rows: Rows, items: seq<(Key, Payload)>)
    requires Represents(f, rows) && DistinctKeys(items)
    requires forall k :: k in KeysOf(items) ==> k !in rows
    ensures Represents(InsertAll(f, items), PutAll(rows, items))
    decreases |items|
  {
    if items != [] {
      InStepValid(f, rows);
      hide Represents;
      var n := |items| - 1;
      KeysOfStep(items);
      LastKeyFresh(items);
      InsertAllInStep(f, rows, items[..n]);
      PutAllAt(rows, items[..n], items[n].0);
      assert InsertAll(f, items[..n]).Valid() by { InStepValid(InsertAll(f, items[..n]), PutAll(rows, items[..n])); }
      InsertInStep(InsertAll(f, items[..n]), PutAll(rows, items[..n]), items[n].0, items[n].1);
    }
  }

  /** Folding a committed write brings the forest to the rows with the write applied. */
  lemma FoldInStep(f: Forest, rows: Rows, w: Write)
    requires Represents(f, rows) && Proper(w)
    requires forall k :: k in KeysOf(w.items) ==> SameAt(rows, w.existing, k)
    ensures Represents(FoldIn(f, w), PutAll(rows, w.items))
  {
    InStepValid(f, rows);
    if |w.items| == 1 && w.items[0].0 in w.existing {
      SinglePut(rows, w.items);
      ReplaceInStep(f, rows, w.items[0].0, w.items[0].1);
    } else {
      hide Represents;
      assert w.existing == map[];
      InsertAllInStep(f, rows, w.items);
    }
  }

  lemma SinglePut(rows: Rows, items: seq<(Key, Payload)>)
    requires |items| == 1
    ensures PutAll(rows, items) == rows[items[0].0 := items[0].1]
    ensures items[0].0 in KeysOf(items)
  {
    assert items[..0] == [];
  }

  lemma SingleInsert(f: Forest, k: Key, p: Payload)
    requires f.depth <= 64
    ensures InsertAll(f, [(k, p)]) == f.Insert(k, p)
  {
    assert [(k, p)][..0] == [];
  }
}
