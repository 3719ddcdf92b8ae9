# Verification of the spatio-temporal store

The repository is a store of observations in space and time. Each observation has a 20-byte key made of an
epoch, a 63-bit Morton code and a nanosecond offset. The store keeps, in memory, a Merkle summary of what it
has on disk, seals settled epochs with compact records, and reconciles with peers by comparing hashes. This
project models those parts in Dafny 4.11 and proves what their comments and documents promise of them.
`dafny verify dfyconfig.toml` checks everything.

## The files

- `Words`, `Options`, `Bytes`, `Sorting`, `Folds`: machine words, optional results, big-endian strings and their order, sorted enumeration,
  XOR folds over maps.
- `Keys`, `Forests`, `SealRecords`, `Merkle`, `Histories`: keys and cells; a forest as a value and the plain fold it must
  equal; the bytes of a seal record; `EpochTree` and `MerkleForest` as classes updated in place; what holds after any
  history of a forest.
- `Descent`, `Diff`: walking down the octree into the cells that pass a test; comparing two forests.
- `Kv` (file `KvTree.dfy`), `Layout`, `Disk`, `ScanRanges`, `Opening`: the key-value tree, what it holds, and
  how `open` rebuilds the forest from it.
- `SealProtocol`, `SealSafety`, `SealRace`: the epoch-seal protocol as a step relation. Writers and sealers are tasks with a
  program counter; a step is a lock acquisition, a commit, a fold or a piece of seal bookkeeping; any commit may
  fail; a crash with reopen may happen between any two steps. `SealRace` is the run that goes wrong when two writes
  of one key overlap.
- `StoreState`, `Store`, `StoreRuns`: the store as an object whose calls run one at a time, their effects as
  functions on values, and the proof that those calls are runs of the protocol.
- `Morton`, `Planner`, `GridWalk`, `SpatialPlan`, `WindowPlan`, `Coverage`, `RowScans`, `Queries`: keys, range
  planning and `query_window`, down to its equality with a filtered full scan.
- `Joins`, `PullPlan`, `PullProgress`, `Sync`, `Convergence`, `Mesh`: merging rows, one pull round against a
  peer, two nodes, and a mesh of any size.

## What the results rest on

- `ItemDigest`, the leading 128 bits of SHA-256, is an uninterpreted function. Nothing is assumed of it except
  where a lemma says so: `NoCollision` asks that at the cells a pull actually compares equal hashes mean equal
  rows and a zero hash means no rows; `NoTies` and its variants ask that two payloads of one key have different digests.
- A commit takes effect as a whole or not at all. The tree counts the commits that failed, for proofs only.
- Local stores are in step only for keys not present before and not repeated in a batch; the code does not check this.
  `StoreState.WriteInStep` proves that this is exactly the condition.
- At most one write per key is in progress, counted from the moment `ingest` reads the old row.
  `SealSafety.SameKeyRace` and `SealRace.RaceSealsWrongRecord` show what goes wrong otherwise: the forest falls out of
  step, and a seal record that is not the record of its rows reaches the disk.
- The leaf depth is the same at every open, and no disk holds more than 2^64 - 1 rows (the width of the count field).
- Coordinates are reals, `round` is floor(v + 1/2), and floor(log2(1/f)) is the number of times f can be doubled
  without passing 1. The radius is not negative.
- Where arithmetic is not checked the wrapped epoch count of a query sizes a buffer, which is assumed to be granted.

## Where the code and its comments differ

- The planner's comment says the ranges cover the window up to and including `end_secs`, and `collect` accepts all
  of that second. The last range ends at the first nanosecond of it, so a row later in that second is not scanned
  when its Morton code is the last of its cell. `Coverage.LostIsMissed` gives the exact condition where the end epoch
  fits 32 bits, `Coverage.WindowEndMisses` an instance.
- The same comment covers every window with `start_secs <= end_secs`. Both end epochs are cut to 32 bits, so a window
  whose end lies in an epoch of 2^32 or more loses every matching row past the cut end epoch, without a word
  (`Coverage.CutEndLoses`), or is refused, or empty (`Coverage.CutEndRefused`). `Coverage.PlanCoversMatches` names
  the lost rows of any window; `Coverage.WindowGuard` says for which windows only the rows of the first item are lost.
- The comment of `calculate_optimal_depth` says cells are at least as wide as the search diameter. That holds if and
  only if the diameter is at most half the range (`SpatialPlan.CellsAsWide`); beyond it the depth is 3 all the same
  (`SpatialPlan.CellsTooNarrow`). The bound of eight cells always holds.
- The comment on the store's forest says it is kept in lockstep with every write. A local store over an existing key
  folds the new row in without folding the old one out, so lockstep holds only for new keys (`StoreState.WriteInStep`).

## Model

| member | source | states |
|---|---|---|
| Keys.KeyRoundTrip | crates/interstellar-index/src/lib.rs:89-100 | A key's three big-endian fields are recovered from its 20 bytes |
| Keys.BytesRoundTrip | crates/interstellar-index/src/lib.rs:97-100 | Every 20-byte string is the key of its three fields, so scans lose no row |
| Keys.KeyOrder | crates/interstellar-index/src/lib.rs:66-67 | Byte order of keys is numeric order on (epoch, Morton code, nanosecond offset) |
| Keys.PrefixBrackets | crates/interstellar-index/src/merkle.rs:48-51 | The prefix of a code at depth d names the one aligned cell of width 2^(64-d) that holds it |
| Keys.PrefixOfPrefix | crates/interstellar-index/src/merkle.rs:27-30 | A coarse prefix depends on the finer prefix alone, which is what lets a leaf prefix stand for its codes at every level |
| Keys.ChildPrefixIsSum | crates/interstellar-index/src/merkle.rs:300 | Or-ing the child number into a prefix adds it: the two never share a bit |
| Keys.ChildOfCode | crates/interstellar-index/src/merkle.rs:297-304 | A code of a cell lies in exactly one of its eight children |
| Keys.LastCodeIsSum | crates/interstellar-index/src/merkle.rs:64-72 | `prefix \| mask` is the last code of the cell |
| Keys.LeafRangeIsCell | crates/interstellar-index/src/merkle.rs:59-76 | The inclusive key range of a cell holds exactly the keys of the cell |
| Forests.InsertInStep | crates/interstellar-index/src/merkle.rs:158-168 | Folding a row in keeps a forest equal to the plain fold over rows if and only if the key is not already present |
| Forests.RemoveInStep | crates/interstellar-index/src/merkle.rs:170-179 | Folding out exactly the row that was folded in leaves the forest of the remaining rows |
| Forests.ReplaceInStep | src/store.rs:433-439 | Folding the old row out and the new one in, as a merge does, keeps the forest the fold of the rows |
| Forests.NodeHashToggle | crates/interstellar-index/src/merkle.rs:102-110 | Toggling a leaf changes its ancestors at every depth by the digest and no other node |
| Forests.ParentIsXorOfChildren | crates/interstellar-index/src/merkle.rs:9-19 | Every node is the XOR of its at most eight children |
| Forests.SummaryHash | crates/interstellar-index/src/merkle.rs:82-91 | Leaf hashes fold up to the XOR of the digests of the rows in the cell, at every depth |
| Forests.HashIsFold | crates/interstellar-index/src/merkle.rs:276-287 | In a forest in step with its rows each node hash, at every epoch, depth and prefix, is the XOR of the digests of the rows in that cell, whatever the order of insertions |
| Forests.HashIgnoresDepth | crates/interstellar-index/src/merkle.rs:15-19 | Forests of different leaf depths over the same rows agree wherever both have a node |
| Histories.LoadInStep | crates/interstellar-index/src/merkle.rs:218-261 | Loading the record of an epoch's rows where the epoch is absent is as good as folding each row in |
| Histories.HistoryHash | crates/interstellar-index/src/merkle.rs:9-19 | After any sequence of insertions, matching removals and record loads each node hash, at every depth, is the XOR of the digests of the rows then in its cell |
| Histories.HistoriesAgree | crates/interstellar-index/src/merkle.rs:9-19 | Two such histories that end in the same rows agree on every node both have, whatever their order and leaf depths |
| Merkle.EpochTree.constructor | crates/interstellar-index/src/merkle.rs:94-100 | A new tree is empty and consistent at every level |
| Merkle.EpochTree.Toggle | crates/interstellar-index/src/merkle.rs:102-110 | XOR into root and one cell per level, in place, keeps every level the fold of the leaves and toggles just one leaf |
| Merkle.EpochTree.Add | crates/interstellar-index/src/merkle.rs:166-167 | One more item: leaf toggled, count up by one |
| Merkle.EpochTree.Take | crates/interstellar-index/src/merkle.rs:176-177 | One item out: leaf toggled, count down by one but not below zero |
| Merkle.EpochTree.NodeHash | crates/interstellar-index/src/merkle.rs:112-120 | The stored accumulator of a cell is the fold of the leaves under it; the prefix is ignored at the root |
| Merkle.MerkleForest.constructor | crates/interstellar-index/src/merkle.rs:137-143 | Accepts a leaf depth that is a multiple of 3 in 3..63 and starts empty |
| Merkle.MerkleForest.Insert | crates/interstellar-index/src/merkle.rs:159-168 | In-place insertion is the value-level insertion, for which the fold theorems hold |
| Merkle.MerkleForest.Remove | crates/interstellar-index/src/merkle.rs:172-179 | In-place removal is the value-level removal; an absent epoch is left absent |
| Merkle.MerkleForest.NodeHash | crates/interstellar-index/src/merkle.rs:277-287 | Reads the hash of the cell in the forest's value, 0 for an absent epoch |
| Merkle.MerkleForest.Epochs | crates/interstellar-index/src/merkle.rs:181-184 | Exactly the epochs with a tree, ascending, emptied ones included |
| Merkle.MerkleForest.Len | crates/interstellar-index/src/merkle.rs:149-152 | The sum of the counts of all epochs |
| Merkle.LenIsRowCount | crates/interstellar-index/src/merkle.rs:149-152 | That sum is the number of rows when every count is that of its epoch's rows |
| Merkle.MerkleForest.SerializeEpoch | crates/interstellar-index/src/merkle.rs:186-216 | Nothing for an absent or empty epoch, else the record of the epoch's count and non-zero leaves by ascending prefix |
| Merkle.PrintRecord | crates/interstellar-index/src/merkle.rs:206-214 | The growing buffer ends as header followed by the entries in order |
| Merkle.MerkleForest.LoadSealedEpoch | crates/interstellar-index/src/merkle.rs:218-261 | Accepts a record if and only if the epoch is absent and the bytes parse at this leaf depth; then the tree is the parsed one, otherwise the forest is untouched |
| Merkle.ReadTree | crates/interstellar-index/src/merkle.rs:249-257 | Toggling each stored entry builds a consistent tree with those leaves at every level |
| Merkle.MerkleForest.EpochRoots | crates/interstellar-index/src/merkle.rs:263-270 | The epochs with a non-zero root and their roots, by ascending epoch |
| Merkle.RootsAre | crates/interstellar-index/src/merkle.rs:263-270 | The roots sent are the roots of exactly the epochs whose root is not zero |
| Merkle.RootsAscend | crates/interstellar-index/src/merkle.rs:263-270 | ... by ascending epoch |
| Merkle.MerkleForest.ChildHashes | crates/interstellar-index/src/merkle.rs:289-305 | The children of a cell with a non-zero hash, in prefix order |
| Merkle.ChildrenAre | crates/interstellar-index/src/merkle.rs:289-305 | The reply holds exactly the cells one level below the prefix whose hash is not zero, each with it |
| Merkle.ChildrenAscend | crates/interstellar-index/src/merkle.rs:289-305 | ... by ascending prefix |
| Merkle.LeafIsNode | crates/interstellar-index/src/merkle.rs:112-120 | At leaf depth the node hash is the stored leaf |
| SealRecords.LoadPrinted | crates/interstellar-index/src/merkle.rs:249-257 | Reading back printed entries restores exactly those leaves |
| SealRecords.RecordRoundTrip | crates/interstellar-index/src/merkle.rs:186-261 | A printed record parses back to the same count and leaves if and only if the count fits 64 bits and the number of leaves fits 32 |
| SealRecords.RecordInjective | crates/interstellar-index/src/merkle.rs:186-216 | Different summaries have different records |
| SealRecords.DamagedRejected | crates/interstellar-index/src/merkle.rs:221-245 | A record of another version or leaf depth, one cut short and one with bytes to spare are rejected |
| SealRecords.LoadLeavesCanonical | crates/interstellar-index/src/merkle.rs:254-256 | Loaded leaves sit at aligned prefixes and none is zero, whatever the bytes |
| Descent.CellsExact | crates/interstellar-index/src/merkle.rs:344-367 | A descent that enters the cells passing a test reaches exactly the leaves that pass at every depth on the way |
| Descent.CellsAscend | crates/interstellar-index/src/merkle.rs:344-367 | It reaches them in strictly ascending order inside the cell it started from |
| Diff.Descend | crates/interstellar-index/src/merkle.rs:344-367 | The recursive descent appends the key ranges of the leaves reached below the cell |
| Diff.DiffForests | crates/interstellar-index/src/merkle.rs:328-342 | The comparison returns the divergent leaves of all epochs of either forest |
| Diff.DifferingChild | crates/interstellar-index/src/merkle.rs:104-120 | A differing cell above the leaf depth has a differing child, with no assumption on collisions |
| Diff.DiffEmptyIffRootsAgree | crates/interstellar-index/src/merkle.rs:322-342 | The result is empty if and only if all epoch roots agree |
| Diff.DiffExact | crates/interstellar-index/src/merkle.rs:322-367 | The result is exactly the leaf cells whose hashes differ at every ancestor |
| Diff.DiffAscends | crates/interstellar-index/src/merkle.rs:328-342 | The ranges are in strict key order and pairwise disjoint |
| Diff.DiffSymmetric | src/store.rs:367-376 | Both sides compute the same list |
| Diff.DifferBetrays | crates/interstellar-index/src/merkle.rs:9-19 | Different cell hashes betray a key of the cell that the two sides disagree on |
| Diff.DiffRangesHoldDisagreement | src/store.rs:367-376 | Every reported range holds a key the two sides disagree on |
| Diff.DisagreementReported | src/store.rs:367-376 | A disagreeing key lies in a reported range when equal hashes on its own path mean equal rows |
| Diff.DiffCoversDisagreement | src/store.rs:367-376 | Every disagreeing key lies in exactly one reported range when equal hashes on its own path mean equal rows |
| Kv.KvTree.Commit | src/store.rs:287-291 | A transaction takes effect as a whole or not at all; failures are counted |
| Kv.Range | src/store.rs:146-159 | A scan visits exactly the keys of the half-open byte range, in byte order |
| Layout.SealRange | src/store.rs:78-88 | Among six-byte keys the scanned range `m!` to `m"` holds exactly the seal keys |
| Layout.PutRow | src/store.rs:325-326 | Writing a row changes that row and no seal record |
| Layout.PutSeal | src/store.rs:502-504 | Writing a seal record changes that record and no row |
| Layout.DropSeal | src/store.rs:233-235 | Deleting a seal record changes nothing else |
| Layout.PutBatch | src/store.rs:287-291 | A batch's transaction puts its rows, the last one winning at a repeated key |
| ScanRanges.RangeIsEpochs | src/store.rs:94-117 | A range holds the 20-byte keys of the epochs from its start up to its end, the 21 bytes of 0xFF standing past the last epoch |
| ScanRanges.CutAround | src/store.rs:102-119 | The cursor walk, its overflow past epoch 2^32-1 included, yields such a partition |
| ScanRanges.UnsealedScanRanges | src/store.rs:94-120 | Every 20-byte key of an unsealed epoch is in exactly one range, no key of a sealed epoch is in any |
| Opening.LoadSeals | src/store.rs:144-159 | Exactly the readable records are loaded and their epochs marked sealed |
| Opening.ScanMeetsUnsealed | src/store.rs:161-170 | The data scan meets exactly the rows of the epochs without a readable record |
| Opening.Rebuild | src/store.rs:139-171 | Loading records and scanning the rest in place builds the forest of the disk, each row folded in once |
| Disk.LeavesAreFew | src/store.rs:73-76 | An epoch's tree has at most 2^15 leaves, so the record's leaf count always fits its field |
| Disk.ExactRecordParses | src/store.rs:151-156 | An exact record is always readable |
| Disk.OpenInStep | src/store.rs:129-171 | If records are exact the rebuilt forest is the fold of all persisted rows and every record counts as sealed |
| Disk.OpenHashesAndLength | src/store.rs:129-171 | Its hash at every epoch, depth and prefix is the fold of the rows of the cell, and its length is the number of rows, sealed and scanned epochs alike |
| SealProtocol.FoldInStep | src/store.rs:432-439 | The fold after a commit brings the forest to the rows with the write applied |
| SealSafety.NextKeepsInv | src/store.rs:210-264 | Every step of every task, every start of a task and every crash with reopen keeps the protocol invariant |
| SealSafety.SealedRecordKept | src/store.rs:210-218 | No commit changes the record that a sealed epoch's rows call for |
| SealSafety.SettledSummary | src/store.rs:52-57 | With no write in flight the in-memory tree of an epoch is exactly that of its rows on disk |
| SealSafety.SerializedIsExact | src/store.rs:497-505 | What the sealer serializes for its marked epoch is the record the disk calls for |
| SealSafety.SealedMove | src/store.rs:481-513 | Step by step the sealed set and the records on disk move together but for the epoch being worked on |
| SealSafety.SealsAlwaysExact | src/store.rs:210-218 | At every point of every run of any number of writers and sealers, crashes included, each seal record on disk is exactly the record of its epoch's rows on disk |
| SealSafety.OpenAfterAnyCrash | src/store.rs:133-171 | From the disk at any point of any run `open` rebuilds a forest whose every node is the fold of the persisted rows of its cell and whose length is their number |
| SealSafety.InflightIsWriterCount | src/store.rs:220-264 | `inflight(e)` is the number of writers between begin and end for `e`, and when it is positive `e` is not in `sealed` |
| SealSafety.SealedMatchesDisk | src/store.rs:58-60 | Whenever `seal_io` is free the sealed set is the set of epochs with a record on disk |
| SealSafety.ForestInStep | src/store.rs:48-51 | With no write between commit and fold the live forest is the fold of the rows on disk |
| SealSafety.FailedBeginRestores | src/store.rs:242-252 | A multi-epoch begin that fails gives back every count it took |
| SealSafety.NoDeadlock | src/store.rs:229-240 | Some task can always move, and one that cannot waits for `seal_io`, whose holder can |
| SealSafety.TasksFinish | src/store.rs:220-334 | Every step brings its task nearer its end, so no task runs for ever |
| SealSafety.SameKeyRace | src/store.rs:411-441 | Two writes of one key that both found it absent leave the forest out of step with the disk, which is why the protocol admits one write per key at a time |
| SealRace.RaceSealsWrongRecord | src/store.rs:411-449 | From an empty store the protocol, with the one-write-per-key rule waived once, runs to a disk whose seal record is not the record of its rows |
| SealRace.WritersOverlap | src/store.rs:285-304 | Writers of different keys do overlap: a run reaches a point where the rows of two writes are on disk and the forest holds neither |
| Store.SpatioTemporalStore.Open | src/store.rs:122-184 | A store opened on a disk with exact records is in step with it; in any case its forest and sealed set are those of the readable records and the scanned rest |
| Store.SpatioTemporalStore.BeginWriteEpoch | src/store.rs:220-240 | Marks the epoch in flight and deletes its record first if it has one; only a failed deletion stops it, and changes nothing |
| Store.SpatioTemporalStore.BeginWriteEpochs | src/store.rs:242-252 | All epochs begun; or none left in flight, stopped at a sealed epoch with the records of exactly the epochs before it gone |
| Store.SpatioTemporalStore.EndWriteEpochs | src/store.rs:254-264 | Takes one off each count and drops entries that reach zero |
| StoreState.EndUndoesBegin | src/store.rs:242-264 | Ending what was begun restores every count |
| StoreState.WriteEffect | src/store.rs:266-334 | A local write leaves the last put of each key, the rows and records it does not touch, no record of an epoch it writes to, no count, and publishes each item once in order |
| Store.SpatioTemporalStore.Store | src/store.rs:308-334 | Returns the generated key with the row put, folded in and published once; it fails only when a commit does, and then nothing changes but the epoch's record, which is gone unless its own deletion failed |
| Store.SpatioTemporalStore.StoreBatch | src/store.rs:266-306 | One transaction for the whole batch, keys in the order of the records; it fails only when a commit does, and then nothing changes but the records of the leading epochs, gone up to the sealed one whose deletion failed, or all when the commit failed |
| StoreState.WriteInStep | src/store.rs:285-306 | A local write keeps forest, disk and records in step if and only if its keys are new and distinct |
| Store.SpatioTemporalStore.Ingest | src/store.rs:401-449 | Changes the store if and only if nothing is held at the key or a different payload of smaller digest; an equal row or a loser changes nothing, and a winner fails only when a commit does, which costs at most the epoch's record |
| StoreState.MergeInStep | src/store.rs:433-439 | A merge keeps forest, disk and records in step whatever it replaces |
| StoreState.MergeChanges | src/store.rs:410-448 | An ingest that reports a change did change the rows and published exactly that row |
| StoreState.MergeEffect | src/store.rs:419-448 | A winning merge puts its row, drops the record of its epoch, publishes once and leaves every other row, record and count |
| Store.SpatioTemporalStore.SealEpoch | src/store.rs:482-512 | Writes the record if and only if the epoch is unsealed, idle and not empty; unless its commit fails, which leaves the store as it was |
| Store.SpatioTemporalStore.SealSettledEpochs | src/store.rs:464-515 | Seals exactly the settled candidates that can be sealed, in order; only a failing commit stops the pass and leaves a proper prefix of them sealed |
| StoreState.CutoffIsSettled | src/store.rs:469-479 | An epoch is before the cutoff if and only if all of it ended at least the grace period ago |
| StoreState.DueExactly | src/store.rs:464-493 | A pass seals exactly the epochs with something to record that ended at least the grace period ago, are not sealed and have no write in flight, in ascending order |
| StoreState.SealAllEffect | src/store.rs:498-513 | It writes the record of each such epoch's tree and changes no other record, row, count or event |
| StoreState.ToSealStep | src/store.rs:482-512 | Whether a candidate can be sealed does not depend on the ones sealed before it in the pass |
| StoreState.SealInStep | src/store.rs:497-512 | Records written from a forest in step are exact |
| Store.SpatioTemporalStore.ScanRange | src/store.rs:378-399 | The rows of an inclusive key range, each once, in key order |
| StoreRuns.WriteIsRun | src/store.rs:285-334 | A write call that succeeds is a run of the protocol's writer, step by step, from the store at rest to the store at rest |
| StoreRuns.LocalWriteIsRun | src/store.rs:266-334 | The effect stated for local writes is reached by the protocol |
| StoreRuns.MergeIsRun | src/store.rs:410-449 | The effect stated for a winning ingest is reached by the protocol |
| StoreRuns.BeginFailsIsRun | src/store.rs:229-252 | A write whose record deletion fails part-way, leaving only deleted records, is a run of the protocol through its rollback |
| StoreRuns.CommitFailsIsRun | src/store.rs:285-334 | A write whose commit fails, leaving only deleted records, is a run of the protocol |
| StoreRuns.FailedWriteIsRun | src/store.rs:229-334 | Every outcome those calls allow for a failed write is a state the protocol reaches |
| StoreRuns.SealIsRun | src/store.rs:482-513 | What a sealing pass does with one candidate is what the protocol's sealer does with it |
| StoreRuns.SealFailsIsRun | src/store.rs:501-511 | A seal whose commit fails, leaving everything as it was, is a run of the protocol |
| StoreRuns.SealPassIsRun | src/store.rs:464-515 | A whole sealing pass that ends well is a run of the protocol from rest to rest |
| StoreRuns.BrokenPassIsRun | src/store.rs:464-515 | ... and so is one broken off by a failing commit, at whichever candidate |
| StoreRuns.OpenIsReopen | src/store.rs:173-183 | A store just opened is the protocol's state after a crash and reopen |
| Morton.Encode3dMorton | crates/interstellar-index/src/lib.rs:43-53 | The bit loop computes the interleaving, x to bits 3i+2, y to 3i+1, z to 3i |
| Morton.Decode3dMorton | crates/interstellar-index/src/lib.rs:55-64 | The bit loop computes the deinterleaving |
| Morton.DecodeEncode | crates/interstellar-index/src/lib.rs:43-64 | Decoding undoes encoding on 21-bit coordinates |
| Morton.EncodeDecode | crates/interstellar-index/src/lib.rs:43-64 | Encoding undoes decoding on codes below 2^63 |
| Morton.EncodeBits | crates/interstellar-index/src/lib.rs:43-53 | Bit i of the x, y and z axis is bit 3i+2, 3i+1 and 3i of the code |
| Morton.InterleaveShift | crates/interstellar-index/src/lib.rs:45-53 | Dropping k bits of every axis drops 3k bits of the code |
| Morton.SameGridCellSamePrefix | crates/interstellar-index/src/lib.rs:147-164 | Points of one grid cell share their prefix |
| Planner.NormalizeMono | crates/interstellar-index/src/lib.rs:29-34 | Quantisation is monotone, clamping and rounding included |
| Planner.NormalizeNearest | crates/interstellar-index/src/lib.rs:28-34 | A coordinate in the range goes to the nearest of the grid points, the upper one from halfway; one outside to the near end |
| Planner.GridPoints | crates/interstellar-index/src/lib.rs:36-41 | The grid runs from one end of the range to the other in 2^21 - 1 equal steps |
| Planner.NormalizeDenormalize | crates/interstellar-index/src/lib.rs:28-41 | Quantising a dequantised coordinate gives it back |
| Planner.GenerateKeyBytes | crates/interstellar-index/src/lib.rs:66-94 | The array filled field by field is the key of the epoch, the Morton code and the offset |
| Planner.TimeRoundTrip | crates/interstellar-index/src/lib.rs:96-111 | A key gives back seconds and nanoseconds if and only if the epoch fits 32 bits and the nanosecond total fits 64 |
| Planner.PositionRoundTrip | crates/interstellar-index/src/lib.rs:66-111 | A keyed point decodes to within half a grid step of itself on each axis, or to the end of the range it lies beyond |
| Planner.RekeyIsStable | crates/interstellar-index/src/lib.rs:66-111 | Keying the decoded point of an untruncated key gives the same key |
| GridWalk.WalkX | crates/interstellar-index/src/lib.rs:156-174 | The three nested stepping loops collect the walk's prefixes; their overflow breaks are never taken |
| GridWalk.WalkIsImage | crates/interstellar-index/src/lib.rs:129-175 | Visiting one corner per grid cell yields exactly the prefixes of all integer points of the box, at every depth 3..63 |
| SpatialPlan.ComputeSpatialPrefixes | crates/interstellar-index/src/lib.rs:129-175 | Returns exactly the prefixes of the points of the quantised box around the sphere |
| SpatialPlan.OptimalDepthIsDeepest | crates/interstellar-index/src/lib.rs:113-127 | The chosen depth is the largest whose cells, the range halved once per bit, are at least as wide as the sphere's diameter, or 3 when none is |
| SpatialPlan.CellsAsWide | crates/interstellar-index/src/lib.rs:113-127 | Cells at the chosen depth are at least as wide as the sphere's diameter if and only if the diameter is at most half the range |
| SpatialPlan.CellsTooNarrow | crates/interstellar-index/src/lib.rs:113-127 | A concrete radius whose depth is 3 although those cells are narrower than the diameter |
| SpatialPlan.AxisCells | crates/interstellar-index/src/lib.rs:113-127 | At the chosen depth the box touches one or two grid cells per axis, rounding, clamping and the 2^21-1 scale accounted for |
| SpatialPlan.OneToEightPrefixes | crates/interstellar-index/src/lib.rs:113-175 | At the chosen depth every query scans between one and eight cells |
| WindowPlan.TimeWindowRanges | crates/interstellar-index/src/lib.rs:252-298 | The ranges pushed are those of the plan: by cut epoch, then by ascending cell, with clamped offsets in the first and last epoch. With checked arithmetic it refuses exactly when the 32-bit epoch count would under- or overflow |
| WindowPlan.BoundaryProtectedRanges | crates/interstellar-index/src/lib.rs:177-215 | A key is in some range if and only if it is in the epoch of the timestamp and its cell meets the box; the ranges are disjoint, in key order, one per cell |
| WindowPlan.PlanInOrder | crates/interstellar-index/src/lib.rs:276-297 | The planned ranges are in key order and disjoint |
| WindowPlan.PlanFanOut | crates/interstellar-index/src/lib.rs:243-247 | At the depth chosen for the radius a plan has one to eight ranges for each epoch |
| WindowPlan.PlannedExactly | crates/interstellar-index/src/lib.rs:224-241 | A key is reached if and only if its epoch lies between the two end epochs as cut to 32 bits, its cell meets the box, and it is neither before the start on the first code of its cell nor past the end on the last |
| Coverage.GeneratedExactly | crates/interstellar-index/src/lib.rs:66-94 | The keys characterised as generated are exactly the results of untruncated calls |
| Coverage.TimeParts | crates/interstellar-index/src/lib.rs:96-111 | A generated key's epoch and offset follow from its decoded time |
| Coverage.SphereCellPlanned | crates/interstellar-index/src/lib.rs:129-175 | The cell of a key inside the sphere is one of the planned cells |
| Coverage.SphereOnLine | src/store.rs:580-585 | On every line through the centre the points accepted are those at most the radius away |
| Coverage.WindowOfNanos | src/store.rs:577-579 | A row is in time if and only if its nanosecond lies in the window's seconds, the whole last one included |
| Coverage.TimeClamp | crates/interstellar-index/src/lib.rs:266-281 | Of the generated keys inside the window, the cut end epoch and the clamped offsets leave out exactly the lost ones; the start never cuts one off |
| Coverage.PlanCoversMatches | crates/interstellar-index/src/lib.rs:217-298 | For every window, the plan reaches a matching generated key if and only if it is not lost: past the cut end epoch, or past the end's offset there on the last code of its cell |
| Coverage.LostIsMissed | crates/interstellar-index/src/lib.rs:266-281 | When the end epoch fits 32 bits, the lost keys are those of the end second, past its first nanosecond, on the last code of their cell |
| Coverage.WindowGuard | crates/interstellar-index/src/lib.rs:266-281 | Every query of a window loses only such keys if and only if the end epoch fits 32 bits, or no key can be as late as the start, or none later than where the plan ends |
| Coverage.RefusedWindows | crates/interstellar-index/src/lib.rs:275-276 | When the end epoch fits 32 bits the epoch count does not, in exactly one case: a window from epoch 0 to epoch 2^32 - 1 |
| Coverage.WindowEndMisses | crates/interstellar-index/src/lib.rs:270-281 | Such a key exists: a concrete query at the very position and second of a row does not reach it |
| Coverage.CutEndLoses | crates/interstellar-index/src/lib.rs:266-278 | A concrete window ending in epoch 2^32, which nothing refuses, does not reach a row of epoch 1 in its middle |
| Coverage.CutEndRefused | crates/interstellar-index/src/lib.rs:266-278 | Started an hour later, it cannot be counted in 32 bits, and where that goes unchecked its plan is empty although a row matches |
| RowScans.PaddedRange | src/store.rs:563-566 | Padding the inclusive end with a zero byte keeps exactly the same 20-byte keys |
| RowScans.ScanRange | src/store.rs:378-399 | The scan loop returns the rows of the range, each once, in key order, skipping other records |
| Queries.CollectRange | src/store.rs:562-593 | One range contributes exactly its rows that pass the time and sphere filters |
| Queries.SortByTime | src/store.rs:595-600 | A stable sort by seconds and nanoseconds leaves ties in key order |
| Queries.Collect | src/store.rs:546-603 | All ranges together contribute each accepted row once, in chronological order |
| Store.SpatioTemporalStore.QueryWindow | src/store.rs:529-544 | Returns exactly the rows both planned and matching, each once, in chronological order with ties in key order; refuses exactly when checked arithmetic cannot count the epochs |
| Queries.AnswerDecodes | src/store.rs:573-588 | Each observation carries the payload on disk, the seconds and nanoseconds of its key's time, and the grid points its code interleaves |
| Queries.AnswerAscends | src/store.rs:595-600 | The answer ascends by the time its keys carry, ties by key |
| Queries.StoredRowReturned | src/store.rs:529-603 | A row stored by an untruncated call is returned if and only if its second is in the window, its place in the sphere and its key not lost, with exactly the time it was stored with and the grid point nearest to its place |
| Queries.QueryReturns | src/store.rs:529-603 | Over generated keys, for every window, a row is returned if and only if it matches and is not lost |
| Queries.QueryIsFilteredScan | src/store.rs:529-603 | For every window the query equals the filtered full scan if and only if no matching row is lost |
| Queries.SafeQueryIsFilteredScan | src/store.rs:529-603 | Under the guard on the window, if and only if no matching row is in the end second, past its first nanosecond, on the last code of its cell |
| Joins.JoinIsLarger | src/store.rs:401-409 | At each key the larger-digest payload of the two sides is kept; on a tie ours stays |
| Joins.JoinIsLeast | src/store.rs:401-409 | The join is the least set of rows above both sides |
| Joins.JoinCommutes | src/store.rs:401-409 | Without ties the join does not depend on which side is ours |
| Joins.JoinRises | src/store.rs:401-409 | A merge, whole or partial, never drops a key or lowers a digest |
| Joins.DominatesAntisymmetric | src/store.rs:405-408 | Rows above each other are the same rows when digests tie only on equal payloads |
| Joins.MergeOrder | src/store.rs:404-408 | Merging the same rows in any order and with any repeats ends in the same rows |
| Joins.DeliveryOrder | src/store.rs:401-449 | Ingesting any two deliveries with the same set of rows ends in the same rows and the same forest |
| PullPlan.WantedIsDivergent | src/sync.rs:177-186 | The leaves a pull wants are the leaves of `diff_forests` under which the peer's hash is not zero at any level |
| PullPlan.PlanUnrepeated | src/sync.rs:177-220 | No leaf is planned twice |
| PullPlan.NodeLeaves | src/sync.rs:210-219 | Replacing a cell by its entered children neither loses nor adds a leaf |
| PullPlan.EnteredLighter | src/sync.rs:188-220 | The entered children weigh less than their parent, so the worklist runs out |
| PullProgress.ProgressAbove | src/sync.rs:177-220 | While a cell above the leaf depth heads the list nothing has been fetched and the store is as it started, so no comparison sees an ingested row |
| PullProgress.ProgressChildren | src/sync.rs:210-219 | Entering a cell keeps the list sorted by depth with at most two adjacent depths and the leaves to come unchanged |
| PullProgress.ProgressLeaf | src/sync.rs:189-192 | The leaf at the head of the list has not been fetched before |
| PullProgress.ProgressEnd | src/sync.rs:188-222 | When the list is empty the fetched leaves are the wanted ones, each once |
| PullProgress.RowOffered | src/sync.rs:203-205 | One offered row moves the store one row towards the join, whatever its ingest does |
| Sync.SyncService.Roots | src/sync.rs:61-75 | Serves the non-zero roots by ascending epoch and the leaf depth announced |
| Sync.SyncService.Children | src/sync.rs:77-95 | Refuses depths without children, else serves the non-zero children |
| Sync.SyncService.Fetch | src/sync.rs:99-140 | Refuses a range that ends before it starts, else serves its rows in key order |
| Sync.OpeningWork | src/sync.rs:180-186 | Keeps the epochs whose peer root is not zero and not ours |
| Sync.EnterNode | src/sync.rs:210-219 | Asks for children only where the peer has some, and keeps those whose peer hash is not zero and not ours |
| Sync.IngestRows | src/sync.rs:196-206 | Merges the rows of a leaf and counts the changes; it stops only at a failing commit, with what was merged so far |
| Sync.SyncOnce | src/sync.rs:158-223 | A round that ends well fetched exactly the wanted leaves, each once, merged exactly the peer's rows in them and counted leaves, rows and changes; a failed one has merged only rows of the peer in wanted leaves and kept the store in step. It fails only because the peer announced no leaf depth, and then changes nothing, or because one commit failed in it |
| Convergence.RowReached | src/sync.rs:177-186 | A peer's row lies in a wanted leaf or is one we already hold as it is, if no compared cell collides |
| Convergence.PullIsJoin | src/sync.rs:158-163 | A pull without collisions at the compared cells joins all of the peer's rows to ours |
| Convergence.PullJoins | src/sync.rs:164-223 | After A pulls from B, A's row at every key is the larger-digest one of the two, and A is still in step |
| Convergence.NothingToPull | src/sync.rs:177-186 | Between nodes with the same rows a pull fetches no leaf and applies no row, with no assumption on collisions |
| Convergence.TwoPullsConverge | src/sync.rs:8-11 | After A pulls from B and B from A both hold the join, their forests agree at every epoch, and a further pull either way does nothing |
| Convergence.EitherPullsFirst | src/sync.rs:8-11 | Whichever node pulls first, both end with the same rows, the same for either order |
| Mesh.Provenance | src/sync.rs:8-11 | In any run of any number of nodes every row held was held at the start or written at some node since |
| Mesh.RowsOnlyRise | src/sync.rs:8-11 | No node ever drops a key or goes back to a smaller digest |
| Mesh.ChainDominates | src/sync.rs:8-11 | After a chain of whole pulls from u to v, v is above everything u held when the chain began |
| Mesh.MeshConverges | src/sync.rs:8-11 | Once writes stop and chains of whole pulls join all pairs, all nodes hold the same rows |
| Mesh.AllPullConnects | src/sync.rs:8-11 | Chains join all pairs as soon as every node has pulled from every other one, in whatever order |
| Mesh.MeshHashesAgree | src/sync.rs:8-11 | ... and any two forests in step with the rows of two nodes agree on every node hash and count |
| Mesh.RoundIsEvent | src/sync.rs:164-223 | A pull round, failed or not, is a pull event of the mesh, and a whole one when it ends well without collisions |
| Mesh.WriteIsEvent | src/store.rs:308-334 | A local store of a fresh key is a write event of the mesh |

## Left out

- SHA-256 itself: a library call, kept as an uninterpreted 128-bit function.
- Floating point: coordinates, the radius and the logarithm are exact; NaN, infinities and a negative radius are not modelled.
- SurrealKV: an ordered map with atomic commits and half-open scans stands for it; its files, logs and flushing are not part of this model.
- gRPC, streaming, retries and timers: a peer is an object that answers from its forest and rows; hashes travel as numbers, and a malformed hash or key cannot arrive.
- Peers that answer falsely, or whose rows change while a round is under way.
- The watch channel and the hub: a publish is recorded once per landed row; loss, lag and subscriber filters are not modelled.
- A future dropped between two awaits; only crashes of the whole process are modelled.
- The WebAssembly wrapper, the browser code, the demos and the benchmark.
- `merkle_forest`, `sync_plan`, `sealed_epochs`, `epoch_duration`, `close` and `is_empty`: one-line readers and wrappers.
- Debug assertions, error texts and capacity hints.
- SealProtocol: the list of candidates a sealer starts with is arbitrary there; the cutoff and the epochs present are modelled in `Store.SpatioTemporalStore.SealSettledEpochs`.
- SealProtocol: the commit that would bring the disk beyond 2^64 - 1 rows is not a step, since the count field could not hold it.
- Merkle.EpochTree.Add: with `Take`, the two lines of `insert` and `remove` that change the tree of one epoch are methods of the tree here; counts are unbounded numbers, bounded only where a record is printed.
- Merkle.MerkleForest.constructor: the tree of an epoch also carries, for proofs only, the number of its epoch.
- Store.SpatioTemporalStore.Ingest: the row held is looked up and written in one call here; interleaved ingests are covered by the protocol.
- Store.SpatioTemporalStore.SealSettledEpochs: on a failed commit the code returns only the error; the model also names the epochs sealed before it.
- WindowPlan.TimeWindowRanges: the capacity asked for beforehand is not modelled; `checked` says whether an epoch count outside 32 bits panics or wraps.
- Planner.GenerateKeyBytes: nanoseconds of a whole second or more are excluded, as the debug assertion does.
- Sync.SyncOnce: the tree and the forest of the peer are given directly, at any leaf depth, instead of a handle to its store; the depth it announces is its forest's, or one a puller refuses.
- Mesh.MeshConverges: a pull round is one event, so the peer is as it was when the round began.
