# Storage layer of chusql: a verified model

This project models the Rust storage layer under `chusql-core/storage/src` in Dafny and
proves what it is for: transactions read a stable snapshot and never overwrite one another,
indexes agree with tables, and what was written survives any crash.

The parts follow the source files, and each keeps the form of its source: values and lemmas
where the code computes, methods with loops and classes where it changes state in place.

- **Versions and transactions** (`mvcc.rs`). `Versions`, `Publish`, `PublishLoop` and `Catalog`
  are the version chains and the publish of new table contents; `Matching`, `Plans` and `Merging`
  pair wanted rows with stored ones and merge a transaction into the current rows;
  `Transactions` is the state machine of begin, publish, lock turns, abort and finish (each turn
  of the lock loop between two waits is one step); `Snapshots`, `Locks`, `LockLists`, `TxSteps`,
  `TxReads`, `Commits`, `Acceptance`, `PublishAccepts`, `CommitSteps` and `Serializable` hold the
  theorems over its runs: what is read, who is locked and waits, when a commit is accepted and
  when not; `MvccEngine` is the engine object; `DeltaFrames` the bytes of the delta log,
  `DeltaLog` its deltas and crash points, `DeltaRuns` whole lives with crashes and restarts.
- **Index** (`btree.rs`). `BTree`, `BTreeOrder`, `BTreeChain` and `BTreeScan` are the tree as a
  value; `BTreePages`, `BTreeStore` and `DiskBTree` the tree on its pages, changed in place;
  `IndexHistory` histories of inserts and deletions, `RepeatedKeys` those that go wrong;
  `NodeLayout` the page image of a node; `BTreeKeys` ties byte-string keys and page sizes to
  the tree.
- **Pages** (`page.rs`, `page_wal.rs`). `PageJournal` is the disk with its crash relation and
  the repair argument; `PagePool` the cache as a value; `PageFile` the page file object and
  crashes during recovery.
- **Write-ahead log and commit** (`wal.rs`, `runtime.rs`). `WalFrames` is the byte format,
  `WalGroups` the commit groups, `CommitProtocol` the commit and recovery methods with every
  durable state they pass through, `CommitRuns` the theorems over whole runs of crashes,
  starts, recoveries and commits.
- **Tables** (`heap.rs`, `runtime.rs`). `SlottedPage` is the page on its bytes, `HeapCells` and
  `HeapTable` the table with its indexes, `HeapPages` ties its slots to the bytes of a page and
  `IndexCalls` its indexes to the tree on disk; `IdPreflight` is the check of a group for
  duplicate ids, `GroupApply` the group applied to tables, `CatchUp` the catch-up of online
  compaction.

Crash points are explicit. A method that writes to disk lists, in a ghost result, every disk
state it passes through, and its contract says what recovery makes of each of them.

Four promises turned out not to hold as stated; the code is modelled as it is, with a
concrete failing input and the exact condition:

- The comment on `apply_transaction` (runtime.rs:814-818) says that a group without its mark
  is discarded whole. A single surviving operation is replayed (wal.rs:418-420): `HalfGroup`,
  `AtomicIff`.
- The refusal of recovery (runtime.rs:1220) can fire on a database that only crashed: when a
  lone operation was published by a recovery that stopped before its checkpoint, or when an
  empty group was published and its mark then discarded (`LoneRefused`, `BareRefused`). In the
  second case the server goes on, and a complete commit repairs the state; if the process
  stops before, the database cannot be opened. `RefusedExactly` gives the condition over all
  runs, `RefusedForever` says that nothing mends a refused database that is not running.
- With repeated keys an index of even order can lose its order, because the place of a new right
  node is looked up by its key (btree.rs:497-501): then a deletion misses its entry
  (`DeleteMisses`, `EvenFails`), and a bounded scan loses entries (`ScanLoses`), for every even
  order of at least 4. An index is exact after every history exactly if its order is odd or no
  key has more than half the order of entries (`ExactIff`); under that condition every index of
  a table holds exactly the pairs of its rows (`IndexOnDisk`). Nothing is lost from the leaves
  (`InsConserves`, `DiskBTree.Index.Scan`).
- A publish keeps a snapshot only if its csn is above it (mvcc.rs:745, 791 guard less than
  that): `SnapshotReplaced`, `SnapshotKeptIff`.

## Model

| member | source | states |
|---|---|---|
| `Rows.KeyOfOrder` | chusql-core/storage/src/heap.rs:103-106 | integer keys compare as their integers, negative numbers first, and are equal only for equal integers |
| `Rows.RowKeyExact` | chusql-core/storage/src/heap.rs:109-147 | exactly whole numbers, texts, booleans and enum values have an index key; of one kind, equal keys mean equal values |
| `Rows.UniqueKeyExact` | chusql-core/storage/src/mvcc.rs:203-218 | everything but null and values without a key has a business key; of one kind, equal keys mean equal values |
| `Matching.MatchInjective` | chusql-core/storage/src/mvcc.rs:726-741 | no row of the snapshot is used for two wanted rows |
| `Matching.MatchGreedy` | chusql-core/storage/src/mvcc.rs:282-301 | every wanted row takes the first stored row that fits and that no earlier one took, and goes without exactly if there is none |
| `Matching.MatchSelf` | chusql-core/storage/src/mvcc.rs:282-301 | a list matched with itself uses every position for itself |
| `Matching.KeyPositions` | chusql-core/storage/src/mvcc.rs:221-229 | the queues built by the loop agree with the positions of each key, in order |
| `Matching.Take` | chusql-core/storage/src/mvcc.rs:730-738 | taking from a queue yields the first free position of that key and leaves the queues in agreement |
| `Matching.MatchRows` | chusql-core/storage/src/mvcc.rs:282-301 | the loop over queues computes the greedy first-free matching |
| `Versions.ValueStamp` | chusql-core/storage/src/mvcc.rs:758-770 | along a chain equal value stamps reach back unbroken |
| `Versions.SameStampSameRow` | chusql-core/storage/src/mvcc.rs:758-770 | two versions of one chain with equal `value_begin` hold the same row |
| `Versions.PlacedOk` | chusql-core/storage/src/mvcc.rs:745-770 | closing the open version and placing a new one keeps the chain a contiguous run of intervals with at most one open version |
| `Versions.PlacedKeepsPast` | chusql-core/storage/src/mvcc.rs:745-770 | snapshots below the new csn see the same version as before |
| `Versions.PruneSuffix` | chusql-core/storage/src/mvcc.rs:399-418 | pruning drops exactly the versions that ended by the bound, and these are a prefix |
| `Versions.PruneOk` | chusql-core/storage/src/mvcc.rs:399-418 | what pruning leaves is still a chain, with the same last version |
| `Versions.PruneKeepsRecent` | chusql-core/storage/src/mvcc.rs:399-418 | snapshots from the bound on do not notice pruning |
| `Versions.PruneTwice` | chusql-core/storage/src/mvcc.rs:71-89 | pruning twice is pruning once at the later bound |
| `Versions.OrderedUnique` | chusql-core/storage/src/mvcc.rs:186-200 | the order of visible rows is the only one that sorts them by position and id |
| `Publish.AssignDistinct` | chusql-core/storage/src/mvcc.rs:740-787 | row ids given to published rows are pairwise different: matched rows keep theirs, new rows get fresh ones |
| `Publish.RebuiltShows` | chusql-core/storage/src/mvcc.rs:720-802 | the rebuilt table shows exactly the given rows in the given order at the new csn |
| `Publish.RebuiltKeepsPast` | chusql-core/storage/src/mvcc.rs:720-802 | the rebuilt table shows the same rows as before to every earlier snapshot |
| `Publish.PublishedCorrect` | chusql-core/storage/src/mvcc.rs:711-808 | one published table: contents, past and the chain, id and change-stamp invariants together |
| `PublishLoop.PlaceLoop` | chusql-core/storage/src/mvcc.rs:729-788 | the row loop of a publish computes the specified chains, or meets the refusal |
| `PublishLoop.EndLoop` | chusql-core/storage/src/mvcc.rs:789-802 | the loop over vanished rows ends exactly their open versions |
| `PublishLoop.PublishTable` | chusql-core/storage/src/mvcc.rs:711-808 | refuses exactly when the specification does, and otherwise builds exactly the specified table and id counter; the change flag set in the two loops says whether a value or the schema changed |
| `Catalog.PublishListCorrect` | chusql-core/storage/src/mvcc.rs:711-808 | the table loop publishes every listed table and touches no other |
| `Catalog.PublishCorrect` | chusql-core/storage/src/mvcc.rs:696-850 | at the new csn listed tables show the given rows in order, other current tables are unchanged, dropped ones are empty; snapshots from the prune bound on read what they read before; the invariant is kept and the id counter never falls |
| `Catalog.SnapshotKeptIff` | chusql-core/storage/src/mvcc.rs:745-795 | a publish keeps what a snapshot reads of a listed table if and only if its csn is above the snapshot or the rows are the same |
| `Catalog.SnapshotReplaced` | chusql-core/storage/src/mvcc.rs:696-850 | a concrete input: one table with one row, a snapshot at csn 5 and an accepted publish at csn 5 that appends a row; what the snapshot reads changes |
| `Catalog.PruneDurableCorrect` | chusql-core/storage/src/mvcc.rs:71-89 | pruning the durable state keeps the invariant and everything that snapshots from the bound on read |
| `Catalog.OpenNeverRejects` | chusql-core/storage/src/mvcc.rs:537-550 | no state that satisfies the invariant is rejected by the check of `open` |
| `Catalog.AcceptedMeans` | chusql-core/storage/src/mvcc.rs:537-550 | in a catalogue that `open` accepts, unused row ids are free, versions stand in the order of their begins, and at the csn a row shows exactly its last open version |
| `PublishAccepts.PublishAccepted` | chusql-core/storage/src/mvcc.rs:696-850 | a publish at a new csn is accepted, whatever the rows, while row ids last |
| `PublishAccepts.RepublishAccepted` | chusql-core/storage/src/mvcc.rs:742-750 | a publish repeated at its csn is accepted, as recovery repeats it after a crash before the checkpoint |
| `Plans.ChangePartition` | chusql-core/storage/src/mvcc.rs:278-327 | a plan uses every snapshot row id exactly once, matched to one wanted row or removed |
| `Plans.PairExact` | chusql-core/storage/src/mvcc.rs:306-313 | the m-th unmatched row without a business key continues the m-th leftover; every other row keeps its match |
| `Plans.LeftoverNext` | chusql-core/storage/src/mvcc.rs:303-305 | the leftovers are, in row order, exactly the unmatched snapshot rows without a business key |
| `Plans.DropKeysNext` | chusql-core/storage/src/mvcc.rs:268-274 | deleting by ids takes exactly the first row of each id |
| `Plans.PairRows` | chusql-core/storage/src/mvcc.rs:283-313 | the two pairing passes compute the specified pairing |
| `Plans.PlanChange` | chusql-core/storage/src/mvcc.rs:278-327 | the change computed from queues is the specified change |
| `Plans.MergeCorrect` | chusql-core/storage/src/mvcc.rs:330-396 | the Delete+Upsert and the Replace encoding, applied as in `preview`, give the same rows: the untouched current rows in order, then the changed and new rows |
| `Merging.SameContentsSameRows` | chusql-core/storage/src/mvcc.rs:186-200 | two views with the same row under every id show the same rows, apart from their order |
| `Merging.MergedIsWanted` | chusql-core/storage/src/mvcc.rs:330-396 | merging a plan into a table whose contents are those of the snapshot gives exactly the wanted rows, however the rows were reordered meanwhile |
| `Merging.AppendTouchesNothing` | chusql-core/storage/src/mvcc.rs:278-396 | a plan that only appends touches no stored row and appends exactly the new ones |
| `Snapshots.OldestNeverDecreases` | chusql-core/storage/src/mvcc.rs:399-406 | the oldest live snapshot never decreases |
| `Snapshots.OldestIs` | chusql-core/storage/src/mvcc.rs:399-406 | the prune bound is the least snapshot of a live transaction, or the csn if there is none |
| `Snapshots.PruneForgets` | chusql-core/storage/src/mvcc.rs:71-89 | pruning forgets exactly the versions that ended by the bound, the rows without a version left and the retired tables without a row left |
| `Snapshots.StepKeepsSnapshots` | chusql-core/storage/src/mvcc.rs:696-850 | every step keeps the version invariant and what every live transaction reads |
| `Snapshots.SnapshotStable` | chusql-core/storage/src/mvcc.rs:186-200 | over every interleaving of begin, publish, lock turns, abort, finish and prune, the ordered rows a live transaction reads of every table never change |
| `Locks.Cycle` | chusql-core/storage/src/mvcc.rs:421-430 | the recursive search with a visited set terminates and finds a wait path if and only if there is one |
| `Locks.DetectCycle` | chusql-core/storage/src/mvcc.rs:421-430 | true exactly if a non-empty wait path leads back to the transaction |
| `Locks.WaitFindsCycle` | chusql-core/storage/src/mvcc.rs:1069-1078 | with the blockers recorded, the search finds a cycle exactly if the conflicting holders, directly or through recorded waits, wait for the transaction |
| `Locks.GrantExclusive` | chusql-core/storage/src/mvcc.rs:1057-1068 | a grant without blockers keeps every pair of holders compatible |
| `Locks.WaitAcyclic` | chusql-core/storage/src/mvcc.rs:1069-1078 | a wait that closes no cycle through the waiter keeps the whole wait graph acyclic |
| `Locks.StepKeepsLocks` | chusql-core/storage/src/mvcc.rs:1044-1091 | every step keeps locks compatible and the wait graph acyclic |
| `Locks.LockSafety` | chusql-core/storage/src/mvcc.rs:1044-1091 | in every reachable state no two live transactions hold one key with either hold exclusive, and the wait graph is acyclic |
| `LockLists.WantedExactly` | chusql-core/storage/src/mvcc.rs:999-1038 | the lock list, key by key: every changed table shared; exclusively, exactly the rows removed or changed and exactly the `id`, unique and primary values of the rows that go or come |
| `LockLists.CollectRows` | chusql-core/storage/src/mvcc.rs:1008-1022 | the loops collect exactly the displaced row ids and the rows taken away or brought |
| `LockLists.LockList` | chusql-core/storage/src/mvcc.rs:999-1038 | the loops build exactly that list |
| `LockLists.PlanAllIff` | chusql-core/storage/src/mvcc.rs:238-262 | planning succeeds exactly if every operation names a known table that is still there |
| `TxSteps.Bystander` | chusql-core/storage/src/mvcc.rs:433-442 | a step leaves every transaction it does not act for as it was, except that it no longer waits for one that ended |
| `TxSteps.LiveStep` | chusql-core/storage/src/mvcc.rs:433-442 | a live transaction stays live exactly unless the step is its own abort, finish or deadlocked turn |
| `TxSteps.LivesUntil` | chusql-core/storage/src/mvcc.rs:1214-1226 | over runs, a live transaction lives until its own abort, finish or deadlocked turn, and no longer |
| `TxSteps.RingBroken` | chusql-core/storage/src/mvcc.rs:1069-1078 | no deadlock lasts: when each transaction of a ring was blocked by the next in its last turn, one of them is aborted or finished |
| `TxSteps.CallStores` | chusql-core/storage/src/mvcc.rs:980-1099 | a lock call that returns has stored exactly its operations as the plan and exactly the named tables as declared reads |
| `TxReads.CurrentIsPublished` | chusql-core/storage/src/mvcc.rs:696-850 | the current rows of a table are those of the last publish that listed it, while it stays in the catalogue |
| `TxReads.ReadsFromBegin` | chusql-core/storage/src/mvcc.rs:862-911 | for as long as it is live, a transaction reads of every table exactly the rows that were current at its begin |
| `TxReads.BeginReadsPublished` | chusql-core/storage/src/mvcc.rs:862-911 | a transaction reads everything published before its begin, and nothing published later |
| `Commits.PlanKeysLocked` | chusql-core/storage/src/mvcc.rs:999-1038 | in every reachable state each row that a stored plan removes or changes, and each business key of the rows it takes away or brings, is held exclusively |
| `Commits.NoSharedKey` | chusql-core/storage/src/mvcc.rs:999-1068 | no two live transactions with stored plans displace a common row or write a common business key |
| `Commits.NoSharedBusinessKey` | chusql-core/storage/src/mvcc.rs:1024-1036 | two live transactions never both plan to write rows with the same `id`, or the same value in a unique or primary column |
| `Commits.FirstCommitterWins` | chusql-core/storage/src/mvcc.rs:445-496 | if validation passes, each row the plan touches currently has the value it had in the snapshot and is locked exclusively |
| `Commits.StampSound` | chusql-core/storage/src/mvcc.rs:727-807 | a change stamp at or below a snapshot means the chain shows the same row there and now |
| `Commits.ChangedSound` | chusql-core/storage/src/mvcc.rs:727-807 | a table whose change stamp is at or below a snapshot has the same id-to-row contents there and now |
| `Commits.ReadsAreCurrent` | chusql-core/storage/src/mvcc.rs:497-511 | a validated serializable writer would read at its commit what it read in its snapshot |
| `Acceptance.KeyValidIff` | chusql-core/storage/src/mvcc.rs:455-495 | a held row passes the recheck exactly if its table is the same and the row has kept its value ever since the snapshot, moved or not; a business key, exactly if its table is the same |
| `Acceptance.PublishedStamp` | chusql-core/storage/src/mvcc.rs:727-807 | a publish stamps a table as changed exactly if its contents or its schema change |
| `Acceptance.ReadValidExactly` | chusql-core/storage/src/mvcc.rs:497-511 | over runs, a declared read passes exactly if no publish since has dropped the table or changed its schema or contents |
| `Acceptance.ValidatedIff` | chusql-core/storage/src/mvcc.rs:445-511 | in every reachable state the commit check passes exactly if nothing held exclusively and, for a serializable writer, no declared read has changed since the snapshot |
| `CommitSteps.NoLostUpdate` | chusql-core/storage/src/mvcc.rs:1160-1171 | after the publish of a commit (validated, planned, merged) every current row the plan does not touch is shown with its value in its order, followed by the changed and new rows; every touched row had its snapshot value and was held exclusively |
| `CommitSteps.OthersKept` | chusql-core/storage/src/mvcc.rs:1160-1171 | tables outside the plan show exactly what they showed before the commit |
| `Serializable.DropIsDelete` | chusql-core/storage/src/mvcc.rs:268-274 | deleting by ids takes the same rows from every order of the table when each id belongs to at most one row |
| `Serializable.AppendsMerge` | chusql-core/storage/src/mvcc.rs:330-396 | a table that a transaction only appends to gets the new rows added to its current ones, whatever was committed meanwhile |
| `Serializable.ReadsMerge` | chusql-core/storage/src/mvcc.rs:330-396 | planning and merging at the snapshot publishes what the operations make of the current rows, for a table whose contents are unchanged |
| `Serializable.CommitIsExecution` | chusql-core/storage/src/mvcc.rs:1160-1171 | a commit of a validated serializable transaction takes effect as its program run alone on the rows at its commit point |
| `Serializable.SerialEquivalence` | chusql-core/storage/src/mvcc.rs:497-511 | every run, with plain publishes and other transactions between, ends with the rows of executing the committed serializable transactions one by one in commit order |
| `MvccEngine.PublishTables` | chusql-core/storage/src/mvcc.rs:711-808 | the loop over listed tables computes the specified tables and counter, or the refusal |
| `MvccEngine.DropTables` | chusql-core/storage/src/mvcc.rs:809-820 | the loop ends the rows of exactly the tables that left the catalogue |
| `MvccEngine.PruneTables` | chusql-core/storage/src/mvcc.rs:407-413 | the nested loops compute the pruned tables |
| `MvccEngine.Mvcc.PublishChanged` | chusql-core/storage/src/mvcc.rs:696-850 | in place: all of the specified publish or nothing, keeping the snapshot and lock invariants at every csn it accepts; above every live snapshot all live reads stay the same |
| `MvccEngine.Mvcc.Begin` | chusql-core/storage/src/mvcc.rs:862-911 | the new transaction has the current csn as its snapshot, holds nothing and waits for nobody; the rows of the selected tables at that csn are returned, every other transaction is unchanged; fails exactly if numbers are used up or a table is unknown |
| `MvccEngine.Mvcc.Validate` | chusql-core/storage/src/mvcc.rs:445-511 | the loops over held keys and declared reads decide the specified check |
| `MvccEngine.Mvcc.Read` | chusql-core/storage/src/mvcc.rs:914-960 | returns the rows of the snapshot, for a known table and a valid transaction |
| `MvccEngine.Mvcc.LockStart` | chusql-core/storage/src/mvcc.rs:980-1043 | refused exactly for an invalid transaction or an unknown or removed table; otherwise records exactly the named reads and returns the lock list |
| `MvccEngine.Mvcc.LockTurn` | chusql-core/storage/src/mvcc.rs:1044-1091 | granted exactly if no other live transaction holds the key in conflict; otherwise exactly these are recorded as waited for, or the transaction is aborted, exactly if they wait for it directly or through others |
| `MvccEngine.Mvcc.LockDone` | chusql-core/storage/src/mvcc.rs:1092-1099 | stores the operations as the plan exactly if the transaction is still valid |
| `MvccEngine.Mvcc.Abort` | chusql-core/storage/src/mvcc.rs:433-442 | the transaction holds nothing, waits for nobody and carries the error; all others keep everything and only stop waiting for it |
| `MvccEngine.Mvcc.Finish` | chusql-core/storage/src/mvcc.rs:1214-1226 | exactly this transaction is gone, the others only stop waiting for it, and exactly the versions are forgotten that ended by the oldest remaining snapshot |
| `DeltaFrames.HexRoundTrip` | chusql-core/storage/src/mvcc.rs:105-107 | the sixteen digits of a checksum read back to it |
| `DeltaFrames.PiecesOf` | chusql-core/storage/src/mvcc.rs:98-101 | whole lines and an unterminated rest are split where they were put together |
| `DeltaFrames.FrameReads` | chusql-core/storage/src/mvcc.rs:659-664 | a written frame is one line, passes its checksum and reads back to its delta |
| `DeltaFrames.TornFile` | chusql-core/storage/src/mvcc.rs:90-103 | a file that ends inside a frame, at whatever byte, has exactly the frames before it as whole lines |
| `DeltaFrames.ChecksumDetects` | chusql-core/storage/src/mvcc.rs:63-68 | the checksum differs whenever two texts differ in a single byte |
| `DeltaFrames.DamageReported` | chusql-core/storage/src/mvcc.rs:102-110 | a frame with one changed byte in its text is reported as damaged, not read as another delta |
| `DeltaLog.ReplayDeltas` | chusql-core/storage/src/mvcc.rs:90-152 | the loop over the bytes computes the replayed state and the file cut behind its last whole line, or the error of the first bad line |
| `DeltaLog.TornOpens` | chusql-core/storage/src/mvcc.rs:516-550 | opening a file that ends inside a line gives the state of the log in front of it and cuts the file back to that log |
| `DeltaLog.PruneDurableTwice` | chusql-core/storage/src/mvcc.rs:71-89 | pruning the durable state twice is pruning it once |
| `DeltaLog.DeltaLossless` | chusql-core/storage/src/mvcc.rs:591-673 | applying the delta of a publish to the less pruned state on disk gives exactly the published state |
| `DeltaLog.AppendDurableIff` | chusql-core/storage/src/mvcc.rs:90-152 | an appended line takes effect on reopening if and only if its csn is above that of the snapshot file or nothing changed |
| `DeltaLog.PublishCrashAtomic` | chusql-core/storage/src/mvcc.rs:572-673 | at every crash point of `persist`, to the byte, opening succeeds with the last published state or the new one, and leaves a disk in step with it |
| `DeltaRuns.OpenGivesStored` | chusql-core/storage/src/mvcc.rs:516-550 | at every point of every life, through any number of crashes and restarts, opening gives exactly the stored state and leaves the file as it is, although finishing prunes memory without logging it |
| `DeltaRuns.CrashGivesStoredOrNew` | chusql-core/storage/src/mvcc.rs:516-673 | a crash at any point of any life, at any byte of a publish, is followed by an open that succeeds with the stored state or the one being published, and the life goes on from there |
| `DeltaRuns.StoredNeverBack` | chusql-core/storage/src/mvcc.rs:516-673 | over whole lives the stored csn never decreases: no completed publish is taken back |
| `BTree.InsConserves` | chusql-core/storage/src/btree.rs:483-515 | insertion adds exactly the given entry to the entries of the tree, with repeated keys too |
| `BTreeOrder.InsOrdered` | chusql-core/storage/src/btree.rs:483-515 | insertion keeps a search tree with repeated keys, through splits at every level: always for an odd order, for an even one while no key has more than half the order of entries |
| `BTreeOrder.GrowPlace` | chusql-core/storage/src/btree.rs:496-502 | in a search tree, repeated keys included, the place recomputed from the separator is the place of the child that split |
| `BTreeOrder.OrderedSorted` | chusql-core/storage/src/btree.rs:548-594 | the entries of a search tree are sorted by key |
| `BTreeOrder.SortedUnique` | chusql-core/storage/src/btree.rs:548-594 | a sorted list without repeated keys is determined by its entries |
| `BTreeChain.InsLinked` | chusql-core/storage/src/btree.rs:508-514 | under the order condition insertion keeps the leaf links equal to the leaves in tree order |
| `BTreeChain.InsSized` | chusql-core/storage/src/btree.rs:504-514 | splits leave both halves within the key limit of a node |
| `BTreeChain.DelConserves` | chusql-core/storage/src/btree.rs:526-546 | a deletion that finds its entry removes exactly that entry |
| `BTreeChain.DelKeeps` | chusql-core/storage/src/btree.rs:526-546 | deletion keeps order, leaf links and node sizes, also when a leaf becomes empty |
| `BTreeChain.DelFinds` | chusql-core/storage/src/btree.rs:526-546 | every entry of a search tree is found by deletion, repeated keys included |
| `BTreeScan.LinkedChained` | chusql-core/storage/src/btree.rs:579-593 | following the links visits the leaves in tree order |
| `BTreeScan.StartAt` | chusql-core/storage/src/btree.rs:562-578 | everything left of the leaf a scan starts in is below the range |
| `BTreeScan.CollectIsRange` | chusql-core/storage/src/btree.rs:579-593 | the walk that skips and stops collects exactly the closed range of a sorted list |
| `BTreeScan.RangeExact` | chusql-core/storage/src/btree.rs:553-594 | the range holds exactly the entries between the bounds |
| `BTreePages.InsApart` | chusql-core/storage/src/btree.rs:483-515 | insertion uses the pages of the tree and new ones, each for one node |
| `BTreePages.InsLeaves` | chusql-core/storage/src/btree.rs:483-515 | insertion replaces one leaf by itself or its two halves, with repeated keys too |
| `BTreePages.DelIds` | chusql-core/storage/src/btree.rs:526-546 | deletion keeps the pages of the tree |
| `BTreeStore.AfterChain` | chusql-core/storage/src/btree.rs:445-515 | the link order after an insertion: the leaf it lands in gives way to its halves, whatever the keys |
| `BTreeStore.PermutedEntries` | chusql-core/storage/src/btree.rs:548-551 | walking the leaves in link order meets every entry once, whatever the tree order |
| `BTreeStore.ChainIsLeaves` | chusql-core/storage/src/btree.rs:579-593 | in a search tree the links run through exactly the leaves in tree order |
| `DiskBTree.Index.Insert` | chusql-core/storage/src/btree.rs:445-480 | on pages: adds exactly the pair and computes the specified tree; keeps the search tree for every odd order, and for an even one while no key gets more than half the order of entries |
| `DiskBTree.Index.InsertKey` | chusql-core/storage/src/btree.rs:349-362 | a byte-string key is refused exactly if it is longer than the limit, and otherwise inserted at its rank |
| `DiskBTree.Index.InsertRec` | chusql-core/storage/src/btree.rs:483-515 | the recursive load-change-store computes the specified tree on its pages and touches no other page |
| `DiskBTree.Index.Delete` | chusql-core/storage/src/btree.rs:518-546 | on pages: computes the specified tree, removes exactly the pair if found; in a search tree, repeated keys included, it finds every pair that is there |
| `DiskBTree.Index.Scan` | chusql-core/storage/src/btree.rs:553-594 | in a search tree exactly the closed range in order; without bounds every entry once; in any tree exactly what the walk along the leaf chain collects |
| `IndexHistory.TameExact` | chusql-core/storage/src/btree.rs:445-546 | under the order condition the tree is exact after every history of inserts and deletions: every deletion finds its entry and scans stay exact |
| `RepeatedKeys.DeleteMisses` | chusql-core/storage/src/btree.rs:526-546 | for every even order of at least 4: an entry that is in the tree and that deletion does not find |
| `RepeatedKeys.EvenFails` | chusql-core/storage/src/btree.rs:495-502 | for every even order of at least 4: a history of inserts from the empty tree with half the order plus one entries under a key, after which a deletion leaves its entry behind |
| `RepeatedKeys.ExactIff` | chusql-core/storage/src/btree.rs:495-502 | an index is exact after every history with at most so many entries per key if and only if its order is odd or that limit is at most half the order |
| `RepeatedKeys.ScanLoses` | chusql-core/storage/src/btree.rs:579-593 | for every even order of at least 4: a history of inserts from the empty tree after which a bounded scan along the chain loses an entry of its range |
| `BTreeKeys.KeyRankOrder` | chusql-core/storage/src/btree.rs:268-280 | byte-string keys compare as their ranks do |
| `BTreeKeys.InsKeys` | chusql-core/storage/src/btree.rs:483-515 | insertion brings no key but the given one into any node |
| `BTreeKeys.InsertFits` | chusql-core/storage/src/btree.rs:283-309 | for every accepted order, all nodes after inserting a key within the limit fit their pages |
| `NodeLayout.MaxOrderExact` | chusql-core/storage/src/btree.rs:38-46 | an order fits a page if and only if it is at most `max_order` |
| `NodeLayout.NodeFits` | chusql-core/storage/src/btree.rs:38-56 | a node within the key count and the key limit fits the page |
| `NodeLayout.KeyLimitTight` | chusql-core/storage/src/btree.rs:48-56 | a full node of longer keys would not fit |
| `NodeLayout.PutNode` | chusql-core/storage/src/btree.rs:162-190 | refused exactly if the node does not fit; otherwise the page holds the node |
| `NodeLayout.GetNode` | chusql-core/storage/src/btree.rs:192-266 | returns the node a page holds and refuses every page that holds none |
| `NodeLayout.StoreAndLoad` | chusql-core/storage/src/btree.rs:162-266 | loading inverts storing on every well-formed node that fits |
| `PageJournal.Repairs` | chusql-core/storage/src/page_wal.rs:200-269 | replaying a journal repairs whatever happened to the pages it covers, and to all pages if it holds a RESET |
| `PageJournal.CrashRepaired` | chusql-core/storage/src/page_wal.rs:116-269 | after any crash recovery gives the checkpointed pages with a prefix of the journaled writes applied, at least all durable ones, and the disk stays repairable |
| `PageJournal.DoDataOk` | chusql-core/storage/src/page_wal.rs:115-134 | a write may reach the data file once it is durable in the journal |
| `PageJournal.SyncDataOk` | chusql-core/storage/src/page.rs:274-279 | syncing the data file after the journal is carried out keeps every crash repairable |
| `PageJournal.PartlyAppended` | chusql-core/storage/src/page_wal.rs:135-165 | while a batch is appended, a crash leaves some prefix of it |
| `PagePool.CarryOut` | chusql-core/storage/src/page.rs:153-156 | while a durable batch is carried out, every crash is repaired to all of it |
| `PagePool.LsnsRise` | chusql-core/storage/src/page_wal.rs:135-165 | a batch records for each page written the later of its LSN and the batch LSN, so no page LSN falls |
| `PagePool.NoTornPage` | chusql-core/storage/src/page.rs:264-282 | however far a batch got, every page is as before or as cached |
| `PagePool.FlushInvisible` | chusql-core/storage/src/page.rs:264-282 | writing back all dirty pages changes nothing for a reader, and leaves the file equal to what readers see |
| `PagePool.DropInvisible` | chusql-core/storage/src/page.rs:159-161 | dropping a clean page changes nothing for a reader |
| `PagePool.WriteVisible` | chusql-core/storage/src/page.rs:217-235 | a write through the cache is a write for every reader |
| `PageFile.File.Prepare` | chusql-core/storage/src/page_wal.rs:116-168 | the batch is durable and not carried out; every disk on the way can be opened after a crash, and is repaired to a prefix of the frames appended so far, at the end to the whole batch |
| `PageFile.File.Checkpoint` | chusql-core/storage/src/page_wal.rs:176-197 | publishes the metadata and empties the journal; every disk on the way can be opened after a crash and is repaired to the same pages |
| `PageFile.File.Replay` | chusql-core/storage/src/page_wal.rs:210-265 | the recovery loop never refuses what a crash can leave; every disk it passes can be opened after a crash and gives the same result |
| `PageFile.File.Open` | chusql-core/storage/src/page_wal.rs:59-87 | opening gives the checkpoint with the surviving writes applied, from every crash point; every disk on the way can be opened again and gives the same pages |
| `PageFile.CrashFound` | chusql-core/storage/src/page_wal.rs:199-269 | what every crash leaves can be opened |
| `PageFile.PassedGives` | chusql-core/storage/src/page_wal.rs:199-269 | recovery stopped at any point can be opened after a crash and is repaired to the same image |
| `PageFile.RepeatedCrashes` | chusql-core/storage/src/page_wal.rs:199-269 | however often recovery is interrupted by a crash, every start can open what it finds and recovers the image of the first |
| `PageFile.CrashThenCrashes` | chusql-core/storage/src/page_wal.rs:116-269 | a crash at any disk an operation passes and any number of crashes during recovery: the last start opens, with an image that the operation promised for that disk |
| `PageFile.File.Flush` | chusql-core/storage/src/page.rs:264-282 | all dirty pages reach the disk durably, readers see no change; every disk on the way can be opened after a crash, with a prefix of the batch while it is appended and the whole batch from then on |
| `PageFile.File.EvictOne` | chusql-core/storage/src/page.rs:134-162 | evicts the least recently used page, readers see no change; every disk on the way can be opened after a crash, with a prefix of the batch while it is appended and the whole batch from then on |
| `PageFile.File.NoteAccess` | chusql-core/storage/src/page.rs:201-214 | the page is cached and newest unless the file does not have it; the pool stays within its bound |
| `PageFile.File.ReadPage` | chusql-core/storage/src/page.rs:181-184 | returns the latest write of the page, for every capacity |
| `PageFile.File.WritePage` | chusql-core/storage/src/page.rs:217-235 | readers see exactly this page changed |
| `PageFile.File.UpdatePage` | chusql-core/storage/src/page.rs:193-198 | readers see exactly this page changed by the given function |
| `PageFile.File.AppendPage` | chusql-core/storage/src/page.rs:238-243 | readers see one more zero page |
| `PageFile.File.NumPages` | chusql-core/storage/src/page.rs:246-261 | the number of pages readers see |
| `PageFile.File.Truncate` | chusql-core/storage/src/page.rs:290-298 | readers see an empty file, and no page from before reappears after a crash |
| `WalFrames.DecodeIff` | chusql-core/storage/src/wal.rs:441-537 | a frame body decodes to its record if and only if the table name fits its sixteen-bit length |
| `WalFrames.CodesDistinct` | chusql-core/storage/src/wal.rs:15-29 | each of the fourteen operation kinds is read back from its byte, and none is taken for the mark |
| `WalFrames.ParseFile` | chusql-core/storage/src/wal.rs:318-347 | the parse loop computes the specified scan |
| `WalFrames.WholeExact` | chusql-core/storage/src/wal.rs:318-347 | the good length covers as many records as fit |
| `WalFrames.TornTail` | chusql-core/storage/src/wal.rs:318-347 | every byte prefix of a log parses, to exactly the records wholly inside it, with the good length at the last boundary |
| `WalGroups.CommittedOps` | chusql-core/storage/src/wal.rs:408-422 | the loop computes the committed operations |
| `WalGroups.GroupsCommitted` | chusql-core/storage/src/wal.rs:408-422 | complete groups are committed whole; of an unfinished tail nothing, unless it is a single operation |
| `WalGroups.TornCommitted` | chusql-core/storage/src/wal.rs:408-422 | the same for every torn log |
| `WalGroups.AtomicIff` | chusql-core/storage/src/wal.rs:418-420 | a torn log is read as whole groups if and only if it does not end in one operation of a group of several |
| `WalGroups.HalfGroup` | chusql-core/storage/src/wal.rs:418-420 | a concrete group of two of which one operation is taken for committed |
| `WalGroups.TornBytes` | chusql-core/storage/src/wal.rs:318-422 | from bytes to operations: any byte prefix of groups yields the operations of complete groups and at most one more |
| `CommitProtocol.RefusedIff` | chusql-core/storage/src/runtime.rs:1213-1224 | recovery refuses if and only if versions were published that no mark in the log covers |
| `CommitProtocol.AppendStep` | chusql-core/storage/src/wal.rs:284-293 | whatever part of a group reached the log, the state is sound; it is refused if and only if the versions were ahead before and the mark is missing |
| `CommitProtocol.PublishStep` | chusql-core/storage/src/runtime.rs:1255-1256 | publishing a tail keeps the state recoverable if and only if the tail has its mark |
| `CommitProtocol.CheckpointStep` | chusql-core/storage/src/runtime.rs:1113-1113 | moving the checkpoint over a published tail keeps everything |
| `CommitProtocol.DiscardStep` | chusql-core/storage/src/runtime.rs:1234-1239 | dropping a tail without committed operations keeps everything; the state stays recoverable if and only if nothing of it was published |
| `CommitProtocol.AfterSuffix` | chusql-core/storage/src/wal.rs:425-431 | with rising LSNs the records above a boundary are a suffix, the one the truncations cut at |
| `CommitProtocol.NextAbove` | chusql-core/storage/src/wal.rs:381-398 | new LSNs follow the checkpoint and exceed every surviving record |
| `CommitProtocol.Server.AppendGroup` | chusql-core/storage/src/wal.rs:284-293 | appends the group with consecutive new LSNs; what a crash during the write leaves is sound |
| `CommitProtocol.Server.CommitGroup` | chusql-core/storage/src/runtime.rs:1090-1118 | from every state the server writes in, also after a recovery that discarded a published bare mark: the group is kept once its append returned, even if the call then fails, and every later state is sound and recoverable |
| `CommitProtocol.Server.Recover` | chusql-core/storage/src/runtime.rs:1208-1260 | carries out everything kept, refuses exactly when versions are ahead, and passes only through recoverable states if and only if the tail is neither a lone operation nor a published mark without operations |
| `CommitRuns.StepKeeps` | chusql-core/storage/src/runtime.rs:1090-1260 | every step of crashes, starts, recoveries and commits keeps the invariant and everything kept, and the exact account of when it leads into or out of a refusal |
| `CommitRuns.OneGroupAbove` | chusql-core/storage/src/runtime.rs:1208-1260 | in every reachable state at most one group lies above the checkpoint, numbered from it without a gap, and checkpoint <= csn <= the end of that group, or csn is one ahead of an empty tail |
| `CommitRuns.NeverDropped` | chusql-core/storage/src/runtime.rs:1090-1260 | nothing carried out or completely logged is ever dropped |
| `CommitRuns.AppendedKept` | chusql-core/storage/src/wal.rs:284-293 | a group whose append completed is kept in every later state |
| `CommitRuns.NeverRefused` | chusql-core/storage/src/runtime.rs:1220-1224 | in runs without empty groups and without lone tails the refusal never fires |
| `CommitRuns.RefusedExactly` | chusql-core/storage/src/runtime.rs:1220-1224 | a reachable state is refused if and only if a lone operation was published or a published bare mark discarded, and neither a complete group nor a checkpoint followed |
| `CommitRuns.RefusedForever` | chusql-core/storage/src/runtime.rs:1220-1224 | a refused state whose process is gone never changes again |
| `CommitRuns.LoneRefused` | chusql-core/storage/src/runtime.rs:1240-1256 | a concrete run: a lost mark, and a crash between publish and checkpoint of its recovery; the database cannot be opened |
| `CommitRuns.BareRefused` | chusql-core/storage/src/runtime.rs:1234-1239 | a concrete run: an empty group, published, then discarded; the server goes on, and a crash before the next complete group leaves a database that cannot be opened |
| `SlottedPage.FreeEnd` | chusql-core/storage/src/heap.rs:181-193 | the loop finds where the tuples begin |
| `SlottedPage.InsertTuple` | chusql-core/storage/src/heap.rs:196-214 | adds one slot at the end, refused exactly if slot and tuple do not fit; all other tuples as before |
| `SlottedPage.DeleteTuple` | chusql-core/storage/src/heap.rs:217-228 | clears exactly one live slot |
| `SlottedPage.LiveFits` | chusql-core/storage/src/heap.rs:256-264 | live tuples never overlap: they fit between the first of them and the end |
| `SlottedPage.CompactPage` | chusql-core/storage/src/heap.rs:267-293 | the same tuples in the same slots, no dead byte left, and the number of bytes reclaimed |
| `SlottedPage.CompactedFits` | chusql-core/storage/src/heap.rs:541-553 | after compaction a tuple fits exactly if the live tuples leave room for it |
| `HeapPages.RoomAgrees` | chusql-core/storage/src/heap.rs:541-553 | the room the table computes from its slots is the room on the bytes of the compacted page |
| `HeapPages.PlaceOnPage` | chusql-core/storage/src/heap.rs:541-561 | on bytes: compact and insert adds exactly the slot that the table adds, refused exactly if the table finds no room |
| `HeapPages.DeleteOnPage` | chusql-core/storage/src/heap.rs:677-698 | on bytes: clears exactly the slot that the table clears, and keeps the others through compaction |
| `HeapPages.CompactPages` | chusql-core/storage/src/heap.rs:843-853 | every page keeps its slots and has no dead byte afterwards; the result is the sum of the dead bytes before |
| `HeapCells.PackIff` | chusql-core/storage/src/heap.rs:75-82 | a position unpacks to what was packed if and only if the page number has at most 48 bits |
| `HeapCells.FlatClimbs` | chusql-core/storage/src/heap.rs:541-561 | positions rise in scan order, so no two slots ever share one |
| `HeapCells.EntryIff` | chusql-core/storage/src/heap.rs:495-517 | an index entry stands for exactly a live row with that key at that position |
| `HeapCells.ClearCell` | chusql-core/storage/src/heap.rs:677-698 | clearing a slot takes out its row and its index entry and nothing else |
| `HeapCells.IndexFirst` | chusql-core/storage/src/btree.rs:429-442 | the smallest position under a key is that of the first row with it |
| `HeapCells.TargetCounts` | chusql-core/storage/src/heap.rs:701-728 | deleting by keys takes one row of each key that is there, however often it is named |
| `IndexCalls.IndexOnDisk` | chusql-core/storage/src/heap.rs:495-561 | under the order condition the disk tree that received the calls of a table holds exactly the pairs of the table, and every deletion found its pair |
| `IndexCalls.LookupAgrees` | chusql-core/storage/src/btree.rs:434-442 | under the order condition a lookup in the disk tree gives exactly the positions that the table has under the key |
| `HeapTable.Table.InsertRow` | chusql-core/storage/src/heap.rs:495-561 | refused in the order of the indexes or for size, or appended in scan order at a position behind all earlier ones and entered in every index, whose calls are recorded |
| `HeapTable.Table.PlaceRow` | chusql-core/storage/src/heap.rs:541-561 | a new slot on the last page or on a new one; never a position given out before |
| `HeapTable.Table.DeleteAt` | chusql-core/storage/src/heap.rs:677-698 | clears one live slot and its index entries |
| `HeapTable.Table.DeleteByKeys` | chusql-core/storage/src/heap.rs:701-728 | with an id index one row of each key, without one all rows whose id is listed; indexes stay in agreement and the deleted rows are returned |
| `HeapTable.Table.ReplaceAll` | chusql-core/storage/src/heap.rs:801-824 | refused for size or key length before any change, or exactly the given rows with rebuilt indexes |
| `HeapTable.Table.Scan` | chusql-core/storage/src/heap.rs:731-798 | the surviving rows in the order of insertion |
| `IdPreflight.RemovedCount` | chusql-core/storage/src/runtime.rs:865-878 | one row less under every key named, however often |
| `IdPreflight.DeleteAgrees` | chusql-core/storage/src/heap.rs:701-728 | deleting by keys on a table removes exactly the ids the preflight counts |
| `IdPreflight.InsertAgrees` | chusql-core/storage/src/heap.rs:495-509 | the id index refuses a row as duplicate exactly if a live row has its id |
| `IdPreflight.CheckInsert` | chusql-core/storage/src/runtime.rs:910-922 | the row loop stops exactly at the first duplicate |
| `IdPreflight.CheckDelete` | chusql-core/storage/src/runtime.rs:865-878 | the key loop tracks the remaining ids |
| `IdPreflight.CheckReplace` | chusql-core/storage/src/runtime.rs:879-892 | the counts of a replacement are those of its rows |
| `IdPreflight.ValidateInsertIds` | chusql-core/storage/src/runtime.rs:859-925 | accepts a group if and only if applying its operations in order never meets a duplicate id |
| `GroupApply.ReplaceAgrees` | chusql-core/storage/src/heap.rs:801-824 | after a replacement a table has, under every id key, as many rows as were given |
| `GroupApply.NewAgrees` | chusql-core/storage/src/runtime.rs:893-901 | a new table has no ids |
| `GroupApply.InsertRows` | chusql-core/storage/src/runtime.rs:528-547 | inserting rows into a table goes through exactly the ids that the preflight counts, and stops at a duplicate id only where the preflight finds one |
| `GroupApply.ApplyAll` | chusql-core/storage/src/runtime.rs:859-925 | a group applied to real tables: when it goes through, the ids are those the preflight steps through; a group the preflight accepts never stops at a duplicate id |
| `CatchUp.MatchPrefix` | chusql-core/storage/src/runtime.rs:1757-1768 | the greedy match keeps snapshot rows that form, in order, the longest possible prefix of the latest rows |
| `CatchUp.FillShadow` | chusql-core/storage/src/runtime.rs:1711-1714 | the shadow heap holds the snapshot rows, each at its recorded place; succeeds whenever they can be stored and have distinct ids |
| `CatchUp.CatchUpShadow` | chusql-core/storage/src/runtime.rs:1755-1776 | when it succeeds a scan of the shadow gives the latest rows in order; it succeeds whenever they can be stored and have distinct ids |

## Left out

Weaker than the source's widest promise, on purpose:

- SnapshotStable: publishes have a csn above every live snapshot, list each table once and list only tables of the catalogue; the callers in runtime.rs provide this.
- PublishCorrect: the same listing condition (`Proper`); at an unchanged csn it also asks that no row of a dropped table began at it.
- OpenGivesStored: csns rise strictly from publish to publish and current tables are live, as the commit path provides; a line at an old csn is skipped on reopening (`AppendDurableIff`). The text form of a delta (serde_json) is a parameter: reading inverts writing, and a text has no newline.
- DamageReported: one changed byte of the text; that FNV does not detect every change of several bytes is not a claim of the source.
- SerialEquivalence: a transaction is a program from the rows of its declared reads, as bags, to operations; the tables it deletes from or replaces are among them. Programs see bags because a publish that only reorders rows does not mark a table as changed, so a declared read can be validated after a reordering. A deletion names ids of at most one row each; with repeated ids the first row in order goes, which a reordering changes. One lock request of a transaction is outstanding at a time, so the declared reads are those of its last lock call.
- InsOrdered: for an even order it asks that no key gets more than half the order of entries; `ExactIff` says that this is the exact condition over histories.
- InsertRow: an index is the multimap of its pairs together with the calls made to it; that the disk tree holds these pairs is `IndexOnDisk`, under the order condition, and false without it (`EvenFails`).
- ApplyAll: a row that cannot be stored stops a group; the operations are those on the id keys of tables, and a dropped table is one that starts empty again.
- KeyValidIff: for rows of the snapshot; only these are ever held (`ValidatedIff`).
- NeverRefused: one direction over runs, for a condition on the run alone; the exact condition is `RefusedExactly`.
- PublishChanged: the listing condition of `PublishCorrect`.
- CatchUpShadow: success is guaranteed for distinct ids and storable rows; with repeated ids it may or may not succeed.

Not modelled:

- Operation-level redo skipping (runtime.rs:1291-1382): recovery is modelled at the level of log, checkpoint and the set of carried-out operations.
- I/O errors while the process keeps running, `failed` of the page journal, sequence and LSN exhaustion at 64 bits: an append completes or the process crashes.
- A crash keeps a byte prefix of what was appended to a log; other damage to a log is refused by the checksums and stays out.
- A partial page at the end of the data file is a torn page; the file length is counted in pages.
- Page contents in the journal and pool are opaque, with one name for the page of zero bytes; checksums are validity.
- JSON rows are maps from columns to values with the distinctions the key functions make; serialized log arguments are opaque bytes.
- `is_empty` and `fill_index` on reopening an index (heap.rs:367-371, btree.rs:415-426), `get_all` sorting, hidden columns, index build and detach: single-branch additions.
- `read` returns whole rows of one table; the selection of columns (mvcc.rs:940-955) is left out.
- Lock timeouts appear as aborts at any time; wall clocks, threads and condition variables do not appear.
- Accounts, roles, object permissions, catalogue statistics, decimal normalisation, request dispatch, configuration parsing and the FFI: thin or estimate-based code with only easy claims.
