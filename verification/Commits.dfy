/** What the commit checks of mvcc.rs guarantee: rows a plan touches are locked and unchanged
    since the snapshot, and so are the declared reads of a serializable transaction. */
module Commits {
  import opened Basics
  import opened Rows
  import opened Versions
  import opened Publish
  import opened Catalog
  import opened Plans
  import opened Merging
  import opened Transactions
  import opened Snapshots
  import opened Locks
  import opened LockLists
  import opened TxSteps

  // ---- A plan depends only on the snapshot ----

  /** `Edited` with a missing history read as empty. */
  function EditedTotal(tables: Tables, tx: Tx, ops: seq<StorageOp>, edited: map<nat, seq<Row>>): Result<map<nat, seq<Row>>>
    decreases |ops|
  {
    if ops == [] then Ok(edited) else
    var schema := SchemaNamed(tx.schemas, ops[0].table);
    if schema.None? then Err("unknown transaction table")
    else
      var t := schema.value.objectId;
      var rows := if t in edited then edited[t] else RowsAt(tables, t, tx.snapshot);
      EditedTotal(tables, tx, ops[1..], edited[t := Edit(rows, ops[0])])
  }

  function PlanTotal(tables: Tables, tx: Tx, ops: seq<StorageOp>): Result<map<nat, Change>> {
    var edited :- EditedTotal(tables, tx, ops, map[]);
    Ok(ChangesIn(tables, tx.snapshot, edited))
  }

  function ChangesIn(tables: Tables, snapshot: nat, edited: map<nat, seq<Row>>): map<nat, Change> {
    map t | t in edited :: ChangeOf(Ordered(ViewAt(tables, t, snapshot)), edited[t])
  }

  lemma ChangesSame(tables: Tables, tables': Tables, snapshot: nat, edited: map<nat, seq<Row>>)
    requires forall t <- edited :: ViewAt(tables', t, snapshot) == ViewAt(tables, t, snapshot)
    ensures ChangesIn(tables', snapshot, edited) == ChangesIn(tables, snapshot, edited)
  {
    hide ViewAt, ChangeOf, Ordered;
  }

  lemma {:induction false} EditedIsTotal(tables: Tables, tx: Tx, ops: seq<StorageOp>, edited: map<nat, seq<Row>>)
    requires Edited(tables, tx, ops, edited).Ok?
    ensures EditedTotal(tables, tx, ops, edited) == Edited(tables, tx, ops, edited)
    decreases |ops|
  {
    if ops != [] {
      var t := SchemaNamed(tx.schemas, ops[0].table).value.objectId;
      var rows := if t in edited then edited[t] else RowsAt(tables, t, tx.snapshot);
      EditedIsTotal(tables, tx, ops[1..], edited[t := Edit(rows, ops[0])]);
    }
  }

  /** Two views of the engine in which a transaction reads the same. */
  ghost predicate SameReads(tables: Tables, tx: Tx, tables': Tables, tx': Tx) {
    && tx'.snapshot == tx.snapshot && tx'.schemas == tx.schemas
    && forall t: nat :: ViewAt(tables', t, tx.snapshot) == ViewAt(tables, t, tx.snapshot)
  }

  lemma {:induction false} EditedStable(tables: Tables, tx: Tx, tables': Tables, tx': Tx, ops: seq<StorageOp>, edited: map<nat, seq<Row>>)
    requires SameReads(tables, tx, tables', tx')
    ensures EditedTotal(tables', tx', ops, edited) == EditedTotal(tables, tx, ops, edited)
    decreases |ops|
  {
    if ops != [] && SchemaNamed(tx.schemas, ops[0].table).Some? {
      var t := SchemaNamed(tx.schemas, ops[0].table).value.objectId;
      var rows := if t in edited then edited[t] else RowsAt(tables, t, tx.snapshot);
      EditedStable(tables, tx, tables', tx', ops[1..], edited[t := Edit(rows, ops[0])]);
    }
  }

  lemma PlanViews(tables: Tables, tx: Tx, tables': Tables, tx': Tx, ops: seq<StorageOp>)
    requires SameReads(tables, tx, tables', tx')
    ensures tx'.snapshot == tx.snapshot
    ensures EditedTotal(tables, tx, ops, map[]).Ok? ==>
      forall t <- EditedTotal(tables, tx, ops, map[]).value :: ViewAt(tables', t, tx.snapshot) == ViewAt(tables, t, tx.snapshot)
  {
  }

  lemma PlanStable(tables: Tables, tx: Tx, tables': Tables, tx': Tx, ops: seq<StorageOp>)
    requires SameReads(tables, tx, tables', tx')
    ensures PlanTotal(tables', tx', ops) == PlanTotal(tables, tx, ops)
  {
    hide EditedTotal, ViewAt, SameReads, ChangesIn;
    EditedStable(tables, tx, tables', tx', ops, map[]);
    PlanViews(tables, tx, tables', tx', ops);
    if EditedTotal(tables, tx, ops, map[]).Ok? {
      ChangesSame(tables, tables', tx.snapshot, EditedTotal(tables, tx, ops, map[]).value);
    }
  }

  // ---- Everything a plan writes is locked ----

  ghost predicate Holds(held: map<Key, bool>, key: Key) {
    key in held && held[key]
  }

  /** The keys a plan must hold exclusively: rows it displaces, and business keys of the rows it
      takes away or brings. */
  ghost predicate Needs(tables: Tables, tx: Tx, ops: seq<StorageOp>, key: Key) {
    && PlanTotal(tables, tx, ops).Ok?
    && var changes := PlanTotal(tables, tx, ops).value;
    && key.table in changes && FromSnapshot(ViewAt(tables, key.table, tx.snapshot), changes[key.table])
    && Due(tx.schemas, ViewAt(tables, key.table, tx.snapshot), changes[key.table], key)
  }

  lemma TotalPlanned(tables: Tables, tx: Tx, ops: seq<StorageOp>, t: nat)
    requires PlanTotal(tables, tx, ops).Ok? && t in PlanTotal(tables, tx, ops).value
    ensures FromSnapshot(ViewAt(tables, t, tx.snapshot), PlanTotal(tables, tx, ops).value[t])
  {
    PlannedFromSnapshot(ViewAt(tables, t, tx.snapshot), EditedTotal(tables, tx, ops, map[]).value[t]);
  }

  ghost predicate PlanLocked(tables: Tables, tx: Tx) {
    forall key | Needs(tables, tx, tx.plan, key) :: Holds(tx.held, key)
  }

  /** A request has either taken or still lists every lock its plan needs. */
  ghost predicate RequestCovers(tables: Tables, tx: Tx, r: Request) {
    forall key | Needs(tables, tx, r.ops, key) :: Holds(tx.held, key) || (key in r.todo && r.todo[key])
  }

  ghost predicate PlanOk(s: System, token: Token)
    requires token in s.state.txs
  {
    && PlanLocked(s.state.durable.tables, s.state.txs[token])
    && (token in s.requests ==> RequestCovers(s.state.durable.tables, s.state.txs[token], s.requests[token]))
  }

  lemma NeedsStable(tables: Tables, tx: Tx, tables': Tables, tx': Tx, ops: seq<StorageOp>, key: Key)
    requires SameReads(tables, tx, tables', tx')
    ensures Needs(tables', tx', ops, key) == Needs(tables, tx, ops, key)
  {
    PlanStable(tables, tx, tables', tx', ops);
  }

  /** `lock_inner` asks for every lock its plan needs. */
  lemma WantedCovers(tables: Tables, tx: Tx, ops: seq<StorageOp>, changes: map<nat, Change>, key: Key)
    requires PlanAll(tables, tx, ops) == Ok(changes) && ChangesOk(changes)
    requires Needs(tables, tx, ops, key)
    ensures key in WantedLocks(tables, tx, changes) && WantedLocks(tables, tx, changes)[key]
  {
    hide WantedLocks, PlannedAll;
    EditedIsTotal(tables, tx, ops, map[]);
    PlanAllIff(tables, tx, ops);
    WantedExactly(tables, tx, changes, key);
  }

  /** A transaction keeps its locks, plan and request, and reads the same. */
  ghost predicate Carried(s: System, s': System, token: Token) {
    && Live(s.state.txs, token) && Live(s'.state.txs, token)
    && SameReads(s.state.durable.tables, s.state.txs[token], s'.state.durable.tables, s'.state.txs[token])
    && s'.state.txs[token].plan == s.state.txs[token].plan
    && (forall key | Holds(s.state.txs[token].held, key) :: Holds(s'.state.txs[token].held, key))
    && (token in s'.requests ==> token in s.requests && Advanced(s.requests[token], s'.requests[token], s'.state.txs[token].held))
  }

  /** A request goes on with the same operations; a lock leaves its list only when
      it is held. */
  ghost predicate Advanced(r: Request, r': Request, held: map<Key, bool>) {
    && r'.ops == r.ops
    && forall key | key in r.todo && r.todo[key] :: Holds(held, key) || (key in r'.todo && r'.todo[key])
  }

  ghost predicate TokenInv(s: System, token: Token) {
    !Live(s.state.txs, token) || PlanOk(s, token)
  }

  lemma CarriedKeeps(s: System, s': System, token: Token)
    requires Carried(s, s', token) && TokenInv(s, token)
    ensures TokenInv(s', token)
  {
    var tables, tables' := s.state.durable.tables, s'.state.durable.tables;
    var tx, tx' := s.state.txs[token], s'.state.txs[token];
    forall key | Needs(tables', tx', tx'.plan, key)
      ensures Holds(tx'.held, key)
    {
      NeedsStable(tables, tx, tables', tx', tx.plan, key);
    }
    if token in s'.requests {
      forall key | Needs(tables', tx', s'.requests[token].ops, key)
        ensures Holds(tx'.held, key) || (key in s'.requests[token].todo && s'.requests[token].todo[key])
      {
        NeedsStable(tables, tx, tables', tx', s.requests[token].ops, key);
      }
    }
  }

  lemma StartKeeps(s: System, token: Token, ops: seq<StorageOp>, names: seq<string>, s': System)
    requires LockStarts(s, token, ops, names, s') && TokenInv(s, token)
    ensures TokenInv(s', token)
  {
    var tables := s.state.durable.tables;
    var tx, tx' := s.state.txs[token], s'.state.txs[token];
    var changes := PlanAll(tables, tx, ops).value;
    forall key | Needs(tables, tx', tx'.plan, key)
      ensures Holds(tx'.held, key)
    {
      NeedsStable(tables, tx, tables, tx', tx.plan, key);
    }
    forall key | Needs(tables, tx', ops, key)
      ensures key in s'.requests[token].todo && s'.requests[token].todo[key]
    {
      NeedsStable(tables, tx, tables, tx', ops, key);
      WantedCovers(tables, tx, ops, changes, key);
    }
  }

  lemma DoneKeeps(s: System, token: Token, s': System)
    requires LockFinishes(s, token, s') && TokenInv(s, token)
    ensures TokenInv(s', token)
  {
    var tables := s.state.durable.tables;
    var tx, tx' := s.state.txs[token], s'.state.txs[token];
    forall key | Needs(tables, tx', tx'.plan, key)
      ensures Holds(tx'.held, key)
    {
      NeedsStable(tables, tx, tables, tx', tx'.plan, key);
    }
  }

  lemma BeginKeeps(s: System, schemas: seq<Schema>, serializable: bool, s': System, token: Token)
    requires BeginState(s.state, schemas, serializable) == Ok(s'.state) && s'.requests == s.requests
    requires token == s.state.nextTx + 1 && token !in s.requests
    ensures TokenInv(s', token)
  {
    var tx := s'.state.txs[token];
    assert EditedTotal(s'.state.durable.tables, tx, [], map[]) == Ok(map[]);
  }

  /** Requests belong to transactions that were begun. */
  ghost predicate RequestsOk(s: System) {
    forall token <- s.requests :: token <= s.state.nextTx
  }

  lemma StepCarries(s: System, a: Action, s': System, token: Token)
    requires Next(s, a, s') && ReadsSame(s.state, s'.state)
    requires Live(s.state.txs, token) && Live(s'.state.txs, token)
    requires (a.LockStart? || a.LockDone?) ==> a.token != token
    requires a.Begin? ==> token != s.state.nextTx + 1
    ensures Carried(s, s', token)
  {
    assert SnapshotSame(s.state, s'.state, s.state.txs[token].snapshot);
    if a.LockTurn? {
      TurnCarries(s, a.token, a.key, s', token);
    } else {
      OtherCarries(s, a, s', token);
    }
  }

  /** What a step does to the transaction itself. */
  ghost predicate TxCarried(s: System, s': System, token: Token) {
    && Live(s.state.txs, token) && Live(s'.state.txs, token)
    && s'.state.txs[token].schemas == s.state.txs[token].schemas
    && s'.state.txs[token].plan == s.state.txs[token].plan
    && (forall key | Holds(s.state.txs[token].held, key) :: Holds(s'.state.txs[token].held, key))
    && (token in s'.requests ==> token in s.requests && Advanced(s.requests[token], s'.requests[token], s'.state.txs[token].held))
  }

  lemma TurnCarries(s: System, turner: Token, key: Key, s': System, token: Token)
    requires LockTurns(s, turner, key, s')
    requires Live(s.state.txs, token) && Live(s'.state.txs, token)
    ensures TxCarried(s, s', token)
  {
  }

  lemma OtherCarries(s: System, a: Action, s': System, token: Token)
    requires Next(s, a, s') && !a.LockTurn?
    requires Live(s.state.txs, token) && Live(s'.state.txs, token)
    requires (a.LockStart? || a.LockDone?) ==> a.token != token
    requires a.Begin? ==> token != s.state.nextTx + 1
    ensures TxCarried(s, s', token)
  {
  }

  lemma StepKeepsPlan(s: System, a: Action, s': System, token: Token)
    requires Next(s, a, s') && ReadsSame(s.state, s'.state) && TokensOk(s.state) && RequestsOk(s)
    requires TokenInv(s, token)
    ensures TokenInv(s', token)
  {
    if Live(s'.state.txs, token) {
      if a.LockStart? && a.token == token {
        StartKeeps(s, token, a.ops, a.names, s');
      } else if a.LockDone? && a.token == token {
        DoneKeeps(s, token, s');
      } else if a.Begin? && token == s.state.nextTx + 1 {
        BeginKeeps(s, a.schemas, a.serializable, s', token);
      } else {
        StaysLive(s, a, s', token);
        StepCarries(s, a, s', token);
        CarriedKeeps(s, s', token);
      }
    }
  }

  lemma RequestsStep(s: System, a: Action, s': System)
    requires Next(s, a, s') && RequestsOk(s) && TokensOk(s.state)
    ensures RequestsOk(s')
  {
  }

  /** In every reachable state, every row that the stored plan of a live transaction removes or
      changes, and every business key of the rows it takes away or brings, is held exclusively
      by it. */
  lemma {:induction false} PlanKeysLocked(r: Run, i: nat, token: Token)
    requires i < |r.run|
    ensures TokenInv(r.run[i], token) && RequestsOk(r.run[i])
  {
    hide TokenInv, RequestsOk, Next, IsRun;
    if i == 0 {
      PlanStart(r, token);
    } else {
      PlanKeysLocked(r, i - 1, token);
      PlanRunStep(r, i, token);
    }
  }

  lemma PlanStart(r: Run, token: Token)
    ensures |r.run| > 0 && TokenInv(r.run[0], token) && RequestsOk(r.run[0])
  {
  }

  lemma PlanRunStep(r: Run, i: nat, token: Token)
    requires 0 < i < |r.run|
    requires TokenInv(r.run[i - 1], token) && RequestsOk(r.run[i - 1])
    ensures TokenInv(r.run[i], token) && RequestsOk(r.run[i])
  {
    RunStep(r, i - 1);
    LockSafety(r, i - 1);
    assert StepAt(r, i - 1);
    StepKeepsPlan(r.run[i - 1], r.actions[i - 1], r.run[i], token);
    RequestsStep(r.run[i - 1], r.actions[i - 1], r.run[i]);
  }

  /** No two live transactions with stored plans need the same key: they displace no common row
      and write no common business key. */
  lemma NoSharedKey(r: Run, i: nat, a: Token, b: Token, key: Key)
    requires i < |r.run| && a != b && Live(r.run[i].state.txs, a) && Live(r.run[i].state.txs, b)
    ensures var s := r.run[i].state;
      !(Needs(s.durable.tables, s.txs[a], s.txs[a].plan, key) && Needs(s.durable.tables, s.txs[b], s.txs[b].plan, key))
  {
    hide Needs, Acyclic;
    PlanKeysLocked(r, i, a);
    PlanKeysLocked(r, i, b);
    LockSafety(r, i);
    assert Compatible(r.run[i].state.txs, a, b);
  }

  /** The stored plan of a transaction takes the row away or brings it. */
  ghost predicate PlanWrites(d: Durable, tx: Tx, t: nat, row: Row) {
    && PlanTotal(d.tables, tx, tx.plan).Ok? && t in PlanTotal(d.tables, tx, tx.plan).value
    && FromSnapshot(ViewAt(d.tables, t, tx.snapshot), PlanTotal(d.tables, tx, tx.plan).value[t])
    && Writes(ViewAt(d.tables, t, tx.snapshot), PlanTotal(d.tables, tx, tx.plan).value[t], row)
  }

  /** Two live transactions never both plan to write rows with the same `id`, or the same value
      in a unique or primary column. */
  lemma NoSharedBusinessKey(r: Run, i: nat, a: Token, b: Token, t: nat, column: string, rowA: Row, rowB: Row)
    requires i < |r.run| && a != b && Live(r.run[i].state.txs, a) && Live(r.run[i].state.txs, b)
    requires PlanWrites(r.run[i].state.durable, r.run[i].state.txs[a], t, rowA) && KeyColumn(r.run[i].state.txs[a].schemas, t, column)
    requires PlanWrites(r.run[i].state.durable, r.run[i].state.txs[b], t, rowB) && KeyColumn(r.run[i].state.txs[b].schemas, t, column)
    ensures UniqueKey(rowA, column).None? || UniqueKey(rowA, column) != UniqueKey(rowB, column)
  {
    hide PlanTotal, Writes, KeyColumn, UniqueKey, Live;
    if UniqueKey(rowA, column).Some? && UniqueKey(rowA, column) == UniqueKey(rowB, column) {
      NoSharedKey(r, i, a, b, UniqueLock(t, column, UniqueKey(rowA, column).value));
    }
  }

  // ---- First committer wins ----

  /** Every row id a plan touches was visible in the snapshot. */
  lemma TouchedVisible(tables: Tables, tx: Tx, key: Key)
    requires Needs(tables, tx, tx.plan, key) && key.RowLock?
    ensures key.row in ViewAt(tables, key.table, tx.snapshot)
  {
    TouchedIs(ViewAt(tables, key.table, tx.snapshot), PlanTotal(tables, tx, tx.plan).value[key.table], key.row);
  }

  /** The row stands in the current version with the value it had in the snapshot. */
  ghost predicate Unchanged(d: Durable, snapshot: nat, t: nat, id: nat) {
    && id in ViewAt(d.tables, t, snapshot)
    && id in ViewAt(d.tables, t, d.csn)
    && ViewAt(d.tables, t, d.csn)[id].row == ViewAt(d.tables, t, snapshot)[id].row
  }

  lemma StampsMeanUnchanged(c: Chain, csn: nat, floor: nat, snapshot: nat)
    requires ChainOk(c, csn, floor) && StampAt(c, snapshot) == LatestStamp(c) && Newest(c, snapshot).Some?
    ensures Newest(c, csn).Some? && Newest(c, csn).value.row == Newest(c, snapshot).value.row
  {
    var i := NewestFound(c, snapshot);
    NewestNow(c, csn, floor);
    SameStampSameRow(c, csn, floor, i, |c| - 1);
  }

  lemma ValidKeyUnchanged(d: Durable, floor: nat, tx: Tx, key: Key)
    requires DurableOk(d, floor) && key.RowLock? && KeyValid(d, tx, key)
    requires key.row in ViewAt(d.tables, key.table, tx.snapshot)
    ensures Unchanged(d, tx.snapshot, key.table, key.row)
  {
    assert RowOk(d.tables[key.table], key.row, d.csn, floor, d.nextRow);
    StampsMeanUnchanged(d.tables[key.table].rows[key.row], d.csn, floor, tx.snapshot);
  }

  /** First committer wins: when a live transaction passes validation, every row its
      plan removes or changes is held exclusively and still has, in the current version,
      the value the transaction saw. */
  lemma FirstCommitterWins(r: Run, i: nat, token: Token, key: Key)
    requires i < |r.run| && Live(r.run[i].state.txs, token)
    requires Validated(r.run[i].state.durable, r.run[i].state.txs[token], false)
    requires Needs(r.run[i].state.durable.tables, r.run[i].state.txs[token], r.run[i].state.txs[token].plan, key) && key.RowLock?
    ensures Unchanged(r.run[i].state.durable, r.run[i].state.txs[token].snapshot, key.table, key.row)
    ensures Holds(r.run[i].state.txs[token].held, key)
  {
    var s := r.run[i].state;
    PlanKeysLocked(r, i, token);
    RunInv(r, i);
    TouchedVisible(s.durable.tables, s.txs[token], key);
    assert Holds(s.txs[token].held, key);
    ValidKeyUnchanged(s.durable, Oldest(s.txs, s.durable.csn), s.txs[token], key);
  }

  // ---- Serializable commits ----

  function ContentsAt(tables: Tables, t: nat, csn: nat): map<nat, Row> {
    Contents(ViewAt(tables, t, csn))
  }

  /** An open chain that began by `s` shows something at `s`. */
  lemma {:induction false} CoversFrom(c: Chain, csn: nat, floor: nat, s: nat, n: nat) returns (i: nat)
    requires ChainOk(c, csn, floor) && Open(c) && n < |c| && c[0].begin <= s
    requires n == |c| - 1 || s < c[n + 1].begin
    ensures i < |c| && Sees(c[i], s)
  {
    if c[n].begin <= s {
      i := n;
      assert n < |c| - 1 ==> Continues(c[n], c[n + 1]);
    } else {
      i := CoversFrom(c, csn, floor, s, n - 1);
    }
  }

  /** The `changed` stamp is sound for one row: a snapshot at or after it sees the
      current value. */
  lemma StampSound(c: Chain, csn: nat, floor: nat, changed: nat, s: nat)
    requires ChainOk(c, csn, floor) && StampOk(c, changed) && changed <= s && floor <= s
    ensures Newest(c, s).Some? <==> Newest(c, csn).Some?
    ensures Newest(c, s).Some? ==> Newest(c, s).value.row == Newest(c, csn).value.row
  {
    NewestNow(c, csn, floor);
    if Open(c) {
      OpenShows(c, csn, floor, s);
    } else {
      forall j | 0 <= j < |c|
        ensures !Sees(c[j], s)
      {
        assert VersionOk(c[j], csn) && VersionOk(c[|c| - 1], csn);
        assert j < |c| - 1 ==> Precedes(c[j], c[|c| - 1]);
      }
      NewestNone(c, s);
    }
  }

  lemma OpenShows(c: Chain, csn: nat, floor: nat, s: nat)
    requires ChainOk(c, csn, floor) && Open(c) && c[|c| - 1].valueBegin <= s && floor <= s
    ensures Newest(c, s).Some? && Newest(c, s).value.row == c[|c| - 1].row
  {
    ValueStamp(c, csn, floor, 0, |c| - 1);
    assert VersionOk(c[0], csn);
    var i := CoversFrom(c, csn, floor, s, |c| - 1);
    forall j | i < j < |c|
      ensures !Sees(c[j], s)
    {
      assert Precedes(c[i], c[j]);
    }
    NewestIs(c, s, i);
    ValueStamp(c, csn, floor, i, |c| - 1);
  }

  lemma ChangedSound(h: History, csn: nat, floor: nat, nextRow: nat, s: nat)
    requires TableOk(h, csn, floor, nextRow) && h.changed <= s && floor <= s
    ensures Contents(View(h.rows, s)) == Contents(View(h.rows, csn))
  {
    forall id <- h.rows
      ensures Newest(h.rows[id], s).Some? <==> Newest(h.rows[id], csn).Some?
      ensures Newest(h.rows[id], s).Some? ==> Newest(h.rows[id], s).value.row == Newest(h.rows[id], csn).value.row
    {
      assert RowOk(h, id, csn, floor, nextRow);
      StampSound(h.rows[id], csn, floor, h.changed, s);
    }
  }

  /** A validated serializable writer would read, at the commit point, exactly the
      contents it read in its snapshot. */
  lemma ReadsAreCurrent(r: Run, i: nat, token: Token, t: nat)
    requires i < |r.run| && Live(r.run[i].state.txs, token)
    requires Validated(r.run[i].state.durable, r.run[i].state.txs[token], true)
    requires r.run[i].state.txs[token].serializable && t in r.run[i].state.txs[token].readSet
    ensures ContentsAt(r.run[i].state.durable.tables, t, r.run[i].state.txs[token].snapshot) ==
            ContentsAt(r.run[i].state.durable.tables, t, r.run[i].state.durable.csn)
  {
    var s := r.run[i].state;
    RunInv(r, i);
    assert s.txs[token].snapshot in LiveSnapshots(s.txs);
    ChangedSound(s.durable.tables[t], s.durable.csn, Oldest(s.txs, s.durable.csn), s.durable.nextRow, s.txs[token].snapshot);
  }
}
