/** The engine object of mvcc.rs: its methods change the state in place and are proved
    against the step functions that the run theorems speak about. */
module MvccEngine {
  import opened Basics
  import opened Rows
  import opened Versions
  import opened Publish
  import opened PublishLoop
  import opened Catalog
  import opened Plans
  import opened Transactions
  import opened Snapshots
  import opened Locks
  import opened LockLists
  import opened TxSteps

  // ---- The loops of `publish_changed` over tables ----

  method PublishTables(tables0: Tables, nextRow0: nat, list: Listing, now: nat, csn: nat, ghost floor: nat)
    returns (r: Result<(Tables, nat)>)
    requires ListReady(tables0, nextRow0, list, now, csn, floor) && nextRow0 <= U64_MAX
    ensures r == PublishList(tables0, nextRow0, list, now, csn)
    ensures r.Ok? ==> r.value.1 <= U64_MAX
  {
    var tables, nextRow: nat := tables0, nextRow0;
    for i := 0 to |list|
      invariant PublishList(tables, nextRow, list[i..], now, csn) == PublishList(tables0, nextRow0, list, now, csn)
      invariant ListReady(tables, nextRow, list[i..], now, csn, floor) && nextRow <= U64_MAX
    {
      var next := PublishEntry(tables, nextRow, list[i..], now, csn, floor);
      if next.Err? {
        return Err("publish refused");
      }
      assert list[i..][1..] == list[i + 1..];
      tables, nextRow := next.value.0, next.value.1;
    }
    return Ok((tables, nextRow));
  }

  /** The next table of the list is in order. */
  lemma EntryReady(tables: Tables, nextRow: nat, list: Listing, now: nat, csn: nat, floor: nat)
    requires list != [] && ListReady(tables, nextRow, list, now, csn, floor)
    ensures TableOk(Entry(tables, list[0].0, csn), now, floor, nextRow) && now <= csn
    ensures list[0].0.objectId in tables ==>
      TableOk(tables[list[0].0.objectId], now, floor, nextRow) && tables[list[0].0.objectId].changed <= csn
  {
  }

  lemma WithinIds(h: History, now: nat, csn: nat, nextRow: nat, rows: seq<Row>)
    requires !Refused(h, now, csn, nextRow, rows) && nextRow <= U64_MAX
    ensures nextRow + NewRows(h, now, rows) <= U64_MAX
  {
  }

  /** One turn of the table loop. */
  method PublishEntry(tables: Tables, nextRow: nat, list: Listing, now: nat, csn: nat, ghost floor: nat)
    returns (r: Result<(Tables, nat)>)
    requires list != [] && ListReady(tables, nextRow, list, now, csn, floor) && nextRow <= U64_MAX
    ensures r == PublishOne(tables, nextRow, list[0], now, csn)
    ensures r.Ok? ==> ListReady(r.value.0, r.value.1, list[1..], now, csn, floor) && r.value.1 <= U64_MAX
  {
    hide TableOk, Refused, Published, NewRows, ListReady;
    EntryReady(tables, nextRow, list, now, csn, floor);
    var h := Entry(tables, list[0].0, csn);
    var built := PublishTable(h, now, csn, nextRow, list[0].0, list[0].1, floor);
    if built.None? {
      return Err("publish refused");
    }
    WithinIds(h, now, csn, nextRow, list[0].1);
    r := Ok((tables[list[0].0.objectId := built.value.0], built.value.1));
    PublishOneCorrect(tables, nextRow, list[0], now, csn, floor, r.value.0, r.value.1);
    ListReadyTail(tables, nextRow, list, now, csn, floor, r.value.0, r.value.1);
  }

  /** Tables that left the catalogue end their rows. */
  method DropTables(tables: Tables, current: set<nat>, csn: nat) returns (r: Tables)
    ensures r == DropMissing(tables, current, csn)
  {
    r := tables;
    var todo := tables.Keys;
    while todo != {}
      invariant todo <= tables.Keys && r.Keys == tables.Keys
      invariant forall t <- tables :: r[t] == if t in todo then tables[t] else DropMissing(tables, current, csn)[t]
      decreases todo
    {
      var t :| t in todo;
      todo := todo - {t};
      if t !in current && tables[t].live {
        var chains := EndAll(tables[t].rows, csn);
        r := r[t := tables[t].(live := false, changed := csn, rows := chains)];
      }
    }
  }

  method EndAll(rows: map<nat, Chain>, csn: nat) returns (r: map<nat, Chain>)
    ensures r == map id | id in rows :: CloseOpen(rows[id], csn)
  {
    r := rows;
    var todo := rows.Keys;
    while todo != {}
      invariant todo <= rows.Keys && r.Keys == rows.Keys
      invariant forall id <- rows :: r[id] == if id in todo then rows[id] else CloseOpen(rows[id], csn)
      decreases todo
    {
      var id :| id in todo;
      todo := todo - {id};
      var chain := rows[id];
      if |chain| > 0 && chain[|chain| - 1].end.None? {
        r := r[id := chain[|chain| - 1 := chain[|chain| - 1].(end := Some(csn))]];
      }
    }
  }

  /** Forget the versions that ended by `oldest` and the chains they leave empty. */
  method PruneTables(tables: Tables, oldest: nat) returns (r: Tables)
    ensures r == PruneAll(tables, oldest)
  {
    r := tables;
    var todo := tables.Keys;
    while todo != {}
      invariant todo <= tables.Keys && r.Keys == tables.Keys
      invariant forall t <- tables :: r[t] == if t in todo then tables[t] else PruneTable(tables[t], oldest)
      decreases todo
    {
      var t :| t in todo;
      todo := todo - {t};
      var chains := PruneChains(tables[t].rows, oldest);
      r := r[t := tables[t].(rows := chains)];
    }
  }

  method PruneChains(rows: map<nat, Chain>, oldest: nat) returns (r: map<nat, Chain>)
    ensures r == PruneRows(rows, oldest)
  {
    r := map[];
    var todo := rows.Keys;
    while todo != {}
      invariant todo <= rows.Keys
      invariant r == map id | id in PruneRows(rows, oldest) && id !in todo :: PruneRows(rows, oldest)[id]
      decreases todo
    {
      var id :| id in todo;
      var chain := RetainVersions(rows[id], oldest);
      if chain != [] {
        r := r[id := chain];
      }
      todo := todo - {id};
    }
  }

  method RetainVersions(chain: Chain, oldest: nat) returns (r: Chain)
    ensures r == PruneChain(chain, oldest)
  {
    hide PruneChain;
    r := [];
    assert chain[0..] == chain && [] + PruneChain(chain, oldest) == PruneChain(chain, oldest);
    for i := 0 to |chain|
      invariant r + PruneChain(chain[i..], oldest) == PruneChain(chain, oldest)
    {
      PruneNext(chain, i, oldest);
      Assoc(r, [chain[i]], PruneChain(chain[i + 1..], oldest));
      if chain[i].end.None? || chain[i].end.value > oldest {
        r := r + [chain[i]];
      }
    }
    PruneEnd(chain, oldest);
  }

  lemma PruneNext(chain: Chain, i: nat, oldest: nat)
    requires i < |chain|
    ensures PruneChain(chain[i..], oldest) ==
      if chain[i].end.None? || chain[i].end.value > oldest then [chain[i]] + PruneChain(chain[i + 1..], oldest) else PruneChain(chain[i + 1..], oldest)
  {
    assert chain[i..][0] == chain[i] && chain[i..][1..] == chain[i + 1..];
  }

  lemma PruneEnd(chain: Chain, oldest: nat)
    ensures PruneChain(chain[|chain|..], oldest) == []
  {
  }

  /** Tables without a selection, or the selected ones. */
  predicate Wants(selected: Option<seq<string>>, name: string) {
    selected.None? || name in selected.value
  }

  /** The rows of every selected table at a csn, if all listed ones are known. */
  method ReadAll(tables: Tables, schemas: seq<Schema>, csn: nat, selected: Option<seq<string>>) returns (r: Option<seq<seq<Row>>>)
    ensures r.None? <==> exists i | 0 <= i < |schemas| :: schemas[i].objectId !in tables
    ensures r.Some? ==> |r.value| == |schemas|
    ensures r.Some? ==> forall i | 0 <= i < |schemas| ::
              r.value[i] == if Wants(selected, schemas[i].table) then RowsAt(tables, schemas[i].objectId, csn) else []
  {
    hide RowsOf, Ordered, View, Wants;
    var rows := [];
    for i := 0 to |schemas|
      invariant |rows| == i
      invariant forall k | 0 <= k < i :: schemas[k].objectId in tables
      invariant forall k | 0 <= k < i ::
        rows[k] == if Wants(selected, schemas[k].table) then RowsAt(tables, schemas[k].objectId, csn) else []
    {
      if schemas[i].objectId !in tables {
        return None;
      }
      rows := rows + [if Wants(selected, schemas[i].table) then RowsOf(Visible(tables[schemas[i].objectId], csn)) else []];
    }
    return Some(rows);
  }

  /** All transactions are still there; the aborted one holds nothing, waits for nobody and
      carries the error, and the others are as before except that they do not wait for it. */
  ghost predicate Aborted(txs: Txs, txs': Txs, token: Token, error: string) {
    && txs'.Keys == txs.Keys
    && (token in txs ==> txs'[token] == txs[token].(aborted := Some(error), held := map[], waiting := {}))
    && forall t <- txs | t != token :: txs'[t] == txs[t].(waiting := txs[t].waiting - {token})
  }

  /** Recording waits of the transaction first makes no difference. */
  lemma AbortIs(txs: Txs, waiting: Txs, token: Token, error: string)
    requires waiting.Keys == txs.Keys && forall t <- txs :: waiting[t] == txs[t] || (t == token && waiting[t] == txs[t].(waiting := waiting[t].waiting))
    ensures Aborted(txs, AbortTx(waiting, token, error), token, error)
  {
  }

  lemma NoCycle(txs: Txs, token: Token, key: Key, exclusive: bool)
    requires Blockers(txs, token, key, exclusive) == {}
    ensures !ClosesCycle(txs, token, key, exclusive)
  {
    if ClosesCycle(txs, token, key, exclusive) {
      CycleHasBlocker(txs, token, key, exclusive);
    }
  }

  lemma PlanKnown(tables: Tables, tx: Tx, ops: seq<StorageOp>)
    requires PlanAll(tables, tx, ops).Ok?
    ensures forall t <- PlanAll(tables, tx, ops).value :: SchemaOf(tx.schemas, t).Some?
  {
    EditedKnown(tables, tx, ops, map[]);
  }

  lemma ReadsKeep(s: State, token: Token, named: set<nat>)
    requires SnapshotInv(s) && LockInv(s.txs) && token in s.txs
    ensures var txs' := s.txs[token := s.txs[token].(readSet := named)];
      SnapshotInv(s.(txs := txs')) && LockInv(txs')
  {
    hide SnapshotInv, Exclusive, Acyclic;
    var txs' := s.txs[token := s.txs[token].(readSet := named)];
    TxsStepInv(s, txs');
    HoldsLessExclusive(s.txs, txs');
    FewerEdges(s.txs, txs');
  }

  lemma PlanKeeps(s: State, token: Token, ops: seq<StorageOp>)
    requires SnapshotInv(s) && LockInv(s.txs) && token in s.txs
    ensures var txs' := s.txs[token := s.txs[token].(plan := ops)];
      SnapshotInv(s.(txs := txs')) && LockInv(txs')
  {
    hide SnapshotInv, Exclusive, Acyclic;
    var txs' := s.txs[token := s.txs[token].(plan := ops)];
    TxsStepInv(s, txs');
    HoldsLessExclusive(s.txs, txs');
    FewerEdges(s.txs, txs');
  }

  lemma FinishForgets(s: State, token: Token, s': State)
    requires SnapshotInv(s) && s' == FinishState(s, token)
    ensures forall bound | IsOldest(s'.txs, s'.durable.csn, bound) :: TablesForget(s.durable.tables, s'.durable.tables, bound)
  {
    hide IsOldest, TablesForget, DurableOk, Oldest;
    PruneForgets(s.durable, Oldest(s.txs, s.durable.csn), Oldest(s'.txs, s.durable.csn));
    forall bound | IsOldest(s'.txs, s'.durable.csn, bound)
      ensures TablesForget(s.durable.tables, s'.durable.tables, bound)
    {
      OldestIs(s'.txs, s'.durable.csn, bound);
    }
  }

  datatype Turn = Granted | Waiting | Deadlock

  /** A grant keeps snapshots and locks in order. */
  lemma GrantKeeps(s: State, token: Token, key: Key, exclusive: bool)
    requires SnapshotInv(s) && LockInv(s.txs) && Live(s.txs, token) && Blockers(s.txs, token, key, exclusive) == {}
    ensures SnapshotInv(s.(txs := Grant(s.txs, token, key, exclusive))) && LockInv(Grant(s.txs, token, key, exclusive))
  {
    hide SnapshotInv, LockInv;
    GrantLocks(s.txs, token, key, exclusive);
    TxsStepInv(s, Grant(s.txs, token, key, exclusive));
  }

  /** So does a wait that closes no cycle, and an abort when it would close one. */
  lemma WaitKeeps(s: State, token: Token, blockers: set<Token>)
    requires SnapshotInv(s) && LockInv(s.txs) && Live(s.txs, token)
    ensures var waiting := Wait(s.txs, token, blockers);
      var aborted := AbortTx(waiting, token, "deadlock_detected: transaction aborted");
      && (!Reaches(waiting, token, token) ==> SnapshotInv(s.(txs := waiting)) && LockInv(waiting))
      && SnapshotInv(s.(txs := aborted)) && LockInv(aborted)
  {
    hide SnapshotInv, LockInv, Reaches;
    var waiting := Wait(s.txs, token, blockers);
    WaitLocks(s.txs, token, blockers);
    TxsStepInv(s, waiting);
    TxsStepInv(s, AbortTx(waiting, token, "deadlock_detected: transaction aborted"));
  }

  lemma PublishReadsSame(s: State, csn: nat, schemas: seq<Schema>, list: Listing, next: Durable)
    requires SnapshotInv(s) && Proper(s.durable, csn, schemas, list)
    requires PublishDurable(s.durable, csn, schemas, list, Oldest(s.txs, csn)) == Ok(next)
    ensures SnapshotInv(s.(durable := next))
    ensures (forall n <- LiveSnapshots(s.txs) :: n < csn) ==> ReadsSame(s, s.(durable := next))
  {
    PublishInv(s, csn, schemas, list, next);
    if forall n <- LiveSnapshots(s.txs) :: n < csn {
      PublishStep(s, csn, schemas, list, next);
    }
  }

  class Mvcc {
    var state: State

    ghost predicate Valid()
      reads this
    {
      SnapshotInv(state) && LockInv(state.txs) && state.durable.nextRow <= U64_MAX
    }

    /** Open a version catalogue; no transaction survives a restart. */
    constructor (durable: Durable)
      requires DurableOk(durable, durable.csn) && durable.nextRow <= U64_MAX
      ensures Valid() && state == State(durable, map[], 0)
    {
      state := State(durable, map[], 0);
      new;
      NoTransactions(state.txs);
    }

    /** `publish_changed`: all or nothing, as the publish step says. With a csn above every live
        snapshot, what the live transactions read stays the same. */
    method PublishChanged(csn: nat, schemas: seq<Schema>, list: Listing) returns (ok: bool)
      requires Valid() && Proper(state.durable, csn, schemas, list)
      modifies this
      ensures Valid()
      ensures (forall n <- LiveSnapshots(old(state.txs)) :: n < csn) ==> ReadsSame(old(state), state)
      ensures ok ==> PublishState(old(state), csn, schemas, list) == Ok(state)
      ensures !ok ==> PublishState(old(state), csn, schemas, list).Err? && state == old(state)
    {
      if csn < state.durable.csn {
        return false;
      }
      var listed := PublishTables(state.durable.tables, state.durable.nextRow, list, state.durable.csn, csn,
                                  Oldest(state.txs, state.durable.csn));
      if listed.Err? {
        return false;
      }
      var dropped := DropTables(listed.value.0, SchemaIds(schemas), csn);
      var pruned := PruneTables(dropped, Oldest(state.txs, csn));
      var next := Durable(2, csn, listed.value.1,
                          map t | t in pruned && (t in SchemaIds(schemas) || pruned[t].rows != map[]) :: pruned[t]);
      PublishReadsSame(state, csn, schemas, list, next);
      state := state.(durable := next);
      return true;
    }

    /** `begin_selected`: pins the current csn, hands out the rows of the selected tables at it,
        and changes no other transaction. It fails exactly if the numbers are used up or a table
        is unknown; in the second case a number is gone. */
    method Begin(schemas: seq<Schema>, serializable: bool, selected: Option<seq<string>>) returns (r: Result<(Token, seq<seq<Row>>)>)
      requires Valid()
      modifies this
      ensures Valid() && state.durable == old(state.durable)
      ensures r.Err? <==> old(state.nextTx) + 1 > U64_MAX ||
                          exists i | 0 <= i < |schemas| :: schemas[i].objectId !in old(state.durable.tables)
      ensures r.Err? ==> state.txs == old(state.txs)
      ensures state.nextTx == if old(state.nextTx) + 1 > U64_MAX then old(state.nextTx) else old(state.nextTx) + 1
      ensures r.Ok? ==>
        && r.value.0 == state.nextTx && r.value.0 !in old(state.txs) && r.value.0 in state.txs
        && state.txs.Keys == old(state.txs).Keys + {r.value.0}
        && (forall t <- old(state.txs) :: state.txs[t] == old(state.txs)[t])
        && var tx := state.txs[r.value.0];
        && tx.snapshot == old(state.durable.csn) && tx.schemas == schemas && tx.serializable == serializable
        && tx.held == map[] && tx.waiting == {} && tx.readSet == {} && tx.plan == [] && tx.aborted.None?
      ensures r.Ok? ==> |r.value.1| == |schemas|
      ensures r.Ok? ==> forall i | 0 <= i < |schemas| ::
                r.value.1[i] == if Wants(selected, schemas[i].table)
                                then RowsAt(old(state.durable.tables), schemas[i].objectId, old(state.durable.csn)) else []
      ensures r.Ok? ==> BeginState(old(state), schemas, serializable) == Ok(state)
    {
      if state.nextTx + 1 > U64_MAX {
        return Err("transaction id exhausted");
      }
      hide DurableOk, Acyclic, Exclusive, RowsAt, Oldest;
      ghost var before := state;
      var token := state.nextTx + 1;
      var rows := ReadAll(state.durable.tables, schemas, state.durable.csn, selected);
      if rows.None? {
        state := state.(nextTx := token);
        return Err("MVCC schema is not synchronized");
      }
      assert token !in state.txs;
      state := state.(nextTx := token,
                      txs := state.txs[token := Tx(state.durable.csn, schemas, serializable, {}, map[], {}, None, [])]);
      BeginStep(before, schemas, serializable, state);
      BeginKeepsLocks(before, schemas, serializable, state);
      return Ok((token, rows.value));
    }

    /** `validate`: the loops over the held keys and the declared reads. */
    method Validate(token: Token, writes: bool) returns (ok: bool)
      ensures ok <==> token in state.txs && Validated(state.durable, state.txs[token], writes)
    {
      if token !in state.txs || state.txs[token].aborted.Some? {
        return false;
      }
      var tx := state.txs[token];
      var keys := tx.held.Keys;
      while keys != {}
        invariant keys <= tx.held.Keys
        invariant forall key <- tx.held | tx.held[key] && key !in keys :: KeyValid(state.durable, tx, key)
        decreases |keys|
      {
        var key :| key in keys;
        if tx.held[key] && !KeyValid(state.durable, tx, key) {
          return false;
        }
        keys := keys - {key};
      }
      if writes && tx.serializable {
        var tables := tx.readSet;
        while tables != {}
          invariant tables <= tx.readSet
          invariant forall t <- tx.readSet | t !in tables :: ReadValid(state.durable, tx.snapshot, t)
          decreases |tables|
        {
          var t :| t in tables;
          if !ReadValid(state.durable, tx.snapshot, t) {
            return false;
          }
          tables := tables - {t};
        }
      }
      return true;
    }

    /** The rows of one table as `read` returns them: those of the snapshot. */
    method Read(token: Token, name: string) returns (r: Option<seq<Row>>)
      ensures r.Some? <==>
        && token in state.txs && Validated(state.durable, state.txs[token], false)
        && SchemaNamed(state.txs[token].schemas, name).Some?
        && SchemaNamed(state.txs[token].schemas, name).value.objectId in state.durable.tables
      ensures r.Some? ==>
        r.value == RowsAt(state.durable.tables, SchemaNamed(state.txs[token].schemas, name).value.objectId, state.txs[token].snapshot)
    {
      var ok := Validate(token, false);
      if !ok {
        return None;
      }
      var tx := state.txs[token];
      var schema := SchemaNamed(tx.schemas, name);
      if schema.None? || schema.value.objectId !in state.durable.tables {
        return None;
      }
      return Some(RowsOf(Visible(state.durable.tables[schema.value.objectId], tx.snapshot)));
    }

    /** The start of `lock_inner`: records the declared reads and returns the lock list. */
    method LockStart(token: Token, ops: seq<StorageOp>, names: seq<string>) returns (r: Option<map<Key, bool>>)
      requires Valid()
      modifies this
      ensures Valid()
      ensures r.Some? <==>
        && token in old(state.txs) && Validated(old(state.durable), old(state.txs)[token], false)
        && (forall i | 0 <= i < |names| :: SchemaNamed(old(state.txs)[token].schemas, names[i]).Some?)
        && (forall op <- ops :: SchemaNamed(old(state.txs)[token].schemas, op.table).Some? &&
                                SchemaNamed(old(state.txs)[token].schemas, op.table).value.objectId in old(state.durable.tables))
      ensures r.None? ==> state == old(state)
      ensures r.Some? ==>
        && token in old(state.txs) && token in state.txs
        && state == old(state).(txs := old(state.txs)[token := old(state.txs)[token].(readSet := state.txs[token].readSet)])
        && (forall t :: t in state.txs[token].readSet <==> Declared(state.txs[token].schemas, names, t))
        && PlanAll(state.durable.tables, old(state.txs)[token], ops).Ok?
        && ChangesOk(PlanAll(state.durable.tables, old(state.txs)[token], ops).value)
        && r.value == WantedLocks(state.durable.tables, old(state.txs)[token], PlanAll(state.durable.tables, old(state.txs)[token], ops).value)
    {
      hide SnapshotInv, LockInv, Validated, PlanAll, WantedLocks, ReadTables, PlannedAll, Declared;
      var ok := Validate(token, false);
      if !ok {
        return None;
      }
      var tx := state.txs[token];
      var named := ReadTables(tx.schemas, names);
      ReadTablesAre(tx.schemas, names);
      PlanAllIff(state.durable.tables, tx, ops);
      if named.Err? {
        return None;
      }
      var changes := PlanAll(state.durable.tables, tx, ops);
      if changes.Err? {
        return None;
      }
      PlanKnown(state.durable.tables, tx, ops);
      var wanted := LockList(state.durable.tables, tx, changes.value);
      ReadsKeep(state, token, named.value);
      state := state.(txs := state.txs[token := tx.(readSet := named.value)]);
      return Some(wanted);
    }

    /** The end of `lock_inner`: stores the operations as the plan, if the transaction is still
        valid. */
    method LockDone(token: Token, ops: seq<StorageOp>) returns (ok: bool)
      requires Valid()
      modifies this
      ensures Valid()
      ensures ok <==> token in old(state.txs) && Validated(old(state.durable), old(state.txs)[token], false)
      ensures !ok ==> state == old(state)
      ensures ok ==> state == old(state).(txs := old(state.txs)[token := old(state.txs)[token].(plan := ops)])
    {
      hide SnapshotInv, LockInv, Validated;
      ok := Validate(token, false);
      if ok {
        PlanKeeps(state, token, ops);
        state := state.(txs := state.txs[token := state.txs[token].(plan := ops)]);
      }
    }

    /** One turn of the lock loop for a live, validated transaction. It is granted exactly if no
        other live transaction holds the key in conflict. Otherwise it records exactly these as
        the ones it waits for; or it is aborted, exactly if they, directly or through recorded
        waits, wait for it. */
    method LockTurn(token: Token, key: Key, exclusive: bool) returns (turn: Turn)
      requires Valid() && Live(state.txs, token)
      modifies this
      ensures Valid() && state.durable == old(state.durable) && state.nextTx == old(state.nextTx)
      ensures state.txs.Keys == old(state.txs).Keys
      ensures turn.Granted? <==> forall other :: !Conflicts(old(state.txs), token, key, exclusive, other)
      ensures turn.Deadlock? <==> ClosesCycle(old(state.txs), token, key, exclusive)
      ensures !turn.Deadlock? ==> forall t <- old(state.txs) | t != token :: state.txs[t] == old(state.txs)[t]
      ensures turn.Granted? ==>
        && state.txs[token] == old(state.txs)[token].(held := state.txs[token].held, waiting := {})
        && state.txs[token].held.Keys == old(state.txs)[token].held.Keys + {key}
        && (state.txs[token].held[key] <==> exclusive || (key in old(state.txs)[token].held && old(state.txs)[token].held[key]))
        && forall k <- old(state.txs)[token].held | k != key :: state.txs[token].held[k] == old(state.txs)[token].held[k]
      ensures turn.Waiting? ==>
        && state.txs[token] == old(state.txs)[token].(waiting := state.txs[token].waiting)
        && forall other :: other in state.txs[token].waiting <==> Conflicts(old(state.txs), token, key, exclusive, other)
      ensures turn.Deadlock? ==> Aborted(old(state.txs), state.txs, token, "deadlock_detected: transaction aborted")
    {
      hide SnapshotInv, LockInv, Reaches, ClosesCycle, Conflicts, Aborted;
      ghost var txs := state.txs;
      BlockersAre(txs, token, key, exclusive);
      WaitFindsCycle(txs, token, key, exclusive);
      var blockers := Blockers(state.txs, token, key, exclusive);
      if blockers == {} {
        NoCycle(txs, token, key, exclusive);
        GrantKeeps(state, token, key, exclusive);
        state := state.(txs := Grant(state.txs, token, key, exclusive));
        return Granted;
      }
      var waiting := Wait(state.txs, token, blockers);
      var found := DetectCycle(waiting, token);
      WaitKeeps(state, token, blockers);
      if found {
        AbortIs(txs, waiting, token, "deadlock_detected: transaction aborted");
        state := state.(txs := AbortTx(waiting, token, "deadlock_detected: transaction aborted"));
        turn := Deadlock;
      } else {
        state := state.(txs := waiting);
        turn := Waiting;
      }
    }

    /** `abort`: the transaction holds nothing, waits for nobody and carries the error; the others
        only stop waiting for it. */
    method Abort(token: Token, error: string)
      requires Valid()
      modifies this
      ensures Valid() && state.durable == old(state.durable) && state.nextTx == old(state.nextTx)
      ensures Aborted(old(state.txs), state.txs, token, error)
      ensures state.txs == AbortTx(old(state.txs), token, error)
    {
      ghost var before := state;
      AbortIs(state.txs, state.txs, token, error);
      state := state.(txs := AbortTx(state.txs, token, error));
      HoldsLessExclusive(before.txs, state.txs);
      FewerEdges(before.txs, state.txs);
      TxsStepInv(before, state.txs);
    }

    /** `finish`: the transaction is gone, the others only stop waiting for it, and exactly the
        versions are forgotten that no remaining live transaction and no later one can see. */
    method Finish(token: Token)
      requires Valid()
      modifies this
      ensures Valid() && state.nextTx == old(state.nextTx)
      ensures state.txs.Keys == old(state.txs).Keys - {token}
      ensures forall t <- state.txs :: state.txs[t] == old(state.txs)[t].(waiting := old(state.txs)[t].waiting - {token})
      ensures state.durable == old(state.durable).(tables := state.durable.tables)
      ensures forall bound | IsOldest(state.txs, state.durable.csn, bound) :: TablesForget(old(state.durable.tables), state.durable.tables, bound)
      ensures state == FinishState(old(state), token)
    {
      ghost var before := state;
      var txs := RemoveTx(state.txs, token);
      var pruned := PruneTables(state.durable.tables, Oldest(txs, state.durable.csn));
      state := state.(txs := txs, durable := state.durable.(tables :=
        map t | t in pruned && (pruned[t].live || pruned[t].rows != map[]) :: pruned[t]));
      FinishForgets(before, token, state);
      FinishStep(before, token, state);
      HoldsLessExclusive(before.txs, txs);
      FewerEdges(before.txs, txs);
    }
  }
}
