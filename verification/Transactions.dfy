/** The transaction engine as a state machine (mvcc.rs): snapshots, locks, waiting,
    commit checks, and the atomic steps between releases of the state mutex. */
module Transactions {
  import opened Basics
  import opened Rows
  import opened Versions
  import opened Publish
  import opened Catalog
  import opened Plans

  type Token = nat

  datatype Key =
    | TableLock(table: nat)
    | RowLock(table: nat, row: nat)
    | UniqueLock(table: nat, column: string, key: seq<byte>)

  datatype Tx = Tx(
    snapshot: nat,
    schemas: seq<Schema>,
    serializable: bool,
    readSet: set<nat>,
    held: map<Key, bool>,
    waiting: set<Token>,
    aborted: Option<string>,
    plan: seq<StorageOp>)

  type Txs = map<Token, Tx>

  datatype State = State(durable: Durable, txs: Txs, nextTx: nat)

  // ---- The oldest live snapshot ----

  predicate Live(txs: Txs, token: Token) {
    token in txs && txs[token].aborted.None?
  }

  function LiveSnapshots(txs: Txs): set<nat> {
    set token | token in txs && txs[token].aborted.None? :: txs[token].snapshot
  }

  lemma {:induction false} LeastExists(s: set<nat>) returns (m: nat)
    requires s != {}
    ensures m in s && forall x <- s :: m <= x
  {
    var x :| x in s;
    assert forall y <- s :: y == x || y in s - {x};
    var rest := s - {x};
    if rest == {} {
      m := x;
    } else {
      var n := LeastExists(rest);
      m := if x < n then x else n;
    }
  }

  function Least(s: set<nat>, otherwise: nat): (m: nat)
    ensures s == {} ==> m == otherwise
    ensures s != {} ==> m in s
    ensures forall x <- s :: m <= x
  {
    if s == {} then otherwise else
    assert exists m :: m in s && forall x <- s :: m <= x by {
      var m := LeastExists(s);
    }
    var m :| m in s && forall x <- s :: m <= x;
    m
  }

  /** The prune bound: the least snapshot of a live transaction, or the csn. */
  function Oldest(txs: Txs, csn: nat): nat {
    Least(LiveSnapshots(txs), csn)
  }

  // ---- Plans of a transaction ----

  function SchemaNamed(schemas: seq<Schema>, name: string): (r: Option<Schema>)
    ensures r.Some? ==> r.value in schemas && r.value.table == name
    ensures r.None? ==> forall s <- schemas :: s.table != name
  {
    if schemas == [] then None
    else if schemas[0].table == name then Some(schemas[0])
    else SchemaNamed(schemas[1..], name)
  }

  function SchemaOf(schemas: seq<Schema>, table: nat): (r: Option<Schema>)
    ensures r.Some? ==> r.value in schemas && r.value.objectId == table
    ensures r.None? ==> forall s <- schemas :: s.objectId != table
  {
    if schemas == [] then None
    else if schemas[0].objectId == table then Some(schemas[0])
    else SchemaOf(schemas[1..], table)
  }

  /** The final rows of every table the operations touch, starting from the
      snapshot. */
  function Edited(tables: Tables, tx: Tx, ops: seq<StorageOp>, edited: map<nat, seq<Row>>): Result<map<nat, seq<Row>>>
    decreases |ops|
  {
    if ops == [] then Ok(edited) else
    var schema := SchemaNamed(tx.schemas, ops[0].table);
    if schema.None? then Err("unknown transaction table")
    else if schema.value.objectId !in tables then Err("serialization_failure: transaction table removed")
    else
      var t := schema.value.objectId;
      var rows := if t in edited then edited[t] else RowsAt(tables, t, tx.snapshot);
      Edited(tables, tx, ops[1..], edited[t := Edit(rows, ops[0])])
  }

  /** mvcc.rs `plans`: the change of every touched table. */
  function PlanAll(tables: Tables, tx: Tx, ops: seq<StorageOp>): Result<map<nat, Change>> {
    var edited :- Edited(tables, tx, ops, map[]);
    Ok(map t | t in edited :: ChangeOf(Ordered(ViewAt(tables, t, tx.snapshot)), edited[t]))
  }

  // ---- Validation ----

  function KeyTable(key: Key): nat {
    key.table
  }

  function StampAt(c: Chain, csn: nat): Option<nat> {
    if Newest(c, csn).Some? then Some(Newest(c, csn).value.valueBegin) else None
  }

  function LatestStamp(c: Chain): Option<nat> {
    if Open(c) then Some(c[|c| - 1].valueBegin) else None
  }

  /** The recheck of one exclusively held key. */
  predicate KeyValid(d: Durable, tx: Tx, key: Key) {
    var t := KeyTable(key);
    && SchemaOf(tx.schemas, t).Some?
    && t in d.tables
    && d.tables[t].live
    && d.tables[t].schema.version == SchemaOf(tx.schemas, t).value.version
    && d.tables[t].schema.columns == SchemaOf(tx.schemas, t).value.columns
    && match key
       case RowLock(_, id) =>
         id in d.tables[t].rows && StampAt(d.tables[t].rows[id], tx.snapshot) == LatestStamp(d.tables[t].rows[id])
       case TableLock(_) => d.tables[t].changed <= tx.snapshot
       case UniqueLock(_, _, _) => true
  }

  /** mvcc.rs `validate` succeeds. */
  predicate Validated(d: Durable, tx: Tx, writes: bool) {
    && tx.aborted.None?
    && (forall key <- tx.held | tx.held[key] :: KeyValid(d, tx, key))
    && (writes && tx.serializable ==>
          forall t <- tx.readSet :: ReadValid(d, tx.snapshot, t))
  }

  /** The recheck of one declared read. */
  predicate ReadValid(d: Durable, snapshot: nat, t: nat) {
    t in d.tables && d.tables[t].live && d.tables[t].changed <= snapshot
  }

  // ---- Lock requests ----

  function LockColumns(schema: Schema): set<string> {
    {ID} + set i | 0 <= i < |schema.columns| && (schema.columns[i].unique || schema.columns[i].primaryKey) ::
             schema.columns[i].name
  }

  function UniqueLocks(table: nat, row: Row, columns: set<string>): set<Key> {
    set c | c in columns && UniqueKey(row, c).Some? :: UniqueLock(table, c, UniqueKey(row, c).value)
  }

  /** The rows whose business keys a change locks: the old values that go away and
      the values that appear. */
  function AffectedRows(base: map<nat, Seen>, c: Change): set<Row>
    requires |c.ids| == |c.rows|
  {
    (set id | id in Touched(base, c) && id in base :: base[id].row) +
    (set j | 0 <= j < |c.rows| && Altered(base, c.ids[j], c.rows[j]) :: c.rows[j])
  }

  function RowLocks(table: nat, base: map<nat, Seen>, c: Change): set<Key>
    requires |c.ids| == |c.rows|
  {
    set id | id in Touched(base, c) :: RowLock(table, id)
  }

  /** Everything a change locks: the table, its rows and its business keys. */
  function LocksOf(schemas: seq<Schema>, table: nat, base: map<nat, Seen>, c: Change): set<Key>
    requires |c.ids| == |c.rows|
  {
    var columns := if SchemaOf(schemas, table).Some? then LockColumns(SchemaOf(schemas, table).value) else {};
    {TableLock(table)} + RowLocks(table, base, c) +
    set row, k | row in AffectedRows(base, c) && k in UniqueLocks(table, row, columns) :: k
  }

  predicate ChangesOk(changes: map<nat, Change>) {
    forall t <- changes :: |changes[t].ids| == |changes[t].rows|
  }

  /** The lock list of `lock_inner`: tables are locked shared, all else exclusively. */
  function WantedLocks(tables: Tables, tx: Tx, changes: map<nat, Change>): map<Key, bool>
    requires ChangesOk(changes)
  {
    map k | k in (set t, l | t in changes && l in LocksOf(tx.schemas, t, ViewAt(tables, t, tx.snapshot), changes[t]) :: l)
      :: !k.TableLock?
  }

  /** Other live transactions whose hold conflicts with the request. */
  function Blockers(txs: Txs, token: Token, key: Key, exclusive: bool): set<Token> {
    set other | other in txs && other != token && txs[other].aborted.None? &&
                key in txs[other].held && (txs[other].held[key] || exclusive)
  }

  // ---- The waits-for graph ----

  predicate Edge(txs: Txs, a: Token, b: Token) {
    a in txs && b in txs[a].waiting
  }

  /** A walk of at least one edge. */
  predicate Walk(txs: Txs, w: seq<Token>) {
    |w| >= 2 && forall i | 0 <= i < |w| - 1 :: Edge(txs, w[i], w[i + 1])
  }

  ghost predicate Reaches(txs: Txs, a: Token, b: Token) {
    exists w :: Walk(txs, w) && w[0] == a && w[|w| - 1] == b
  }

  ghost predicate Acyclic(txs: Txs) {
    forall a :: !Reaches(txs, a, a)
  }

  // ---- Changes of the transaction table ----

  /** mvcc.rs `abort`: release every lock and every wait edge of a transaction. */
  function AbortTx(txs: Txs, token: Token, error: string): Txs {
    map t | t in txs ::
      if t == token then txs[t].(aborted := Some(error), held := map[], waiting := {})
      else txs[t].(waiting := txs[t].waiting - {token})
  }

  function RemoveTx(txs: Txs, token: Token): Txs {
    map t | t in txs && t != token :: txs[t].(waiting := txs[t].waiting - {token})
  }

  function Grant(txs: Txs, token: Token, key: Key, exclusive: bool): Txs
    requires token in txs
  {
    var tx := txs[token];
    txs[token := tx.(waiting := {}, held := tx.held[key := exclusive || (key in tx.held && tx.held[key])])]
  }

  function Wait(txs: Txs, token: Token, blockers: set<Token>): Txs
    requires token in txs
  {
    txs[token := txs[token].(waiting := blockers)]
  }

  // ---- Atomic steps ----

  /** A lock request that a thread is working on: what is left of its lock list. */
  datatype Request = Request(ops: seq<StorageOp>, todo: map<Key, bool>)

  datatype System = System(state: State, requests: map<Token, Request>)

  datatype Action =
    | Begin(schemas: seq<Schema>, serializable: bool)
    | BeginFail(schemas: seq<Schema>)
    | PublishAt(csn: nat, schemas: seq<Schema>, list: Listing)
    | LockStart(token: Token, ops: seq<StorageOp>, names: seq<string>)
    | LockTurn(token: Token, key: Key)
    | LockDone(token: Token)
    | LockFail(token: Token)
    | Abort(token: Token, error: string)
    | Finish(token: Token)

  function BeginState(s: State, schemas: seq<Schema>, serializable: bool): Result<State> {
    if s.nextTx + 1 > U64_MAX then Err("transaction id exhausted")
    else if exists i | 0 <= i < |schemas| :: schemas[i].objectId !in s.durable.tables then Err("MVCC schema is not synchronized")
    else Ok(s.(nextTx := s.nextTx + 1,
               txs := s.txs[s.nextTx + 1 := Tx(s.durable.csn, schemas, serializable, {}, map[], {}, None, [])]))
  }

  function PublishState(s: State, csn: nat, schemas: seq<Schema>, list: Listing): Result<State> {
    var next :- PublishDurable(s.durable, csn, schemas, list, Oldest(s.txs, csn));
    Ok(s.(durable := next))
  }

  function FinishState(s: State, token: Token): State {
    var txs := RemoveTx(s.txs, token);
    s.(txs := txs, durable := PruneDurable(s.durable, Oldest(txs, s.durable.csn)))
  }

  function ReadTables(schemas: seq<Schema>, names: seq<string>): Result<set<nat>> {
    if names == [] then Ok({}) else
    var rest :- ReadTables(schemas, names[1..]);
    if SchemaNamed(schemas, names[0]).None? then Err("unknown transaction read table")
    else Ok(rest + {SchemaNamed(schemas, names[0]).value.objectId})
  }

  ghost predicate LockStarts(s: System, token: Token, ops: seq<StorageOp>, names: seq<string>, s': System) {
    && Live(s.state.txs, token) && token !in s.requests
    && var tx := s.state.txs[token];
    && Validated(s.state.durable, tx, false)
    && ReadTables(tx.schemas, names).Ok?
    && PlanAll(s.state.durable.tables, tx, ops).Ok?
    && var changes := PlanAll(s.state.durable.tables, tx, ops).value;
    && ChangesOk(changes)
    && s' == System(s.state.(txs := s.state.txs[token := tx.(readSet := ReadTables(tx.schemas, names).value)]),
                    s.requests[token := Request(ops, WantedLocks(s.state.durable.tables, tx, changes))])
  }

  /** One turn of the lock loop: grant the key, or wait for its holders, or give up
      because waiting would close a cycle. */
  ghost predicate LockTurns(s: System, token: Token, key: Key, s': System) {
    && Live(s.state.txs, token) && token in s.requests && key in s.requests[token].todo
    && Validated(s.state.durable, s.state.txs[token], false)
    && var request := s.requests[token];
    && var blockers := Blockers(s.state.txs, token, key, request.todo[key]);
    if blockers == {} then
      s' == System(s.state.(txs := Grant(s.state.txs, token, key, request.todo[key])),
                   s.requests[token := request.(todo := request.todo - {key})])
    else
      var waiting := Wait(s.state.txs, token, blockers);
      if Reaches(waiting, token, token) then
        s' == System(s.state.(txs := AbortTx(waiting, token, "deadlock_detected: transaction aborted")), s.requests - {token})
      else s' == s.(state := s.state.(txs := waiting))
  }

  ghost predicate LockFinishes(s: System, token: Token, s': System) {
    && Live(s.state.txs, token) && token in s.requests && s.requests[token].todo == map[]
    && Validated(s.state.durable, s.state.txs[token], false)
    && s' == System(s.state.(txs := s.state.txs[token := s.state.txs[token].(plan := s.requests[token].ops)]),
                    s.requests - {token})
  }

  /** One atomic step. A publish has a csn above every live snapshot; a begin that does not know
      one of its tables has used up a number. */
  ghost predicate Next(s: System, a: Action, s': System) {
    match a
    case Begin(schemas, serializable) =>
      BeginState(s.state, schemas, serializable).Ok? && s' == s.(state := BeginState(s.state, schemas, serializable).value)
    case BeginFail(schemas) =>
      && s.state.nextTx + 1 <= U64_MAX && (exists i | 0 <= i < |schemas| :: schemas[i].objectId !in s.state.durable.tables)
      && s' == s.(state := s.state.(nextTx := s.state.nextTx + 1))
    case PublishAt(csn, schemas, list) =>
      && (forall n <- LiveSnapshots(s.state.txs) :: n < csn)
      && Proper(s.state.durable, csn, schemas, list)
      && PublishState(s.state, csn, schemas, list).Ok? && s' == s.(state := PublishState(s.state, csn, schemas, list).value)
    case LockStart(token, ops, names) => LockStarts(s, token, ops, names, s')
    case LockTurn(token, key) => LockTurns(s, token, key, s')
    case LockDone(token) => LockFinishes(s, token, s')
    case LockFail(token) => s' == s.(requests := s.requests - {token})
    case Abort(token, error) =>
      s' == System(s.state.(txs := AbortTx(s.state.txs, token, error)), s.requests - {token})
    case Finish(token) => s' == System(FinishState(s.state, token), s.requests - {token})
  }

  /** The states of an execution and the steps between them. */
  datatype Trace = Trace(run: seq<System>, actions: seq<Action>)

  ghost predicate StepAt(t: Trace, i: nat)
    requires |t.run| == |t.actions| + 1 && i < |t.actions|
  {
    Next(t.run[i], t.actions[i], t.run[i + 1])
  }

  /** A run from an opened, idle engine. */
  ghost predicate IsRun(t: Trace) {
    && |t.run| == |t.actions| + 1
    && DurableOk(t.run[0].state.durable, t.run[0].state.durable.csn)
    && t.run[0].state.txs == map[] && t.run[0].requests == map[]
    && forall i | 0 <= i < |t.actions| :: StepAt(t, i)
  }

  type Run = t: Trace | IsRun(t)
    ghost witness Trace([System(State(Durable(1, 0, 0, map[]), map[], 0), map[])], [])
}
