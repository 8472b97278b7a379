/** Serializable transactions (mvcc.rs): a run of commits ends with the rows of executing the
    transactions one by one, in commit order. A program sees the rows of its declared reads,
    as bags, and answers with operations; planning and merging them from its snapshot does
    to every table what the operations do to the current rows. */
module Serializable {
  import opened Basics
  import opened Rows
  import opened Versions
  import opened Publish
  import opened Catalog
  import opened Plans
  import opened Merging
  import opened Transactions
  import opened Snapshots
  import opened TxReads
  import opened Commits
  import opened CommitSteps

  // ---- Operations on bags of rows ----

  type Bag = multiset<Row>
  type Db = map<nat, Bag>

  predicate Hit(row: Row, keys: set<i64>) {
    IntOf(row, ID).Some? && IntOf(row, ID).value in keys
  }

  /** The rows that a deletion by ids takes. */
  function Hits(m: Bag, keys: set<i64>): set<Row> {
    set row | row in m && Hit(row, keys)
  }

  function EditBag(m: Bag, op: StorageOp): Bag {
    match op
    case Replace(_, incoming) => multiset(incoming)
    case Upsert(_, incoming) => m + multiset(incoming)
    case Delete(_, ids) => m - multiset(Hits(m, set k | k in ids))
  }

  function BagOps(m: Bag, ops: seq<StorageOp>): Bag
    decreases |ops|
  {
    if ops == [] then m else BagOps(EditBag(m, ops[0]), ops[1..])
  }

  /** Each of the ids belongs to at most one row. */
  ghost predicate Clear(m: Bag, keys: set<i64>) {
    forall a, b | a in m && b in m && Hit(a, keys) && Hit(b, keys) && IntOf(a, ID) == IntOf(b, ID) :: a == b && m[a] == 1
  }

  /** Every deletion names ids that belong to at most one row. */
  ghost predicate ClearOps(m: Bag, ops: seq<StorageOp>)
    decreases |ops|
  {
    ops == [] || ((ops[0].Delete? ==> Clear(m, set k | k in ops[0].ids)) && ClearOps(EditBag(m, ops[0]), ops[1..]))
  }

  /** A clear deletion takes the same rows from every order of them. */
  lemma {:induction false} DropIsDelete(rows: seq<Row>, keys: set<i64>)
    requires Clear(multiset(rows), keys)
    ensures multiset(DropKeys(rows, keys)) == multiset(rows) - multiset(Hits(multiset(rows), keys))
    decreases |rows|
  {
    if rows == [] {
      assert Hits(multiset(rows), keys) == {};
    } else {
      hide Hits, Clear;
      var row, tail := rows[0], rows[1..];
      HeadBag(rows);
      DropHead(rows, keys);
      if Hit(row, keys) {
        var k := IntOf(row, ID).value;
        HitHead(row, multiset(tail), keys);
        DropIsDelete(tail, keys - {k});
        BagDrop(row, multiset(tail), Hits(multiset(tail), keys - {k}));
      } else {
        ClearTail(row, multiset(tail), keys);
        DropIsDelete(tail, keys);
        HitsSkip(row, multiset(tail), keys);
        BagKeep(row, multiset(tail), Hits(multiset(tail), keys));
      }
    }
  }

  lemma HeadBag(rows: seq<Row>)
    requires rows != []
    ensures multiset(rows) == multiset{rows[0]} + multiset(rows[1..])
  {
    Halves(rows, 1);
    assert rows[..1] == [rows[0]];
  }

  lemma DropHead(rows: seq<Row>, keys: set<i64>)
    requires rows != []
    ensures multiset(DropKeys(rows, keys)) ==
      if Hit(rows[0], keys) then multiset(DropKeys(rows[1..], keys - {IntOf(rows[0], ID).value}))
      else multiset{rows[0]} + multiset(DropKeys(rows[1..], keys))
  {
  }

  lemma BagDrop(row: Row, tail: Bag, hits: set<Row>)
    requires row !in tail && row !in hits
    ensures (multiset{row} + tail) - multiset(hits + {row}) == tail - multiset(hits)
  {
  }

  lemma BagKeep(row: Row, tail: Bag, hits: set<Row>)
    requires row !in hits
    ensures (multiset{row} + tail) - multiset(hits) == multiset{row} + (tail - multiset(hits))
  {
  }

  lemma HitsSkip(row: Row, tail: Bag, keys: set<i64>)
    requires !Hit(row, keys)
    ensures Hits(multiset{row} + tail, keys) == Hits(tail, keys) && row !in Hits(tail, keys)
  {
  }

  lemma HitHead(row: Row, tail: Bag, keys: set<i64>)
    requires Clear(multiset{row} + tail, keys) && Hit(row, keys)
    ensures row !in tail && Clear(tail, keys - {IntOf(row, ID).value})
    ensures forall r <- tail :: Hit(r, keys) <==> Hit(r, keys - {IntOf(row, ID).value})
    ensures var rest := Hits(tail, keys - {IntOf(row, ID).value});
      row !in rest && Hits(multiset{row} + tail, keys) == rest + {row}
  {
    var all := multiset{row} + tail;
    assert row in all && all[row] == 1;
    forall r <- tail
      ensures Hit(r, keys) <==> Hit(r, keys - {IntOf(row, ID).value})
    {
      assert r in all;
    }
  }

  lemma ClearTail(row: Row, tail: Bag, keys: set<i64>)
    requires Clear(multiset{row} + tail, keys)
    ensures Clear(tail, keys)
  {
    var all := multiset{row} + tail;
    forall a, b | a in tail && b in tail && Hit(a, keys) && Hit(b, keys) && IntOf(a, ID) == IntOf(b, ID)
      ensures a == b && tail[a] == 1
    {
      assert a in all && b in all;
    }
  }

  /** Operations on rows are operations on bags of rows. */
  lemma {:induction false} OpsOnBags(rows: seq<Row>, ops: seq<StorageOp>)
    requires ClearOps(multiset(rows), ops)
    ensures multiset(ApplyOps(rows, ops)) == BagOps(multiset(rows), ops)
    decreases |ops|
  {
    if ops != [] {
      if ops[0].Delete? {
        DropIsDelete(rows, set k | k in ops[0].ids);
      }
      assert multiset(Edit(rows, ops[0])) == EditBag(multiset(rows), ops[0]);
      OpsOnBags(Edit(rows, ops[0]), ops[1..]);
    }
  }

  // ---- The operations of one table ----

  /** The operations whose table name means table `t`. */
  function OpsOn(schemas: seq<Schema>, ops: seq<StorageOp>, t: nat): seq<StorageOp> {
    if ops == [] then []
    else
      var schema := SchemaNamed(schemas, ops[0].table);
      (if schema.Some? && schema.value.objectId == t then [ops[0]] else []) + OpsOn(schemas, ops[1..], t)
  }

  /** The rows a plan starts from. */
  function Start(tables: Tables, tx: Tx, edited: map<nat, seq<Row>>, t: nat): seq<Row> {
    if t in edited then edited[t] else RowsAt(tables, t, tx.snapshot)
  }

  lemma {:induction false} EditedRows(tables: Tables, tx: Tx, ops: seq<StorageOp>, edited: map<nat, seq<Row>>, t: nat)
    requires Edited(tables, tx, ops, edited).Ok?
    ensures var r := Edited(tables, tx, ops, edited).value;
      && (t in r <==> t in edited || OpsOn(tx.schemas, ops, t) != [])
      && (t in r ==> r[t] == ApplyOps(Start(tables, tx, edited, t), OpsOn(tx.schemas, ops, t)))
    decreases |ops|
  {
    if ops != [] {
      var u := SchemaNamed(tx.schemas, ops[0].table).value.objectId;
      var next := edited[u := Edit(Start(tables, tx, edited, u), ops[0])];
      EditedRows(tables, tx, ops[1..], next, t);
      if u == t {
        var rest := OpsOn(tx.schemas, ops[1..], t);
        assert ([ops[0]] + rest)[1..] == rest;
      } else {
        assert OpsOn(tx.schemas, ops, t) == OpsOn(tx.schemas, ops[1..], t);
      }
    }
  }

  predicate UpsertsOnly(ops: seq<StorageOp>) {
    forall i | 0 <= i < |ops| :: ops[i].Upsert?
  }

  function Incoming(ops: seq<StorageOp>): seq<Row>
    requires UpsertsOnly(ops)
  {
    if ops == [] then [] else ops[0].rows + Incoming(ops[1..])
  }

  lemma {:induction false} UpsertsAppend(rows: seq<Row>, ops: seq<StorageOp>)
    requires UpsertsOnly(ops)
    ensures ApplyOps(rows, ops) == rows + Incoming(ops)
    decreases |ops|
  {
    if ops == [] {
      assert rows + [] == rows;
    } else {
      UpsertsAppend(rows + ops[0].rows, ops[1..]);
      Assoc(rows, ops[0].rows, Incoming(ops[1..]));
    }
  }

  lemma {:induction false} UpsertsAdd(m: Bag, ops: seq<StorageOp>)
    requires UpsertsOnly(ops)
    ensures BagOps(m, ops) == m + multiset(Incoming(ops))
    decreases |ops|
  {
    if ops != [] {
      UpsertsAdd(m + multiset(ops[0].rows), ops[1..]);
    }
  }

  // ---- One table at a commit ----

  /** The rows that merging the plan publishes for a table. */
  function Merged(d: Durable, tx: Tx, t: nat, wanted: seq<Row>): seq<Row> {
    var base := ViewAt(d.tables, t, tx.snapshot);
    var c := ChangeOf(Ordered(base), wanted);
    Survivors(Ordered(ViewAt(d.tables, t, d.csn)), Touched(base, c)) + Appended(base, c.ids, c.rows)
  }

  function BagAt(d: Durable, t: nat, csn: nat): Bag {
    multiset(RowsAt(d.tables, t, csn))
  }

  /** A table that is only appended to: whatever was committed meanwhile, the new rows are added
      to the current ones. */
  lemma AppendsMerge(d: Durable, tx: Tx, t: nat, ops: seq<StorageOp>)
    requires UpsertsOnly(ops)
    ensures multiset(Merged(d, tx, t, ApplyOps(RowsAt(d.tables, t, tx.snapshot), ops))) == BagOps(BagAt(d, t, d.csn), ops)
  {
    hide Ordered, ChangeOf, Survivors;
    var base, current := ViewAt(d.tables, t, tx.snapshot), ViewAt(d.tables, t, d.csn);
    UpsertsAppend(RowsOf(Ordered(base)), ops);
    AppendTouchesNothing(base, Incoming(ops));
    NothingGone(Ordered(current));
    UpsertsAdd(BagAt(d, t, d.csn), ops);
  }

  /** A declared read: the contents are those of the snapshot, so the wanted rows are what the
      operations make of the current rows. */
  lemma ReadsMerge(d: Durable, tx: Tx, t: nat, ops: seq<StorageOp>)
    requires ContentsAt(d.tables, t, tx.snapshot) == ContentsAt(d.tables, t, d.csn)
    requires ClearOps(BagAt(d, t, d.csn), ops)
    ensures multiset(Merged(d, tx, t, ApplyOps(RowsAt(d.tables, t, tx.snapshot), ops))) == BagOps(BagAt(d, t, d.csn), ops)
  {
    hide Ordered, ChangeOf, Survivors, ClearOps;
    var base, current := ViewAt(d.tables, t, tx.snapshot), ViewAt(d.tables, t, d.csn);
    SameContentsSameRows(base, current);
    OpsOnBags(RowsOf(Ordered(base)), ops);
    MergedIsWanted(base, current, ApplyOps(RowsOf(Ordered(base)), ops));
    ChangePartition(base, ApplyOps(RowsOf(Ordered(base)), ops));
  }

  // ---- One commit ----

  /** From the rows of the declared reads to operations. */
  type Program = Db -> seq<StorageOp>

  /** A serializable transaction: its catalogue, its declared reads, and what it does. */
  datatype Job = Job(token: Token, schemas: seq<Schema>, readSet: set<nat>, program: Program)

  function DbAt(d: Durable, u: set<nat>, csn: nat): Db {
    map t | t in u :: BagAt(d, t, csn)
  }

  function Restrict(db: Db, tables: set<nat>): Db {
    map t | t in db && t in tables :: db[t]
  }

  /** The transaction ran its program on its snapshot, declared what it read, and every table it
      deletes from or replaces is among its declared reads. */
  ghost predicate RanAt(s: State, j: Job)
  {
    && Live(s.txs, j.token)
    && var tx := s.txs[j.token];
    && tx.serializable && tx.schemas == j.schemas && tx.readSet == j.readSet
    && tx.plan == j.program(DbAt(s.durable, j.readSet, tx.snapshot))
    && forall t: nat :: UpsertsOnly(OpsOn(j.schemas, tx.plan, t)) || t in j.readSet
  }

  /** Step `i` commits the job; `u` are the tables of interest. */
  ghost predicate JobAt(r: Run, i: nat, u: set<nat>, j: Job)
    requires i + 1 < |r.run| && i < |r.actions|
  {
    && CommitsAt(r, i, j.token) && RanAt(r.run[i].state, j)
    && u <= SchemaIds(r.actions[i].schemas) && j.readSet <= u
    && forall t <- u :: ClearOps(BagAt(r.run[i].state.durable, t, r.run[i].state.durable.csn),
                                 OpsOn(j.schemas, r.run[i].state.txs[j.token].plan, t))
  }

  /** One transaction executed alone: the program on the current rows of its reads, its
      operations on the current rows. */
  function Execute(db: Db, j: Job): Db {
    var ops := j.program(Restrict(db, j.readSet));
    map t | t in db :: BagOps(db[t], OpsOn(j.schemas, ops, t))
  }

  /** At the commit point the program would answer the same. */
  lemma SameAnswer(r: Run, i: nat, u: set<nat>, j: Job)
    requires i + 1 < |r.run| && i < |r.actions| && JobAt(r, i, u, j)
    ensures var s := r.run[i].state;
      s.txs[j.token].plan == j.program(Restrict(DbAt(s.durable, u, s.durable.csn), j.readSet))
  {
    var s := r.run[i].state;
    var tx := s.txs[j.token];
    forall t <- j.readSet
      ensures BagAt(s.durable, t, tx.snapshot) == BagAt(s.durable, t, s.durable.csn)
    {
      ReadsAreCurrent(r, i, j.token, t);
      SameContentsSameRows(ViewAt(s.durable.tables, t, tx.snapshot), ViewAt(s.durable.tables, t, s.durable.csn));
    }
    assert DbAt(s.durable, j.readSet, tx.snapshot) == Restrict(DbAt(s.durable, u, s.durable.csn), j.readSet);
  }

  /** The commit does to each table what the operations do to its current rows. */
  lemma TableCommits(r: Run, i: nat, u: set<nat>, j: Job, t: nat)
    requires i + 1 < |r.run| && i < |r.actions| && JobAt(r, i, u, j) && t in u
    ensures var s, s' := r.run[i].state, r.run[i + 1].state;
      BagAt(s'.durable, t, s'.durable.csn) == BagOps(BagAt(s.durable, t, s.durable.csn), OpsOn(j.schemas, s.txs[j.token].plan, t))
  {
    var s := r.run[i].state;
    var tx := s.txs[j.token];
    var ops := OpsOn(j.schemas, tx.plan, t);
    EditedRows(s.durable.tables, tx, tx.plan, map[], t);
    if t in ChangesAt(s, j.token) {
      NoLostUpdate(r, i, j.token, t);
      PlannedChange(s, j.token, t);
      if t in j.readSet {
        ReadsAreCurrent(r, i, j.token, t);
        ReadsMerge(s.durable, tx, t, ops);
      } else {
        AppendsMerge(s.durable, tx, t, ops);
      }
    } else {
      OthersKept(r, i, j.token, t);
    }
  }

  lemma PlannedChange(s: State, token: Token, t: nat)
    requires token in s.txs && PlanAll(s.durable.tables, s.txs[token], s.txs[token].plan).Ok? && t in ChangesAt(s, token)
    ensures var tx := s.txs[token];
      ChangesAt(s, token)[t] == ChangeOf(Ordered(ViewAt(s.durable.tables, t, tx.snapshot)),
                                         ApplyOps(RowsAt(s.durable.tables, t, tx.snapshot), OpsOn(tx.schemas, tx.plan, t)))
  {
    EditedRows(s.durable.tables, s.txs[token], s.txs[token].plan, map[], t);
  }

  /** A commit takes effect as if the transaction ran alone at its commit point. */
  lemma CommitIsExecution(r: Run, i: nat, u: set<nat>, j: Job)
    requires i + 1 < |r.run| && i < |r.actions| && JobAt(r, i, u, j)
    ensures var d, d' := r.run[i].state.durable, r.run[i + 1].state.durable;
      DbAt(d', u, d'.csn) == Execute(DbAt(d, u, d.csn), j)
  {
    SameAnswer(r, i, u, j);
    forall t <- u
      ensures var s, s' := r.run[i].state, r.run[i + 1].state;
        BagAt(s'.durable, t, s'.durable.csn) == BagOps(BagAt(s.durable, t, s.durable.csn), OpsOn(j.schemas, s.txs[j.token].plan, t))
    {
      TableCommits(r, i, u, j, t);
    }
  }

  // ---- Whole runs ----

  /** A publish that is no transaction of interest: plain writes, by what they list. */
  function Overwrite(db: Db, schemas: seq<Schema>, list: Listing): Db {
    map t | t in db :: if t in ObjectIds(list) then multiset(Wanted(list, t).1)
                       else if t in SchemaIds(schemas) then db[t]
                       else multiset{}
  }

  lemma PublishOverwrites(r: Run, i: nat, u: set<nat>)
    requires i < |r.actions| && r.actions[i].PublishAt?
    ensures |r.run| == |r.actions| + 1
    ensures var d, d', a := r.run[i].state.durable, r.run[i + 1].state.durable, r.actions[i];
      DbAt(d', u, d'.csn) == Overwrite(DbAt(d, u, d.csn), a.schemas, a.list)
  {
    hide PublishOutcome, BagAt, IsRun;
    RunLength(r);
    var d, d', a := r.run[i].state.durable, r.run[i + 1].state.durable, r.actions[i];
    forall t <- u
      ensures BagAt(d', t, d'.csn) == ListedBag(d, a.schemas, a.list, t)
    {
      StepOutcome(r, i, t);
      BagOutcome(d, a.csn, a.schemas, a.list, Oldest(r.run[i].state.txs, a.csn), d', t);
    }
  }

  function ListedBag(d: Durable, schemas: seq<Schema>, list: Listing, t: nat): Bag {
    if t in ObjectIds(list) then multiset(Wanted(list, t).1)
    else if t in SchemaIds(schemas) then BagAt(d, t, d.csn)
    else multiset{}
  }

  lemma BagOutcome(d: Durable, csn: nat, schemas: seq<Schema>, list: Listing, oldest: nat, d': Durable, t: nat)
    requires PublishOutcome(d, csn, schemas, list, oldest, d', t)
    ensures BagAt(d', t, csn) == ListedBag(d, schemas, list, t)
  {
    hide Ordered;
    NoRows();
  }

  lemma NoRows()
    ensures RowsOf(Ordered(map[])) == []
  {
  }

  /** Steps other than a publish change no current rows. */
  lemma QuietStep(s: System, a: Action, s': System, u: set<nat>)
    requires SnapshotInv(s.state) && Next(s, a, s') && !a.PublishAt?
    ensures s'.state.durable.csn == s.state.durable.csn
    ensures DbAt(s'.state.durable, u, s.state.durable.csn) == DbAt(s.state.durable, u, s.state.durable.csn)
  {
    hide Next, SnapshotInv, ViewAt, Ordered;
    QuietView(s, a, s', 0);
    forall t <- u
      ensures BagAt(s'.state.durable, t, s.state.durable.csn) == BagAt(s.state.durable, t, s.state.durable.csn)
    {
      QuietView(s, a, s', t);
    }
  }

  function Current(s: System, u: set<nat>): Db {
    DbAt(s.state.durable, u, s.state.durable.csn)
  }

  /** The rows after one step of a serial execution. */
  function SerialStep(r: Run, jobs: map<nat, Job>, db: Db, i: nat): Db
    requires i < |r.actions|
  {
    if !r.actions[i].PublishAt? then db
    else if i in jobs then Execute(db, jobs[i])
    else Overwrite(db, r.actions[i].schemas, r.actions[i].list)
  }

  /** One transaction after the other, in the order of the commits. */
  function Serial(r: Run, jobs: map<nat, Job>, db: Db, n: nat): Db
    requires n <= |r.actions|
  {
    if n == 0 then db else SerialStep(r, jobs, Serial(r, jobs, db, n - 1), n - 1)
  }

  ghost predicate AllJobs(r: Run, u: set<nat>, jobs: map<nat, Job>) {
    forall i <- jobs :: i < |r.actions| && i + 1 < |r.run| && JobAt(r, i, u, jobs[i])
  }

  lemma StepIsSerial(r: Run, u: set<nat>, jobs: map<nat, Job>, i: nat)
    requires i < |r.actions| && AllJobs(r, u, jobs)
    ensures |r.run| == |r.actions| + 1
    ensures Current(r.run[i + 1], u) == SerialStep(r, jobs, Current(r.run[i], u), i)
  {
    hide JobAt, Next, IsRun, Overwrite, Execute;
    RunLength(r);
    if !r.actions[i].PublishAt? {
      RunInv(r, i);
      QuietRun(r, u, i);
    } else if i in jobs {
      CommitIsExecution(r, i, u, jobs[i]);
    } else {
      PublishOverwrites(r, i, u);
    }
  }

  lemma RunLength(r: Run)
    ensures |r.run| == |r.actions| + 1
  {
  }

  lemma QuietRun(r: Run, u: set<nat>, i: nat)
    requires i < |r.actions| && !r.actions[i].PublishAt?
    ensures |r.run| == |r.actions| + 1 && Current(r.run[i + 1], u) == Current(r.run[i], u)
  {
    hide DbAt;
    RunInv(r, i);
    assert StepAt(r, i);
    QuietStep(r.run[i], r.actions[i], r.run[i + 1], u);
  }

  /** Serializability: after every run, with plain writes and other transactions among its
      commits, the rows of the tables are those of executing the committed serializable
      transactions one by one, in commit order, each on the rows of its predecessors. */
  lemma {:induction false} SerialEquivalence(r: Run, u: set<nat>, jobs: map<nat, Job>, n: nat)
    requires n <= |r.actions| && AllJobs(r, u, jobs)
    ensures n < |r.run| && Current(r.run[n], u) == Serial(r, jobs, Current(r.run[0], u), n)
    decreases n
  {
    hide Current, SerialStep, IsRun, AllJobs;
    RunLength(r);
    if n > 0 {
      SerialEquivalence(r, u, jobs, n - 1);
      StepIsSerial(r, u, jobs, n - 1);
    }
  }
}
