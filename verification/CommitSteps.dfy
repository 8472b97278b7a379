/** The commit of a transaction (mvcc.rs `commit_ops`, runtime.rs): the plan is merged into the
    current rows and published. No update committed meanwhile is lost. */
module CommitSteps {
  import opened Basics
  import opened Rows
  import opened Versions
  import opened Publish
  import opened Catalog
  import opened Plans
  import opened Merging
  import opened Transactions
  import opened Snapshots
  import opened Locks
  import opened LockLists
  import opened Commits

  /** The merged operations of one table. */
  function TableOps(d: Durable, tx: Tx, t: nat, c: Change): seq<StorageOp>
    requires |c.ids| == |c.rows| && t in d.tables
  {
    MergedOps(d.tables[t].schema.table, ViewAt(d.tables, t, tx.snapshot), Ordered(ViewAt(d.tables, t, d.csn)), c)
  }

  /** Its rows after them. */
  function NetRows(d: Durable, tx: Tx, t: nat, c: Change): seq<Row>
    requires |c.ids| == |c.rows| && t in d.tables
  {
    ApplyOps(RowsAt(d.tables, t, d.csn), TableOps(d, tx, t, c))
  }

  /** The listing that the commit of `tx` publishes: the tables with operations, with the rows
      these leave. */
  ghost predicate CommitListing(d: Durable, tx: Tx, changes: map<nat, Change>, list: Listing) {
    && (forall t <- changes :: t in d.tables && |changes[t].ids| == |changes[t].rows|)
    && (forall t <- ObjectIds(list) :: t in changes && Wanted(list, t).1 == NetRows(d, tx, t, changes[t]))
    && (forall t <- changes :: t in ObjectIds(list) || TableOps(d, tx, t, changes[t]) == [])
  }

  /** Step `i` publishes the commit of a transaction that passed validation. */
  ghost predicate CommitsAt(r: Run, i: nat, token: Token)
    requires i + 1 < |r.run| && i < |r.actions|
  {
    && r.actions[i].PublishAt?
    && var s := r.run[i].state;
    && Live(s.txs, token) && s.txs[token].plan != []
    && Validated(s.durable, s.txs[token], true)
    && PlanAll(s.durable.tables, s.txs[token], s.txs[token].plan).Ok?
    && CommitListing(s.durable, s.txs[token], PlanAll(s.durable.tables, s.txs[token], s.txs[token].plan).value, r.actions[i].list)
  }

  function ChangesAt(s: State, token: Token): (changes: map<nat, Change>)
    requires token in s.txs && PlanAll(s.durable.tables, s.txs[token], s.txs[token].plan).Ok?
    ensures forall t <- changes :: |changes[t].ids| == |changes[t].rows|
  {
    PlanAll(s.durable.tables, s.txs[token], s.txs[token].plan).value
  }

  /** What the commit leaves of one table: the rows it does not touch, in order, then the rows
      it changed or added. */
  lemma CommitRows(d: Durable, tx: Tx, changes: map<nat, Change>, list: Listing, schemas: seq<Schema>, csn: nat, oldest: nat, next: Durable, t: nat)
    requires CommitListing(d, tx, changes, list) && t in changes && t in SchemaIds(schemas)
    requires PublishOutcome(d, csn, schemas, list, oldest, next, t)
    ensures RowsAt(next.tables, t, csn) ==
            Survivors(Ordered(ViewAt(d.tables, t, d.csn)), Touched(ViewAt(d.tables, t, tx.snapshot), changes[t])) +
            Appended(ViewAt(d.tables, t, tx.snapshot), changes[t].ids, changes[t].rows)
  {
    MergeCorrect(d.tables[t].schema.table, ViewAt(d.tables, t, tx.snapshot), Ordered(ViewAt(d.tables, t, d.csn)), changes[t]);
  }

  /** The publish of a run step, table by table. */
  lemma StepOutcome(r: Run, i: nat, t: nat)
    requires i < |r.actions| && r.actions[i].PublishAt?
    ensures |r.run| == |r.actions| + 1
    ensures var d, d', a := r.run[i].state.durable, r.run[i + 1].state.durable, r.actions[i];
      PublishOutcome(d, a.csn, a.schemas, a.list, Oldest(r.run[i].state.txs, a.csn), d', t) && d'.csn == a.csn
  {
    RunInv(r, i);
    assert StepAt(r, i);
    var s, a := r.run[i].state, r.actions[i];
    LiveAtMostCsn(s);
    PublishBound(s, a.csn);
    PublishCorrect(s.durable, Oldest(s.txs, s.durable.csn), a.csn, a.schemas, a.list, Oldest(s.txs, a.csn), r.run[i + 1].state.durable);
  }

  lemma PublishBound(s: State, csn: nat)
    requires forall n <- LiveSnapshots(s.txs) :: n < csn
    ensures Oldest(s.txs, csn) <= csn
  {
  }

  /** No lost update: after the commit every row the plan does not touch is still there with
      its value and in its order, and every row it does touch was held exclusively and had the
      value the transaction saw. */
  lemma NoLostUpdate(r: Run, i: nat, token: Token, t: nat)
    requires i + 1 < |r.run| && i < |r.actions| && CommitsAt(r, i, token)
    requires t in ChangesAt(r.run[i].state, token) && t in SchemaIds(r.actions[i].schemas)
    ensures var s, s' := r.run[i].state, r.run[i + 1].state;
      var tx, c := s.txs[token], ChangesAt(s, token)[t];
      var base, gone := ViewAt(s.durable.tables, t, tx.snapshot), Touched(ViewAt(s.durable.tables, t, tx.snapshot), c);
      && RowsAt(s'.durable.tables, t, s'.durable.csn) ==
         Survivors(Ordered(ViewAt(s.durable.tables, t, s.durable.csn)), gone) + Appended(base, c.ids, c.rows)
      && forall id <- gone :: Unchanged(s.durable, tx.snapshot, t, id) && Holds(tx.held, RowLock(t, id))
  {
    hide PlanAll, RowsAt, Unchanged, Validated, CommitListing;
    var s, a := r.run[i].state, r.actions[i];
    var tx := s.txs[token];
    StepOutcome(r, i, t);
    CommitRows(s.durable, tx, ChangesAt(s, token), a.list, a.schemas, a.csn, Oldest(s.txs, a.csn), r.run[i + 1].state.durable, t);
    forall id | id in Touched(ViewAt(s.durable.tables, t, tx.snapshot), ChangesAt(s, token)[t])
      ensures Unchanged(s.durable, tx.snapshot, t, id) && Holds(tx.held, RowLock(t, id))
    {
      PlanNeeds(s.durable.tables, tx, t, id);
      ValidatedLess(s.durable, tx);
      FirstCommitterWins(r, i, token, RowLock(t, id));
    }
  }

  lemma ValidatedLess(d: Durable, tx: Tx)
    requires Validated(d, tx, true)
    ensures Validated(d, tx, false)
  {
  }

  lemma PlanNeeds(tables: Tables, tx: Tx, t: nat, id: nat)
    requires PlanAll(tables, tx, tx.plan).Ok? && t in PlanAll(tables, tx, tx.plan).value
    requires id in Touched(ViewAt(tables, t, tx.snapshot), PlanAll(tables, tx, tx.plan).value[t])
    ensures Needs(tables, tx, tx.plan, RowLock(t, id))
  {
    hide PlanAll, PlanTotal, Touched, Displaced, ViewAt;
    PlanIsTotal(tables, tx, tx.plan);
    TotalPlanned(tables, tx, tx.plan, t);
    TouchedIs(ViewAt(tables, t, tx.snapshot), PlanTotal(tables, tx, tx.plan).value[t], id);
  }

  lemma PlanIsTotal(tables: Tables, tx: Tx, ops: seq<StorageOp>)
    requires PlanAll(tables, tx, ops).Ok?
    ensures PlanTotal(tables, tx, ops) == PlanAll(tables, tx, ops)
  {
    EditedIsTotal(tables, tx, ops, map[]);
  }

  /** Tables outside the plan are untouched. */
  lemma OthersKept(r: Run, i: nat, token: Token, t: nat)
    requires i + 1 < |r.run| && i < |r.actions| && CommitsAt(r, i, token)
    requires t !in ChangesAt(r.run[i].state, token) && t in SchemaIds(r.actions[i].schemas)
    ensures var s, s' := r.run[i].state, r.run[i + 1].state;
      ViewAt(s'.durable.tables, t, s'.durable.csn) == ViewAt(s.durable.tables, t, s.durable.csn)
  {
    StepOutcome(r, i, t);
  }
}
