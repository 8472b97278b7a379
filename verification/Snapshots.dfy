/** Snapshot stability over whole runs of the transaction engine (mvcc.rs). */
module Snapshots {
  import opened Basics
  import opened Rows
  import opened Versions
  import opened Publish
  import opened Catalog
  import opened Plans
  import opened Transactions

  /** The stored versions are well formed above the oldest live snapshot. */
  ghost predicate SnapshotInv(s: State) {
    && DurableOk(s.durable, Oldest(s.txs, s.durable.csn))
    && (forall token <- s.txs :: token <= s.nextTx && s.txs[token].snapshot <= s.durable.csn)
  }

  lemma ChainFloor(c: Chain, csn: nat, floor: nat, higher: nat)
    requires ChainOk(c, csn, floor) && floor <= higher
    ensures ChainOk(c, csn, higher)
  {
  }

  lemma TableFloor(h: History, csn: nat, floor: nat, nextRow: nat, higher: nat)
    requires TableOk(h, csn, floor, nextRow) && floor <= higher
    ensures TableOk(h, csn, higher, nextRow)
  {
    forall id <- h.rows
      ensures RowOk(h, id, csn, higher, nextRow)
    {
      assert RowOk(h, id, csn, floor, nextRow);
      ChainFloor(h.rows[id], csn, floor, higher);
    }
  }

  lemma DurableFloor(d: Durable, floor: nat, higher: nat)
    requires DurableOk(d, floor) && floor <= higher
    ensures DurableOk(d, higher)
  {
    forall t <- d.tables
      ensures TableOk(d.tables[t], d.csn, higher, d.nextRow)
    {
      TableFloor(d.tables[t], d.csn, floor, d.nextRow, higher);
    }
  }

  /** The prune bound never moves back: no live snapshot appears below it. */
  lemma OldestNeverDecreases(txs: Txs, csn: nat, txs': Txs, csn': nat)
    requires csn <= csn' && (forall n <- LiveSnapshots(txs) :: n <= csn)
    requires forall n <- LiveSnapshots(txs') :: n in LiveSnapshots(txs) || csn <= n
    ensures Oldest(txs, csn) <= Oldest(txs', csn')
  {
  }

  lemma LiveAtMostCsn(s: State)
    requires SnapshotInv(s)
    ensures forall n <- LiveSnapshots(s.txs) :: n <= s.durable.csn
    ensures Oldest(s.txs, s.durable.csn) <= s.durable.csn
  {
  }

  /** `txs'` has the transactions of `txs` with the same snapshots, some of them
      possibly aborted. */
  ghost predicate SameSnapshots(txs: Txs, txs': Txs) {
    && txs'.Keys <= txs.Keys
    && forall token <- txs' :: txs'[token].snapshot == txs[token].snapshot &&
                               (txs'[token].aborted.None? ==> txs[token].aborted.None?)
  }

  lemma SameSnapshotsLive(txs: Txs, txs': Txs)
    requires SameSnapshots(txs, txs')
    ensures LiveSnapshots(txs') <= LiveSnapshots(txs)
  {
  }

  lemma TxsStepInv(s: State, txs': Txs)
    requires SnapshotInv(s) && SameSnapshots(s.txs, txs')
    ensures SnapshotInv(s.(txs := txs'))
  {
    SameSnapshotsLive(s.txs, txs');
    LiveAtMostCsn(s);
    OldestNeverDecreases(s.txs, s.durable.csn, txs', s.durable.csn);
    DurableFloor(s.durable, Oldest(s.txs, s.durable.csn), Oldest(txs', s.durable.csn));
  }

  /** What a live transaction reads is the same in both states. */
  ghost predicate ReadsSame(s: State, s': State) {
    forall token | Live(s.txs, token) && Live(s'.txs, token) ::
      && s'.txs[token].snapshot == s.txs[token].snapshot
      && SnapshotSame(s, s', s.txs[token].snapshot)
  }

  ghost predicate SnapshotSame(s: State, s': State, snapshot: nat) {
    forall t: nat :: ViewAt(s'.durable.tables, t, snapshot) == ViewAt(s.durable.tables, t, snapshot)
  }

  lemma BeginStep(s: State, schemas: seq<Schema>, serializable: bool, s': State)
    requires SnapshotInv(s) && BeginState(s, schemas, serializable) == Ok(s')
    ensures SnapshotInv(s') && ReadsSame(s, s')
  {
    LiveAtMostCsn(s);
    assert s.nextTx + 1 !in s.txs;
    assert LiveSnapshots(s'.txs) <= LiveSnapshots(s.txs) + {s.durable.csn};
    OldestNeverDecreases(s.txs, s.durable.csn, s'.txs, s.durable.csn);
    DurableFloor(s.durable, Oldest(s.txs, s.durable.csn), Oldest(s'.txs, s.durable.csn));
  }

  /** A publish keeps the invariant at any csn it accepts. */
  lemma PublishInv(s: State, csn: nat, schemas: seq<Schema>, list: Listing, next: Durable)
    requires SnapshotInv(s) && Proper(s.durable, csn, schemas, list)
    requires PublishDurable(s.durable, csn, schemas, list, Oldest(s.txs, csn)) == Ok(next)
    ensures SnapshotInv(s.(durable := next))
  {
    var floor, oldest := Oldest(s.txs, s.durable.csn), Oldest(s.txs, csn);
    LiveAtMostCsn(s);
    OldestNeverDecreases(s.txs, s.durable.csn, s.txs, csn);
    PublishCorrect(s.durable, floor, csn, schemas, list, oldest, next);
  }

  lemma PublishStep(s: State, csn: nat, schemas: seq<Schema>, list: Listing, next: Durable)
    requires SnapshotInv(s) && (forall n <- LiveSnapshots(s.txs) :: n < csn)
    requires Proper(s.durable, csn, schemas, list)
    requires PublishDurable(s.durable, csn, schemas, list, Oldest(s.txs, csn)) == Ok(next)
    ensures SnapshotInv(s.(durable := next)) && ReadsSame(s, s.(durable := next))
  {
    var floor, oldest := Oldest(s.txs, s.durable.csn), Oldest(s.txs, csn);
    LiveAtMostCsn(s);
    PublishCorrect(s.durable, floor, csn, schemas, list, oldest, next);
    OldestNeverDecreases(s.txs, s.durable.csn, s.txs, csn);
    PublishReads(s, csn, schemas, list, next);
  }

  lemma PublishReads(s: State, csn: nat, schemas: seq<Schema>, list: Listing, next: Durable)
    requires forall n <- LiveSnapshots(s.txs) :: n < csn
    requires forall t: nat :: PublishOutcome(s.durable, csn, schemas, list, Oldest(s.txs, csn), next, t)
    ensures ReadsSame(s, s.(durable := next))
  {
    forall token | Live(s.txs, token)
      ensures SnapshotSame(s, s.(durable := next), s.txs[token].snapshot)
    {
      assert s.txs[token].snapshot in LiveSnapshots(s.txs);
      PublishKeepsSnapshot(s, csn, schemas, list, Oldest(s.txs, csn), next, s.txs[token].snapshot);
    }
  }

  lemma PublishKeepsSnapshot(s: State, csn: nat, schemas: seq<Schema>, list: Listing, oldest: nat, next: Durable, snapshot: nat)
    requires oldest <= snapshot < csn
    requires forall t: nat :: PublishOutcome(s.durable, csn, schemas, list, oldest, next, t)
    ensures SnapshotSame(s, s.(durable := next), snapshot)
  {
    forall t: nat
      ensures ViewAt(next.tables, t, snapshot) == ViewAt(s.durable.tables, t, snapshot)
    {
      assert PublishOutcome(s.durable, csn, schemas, list, oldest, next, t);
    }
  }

  lemma PruneStep(s: State, next: Durable)
    requires SnapshotInv(s) && next == PruneDurable(s.durable, Oldest(s.txs, s.durable.csn))
    ensures SnapshotInv(s.(durable := next)) && ReadsSame(s, s.(durable := next))
  {
    var oldest := Oldest(s.txs, s.durable.csn);
    PruneDurableCorrect(s.durable, oldest, oldest);
    forall token | Live(s.txs, token)
      ensures SnapshotSame(s, s.(durable := next), s.txs[token].snapshot)
    {
      assert s.txs[token].snapshot in LiveSnapshots(s.txs);
    }
  }

  // ---- What pruning forgets ----

  /** The least snapshot of a live transaction, or the csn if there is none. */
  ghost predicate IsOldest(txs: Txs, csn: nat, bound: nat) {
    && (forall token | Live(txs, token) :: bound <= txs[token].snapshot)
    && (bound == csn || exists token :: Live(txs, token) && txs[token].snapshot == bound)
    && ((exists token :: Live(txs, token)) ==> exists token :: Live(txs, token) && txs[token].snapshot == bound)
  }

  lemma OldestIs(txs: Txs, csn: nat, bound: nat)
    ensures IsOldest(txs, csn, bound) <==> bound == Oldest(txs, csn)
  {
    var oldest, live := Oldest(txs, csn), LiveSnapshots(txs);
    assert forall token | Live(txs, token) :: txs[token].snapshot in live;
    if live != {} {
      var token :| token in txs && txs[token].aborted.None? && txs[token].snapshot == oldest;
      assert Live(txs, token);
    }
  }

  /** Ended for every snapshot from the bound on. */
  predicate Over(v: Version, bound: nat) {
    v.end.Some? && v.end.value <= bound
  }

  /** Exactly the versions that are over are gone, and they came first. */
  ghost predicate Forgets(c: Chain, c': Chain, bound: nat) {
    exists k | 0 <= k <= |c| :: ForgetsUpTo(c, c', bound, k)
  }

  ghost predicate ForgetsUpTo(c: Chain, c': Chain, bound: nat, k: nat)
    requires k <= |c|
  {
    && c' == c[k..]
    && (forall i | 0 <= i < k :: Over(c[i], bound))
    && (forall i | k <= i < |c| :: !Over(c[i], bound))
  }

  ghost predicate SomeLeft(c: Chain, bound: nat) {
    exists i | 0 <= i < |c| :: !Over(c[i], bound)
  }

  /** A table keeps its head, and of its rows exactly those with a version that is not over. */
  ghost predicate TableForgets(h: History, h': History, bound: nat) {
    && h' == h.(rows := h'.rows)
    && (forall id :: id in h'.rows <==> id in h.rows && SomeLeft(h.rows[id], bound))
    && (forall id <- h'.rows :: Forgets(h.rows[id], h'.rows[id], bound))
  }

  /** A table goes exactly if it is retired and none of its rows is left. */
  ghost predicate TablesForget(tables: Tables, tables': Tables, bound: nat) {
    && (forall t :: t in tables' <==> t in tables && (tables[t].live || exists id <- tables[t].rows :: SomeLeft(tables[t].rows[id], bound)))
    && (forall t <- tables' :: TableForgets(tables[t], tables'[t], bound))
  }

  lemma ChainForgets(c: Chain, csn: nat, floor: nat, bound: nat)
    requires ChainOk(c, csn, floor)
    ensures Forgets(c, PruneChain(c, bound), bound) && (PruneChain(c, bound) != [] <==> SomeLeft(c, bound))
  {
    var k := PruneSuffix(c, bound, csn);
    assert ForgetsUpTo(c, PruneChain(c, bound), bound, k);
    assert k < |c| ==> !Over(c[k], bound);
  }

  /** Pruning forgets exactly what is over by the bound. */
  lemma PruneForgets(d: Durable, floor: nat, bound: nat)
    requires DurableOk(d, floor)
    ensures TablesForget(d.tables, PruneDurable(d, bound).tables, bound)
  {
    hide SomeLeft, TableForgets, TableOk, PruneRows;
    forall t <- d.tables
      ensures TableForgets(d.tables[t], PruneTable(d.tables[t], bound), bound)
      ensures PruneRows(d.tables[t].rows, bound) != map[] <==> exists id <- d.tables[t].rows :: SomeLeft(d.tables[t].rows[id], bound)
    {
      PruneTableForgets(d.tables[t], d.csn, floor, d.nextRow, bound);
    }
  }

  lemma PruneTableForgets(h: History, csn: nat, floor: nat, nextRow: nat, bound: nat)
    requires TableOk(h, csn, floor, nextRow)
    ensures TableForgets(h, PruneTable(h, bound), bound)
    ensures PruneRows(h.rows, bound) != map[] <==> exists id <- h.rows :: SomeLeft(h.rows[id], bound)
  {
    hide SomeLeft, Forgets, ChainOk, PruneChain;
    forall id <- h.rows
      ensures Forgets(h.rows[id], PruneChain(h.rows[id], bound), bound)
      ensures PruneChain(h.rows[id], bound) != [] <==> SomeLeft(h.rows[id], bound)
    {
      assert RowOk(h, id, csn, floor, nextRow);
      ChainForgets(h.rows[id], csn, floor, bound);
    }
    if id :| id in h.rows && SomeLeft(h.rows[id], bound) {
      assert id in PruneRows(h.rows, bound);
    }
  }

  lemma FinishStep(s: State, token: Token, s': State)
    requires SnapshotInv(s) && s' == FinishState(s, token)
    ensures SnapshotInv(s') && ReadsSame(s, s')
  {
    var mid := s.(txs := RemoveTx(s.txs, token));
    TxsStepInv(s, mid.txs);
    PruneStep(mid, s'.durable);
    assert s' == mid.(durable := s'.durable);
    forall t | Live(s.txs, t) && Live(s'.txs, t)
      ensures s'.txs[t].snapshot == s.txs[t].snapshot && SnapshotSame(s, s', s.txs[t].snapshot)
    {
      assert Live(mid.txs, t) && SnapshotSame(mid, s', mid.txs[t].snapshot);
    }
  }

  lemma TurnTxs(s: System, token: Token, key: Key, s': System)
    requires LockTurns(s, token, key, s')
    ensures s'.state == s.state.(txs := s'.state.txs) && SameSnapshots(s.state.txs, s'.state.txs)
  {
    hide Validated, Reaches, Blockers;
  }

  /** Steps of the lock protocol leave the stored versions and the snapshots alone. */
  lemma LockStepTxs(s: System, a: Action, s': System)
    requires Next(s, a, s') && (a.LockStart? || a.LockTurn? || a.LockDone? || a.LockFail? || a.Abort?)
    ensures s'.state == s.state.(txs := s'.state.txs) && SameSnapshots(s.state.txs, s'.state.txs)
  {
    hide LockTurns, Validated, PlanAll, WantedLocks, ReadTables, ChangesOk;
    if a.LockTurn? {
      TurnTxs(s, a.token, a.key, s');
    }
  }

  /** Every step keeps the invariant and what every live transaction reads. */
  lemma StepKeepsSnapshots(s: System, a: Action, s': System)
    requires SnapshotInv(s.state) && Next(s, a, s')
    ensures SnapshotInv(s'.state) && ReadsSame(s.state, s'.state)
  {
    if a.Begin? {
      BeginStep(s.state, a.schemas, a.serializable, s'.state);
    } else if a.PublishAt? {
      PublishStep(s.state, a.csn, a.schemas, a.list, s'.state.durable);
      assert s'.state == s.state.(durable := s'.state.durable);
    } else if a.Finish? {
      FinishStep(s.state, a.token, s'.state);
    } else if a.BeginFail? {
      assert s'.state == s.state.(nextTx := s.state.nextTx + 1);
    } else {
      LockStepTxs(s, a, s');
      TxsStepInv(s.state, s'.state.txs);
    }
  }

  lemma {:induction false} RunInv(r: Run, i: nat)
    requires i < |r.run|
    ensures SnapshotInv(r.run[i].state)
  {
    if i > 0 {
      RunInv(r, i - 1);
      assert StepAt(r, i - 1);
      StepKeepsSnapshots(r.run[i - 1], r.actions[i - 1], r.run[i]);
    }
  }

  lemma RunStep(r: Run, i: nat)
    requires i < |r.actions|
    ensures ReadsSame(r.run[i].state, r.run[i + 1].state)
  {
    RunInv(r, i);
    assert StepAt(r, i);
    StepKeepsSnapshots(r.run[i], r.actions[i], r.run[i + 1]);
  }

  /** What a live transaction reads in one state, it reads in the other. */
  ghost predicate StillReads(s: State, s': State, token: Token) {
    && Live(s.txs, token) && Live(s'.txs, token)
    && s'.txs[token].snapshot == s.txs[token].snapshot
    && forall t: nat :: ViewAt(s'.durable.tables, t, s.txs[token].snapshot) == ViewAt(s.durable.tables, t, s.txs[token].snapshot)
  }

  /** Snapshot stability: under every interleaving of begins, publishes, lock turns,
      aborts, finishes and prunes, what a transaction reads of every table stays the
      same, row for row, for as long as it is live. */
  lemma {:induction false} SnapshotStable(r: Run, i: nat, j: nat, token: Token)
    requires i <= j < |r.run|
    requires forall k | i <= k <= j :: Live(r.run[k].state.txs, token)
    ensures StillReads(r.run[i].state, r.run[j].state, token)
    decreases j
  {
    assert Live(r.run[j].state.txs, token);
    if i < j {
      SnapshotStable(r, i, j - 1, token);
      RunStep(r, j - 1);
      StillReadsStep(r.run[i].state, r.run[j - 1].state, r.run[j].state, token);
    }
  }

  lemma StillReadsStep(s: State, mid: State, s': State, token: Token)
    requires StillReads(s, mid, token) && ReadsSame(mid, s') && Live(s'.txs, token)
    ensures StillReads(s, s', token)
  {
    assert SnapshotSame(mid, s', mid.txs[token].snapshot);
  }
}
