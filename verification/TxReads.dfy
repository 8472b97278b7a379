/** What a transaction reads (mvcc.rs `begin`, `read`): everything published before its begin,
    and nothing published after it. */
module TxReads {
  import opened Basics
  import opened Rows
  import opened Versions
  import opened Publish
  import opened Catalog
  import opened Plans
  import opened Transactions
  import opened Snapshots
  import opened Locks
  import opened TxSteps

  /** Steps other than a publish leave the current rows of every table alone. */
  lemma QuietView(s: System, a: Action, s': System, t: nat)
    requires SnapshotInv(s.state) && Next(s, a, s') && !a.PublishAt?
    ensures s'.state.durable.csn == s.state.durable.csn
    ensures ViewAt(s'.state.durable.tables, t, s.state.durable.csn) == ViewAt(s.state.durable.tables, t, s.state.durable.csn)
  {
    hide View, PruneDurable, DurableOk, Oldest, Validated, PlanAll, WantedLocks, Reaches, ReadTables;
    if a.Finish? {
      FinishView(s.state, a.token, t);
    }
  }

  lemma FinishView(s: State, token: Token, t: nat)
    requires SnapshotInv(s)
    ensures FinishState(s, token).durable.csn == s.durable.csn
    ensures ViewAt(FinishState(s, token).durable.tables, t, s.durable.csn) == ViewAt(s.durable.tables, t, s.durable.csn)
  {
    hide View, DurableOk, Oldest;
    var txs := RemoveTx(s.txs, token);
    TxsStepInv(s, txs);
    LiveAtMostCsn(s.(txs := txs));
    PruneDurableCorrect(s.durable, Oldest(txs, s.durable.csn), Oldest(txs, s.durable.csn));
  }

  lemma PublishedView(s: System, a: Action, s': System, t: nat)
    requires SnapshotInv(s.state) && a.PublishAt? && Next(s, a, s')
    ensures s'.state.durable.csn == a.csn
    ensures t in ObjectIds(a.list) ==> RowsAt(s'.state.durable.tables, t, a.csn) == Wanted(a.list, t).1
    ensures t !in ObjectIds(a.list) && t in SchemaIds(a.schemas) ==>
      ViewAt(s'.state.durable.tables, t, a.csn) == ViewAt(s.state.durable.tables, t, s.state.durable.csn)
  {
    hide View, Ordered;
    LiveAtMostCsn(s.state);
    PublishCorrect(s.state.durable, Oldest(s.state.txs, s.state.durable.csn), a.csn, a.schemas, a.list, Oldest(s.state.txs, a.csn), s'.state.durable);
    assert PublishOutcome(s.state.durable, a.csn, a.schemas, a.list, Oldest(s.state.txs, a.csn), s'.state.durable, t);
  }

  /** The current rows of a table are those of the last publish that listed it, as long as it
      stays in the catalogue. */
  lemma {:induction false} CurrentIsPublished(r: Run, j: nat, i: nat, t: nat)
    requires |r.run| == |r.actions| + 1 && j < i < |r.run| && r.actions[j].PublishAt? && t in ObjectIds(r.actions[j].list)
    requires forall m | j < m < i && r.actions[m].PublishAt? :: t in SchemaIds(r.actions[m].schemas) && t !in ObjectIds(r.actions[m].list)
    ensures RowsAt(r.run[i].state.durable.tables, t, r.run[i].state.durable.csn) == Wanted(r.actions[j].list, t).1
    decreases i
  {
    hide IsRun, Next, ViewAt, SnapshotInv;
    RunInv(r, i - 1);
    NumbersRise(r, i - 1);
    if i == j + 1 {
      PublishedView(r.run[j], r.actions[j], r.run[i], t);
    } else {
      CurrentIsPublished(r, j, i - 1, t);
      if r.actions[i - 1].PublishAt? {
        PublishedView(r.run[i - 1], r.actions[i - 1], r.run[i], t);
      } else {
        QuietView(r.run[i - 1], r.actions[i - 1], r.run[i], t);
      }
    }
  }

  /** A begin takes the current csn as its snapshot. */
  lemma BeginsAtCurrent(r: Run, i: nat, t: nat)
    requires |r.run| == |r.actions| + 1 && i < |r.actions| && r.actions[i].Begin?
    ensures var s, s', token := r.run[i].state, r.run[i + 1].state, r.run[i].state.nextTx + 1;
      && Live(s'.txs, token) && token !in s.txs && s'.txs[token].snapshot == s.durable.csn
      && ViewAt(s'.durable.tables, t, s'.txs[token].snapshot) == ViewAt(s.durable.tables, t, s.durable.csn)
  {
    hide IsRun, ViewAt;
    NumbersRise(r, i);
  }

  /** For as long as it is live, a transaction reads of every table exactly the rows that were
      current when it began. */
  lemma ReadsFromBegin(r: Run, i: nat, k: nat, t: nat)
    requires |r.run| == |r.actions| + 1 && i < k < |r.run| && r.actions[i].Begin?
    requires Live(r.run[k].state.txs, r.run[i].state.nextTx + 1)
    ensures var s, s' := r.run[i].state, r.run[k].state;
      RowsAt(s'.durable.tables, t, s'.txs[s.nextTx + 1].snapshot) == RowsAt(s.durable.tables, t, s.durable.csn)
  {
    hide IsRun, ViewAt;
    var token := r.run[i].state.nextTx + 1;
    BeginsAtCurrent(r, i, t);
    forall m | i + 1 <= m <= k
      ensures Live(r.run[m].state.txs, token)
    {
      LiveBetween(r, i + 1, m, k, token);
    }
    SnapshotStable(r, i + 1, k, token);
  }

  /** A transaction reads everything published before its begin: of every table the rows of the
      last publish that listed it, whatever is published later. */
  lemma BeginReadsPublished(r: Run, j: nat, i: nat, k: nat, t: nat)
    requires |r.run| == |r.actions| + 1 && j < i < k < |r.run|
    requires r.actions[j].PublishAt? && t in ObjectIds(r.actions[j].list) && r.actions[i].Begin?
    requires forall m | j < m < i && r.actions[m].PublishAt? :: t in SchemaIds(r.actions[m].schemas) && t !in ObjectIds(r.actions[m].list)
    requires Live(r.run[k].state.txs, r.run[i].state.nextTx + 1)
    ensures var s := r.run[k].state;
      RowsAt(s.durable.tables, t, s.txs[r.run[i].state.nextTx + 1].snapshot) == Wanted(r.actions[j].list, t).1
  {
    hide IsRun, RowsAt;
    CurrentIsPublished(r, j, i, t);
    ReadsFromBegin(r, i, k, t);
  }
}
