/** When the commit checks of mvcc.rs accept (`validate`): exactly when nothing that matters has
    changed since the snapshot. A row that only moved has not changed. */
module Acceptance {
  import opened Basics
  import opened Rows
  import opened Versions
  import opened Matching
  import opened Publish
  import opened Catalog
  import opened Plans
  import opened Merging
  import opened Transactions
  import opened Snapshots
  import opened Locks
  import opened LockLists
  import opened TxSteps
  import opened Commits

  // ---- Rows ----

  /** From the snapshot on the row was there all the time, with the same value. */
  ghost predicate RowKept(tables: Tables, t: nat, id: nat, snapshot: nat, csn: nat) {
    forall s: nat | snapshot <= s <= csn :: KeptAt(tables, t, id, snapshot, s)
  }

  ghost predicate KeptAt(tables: Tables, t: nat, id: nat, snapshot: nat, s: nat) {
    && id in ViewAt(tables, t, snapshot) && id in ViewAt(tables, t, s)
    && ViewAt(tables, t, s)[id].row == ViewAt(tables, t, snapshot)[id].row
  }

  /** The same, of one chain seen at the snapshot. */
  ghost predicate ChainKept(c: Chain, snapshot: nat, csn: nat) {
    forall s: nat | snapshot <= s <= csn :: ShowsSame(c, snapshot, s)
  }

  ghost predicate ShowsSame(c: Chain, snapshot: nat, s: nat) {
    Newest(c, snapshot).Some? && Newest(c, s).Some? && Newest(c, s).value.row == Newest(c, snapshot).value.row
  }

  /** Equal stamps at the ends mean an unbroken value between, and the other way round. */
  lemma {:induction false} StampsBetween(c: Chain, csn: nat, floor: nat, i: nat, j: nat)
    requires ChainOk(c, csn, floor) && i <= j < |c|
    ensures c[j].valueBegin == c[i].valueBegin <==> forall k | i <= k <= j :: c[k].row == c[i].row
    ensures c[i].valueBegin <= c[j].valueBegin
    decreases j
  {
    if i < j {
      StampsBetween(c, csn, floor, i, j - 1);
      assert Continues(c[j - 1], c[j]);
      assert VersionOk(c[j - 1], csn) && VersionOk(c[j], csn);
    }
  }

  lemma VersionSeen(c: Chain, csn: nat, floor: nat, k: nat)
    requires ChainOk(c, csn, floor) && k < |c|
    ensures Newest(c, c[k].begin) == Some(ToSeen(c[k])) && c[k].begin <= csn
  {
    assert VersionOk(c[k], csn);
    forall j | k < j < |c|
      ensures !Sees(c[j], c[k].begin)
    {
      assert Precedes(c[k], c[j]);
    }
    NewestIs(c, c[k].begin, k);
  }

  lemma LaterVersion(c: Chain, csn: nat, floor: nat, i: nat, snapshot: nat, k: nat)
    requires ChainOk(c, csn, floor) && i < k < |c| && Sees(c[i], snapshot)
    ensures snapshot <= c[k].begin
  {
    assert Precedes(c[i], c[k]);
  }

  /** A later snapshot sees the same version or a later one; an open chain is always seen. */
  lemma SeenLater(c: Chain, csn: nat, floor: nat, i: nat, snapshot: nat, s: nat) returns (k: nat)
    requires ChainOk(c, csn, floor) && Open(c) && i < |c| && Sees(c[i], snapshot) && snapshot <= s
    ensures i <= k < |c| && Newest(c, s) == Some(ToSeen(c[k]))
  {
    assert VersionOk(c[0], csn) && VersionOk(c[i], csn);
    assert 0 < i ==> Precedes(c[0], c[i]) && VersionOk(c[0], csn);
    forall j | 0 <= j < i
      ensures !Sees(c[j], s)
    {
      assert Precedes(c[j], c[i]);
    }
    k := CoversFrom(c, csn, floor, s, |c| - 1);
    forall j | k < j < |c|
      ensures !Sees(c[j], s)
    {
      assert Precedes(c[k], c[j]);
    }
    NewestIs(c, s, k);
  }

  lemma OpenChainKept(c: Chain, csn: nat, floor: nat, snapshot: nat, i: nat)
    requires ChainOk(c, csn, floor) && snapshot <= csn && i < |c| && Sees(c[i], snapshot) && Newest(c, snapshot) == Some(ToSeen(c[i]))
    requires Open(c) && forall k | i <= k < |c| :: c[k].row == c[i].row
    ensures ChainKept(c, snapshot, csn)
  {
    forall s: nat | snapshot <= s <= csn
      ensures ShowsSame(c, snapshot, s)
    {
      var k := SeenLater(c, csn, floor, i, snapshot, s);
    }
  }

  lemma KeptChainStamps(c: Chain, csn: nat, floor: nat, snapshot: nat, i: nat)
    requires ChainOk(c, csn, floor) && snapshot <= csn && i < |c| && Sees(c[i], snapshot) && Newest(c, snapshot) == Some(ToSeen(c[i]))
    requires ChainKept(c, snapshot, csn)
    ensures Open(c) && forall k | i <= k < |c| :: c[k].row == c[i].row
  {
    NewestNow(c, csn, floor);
    assert ShowsSame(c, snapshot, csn);
    forall k | i < k < |c|
      ensures c[k].row == c[i].row
    {
      VersionSeen(c, csn, floor, k);
      LaterVersion(c, csn, floor, i, snapshot, k);
      assert ShowsSame(c, snapshot, c[k].begin);
    }
  }

  /** The recheck of a row compares stamps: they are equal exactly if the row kept its value. */
  lemma StampsIff(c: Chain, csn: nat, floor: nat, snapshot: nat)
    requires ChainOk(c, csn, floor) && snapshot <= csn && Newest(c, snapshot).Some?
    ensures StampAt(c, snapshot) == LatestStamp(c) <==> ChainKept(c, snapshot, csn)
  {
    hide ChainOk, ChainKept;
    var i := NewestFound(c, snapshot);
    if StampAt(c, snapshot) == LatestStamp(c) {
      StampsBetween(c, csn, floor, i, |c| - 1);
      OpenChainKept(c, csn, floor, snapshot, i);
    }
    if ChainKept(c, snapshot, csn) {
      KeptChainStamps(c, csn, floor, snapshot, i);
      StampsBetween(c, csn, floor, i, |c| - 1);
    }
  }

  /** The table is still the one the transaction knows. */
  ghost predicate SchemaKept(d: Durable, tx: Tx, t: nat) {
    && t in d.tables && d.tables[t].live && SchemaOf(tx.schemas, t).Some?
    && d.tables[t].schema.version == SchemaOf(tx.schemas, t).value.version
    && d.tables[t].schema.columns == SchemaOf(tx.schemas, t).value.columns
  }

  lemma ViewIsChain(tables: Tables, t: nat, id: nat, snapshot: nat, csn: nat)
    requires t in tables && id in tables[t].rows && id in ViewAt(tables, t, snapshot)
    ensures ChainKept(tables[t].rows[id], snapshot, csn) <==> RowKept(tables, t, id, snapshot, csn)
  {
    var c := tables[t].rows[id];
    forall s: nat | snapshot <= s <= csn
      ensures ShowsSame(c, snapshot, s) <==> KeptAt(tables, t, id, snapshot, s)
    {
    }
    if ChainKept(c, snapshot, csn) {
      assert forall s: nat | snapshot <= s <= csn :: ShowsSame(c, snapshot, s) ==> KeptAt(tables, t, id, snapshot, s);
    }
  }

  /** A row lock passes the recheck exactly if the table is the same and the row has kept its
      value ever since the snapshot; a lock on a business key, exactly if the table is. */
  lemma KeyValidIff(d: Durable, floor: nat, tx: Tx, key: Key)
    requires DurableOk(d, floor) && tx.snapshot <= d.csn && !key.TableLock?
    requires key.RowLock? ==> key.row in ViewAt(d.tables, key.table, tx.snapshot)
    ensures KeyValid(d, tx, key) <==>
      SchemaKept(d, tx, key.table) && (key.RowLock? ==> RowKept(d.tables, key.table, key.row, tx.snapshot, d.csn))
  {
    hide ChainKept, RowKept, ChainOk;
    if key.RowLock? && key.table in d.tables {
      var h := d.tables[key.table];
      assert RowOk(h, key.row, d.csn, floor, d.nextRow);
      StampsIff(h.rows[key.row], d.csn, floor, tx.snapshot);
      ViewIsChain(d.tables, key.table, key.row, tx.snapshot, d.csn);
    }
  }

  // ---- The change stamp of a table ----

  predicate SameSchema(a: Schema, b: Schema) {
    a.columns == b.columns && a.version == b.version
  }

  lemma ShownUnder(view: map<nat, Seen>, ids: seq<nat>, rows: seq<Row>)
    requires |ids| == |rows| && IdsOf(Ordered(view)) == ids && RowsOf(Ordered(view)) == rows
    ensures forall id :: id in view <==> id in ids
    ensures forall id <- view :: PlaceOf(ids, rows, id).Some? && view[id].row == PlaceOf(ids, rows, id).value.1
  {
    OrderedDistinct(view);
    hide Ordered;
    forall id <- view
      ensures PlaceOf(ids, rows, id).Some? && view[id].row == PlaceOf(ids, rows, id).value.1
    {
      var j := IndexOf(ids, id);
      assert Ordered(view)[j].0 == id;
      assert rows[j] == Ordered(view)[j].1.row;
    }
  }

  /** A publish stamps a table exactly if its contents or its schema change. */
  lemma PublishedStamp(h: History, now: nat, floor: nat, csn: nat, nextRow: nat, schema: Schema, rows: seq<Row>)
    requires TableOk(h, now, floor, nextRow) && now <= csn && !Refused(h, now, csn, nextRow, rows)
    ensures var next := Published(h, now, csn, nextRow, schema, rows);
      && next.live && next.schema == schema
      && next.changed == if SameSchema(h.schema, schema) && Contents(View(next.rows, csn)) == Contents(View(h.rows, now)) then h.changed else csn
  {
    hide Ordered, TableOk, Refused, NextRows, NextIds, View;
    var ids := NextIds(h, now, nextRow, rows);
    NotRefused(h, now, floor, csn, nextRow, rows);
    RebuiltShows(h, now, floor, csn, ids, rows);
    var view := View(NextRows(h, now, csn, ids, rows), csn);
    ShownUnder(view, ids, rows);
    ChangeIsContents(h, now, schema, ids, rows, view);
  }

  lemma ChangeIsContents(h: History, now: nat, schema: Schema, ids: seq<nat>, rows: seq<Row>, view: map<nat, Seen>)
    requires |ids| == |rows| && (forall id :: id in view <==> id in ids)
    requires forall id <- view :: PlaceOf(ids, rows, id).Some? && view[id].row == PlaceOf(ids, rows, id).value.1
    ensures ValuesChange(h, now, schema, ids, rows) <==> !(SameSchema(h.schema, schema) && Contents(view) == Contents(View(h.rows, now)))
  {
    hide PlaceOf, View;
    var before := View(h.rows, now);
    if Contents(view) == Contents(before) {
      SameEverywhere(view, before);
    }
    if !ValuesChange(h, now, schema, ids, rows) {
      PlacedIfIn(h, now, schema, ids, rows);
    }
  }

  lemma SameEverywhere(a: map<nat, Seen>, b: map<nat, Seen>)
    requires Contents(a) == Contents(b)
    ensures forall id :: id in a <==> id in b
    ensures forall id <- a :: a[id].row == b[id].row
  {
    assert forall id :: id in a <==> id in Contents(a);
    assert forall id :: id in b <==> id in Contents(b);
    forall id <- a
      ensures id in b && a[id].row == b[id].row
    {
      assert Contents(a)[id] == Contents(b)[id];
    }
  }

  lemma PlacedIfIn(h: History, now: nat, schema: Schema, ids: seq<nat>, rows: seq<Row>)
    requires |ids| == |rows| && !ValuesChange(h, now, schema, ids, rows)
    ensures forall id <- View(h.rows, now) :: id in ids && PlaceOf(ids, rows, id).Some? && View(h.rows, now)[id].row == PlaceOf(ids, rows, id).value.1
    ensures forall id | id in ids :: id in View(h.rows, now)
  {
  }

  lemma {:induction false} ListedTable(tables: Tables, nextRow: nat, list: Listing, now: nat, csn: nat, floor: nat,
                                       after: Tables, nextRow': nat, t: nat) returns (n: nat)
    requires ListReady(tables, nextRow, list, now, csn, floor) && t in ObjectIds(list)
    requires PublishList(tables, nextRow, list, now, csn) == Ok((after, nextRow'))
    ensures var w := Wanted(list, t);
      var h := Entry(tables, w.0, csn);
      && TableOk(h, now, floor, n) && !Refused(h, now, csn, n, w.1)
      && t in after && after[t] == Published(h, now, csn, n, w.0, w.1)
    decreases |list|
  {
    hide TableOk, Refused, Published, NewRows;
    var r := PublishOne(tables, nextRow, list[0], now, csn).value;
    PublishOneCorrect(tables, nextRow, list[0], now, csn, floor, r.0, r.1);
    ListReadyTail(tables, nextRow, list, now, csn, floor, r.0, r.1);
    if t == list[0].0.objectId {
      n := nextRow;
      PublishListCorrect(r.0, r.1, list[1..], now, csn, floor, after, nextRow');
      assert TableOutcome(r.0, list[1..], csn, floor, after, nextRow', t);
      if t !in tables {
        EmptyOk(list[0].0, csn, now, floor, nextRow);
      }
    } else {
      n := ListedTable(r.0, r.1, list[1..], now, csn, floor, after, nextRow', t);
      assert Wanted(list[1..], t) == Wanted(list, t);
    }
  }

  lemma EmptyOk(schema: Schema, csn: nat, now: nat, floor: nat, nextRow: nat)
    ensures TableOk(History(schema, csn, true, map[]), now, floor, nextRow)
  {
  }

  /** The head of a listed table after a publish. */
  ghost predicate ListedHead(d: Durable, csn: nat, list: Listing, next: Durable, t: nat)
    requires t in ObjectIds(list)
  {
    && t in next.tables && next.tables[t].live && next.tables[t].schema == Wanted(list, t).0
    && next.tables[t].changed ==
       if t in d.tables && SameSchema(d.tables[t].schema, Wanted(list, t).0) && ContentsAt(next.tables, t, csn) == ContentsAt(d.tables, t, d.csn)
       then d.tables[t].changed else csn
  }

  /** The heads of the other tables: unchanged, or retired and stamped. */
  ghost predicate OtherHead(d: Durable, csn: nat, schemas: seq<Schema>, next: Durable, t: nat) {
    && (t in SchemaIds(schemas) ==> (t in next.tables <==> t in d.tables))
    && (t in next.tables ==> t in d.tables && next.tables[t].schema == d.tables[t].schema)
    && (t in next.tables && (t in SchemaIds(schemas) || !d.tables[t].live) ==>
          next.tables[t].live == d.tables[t].live && next.tables[t].changed == d.tables[t].changed)
    && (t in next.tables && t !in SchemaIds(schemas) && d.tables[t].live ==> !next.tables[t].live && next.tables[t].changed == csn)
  }

  lemma HeadsAfter(d: Durable, floor: nat, csn: nat, schemas: seq<Schema>, list: Listing, oldest: nat, next: Durable, t: nat)
    requires DurableOk(d, floor) && Proper(d, csn, schemas, list) && oldest <= csn
    requires PublishDurable(d, csn, schemas, list, oldest) == Ok(next)
    ensures t in ObjectIds(list) ==> ListedHead(d, csn, list, next, t)
    ensures t !in ObjectIds(list) ==> OtherHead(d, csn, schemas, next, t)
  {
    hide TableOk, Published, Refused, View, PruneRows, ListedHead, Proper;
    var listed := PublishList(d.tables, d.nextRow, list, d.csn, csn).value;
    ReadyToPublish(d, floor, csn, schemas, list);
    PublishListCorrect(d.tables, d.nextRow, list, d.csn, csn, floor, listed.0, listed.1);
    assert TableOutcome(d.tables, list, csn, floor, listed.0, listed.1, t);
    if t in ObjectIds(list) {
      var n := ListedTable(d.tables, d.nextRow, list, d.csn, csn, floor, listed.0, listed.1, t);
      assert t in SchemaIds(schemas);
      ListedHeadIs(d, floor, csn, list, oldest, next, n, t);
    }
  }

  lemma ReadyToPublish(d: Durable, floor: nat, csn: nat, schemas: seq<Schema>, list: Listing)
    requires DurableOk(d, floor) && Proper(d, csn, schemas, list) && d.csn <= csn
    ensures ListReady(d.tables, d.nextRow, list, d.csn, csn, floor) && ObjectIds(list) <= SchemaIds(schemas)
  {
  }

  lemma ListedHeadIs(d: Durable, floor: nat, csn: nat, list: Listing, oldest: nat, next: Durable, n: nat, t: nat)
    requires t in ObjectIds(list) && t in next.tables && d.csn <= csn && oldest <= csn
    requires var w := Wanted(list, t);
      var h := Entry(d.tables, w.0, csn);
      && TableOk(h, d.csn, floor, n) && !Refused(h, d.csn, csn, n, w.1)
      && next.tables[t] == PruneTable(Published(h, d.csn, csn, n, w.0, w.1), oldest)
    ensures ListedHead(d, csn, list, next, t)
  {
    hide TableOk, Published, Refused, View, PruneRows, NewRows;
    var w := Wanted(list, t);
    var h := Entry(d.tables, w.0, csn);
    PublishedStamp(h, d.csn, floor, csn, n, w.0, w.1);
    PublishedPruned(h, d.csn, floor, csn, n, w.0, w.1, oldest);
    NoContents();
  }

  lemma NoContents()
    ensures View(map[], 0) == map[] && forall csn: nat :: View(map[], csn) == map[]
  {
  }

  lemma PublishedPruned(h: History, now: nat, floor: nat, csn: nat, nextRow: nat, schema: Schema, rows: seq<Row>, oldest: nat)
    requires TableOk(h, now, floor, nextRow) && now <= csn && oldest <= csn && !Refused(h, now, csn, nextRow, rows)
    ensures var p := Published(h, now, csn, nextRow, schema, rows);
      View(PruneTable(p, oldest).rows, csn) == View(p.rows, csn)
  {
    hide TableOk, Published, Refused, View, PruneRows, NewRows;
    PublishedCorrect(h, now, floor, csn, nextRow, schema, rows);
    PruneTableCorrect(Published(h, now, csn, nextRow, schema, rows), csn, floor, nextRow + NewRows(h, now, rows), oldest);
  }

  // ---- Declared reads over runs ----

  /** The publish leaves a table in the catalogue, with the same schema and contents. */
  ghost predicate ReadKept(s: System, a: Action, s': System, t: nat)
    requires a.PublishAt?
  {
    && t in SchemaIds(a.schemas)
    && (t in ObjectIds(a.list) ==>
          && t in s.state.durable.tables && SameSchema(s.state.durable.tables[t].schema, Wanted(a.list, t).0)
          && ContentsAt(s'.state.durable.tables, t, a.csn) == ContentsAt(s.state.durable.tables, t, s.state.durable.csn))
  }

  /** Once stamped above the snapshot, or gone, a table never passes again. */
  predicate Stale(d: Durable, snapshot: nat, t: nat) {
    t in d.tables ==> d.tables[t].changed > snapshot
  }

  lemma ReadStep(s: System, a: Action, s': System, token: Token, t: nat)
    requires SnapshotInv(s.state) && Next(s, a, s') && Live(s.state.txs, token)
    ensures var n := s.state.txs[token].snapshot;
      && (ReadValid(s.state.durable, n, t) && (a.PublishAt? ==> ReadKept(s, a, s', t)) ==> ReadValid(s'.state.durable, n, t))
      && (ReadValid(s.state.durable, n, t) && a.PublishAt? && !ReadKept(s, a, s', t) ==> Stale(s'.state.durable, n, t))
      && (Stale(s.state.durable, n, t) ==> Stale(s'.state.durable, n, t))
  {
    var n := s.state.txs[token].snapshot;
    if a.PublishAt? {
      hide ContentsAt;
      LiveAtMostCsn(s.state);
      assert n in LiveSnapshots(s.state.txs);
      HeadsAfter(s.state.durable, Oldest(s.state.txs, s.state.durable.csn), a.csn, a.schemas, a.list, Oldest(s.state.txs, a.csn), s'.state.durable, t);
    } else {
      QuietHeads(s, a, s', t);
    }
  }

  /** Steps other than a publish change no head; a prune only drops retired tables. */
  lemma QuietHeads(s: System, a: Action, s': System, t: nat)
    requires Next(s, a, s') && !a.PublishAt?
    ensures t in s'.state.durable.tables ==>
      && t in s.state.durable.tables && s'.state.durable.tables[t].live == s.state.durable.tables[t].live
      && s'.state.durable.tables[t].changed == s.state.durable.tables[t].changed
    ensures t in s.state.durable.tables && s.state.durable.tables[t].live ==> t in s'.state.durable.tables
  {
    hide Validated, PlanAll, WantedLocks, Reaches, ReadTables, Oldest, PruneRows;
  }

  /** The recheck of a declared read is exact: a table that was valid passes exactly if no publish
      since has dropped it or changed its schema or contents. */
  lemma {:induction false} ReadValidExactly(r: Run, i: nat, k: nat, token: Token, t: nat)
    requires |r.run| == |r.actions| + 1 && i <= k < |r.run| && Live(r.run[i].state.txs, token)
    requires forall m | i <= m <= k :: Live(r.run[m].state.txs, token)
    requires ReadValid(r.run[i].state.durable, r.run[i].state.txs[token].snapshot, t)
    ensures Live(r.run[k].state.txs, token)
    ensures r.run[k].state.txs[token].snapshot == r.run[i].state.txs[token].snapshot
    ensures var d, n := r.run[k].state.durable, r.run[i].state.txs[token].snapshot;
      && (ReadValid(d, n, t) <==> forall m | i <= m < k && r.actions[m].PublishAt? :: ReadKept(r.run[m], r.actions[m], r.run[m + 1], t))
      && (ReadValid(d, n, t) || Stale(d, n, t))
    decreases k
  {
    hide IsRun, Next, ReadKept, SnapshotInv;
    if i < k {
      ReadValidExactly(r, i, k - 1, token, t);
      assert Live(r.run[k - 1].state.txs, token) && Live(r.run[k].state.txs, token);
      RunInv(r, k - 1);
      NumbersRise(r, k - 1);
      ReadStep(r.run[k - 1], r.actions[k - 1], r.run[k], token, t);
      SameSnapshot(r, k - 1, token);
    }
  }

  lemma SameSnapshot(r: Run, k: nat, token: Token)
    requires |r.run| == |r.actions| + 1 && k + 1 < |r.run| && Live(r.run[k].state.txs, token) && Live(r.run[k + 1].state.txs, token)
    ensures r.run[k + 1].state.txs[token].snapshot == r.run[k].state.txs[token].snapshot
  {
    hide IsRun;
    RunStep(r, k);
  }

  // ---- The whole check ----

  /** A key that may be held exclusively: a row of the snapshot, or a business key. */
  ghost predicate KeyOk(tables: Tables, snapshot: nat, key: Key) {
    !key.TableLock? && (key.RowLock? ==> key.row in ViewAt(tables, key.table, snapshot))
  }

  ghost predicate HeldOk(s: System, token: Token) {
    Live(s.state.txs, token) ==>
      var tables, tx := s.state.durable.tables, s.state.txs[token];
      && (forall key | Holds(tx.held, key) :: KeyOk(tables, tx.snapshot, key))
      && (token in s.requests ==> ListOk(tables, tx.snapshot, s.requests[token].todo))
  }

  ghost predicate ListOk(tables: Tables, snapshot: nat, todo: map<Key, bool>) {
    forall key | Holds(todo, key) :: KeyOk(tables, snapshot, key)
  }

  lemma WantedOk(tables: Tables, tx: Tx, ops: seq<StorageOp>)
    requires PlanAll(tables, tx, ops).Ok? && ChangesOk(PlanAll(tables, tx, ops).value)
    ensures ListOk(tables, tx.snapshot, WantedLocks(tables, tx, PlanAll(tables, tx, ops).value))
  {
    hide WantedLocks, PlanAll, ViewAt;
    var changes := PlanAll(tables, tx, ops).value;
    PlanAllIff(tables, tx, ops);
    forall key | Holds(WantedLocks(tables, tx, changes), key)
      ensures KeyOk(tables, tx.snapshot, key)
    {
      WantedExactly(tables, tx, changes, key);
      if key.RowLock? {
        TouchedIs(ViewAt(tables, key.table, tx.snapshot), changes[key.table], key.row);
      }
    }
  }

  /** What a step leaves of a transaction's holds and list. */
  ghost predicate HoldsFrom(s: System, s': System, token: Token) {
    && Live(s.state.txs, token) && Live(s'.state.txs, token)
    && (forall key | Holds(s'.state.txs[token].held, key) ::
          Holds(s.state.txs[token].held, key) || (token in s.requests && Holds(s.requests[token].todo, key)))
    && (token in s'.requests ==> token in s.requests && forall key | Holds(s'.requests[token].todo, key) :: Holds(s.requests[token].todo, key))
  }

  lemma HeldCarried(s: System, s': System, token: Token)
    requires HeldOk(s, token) && HoldsFrom(s, s', token) && ReadsSame(s.state, s'.state)
    ensures HeldOk(s', token)
  {
    hide ViewAt;
    var n := s.state.txs[token].snapshot;
    assert SnapshotSame(s.state, s'.state, n);
    forall key | KeyOk(s.state.durable.tables, n, key)
      ensures KeyOk(s'.state.durable.tables, n, key)
    {
      assert ViewAt(s'.state.durable.tables, key.table, n) == ViewAt(s.state.durable.tables, key.table, n);
    }
  }

  lemma StepHolds(s: System, a: Action, s': System, token: Token)
    requires Next(s, a, s') && TokensOk(s.state) && Live(s.state.txs, token) && Live(s'.state.txs, token)
    requires !(a.LockStart? && a.token == token)
    ensures HoldsFrom(s, s', token)
  {
    if !ActsFor(a, token) {
      Bystander(s, a, s', token);
    }
    hide Reaches, Validated, PlanAll, WantedLocks, PruneDurable, Oldest, ReadTables, ChangesOk, PublishDurable, Blockers;
  }

  lemma StepHeld(s: System, a: Action, s': System, token: Token)
    requires Next(s, a, s') && ReadsSame(s.state, s'.state) && TokensOk(s.state) && RequestsOk(s) && HeldOk(s, token)
    ensures HeldOk(s', token)
  {
    hide Reaches, Validated, PruneDurable, Oldest, ReadTables, PublishDurable, Blockers, KeyOk, HeldOk;
    if Live(s'.state.txs, token) {
      if a.LockStart? && a.token == token {
        StartHeld(s, token, a.ops, a.names, s');
      } else if a.Begin? && token == s.state.nextTx + 1 {
        NewHeld(s', token);
      } else {
        StaysLive(s, a, s', token);
        StepHolds(s, a, s', token);
        HeldCarried(s, s', token);
      }
    }
    DeadHeld(s', token);
  }

  lemma DeadHeld(s: System, token: Token)
    ensures !Live(s.state.txs, token) ==> HeldOk(s, token)
  {
  }

  lemma NewHeld(s: System, token: Token)
    requires Live(s.state.txs, token) && s.state.txs[token].held == map[] && token !in s.requests
    ensures HeldOk(s, token)
  {
  }

  lemma StartHeld(s: System, token: Token, ops: seq<StorageOp>, names: seq<string>, s': System)
    requires LockStarts(s, token, ops, names, s') && HeldOk(s, token)
    ensures HeldOk(s', token)
  {
    hide KeyOk, WantedLocks, PlanAll, Validated, ReadTables;
    WantedOk(s.state.durable.tables, s.state.txs[token], ops);
  }

  lemma {:induction false} RunHeld(r: Run, i: nat, token: Token)
    requires i < |r.run|
    ensures HeldOk(r.run[i], token)
    decreases i
  {
    hide HeldOk, Next, IsRun;
    if i == 0 {
      FirstHeld(r, token);
    } else {
      RunHeld(r, i - 1, token);
      NumbersRise(r, i - 1);
      RunStep(r, i - 1);
      PlanKeysLocked(r, i - 1, token);
      StepHeld(r.run[i - 1], r.actions[i - 1], r.run[i], token);
    }
  }

  lemma FirstHeld(r: Run, token: Token)
    ensures |r.run| > 0 && HeldOk(r.run[0], token)
  {
  }

  /** Nothing the transaction holds exclusively has changed since its snapshot. */
  ghost predicate HoldsKept(d: Durable, tx: Tx) {
    forall key | Holds(tx.held, key) ::
      SchemaKept(d, tx, key.table) && (key.RowLock? ==> RowKept(d.tables, key.table, key.row, tx.snapshot, d.csn))
  }

  /** The commit check is exact: a live transaction passes exactly if every table it holds keys of
      is the same, every row it holds has kept its value ever since the snapshot, and, for a
      serializable writer, its declared reads are valid. */
  lemma ValidatedIff(r: Run, i: nat, token: Token, writes: bool)
    requires i < |r.run| && Live(r.run[i].state.txs, token)
    ensures var d, tx := r.run[i].state.durable, r.run[i].state.txs[token];
      Validated(d, tx, writes) <==>
        HoldsKept(d, tx) && (writes && tx.serializable ==> forall t <- tx.readSet :: ReadValid(d, tx.snapshot, t))
  {
    hide IsRun, KeyValid, SchemaKept, RowKept, ReadValid, DurableOk;
    var d, tx := r.run[i].state.durable, r.run[i].state.txs[token];
    RunInv(r, i);
    RunHeld(r, i, token);
    forall key | Holds(tx.held, key)
      ensures KeyValid(d, tx, key) <==>
        SchemaKept(d, tx, key.table) && (key.RowLock? ==> RowKept(d.tables, key.table, key.row, tx.snapshot, d.csn))
    {
      assert KeyOk(d.tables, tx.snapshot, key);
      KeyValidIff(d, Oldest(r.run[i].state.txs, d.csn), tx, key);
    }
  }
}
