/** The lock list of a transaction (mvcc.rs `lock_inner`): what it holds, key by key, said in
    terms of the planned rows alone, and the loops that build it. */
module LockLists {
  import opened Basics
  import opened Rows
  import opened Versions
  import opened Publish
  import opened Catalog
  import opened Plans
  import opened Transactions

  // ---- What a change writes ----

  /** The change continues or removes rows of the snapshot only. */
  ghost predicate FromSnapshot(base: map<nat, Seen>, c: Change) {
    && |c.ids| == |c.rows| && c.removed <= base.Keys
    && forall j | 0 <= j < |c.ids| && c.ids[j].Some? :: c.ids[j].value in base
  }

  /** The snapshot row is removed, or continued with another value. */
  ghost predicate Displaced(base: map<nat, Seen>, c: Change, id: nat)
    requires FromSnapshot(base, c)
  {
    id in c.removed || exists j | 0 <= j < |c.ids| :: c.ids[j] == Some(id) && base[id].row != c.rows[j]
  }

  /** The wanted row is new, or another value for a snapshot row. */
  ghost predicate Arrives(base: map<nat, Seen>, c: Change, j: nat)
    requires FromSnapshot(base, c) && j < |c.rows|
  {
    c.ids[j].None? || base[c.ids[j].value].row != c.rows[j]
  }

  /** The change takes the row away or brings it. */
  ghost predicate Writes(base: map<nat, Seen>, c: Change, row: Row)
    requires FromSnapshot(base, c)
  {
    || (exists id <- base :: Displaced(base, c, id) && base[id].row == row)
    || (exists j | 0 <= j < |c.rows| :: Arrives(base, c, j) && c.rows[j] == row)
  }

  /** A column whose values are business keys: `id`, unique or primary. */
  ghost predicate KeyColumn(schemas: seq<Schema>, t: nat, column: string) {
    && SchemaOf(schemas, t).Some?
    && var columns := SchemaOf(schemas, t).value.columns;
       column == "id" || exists i | 0 <= i < |columns| :: columns[i].name == column && (columns[i].unique || columns[i].primaryKey)
  }

  /** A key that the change must hold exclusively: a row it displaces, or a business key of a
      row that it takes away or brings. */
  ghost predicate Due(schemas: seq<Schema>, base: map<nat, Seen>, c: Change, key: Key)
    requires FromSnapshot(base, c)
  {
    match key
    case TableLock(_) => false
    case RowLock(_, id) => Displaced(base, c, id)
    case UniqueLock(t, column, k) =>
      KeyColumn(schemas, t, column) && exists row :: Writes(base, c, row) && UniqueKey(row, column) == Some(k)
  }

  // ---- The list is exactly that ----

  lemma PlannedFromSnapshot(view: map<nat, Seen>, rows: seq<Row>)
    ensures FromSnapshot(view, ChangeOf(Ordered(view), rows))
  {
    ChangePartition(view, rows);
    var c := ChangeOf(Ordered(view), rows);
    forall j | 0 <= j < |c.ids| && c.ids[j].Some?
      ensures c.ids[j].value in view
    {
      assert c.ids[j].value in RetainedIds(c.ids);
    }
  }

  lemma TouchedIs(base: map<nat, Seen>, c: Change, id: nat)
    requires FromSnapshot(base, c)
    ensures id in Touched(base, c) <==> Displaced(base, c, id)
    ensures id in Touched(base, c) ==> id in base
  {
    if id in Touched(base, c) && id !in c.removed {
      var j :| 0 <= j < |c.ids| && c.ids[j].Some? && Altered(base, c.ids[j], c.rows[j]) && c.ids[j].value == id;
      assert c.ids[j] == Some(id);
    }
    if Displaced(base, c, id) && id !in c.removed {
      var j :| 0 <= j < |c.ids| && c.ids[j] == Some(id) && base[id].row != c.rows[j];
      assert Altered(base, c.ids[j], c.rows[j]);
    }
  }

  lemma AffectedIs(base: map<nat, Seen>, c: Change, row: Row)
    requires FromSnapshot(base, c)
    ensures row in AffectedRows(base, c) <==> Writes(base, c, row)
  {
    hide Touched;
    if id :| id in Touched(base, c) && id in base && base[id].row == row {
      TouchedIs(base, c, id);
    }
    if j :| 0 <= j < |c.rows| && Altered(base, c.ids[j], c.rows[j]) && c.rows[j] == row {
      assert Arrives(base, c, j);
    }
    if id :| id in base && Displaced(base, c, id) && base[id].row == row {
      TouchedIs(base, c, id);
    }
    if j :| 0 <= j < |c.rows| && Arrives(base, c, j) && c.rows[j] == row {
      assert Altered(base, c.ids[j], c.rows[j]);
    }
  }

  lemma LockColumnsAre(schemas: seq<Schema>, t: nat, column: string)
    requires SchemaOf(schemas, t).Some?
    ensures column in LockColumns(SchemaOf(schemas, t).value) <==> KeyColumn(schemas, t, column)
  {
    assert ID == "id";
  }

  lemma LocksAre(schemas: seq<Schema>, t: nat, base: map<nat, Seen>, c: Change, key: Key)
    requires FromSnapshot(base, c)
    ensures key in LocksOf(schemas, t, base, c) <==> key.table == t && (key.TableLock? || Due(schemas, base, c, key))
  {
    hide Touched, AffectedRows, LockColumns, Displaced, Writes, KeyColumn;
    match key
    case TableLock(_) =>
    case RowLock(_, id) => TouchedIs(base, c, id);
    case UniqueLock(_, column, k) => UniqueAre(schemas, t, base, c, key);
  }

  lemma UniqueAre(schemas: seq<Schema>, t: nat, base: map<nat, Seen>, c: Change, key: Key)
    requires FromSnapshot(base, c) && key.UniqueLock?
    ensures key in LocksOf(schemas, t, base, c) <==> key.table == t && Due(schemas, base, c, key)
  {
    hide Touched, AffectedRows, LockColumns, Writes, KeyColumn, UniqueKey;
    var columns := if SchemaOf(schemas, t).Some? then LockColumns(SchemaOf(schemas, t).value) else {};
    if SchemaOf(schemas, t).Some? {
      LockColumnsAre(schemas, t, key.column);
    }
    if key in LocksOf(schemas, t, base, c) {
      var row :| row in AffectedRows(base, c) && key in UniqueLocks(t, row, columns);
      AffectedIs(base, c, row);
    }
    if key.table == t && Due(schemas, base, c, key) {
      var row :| Writes(base, c, row) && UniqueKey(row, key.column) == Some(key.key);
      AffectedIs(base, c, row);
      KeyColumnKnown(schemas, t, key.column);
      assert key in UniqueLocks(t, row, columns);
    }
  }

  lemma KeyColumnKnown(schemas: seq<Schema>, t: nat, column: string)
    requires KeyColumn(schemas, t, column)
    ensures SchemaOf(schemas, t).Some?
  {
  }

  ghost predicate PlannedAll(tables: Tables, snapshot: nat, changes: map<nat, Change>) {
    forall t <- changes :: FromSnapshot(ViewAt(tables, t, snapshot), changes[t])
  }

  /** The lock list, key by key: every changed table shared; exclusively, exactly the rows that
      are displaced and exactly the business keys of the rows that go or come. */
  lemma WantedExactly(tables: Tables, tx: Tx, changes: map<nat, Change>, key: Key)
    requires ChangesOk(changes) && PlannedAll(tables, tx.snapshot, changes)
    ensures key in WantedLocks(tables, tx, changes) <==>
      key.table in changes && (key.TableLock? || Due(tx.schemas, ViewAt(tables, key.table, tx.snapshot), changes[key.table], key))
    ensures key in WantedLocks(tables, tx, changes) ==> (WantedLocks(tables, tx, changes)[key] <==> !key.TableLock?)
  {
    hide LocksOf, Due, ViewAt;
    if key.table in changes {
      LocksAre(tx.schemas, key.table, ViewAt(tables, key.table, tx.snapshot), changes[key.table], key);
    }
    if t :| t in changes && key in LocksOf(tx.schemas, t, ViewAt(tables, t, tx.snapshot), changes[t]) {
      LocksAre(tx.schemas, t, ViewAt(tables, t, tx.snapshot), changes[t], key);
    }
  }

  // ---- Planning ----

  /** Planning succeeds exactly if every operation names a known table that is still there. */
  lemma {:induction false} EditedIff(tables: Tables, tx: Tx, ops: seq<StorageOp>, edited: map<nat, seq<Row>>)
    ensures Edited(tables, tx, ops, edited).Ok? <==>
      forall op <- ops :: SchemaNamed(tx.schemas, op.table).Some? && SchemaNamed(tx.schemas, op.table).value.objectId in tables
    decreases |ops|
  {
    if ops != [] {
      assert forall op :: op in ops <==> op == ops[0] || op in ops[1..];
      var schema := SchemaNamed(tx.schemas, ops[0].table);
      if schema.Some? && schema.value.objectId in tables {
        var t := schema.value.objectId;
        var rows := if t in edited then edited[t] else RowsAt(tables, t, tx.snapshot);
        EditedIff(tables, tx, ops[1..], edited[t := Edit(rows, ops[0])]);
      }
    }
  }

  lemma PlanAllIff(tables: Tables, tx: Tx, ops: seq<StorageOp>)
    ensures PlanAll(tables, tx, ops).Ok? <==>
      forall op <- ops :: SchemaNamed(tx.schemas, op.table).Some? && SchemaNamed(tx.schemas, op.table).value.objectId in tables
    ensures PlanAll(tables, tx, ops).Ok? ==>
      ChangesOk(PlanAll(tables, tx, ops).value) && PlannedAll(tables, tx.snapshot, PlanAll(tables, tx, ops).value)
  {
    EditedIff(tables, tx, ops, map[]);
    if PlanAll(tables, tx, ops).Ok? {
      var edited := Edited(tables, tx, ops, map[]).value;
      forall t <- edited
        ensures FromSnapshot(ViewAt(tables, t, tx.snapshot), ChangeOf(Ordered(ViewAt(tables, t, tx.snapshot)), edited[t]))
      {
        PlannedFromSnapshot(ViewAt(tables, t, tx.snapshot), edited[t]);
      }
    }
  }

  // ---- The loops that build the list ----

  /** The ids to lock and the rows whose business keys to lock. */
  method CollectRows(base: map<nat, Seen>, c: Change) returns (ids: set<nat>, rows: seq<Row>)
    requires FromSnapshot(base, c)
    ensures forall id :: id in ids <==> Displaced(base, c, id)
    ensures forall row :: row in rows <==> Writes(base, c, row)
  {
    ids, rows := {}, [];
    var rest := c.removed;
    while rest != {}
      invariant rest <= c.removed && ids == c.removed - rest
      invariant forall row :: row in rows <==> exists id <- ids :: base[id].row == row
      decreases |rest|
    {
      var id :| id in rest;
      ids := ids + {id};
      rows := rows + [base[id].row];
      rest := rest - {id};
    }
    for j := 0 to |c.rows|
      invariant ids <= base.Keys && forall id :: id in ids <==> id in c.removed || ContinuedBefore(base, c, id, j)
      invariant forall row :: row in rows <==> (exists id <- ids :: base[id].row == row) || ArrivedBefore(base, c, row, j)
    {
      var id, row := c.ids[j], c.rows[j];
      BeforeNext(base, c, j);
      if id.Some? && base[id.value].row == row {
        continue;
      }
      if id.Some? {
        ids := ids + {id.value};
        rows := rows + [base[id.value].row];
      }
      rows := rows + [row];
    }
    CollectedAll(base, c, ids, rows);
  }

  ghost predicate ContinuedBefore(base: map<nat, Seen>, c: Change, id: nat, n: nat)
    requires FromSnapshot(base, c) && n <= |c.rows|
  {
    exists j | 0 <= j < n :: c.ids[j] == Some(id) && base[id].row != c.rows[j]
  }

  ghost predicate ArrivedBefore(base: map<nat, Seen>, c: Change, row: Row, n: nat)
    requires FromSnapshot(base, c) && n <= |c.rows|
  {
    exists j | 0 <= j < n :: Arrives(base, c, j) && c.rows[j] == row
  }

  lemma BeforeNext(base: map<nat, Seen>, c: Change, n: nat)
    requires FromSnapshot(base, c) && n < |c.rows|
    ensures forall id :: ContinuedBefore(base, c, id, n + 1) <==>
      ContinuedBefore(base, c, id, n) || (c.ids[n] == Some(id) && base[id].row != c.rows[n])
    ensures forall row :: ArrivedBefore(base, c, row, n + 1) <==>
      ArrivedBefore(base, c, row, n) || (Arrives(base, c, n) && c.rows[n] == row)
  {
    forall row
      ensures ArrivedBefore(base, c, row, n + 1) <==> ArrivedBefore(base, c, row, n) || (Arrives(base, c, n) && c.rows[n] == row)
    {
      if j :| 0 <= j < n && Arrives(base, c, j) && c.rows[j] == row {
        assert Arrives(base, c, j);
      }
    }
  }

  lemma CollectedAll(base: map<nat, Seen>, c: Change, ids: set<nat>, rows: seq<Row>)
    requires FromSnapshot(base, c) && ids <= base.Keys
    requires forall id :: id in ids <==> id in c.removed || ContinuedBefore(base, c, id, |c.rows|)
    requires forall row :: row in rows <==> (exists id <- ids :: base[id].row == row) || ArrivedBefore(base, c, row, |c.rows|)
    ensures forall id :: id in ids <==> Displaced(base, c, id)
    ensures forall row :: row in rows <==> Writes(base, c, row)
  {
  }

  /** The business keys of the rows. */
  method KeyLocks(t: nat, rows: seq<Row>, columns: set<string>) returns (ls: set<Key>)
    ensures forall key :: key in ls <==>
      key.UniqueLock? && key.table == t && key.column in columns && exists row <- rows :: UniqueKey(row, key.column) == Some(key.key)
  {
    hide UniqueKey;
    ls := {};
    for i := 0 to |rows|
      invariant forall key :: key in ls <==>
        key.UniqueLock? && key.table == t && key.column in columns && exists row <- rows[..i] :: UniqueKey(row, key.column) == Some(key.key)
    {
      var row, rest := rows[i], columns;
      assert forall x :: x in rows[..i + 1] <==> x in rows[..i] || x == row;
      ghost var before := ls;
      while rest != {}
        invariant rest <= columns
        invariant forall key :: key in ls <==>
          key in before || (key.UniqueLock? && key.table == t && key.column in columns - rest && UniqueKey(row, key.column) == Some(key.key))
        decreases |rest|
      {
        var column :| column in rest;
        var key := UniqueKey(row, column);
        if key.Some? {
          ls := ls + {UniqueLock(t, column, key.value)};
        }
        rest := rest - {column};
      }
    }
    assert rows[..|rows|] == rows;
  }

  /** The list of one changed table. */
  method ChangeLocks(schemas: seq<Schema>, t: nat, base: map<nat, Seen>, c: Change) returns (ls: set<Key>)
    requires FromSnapshot(base, c) && SchemaOf(schemas, t).Some?
    ensures forall key :: key in ls <==> key.table == t && (key.TableLock? || Due(schemas, base, c, key))
  {
    hide Displaced, Writes, UniqueKey, KeyColumn, LockColumns;
    var ids, rows := CollectRows(base, c);
    var columns := LockColumns(SchemaOf(schemas, t).value);
    var keys := KeyLocks(t, rows, columns);
    ls := {TableLock(t)} + (set id | id in ids :: RowLock(t, id)) + keys;
    forall key: Key
      ensures key in ls <==> key.table == t && (key.TableLock? || Due(schemas, base, c, key))
    {
      if key.UniqueLock? {
        LockColumnsAre(schemas, t, key.column);
      }
    }
  }

  /** The lock list of all changed tables: tables shared, everything else exclusively. */
  method LockList(tables: Tables, tx: Tx, changes: map<nat, Change>) returns (wanted: map<Key, bool>)
    requires ChangesOk(changes) && PlannedAll(tables, tx.snapshot, changes) && forall t <- changes :: SchemaOf(tx.schemas, t).Some?
    ensures wanted == WantedLocks(tables, tx, changes)
    ensures forall key :: key in wanted <==>
      key.table in changes && (key.TableLock? || Due(tx.schemas, ViewAt(tables, key.table, tx.snapshot), changes[key.table], key))
    ensures forall key <- wanted :: wanted[key] <==> !key.TableLock?
  {
    hide Due, ViewAt, WantedLocks, FromSnapshot;
    wanted := map[];
    var rest := changes.Keys;
    while rest != {}
      invariant rest <= changes.Keys
      invariant forall key :: key in wanted <==>
        key.table in changes.Keys - rest && (key.TableLock? || Due(tx.schemas, ViewAt(tables, key.table, tx.snapshot), changes[key.table], key))
      invariant forall key <- wanted :: wanted[key] <==> !key.TableLock?
      decreases |rest|
    {
      var t :| t in rest;
      var ls := ChangeLocks(tx.schemas, t, ViewAt(tables, t, tx.snapshot), changes[t]);
      wanted := wanted + map key | key in ls :: !key.TableLock?;
      rest := rest - {t};
    }
    forall key: Key
      ensures key in wanted <==> key in WantedLocks(tables, tx, changes)
      ensures key in wanted ==> wanted[key] == WantedLocks(tables, tx, changes)[key]
    {
      WantedExactly(tables, tx, changes, key);
    }
  }

  /** The tables of a plan are known to the transaction. */
  lemma {:induction false} EditedKnown(tables: Tables, tx: Tx, ops: seq<StorageOp>, edited: map<nat, seq<Row>>)
    requires Edited(tables, tx, ops, edited).Ok? && forall t <- edited :: SchemaOf(tx.schemas, t).Some?
    ensures forall t <- Edited(tables, tx, ops, edited).value :: SchemaOf(tx.schemas, t).Some?
    decreases |ops|
  {
    if ops != [] {
      var t := SchemaNamed(tx.schemas, ops[0].table).value.objectId;
      var rows := if t in edited then edited[t] else RowsAt(tables, t, tx.snapshot);
      EditedKnown(tables, tx, ops[1..], edited[t := Edit(rows, ops[0])]);
    }
  }
}
