/** A group applied to real tables (runtime.rs `apply_op`): the id keys of the tables are the ones
    that the preflight steps through, so what it accepts meets no duplicate id. */
module GroupApply {
  import opened Basics
  import opened Rows
  import opened HeapCells
  import opened HeapTable
  import opened IdPreflight
  import IndexCalls

  // ---- The ids of a table ----

  /** The rows with this id key, by number. */
  ghost function Spots(rows: seq<Row>, key: Bytes): set<nat> {
    set j | 0 <= j < |rows| && RowKey(rows[j], ID) == Some(key)
  }

  ghost function RowsWith(rows: seq<Row>, key: Bytes): nat {
    |Spots(rows, key)|
  }

  lemma SpotsLast(rows: seq<Row>, key: Bytes)
    requires rows != []
    ensures var last := |rows| - 1;
      Spots(rows, key) == Spots(rows[..last], key) + if RowKey(rows[last], ID) == Some(key) then {last} else {}
  {
    hide RowKey;
  }

  lemma {:induction false} RowIdsCount(rows: seq<Row>, key: Bytes)
    ensures RowIds(rows)[key] == RowsWith(rows, key)
    decreases |rows|
  {
    if rows != [] {
      hide Spots, RowKey;
      SpotsLast(rows, key);
      RowIdsCount(rows[..|rows| - 1], key);
      SpotsBelow(rows[..|rows| - 1], key);
    }
  }

  lemma SpotsBelow(rows: seq<Row>, key: Bytes)
    ensures |rows| !in Spots(rows, key)
  {
  }

  /** The id keys of a table are those of its rows. */
  lemma {:induction false} IdsOfLive(cs: seq<Cell>)
    ensures IdKeys(cs) == RowIds(HeapCells.Live(cs))
    decreases |cs|
  {
    if cs != [] {
      var init, row := cs[..|cs| - 1], cs[|cs| - 1].row;
      IdsOfLive(init);
      if row.Some? {
        var rows := HeapCells.Live(init);
        assert (rows + [row.value])[..|rows|] == rows;
      } else {
        assert HeapCells.Live(init) + [] == HeapCells.Live(init);
      }
    }
  }

  /** After a replacement a table has, under every id key, as many rows as were given. */
  lemma ReplaceAgrees(cs: seq<Cell>, rows: seq<Row>, key: Bytes)
    requires HeapCells.Live(cs) == rows
    ensures IdKeys(cs)[key] == RowsWith(rows, key) && IdKeys(cs) == RowIds(rows)
  {
    IdsOfLive(cs);
    RowIdsCount(rows, key);
  }

  /** A new table has no ids. */
  lemma NewAgrees(cs: seq<Cell>, key: Bytes)
    requires cs == []
    ensures IdKeys(cs)[key] == 0 && IdKeys(cs) == multiset{}
  {
  }

  /** A placed row adds its id. */
  lemma PlaceAgrees(cs: seq<Cell>, c: Cell)
    ensures IdKeys(cs + [c]) == IdKeys(cs) + IdOf(c.row)
  {
    assert (cs + [c])[..|cs|] == cs;
  }

  // ---- Refusals ----

  /** A refusal as duplicate means that a row with the id is there. */
  lemma {:induction false} DuplicateMeans(indexes: seq<Index>, cs: seq<Cell>, row: Row, limit: nat)
    requires Agree(indexes, cs) && FirstRefusal(indexes, row, limit) == Some(DUPLICATE_ID)
    ensures RowKey(row, ID).Some? && RowKey(row, ID).value in IdKeys(cs)
    decreases |indexes|
  {
    if Refusal(indexes[0], row, limit).Some? {
      assert DUPLICATE_ID != KEY_TOO_LONG by { assert |DUPLICATE_ID| != |KEY_TOO_LONG|; }
      assert Matches(indexes[0], cs);
      InsertAgrees(indexes[0], cs, row, limit);
    } else {
      AgreeTail(indexes, cs);
      DuplicateMeans(indexes[1..], cs, row, limit);
    }
  }

  lemma AgreeTail(indexes: seq<Index>, cs: seq<Cell>)
    requires Agree(indexes, cs) && indexes != []
    ensures Agree(indexes[1..], cs)
  {
    forall i | 0 <= i < |indexes[1..]|
      ensures Matches(indexes[1..][i], cs)
    {
      assert indexes[1..][i] == indexes[i + 1];
    }
  }

  /** With an id index, a row that is not refused has a new id. */
  lemma {:induction false} AcceptedIsNew(indexes: seq<Index>, cs: seq<Cell>, row: Row, limit: nat)
    requires Agree(indexes, cs) && Indexed(indexes) && FirstRefusal(indexes, row, limit).None?
    ensures RowKey(row, ID).Some? ==> RowKey(row, ID).value !in IdKeys(cs)
    decreases |indexes|
  {
    if indexes[0].column == ID {
      if RowKey(row, ID).Some? {
        assert Matches(indexes[0], cs);
        InsertAgrees(indexes[0], cs, row, limit);
      }
    } else {
      AgreeTail(indexes, cs);
      var i :| 0 <= i < |indexes| && indexes[i].column == ID;
      assert indexes[1..][i - 1].column == ID;
      AcceptedIsNew(indexes[1..], cs, row, limit);
    }
  }

  lemma StillIndexed(a: seq<Index>, b: seq<Index>)
    requires SameColumns(a, b) && Indexed(b)
    ensures Indexed(a)
  {
    var i :| 0 <= i < |b| && b[i].column == ID;
    assert a[i].column == ID;
  }

  lemma InsertNext(m: Ids, rows: seq<Row>, i: nat)
    requires i < |rows| && (RowKey(rows[i], ID).Some? ==> RowKey(rows[i], ID).value !in m)
    ensures InsertIds(m, rows[i..]) == InsertIds(m + IdOf(Some(rows[i])), rows[i + 1..])
  {
    assert rows[i..][0] == rows[i] && rows[i..][1..] == rows[i + 1..];
    assert RowKey(rows[i], ID).None? ==> m + multiset{} == m;
  }

  /** Inserting rows one by one into a table. */
  method InsertRows(table: Table, rows: seq<Row>) returns (e: Option<string>)
    requires table.Valid() && Indexed(table.indexes)
    modifies table`pages, table`indexes
    ensures table.Valid() && Indexed(table.indexes)
    ensures e.None? ==> InsertIds(old(IdKeys(table.Cells())), rows) == Some(IdKeys(table.Cells()))
    ensures e == Some(DUPLICATE_ID) ==> InsertIds(old(IdKeys(table.Cells())), rows).None?
    ensures e.Some? ==> e.value in ERRORS
  {
    hide IdKeys, Flat, Agree, PagesOk, HeapCells.Live, FirstRefusal;
    var i: nat := 0;
    while i < |rows|
      invariant i <= |rows| && table.Valid() && Indexed(table.indexes)
      invariant InsertIds(old(IdKeys(table.Cells())), rows) == InsertIds(IdKeys(table.Cells()), rows[i..])
    {
      ghost var cs, indexes := table.Cells(), table.indexes;
      assert rows[i..][0] == rows[i] && rows[i..][1..] == rows[i + 1..];
      var r := table.InsertRow(rows[i]);
      if r.Err? {
        TooLargeIsOther();
        RefusalIs(indexes, rows[i], table.keyLimit);
        if r.error == DUPLICATE_ID {
          DuplicateMeans(indexes, cs, rows[i], table.keyLimit);
        }
        return Some(r.error);
      }
      AcceptedIsNew(indexes, cs, rows[i], table.keyLimit);
      InsertNext(IdKeys(cs), rows, i);
      PlaceAgrees(cs, Cell(Pack(r.value.0, r.value.1), Some(rows[i])));
      StillIndexed(table.indexes, indexes);
      i := i + 1;
    }
    return None;
  }

  const NOT_STORABLE := "row cannot be stored"

  /** What can stop an operation. */
  const ERRORS := {DUPLICATE_ID, KEY_TOO_LONG, TOO_LARGE, NOT_STORABLE}

  lemma {:induction false} RefusalIs(indexes: seq<Index>, row: Row, limit: nat)
    ensures FirstRefusal(indexes, row, limit).Some? ==> FirstRefusal(indexes, row, limit).value in {DUPLICATE_ID, KEY_TOO_LONG}
    decreases |indexes|
  {
    if indexes != [] {
      RefusalIs(indexes[1..], row, limit);
    }
  }

  lemma TooLargeIsOther()
    ensures TOO_LARGE != DUPLICATE_ID
  {
    assert |TOO_LARGE| != |DUPLICATE_ID|;
  }

  // ---- Whole groups ----

  /** No table under two names. */
  predicate Apart(db: map<string, Table>) {
    forall a, b | a in db && b in db && a != b :: db[a] != db[b]
  }

  ghost predicate Ready(db: map<string, Table>)
    reads set t | t in db :: db[t]
  {
    Apart(db) && forall t <- db :: db[t].Valid() && Indexed(db[t].indexes)
  }

  /** The id keys of all tables. */
  ghost function IdsIn(db: map<string, Table>): Tables
    reads set t | t in db :: db[t]
  {
    map t | t in db :: IdKeys(db[t].Cells())
  }

  /** The id keys that a group leads to. */
  function Stepped(ts: Tables, ops: seq<IdOp>): Tables
    requires Applies(ts, ops)
    decreases |ops|
  {
    if ops == [] then ts else Stepped(ApplyOp(ts, ops[0]).value, ops[1..])
  }

  /** The tables with this one, as it is or new. */
  method TableFor(db: map<string, Table>, name: string, page: nat, limit: nat, size: Row -> nat) returns (db': map<string, Table>)
    requires Ready(db) && page <= MAX_PAGE && limit <= IndexCalls.MAX_KEY
    ensures Ready(db') && name in db' && db' == db[name := db'[name]] && (name in db ==> db' == db) && (name !in db ==> fresh(db'[name]))
    ensures IdsIn(db') == old(IdsIn(db))[name := IdsOf(old(IdsIn(db)), name)]
  {
    hide IdKeys, Flat, Agree, PagesOk, Indexed;
    db' := db;
    if name !in db {
      var table := NewTable(page, limit, size);
      db' := db[name := table];
    }
  }

  method NewTable(page: nat, limit: nat, size: Row -> nat) returns (table: Table)
    requires page <= MAX_PAGE && limit <= IndexCalls.MAX_KEY
    ensures fresh(table) && table.Valid() && Indexed(table.indexes) && IdKeys(table.Cells()) == multiset{}
  {
    table := new Table(page, limit, size, [ID]);
    assert table.indexes[0].column == ID;
    NewAgrees(table.Cells(), []);
  }

  /** The ids of the table of an operation after it. */
  function OneTable(m: Ids, op: IdOp): Option<Ids>
    requires !op.Other?
  {
    match op
    case Insert(_, rows) => InsertIds(m, rows)
    case DeleteKeys(_, keys) => Some(RemoveIds(m, KeysOf(keys)))
    case Replace(_, rows) => Some(RowIds(rows))
    case Renew(_) => Some(multiset{})
  }

  lemma ApplyOpIs(ts: Tables, op: IdOp)
    requires !op.Other?
    ensures var m := OneTable(IdsOf(ts, op.table), op);
      ApplyOp(ts, op) == if m.None? then None else Some(ts[op.table := m.value])
  {
  }

  /** An operation on its table. */
  method ChangeTable(table: Table, op: IdOp) returns (e: Option<string>)
    requires table.Valid() && Indexed(table.indexes) && !op.Other? && !op.Renew?
    modifies table`pages, table`indexes
    ensures table.Valid() && Indexed(table.indexes)
    ensures e.None? ==> OneTable(old(IdKeys(table.Cells())), op) == Some(IdKeys(table.Cells()))
    ensures e == Some(DUPLICATE_ID) ==> OneTable(old(IdKeys(table.Cells())), op).None?
    ensures e.Some? ==> e.value in ERRORS
  {
    hide IdKeys, Flat, Agree, PagesOk, InsertIds, RemoveIds, RowIds, Targets, HeapCells.Live, ClearAll;
    ghost var cs, indexes := table.Cells(), table.indexes;
    match op {
      case Insert(_, rows) =>
        e := InsertRows(table, rows);
      case DeleteKeys(_, keys) =>
        ClimbsHere(table.pages, table.pageSize);
        var deleted := table.DeleteByKeys(keys);
        DeleteAgrees(cs, KeysOf(keys));
        StillIndexed(table.indexes, indexes);
        e := None;
      case Replace(_, rows) =>
        var ok := table.ReplaceAll(rows);
        StillIndexed(table.indexes, indexes);
        if ok {
          ReplaceAgrees(table.Cells(), rows, []);
          e := None;
        } else {
          NotStorableIsOther();
          e := Some(NOT_STORABLE);
        }
    }
  }

  /** One operation on the tables; an error leaves the group unfinished. */
  method ApplyOne(db: map<string, Table>, op: IdOp, page: nat, limit: nat, size: Row -> nat) returns (r: Result<map<string, Table>>)
    requires Ready(db) && page <= MAX_PAGE && limit <= IndexCalls.MAX_KEY
    modifies set t | t in db :: db[t]
    ensures r.Ok? ==> Ready(r.value) && forall t <- r.value :: (t in db && r.value[t] == db[t]) || fresh(r.value[t])
    ensures r.Ok? ==> ApplyOp(old(IdsIn(db)), op) == Some(IdsIn(r.value))
    ensures r.Err? && r.error == DUPLICATE_ID ==> ApplyOp(old(IdsIn(db)), op).None?
    ensures r.Err? ==> r.error in ERRORS
  {
    hide IdKeys, Flat, Agree, PagesOk, Indexed, ApplyOp, OneTable, IdsIn, Ready;
    if op.Other? {
      OtherIs(IdsIn(db), op);
      return Ok(db);
    }
    ApplyOpIs(IdsIn(db), op);
    if op.Renew? {
      RenewIs(IdsOf(IdsIn(db), op.table), op);
      var db' := RenewIn(db, op.table, page, limit, size);
      return Ok(db');
    } else {
      r := ChangeIn(db, op, page, limit, size);
    }
  }

  method RenewIn(db: map<string, Table>, name: string, page: nat, limit: nat, size: Row -> nat) returns (db': map<string, Table>)
    requires Ready(db) && page <= MAX_PAGE && limit <= IndexCalls.MAX_KEY
    ensures Ready(db') && forall t <- db' :: (t in db && db'[t] == db[t]) || fresh(db'[t])
    ensures IdsIn(db') == old(IdsIn(db))[name := multiset{}]
  {
    hide IdKeys, Flat, Agree, PagesOk, Indexed;
    var table := NewTable(page, limit, size);
    db' := db[name := table];
  }

  method ChangeIn(db: map<string, Table>, op: IdOp, page: nat, limit: nat, size: Row -> nat) returns (r: Result<map<string, Table>>)
    requires Ready(db) && page <= MAX_PAGE && limit <= IndexCalls.MAX_KEY && !op.Other? && !op.Renew?
    modifies set t | t in db :: db[t]
    ensures r.Ok? ==> Ready(r.value) && forall t <- r.value :: (t in db && r.value[t] == db[t]) || fresh(r.value[t])
    ensures var m := OneTable(IdsOf(old(IdsIn(db)), op.table), op);
      && (r.Ok? ==> m.Some? && IdsIn(r.value) == old(IdsIn(db))[op.table := m.value])
      && (r.Err? && r.error == DUPLICATE_ID ==> m.None?)
    ensures r.Err? ==> r.error in ERRORS
  {
    hide IdKeys, Flat, Agree, PagesOk, Indexed, OneTable, Ready, IdsIn;
    var db' := TableFor(db, op.table, page, limit, size);
    var e := ChangeNamed(db', op);
    if e.Some? {
      return Err(e.value);
    }
    return Ok(db');
  }

  method ChangeNamed(db: map<string, Table>, op: IdOp) returns (e: Option<string>)
    requires Ready(db) && !op.Other? && !op.Renew? && op.table in db
    modifies db[op.table]
    ensures Ready(db)
    ensures var m := OneTable(IdsOf(old(IdsIn(db)), op.table), op);
      && (e.None? ==> m.Some? && IdsIn(db) == old(IdsIn(db))[op.table := m.value])
      && (e == Some(DUPLICATE_ID) ==> m.None?)
    ensures e.Some? ==> e.value in ERRORS
  {
    hide IdKeys, Flat, Agree, PagesOk, Indexed, OneTable;
    e := ChangeTable(db[op.table], op);
  }

  lemma OtherIs(ts: Tables, op: IdOp)
    requires op.Other?
    ensures ApplyOp(ts, op) == Some(ts)
  {
  }

  lemma RenewIs(m: Ids, op: IdOp)
    requires op.Renew?
    ensures OneTable(m, op) == Some(multiset{})
  {
  }

  lemma NotStorableIsOther()
    ensures NOT_STORABLE != DUPLICATE_ID
  {
    assert |NOT_STORABLE| != |DUPLICATE_ID|;
  }

  /** A group applied to the tables, operation by operation. When it goes through, no operation met
      a duplicate and the ids are those the preflight stepped through; a group that the preflight
      accepts never stops at a duplicate id, only at a row that cannot be stored. */
  method ApplyAll(db0: map<string, Table>, ops: seq<IdOp>, page: nat, limit: nat, size: Row -> nat) returns (r: Result<map<string, Table>>)
    requires Ready(db0) && page <= MAX_PAGE && limit <= IndexCalls.MAX_KEY
    modifies set t | t in db0 :: db0[t]
    ensures r.Ok? ==> Ready(r.value) && Applies(old(IdsIn(db0)), ops) && IdsIn(r.value) == Stepped(old(IdsIn(db0)), ops)
    ensures r.Err? && r.error == DUPLICATE_ID ==> !Applies(old(IdsIn(db0)), ops)
    ensures r.Err? ==> r.error in ERRORS
  {
    hide IdKeys, Flat, Agree, PagesOk, Indexed, ApplyOp;
    var db := db0;
    var i: nat := 0;
    ghost var ts := IdsIn(db0);
    while i < |ops|
      invariant i <= |ops| && Ready(db)
      invariant forall t <- db :: (t in db0 && db[t] == db0[t]) || fresh(db[t])
      invariant Applies(ts, ops) == Applies(IdsIn(db), ops[i..])
      invariant Applies(ts, ops) ==> Stepped(ts, ops) == Stepped(IdsIn(db), ops[i..])
    {
      assert ops[i..][0] == ops[i] && ops[i..][1..] == ops[i + 1..];
      ghost var now := IdsIn(db);
      var step := ApplyOne(db, ops[i], page, limit, size);
      if step.Err? {
        return Err(step.error);
      }
      db := step.value;
      i := i + 1;
    }
    return Ok(db);
  }
}
