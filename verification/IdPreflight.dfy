/** The id preflight of a commit group (runtime.rs `validate_insert_ids`): counts of id keys,
    read from the tables when first needed and adjusted operation by operation, against what
    applying the operations in order would do. */
module IdPreflight {
  import opened Basics
  import opened Rows
  import opened HeapCells
  import opened HeapTable

  /** Log operations by what they do to the id keys of a table. */
  datatype IdOp =
    | Insert(table: string, rows: seq<Row>)
    | DeleteKeys(table: string, keys: seq<i64>)
    | Replace(table: string, rows: seq<Row>)
    | Renew(table: string)
    | Other

  type Ids = multiset<Bytes>
  type Tables = map<string, Ids>

  // ---- Applying the operations ----

  /** A table that does not exist has no ids. */
  function IdsOf(ts: Tables, table: string): Ids {
    if table in ts then ts[table] else multiset{}
  }

  /** Inserting rows one by one; None at the first duplicate id. */
  function InsertIds(m: Ids, rows: seq<Row>): Option<Ids>
    decreases |rows|
  {
    if rows == [] then Some(m)
    else match RowKey(rows[0], ID)
      case None => InsertIds(m, rows[1..])
      case Some(key) => if key in m then None else InsertIds(m + multiset{key}, rows[1..])
  }

  /** One row less under every key named, however often it is named. */
  function RemoveIds(m: Ids, keys: seq<Bytes>): Ids {
    if keys == [] then m
    else
      var init, last := keys[..|keys| - 1], keys[|keys| - 1];
      if last in init then RemoveIds(m, init) else RemoveIds(m, init) - multiset{last}
  }

  function RowIds(rows: seq<Row>): Ids {
    if rows == [] then multiset{} else RowIds(rows[..|rows| - 1]) + IdOf(Some(rows[|rows| - 1]))
  }

  /** None if the operation meets a duplicate id. */
  function ApplyOp(ts: Tables, op: IdOp): Option<Tables> {
    match op
    case Insert(t, rows) =>
      var m := InsertIds(IdsOf(ts, t), rows);
      if m.None? then None else Some(ts[t := m.value])
    case DeleteKeys(t, keys) => Some(ts[t := RemoveIds(IdsOf(ts, t), KeysOf(keys))])
    case Replace(t, rows) => Some(ts[t := RowIds(rows)])
    case Renew(t) => Some(ts[t := multiset{}])
    case Other => Some(ts)
  }

  /** Applying the operations in order never meets a duplicate id. */
  predicate Applies(ts: Tables, ops: seq<IdOp>)
    decreases |ops|
  {
    ops == [] || (ApplyOp(ts, ops[0]).Some? && Applies(ApplyOp(ts, ops[0]).value, ops[1..]))
  }

  // ---- The tables do what the id keys say ----

  lemma {:induction false} RemovedCount(m: Ids, keys: seq<Bytes>, key: Bytes)
    ensures RemoveIds(m, keys)[key] == if key in keys && key in m then m[key] - 1 else m[key]
    decreases |keys|
  {
    if keys != [] {
      var init := keys[..|keys| - 1];
      RemovedCount(m, init, key);
      InSnoc(keys, key);
    }
  }

  /** Deleting by keys on a table removes exactly these ids. */
  lemma DeleteAgrees(cs: seq<Cell>, keys: seq<Bytes>)
    requires Climbs(cs)
    ensures IdKeys(ClearAll(cs, Targets(cs, keys))) == RemoveIds(IdKeys(cs), keys)
  {
    forall key: Bytes
      ensures IdKeys(ClearAll(cs, Targets(cs, keys)))[key] == RemoveIds(IdKeys(cs), keys)[key]
    {
      TargetCounts(cs, keys, key);
      RemovedCount(IdKeys(cs), keys, key);
    }
  }

  /** The id index of a table refuses a key of acceptable length exactly if a live row has it. */
  lemma InsertAgrees(index: Index, cs: seq<Cell>, row: Row, limit: nat)
    requires index.column == ID && index.entries == Entries(cs, ID) && RowKey(row, ID).Some? && |RowKey(row, ID).value| <= limit
    ensures Refusal(index, row, limit) == Some(DUPLICATE_ID) <==> RowKey(row, ID).value in IdKeys(cs)
  {
    var key := RowKey(row, ID).value;
    IdIff(cs, key);
    if i :| 0 <= i < |cs| && LiveWith(cs[i], ID, key) {
      EntryIff(cs, ID, key, cs[i].pos);
      assert (key, cs[i].pos) in index.entries;
    }
    if e :| e in index.entries && e.0 == key {
      EntryIff(cs, ID, key, e.1);
      var i :| 0 <= i < |cs| && cs[i].pos == e.1 && cs[i].row.Some? && RowKey(cs[i].row.value, ID) == Some(key);
      assert LiveWith(cs[i], ID, key);
    }
  }

  // ---- The preflight ----

  /** The pending ids of one table. */
  datatype Pending = Pending(replaced: bool, counts: map<Bytes, nat>)

  const FRESH: Pending := Pending(false, map[])

  /** The count under a key: recorded, or still that of the table. */
  function Count(p: Pending, base: Ids, key: Bytes): nat {
    if key in p.counts then p.counts[key] else if p.replaced then 0 else base[key]
  }

  /** The counts stand for the ids `m`. */
  ghost predicate Tracks(p: Pending, base: Ids, m: Ids) {
    forall key: Bytes :: Count(p, base, key) == m[key]
  }

  function PendingOf(ps: map<string, Pending>, table: string): Pending {
    if table in ps then ps[table] else FRESH
  }

  ghost predicate TracksAll(ps: map<string, Pending>, base: Tables, now: Tables) {
    forall t: string :: Tracks(PendingOf(ps, t), IdsOf(base, t), IdsOf(now, t))
  }

  method CheckInsert(p0: Pending, base: Ids, rows: seq<Row>, ghost m0: Ids) returns (r: Option<Pending>)
    requires Tracks(p0, base, m0)
    ensures r.None? <==> InsertIds(m0, rows).None?
    ensures r.Some? ==> Tracks(r.value, base, InsertIds(m0, rows).value)
  {
    var p := p0;
    ghost var m := m0;
    var i: nat := 0;
    while i < |rows|
      invariant i <= |rows| && Tracks(p, base, m) && InsertIds(m0, rows) == InsertIds(m, rows[i..])
    {
      assert rows[i..][1..] == rows[i + 1..];
      var key := RowKey(rows[i], ID);
      if key.Some? {
        var count := Count(p, base, key.value);
        if count > 0 {
          return None;
        }
        Recorded(p, base, m, key.value, m + multiset{key.value}, 1);
        p := p.(counts := p.counts[key.value := 1]);
        m := m + multiset{key.value};
      }
      i := i + 1;
    }
    return Some(p);
  }

  lemma Recorded(p: Pending, base: Ids, m: Ids, key: Bytes, m': Ids, n: nat)
    requires Tracks(p, base, m) && m'[key] == n && forall k: Bytes | k != key :: m'[k] == m[k]
    ensures Tracks(p.(counts := p.counts[key := n]), base, m')
  {
    var p' := p.(counts := p.counts[key := n]);
    forall k: Bytes
      ensures Count(p', base, k) == m'[k]
    {
      assert Count(p, base, k) == m[k];
    }
  }

  method CheckDelete(p0: Pending, base: Ids, keys: seq<i64>, ghost m0: Ids) returns (p: Pending)
    requires Tracks(p0, base, m0)
    ensures Tracks(p, base, RemoveIds(m0, KeysOf(keys)))
  {
    hide Tracks, RemoveIds, KeyOf;
    p := p0;
    var seen: set<i64> := {};
    NothingRemoved(m0, KeysOf(keys));
    for i := 0 to |keys|
      invariant Tracks(p, base, RemoveIds(m0, KeysOf(keys)[..i]))
      invariant forall k :: k in seen <==> k in keys[..i]
    {
      RemoveNext(m0, keys, i);
      assert keys[..i + 1] == keys[..i] + [keys[i]];
      if keys[i] !in seen {
        seen := seen + {keys[i]};
        p := Lessen(p, base, KeyOf(keys[i]), RemoveIds(m0, KeysOf(keys)[..i]));
      }
    }
    assert KeysOf(keys)[..|keys|] == KeysOf(keys);
  }

  /** `*count = count.saturating_sub(1)`. */
  method Lessen(p: Pending, base: Ids, key: Bytes, ghost m: Ids) returns (p': Pending)
    requires Tracks(p, base, m)
    ensures Tracks(p', base, m - multiset{key})
  {
    var count := Count(p, base, key);
    var less: nat := if count == 0 then 0 else count - 1;
    Recorded(p, base, m, key, m - multiset{key}, less);
    p' := p.(counts := p.counts[key := less]);
  }

  lemma NothingRemoved(m: Ids, keys: seq<Bytes>)
    ensures RemoveIds(m, keys[..0]) == m
  {
  }

  lemma RemoveNext(m: Ids, keys: seq<i64>, i: nat)
    requires i < |keys|
    ensures var before := RemoveIds(m, KeysOf(keys)[..i]);
      RemoveIds(m, KeysOf(keys)[..i + 1]) == if keys[i] in keys[..i] then before else before - multiset{KeyOf(keys[i])}
  {
    hide KeyOf;
    SeenKey(keys, i);
    assert KeysOf(keys)[..i + 1][..i] == KeysOf(keys)[..i];
  }

  lemma SeenKey(keys: seq<i64>, i: nat)
    requires i < |keys|
    ensures KeyOf(keys[i]) in KeysOf(keys)[..i] <==> keys[i] in keys[..i]
  {
    if KeyOf(keys[i]) in KeysOf(keys)[..i] {
      var j :| 0 <= j < i && KeysOf(keys)[j] == KeyOf(keys[i]);
      KeyOfOrder(keys[j], keys[i]);
      assert keys[..i][j] == keys[i];
    }
    if keys[i] in keys[..i] {
      var j :| 0 <= j < i && keys[..i][j] == keys[i];
      assert KeysOf(keys)[..i][j] == KeyOf(keys[i]);
    }
  }

  method CheckReplace(rows: seq<Row>, ghost base: Ids) returns (p: Pending)
    ensures Tracks(p, base, RowIds(rows))
  {
    p := Pending(true, map[]);
    for i := 0 to |rows|
      invariant p.replaced && Tracks(p, base, RowIds(rows[..i]))
    {
      assert rows[..i + 1][..i] == rows[..i];
      var key := RowKey(rows[i], ID);
      if key.Some? {
        var n: nat := if key.value in p.counts then p.counts[key.value] else 0;
        ghost var m := RowIds(rows[..i]);
        assert Count(p, base, key.value) == m[key.value];
        Recorded(p, base, m, key.value, m + multiset{key.value}, n + 1);
        p := p.(counts := p.counts[key.value := n + 1]);
      }
    }
    assert rows[..|rows|] == rows;
  }

  lemma TrackedTable(ps: map<string, Pending>, base: Tables, now: Tables, t: string, p: Pending, m: Ids)
    requires TracksAll(ps, base, now) && Tracks(p, IdsOf(base, t), m)
    ensures TracksAll(ps[t := p], base, now[t := m])
  {
    forall u: string
      ensures Tracks(PendingOf(ps[t := p], u), IdsOf(base, u), IdsOf(now[t := m], u))
    {
      assert Tracks(PendingOf(ps, u), IdsOf(base, u), IdsOf(now, u));
    }
  }

  /** `validate_insert_ids` accepts a group exactly if applying its operations in order to the
      tables never meets the duplicate-id error. */
  method ValidateInsertIds(base: Tables, ops: seq<IdOp>) returns (ok: bool)
    ensures ok <==> Applies(base, ops)
  {
    hide Tracks, InsertIds, RemoveIds, RowIds, TracksAll;
    var ps: map<string, Pending> := map[];
    ghost var now := base;
    Untouched(base);
    var i: nat := 0;
    while i < |ops|
      invariant i <= |ops| && TracksAll(ps, base, now) && Applies(base, ops) == Applies(now, ops[i..])
    {
      var op := ops[i];
      assert ops[i..][0] == op && ops[i..][1..] == ops[i + 1..];
      if !op.Other? {
        var step := CheckOp(ps, base, op, now);
        if step.None? {
          return false;
        }
        ps := step.value;
      }
      now := ApplyOp(now, op).value;
      i := i + 1;
    }
    return true;
  }

  lemma Untouched(base: Tables)
    ensures TracksAll(map[], base, base)
  {
  }

  /** One operation of the group. */
  method CheckOp(ps: map<string, Pending>, base: Tables, op: IdOp, ghost now: Tables) returns (r: Option<map<string, Pending>>)
    requires TracksAll(ps, base, now) && !op.Other?
    ensures r.None? <==> ApplyOp(now, op).None?
    ensures r.Some? ==> TracksAll(r.value, base, ApplyOp(now, op).value)
  {
    hide Tracks, InsertIds, RemoveIds, RowIds;
    var t := op.table;
    assert Tracks(PendingOf(ps, t), IdsOf(base, t), IdsOf(now, t));
    var p;
    match op {
      case Insert(_, rows) =>
        var inserted := CheckInsert(PendingOf(ps, t), IdsOf(base, t), rows, IdsOf(now, t));
        if inserted.None? {
          return None;
        }
        p := inserted.value;
      case DeleteKeys(_, keys) =>
        p := CheckDelete(PendingOf(ps, t), IdsOf(base, t), keys, IdsOf(now, t));
      case Replace(_, rows) =>
        p := CheckReplace(rows, IdsOf(base, t));
      case Renew(_) =>
        p := Pending(true, map[]);
        Emptied(IdsOf(base, t));
    }
    TrackedTable(ps, base, now, t, p, ApplyOp(now, op).value[t]);
    return Some(ps[t := p]);
  }

  lemma Emptied(base: Ids)
    ensures Tracks(Pending(true, map[]), base, multiset{})
  {
  }
}
