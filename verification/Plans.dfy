/** A transaction's wanted rows mapped to stable row ids, and their merge into the
    current rows at commit (mvcc.rs `plans`, `merged_ops`, `preview`). */
module Plans {
  import opened Basics
  import opened Rows
  import opened Matching
  import opened Versions
  import opened Publish

  datatype StorageOp =
    | Upsert(table: string, rows: seq<Row>)
    | Delete(table: string, ids: seq<i64>)
    | Replace(table: string, rows: seq<Row>)

  /** Deleting by id: every id removes at most one row, the first that has it. */
  function DropKeys(rows: seq<Row>, keys: set<i64>): seq<Row> {
    if rows == [] then []
    else if IntOf(rows[0], ID).Some? && IntOf(rows[0], ID).value in keys
    then DropKeys(rows[1..], keys - {IntOf(rows[0], ID).value})
    else [rows[0]] + DropKeys(rows[1..], keys)
  }

  /** One operation on the rows of its table. */
  function Edit(rows: seq<Row>, op: StorageOp): seq<Row> {
    match op
    case Replace(_, incoming) => incoming
    case Upsert(_, incoming) => rows + incoming
    case Delete(_, ids) => DropKeys(rows, set k | k in ids)
  }

  // ---- Mapping wanted rows to row ids ----

  /** The wanted rows with the snapshot row each continues, and the snapshot rows
      that are removed. */
  datatype Change = Change(ids: seq<Option<nat>>, rows: seq<Row>, removed: set<nat>)

  /** First pass: the ids of the matched rows. */
  function Matched(ids: seq<nat>, priors: seq<Option<nat>>): (r: seq<Option<nat>>)
    requires PriorsWithin(priors, |ids|)
    ensures |r| == |priors|
  {
    seq(|priors|, j requires 0 <= j < |priors| => if priors[j].Some? then Some(ids[priors[j].value]) else None)
  }

  predicate Keyless(row: Row) {
    UniqueKey(row, ID).None?
  }

  /** Snapshot rows left over for rows without a business key, in row order. */
  function Leftover(shown: seq<(nat, Seen)>, taken: seq<Option<nat>>): (r: seq<nat>)
    ensures forall id | id in r :: id in IdsOf(shown) && Some(id) !in taken
  {
    if shown == [] then [] else
    var rest := Leftover(shown[1..], taken);
    assert forall id | id in IdsOf(shown[1..]) :: id in IdsOf(shown) by {
      assert IdsOf(shown) == [shown[0].0] + IdsOf(shown[1..]);
    }
    assert shown[0].0 == IdsOf(shown)[0];
    if Some(shown[0].0) !in taken && Keyless(shown[0].1.row) then [shown[0].0] + rest else rest
  }

  /** Second pass: unmatched rows without a key take the leftovers in order. */
  function Pair(ids: seq<Option<nat>>, rows: seq<Row>, free: seq<nat>): (r: seq<Option<nat>>)
    requires |ids| == |rows|
    ensures |r| == |rows|
  {
    if rows == [] then []
    else if ids[0].None? && Keyless(rows[0]) && free != [] then [Some(free[0])] + Pair(ids[1..], rows[1..], free[1..])
    else [ids[0]] + Pair(ids[1..], rows[1..], free)
  }

  function RetainedIds(ids: seq<Option<nat>>): set<nat> {
    set j | 0 <= j < |ids| && ids[j].Some? :: ids[j].value
  }

  /** mvcc.rs `plans` for one table: `shown` are its rows in the snapshot. */
  function ChangeOf(shown: seq<(nat, Seen)>, rows: seq<Row>): (c: Change)
    ensures |c.ids| == |c.rows|
  {
    MatchInjective(RowsOf(shown), rows, {});
    var first := Matched(IdsOf(shown), Match(RowsOf(shown), rows, {}));
    var ids := Pair(first, rows, Leftover(shown, first));
    Change(ids, rows, (set i | i in IdsOf(shown)) - RetainedIds(ids))
  }

  predicate Injective(ids: seq<Option<nat>>) {
    forall i, j | 0 <= i < j < |ids| && ids[i].Some? :: ids[i] != ids[j]
  }

  lemma {:induction false} LeftoverDistinct(shown: seq<(nat, Seen)>, taken: seq<Option<nat>>)
    requires Distinct(IdsOf(shown))
    ensures Distinct(Leftover(shown, taken))
  {
    if shown != [] {
      assert IdsOf(shown) == [shown[0].0] + IdsOf(shown[1..]);
      assert forall i | 0 <= i < |shown[1..]| :: IdsOf(shown[1..])[i] == IdsOf(shown)[i + 1];
      LeftoverDistinct(shown[1..], taken);
      var rest := Leftover(shown[1..], taken);
      forall i | 0 <= i < |rest|
        ensures rest[i] != shown[0].0
      {
        assert rest[i] in IdsOf(shown[1..]);
        assert IdsOf(shown)[0] == shown[0].0;
      }
    }
  }

  /** Pairing keeps the matches and gives every leftover at most once. */
  lemma {:induction false} PairInjective(ids: seq<Option<nat>>, rows: seq<Row>, free: seq<nat>)
    requires |ids| == |rows| && Injective(ids) && Distinct(free)
    requires forall id | id in free :: Some(id) !in ids
    ensures Injective(Pair(ids, rows, free))
    ensures forall j | 0 <= j < |rows| && Pair(ids, rows, free)[j].Some? ::
              Pair(ids, rows, free)[j] == ids[j] || Pair(ids, rows, free)[j].value in free
  {
    if rows != [] {
      var taken := ids[0].None? && Keyless(rows[0]) && free != [];
      var free' := if taken then free[1..] else free;
      assert forall j | 0 <= j < |ids[1..]| :: ids[1..][j] == ids[j + 1];
      assert forall id | id in free' :: id in free;
      PairInjective(ids[1..], rows[1..], free');
      PairHead(ids, rows, free, free');
    }
  }

  lemma PairHead(ids: seq<Option<nat>>, rows: seq<Row>, free: seq<nat>, free': seq<nat>)
    requires |ids| == |rows| && rows != [] && Injective(ids) && Distinct(free)
    requires forall id | id in free :: Some(id) !in ids
    requires free' == if ids[0].None? && Keyless(rows[0]) && free != [] then free[1..] else free
    requires Injective(Pair(ids[1..], rows[1..], free'))
    requires forall j | 0 <= j < |rows| - 1 && Pair(ids[1..], rows[1..], free')[j].Some? ::
               Pair(ids[1..], rows[1..], free')[j] == ids[j + 1] || Pair(ids[1..], rows[1..], free')[j].value in free'
    ensures Injective(Pair(ids, rows, free))
    ensures forall j | 0 <= j < |rows| && Pair(ids, rows, free)[j].Some? ::
              Pair(ids, rows, free)[j] == ids[j] || Pair(ids, rows, free)[j].value in free
  {
    var rest := Pair(ids[1..], rows[1..], free');
    var all := Pair(ids, rows, free);
    assert all == [all[0]] + rest;
    forall j | 0 <= j < |rest| && rest[j].Some?
      ensures rest[j] != all[0]
    {
      if rest[j] == ids[j + 1] {
        assert ids[j + 1] in ids;
        assert all[0].Some? && all[0] != ids[0] ==> all[0].value == free[0] && free[0] in free;
      } else {
        assert rest[j].value in free;
        if all[0] != ids[0] {
          assert free'[..] == free[1..];
          var k :| 0 <= k < |free'| && free'[k] == rest[j].value;
          assert free[k + 1] == rest[j].value;
        } else {
          assert ids[0] in ids;
        }
      }
    }
  }

  /** Rows before `j` that ask for a leftover. */
  function Asking(ids: seq<Option<nat>>, rows: seq<Row>, j: nat): nat
    requires |ids| == |rows| && j <= |rows|
  {
    if j == 0 then 0 else Asking(ids, rows, j - 1) + if ids[j - 1].None? && Keyless(rows[j - 1]) then 1 else 0
  }

  /** The m-th row that asks takes the m-th leftover; all others keep what they matched. */
  lemma {:induction false} PairExact(ids: seq<Option<nat>>, rows: seq<Row>, free: seq<nat>, j: nat)
    requires |ids| == |rows| && j < |rows|
    ensures var m := Asking(ids, rows, j);
      Pair(ids, rows, free)[j] == if ids[j].None? && Keyless(rows[j]) && m < |free| then Some(free[m]) else ids[j]
    decreases |rows|
  {
    hide Keyless;
    if j > 0 {
      var asks := ids[0].None? && Keyless(rows[0]);
      AskingTail(ids, rows, j);
      PairExact(ids[1..], rows[1..], if asks && free != [] then free[1..] else free, j - 1);
    }
  }

  lemma {:induction false} AskingTail(ids: seq<Option<nat>>, rows: seq<Row>, j: nat)
    requires |ids| == |rows| && 0 < j <= |rows|
    ensures Asking(ids, rows, j) == Asking(ids[1..], rows[1..], j - 1) + if ids[0].None? && Keyless(rows[0]) then 1 else 0
    decreases j
  {
    if j > 1 {
      AskingTail(ids, rows, j - 1);
    }
  }

  /** The leftovers, from left to right: the rows without a key that nobody matched. */
  lemma {:induction false} LeftoverNext(shown: seq<(nat, Seen)>, taken: seq<Option<nat>>, n: nat)
    requires n < |shown|
    ensures Leftover(shown[..n + 1], taken) ==
      Leftover(shown[..n], taken) + if Some(shown[n].0) !in taken && Keyless(shown[n].1.row) then [shown[n].0] else []
    decreases n
  {
    if n > 0 {
      assert shown[..n + 1][1..] == shown[1..][..n] && shown[..n][1..] == shown[1..][..n - 1];
      LeftoverNext(shown[1..], taken, n - 1);
    }
  }

  /** The row is the first with an id among the keys. */
  predicate FirstHit(rows: seq<Row>, keys: set<i64>, n: nat)
    requires n < |rows|
  {
    && IntOf(rows[n], ID).Some? && IntOf(rows[n], ID).value in keys
    && forall i | 0 <= i < n :: IntOf(rows[i], ID) != IntOf(rows[n], ID)
  }

  /** Deleting by ids, from left to right: exactly the first row of each id goes. */
  lemma {:induction false} DropKeysNext(rows: seq<Row>, keys: set<i64>, n: nat)
    requires n < |rows|
    ensures DropKeys(rows[..n + 1], keys) == DropKeys(rows[..n], keys) + if FirstHit(rows, keys, n) then [] else [rows[n]]
    decreases n
  {
    hide IntOf;
    if n == 0 {
      assert rows[..1][1..] == [] && rows[..1][0] == rows[0];
    } else {
      var row, rest := rows[0], rows[1..];
      assert rows[..n + 1][1..] == rest[..n] && rows[..n][1..] == rest[..n - 1];
      var hit := IntOf(row, ID).Some? && IntOf(row, ID).value in keys;
      var keys' := if hit then keys - {IntOf(row, ID).value} else keys;
      DropKeysNext(rest, keys', n - 1);
      FirstHitTail(rows, keys, n);
    }
  }

  lemma FirstHitTail(rows: seq<Row>, keys: set<i64>, n: nat)
    requires 0 < n < |rows|
    ensures var hit := IntOf(rows[0], ID).Some? && IntOf(rows[0], ID).value in keys;
      FirstHit(rows, keys, n) <==> FirstHit(rows[1..], if hit then keys - {IntOf(rows[0], ID).value} else keys, n - 1)
  {
    hide IntOf;
    assert forall i | 0 <= i < n :: rows[1..][i] == rows[i + 1];
    assert rows[1..][n - 1] == rows[n];
  }

  /** Every row of the snapshot is used exactly once: it continues in exactly one
      wanted row, or it is removed. */
  lemma ChangePartition(view: map<nat, Seen>, rows: seq<Row>)
    ensures var c := ChangeOf(Ordered(view), rows);
      && c.rows == rows && |c.ids| == |rows|
      && Injective(c.ids)
      && RetainedIds(c.ids) <= view.Keys
      && c.removed == view.Keys - RetainedIds(c.ids)
  {
    var shown := Ordered(view);
    OrderedDistinct(view);
    MatchInjective(RowsOf(shown), rows, {});
    var priors := Match(RowsOf(shown), rows, {});
    var first := Matched(IdsOf(shown), priors);
    MatchedInjective(IdsOf(shown), priors);
    LeftoverDistinct(shown, first);
    var free := Leftover(shown, first);
    PairInjective(first, rows, free);
    var ids := Pair(first, rows, free);
    forall j | 0 <= j < |ids| && ids[j].Some?
      ensures ids[j].value in view
    {
      if ids[j] == first[j] {
        assert ids[j].value == IdsOf(shown)[priors[j].value];
        assert ids[j].value in IdsOf(shown);
      }
    }
  }

  lemma MatchedInjective(ids: seq<nat>, priors: seq<Option<nat>>)
    requires PriorsWithin(priors, |ids|) && Distinct(ids)
    requires forall i, j | 0 <= i < j < |priors| && priors[i].Some? :: priors[i] != priors[j]
    ensures Injective(Matched(ids, priors))
  {
    var m := Matched(ids, priors);
    forall i, j | 0 <= i < j < |m| && m[i].Some?
      ensures m[i] != m[j]
    {
      if priors[j].Some? {
        assert priors[i].value != priors[j].value;
        assert ids[priors[i].value] != ids[priors[j].value];
      }
    }
  }

  /** The pairing pass, handing out the leftovers from the front. */
  method PairRows(first: seq<Option<nat>>, rows: seq<Row>, leftover: seq<nat>) returns (ids: seq<Option<nat>>)
    requires |first| == |rows|
    ensures ids == Pair(first, rows, leftover)
  {
    ids := [];
    var free := leftover;
    for j := 0 to |rows|
      invariant ids + Pair(first[j..], rows[j..], free) == Pair(first, rows, leftover)
    {
      assert first[j..][1..] == first[j + 1..] && rows[j..][1..] == rows[j + 1..];
      if first[j].None? && Keyless(rows[j]) && free != [] {
        ids, free := ids + [Some(free[0])], free[1..];
      } else {
        ids := ids + [first[j]];
      }
    }
  }

  /** The matching and pairing passes as `plans` runs them. */
  method PlanChange(shown: seq<(nat, Seen)>, rows: seq<Row>) returns (change: Change)
    ensures change == ChangeOf(shown, rows)
  {
    var priors := MatchRows(RowsOf(shown), rows);
    MatchInjective(RowsOf(shown), rows, {});
    var first := Matched(IdsOf(shown), priors);
    var ids := PairRows(first, rows, Leftover(shown, first));
    change := Change(ids, rows, (set i | i in IdsOf(shown)) - RetainedIds(ids));
  }

  // ---- Merging into the current rows ----

  /** The wanted row differs from what the snapshot had under its id. */
  predicate Altered(base: map<nat, Seen>, id: Option<nat>, row: Row) {
    id.Some? && id.value in base ==> base[id.value].row != row
  }

  /** The rows to append: the changed and the new ones, in order. */
  function Appended(base: map<nat, Seen>, ids: seq<Option<nat>>, rows: seq<Row>): seq<Row>
    requires |ids| == |rows|
  {
    if rows == [] then []
    else (if Altered(base, ids[0], rows[0]) then [rows[0]] else []) + Appended(base, ids[1..], rows[1..])
  }

  /** The row ids that go away: removed rows and the old values of changed ones. */
  function Touched(base: map<nat, Seen>, c: Change): set<nat>
    requires |c.ids| == |c.rows|
  {
    c.removed + set j | 0 <= j < |c.ids| && c.ids[j].Some? && Altered(base, c.ids[j], c.rows[j]) :: c.ids[j].value
  }

  function Survivors(current: seq<(nat, Seen)>, gone: set<nat>): seq<Row> {
    if current == [] then []
    else (if current[0].0 in gone then [] else [current[0].1.row]) + Survivors(current[1..], gone)
  }

  function Victims(current: seq<(nat, Seen)>, gone: set<nat>): seq<Row> {
    if current == [] then []
    else (if current[0].0 in gone then [current[0].1.row] else []) + Victims(current[1..], gone)
  }

  /** The integer ids of the rows, if they all have one. */
  function Integers(rows: seq<Row>): (r: Option<seq<i64>>)
    ensures r.Some? ==> |r.value| == |rows| && forall i | 0 <= i < |rows| :: IntOf(rows[i], ID) == Some(r.value[i])
  {
    if rows == [] then Some([])
    else if IntOf(rows[0], ID).None? || Integers(rows[1..]).None? then None
    else Some([IntOf(rows[0], ID).value] + Integers(rows[1..]).value)
  }

  predicate AllDifferent(ids: seq<i64>) {
    forall i, j | 0 <= i < j < |ids| :: ids[i] != ids[j]
  }

  /** Deleting by these ids would hit the victims and nothing else. */
  predicate Deletable(victims: seq<Row>, survivors: seq<Row>) {
    && Integers(victims).Some?
    && AllDifferent(Integers(victims).value)
    && forall row | row in survivors :: IntOf(row, ID).Some? ==> IntOf(row, ID).value !in Integers(victims).value
  }

  /** mvcc.rs `merged_ops` for one table. */
  function MergedOps(table: string, base: map<nat, Seen>, current: seq<(nat, Seen)>, c: Change): seq<StorageOp>
    requires |c.ids| == |c.rows|
  {
    var gone := Touched(base, c);
    var appended := Appended(base, c.ids, c.rows);
    var victims := Victims(current, gone);
    var survivors := Survivors(current, gone);
    if gone == {} && appended == [] then []
    else if Deletable(victims, survivors) then
      (if victims == [] then [] else [Delete(table, Integers(victims).value)]) +
      (if appended == [] then [] else [Upsert(table, appended)])
    else [Replace(table, survivors + appended)]
  }

  /** The operations applied in order to the rows of their table. */
  function ApplyOps(rows: seq<Row>, ops: seq<StorageOp>): seq<Row>
    decreases |ops|
  {
    if ops == [] then rows else ApplyOps(Edit(rows, ops[0]), ops[1..])
  }

  lemma {:induction false} NothingGone(current: seq<(nat, Seen)>)
    ensures Survivors(current, {}) == RowsOf(current) && Victims(current, {}) == []
  {
    if current != [] {
      NothingGone(current[1..]);
      assert RowsOf(current) == [current[0].1.row] + RowsOf(current[1..]);
    }
  }

  /** Deleting exactly the victims' ids leaves exactly the survivors, in order. */
  lemma {:induction false} DeleteHitsVictims(current: seq<(nat, Seen)>, gone: set<nat>, keys: set<i64>)
    requires var victims := Victims(current, gone);
      Deletable(victims, Survivors(current, gone)) && keys == set k | k in Integers(victims).value
    ensures DropKeys(RowsOf(current), keys) == Survivors(current, gone)
  {
    if current != [] {
      var row := current[0].1.row;
      assert RowsOf(current) == [row] + RowsOf(current[1..]);
      assert RowsOf(current)[1..] == RowsOf(current[1..]);
      if current[0].0 in gone {
        VictimsTail(row, Victims(current[1..], gone), Survivors(current, gone), keys);
        DeleteHitsVictims(current[1..], gone, keys - {IntOf(row, ID).value});
      } else {
        assert Victims(current, gone) == Victims(current[1..], gone);
        assert row in Survivors(current, gone);
        assert forall r | r in Survivors(current[1..], gone) :: r in Survivors(current, gone);
        DeleteHitsVictims(current[1..], gone, keys);
      }
    }
  }

  lemma VictimsTail(row: Row, tail: seq<Row>, survivors: seq<Row>, keys: set<i64>)
    requires Deletable([row] + tail, survivors) && keys == set k | k in Integers([row] + tail).value
    ensures Deletable(tail, survivors) && IntOf(row, ID).Some? && IntOf(row, ID).value in keys
    ensures keys - {IntOf(row, ID).value} == set k | k in Integers(tail).value
  {
    assert ([row] + tail)[1..] == tail;
    var ints := Integers([row] + tail).value;
    assert ints == [IntOf(row, ID).value] + Integers(tail).value;
    assert forall i | 0 <= i < |ints| - 1 :: Integers(tail).value[i] == ints[i + 1];
    assert ints[0] == IntOf(row, ID).value;
  }

  /** Merge at commit: whichever way the change is encoded, applying it to the current
      rows leaves the current rows that were not touched, in order, followed by the
      changed and new rows. */
  lemma MergeCorrect(table: string, base: map<nat, Seen>, current: seq<(nat, Seen)>, c: Change)
    requires |c.ids| == |c.rows|
    ensures ApplyOps(RowsOf(current), MergedOps(table, base, current, c)) ==
            Survivors(current, Touched(base, c)) + Appended(base, c.ids, c.rows)
    ensures forall op | op in MergedOps(table, base, current, c) :: op.table == table
  {
    var gone := Touched(base, c);
    var appended := Appended(base, c.ids, c.rows);
    var victims := Victims(current, gone);
    var survivors := Survivors(current, gone);
    if gone == {} && appended == [] {
      NothingGone(current);
    } else if Deletable(victims, survivors) {
      DeleteHitsVictims(current, gone, set k | k in Integers(victims).value);
      if victims == [] {
        assert (set k | k in Integers(victims).value) == {};
        DropNoKeys(RowsOf(current));
      }
      ApplyTwo(RowsOf(current), table, victims, survivors, appended);
    }
  }

  lemma {:induction false} DropNoKeys(rows: seq<Row>)
    ensures DropKeys(rows, {}) == rows
  {
    if rows != [] {
      DropNoKeys(rows[1..]);
    }
  }

  lemma ApplyTwo(rows: seq<Row>, table: string, victims: seq<Row>, survivors: seq<Row>, appended: seq<Row>)
    requires Integers(victims).Some?
    requires DropKeys(rows, set k | k in Integers(victims).value) == survivors
    requires victims == [] ==> rows == survivors
    ensures ApplyOps(rows, (if victims == [] then [] else [Delete(table, Integers(victims).value)]) +
                           (if appended == [] then [] else [Upsert(table, appended)])) == survivors + appended
  {
    var tail := if appended == [] then [] else [Upsert(table, appended)];
    assert ApplyOps(survivors, tail) == survivors + appended by {
      if appended != [] {
        assert tail[1..] == [];
        assert ApplyOps(survivors, tail) == ApplyOps(survivors + appended, []);
      }
    }
    if victims == [] {
      assert [] + tail == tail;
    } else {
      var head := Delete(table, Integers(victims).value);
      assert ([head] + tail)[0] == head && ([head] + tail)[1..] == tail;
      assert Edit(rows, head) == survivors;
    }
  }
}
