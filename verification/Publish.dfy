/** Publishing the rows of one table at a commit sequence number, the body of
    the table loop of `publish_changed` (mvcc.rs). */
module Publish {
  import opened Basics
  import opened Rows
  import opened Matching
  import opened Versions

  predicate Distinct(s: seq<nat>) {
    forall i, j | 0 <= i < j < |s| :: s[i] != s[j]
  }

  function IndexOf(s: seq<nat>, x: nat): (i: nat)
    requires x in s
    ensures i < |s| && s[i] == x
  {
    if s[0] == x then 0 else 1 + IndexOf(s[1..], x)
  }

  lemma IndexOfIs(s: seq<nat>, i: nat)
    requires i < |s| && Distinct(s)
    ensures IndexOf(s, s[i]) == i
  {
    assert s[IndexOf(s, s[i])] == s[i];
  }

  /** Wanted rows that no stored row was found for. */
  function Fresh(priors: seq<Option<nat>>): nat {
    if priors == [] then 0 else (if priors[0].None? then 1 else 0) + Fresh(priors[1..])
  }

  predicate PriorsWithin(priors: seq<Option<nat>>, n: nat) {
    forall j | 0 <= j < |priors| && priors[j].Some? :: priors[j].value < n
  }

  /** The row id of each wanted row: that of the stored row it took, or the next
      number never given out before. */
  function Assign(ids: seq<nat>, priors: seq<Option<nat>>, nextRow: nat): (r: seq<nat>)
    requires PriorsWithin(priors, |ids|)
    ensures |r| == |priors|
  {
    if priors == [] then []
    else if priors[0].Some? then [ids[priors[0].value]] + Assign(ids, priors[1..], nextRow)
    else [nextRow + 1] + Assign(ids, priors[1..], nextRow + 1)
  }

  lemma {:induction false} AssignRange(ids: seq<nat>, priors: seq<Option<nat>>, nextRow: nat)
    requires PriorsWithin(priors, |ids|)
    ensures var r := Assign(ids, priors, nextRow);
      forall j | 0 <= j < |r| ::
        if priors[j].Some? then r[j] == ids[priors[j].value] else nextRow < r[j] <= nextRow + Fresh(priors)
  {
    if priors != [] {
      AssignRange(ids, priors[1..], if priors[0].Some? then nextRow else nextRow + 1);
      var r := Assign(ids, priors, nextRow);
      forall j | 0 <= j < |r|
        ensures if priors[j].Some? then r[j] == ids[priors[j].value] else nextRow < r[j] <= nextRow + Fresh(priors)
      {
        if j > 0 {
          assert priors[j] == priors[1..][j - 1];
          assert r[j] == r[1..][j - 1];
        }
      }
    }
  }

  /** Row ids are never given to two rows, nor given out again. */
  lemma {:induction false} AssignDistinct(ids: seq<nat>, priors: seq<Option<nat>>, nextRow: nat)
    requires PriorsWithin(priors, |ids|) && Distinct(ids)
    requires forall id | id in ids :: id <= nextRow
    requires forall i, j | 0 <= i < j < |priors| && priors[i].Some? :: priors[i] != priors[j]
    ensures Distinct(Assign(ids, priors, nextRow))
  {
    if priors != [] {
      var next := if priors[0].Some? then nextRow else nextRow + 1;
      var rest := Assign(ids, priors[1..], next);
      assert forall j | 0 <= j < |priors| - 1 :: priors[1..][j] == priors[j + 1];
      AssignDistinct(ids, priors[1..], next);
      AssignRange(ids, priors[1..], next);
      forall j | 0 <= j < |rest|
        ensures rest[j] != Assign(ids, priors, nextRow)[0]
      {
        assert priors[j + 1] == priors[1..][j];
        if priors[j + 1].Some? {
          assert ids[priors[j + 1].value] in ids;
        }
        if priors[0].Some? {
          assert ids[priors[0].value] in ids;
        }
      }
    }
  }

  // ---- One table ----

  ghost predicate TableOk(h: History, csn: nat, floor: nat, nextRow: nat) {
    forall id <- h.rows :: RowOk(h, id, csn, floor, nextRow)
  }

  /** A row's chain is well formed, a dropped table has no open row, and the
      table's `changed` stamp covers the last change of the row's value. */
  ghost predicate RowOk(h: History, id: nat, csn: nat, floor: nat, nextRow: nat)
    requires id in h.rows
  {
    && id <= nextRow
    && ChainOk(h.rows[id], csn, floor)
    && (h.live || !Open(h.rows[id]))
    && StampOk(h.rows[id], h.changed)
  }

  predicate StampOk(c: Chain, changed: nat)
    requires c != []
  {
    var last := c[|c| - 1];
    if last.end.Some? then last.end.value <= changed else last.valueBegin <= changed
  }

  /** The ids the wanted rows get. */
  function NextIds(h: History, now: nat, nextRow: nat, rows: seq<Row>): (ids: seq<nat>)
    ensures |ids| == |rows|
  {
    var shown := Visible(h, now);
    var priors := Match(RowsOf(shown), rows, {});
    MatchInjective(RowsOf(shown), rows, {});
    Assign(IdsOf(shown), priors, nextRow)
  }

  function NewRows(h: History, now: nat, rows: seq<Row>): nat {
    Fresh(Match(RowsOf(Visible(h, now)), rows, {}))
  }

  /** The wanted place and value of a row id, if it has one. */
  function PlaceOf(ids: seq<nat>, rows: seq<Row>, id: nat): Option<(nat, Row)>
    requires |ids| == |rows|
  {
    if id in ids then Some((IndexOf(ids, id), rows[IndexOf(ids, id)])) else None
  }

  /** What becomes of a row's chain: it takes its wanted place, or ends if it was
      visible, or stays as it is. */
  function Evolve(c: Chain, now: nat, csn: nat, place: Option<(nat, Row)>): Chain {
    if place.Some? then
      if c == [] then [Version(csn, None, csn, place.value.0, place.value.1)]
      else Placed(c, csn, place.value.0, place.value.1)
    else if Newest(c, now).Some? then (if c == [] then [] else Close(c, csn))
    else c
  }

  function ChainAt(rows: map<nat, Chain>, id: nat): Chain {
    if id in rows then rows[id] else []
  }

  function NextRows(h: History, now: nat, csn: nat, ids: seq<nat>, rows: seq<Row>): map<nat, Chain>
    requires |ids| == |rows|
  {
    map id | id in h.rows.Keys + (set i | i in ids) :: Evolve(ChainAt(h.rows, id), now, csn, PlaceOf(ids, rows, id))
  }

  /** The visible row is moved, rewritten or removed. */
  predicate Disturbed(seen: Seen, place: Option<(nat, Row)>) {
    place.Some? ==> seen.order != place.value.0 || seen.row != place.value.1
  }

  /** The refusals of the row loop: row ids run out, or a version that already
      begins at this csn would have to change. */
  predicate Refused(h: History, now: nat, csn: nat, nextRow: nat, rows: seq<Row>) {
    || nextRow + NewRows(h, now, rows) > U64_MAX
    || Clash(h, now, csn, NextIds(h, now, nextRow, rows), rows)
  }

  predicate Clash(h: History, now: nat, csn: nat, ids: seq<nat>, rows: seq<Row>)
    requires |ids| == |rows|
  {
    exists id <- View(h.rows, now) ::
      View(h.rows, now)[id].begin == csn && Disturbed(View(h.rows, now)[id], PlaceOf(ids, rows, id))
  }

  /** Some value in the table changes: a row is new, rewritten or removed, or the
      schema is another one. A row that only moves is not a change. */
  predicate ValuesChange(h: History, now: nat, schema: Schema, ids: seq<nat>, rows: seq<Row>)
    requires |ids| == |rows|
  {
    || h.schema.columns != schema.columns
    || h.schema.version != schema.version
    || (exists id | id in ids :: id !in View(h.rows, now))
    || exists id <- View(h.rows, now) ::
         PlaceOf(ids, rows, id).Some? ==> View(h.rows, now)[id].row != PlaceOf(ids, rows, id).value.1
  }

  function Rebuilt(h: History, now: nat, csn: nat, schema: Schema, ids: seq<nat>, rows: seq<Row>): History
    requires |ids| == |rows|
  {
    History(schema, if ValuesChange(h, now, schema, ids, rows) then csn else h.changed, true,
            NextRows(h, now, csn, ids, rows))
  }

  function Published(h: History, now: nat, csn: nat, nextRow: nat, schema: Schema, rows: seq<Row>): History {
    Rebuilt(h, now, csn, schema, NextIds(h, now, nextRow, rows), rows)
  }

  // ---- What publishing does ----

  /** One chain: it stays well formed, the past does not change, and at `csn` it
      shows exactly its wanted place and value, or nothing. */
  lemma EvolveOk(c: Chain, now: nat, floor: nat, csn: nat, place: Option<(nat, Row)>)
    requires c != [] ==> ChainOk(c, now, floor)
    requires place.Some? && c != [] ==> Open(c)
    requires Open(c) && Disturbed(ToSeen(c[|c| - 1]), place) ==> c[|c| - 1].begin < csn
    requires c != [] || place.Some?
    requires now <= csn
    ensures ChainOk(Evolve(c, now, csn, place), csn, floor)
    ensures var v := Newest(Evolve(c, now, csn, place), csn);
      if place.Some? then v.Some? && v.value.order == place.value.0 && v.value.row == place.value.1 else v == None
  {
    if c != [] {
      NewestNow(c, now, floor);
      assert VersionOk(c[|c| - 1], now);
      if place.Some? {
        PlacedOk(c, now, floor, csn, place.value.0, place.value.1);
        PlacedShows(c, csn, place.value.0, place.value.1);
      } else if Open(c) {
        CloseOk(c, now, floor, csn);
        CloseHides(c, now, floor, csn);
      } else {
        ChainLater(c, now, csn, floor);
        NewestNow(c, csn, floor);
      }
    }
  }

  lemma EvolveKeepsPast(c: Chain, now: nat, floor: nat, csn: nat, place: Option<(nat, Row)>, s: nat)
    requires c != [] ==> ChainOk(c, now, floor)
    requires place.Some? && c != [] ==> Open(c)
    requires s < csn
    ensures Newest(Evolve(c, now, csn, place), s) == Newest(c, s)
  {
    if c != [] {
      NewestNow(c, now, floor);
      if place.Some? {
        PlacedKeepsPast(c, csn, place.value.0, place.value.1, s);
      } else if Open(c) {
        CloseKeepsPast(c, csn, s);
      }
    }
  }

  lemma ChainLater(c: Chain, now: nat, csn: nat, floor: nat)
    requires ChainOk(c, now, floor) && now <= csn
    ensures ChainOk(c, csn, floor)
  {
    assert forall i | 0 <= i < |c| :: VersionOk(c[i], now) ==> VersionOk(c[i], csn);
  }

  /** The visible rows of a well-formed table are its open chains. */
  lemma ViewNow(h: History, csn: nat, floor: nat, nextRow: nat)
    requires TableOk(h, csn, floor, nextRow)
    ensures forall id <- h.rows :: id in View(h.rows, csn) <==> Open(h.rows[id])
    ensures forall id <- View(h.rows, csn) :: View(h.rows, csn)[id] == ToSeen(h.rows[id][|h.rows[id]| - 1])
  {
    forall id <- h.rows
      ensures Newest(h.rows[id], csn) == if Open(h.rows[id]) then Some(ToSeen(h.rows[id][|h.rows[id]| - 1])) else None
    {
      assert RowOk(h, id, csn, floor, nextRow);
      NewestNow(h.rows[id], csn, floor);
    }
  }

  /** Ids are distinct; those up to `nextRow` belong to visible rows and the rest
      are the next free numbers. */
  lemma NextIdsOk(h: History, now: nat, floor: nat, nextRow: nat, rows: seq<Row>)
    requires TableOk(h, now, floor, nextRow)
    ensures Distinct(NextIds(h, now, nextRow, rows))
    ensures forall id | id in NextIds(h, now, nextRow, rows) ::
      if id <= nextRow then id in View(h.rows, now) else id <= nextRow + NewRows(h, now, rows)
  {
    var shown := Visible(h, now);
    var priors := Match(RowsOf(shown), rows, {});
    MatchInjective(RowsOf(shown), rows, {});
    VisibleIds(h, now, floor, nextRow);
    AssignDistinct(IdsOf(shown), priors, nextRow);
    AssignRange(IdsOf(shown), priors, nextRow);
    var ids := NextIds(h, now, nextRow, rows);
    forall id | id in ids
      ensures if id <= nextRow then id in View(h.rows, now) else id <= nextRow + NewRows(h, now, rows)
    {
      var j :| 0 <= j < |ids| && ids[j] == id;
      if priors[j].Some? {
        assert IdsOf(shown)[priors[j].value] in IdsOf(shown);
      }
    }
  }

  /** Visible rows have distinct ids. */
  lemma VisibleIds(h: History, now: nat, floor: nat, nextRow: nat)
    requires TableOk(h, now, floor, nextRow)
    ensures Distinct(IdsOf(Visible(h, now)))
    ensures forall id | id in IdsOf(Visible(h, now)) :: id in View(h.rows, now) && id <= nextRow
  {
    OrderedDistinct(View(h.rows, now));
    forall id <- View(h.rows, now)
      ensures id <= nextRow
    {
      assert RowOk(h, id, now, floor, nextRow);
    }
  }

  lemma OrderedDistinct(m: map<nat, Seen>)
    ensures Distinct(IdsOf(Ordered(m)))
    ensures forall id :: id in IdsOf(Ordered(m)) <==> id in m
    ensures forall i | 0 <= i < |Ordered(m)| :: Ordered(m)[i].0 in m && Ordered(m)[i].1 == m[Ordered(m)[i].0]
  {
    hide Ordered;
    var shown := Ordered(m);
    OrderedIsOrdered(m);
    forall i, j | 0 <= i < j < |shown|
      ensures IdsOf(shown)[i] != IdsOf(shown)[j]
    {
      assert Before(m, shown[i].0, shown[j].0);
    }
    forall id <- m
      ensures id in IdsOf(shown)
    {
      var i :| 0 <= i < |shown| && shown[i] == (id, m[id]);
      assert IdsOf(shown)[i] == id;
    }
  }

  /** A row id may evolve: what it needs of the stored chain. */
  ghost predicate CanEvolve(h: History, now: nat, floor: nat, csn: nat, ids: seq<nat>, rows: seq<Row>, id: nat)
    requires |ids| == |rows|
  {
    var c := ChainAt(h.rows, id);
    && (c != [] ==> ChainOk(c, now, floor))
    && (c != [] || id in ids)
    && (c != [] && id in ids ==> Open(c))
    && (Open(c) && Disturbed(ToSeen(c[|c| - 1]), PlaceOf(ids, rows, id)) ==> c[|c| - 1].begin < csn)
  }

  /** The ids of a publish that is not refused. */
  ghost predicate Placing(h: History, now: nat, floor: nat, csn: nat, ids: seq<nat>, rows: seq<Row>) {
    && |ids| == |rows| && now <= csn && Distinct(ids)
    && (forall id | id in h.rows || id in ids :: CanEvolve(h, now, floor, csn, ids, rows, id))
  }

  lemma NotRefused(h: History, now: nat, floor: nat, csn: nat, nextRow: nat, rows: seq<Row>)
    requires TableOk(h, now, floor, nextRow) && now <= csn
    requires !Refused(h, now, csn, nextRow, rows)
    ensures Placing(h, now, floor, csn, NextIds(h, now, nextRow, rows), rows)
  {
    var ids := NextIds(h, now, nextRow, rows);
    NextIdsOk(h, now, floor, nextRow, rows);
    ViewNow(h, now, floor, nextRow);
    assert !Clash(h, now, csn, ids, rows);
    forall id | id in h.rows || id in ids
      ensures CanEvolve(h, now, floor, csn, ids, rows, id)
    {
      if id in h.rows {
        assert RowOk(h, id, now, floor, nextRow);
        assert VersionOk(h.rows[id][|h.rows[id]| - 1], now);
        if Open(h.rows[id]) {
          assert id in View(h.rows, now);
        }
      }
    }
  }

  /** Rebuilding a table keeps every earlier snapshot of it. */
  lemma RebuiltKeepsPast(h: History, now: nat, floor: nat, csn: nat, ids: seq<nat>, rows: seq<Row>, s: nat)
    requires Placing(h, now, floor, csn, ids, rows) && s < csn
    ensures View(NextRows(h, now, csn, ids, rows), s) == View(h.rows, s)
  {
    var next := NextRows(h, now, csn, ids, rows);
    forall id <- next
      ensures Newest(next[id], s) == Newest(ChainAt(h.rows, id), s)
    {
      assert CanEvolve(h, now, floor, csn, ids, rows, id);
      EvolveKeepsPast(ChainAt(h.rows, id), now, floor, csn, PlaceOf(ids, rows, id), s);
    }
  }

  /** A rebuilt table shows, at its csn, exactly the given rows in the given order
      under the given ids. */
  lemma RebuiltShows(h: History, now: nat, floor: nat, csn: nat, ids: seq<nat>, rows: seq<Row>)
    requires Placing(h, now, floor, csn, ids, rows)
    ensures RowsOf(Ordered(View(NextRows(h, now, csn, ids, rows), csn))) == rows
    ensures IdsOf(Ordered(View(NextRows(h, now, csn, ids, rows), csn))) == ids
    ensures var view := View(NextRows(h, now, csn, ids, rows), csn);
      forall j | 0 <= j < |ids| :: ids[j] in view && view[ids[j]].order == j && view[ids[j]].row == rows[j]
  {
    var next := NextRows(h, now, csn, ids, rows);
    var view := View(next, csn);
    forall id <- next
      ensures id in view <==> id in ids
      ensures id in ids ==> view[id].order == IndexOf(ids, id) && view[id].row == rows[IndexOf(ids, id)]
    {
      assert CanEvolve(h, now, floor, csn, ids, rows, id);
      EvolveOk(ChainAt(h.rows, id), now, floor, csn, PlaceOf(ids, rows, id));
    }
    forall j | 0 <= j < |ids|
      ensures ids[j] in view && view[ids[j]].order == j && view[ids[j]].row == rows[j]
    {
      assert ids[j] in next;
      IndexOfIs(ids, j);
    }
    ShowsInOrder(view, ids, rows);
  }

  /** A view whose row `ids[j]` stands at place `j` lists the rows in order. */
  lemma ShowsInOrder(view: map<nat, Seen>, ids: seq<nat>, rows: seq<Row>)
    requires |ids| == |rows|
    requires forall j | 0 <= j < |ids| :: ids[j] in view && view[ids[j]].order == j && view[ids[j]].row == rows[j]
    requires forall id <- view :: id in ids
    ensures RowsOf(Ordered(view)) == rows && IdsOf(Ordered(view)) == ids
  {
    var entries := seq(|ids|, j requires 0 <= j < |ids| => (ids[j], view[ids[j]]));
    EntriesInOrder(view, ids, entries);
    OrderedUnique(view, entries);
    EntriesShow(entries, ids, rows);
  }

  lemma EntriesShow(entries: seq<(nat, Seen)>, ids: seq<nat>, rows: seq<Row>)
    requires |entries| == |ids| == |rows|
    requires forall j | 0 <= j < |ids| :: entries[j].0 == ids[j] && entries[j].1.row == rows[j]
    ensures RowsOf(entries) == rows && IdsOf(entries) == ids
  {
    assert forall j | 0 <= j < |ids| :: RowsOf(entries)[j] == rows[j] && IdsOf(entries)[j] == ids[j];
  }

  lemma EntriesInOrder(view: map<nat, Seen>, ids: seq<nat>, entries: seq<(nat, Seen)>)
    requires |entries| == |ids|
    requires forall j | 0 <= j < |ids| :: ids[j] in view && view[ids[j]].order == j && entries[j] == (ids[j], view[ids[j]])
    requires forall id <- view :: id in ids
    ensures IsOrdered(view, entries)
  {
    forall id <- view
      ensures (id, view[id]) in entries
    {
      var j := IndexOf(ids, id);
      assert entries[j] == (id, view[id]);
    }
  }

  /** Rebuilding keeps the table well formed: chains, fresh ids and the `changed`
      stamp. */
  lemma RebuiltOk(h: History, now: nat, floor: nat, csn: nat, nextRow: nat, schema: Schema, ids: seq<nat>, rows: seq<Row>, nextRow': nat)
    requires TableOk(h, now, floor, nextRow) && Placing(h, now, floor, csn, ids, rows)
    requires nextRow <= nextRow' && forall id | id in ids :: id <= nextRow'
    ensures TableOk(Rebuilt(h, now, csn, schema, ids, rows), csn, floor, nextRow')
  {
    var next := Rebuilt(h, now, csn, schema, ids, rows);
    ViewNow(h, now, floor, nextRow);
    forall id <- next.rows
      ensures RowOk(next, id, csn, floor, nextRow')
    {
      assert CanEvolve(h, now, floor, csn, ids, rows, id);
      EvolveOk(ChainAt(h.rows, id), now, floor, csn, PlaceOf(ids, rows, id));
      if id in h.rows {
        assert RowOk(h, id, now, floor, nextRow);
        RebuiltStamp(h, now, floor, csn, nextRow, schema, ids, rows, id);
      } else {
        assert id !in View(h.rows, now);
        assert ValuesChange(h, now, schema, ids, rows);
      }
    }
  }

  lemma RebuiltStamp(h: History, now: nat, floor: nat, csn: nat, nextRow: nat, schema: Schema, ids: seq<nat>, rows: seq<Row>, id: nat)
    requires id in h.rows && RowOk(h, id, now, floor, nextRow) && now <= csn && |ids| == |rows|
    requires CanEvolve(h, now, floor, csn, ids, rows, id)
    ensures var c := Evolve(h.rows[id], now, csn, PlaceOf(ids, rows, id));
      c != [] && StampOk(c, Rebuilt(h, now, csn, schema, ids, rows).changed)
  {
    var c := h.rows[id];
    NewestNow(c, now, floor);
    assert VersionOk(c[|c| - 1], now);
    if Open(c) && (id in ids ==> c[|c| - 1].row != rows[IndexOf(ids, id)]) {
      assert id in View(h.rows, now);
      assert ValuesChange(h, now, schema, ids, rows);
    }
  }

  /** Publishing one table: the refinement at `csn`, the past kept, and the
      invariant kept. */
  lemma PublishedCorrect(h: History, now: nat, floor: nat, csn: nat, nextRow: nat, schema: Schema, rows: seq<Row>)
    requires TableOk(h, now, floor, nextRow) && now <= csn
    requires !Refused(h, now, csn, nextRow, rows)
    ensures var next := Published(h, now, csn, nextRow, schema, rows);
      && RowsOf(Visible(next, csn)) == rows
      && (forall s: nat | s < csn :: View(next.rows, s) == View(h.rows, s))
      && TableOk(next, csn, floor, nextRow + NewRows(h, now, rows))
      && next.changed <= Max(h.changed, csn)
  {
    var ids := NextIds(h, now, nextRow, rows);
    NotRefused(h, now, floor, csn, nextRow, rows);
    NextIdsOk(h, now, floor, nextRow, rows);
    RebuiltShows(h, now, floor, csn, ids, rows);
    forall s: nat | s < csn
      ensures View(Published(h, now, csn, nextRow, schema, rows).rows, s) == View(h.rows, s)
    {
      RebuiltKeepsPast(h, now, floor, csn, ids, rows, s);
    }
    RebuiltOk(h, now, floor, csn, nextRow, schema, ids, rows, nextRow + NewRows(h, now, rows));
  }
}
