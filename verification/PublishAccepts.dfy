/** When `publish_changed` accepts (mvcc.rs): always at a new csn, as long as row ids last; and
    again at the same csn with the same rows, as recovery does after a crash between a publish
    and its checkpoint. */
module PublishAccepts {
  import opened Basics
  import opened Rows
  import opened Versions
  import opened Matching
  import opened Publish
  import opened Catalog
  import opened Snapshots
  import opened Merging
  import opened Commits
  import opened Acceptance

  /** How many new row ids a list may need: one for every row, or none. */
  function Spare(list: Listing, more: bool): nat {
    if list == [] then 0 else (if more then |list[0].1| else 0) + Spare(list[1..], more)
  }

  /** The table accepts the rows, whatever row id comes next, while enough are left. */
  ghost predicate Accepts(h: History, now: nat, csn: nat, rows: seq<Row>, more: bool) {
    var need := if more then |rows| else 0;
    NewRows(h, now, rows) <= need && forall n: nat | n + need <= U64_MAX :: !Refused(h, now, csn, n, rows)
  }

  ghost predicate AllAccept(tables: Tables, list: Listing, now: nat, csn: nat, more: bool) {
    forall t <- ObjectIds(list) :: Accepts(Entry(tables, Wanted(list, t).0, csn), now, csn, Wanted(list, t).1, more)
  }

  lemma AllAcceptTail(tables: Tables, list: Listing, now: nat, csn: nat, more: bool, next: Tables)
    requires NoRepeat(list) && list != [] && AllAccept(tables, list, now, csn, more)
    requires list[0].0.objectId in next && next == tables[list[0].0.objectId := next[list[0].0.objectId]]
    ensures AllAccept(next, list[1..], now, csn, more) && Accepts(Entry(tables, list[0].0, csn), now, csn, list[0].1, more)
  {
    hide Accepts;
    assert Wanted(list, list[0].0.objectId) == list[0];
    forall t <- ObjectIds(list[1..])
      ensures Accepts(Entry(next, Wanted(list[1..], t).0, csn), now, csn, Wanted(list[1..], t).1, more)
    {
      assert Wanted(list[1..], t) == Wanted(list, t);
      assert Wanted(list, t).0.objectId == t;
    }
  }

  lemma {:induction false} ListAccepted(tables: Tables, nextRow: nat, list: Listing, now: nat, csn: nat, more: bool)
    requires NoRepeat(list) && AllAccept(tables, list, now, csn, more) && nextRow + Spare(list, more) <= U64_MAX
    ensures PublishList(tables, nextRow, list, now, csn).Ok?
    decreases |list|
  {
    hide AllAccept, Refused, Published, NewRows, Entry, PublishList;
    if list == [] {
      NothingListed(tables, nextRow, now, csn);
    } else {
      var t := list[0].0.objectId;
      var h := Entry(tables, list[0].0, csn);
      var next := tables[t := Published(h, now, csn, nextRow, list[0].0, list[0].1)];
      AllAcceptTail(tables, list, now, csn, more, next);
      assert !Refused(h, now, csn, nextRow, list[0].1);
      ListAccepted(next, nextRow + NewRows(h, now, list[0].1), list[1..], now, csn, more);
      ListCons(tables, nextRow, list, now, csn);
    }
  }

  lemma NothingListed(tables: Tables, nextRow: nat, now: nat, csn: nat)
    ensures PublishList(tables, nextRow, [], now, csn).Ok?
  {
  }

  lemma ListCons(tables: Tables, nextRow: nat, list: Listing, now: nat, csn: nat)
    requires list != [] && !Refused(Entry(tables, list[0].0, csn), now, csn, nextRow, list[0].1)
    ensures var h := Entry(tables, list[0].0, csn);
      PublishList(tables, nextRow, list, now, csn) ==
      PublishList(tables[list[0].0.objectId := Published(h, now, csn, nextRow, list[0].0, list[0].1)], nextRow + NewRows(h, now, list[0].1), list[1..], now, csn)
  {
    hide Refused, Published, NewRows, Entry;
  }

  lemma NewAtMost(h: History, now: nat, rows: seq<Row>)
    ensures NewRows(h, now, rows) <= |rows|
  {
    hide Ordered, Match;
    FreshAtMost(Match(RowsOf(Visible(h, now)), rows, {}));
  }

  // ---- A new csn ----

  lemma NewCsnAccepts(h: History, now: nat, floor: nat, csn: nat, nextRow: nat, rows: seq<Row>)
    requires TableOk(h, now, floor, nextRow) && now < csn
    ensures Accepts(h, now, csn, rows, true)
  {
    ViewNow(h, now, floor, nextRow);
    forall id <- View(h.rows, now)
      ensures View(h.rows, now)[id].begin < csn
    {
      assert RowOk(h, id, now, floor, nextRow);
      assert VersionOk(h.rows[id][|h.rows[id]| - 1], now);
    }
    NewAtMost(h, now, rows);
  }

  /** A publish at a new csn is accepted, whatever the rows, while row ids last. */
  lemma PublishAccepted(d: Durable, floor: nat, csn: nat, schemas: seq<Schema>, list: Listing, oldest: nat)
    requires DurableOk(d, floor) && Proper(d, csn, schemas, list) && d.csn < csn && d.nextRow + Spare(list, true) <= U64_MAX
    ensures PublishDurable(d, csn, schemas, list, oldest).Ok?
  {
    hide Accepts, TableOk;
    forall t <- ObjectIds(list)
      ensures Accepts(Entry(d.tables, Wanted(list, t).0, csn), d.csn, csn, Wanted(list, t).1, true)
    {
      if t !in d.tables {
        EmptyOk(Wanted(list, t).0, csn, d.csn, floor, d.nextRow);
      }
      NewCsnAccepts(Entry(d.tables, Wanted(list, t).0, csn), d.csn, floor, csn, d.nextRow, Wanted(list, t).1);
    }
    ListAccepted(d.tables, d.nextRow, list, d.csn, csn, true);
  }

  // ---- The same csn again ----

  /** The table shows the rows at the csn, each at the place of its number. */
  ghost predicate Settles(h: History, csn: nat, rows: seq<Row>) {
    && RowsOf(Visible(h, csn)) == rows
    && forall j | 0 <= j < |rows| :: Visible(h, csn)[j].1.order == j
  }

  lemma AssignSelf(ids: seq<nat>, priors: seq<Option<nat>>, nextRow: nat)
    requires |priors| == |ids| && forall j | 0 <= j < |ids| :: priors[j] == Some(j)
    ensures Assign(ids, priors, nextRow) == ids && Fresh(priors) == 0
  {
    AssignRange(ids, priors, nextRow);
    NoneFresh(priors);
  }

  lemma {:induction false} NoneFresh(priors: seq<Option<nat>>)
    requires forall j | 0 <= j < |priors| :: priors[j].Some?
    ensures Fresh(priors) == 0
  {
    if priors != [] {
      NoneFresh(priors[1..]);
    }
  }

  lemma SameIds(h: History, csn: nat, nextRow: nat, rows: seq<Row>)
    requires RowsOf(Visible(h, csn)) == rows
    ensures NextIds(h, csn, nextRow, rows) == IdsOf(Visible(h, csn)) && NewRows(h, csn, rows) == 0
  {
    hide Ordered, View, Assign, Match, Fresh;
    MatchSame(rows);
    MatchInjective(rows, rows, {});
    AssignSelf(IdsOf(Visible(h, csn)), Match(rows, rows, {}), nextRow);
  }

  lemma MatchSame(rows: seq<Row>)
    ensures forall j | 0 <= j < |rows| :: Match(rows, rows, {})[j] == Some(j)
  {
    hide Match;
    assert rows[0..] == rows;
    MatchSelf(rows, 0, {});
  }

  lemma SameRowsAccepted(h: History, csn: nat, rows: seq<Row>)
    requires Settles(h, csn, rows)
    ensures Accepts(h, csn, csn, rows, false)
  {
    SameIds(h, csn, 0, rows);
    forall n: nat | n <= U64_MAX
      ensures !Refused(h, csn, csn, n, rows)
    {
      NotDisturbed(h, csn, n, rows);
    }
  }

  lemma NotDisturbed(h: History, csn: nat, n: nat, rows: seq<Row>)
    requires Settles(h, csn, rows) && n <= U64_MAX
    ensures !Refused(h, csn, csn, n, rows)
  {
    hide Ordered, NextIds, NewRows, View;
    var view, shown, ids := View(h.rows, csn), Visible(h, csn), IdsOf(Visible(h, csn));
    SameIds(h, csn, n, rows);
    OrderedDistinct(view);
    forall id <- view
      ensures !Disturbed(view[id], PlaceOf(ids, rows, id))
    {
      assert id in ids;
      var j := IndexOf(ids, id);
      assert shown[j].0 == id && shown[j].1 == view[id];
      assert rows[j] == shown[j].1.row;
    }
  }

  lemma ViewSettles(h: History, csn: nat, ids: seq<nat>, rows: seq<Row>)
    requires |ids| == |rows| && Distinct(ids) && IdsOf(Visible(h, csn)) == ids && RowsOf(Visible(h, csn)) == rows
    requires forall j | 0 <= j < |ids| :: ids[j] in View(h.rows, csn) && View(h.rows, csn)[ids[j]].order == j
    ensures Settles(h, csn, rows)
  {
    hide Ordered, View;
    OrderedDistinct(View(h.rows, csn));
    forall j | 0 <= j < |rows|
      ensures Visible(h, csn)[j].1.order == j
    {
      assert Visible(h, csn)[j].0 == ids[j];
    }
  }

  /** What is published settles: each row at its own place. */
  lemma PublishedSettles(h: History, now: nat, floor: nat, csn: nat, nextRow: nat, schema: Schema, rows: seq<Row>, oldest: nat)
    requires TableOk(h, now, floor, nextRow) && now <= csn && oldest <= csn && !Refused(h, now, csn, nextRow, rows)
    ensures Settles(PruneTable(Published(h, now, csn, nextRow, schema, rows), oldest), csn, rows)
  {
    hide Ordered, TableOk, Refused, NextRows, NextIds, View, Settles, PruneRows;
    var ids := NextIds(h, now, nextRow, rows);
    var p := Published(h, now, csn, nextRow, schema, rows);
    NextIdsOk(h, now, floor, nextRow, rows);
    NotRefused(h, now, floor, csn, nextRow, rows);
    RebuiltShows(h, now, floor, csn, ids, rows);
    PublishedPruned(h, now, floor, csn, nextRow, schema, rows, oldest);
    ViewSettles(PruneTable(p, oldest), csn, ids, rows);
  }

  /** A publish repeated at its csn is accepted: what is listed is already there. */
  lemma RepublishAccepted(d: Durable, floor: nat, csn: nat, schemas: seq<Schema>, list: Listing, oldest: nat, next: Durable, later: nat)
    requires DurableOk(d, floor) && Proper(d, csn, schemas, list) && oldest <= csn
    requires PublishDurable(d, csn, schemas, list, oldest) == Ok(next) && next.nextRow <= U64_MAX
    ensures PublishDurable(next, csn, schemas, list, later).Ok?
  {
    hide Accepts, TableOk, Published, Refused, PruneRows, Proper;
    var listed := PublishList(d.tables, d.nextRow, list, d.csn, csn).value;
    ReadyToPublish(d, floor, csn, schemas, list);
    forall t <- ObjectIds(list)
      ensures Accepts(Entry(next.tables, Wanted(list, t).0, csn), csn, csn, Wanted(list, t).1, false)
    {
      var n := ListedTable(d.tables, d.nextRow, list, d.csn, csn, floor, listed.0, listed.1, t);
      var w := Wanted(list, t);
      PublishedSettles(Entry(d.tables, w.0, csn), d.csn, floor, csn, n, w.0, w.1, oldest);
      SameRowsAccepted(next.tables[t], csn, w.1);
    }
    NoneSpare(list);
    ListAccepted(next.tables, next.nextRow, list, csn, csn, false);
  }

  lemma {:induction false} NoneSpare(list: Listing)
    ensures Spare(list, false) == 0
  {
    if list != [] {
      NoneSpare(list[1..]);
    }
  }
}
