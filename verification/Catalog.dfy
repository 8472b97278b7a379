/** The durable version catalogue: publishing a set of tables, dropping the
    others, and pruning (mvcc.rs `publish_changed`, `prune`, `prune_durable`). */
module Catalog {
  import opened Basics
  import opened Rows
  import opened Versions
  import opened Matching
  import opened Publish

  type Listing = seq<(Schema, seq<Row>)>

  /** The listed objects. */
  function ObjectIds(list: Listing): set<nat> {
    if list == [] then {} else {list[0].0.objectId} + ObjectIds(list[1..])
  }

  predicate NoRepeat(list: Listing) {
    list != [] ==> list[0].0.objectId !in ObjectIds(list[1..]) && NoRepeat(list[1..])
  }

  /** The schema and rows listed for an object. */
  function Wanted(list: Listing, t: nat): (w: (Schema, seq<Row>))
    requires t in ObjectIds(list)
    ensures w.0.objectId == t && w in list
  {
    if list[0].0.objectId == t then list[0] else Wanted(list[1..], t)
  }

  /** The history a listed table starts from. */
  function Entry(tables: Tables, schema: Schema, csn: nat): History {
    if schema.objectId in tables then tables[schema.objectId] else History(schema, csn, true, map[])
  }

  /** One turn of the table loop of `publish_changed`. */
  function PublishOne(tables: Tables, nextRow: nat, entry: (Schema, seq<Row>), now: nat, csn: nat): Result<(Tables, nat)> {
    var h := Entry(tables, entry.0, csn);
    if Refused(h, now, csn, nextRow, entry.1) then Err("publish refused")
    else Ok((tables[entry.0.objectId := Published(h, now, csn, nextRow, entry.0, entry.1)], nextRow + NewRows(h, now, entry.1)))
  }

  /** The table loop of `publish_changed`. */
  function PublishList(tables: Tables, nextRow: nat, list: Listing, now: nat, csn: nat): Result<(Tables, nat)>
    decreases |list|
  {
    if list == [] then Ok((tables, nextRow)) else
    var r :- PublishOne(tables, nextRow, list[0], now, csn);
    PublishList(r.0, r.1, list[1..], now, csn)
  }

  function CloseOpen(c: Chain, csn: nat): Chain {
    if Open(c) then Close(c, csn) else c
  }

  /** A table that is no longer in the catalogue ends all its rows. */
  function Retired(h: History, csn: nat): History {
    h.(live := false, changed := csn, rows := map id | id in h.rows :: CloseOpen(h.rows[id], csn))
  }

  function DropMissing(tables: Tables, current: set<nat>, csn: nat): Tables {
    map t | t in tables :: if t !in current && tables[t].live then Retired(tables[t], csn) else tables[t]
  }

  function PruneRows(rows: map<nat, Chain>, oldest: nat): map<nat, Chain> {
    map id | id in rows && PruneChain(rows[id], oldest) != [] :: PruneChain(rows[id], oldest)
  }

  function PruneTable(h: History, oldest: nat): History {
    h.(rows := PruneRows(h.rows, oldest))
  }

  function PruneAll(tables: Tables, oldest: nat): Tables {
    map t | t in tables :: PruneTable(tables[t], oldest)
  }

  /** `prune` and `prune_durable`: forget what no snapshot from `oldest` on sees. */
  function PruneDurable(d: Durable, oldest: nat): Durable {
    var pruned := PruneAll(d.tables, oldest);
    d.(tables := map t | t in pruned && (pruned[t].live || pruned[t].rows != map[]) :: pruned[t])
  }

  function SchemaIds(schemas: seq<Schema>): set<nat> {
    set i | 0 <= i < |schemas| :: schemas[i].objectId
  }

  /** `publish_changed` on the durable state; `oldest` is the prune bound. */
  function PublishDurable(d: Durable, csn: nat, schemas: seq<Schema>, list: Listing, oldest: nat): Result<Durable> {
    if csn < d.csn then Err("MVCC commit sequence moved backwards") else
    var (listed, nextRow) :- PublishList(d.tables, d.nextRow, list, d.csn, csn);
    var current := SchemaIds(schemas);
    var pruned := PruneAll(DropMissing(listed, current, csn), oldest);
    Ok(Durable(2, csn, nextRow, map t | t in pruned && (t in current || pruned[t].rows != map[]) :: pruned[t]))
  }

  // ---- Invariant ----

  ghost predicate DurableOk(d: Durable, floor: nat) {
    forall t <- d.tables :: TableOk(d.tables[t], d.csn, floor, d.nextRow) && d.tables[t].changed <= d.csn
  }

  /** What the callers of `publish_changed` provide: each object listed once and
      only with objects of the catalogue, and no row of a dropped table began at
      this very csn, which is automatic for a new csn. */
  ghost predicate Proper(d: Durable, csn: nat, schemas: seq<Schema>, list: Listing) {
    && NoRepeat(list)
    && ObjectIds(list) <= SchemaIds(schemas)
    && (d.csn < csn || forall t <- d.tables | t !in SchemaIds(schemas) && d.tables[t].live ::
                         forall id <- d.tables[t].rows :: BeganBefore(d.tables[t].rows[id], csn))
  }

  predicate BeganBefore(c: Chain, csn: nat) {
    Open(c) ==> c[|c| - 1].begin < csn
  }

  /** The check that `open` makes on the version catalogue it loads. */
  ghost predicate OpenAccepts(d: Durable) {
    && d.format in {1, 2}
    && forall t <- d.tables :: forall id <- d.tables[t].rows :: OpenAcceptsRow(d.tables[t].rows[id], id, d.csn, d.nextRow)
  }

  ghost predicate OpenAcceptsRow(c: Chain, id: nat, csn: nat, nextRow: nat) {
    && id <= nextRow
    && (forall i, j | 0 <= i < j < |c| && j == i + 1 :: c[i].begin < c[j].begin)
    && (forall i | 0 <= i < |c| ::
          c[i].begin <= csn && (c[i].end.Some? ==> c[i].begin < c[i].end.value <= csn))
  }

  /** What the check of `open` guarantees: row ids not yet given out are free, versions stand in the
      order of their begins, and at the csn a row shows exactly its last open version. */
  lemma AcceptedMeans(d: Durable, t: nat, id: nat)
    requires OpenAccepts(d) && t in d.tables && id in d.tables[t].rows
    ensures id <= d.nextRow
    ensures forall i, j | 0 <= i < j < |d.tables[t].rows[id]| :: d.tables[t].rows[id][i].begin < d.tables[t].rows[id][j].begin
    ensures Newest(d.tables[t].rows[id], d.csn) == LastOpen(d.tables[t].rows[id])
  {
    var c := d.tables[t].rows[id];
    assert OpenAcceptsRow(c, id, d.csn, d.nextRow);
    BeginsRise(c, id, d.csn, d.nextRow, |c|);
    ShowsLastOpen(c, id, d.csn, d.nextRow, |c|);
    assert c[..|c|] == c;
  }

  function LastOpen(c: Chain): Option<Seen> {
    if c == [] then None
    else if c[|c| - 1].end.None? then Some(ToSeen(c[|c| - 1]))
    else LastOpen(c[..|c| - 1])
  }

  lemma {:induction false} BeginsRise(c: Chain, id: nat, csn: nat, nextRow: nat, n: nat)
    requires OpenAcceptsRow(c, id, csn, nextRow) && n <= |c|
    ensures forall i, j | 0 <= i < j < n :: c[i].begin < c[j].begin
    decreases n
  {
    if n > 1 {
      BeginsRise(c, id, csn, nextRow, n - 1);
      assert c[n - 2].begin < c[n - 1].begin;
    }
  }

  lemma {:induction false} ShowsLastOpen(c: Chain, id: nat, csn: nat, nextRow: nat, n: nat)
    requires OpenAcceptsRow(c, id, csn, nextRow) && n <= |c|
    ensures Newest(c[..n], csn) == LastOpen(c[..n])
    decreases n
  {
    if n > 0 {
      ShowsLastOpen(c, id, csn, nextRow, n - 1);
      Longer(c, n - 1);
      assert c[n - 1].begin <= csn && (c[n - 1].end.Some? ==> c[n - 1].end.value <= csn);
    }
  }

  /** No state that satisfies the invariant is rejected when it is opened. */
  lemma OpenNeverRejects(d: Durable, floor: nat)
    requires DurableOk(d, floor) && d.format in {1, 2}
    ensures OpenAccepts(d)
  {
    forall t <- d.tables, id <- d.tables[t].rows
      ensures OpenAcceptsRow(d.tables[t].rows[id], id, d.csn, d.nextRow)
    {
      assert RowOk(d.tables[t], id, d.csn, floor, d.nextRow);
      var c := d.tables[t].rows[id];
      forall i | 0 <= i < |c|
        ensures c[i].begin <= d.csn && (c[i].end.Some? ==> c[i].begin < c[i].end.value <= d.csn)
      {
        assert VersionOk(c[i], d.csn);
      }
      forall i, j | 0 <= i < j < |c|
        ensures c[i].begin < c[j].begin
      {
        assert VersionOk(c[i], d.csn) && Precedes(c[i], c[j]);
      }
    }
  }

  // ---- The table loop ----

  lemma TableOkMore(h: History, csn: nat, floor: nat, nextRow: nat, more: nat)
    requires TableOk(h, csn, floor, nextRow) && nextRow <= more
    ensures TableOk(h, csn, floor, more)
  {
    assert forall id <- h.rows :: RowOk(h, id, csn, floor, nextRow) ==> RowOk(h, id, csn, floor, more);
  }

  lemma TableOkLater(h: History, now: nat, csn: nat, floor: nat, nextRow: nat, more: nat)
    requires TableOk(h, now, floor, nextRow) && nextRow <= more && now <= csn
    ensures TableOk(h, csn, floor, more)
    ensures View(h.rows, csn) == View(h.rows, now)
  {
    forall id <- h.rows
      ensures RowOk(h, id, csn, floor, more) && Newest(h.rows[id], csn) == Newest(h.rows[id], now)
    {
      assert RowOk(h, id, now, floor, nextRow);
      ChainLater(h.rows[id], now, csn, floor);
      NewestNow(h.rows[id], now, floor);
      NewestNow(h.rows[id], csn, floor);
    }
  }

  /** A listed table after the loop, against the tables before it. */
  ghost predicate Listed(before: Tables, h: History, csn: nat, floor: nat, nextRow: nat, schema: Schema, rows: seq<Row>) {
    && TableOk(h, csn, floor, nextRow)
    && h.changed <= csn
    && h.live && h.schema == schema
    && RowsOf(Visible(h, csn)) == rows
    && (forall s: nat | s < csn :: View(h.rows, s) == ViewAt(before, schema.objectId, s))
  }

  /** One table after the loop: published if it is listed, untouched if not. */
  ghost predicate TableOutcome(before: Tables, list: Listing, csn: nat, floor: nat, after: Tables, nextRow: nat, t: nat) {
    if t in ObjectIds(list) then t in after && Listed(before, after[t], csn, floor, nextRow, Wanted(list, t).0, Wanted(list, t).1)
    else (t in after <==> t in before) && (t in before ==> after[t] == before[t])
  }

  ghost predicate ListOutcome(before: Tables, nextRow: nat, list: Listing, csn: nat, floor: nat, after: Tables, nextRow': nat) {
    nextRow <= nextRow' && forall t: nat :: TableOutcome(before, list, csn, floor, after, nextRow', t)
  }

  ghost predicate ListReady(tables: Tables, nextRow: nat, list: Listing, now: nat, csn: nat, floor: nat) {
    && NoRepeat(list) && now <= csn
    && (forall t <- tables | t in ObjectIds(list) :: TableOk(tables[t], now, floor, nextRow) && tables[t].changed <= csn)
  }

  /** The table loop publishes every listed table and touches no other. */
  lemma {:induction false} PublishListCorrect(tables: Tables, nextRow: nat, list: Listing, now: nat, csn: nat, floor: nat, after: Tables, nextRow': nat)
    requires ListReady(tables, nextRow, list, now, csn, floor)
    requires PublishList(tables, nextRow, list, now, csn) == Ok((after, nextRow'))
    ensures ListOutcome(tables, nextRow, list, csn, floor, after, nextRow')
    decreases |list|
  {
    if list == [] {
      assert forall t: nat :: TableOutcome(tables, list, csn, floor, tables, nextRow, t);
    } else {
      var r := PublishOne(tables, nextRow, list[0], now, csn).value;
      PublishOneCorrect(tables, nextRow, list[0], now, csn, floor, r.0, r.1);
      ListReadyTail(tables, nextRow, list, now, csn, floor, r.0, r.1);
      PublishListCorrect(r.0, r.1, list[1..], now, csn, floor, after, nextRow');
      forall t: nat
        ensures TableOutcome(tables, list, csn, floor, after, nextRow', t)
      {
        assert TableOutcome(r.0, list[1..], csn, floor, after, nextRow', t);
        OutcomeCons(tables, list, csn, floor, r.0, r.1, after, nextRow', t);
      }
    }
  }

  /** `next` is `tables` with the one table of `entry` published. */
  ghost predicate OneOutcome(tables: Tables, entry: (Schema, seq<Row>), csn: nat, floor: nat, next: Tables, nextRow: nat) {
    && entry.0.objectId in next
    && next == tables[entry.0.objectId := next[entry.0.objectId]]
    && Listed(tables, next[entry.0.objectId], csn, floor, nextRow, entry.0, entry.1)
  }

  lemma PublishOneCorrect(tables: Tables, nextRow: nat, entry: (Schema, seq<Row>), now: nat, csn: nat, floor: nat, next: Tables, next1: nat)
    requires now <= csn && PublishOne(tables, nextRow, entry, now, csn) == Ok((next, next1))
    requires entry.0.objectId in tables ==> TableOk(tables[entry.0.objectId], now, floor, nextRow) && tables[entry.0.objectId].changed <= csn
    ensures nextRow <= next1 && OneOutcome(tables, entry, csn, floor, next, next1)
  {
    PublishedCorrect(Entry(tables, entry.0, csn), now, floor, csn, nextRow, entry.0, entry.1);
  }

  lemma ListReadyTail(tables: Tables, nextRow: nat, list: Listing, now: nat, csn: nat, floor: nat, next: Tables, next1: nat)
    requires list != [] && ListReady(tables, nextRow, list, now, csn, floor) && nextRow <= next1
    requires OneOutcome(tables, list[0], csn, floor, next, next1)
    ensures ListReady(next, next1, list[1..], now, csn, floor)
  {
    forall t <- next | t in ObjectIds(list[1..])
      ensures TableOk(next[t], now, floor, next1) && next[t].changed <= csn
    {
      TableOkMore(tables[t], now, floor, nextRow, next1);
    }
  }

  lemma OutcomeCons(before: Tables, list: Listing, csn: nat, floor: nat, next: Tables, next1: nat, after: Tables, nextRow: nat, t: nat)
    requires list != [] && list[0].0.objectId !in ObjectIds(list[1..]) && next1 <= nextRow
    requires OneOutcome(before, list[0], csn, floor, next, next1)
    requires TableOutcome(next, list[1..], csn, floor, after, nextRow, t)
    ensures TableOutcome(before, list, csn, floor, after, nextRow, t)
  {
    var t0 := list[0].0.objectId;
    if t in ObjectIds(list[1..]) {
      ListedElsewhere(before, t0, next[t0], after[t], csn, floor, nextRow, Wanted(list, t));
    } else if t == t0 {
      TableOkMore(next[t0], csn, floor, next1, nextRow);
    }
  }

  lemma ListedElsewhere(before: Tables, t0: nat, h0: History, h: History, csn: nat, floor: nat, nextRow: nat, w: (Schema, seq<Row>))
    requires Listed(before[t0 := h0], h, csn, floor, nextRow, w.0, w.1) && w.0.objectId != t0
    ensures Listed(before, h, csn, floor, nextRow, w.0, w.1)
  {
    assert forall s: nat | s < csn :: ViewAt(before[t0 := h0], w.0.objectId, s) == ViewAt(before, w.0.objectId, s);
  }

  // ---- Dropping and pruning ----

  lemma RetiredRow(h: History, now: nat, floor: nat, csn: nat, nextRow: nat, more: nat, id: nat)
    requires id in h.rows && RowOk(h, id, now, floor, nextRow) && now <= csn && nextRow <= more && BeganBefore(h.rows[id], csn)
    ensures RowOk(Retired(h, csn), id, csn, floor, more)
    ensures Newest(Retired(h, csn).rows[id], csn) == None
  {
    hide ChainOk;
    var c := h.rows[id];
    LastOk(c, now, floor);
    if Open(c) {
      CloseOk(c, now, floor, csn);
      CloseHides(c, now, floor, csn);
    } else {
      ChainLater(c, now, csn, floor);
      NewestNow(c, csn, floor);
    }
  }

  lemma LastOk(c: Chain, csn: nat, floor: nat)
    requires ChainOk(c, csn, floor)
    ensures c != [] && VersionOk(c[|c| - 1], csn)
  {
  }

  lemma RetiredCorrect(h: History, now: nat, floor: nat, csn: nat, nextRow: nat, more: nat)
    requires TableOk(h, now, floor, nextRow) && now <= csn && nextRow <= more
    requires forall id <- h.rows :: BeganBefore(h.rows[id], csn)
    ensures TableOk(Retired(h, csn), csn, floor, more)
    ensures View(Retired(h, csn).rows, csn) == map[]
    ensures forall s: nat | s < csn :: View(Retired(h, csn).rows, s) == View(h.rows, s)
  {
    hide RowOk, Newest, BeganBefore;
    var next := Retired(h, csn);
    forall id <- h.rows
      ensures RowOk(next, id, csn, floor, more) && Newest(next.rows[id], csn) == None
    {
      RetiredRow(h, now, floor, csn, nextRow, more, id);
    }
    forall s: nat | s < csn
      ensures View(next.rows, s) == View(h.rows, s)
    {
      forall id <- h.rows
        ensures Newest(next.rows[id], s) == Newest(h.rows[id], s)
      {
        if Open(h.rows[id]) {
          CloseKeepsPast(h.rows[id], csn, s);
        }
      }
    }
  }

  lemma PruneTableCorrect(h: History, csn: nat, floor: nat, nextRow: nat, oldest: nat)
    requires TableOk(h, csn, floor, nextRow)
    ensures TableOk(PruneTable(h, oldest), csn, Max(floor, oldest), nextRow)
    ensures forall s: nat | oldest <= s :: View(PruneRows(h.rows, oldest), s) == View(h.rows, s)
  {
    var next := PruneTable(h, oldest);
    forall id <- next.rows
      ensures RowOk(next, id, csn, Max(floor, oldest), nextRow)
    {
      assert RowOk(h, id, csn, floor, nextRow);
      PruneOk(h.rows[id], csn, floor, oldest);
    }
    forall s: nat | oldest <= s
      ensures View(PruneRows(h.rows, oldest), s) == View(h.rows, s)
    {
      PruneViewKept(h, csn, floor, nextRow, oldest, s);
    }
  }

  lemma PruneViewKept(h: History, csn: nat, floor: nat, nextRow: nat, oldest: nat, s: nat)
    requires TableOk(h, csn, floor, nextRow) && oldest <= s
    ensures View(PruneRows(h.rows, oldest), s) == View(h.rows, s)
  {
    forall id <- h.rows
      ensures Newest(PruneChain(h.rows[id], oldest), s) == Newest(h.rows[id], s)
    {
      assert RowOk(h, id, csn, floor, nextRow);
      PruneKeepsRecent(h.rows[id], csn, floor, oldest, s);
    }
  }

  /** Forgetting what nobody sees: every snapshot from `oldest` on reads the same
      rows of every table, and the invariant is kept. */
  lemma PruneDurableCorrect(d: Durable, floor: nat, oldest: nat)
    requires DurableOk(d, floor)
    ensures DurableOk(PruneDurable(d, oldest), Max(floor, oldest))
    ensures forall t: nat, s: nat | oldest <= s :: ViewAt(PruneDurable(d, oldest).tables, t, s) == ViewAt(d.tables, t, s)
  {
    var next := PruneDurable(d, oldest);
    forall t <- d.tables
      ensures TableOk(PruneTable(d.tables[t], oldest), d.csn, Max(floor, oldest), d.nextRow)
      ensures forall s: nat | oldest <= s :: ViewAt(next.tables, t, s) == ViewAt(d.tables, t, s)
    {
      PruneTableCorrect(d.tables[t], d.csn, floor, d.nextRow, oldest);
      forall s: nat | oldest <= s
        ensures ViewAt(next.tables, t, s) == ViewAt(d.tables, t, s)
      {
        assert View(PruneRows(d.tables[t].rows, oldest), s) == View(d.tables[t].rows, s);
      }
    }
  }

  // ---- The whole publish ----

  function Dropped(h: History, listed: bool, csn: nat): History {
    if !listed && h.live then Retired(h, csn) else h
  }

  /** An unlisted table: unchanged if it is in the catalogue, empty if not. */
  lemma DroppedCorrect(h: History, now: nat, floor: nat, csn: nat, nextRow: nat, more: nat, current: bool)
    requires TableOk(h, now, floor, nextRow) && h.changed <= csn && now <= csn && nextRow <= more
    requires !current && h.live ==> forall id <- h.rows :: BeganBefore(h.rows[id], csn)
    ensures TableOk(Dropped(h, current, csn), csn, floor, more) && Dropped(h, current, csn).changed <= csn
    ensures forall s: nat | s < csn :: View(Dropped(h, current, csn).rows, s) == View(h.rows, s)
    ensures View(Dropped(h, current, csn).rows, csn) == if current then View(h.rows, now) else map[]
  {
    if !current && h.live {
      RetiredCorrect(h, now, floor, csn, nextRow, more);
    } else {
      TableOkLater(h, now, csn, floor, nextRow, more);
      if !current {
        ViewNow(h, now, floor, nextRow);
        forall id <- h.rows
          ensures !Open(h.rows[id])
        {
          assert RowOk(h, id, now, floor, nextRow);
        }
      }
    }
  }

  /** A new csn is above the begin of every stored version. */
  lemma NewCsnIsLater(h: History, now: nat, floor: nat, csn: nat, nextRow: nat)
    requires TableOk(h, now, floor, nextRow) && now < csn
    ensures forall id <- h.rows :: BeganBefore(h.rows[id], csn)
  {
    forall id <- h.rows
      ensures BeganBefore(h.rows[id], csn)
    {
      assert RowOk(h, id, now, floor, nextRow);
      assert VersionOk(h.rows[id][|h.rows[id]| - 1], now);
    }
  }

  /** What a table shows at the new csn. */
  ghost predicate ShowsAt(before: Tables, now: nat, csn: nat, current: set<nat>, list: Listing, view: map<nat, Seen>, t: nat) {
    && (t in ObjectIds(list) ==> RowsOf(Ordered(view)) == Wanted(list, t).1)
    && (t in current && t !in ObjectIds(list) ==> view == ViewAt(before, t, now))
    && (t !in current ==> view == map[])
  }

  /** One table after the table loop and the dropping, before pruning. */
  ghost predicate DropOutcome(before: Tables, now: nat, csn: nat, floor: nat, nextRow: nat, current: set<nat>, list: Listing, after: Tables, t: nat) {
    && (t in after ==> TableOk(after[t], csn, floor, nextRow) && after[t].changed <= csn)
    && (forall s: nat | s < csn :: ViewAt(after, t, s) == ViewAt(before, t, s))
    && ShowsAt(before, now, csn, current, list, ViewAt(after, t, csn), t)
  }

  lemma DropMissingCorrect(d: Durable, floor: nat, csn: nat, schemas: seq<Schema>, list: Listing, listed: Tables, nextRow: nat, t: nat)
    requires DurableOk(d, floor) && d.csn <= csn && d.nextRow <= nextRow
    requires Proper(d, csn, schemas, list)
    requires TableOutcome(d.tables, list, csn, floor, listed, nextRow, t)
    ensures DropOutcome(d.tables, d.csn, csn, floor, nextRow, SchemaIds(schemas), list,
                        DropMissing(listed, SchemaIds(schemas), csn), t)
  {
    if t !in ObjectIds(list) && t in d.tables {
      if d.csn < csn {
        NewCsnIsLater(d.tables[t], d.csn, floor, csn, d.nextRow);
      }
      DroppedCorrect(d.tables[t], d.csn, floor, csn, d.nextRow, nextRow, t in SchemaIds(schemas));
    }
  }

  /** What publishing achieves for one table. */
  ghost predicate PublishOutcome(d: Durable, csn: nat, schemas: seq<Schema>, list: Listing, oldest: nat, next: Durable, t: nat) {
    && (t in ObjectIds(list) ==> RowsAt(next.tables, t, csn) == Wanted(list, t).1)
    && (t in SchemaIds(schemas) && t !in ObjectIds(list) ==> ViewAt(next.tables, t, csn) == ViewAt(d.tables, t, d.csn))
    && (t !in SchemaIds(schemas) ==> ViewAt(next.tables, t, csn) == map[])
    && (forall s: nat | oldest <= s < csn :: ViewAt(next.tables, t, s) == ViewAt(d.tables, t, s))
  }

  lemma PruneOutcome(d: Durable, floor: nat, csn: nat, schemas: seq<Schema>, list: Listing, dropped: Tables, nextRow: nat, oldest: nat, next: Durable, t: nat)
    requires DropOutcome(d.tables, d.csn, csn, floor, nextRow, SchemaIds(schemas), list, dropped, t)
    requires oldest <= csn && next.csn == csn && next.nextRow == nextRow
    requires t in next.tables ==> t in dropped && next.tables[t] == PruneTable(dropped[t], oldest)
    requires t in dropped && t !in next.tables ==> PruneRows(dropped[t].rows, oldest) == map[]
    ensures PublishOutcome(d, csn, schemas, list, oldest, next, t)
    ensures t in next.tables ==>
              TableOk(next.tables[t], csn, Max(floor, oldest), nextRow) && next.tables[t].changed <= csn
  {
    if t in dropped {
      PruneTableCorrect(dropped[t], csn, floor, nextRow, oldest);
      forall s: nat | oldest <= s
        ensures ViewAt(next.tables, t, s) == ViewAt(dropped, t, s)
      {
        assert View(PruneRows(dropped[t].rows, oldest), s) == View(dropped[t].rows, s);
      }
    }
  }

  /** Publish refinement: at the new csn every listed table shows exactly the given
      rows in the given order, every other table of the catalogue is unchanged and
      every other table is empty; snapshots from `oldest` up to the new csn read what
      they read before; and the invariant is kept. */
  lemma PublishCorrect(d: Durable, floor: nat, csn: nat, schemas: seq<Schema>, list: Listing, oldest: nat, next: Durable)
    requires DurableOk(d, floor) && Proper(d, csn, schemas, list) && oldest <= csn
    requires PublishDurable(d, csn, schemas, list, oldest) == Ok(next)
    ensures d.csn <= next.csn == csn && next.format == 2 && d.nextRow <= next.nextRow
    ensures DurableOk(next, Max(floor, oldest))
    ensures forall t: nat :: PublishOutcome(d, csn, schemas, list, oldest, next, t)
  {
    var listed := PublishList(d.tables, d.nextRow, list, d.csn, csn).value;
    var dropped := DropMissing(listed.0, SchemaIds(schemas), csn);
    assert ListReady(d.tables, d.nextRow, list, d.csn, csn, floor);
    PublishListCorrect(d.tables, d.nextRow, list, d.csn, csn, floor, listed.0, listed.1);
    forall t: nat
      ensures PublishOutcome(d, csn, schemas, list, oldest, next, t)
      ensures t in next.tables ==> TableOk(next.tables[t], csn, Max(floor, oldest), listed.1) && next.tables[t].changed <= csn
    {
      assert TableOutcome(d.tables, list, csn, floor, listed.0, listed.1, t);
      DropMissingCorrect(d, floor, csn, schemas, list, listed.0, listed.1, t);
      PruneOutcome(d, floor, csn, schemas, list, dropped, listed.1, oldest, next, t);
    }
  }

  /** Publishing at a csn keeps what a snapshot `s` reads of a listed table if and
      only if the csn is above the snapshot or the table is given exactly the rows it
      already shows there: at its own csn a publish replaces what is read. */
  lemma SnapshotKeptIff(d: Durable, floor: nat, csn: nat, schemas: seq<Schema>, list: Listing, oldest: nat, next: Durable, t: nat, s: nat)
    requires DurableOk(d, floor) && Proper(d, csn, schemas, list)
    requires PublishDurable(d, csn, schemas, list, oldest) == Ok(next)
    requires oldest <= s <= d.csn && t in ObjectIds(list)
    ensures RowsAt(next.tables, t, s) == RowsAt(d.tables, t, s) <==> s < csn || Wanted(list, t).1 == RowsAt(d.tables, t, s)
  {
    PublishCorrect(d, floor, csn, schemas, list, oldest, next);
    OutcomeAt(d, csn, schemas, list, oldest, next, t, s);
  }

  lemma OutcomeAt(d: Durable, csn: nat, schemas: seq<Schema>, list: Listing, oldest: nat, next: Durable, t: nat, s: nat)
    requires PublishOutcome(d, csn, schemas, list, oldest, next, t)
    requires oldest <= s <= csn && t in ObjectIds(list)
    ensures s < csn ==> RowsAt(next.tables, t, s) == RowsAt(d.tables, t, s)
    ensures s == csn ==> RowsAt(next.tables, t, s) == Wanted(list, t).1
  {
  }

  // ---- A publish at the csn of a snapshot ----

  const TABLE := Schema("t", 1, 1, [])

  function OneChain(row: Row): map<nat, Chain> {
    map[1 := [Version(3, None, 3, 0, row)]]
  }

  /** One table with one row, published at csn 3, in a catalogue that has reached csn 5. */
  function OneRow(row: Row): Durable {
    Durable(2, 5, 1, map[1 := History(TABLE, 3, true, OneChain(row))])
  }

  lemma OneRowOk(row: Row)
    ensures DurableOk(OneRow(row), 5)
  {
    var h := OneRow(row).tables[1];
    assert RowOk(h, 1, 5, 5, 1);
  }

  lemma OneRowShown(row: Row)
    ensures View(OneChain(row), 5) == map[1 := Seen(3, 3, 0, row)]
    ensures RowsAt(OneRow(row).tables, 1, 5) == [row]
  {
    var c := OneChain(row)[1];
    NewestIs(c, 5, 0);
    var m: map<nat, Seen> := View(OneChain(row), 5);
    assert m.Keys == {1};
    assert Without(m, 1) == map[];
    assert Ordered(m) == [(1, m[1])];
  }

  lemma OneRowAccepts(row: Row, rows: seq<Row>)
    requires |rows| <= 2
    ensures !Refused(OneRow(row).tables[1], 5, 5, 1, rows)
  {
    OneRowShown(row);
    FreshAtMost(Match(RowsOf(Visible(OneRow(row).tables[1], 5)), rows, {}));
  }

  lemma {:induction false} FreshAtMost(priors: seq<Option<nat>>)
    ensures Fresh(priors) <= |priors|
  {
    if priors != [] {
      FreshAtMost(priors[1..]);
    }
  }

  lemma ListOfOne(d: Durable, csn: nat, schemas: seq<Schema>, entry: (Schema, seq<Row>), oldest: nat)
    requires d.csn <= csn && !Refused(Entry(d.tables, entry.0, csn), d.csn, csn, d.nextRow, entry.1)
    ensures PublishDurable(d, csn, schemas, [entry], oldest).Ok?
  {
    hide Refused, Published, NewRows, Entry, DropMissing, PruneAll;
    var list: Listing := [entry];
    assert list[1..] == [];
    assert PublishOne(d.tables, d.nextRow, entry, d.csn, csn).Ok?;
    assert PublishList(d.tables, d.nextRow, list, d.csn, csn).Ok?;
  }

  lemma OneIsProper(row: Row, rows: seq<Row>)
    ensures Proper(OneRow(row), 5, [TABLE], [(TABLE, rows)]) && ObjectIds([(TABLE, rows)]) == {1}
  {
    var list: Listing := [(TABLE, rows)];
    assert list[1..] == [];
    assert [TABLE][0].objectId in SchemaIds([TABLE]);
  }

  /** A snapshot at csn 5, and a publish at csn 5 that appends a row: it is accepted, and what
      the snapshot reads changes. */
  lemma SnapshotReplaced(row: Row, added: Row)
    ensures RowsAt(OneRow(row).tables, 1, 5) == [row]
    ensures var r := PublishDurable(OneRow(row), 5, [TABLE], [(TABLE, [row, added])], 5);
      r.Ok? && RowsAt(r.value.tables, 1, 5) == [row, added]
  {
    hide Refused, PublishDurable, DurableOk, Proper, RowsAt, ObjectIds;
    OneRowOk(row);
    OneRowShown(row);
    OneRowAccepts(row, [row, added]);
    ListOfOne(OneRow(row), 5, [TABLE], (TABLE, [row, added]), 5);
    OneIsProper(row, [row, added]);
    var next := PublishDurable(OneRow(row), 5, [TABLE], [(TABLE, [row, added])], 5).value;
    PublishCorrect(OneRow(row), 5, 5, [TABLE], [(TABLE, [row, added])], 5, next);
    OutcomeAt(OneRow(row), 5, [TABLE], [(TABLE, [row, added])], 5, next, 1, 5);
  }
}
