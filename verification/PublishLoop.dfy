/** The row loops of `publish_changed` (mvcc.rs) as they run, and the proof that they
    build exactly the published table. */
module PublishLoop {
  import opened Basics
  import opened Rows
  import opened Matching
  import opened Versions
  import opened Publish

  /** The table under construction: chains, last row id given out, ids placed, and whether a
      value has changed. */
  datatype Draft = Draft(chains: map<nat, Chain>, next: nat, used: set<nat>, changed: bool)

  /** One wanted row. Its stored chain stays, or ends and goes on with a new version; a
      row nobody had starts a chain. Refused when a version of this csn would change or
      row ids run out. */
  function PlaceOne(d: Draft, prior: Option<(nat, Seen)>, csn: nat, order: nat, row: Row): Option<Draft> {
    match prior
    case None =>
      if d.next + 1 > U64_MAX then None
      else Some(Draft(d.chains[d.next + 1 := [Version(csn, None, csn, order, row)]], d.next + 1, d.used + {d.next + 1}, true))
    case Some((id, previous)) =>
      if previous.row == row && previous.order == order then Some(d.(used := d.used + {id}))
      else if previous.begin == csn || ChainAt(d.chains, id) == [] then None
      else
        var version := Version(csn, None, if previous.row == row then previous.valueBegin else csn, order, row);
        Some(d.(chains := d.chains[id := Close(d.chains[id], csn) + [version]], used := d.used + {id},
                changed := d.changed || previous.row != row))
  }

  /** One stored row after the wanted rows: it ends if nobody took it. */
  function EndOne(d: Draft, entry: (nat, Seen), csn: nat): Option<Draft> {
    if entry.0 in d.used then Some(d)
    else if entry.1.begin == csn || ChainAt(d.chains, entry.0) == [] then None
    else Some(d.(chains := d.chains[entry.0 := Close(d.chains[entry.0], csn)], used := d.used + {entry.0}, changed := true))
  }

  function PriorAt(shown: seq<(nat, Seen)>, priors: seq<Option<nat>>, i: nat): Option<(nat, Seen)>
    requires i < |priors|
  {
    if priors[i].Some? && priors[i].value < |shown| then Some(shown[priors[i].value]) else None
  }

  function PlaceFrom(d: Draft, shown: seq<(nat, Seen)>, priors: seq<Option<nat>>, csn: nat, rows: seq<Row>, i: nat): Option<Draft>
    requires |priors| == |rows| && i <= |rows|
    decreases |rows| - i
  {
    if i == |rows| then Some(d) else
    match PlaceOne(d, PriorAt(shown, priors, i), csn, i, rows[i])
    case None => None
    case Some(d') => PlaceFrom(d', shown, priors, csn, rows, i + 1)
  }

  function EndFrom(d: Draft, shown: seq<(nat, Seen)>, csn: nat, k: nat): Option<Draft>
    requires k <= |shown|
    decreases |shown| - k
  {
    if k == |shown| then Some(d) else
    match EndOne(d, shown[k], csn)
    case None => None
    case Some(d') => EndFrom(d', shown, csn, k + 1)
  }

  // ---- The loops build the published chains ----

  /** Every chain touched so far has evolved; the others are as stored. */
  ghost predicate DraftIs(h: History, now: nat, csn: nat, ids: seq<nat>, rows: seq<Row>, d: Draft)
    requires |ids| == |rows|
  {
    && d.chains.Keys == h.rows.Keys + d.used
    && forall id <- d.chains :: d.chains[id] == DraftChain(h, now, csn, ids, rows, d.used, id)
  }

  function DraftChain(h: History, now: nat, csn: nat, ids: seq<nat>, rows: seq<Row>, used: set<nat>, id: nat): Chain
    requires |ids| == |rows|
  {
    if id in used then Evolve(ChainAt(h.rows, id), now, csn, PlaceOf(ids, rows, id)) else ChainAt(h.rows, id)
  }

  /** A stored row that the loops handle: an open chain shown by its last version. */
  predicate Shown(h: History, entry: (nat, Seen)) {
    && entry.0 in h.rows && Open(h.rows[entry.0])
    && entry.1 == ToSeen(h.rows[entry.0][|h.rows[entry.0]| - 1])
  }

  lemma PlaceOneStored(h: History, now: nat, csn: nat, ids: seq<nat>, rows: seq<Row>, d: Draft, i: nat, entry: (nat, Seen))
    requires |ids| == |rows| && i < |rows| && Distinct(ids) && ids[i] == entry.0 && entry.0 !in d.used
    requires DraftIs(h, now, csn, ids, rows, d) && Shown(h, entry)
    ensures PlaceOne(d, Some(entry), csn, i, rows[i]).None? <==>
              entry.1.begin == csn && Disturbed(entry.1, PlaceOf(ids, rows, entry.0))
    ensures PlaceOne(d, Some(entry), csn, i, rows[i]).Some? ==>
              var d' := PlaceOne(d, Some(entry), csn, i, rows[i]).value;
              DraftIs(h, now, csn, ids, rows, d') && d'.used == d.used + {ids[i]} && d'.next == d.next
  {
    IndexOfIs(ids, i);
    assert ids[i] in ids;
  }

  lemma PlaceOneNew(h: History, now: nat, csn: nat, ids: seq<nat>, rows: seq<Row>, d: Draft, i: nat)
    requires |ids| == |rows| && i < |rows| && Distinct(ids) && ids[i] == d.next + 1 && ids[i] !in h.rows
    requires DraftIs(h, now, csn, ids, rows, d)
    ensures PlaceOne(d, None, csn, i, rows[i]).None? <==> d.next + 1 > U64_MAX
    ensures PlaceOne(d, None, csn, i, rows[i]).Some? ==>
              var d' := PlaceOne(d, None, csn, i, rows[i]).value;
              DraftIs(h, now, csn, ids, rows, d') && d'.used == d.used + {ids[i]} && d'.next == d.next + 1
  {
    IndexOfIs(ids, i);
    assert ids[i] in ids;
  }

  lemma EndOneCorrect(h: History, now: nat, csn: nat, ids: seq<nat>, rows: seq<Row>, d: Draft, entry: (nat, Seen))
    requires |ids| == |rows| && DraftIs(h, now, csn, ids, rows, d) && Shown(h, entry)
    requires entry.0 !in d.used ==> entry.0 !in ids && Newest(h.rows[entry.0], now).Some?
    ensures EndOne(d, entry, csn).None? <==> entry.0 !in d.used && entry.1.begin == csn
    ensures EndOne(d, entry, csn).Some? ==>
              var d' := EndOne(d, entry, csn).value;
              DraftIs(h, now, csn, ids, rows, d') && d'.used == d.used + {entry.0} && d'.next == d.next
  {
  }

  lemma {:induction false} AssignAt(ids: seq<nat>, priors: seq<Option<nat>>, nextRow: nat, i: nat)
    requires PriorsWithin(priors, |ids|) && i < |priors|
    ensures Assign(ids, priors, nextRow)[i] ==
            if priors[i].Some? then ids[priors[i].value] else nextRow + Fresh(priors[..i]) + 1
    ensures Fresh(priors[..i + 1]) == Fresh(priors[..i]) + if priors[i].None? then 1 else 0
  {
    if i == 0 {
      assert priors[..1][1..] == [];
    } else {
      assert priors[1..][..i - 1] == priors[..i][1..] && priors[1..][..i] == priors[..i + 1][1..];
      AssignAt(ids, priors[1..], if priors[0].Some? then nextRow else nextRow + 1, i - 1);
    }
  }

  lemma {:induction false} FreshPrefix(priors: seq<Option<nat>>, i: nat)
    requires i <= |priors|
    ensures Fresh(priors[..i]) <= Fresh(priors)
  {
    if i > 0 {
      assert priors[..i][1..] == priors[1..][..i - 1];
      FreshPrefix(priors[1..], i - 1);
    }
  }

  /** What the loops work on. */
  ghost predicate Setting(h: History, now: nat, floor: nat, nextRow: nat, rows: seq<Row>,
                          shown: seq<(nat, Seen)>, priors: seq<Option<nat>>, ids: seq<nat>) {
    && TableOk(h, now, floor, nextRow)
    && shown == Visible(h, now)
    && priors == Match(RowsOf(shown), rows, {})
    && ids == NextIds(h, now, nextRow, rows)
  }

  lemma ShownAt(h: History, now: nat, floor: nat, nextRow: nat, k: nat)
    requires TableOk(h, now, floor, nextRow) && k < |Visible(h, now)|
    ensures Shown(h, Visible(h, now)[k])
    ensures Visible(h, now)[k].0 in View(h.rows, now) && View(h.rows, now)[Visible(h, now)[k].0] == Visible(h, now)[k].1
  {
    OrderedDistinct(View(h.rows, now));
    ViewNow(h, now, floor, nextRow);
  }

  /** The id of wanted row `i` and how the counter stands. */
  lemma IdAt(h: History, now: nat, floor: nat, nextRow: nat, rows: seq<Row>, shown: seq<(nat, Seen)>,
             priors: seq<Option<nat>>, ids: seq<nat>, i: nat)
    requires Setting(h, now, floor, nextRow, rows, shown, priors, ids) && i < |rows|
    ensures priors[i].Some? ==> priors[i].value < |shown| && ids[i] == shown[priors[i].value].0
    ensures priors[i].None? ==> ids[i] == nextRow + Fresh(priors[..i]) + 1 && ids[i] !in h.rows
    ensures Fresh(priors[..i + 1]) == Fresh(priors[..i]) + (if priors[i].None? then 1 else 0)
  {
    MatchInjective(RowsOf(shown), rows, {});
    AssignAt(IdsOf(shown), priors, nextRow, i);
    if priors[i].None? && ids[i] in h.rows {
      NotStored(h, now, floor, nextRow, ids[i]);
    }
  }

  lemma NotStored(h: History, now: nat, floor: nat, nextRow: nat, id: nat)
    requires TableOk(h, now, floor, nextRow) && nextRow < id
    ensures id !in h.rows
  {
    assert id in h.rows ==> RowOk(h, id, now, floor, nextRow);
  }

  /** Before wanted row `i`. */
  ghost predicate PlaceInv(h: History, now: nat, csn: nat, nextRow: nat, rows: seq<Row>, priors: seq<Option<nat>>,
                           ids: seq<nat>, d: Draft, i: nat)
    requires |ids| == |rows| == |priors| && i <= |rows|
  {
    && DraftIs(h, now, csn, ids, rows, d)
    && d.used == Prefix(ids, i)
    && d.next == nextRow + Fresh(priors[..i])
    && (d.next > nextRow ==> d.next <= U64_MAX)
    && NoClash(h, now, csn, ids, rows, d.used)
  }

  /** None of these rows would have to change a version of this csn. */
  ghost predicate NoClash(h: History, now: nat, csn: nat, ids: seq<nat>, rows: seq<Row>, done: set<nat>)
    requires |ids| == |rows|
  {
    forall id <- done :: !Clashes(h, now, csn, ids, rows, id)
  }

  predicate Clashes(h: History, now: nat, csn: nat, ids: seq<nat>, rows: seq<Row>, id: nat)
    requires |ids| == |rows|
  {
    && id in View(h.rows, now) && View(h.rows, now)[id].begin == csn
    && Disturbed(View(h.rows, now)[id], PlaceOf(ids, rows, id))
  }

  lemma NoClashGrows(h: History, now: nat, csn: nat, ids: seq<nat>, rows: seq<Row>, done: set<nat>, id: nat)
    requires |ids| == |rows| && NoClash(h, now, csn, ids, rows, done) && !Clashes(h, now, csn, ids, rows, id)
    ensures NoClash(h, now, csn, ids, rows, done + {id})
  {
  }

  lemma ClashRefuses(h: History, now: nat, csn: nat, nextRow: nat, rows: seq<Row>, id: nat)
    requires Clashes(h, now, csn, NextIds(h, now, nextRow, rows), rows, id)
    ensures Refused(h, now, csn, nextRow, rows)
  {
    assert Clash(h, now, csn, NextIds(h, now, nextRow, rows), rows);
  }

  lemma PlaceStep(h: History, now: nat, floor: nat, csn: nat, nextRow: nat, rows: seq<Row>, shown: seq<(nat, Seen)>,
                  priors: seq<Option<nat>>, ids: seq<nat>, d: Draft, i: nat)
    requires Setting(h, now, floor, nextRow, rows, shown, priors, ids) && i < |rows|
    requires PlaceInv(h, now, csn, nextRow, rows, priors, ids, d, i)
    ensures var r := PlaceOne(d, PriorAt(shown, priors, i), csn, i, rows[i]);
      if r.None? then Refused(h, now, csn, nextRow, rows)
      else PlaceInv(h, now, csn, nextRow, rows, priors, ids, r.value, i + 1)
  {
    IdAt(h, now, floor, nextRow, rows, shown, priors, ids, i);
    if priors[i].Some? {
      PlaceStepStored(h, now, floor, csn, nextRow, rows, shown, priors, ids, d, i);
    } else {
      PlaceStepNew(h, now, floor, csn, nextRow, rows, shown, priors, ids, d, i);
    }
  }

  lemma UsedGrows(ids: seq<nat>, i: nat)
    requires i < |ids| && Distinct(ids)
    ensures Prefix(ids, i + 1) == Prefix(ids, i) + {ids[i]} && ids[i] !in Prefix(ids, i)
  {
    assert ids[..i + 1] == ids[..i] + [ids[i]];
  }

  function Prefix(ids: seq<nat>, i: nat): set<nat>
    requires i <= |ids|
  {
    set id | id in ids[..i]
  }

  lemma PlaceStepStored(h: History, now: nat, floor: nat, csn: nat, nextRow: nat, rows: seq<Row>, shown: seq<(nat, Seen)>,
                        priors: seq<Option<nat>>, ids: seq<nat>, d: Draft, i: nat)
    requires Setting(h, now, floor, nextRow, rows, shown, priors, ids) && i < |rows|
    requires PlaceInv(h, now, csn, nextRow, rows, priors, ids, d, i)
    requires priors[i].Some? && priors[i].value < |shown| && ids[i] == shown[priors[i].value].0
    requires Fresh(priors[..i + 1]) == Fresh(priors[..i])
    ensures var r := PlaceOne(d, Some(shown[priors[i].value]), csn, i, rows[i]);
      if r.None? then Refused(h, now, csn, nextRow, rows)
      else PlaceInv(h, now, csn, nextRow, rows, priors, ids, r.value, i + 1)
  {
    hide DraftIs, NoClash, Match, View, TableOk, Refused;
    NextIdsOk(h, now, floor, nextRow, rows);
    UsedGrows(ids, i);
    ShownAt(h, now, floor, nextRow, priors[i].value);
    PlaceOneStored(h, now, csn, ids, rows, d, i, shown[priors[i].value]);
    if Clashes(h, now, csn, ids, rows, ids[i]) {
      ClashRefuses(h, now, csn, nextRow, rows, ids[i]);
    } else {
      NoClashGrows(h, now, csn, ids, rows, d.used, ids[i]);
    }
  }

  lemma PlaceStepNew(h: History, now: nat, floor: nat, csn: nat, nextRow: nat, rows: seq<Row>, shown: seq<(nat, Seen)>,
                     priors: seq<Option<nat>>, ids: seq<nat>, d: Draft, i: nat)
    requires Setting(h, now, floor, nextRow, rows, shown, priors, ids) && i < |rows|
    requires PlaceInv(h, now, csn, nextRow, rows, priors, ids, d, i)
    requires priors[i].None? && ids[i] == nextRow + Fresh(priors[..i]) + 1 && ids[i] !in h.rows
    requires Fresh(priors[..i + 1]) == Fresh(priors[..i]) + 1
    ensures var r := PlaceOne(d, None, csn, i, rows[i]);
      if r.None? then Refused(h, now, csn, nextRow, rows)
      else PlaceInv(h, now, csn, nextRow, rows, priors, ids, r.value, i + 1)
  {
    hide DraftIs, NoClash, Match, TableOk;
    NextIdsOk(h, now, floor, nextRow, rows);
    UsedGrows(ids, i);
    NoClashGrows(h, now, csn, ids, rows, d.used, ids[i]);
    PlaceOneNew(h, now, csn, ids, rows, d, i);
    FreshPrefix(priors, i + 1);
  }

  lemma {:induction false} PlaceFromCorrect(h: History, now: nat, floor: nat, csn: nat, nextRow: nat, rows: seq<Row>,
                                            shown: seq<(nat, Seen)>, priors: seq<Option<nat>>, ids: seq<nat>, d: Draft, i: nat)
    requires Setting(h, now, floor, nextRow, rows, shown, priors, ids) && i <= |rows|
    requires PlaceInv(h, now, csn, nextRow, rows, priors, ids, d, i)
    ensures var r := PlaceFrom(d, shown, priors, csn, rows, i);
      if r.None? then Refused(h, now, csn, nextRow, rows)
      else PlaceInv(h, now, csn, nextRow, rows, priors, ids, r.value, |rows|)
    decreases |rows| - i
  {
    if i < |rows| {
      PlaceStep(h, now, floor, csn, nextRow, rows, shown, priors, ids, d, i);
      var r := PlaceOne(d, PriorAt(shown, priors, i), csn, i, rows[i]);
      if r.Some? {
        PlaceFromCorrect(h, now, floor, csn, nextRow, rows, shown, priors, ids, r.value, i + 1);
      }
    }
  }

  // ---- Ending the rows nobody took ----

  function EntryIds(shown: seq<(nat, Seen)>, k: nat): set<nat>
    requires k <= |shown|
  {
    set j | 0 <= j < k :: shown[j].0
  }

  lemma EntryIdsGrow(shown: seq<(nat, Seen)>, k: nat)
    requires k < |shown|
    ensures EntryIds(shown, k + 1) == EntryIds(shown, k) + {shown[k].0}
  {
  }

  ghost predicate EndInv(h: History, now: nat, csn: nat, nextRow: nat, rows: seq<Row>, ids: seq<nat>,
                         shown: seq<(nat, Seen)>, d: Draft, k: nat)
    requires |ids| == |rows| && k <= |shown|
  {
    && DraftIs(h, now, csn, ids, rows, d)
    && d.used == (set id | id in ids) + EntryIds(shown, k)
    && d.next == nextRow + NewRows(h, now, rows)
    && NoClash(h, now, csn, ids, rows, d.used)
  }

  lemma EndStep(h: History, now: nat, floor: nat, csn: nat, nextRow: nat, rows: seq<Row>, shown: seq<(nat, Seen)>,
                ids: seq<nat>, d: Draft, k: nat)
    requires TableOk(h, now, floor, nextRow) && shown == Visible(h, now) && ids == NextIds(h, now, nextRow, rows)
    requires k < |shown| && EndInv(h, now, csn, nextRow, rows, ids, shown, d, k)
    ensures var r := EndOne(d, shown[k], csn);
      if r.None? then Refused(h, now, csn, nextRow, rows)
      else EndInv(h, now, csn, nextRow, rows, ids, shown, r.value, k + 1)
  {
    hide DraftIs, NoClash, Match, TableOk, Refused, EntryIds;
    ShownAt(h, now, floor, nextRow, k);
    EndOneCorrect(h, now, csn, ids, rows, d, shown[k]);
    if Clashes(h, now, csn, ids, rows, shown[k].0) {
      if shown[k].0 !in d.used {
        ClashRefuses(h, now, csn, nextRow, rows, shown[k].0);
      }
    } else {
      NoClashGrows(h, now, csn, ids, rows, d.used, shown[k].0);
    }
    EntryIdsGrow(shown, k);
  }

  lemma {:induction false} EndFromCorrect(h: History, now: nat, floor: nat, csn: nat, nextRow: nat, rows: seq<Row>,
                                          shown: seq<(nat, Seen)>, ids: seq<nat>, d: Draft, k: nat)
    requires TableOk(h, now, floor, nextRow) && shown == Visible(h, now) && ids == NextIds(h, now, nextRow, rows)
    requires k <= |shown| && EndInv(h, now, csn, nextRow, rows, ids, shown, d, k)
    ensures var r := EndFrom(d, shown, csn, k);
      if r.None? then Refused(h, now, csn, nextRow, rows)
      else EndInv(h, now, csn, nextRow, rows, ids, shown, r.value, |shown|) && r.value.next == d.next
    decreases |shown| - k
  {
    hide EndInv, Refused, ChainAt, Close, TableOk, NextIds, View, Ordered;
    if k < |shown| {
      EndStep(h, now, floor, csn, nextRow, rows, shown, ids, d, k);
      var r := EndOne(d, shown[k], csn);
      if r.Some? {
        EndFromCorrect(h, now, floor, csn, nextRow, rows, shown, ids, r.value, k + 1);
      }
    }
  }

  /** After both loops the draft is the published table. */
  lemma EndIsPublished(h: History, now: nat, floor: nat, csn: nat, nextRow: nat, rows: seq<Row>, ids: seq<nat>, d: Draft)
    requires TableOk(h, now, floor, nextRow) && ids == NextIds(h, now, nextRow, rows)
    requires EndInv(h, now, csn, nextRow, rows, ids, Visible(h, now), d, |Visible(h, now)|)
    requires d.next <= U64_MAX
    ensures !Refused(h, now, csn, nextRow, rows) && d.chains == NextRows(h, now, csn, ids, rows)
  {
    AllEnded(h, now, ids, d);
    DraftComplete(h, now, csn, ids, rows, d);
  }

  lemma DraftComplete(h: History, now: nat, csn: nat, ids: seq<nat>, rows: seq<Row>, d: Draft)
    requires |ids| == |rows| && DraftIs(h, now, csn, ids, rows, d)
    requires forall id :: id in d.used <==> id in ids || id in View(h.rows, now)
    ensures d.chains == NextRows(h, now, csn, ids, rows)
  {
  }

  lemma AllEnded(h: History, now: nat, ids: seq<nat>, d: Draft)
    requires var shown := Visible(h, now);
      d.used == (set id | id in ids) + EntryIds(shown, |shown|)
    ensures forall id :: id in d.used <==> id in ids || id in View(h.rows, now)
  {
    var shown := Visible(h, now);
    OrderedDistinct(View(h.rows, now));
    forall id <- View(h.rows, now)
      ensures id in d.used
    {
      assert id in IdsOf(shown);
      var j :| 0 <= j < |shown| && IdsOf(shown)[j] == id;
      assert shown[j].0 == id;
    }
  }

  // ---- The flag ----

  /** The value of a row changes: it is new, rewritten or removed. */
  predicate Altered(h: History, now: nat, ids: seq<nat>, rows: seq<Row>, id: nat)
    requires |ids| == |rows|
  {
    id in View(h.rows, now) && PlaceOf(ids, rows, id).Some? ==> View(h.rows, now)[id].row != PlaceOf(ids, rows, id).value.1
  }

  /** The flag says whether the schema or one of the rows handled so far has changed. */
  ghost predicate FlagIs(h: History, now: nat, ids: seq<nat>, rows: seq<Row>, start: bool, d: Draft)
    requires |ids| == |rows|
  {
    d.changed <==> start || exists id <- d.used :: Altered(h, now, ids, rows, id)
  }

  lemma FlagGrows(h: History, now: nat, ids: seq<nat>, rows: seq<Row>, start: bool, d: Draft, d': Draft, id: nat)
    requires |ids| == |rows| && FlagIs(h, now, ids, rows, start, d) && d'.used == d.used + {id}
    requires d'.changed <==> d.changed || Altered(h, now, ids, rows, id)
    ensures FlagIs(h, now, ids, rows, start, d')
  {
    assert id in d'.used;
    assert forall x <- d'.used :: x in d.used || x == id;
  }

  lemma PlaceFlag(h: History, now: nat, floor: nat, csn: nat, nextRow: nat, rows: seq<Row>, shown: seq<(nat, Seen)>,
                  priors: seq<Option<nat>>, ids: seq<nat>, start: bool, d: Draft, i: nat, d': Draft)
    requires Setting(h, now, floor, nextRow, rows, shown, priors, ids) && i < |rows|
    requires PlaceOne(d, PriorAt(shown, priors, i), csn, i, rows[i]) == Some(d') && FlagIs(h, now, ids, rows, start, d)
    requires PlaceInv(h, now, csn, nextRow, rows, priors, ids, d, i)
    ensures FlagIs(h, now, ids, rows, start, d')
  {
    hide FlagIs, DraftIs, NoClash, Match, TableOk, NextIds, View, Ordered, PlaceOne, Altered;
    NextIdsOk(h, now, floor, nextRow, rows);
    IdAt(h, now, floor, nextRow, rows, shown, priors, ids, i);
    PlaceOneFlag(d, PriorAt(shown, priors, i), csn, i, rows[i], d');
    AlteredAt(h, now, ids, rows, i);
    if priors[i].Some? {
      ShownAt(h, now, floor, nextRow, priors[i].value);
    } else {
      NotShown(h, now, ids[i]);
    }
    FlagGrows(h, now, ids, rows, start, d, d', ids[i]);
  }

  lemma PlaceOneFlag(d: Draft, prior: Option<(nat, Seen)>, csn: nat, order: nat, row: Row, d': Draft)
    requires PlaceOne(d, prior, csn, order, row) == Some(d')
    ensures d'.used == d.used + {if prior.None? then d.next + 1 else prior.value.0}
    ensures d'.changed <==> d.changed || prior.None? || prior.value.1.row != row
  {
  }

  lemma AlteredAt(h: History, now: nat, ids: seq<nat>, rows: seq<Row>, i: nat)
    requires |ids| == |rows| && i < |rows| && Distinct(ids)
    ensures Altered(h, now, ids, rows, ids[i]) <==> (ids[i] in View(h.rows, now) ==> View(h.rows, now)[ids[i]].row != rows[i])
  {
    IndexOfIs(ids, i);
    assert ids[i] in ids;
  }

  lemma NotShown(h: History, now: nat, id: nat)
    requires id !in h.rows
    ensures id !in View(h.rows, now)
  {
  }

  lemma {:induction false} PlaceFromFlag(h: History, now: nat, floor: nat, csn: nat, nextRow: nat, rows: seq<Row>, shown: seq<(nat, Seen)>,
                                         priors: seq<Option<nat>>, ids: seq<nat>, start: bool, d: Draft, i: nat)
    requires Setting(h, now, floor, nextRow, rows, shown, priors, ids) && i <= |rows|
    requires PlaceInv(h, now, csn, nextRow, rows, priors, ids, d, i) && FlagIs(h, now, ids, rows, start, d)
    ensures var r := PlaceFrom(d, shown, priors, csn, rows, i);
      r.Some? ==> FlagIs(h, now, ids, rows, start, r.value)
    decreases |rows| - i
  {
    hide FlagIs, PlaceInv, Setting, PlaceOne;
    SettingSizes(h, now, floor, nextRow, rows, shown, priors, ids);
    if i < |rows| {
      PlaceStep(h, now, floor, csn, nextRow, rows, shown, priors, ids, d, i);
      var r := PlaceOne(d, PriorAt(shown, priors, i), csn, i, rows[i]);
      if r.Some? {
        PlaceFlag(h, now, floor, csn, nextRow, rows, shown, priors, ids, start, d, i, r.value);
        PlaceFromFlag(h, now, floor, csn, nextRow, rows, shown, priors, ids, start, r.value, i + 1);
      }
    }
  }

  lemma SettingSizes(h: History, now: nat, floor: nat, nextRow: nat, rows: seq<Row>, shown: seq<(nat, Seen)>,
                     priors: seq<Option<nat>>, ids: seq<nat>)
    requires Setting(h, now, floor, nextRow, rows, shown, priors, ids)
    ensures |ids| == |rows| == |priors|
  {
  }

  lemma EndFlag(h: History, now: nat, csn: nat, rows: seq<Row>, ids: seq<nat>, start: bool, d: Draft, entry: (nat, Seen), d': Draft)
    requires |ids| == |rows| && EndOne(d, entry, csn) == Some(d') && FlagIs(h, now, ids, rows, start, d)
    requires forall id | id in ids :: id in d.used
    ensures FlagIs(h, now, ids, rows, start, d')
  {
    if entry.0 !in d.used {
      FlagGrows(h, now, ids, rows, start, d, d', entry.0);
    }
  }

  lemma {:induction false} EndFromFlag(h: History, now: nat, floor: nat, csn: nat, nextRow: nat, rows: seq<Row>,
                                       shown: seq<(nat, Seen)>, ids: seq<nat>, start: bool, d: Draft, k: nat)
    requires |ids| == |rows| && k <= |shown| && FlagIs(h, now, ids, rows, start, d)
    requires forall id | id in ids :: id in d.used
    ensures var r := EndFrom(d, shown, csn, k);
      r.Some? ==> FlagIs(h, now, ids, rows, start, r.value)
    decreases |shown| - k
  {
    hide FlagIs;
    if k < |shown| {
      var r := EndOne(d, shown[k], csn);
      if r.Some? {
        EndFlag(h, now, csn, rows, ids, start, d, shown[k], r.value);
        EndFromFlag(h, now, floor, csn, nextRow, rows, shown, ids, start, r.value, k + 1);
      }
    }
  }

  /** After both loops the flag says whether any value in the table changes. */
  lemma FlagIsChange(h: History, now: nat, schema: Schema, ids: seq<nat>, rows: seq<Row>, d: Draft)
    requires |ids| == |rows| && FlagIs(h, now, ids, rows, SchemaDiffers(h, schema), d)
    requires forall id :: id in d.used <==> id in ids || id in View(h.rows, now)
    ensures d.changed <==> ValuesChange(h, now, schema, ids, rows)
  {
  }

  predicate SchemaDiffers(h: History, schema: Schema) {
    h.schema.columns != schema.columns || h.schema.version != schema.version
  }

  // ---- The loops themselves ----

  method PlaceLoop(d0: Draft, shown: seq<(nat, Seen)>, priors: seq<Option<nat>>, csn: nat, rows: seq<Row>) returns (r: Option<Draft>)
    requires |priors| == |rows|
    ensures r == PlaceFrom(d0, shown, priors, csn, rows, 0)
  {
    var d := d0;
    for i := 0 to |rows|
      invariant PlaceFrom(d, shown, priors, csn, rows, i) == PlaceFrom(d0, shown, priors, csn, rows, 0)
    {
      var next := PlaceOne(d, PriorAt(shown, priors, i), csn, i, rows[i]);
      if next.None? {
        return None;
      }
      d := next.value;
    }
    return Some(d);
  }

  method EndLoop(d0: Draft, shown: seq<(nat, Seen)>, csn: nat) returns (r: Option<Draft>)
    ensures r == EndFrom(d0, shown, csn, 0)
  {
    var d := d0;
    for k := 0 to |shown|
      invariant EndFrom(d, shown, csn, k) == EndFrom(d0, shown, csn, 0)
    {
      var next := EndOne(d, shown[k], csn);
      if next.None? {
        return None;
      }
      d := next.value;
    }
    return Some(d);
  }

  /** Publishing one table as `publish_changed` does it: match, place, end the rest. It
      fails exactly when the publish is refused, and otherwise builds the published
      chains and counts the new row ids. */
  method PublishTable(h: History, now: nat, csn: nat, nextRow: nat, schema: Schema, rows: seq<Row>, ghost floor: nat)
    returns (r: Option<(History, nat)>)
    requires TableOk(h, now, floor, nextRow) && nextRow <= U64_MAX
    ensures r.None? <==> Refused(h, now, csn, nextRow, rows)
    ensures r.Some? ==> r.value == (Published(h, now, csn, nextRow, schema, rows), nextRow + NewRows(h, now, rows))
  {
    hide TableOk, Refused, NextRows, ValuesChange, View, Ordered;
    var shown := Visible(h, now);
    var priors := MatchRows(RowsOf(shown), rows);
    var draft := BuildRows(h, now, csn, nextRow, schema, rows, shown, priors, floor);
    if draft.None? {
      return None;
    }
    r := Some((History(schema, if draft.value.changed then csn else h.changed, true, draft.value.chains), draft.value.next));
  }

  method BuildRows(h: History, now: nat, csn: nat, nextRow: nat, schema: Schema, rows: seq<Row>, shown: seq<(nat, Seen)>,
                   priors: seq<Option<nat>>, ghost floor: nat)
    returns (r: Option<Draft>)
    requires Setting(h, now, floor, nextRow, rows, shown, priors, NextIds(h, now, nextRow, rows)) && nextRow <= U64_MAX
    ensures r.None? <==> Refused(h, now, csn, nextRow, rows)
    ensures r.Some? ==> r.value.chains == NextRows(h, now, csn, NextIds(h, now, nextRow, rows), rows)
    ensures r.Some? ==> r.value.next == nextRow + NewRows(h, now, rows)
    ensures r.Some? ==> (r.value.changed <==> ValuesChange(h, now, schema, NextIds(h, now, nextRow, rows), rows))
  {
    hide DraftIs, NoClash, TableOk, Refused, NextIds, NextRows, FlagIs, ValuesChange, PlaceOne, EndOne;
    ghost var ids := NextIds(h, now, nextRow, rows);
    var d0 := Draft(h.rows, nextRow, {}, SchemaDiffers(h, schema));
    PlaceStart(h, now, csn, nextRow, rows, priors, ids, d0.changed);
    PlaceFromCorrect(h, now, floor, csn, nextRow, rows, shown, priors, ids, d0, 0);
    PlaceFromFlag(h, now, floor, csn, nextRow, rows, shown, priors, ids, d0.changed, d0, 0);
    r := PlaceLoop(d0, shown, priors, csn, rows);
    if r.Some? {
      r := EndRows(h, now, csn, nextRow, schema, rows, shown, priors, floor, r.value);
    }
  }

  method EndRows(h: History, now: nat, csn: nat, nextRow: nat, schema: Schema, rows: seq<Row>, shown: seq<(nat, Seen)>,
                 priors: seq<Option<nat>>, ghost floor: nat, d: Draft)
    returns (r: Option<Draft>)
    requires Setting(h, now, floor, nextRow, rows, shown, priors, NextIds(h, now, nextRow, rows)) && nextRow <= U64_MAX
    requires PlaceInv(h, now, csn, nextRow, rows, priors, NextIds(h, now, nextRow, rows), d, |rows|)
    requires FlagIs(h, now, NextIds(h, now, nextRow, rows), rows, SchemaDiffers(h, schema), d)
    ensures r.None? <==> Refused(h, now, csn, nextRow, rows)
    ensures r.Some? ==> r.value.chains == NextRows(h, now, csn, NextIds(h, now, nextRow, rows), rows)
    ensures r.Some? ==> r.value.next == nextRow + NewRows(h, now, rows)
    ensures r.Some? ==> (r.value.changed <==> ValuesChange(h, now, schema, NextIds(h, now, nextRow, rows), rows))
  {
    hide DraftIs, NoClash, TableOk, Refused, NextIds, NextRows, FlagIs, ValuesChange, EndOne, PlaceInv, View, Ordered, Match;
    ghost var ids := NextIds(h, now, nextRow, rows);
    PlacedReadyToEnd(h, now, csn, nextRow, rows, priors, ids, shown, d);
    EndFromCorrect(h, now, floor, csn, nextRow, rows, shown, ids, d, 0);
    EndFromFlag(h, now, floor, csn, nextRow, rows, shown, ids, SchemaDiffers(h, schema), d, 0);
    r := EndLoop(d, shown, csn);
    if r.Some? {
      EndIsPublished(h, now, floor, csn, nextRow, rows, ids, r.value);
      AllEnded(h, now, ids, r.value);
      FlagIsChange(h, now, schema, ids, rows, r.value);
    }
  }

  lemma PlaceStart(h: History, now: nat, csn: nat, nextRow: nat, rows: seq<Row>, priors: seq<Option<nat>>, ids: seq<nat>, start: bool)
    requires |ids| == |rows| == |priors|
    ensures PlaceInv(h, now, csn, nextRow, rows, priors, ids, Draft(h.rows, nextRow, {}, start), 0)
    ensures FlagIs(h, now, ids, rows, start, Draft(h.rows, nextRow, {}, start))
  {
  }

  lemma PlacedReadyToEnd(h: History, now: nat, csn: nat, nextRow: nat, rows: seq<Row>, priors: seq<Option<nat>>,
                         ids: seq<nat>, shown: seq<(nat, Seen)>, d: Draft)
    requires |ids| == |rows| == |priors| && shown == Visible(h, now) && priors == Match(RowsOf(shown), rows, {})
    requires PlaceInv(h, now, csn, nextRow, rows, priors, ids, d, |rows|)
    requires nextRow <= U64_MAX
    ensures EndInv(h, now, csn, nextRow, rows, ids, shown, d, 0) && d.next <= U64_MAX
    ensures forall id | id in ids :: id in d.used
  {
    hide DraftIs, NoClash, Match, View, Ordered;
    assert ids[..|rows|] == ids;
    assert priors[..|rows|] == priors;
  }
}
