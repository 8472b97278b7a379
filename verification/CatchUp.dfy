/** Online compaction (runtime.rs `online_compact`): a shadow heap is filled from a snapshot
    and then caught up with the latest rows. */
module CatchUp {
  import opened Basics
  import opened Rows
  import opened HeapCells
  import opened HeapTable

  /** The rows among the first `n` whose number is kept, in order. */
  function Selected(rows: seq<Row>, kept: set<nat>, n: nat): seq<Row>
    requires n <= |rows|
  {
    if n == 0 then [] else Selected(rows, kept, n - 1) + (if n - 1 in kept then [rows[n - 1]] else [])
  }

  lemma {:induction false} SelectedMore(rows: seq<Row>, kept: set<nat>, c: nat, j: nat)
    requires c <= j < |rows| && forall k <- kept :: k < c
    ensures Selected(rows, kept + {j}, j + 1) == Selected(rows, kept, c) + [rows[j]]
  {
    SelectedSame(rows, kept, kept + {j}, j);
    SelectedGap(rows, kept, c, j);
  }

  lemma {:induction false} SelectedSame(rows: seq<Row>, a: set<nat>, b: set<nat>, n: nat)
    requires n <= |rows| && forall k: nat | k < n :: k in a <==> k in b
    ensures Selected(rows, a, n) == Selected(rows, b, n)
  {
    if n > 0 {
      SelectedSame(rows, a, b, n - 1);
    }
  }

  lemma {:induction false} SelectedGap(rows: seq<Row>, kept: set<nat>, c: nat, n: nat)
    requires c <= n <= |rows| && forall k <- kept :: k < c
    ensures Selected(rows, kept, n) == Selected(rows, kept, c)
    decreases n
  {
    if c < n {
      SelectedGap(rows, kept, c, n - 1);
    }
  }

  /** No selection of fewer than `c` rows gives the pattern. */
  ghost predicate NoneBelow(rows: seq<Row>, pattern: seq<Row>, c: nat) {
    forall other: set<nat>, m: nat | m <= |rows| && Selected(rows, other, m) == pattern :: c <= m
  }

  lemma {:induction false} LastSelected(rows: seq<Row>, other: set<nat>, m: nat) returns (l: nat)
    requires m <= |rows| && Selected(rows, other, m) != []
    ensures l < m && Selected(rows, other, m) == Selected(rows, other, l) + [rows[l]]
  {
    if m - 1 in other {
      l := m - 1;
    } else {
      l := LastSelected(rows, other, m - 1);
    }
  }

  /** The pattern grows by a row that is first found at `j`. */
  lemma NoneBelowNext(rows: seq<Row>, pattern: seq<Row>, row: Row, c: nat, j: nat)
    requires c <= j <= |rows| && NoneBelow(rows, pattern, c) && forall i | c <= i < j :: rows[i] != row
    ensures NoneBelow(rows, pattern + [row], j + 1)
  {
    forall other: set<nat>, m: nat | m <= |rows| && Selected(rows, other, m) == pattern + [row]
      ensures j + 1 <= m
    {
      var l := LastSelected(rows, other, m);
      Snoc(pattern, row);
      Snoc(Selected(rows, other, l), rows[l]);
      assert Selected(rows, other, l) == pattern && rows[l] == row;
    }
  }

  /** The greedy match: numbers of snapshot rows that form, in order, the longest possible prefix
      of the latest rows. */
  method MatchPrefix(rows: seq<Row>, latest: seq<Row>) returns (kept: set<nat>, n: nat)
    ensures n <= |latest| && (forall k <- kept :: k < |rows|)
    ensures Selected(rows, kept, |rows|) == latest[..n]
    ensures n < |latest| ==> forall other: set<nat> :: Selected(rows, other, |rows|) != latest[..n + 1]
  {
    kept, n := {}, 0;
    var cursor: nat := 0;
    while n < |latest|
      invariant n <= |latest| && cursor <= |rows| && (forall k <- kept :: k < cursor)
      invariant Selected(rows, kept, cursor) == latest[..n] && NoneBelow(rows, latest[..n], cursor)
      decreases |latest| - n
    {
      var j := cursor;
      while j < |rows| && rows[j] != latest[n]
        invariant cursor <= j <= |rows| && forall i | cursor <= i < j :: rows[i] != latest[n]
      {
        j := j + 1;
      }
      Longer(latest, n);
      NoneBelowNext(rows, latest[..n], latest[n], cursor, j);
      if j == |rows| {
        break;
      }
      SelectedMore(rows, kept, cursor, j);
      assert latest[..n + 1] == latest[..n] + [latest[n]];
      kept := kept + {j};
      cursor := j + 1;
      n := n + 1;
    }
    SelectedGap(rows, kept, cursor, |rows|);
  }

  /** The shadow heap holds the snapshot rows, each at its place. */
  ghost predicate Shadows(cs: seq<Cell>, rows: seq<Row>, places: seq<(nat, nat)>) {
    |cs| == |rows| == |places| && forall i | 0 <= i < |rows| ::
      cs[i] == Cell(Pack(places[i].0, places[i].1), Some(rows[i])) && places[i].1 < 0x1_0000
  }

  /** The places of the rows that are not kept. */
  method Dropped(places: seq<(nat, nat)>, kept: set<nat>) returns (out: seq<(nat, nat)>)
    ensures forall i | 0 <= i < |out| :: out[i] in places
    ensures Positions(out) == set i | 0 <= i < |places| && i !in kept :: Pack(places[i].0, places[i].1)
  {
    out := [];
    for i := 0 to |places|
      invariant forall k | 0 <= k < |out| :: out[k] in places
      invariant Positions(out) == set k | 0 <= k < i && k !in kept :: Pack(places[k].0, places[k].1)
    {
      if i !in kept {
        ghost var all := out + [places[i]];
        PositionsMore(all, |out|);
        assert all[..|out|] == out && all[..|out| + 1] == all;
        out := out + [places[i]];
      }
    }
  }

  /** A position is dropped exactly if its row is not kept. */
  lemma PositionKept(cs: seq<Cell>, rows: seq<Row>, places: seq<(nat, nat)>, kept: set<nat>, ps: set<nat>, n: nat)
    requires Shadows(cs, rows, places) && Climbs(cs) && n < |rows|
    requires ps == set i | 0 <= i < |places| && i !in kept :: Pack(places[i].0, places[i].1)
    ensures cs[n].pos in ps <==> n !in kept
  {
    if cs[n].pos in ps {
      var i :| 0 <= i < |places| && i !in kept && Pack(places[i].0, places[i].1) == cs[n].pos;
      assert cs[i].pos == cs[n].pos;
    }
  }

  lemma {:induction false} ClearedRows(cs: seq<Cell>, rows: seq<Row>, places: seq<(nat, nat)>, kept: set<nat>, ps: set<nat>, n: nat)
    requires Shadows(cs, rows, places) && Climbs(cs) && n <= |rows|
    requires ps == set i | 0 <= i < |places| && i !in kept :: Pack(places[i].0, places[i].1)
    ensures Live(ClearAll(cs, ps)[..n]) == Selected(rows, kept, n)
    decreases n
  {
    if n > 0 {
      ClearedRows(cs, rows, places, kept, ps, n - 1);
      hide Live, Climbs;
      var out := ClearAll(cs, ps);
      PositionKept(cs, rows, places, kept, ps, n - 1);
      Longer(out, n - 1);
      AddCell(out[..n - 1], out[n - 1], ID);
    }
  }

  lemma NoShadows()
    ensures Shadows([], [], [])
  {
  }

  lemma ShadowsMore(cs: seq<Cell>, rows: seq<Row>, places: seq<(nat, nat)>, row: Row, place: (nat, nat))
    requires Shadows(cs, rows, places) && place.1 < 0x1_0000
    ensures Shadows(cs + [Cell(Pack(place.0, place.1), Some(row))], rows + [row], places + [place])
  {
  }

  /** The shadow heap filled with the snapshot rows; it succeeds whenever they can be stored and
      have distinct ids. */
  method FillShadow(shadow: Table, rows: seq<Row>) returns (ok: bool, places: seq<(nat, nat)>)
    requires shadow.Valid() && shadow.Cells() == []
    modifies shadow
    ensures shadow.Valid()
    ensures ok ==> Shadows(shadow.Cells(), rows, places)
    ensures old(AllStorable(shadow, rows)) && DistinctIds(rows) ==> ok
  {
    hide Shadows, Flat, Live, FirstRefusal, Agree, DistinctIds;
    places := [];
    var i: nat := 0;
    NoShadows();
    EmptyHeap();
    while i < |rows|
      invariant i <= |rows| && shadow.Valid() && Shadows(shadow.Cells(), rows[..i], places)
      invariant SameColumns(shadow.indexes, old(shadow.indexes)) && shadow.Contents() == rows[..i]
    {
      ghost var cs := shadow.Cells();
      if old(AllStorable(shadow, rows)) && DistinctIds(rows) {
        assert shadow.Storable(rows[i], old(shadow.indexes));
        RestAccepted(shadow.indexes, cs, rows, i, shadow.keyLimit);
      }
      var r := shadow.InsertRow(rows[i]);
      if r.Err? {
        return false, places;
      }
      Longer(rows, i);
      ShadowsMore(cs, rows[..i], places, rows[i], r.value);
      places := places + [r.value];
      i := i + 1;
    }
    assert rows[..i] == rows;
    ok := true;
  }

  /** No two rows have the same id key. */
  predicate DistinctIds(rows: seq<Row>) {
    forall i, j | 0 <= i < j < |rows| :: RowKey(rows[i], ID).None? || RowKey(rows[i], ID) != RowKey(rows[j], ID)
  }

  lemma LiveIn(cs: seq<Cell>, i: nat)
    requires i < |cs| && cs[i].row.Some?
    ensures cs[i].row.value in Live(cs)
  {
    ClearCell(cs, i, ID);
  }

  /** An id that no live row has is not in the id index. */
  lemma UnknownId(index: Index, cs: seq<Cell>, key: Bytes)
    requires Matches(index, cs) && index.column == ID && forall r <- Live(cs) :: RowKey(r, ID) != Some(key)
    ensures !HasKey(index.entries, key)
  {
    hide Live, Entries;
    if e :| e in index.entries && e.0 == key {
      EntryIff(cs, ID, e.0, e.1);
      var i :| 0 <= i < |cs| && cs[i].pos == e.1 && cs[i].row.Some? && RowKey(cs[i].row.value, ID) == Some(e.0);
      LiveIn(cs, i);
    }
  }

  /** A row with a new id is refused by no index. */
  lemma {:induction false} NewIdAccepted(indexes: seq<Index>, cs: seq<Cell>, row: Row, limit: nat)
    requires Agree(indexes, cs)
    requires forall i | 0 <= i < |indexes| :: RowKey(row, indexes[i].column).Some? ==> |RowKey(row, indexes[i].column).value| <= limit
    requires forall r <- Live(cs) :: RowKey(row, ID).None? || RowKey(r, ID) != RowKey(row, ID)
    ensures FirstRefusal(indexes, row, limit).None?
    decreases |indexes|
  {
    hide HasKey, Matches, RowKey, Live;
    if indexes != [] {
      var index := indexes[0];
      if index.column == ID && RowKey(row, ID).Some? {
        UnknownId(index, cs, RowKey(row, ID).value);
      }
      NewIdAccepted(indexes[1..], cs, row, limit);
    }
  }

  /** The catch-up: when it succeeds, a scan of the shadow heap gives the latest rows in the
      same order; it succeeds whenever the latest rows can be stored and have distinct ids. */
  method CatchUpShadow(shadow: Table, rows: seq<Row>, places: seq<(nat, nat)>, latest: seq<Row>) returns (ok: bool)
    requires shadow.Valid() && Shadows(shadow.Cells(), rows, places)
    modifies shadow
    ensures shadow.Valid()
    ensures ok ==> shadow.Contents() == latest
    ensures old(AllStorable(shadow, latest)) && DistinctIds(latest) ==> ok
  {
    hide DistinctIds;
    var kept, n := MatchPrefix(rows, latest);
    var dropped := Dropped(places, kept);
    ghost var cs := shadow.Cells();
    ClimbsHere(shadow.pages, shadow.pageSize);
    DroppedExist(shadow.pages, cs, rows, places, dropped);
    var deleted := shadow.DeletePlaces(dropped);
    ClearedRows(cs, rows, places, kept, Positions(dropped), |rows|);
    assert ClearAll(cs, Positions(dropped))[..|rows|] == ClearAll(cs, Positions(dropped));
    ok := AppendRest(shadow, latest, n);
  }

  ghost predicate AllStorable(shadow: Table, rows: seq<Row>)
    reads shadow
  {
    forall j | 0 <= j < |rows| :: shadow.Storable(rows[j], shadow.indexes)
  }

  method AppendRest(shadow: Table, latest: seq<Row>, n: nat) returns (ok: bool)
    requires shadow.Valid() && n <= |latest| && shadow.Contents() == latest[..n]
    modifies shadow
    ensures shadow.Valid()
    ensures ok ==> shadow.Contents() == latest
    ensures old(AllStorable(shadow, latest)) && DistinctIds(latest) ==> ok
  {
    hide Agree, FirstRefusal, Live, Flat, DistinctIds, PagesOk, RowKey;
    var i := n;
    while i < |latest|
      invariant n <= i <= |latest| && shadow.Valid() && shadow.Contents() == latest[..i]
      invariant SameColumns(shadow.indexes, old(shadow.indexes))
    {
      if old(AllStorable(shadow, latest)) && DistinctIds(latest) {
        assert shadow.Storable(latest[i], old(shadow.indexes));
        RestAccepted(shadow.indexes, shadow.Cells(), latest, i, shadow.keyLimit);
      }
      var r := shadow.InsertRow(latest[i]);
      if r.Err? {
        return false;
      }
      assert latest[..i + 1] == latest[..i] + [latest[i]];
      i := i + 1;
    }
    assert latest[..i] == latest;
    ok := true;
  }

  lemma RestAccepted(indexes: seq<Index>, cs: seq<Cell>, latest: seq<Row>, i: nat, limit: nat)
    requires Agree(indexes, cs) && i < |latest| && Live(cs) == latest[..i] && DistinctIds(latest)
    requires forall k | 0 <= k < |indexes| :: RowKey(latest[i], indexes[k].column).Some? ==> |RowKey(latest[i], indexes[k].column).value| <= limit
    ensures FirstRefusal(indexes, latest[i], limit).None?
  {
    forall r | r in Live(cs)
      ensures RowKey(latest[i], ID).None? || RowKey(r, ID) != RowKey(latest[i], ID)
    {
      var j :| 0 <= j < i && latest[..i][j] == r;
      assert latest[j] == r;
    }
    NewIdAccepted(indexes, cs, latest[i], limit);
  }

  lemma DroppedExist(pages: seq<Slots>, cs: seq<Cell>, rows: seq<Row>, places: seq<(nat, nat)>, dropped: seq<(nat, nat)>)
    requires Narrow(pages) && cs == Flat(pages) && Shadows(cs, rows, places)
    requires forall i | 0 <= i < |dropped| :: dropped[i] in places
    ensures ExistingSlots(dropped, pages)
  {
    forall i | 0 <= i < |dropped|
      ensures dropped[i].0 < |pages| && dropped[i].1 < |pages[dropped[i].0]|
    {
      var j :| 0 <= j < |places| && places[j] == dropped[i];
      var page, slot := SlotOf(pages, j);
      assert Pack(page, slot) == Pack(places[j].0, places[j].1);
    }
  }
}
