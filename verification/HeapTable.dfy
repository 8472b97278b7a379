/** The heap table object (heap.rs): pages of slots, changed in place together with the
    indexes. An index is the multimap of keys and positions that its calls on the disk tree
    mean; `IndexCalls` says when the tree holds exactly that. */
module HeapTable {
  import opened Basics
  import opened Rows
  import opened HeapCells
  import NodeLayout
  import SlottedPage
  import IndexCalls

  const PAGE_HEADER: nat := SlottedPage.DIRECTORY
  const SLOT_BYTES: nat := SlottedPage.SLOT_BYTES
  const MAX_PAGE: nat := NodeLayout.MAX_PAGE
  const DUPLICATE_ID := "duplicate value on the id index"
  const KEY_TOO_LONG := "index key is too long"
  const TOO_LARGE := "tuple too large"

  type Index = IndexCalls.Index

  /** Bytes of the live tuples of a page. */
  function LiveSize(slots: Slots, size: Row -> nat): nat {
    if slots == [] then 0
    else LiveSize(slots[..|slots| - 1], size) + (if slots[|slots| - 1].Some? then size(slots[|slots| - 1].value) else 0)
  }

  /** A compacted page has room for one more tuple. */
  predicate Fits(slots: Slots, row: Row, pageSize: nat, size: Row -> nat) {
    PAGE_HEADER + (|slots| + 1) * SLOT_BYTES + LiveSize(slots, size) + size(row) <= pageSize
  }

  ghost predicate HasKey(entries: multiset<(Bytes, nat)>, key: Bytes) {
    exists e <- entries :: e.0 == key
  }

  /** Why an index refuses a row, if it does. */
  ghost function Refusal(index: Index, row: Row, limit: nat): Option<string> {
    match RowKey(row, index.column)
    case None => None
    case Some(key) =>
      if |key| > limit then Some(KEY_TOO_LONG)
      else if index.column == ID && HasKey(index.entries, key) then Some(DUPLICATE_ID)
      else None
  }

  /** The first refusal in the order of the indexes. */
  ghost function FirstRefusal(indexes: seq<Index>, row: Row, limit: nat): Option<string> {
    if indexes == [] then None
    else if Refusal(indexes[0], row, limit).Some? then Refusal(indexes[0], row, limit)
    else FirstRefusal(indexes[1..], row, limit)
  }

  ghost predicate Matches(index: Index, cs: seq<Cell>) {
    index.entries == Entries(cs, index.column) && IndexCalls.Recorded(index)
  }

  /** Every index holds exactly the keys and positions of the live rows. */
  ghost predicate Agree(indexes: seq<Index>, cs: seq<Cell>) {
    forall i | 0 <= i < |indexes| :: Matches(indexes[i], cs)
  }

  predicate SameColumns(a: seq<Index>, b: seq<Index>) {
    |a| == |b| && forall i | 0 <= i < |a| :: a[i].column == b[i].column
  }

  /** All slots of a page lie in its directory. */
  predicate PagesOk(pages: seq<Slots>, pageSize: nat) {
    forall p | 0 <= p < |pages| :: PAGE_HEADER + |pages[p]| * SLOT_BYTES <= pageSize
  }

  /** The same slots, whatever is in them. */
  predicate SameShape(a: seq<Slots>, b: seq<Slots>) {
    |a| == |b| && forall p | 0 <= p < |a| :: |a[p]| == |b[p]|
  }

  /** Existing slots. */
  predicate ExistingSlots(places: seq<(nat, nat)>, pages: seq<Slots>) {
    forall i | 0 <= i < |places| :: places[i].0 < |pages| && places[i].1 < |pages[places[i].0]|
  }

  function Positions(places: seq<(nat, nat)>): set<nat> {
    set i | 0 <= i < |places| :: Pack(places[i].0, places[i].1)
  }

  lemma PositionsMore(places: seq<(nat, nat)>, i: nat)
    requires i < |places|
    ensures Positions(places[..i + 1]) == Positions(places[..i]) + {Pack(places[i].0, places[i].1)}
  {
    var a, b := places[..i], places[..i + 1];
    forall q | q in Positions(a)
      ensures q in Positions(b)
    {
      var j :| 0 <= j < |a| && q == Pack(a[j].0, a[j].1);
      assert b[j] == a[j];
    }
    assert b[i] == places[i];
    forall q | q in Positions(b)
      ensures q in Positions(a) + {Pack(places[i].0, places[i].1)}
    {
      var j :| 0 <= j < |b| && q == Pack(b[j].0, b[j].1);
      if j < i {
        assert a[j] == b[j];
      }
    }
  }

  /** A key is in the id index, or not. */
  method ContainsKey(entries: multiset<(Bytes, nat)>, key: Bytes) returns (r: bool)
    ensures r <==> HasKey(entries, key)
  {
    var first := FirstPosition(entries, key);
    r := first.Some?;
  }

  /** `get`: the smallest position under a key. */
  method FirstPosition(entries: multiset<(Bytes, nat)>, key: Bytes) returns (r: Option<nat>)
    ensures r.None? <==> !HasKey(entries, key)
    ensures r.Some? ==> (key, r.value) in entries && forall e <- entries | e.0 == key :: r.value <= e.1
  {
    r := None;
    var rest := entries;
    while rest != multiset{}
      invariant rest <= entries
      invariant forall e <- entries | e !in rest && e.0 == key :: r.Some? && r.value <= e.1
      invariant r.Some? ==> (key, r.value) in entries
      decreases |rest|
    {
      var e: (Bytes, nat) :| e in rest;
      if e.0 == key && (r.None? || e.1 < r.value) {
        r := Some(e.1);
      }
      rest := rest - multiset{e};
    }
    if r.Some? {
      assert (key, r.value) in entries;
    }
  }

  class Table {
    const pageSize: nat
    const keyLimit: nat
    const size: Row -> nat
    var pages: seq<Slots>
    var indexes: seq<Index>

    ghost predicate Valid()
      reads this
    {
      pageSize <= MAX_PAGE && keyLimit <= IndexCalls.MAX_KEY && PagesOk(pages, pageSize) && Agree(indexes, Cells())
    }

    /** All slots ever given out, in order. */
    ghost function Cells(): seq<Cell>
      reads this
    {
      Flat(pages)
    }

    /** The rows of the table, in the order of insertion. */
    ghost function Contents(): seq<Row>
      reads this
    {
      Live(Cells())
    }

    constructor (page: nat, limit: nat, encoded: Row -> nat, columns: seq<string>)
      requires page <= MAX_PAGE && limit <= IndexCalls.MAX_KEY
      ensures Valid() && Cells() == [] && Contents() == []
      ensures |indexes| == |columns| && forall i | 0 <= i < |columns| :: indexes[i].column == columns[i]
    {
      pageSize, keyLimit, size := page, limit, encoded;
      pages := [];
      indexes := seq(|columns|, i requires 0 <= i < |columns| => IndexCalls.Index(columns[i], multiset{}, []));
    }

    /** The check of every index before a row is placed. */
    method CheckKeys(row: Row) returns (e: Option<string>)
      ensures e == FirstRefusal(indexes, row, keyLimit)
    {
      var i: nat := 0;
      while i < |indexes|
        invariant i <= |indexes| && FirstRefusal(indexes, row, keyLimit) == FirstRefusal(indexes[i..], row, keyLimit)
        decreases |indexes| - i
      {
        var index := indexes[i];
        assert indexes[i..][0] == index && indexes[i..][1..] == indexes[i + 1..];
        var key := RowKey(row, index.column);
        if key.Some? {
          if |key.value| > keyLimit {
            return Some(KEY_TOO_LONG);
          }
          if index.column == ID {
            var taken := ContainsKey(index.entries, key.value);
            if taken {
              return Some(DUPLICATE_ID);
            }
          }
        }
        i := i + 1;
      }
      return None;
    }

    /** `insert_returning_position`: a new slot on the last page or on a new one. The position
        lies behind every position given out before. */
    method PlaceRow(row: Row) returns (r: Option<(nat, nat)>)
      requires pageSize <= MAX_PAGE && PagesOk(pages, pageSize)
      modifies this`pages
      ensures PagesOk(pages, pageSize)
      ensures r.None? <==> PAGE_HEADER + SLOT_BYTES + size(row) > pageSize
      ensures r.None? ==> pages == old(pages)
      ensures r.Some? ==> Cells() == old(Cells()) + [Cell(Pack(r.value.0, r.value.1), Some(row))]
      ensures r.Some? ==> Under(old(Cells()), Pack(r.value.0, r.value.1)) && r.value.1 < 0x1_0000
    {
      if PAGE_HEADER + SLOT_BYTES + size(row) > pageSize {
        return None;
      }
      NewIsBehind(pages, pageSize);
      if |pages| > 0 {
        var last := |pages| - 1;
        if Fits(pages[last], row, pageSize, size) {
          FlatAdd(pages, row);
          var slot := |pages[last]|;
          pages := pages[last := pages[last] + [Some(row)]];
          return Some((last, slot));
        }
      }
      FlatGrow(pages, row);
      var page := |pages|;
      pages := pages + [[Some(row)]];
      return Some((page, 0));
    }

    /** Adds the entries of a new row to all indexes. */
    method AddEntries(row: Row, pos: nat, ghost cs: seq<Cell>)
      requires Agree(indexes, cs) && KeysWithin(row, indexes, IndexCalls.MAX_KEY)
      modifies this`indexes
      ensures SameColumns(indexes, old(indexes)) && Agree(indexes, cs + [Cell(pos, Some(row))])
    {
      hide Entries, Agree, Matches;
      var i: nat := 0;
      AgreeSplit(indexes, cs, cs + [Cell(pos, Some(row))]);
      while i < |indexes|
        invariant i <= |indexes| && SameColumns(indexes, old(indexes))
        invariant Agree(indexes[..i], cs + [Cell(pos, Some(row))]) && Agree(indexes[i..], cs)
        decreases |indexes| - i
      {
        var index := indexes[i];
        AgreeHead(indexes[i..], cs);
        assert old(indexes)[i].column == index.column;
        var key := RowKey(row, index.column);
        var next := if key.Some? then IndexCalls.WithAdd(index, key.value, pos) else index;
        MatchesAdded(index, cs, row, pos);
        AgreeStep(indexes, i, next, cs, cs + [Cell(pos, Some(row))]);
        indexes := indexes[i := next];
        i := i + 1;
      }
      assert indexes[..i] == indexes;
    }

    /** `insert_row`: refused by an index or for its size, or appended to the table and entered
        into every index. */
    method InsertRow(row: Row) returns (r: Result<(nat, nat)>)
      requires Valid()
      modifies this`pages, this`indexes
      ensures Valid() && SameColumns(indexes, old(indexes))
      ensures r.Err? ==> pages == old(pages) && indexes == old(indexes)
      ensures r.Err? <==> old(FirstRefusal(indexes, row, keyLimit)).Some? || PAGE_HEADER + SLOT_BYTES + size(row) > pageSize
      ensures r.Err? ==> r.error == if old(FirstRefusal(indexes, row, keyLimit)).Some? then old(FirstRefusal(indexes, row, keyLimit)).value else TOO_LARGE
      ensures r.Ok? ==> Contents() == old(Contents()) + [row]
      ensures r.Ok? ==> Cells() == old(Cells()) + [Cell(Pack(r.value.0, r.value.1), Some(row))]
      ensures r.Ok? ==> Under(old(Cells()), Pack(r.value.0, r.value.1)) && r.value.1 < 0x1_0000
    {
      var refusal := CheckKeys(row);
      if refusal.Some? {
        return Err(refusal.value);
      }
      ghost var cs := Cells();
      var place := PlaceRow(row);
      if place.None? {
        return Err(TOO_LARGE);
      }
      var pos := Pack(place.value.0, place.value.1);
      NotRefusedWithin(indexes, row, keyLimit);
      AddEntries(row, pos, cs);
      AddCell(cs, Cell(pos, Some(row)), ID);
      return Ok(place.value);
    }

    /** Removes the entries of a deleted row from all indexes. */
    method RemoveEntries(row: Row, pos: nat, ghost cs: seq<Cell>, ghost i0: nat)
      requires i0 < |cs| && cs[i0] == Cell(pos, Some(row)) && Agree(indexes, cs)
      modifies this`indexes
      ensures SameColumns(indexes, old(indexes)) && Agree(indexes, cs[i0 := Cell(pos, None)])
    {
      hide Entries, Agree, Matches;
      ghost var cs' := cs[i0 := Cell(pos, None)];
      var i: nat := 0;
      AgreeSplit(indexes, cs, cs');
      while i < |indexes|
        invariant i <= |indexes| && SameColumns(indexes, old(indexes))
        invariant Agree(indexes[..i], cs') && Agree(indexes[i..], cs)
        decreases |indexes| - i
      {
        var index := indexes[i];
        AgreeHead(indexes[i..], cs);
        MatchesCleared(index, cs, i0);
        var key := RowKey(row, index.column);
        var next := if key.Some? then IndexCalls.WithRemove(index, key.value, pos) else index;
        AgreeStep(indexes, i, next, cs, cs');
        indexes := indexes[i := next];
        i := i + 1;
      }
      assert indexes[..i] == indexes;
    }

    /** `delete_at`: clears one live slot and its index entries; an error only if the page does
        not exist. */
    method DeleteAt(page: nat, slot: nat) returns (r: Result<Option<Row>>)
      requires Valid()
      modifies this`pages, this`indexes
      ensures Valid() && SameColumns(indexes, old(indexes))
      ensures r.Err? <==> page >= |old(pages)|
      ensures r.Err? || r.value.None? ==> pages == old(pages) && indexes == old(indexes)
      ensures r.Ok? ==> r.value == if slot < |old(pages)[page]| then old(pages)[page][slot] else None
      ensures r.Ok? && r.value.Some? ==>
        var i := CellAt(old(pages), page, slot);
        && i < |old(Cells())| && old(Cells())[i] == Cell(Pack(page, slot), r.value)
        && Cells() == old(Cells())[i := Cell(Pack(page, slot), None)]
        && SameShape(pages, old(pages))
    {
      if page >= |pages| {
        return Err("page out of range");
      }
      if slot >= |pages[page]| || pages[page][slot].None? {
        return Ok(None);
      }
      var row := pages[page][slot].value;
      FlatClear(pages, page, slot);
      ghost var cs, i := Cells(), CellAt(pages, page, slot);
      pages := pages[page := pages[page][slot := None]];
      RemoveEntries(row, Pack(page, slot), cs, i);
      return Ok(Some(row));
    }

    /** `scan`: the live rows, page by page. */
    method Scan() returns (out: seq<Row>)
      ensures out == Contents()
    {
      out := [];
      var p: nat := 0;
      while p < |pages|
        invariant p <= |pages| && out == Live(Flat(pages[..p]))
        decreases |pages| - p
      {
        var rows := ScanPage(p, pages[p]);
        assert pages[..p + 1][..p] == pages[..p];
        LiveSplit(Flat(pages[..p]), PageCells(p, pages[p]));
        out := out + rows;
        p := p + 1;
      }
      assert pages[..p] == pages;
    }

    method ScanPage(ghost p: nat, slots: Slots) returns (out: seq<Row>)
      ensures out == Live(PageCells(p, slots))
    {
      ghost var cs := PageCells(p, slots);
      out := [];
      var s: nat := 0;
      while s < |slots|
        invariant s <= |slots| && out == Live(cs[..s])
      {
        assert cs[..s + 1] == cs[..s] + [cs[s]];
        AddCell(cs[..s], cs[s], ID);
        if slots[s].Some? {
          out := out + [slots[s].value];
        }
        s := s + 1;
      }
      assert cs[..s] == cs;
    }

    /** `replace_all`: refused for the size of a row or a key, or else exactly the given rows. */
    method ReplaceAll(rows: seq<Row>) returns (ok: bool)
      requires Valid()
      modifies this`pages, this`indexes
      ensures Valid() && SameColumns(indexes, old(indexes))
      ensures ok <==> forall j | 0 <= j < |rows| :: Storable(rows[j], old(indexes))
      ensures !ok ==> pages == old(pages) && indexes == old(indexes)
      ensures ok ==> Contents() == rows
    {
      ok := CheckRows(rows);
      if ok {
        pages := [];
        ClearIndexes();
        Fill(rows);
      }
    }

    /** The checks of `replace_all` before anything is changed. */
    method CheckRows(rows: seq<Row>) returns (ok: bool)
      ensures ok <==> forall j | 0 <= j < |rows| :: Storable(rows[j], indexes)
    {
      var j: nat := 0;
      while j < |rows|
        invariant j <= |rows| && forall k | 0 <= k < j :: Storable(rows[k], indexes)
      {
        var fine := CheckRow(rows[j]);
        if !fine {
          return false;
        }
        j := j + 1;
      }
      return true;
    }

    /** Inserts rows into the emptied table, without looking for duplicates. */
    method Fill(rows: seq<Row>)
      requires Valid() && pages == [] && forall j | 0 <= j < |rows| :: Storable(rows[j], indexes)
      modifies this`pages, this`indexes
      ensures Valid() && SameColumns(indexes, old(indexes)) && Contents() == rows
    {
      hide Agree, PagesOk, Live, Flat, Entries, LiveSize;
      var j: nat := 0;
      EmptyHeap();
      while j < |rows|
        invariant j <= |rows| && Valid() && SameColumns(indexes, old(indexes)) && Contents() == rows[..j]
      {
        ghost var cs := Cells();
        assert Storable(rows[j], old(indexes));
        var place := PlaceRow(rows[j]);
        var pos := Pack(place.value.0, place.value.1);
        AddEntries(rows[j], pos, cs);
        AddCell(cs, Cell(pos, Some(rows[j])), ID);
        Longer(rows, j);
        j := j + 1;
      }
      assert rows[..j] == rows;
    }

    /** A row that fits a page and whose keys are within the limit. */
    ghost predicate Storable(row: Row, over: seq<Index>)
      reads this
    {
      && PAGE_HEADER + SLOT_BYTES + size(row) <= pageSize
      && KeysWithin(row, over, keyLimit)
    }

    method CheckRow(row: Row) returns (fine: bool)
      ensures fine <==> Storable(row, indexes)
    {
      if PAGE_HEADER + SLOT_BYTES + size(row) > pageSize {
        return false;
      }
      var i: nat := 0;
      while i < |indexes|
        invariant i <= |indexes|
        invariant forall k | 0 <= k < i :: RowKey(row, indexes[k].column).Some? ==> |RowKey(row, indexes[k].column).value| <= keyLimit
        decreases |indexes| - i
      {
        var key := RowKey(row, indexes[i].column);
        if key.Some? && |key.value| > keyLimit {
          return false;
        }
        i := i + 1;
      }
      return true;
    }

    method ClearIndexes()
      modifies this`indexes
      ensures SameColumns(indexes, old(indexes)) && Agree(indexes, [])
    {
      indexes := seq(|indexes|, i requires 0 <= i < |indexes| reads this => IndexCalls.Index(indexes[i].column, multiset{}, []));
    }

    /** Deletes the rows at these places; a place named again has nothing left to delete. */
    method DeletePlaces(places: seq<(nat, nat)>) returns (deleted: seq<Row>)
      requires Valid() && ExistingSlots(places, pages)
      modifies this`pages, this`indexes
      ensures Valid() && SameColumns(indexes, old(indexes))
      ensures Cells() == ClearAll(old(Cells()), Positions(places))
      ensures multiset(old(Contents())) == multiset(Contents()) + multiset(deleted)
    {
      hide Agree, Live, Flat;
      ghost var cs := Cells();
      deleted := [];
      var i: nat := 0;
      ClearNone(cs);
      ClimbsHere(pages, pageSize);
      while i < |places|
        invariant i <= |places| && Valid() && SameColumns(indexes, old(indexes)) && SameShape(pages, old(pages))
        invariant Cells() == ClearAll(cs, Positions(places[..i]))
        invariant multiset(old(Contents())) == multiset(Contents()) + multiset(deleted)
      {
        var page, slot := places[i].0, places[i].1;
        PositionsMore(places, i);
        ghost var before := pages;
        var r := DeleteAt(page, slot);
        PlaceCleared(old(pages), before, page, slot, cs, Positions(places[..i]));
        if r.value.Some? {
          ClearCell(Flat(before), CellAt(before, page, slot), ID);
          deleted := deleted + [r.value.value];
        }
        i := i + 1;
      }
      assert places[..i] == places;
    }

    /** The places of the first row of each key, from the id index. */
    method FindPlaces(index: Index, keys: seq<i64>) returns (places: seq<(nat, nat)>)
      requires Valid() && index in indexes && index.column == ID
      ensures ExistingSlots(places, pages) && Positions(places) == Targets(Cells(), KeysOf(keys))
    {
      hide PagesOk, Flat, Targets, Positions, ExistingSlots, Entries, FirstWith;
      places := [];
      NoPlaces(Cells(), pages, KeysOf(keys));
      for j := 0 to |keys|
        invariant ExistingSlots(places, pages) && Positions(places) == Targets(Cells(), KeysOf(keys)[..j])
      {
        var pos := FirstPosition(index.entries, KeyOf(keys[j]));
        FoundPlace(pages, pageSize, index.entries, KeysOf(keys), j, pos);
        if pos.Some? {
          var place := Unpack(pos.value);
          PlaceAdded(places, place, pages);
          places := places + [place];
        }
      }
      assert KeysOf(keys)[..|keys|] == KeysOf(keys);
    }

    /** `delete_by_keys`: with an id index one row of each key, without one all rows whose id is
        in the list. */
    method DeleteByKeys(keys: seq<i64>) returns (deleted: seq<Row>)
      requires Valid()
      modifies this`pages, this`indexes
      ensures Valid() && SameColumns(indexes, old(indexes))
      ensures Indexed(old(indexes)) ==> Cells() == ClearAll(old(Cells()), Targets(old(Cells()), KeysOf(keys)))
      ensures !Indexed(old(indexes)) ==> Cells() == ClearAll(old(Cells()), Matching(old(Cells()), keys))
      ensures multiset(old(Contents())) == multiset(Contents()) + multiset(deleted)
    {
      var i: nat := 0;
      while i < |indexes| && indexes[i].column != ID
        invariant i <= |indexes| && forall j | 0 <= j < i :: indexes[j].column != ID
      {
        i := i + 1;
      }
      var places;
      if i < |indexes| {
        places := FindPlaces(indexes[i], keys);
      } else {
        places := FindByScan(keys);
      }
      deleted := DeletePlaces(places);
    }

    /** The places of all rows whose id is in the list. */
    method FindByScan(keys: seq<i64>) returns (places: seq<(nat, nat)>)
      requires Valid()
      ensures ExistingSlots(places, pages) && Positions(places) == Matching(Cells(), keys)
    {
      places := [];
      var p: nat := 0;
      while p < |pages|
        invariant p <= |pages| && ExistingSlots(places, pages) && Positions(places) == Matching(Flat(pages[..p]), keys)
        decreases |pages| - p
      {
        places := FindOnPage(p, keys, places);
        p := p + 1;
      }
      assert pages[..p] == pages;
    }

    method FindOnPage(p: nat, keys: seq<i64>, places0: seq<(nat, nat)>) returns (places: seq<(nat, nat)>)
      requires p < |pages| && ExistingSlots(places0, pages) && Positions(places0) == Matching(Flat(pages[..p]), keys)
      ensures ExistingSlots(places, pages) && Positions(places) == Matching(Flat(pages[..p + 1]), keys)
    {
      hide Positions, ExistingSlots, Matching, Flat;
      ghost var done, cs := Flat(pages[..p]), PageCells(p, pages[p]);
      places := places0;
      var s: nat := 0;
      assert done + cs[..0] == done;
      while s < |pages[p]|
        invariant s <= |pages[p]| && ExistingSlots(places, pages) && Positions(places) == Matching(done + cs[..s], keys)
        decreases |pages[p]| - s
      {
        MatchNext(done, cs, s, keys);
        var row := pages[p][s];
        if row.Some? && IntOf(row.value, ID).Some? && IntOf(row.value, ID).value in keys {
          PlaceAdded(places, (p, s), pages);
          places := places + [(p, s)];
        }
        s := s + 1;
      }
      PageDone(pages, p);
    }
  }

  ghost predicate Indexed(indexes: seq<Index>) {
    exists i | 0 <= i < |indexes| :: indexes[i].column == ID
  }

  lemma NoPlaces(cs: seq<Cell>, pages: seq<Slots>, keys: seq<Bytes>)
    ensures ExistingSlots([], pages) && Positions([]) == {} == Targets(cs, keys[..0])
  {
  }

  lemma PlaceAdded(places: seq<(nat, nat)>, place: (nat, nat), pages: seq<Slots>)
    requires ExistingSlots(places, pages) && place.0 < |pages| && place.1 < |pages[place.0]|
    ensures ExistingSlots(places + [place], pages)
    ensures Positions(places + [place]) == Positions(places) + {Pack(place.0, place.1)}
  {
    var all := places + [place];
    PositionsMore(all, |places|);
    assert all[..|places|] == places && all[..|places| + 1] == all;
  }

  /** The entry of one key in the id index. */
  lemma FoundPlace(pages: seq<Slots>, pageSize: nat, entries: multiset<(Bytes, nat)>, keys: seq<Bytes>, j: nat, pos: Option<nat>)
    requires pageSize <= MAX_PAGE && PagesOk(pages, pageSize) && entries == Entries(Flat(pages), ID) && j < |keys|
    requires pos.None? <==> !HasKey(entries, keys[j])
    requires pos.Some? ==> (keys[j], pos.value) in entries && forall e <- entries | e.0 == keys[j] :: pos.value <= e.1
    ensures Targets(Flat(pages), keys[..j + 1]) == Targets(Flat(pages), keys[..j]) + (if pos.Some? then {pos.value} else {})
    ensures pos.Some? ==>
      var (page, slot) := Unpack(pos.value);
      page < |pages| && slot < |pages[page]| && Pack(page, slot) == pos.value
  {
    hide PagesOk, Flat, Entries, FirstWith;
    ClimbsHere(pages, pageSize);
    assert keys[..j + 1][..j] == keys[..j];
    if pos.None? {
      IndexNone(Flat(pages), ID, keys[j]);
    } else {
      IndexFirst(Flat(pages), ID, keys[j], pos.value);
      PlaceOf(pages, pageSize, pos.value, keys[j]);
    }
  }

  lemma MatchNext(done: seq<Cell>, cs: seq<Cell>, s: nat, keys: seq<i64>)
    requires s < |cs|
    ensures Matching(done + cs[..s + 1], keys) == Matching(done + cs[..s], keys) + (if HasId(cs[s], keys) then {cs[s].pos} else {})
  {
    var a, b := done + cs[..s], done + cs[..s + 1];
    assert b == a + [cs[s]];
    forall q | q in Matching(a, keys)
      ensures q in Matching(b, keys)
    {
      var i :| 0 <= i < |a| && HasId(a[i], keys) && a[i].pos == q;
      assert b[i] == a[i];
    }
    assert b[|a|] == cs[s];
    forall q | q in Matching(b, keys)
      ensures q in Matching(a, keys) + (if HasId(cs[s], keys) then {cs[s].pos} else {})
    {
      var i :| 0 <= i < |b| && HasId(b[i], keys) && b[i].pos == q;
      if i < |a| {
        assert a[i] == b[i];
      }
    }
  }

  lemma PageDone(pages: seq<Slots>, p: nat)
    requires p < |pages|
    ensures Flat(pages[..p + 1]) == Flat(pages[..p]) + PageCells(p, pages[p])[..|pages[p]|]
  {
    assert pages[..p + 1][..p] == pages[..p];
    assert PageCells(p, pages[p])[..|pages[p]|] == PageCells(p, pages[p]);
  }

  lemma ClimbsHere(pages: seq<Slots>, pageSize: nat)
    requires pageSize <= MAX_PAGE && PagesOk(pages, pageSize)
    ensures Climbs(Flat(pages)) && Narrow(pages)
  {
    FlatClimbs(pages);
  }

  lemma UnpackPack(page: nat, slot: nat)
    requires slot < 0x1_0000
    ensures Unpack(Pack(page, slot)) == (page, slot)
  {
  }

  /** A found position unpacks to the slot of its row. */
  lemma PlaceOf(pages: seq<Slots>, pageSize: nat, pos: nat, key: Bytes)
    requires pageSize <= MAX_PAGE && PagesOk(pages, pageSize) && FirstWith(Flat(pages), ID, key) == Some(pos)
    ensures var (page, slot) := Unpack(pos);
      page < |pages| && slot < |pages[page]| && Pack(page, slot) == pos
  {
    var cs := Flat(pages);
    var i :| 0 <= i < |cs| && LiveWith(cs[i], ID, key) && cs[i].pos == pos;
    hide Flat, FirstWith;
    var page, slot := SlotOf(pages, i);
    assert PAGE_HEADER + |pages[page]| * SLOT_BYTES <= pageSize;
    UnpackPack(page, slot);
  }

  /** Deleting at a place clears its position. */
  lemma PlaceCleared(pages0: seq<Slots>, pages: seq<Slots>, page: nat, slot: nat, cs: seq<Cell>, ps: set<nat>)
    requires page < |pages| && slot < |pages[page]| && SameShape(pages, pages0)
    requires Climbs(cs) && cs == Flat(pages0) && Flat(pages) == ClearAll(cs, ps)
    ensures var i := CellAt(pages, page, slot);
      && i < |cs| && cs[i].pos == Pack(page, slot)
      && Flat(pages)[i := Cell(Pack(page, slot), None)] == ClearAll(cs, ps + {Pack(page, slot)})
      && (pages[page][slot].None? ==> Flat(pages) == ClearAll(cs, ps + {Pack(page, slot)}))
  {
    FlatClear(pages, page, slot);
    var i := CellAt(pages, page, slot);
    assert Clear(cs[i], ps).pos == cs[i].pos;
    ClearMore(cs, ps, i);
    if pages[page][slot].None? {
      assert Flat(pages)[i := Cell(Pack(page, slot), None)] == Flat(pages);
    }
  }

  lemma NewIsBehind(pages: seq<Slots>, pageSize: nat)
    requires pageSize <= MAX_PAGE && PagesOk(pages, pageSize)
    ensures Under(Flat(pages), Pack(|pages|, 0))
    ensures pages != [] ==> Under(Flat(pages), Pack(|pages| - 1, |pages[|pages| - 1]|))
  {
    FlatClimbs(pages);
    if pages != [] {
      FlatClimbs(pages[..|pages| - 1]);
    }
  }

  lemma EmptyHeap()
    ensures Flat([]) == [] && Live([]) == []
  {
  }

  lemma AgreeSplit(indexes: seq<Index>, cs: seq<Cell>, cs': seq<Cell>)
    requires Agree(indexes, cs)
    ensures Agree(indexes[..0], cs') && Agree(indexes[0..], cs)
  {
    assert indexes[0..] == indexes;
  }

  lemma AgreeHead(indexes: seq<Index>, cs: seq<Cell>)
    requires Agree(indexes, cs) && indexes != []
    ensures Matches(indexes[0], cs)
  {
  }

  lemma MatchesAdded(index: Index, cs: seq<Cell>, row: Row, pos: nat)
    requires Matches(index, cs) && (RowKey(row, index.column).Some? ==> |RowKey(row, index.column).value| <= IndexCalls.MAX_KEY)
    ensures var key := RowKey(row, index.column);
      Matches(if key.Some? then IndexCalls.WithAdd(index, key.value, pos) else index, cs + [Cell(pos, Some(row))])
  {
    hide IndexCalls.Recorded;
    AddCell(cs, Cell(pos, Some(row)), index.column);
    var key := RowKey(row, index.column);
    if key.Some? {
      IndexCalls.RecordAdd(index, key.value, pos);
    }
  }

  lemma MatchesCleared(index: Index, cs: seq<Cell>, i: nat)
    requires Matches(index, cs) && i < |cs| && cs[i].row.Some?
    ensures var key := RowKey(cs[i].row.value, index.column);
      && (key.Some? ==> |key.value| <= IndexCalls.MAX_KEY)
      && Matches(if key.Some? then IndexCalls.WithRemove(index, key.value, cs[i].pos) else index, cs[i := Cell(cs[i].pos, None)])
  {
    ClearCell(cs, i, index.column);
    var key := RowKey(cs[i].row.value, index.column);
    if key.Some? {
      assert (key.value, cs[i].pos) in index.entries;
      IndexCalls.RecordRemove(index, key.value, cs[i].pos);
    }
  }

  /** All keys of a row are within the limit. */
  predicate KeysWithin(row: Row, over: seq<Index>, limit: nat) {
    forall i | 0 <= i < |over| :: RowKey(row, over[i].column).Some? ==> |RowKey(row, over[i].column).value| <= limit
  }

  lemma {:induction false} NotRefusedWithin(indexes: seq<Index>, row: Row, limit: nat)
    requires FirstRefusal(indexes, row, limit).None?
    ensures KeysWithin(row, indexes, limit)
    decreases |indexes|
  {
    if indexes != [] {
      NotRefusedWithin(indexes[1..], row, limit);
      forall i | 0 <= i < |indexes|
        ensures RowKey(row, indexes[i].column).Some? ==> |RowKey(row, indexes[i].column).value| <= limit
      {
        if i > 0 {
          assert indexes[1..][i - 1] == indexes[i];
        }
      }
    }
  }

  lemma AgreeStep(indexes: seq<Index>, i: nat, index: Index, cs: seq<Cell>, cs': seq<Cell>)
    requires i < |indexes| && Agree(indexes[..i], cs') && Agree(indexes[i..], cs)
    requires Matches(index, cs')
    ensures Agree(indexes[i := index][..i + 1], cs') && Agree(indexes[i := index][i + 1..], cs)
  {
    hide Matches;
    var next := indexes[i := index];
    var head, rest := next[..i + 1], next[i + 1..];
    forall j | 0 <= j < |head|
      ensures Matches(head[j], cs')
    {
      if j < i {
        assert head[j] == indexes[..i][j];
      }
    }
    forall j | 0 <= j < |rest|
      ensures Matches(rest[j], cs)
    {
      assert rest[j] == indexes[i..][j + 1];
    }
  }
}
