/** The heap table (heap.rs) as a list of cells in the order of insertion: which rows a scan
    gives, and what each index must hold. */
module HeapCells {
  import opened Basics
  import opened Rows

  type Bytes = seq<byte>
  type Slots = seq<Option<Row>>

  // ---- Positions ----

  /** `pack_position`: the page number shifted left in 64 bits, and the slot. */
  function PackWide(page: nat, slot: nat): nat {
    (page * 0x1_0000) % 0x1_0000_0000_0000_0000 + slot
  }

  function Unpack(pos: nat): (nat, nat) {
    (pos / 0x1_0000, pos % 0x1_0000)
  }

  function Pack(page: nat, slot: nat): nat {
    page * 0x1_0000 + slot
  }

  /** A position unpacks to what was packed exactly if the page number has at most 48 bits. */
  lemma PackIff(page: nat, slot: nat)
    requires slot < 0x1_0000
    ensures Unpack(PackWide(page, slot)) == (page, slot) <==> page < 0x1_0000_0000_0000
    ensures page < 0x1_0000_0000_0000 ==> PackWide(page, slot) == Pack(page, slot)
  {
    var wide := page * 0x1_0000;
    if page < 0x1_0000_0000_0000 {
      assert wide % 0x1_0000_0000_0000_0000 == wide;
    } else {
      assert PackWide(page, slot) < 0x1_0000_0000_0000_0000 + 0x1_0000;
      assert wide % 0x1_0000_0000_0000_0000 / 0x1_0000 < 0x1_0000_0000_0000;
    }
  }

  // ---- Cells ----

  /** A slot with its position; a deleted one has no row. */
  datatype Cell = Cell(pos: nat, row: Option<Row>)

  function PageCells(page: nat, slots: Slots): (cs: seq<Cell>)
    ensures |cs| == |slots| && forall s | 0 <= s < |cs| :: cs[s] == Cell(Pack(page, s), slots[s])
  {
    seq(|slots|, s requires 0 <= s < |slots| => Cell(Pack(page, s), slots[s]))
  }

  /** All slots, page by page. */
  function Flat(pages: seq<Slots>): seq<Cell> {
    if pages == [] then [] else Flat(pages[..|pages| - 1]) + PageCells(|pages| - 1, pages[|pages| - 1])
  }

  /** Slot numbers fit in sixteen bits. */
  predicate Narrow(pages: seq<Slots>) {
    forall p | 0 <= p < |pages| :: |pages[p]| <= 0x1_0000
  }

  predicate Climbs(cs: seq<Cell>) {
    forall i, j | 0 <= i < j < |cs| :: cs[i].pos < cs[j].pos
  }

  predicate Under(cs: seq<Cell>, n: nat) {
    forall i | 0 <= i < |cs| :: cs[i].pos < n
  }

  /** Positions rise in scan order, so no two slots share one. */
  lemma {:induction false} FlatClimbs(pages: seq<Slots>)
    requires Narrow(pages)
    ensures Climbs(Flat(pages)) && Under(Flat(pages), Pack(|pages|, 0))
    decreases |pages|
  {
    if pages != [] {
      var init, last := pages[..|pages| - 1], |pages| - 1;
      FlatClimbs(init);
      var a: seq<Cell>, b: seq<Cell> := Flat(init), PageCells(last, pages[last]);
      var all := a + b;
      forall i, j | 0 <= i < j < |all|
        ensures all[i].pos < all[j].pos
      {
        if i < |a| <= j {
          assert a[i].pos < Pack(last, 0) <= b[j - |a|].pos;
        }
      }
    }
  }

  /** A row added to the last page. */
  lemma FlatAdd(pages: seq<Slots>, row: Row)
    requires pages != []
    ensures var last := |pages| - 1;
      Flat(pages[last := pages[last] + [Some(row)]]) == Flat(pages) + [Cell(Pack(last, |pages[last]|), Some(row))]
  {
    var last := |pages| - 1;
    var pages' := pages[last := pages[last] + [Some(row)]];
    assert pages'[..last] == pages[..last];
    hide PageCells;
    PageAdd(last, pages[last], row);
    Assoc(Flat(pages[..last]), PageCells(last, pages[last]), [Cell(Pack(last, |pages[last]|), Some(row))]);
  }

  lemma PageAdd(page: nat, slots: Slots, row: Row)
    ensures PageCells(page, slots + [Some(row)]) == PageCells(page, slots) + [Cell(Pack(page, |slots|), Some(row))]
  {
    var all := slots + [Some(row)];
    forall s | 0 <= s < |all|
      ensures PageCells(page, all)[s] == (PageCells(page, slots) + [Cell(Pack(page, |slots|), Some(row))])[s]
    {
    }
  }

  /** A row on a new page. */
  lemma FlatGrow(pages: seq<Slots>, row: Row)
    ensures Flat(pages + [[Some(row)]]) == Flat(pages) + [Cell(Pack(|pages|, 0), Some(row))]
  {
    var pages' := pages + [[Some(row)]];
    assert pages'[..|pages|] == pages;
    assert PageCells(|pages|, [Some(row)]) == [Cell(Pack(|pages|, 0), Some(row))];
  }

  /** Where a slot stands among all cells. */
  function CellAt(pages: seq<Slots>, page: nat, slot: nat): nat
    requires page < |pages|
  {
    |Flat(pages[..page])| + slot
  }

  /** A slot cleared. */
  lemma {:induction false} FlatClear(pages: seq<Slots>, page: nat, slot: nat)
    requires page < |pages| && slot < |pages[page]|
    ensures var i := CellAt(pages, page, slot);
      && i < |Flat(pages)| && Flat(pages)[i] == Cell(Pack(page, slot), pages[page][slot])
      && Flat(pages[page := pages[page][slot := None]]) == Flat(pages)[i := Cell(Pack(page, slot), None)]
    decreases |pages|
  {
    var last := |pages| - 1;
    var init := pages[..last];
    var pages' := pages[page := pages[page][slot := None]];
    if page == last {
      assert pages'[..last] == init && pages[..page] == init;
      assert PageCells(last, pages[last][slot := None]) == PageCells(last, pages[last])[slot := Cell(Pack(last, slot), None)];
    } else {
      FlatClear(init, page, slot);
      assert pages'[..last] == init[page := init[page][slot := None]] && init[..page] == pages[..page];
    }
  }

  // ---- Rows and index entries ----

  /** The rows a scan gives. */
  function Live(cs: seq<Cell>): seq<Row> {
    if cs == [] then []
    else Live(cs[..|cs| - 1]) + (if cs[|cs| - 1].row.Some? then [cs[|cs| - 1].row.value] else [])
  }

  function EntryOf(c: Cell, column: string): multiset<(Bytes, nat)> {
    if c.row.None? || RowKey(c.row.value, column).None? then multiset{}
    else multiset{(RowKey(c.row.value, column).value, c.pos)}
  }

  /** What the index of a column must hold: key and position of every live row with a key. */
  function Entries(cs: seq<Cell>, column: string): multiset<(Bytes, nat)> {
    if cs == [] then multiset{} else Entries(cs[..|cs| - 1], column) + EntryOf(cs[|cs| - 1], column)
  }

  lemma {:induction false} LiveSplit(a: seq<Cell>, b: seq<Cell>)
    ensures Live(a + b) == Live(a) + Live(b)
    decreases |b|
  {
    if b == [] {
      assert a + b == a;
    } else {
      assert (a + b)[..|a + b| - 1] == a + b[..|b| - 1];
      LiveSplit(a, b[..|b| - 1]);
    }
  }

  lemma {:induction false} EntriesSplit(a: seq<Cell>, b: seq<Cell>, column: string)
    ensures Entries(a + b, column) == Entries(a, column) + Entries(b, column)
    decreases |b|
  {
    if b == [] {
      assert a + b == a;
    } else {
      assert (a + b)[..|a + b| - 1] == a + b[..|b| - 1];
      EntriesSplit(a, b[..|b| - 1], column);
    }
  }

  lemma AddCell(cs: seq<Cell>, c: Cell, column: string)
    ensures Live(cs + [c]) == Live(cs) + (if c.row.Some? then [c.row.value] else [])
    ensures Entries(cs + [c], column) == Entries(cs, column) + EntryOf(c, column)
  {
    assert (cs + [c])[..|cs|] == cs;
  }

  /** Clearing a cell takes out its row and its entry, and nothing else. */
  lemma ClearCell(cs: seq<Cell>, i: nat, column: string)
    requires i < |cs| && cs[i].row.Some?
    ensures var cs' := cs[i := Cell(cs[i].pos, None)];
      && Live(cs) == Live(cs[..i]) + [cs[i].row.value] + Live(cs[i + 1..])
      && Live(cs') == Live(cs[..i]) + Live(cs[i + 1..])
      && Entries(cs, column) == Entries(cs', column) + EntryOf(cs[i], column)
  {
    hide Live, Entries;
    var a, b := cs[..i], cs[i + 1..];
    assert cs == (a + [cs[i]]) + b && cs[i := Cell(cs[i].pos, None)] == (a + [Cell(cs[i].pos, None)]) + b;
    AroundCell(a, cs[i], b, column);
    AroundCell(a, Cell(cs[i].pos, None), b, column);
    assert Live(a) + [] == Live(a);
  }

  lemma AroundCell(a: seq<Cell>, c: Cell, b: seq<Cell>, column: string)
    ensures Live((a + [c]) + b) == Live(a) + (if c.row.Some? then [c.row.value] else []) + Live(b)
    ensures Entries((a + [c]) + b, column) == Entries(a, column) + EntryOf(c, column) + Entries(b, column)
  {
    hide Live, Entries;
    LiveSplit(a + [c], b);
    EntriesSplit(a + [c], b, column);
    AddCell(a, c, column);
  }

  /** An index entry stands for exactly one live row. */
  lemma {:induction false} EntryIff(cs: seq<Cell>, column: string, key: Bytes, pos: nat)
    ensures (key, pos) in Entries(cs, column) <==>
            exists i | 0 <= i < |cs| :: cs[i].pos == pos && cs[i].row.Some? && RowKey(cs[i].row.value, column) == Some(key)
    decreases |cs|
  {
    if cs != [] {
      var init, c := cs[..|cs| - 1], cs[|cs| - 1];
      EntryIff(init, column, key, pos);
      if i :| 0 <= i < |init| && init[i].pos == pos && init[i].row.Some? && RowKey(init[i].row.value, column) == Some(key) {
        assert cs[i] == init[i];
      }
      if i :| 0 <= i < |cs| && cs[i].pos == pos && cs[i].row.Some? && RowKey(cs[i].row.value, column) == Some(key) {
        if i < |init| {
          assert init[i] == cs[i];
        }
      }
    }
  }

  // ---- Deletion by position ----

  function Clear(c: Cell, ps: set<nat>): Cell {
    if c.pos in ps then Cell(c.pos, None) else c
  }

  /** The cells at these positions cleared. */
  function ClearAll(cs: seq<Cell>, ps: set<nat>): (r: seq<Cell>)
    ensures |r| == |cs| && forall i | 0 <= i < |r| :: r[i] == Clear(cs[i], ps)
  {
    seq(|cs|, i requires 0 <= i < |cs| => Clear(cs[i], ps))
  }

  /** Clearing one more position. */
  lemma ClearMore(cs: seq<Cell>, ps: set<nat>, i: nat)
    requires Climbs(cs) && i < |cs|
    ensures ClearAll(cs, ps)[i := Cell(cs[i].pos, None)] == ClearAll(cs, ps + {cs[i].pos})
  {
    var a, b := ClearAll(cs, ps)[i := Cell(cs[i].pos, None)], ClearAll(cs, ps + {cs[i].pos});
    forall j | 0 <= j < |a|
      ensures a[j] == b[j]
    {
      if j != i {
        assert cs[j].pos != cs[i].pos;
      }
    }
  }

  lemma ClearNone(cs: seq<Cell>)
    ensures ClearAll(cs, {}) == cs
  {
  }

  /** Every cell is a slot of a page. */
  lemma {:induction false} SlotOf(pages: seq<Slots>, i: nat) returns (page: nat, slot: nat)
    requires i < |Flat(pages)|
    ensures page < |pages| && slot < |pages[page]| && i == CellAt(pages, page, slot)
    ensures Flat(pages)[i] == Cell(Pack(page, slot), pages[page][slot])
    decreases |pages|
  {
    var last := |pages| - 1;
    var init := pages[..last];
    if i < |Flat(init)| {
      page, slot := SlotOf(init, i);
      assert init[..page] == pages[..page];
    } else {
      page, slot := last, i - |Flat(init)|;
    }
  }

  predicate LiveWith(c: Cell, column: string, key: Bytes) {
    c.row.Some? && RowKey(c.row.value, column) == Some(key)
  }

  /** The position of the first live row with a key. */
  function FirstWith(cs: seq<Cell>, column: string, key: Bytes): (r: Option<nat>)
    ensures r.None? <==> forall i | 0 <= i < |cs| :: !LiveWith(cs[i], column, key)
    ensures r.Some? ==> exists i | 0 <= i < |cs| :: LiveWith(cs[i], column, key) && cs[i].pos == r.value
  {
    if cs == [] then None
    else if LiveWith(cs[0], column, key) then Some(cs[0].pos)
    else FirstWith(cs[1..], column, key)
  }

  lemma {:induction false} FirstIsLowest(cs: seq<Cell>, column: string, key: Bytes, i: nat)
    requires Climbs(cs) && i < |cs| && LiveWith(cs[i], column, key)
    ensures FirstWith(cs, column, key).Some? && FirstWith(cs, column, key).value <= cs[i].pos
    decreases |cs|
  {
    if !LiveWith(cs[0], column, key) {
      assert cs[1..][i - 1] == cs[i];
      FirstIsLowest(cs[1..], column, key, i - 1);
    }
  }

  /** The smallest position that an index has for a key is that of the first row with it. */
  lemma IndexFirst(cs: seq<Cell>, column: string, key: Bytes, pos: nat)
    requires Climbs(cs) && (key, pos) in Entries(cs, column) && forall e <- Entries(cs, column) | e.0 == key :: pos <= e.1
    ensures FirstWith(cs, column, key) == Some(pos)
  {
    EntryIff(cs, column, key, pos);
    var i :| 0 <= i < |cs| && cs[i].pos == pos && cs[i].row.Some? && RowKey(cs[i].row.value, column) == Some(key);
    FirstIsLowest(cs, column, key, i);
    var first := FirstWith(cs, column, key).value;
    var j :| 0 <= j < |cs| && LiveWith(cs[j], column, key) && cs[j].pos == first;
    EntryIff(cs, column, key, first);
    assert (key, first) in Entries(cs, column);
  }

  lemma IndexNone(cs: seq<Cell>, column: string, key: Bytes)
    requires forall e <- Entries(cs, column) :: e.0 != key
    ensures FirstWith(cs, column, key) == None
  {
    forall i | 0 <= i < |cs|
      ensures !LiveWith(cs[i], column, key)
    {
      if LiveWith(cs[i], column, key) {
        EntryIff(cs, column, key, cs[i].pos);
        assert (key, cs[i].pos) in Entries(cs, column);
      }
    }
  }

  // ---- Identities ----

  /** The id keys of the live rows, with their multiplicity. */
  function IdKeys(cs: seq<Cell>): multiset<Bytes> {
    if cs == [] then multiset{} else IdKeys(cs[..|cs| - 1]) + IdOf(cs[|cs| - 1].row)
  }

  function IdOf(row: Option<Row>): multiset<Bytes> {
    if row.None? || RowKey(row.value, ID).None? then multiset{} else multiset{RowKey(row.value, ID).value}
  }

  lemma {:induction false} IdIff(cs: seq<Cell>, key: Bytes)
    ensures key in IdKeys(cs) <==> exists i | 0 <= i < |cs| :: LiveWith(cs[i], ID, key)
    decreases |cs|
  {
    if cs != [] {
      hide LiveWith;
      IdIff(cs[..|cs| - 1], key);
      WithLast(cs, cs[..|cs| - 1], ID, key);
      LastId(cs[|cs| - 1], key);
    }
  }

  lemma WithLast(cs: seq<Cell>, init: seq<Cell>, column: string, key: Bytes)
    requires cs != [] && init == cs[..|cs| - 1]
    ensures (exists i | 0 <= i < |cs| :: LiveWith(cs[i], column, key)) <==>
      LiveWith(cs[|cs| - 1], column, key) || exists i | 0 <= i < |init| :: LiveWith(init[i], column, key)
  {
    hide LiveWith;
    if i :| 0 <= i < |init| && LiveWith(init[i], column, key) {
      assert cs[i] == init[i];
    }
    if i :| 0 <= i < |cs| && LiveWith(cs[i], column, key) {
      assert i < |init| ==> init[i] == cs[i];
    }
  }

  lemma LastId(c: Cell, key: Bytes)
    ensures key in IdOf(c.row) <==> LiveWith(c, ID, key)
  {
  }

  lemma {:induction false} IdSplit(a: seq<Cell>, b: seq<Cell>)
    ensures IdKeys(a + b) == IdKeys(a) + IdKeys(b)
    decreases |b|
  {
    if b == [] {
      assert a + b == a;
    } else {
      assert (a + b)[..|a + b| - 1] == a + b[..|b| - 1];
      IdSplit(a, b[..|b| - 1]);
    }
  }

  lemma IdAround(a: seq<Cell>, c: Cell, b: seq<Cell>)
    ensures IdKeys((a + [c]) + b) == IdKeys(a) + IdOf(c.row) + IdKeys(b)
  {
    IdSplit(a + [c], b);
    assert (a + [c])[..|a|] == a;
  }

  lemma ClearId(cs: seq<Cell>, i: nat)
    requires i < |cs|
    ensures IdKeys(cs) == IdKeys(cs[i := Cell(cs[i].pos, None)]) + IdOf(cs[i].row)
  {
    var a, b := cs[..i], cs[i + 1..];
    assert cs == (a + [cs[i]]) + b && cs[i := Cell(cs[i].pos, None)] == (a + [Cell(cs[i].pos, None)]) + b;
    IdAround(a, cs[i], b);
    IdAround(a, Cell(cs[i].pos, None), b);
  }

  /** The positions `delete_by_keys` finds: the first row of each key. */
  function Targets(cs: seq<Cell>, keys: seq<Bytes>): set<nat> {
    if keys == [] then {}
    else
      var first := FirstWith(cs, ID, keys[|keys| - 1]);
      Targets(cs, keys[..|keys| - 1]) + (if first.Some? then {first.value} else {})
  }

  /** A position found stands for a row with one of the keys. */
  lemma {:induction false} TargetKey(cs: seq<Cell>, keys: seq<Bytes>, i: nat)
    requires Climbs(cs) && i < |cs| && cs[i].pos in Targets(cs, keys)
    ensures exists k <- keys :: FirstWith(cs, ID, k) == Some(cs[i].pos) && LiveWith(cs[i], ID, k)
    decreases |keys|
  {
    var init, last := keys[..|keys| - 1], keys[|keys| - 1];
    if cs[i].pos in Targets(cs, init) {
      TargetKey(cs, init, i);
    } else {
      var j :| 0 <= j < |cs| && LiveWith(cs[j], ID, last) && cs[j].pos == cs[i].pos;
      assert j == i;
      assert last in keys;
    }
  }

  lemma {:induction false} TargetIn(cs: seq<Cell>, keys: seq<Bytes>, k: Bytes)
    requires k in keys && FirstWith(cs, ID, k).Some?
    ensures FirstWith(cs, ID, k).value in Targets(cs, keys)
    decreases |keys|
  {
    if k != keys[|keys| - 1] {
      TargetIn(cs, keys[..|keys| - 1], k);
    }
  }

  /** Deleting by keys takes one row of each key that is there, however often it is named. */
  lemma {:induction false} TargetCounts(cs: seq<Cell>, keys: seq<Bytes>, key: Bytes)
    requires Climbs(cs)
    ensures IdKeys(ClearAll(cs, Targets(cs, keys)))[key] + (if key in keys && key in IdKeys(cs) then 1 else 0) == IdKeys(cs)[key]
    decreases |keys|
  {
    if keys == [] {
      ClearNone(cs);
    } else {
      var init, last := keys[..|keys| - 1], keys[|keys| - 1];
      TargetCounts(cs, init, key);
      var first := FirstWith(cs, ID, last);
      IdIff(cs, last);
      if first.None? {
        assert Targets(cs, keys) == Targets(cs, init);
      } else if last in init {
        TargetIn(cs, init, last);
        assert Targets(cs, keys) == Targets(cs, init);
      } else {
        NewTarget(cs, init, last);
      }
    }
  }

  lemma NewTarget(cs: seq<Cell>, keys: seq<Bytes>, k: Bytes)
    requires Climbs(cs) && k !in keys && FirstWith(cs, ID, k).Some?
    ensures IdKeys(ClearAll(cs, Targets(cs, keys))) ==
            IdKeys(ClearAll(cs, Targets(cs, keys) + {FirstWith(cs, ID, k).value})) + multiset{k}
  {
    var ps := Targets(cs, keys);
    var i :| 0 <= i < |cs| && LiveWith(cs[i], ID, k) && cs[i].pos == FirstWith(cs, ID, k).value;
    if cs[i].pos in ps {
      TargetKey(cs, keys, i);
      assert false;
    }
    ClearMore(cs, ps, i);
    ClearId(ClearAll(cs, ps), i);
  }

  /** The positions of all rows whose id is a number in the list: the way without an index. */
  function Matching(cs: seq<Cell>, keys: seq<i64>): set<nat> {
    set i | 0 <= i < |cs| && HasId(cs[i], keys) :: cs[i].pos
  }

  predicate HasId(c: Cell, keys: seq<i64>) {
    c.row.Some? && IntOf(c.row.value, ID).Some? && IntOf(c.row.value, ID).value in keys
  }

  function KeysOf(keys: seq<i64>): (r: seq<Bytes>)
    ensures |r| == |keys| && forall i | 0 <= i < |r| :: r[i] == KeyOf(keys[i])
  {
    seq(|keys|, i requires 0 <= i < |keys| => KeyOf(keys[i]))
  }
}
