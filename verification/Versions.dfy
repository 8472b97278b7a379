/** Row version chains, snapshots of a table, and pruning (mvcc.rs). */
module Versions {
  import opened Basics
  import opened Rows

  datatype Column = Column(name: string, unique: bool, primaryKey: bool)

  datatype Schema = Schema(table: string, objectId: nat, version: nat, columns: seq<Column>)

  datatype Version = Version(begin: nat, end: Option<nat>, valueBegin: nat, order: nat, row: Row)

  type Chain = seq<Version>

  datatype History = History(schema: Schema, changed: nat, live: bool, rows: map<nat, Chain>)

  type Tables = map<nat, History>

  datatype Durable = Durable(format: nat, csn: nat, nextRow: nat, tables: Tables)

  // ---- Chains ----

  predicate Sees(v: Version, csn: nat) {
    v.begin <= csn && (v.end.Some? ==> csn < v.end.value)
  }

  /** What a reader learns of a visible version: everything but its end. */
  datatype Seen = Seen(begin: nat, valueBegin: nat, order: nat, row: Row)

  function ToSeen(v: Version): Seen {
    Seen(v.begin, v.valueBegin, v.order, v.row)
  }

  /** The newest version of a chain that a snapshot sees. */
  function Newest(chain: Chain, csn: nat): Option<Seen> {
    if chain == [] then None
    else if Sees(chain[|chain| - 1], csn) then Some(ToSeen(chain[|chain| - 1]))
    else Newest(chain[..|chain| - 1], csn)
  }

  predicate VersionOk(v: Version, csn: nat) {
    v.valueBegin <= v.begin <= csn && (v.end.Some? ==> v.begin < v.end.value <= csn)
  }

  predicate Precedes(v: Version, w: Version) {
    v.end.Some? && v.end.value <= w.begin
  }

  /** `w` comes right after `v`: it has a new value, stamped with its own begin, or the
      same value and then the stamp of `v`. */
  predicate Continues(v: Version, w: Version) {
    && v.end == Some(w.begin)
    && w.valueBegin == if w.row == v.row then v.valueBegin else w.begin
  }

  /** A chain is a contiguous run of intervals up to `csn`, with only its last
      version possibly open. Its first version may repeat the value of a pruned
      one only if it began by `floor`. */
  ghost predicate ChainOk(c: Chain, csn: nat, floor: nat) {
    && c != []
    && (forall i | 0 <= i < |c| :: VersionOk(c[i], csn))
    && (forall i, j | 0 <= i < j < |c| :: Precedes(c[i], c[j]))
    && (forall i, j | 0 <= i < j < |c| && j == i + 1 :: Continues(c[i], c[j]))
    && (c[0].valueBegin == c[0].begin || c[0].begin <= floor)
  }

  predicate Open(c: Chain) {
    c != [] && c[|c| - 1].end.None?
  }

  /** At most one version of a chain is seen, and it is the one found. */
  lemma {:induction false} NewestIs(c: Chain, csn: nat, i: nat)
    requires i < |c| && Sees(c[i], csn)
    requires forall j | i < j < |c| :: !Sees(c[j], csn)
    ensures Newest(c, csn) == Some(ToSeen(c[i]))
  {
    if i != |c| - 1 {
      NewestIs(c[..|c| - 1], csn, i);
    }
  }

  lemma {:induction false} NewestNone(c: Chain, csn: nat)
    requires forall j | 0 <= j < |c| :: !Sees(c[j], csn)
    ensures Newest(c, csn) == None
  {
    if c != [] {
      NewestNone(c[..|c| - 1], csn);
    }
  }

  lemma {:induction false} NewestFound(c: Chain, csn: nat) returns (i: nat)
    requires Newest(c, csn).Some?
    ensures i < |c| && Sees(c[i], csn) && Newest(c, csn) == Some(ToSeen(c[i]))
    ensures forall j | i < j < |c| :: !Sees(c[j], csn)
  {
    if Sees(c[|c| - 1], csn) {
      i := |c| - 1;
    } else {
      i := NewestFound(c[..|c| - 1], csn);
    }
  }

  /** At its own csn a chain shows its open version or nothing. */
  lemma NewestNow(c: Chain, csn: nat, floor: nat)
    requires ChainOk(c, csn, floor)
    ensures Newest(c, csn) == if Open(c) then Some(ToSeen(c[|c| - 1])) else None
  {
    if Open(c) {
      assert VersionOk(c[|c| - 1], csn);
    } else {
      forall j | 0 <= j < |c|
        ensures !Sees(c[j], csn)
      {
        assert VersionOk(c[j], csn);
        assert j < |c| - 1 ==> Precedes(c[j], c[|c| - 1]);
      }
      NewestNone(c, csn);
    }
  }

  /** Between two versions of one chain the value stamp tells whether the value
      changed: either it is later than everything the first one covered, or both
      carry the same stamp and the same row. */
  lemma {:induction false} ValueStamp(c: Chain, csn: nat, floor: nat, i: nat, j: nat)
    requires ChainOk(c, csn, floor) && i <= j < |c|
    ensures (i < j && c[i].end.Some? && c[j].valueBegin >= c[i].end.value) ||
            (c[j].valueBegin == c[i].valueBegin && c[j].row == c[i].row)
    decreases j
  {
    if i < j {
      ValueStamp(c, csn, floor, i, j - 1);
      assert Precedes(c[i], c[j]) && Continues(c[j - 1], c[j]);
    }
  }

  /** mvcc.rs `value_begin` comparison: equal stamps in one chain mean equal rows. */
  lemma SameStampSameRow(c: Chain, csn: nat, floor: nat, i: nat, j: nat)
    requires ChainOk(c, csn, floor) && i < |c| && j < |c|
    requires c[i].valueBegin == c[j].valueBegin
    ensures c[i].row == c[j].row
  {
    var low, high := if i <= j then i else j, if i <= j then j else i;
    ValueStamp(c, csn, floor, low, high);
    assert VersionOk(c[low], csn);
  }

  // ---- Closing and extending a chain ----

  function Close(c: Chain, csn: nat): (r: Chain)
    requires c != []
    ensures |r| == |c|
  {
    c[|c| - 1 := c[|c| - 1].(end := Some(csn))]
  }

  lemma CloseOk(c: Chain, now: nat, floor: nat, csn: nat)
    requires ChainOk(c, now, floor) && c[|c| - 1].begin < csn && now <= csn
    ensures ChainOk(Close(c, csn), csn, floor)
  {
    var d := Close(c, csn);
    forall i | 0 <= i < |d|
      ensures VersionOk(d[i], csn)
    {
      assert VersionOk(c[i], now);
    }
    forall i, j | 0 <= i < j < |d|
      ensures Precedes(d[i], d[j]) && (j == i + 1 ==> Continues(d[i], d[j]))
    {
      assert Precedes(c[i], c[j]);
    }
  }

  /** Snapshots before `csn` do not notice the closing of an open chain. */
  lemma {:induction false} CloseKeepsPast(c: Chain, csn: nat, s: nat)
    requires Open(c) && s < csn
    ensures Newest(Close(c, csn), s) == Newest(c, s)
  {
    assert Close(c, csn)[..|c| - 1] == c[..|c| - 1];
  }

  /** From `csn` on, a closed chain is invisible. */
  lemma CloseHides(c: Chain, now: nat, floor: nat, csn: nat)
    requires ChainOk(c, now, floor) && c[|c| - 1].begin < csn && now <= csn
    ensures Newest(Close(c, csn), csn) == None
  {
    CloseOk(c, now, floor, csn);
    NewestNow(Close(c, csn), csn, floor);
  }

  /** The chain after its row takes place `order` with value `row` at `csn`. */
  function Placed(c: Chain, csn: nat, order: nat, row: Row): (r: Chain)
    requires c != []
    ensures r != []
  {
    var last := c[|c| - 1];
    if last.row == row && last.order == order then c
    else Close(c, csn) + [Version(csn, None, if last.row == row then last.valueBegin else csn, order, row)]
  }

  lemma PlacedOk(c: Chain, now: nat, floor: nat, csn: nat, order: nat, row: Row)
    requires ChainOk(c, now, floor) && Open(c) && now <= csn
    requires (c[|c| - 1].row == row && c[|c| - 1].order == order) || c[|c| - 1].begin < csn
    ensures ChainOk(Placed(c, csn, order, row), csn, floor)
  {
    var d := Placed(c, csn, order, row);
    if d == c {
      assert forall i | 0 <= i < |c| :: VersionOk(c[i], now) ==> VersionOk(c[i], csn);
    } else {
      CloseOk(c, now, floor, csn);
      var e := Close(c, csn);
      assert VersionOk(c[|c| - 1], now);
      forall i, j | 0 <= i < j < |d|
        ensures Precedes(d[i], d[j]) && (j == i + 1 ==> Continues(d[i], d[j]))
      {
        assert VersionOk(e[i], csn);
        if j < |e| {
          assert Precedes(e[i], e[j]);
        }
      }
    }
  }

  lemma PlacedKeepsPast(c: Chain, csn: nat, order: nat, row: Row, s: nat)
    requires Open(c) && s < csn
    ensures Newest(Placed(c, csn, order, row), s) == Newest(c, s)
  {
    var d := Placed(c, csn, order, row);
    if d != c {
      CloseKeepsPast(c, csn, s);
      assert d[..|d| - 1] == Close(c, csn);
    }
  }

  /** At `csn` the placed chain shows the row at its place. */
  lemma PlacedShows(c: Chain, csn: nat, order: nat, row: Row)
    requires Open(c) && c[|c| - 1].begin <= csn
    ensures var v := Newest(Placed(c, csn, order, row), csn);
      v.Some? && v.value.order == order && v.value.row == row
  {
    var d := Placed(c, csn, order, row);
    assert Sees(d[|d| - 1], csn);
  }

  // ---- Pruning one chain ----

  predicate Kept(v: Version, oldest: nat) {
    v.end.Some? ==> v.end.value > oldest
  }

  function PruneChain(c: Chain, oldest: nat): (r: Chain)
    ensures forall v | v in r :: v in c && Kept(v, oldest)
  {
    if c == [] then []
    else (if Kept(c[0], oldest) then [c[0]] else []) + PruneChain(c[1..], oldest)
  }

  lemma {:induction false} PruneAllKept(c: Chain, oldest: nat)
    requires forall v | v in c :: Kept(v, oldest)
    ensures PruneChain(c, oldest) == c
  {
    if c != [] {
      assert c[0] in c;
      PruneAllKept(c[1..], oldest);
    }
  }

  /** If the first version is kept, so are the later ones. */
  lemma AllKept(c: Chain, oldest: nat, csn: nat)
    requires c != [] && Kept(c[0], oldest) && forall i | 0 <= i < |c| :: VersionOk(c[i], csn)
    requires forall i, j | 0 <= i < j < |c| :: Precedes(c[i], c[j])
    ensures forall i | 0 <= i < |c| :: Kept(c[i], oldest)
  {
    forall i | 0 <= i < |c|
      ensures Kept(c[i], oldest)
    {
      assert VersionOk(c[i], csn);
      assert i > 0 ==> Precedes(c[0], c[i]);
    }
  }

  /** Pruning drops a prefix: exactly the versions that ended by `oldest`. */
  lemma {:induction false} PruneSuffix(c: Chain, oldest: nat, csn: nat) returns (k: nat)
    requires forall i | 0 <= i < |c| :: VersionOk(c[i], csn)
    requires forall i, j | 0 <= i < j < |c| :: Precedes(c[i], c[j])
    ensures k <= |c| && PruneChain(c, oldest) == c[k..]
    ensures forall i | 0 <= i < k :: !Kept(c[i], oldest)
    ensures forall i | k <= i < |c| :: Kept(c[i], oldest)
  {
    if c == [] {
      k := 0;
    } else if Kept(c[0], oldest) {
      k := 0;
      AllKept(c, oldest, csn);
      PruneAllKept(c, oldest);
    } else {
      var t := c[1..];
      assert forall i | 0 <= i < |t| :: t[i] == c[i + 1];
      var n := PruneSuffix(t, oldest, csn);
      k := n + 1;
      assert forall i | 1 <= i < |c| :: c[i] == t[i - 1];
    }
  }

  /** What pruning leaves of a chain is still a chain with the same last version. */
  lemma PruneOk(c: Chain, csn: nat, floor: nat, oldest: nat)
    requires ChainOk(c, csn, floor)
    ensures var d := PruneChain(c, oldest);
      && (Open(c) ==> d != [])
      && (d != [] ==> ChainOk(d, csn, Max(floor, oldest)) && d[|d| - 1] == c[|c| - 1])
      && (d == [] ==> c[|c| - 1].end.Some? && c[|c| - 1].end.value <= oldest)
  {
    var k := PruneSuffix(c, oldest, csn);
    var d := c[k..];
    assert forall i | 0 <= i < |d| :: d[i] == c[k + i];
    if 0 < k < |c| {
      assert Continues(c[k - 1], c[k]);
      assert !Kept(c[k - 1], oldest);
    }
    if k == |c| {
      assert !Kept(c[k - 1], oldest);
    }
  }

  /** Snapshots from `oldest` on do not notice pruning. */
  lemma PruneKeepsRecent(c: Chain, csn: nat, floor: nat, oldest: nat, s: nat)
    requires ChainOk(c, csn, floor) && oldest <= s
    ensures Newest(PruneChain(c, oldest), s) == Newest(c, s)
  {
    var k := PruneSuffix(c, oldest, csn);
    assert forall i | 0 <= i < k :: !Kept(c[i], oldest) && !Sees(c[i], s);
    NewestDrops(c, k, s);
  }

  /** Versions that a snapshot does not see can be dropped from the front. */
  lemma {:induction false} NewestDrops(c: Chain, k: nat, s: nat)
    requires k <= |c| && forall i | 0 <= i < k :: !Sees(c[i], s)
    ensures Newest(c[k..], s) == Newest(c, s)
    decreases |c|
  {
    if k == |c| {
      NewestNone(c, s);
    } else if !Sees(c[|c| - 1], s) {
      var init := c[..|c| - 1];
      NewestDrops(init, k, s);
      assert c[k..][..|c| - k - 1] == init[k..];
    }
  }

  /** Pruning twice is pruning once, at the later bound. */
  lemma {:induction false} PruneTwice(c: Chain, a: nat, b: nat)
    requires a <= b
    ensures PruneChain(PruneChain(c, a), b) == PruneChain(c, b)
  {
    if c != [] {
      PruneTwice(c[1..], a, b);
      if Kept(c[0], a) {
        assert PruneChain(c, a) == [c[0]] + PruneChain(c[1..], a);
        assert PruneChain(c, a)[1..] == PruneChain(c[1..], a);
      } else {
        assert PruneChain(c, a) == PruneChain(c[1..], a);
        assert PruneChain(c, b) == PruneChain(c[1..], b);
      }
    }
  }

  // ---- What a snapshot sees of a table ----

  /** Row id to visible version at a snapshot. */
  function View(rows: map<nat, Chain>, csn: nat): map<nat, Seen> {
    map id | id in rows && Newest(rows[id], csn).Some? :: Newest(rows[id], csn).value
  }

  predicate Before(m: map<nat, Seen>, a: nat, b: nat)
    requires a in m && b in m
  {
    m[a].order < m[b].order || (m[a].order == m[b].order && a < b)
  }

  predicate IsFirst(m: map<nat, Seen>, id: nat) {
    id in m && forall j <- m :: j == id || Before(m, id, j)
  }

  lemma {:induction false} FirstExists(m: map<nat, Seen>) returns (id: nat)
    requires m != map[]
    ensures IsFirst(m, id)
    decreases |m|
  {
    var a :| a in m;
    var rest := m - {a};
    assert forall j <- m :: j == a || j in rest;
    if rest == map[] {
      id := a;
    } else {
      var b := FirstExists(rest);
      id := if Before(m, a, b) then a else b;
      forall j <- m | j != id
        ensures Before(m, id, j)
      {
        assert j == a || j in rest;
      }
    }
  }

  function First(m: map<nat, Seen>): (id: nat)
    requires m != map[]
    ensures IsFirst(m, id)
  {
    assert exists id :: IsFirst(m, id) by {
      var id := FirstExists(m);
    }
    var id :| IsFirst(m, id);
    id
  }

  function Without(m: map<nat, Seen>, id: nat): (r: map<nat, Seen>)
    requires id in m
    ensures r.Keys == m.Keys - {id} && |r| == |m| - 1
    ensures forall j <- r :: r[j] == m[j]
  {
    assert (m - {id}).Keys == m.Keys - {id};
    m - {id}
  }

  /** Visible rows in logical order: by `order`, then by row id. */
  function Ordered(m: map<nat, Seen>): (s: seq<(nat, Seen)>)
    decreases |m|
  {
    if m == map[] then [] else
    var id := First(m);
    [(id, m[id])] + Ordered(Without(m, id))
  }

  ghost predicate Entries(m: map<nat, Seen>, s: seq<(nat, Seen)>) {
    forall i | 0 <= i < |s| :: s[i].0 in m && s[i].1 == m[s[i].0]
  }

  /** A list of entries is the ordered list of a map. */
  ghost predicate IsOrdered(m: map<nat, Seen>, s: seq<(nat, Seen)>) {
    && Entries(m, s)
    && (forall i, j | 0 <= i < j < |s| :: Before(m, s[i].0, s[j].0))
    && (forall id <- m :: (id, m[id]) in s)
  }

  lemma {:induction false} OrderedIsOrdered(m: map<nat, Seen>)
    ensures IsOrdered(m, Ordered(m))
    decreases |m|
  {
    if m != map[] {
      OrderedIsOrdered(Without(m, First(m)));
      OrderedCons(m, First(m), Ordered(Without(m, First(m))));
    }
  }

  lemma OrderedCons(m: map<nat, Seen>, id: nat, t: seq<(nat, Seen)>)
    requires IsFirst(m, id) && IsOrdered(Without(m, id), t)
    ensures IsOrdered(m, [(id, m[id])] + t)
  {
    var rest := Without(m, id);
    var s := [(id, m[id])] + t;
    forall i, j | 0 <= i < j < |s|
      ensures s[j].0 in m && s[j].1 == m[s[j].0] && Before(m, s[i].0, s[j].0)
    {
      assert s[j] == t[j - 1];
      if i > 0 {
        assert s[i] == t[i - 1];
        assert Before(rest, t[i - 1].0, t[j - 1].0);
      }
    }
    forall j <- m
      ensures (j, m[j]) in s
    {
      if j != id {
        assert (j, rest[j]) in t;
      } else {
        assert s[0] == (j, m[j]);
      }
    }
  }

  /** There is only one ordered list of a map. */
  lemma {:induction false} OrderedUnique(m: map<nat, Seen>, s: seq<(nat, Seen)>)
    requires IsOrdered(m, s)
    ensures s == Ordered(m)
    decreases |m|
  {
    hide Before;
    if m == map[] {
      assert s == [];
    } else {
      FirstIsHead(m, s, First(m));
      OrderedTail(m, s);
      OrderedUnique(Without(m, First(m)), s[1..]);
      Halves(s, 1);
      assert s[..1] == [s[0]];
    }
  }

  lemma FirstIsHead(m: map<nat, Seen>, s: seq<(nat, Seen)>, id: nat)
    requires IsOrdered(m, s) && IsFirst(m, id)
    ensures s != [] && s[0] == (id, m[id])
  {
    assert (id, m[id]) in s;
    var i :| 0 <= i < |s| && s[i] == (id, m[id]);
  }

  lemma OrderedTail(m: map<nat, Seen>, s: seq<(nat, Seen)>)
    requires IsOrdered(m, s) && s != []
    ensures IsOrdered(Without(m, s[0].0), s[1..])
  {
    var rest := Without(m, s[0].0);
    var t := s[1..];
    forall i | 0 <= i < |t|
      ensures t[i].0 in rest && t[i].1 == rest[t[i].0]
    {
      assert t[i] == s[i + 1];
      assert Before(m, s[0].0, s[i + 1].0);
    }
    forall i, j | 0 <= i < j < |t|
      ensures Before(rest, t[i].0, t[j].0)
    {
      assert Before(m, s[i + 1].0, s[j + 1].0);
    }
    forall id <- rest
      ensures (id, rest[id]) in t
    {
      assert (id, m[id]) in s;
      assert s == [s[0]] + t;
    }
  }

  /** mvcc.rs `visible`: the visible versions of a table in logical row order. */
  function Visible(h: History, csn: nat): seq<(nat, Seen)> {
    Ordered(View(h.rows, csn))
  }

  function RowsOf(entries: seq<(nat, Seen)>): (rows: seq<Row>)
    ensures |rows| == |entries|
  {
    seq(|entries|, i requires 0 <= i < |entries| => entries[i].1.row)
  }

  function IdsOf(entries: seq<(nat, Seen)>): (ids: seq<nat>)
    ensures |ids| == |entries|
  {
    seq(|entries|, i requires 0 <= i < |entries| => entries[i].0)
  }

  /** A table of the durable state at a snapshot; a removed history reads as empty. */
  function ViewAt(tables: Tables, table: nat, csn: nat): map<nat, Seen> {
    if table in tables then View(tables[table].rows, csn) else map[]
  }

  function RowsAt(tables: Tables, table: nat, csn: nat): seq<Row> {
    RowsOf(Ordered(ViewAt(tables, table, csn)))
  }
}
