/** What merging a plan into the current rows does to the rows of a table (mvcc.rs `plans`,
    `merged_ops`): appended rows are just added, and a table that still has the contents of
    the snapshot ends with exactly the wanted rows. */
module Merging {
  import opened Basics
  import opened Rows
  import opened Matching
  import opened Versions
  import opened Publish
  import opened Plans

  // ---- Lists that enumerate a map ----

  /** The list has every id of the map once, with its row. */
  ghost predicate Enumerates(a: seq<(nat, Row)>, m: map<nat, Row>) {
    && (forall i | 0 <= i < |a| :: a[i].0 in m && a[i].1 == m[a[i].0])
    && (forall i, j | 0 <= i < j < |a| :: a[i].0 != a[j].0)
    && (forall id <- m :: exists i | 0 <= i < |a| :: a[i].0 == id)
  }

  function RowsIn(a: seq<(nat, Row)>): (r: seq<Row>)
    ensures |r| == |a| && forall i | 0 <= i < |r| :: r[i] == a[i].1
  {
    seq(|a|, i requires 0 <= i < |a| => a[i].1)
  }

  function Cut(a: seq<(nat, Row)>, i: nat): (b: seq<(nat, Row)>)
    requires i < |a|
    ensures |b| == |a| - 1
  {
    a[..i] + a[i + 1..]
  }

  lemma CutEnumerates(a: seq<(nat, Row)>, m: map<nat, Row>, i: nat)
    requires Enumerates(a, m) && i < |a|
    ensures Enumerates(Cut(a, i), m - {a[i].0})
  {
    hide Cut;
    var b, m' := Cut(a, i), m - {a[i].0};
    forall j | 0 <= j < |b|
      ensures b[j].0 in m' && b[j].1 == m'[b[j].0]
    {
      CutAt(a, i, j);
    }
    forall id <- m'
      ensures exists j | 0 <= j < |b| :: b[j].0 == id
    {
      var k :| 0 <= k < |a| && a[k].0 == id;
      CutAt(a, i, if k < i then k else k - 1);
    }
    forall j, k | 0 <= j < k < |b|
      ensures b[j].0 != b[k].0
    {
      CutAt(a, i, j);
      CutAt(a, i, k);
    }
  }

  lemma CutAt(a: seq<(nat, Row)>, i: nat, j: nat)
    requires i < |a| && j < |a| - 1
    ensures Cut(a, i)[j] == a[if j < i then j else j + 1]
  {
  }

  lemma CutRows(a: seq<(nat, Row)>, i: nat)
    requires i < |a|
    ensures multiset(RowsIn(a)) == multiset(RowsIn(Cut(a, i))) + multiset{a[i].1}
  {
    var r := RowsIn(a);
    Around(r, i);
    assert RowsIn(Cut(a, i)) == r[..i] + r[i + 1..];
    assert multiset(r[..i] + [r[i]] + r[i + 1..]) == multiset(r[..i]) + multiset{r[i]} + multiset(r[i + 1..]);
  }

  lemma {:induction false} ListLength(a: seq<(nat, Row)>, m: map<nat, Row>)
    requires Enumerates(a, m)
    ensures |a| == |m|
    decreases |a|
  {
    if a == [] {
      assert m.Keys == {};
    } else {
      CutEnumerates(a, m, 0);
      ListLength(Cut(a, 0), m - {a[0].0});
      assert (m - {a[0].0}).Keys == m.Keys - {a[0].0} && a[0].0 in m.Keys;
      assert |m.Keys| == |m| && |(m - {a[0].0}).Keys| == |m - {a[0].0}|;
    }
  }

  /** Two lists of one map have the same rows. */
  lemma {:induction false} SameRows(a: seq<(nat, Row)>, b: seq<(nat, Row)>, m: map<nat, Row>)
    requires Enumerates(a, m) && Enumerates(b, m)
    ensures multiset(RowsIn(a)) == multiset(RowsIn(b))
    decreases |a|
  {
    if a == [] {
      ListLength(a, m);
      ListLength(b, m);
    } else {
      assert a[0].0 in m;
      var i :| 0 <= i < |b| && b[i].0 == a[0].0;
      CutEnumerates(a, m, 0);
      CutEnumerates(b, m, i);
      SameRows(Cut(a, 0), Cut(b, i), m - {a[0].0});
      CutRows(a, 0);
      CutRows(b, i);
    }
  }

  // ---- A table as a map from id to row ----

  function Contents(view: map<nat, Seen>): map<nat, Row> {
    map id | id in view :: view[id].row
  }

  function Pairs(shown: seq<(nat, Seen)>): (r: seq<(nat, Row)>)
    ensures |r| == |shown| && forall i | 0 <= i < |r| :: r[i] == (shown[i].0, shown[i].1.row)
  {
    seq(|shown|, i requires 0 <= i < |shown| => (shown[i].0, shown[i].1.row))
  }

  lemma PairsEnumerate(view: map<nat, Seen>)
    ensures Enumerates(Pairs(Ordered(view)), Contents(view)) && RowsIn(Pairs(Ordered(view))) == RowsOf(Ordered(view))
  {
    hide Ordered, Distinct;
    OrderedIsOrdered(view);
    OrderedDistinct(view);
    ListEnumerates(view, Ordered(view));
  }

  lemma ListEnumerates(view: map<nat, Seen>, s: seq<(nat, Seen)>)
    requires IsOrdered(view, s) && Distinct(IdsOf(s))
    ensures Enumerates(Pairs(s), Contents(view)) && RowsIn(Pairs(s)) == RowsOf(s)
  {
    hide Before;
    var p := Pairs(s);
    forall id <- view
      ensures exists i | 0 <= i < |p| :: p[i].0 == id
    {
      assert (id, view[id]) in s;
      var i :| 0 <= i < |s| && s[i] == (id, view[id]);
      assert p[i].0 == id;
    }
    forall i, j | 0 <= i < j < |p|
      ensures p[i].0 != p[j].0
    {
      assert IdsOf(s)[i] != IdsOf(s)[j];
    }
  }

  /** Equal contents are equal rows, apart from their order. */
  lemma SameContentsSameRows(a: map<nat, Seen>, b: map<nat, Seen>)
    requires Contents(a) == Contents(b)
    ensures multiset(RowsOf(Ordered(a))) == multiset(RowsOf(Ordered(b)))
  {
    PairsEnumerate(a);
    PairsEnumerate(b);
    SameRows(Pairs(Ordered(a)), Pairs(Ordered(b)), Contents(a));
  }

  // ---- Merging into unchanged contents ----

  /** The wanted rows that stand unaltered under their id. */
  function Kept(base: map<nat, Seen>, ids: seq<Option<nat>>, rows: seq<Row>): seq<(nat, Row)>
    requires |ids| == |rows|
  {
    if rows == [] then []
    else (if Altered(base, ids[0], rows[0]) then [] else [(ids[0].value, rows[0])]) + Kept(base, ids[1..], rows[1..])
  }

  lemma {:induction false} KeptAndAppended(base: map<nat, Seen>, ids: seq<Option<nat>>, rows: seq<Row>)
    requires |ids| == |rows|
    ensures multiset(rows) == multiset(RowsIn(Kept(base, ids, rows))) + multiset(Appended(base, ids, rows))
    decreases |rows|
  {
    if rows != [] {
      KeptAndAppended(base, ids[1..], rows[1..]);
      Halves(rows, 1);
      assert rows[..1] == [rows[0]];
      var rest := Kept(base, ids[1..], rows[1..]);
      if !Altered(base, ids[0], rows[0]) {
        assert RowsIn([(ids[0].value, rows[0])] + rest) == [rows[0]] + RowsIn(rest);
      } else {
        assert [] + rest == rest;
      }
    }
  }

  ghost predicate KeptAt(base: map<nat, Seen>, ids: seq<Option<nat>>, rows: seq<Row>, j: nat, p: (nat, Row))
    requires |ids| == |rows| && j < |rows|
  {
    !Altered(base, ids[j], rows[j]) && p == (ids[j].value, rows[j])
  }

  lemma {:induction false} KeptIn(base: map<nat, Seen>, ids: seq<Option<nat>>, rows: seq<Row>, j: nat)
    requires |ids| == |rows| && j < |rows| && !Altered(base, ids[j], rows[j])
    ensures (ids[j].value, rows[j]) in Kept(base, ids, rows)
    decreases |rows|
  {
    if j > 0 {
      KeptIn(base, ids[1..], rows[1..], j - 1);
    }
  }

  lemma {:induction false} KeptFrom(base: map<nat, Seen>, ids: seq<Option<nat>>, rows: seq<Row>, p: (nat, Row)) returns (j: nat)
    requires |ids| == |rows| && p in Kept(base, ids, rows)
    ensures j < |rows| && KeptAt(base, ids, rows, j, p)
    decreases |rows|
  {
    if !Altered(base, ids[0], rows[0]) && p == (ids[0].value, rows[0]) {
      j := 0;
    } else {
      var k := KeptFrom(base, ids[1..], rows[1..], p);
      j := k + 1;
    }
  }

  lemma {:induction false} KeptDistinct(base: map<nat, Seen>, ids: seq<Option<nat>>, rows: seq<Row>)
    requires |ids| == |rows| && Injective(ids)
    ensures forall i, j | 0 <= i < j < |Kept(base, ids, rows)| :: Kept(base, ids, rows)[i].0 != Kept(base, ids, rows)[j].0
    decreases |rows|
  {
    if rows != [] {
      var rest := Kept(base, ids[1..], rows[1..]);
      assert forall i | 0 <= i < |ids[1..]| :: ids[1..][i] == ids[i + 1];
      KeptDistinct(base, ids[1..], rows[1..]);
      if !Altered(base, ids[0], rows[0]) {
        forall k | 0 <= k < |rest|
          ensures rest[k].0 != ids[0].value
        {
          var j := KeptFrom(base, ids[1..], rows[1..], rest[k]);
          assert ids[j + 1].Some? && ids[0] != ids[j + 1];
        }
      }
    }
  }

  /** The contents that a change leaves alone. */
  function Untouched(view: map<nat, Seen>, gone: set<nat>): map<nat, Row> {
    map id | id in view && id !in gone :: view[id].row
  }

  lemma KeptEnumerates(base: map<nat, Seen>, c: Change)
    requires |c.ids| == |c.rows| && Injective(c.ids) && RetainedIds(c.ids) <= base.Keys && c.removed == base.Keys - RetainedIds(c.ids)
    ensures Enumerates(Kept(base, c.ids, c.rows), Untouched(base, Touched(base, c)))
  {
    var kept, m := Kept(base, c.ids, c.rows), Untouched(base, Touched(base, c));
    KeptDistinct(base, c.ids, c.rows);
    forall i | 0 <= i < |kept|
      ensures kept[i].0 in m && kept[i].1 == m[kept[i].0]
    {
      var j := KeptFrom(base, c.ids, c.rows, kept[i]);
      UnalteredStays(base, c, j);
    }
    forall id <- m
      ensures exists i | 0 <= i < |kept| :: kept[i].0 == id
    {
      assert id in RetainedIds(c.ids);
      var j :| 0 <= j < |c.ids| && c.ids[j].Some? && c.ids[j].value == id;
      KeptIn(base, c.ids, c.rows, j);
    }
  }

  lemma UnalteredStays(base: map<nat, Seen>, c: Change, j: nat)
    requires |c.ids| == |c.rows| && Injective(c.ids) && c.removed == base.Keys - RetainedIds(c.ids)
    requires j < |c.rows| && !Altered(base, c.ids[j], c.rows[j])
    ensures c.ids[j].Some? && c.ids[j].value in Untouched(base, Touched(base, c)) && Untouched(base, Touched(base, c))[c.ids[j].value] == c.rows[j]
  {
    var id := c.ids[j].value;
    assert id in RetainedIds(c.ids);
    forall k | 0 <= k < |c.ids| && c.ids[k] == Some(id)
      ensures k == j
    {
    }
  }

  function SurvivorPairs(shown: seq<(nat, Seen)>, gone: set<nat>): seq<(nat, Row)> {
    if shown == [] then []
    else (if shown[0].0 in gone then [] else [(shown[0].0, shown[0].1.row)]) + SurvivorPairs(shown[1..], gone)
  }

  lemma {:induction false} SurvivorRows(shown: seq<(nat, Seen)>, gone: set<nat>)
    ensures RowsIn(SurvivorPairs(shown, gone)) == Survivors(shown, gone)
  {
    if shown != [] {
      SurvivorRows(shown[1..], gone);
      var rest := SurvivorPairs(shown[1..], gone);
      if shown[0].0 !in gone {
        assert RowsIn([(shown[0].0, shown[0].1.row)] + rest) == [shown[0].1.row] + RowsIn(rest);
      } else {
        assert [] + rest == rest;
      }
    }
  }

  lemma {:induction false} SurvivorIn(shown: seq<(nat, Seen)>, gone: set<nat>, p: (nat, Row))
    ensures p in SurvivorPairs(shown, gone) <==> p in Pairs(shown) && p.0 !in gone
  {
    if shown != [] {
      SurvivorIn(shown[1..], gone, p);
      assert Pairs(shown) == [(shown[0].0, shown[0].1.row)] + Pairs(shown[1..]);
    }
  }

  lemma {:induction false} SurvivorDistinct(shown: seq<(nat, Seen)>, gone: set<nat>)
    requires Distinct(IdsOf(shown))
    ensures forall i, j | 0 <= i < j < |SurvivorPairs(shown, gone)| :: SurvivorPairs(shown, gone)[i].0 != SurvivorPairs(shown, gone)[j].0
  {
    if shown != [] {
      var rest := SurvivorPairs(shown[1..], gone);
      assert forall i | 0 <= i < |shown[1..]| :: IdsOf(shown[1..])[i] == IdsOf(shown)[i + 1];
      SurvivorDistinct(shown[1..], gone);
      forall k | 0 <= k < |rest|
        ensures rest[k].0 != shown[0].0
      {
        SurvivorIn(shown[1..], gone, rest[k]);
        var i :| 0 <= i < |shown[1..]| && Pairs(shown[1..])[i] == rest[k];
        assert IdsOf(shown)[i + 1] == rest[k].0 && IdsOf(shown)[0] == shown[0].0;
      }
    }
  }

  lemma SurvivorsEnumerate(view: map<nat, Seen>, gone: set<nat>)
    ensures Enumerates(SurvivorPairs(Ordered(view), gone), Untouched(view, gone))
  {
    hide Ordered, Distinct, Enumerates;
    PairsEnumerate(view);
    OrderedDistinct(view);
    SurvivorDistinct(Ordered(view), gone);
    SurvivorsOf(view, Ordered(view), gone);
  }

  lemma SurvivorsOf(view: map<nat, Seen>, shown: seq<(nat, Seen)>, gone: set<nat>)
    requires Enumerates(Pairs(shown), Contents(view))
    requires forall i, j | 0 <= i < j < |SurvivorPairs(shown, gone)| :: SurvivorPairs(shown, gone)[i].0 != SurvivorPairs(shown, gone)[j].0
    ensures Enumerates(SurvivorPairs(shown, gone), Untouched(view, gone))
  {
    var ps, m := SurvivorPairs(shown, gone), Untouched(view, gone);
    forall i | 0 <= i < |ps|
      ensures ps[i].0 in m && ps[i].1 == m[ps[i].0]
    {
      SurvivorIn(shown, gone, ps[i]);
      var k :| 0 <= k < |shown| && Pairs(shown)[k] == ps[i];
    }
    forall id <- m
      ensures exists i | 0 <= i < |ps| :: ps[i].0 == id
    {
      assert id in Contents(view);
      var k :| 0 <= k < |Pairs(shown)| && Pairs(shown)[k].0 == id;
      SurvivorIn(shown, gone, Pairs(shown)[k]);
    }
  }

  /** If the table still has the contents of the snapshot, the merged table has exactly the
      wanted rows, whatever happened to their order. */
  lemma MergedIsWanted(base: map<nat, Seen>, current: map<nat, Seen>, rows: seq<Row>)
    requires Contents(base) == Contents(current)
    ensures var c := ChangeOf(Ordered(base), rows);
      multiset(Survivors(Ordered(current), Touched(base, c)) + Appended(base, c.ids, rows)) == multiset(rows)
  {
    hide Ordered, ChangeOf, Survivors, Appended;
    var c := ChangeOf(Ordered(base), rows);
    ChangePartition(base, rows);
    var gone := Touched(base, c);
    KeptEnumerates(base, c);
    SurvivorsEnumerate(current, gone);
    SameUntouched(base, current, gone);
    SameRows(SurvivorPairs(Ordered(current), gone), Kept(base, c.ids, rows), Untouched(base, gone));
    SurvivorRows(Ordered(current), gone);
    KeptAndAppended(base, c.ids, rows);
  }

  lemma SameUntouched(base: map<nat, Seen>, current: map<nat, Seen>, gone: set<nat>)
    requires Contents(base) == Contents(current)
    ensures Untouched(base, gone) == Untouched(current, gone)
  {
    assert base.Keys == Contents(base).Keys && current.Keys == Contents(current).Keys;
    forall id <- base
      ensures id in current && base[id].row == current[id].row
    {
      assert Contents(base)[id] == Contents(current)[id];
    }
  }

  // ---- Appending ----

  lemma {:induction false} NothingFree(stored: seq<Row>, used: set<nat>, row: Row, from: nat)
    requires from <= |stored| && forall p | 0 <= p < |stored| :: p in used
    ensures FirstFree(stored, used, row, from) == None
    decreases |stored| - from
  {
    if from < |stored| {
      NothingFree(stored, used, row, from + 1);
    }
  }

  lemma {:induction false} MatchNone(stored: seq<Row>, rows: seq<Row>, used: set<nat>)
    requires forall p | 0 <= p < |stored| :: p in used
    ensures forall j | 0 <= j < |rows| :: Match(stored, rows, used)[j] == None
    decreases |rows|
  {
    if rows != [] {
      NothingFree(stored, used, rows[0], 0);
      MatchNone(stored, rows[1..], used);
    }
  }

  lemma OwnPlace(stored: seq<Row>, used: set<nat>, from: nat)
    requires from < |stored| && forall p :: p in used <==> 0 <= p < from
    ensures FirstFree(stored, used, stored[from], 0) == Some(from)
  {
    assert Fits(stored[from], stored[from]);
  }

  /** The first `n` places from `from` on, then nothing. */
  ghost predicate OwnThenNone(priors: seq<Option<nat>>, from: nat, n: nat) {
    forall j | 0 <= j < |priors| :: priors[j] == if j < n then Some(from + j) else None
  }

  lemma OwnFirst(rest: seq<Option<nat>>, from: nat, n: nat)
    requires OwnThenNone(rest, from + 1, n)
    ensures OwnThenNone([Some(from)] + rest, from, n + 1)
  {
    var all := [Some(from)] + rest;
    forall j | 0 <= j < |all|
      ensures all[j] == if j < n + 1 then Some(from + j) else None
    {
      if j > 0 {
        assert all[j] == rest[j - 1];
      }
    }
  }

  /** A list followed by more rows takes itself, and the rest takes nothing. */
  lemma {:induction false} MatchAppended(stored: seq<Row>, extra: seq<Row>, from: nat, used: set<nat>)
    requires from <= |stored| && forall p :: p in used <==> 0 <= p < from
    ensures OwnThenNone(Match(stored, stored[from..] + extra, used), from, |stored| - from)
    decreases |stored| - from
  {
    if from == |stored| {
      assert stored[from..] + extra == extra;
      MatchNone(stored, extra, used);
    } else {
      OwnPlace(stored, used, from);
      var rows, tail := stored[from..] + extra, stored[from + 1..] + extra;
      assert rows[0] == stored[from] && rows[1..] == tail;
      MatchAppended(stored, extra, from + 1, used + {from});
      OwnFirst(Match(stored, tail, used + {from}), from, |stored| - from - 1);
    }
  }

  lemma {:induction false} NoLeftover(shown: seq<(nat, Seen)>, taken: seq<Option<nat>>)
    requires forall i | 0 <= i < |shown| :: Some(shown[i].0) in taken
    ensures Leftover(shown, taken) == []
  {
    if shown != [] {
      NoLeftover(shown[1..], taken);
    }
  }

  lemma {:induction false} PairNothing(ids: seq<Option<nat>>, rows: seq<Row>)
    requires |ids| == |rows|
    ensures Pair(ids, rows, []) == ids
  {
    if rows != [] {
      PairNothing(ids[1..], rows[1..]);
    }
  }

  lemma {:induction false} AppendsOnly(base: map<nat, Seen>, ids: seq<Option<nat>>, rows: seq<Row>, n: nat)
    requires |ids| == |rows| && n <= |rows|
    requires forall j | 0 <= j < n :: !Altered(base, ids[j], rows[j])
    requires forall j | n <= j < |rows| :: ids[j] == None
    ensures Appended(base, ids, rows) == rows[n..]
    decreases |rows|
  {
    if rows != [] {
      if n == 0 {
        AppendsOnly(base, ids[1..], rows[1..], 0);
        Halves(rows, 1);
        assert rows[0..] == rows;
      } else {
        AppendsOnly(base, ids[1..], rows[1..], n - 1);
        assert rows[1..][n - 1..] == rows[n..];
      }
    }
  }

  /** What a plan that only appends looks like. */
  ghost predicate SelfPlus(shown: seq<(nat, Seen)>, ids: seq<Option<nat>>) {
    && |shown| <= |ids| && (forall j | 0 <= j < |shown| :: ids[j] == Some(shown[j].0))
    && (forall j | |shown| <= j < |ids| :: ids[j] == None)
  }

  lemma AppendIds(shown: seq<(nat, Seen)>, extra: seq<Row>)
    ensures SelfPlus(shown, ChangeOf(shown, RowsOf(shown) + extra).ids)
    ensures ChangeOf(shown, RowsOf(shown) + extra).rows == RowsOf(shown) + extra
    ensures ChangeOf(shown, RowsOf(shown) + extra).removed == {}
  {
    var stored := RowsOf(shown);
    var rows := stored + extra;
    MatchInjective(stored, rows, {});
    assert stored[0..] == stored;
    MatchAppended(stored, extra, 0, {});
    assert OwnThenNone(Match(stored, rows, {}), 0, |stored|);
    var first := Matched(IdsOf(shown), Match(stored, rows, {}));
    assert SelfPlus(shown, first);
    forall i | 0 <= i < |shown|
      ensures Some(shown[i].0) in first
    {
      assert first[i] == Some(shown[i].0);
    }
    NoLeftover(shown, first);
    PairNothing(first, rows);
    AllRetained(shown, first);
  }

  lemma AllRetained(shown: seq<(nat, Seen)>, ids: seq<Option<nat>>)
    requires SelfPlus(shown, ids)
    ensures (set i | i in IdsOf(shown)) - RetainedIds(ids) == {}
  {
    forall id | id in IdsOf(shown)
      ensures id in RetainedIds(ids)
    {
      var j :| 0 <= j < |shown| && IdsOf(shown)[j] == id;
      assert ids[j] == Some(id);
    }
  }

  /** Appending touches no row, and appends exactly the new rows. */
  lemma AppendTouchesNothing(view: map<nat, Seen>, extra: seq<Row>)
    ensures var c := ChangeOf(Ordered(view), RowsOf(Ordered(view)) + extra);
      Touched(view, c) == {} && Appended(view, c.ids, c.rows) == extra
  {
    hide Ordered, ChangeOf;
    var shown := Ordered(view);
    AppendIds(shown, extra);
    OrderedIsOrdered(view);
    SelfUnaltered(view, shown, extra, ChangeOf(shown, RowsOf(shown) + extra));
  }

  lemma SelfUnaltered(view: map<nat, Seen>, shown: seq<(nat, Seen)>, extra: seq<Row>, c: Change)
    requires IsOrdered(view, shown) && |c.ids| == |c.rows| && SelfPlus(shown, c.ids) && c.rows == RowsOf(shown) + extra && c.removed == {}
    ensures Touched(view, c) == {} && Appended(view, c.ids, c.rows) == extra
  {
    hide Before;
    forall j | 0 <= j < |shown|
      ensures !Altered(view, c.ids[j], c.rows[j])
    {
      assert shown[j].0 in view && shown[j].1 == view[shown[j].0];
    }
    AppendsOnly(view, c.ids, c.rows, |shown|);
  }
}
