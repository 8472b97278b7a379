/** Range scans of the B+ tree (btree.rs): descending to the first leaf and walking the
    leaf chain. */
module BTreeScan {
  import opened Basics
  import opened BTree
  import opened BTreeOrder
  import opened BTreeChain

  // ---- Leaves ----

  /** The leaves of a tree from left to right. */
  function Leaves(t: Tree): seq<Tree>
    requires Shape(t)
    decreases t, 1
  {
    if t.Leaf? then [t] else LeavesAll(t.kids)
  }

  function LeavesAll(kids: seq<Tree>): seq<Tree>
    requires AllShape(kids)
    decreases kids, 0
  {
    if kids == [] then [] else Leaves(kids[0]) + LeavesAll(kids[1..])
  }

  predicate AllLeaves(ls: seq<Tree>) {
    forall i | 0 <= i < |ls| :: ls[i].Leaf? && |ls[i].keys| == |ls[i].vals|
  }

  lemma {:induction false} LeavesAreLeaves(t: Tree)
    requires Shape(t)
    ensures AllLeaves(Leaves(t)) && AllShape(Leaves(t)) && Leaves(t) != [] && Leaves(t)[0].id == First(t)
    ensures EntriesAll(Leaves(t)) == Entries(t)
    decreases t, 1
  {
    if t.Leaf? {
      EntriesOne(t);
    } else {
      KidsLeaves(t.kids, t);
    }
  }

  lemma {:induction false} KidsLeaves(kids: seq<Tree>, t: Tree)
    requires AllShape(kids) && forall i | 0 <= i < |kids| :: kids[i] < t
    ensures AllLeaves(LeavesAll(kids)) && AllShape(LeavesAll(kids)) && EntriesAll(LeavesAll(kids)) == EntriesAll(kids)
    ensures kids != [] ==> LeavesAll(kids) != [] && LeavesAll(kids)[0].id == First(kids[0])
    decreases t, 0, |kids|
  {
    if kids != [] {
      LeavesAreLeaves(kids[0]);
      KidsLeaves(kids[1..], t);
      EntriesSplit(Leaves(kids[0]), LeavesAll(kids[1..]));
    }
  }

  lemma {:induction false} LeavesSplit(a: seq<Tree>, b: seq<Tree>)
    requires AllShape(a) && AllShape(b)
    ensures LeavesAll(a + b) == LeavesAll(a) + LeavesAll(b)
    decreases |a|
  {
    if a == [] {
      assert a + b == b;
    } else {
      assert (a + b)[1..] == a[1..] + b;
      LeavesSplit(a[1..], b);
    }
  }

  lemma LeavesAround(kids: seq<Tree>, c: nat)
    requires AllShape(kids) && c < |kids|
    ensures LeavesAll(kids) == LeavesAll(kids[..c]) + Leaves(kids[c]) + LeavesAll(kids[c + 1..])
  {
    hide Shape, LeavesAll, Leaves;
    LeavesAroundOne(kids[..c], kids[c], kids[c + 1..]);
    Around(kids, c);
  }

  lemma LeavesOne(t: Tree)
    requires Shape(t)
    ensures LeavesAll([t]) == Leaves(t)
  {
    assert [t][1..] == [];
    assert LeavesAll([t]) == Leaves(t) + LeavesAll([]);
  }

  lemma LeavesAroundOne(a: seq<Tree>, t: Tree, b: seq<Tree>)
    requires AllShape(a) && Shape(t) && AllShape(b)
    ensures LeavesAll(a + ([t] + b)) == LeavesAll(a) + Leaves(t) + LeavesAll(b)
  {
    LeavesSplit(a, [t] + b);
    LeavesSplit([t], b);
    LeavesOne(t);
    hide LeavesAll, Leaves;
    Assoc(LeavesAll(a), Leaves(t), LeavesAll(b));
  }

  /** Each leaf points to the next of the list, the last to `exit`. */
  predicate Chained(ls: seq<Tree>, exit: nat) {
    forall i | 0 <= i < |ls| :: ls[i].Leaf? && ls[i].next == NextOf(ls, exit, i)
  }

  function NextOf(ls: seq<Tree>, exit: nat, i: nat): nat
    requires i < |ls|
  {
    if i + 1 < |ls| then ls[i + 1].id else exit
  }

  lemma ChainedConcat(a: seq<Tree>, b: seq<Tree>, exit: nat)
    requires Chained(b, exit) && Chained(a, if b == [] then exit else b[0].id)
    ensures Chained(a + b, exit)
  {
    var ls := a + b;
    forall i | 0 <= i < |ls|
      ensures ls[i].Leaf? && ls[i].next == NextOf(ls, exit, i)
    {
      if i < |a| {
        assert a[i].next == NextOf(a, if b == [] then exit else b[0].id, i);
      } else {
        assert b[i - |a|].next == NextOf(b, exit, i - |a|);
      }
    }
  }

  /** In a linked tree the chain runs through the leaves in order. */
  lemma {:induction false} LinkedChained(t: Tree, exit: nat)
    requires Shape(t) && Linked(t, exit)
    ensures Chained(Leaves(t), exit)
    decreases t, 1
  {
    if t.Node? {
      KidsChained(t.kids, exit, t);
    }
  }

  lemma {:induction false} KidsChained(kids: seq<Tree>, exit: nat, t: Tree)
    requires AllShape(kids) && LinkedKids(kids, exit) && forall i | 0 <= i < |kids| :: kids[i] < t
    ensures Chained(LeavesAll(kids), exit)
    decreases t, 0, |kids|
  {
    if kids != [] {
      LinkedChained(kids[0], ExitAt(kids, exit, 0));
      LinkedTail(kids, exit);
      KidsChained(kids[1..], exit, t);
      KidsLeaves(kids[1..], t);
      assert kids[1..] != [] ==> kids[1..][0] == kids[1];
      ChainedConcat(Leaves(kids[0]), LeavesAll(kids[1..]), exit);
    }
  }

  lemma LinkedTail(kids: seq<Tree>, exit: nat)
    requires kids != [] && AllShape(kids) && LinkedKids(kids, exit)
    ensures AllShape(kids[1..]) && LinkedKids(kids[1..], exit)
  {
    forall i | 0 <= i < |kids[1..]|
      ensures Linked(kids[1..][i], ExitAt(kids[1..], exit, i))
    {
      assert kids[1..][i] == kids[i + 1] && ExitAt(kids[1..], exit, i) == ExitAt(kids, exit, i + 1);
    }
  }

  // ---- The first leaf of a scan ----

  /** The child a scan descends into. */
  function ScanChild(keys: seq<Key>, lo: Option<Key>): (c: nat)
    ensures c <= |keys|
  {
    if lo.None? then 0 else Below(keys, lo.value)
  }

  function StartLeaf(t: Tree, lo: Option<Key>): (leaf: Tree)
    requires Shape(t)
    ensures leaf.Leaf?
    decreases t
  {
    if t.Leaf? then t else StartLeaf(t.kids[ScanChild(t.keys, lo)], lo)
  }

  predicate AllBelow(s: seq<Entry>, lo: Option<Key>) {
    forall i | 0 <= i < |s| :: lo.Some? && s[i].0 < lo.value
  }

  /** Everything left of the starting leaf is below the range. */
  lemma {:induction false} StartAt(t: Tree, lo: Option<Key>, a: int, b: int, max: nat) returns (j: nat)
    requires Shape(t) && Ordered(t, a, b, max)
    ensures j < |Leaves(t)| && Leaves(t)[j] == StartLeaf(t, lo)
    ensures AllShape(Leaves(t)[..j]) && AllBelow(EntriesAll(Leaves(t)[..j]), lo)
    decreases t
  {
    LeavesAreLeaves(t);
    if t.Leaf? {
      j := 0;
    } else {
      var c := ScanChild(t.keys, lo);
      var k := StartAt(t.kids[c], lo, LoAt(t.keys, a, c), HiAt(t.keys, b, c), max);
      var left := LeavesAll(t.kids[..c]);
      LeavesAround(t.kids, c);
      j := |left| + k;
      PrefixOf(left, Leaves(t.kids[c]), LeavesAll(t.kids[c + 1..]), k);
      LeftKidsBelow(t, c, lo, a, b, max);
      BelowConcat(left, Leaves(t.kids[c])[..k], lo);
    }
  }

  lemma PrefixOf(a: seq<Tree>, b: seq<Tree>, c: seq<Tree>, k: nat)
    requires k < |b|
    ensures (a + b + c)[..|a| + k] == a + b[..k] && (a + b + c)[|a| + k] == b[k]
  {
  }

  lemma BelowConcat(a: seq<Tree>, b: seq<Tree>, lo: Option<Key>)
    requires AllShape(a) && AllShape(b) && AllBelow(EntriesAll(a), lo) && AllBelow(EntriesAll(b), lo)
    ensures AllShape(a + b) && AllBelow(EntriesAll(a + b), lo)
  {
    EntriesSplit(a, b);
  }

  lemma LeftKidsBelow(t: Tree, c: nat, lo: Option<Key>, a: int, b: int, max: nat)
    requires Shape(t) && t.Node? && Ordered(t, a, b, max) && c == ScanChild(t.keys, lo)
    ensures AllShape(LeavesAll(t.kids[..c])) && AllBelow(EntriesAll(LeavesAll(t.kids[..c])), lo)
  {
    var kids := t.kids[..c];
    KidsLeaves(kids, t);
    var es := EntriesAll(kids);
    forall i | 0 <= i < |es|
      ensures lo.Some? && es[i].0 < lo.value
    {
      assert es[i] in EntriesAll(kids);
      var k := EntryChild(kids, es[i]);
      OrderedSorted(kids[k], LoAt(t.keys, a, k), HiAt(t.keys, b, k), max);
    }
  }

  /** The leftmost leaf is where an unbounded scan starts, whatever the keys are. */
  lemma {:induction false} StartUnbounded(t: Tree)
    requires Shape(t)
    ensures Leaves(t) != [] && StartLeaf(t, None) == Leaves(t)[0]
    decreases t
  {
    LeavesAreLeaves(t);
    if t.Node? {
      StartUnbounded(t.kids[0]);
      LeavesAreLeaves(t.kids[0]);
    }
  }

  // ---- Collecting the range ----

  predicate InRange(e: Entry, lo: Option<Key>, hi: Option<Key>) {
    (lo.Some? ==> lo.value <= e.0) && (hi.Some? ==> e.0 <= hi.value)
  }

  /** The entries of the closed range, in order. */
  function Range(s: seq<Entry>, lo: Option<Key>, hi: Option<Key>): seq<Entry> {
    if s == [] then []
    else (if InRange(s[0], lo, hi) then [s[0]] else []) + Range(s[1..], lo, hi)
  }

  /** The walk of `scan`: skip what is below the range, stop at the first entry above it. */
  function Collect(s: seq<Entry>, lo: Option<Key>, hi: Option<Key>): seq<Entry> {
    if s == [] then []
    else if lo.Some? && s[0].0 < lo.value then Collect(s[1..], lo, hi)
    else if hi.Some? && hi.value < s[0].0 then []
    else [s[0]] + Collect(s[1..], lo, hi)
  }

  lemma {:induction false} RangeAbove(s: seq<Entry>, lo: Option<Key>, hi: Option<Key>)
    requires hi.Some? && forall i | 0 <= i < |s| :: hi.value < s[i].0
    ensures Range(s, lo, hi) == []
  {
    if s != [] {
      RangeAbove(s[1..], lo, hi);
    }
  }

  /** On a sorted list the walk collects exactly the range. */
  lemma {:induction false} CollectIsRange(s: seq<Entry>, lo: Option<Key>, hi: Option<Key>)
    requires SortedEntries(s)
    ensures Collect(s, lo, hi) == Range(s, lo, hi)
  {
    if s != [] {
      CollectIsRange(s[1..], lo, hi);
      if hi.Some? && hi.value < s[0].0 {
        RangeAbove(s[1..], lo, hi);
      }
    }
  }

  lemma {:induction false} CollectAll(s: seq<Entry>)
    ensures Collect(s, None, None) == s
  {
    if s != [] {
      CollectAll(s[1..]);
    }
  }

  lemma BelowTail(s: seq<Entry>, lo: Option<Key>)
    requires AllBelow(s, lo) && s != []
    ensures AllBelow(s[1..], lo) && lo.Some? && s[0].0 < lo.value
  {
    var tail, first := s[1..], s[0];
    assert 0 < |s| && first == s[0];
    forall i | 0 <= i < |tail|
      ensures lo.Some? && tail[i].0 < lo.value
    {
      assert tail[i] == s[i + 1];
      assert s[i + 1].0 < lo.value;
    }
  }

  lemma {:induction false} CollectSkips(a: seq<Entry>, b: seq<Entry>, lo: Option<Key>, hi: Option<Key>)
    requires AllBelow(a, lo)
    ensures Collect(a + b, lo, hi) == Collect(b, lo, hi)
  {
    if a == [] {
      assert a + b == b;
    } else {
      assert (a + b)[1..] == a[1..] + b;
      BelowTail(a, lo);
      CollectSkips(a[1..], b, lo, hi);
    }
  }

  /** The range holds exactly the entries between the bounds. */
  lemma {:induction false} RangeExact(s: seq<Entry>, lo: Option<Key>, hi: Option<Key>, e: Entry)
    ensures e in Range(s, lo, hi) <==> e in s && InRange(e, lo, hi)
  {
    if s != [] {
      RangeExact(s[1..], lo, hi, e);
    }
  }
}
