/** Repeated keys in the B+ tree (btree.rs). The place of a new right node is looked up by its
    key; for an even order, half the order plus one entries under one key are enough to put it
    in the wrong place. Then a deletion misses its entry and a range scan loses entries. */
module RepeatedKeys {
  import opened Basics
  import opened BTree
  import opened BTreeOrder
  import opened BTreeChain
  import opened BTreeScan
  import opened BTreePages
  import opened BTreeStore
  import opened IndexHistory

  /** `n` copies of a key. */
  function Same(k: Key, n: nat): (s: seq<Key>)
    ensures |s| == n && forall i | 0 <= i < n :: s[i] == k
  {
    seq(n, _ => k)
  }

  /** `n` positions from `v` on. */
  function From(v: nat, n: nat): (s: seq<nat>)
    ensures |s| == n && forall i | 0 <= i < n :: s[i] == v + i
  {
    seq(n, i requires 0 <= i < n => v + i)
  }

  function Adds(keys: seq<Key>): (ops: seq<IndexOp>)
    ensures |ops| == |keys| && forall i | 0 <= i < |ops| :: ops[i] == Add(keys[i], 1 + i)
  {
    seq(|keys|, i requires 0 <= i < |keys| => Add(keys[i], 1 + i))
  }

  // ---- The failing run for order 2h ----

  /** `h + 1` entries under 2, `h - 1` under 3, `h` under 1. */
  function BadKeys(h: nat): (s: seq<Key>)
    requires 2 <= h
    ensures |s| == 3 * h
  {
    Same(2, h + 1) + Same(3, h - 1) + Same(1, h)
  }

  function Limit(h: nat): nat
    requires 2 <= h
  {
    2 * h - 1
  }

  /** An entry behind all others goes to the end of the leaf. */
  lemma SlotEnd(keys: seq<Key>, vals: seq<nat>, key: Key, value: nat)
    requires |keys| == |vals| && PairsSorted(keys, vals)
    requires forall i | 0 <= i < |keys| :: keys[i] <= key && vals[i] < value
    ensures LeafSlot(keys, vals, key, value) == |keys|
  {
    SlotSorted(keys, vals, key, value);
  }

  /** The first leaf, filled in order. */
  function FirstLeafAt(h: nat, n: nat): Tree
    requires 2 <= h && n <= 2 * h
  {
    Leaf(1, 0, BadKeys(h)[..n], From(1, n))
  }

  lemma AppendedLeaf(h: nat, n: nat)
    requires 2 <= h && 0 < n < Limit(h)
    ensures Ins(FirstLeafAt(h, n), BadKeys(h)[n], 1 + n, Limit(h), 2) == Out(FirstLeafAt(h, n + 1), None, 2)
  {
    var keys, vals := BadKeys(h)[..n], From(1, n);
    SlotEnd(keys, vals, BadKeys(h)[n], 1 + n);
    assert InsertAt(keys, n, BadKeys(h)[n]) == BadKeys(h)[..n + 1];
    assert InsertAt(vals, n, 1 + n) == From(1, n + 1);
  }

  lemma {:induction false} FillFirst(h: nat, n: nat)
    requires 2 <= h && 0 < n <= Limit(h)
    ensures Run(Adds(BadKeys(h))[..n], Limit(h)) == Grown(Some(FirstLeafAt(h, n)), 2)
    decreases n
  {
    var ops := Adds(BadKeys(h));
    Longer(ops, n - 1);
    if n == 1 {
      assert ops[..0] == [];
      assert FirstLeafAt(h, 1) == Leaf(1, 0, [2], [1]);
    } else {
      FillFirst(h, n - 1);
      AppendedLeaf(h, n - 1);
    }
  }

  /** The leaf of the keys 2 and 3 behind the first separator. */
  function LeafUV(h: nat): Tree
    requires 2 <= h
  {
    Leaf(2, 0, [2] + Same(3, h - 1), From(h + 1, h))
  }

  /** The first leaf with `n` entries under 1 before its copies of 2. */
  function LeafW(h: nat, n: nat): Tree
    requires 2 <= h
  {
    Leaf(1, 2, Same(1, n) + Same(2, h), From(2 * h + 1, n) + From(1, h))
  }

  function SecondAt(h: nat, n: nat): Tree
    requires 2 <= h
  {
    Node(3, [2], [LeafW(h, n), LeafUV(h)])
  }

  lemma FirstCut(h: nat)
    requires 2 <= h
    ensures BadKeys(h)[..2 * h][..h] == Same(2, h) && BadKeys(h)[..2 * h][h..] == [2] + Same(3, h - 1)
    ensures From(1, 2 * h)[..h] == From(1, h) && From(1, 2 * h)[h..] == From(h + 1, h)
    ensures BadKeys(h)[2 * h - 1] == 3 && BadKeys(h)[..2 * h][h] == 2
  {
  }

  /** The first split leaves half the order of copies of its key on the left. */
  lemma FirstSplit(h: nat)
    requires 2 <= h
    ensures Run(Adds(BadKeys(h))[..2 * h], Limit(h)) == Grown(Some(SecondAt(h, 0)), 4)
  {
    hide Ins, LeafUV, FirstLeafAt, BadKeys;
    var ops, n := Adds(BadKeys(h)), Limit(h);
    Longer(ops, n);
    FillFirst(h, n);
    FirstOverflow(h);
    FirstHalf(h);
  }

  lemma FirstHalf(h: nat)
    requires 2 <= h
    ensures LeafW(h, 0) == Leaf(1, 2, Same(2, h), From(1, h))
  {
    assert Same(1, 0) + Same(2, h) == Same(2, h) && From(2 * h + 1, 0) + From(1, h) == From(1, h);
  }

  lemma FirstOverflow(h: nat)
    requires 2 <= h
    ensures var n := Limit(h);
      Ins(FirstLeafAt(h, n), BadKeys(h)[n], 1 + n, n, 2) ==
      Out(Leaf(1, 2, Same(2, h), From(1, h)), Some((2, LeafUV(h))), 3)
  {
    var n := Limit(h);
    var keys, vals := BadKeys(h)[..n], From(1, n);
    SlotEnd(keys, vals, BadKeys(h)[n], 1 + n);
    assert InsertAt(keys, n, BadKeys(h)[n]) == BadKeys(h)[..2 * h];
    assert InsertAt(vals, n, 1 + n) == From(1, 2 * h);
    FirstCut(h);
  }

  /** A smaller key goes behind its copies, before the copies of 2. */
  lemma SlotMiddle(h: nat, n: nat)
    requires 2 <= h
    ensures LeafSlot(LeafW(h, n).keys, LeafW(h, n).vals, 1, 2 * h + 1 + n) == n
  {
    var keys, vals := LeafW(h, n).keys, LeafW(h, n).vals;
    var value := 2 * h + 1 + n;
    assert keys[0] >= 1;
    assert Below(keys, 1) == 0;
    assert keys[n] == 2;
    assert forall j | 0 <= j < n :: keys[j] == 1 && vals[j] == 2 * h + 1 + j;
    var at := SkipLess(keys, vals, 1, value, 0);
  }

  lemma InsertMiddle(h: nat, n: nat)
    requires 2 <= h
    ensures InsertAt(LeafW(h, n).keys, n, 1) == LeafW(h, n + 1).keys
    ensures InsertAt(LeafW(h, n).vals, n, 2 * h + 1 + n) == LeafW(h, n + 1).vals
  {
    assert Same(1, n) + [1] == Same(1, n + 1);
    assert From(2 * h + 1, n) + [2 * h + 1 + n] == From(2 * h + 1, n + 1);
    Between(Same(1, n), Same(2, h), 1);
    Between(From(2 * h + 1, n), From(1, h), 2 * h + 1 + n);
  }

  lemma Between<T>(a: seq<T>, b: seq<T>, x: T)
    ensures InsertAt(a + b, |a|, x) == (a + [x]) + b
  {
    assert (a + b)[..|a|] == a && (a + b)[|a|..] == b;
  }

  /** An insertion whose child does not split. */
  lemma StepKept(t: Tree, c: nat, kid: Tree, key: Key, value: nat, max: nat, count: nat)
    requires Shape(t) && t.Node? && |t.keys| <= max && c == AtMost(t.keys, key)
    requires Ins(t.kids[c], key, value, max, count) == Out(kid, None, count)
    ensures Step(Grown(Some(t), count), Add(key, value), max) == Grown(Some(Node(t.id, t.keys, t.kids[c := kid])), count)
  {
  }

  /** An insertion whose child splits. */
  lemma StepGrown(t: Tree, c: nat, o: Out, key: Key, value: nat, max: nat, count: nat)
    requires Shape(t) && t.Node? && |t.keys| < max && c == AtMost(t.keys, key)
    requires Ins(t.kids[c], key, value, max, count) == o && o.split.Some?
    ensures Step(Grown(Some(t), count), Add(key, value), max) ==
            Grown(Some(Node(t.id, GrowKeys(t.keys, o), GrowKids(t.keys, t.kids, c, o))), o.count)
  {
  }

  lemma RunStep(ops: seq<IndexOp>, i: nat, max: nat)
    requires i < |ops|
    ensures Run(ops[..i + 1], max) == Step(Run(ops[..i], max), ops[i], max)
  {
    Longer(ops, i);
    var next := ops[..i + 1];
    assert next[|next| - 1] == ops[i] && next[..|next| - 1] == ops[..i];
  }

  lemma SecondLeaf(h: nat, n: nat)
    requires 2 <= h && n + 1 < h
    ensures Ins(LeafW(h, n), 1, 2 * h + 1 + n, Limit(h), 4) == Out(LeafW(h, n + 1), None, 4)
  {
    SlotMiddle(h, n);
    InsertMiddle(h, n);
  }

  lemma SecondStep(h: nat, n: nat)
    requires 2 <= h && n + 1 < h
    ensures Fit(Grown(Some(SecondAt(h, n)), 4))
    ensures Step(Grown(Some(SecondAt(h, n)), 4), Add(1, 2 * h + 1 + n), Limit(h)) == Grown(Some(SecondAt(h, n + 1)), 4)
  {
    hide LeafW, LeafUV;
    SecondShape(h, n);
    SecondLeaf(h, n);
    assert AtMost([2], 1) == 0;
    StepKept(SecondAt(h, n), 0, LeafW(h, n + 1), 1, 2 * h + 1 + n, Limit(h), 4);
    assert SecondAt(h, n).kids[0 := LeafW(h, n + 1)] == SecondAt(h, n + 1).kids;
  }

  lemma SecondShape(h: nat, n: nat)
    requires 2 <= h
    ensures Shape(SecondAt(h, n))
  {
  }

  lemma {:induction false} FillSecond(h: nat, n: nat)
    requires 2 <= h && n < h
    ensures Run(Adds(BadKeys(h))[..2 * h + n], Limit(h)) == Grown(Some(SecondAt(h, n)), 4)
    decreases n
  {
    hide SecondAt, Step, Run;
    if n == 0 {
      FirstSplit(h);
    } else {
      var ops := Adds(BadKeys(h));
      FillSecond(h, n - 1);
      RunStep(ops, 2 * h + n - 1, Limit(h));
      LateKey(h, n - 1);
      SecondStep(h, n - 1);
    }
  }

  lemma LateKey(h: nat, n: nat)
    requires 2 <= h && n < h
    ensures Adds(BadKeys(h))[2 * h + n] == Add(1, 2 * h + 1 + n)
  {
  }

  /** The copies of 2 that the second split moves out of the first leaf. */
  function LeafU(h: nat, more: seq<Key>, vals: seq<nat>): Tree
    requires 2 <= h
  {
    Leaf(4, 2, Same(2, h) + more, From(1, h) + vals)
  }

  /** The tree with its last two leaves out of place: page 4 is linked before page 2. */
  function Misplaced(h: nat, more: seq<Key>, vals: seq<nat>): Tree
    requires 2 <= h
  {
    Node(3, [2, 2], [Leaf(1, 4, Same(1, h), From(2 * h + 1, h)), LeafUV(h), LeafU(h, more, vals)])
  }

  lemma SecondCut(h: nat)
    requires 2 <= h
    ensures var w := LeafW(h, h);
      && w.keys[..h] == Same(1, h) && w.keys[h..] == Same(2, h) && w.keys[h] == 2
      && w.vals[..h] == From(2 * h + 1, h) && w.vals[h..] == From(1, h)
  {
  }

  /** The second split hands up the key 2 again. */
  lemma SecondHandsUp(h: nat)
    requires 2 <= h
    ensures Ins(LeafW(h, h - 1), 1, 3 * h, Limit(h), 4) ==
            Out(Leaf(1, 4, Same(1, h), From(2 * h + 1, h)), Some((2, Leaf(4, 2, Same(2, h), From(1, h)))), 5)
  {
    hide Same, From, LeafSlot, Ins, LeafW, InsertAt;
    SlotMiddle(h, h - 1);
    InsertMiddle(h, h - 1);
    SecondCut(h);
    MiddleSize(h);
    HandsUp(LeafW(h, h - 1), LeafW(h, h), 1, 3 * h, h - 1, h);
  }

  lemma MiddleSize(h: nat)
    requires 2 <= h
    ensures var w := LeafW(h, h - 1);
      w.Leaf? && w.id == 1 && w.next == 2 && |w.keys| == |w.vals| == 2 * h - 1
    ensures LeafW(h, h).Leaf?
  {
  }

  lemma HandsUp(w: Tree, w': Tree, key: Key, value: nat, at: nat, h: nat)
    requires 2 <= h && w.Leaf? && w'.Leaf? && w.id == 1 && w.next == 2
    requires |w.keys| == |w.vals| == 2 * h - 1 && at == LeafSlot(w.keys, w.vals, key, value)
    requires InsertAt(w.keys, at, key) == w'.keys && InsertAt(w.vals, at, 2 * h + 1 + at) == w'.vals && value == 2 * h + 1 + at
    ensures Ins(w, key, value, Limit(h), 4) ==
            Out(Leaf(1, 4, w'.keys[..h], w'.vals[..h]), Some((w'.keys[h], Leaf(4, 2, w'.keys[h..], w'.vals[h..]))), 5)
  {
    hide LeafSlot;
    LeafIns(w, key, value, at, Limit(h), 4);
    CutHalf(w'.keys, w'.vals, h);
  }

  lemma LeafIns(t: Tree, key: Key, value: nat, at: nat, max: nat, count: nat)
    requires t.Leaf? && |t.keys| == |t.vals| && at == LeafSlot(t.keys, t.vals, key, value)
    ensures Ins(t, key, value, max, count) ==
            CutLeaf(t.id, t.next, InsertAt(t.keys, at, key), InsertAt(t.vals, at, value), max, count)
  {
  }

  lemma CutHalf(keys: seq<Key>, vals: seq<nat>, h: nat)
    requires 2 <= h && |keys| == |vals| == 2 * h
    ensures CutLeaf(1, 2, keys, vals, Limit(h), 4) ==
            Out(Leaf(1, 4, keys[..h], vals[..h]), Some((keys[h], Leaf(4, 2, keys[h..], vals[h..]))), 5)
  {
  }

  /** Its right half lands behind the leaf that follows it in the chain. */
  lemma SecondOverflow(h: nat)
    requires 2 <= h
    ensures Fit(Grown(Some(SecondAt(h, h - 1)), 4))
    ensures Step(Grown(Some(SecondAt(h, h - 1)), 4), Add(1, 3 * h), Limit(h)) == Grown(Some(Misplaced(h, [], [])), 5)
  {
    hide LeafW, LeafUV;
    var left, right := Leaf(1, 4, Same(1, h), From(2 * h + 1, h)), Leaf(4, 2, Same(2, h), From(1, h));
    SecondShape(h, h - 1);
    SecondHandsUp(h);
    assert AtMost([2], 1) == 0;
    StepGrown(SecondAt(h, h - 1), 0, Out(left, Some((2, right)), 5), 1, 3 * h, Limit(h), 4);
    SecondGrown(h, left, right);
    assert Same(2, h) + [] == Same(2, h) && From(1, h) + [] == From(1, h);
  }

  lemma SecondGrown(h: nat, left: Tree, right: Tree)
    requires 2 <= h
    ensures var o := Out(left, Some((2, right)), 5);
      GrowKeys([2], o) == [2, 2] && GrowKids([2], SecondAt(h, h - 1).kids, 0, o) == [left, LeafUV(h), right]
  {
    assert AtMost([2], 2) == 1;
    assert SecondAt(h, h - 1).kids[0 := left] == [left, LeafUV(h)];
  }

  lemma BadRun(h: nat)
    requires 2 <= h
    ensures Run(Adds(BadKeys(h)), Limit(h)) == Grown(Some(Misplaced(h, [], [])), 5)
  {
    hide SecondAt, Step, Run, Misplaced;
    var ops := Adds(BadKeys(h));
    FillSecond(h, h - 1);
    RunStep(ops, 3 * h - 1, Limit(h));
    LateKey(h, h - 1);
    assert ops[..3 * h] == ops;
    SecondOverflow(h);
  }

  // ---- What goes wrong ----

  /** The entry is in the tree, and deletion does not find it. */
  lemma DeleteMisses(h: nat)
    requires 2 <= h
    ensures Shape(Misplaced(h, [], [])) && (3, h + 2) in Entries(Misplaced(h, [], [])) && Del(Misplaced(h, [], []), 3, h + 2).None?
  {
    var t := Misplaced(h, [], []);
    MisplacedShape(h, [], []);
    assert Zip(t.kids[1].keys, t.kids[1].vals)[1] == (3, h + 2);
    ChildEntry(t.kids, 1, (3, h + 2));
    assert Below([2, 2], 3) == 2 && AtMost([2, 2], 3) == 2;
    LeafMisses(h);
    assert DelKids(t.kids, 3, 2, 3, h + 2).None?;
  }

  lemma MisplacedShape(h: nat, more: seq<Key>, vals: seq<nat>)
    requires 2 <= h && |more| == |vals|
    ensures Shape(Misplaced(h, more, vals))
  {
  }

  lemma LeafMisses(h: nat)
    requires 2 <= h
    ensures Del(LeafU(h, [], []), 3, h + 2).None?
  {
  }

  /** One more entry, larger than all others, goes to the last child, which is not the last
      leaf of the chain. */
  lemma LargerStep(h: nat)
    requires 2 <= h
    ensures Fit(Grown(Some(Misplaced(h, [], [])), 5))
    ensures Step(Grown(Some(Misplaced(h, [], [])), 5), Add(4, 3 * h + 1), Limit(h)) ==
            Grown(Some(Misplaced(h, [4], [3 * h + 1])), 5)
  {
    hide LeafUV, Same, From, Ins, Shape;
    MisplacedShape(h, [], []);
    LargerLeaf(h);
    assert AtMost([2, 2], 4) == 2;
    StepKept(Misplaced(h, [], []), 2, LeafU(h, [4], [3 * h + 1]), 4, 3 * h + 1, Limit(h), 5);
    assert Misplaced(h, [], []).kids[2 := LeafU(h, [4], [3 * h + 1])] == Misplaced(h, [4], [3 * h + 1]).kids;
  }

  lemma LargerLeaf(h: nat)
    requires 2 <= h
    ensures Ins(LeafU(h, [], []), 4, 3 * h + 1, Limit(h), 5) == Out(LeafU(h, [4], [3 * h + 1]), None, 5)
  {
    var keys, vals := LeafU(h, [], []).keys, LeafU(h, [], []).vals;
    assert keys == Same(2, h) && vals == From(1, h);
    SlotEnd(keys, vals, 4, 3 * h + 1);
    assert InsertAt(keys, h, 4) == Same(2, h) + [4] && InsertAt(vals, h, 3 * h + 1) == From(1, h) + [3 * h + 1];
  }

  /** The history of the failing run is allowed with one entry more than half the order. */
  lemma BadAllowed(h: nat, limit: nat)
    requires 2 <= h && h + 1 <= limit
    ensures Allowed(Adds(BadKeys(h)) + [Remove(3, h + 2)], limit)
  {
    var ops := Adds(BadKeys(h)) + [Remove(3, h + 2)];
    forall i | 0 <= i <= |ops|
      ensures Limited(Meant(ops[..i]), limit)
    {
      BadLimited(h, i, limit);
    }
    assert ops[..3 * h] == Adds(BadKeys(h));
    MeantAdds(BadKeys(h), 3 * h);
    assert Listed(BadKeys(h), 3 * h)[h + 1] == (3, h + 2);
    assert Adds(BadKeys(h))[..3 * h] == Adds(BadKeys(h));
  }

  /** The first `n` added entries. */
  function Listed(keys: seq<Key>, n: nat): (s: seq<Entry>)
    requires n <= |keys|
    ensures |s| == n && forall i | 0 <= i < n :: s[i] == (keys[i], 1 + i)
  {
    seq(n, i requires 0 <= i < n => (keys[i], 1 + i))
  }

  lemma {:induction false} MeantAdds(keys: seq<Key>, n: nat)
    requires n <= |keys|
    ensures Meant(Adds(keys)[..n]) == Listed(keys, n)
  {
    if n > 0 {
      MeantAdds(keys, n - 1);
      Longer(Adds(keys), n - 1);
    }
  }

  lemma {:induction false} CountSame(s: seq<Entry>, k: Key, c: Key)
    requires forall i | 0 <= i < |s| :: s[i].0 == k
    ensures CountKey(s, c) == if c == k then |s| else 0
  {
    if s != [] {
      CountSame(s[1..], k, c);
    }
  }

  lemma BadCount(h: nat, c: Key)
    requires 2 <= h
    ensures CountKey(Listed(BadKeys(h), 3 * h), c) <= h + 1
  {
    var all := Listed(BadKeys(h), 3 * h);
    var u, v, w := all[..h + 1], all[h + 1..2 * h], all[2 * h..];
    assert all == u + v + w;
    CountSplit(u + v, w, c);
    CountSplit(u, v, c);
    CountSame(u, 2, c);
    CountSame(v, 3, c);
    CountSame(w, 1, c);
  }

  lemma CountLess(all: seq<Entry>, n: nat, c: Key)
    requires n <= |all|
    ensures CountKey(all[..n], c) <= CountKey(all, c)
  {
    CountSplit(all[..n], all[n..], c);
    Halves(all, n);
  }

  lemma BadLimited(h: nat, i: nat, limit: nat)
    requires 2 <= h && h + 1 <= limit && i <= 3 * h + 1
    ensures Limited(Meant((Adds(BadKeys(h)) + [Remove(3, h + 2)])[..i]), limit)
  {
    var adds, ops := Adds(BadKeys(h)), Adds(BadKeys(h)) + [Remove(3, h + 2)];
    var all := Listed(BadKeys(h), 3 * h);
    forall c: Key
      ensures CountKey(Meant(ops[..i]), c) <= limit
    {
      BadCount(h, c);
      if i <= 3 * h {
        assert ops[..i] == adds[..i];
        MeantAdds(BadKeys(h), i);
        assert Listed(BadKeys(h), i) == all[..i];
        CountLess(all, i, c);
      } else {
        MeantAdds(BadKeys(h), 3 * h);
        assert adds[..3 * h] == adds && ops[..i] == ops && ops[..|ops| - 1] == adds;
        DropCount(all, (3, h + 2), c);
      }
    }
  }

  lemma {:induction false} DropCount(s: seq<Entry>, e: Entry, c: Key)
    ensures CountKey(Drop(s, e), c) <= CountKey(s, c)
  {
    if s != [] && s[0] != e {
      DropCount(s[1..], e, c);
    }
  }

  /** For every even order of at least 4, half the order plus one entries under one key let a
      deletion miss its entry: the index keeps it although the history removed it. */
  lemma EvenFails(h: nat, limit: nat)
    requires 2 <= h && h + 1 <= limit
    ensures Allowed(Adds(BadKeys(h)) + [Remove(3, h + 2)], limit)
    ensures !Exact(Adds(BadKeys(h)) + [Remove(3, h + 2)], Limit(h))
  {
    hide Allowed, Run, Meant, Misplaced, BadKeys, Adds, Entries;
    BadAllowed(h, limit);
    BadRun(h);
    MissedKeeps(h);
    BadMeant(h);
    StillThere(h);
    var ops := Adds(BadKeys(h)) + [Remove(3, h + 2)];
    DifferentLength(Held(Run(ops, Limit(h))), Meant(ops));
  }

  lemma DifferentLength(a: seq<Entry>, b: seq<Entry>)
    requires |a| != |b|
    ensures multiset(a) != multiset(b)
  {
    assert |multiset(a)| == |a| && |multiset(b)| == |b|;
  }

  lemma MissedKeeps(h: nat)
    requires 2 <= h && Run(Adds(BadKeys(h)), Limit(h)) == Grown(Some(Misplaced(h, [], [])), 5)
    ensures Run(Adds(BadKeys(h)) + [Remove(3, h + 2)], Limit(h)) == Grown(Some(Misplaced(h, [], [])), 5)
  {
    hide Misplaced, BadKeys, Adds, Run, Step;
    DeleteMisses(h);
    RunSnoc(Adds(BadKeys(h)), Remove(3, h + 2), Limit(h));
    RemoveNothing(Misplaced(h, [], []), 5, 3, h + 2, Limit(h));
  }

  lemma RunSnoc(ops: seq<IndexOp>, op: IndexOp, max: nat)
    ensures Run(ops + [op], max) == Step(Run(ops, max), op, max)
  {
    hide Step;
    Snoc(ops, op);
  }

  lemma RemoveNothing(t: Tree, count: nat, key: Key, value: nat, max: nat)
    requires Shape(t) && Del(t, key, value).None?
    ensures Step(Grown(Some(t), count), Remove(key, value), max) == Grown(Some(t), count)
  {
  }

  lemma BadMeant(h: nat)
    requires 2 <= h
    ensures |Meant(Adds(BadKeys(h)) + [Remove(3, h + 2)])| == 3 * h - 1
  {
    var adds := Adds(BadKeys(h));
    MeantAdds(BadKeys(h), 3 * h);
    assert adds[..3 * h] == adds;
    var all := Listed(BadKeys(h), 3 * h);
    assert all[h + 1] == (3, h + 2);
    DropBag(all, (3, h + 2));
    Snoc(adds, Remove(3, h + 2));
    DropLength(all, (3, h + 2), h + 1);
  }

  lemma {:induction false} DropLength(s: seq<Entry>, e: Entry, i: nat)
    requires i < |s| && s[i] == e
    ensures |Drop(s, e)| == |s| - 1
    decreases i
  {
    if s[0] != e {
      DropLength(s[1..], e, i - 1);
    }
  }

  lemma StillThere(h: nat)
    requires 2 <= h
    ensures Shape(Misplaced(h, [], [])) && |Entries(Misplaced(h, [], []))| == 3 * h
  {
    MisplacedShape(h, [], []);
    var k := Misplaced(h, [], []).kids;
    EntriesAroundOne([k[0]], k[1], [k[2]]);
    EntriesOne(k[0]);
    EntriesOne(k[2]);
    assert [k[0]] + ([k[1]] + [k[2]]) == k;
  }

  /** Exactly when an index of order `max + 1 >= 3` is exact after every history with at most
      `limit` entries per key: if the order is odd or the limit is at most half of it. */
  lemma ExactIff(max: nat, limit: nat)
    requires 2 <= max
    ensures (forall ops | Allowed(ops, limit) :: Exact(ops, max)) <==> Tame(max, limit)
  {
    hide Allowed, Exact, Run, Meant, BadKeys, Adds;
    if Tame(max, limit) {
      forall ops | Allowed(ops, limit)
        ensures Exact(ops, max)
      {
        TameExact(ops, max, limit);
      }
    } else {
      assert Limit(Mid(max)) == max;
      EvenFails(Mid(max), limit);
    }
  }

  // ---- Range scans ----

  lemma {:induction false} CollectStops(a: seq<Entry>, b: seq<Entry>, hi: Key)
    requires (forall i | 0 <= i < |a| :: a[i].0 <= hi) && b != [] && hi < b[0].0
    ensures Collect(a + b, None, Some(hi)) == a
  {
    if a == [] {
      assert a + b == b;
    } else {
      assert (a + b)[1..] == a[1..] + b;
      CollectStops(a[1..], b, hi);
    }
  }

  /** The chain of the misplaced tree: pages 1, 4, 2. */
  function BadChain(h: nat): seq<Tree>
    requires 2 <= h
  {
    var k := Misplaced(h, [4], [3 * h + 1]).kids;
    [k[0], k[2], k[1]]
  }

  lemma BadChainOf(h: nat)
    requires 2 <= h
    ensures var t := Misplaced(h, [4], [3 * h + 1]);
      Shape(t) && ChainOf(t, BadChain(h)) && AllShape(BadChain(h))
  {
    hide Misplaced, LeavesAll, Leaves, Chained, First, Shape;
    MisplacedShape(h, [4], [3 * h + 1]);
    var t := Misplaced(h, [4], [3 * h + 1]);
    BadLinks(h);
    ChainOfThree(t, t.kids[0], t.kids[1], t.kids[2]);
  }

  lemma BadLinks(h: nat)
    requires 2 <= h
    ensures var t := Misplaced(h, [4], [3 * h + 1]);
      && t.Node? && t.kids == [t.kids[0], t.kids[1], t.kids[2]]
      && t.kids[0].Leaf? && t.kids[1].Leaf? && t.kids[2].Leaf?
      && t.kids[0].next == t.kids[2].id && t.kids[2].next == t.kids[1].id && t.kids[1].next == 0
      && Shape(t.kids[0]) && Shape(t.kids[1]) && Shape(t.kids[2])
  {
    MisplacedShape(h, [4], [3 * h + 1]);
  }

  /** Three leaves whose links visit the last before the middle one. */
  lemma ChainOfThree(t: Tree, a: Tree, b: Tree, c: Tree)
    requires t.Node? && Shape(t) && t.kids == [a, b, c] && a.Leaf? && b.Leaf? && c.Leaf? && Shape(a) && Shape(b) && Shape(c)
    requires a.next == c.id && c.next == b.id && b.next == 0
    ensures ChainOf(t, [a, c, b]) && AllShape([a, c, b])
  {
    hide LeavesAll, Chained;
    ThreeLeaves(a, b, c);
    Swapped(a, b, c);
    LinkedThree(a, c, b);
    ChainFrom(t, [a, c, b], [a, b, c]);
  }

  lemma ChainFrom(t: Tree, chain: seq<Tree>, leaves: seq<Tree>)
    requires t.Node? && Shape(t) && t.kids == leaves && LeavesAll(leaves) == leaves && multiset(chain) == multiset(leaves)
    requires chain != [] && Chained(chain, 0) && chain[0] == leaves[0] && leaves[0].Leaf?
    ensures ChainOf(t, chain)
  {
    hide Chained, LeavesAll;
    assert First(t) == chain[0].id;
  }

  lemma LinkedThree(a: Tree, b: Tree, c: Tree)
    requires a.Leaf? && b.Leaf? && c.Leaf? && a.next == b.id && b.next == c.id && c.next == 0
    ensures Chained([a, b, c], 0)
  {
    var ls := [a, b, c];
    forall i | 0 <= i < |ls|
      ensures ls[i].Leaf? && ls[i].next == NextOf(ls, 0, i)
    {
      assert i == 0 || i == 1 || i == 2;
    }
  }

  lemma ThreeLeaves(a: Tree, b: Tree, c: Tree)
    requires a.Leaf? && b.Leaf? && c.Leaf? && Shape(a) && Shape(b) && Shape(c)
    ensures LeavesAll([a, b, c]) == [a, b, c]
  {
    LeavesAroundOne([a], b, [c]);
    LeavesOne(a);
    LeavesOne(c);
    hide LeavesAll;
    assert [a] + ([b] + [c]) == [a, b, c];
  }

  lemma Swapped(a: Tree, b: Tree, c: Tree)
    ensures multiset([a, c, b]) == multiset([a, b, c])
  {
    assert [a, c, b] == [a] + [c] + [b] && [a, b, c] == [a] + [b] + [c];
  }

  lemma BadRead(h: nat)
    requires 2 <= h
    ensures AllShape(BadChain(h))
    ensures var k := Misplaced(h, [4], [3 * h + 1]).kids;
      EntriesAll(BadChain(h)) == Zip(k[0].keys, k[0].vals) + Zip(k[2].keys, k[2].vals) + Zip(k[1].keys, k[1].vals)
  {
    MisplacedShape(h, [4], [3 * h + 1]);
    var k := Misplaced(h, [4], [3 * h + 1]).kids;
    EntriesAroundOne([k[0]], k[2], [k[1]]);
    EntriesOne(k[0]);
    EntriesOne(k[1]);
    assert [k[0]] + ([k[2]] + [k[1]]) == BadChain(h);
  }

  /** With one entry more, larger than all others, a scan up to 3 stops at it and loses the
      entries of 3: an unordered chain ends a range too early. */
  lemma ScanLoses(h: nat)
    requires 2 <= h
    ensures Run(Adds(BadKeys(h)) + [Add(4, 3 * h + 1)], Limit(h)) == Grown(Some(Misplaced(h, [4], [3 * h + 1])), 5)
    ensures Shape(Misplaced(h, [4], [3 * h + 1])) && ChainOf(Misplaced(h, [4], [3 * h + 1]), BadChain(h)) && AllShape(BadChain(h))
    ensures (3, h + 2) in EntriesAll(BadChain(h)) && (3, h + 2) !in Collect(EntriesAll(BadChain(h)), None, Some(3))
  {
    hide Run, Step, ChainOf, BadKeys, Adds;
    BadRun(h);
    RunSnoc(Adds(BadKeys(h)), Add(4, 3 * h + 1), Limit(h));
    LargerStep(h);
    BadChainOf(h);
    LostFromScan(h);
  }

  lemma BadParts(h: nat)
    requires 2 <= h
    ensures var k := Misplaced(h, [4], [3 * h + 1]).kids;
      var w, u, v := Zip(k[0].keys, k[0].vals), Zip(k[2].keys, k[2].vals), Zip(k[1].keys, k[1].vals);
      && |v| > 1 && v[1] == (3, h + 2) && |u| > h && u[h].0 == 4
      && (forall i | 0 <= i < |w| :: w[i].0 < 3) && (forall i | 0 <= i < h :: u[i].0 < 3)
  {
  }

  /** A bounded walk stops at the first entry above its range and misses what comes behind it. */
  lemma StopsBefore(w: seq<Entry>, u: seq<Entry>, v: seq<Entry>, h: nat, x: Entry)
    requires h < |u| && u[h].0 > 3 && |v| > 1 && v[1] == x && x.0 == 3
    requires (forall i | 0 <= i < |w| :: w[i].0 < 3) && (forall i | 0 <= i < h :: u[i].0 < 3)
    ensures x in w + u + v && x !in Collect(w + u + v, None, Some(3))
  {
    hide Collect;
    Regroup(w, u, v, h);
    SmallKeys(w, u[..h]);
    assert v[1] in v && v[1] in w + u + v;
    Front(u, v, h);
    CollectStops(w + u[..h], u[h..] + v, 3);
  }

  lemma Regroup(w: seq<Entry>, u: seq<Entry>, v: seq<Entry>, h: nat)
    requires h <= |u|
    ensures w + u + v == (w + u[..h]) + (u[h..] + v)
  {
    Halves(u, h);
    Assoc(w, u[..h], u[h..]);
    Assoc(w + u[..h], u[h..], v);
  }

  lemma Front(u: seq<Entry>, v: seq<Entry>, h: nat)
    requires h < |u|
    ensures (u[h..] + v) != [] && (u[h..] + v)[0] == u[h]
  {
  }

  lemma SmallKeys(a: seq<Entry>, b: seq<Entry>)
    requires (forall i | 0 <= i < |a| :: a[i].0 < 3) && (forall i | 0 <= i < |b| :: b[i].0 < 3)
    ensures forall i | 0 <= i < |a + b| :: (a + b)[i].0 < 3
    ensures forall x <- a + b :: x.0 < 3
  {
  }

  lemma LostFromScan(h: nat)
    requires 2 <= h
    ensures AllShape(BadChain(h))
    ensures (3, h + 2) in EntriesAll(BadChain(h)) && (3, h + 2) !in Collect(EntriesAll(BadChain(h)), None, Some(3))
  {
    BadRead(h);
    hide EntriesAll, Collect, Zip, Misplaced;
    var k := Misplaced(h, [4], [3 * h + 1]).kids;
    var w, u, v := Zip(k[0].keys, k[0].vals), Zip(k[2].keys, k[2].vals), Zip(k[1].keys, k[1].vals);
    BadParts(h);
    StopsBefore(w, u, v, h, (3, h + 2));
  }
}
