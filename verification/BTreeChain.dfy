/** The leaf chain, the node sizes and deletion of the B+ tree (btree.rs). */
module BTreeChain {
  import opened Basics
  import opened BTree
  import opened BTreeOrder

  // ---- The leaf chain ----

  /** The leftmost leaf. */
  function First(t: Tree): nat
    requires Shape(t)
    decreases t
  {
    if t.Leaf? then t.id else First(t.kids[0])
  }

  function ExitAt(kids: seq<Tree>, exit: nat, i: nat): nat
    requires AllShape(kids) && i < |kids|
  {
    if i + 1 < |kids| then First(kids[i + 1]) else exit
  }

  /** Every leaf points to the next one in tree order, the last one to `exit`. */
  predicate Linked(t: Tree, exit: nat)
    requires Shape(t)
    decreases t
  {
    match t
    case Leaf(_, next, _, _) => next == exit
    case Node(_, _, kids) => forall i | 0 <= i < |kids| :: Linked(kids[i], ExitAt(kids, exit, i))
  }

  predicate LinkedKids(kids: seq<Tree>, exit: nat)
    requires AllShape(kids)
  {
    forall i | 0 <= i < |kids| :: Linked(kids[i], ExitAt(kids, exit, i))
  }

  predicate OutLinked(o: Out, exit: nat)
    requires OutShape(o)
  {
    if o.split.None? then Linked(o.left, exit)
    else Linked(o.left, First(o.split.value.1)) && Linked(o.split.value.1, exit)
  }

  lemma CutNodeLinked(id: nat, keys: seq<Key>, kids: seq<Tree>, max: nat, count: nat, exit: nat)
    requires |kids| == |keys| + 1 && AllShape(kids) && LinkedKids(kids, exit)
    ensures var o := CutNode(id, keys, kids, max, count);
      OutShape(o) && OutLinked(o, exit) && First(o.left) == First(kids[0])
  {
    CutNodeShape(id, keys, kids, max, count);
    var o := CutNode(id, keys, kids, max, count);
    if o.split.Some? {
      var mid := |keys| / 2;
      var left, right := o.left.kids, o.split.value.1.kids;
      forall i | 0 <= i < |left|
        ensures Linked(left[i], ExitAt(left, First(right[0]), i))
      {
        assert left[i] == kids[i] && ExitAt(left, First(right[0]), i) == ExitAt(kids, exit, i);
      }
      forall i | 0 <= i < |right|
        ensures Linked(right[i], ExitAt(right, exit, i))
      {
        assert right[i] == kids[mid + 1 + i] && ExitAt(right, exit, i) == ExitAt(kids, exit, mid + 1 + i);
      }
    }
  }

  lemma GrowLinked(keys: seq<Key>, kids: seq<Tree>, c: nat, o: Out, exit: nat)
    requires c < |kids| == |keys| + 1 && AllShape(kids) && OutShape(o) && LinkedKids(kids, exit)
    requires OutLinked(o, ExitAt(kids, exit, c)) && First(o.left) == First(kids[c])
    requires o.split.Some? ==> AtMost(keys, o.split.value.0) == c
    ensures AllShape(GrowKids(keys, kids, c, o)) && LinkedKids(GrowKids(keys, kids, c, o), exit)
    ensures First(GrowKids(keys, kids, c, o)[0]) == First(kids[0])
  {
    GrowShape(keys, kids, c, o);
    var kids' := GrowKids(keys, kids, c, o);
    forall i | 0 <= i < |kids'|
      ensures Linked(kids'[i], ExitAt(kids', exit, i))
    {
      if o.split.None? || i <= c {
        assert i != c ==> ExitAt(kids', exit, i) == ExitAt(kids, exit, i);
      } else if i > c + 1 {
        assert kids'[i] == kids[i - 1] && ExitAt(kids', exit, i) == ExitAt(kids, exit, i - 1);
      } else {
        assert ExitAt(kids', exit, i) == ExitAt(kids, exit, c);
      }
    }
  }

  /** Insertion keeps the leaf chain equal to the leaves in tree order. */
  lemma {:induction false} InsLinked(t: Tree, key: Key, value: nat, max: nat, count: nat, lo: int, hi: int, exit: nat)
    requires Shape(t) && Ordered(t, lo, hi, max) && Sized(t, max) && lo <= key < hi && 0 < max && Linked(t, exit)
    requires MayAdd(Entries(t), key, max)
    ensures var o := Ins(t, key, value, max, count);
      OutShape(o) && OutLinked(o, exit) && First(o.left) == First(t)
    decreases t
  {
    InsShape(t, key, value, max, count);
    if t.Node? {
      var c := AtMost(t.keys, key);
      var o := Ins(t.kids[c], key, value, max, count);
      ChildBounds(t.keys, lo, hi, key);
      MayAddChild(t.kids, c, key, max);
      InsLinked(t.kids[c], key, value, max, count, LoAt(t.keys, lo, c), HiAt(t.keys, hi, c), ExitAt(t.kids, exit, c));
      InsOrdered(t.kids[c], key, value, max, count, LoAt(t.keys, lo, c), HiAt(t.keys, hi, c));
      if o.split.Some? {
        GrowPlace(t.keys, lo, hi, c, o.split.value.0, max);
      }
      GrowLinked(t.keys, t.kids, c, o, exit);
      GrowShape(t.keys, t.kids, c, o);
      CutNodeLinked(t.id, GrowKeys(t.keys, o), GrowKids(t.keys, t.kids, c, o), max, o.count, exit);
    }
  }

  // ---- Node sizes ----

  /** Splits leave both halves within the limit. */
  lemma {:induction false} InsSized(t: Tree, key: Key, value: nat, max: nat, count: nat)
    requires Shape(t) && Sized(t, max) && 0 < max
    ensures OutSized(Ins(t, key, value, max, count), max)
    decreases t
  {
    match t
    case Leaf(id, next, keys, vals) =>
      var at := LeafSlot(keys, vals, key, value);
      CutLeafSized(id, next, InsertAt(keys, at, key), InsertAt(vals, at, value), max, count);
    case Node(id, keys, kids) =>
      var c := AtMost(keys, key);
      InsSized(kids[c], key, value, max, count);
      var o := Ins(kids[c], key, value, max, count);
      GrowSized(keys, kids, c, o, max);
      CutNodeSized(id, GrowKeys(keys, o), GrowKids(keys, kids, c, o), max, o.count);
  }

  predicate SizedKids(kids: seq<Tree>, max: nat) {
    forall i | 0 <= i < |kids| :: Sized(kids[i], max)
  }

  lemma CutLeafSized(id: nat, next: nat, keys: seq<Key>, vals: seq<nat>, max: nat, count: nat)
    requires |keys| == |vals| <= max + 1 && 0 < max
    ensures OutSized(CutLeaf(id, next, keys, vals, max, count), max)
  {
  }

  lemma GrowSized(keys: seq<Key>, kids: seq<Tree>, c: nat, o: Out, max: nat)
    requires c < |kids| == |keys| + 1 && SizedKids(kids, max) && OutSized(o, max)
    ensures |GrowKids(keys, kids, c, o)| == |GrowKeys(keys, o)| + 1 && |GrowKeys(keys, o)| <= |keys| + 1
    ensures SizedKids(GrowKids(keys, kids, c, o), max)
  {
    hide Sized;
  }

  lemma CutNodeSized(id: nat, keys: seq<Key>, kids: seq<Tree>, max: nat, count: nat)
    requires |kids| == |keys| + 1 && |keys| <= max + 1 && 0 < max && SizedKids(kids, max)
    ensures OutSized(CutNode(id, keys, kids, max, count), max)
  {
  }

  // ---- Deletion ----

  /** btree.rs `delete_rec`: the tree without the entry, if it was found. */
  function Del(t: Tree, key: Key, value: nat): Option<Tree>
    requires Shape(t)
    decreases t, 1, 0
  {
    match t
    case Leaf(id, next, keys, vals) =>
      var at := LeafSlot(keys, vals, key, value);
      if at < |keys| && keys[at] == key && vals[at] == value
      then Some(Leaf(id, next, RemoveAt(keys, at), RemoveAt(vals, at)))
      else None
    case Node(id, keys, kids) =>
      var hit := DelKids(kids, Below(keys, key), AtMost(keys, key), key, value);
      if hit.None? then None else Some(Node(id, keys, kids[hit.value.0 := hit.value.1]))
  }

  /** The first child between two positions in which the entry is found. */
  function DelKids(kids: seq<Tree>, i: nat, last: nat, key: Key, value: nat): (r: Option<(nat, Tree)>)
    requires AllShape(kids) && last < |kids|
    ensures r.Some? ==> i <= r.value.0 <= last && Del(kids[r.value.0], key, value) == Some(r.value.1)
    decreases kids, 0, last + 1 - i
  {
    if i > last then None
    else match Del(kids[i], key, value)
      case Some(kid) => Some((i, kid))
      case None => DelKids(kids, i + 1, last, key, value)
  }

  /** A deletion removes exactly the entry, whatever the keys are. */
  lemma {:induction false} DelConserves(t: Tree, key: Key, value: nat)
    requires Shape(t) && Del(t, key, value).Some?
    ensures var t' := Del(t, key, value).value;
      && Shape(t') && t'.id == t.id && t'.Leaf? == t.Leaf?
      && Bag(t) == Bag(t') + multiset{(key, value)}
    decreases t
  {
    var t' := Del(t, key, value).value;
    if t.Leaf? {
      var at := LeafSlot(t.keys, t.vals, key, value);
      assert Zip(t'.keys, t'.vals) == RemoveAt(Zip(t.keys, t.vals), at);
      RemoveAtBag(Zip(t.keys, t.vals), at);
    } else {
      var hit := DelKids(t.kids, Below(t.keys, key), AtMost(t.keys, key), key, value).value;
      DelConserves(t.kids[hit.0], key, value);
      UpdateBag(t.kids, hit.0, hit.1);
      Cancel(BagAll(t'.kids), Bag(t.kids[hit.0]), BagAll(t.kids), Bag(hit.1), multiset{(key, value)}, multiset{});
    }
  }

  lemma RemoveAtBag(s: seq<Entry>, at: nat)
    requires at < |s|
    ensures multiset(s) == multiset(RemoveAt(s, at)) + multiset{s[at]}
  {
    assert s == s[..at] + [s[at]] + s[at + 1..];
  }

  /** A tree that can stand where `t` stood. */
  predicate Fits(t: Tree, t': Tree, lo: int, hi: int, exit: nat, max: nat)
    requires Shape(t)
  {
    Shape(t') && Ordered(t', lo, hi, max) && Linked(t', exit) && Sized(t', max) && First(t') == First(t)
  }

  lemma FitsChild(t: Tree, c: nat, kid: Tree, lo: int, hi: int, exit: nat, max: nat)
    requires Shape(t) && t.Node? && c < |t.kids| && Ordered(t, lo, hi, max) && Linked(t, exit) && Sized(t, max)
    requires Fits(t.kids[c], kid, LoAt(t.keys, lo, c), HiAt(t.keys, hi, c), ExitAt(t.kids, exit, c), max)
    ensures Fits(t, Node(t.id, t.keys, t.kids[c := kid]), lo, hi, exit, max)
  {
    ChildShape(t, c, kid);
    ChildOrdered(t, c, kid, lo, hi, max);
    ChildLinked(t, c, kid, exit);
    ChildSized(t, c, kid, max);
  }

  lemma ChildShape(t: Tree, c: nat, kid: Tree)
    requires Shape(t) && t.Node? && c < |t.kids| && Shape(kid) && First(kid) == First(t.kids[c])
    ensures Shape(Node(t.id, t.keys, t.kids[c := kid])) && First(Node(t.id, t.keys, t.kids[c := kid])) == First(t)
  {
  }

  lemma ChildOrdered(t: Tree, c: nat, kid: Tree, lo: int, hi: int, max: nat)
    requires t.Node? && c < |t.kids| && Ordered(t, lo, hi, max) && Ordered(kid, LoAt(t.keys, lo, c), HiAt(t.keys, hi, c), max)
    ensures Ordered(Node(t.id, t.keys, t.kids[c := kid]), lo, hi, max)
  {
  }

  lemma ChildSized(t: Tree, c: nat, kid: Tree, max: nat)
    requires t.Node? && c < |t.kids| && Sized(t, max) && Sized(kid, max)
    ensures Sized(Node(t.id, t.keys, t.kids[c := kid]), max)
  {
  }

  lemma ChildLinked(t: Tree, c: nat, kid: Tree, exit: nat)
    requires Shape(t) && t.Node? && c < |t.kids| && Linked(t, exit)
    requires Shape(kid) && Linked(kid, ExitAt(t.kids, exit, c)) && First(kid) == First(t.kids[c])
    requires Shape(Node(t.id, t.keys, t.kids[c := kid]))
    ensures Linked(Node(t.id, t.keys, t.kids[c := kid]), exit)
  {
    var kids := t.kids[c := kid];
    forall i | 0 <= i < |kids|
      ensures Linked(kids[i], ExitAt(kids, exit, i))
    {
      assert ExitAt(kids, exit, i) == ExitAt(t.kids, exit, i);
    }
  }

  /** Deletion keeps the order, the leaf chain and the node sizes; a leaf may become empty. */
  lemma LeafRemoved(keys: seq<Key>, vals: seq<nat>, at: nat, lo: int, hi: int, max: nat)
    requires LeafOrdered(keys, vals, lo, hi, max) && at < |keys|
    ensures LeafOrdered(RemoveAt(keys, at), RemoveAt(vals, at), lo, hi, max)
  {
    SortedKeys(keys, vals);
  }

  lemma {:induction false} DelKeeps(t: Tree, key: Key, value: nat, lo: int, hi: int, exit: nat, max: nat)
    requires Shape(t) && Del(t, key, value).Some? && Ordered(t, lo, hi, max) && Linked(t, exit) && Sized(t, max)
    ensures Fits(t, Del(t, key, value).value, lo, hi, exit, max)
    decreases t
  {
    if t.Leaf? {
      var at := LeafSlot(t.keys, t.vals, key, value);
      LeafRemoved(t.keys, t.vals, at, lo, hi, max);
    } else {
      var hit := DelKids(t.kids, Below(t.keys, key), AtMost(t.keys, key), key, value).value;
      var c := hit.0;
      DelKeeps(t.kids[c], key, value, LoAt(t.keys, lo, c), HiAt(t.keys, hi, c), ExitAt(t.kids, exit, c), max);
      FitsChild(t, c, hit.1, lo, hi, exit, max);
    }
  }

  // ---- Where an entry is ----

  lemma {:induction false} EntryChild(kids: seq<Tree>, e: Entry) returns (i: nat)
    requires AllShape(kids) && e in EntriesAll(kids)
    ensures i < |kids| && e in Entries(kids[i])
    decreases |kids|
  {
    if e in Entries(kids[0]) {
      i := 0;
    } else {
      var j := EntryChild(kids[1..], e);
      i := j + 1;
    }
  }

  lemma {:induction false} ChildEntry(kids: seq<Tree>, i: nat, e: Entry)
    requires AllShape(kids) && i < |kids| && e in Entries(kids[i])
    ensures e in EntriesAll(kids)
  {
    EntriesAround(kids, i);
  }

  /** In an ordered tree an entry is in one of the children that deletion tries. */
  lemma EntryPlace(keys: seq<Key>, kids: seq<Tree>, lo: int, hi: int, e: Entry, max: nat) returns (i: nat)
    requires AllShape(kids) && OrderedKids(keys, kids, lo, hi, max) && e in EntriesAll(kids)
    ensures i < |kids| && e in Entries(kids[i]) && Below(keys, e.0) <= i <= AtMost(keys, e.0)
  {
    i := EntryChild(kids, e);
    OrderedSorted(kids[i], LoAt(keys, lo, i), HiAt(keys, hi, i), max);
    assert LoAt(keys, lo, i) <= e.0 <= HiAt(keys, hi, i);
    BetweenPlaces(keys, i, e.0);
  }

  lemma BetweenPlaces(keys: seq<Key>, i: nat, key: Key)
    requires NonDecreasing(keys) && i <= |keys| && (i > 0 ==> keys[i - 1] <= key) && (i < |keys| ==> key <= keys[i])
    ensures Below(keys, key) <= i <= AtMost(keys, key)
  {
  }

  lemma {:induction false} DelKidsFinds(kids: seq<Tree>, i: nat, at: nat, last: nat, key: Key, value: nat)
    requires AllShape(kids) && i <= at <= last < |kids| && Del(kids[at], key, value).Some?
    ensures DelKids(kids, i, last, key, value).Some?
    decreases at - i
  {
    if i < at {
      DelKidsFinds(kids, i + 1, at, last, key, value);
    }
  }

  /** Every entry of an ordered tree can be deleted, repeated keys included. */
  lemma {:induction false} DelFinds(t: Tree, key: Key, value: nat, lo: int, hi: int, max: nat)
    requires Shape(t) && Ordered(t, lo, hi, max) && (key, value) in Entries(t)
    ensures Del(t, key, value).Some?
    decreases t
  {
    if t.Leaf? {
      LeafFinds(t.keys, t.vals, key, value);
    } else {
      var i := EntryPlace(t.keys, t.kids, lo, hi, (key, value), max);
      DelFinds(t.kids[i], key, value, LoAt(t.keys, lo, i), HiAt(t.keys, hi, i), max);
      DelKidsFinds(t.kids, Below(t.keys, key), i, AtMost(t.keys, key), key, value);
    }
  }

  lemma LeafFinds(keys: seq<Key>, vals: seq<nat>, key: Key, value: nat)
    requires |keys| == |vals| && PairsSorted(keys, vals) && (key, value) in Zip(keys, vals)
    ensures var at := LeafSlot(keys, vals, key, value);
      at < |keys| && keys[at] == key && vals[at] == value
  {
    var i :| 0 <= i < |keys| && Zip(keys, vals)[i] == (key, value);
    SlotSorted(keys, vals, key, value);
    var at := LeafSlot(keys, vals, key, value);
    assert at <= i by {
      var b := Below(keys, key);
      assert forall j | b <= j < at :: keys[j] == key && vals[j] < value;
    }
    assert at < i ==> keys[at] < keys[i] || (keys[at] == keys[i] && vals[at] <= vals[i]);
  }
}
