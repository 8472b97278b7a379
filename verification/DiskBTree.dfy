/** The index object of btree.rs: pages in a file, changed in place by recursive insertion
    and deletion and read along the leaf chain. */
module DiskBTree {
  import opened Basics
  import opened BTree
  import opened BTreeOrder
  import opened BTreeChain
  import opened BTreeScan
  import opened BTreePages
  import opened BTreeStore
  import opened IndexHistory
  import BTreeKeys
  import NodeLayout

  class Index {
    var pages: Pages
    var root: nat
    var count: nat
    const max: nat
    const keyLimit: nat
    ghost var tree: Option<Tree>
    ghost var chain: seq<Tree>

    /** The pages hold a tree, and the leaf links run through all its leaves. */
    ghost predicate Valid()
      reads this
    {
      && 0 < max && 0 < count && keyLimit <= NodeLayout.MAX_KEY_BYTES
      && (forall p <- pages :: 0 < p < count)
      && (tree.None? ==> root == 0)
      && (tree.Some? ==>
            && root == tree.value.id
            && Stored(pages, tree.value, count) && Sized(tree.value, max)
            && ChainOf(tree.value, chain))
    }

    /** The tree is a search tree with its leaves chained in order. */
    ghost predicate Sorted()
      reads this
      requires Valid()
    {
      tree.Some? ==> SearchTree(tree.value, max)
    }

    ghost function Contents(): seq<Entry>
      reads this
      requires Valid()
    {
      if tree.None? then [] else Entries(tree.value)
    }

    /** The tree and the next free page. */
    ghost function Now(): Grown
      reads this
    {
      Grown(tree, count)
    }

    /** An empty index file: only the header page, number 0. */
    constructor (page: nat, order: nat)
      requires NodeLayout.FitsInPage(page, order)
      ensures Valid() && Sorted() && Contents() == [] && max == order - 1 && Now() == EMPTY && keyLimit == NodeLayout.KeyLimit(page, order)
    {
      pages, root, count := map[], 0, 1;
      max, keyLimit := order - 1, NodeLayout.KeyLimit(page, order);
      tree, chain := None, [];
    }

    /** `insert` of a byte string: refused exactly if it is too long. */
    method InsertKey(key: seq<byte>, value: nat) returns (ok: bool)
      requires Valid()
      modifies this
      ensures Valid() && (ok <==> |key| <= keyLimit)
      ensures !ok ==> Now() == old(Now()) && Contents() == old(Contents())
      ensures ok ==> Fit(old(Now())) && Now() == Step(old(Now()), Add(BTreeKeys.KeyRank(key, NodeLayout.MAX_KEY_BYTES), value), max)
    {
      if |key| > keyLimit {
        return false;
      }
      Insert(BTreeKeys.KeyRank(key, NodeLayout.MAX_KEY_BYTES), value);
      return true;
    }

    /** `insert`: adds exactly the entry, whatever the keys are; the order is kept for every odd
        order, and for an even one while no key gets more than half the order of entries. */
    method Insert(key: Key, value: nat)
      requires Valid()
      modifies this
      ensures Valid() && Fit(old(Now())) && Now() == Step(old(Now()), Add(key, value), max)
      ensures multiset(Contents()) == old(multiset(Contents())) + multiset{(key, value)}
      ensures old(Sorted()) && MayAdd(old(Contents()), key, max) ==> Sorted()
    {
      if root == 0 {
        InsertFirst(key, value);
      } else {
        InsertBelow(key, value);
      }
    }

    /** Insertion into the empty tree. */
    method InsertFirst(key: Key, value: nat)
      requires Valid() && root == 0
      modifies this
      ensures Valid() && Sorted() && old(tree) == None && Now() == Step(old(Now()), Add(key, value), max)
      ensures old(Contents()) == [] && Contents() == [(key, value)]
    {
      hide Stored, Sized, ChainOf, SearchTree;
      if tree.Some? {
        StoredShape(pages, tree.value, count);
      }
      var id := count;
      FirstLeaf(pages, id, key, value, max);
      count := count + 1;
      pages := pages[id := LeafPage(0, [key], [value])];
      root := id;
      tree, chain := Some(Leaf(id, 0, [key], [value])), [Leaf(id, 0, [key], [value])];
    }

    /** Insertion below a root, with a new root when the old one was split. */
    method InsertBelow(key: Key, value: nat)
      requires Valid() && root != 0
      modifies this
      ensures Valid() && Fit(old(Now())) && Now() == Step(old(Now()), Add(key, value), max)
      ensures multiset(Contents()) == old(multiset(Contents())) + multiset{(key, value)}
      ensures old(Sorted()) && MayAdd(old(Contents()), key, max) ==> Sorted()
    {
      hide Stored, Sized, ChainOf, SearchTree, Ins, OutApart, Rep, Shape, Entries, Replaced, LeafFor, Ids, OutShape;
      ghost var t, before := tree.value, count;
      StoredShape(pages, t, count);
      ghost var o := Ins(t, key, value, max, count);
      InsertFacts(pages, t, key, value, max, count);
      ghost var i := AfterChain(t, chain, key, value, max, count);
      chain := Replaced(chain, i, Ins(chain[i], key, value, max, count));
      var split := InsertRec(root, key, value, t);
      AfterStored(pages, o, Ids(t), before);
      if split.Some? {
        var id := count;
        count := count + 1;
        pages := pages[id := NodePage([split.value.0], [root, split.value.1])];
        root := id;
      }
      tree := Some(After(o));
      StoredShape(pages, After(o), count);
    }

    /** `insert_rec`: load, change, store; split and allocate when a node overflows. */
    method InsertRec(id: nat, key: Key, value: nat, ghost t: Tree) returns (split: Option<(Key, nat)>)
      requires t.id == id && Stored(pages, t, count)
      modifies this`pages, this`count
      ensures var o := Ins(t, key, value, max, old(count));
        && count == o.count
        && Rep(pages, o.left)
        && (o.split.None? ==> split == None)
        && (o.split.Some? ==> split == Some((o.split.value.0, o.split.value.1.id)) && Rep(pages, o.split.value.1))
      ensures Framed(old(pages), pages, Ids(t), old(count), count)
      decreases t
    {
      match pages[id]
      case LeafPage(next, keys0, vals0) =>
        var at := LeafSlot(keys0, vals0, key, value);
        split := StoreLeaf(id, next, InsertAt(keys0, at, key), InsertAt(vals0, at, value));
      case NodePage(keys0, kids0) =>
        split := InsertNode(id, keys0, kids0, key, value, t);
    }

    /** The inner-node case: insert below, then take in what the child handed up. */
    method InsertNode(id: nat, keys0: seq<Key>, kids0: seq<nat>, key: Key, value: nat, ghost t: Tree)
      returns (split: Option<(Key, nat)>)
      requires t.Node? && t.id == id && Stored(pages, t, count) && keys0 == t.keys && kids0 == KidIds(t.kids)
      modifies this`pages, this`count
      ensures var o := Ins(t, key, value, max, old(count));
        && count == o.count
        && Rep(pages, o.left)
        && (o.split.None? ==> split == None)
        && (o.split.Some? ==> split == Some((o.split.value.0, o.split.value.1.id)) && Rep(pages, o.split.value.1))
      ensures Framed(old(pages), pages, Ids(t), old(count), count)
      decreases t, 0
    {
      hide Rep, Framed, Stored, Ids, Growing, GrowKids, GrowKeys, Ins;
      StoredShape(pages, t, count);
      var c := AtMost(keys0, key);
      StoredChild(pages, t, count, c);
      ghost var before, beforeCount := pages, count;
      var below := InsertRec(kids0[c], key, value, t.kids[c]);
      ghost var o := Ins(t.kids[c], key, value, max, beforeCount);
      GrowingNow(before, pages, t, c, o, beforeCount, key, value, max);
      var keys, kids := keys0, kids0;
      if below.Some? {
        var at := AtMost(keys, below.value.0);
        keys := InsertAt(keys, at, below.value.0);
        kids := InsertAt(kids, at + 1, below.value.1);
      }
      split := StoreNode(id, keys, kids, t, c, o, before, beforeCount, key, value);
    }

    /** `delete`: removes exactly the entry if it finds it; in an ordered tree it finds every
        entry. */
    method Delete(key: Key, value: nat) returns (found: bool)
      requires Valid()
      modifies this`pages, this`tree, this`chain
      ensures Valid() && Fit(old(Now())) && Now() == Step(old(Now()), Remove(key, value), max)
      ensures found ==> old(multiset(Contents())) == multiset(Contents()) + multiset{(key, value)}
      ensures !found ==> Contents() == old(Contents())
      ensures old(Sorted()) ==> Sorted() && (found <==> (key, value) in old(Contents()))
    {
      hide Stored, Sized, ChainOf, SearchTree, Rep, Shape, Entries, Ids, Del, Bag;
      if tree.Some? {
        StoredShape(pages, tree.value, count);
      }
      if root == 0 {
        return false;
      }
      ghost var t, before := tree.value, pages;
      DeleteMeets(pages, t, key, value, max, count);
      found := DeleteRec(root, key, value, t);
      if found {
        DeleteFacts(before, pages, t, key, value, max, count);
        ghost var i, leaf := DeletedChain(t, chain, key, value);
        chain := chain[i := leaf];
        tree := Del(t, key, value);
      }
    }

    /** `delete_rec`: tries every child that may hold the key. */
    method DeleteRec(id: nat, key: Key, value: nat, ghost t: Tree) returns (found: bool)
      requires t.id == id && Stored(pages, t, count)
      modifies this`pages
      ensures found <==> Del(t, key, value).Some?
      ensures !found ==> pages == old(pages)
      ensures found ==> Rep(pages, Del(t, key, value).value) && Framed(old(pages), pages, Ids(t), count, count)
      decreases t
    {
      match pages[id]
      case LeafPage(next, keys, vals) =>
        var at := LeafSlot(keys, vals, key, value);
        if at < |keys| && keys[at] == key && vals[at] == value {
          pages := pages[id := LeafPage(next, RemoveAt(keys, at), RemoveAt(vals, at))];
          return true;
        }
        return false;
      case NodePage(keys, kids) =>
        found := DeleteKids(keys, kids, key, value, t);
    }

    method DeleteKids(keys: seq<Key>, kids: seq<nat>, key: Key, value: nat, ghost t: Tree) returns (found: bool)
      requires t.Node? && Stored(pages, t, count) && keys == t.keys && kids == KidIds(t.kids)
      modifies this`pages
      ensures found <==> Del(t, key, value).Some?
      ensures !found ==> pages == old(pages)
      ensures found ==> Rep(pages, Del(t, key, value).value) && Framed(old(pages), pages, Ids(t), count, count)
      decreases t, 0
    {
      hide Stored, Rep, Ids, Framed;
      StoredShape(pages, t, count);
      var i: nat, last := Below(keys, key), AtMost(keys, key);
      while i <= last
        invariant pages == old(pages)
        invariant DelKids(t.kids, i, last, key, value) == DelKids(t.kids, Below(keys, key), last, key, value)
        decreases last + 1 - i
      {
        StoredChild(pages, t, count, i);
        var hit := DeleteRec(kids[i], key, value, t.kids[i]);
        if hit {
          DeletedKid(old(pages), pages, t, i, key, value, count);
          return true;
        }
        i := i + 1;
      }
      return false;
    }

    /** `scan`: in an ordered tree exactly the closed range; without bounds every entry once; in
        any tree what the walk along the chain collects from its starting leaf on. */
    method Scan(lo: Option<Key>, hi: Option<Key>) returns (out: seq<Entry>)
      requires Valid()
      ensures Sorted() ==> out == Range(Contents(), lo, hi)
      ensures lo == None && hi == None ==> multiset(out) == multiset(Contents())
      ensures tree.Some? ==> ReadsChain(tree.value, chain, lo, hi, out)
    {
      hide Stored, Sized, ChainOf, SearchTree, Rep, Shape, Entries, Ids, Range, Collect, Leaves, ReadsChain;
      if tree.Some? {
        StoredShape(pages, tree.value, count);
      }
      if root == 0 {
        EmptyRange(lo, hi);
        return [];
      }
      ghost var t := tree.value;
      var first := Descend(lo);
      ghost var j := ScanPath(pages, t, max, count, chain, lo, hi);
      out := Walk(first, lo, hi, chain, j);
      ReadsIt(t, chain, j, lo, hi, out);
    }

    /** The descent to the first leaf of the range; past it if all its keys are below. */
    method Descend(lo: Option<Key>) returns (id: nat)
      requires Valid() && tree.Some?
      ensures id == StartId(tree.value, lo)
    {
      id := root;
      ghost var cur := tree.value;
      while pages[id].NodePage?
        invariant Shape(cur) && Rep(pages, cur) && cur.id == id && StartLeaf(cur, lo) == StartLeaf(tree.value, lo)
        decreases cur
      {
        var c := ScanChild(pages[id].keys, lo);
        id := pages[id].kids[c];
        cur := cur.kids[c];
      }
      if SkipFirst(pages[id].keys, lo) {
        id := pages[id].next;
      }
    }

    /** The walk along the leaf chain. */
    method Walk(first: nat, lo: Option<Key>, hi: Option<Key>, ghost ls: seq<Tree>, ghost start: nat) returns (out: seq<Entry>)
      requires start <= |ls| && first == IdAt(ls, start) && OnPages(pages, ls) && Chained(ls, 0)
      ensures AllShape(ls[start..]) && out == Collect(EntriesAll(ls[start..]), lo, hi)
    {
      hide Collect, EntriesAll, Chained, Entries;
      var id := first;
      ghost var j := start;
      ghost var all := EntriesAll(ls[start..]);
      out := [];
      while id != 0
        invariant start <= j <= |ls| && id == IdAt(ls, j)
        invariant AllShape(ls[j..]) && out + Collect(EntriesAll(ls[j..]), lo, hi) == Collect(all, lo, hi)
        decreases |ls| - j
      {
        LeafAt(pages, ls, j);
        var stop;
        out, stop := TakeLeaf(pages[id].keys, pages[id].vals, lo, hi, out, EntriesAll(ls[j + 1..]), Collect(all, lo, hi));
        if stop {
          return;
        }
        id := pages[id].next;
        j := j + 1;
      }
      NothingLeft(ls, j, lo, hi);
    }

    /** One leaf of the walk: `stop` when an entry lies above the range. */
    method TakeLeaf(keys: seq<Key>, vals: seq<nat>, lo: Option<Key>, hi: Option<Key>, out0: seq<Entry>,
                    ghost rest: seq<Entry>, ghost all: seq<Entry>)
      returns (out: seq<Entry>, stop: bool)
      requires |keys| == |vals| && out0 + Collect(Zip(keys, vals) + rest, lo, hi) == all
      ensures if stop then out == all else out + Collect(rest, lo, hi) == all
    {
      ghost var es := Zip(keys, vals);
      out := out0;
      var i: nat := 0;
      while i < |keys|
        invariant i <= |keys| && out + Collect(es[i..] + rest, lo, hi) == all
      {
        assert (es[i..] + rest)[1..] == es[i + 1..] + rest && (es[i..] + rest)[0] == (keys[i], vals[i]);
        if lo.Some? && keys[i] < lo.value {
          i := i + 1;
          continue;
        }
        if hi.Some? && hi.value < keys[i] {
          return out, true;
        }
        out := out + [(keys[i], vals[i])];
        i := i + 1;
      }
      assert es[i..] + rest == rest;
      stop := false;
    }

    method StoreLeaf(id: nat, next: nat, keys: seq<Key>, vals: seq<nat>) returns (split: Option<(Key, nat)>)
      requires |keys| == |vals| && id < count && (forall p <- pages :: p < count) && id in pages
      modifies this`pages, this`count
      ensures var o := CutLeaf(id, next, keys, vals, max, old(count));
        && count == o.count
        && Rep(pages, o.left)
        && (o.split.None? ==> split == None)
        && (o.split.Some? ==> split == Some((o.split.value.0, o.split.value.1.id)) && Rep(pages, o.split.value.1))
      ensures Framed(old(pages), pages, {id}, old(count), count)
    {
      if |keys| <= max {
        pages := pages[id := LeafPage(next, keys, vals)];
        return None;
      }
      var mid := |keys| / 2;
      var rightId := count;
      count := count + 1;
      pages := pages[rightId := LeafPage(next, keys[mid..], vals[mid..])];
      pages := pages[id := LeafPage(rightId, keys[..mid], vals[..mid])];
      return Some((keys[mid], rightId));
    }

    method StoreNode(id: nat, keys: seq<Key>, kids: seq<nat>, ghost t: Tree, ghost c: nat, ghost o: Out,
                     ghost before: Pages, ghost beforeCount: nat, ghost key: Key, ghost value: nat)
      returns (split: Option<(Key, nat)>)
      requires Growing(before, pages, t, c, o, beforeCount, key, value, max) && t.id == id && count == o.count
      requires keys == GrowKeys(t.keys, o) && kids == KidIds(GrowKids(t.keys, t.kids, c, o))
      modifies this`pages, this`count
      ensures var out := Ins(t, key, value, max, beforeCount);
        && count == out.count
        && Rep(pages, out.left)
        && (out.split.None? ==> split == None)
        && (out.split.Some? ==> split == Some((out.split.value.0, out.split.value.1.id)) && Rep(pages, out.split.value.1))
      ensures Framed(before, pages, Ids(t), beforeCount, count)
    {
      hide Stored, Apart, Shape, Rep, Framed, Ins, Ids, GrowKids, GrowKeys;
      if |keys| <= max {
        StoreKept(before, pages, t, c, o, beforeCount, key, value, max);
        pages := pages[id := NodePage(keys, kids)];
        split := None;
      } else {
        StoreCut(before, pages, t, c, o, beforeCount, key, value, max);
        var mid := |keys| / 2;
        var rightId := count;
        count := count + 1;
        pages := pages[rightId := NodePage(keys[mid + 1..], kids[mid + 1..])];
        pages := pages[id := NodePage(keys[..mid], kids[..mid + 1])];
        split := Some((keys[mid], rightId));
      }
    }
  }
}
