/** The disk B+ tree (btree.rs) as a tree value: insertion with splits, deletion without
    merging, and what they do to contents, order, leaf chain and node size. Keys stand for
    byte strings by their rank in lexicographic order (see `KeyRank`). */
module BTree {
  import opened Basics

  type Key = nat

  /** A node with its page number: a leaf holds row positions and the next leaf, an inner
      node its children. */
  datatype Tree =
    | Leaf(id: nat, next: nat, keys: seq<Key>, vals: seq<nat>)
    | Node(id: nat, keys: seq<Key>, kids: seq<Tree>)

  type Entry = (Key, nat)

  // ---- Positions in a node ----

  /** `partition_point(k <= key)`: the child to follow. */
  function AtMost(keys: seq<Key>, key: Key): (n: nat)
    ensures n <= |keys|
    ensures forall i | 0 <= i < n :: keys[i] <= key
    ensures n < |keys| ==> key < keys[n]
  {
    if keys == [] || key < keys[0] then 0 else 1 + AtMost(keys[1..], key)
  }

  /** `partition_point(k < key)`. */
  function Below(keys: seq<Key>, key: Key): (n: nat)
    ensures n <= |keys|
    ensures forall i | 0 <= i < n :: keys[i] < key
    ensures n < |keys| ==> key <= keys[n]
  {
    if keys == [] || key <= keys[0] then 0 else 1 + Below(keys[1..], key)
  }

  function SkipLess(keys: seq<Key>, vals: seq<nat>, key: Key, value: nat, i: nat): (n: nat)
    requires |keys| == |vals| && i <= |keys|
    ensures i <= n <= |keys|
    ensures forall j | i <= j < n :: keys[j] == key && vals[j] < value
    ensures n < |keys| && keys[n] == key ==> value <= vals[n]
    decreases |keys| - i
  {
    if i < |keys| && keys[i] == key && vals[i] < value then SkipLess(keys, vals, key, value, i + 1) else i
  }

  /** `leaf_slot`: equal keys are ordered by value. */
  function LeafSlot(keys: seq<Key>, vals: seq<nat>, key: Key, value: nat): (n: nat)
    requires |keys| == |vals|
    ensures n <= |keys|
  {
    SkipLess(keys, vals, key, value, Below(keys, key))
  }

  function InsertAt<T>(s: seq<T>, at: nat, x: T): (r: seq<T>)
    requires at <= |s|
    ensures |r| == |s| + 1
    ensures forall i | 0 <= i < |r| :: r[i] == if i < at then s[i] else if i == at then x else s[i - 1]
  {
    s[..at] + [x] + s[at..]
  }

  function RemoveAt<T>(s: seq<T>, at: nat): (r: seq<T>)
    requires at < |s|
    ensures |r| == |s| - 1
    ensures forall i | 0 <= i < |r| :: r[i] == if i < at then s[i] else s[i + 1]
  {
    s[..at] + s[at + 1..]
  }

  // ---- Shape and contents ----

  predicate Shape(t: Tree) {
    match t
    case Leaf(_, _, keys, vals) => |keys| == |vals|
    case Node(_, keys, kids) => |kids| == |keys| + 1 && forall i | 0 <= i < |kids| :: Shape(kids[i])
  }

  predicate AllShape(kids: seq<Tree>) {
    forall i | 0 <= i < |kids| :: Shape(kids[i])
  }

  function Zip(keys: seq<Key>, vals: seq<nat>): (r: seq<Entry>)
    requires |keys| == |vals|
    ensures |r| == |keys|
    ensures forall i | 0 <= i < |r| :: r[i] == (keys[i], vals[i])
  {
    seq(|keys|, i requires 0 <= i < |keys| => (keys[i], vals[i]))
  }

  /** The entries of a tree from left to right. */
  function Entries(t: Tree): seq<Entry>
    requires Shape(t)
    decreases t, 1
  {
    match t
    case Leaf(_, _, keys, vals) => Zip(keys, vals)
    case Node(_, _, kids) => EntriesAll(kids)
  }

  function EntriesAll(kids: seq<Tree>): seq<Entry>
    requires AllShape(kids)
    decreases kids, 0
  {
    if kids == [] then [] else Entries(kids[0]) + EntriesAll(kids[1..])
  }

  /** The entries of a tree with their multiplicity. */
  function Bag(t: Tree): multiset<Entry>
    requires Shape(t)
  {
    multiset(Entries(t))
  }

  function BagAll(kids: seq<Tree>): multiset<Entry>
    requires AllShape(kids)
  {
    multiset(EntriesAll(kids))
  }

  lemma {:induction false} EntriesSplit(a: seq<Tree>, b: seq<Tree>)
    requires AllShape(a) && AllShape(b)
    ensures EntriesAll(a + b) == EntriesAll(a) + EntriesAll(b)
    decreases |a|
  {
    if a == [] {
      assert a + b == b;
    } else {
      assert (a + b)[1..] == a[1..] + b;
      EntriesSplit(a[1..], b);
    }
  }

  lemma EntriesOne(t: Tree)
    requires Shape(t)
    ensures EntriesAll([t]) == Entries(t)
  {
    assert [t][1..] == [];
    assert EntriesAll([t]) == Entries(t) + EntriesAll([]);
  }

  /** The children around position `c`. */
  lemma EntriesAround(kids: seq<Tree>, c: nat)
    requires c < |kids| && AllShape(kids)
    ensures EntriesAll(kids) == EntriesAll(kids[..c]) + Entries(kids[c]) + EntriesAll(kids[c + 1..])
  {
    hide Shape, EntriesAll, Entries;
    EntriesAroundOne(kids[..c], kids[c], kids[c + 1..]);
    Around(kids, c);
  }

  lemma EntriesAroundOne(a: seq<Tree>, t: Tree, b: seq<Tree>)
    requires AllShape(a) && Shape(t) && AllShape(b)
    ensures EntriesAll(a + ([t] + b)) == EntriesAll(a) + Entries(t) + EntriesAll(b)
  {
    EntriesSplit(a, [t] + b);
    EntriesSplit([t], b);
    EntriesOne(t);
  }

  // ---- Insertion ----

  /** The node on its old page, and the key and right node handed up by a split; `count` is
      the next free page number. */
  datatype Out = Out(left: Tree, split: Option<(Key, Tree)>, count: nat)

  /** Store a leaf, splitting it if it has too many keys. */
  function CutLeaf(id: nat, next: nat, keys: seq<Key>, vals: seq<nat>, max: nat, count: nat): Out
    requires |keys| == |vals|
  {
    var mid := |keys| / 2;
    if |keys| <= max then Out(Leaf(id, next, keys, vals), None, count)
    else Out(Leaf(id, count, keys[..mid], vals[..mid]), Some((keys[mid], Leaf(count, next, keys[mid..], vals[mid..]))), count + 1)
  }

  /** Store an inner node, splitting it if it has too many keys. */
  function CutNode(id: nat, keys: seq<Key>, kids: seq<Tree>, max: nat, count: nat): Out
    requires |kids| == |keys| + 1
  {
    var mid := |keys| / 2;
    if |keys| <= max then Out(Node(id, keys, kids), None, count)
    else Out(Node(id, keys[..mid], kids[..mid + 1]), Some((keys[mid], Node(count, keys[mid + 1..], kids[mid + 1..]))), count + 1)
  }

  /** The keys of an inner node after child `c` was stored again. */
  function GrowKeys(keys: seq<Key>, o: Out): seq<Key> {
    if o.split.None? then keys else InsertAt(keys, AtMost(keys, o.split.value.0), o.split.value.0)
  }

  /** Its children: the place of a new right node is found from its key, not from `c`. */
  function GrowKids(keys: seq<Key>, kids: seq<Tree>, c: nat, o: Out): seq<Tree>
    requires c < |kids| == |keys| + 1
  {
    if o.split.None? then kids[c := o.left]
    else InsertAt(kids[c := o.left], AtMost(keys, o.split.value.0) + 1, o.split.value.1)
  }

  /** btree.rs `insert_rec`. */
  function Ins(t: Tree, key: Key, value: nat, max: nat, count: nat): Out
    requires Shape(t)
    decreases t
  {
    match t
    case Leaf(id, next, keys, vals) =>
      var at := LeafSlot(keys, vals, key, value);
      CutLeaf(id, next, InsertAt(keys, at, key), InsertAt(vals, at, value), max, count)
    case Node(id, keys, kids) =>
      var c := AtMost(keys, key);
      var o := Ins(kids[c], key, value, max, count);
      CutNode(id, GrowKeys(keys, o), GrowKids(keys, kids, c, o), max, o.count)
  }

  predicate OutShape(o: Out) {
    Shape(o.left) && (o.split.Some? ==> Shape(o.split.value.1))
  }

  lemma GrowShape(keys: seq<Key>, kids: seq<Tree>, c: nat, o: Out)
    requires c < |kids| == |keys| + 1 && AllShape(kids) && OutShape(o)
    ensures |GrowKids(keys, kids, c, o)| == |GrowKeys(keys, o)| + 1 && AllShape(GrowKids(keys, kids, c, o))
  {
  }

  lemma CutNodeShape(id: nat, keys: seq<Key>, kids: seq<Tree>, max: nat, count: nat)
    requires |kids| == |keys| + 1 && AllShape(kids)
    ensures OutShape(CutNode(id, keys, kids, max, count))
  {
  }

  /** The stored node keeps its page and kind; new nodes get new pages. */
  lemma {:induction false} InsShape(t: Tree, key: Key, value: nat, max: nat, count: nat)
    requires Shape(t)
    ensures var o := Ins(t, key, value, max, count);
      && OutShape(o) && o.left.id == t.id && o.left.Leaf? == t.Leaf?
      && count <= o.count
      && (o.split.Some? ==> o.split.value.1.id == o.count - 1 && count < o.count)
    decreases t
  {
    if t.Node? {
      var c := AtMost(t.keys, key);
      InsShape(t.kids[c], key, value, max, count);
      var o := Ins(t.kids[c], key, value, max, count);
      GrowShape(t.keys, t.kids, c, o);
      CutNodeShape(t.id, GrowKeys(t.keys, o), GrowKids(t.keys, t.kids, c, o), max, o.count);
    }
  }

  function OutBag(o: Out): multiset<Entry>
    requires OutShape(o)
  {
    if o.split.None? then Bag(o.left) else Bag(o.left) + Bag(o.split.value.1)
  }

  lemma CutLeafBag(id: nat, next: nat, keys: seq<Key>, vals: seq<nat>, max: nat, count: nat)
    requires |keys| == |vals|
    ensures OutBag(CutLeaf(id, next, keys, vals, max, count)) == multiset(Zip(keys, vals))
  {
    var mid := |keys| / 2;
    assert Zip(keys, vals) == Zip(keys[..mid], vals[..mid]) + Zip(keys[mid..], vals[mid..]);
  }

  lemma CutNodeBag(id: nat, keys: seq<Key>, kids: seq<Tree>, max: nat, count: nat)
    requires |kids| == |keys| + 1 && AllShape(kids)
    ensures OutShape(CutNode(id, keys, kids, max, count))
    ensures OutBag(CutNode(id, keys, kids, max, count)) == BagAll(kids)
  {
    var mid := |keys| / 2;
    if |keys| > max {
      assert kids == kids[..mid + 1] + kids[mid + 1..];
      EntriesSplit(kids[..mid + 1], kids[mid + 1..]);
    }
  }

  lemma InsertBag(kids: seq<Tree>, at: nat, x: Tree)
    requires at <= |kids| && Shape(x) && AllShape(kids)
    ensures BagAll(InsertAt(kids, at, x)) == BagAll(kids) + Bag(x)
  {
    assert InsertAt(kids, at, x) == kids[..at] + ([x] + kids[at..]);
    EntriesSplit(kids[..at], [x] + kids[at..]);
    EntriesSplit([x], kids[at..]);
    EntriesOne(x);
    assert kids == kids[..at] + kids[at..];
    EntriesSplit(kids[..at], kids[at..]);
  }

  lemma UpdateBag(kids: seq<Tree>, c: nat, x: Tree)
    requires c < |kids| && Shape(x) && AllShape(kids)
    ensures BagAll(kids[c := x]) + Bag(kids[c]) == BagAll(kids) + Bag(x)
  {
    EntriesAround(kids, c);
    var after := kids[c := x];
    EntriesAround(after, c);
    assert after[..c] == kids[..c] && after[c + 1..] == kids[c + 1..];
  }

  lemma GrowBag(keys: seq<Key>, kids: seq<Tree>, c: nat, o: Out, e: Entry)
    requires c < |kids| == |keys| + 1 && AllShape(kids) && OutShape(o)
    requires OutBag(o) == Bag(kids[c]) + multiset{e}
    ensures BagAll(GrowKids(keys, kids, c, o)) == BagAll(kids) + multiset{e}
  {
    var after := kids[c := o.left];
    UpdateBag(kids, c, o.left);
    if o.split.None? {
      Cancel(BagAll(after), Bag(kids[c]), BagAll(kids), Bag(o.left), multiset{}, multiset{e});
    } else {
      InsertBag(after, AtMost(keys, o.split.value.0) + 1, o.split.value.1);
      Cancel(BagAll(after), Bag(kids[c]), BagAll(kids), Bag(o.left), Bag(o.split.value.1), multiset{e});
    }
  }

  lemma Cancel(x: multiset<Entry>, k: multiset<Entry>, a: multiset<Entry>, l: multiset<Entry>, r: multiset<Entry>, e: multiset<Entry>)
    requires x + k == a + l && l + r == k + e
    ensures x + r == a + e
  {
    forall z
      ensures (x + r)[z] == (a + e)[z]
    {
      assert (x + k)[z] == (a + l)[z] && (l + r)[z] == (k + e)[z];
    }
  }

  /** Insertion adds exactly the given entry, whatever the keys are. */
  lemma {:induction false} InsConserves(t: Tree, key: Key, value: nat, max: nat, count: nat)
    requires Shape(t)
    ensures OutShape(Ins(t, key, value, max, count))
    ensures OutBag(Ins(t, key, value, max, count)) == Bag(t) + multiset{(key, value)}
    decreases t
  {
    InsShape(t, key, value, max, count);
    match t
    case Leaf(id, next, keys, vals) =>
      InsLeafBag(id, next, keys, vals, key, value, max, count);
    case Node(id, keys, kids) =>
      var c := AtMost(keys, key);
      var o := Ins(kids[c], key, value, max, count);
      InsConserves(kids[c], key, value, max, count);
      GrowBag(keys, kids, c, o, (key, value));
      GrowShape(keys, kids, c, o);
      CutNodeBag(id, GrowKeys(keys, o), GrowKids(keys, kids, c, o), max, o.count);
  }

  lemma InsLeafBag(id: nat, next: nat, keys: seq<Key>, vals: seq<nat>, key: Key, value: nat, max: nat, count: nat)
    requires |keys| == |vals|
    ensures OutBag(Ins(Leaf(id, next, keys, vals), key, value, max, count)) == multiset(Zip(keys, vals)) + multiset{(key, value)}
  {
    var at := LeafSlot(keys, vals, key, value);
    CutLeafBag(id, next, InsertAt(keys, at, key), InsertAt(vals, at, value), max, count);
    assert Zip(InsertAt(keys, at, key), InsertAt(vals, at, value)) == InsertAt(Zip(keys, vals), at, (key, value));
    InsertAtBag(Zip(keys, vals), at, (key, value));
  }

  lemma InsertAtBag(s: seq<Entry>, at: nat, e: Entry)
    requires at <= |s|
    ensures multiset(InsertAt(s, at, e)) == multiset(s) + multiset{e}
  {
    assert s == s[..at] + s[at..];
  }

  // ---- Node sizes ----

  /** No node has more than `max` keys. */
  predicate Sized(t: Tree, max: nat)
    decreases t
  {
    |t.keys| <= max && (t.Node? ==> forall i | 0 <= i < |t.kids| :: Sized(t.kids[i], max))
  }

  predicate OutSized(o: Out, max: nat) {
    Sized(o.left, max) && (o.split.Some? ==> Sized(o.split.value.1, max))
  }
}
