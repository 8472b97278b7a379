/** The order of the B+ tree (btree.rs), repeated keys included: separators and leaf keys do
    not decrease, and few enough keys of a node equal its upper bound that a split never hands
    that bound up again. Insertion keeps this for every odd order, and for an even order as
    long as no key has more than half the order of entries. */
module BTreeOrder {
  import opened Basics
  import opened BTree

  // ---- Order ----

  /** How many keys a split leaves in the left node. */
  function Mid(max: nat): nat {
    (max + 1) / 2
  }

  /** How many keys of a node may equal its upper bound. */
  function Cap(max: nat): (c: nat)
    ensures c == max - Mid(max)
  {
    max - Mid(max)
  }

  /** The order is `max + 1`. */
  predicate EvenOrder(max: nat) {
    max % 2 == 1
  }

  predicate NonDecreasing(keys: seq<Key>) {
    forall i, j | 0 <= i < j < |keys| :: keys[i] <= keys[j]
  }

  predicate Increasing(keys: seq<Key>) {
    forall i, j | 0 <= i < j < |keys| :: keys[i] < keys[j]
  }

  /** Equal keys in a leaf are ordered by value. */
  predicate PairsSorted(keys: seq<Key>, vals: seq<nat>)
    requires |keys| == |vals|
  {
    forall i, j | 0 <= i < j < |keys| :: keys[i] < keys[j] || (keys[i] == keys[j] && vals[i] <= vals[j])
  }

  predicate Within(keys: seq<Key>, lo: int, hi: int) {
    forall i | 0 <= i < |keys| :: lo <= keys[i] <= hi
  }

  /** At most `cap` of the sorted keys equal the upper bound. */
  predicate Room(keys: seq<Key>, hi: int, cap: nat) {
    |keys| > cap ==> keys[|keys| - 1 - cap] < hi
  }

  /** The bounds of child `i` between its separators. */
  function LoAt(keys: seq<Key>, lo: int, i: nat): int
    requires i <= |keys|
  {
    if i == 0 then lo else keys[i - 1]
  }

  function HiAt(keys: seq<Key>, hi: int, i: nat): int
    requires i <= |keys|
  {
    if i < |keys| then keys[i] else hi
  }

  /** Separators of an inner node; for an even order they do not repeat. */
  predicate Separators(keys: seq<Key>, lo: int, hi: int, max: nat) {
    && NonDecreasing(keys) && Within(keys, lo, hi) && Room(keys, hi, Cap(max))
    && (EvenOrder(max) ==> Increasing(keys) && forall i | 0 <= i < |keys| :: lo < keys[i])
  }

  predicate LeafOrdered(keys: seq<Key>, vals: seq<nat>, lo: int, hi: int, max: nat) {
    |keys| == |vals| && PairsSorted(keys, vals) && Within(keys, lo, hi) && Room(keys, hi, Cap(max))
  }

  /** A search tree with all keys between the bounds. */
  predicate Ordered(t: Tree, lo: int, hi: int, max: nat)
    decreases t
  {
    match t
    case Leaf(_, _, keys, vals) => LeafOrdered(keys, vals, lo, hi, max)
    case Node(_, keys, kids) =>
      && |kids| == |keys| + 1
      && Separators(keys, lo, hi, max)
      && forall i | 0 <= i < |kids| :: Ordered(kids[i], LoAt(keys, lo, i), HiAt(keys, hi, i), max)
  }

  predicate OrderedKids(keys: seq<Key>, kids: seq<Tree>, lo: int, hi: int, max: nat) {
    && |kids| == |keys| + 1
    && Separators(keys, lo, hi, max)
    && forall i | 0 <= i < |kids| :: Ordered(kids[i], LoAt(keys, lo, i), HiAt(keys, hi, i), max)
  }

  lemma WiderKeys(keys: seq<Key>, lo: int, hi: int, lo': int, hi': int, cap: nat)
    requires Within(keys, lo, hi) && Room(keys, hi, cap) && lo' <= lo && hi <= hi'
    ensures Within(keys, lo', hi') && Room(keys, hi', cap)
  {
  }

  /** Wider bounds hold as well. */
  lemma {:induction false} OrderedWider(t: Tree, lo: int, hi: int, lo': int, hi': int, max: nat)
    requires Ordered(t, lo, hi, max) && lo' <= lo && hi <= hi'
    ensures Ordered(t, lo', hi', max)
    decreases t
  {
    WiderKeys(t.keys, lo, hi, lo', hi', Cap(max));
    if t.Node? {
      forall i | 0 <= i < |t.kids|
        ensures Ordered(t.kids[i], LoAt(t.keys, lo', i), HiAt(t.keys, hi', i), max)
      {
        OrderedWider(t.kids[i], LoAt(t.keys, lo, i), HiAt(t.keys, hi, i), LoAt(t.keys, lo', i), HiAt(t.keys, hi', i), max);
      }
    }
  }

  // ---- How often a key occurs ----

  function CountKey(s: seq<Entry>, k: Key): nat {
    if s == [] then 0 else (if s[0].0 == k then 1 else 0) + CountKey(s[1..], k)
  }

  lemma {:induction false} CountSplit(a: seq<Entry>, b: seq<Entry>, k: Key)
    ensures CountKey(a + b, k) == CountKey(a, k) + CountKey(b, k)
    decreases |a|
  {
    if a == [] {
      assert a + b == b;
    } else {
      assert (a + b)[1..] == a[1..] + b;
      CountSplit(a[1..], b, k);
    }
  }

  /** The count depends only on the entries, not on their order. */
  lemma {:induction false} CountBag(a: seq<Entry>, b: seq<Entry>, k: Key)
    requires multiset(a) == multiset(b)
    ensures CountKey(a, k) == CountKey(b, k)
    decreases |a|
  {
    if a == [] {
      assert |multiset(b)| == 0;
    } else {
      var i := SameElement(a, b);
      CountBag(a[1..], b[..i] + b[i + 1..], k);
      CountSplit(b[..i], b[i + 1..], k);
      CountSplit(b[..i], [b[i]] + b[i + 1..], k);
      Around(b, i);
      assert ([b[i]] + b[i + 1..])[1..] == b[i + 1..];
    }
  }

  lemma Position(s: seq<Entry>, x: Entry) returns (i: nat)
    requires x in multiset(s)
    ensures i < |s| && s[i] == x
  {
    i :| 0 <= i < |s| && s[i] == x;
  }

  lemma FromFirst(s: seq<Entry>)
    requires s != []
    ensures s[..0] + s[1..] == s[1..] && s[0] in multiset(s)
  {
  }

  lemma SameElement(a: seq<Entry>, b: seq<Entry>) returns (i: nat)
    requires a != [] && multiset(a) == multiset(b)
    ensures i < |b| && b[i] == a[0] && multiset(a[1..]) == multiset(b[..i] + b[i + 1..])
  {
    FromFirst(a);
    i := Position(b, a[0]);
    Without(a, 0);
    Without(b, i);
  }

  lemma Without(s: seq<Entry>, i: nat)
    requires i < |s|
    ensures multiset(s[..i] + s[i + 1..]) == multiset(s) - multiset{s[i]}
  {
    Around(s, i);
    var a, b := s[..i], s[i + 1..];
    assert multiset(a + [s[i]] + b) == multiset(a) + multiset{s[i]} + multiset(b);
  }

  /** No key has more than `limit` entries. */
  ghost predicate Limited(s: seq<Entry>, limit: nat) {
    forall k: Key :: CountKey(s, k) <= limit
  }

  /** With one more entry under `key`, no key has more than half the order of entries; needed
      for even orders only. */
  ghost predicate MayAdd(s: seq<Entry>, key: Key, max: nat) {
    EvenOrder(max) ==> forall k: Key :: CountKey(s, k) + (if k == key then 1 else 0) <= Mid(max)
  }

  lemma MayAddChild(kids: seq<Tree>, c: nat, key: Key, max: nat)
    requires AllShape(kids) && c < |kids| && MayAdd(EntriesAll(kids), key, max)
    ensures MayAdd(Entries(kids[c]), key, max)
  {
    if EvenOrder(max) {
      EntriesAround(kids, c);
      var a, b, d := EntriesAll(kids[..c]), Entries(kids[c]), EntriesAll(kids[c + 1..]);
      forall k: Key
        ensures CountKey(b, k) + (if k == key then 1 else 0) <= Mid(max)
      {
        CountSplit(a + b, d, k);
        CountSplit(a, b, k);
        assert CountKey(EntriesAll(kids), k) + (if k == key then 1 else 0) <= Mid(max);
      }
    }
  }

  lemma {:induction false} CountPrefix(s: seq<Entry>, k: Key, n: nat)
    requires n <= |s| && forall i | 0 <= i < n :: s[i].0 == k
    ensures CountKey(s, k) >= n
    decreases n
  {
    if n > 0 {
      CountPrefix(s[1..], k, n - 1);
    }
  }

  lemma CountInserted(s: seq<Entry>, at: nat, e: Entry, k: Key)
    requires at <= |s|
    ensures CountKey(InsertAt(s, at, e), k) == CountKey(s, k) + (if k == e.0 then 1 else 0)
  {
    CountSplit(s[..at], s[at..], k);
    CountSplit(s[..at], [e] + s[at..], k);
    Halves(s, at);
    assert InsertAt(s, at, e) == s[..at] + ([e] + s[at..]);
    assert ([e] + s[at..])[1..] == s[at..];
  }

  // ---- Insertion into a leaf ----

  /** What an insertion leaves behind, in order. */
  predicate OutOrdered(o: Out, lo: int, hi: int, max: nat) {
    if o.split.None? then Ordered(o.left, lo, hi, max)
    else
      && lo <= o.split.value.0 < hi && (EvenOrder(max) ==> lo < o.split.value.0)
      && Ordered(o.left, lo, o.split.value.0, max) && Ordered(o.split.value.1, o.split.value.0, hi, max)
  }

  lemma SortedKeys(keys: seq<Key>, vals: seq<nat>)
    requires |keys| == |vals| && PairsSorted(keys, vals)
    ensures NonDecreasing(keys)
  {
  }

  lemma SlotSorted(keys: seq<Key>, vals: seq<nat>, key: Key, value: nat)
    requires |keys| == |vals| && PairsSorted(keys, vals)
    ensures var at := LeafSlot(keys, vals, key, value);
      && (forall i | 0 <= i < at :: keys[i] < key || (keys[i] == key && vals[i] <= value))
      && (forall i | at <= i < |keys| :: key < keys[i] || (keys[i] == key && value <= vals[i]))
  {
    var b, at := Below(keys, key), LeafSlot(keys, vals, key, value);
    forall i | at <= i < |keys|
      ensures key < keys[i] || (keys[i] == key && value <= vals[i])
    {
      assert at < i ==> keys[at] < keys[i] || (keys[at] == keys[i] && vals[at] <= vals[i]);
      assert b < at ==> keys[b] == key;
      assert b < i ==> keys[b] < keys[i] || keys[b] == keys[i];
    }
  }

  lemma InsertedPairs(keys: seq<Key>, vals: seq<nat>, at: nat, key: Key, value: nat)
    requires |keys| == |vals| && PairsSorted(keys, vals) && at <= |keys|
    requires forall i | 0 <= i < at :: keys[i] < key || (keys[i] == key && vals[i] <= value)
    requires forall i | at <= i < |keys| :: key < keys[i] || (keys[i] == key && value <= vals[i])
    ensures PairsSorted(InsertAt(keys, at, key), InsertAt(vals, at, value))
  {
  }

  /** A key below the bound leaves room as it was. */
  lemma InsertedRoom(keys: seq<Key>, at: nat, key: Key, hi: int, cap: nat)
    requires at <= |keys| && Room(keys, hi, cap) && key < hi
    requires forall i | 0 <= i < at :: keys[i] <= key
    ensures Room(InsertAt(keys, at, key), hi, cap)
  {
  }

  lemma LeafGrown(keys: seq<Key>, vals: seq<nat>, key: Key, value: nat, lo: int, hi: int, max: nat)
    requires LeafOrdered(keys, vals, lo, hi, max) && lo <= key < hi
    ensures var at := LeafSlot(keys, vals, key, value);
      && LeafOrdered(InsertAt(keys, at, key), InsertAt(vals, at, value), lo, hi, max)
      && PairsSorted(InsertAt(keys, at, key), InsertAt(vals, at, value))
  {
    hide Room, PairsSorted;
    var at := LeafSlot(keys, vals, key, value);
    SlotSorted(keys, vals, key, value);
    InsertedPairs(keys, vals, at, key, value);
    InsertedRoom(keys, at, key, hi, Cap(max));
  }

  lemma InsLeafOrdered(t: Tree, key: Key, value: nat, max: nat, count: nat, lo: int, hi: int)
    requires t.Leaf? && Ordered(t, lo, hi, max) && lo <= key < hi && 0 < max && |t.keys| <= max && MayAdd(Zip(t.keys, t.vals), key, max)
    ensures OutOrdered(Ins(t, key, value, max, count), lo, hi, max)
  {
    hide Within, Room, PairsSorted, MayAdd, InsertAt, LeafSlot;
    var at := LeafSlot(t.keys, t.vals, key, value);
    var keys, vals := InsertAt(t.keys, at, key), InsertAt(t.vals, at, value);
    LeafGrown(t.keys, t.vals, key, value, lo, hi, max);
    if |keys| > max && EvenOrder(max) {
      LeafSpreads(t.keys, t.vals, at, key, value, max);
    }
    CutLeafOrdered(t.id, t.next, keys, vals, max, count, lo, hi);
  }

  /** In a full leaf of an even order the middle key differs from the first. */
  lemma LeafSpreads(keys0: seq<Key>, vals0: seq<nat>, at: nat, key: Key, value: nat, max: nat)
    requires |keys0| == |vals0| && at <= |keys0| && MayAdd(Zip(keys0, vals0), key, max) && EvenOrder(max) && max <= |keys0|
    requires PairsSorted(InsertAt(keys0, at, key), InsertAt(vals0, at, value))
    ensures InsertAt(keys0, at, key)[0] < InsertAt(keys0, at, key)[Mid(max)]
  {
    var keys, vals := InsertAt(keys0, at, key), InsertAt(vals0, at, value);
    SortedKeys(keys, vals);
    if keys[0] == keys[Mid(max)] {
      var es := Zip(keys, vals);
      assert es == InsertAt(Zip(keys0, vals0), at, (key, value));
      CountPrefix(es, keys[0], Mid(max) + 1);
      CountInserted(Zip(keys0, vals0), at, (key, value), keys[0]);
    }
  }

  lemma CutLeafOrdered(id: nat, next: nat, keys: seq<Key>, vals: seq<nat>, max: nat, count: nat, lo: int, hi: int)
    requires LeafOrdered(keys, vals, lo, hi, max) && 0 < max && |keys| <= max + 1
    requires |keys| > max && EvenOrder(max) ==> keys[0] < keys[Mid(max)]
    ensures OutOrdered(CutLeaf(id, next, keys, vals, max, count), lo, hi, max)
  {
    if |keys| > max {
      SortedKeys(keys, vals);
      assert keys[Mid(max)] < hi;
    }
  }

  // ---- Insertion below an inner node ----

  lemma CutSeparators(keys: seq<Key>, lo: int, hi: int, max: nat)
    requires Separators(keys, lo, hi, max) && |keys| == max + 1 && 0 < max
    ensures var mid := Mid(max);
      && lo <= keys[mid] < hi && (EvenOrder(max) ==> lo < keys[mid])
      && Separators(keys[..mid], lo, keys[mid], max) && Separators(keys[mid + 1..], keys[mid], hi, max)
  {
    var mid := Mid(max);
    assert EvenOrder(max) ==> keys[0] < keys[mid];
  }

  /** Splitting an inner node keeps both halves in order around the key handed up. */
  lemma CutNodeOrdered(id: nat, keys: seq<Key>, kids: seq<Tree>, max: nat, count: nat, lo: int, hi: int)
    requires OrderedKids(keys, kids, lo, hi, max) && |keys| <= max + 1 && 0 < max
    ensures OutOrdered(CutNode(id, keys, kids, max, count), lo, hi, max)
  {
    hide Separators;
    var o := CutNode(id, keys, kids, max, count);
    if o.split.Some? {
      var mid := Mid(max);
      CutSeparators(keys, lo, hi, max);
      var left, right := o.left, o.split.value.1;
      forall i | 0 <= i < |right.kids|
        ensures Ordered(right.kids[i], LoAt(right.keys, keys[mid], i), HiAt(right.keys, hi, i), max)
      {
        assert right.kids[i] == kids[mid + 1 + i];
        assert LoAt(right.keys, keys[mid], i) == LoAt(keys, lo, mid + 1 + i);
        assert HiAt(right.keys, hi, i) == HiAt(keys, hi, mid + 1 + i);
      }
      forall i | 0 <= i < |left.kids|
        ensures Ordered(left.kids[i], LoAt(left.keys, lo, i), HiAt(left.keys, keys[mid], i), max)
      {
        assert left.kids[i] == kids[i];
        assert LoAt(left.keys, lo, i) == LoAt(keys, lo, i) && HiAt(left.keys, keys[mid], i) == HiAt(keys, hi, i);
      }
    }
  }

  /** The key of a new right node falls just after the separators left of its child, so the
      place found from the key is the place of the child. */
  lemma GrowPlace(keys: seq<Key>, lo: int, hi: int, c: nat, sep: Key, max: nat)
    requires Separators(keys, lo, hi, max) && c <= |keys| && LoAt(keys, lo, c) <= sep < HiAt(keys, hi, c)
    ensures AtMost(keys, sep) == c
  {
    assert forall i | 0 <= i < c :: keys[i] <= keys[c - 1];
  }

  lemma GrowSeparators(keys: seq<Key>, lo: int, hi: int, c: nat, sep: Key, max: nat)
    requires Separators(keys, lo, hi, max) && c <= |keys| && LoAt(keys, lo, c) <= sep < HiAt(keys, hi, c)
    requires EvenOrder(max) ==> LoAt(keys, lo, c) < sep
    ensures Separators(InsertAt(keys, c, sep), lo, hi, max)
  {
    var grown := InsertAt(keys, c, sep);
    assert forall i | 0 <= i < c :: keys[i] <= keys[c - 1];
    assert forall i | c <= i < |keys| :: keys[c] <= keys[i];
    assert sep < hi;
    InsertedRoom(keys, c, sep, hi, Cap(max));
    GrowSorted(keys, c, sep, max, lo);
  }

  lemma GrowSorted(keys: seq<Key>, c: nat, sep: Key, max: nat, lo: int)
    requires NonDecreasing(keys) && c <= |keys| && (forall i | 0 <= i < c :: keys[i] <= sep) && (forall i | c <= i < |keys| :: sep < keys[i])
    ensures NonDecreasing(InsertAt(keys, c, sep))
    ensures Increasing(keys) && (c > 0 ==> keys[c - 1] < sep) ==> Increasing(InsertAt(keys, c, sep))
  {
    if Increasing(keys) && (c > 0 ==> keys[c - 1] < sep) {
      assert forall i | 0 <= i < c :: keys[i] <= keys[c - 1];
    }
  }

  lemma GrowOrdered(keys: seq<Key>, kids: seq<Tree>, c: nat, o: Out, lo: int, hi: int, max: nat)
    requires OrderedKids(keys, kids, lo, hi, max) && c < |kids|
    requires OutOrdered(o, LoAt(keys, lo, c), HiAt(keys, hi, c), max)
    ensures |GrowKids(keys, kids, c, o)| == |GrowKeys(keys, o)| + 1
    ensures OrderedKids(GrowKeys(keys, o), GrowKids(keys, kids, c, o), lo, hi, max)
  {
    if o.split.Some? {
      hide Separators;
      var sep := o.split.value.0;
      GrowPlace(keys, lo, hi, c, sep, max);
      GrowSeparators(keys, lo, hi, c, sep, max);
      GrowOrderedKids(keys, kids, c, o, lo, hi, max);
    }
  }

  lemma GrowOrderedKids(keys: seq<Key>, kids: seq<Tree>, c: nat, o: Out, lo: int, hi: int, max: nat)
    requires OrderedKids(keys, kids, lo, hi, max) && c < |kids| && o.split.Some?
    requires OutOrdered(o, LoAt(keys, lo, c), HiAt(keys, hi, c), max) && AtMost(keys, o.split.value.0) == c
    ensures var keys', kids' := GrowKeys(keys, o), GrowKids(keys, kids, c, o);
      forall i | 0 <= i < |kids'| :: Ordered(kids'[i], LoAt(keys', lo, i), HiAt(keys', hi, i), max)
  {
    hide Separators;
    var keys', kids' := GrowKeys(keys, o), GrowKids(keys, kids, c, o);
    forall i | 0 <= i < |kids'|
      ensures Ordered(kids'[i], LoAt(keys', lo, i), HiAt(keys', hi, i), max)
    {
      if i < c {
        assert Ordered(kids[i], LoAt(keys, lo, i), HiAt(keys, hi, i), max);
      } else if i > c + 1 {
        assert Ordered(kids[i - 1], LoAt(keys, lo, i - 1), HiAt(keys, hi, i - 1), max);
      }
    }
  }

  /** The child to follow is one whose bounds contain the key. */
  lemma ChildBounds(keys: seq<Key>, lo: int, hi: int, key: Key)
    requires lo <= key < hi
    ensures LoAt(keys, lo, AtMost(keys, key)) <= key < HiAt(keys, hi, AtMost(keys, key))
  {
  }

  /** Insertion keeps the tree ordered through splits at every level: always for an odd order,
      and for an even one as long as no key gets more than half the order of entries. */
  lemma {:induction false} InsOrdered(t: Tree, key: Key, value: nat, max: nat, count: nat, lo: int, hi: int)
    requires Shape(t) && Ordered(t, lo, hi, max) && Sized(t, max) && lo <= key < hi && 0 < max
    requires MayAdd(Entries(t), key, max)
    ensures OutOrdered(Ins(t, key, value, max, count), lo, hi, max)
    decreases t
  {
    if t.Leaf? {
      InsLeafOrdered(t, key, value, max, count, lo, hi);
    } else {
      hide Separators, MayAdd;
      var c := AtMost(t.keys, key);
      var o := Ins(t.kids[c], key, value, max, count);
      ChildBounds(t.keys, lo, hi, key);
      MayAddChild(t.kids, c, key, max);
      InsOrdered(t.kids[c], key, value, max, count, LoAt(t.keys, lo, c), HiAt(t.keys, hi, c));
      GrowOrdered(t.keys, t.kids, c, o, lo, hi, max);
      CutNodeOrdered(t.id, GrowKeys(t.keys, o), GrowKids(t.keys, t.kids, c, o), max, o.count, lo, hi);
    }
  }

  // ---- Entries in order ----

  predicate SortedEntries(s: seq<Entry>) {
    forall i, j | 0 <= i < j < |s| :: s[i].0 <= s[j].0
  }

  predicate EntriesWithin(s: seq<Entry>, lo: int, hi: int) {
    forall i | 0 <= i < |s| :: lo <= s[i].0 <= hi
  }

  /** The entries of an ordered tree are sorted by key. */
  lemma {:induction false} OrderedSorted(t: Tree, lo: int, hi: int, max: nat)
    requires Shape(t) && Ordered(t, lo, hi, max)
    ensures SortedEntries(Entries(t)) && EntriesWithin(Entries(t), lo, hi)
    decreases t, 1
  {
    if t.Node? {
      KidsSorted(t.keys, t.kids, lo, hi, t, max);
    } else {
      SortedKeys(t.keys, t.vals);
    }
  }

  lemma {:induction false} KidsSorted(keys: seq<Key>, kids: seq<Tree>, lo: int, hi: int, t: Tree, max: nat)
    requires AllShape(kids) && OrderedKids(keys, kids, lo, hi, max)
    requires forall i | 0 <= i < |kids| :: kids[i] < t
    ensures SortedEntries(EntriesAll(kids)) && EntriesWithin(EntriesAll(kids), lo, hi)
    decreases t, 0, |kids|
  {
    OrderedSorted(kids[0], LoAt(keys, lo, 0), HiAt(keys, hi, 0), max);
    var head := Entries(kids[0]);
    if keys == [] {
      assert kids[1..] == [];
      assert EntriesAll(kids) == head;
    } else {
      KidsTail(keys, kids, lo, hi, max);
      KidsSorted(keys[1..], kids[1..], keys[0], hi, t, max);
      SortedConcat(head, EntriesAll(kids[1..]), lo, keys[0], hi);
    }
  }

  lemma KidsTail(keys: seq<Key>, kids: seq<Tree>, lo: int, hi: int, max: nat)
    requires OrderedKids(keys, kids, lo, hi, max) && keys != []
    ensures OrderedKids(keys[1..], kids[1..], keys[0], hi, max) && lo <= keys[0] <= hi
  {
    SeparatorsTail(keys, lo, hi, max);
    hide Separators;
    forall i | 0 <= i < |kids[1..]|
      ensures Ordered(kids[1..][i], LoAt(keys[1..], keys[0], i), HiAt(keys[1..], hi, i), max)
    {
      assert kids[1..][i] == kids[i + 1];
      assert LoAt(keys[1..], keys[0], i) == LoAt(keys, lo, i + 1) && HiAt(keys[1..], hi, i) == HiAt(keys, hi, i + 1);
    }
  }

  lemma SeparatorsTail(keys: seq<Key>, lo: int, hi: int, max: nat)
    requires Separators(keys, lo, hi, max) && keys != []
    ensures Separators(keys[1..], keys[0], hi, max) && lo <= keys[0] <= hi
  {
    var tail := keys[1..];
    forall i | 0 <= i < |tail|
      ensures keys[0] <= tail[i] <= hi && (EvenOrder(max) ==> keys[0] < tail[i])
    {
      assert tail[i] == keys[i + 1];
    }
    forall i, j | 0 <= i < j < |tail|
      ensures tail[i] <= tail[j] && (EvenOrder(max) ==> tail[i] < tail[j])
    {
      assert tail[i] == keys[i + 1] && tail[j] == keys[j + 1];
    }
  }

  lemma SortedConcat(a: seq<Entry>, b: seq<Entry>, lo: int, mid: int, hi: int)
    requires SortedEntries(a) && SortedEntries(b) && EntriesWithin(a, lo, mid) && EntriesWithin(b, mid, hi) && lo <= mid <= hi
    ensures SortedEntries(a + b) && EntriesWithin(a + b, lo, hi)
  {
  }

  /** Sorted entry lists without repeated keys are equal once they hold the same entries. */
  lemma {:induction false} SortedUnique(a: seq<Entry>, b: seq<Entry>)
    requires SortedEntries(a) && SortedEntries(b) && multiset(a) == multiset(b) && Limited(a, 1)
    ensures a == b
    decreases |a|
  {
    if a == [] {
      assert |multiset(b)| == 0;
    } else {
      SameHead(a, b);
      LimitedTail(a);
      SortedUnique(a[1..], b[1..]);
      Halves(a, 1);
      Halves(b, 1);
    }
  }

  lemma LimitedTail(a: seq<Entry>)
    requires a != [] && Limited(a, 1)
    ensures Limited(a[1..], 1)
  {
    forall k: Key
      ensures CountKey(a[1..], k) <= 1
    {
      assert CountKey(a, k) <= 1;
    }
  }

  lemma SameHead(a: seq<Entry>, b: seq<Entry>)
    requires SortedEntries(a) && SortedEntries(b) && multiset(a) == multiset(b) && a != [] && Limited(a, 1)
    ensures b != [] && a[0] == b[0] && multiset(a[1..]) == multiset(b[1..])
  {
    var i := SameElement(a, b);
    var j := SameElement(b, a);
    CountBag(a, b, a[0].0);
    if j > 0 {
      CountTwo(a, j);
    }
    Without(a, 0);
    Without(b, 0);
    assert a[..0] + a[1..] == a[1..] && b[..0] + b[1..] == b[1..];
  }

  lemma CountTwo(a: seq<Entry>, j: nat)
    requires 0 < j < |a| && a[0].0 == a[j].0
    ensures CountKey(a, a[0].0) >= 2
  {
    CountSplit(a[..j], a[j..], a[0].0);
    Halves(a, j);
    CountPrefix(a[..j], a[0].0, 1);
    CountPrefix(a[j..], a[0].0, 1);
  }
}
