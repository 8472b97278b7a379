/** The B+ tree on its pages (btree.rs): which pages a tree occupies, that an insertion
    touches only its own pages and new ones, and what happens to the leaf chain even when
    keys repeat. */
module BTreePages {
  import opened Basics
  import opened BTree
  import opened BTreeOrder
  import opened BTreeChain
  import opened BTreeScan

  /** The contents of a node page; an inner node names its children by page. */
  datatype Page =
    | LeafPage(next: nat, keys: seq<Key>, vals: seq<nat>)
    | NodePage(keys: seq<Key>, kids: seq<nat>)

  type Pages = map<nat, Page>

  function KidIds(kids: seq<Tree>): (ids: seq<nat>)
    ensures |ids| == |kids| && forall i | 0 <= i < |kids| :: ids[i] == kids[i].id
  {
    seq(|kids|, i requires 0 <= i < |kids| => kids[i].id)
  }

  function PageOf(t: Tree): Page {
    if t.Leaf? then LeafPage(t.next, t.keys, t.vals) else NodePage(t.keys, KidIds(t.kids))
  }

  /** All page numbers of a tree. */
  ghost function Ids(t: Tree): set<nat>
    decreases t
  {
    if t.Leaf? then {t.id} else {t.id} + set i, p | 0 <= i < |t.kids| && p in Ids(t.kids[i]) :: p
  }

  /** No page is used twice. */
  ghost predicate Apart(t: Tree)
    decreases t
  {
    t.Node? ==>
      && (forall i | 0 <= i < |t.kids| :: t.id !in Ids(t.kids[i]) && Apart(t.kids[i]))
      && (forall i, j | 0 <= i < j < |t.kids| :: Ids(t.kids[i]) !! Ids(t.kids[j]))
  }

  ghost predicate ApartKids(id: nat, kids: seq<Tree>) {
    && (forall i | 0 <= i < |kids| :: id !in Ids(kids[i]) && Apart(kids[i]))
    && (forall i, j | 0 <= i < j < |kids| :: Ids(kids[i]) !! Ids(kids[j]))
  }

  /** The pages hold the tree. */
  ghost predicate Rep(pages: Pages, t: Tree)
    decreases t
  {
    && t.id in pages && pages[t.id] == PageOf(t)
    && (t.Node? ==> forall i | 0 <= i < |t.kids| :: Rep(pages, t.kids[i]))
  }

  /** Only the pages of a tree matter for it. */
  lemma {:induction false} RepFrame(pages: Pages, pages': Pages, t: Tree)
    requires Rep(pages, t)
    requires forall p | p in Ids(t) && p in pages :: p in pages' && pages'[p] == pages[p]
    ensures Rep(pages', t)
    decreases t
  {
    if t.Node? {
      forall i | 0 <= i < |t.kids|
        ensures Rep(pages', t.kids[i])
      {
        RepFrame(pages, pages', t.kids[i]);
      }
    }
  }

  /** Pages an insertion may use: those of the tree, and new ones. */
  ghost predicate IdsFrom(t: Tree, mine: set<nat>, count: nat, count': nat) {
    forall p <- Ids(t) :: p in mine || count <= p < count'
  }

  ghost predicate OutApart(o: Out, mine: set<nat>, count: nat) {
    && Apart(o.left) && IdsFrom(o.left, mine, count, o.count)
    && (o.split.Some? ==> Apart(o.split.value.1) && IdsFrom(o.split.value.1, mine, count, o.count) &&
                          Ids(o.left) !! Ids(o.split.value.1))
  }

  lemma CutNodeApart(id: nat, keys: seq<Key>, kids: seq<Tree>, max: nat, mine: set<nat>, count: nat, count': nat)
    requires |kids| == |keys| + 1 && ApartKids(id, kids) && id in mine && count <= count'
    requires forall i | 0 <= i < |kids| :: IdsFrom(kids[i], mine, count, count')
    requires forall p <- mine :: p < count
    ensures OutApart(CutNode(id, keys, kids, max, count'), mine, count)
  {
    var o := CutNode(id, keys, kids, max, count');
    if o.split.Some? {
      var mid := |keys| / 2;
      var right := o.split.value.1;
      assert forall i | 0 <= i < |right.kids| :: right.kids[i] == kids[mid + 1 + i];
      assert forall i | 0 <= i < |o.left.kids| :: o.left.kids[i] == kids[i];
    }
  }

  lemma GrowApart(id: nat, keys: seq<Key>, kids: seq<Tree>, c: nat, o: Out, count: nat)
    requires c < |kids| == |keys| + 1 && ApartKids(id, kids) && OutApart(o, Ids(kids[c]), count) && id < count
    requires forall i | 0 <= i < |kids| :: forall p <- Ids(kids[i]) :: p < count
    ensures ApartKids(id, GrowKids(keys, kids, c, o))
  {
    var kids' := GrowKids(keys, kids, c, o);
    forall i, j | 0 <= i < j < |kids'|
      ensures Ids(kids'[i]) !! Ids(kids'[j])
    {
      GrowPair(keys, kids, c, o, count, i, j);
    }
  }

  lemma InsertedPair(kids: seq<Tree>, at: nat, right: Tree, i: nat, j: nat)
    requires at <= |kids| && i < j <= |kids|
    requires forall a, b | 0 <= a < b < |kids| :: Ids(kids[a]) !! Ids(kids[b])
    requires forall a | 0 <= a < |kids| :: Ids(kids[a]) !! Ids(right)
    ensures Ids(InsertAt(kids, at, right)[i]) !! Ids(InsertAt(kids, at, right)[j])
  {
    hide Ids;
    var all := InsertAt(kids, at, right);
    assert all[i] == if i < at then kids[i] else if i == at then right else kids[i - 1];
    assert all[j] == if j < at then kids[j] else if j == at then right else kids[j - 1];
  }

  lemma GrowPair(keys: seq<Key>, kids: seq<Tree>, c: nat, o: Out, count: nat, i: nat, j: nat)
    requires c < |kids| == |keys| + 1 && OutApart(o, Ids(kids[c]), count)
    requires forall a, b | 0 <= a < b < |kids| :: Ids(kids[a]) !! Ids(kids[b])
    requires forall a | 0 <= a < |kids| :: forall p <- Ids(kids[a]) :: p < count
    requires i < j < |GrowKids(keys, kids, c, o)|
    ensures Ids(GrowKids(keys, kids, c, o)[i]) !! Ids(GrowKids(keys, kids, c, o)[j])
  {
    var kids1 := kids[c := o.left];
    assert forall a, b | 0 <= a < b < |kids1| :: Ids(kids1[a]) !! Ids(kids1[b]) by {
      forall a, b | 0 <= a < b < |kids1|
        ensures Ids(kids1[a]) !! Ids(kids1[b])
      {
        assert Ids(kids[a]) !! Ids(kids[b]);
      }
    }
    if o.split.Some? {
      var right := o.split.value.1;
      forall a | 0 <= a < |kids1|
        ensures Ids(kids1[a]) !! Ids(right)
      {
        assert a < c ==> Ids(kids[a]) !! Ids(kids[c]);
        assert c < a ==> Ids(kids[c]) !! Ids(kids[a]);
      }
      InsertedPair(kids1, AtMost(keys, o.split.value.0) + 1, right, i, j);
    }
  }

  /** An insertion uses the pages of the tree and new ones, each once. */
  lemma {:induction false} InsApart(t: Tree, key: Key, value: nat, max: nat, count: nat)
    requires Shape(t) && Apart(t) && forall p <- Ids(t) :: p < count
    ensures OutApart(Ins(t, key, value, max, count), Ids(t), count)
    decreases t
  {
    InsShape(t, key, value, max, count);
    if t.Node? {
      var c := AtMost(t.keys, key);
      KidIdsBelow(t, count);
      InsApart(t.kids[c], key, value, max, count);
      InsNodeApart(t, c, Ins(t.kids[c], key, value, max, count), key, value, max, count);
    }
  }

  lemma KidIdsBelow(t: Tree, count: nat)
    requires t.Node? && forall p <- Ids(t) :: p < count
    ensures forall i | 0 <= i < |t.kids| :: forall p <- Ids(t.kids[i]) :: p < count
    ensures t.id in Ids(t) && t.id < count
  {
    assert forall i | 0 <= i < |t.kids| :: Ids(t.kids[i]) <= Ids(t);
  }

  lemma InsNodeApart(t: Tree, c: nat, o: Out, key: Key, value: nat, max: nat, count: nat)
    requires Shape(t) && Apart(t) && t.Node? && c == AtMost(t.keys, key) && o == Ins(t.kids[c], key, value, max, count)
    requires (forall p <- Ids(t) :: p < count) && OutApart(o, Ids(t.kids[c]), count)
    ensures OutApart(Ins(t, key, value, max, count), Ids(t), count)
  {
    hide OutApart, Ids;
    KidIdsBelow(t, count);
    InsShape(t.kids[c], key, value, max, count);
    GrowShape(t.keys, t.kids, c, o);
    GrowApart(t.id, t.keys, t.kids, c, o, count);
    GrowIds(t, c, o, count);
    CutNodeApart(t.id, GrowKeys(t.keys, o), GrowKids(t.keys, t.kids, c, o), max, Ids(t), count, o.count);
  }

  lemma GrowIds(t: Tree, c: nat, o: Out, count: nat)
    requires t.Node? && c < |t.kids| == |t.keys| + 1 && OutApart(o, Ids(t.kids[c]), count)
    ensures forall i | 0 <= i < |GrowKids(t.keys, t.kids, c, o)| :: IdsFrom(GrowKids(t.keys, t.kids, c, o)[i], Ids(t), count, o.count)
  {
    assert forall i | 0 <= i < |t.kids| :: Ids(t.kids[i]) <= Ids(t);
  }

  lemma {:induction false} DelIds(t: Tree, key: Key, value: nat)
    requires Shape(t) && Apart(t) && Del(t, key, value).Some?
    ensures Apart(Del(t, key, value).value) && Ids(Del(t, key, value).value) == Ids(t)
    decreases t
  {
    DelConserves(t, key, value);
    if t.Node? {
      var hit := DelKids(t.kids, Below(t.keys, key), AtMost(t.keys, key), key, value).value;
      DelIds(t.kids[hit.0], key, value);
      var kids := t.kids[hit.0 := hit.1];
      assert forall i | 0 <= i < |kids| :: Ids(kids[i]) == Ids(t.kids[i]);
    }
  }

  // ---- The leaf an insertion lands in ----

  function LeafFor(t: Tree, key: Key): Tree
    requires Shape(t)
    decreases t
  {
    if t.Leaf? then t else LeafFor(t.kids[AtMost(t.keys, key)], key)
  }

  function OutLeaves(o: Out): seq<Tree>
    requires OutShape(o)
  {
    if o.split.None? then Leaves(o.left) else Leaves(o.left) + Leaves(o.split.value.1)
  }

  /** Insertion replaces one leaf by itself or by its two halves, whatever the keys are; the
      right half is a new page that takes over the old link. */
  lemma {:induction false} InsLeaves(t: Tree, key: Key, value: nat, max: nat, count: nat)
    requires Shape(t)
    ensures OutShape(Ins(t, key, value, max, count))
    ensures Shape(LeafFor(t, key)) && LeafFor(t, key).Leaf? && LeafFor(t, key) in Leaves(t)
    ensures multiset(OutLeaves(Ins(t, key, value, max, count))) + multiset{LeafFor(t, key)} ==
            multiset(Leaves(t)) + multiset(OutLeaves(Ins(LeafFor(t, key), key, value, max, count)))
    decreases t
  {
    InsShape(t, key, value, max, count);
    if t.Leaf? {
      assert Leaves(t) == [t];
    } else {
      var c := AtMost(t.keys, key);
      var o := Ins(t.kids[c], key, value, max, count);
      InsLeaves(t.kids[c], key, value, max, count);
      InsShape(LeafFor(t, key), key, value, max, count);
      LeavesAround(t.kids, c);
      GrowShape(t.keys, t.kids, c, o);
      GrowLeaves(t.keys, t.kids, c, o);
      CutLeaves(t.id, GrowKeys(t.keys, o), GrowKids(t.keys, t.kids, c, o), max, o.count);
      var halves := multiset(OutLeaves(Ins(LeafFor(t, key), key, value, max, count)));
      SwapLeaves(multiset(LeavesAll(GrowKids(t.keys, t.kids, c, o))), multiset(Leaves(t.kids[c])), multiset(Leaves(t)),
                 multiset(OutLeaves(o)), halves, multiset{LeafFor(t, key)});
    }
  }

  lemma SwapLeaves(x: multiset<Tree>, k: multiset<Tree>, a: multiset<Tree>, l: multiset<Tree>, h: multiset<Tree>, f: multiset<Tree>)
    requires x + k == a + l && l + f == k + h
    ensures x + f == a + h
  {
    forall z
      ensures (x + f)[z] == (a + h)[z]
    {
      assert (x + k)[z] == (a + l)[z] && (l + f)[z] == (k + h)[z];
    }
  }

  lemma CutLeaves(id: nat, keys: seq<Key>, kids: seq<Tree>, max: nat, count: nat)
    requires |kids| == |keys| + 1 && AllShape(kids)
    ensures OutShape(CutNode(id, keys, kids, max, count))
    ensures OutLeaves(CutNode(id, keys, kids, max, count)) == LeavesAll(kids)
  {
    CutNodeShape(id, keys, kids, max, count);
    var mid := |keys| / 2;
    if |keys| > max {
      assert kids == kids[..mid + 1] + kids[mid + 1..];
      LeavesSplit(kids[..mid + 1], kids[mid + 1..]);
    }
  }

  lemma GrowLeaves(keys: seq<Key>, kids: seq<Tree>, c: nat, o: Out)
    requires c < |kids| == |keys| + 1 && AllShape(kids) && OutShape(o)
    ensures AllShape(GrowKids(keys, kids, c, o))
    ensures multiset(LeavesAll(GrowKids(keys, kids, c, o))) + multiset(Leaves(kids[c])) ==
            multiset(LeavesAll(kids)) + multiset(OutLeaves(o))
  {
    GrowShape(keys, kids, c, o);
    UpdateLeaves(kids, c, o.left);
    if o.split.Some? {
      var right := o.split.value.1;
      InsertLeaves(kids[c := o.left], AtMost(keys, o.split.value.0) + 1, right);
      AddBoth(multiset(LeavesAll(kids[c := o.left])), multiset(Leaves(kids[c])), multiset(LeavesAll(kids)),
              multiset(Leaves(o.left)), multiset(Leaves(right)));
    }
  }

  lemma AddBoth(x: multiset<Tree>, k: multiset<Tree>, a: multiset<Tree>, l: multiset<Tree>, r: multiset<Tree>)
    requires x + k == a + l
    ensures (x + r) + k == a + (l + r)
  {
    forall z
      ensures ((x + r) + k)[z] == (a + (l + r))[z]
    {
      assert (x + k)[z] == (a + l)[z];
    }
  }

  lemma Middle(a: seq<Tree>, x: seq<Tree>, b: seq<Tree>)
    ensures multiset(a + x + b) == multiset(a + b) + multiset(x)
  {
  }

  lemma UpdateLeaves(kids: seq<Tree>, c: nat, x: Tree)
    requires c < |kids| && Shape(x) && AllShape(kids)
    ensures multiset(LeavesAll(kids[c := x])) + multiset(Leaves(kids[c])) == multiset(LeavesAll(kids)) + multiset(Leaves(x))
  {
    var after := kids[c := x];
    LeavesAround(kids, c);
    LeavesAround(after, c);
    assert after[..c] == kids[..c] && after[c + 1..] == kids[c + 1..];
  }

  lemma InsertLeaves(kids: seq<Tree>, at: nat, x: Tree)
    requires at <= |kids| && Shape(x) && AllShape(kids)
    ensures multiset(LeavesAll(InsertAt(kids, at, x))) == multiset(LeavesAll(kids)) + multiset(Leaves(x))
  {
    var a, b := kids[..at], kids[at..];
    assert kids == a + b;
    assert InsertAt(kids, at, x) == a + ([x] + b);
    LeavesAroundOne(a, x, b);
    LeavesSplit(a, b);
    Middle(LeavesAll(a), Leaves(x), LeavesAll(b));
  }

  // ---- The leaf chain when keys repeat ----

  /** `chain` lists the leaves of the tree, each once, in the order of the links, starting at
      the leftmost leaf. */
  ghost predicate ChainOf(t: Tree, chain: seq<Tree>)
    requires Shape(t)
  {
    && chain != [] && Chained(chain, 0) && chain[0].id == First(t)
    && multiset(chain) == multiset(Leaves(t))
  }

  /** The chain with one leaf replaced by what an insertion made of it. */
  function Replaced(chain: seq<Tree>, i: nat, o: Out): seq<Tree>
    requires i < |chain|
  {
    chain[..i] + (if o.split.None? then [o.left] else [o.left, o.split.value.1]) + chain[i + 1..]
  }

  lemma ReplacedChained(chain: seq<Tree>, i: nat, key: Key, value: nat, max: nat, count: nat)
    requires i < |chain| && Chained(chain, 0) && AllLeaves(chain)
    ensures Chained(Replaced(chain, i, Ins(chain[i], key, value, max, count)), 0)
    ensures Replaced(chain, i, Ins(chain[i], key, value, max, count))[0].id == chain[0].id
  {
    var o := Ins(chain[i], key, value, max, count);
    var next := Replaced(chain, i, o);
    assert chain[i].next == NextOf(chain, 0, i);
    forall j | 0 <= j < |next|
      ensures next[j].Leaf? && next[j].next == NextOf(next, 0, j)
    {
      if j < i {
        assert chain[j].next == NextOf(chain, 0, j);
      } else if j >= i + (if o.split.None? then 1 else 2) {
        var k := if o.split.None? then j else j - 1;
        assert chain[k].next == NextOf(chain, 0, k);
      }
    }
  }

  lemma {:induction false} InsFirst(t: Tree, key: Key, value: nat, max: nat, count: nat)
    requires Shape(t)
    ensures OutShape(Ins(t, key, value, max, count)) && First(Ins(t, key, value, max, count).left) == First(t)
    decreases t
  {
    InsShape(t, key, value, max, count);
    if t.Node? {
      var c := AtMost(t.keys, key);
      InsFirst(t.kids[c], key, value, max, count);
    }
  }
}
