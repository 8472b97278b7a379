/** What insertion, deletion and scans of the B+ tree (btree.rs) do to its pages. */
module BTreeStore {
  import opened Basics
  import opened BTree
  import opened BTreeOrder
  import opened BTreeChain
  import opened BTreeScan
  import opened BTreePages

  ghost predicate RepAll(pages: Pages, kids: seq<Tree>) {
    forall i | 0 <= i < |kids| :: Rep(pages, kids[i])
  }

  /** `pages'` differs from `pages` only on `mine` and on the new pages. */
  ghost predicate Framed(pages: Pages, pages': Pages, mine: set<nat>, count: nat, count': nat) {
    && (forall p <- pages | p !in mine :: p in pages' && pages'[p] == pages[p])
    && (forall p <- pages' :: p in pages || count <= p < count')
    && (forall p <- pages :: p in pages')
  }

  /** A subtree with its pages. */
  ghost predicate Stored(pages: Pages, t: Tree, count: nat) {
    && Shape(t) && Apart(t) && Rep(pages, t)
    && (forall p <- Ids(t) :: 1 <= p < count)
    && (forall p <- pages :: p < count)
  }

  lemma StoredChild(pages: Pages, t: Tree, count: nat, c: nat)
    requires Stored(pages, t, count) && t.Node? && c < |t.kids|
    ensures Stored(pages, t.kids[c], count)
  {
    assert Ids(t.kids[c]) <= Ids(t);
  }

  /** After the child was stored again, all children of the grown node are on their pages. */
  lemma GrownRep(pages: Pages, pages': Pages, t: Tree, c: nat, o: Out, count: nat)
    requires Stored(pages, t, count) && t.Node? && c < |t.kids|
    requires Framed(pages, pages', Ids(t.kids[c]), count, o.count)
    requires Rep(pages', o.left) && (o.split.Some? ==> Rep(pages', o.split.value.1))
    ensures RepAll(pages', GrowKids(t.keys, t.kids, c, o))
  {
    forall i | 0 <= i < |t.kids| && i != c
      ensures Rep(pages', t.kids[i])
    {
      assert Ids(t.kids[i]) !! Ids(t.kids[c]);
      RepFrame(pages, pages', t.kids[i]);
    }
  }

  lemma GrownIds(keys: seq<Key>, kids: seq<Tree>, c: nat, o: Out)
    requires c < |kids| == |keys| + 1 && o.left.id == kids[c].id
    ensures KidIds(GrowKids(keys, kids, c, o)) ==
            if o.split.None? then KidIds(kids)
            else InsertAt(KidIds(kids), AtMost(keys, o.split.value.0) + 1, o.split.value.1.id)
  {
    var kids1 := kids[c := o.left];
    assert KidIds(kids1) == KidIds(kids);
    if o.split.Some? {
      InsertedIds(kids1, AtMost(keys, o.split.value.0) + 1, o.split.value.1);
    }
  }

  lemma InsertedIds(kids: seq<Tree>, at: nat, x: Tree)
    requires at <= |kids|
    ensures KidIds(InsertAt(kids, at, x)) == InsertAt(KidIds(kids), at, x.id)
  {
    forall i | 0 <= i < |kids| + 1
      ensures KidIds(InsertAt(kids, at, x))[i] == InsertAt(KidIds(kids), at, x.id)[i]
    {
    }
  }

  /** Storing nodes on pages that the children do not use. */
  lemma StoreRep(pages: Pages, pages': Pages, kids: seq<Tree>, used: set<nat>)
    requires RepAll(pages, kids)
    requires forall i | 0 <= i < |kids| :: Ids(kids[i]) !! used
    requires forall p <- pages | p !in used :: p in pages' && pages'[p] == pages[p]
    ensures RepAll(pages', kids)
  {
    forall i | 0 <= i < |kids|
      ensures Rep(pages', kids[i])
    {
      RepFrame(pages, pages', kids[i]);
    }
  }

  // ---- Deletion on pages ----

  /** An entry is found in an ordered tree exactly if it is there. */
  lemma DeleteMeets(pages: Pages, t: Tree, key: Key, value: nat, max: nat, count: nat)
    requires Stored(pages, t, count)
    ensures Shape(t)
    ensures SearchTree(t, max) ==> (Del(t, key, value).Some? <==> (key, value) in Entries(t))
  {
    if SearchTree(t, max) {
      var lo: int, hi: int :| Ordered(t, lo, hi, max);
      if Del(t, key, value).Some? {
        DelConserves(t, key, value);
        assert (key, value) in Bag(t);
      } else if (key, value) in Entries(t) {
        DelFinds(t, key, value, lo, hi, max);
      }
    }
  }

  /** The children after a deletion below one of them. */
  lemma DeletedKid(pages: Pages, pages': Pages, t: Tree, c: nat, key: Key, value: nat, count: nat)
    requires Stored(pages, t, count) && t.Node? && c < |t.kids| && Del(t.kids[c], key, value).Some?
    requires Framed(pages, pages', Ids(t.kids[c]), count, count) && Rep(pages', Del(t.kids[c], key, value).value)
    ensures Rep(pages', Node(t.id, t.keys, t.kids[c := Del(t.kids[c], key, value).value]))
    ensures Framed(pages, pages', Ids(t), count, count)
  {
    var kid := Del(t.kids[c], key, value).value;
    var kids := t.kids[c := kid];
    DelConserves(t.kids[c], key, value);
    assert KidIds(kids) == KidIds(t.kids);
    assert Ids(t.kids[c]) <= Ids(t);
    forall i | 0 <= i < |kids|
      ensures Rep(pages', kids[i])
    {
      if i != c {
        assert Ids(t.kids[i]) !! Ids(t.kids[c]);
        RepFrame(pages, pages', t.kids[i]);
      }
    }
  }

  lemma DeleteFacts(before: Pages, pages: Pages, t: Tree, key: Key, value: nat, max: nat, count: nat)
    requires Stored(before, t, count) && Sized(t, max) && Del(t, key, value).Some?
    requires Rep(pages, Del(t, key, value).value) && Framed(before, pages, Ids(t), count, count)
    ensures var t' := Del(t, key, value).value;
      && Stored(pages, t', count) && Sized(t', max) && t'.id == t.id
      && Shape(t') && multiset(Entries(t)) == multiset(Entries(t')) + multiset{(key, value)}
      && (SearchTree(t, max) ==> SearchTree(t', max))
  {
    DelConserves(t, key, value);
    DelIds(t, key, value);
    DelSized(t, key, value, max);
    if SearchTree(t, max) {
      var lo: int, hi: int :| Ordered(t, lo, hi, max);
      DelKeeps(t, key, value, lo, hi, 0, max);
    }
  }

  lemma {:induction false} DelSized(t: Tree, key: Key, value: nat, max: nat)
    requires Shape(t) && Sized(t, max) && Del(t, key, value).Some?
    ensures Sized(Del(t, key, value).value, max)
    decreases t
  {
    if t.Node? {
      var hit := DelKids(t.kids, Below(t.keys, key), AtMost(t.keys, key), key, value).value;
      DelSized(t.kids[hit.0], key, value, max);
    }
  }

  /** A deletion changes one leaf and keeps its page and link. */
  lemma {:induction false} DelLeaves(t: Tree, key: Key, value: nat) returns (leaf: Tree, leaf': Tree)
    requires Shape(t) && Del(t, key, value).Some?
    ensures Shape(Del(t, key, value).value) && First(Del(t, key, value).value) == First(t)
    ensures leaf in Leaves(t) && leaf'.Leaf? && leaf'.id == leaf.id && leaf.Leaf? && leaf'.next == leaf.next
    ensures multiset(Leaves(Del(t, key, value).value)) + multiset{leaf} == multiset(Leaves(t)) + multiset{leaf'}
    decreases t
  {
    var t' := Del(t, key, value).value;
    DelConserves(t, key, value);
    if t.Leaf? {
      leaf, leaf' := t, t';
      assert Leaves(t) == [t] && Leaves(t') == [t'];
    } else {
      var hit := DelKids(t.kids, Below(t.keys, key), AtMost(t.keys, key), key, value).value;
      DelConserves(t.kids[hit.0], key, value);
      leaf, leaf' := DelLeaves(t.kids[hit.0], key, value);
      UpdateLeaves(t.kids, hit.0, hit.1);
      LeavesAround(t.kids, hit.0);
      SwapLeaves(multiset(Leaves(t')), multiset(Leaves(t.kids[hit.0])), multiset(Leaves(t)),
                 multiset(Leaves(hit.1)), multiset{leaf'}, multiset{leaf});
    }
  }

  lemma DeletedChain(t: Tree, chain: seq<Tree>, key: Key, value: nat) returns (i: nat, leaf': Tree)
    requires Shape(t) && ChainOf(t, chain) && Del(t, key, value).Some?
    ensures i < |chain| && Shape(Del(t, key, value).value)
    ensures ChainOf(Del(t, key, value).value, chain[i := leaf'])
  {
    var leaf;
    leaf, leaf' := DelLeaves(t, key, value);
    assert leaf in multiset(chain);
    i :| 0 <= i < |chain| && chain[i] == leaf;
    UpdatedChained(chain, i, leaf');
    UpdatedOne(chain, i, leaf');
    SwapBack(multiset(chain[i := leaf']), multiset(Leaves(Del(t, key, value).value)), multiset{leaf});
  }

  lemma UpdatedChained(chain: seq<Tree>, i: nat, leaf: Tree)
    requires i < |chain| && Chained(chain, 0) && leaf.Leaf? && leaf.id == chain[i].id && leaf.next == chain[i].next
    ensures Chained(chain[i := leaf], 0)
  {
    var chain' := chain[i := leaf];
    forall j | 0 <= j < |chain'|
      ensures chain'[j].Leaf? && chain'[j].next == NextOf(chain', 0, j)
    {
      assert chain[j].next == NextOf(chain, 0, j);
    }
  }

  lemma UpdatedOne(s: seq<Tree>, i: nat, x: Tree)
    requires i < |s|
    ensures multiset(s[i := x]) + multiset{s[i]} == multiset(s) + multiset{x}
  {
  }

  // ---- Scanning pages ----

  /** `scan` starts behind the leaf if all its keys are below the range. */
  predicate SkipFirst(keys: seq<Key>, lo: Option<Key>) {
    lo.Some? && Below(keys, lo.value) == |keys|
  }

  /** The page at which the walk of `scan` starts. */
  function StartId(t: Tree, lo: Option<Key>): nat
    requires Shape(t)
  {
    var leaf := StartLeaf(t, lo);
    if SkipFirst(leaf.keys, lo) then leaf.next else leaf.id
  }

  function IdAt(ls: seq<Tree>, j: nat): nat
    requires j <= |ls|
  {
    if j < |ls| then ls[j].id else 0
  }

  ghost predicate OnPages(pages: Pages, ls: seq<Tree>) {
    AllLeaves(ls) && forall i | 0 <= i < |ls| :: ls[i].id in pages && pages[ls[i].id] == PageOf(ls[i]) && ls[i].id != 0
  }

  lemma {:induction false} LeavesOnPages(pages: Pages, t: Tree)
    requires Shape(t) && Rep(pages, t) && 0 !in Ids(t)
    ensures OnPages(pages, Leaves(t))
    decreases t, 1
  {
    if t.Node? {
      assert forall i | 0 <= i < |t.kids| :: Ids(t.kids[i]) <= Ids(t);
      KidsOnPages(pages, t.kids, t);
    }
  }

  lemma {:induction false} KidsOnPages(pages: Pages, kids: seq<Tree>, t: Tree)
    requires AllShape(kids) && RepAll(pages, kids) && forall i | 0 <= i < |kids| :: kids[i] < t && 0 !in Ids(kids[i])
    ensures OnPages(pages, LeavesAll(kids))
    decreases t, 0, |kids|
  {
    if kids != [] {
      LeavesOnPages(pages, kids[0]);
      KidsOnPages(pages, kids[1..], t);
    }
  }

  lemma EmptyRange(lo: Option<Key>, hi: Option<Key>)
    ensures Range([], lo, hi) == []
  {
  }

  lemma LeafAt(pages: Pages, ls: seq<Tree>, j: nat)
    requires j < |ls| && OnPages(pages, ls) && Chained(ls, 0) && AllShape(ls[j..])
    ensures pages[ls[j].id] == LeafPage(IdAt(ls, j + 1), ls[j].keys, ls[j].vals) && |ls[j].keys| == |ls[j].vals|
    ensures AllShape(ls[j + 1..]) && EntriesAll(ls[j..]) == Zip(ls[j].keys, ls[j].vals) + EntriesAll(ls[j + 1..])
  {
    assert ls[j].next == NextOf(ls, 0, j);
    assert ls[j..][1..] == ls[j + 1..];
  }

  lemma NothingLeft(ls: seq<Tree>, j: nat, lo: Option<Key>, hi: Option<Key>)
    requires j <= |ls| && IdAt(ls, j) == 0 && AllShape(ls[j..]) && forall i | 0 <= i < |ls| :: ls[i].id != 0
    ensures Collect(EntriesAll(ls[j..]), lo, hi) == []
  {
    assert ls[j..] == [];
  }

  /** Lists of leaves with the same members hold the same entries. */
  lemma {:induction false} PermutedEntries(a: seq<Tree>, b: seq<Tree>)
    requires AllShape(a) && AllShape(b) && multiset(a) == multiset(b)
    ensures multiset(EntriesAll(a)) == multiset(EntriesAll(b))
    decreases |a|
  {
    if a == [] {
      assert |multiset(b)| == 0;
    } else {
      var i := TakeOut(a, b);
      var b1, b2 := b[..i], b[i + 1..];
      PermutedEntries(a[1..], b1 + b2);
      EntriesAround(b, i);
      EntriesSplit(b1, b2);
      SameBag(Entries(a[0]), EntriesAll(a[1..]), EntriesAll(b1), EntriesAll(b2));
    }
  }

  lemma TakeOut(a: seq<Tree>, b: seq<Tree>) returns (i: nat)
    requires a != [] && multiset(a) == multiset(b)
    ensures i < |b| && b[i] == a[0] && multiset(a[1..]) == multiset(b[..i] + b[i + 1..])
  {
    assert a[0] in multiset(b);
    i :| 0 <= i < |b| && b[i] == a[0];
    Middle(b[..i], [b[i]], b[i + 1..]);
    assert b == b[..i] + [b[i]] + b[i + 1..] && a == [a[0]] + a[1..];
    SwapBack(multiset(a[1..]), multiset(b[..i] + b[i + 1..]), multiset{a[0]});
  }

  lemma SameBag(x: seq<Entry>, a: seq<Entry>, b1: seq<Entry>, b2: seq<Entry>)
    requires multiset(a) == multiset(b1 + b2)
    ensures multiset(x + a) == multiset(b1 + x + b2)
  {
    assert multiset(b1 + b2) == multiset(b1) + multiset(b2);
  }

  /** The scan reads the chain from its starting leaf on. */
  ghost predicate ReadsChain(t: Tree, chain: seq<Tree>, lo: Option<Key>, hi: Option<Key>, out: seq<Entry>) {
    Shape(t) && AllShape(chain) &&
    exists j | 0 <= j <= |chain| :: IdAt(chain, j) == StartId(t, lo) && out == Collect(EntriesAll(chain[j..]), lo, hi)
  }

  lemma ReadsIt(t: Tree, chain: seq<Tree>, j: nat, lo: Option<Key>, hi: Option<Key>, out: seq<Entry>)
    requires Shape(t) && AllShape(chain) && j <= |chain| && IdAt(chain, j) == StartId(t, lo)
    requires AllShape(chain[j..]) && out == Collect(EntriesAll(chain[j..]), lo, hi)
    ensures ReadsChain(t, chain, lo, hi, out)
  {
  }

  /** Where a scan starts on the chain. */
  lemma ScanPath(pages: Pages, t: Tree, max: nat, count: nat, chain: seq<Tree>, lo: Option<Key>, hi: Option<Key>)
    returns (j: nat)
    requires Stored(pages, t, count) && ChainOf(t, chain)
    ensures Shape(t) && j <= |chain| && OnPages(pages, chain) && Chained(chain, 0) && AllShape(chain[j..])
    ensures IdAt(chain, j) == StartId(t, lo) && AllShape(chain)
    ensures SearchTree(t, max) ==> Collect(EntriesAll(chain[j..]), lo, hi) == Range(Entries(t), lo, hi)
    ensures lo == None && hi == None ==> multiset(Collect(EntriesAll(chain[j..]), lo, hi)) == multiset(Entries(t))
  {
    LeavesOnPages(pages, t);
    ChainOnPages(pages, t, chain);
    hide Stored, Leaves, Entries, EntriesAll, Collect, Range, Linked, Ordered;
    if SearchTree(t, max) {
      ChainIsLeaves(t, chain);
      j := OrderedPath(t, max, lo, hi);
    } else {
      j := ChainStart(t, chain, lo);
      if lo == None && hi == None {
        UnboundedChain(t, chain);
      }
    }
  }

  // ---- The chain of an ordered tree ----

  ghost predicate DistinctIds(ls: seq<Tree>) {
    forall i, j | 0 <= i < j < |ls| :: ls[i].id != ls[j].id
  }

  ghost predicate IdsIn(ls: seq<Tree>, s: set<nat>) {
    forall i | 0 <= i < |ls| :: ls[i].id in s
  }

  lemma {:induction false} LeafIds(t: Tree)
    requires Shape(t) && Apart(t)
    ensures DistinctIds(Leaves(t)) && IdsIn(Leaves(t), Ids(t))
    decreases t, 1
  {
    if t.Node? {
      KidLeafIds(t.kids, t);
      assert forall i | 0 <= i < |t.kids| :: Ids(t.kids[i]) <= Ids(t);
    }
  }

  ghost function AllIds(kids: seq<Tree>): set<nat> {
    set i, p | 0 <= i < |kids| && p in Ids(kids[i]) :: p
  }

  lemma {:induction false} KidLeafIds(kids: seq<Tree>, t: Tree)
    requires AllShape(kids) && (forall i | 0 <= i < |kids| :: kids[i] < t && Apart(kids[i]))
    requires forall i, j | 0 <= i < j < |kids| :: Ids(kids[i]) !! Ids(kids[j])
    ensures DistinctIds(LeavesAll(kids)) && IdsIn(LeavesAll(kids), AllIds(kids))
    decreases t, 0, |kids|
  {
    if kids != [] {
      var rest := kids[1..];
      assert forall i | 0 <= i < |rest| :: rest[i] == kids[i + 1];
      LeafIds(kids[0]);
      KidLeafIds(rest, t);
      IdsOfTail(kids);
      JoinIds(Leaves(kids[0]), LeavesAll(rest), Ids(kids[0]), AllIds(rest), AllIds(kids));
    }
  }

  lemma IdsOfTail(kids: seq<Tree>)
    requires kids != [] && forall i, j | 0 <= i < j < |kids| :: Ids(kids[i]) !! Ids(kids[j])
    ensures Ids(kids[0]) !! AllIds(kids[1..]) && Ids(kids[0]) <= AllIds(kids) && AllIds(kids[1..]) <= AllIds(kids)
  {
    forall p | p in AllIds(kids[1..])
      ensures p in AllIds(kids) && p !in Ids(kids[0])
    {
      var i :| 0 <= i < |kids[1..]| && p in Ids(kids[1..][i]);
      assert kids[1..][i] == kids[i + 1];
    }
  }

  lemma JoinIds(a: seq<Tree>, b: seq<Tree>, s: set<nat>, r: set<nat>, all: set<nat>)
    requires DistinctIds(a) && DistinctIds(b) && IdsIn(a, s) && IdsIn(b, r) && s !! r && s <= all && r <= all
    ensures DistinctIds(a + b) && IdsIn(a + b, all)
  {
  }

  /** In a search tree the links run through exactly the leaves in tree order. */
  lemma ChainIsLeaves(t: Tree, chain: seq<Tree>)
    requires Shape(t) && Apart(t) && Linked(t, 0) && ChainOf(t, chain)
    ensures chain == Leaves(t)
  {
    LeafIds(t);
    LeavesAreLeaves(t);
    LinkedChained(t, 0);
    SameLength(chain, Leaves(t));
    forall i | 0 <= i < |chain|
      ensures chain[i] == Leaves(t)[i]
    {
      SameChain(chain, Leaves(t), i);
    }
  }

  lemma SameLength(a: seq<Tree>, b: seq<Tree>)
    requires multiset(a) == multiset(b)
    ensures |a| == |b|
  {
    assert |multiset(a)| == |a| && |multiset(b)| == |b|;
  }

  lemma {:induction false} SameChain(a: seq<Tree>, b: seq<Tree>, i: nat)
    requires multiset(a) == multiset(b) && DistinctIds(b) && Chained(a, 0) && Chained(b, 0)
    requires a != [] && b != [] && a[0].id == b[0].id && i < |a| == |b|
    ensures a[i] == b[i]
  {
    if i > 0 {
      SameChain(a, b, i - 1);
      assert a[i - 1].next == NextOf(a, 0, i - 1) && b[i - 1].next == NextOf(b, 0, i - 1);
    }
    SameById(a, b, i);
  }

  lemma SameById(a: seq<Tree>, b: seq<Tree>, i: nat)
    requires multiset(a) == multiset(b) && DistinctIds(b) && i < |a| == |b| && a[i].id == b[i].id
    ensures a[i] == b[i]
  {
    assert a[i] in multiset(b);
    var j :| 0 <= j < |b| && b[j] == a[i];
  }

  /** In an ordered tree everything before the start is below the range. */
  lemma OrderedPath(t: Tree, max: nat, lo: Option<Key>, hi: Option<Key>) returns (j: nat)
    requires Shape(t) && SearchTree(t, max)
    ensures j <= |Leaves(t)| && Chained(Leaves(t), 0) && AllShape(Leaves(t)[j..])
    ensures IdAt(Leaves(t), j) == StartId(t, lo)
    ensures Collect(EntriesAll(Leaves(t)[j..]), lo, hi) == Range(Entries(t), lo, hi)
    ensures lo == None && hi == None ==> Range(Entries(t), lo, hi) == Entries(t)
  {
    var a: int, b: int :| Ordered(t, a, b, max);
    LeavesAreLeaves(t);
    LinkedChained(t, 0);
    OrderedSorted(t, a, b, max);
    CollectIsRange(Entries(t), lo, hi);
    if lo == None && hi == None {
      CollectAll(Entries(t));
    }
    j := StartAt(t, lo, a, b, max);
    var ls := Leaves(t);
    if SkipFirst(ls[j].keys, lo) {
      assert ls[j].next == NextOf(ls, 0, j);
      SkippedLeaf(ls, j, lo);
      j := j + 1;
    }
    SkippedLeaves(ls, j, lo, hi);
  }

  lemma SkippedLeaf(ls: seq<Tree>, j: nat, lo: Option<Key>)
    requires AllShape(ls) && AllLeaves(ls) && j < |ls| && AllShape(ls[..j]) && AllBelow(EntriesAll(ls[..j]), lo) && SkipFirst(ls[j].keys, lo)
    ensures AllShape(ls[..j + 1]) && AllBelow(EntriesAll(ls[..j + 1]), lo)
  {
    assert ls[..j + 1] == ls[..j] + [ls[j]];
    EntriesSplit(ls[..j], [ls[j]]);
    EntriesOne(ls[j]);
  }

  lemma SkippedLeaves(ls: seq<Tree>, j: nat, lo: Option<Key>, hi: Option<Key>)
    requires AllShape(ls) && j <= |ls| && AllShape(ls[..j]) && AllBelow(EntriesAll(ls[..j]), lo)
    ensures AllShape(ls[j..]) && Collect(EntriesAll(ls[j..]), lo, hi) == Collect(EntriesAll(ls), lo, hi)
  {
    assert ls == ls[..j] + ls[j..];
    EntriesSplit(ls[..j], ls[j..]);
    CollectSkips(EntriesAll(ls[..j]), EntriesAll(ls[j..]), lo, hi);
  }

  lemma ChainOnPages(pages: Pages, t: Tree, chain: seq<Tree>)
    requires Shape(t) && OnPages(pages, Leaves(t)) && multiset(chain) == multiset(Leaves(t))
    ensures OnPages(pages, chain) && AllShape(chain)
  {
    forall i | 0 <= i < |chain|
      ensures chain[i].Leaf? && |chain[i].keys| == |chain[i].vals|
      ensures chain[i].id in pages && pages[chain[i].id] == PageOf(chain[i]) && chain[i].id != 0
    {
      assert chain[i] in multiset(chain);
      assert chain[i] in Leaves(t);
    }
  }

  /** Where a scan starts on the chain; an unbounded scan starts at its head. */
  lemma ChainStart(t: Tree, chain: seq<Tree>, lo: Option<Key>) returns (j: nat)
    requires Shape(t) && ChainOf(t, chain)
    ensures j <= |chain| && (lo == None ==> j == 0)
    ensures IdAt(chain, j) == StartId(t, lo)
  {
    LeavesAreLeaves(t);
    if lo.None? {
      StartUnbounded(t);
      j := 0;
    } else {
      var leaf := StartLeaf(t, lo);
      StartIsLeaf(t, lo);
      assert leaf in multiset(chain);
      j :| 0 <= j < |chain| && chain[j] == leaf;
      if SkipFirst(leaf.keys, lo) {
        assert chain[j].next == NextOf(chain, 0, j);
        j := j + 1;
      }
    }
  }

  lemma {:induction false} StartIsLeaf(t: Tree, lo: Option<Key>)
    requires Shape(t)
    ensures StartLeaf(t, lo) in Leaves(t)
    decreases t
  {
    if t.Node? {
      var c := ScanChild(t.keys, lo);
      StartIsLeaf(t.kids[c], lo);
      LeavesAround(t.kids, c);
    }
  }

  lemma UnboundedChain(t: Tree, chain: seq<Tree>)
    requires Shape(t) && AllShape(chain) && multiset(chain) == multiset(Leaves(t))
    ensures AllShape(chain[0..]) && multiset(Collect(EntriesAll(chain[0..]), None, None)) == multiset(Entries(t))
  {
    LeavesAreLeaves(t);
    assert chain[0..] == chain;
    CollectAll(EntriesAll(chain));
    PermutedEntries(chain, Leaves(t));
  }

  // ---- A new root ----

  /** The tree after an insertion at the root: a split puts a new root above both halves. */
  function After(o: Out): Tree {
    if o.split.None? then o.left else Node(o.count, [o.split.value.0], [o.left, o.split.value.1])
  }

  function CountAfter(o: Out): nat {
    if o.split.None? then o.count else o.count + 1
  }

  lemma AfterEntries(o: Out)
    requires OutShape(o)
    ensures Shape(After(o)) && Bag(After(o)) == OutBag(o) && Leaves(After(o)) == OutLeaves(o)
  {
    if o.split.Some? {
      var l, r := o.left, o.split.value.1;
      EntriesSplit([l], [r]);
      EntriesOne(l);
      EntriesOne(r);
      LeavesAroundOne([], l, [r]);
      LeavesAroundOne([], r, []);
      assert [l] + [r] == [l, r] && [] + ([l] + [r]) == [l, r] && [] + ([r] + []) == [r];
    }
  }

  lemma AfterStored(pages: Pages, o: Out, mine: set<nat>, count: nat)
    requires OutShape(o) && OutApart(o, mine, count)
    requires Rep(pages, o.left) && (o.split.Some? ==> Rep(pages, o.split.value.1))
    requires forall p <- mine :: 1 <= p < count
    requires 1 <= count <= o.count && forall p <- pages :: p < o.count
    ensures o.split.None? ==> Stored(pages, After(o), CountAfter(o))
    ensures o.split.Some? ==>
      Stored(pages[o.count := NodePage([o.split.value.0], [o.left.id, o.split.value.1.id])], After(o), CountAfter(o))
  {
    AfterEntries(o);
    if o.split.Some? {
      var pages' := pages[o.count := NodePage([o.split.value.0], [o.left.id, o.split.value.1.id])];
      RepFrame(pages, pages', o.left);
      RepFrame(pages, pages', o.split.value.1);
      assert KidIds([o.left, o.split.value.1]) == [o.left.id, o.split.value.1.id];
    }
  }

  /** A search tree whose leaves are chained in order. */
  ghost predicate SearchTree(t: Tree, max: nat)
    requires Shape(t)
  {
    Linked(t, 0) && exists lo: int, hi: int :: Ordered(t, lo, hi, max)
  }

  lemma AfterSearch(t: Tree, key: Key, value: nat, max: nat, count: nat)
    requires Shape(t) && SearchTree(t, max) && Sized(t, max) && 0 < max && MayAdd(Entries(t), key, max)
    ensures var o := Ins(t, key, value, max, count);
      OutShape(o) && Shape(After(o)) && SearchTree(After(o), max)
  {
    var lo0: int, hi0: int :| Ordered(t, lo0, hi0, max);
    var lo, hi := if lo0 < key then lo0 else key, if hi0 > key then hi0 else key + 1;
    OrderedWider(t, lo0, hi0, lo, hi, max);
    var o := Ins(t, key, value, max, count);
    InsOrdered(t, key, value, max, count, lo, hi);
    InsLinked(t, key, value, max, count, lo, hi, 0);
    AfterEntries(o);
    AfterOrdered(o, lo, hi, max);
  }

  lemma AfterOrdered(o: Out, lo: int, hi: int, max: nat)
    requires OutShape(o) && OutOrdered(o, lo, hi, max) && OutLinked(o, 0)
    ensures Shape(After(o)) && Ordered(After(o), lo, hi, max) && Linked(After(o), 0)
  {
    if o.split.Some? {
      var t := After(o);
      assert LoAt(t.keys, lo, 0) == lo && HiAt(t.keys, hi, 0) == o.split.value.0;
      assert LoAt(t.keys, lo, 1) == o.split.value.0 && HiAt(t.keys, hi, 1) == hi;
      assert ExitAt(t.kids, 0, 0) == First(t.kids[1]) && ExitAt(t.kids, 0, 1) == 0;
    }
  }

  /** The link order after an insertion: the leaf it lands in gives way to its halves. */
  lemma AfterChain(t: Tree, chain: seq<Tree>, key: Key, value: nat, max: nat, count: nat) returns (i: nat)
    requires Shape(t) && ChainOf(t, chain)
    ensures i < |chain| && chain[i] == LeafFor(t, key)
    ensures Shape(chain[i]) && OutShape(Ins(t, key, value, max, count))
    ensures Shape(After(Ins(t, key, value, max, count)))
    ensures ChainOf(After(Ins(t, key, value, max, count)), Replaced(chain, i, Ins(chain[i], key, value, max, count)))
  {
    InsLeaves(t, key, value, max, count);
    var leaf := LeafFor(t, key);
    assert leaf in multiset(chain);
    i :| 0 <= i < |chain| && chain[i] == leaf;
    InsShape(leaf, key, value, max, count);
    ChainLeaves(t, chain);
    ReplacedChained(chain, i, key, value, max, count);
    ReplacedBag(chain, i, Ins(leaf, key, value, max, count));
    var o := Ins(t, key, value, max, count);
    AfterEntries(o);
    SwapBack(multiset(Leaves(After(o))), multiset(Replaced(chain, i, Ins(leaf, key, value, max, count))), multiset{leaf});
    InsFirst(t, key, value, max, count);
  }

  lemma SwapBack(a: multiset<Tree>, b: multiset<Tree>, x: multiset<Tree>)
    requires a + x == b + x
    ensures a == b
  {
    forall z
      ensures a[z] == b[z]
    {
      assert (a + x)[z] == (b + x)[z];
    }
  }

  lemma ChainLeaves(t: Tree, chain: seq<Tree>)
    requires Shape(t) && multiset(chain) == multiset(Leaves(t))
    ensures AllLeaves(chain)
  {
    LeavesAreLeaves(t);
    forall i | 0 <= i < |chain|
      ensures chain[i].Leaf? && |chain[i].keys| == |chain[i].vals|
    {
      assert chain[i] in multiset(chain);
    }
  }

  lemma AddSame(a: multiset<Tree>, x: multiset<Tree>, y: multiset<Tree>)
    ensures (a + x) + y == (a + y) + x
  {
  }

  lemma ReplacedBag(chain: seq<Tree>, i: nat, o: Out)
    requires i < |chain| && OutShape(o) && o.left.Leaf? && (o.split.Some? ==> o.split.value.1.Leaf?)
    ensures multiset(Replaced(chain, i, o)) + multiset{chain[i]} == multiset(chain) + multiset(OutLeaves(o))
  {
    var mid := if o.split.None? then [o.left] else [o.left, o.split.value.1];
    var a, b := chain[..i], chain[i + 1..];
    assert OutLeaves(o) == mid;
    Middle(a, mid, b);
    Middle(a, [chain[i]], b);
    assert chain == a + [chain[i]] + b;
    assert Replaced(chain, i, o) == a + mid + b;
    AddSame(multiset(a + b), multiset(mid), multiset{chain[i]});
  }

  lemma FirstLeaf(pages: Pages, id: nat, key: Key, value: nat, max: nat)
    requires 0 < max && 0 < id && forall p <- pages :: p < id
    ensures var t := Leaf(id, 0, [key], [value]);
      && Stored(pages[id := LeafPage(0, [key], [value])], t, id + 1) && Sized(t, max) && ChainOf(t, [t]) && SearchTree(t, max)
      && Entries(t) == [(key, value)]
  {
    var t := Leaf(id, 0, [key], [value]);
    assert Ordered(t, key, key + 1, max);
    assert Leaves(t) == [t];
  }

  lemma StoredShape(pages: Pages, t: Tree, count: nat)
    requires Stored(pages, t, count)
    ensures Shape(t) && (forall p <- pages :: p < count) && (forall p <- Ids(t) :: 1 <= p < count) && t.id != 0
  {
    assert t.id in Ids(t);
  }

  lemma InsertFacts(pages: Pages, t: Tree, key: Key, value: nat, max: nat, count: nat)
    requires Stored(pages, t, count) && Sized(t, max) && 0 < max
    ensures var o := Ins(t, key, value, max, count);
      && OutShape(o) && OutApart(o, Ids(t), count) && o.left.id == t.id && count <= o.count
      && Shape(After(o)) && Sized(After(o), max)
      && Bag(After(o)) == Bag(t) + multiset{(key, value)}
      && (SearchTree(t, max) && MayAdd(Entries(t), key, max) ==> SearchTree(After(o), max))
  {
    var o := Ins(t, key, value, max, count);
    InsShape(t, key, value, max, count);
    InsApart(t, key, value, max, count);
    InsSized(t, key, value, max, count);
    InsConserves(t, key, value, max, count);
    AfterEntries(o);
    AfterSized(o, max);
    if SearchTree(t, max) && MayAdd(Entries(t), key, max) {
      AfterSearch(t, key, value, max, count);
    }
  }

  lemma AfterSized(o: Out, max: nat)
    requires OutSized(o, max) && 0 < max
    ensures Sized(After(o), max)
  {
  }

  /** What storing a grown node may rely on. */
  lemma GrownReady(before: Pages, pages: Pages, t: Tree, c: nat, o: Out, count: nat, key: Key, value: nat, max: nat)
    requires t.Node? && Stored(before, t, count) && c == AtMost(t.keys, key)
    requires o == Ins(t.kids[c], key, value, max, count)
    requires Framed(before, pages, Ids(t.kids[c]), count, o.count)
    requires Rep(pages, o.left) && (o.split.Some? ==> Rep(pages, o.split.value.1))
    ensures var grown := GrowKids(t.keys, t.kids, c, o);
      && |grown| == |GrowKeys(t.keys, o)| + 1
      && RepAll(pages, grown)
      && (forall i | 0 <= i < |grown| :: Ids(grown[i]) !! {t.id, o.count})
    ensures count <= o.count
  {
    StoredChild(before, t, count, c);
    InsShape(t.kids[c], key, value, max, count);
    InsApart(t.kids[c], key, value, max, count);
    GrowShape(t.keys, t.kids, c, o);
    GrownRep(before, pages, t, c, o, count);
    assert forall i | 0 <= i < |t.kids| :: Ids(t.kids[i]) <= Ids(t);
    GrowApart(t.id, t.keys, t.kids, c, o, count);
    GrowIds(t, c, o, count);
  }

  /** What a grown node must meet to be stored. */
  ghost predicate Growing(before: Pages, pages: Pages, t: Tree, c: nat, o: Out, count: nat, key: Key, value: nat, max: nat) {
    && t.Node? && Stored(before, t, count) && c == AtMost(t.keys, key)
    && o == Ins(t.kids[c], key, value, max, count)
    && Framed(before, pages, Ids(t.kids[c]), count, o.count)
    && Rep(pages, o.left) && (o.split.Some? ==> Rep(pages, o.split.value.1))
  }

  lemma NodeWidth(pages: Pages, t: Tree, count: nat)
    requires Stored(pages, t, count) && t.Node?
    ensures |t.kids| == |t.keys| + 1 && Shape(t) && forall i | 0 <= i < |t.kids| :: Shape(t.kids[i])
  {
  }

  lemma GrowingNow(before: Pages, pages: Pages, t: Tree, c: nat, o: Out, count: nat, key: Key, value: nat, max: nat)
    requires t.Node? && Stored(before, t, count) && c == AtMost(t.keys, key)
    requires o == Ins(t.kids[c], key, value, max, count)
    requires Framed(before, pages, Ids(t.kids[c]), count, o.count)
    requires Rep(pages, o.left) && (o.split.Some? ==> Rep(pages, o.split.value.1))
    ensures Growing(before, pages, t, c, o, count, key, value, max)
    ensures KidIds(GrowKids(t.keys, t.kids, c, o)) ==
            if o.split.None? then KidIds(t.kids)
            else InsertAt(KidIds(t.kids), AtMost(t.keys, o.split.value.0) + 1, o.split.value.1.id)
    ensures GrowKeys(t.keys, o) == if o.split.None? then t.keys else InsertAt(t.keys, AtMost(t.keys, o.split.value.0), o.split.value.0)
  {
    hide Rep, Framed, Apart, Ids, Shape, Stored, KidIds, Ins;
    NodeWidth(before, t, count);
    InsShape(t.kids[c], key, value, max, count);
    GrownIds(t.keys, t.kids, c, o);
  }

  /** Storing a grown node that has room. */
  lemma StoreKept(before: Pages, pages: Pages, t: Tree, c: nat, o: Out, count: nat, key: Key, value: nat, max: nat)
    requires Growing(before, pages, t, c, o, count, key, value, max) && |GrowKeys(t.keys, o)| <= max
    ensures var out := Ins(t, key, value, max, count);
      var pages' := pages[t.id := NodePage(GrowKeys(t.keys, o), KidIds(GrowKids(t.keys, t.kids, c, o)))];
      out.count == o.count && out.split.None? && Rep(pages', out.left) && Framed(before, pages', Ids(t), count, o.count)
  {
    hide Apart, OutApart;
    var grown := GrowKids(t.keys, t.kids, c, o);
    var pages' := pages[t.id := NodePage(GrowKeys(t.keys, o), KidIds(grown))];
    GrownReady(before, pages, t, c, o, count, key, value, max);
    StoreRep(pages, pages', grown, {t.id, o.count});
    FramedUp(before, pages, pages', t, c, count, o.count, o.count);
  }

  /** The frame of a child is within that of its parent. */
  lemma FramedUp(before: Pages, pages: Pages, pages': Pages, t: Tree, c: nat, count: nat, mid: nat, count': nat)
    requires t.Node? && c < |t.kids| && Framed(before, pages, Ids(t.kids[c]), count, mid) && count <= mid <= count' && t.id in before
    requires forall p <- pages | p != t.id :: p in pages' && pages'[p] == pages[p]
    requires t.id in pages' && forall p <- pages' :: p in pages || p == t.id || mid <= p < count'
    ensures Framed(before, pages', Ids(t), count, count')
  {
    assert Ids(t.kids[c]) <= Ids(t) && t.id in Ids(t);
  }

  /** The pages with both halves of a cut node. */
  function WithHalves(pages: Pages, id: nat, right: nat, keys: seq<Key>, kids: seq<nat>, mid: nat): Pages
    requires mid < |keys| && |kids| == |keys| + 1
  {
    pages[right := NodePage(keys[mid + 1..], kids[mid + 1..])][id := NodePage(keys[..mid], kids[..mid + 1])]
  }

  /** Storing the halves of a grown node that has too many keys. */
  lemma StoreCut(before: Pages, pages: Pages, t: Tree, c: nat, o: Out, count: nat, key: Key, value: nat, max: nat)
    requires Growing(before, pages, t, c, o, count, key, value, max) && |GrowKeys(t.keys, o)| > max
    ensures var out := Ins(t, key, value, max, count);
      var keys, kids := GrowKeys(t.keys, o), KidIds(GrowKids(t.keys, t.kids, c, o));
      var mid := |keys| / 2;
      && |kids| == |keys| + 1
      && out.count == o.count + 1 && out.split.Some? && out.split.value.0 == keys[mid] && out.split.value.1.id == o.count
      && var pages' := WithHalves(pages, t.id, o.count, keys, kids, mid);
      && Rep(pages', out.left) && Rep(pages', out.split.value.1) && Framed(before, pages', Ids(t), count, o.count + 1)
  {
    hide Apart, OutApart, Rep, Shape, Framed, Stored, Ins, GrowKeys, GrowKids, WithHalves;
    NodeWidth(before, t, count);
    GrownReady(before, pages, t, c, o, count, key, value, max);
    InsIsCut(before, t, c, o, count, key, value, max);
    HalvesStored(before, pages, t, c, count, GrowKeys(t.keys, o), GrowKids(t.keys, t.kids, c, o), o.count);
  }

  lemma InsIsCut(before: Pages, t: Tree, c: nat, o: Out, count: nat, key: Key, value: nat, max: nat)
    requires t.Node? && Stored(before, t, count) && c == AtMost(t.keys, key) && o == Ins(t.kids[c], key, value, max, count)
    requires |GrowKids(t.keys, t.kids, c, o)| == |GrowKeys(t.keys, o)| + 1
    ensures Ins(t, key, value, max, count) == CutNode(t.id, GrowKeys(t.keys, o), GrowKids(t.keys, t.kids, c, o), max, o.count)
  {
    NodeWidth(before, t, count);
  }

  /** Both halves of a node on their pages. */
  lemma HalvesStored(before: Pages, pages: Pages, t: Tree, c: nat, count: nat, keys: seq<Key>, kids: seq<Tree>, right: nat)
    requires t.Node? && c < |t.kids| && Stored(before, t, count) && Framed(before, pages, Ids(t.kids[c]), count, right) && count <= right
    requires keys != [] && |kids| == |keys| + 1 && RepAll(pages, kids)
    requires forall i | 0 <= i < |kids| :: Ids(kids[i]) !! {t.id, right}
    ensures var mid := |keys| / 2;
      var pages' := WithHalves(pages, t.id, right, keys, KidIds(kids), mid);
      && Rep(pages', Node(t.id, keys[..mid], kids[..mid + 1])) && Rep(pages', Node(right, keys[mid + 1..], kids[mid + 1..]))
      && Framed(before, pages', Ids(t), count, right + 1)
  {
    hide Rep, Shape, Framed, Stored;
    var mid := |keys| / 2;
    var pages' := WithHalves(pages, t.id, right, keys, KidIds(kids), mid);
    NewPageNumber(before, pages, t, c, count, right);
    StoreRep(pages, pages', kids, {t.id, right});
    HalvesRep(pages', t.id, right, keys, kids, mid);
    FramedUp(before, pages, pages', t, c, count, right, right + 1);
  }

  lemma HalvesRep(pages: Pages, id: nat, right: nat, keys: seq<Key>, kids: seq<Tree>, mid: nat)
    requires mid < |keys| && |kids| == |keys| + 1 && RepAll(pages, kids)
    requires id in pages && pages[id] == NodePage(keys[..mid], KidIds(kids)[..mid + 1])
    requires right in pages && pages[right] == NodePage(keys[mid + 1..], KidIds(kids)[mid + 1..])
    ensures Rep(pages, Node(id, keys[..mid], kids[..mid + 1])) && Rep(pages, Node(right, keys[mid + 1..], kids[mid + 1..]))
  {
    KidIdsCut(kids, mid + 1);
  }

  lemma KidIdsCut(kids: seq<Tree>, k: nat)
    requires k <= |kids|
    ensures KidIds(kids)[..k] == KidIds(kids[..k]) && KidIds(kids)[k..] == KidIds(kids[k..])
  {
  }

  lemma NewPageNumber(before: Pages, pages: Pages, t: Tree, c: nat, count: nat, mid: nat)
    requires t.Node? && c < |t.kids| && Stored(before, t, count) && Framed(before, pages, Ids(t.kids[c]), count, mid) && count <= mid
    ensures mid !in pages && t.id != mid && t.id in before
  {
  }
}
