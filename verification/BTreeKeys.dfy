/** Byte-string keys of the B+ tree (btree.rs) as numbers in the same order, and the fact
    that every node of every reachable tree fits its page. */
module BTreeKeys {
  import opened Basics
  import opened BTree
  import opened BTreeChain
  import NodeLayout

  // ---- Keys as numbers ----

  function Pow257(n: nat): (p: nat)
    ensures p > 0
  {
    if n == 0 then 1 else 257 * Pow257(n - 1)
  }

  /** The rank of a byte string among those of at most `n` bytes: digits in base 257, with 0
      for the missing bytes. */
  function KeyRank(s: seq<byte>, n: nat): (r: nat)
    requires |s| <= n
  {
    if s == [] then 0 else (s[0] as int + 1) * Pow257(n - 1) + KeyRank(s[1..], n - 1)
  }

  lemma {:induction false} KeyRankBound(s: seq<byte>, n: nat)
    requires |s| <= n
    ensures KeyRank(s, n) < Pow257(n)
  {
    if s != [] {
      KeyRankBound(s[1..], n - 1);
      Product(s[0] as int + 1, 256, Pow257(n - 1));
    }
  }

  lemma Product(a: int, b: int, p: nat)
    requires a <= b
    ensures a * p <= b * p
  {
  }

  /** Keys compare as their ranks do, so the tree may be read over ranks. */
  lemma {:induction false} KeyRankOrder(a: seq<byte>, b: seq<byte>, n: nat)
    requires |a| <= n && |b| <= n
    ensures LexLess(a, b) <==> KeyRank(a, n) < KeyRank(b, n)
    ensures a == b <==> KeyRank(a, n) == KeyRank(b, n)
  {
    hide Pow257;
    if a == [] || b == [] {
      RankPositive(a, n);
      RankPositive(b, n);
    } else {
      var p := Pow257(n - 1);
      KeyRankOrder(a[1..], b[1..], n - 1);
      KeyRankBound(a[1..], n - 1);
      KeyRankBound(b[1..], n - 1);
      assert a == [a[0]] + a[1..] && b == [b[0]] + b[1..];
      Digit(a[0] as int + 1, b[0] as int + 1, KeyRank(a[1..], n - 1), KeyRank(b[1..], n - 1), p);
    }
  }

  lemma RankPositive(s: seq<byte>, n: nat)
    requires |s| <= n
    ensures s == [] <==> KeyRank(s, n) == 0
  {
    if s != [] {
      Product(1, s[0] as int + 1, Pow257(n - 1));
    }
  }

  lemma Digit(x: int, y: int, r: nat, q: nat, p: nat)
    requires r < p && q < p
    ensures x * p + r < y * p + q <==> x < y || (x == y && r < q)
    ensures x * p + r == y * p + q <==> x == y && r == q
  {
    if x < y {
      Product(x + 1, y, p);
    } else if y < x {
      Product(y + 1, x, p);
    }
  }

  // ---- Every node fits its page ----

  /** The byte strings that a node's keys stand for. */
  predicate Spells(bytes: seq<NodeLayout.Bytes>, keys: seq<Key>) {
    |bytes| == |keys| && forall i | 0 <= i < |keys| ::
      |bytes[i]| <= NodeLayout.MAX_KEY_BYTES && KeyRank(bytes[i], NodeLayout.MAX_KEY_BYTES) == keys[i]
  }

  /** The key is the rank of a string within the key limit. */
  ghost predicate Short(key: Key, limit: nat) {
    exists s: NodeLayout.Bytes :: |s| <= limit && |s| <= NodeLayout.MAX_KEY_BYTES && KeyRank(s, NodeLayout.MAX_KEY_BYTES) == key
  }

  /** Every key of every node, separators included, is within the limit. */
  ghost predicate AllKeys(t: Tree, limit: nat)
    decreases t
  {
    && (forall i | 0 <= i < |t.keys| :: Short(t.keys[i], limit))
    && (t.Node? ==> forall i | 0 <= i < |t.kids| :: AllKeys(t.kids[i], limit))
  }

  ghost predicate OutKeys(o: Out, limit: nat) {
    AllKeys(o.left, limit) && (o.split.Some? ==> Short(o.split.value.0, limit) && AllKeys(o.split.value.1, limit))
  }

  lemma CutKeys(id: nat, keys: seq<Key>, kids: seq<Tree>, max: nat, count: nat, limit: nat)
    requires |kids| == |keys| + 1
    requires forall i | 0 <= i < |keys| :: Short(keys[i], limit)
    requires forall i | 0 <= i < |kids| :: AllKeys(kids[i], limit)
    ensures OutKeys(CutNode(id, keys, kids, max, count), limit)
  {
    hide Short;
  }

  /** Insertion brings no key but the given one into any node. */
  lemma {:induction false} InsKeys(t: Tree, key: Key, value: nat, max: nat, count: nat, limit: nat)
    requires Shape(t) && AllKeys(t, limit) && Short(key, limit)
    ensures OutKeys(Ins(t, key, value, max, count), limit)
    decreases t
  {
    hide Short, OutKeys;
    match t
    case Leaf(id, next, keys, vals) =>
      var at := LeafSlot(keys, vals, key, value);
      CutLeafKeys(id, next, InsertAt(keys, at, key), InsertAt(vals, at, value), max, count, limit);
    case Node(id, keys, kids) =>
      var c := AtMost(keys, key);
      InsKeys(kids[c], key, value, max, count, limit);
      var o := Ins(kids[c], key, value, max, count);
      GrowAllKeys(keys, kids, c, o, limit);
      CutKeys(id, GrowKeys(keys, o), GrowKids(keys, kids, c, o), max, o.count, limit);
  }

  lemma CutLeafKeys(id: nat, next: nat, keys: seq<Key>, vals: seq<nat>, max: nat, count: nat, limit: nat)
    requires |keys| == |vals| && forall i | 0 <= i < |keys| :: Short(keys[i], limit)
    ensures OutKeys(CutLeaf(id, next, keys, vals, max, count), limit)
  {
    hide Short;
  }

  lemma GrowAllKeys(keys: seq<Key>, kids: seq<Tree>, c: nat, o: Out, limit: nat)
    requires c < |kids| == |keys| + 1 && OutKeys(o, limit)
    requires forall i | 0 <= i < |keys| :: Short(keys[i], limit)
    requires forall i | 0 <= i < |kids| :: AllKeys(kids[i], limit)
    ensures |GrowKids(keys, kids, c, o)| == |GrowKeys(keys, o)| + 1
    ensures forall i | 0 <= i < |GrowKeys(keys, o)| :: Short(GrowKeys(keys, o)[i], limit)
    ensures forall i | 0 <= i < |GrowKids(keys, kids, c, o)| :: AllKeys(GrowKids(keys, kids, c, o)[i], limit)
  {
    hide Short, AllKeys;
  }

  /** A node whose keys are within the limits fits its page, and so do all nodes below. */
  ghost predicate AllFit(t: Tree, page: nat)
    decreases t
  {
    && (forall bytes | Spells(bytes, t.keys) :: NodeLayout.NodeBytes(bytes) <= page)
    && (t.Node? ==> forall i | 0 <= i < |t.kids| :: AllFit(t.kids[i], page))
  }

  lemma {:induction false} LimitsFit(t: Tree, page: nat, order: nat)
    requires NodeLayout.FitsInPage(page, order) && Sized(t, order - 1)
    requires AllKeys(t, NodeLayout.KeyLimit(page, order))
    ensures AllFit(t, page)
    decreases t
  {
    forall bytes | Spells(bytes, t.keys)
      ensures NodeLayout.NodeBytes(bytes) <= page
    {
      SpelledFits(bytes, t.keys, page, order);
    }
    if t.Node? {
      forall i | 0 <= i < |t.kids|
        ensures AllFit(t.kids[i], page)
      {
        LimitsFit(t.kids[i], page, order);
      }
    }
  }

  lemma SpelledFits(bytes: seq<NodeLayout.Bytes>, keys: seq<Key>, page: nat, order: nat)
    requires NodeLayout.FitsInPage(page, order) && Spells(bytes, keys) && |keys| <= order - 1
    requires forall i | 0 <= i < |keys| :: Short(keys[i], NodeLayout.KeyLimit(page, order))
    ensures NodeLayout.NodeBytes(bytes) <= page
  {
    forall i | 0 <= i < |bytes|
      ensures |bytes[i]| <= NodeLayout.KeyLimit(page, order)
    {
      var s: NodeLayout.Bytes :| |s| <= NodeLayout.KeyLimit(page, order) && |s| <= NodeLayout.MAX_KEY_BYTES &&
        KeyRank(s, NodeLayout.MAX_KEY_BYTES) == keys[i];
      KeyRankOrder(s, bytes[i], NodeLayout.MAX_KEY_BYTES);
    }
    NodeLayout.NodeFits(page, order, bytes);
  }

  /** Inserting a key within the limit leaves only nodes that fit their pages, through splits
      at every level: `put_node` never refuses a node that `insert` stores. */
  lemma InsertFits(t: Tree, key: Key, value: nat, count: nat, page: nat, order: nat)
    requires Shape(t) && NodeLayout.FitsInPage(page, order) && Sized(t, order - 1)
    requires AllKeys(t, NodeLayout.KeyLimit(page, order)) && Short(key, NodeLayout.KeyLimit(page, order))
    ensures var o := Ins(t, key, value, order - 1, count);
      AllFit(o.left, page) && (o.split.Some? ==> AllFit(o.split.value.1, page))
  {
    hide Ins, AllKeys, Sized, Short, AllFit;
    var limit := NodeLayout.KeyLimit(page, order);
    var o := Ins(t, key, value, order - 1, count);
    InsKeys(t, key, value, order - 1, count, limit);
    InsSized(t, key, value, order - 1, count);
    LimitsFit(o.left, page, order);
    if o.split.Some? {
      LimitsFit(o.split.value.1, page, order);
    }
  }
}
