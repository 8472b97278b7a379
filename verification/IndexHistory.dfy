/** Histories of an index (btree.rs): the tree after any sequence of insertions and deletions
    against the list of entries that the history means. */
module IndexHistory {
  import opened Basics
  import opened BTree
  import opened BTreeOrder
  import opened BTreeChain
  import opened BTreeStore

  datatype IndexOp = Add(key: Key, value: nat) | Remove(key: Key, value: nat)

  /** The tree, if any, and the next free page. */
  datatype Grown = Grown(tree: Option<Tree>, count: nat)

  predicate Fit(g: Grown) {
    g.tree.Some? ==> Shape(g.tree.value)
  }

  const EMPTY: Grown := Grown(None, 1)

  /** One call of `insert` or `delete`; a deletion that finds nothing changes nothing. */
  function Step(g: Grown, op: IndexOp, max: nat): (r: Grown)
    requires Fit(g)
    ensures Fit(r)
  {
    match op
    case Add(key, value) =>
      if g.tree.None? then Grown(Some(Leaf(g.count, 0, [key], [value])), g.count + 1)
      else
        InsShape(g.tree.value, key, value, max, g.count);
        AfterEntries(Ins(g.tree.value, key, value, max, g.count));
        Grown(Some(After(Ins(g.tree.value, key, value, max, g.count))), CountAfter(Ins(g.tree.value, key, value, max, g.count)))
    case Remove(key, value) =>
      if g.tree.None? || Del(g.tree.value, key, value).None? then g
      else
        DelConserves(g.tree.value, key, value);
        Grown(Del(g.tree.value, key, value), g.count)
  }

  function Run(ops: seq<IndexOp>, max: nat): (g: Grown)
    ensures Fit(g)
  {
    if ops == [] then EMPTY else Step(Run(ops[..|ops| - 1], max), ops[|ops| - 1], max)
  }

  function Held(g: Grown): seq<Entry>
    requires Fit(g)
  {
    if g.tree.None? then [] else Entries(g.tree.value)
  }

  // ---- What a history means ----

  /** The list without the first occurrence of an entry. */
  function Drop(s: seq<Entry>, e: Entry): seq<Entry> {
    if s == [] then [] else if s[0] == e then s[1..] else [s[0]] + Drop(s[1..], e)
  }

  /** The entries added and not removed since. */
  function Meant(ops: seq<IndexOp>): seq<Entry> {
    if ops == [] then []
    else
      var before, op := Meant(ops[..|ops| - 1]), ops[|ops| - 1];
      if op.Add? then before + [(op.key, op.value)] else Drop(before, (op.key, op.value))
  }

  lemma {:induction false} DropBag(s: seq<Entry>, e: Entry)
    ensures multiset(Drop(s, e)) == multiset(s) - multiset{e}
  {
    if s != [] {
      Halves(s, 1);
      assert s[..1] == [s[0]];
      DropBag(s[1..], e);
    }
  }

  /** Only entries that are there are removed, and at no time has a key more than `limit`
      entries. */
  ghost predicate Allowed(ops: seq<IndexOp>, limit: nat) {
    && (forall i | 0 <= i <= |ops| :: Limited(Meant(ops[..i]), limit))
    && (forall i | 0 <= i < |ops| && ops[i].Remove? :: (ops[i].key, ops[i].value) in Meant(ops[..i]))
  }

  /** The tree holds exactly the entries of the history. */
  ghost predicate Exact(ops: seq<IndexOp>, max: nat) {
    multiset(Held(Run(ops, max))) == multiset(Meant(ops))
  }

  /** The order condition: an odd order, or no key with more than half the order of entries. */
  predicate Tame(max: nat, limit: nat) {
    !EvenOrder(max) || limit <= Mid(max)
  }

  /** The tree is a search tree whose leaves are chained in order. */
  ghost predicate Good(g: Grown, max: nat)
    requires Fit(g)
  {
    g.tree.Some? ==> SearchTree(g.tree.value, max) && Sized(g.tree.value, max)
  }

  lemma AllowedInit(ops: seq<IndexOp>, limit: nat)
    requires ops != [] && Allowed(ops, limit)
    ensures Allowed(ops[..|ops| - 1], limit)
  {
    var init := ops[..|ops| - 1];
    forall i | 0 <= i <= |init|
      ensures init[..i] == ops[..i]
    {
    }
    assert forall i | 0 <= i <= |init| :: Limited(Meant(init[..i]), limit) by {
      forall i | 0 <= i <= |init|
        ensures Limited(Meant(init[..i]), limit)
      {
        assert init[..i] == ops[..i];
      }
    }
  }

  lemma LimitedMayAdd(held: seq<Entry>, before: seq<Entry>, key: Key, value: nat, max: nat, limit: nat)
    requires multiset(held) == multiset(before) && Limited(before + [(key, value)], limit) && Tame(max, limit)
    ensures MayAdd(held, key, max)
  {
    if EvenOrder(max) {
      forall k: Key
        ensures CountKey(held, k) + (if k == key then 1 else 0) <= Mid(max)
      {
        CountBag(held, before, k);
        CountSplit(before, [(key, value)], k);
        assert [(key, value)][1..] == [];
        assert CountKey([(key, value)], k) == if k == key then 1 else 0;
        assert CountKey(before + [(key, value)], k) <= limit;
      }
    }
  }

  lemma AddGood(g: Grown, key: Key, value: nat, max: nat)
    requires Fit(g) && Good(g, max) && 0 < max && MayAdd(Held(g), key, max)
    ensures Good(Step(g, Add(key, value), max), max)
    ensures multiset(Held(Step(g, Add(key, value), max))) == multiset(Held(g)) + multiset{(key, value)}
  {
    if g.tree.None? {
      var t := Leaf(g.count, 0, [key], [value]);
      assert Ordered(t, key, key + 1, max);
    } else {
      var t := g.tree.value;
      var o := Ins(t, key, value, max, g.count);
      InsConserves(t, key, value, max, g.count);
      InsSized(t, key, value, max, g.count);
      AfterEntries(o);
      AfterSized(o, max);
      AfterSearch(t, key, value, max, g.count);
    }
  }

  lemma RemoveGood(g: Grown, key: Key, value: nat, max: nat)
    requires Fit(g) && Good(g, max) && (key, value) in Held(g)
    ensures Good(Step(g, Remove(key, value), max), max)
    ensures multiset(Held(Step(g, Remove(key, value), max))) == multiset(Held(g)) - multiset{(key, value)}
  {
    var t := g.tree.value;
    var lo: int, hi: int :| Ordered(t, lo, hi, max);
    DelFinds(t, key, value, lo, hi, max);
    DelConserves(t, key, value);
    DelKeeps(t, key, value, lo, hi, 0, max);
  }

  /** Under the order condition the tree is exact after every allowed history: every deletion
      finds its entry, and the tree stays a search tree, so that scans are exact. */
  lemma {:induction false} TameExact(ops: seq<IndexOp>, max: nat, limit: nat)
    requires 0 < max && Tame(max, limit) && Allowed(ops, limit)
    ensures Exact(ops, max) && Good(Run(ops, max), max)
    decreases |ops|
  {
    if ops != [] {
      var init, op := ops[..|ops| - 1], ops[|ops| - 1];
      AllowedInit(ops, limit);
      TameExact(init, max, limit);
      var g := Run(init, max);
      if op.Add? {
        assert ops[..|ops|] == ops;
        LimitedMayAdd(Held(g), Meant(init), op.key, op.value, max, limit);
        AddGood(g, op.key, op.value, max);
      } else {
        assert (op.key, op.value) in Meant(init);
        assert (op.key, op.value) in multiset(Held(g));
        RemoveGood(g, op.key, op.value, max);
        DropBag(Meant(init), (op.key, op.value));
      }
    }
  }
}
