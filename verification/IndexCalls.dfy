/** An index of a table (heap.rs) as the calls it makes on its disk tree (btree.rs), and when
    the tree holds exactly what the table means. */
module IndexCalls {
  import opened Basics
  import opened BTree
  import opened BTreeOrder
  import opened BTreeChain
  import opened BTreeScan
  import opened BTreeKeys
  import opened BTreeStore
  import opened IndexHistory
  import NodeLayout

  type Bytes = seq<byte>

  const MAX_KEY: nat := NodeLayout.MAX_KEY_BYTES

  /** An index of one column: the pairs of key and position it means, and the calls of `insert`
      and `delete` on its tree since it was last cleared. */
  datatype Index = Index(column: string, entries: multiset<(Bytes, nat)>, calls: seq<IndexOp>)

  function Rank(key: Bytes): Key
    requires |key| <= MAX_KEY
  {
    KeyRank(key, MAX_KEY)
  }

  /** The calls mean exactly the pairs, and only pairs that are there are removed. */
  ghost predicate Recorded(index: Index) {
    && (forall key: Bytes, pos: nat | |key| <= MAX_KEY :: index.entries[(key, pos)] == multiset(Meant(index.calls))[(Rank(key), pos)])
    && (forall i | 0 <= i < |index.calls| && index.calls[i].Remove? ::
          (index.calls[i].key, index.calls[i].value) in Meant(index.calls[..i]))
    && (forall e <- index.entries :: |e.0| <= MAX_KEY)
  }

  lemma RankInjective(a: Bytes, b: Bytes)
    requires |a| <= MAX_KEY && |b| <= MAX_KEY
    ensures Rank(a) == Rank(b) <==> a == b
  {
    KeyRankOrder(a, b, MAX_KEY);
  }

  function WithAdd(index: Index, key: Bytes, pos: nat): Index
    requires |key| <= MAX_KEY
  {
    Index(index.column, index.entries + multiset{(key, pos)}, index.calls + [Add(Rank(key), pos)])
  }

  function WithRemove(index: Index, key: Bytes, pos: nat): Index
    requires |key| <= MAX_KEY
  {
    Index(index.column, index.entries - multiset{(key, pos)}, index.calls + [Remove(Rank(key), pos)])
  }

  lemma RecordAdd(index: Index, key: Bytes, pos: nat)
    requires Recorded(index) && |key| <= MAX_KEY
    ensures Recorded(WithAdd(index, key, pos))
  {
    var next := WithAdd(index, key, pos);
    Snoc(index.calls, Add(Rank(key), pos));
    assert Meant(next.calls) == Meant(index.calls) + [(Rank(key), pos)];
    forall k: Bytes, p: nat | |k| <= MAX_KEY
      ensures next.entries[(k, p)] == multiset(Meant(next.calls))[(Rank(k), p)]
    {
      RankInjective(k, key);
    }
    PrefixCalls(index.calls, Add(Rank(key), pos));
  }

  lemma RecordRemove(index: Index, key: Bytes, pos: nat)
    requires Recorded(index) && |key| <= MAX_KEY && (key, pos) in index.entries
    ensures Recorded(WithRemove(index, key, pos))
  {
    var next := WithRemove(index, key, pos);
    Snoc(index.calls, Remove(Rank(key), pos));
    DropBag(Meant(index.calls), (Rank(key), pos));
    forall k: Bytes, p: nat | |k| <= MAX_KEY
      ensures next.entries[(k, p)] == multiset(Meant(next.calls))[(Rank(k), p)]
    {
      RankInjective(k, key);
    }
    assert (Rank(key), pos) in multiset(Meant(index.calls));
    PrefixCalls(index.calls, Remove(Rank(key), pos));
  }

  lemma PrefixCalls(calls: seq<IndexOp>, op: IndexOp)
    ensures forall i | 0 <= i <= |calls| :: (calls + [op])[..i] == calls[..i]
  {
  }

  // ---- The tree on disk ----

  /** At no time had a key more than `limit` pairs. */
  ghost predicate AlwaysLimited(calls: seq<IndexOp>, limit: nat) {
    forall i | 0 <= i <= |calls| :: Limited(Meant(calls[..i]), limit)
  }

  /** Under the order condition the tree holds exactly the pairs of the table, and is a search
      tree: every deletion found its pair and every lookup is exact. */
  lemma IndexOnDisk(index: Index, max: nat, limit: nat)
    requires Recorded(index) && 0 < max && Tame(max, limit) && AlwaysLimited(index.calls, limit)
    ensures Good(Run(index.calls, max), max)
    ensures forall key: Bytes, pos: nat | |key| <= MAX_KEY ::
      index.entries[(key, pos)] == multiset(Held(Run(index.calls, max)))[(Rank(key), pos)]
  {
    TameExact(index.calls, max, limit);
  }

  /** What a lookup of one key scans is exactly the positions of the table under it. */
  lemma LookupAgrees(index: Index, max: nat, limit: nat, key: Bytes, pos: nat)
    requires Recorded(index) && 0 < max && Tame(max, limit) && AlwaysLimited(index.calls, limit) && |key| <= MAX_KEY
    ensures (Rank(key), pos) in Range(Held(Run(index.calls, max)), Some(Rank(key)), Some(Rank(key))) <==> (key, pos) in index.entries
  {
    IndexOnDisk(index, max, limit);
    var held := Held(Run(index.calls, max));
    RangeExact(held, Some(Rank(key)), Some(Rank(key)), (Rank(key), pos));
    assert (Rank(key), pos) in held <==> (Rank(key), pos) in multiset(held);
  }
}
