/** Commit groups in the write-ahead log (wal.rs): which operations count as committed, for
    whole logs and for every torn one. */
module WalGroups {
  import opened Basics
  import opened WalFrames

  // ---- Committed operations ----

  /** The accumulators of `committed_ops`. */
  datatype Acc = Acc(done: seq<Record>, pending: seq<Record>)

  function Scan(rs: seq<Record>): Acc {
    if rs == [] then Acc([], [])
    else
      var a, r := Scan(rs[..|rs| - 1]), rs[|rs| - 1];
      if r.1.Commit? then Acc(a.done + a.pending, []) else Acc(a.done, a.pending + [r])
  }

  /** A lone unmarked operation at the end counts as committed. */
  function Committed(rs: seq<Record>): seq<Record> {
    var a := Scan(rs);
    if |a.pending| == 1 then a.done + a.pending else a.done
  }

  /** `committed_ops`. */
  method CommittedOps(rs: seq<Record>) returns (out: seq<Record>)
    ensures out == Committed(rs)
  {
    var pending: seq<Record> := [];
    out := [];
    for i := 0 to |rs|
      invariant Scan(rs[..i]) == Acc(out, pending)
    {
      assert rs[..i + 1][..i] == rs[..i];
      if rs[i].1.Commit? {
        out, pending := out + pending, [];
      } else {
        pending := pending + [rs[i]];
      }
    }
    assert rs[..|rs|] == rs;
    if |pending| == 1 {
      out := out + pending;
    }
  }

  predicate NoMark(rs: seq<Record>) {
    forall i | 0 <= i < |rs| :: rs[i].1.Data?
  }

  /** A group: its operations and the LSN of its mark. */
  datatype Group = Group(ops: seq<Record>, lsn: nat)

  function Records(g: Group): seq<Record> {
    g.ops + [(g.lsn, Commit)]
  }

  function Flatten(gs: seq<Group>): seq<Record> {
    if gs == [] then [] else Flatten(gs[..|gs| - 1]) + Records(gs[|gs| - 1])
  }

  function AllOps(gs: seq<Group>): seq<Record> {
    if gs == [] then [] else AllOps(gs[..|gs| - 1]) + gs[|gs| - 1].ops
  }

  predicate ProperGroups(gs: seq<Group>) {
    forall i | 0 <= i < |gs| :: NoMark(gs[i].ops)
  }

  lemma OneGroupFlat(g: Group)
    ensures Flatten([g]) == Records(g) && AllOps([g]) == g.ops
  {
    assert [g][..|[g]| - 1] == [];
    assert Flatten([]) + Records(g) == Records(g) && AllOps([]) + g.ops == g.ops;
  }

  lemma {:induction false} ScanUnmarked(rs: seq<Record>, tail: seq<Record>)
    requires NoMark(tail)
    ensures Scan(rs + tail) == Acc(Scan(rs).done, Scan(rs).pending + tail)
    decreases |tail|
  {
    if tail == [] {
      assert rs + tail == rs && Scan(rs).pending + tail == Scan(rs).pending;
    } else {
      var init := tail[..|tail| - 1];
      assert (rs + tail)[..|rs + tail| - 1] == rs + init;
      ScanUnmarked(rs, init);
      assert Scan(rs).pending + init + [tail[|tail| - 1]] == Scan(rs).pending + tail;
    }
  }

  lemma {:induction false} ScanGroups(gs: seq<Group>)
    requires ProperGroups(gs)
    ensures Scan(Flatten(gs)) == Acc(AllOps(gs), [])
    decreases |gs|
  {
    if gs != [] {
      var init, g := gs[..|gs| - 1], gs[|gs| - 1];
      ScanGroups(init);
      ScanUnmarked(Flatten(init), g.ops);
      assert [] + g.ops == g.ops;
      ScanMark(Flatten(init) + g.ops, g.lsn);
      Assoc(Flatten(init), g.ops, [(g.lsn, Commit)]);
    }
  }

  lemma ScanMark(rs: seq<Record>, lsn: nat)
    ensures Scan(rs + [(lsn, Commit)]) == Acc(Scan(rs).done + Scan(rs).pending, [])
  {
    var mark: Record := (lsn, Commit);
    Snoc(rs, mark);
  }

  /** Complete groups are committed whole, in order; of an unfinished tail nothing is, unless
      it is a single operation. */
  lemma GroupsCommitted(gs: seq<Group>, tail: seq<Record>)
    requires ProperGroups(gs) && NoMark(tail)
    ensures Committed(Flatten(gs) + tail) == AllOps(gs) + (if |tail| == 1 then tail else [])
  {
    ScanGroups(gs);
    ScanUnmarked(Flatten(gs), tail);
    assert [] + tail == tail && AllOps(gs) + [] == AllOps(gs);
  }

  // ---- Torn logs ----

  /** The groups wholly inside the first `k` records. */
  function Finished(gs: seq<Group>, k: nat): (m: nat)
    ensures m <= |gs|
  {
    if gs == [] then 0 else if k >= |Flatten(gs)| then |gs| else Finished(gs[..|gs| - 1], k)
  }

  /** The records of the next group that survive with them. */
  lemma {:induction false} TornAt(gs: seq<Group>, k: nat)
    requires ProperGroups(gs) && k <= |Flatten(gs)|
    ensures var m := Finished(gs, k);
      && |Flatten(gs[..m])| <= k
      && (m == |gs| ==> k == |Flatten(gs)|)
      && (m < |gs| ==> k - |Flatten(gs[..m])| <= |gs[m].ops|)
      && Flatten(gs)[..k] == Flatten(gs[..m]) + (if m < |gs| then gs[m].ops[..k - |Flatten(gs[..m])|] else [])
    decreases |gs|
  {
    var m := Finished(gs, k);
    if m == |gs| {
      assert gs[..m] == gs;
    } else {
      var init, g := gs[..|gs| - 1], gs[|gs| - 1];
      if k <= |Flatten(init)| {
        TornAt(init, k);
        TornEarlier(gs, k);
      } else {
        FinishedAll(init, k);
        assert gs[..m] == init;
      }
    }
  }

  lemma FinishedAll(gs: seq<Group>, k: nat)
    requires k >= |Flatten(gs)|
    ensures Finished(gs, k) == |gs|
  {
  }

  lemma TornEarlier(gs: seq<Group>, k: nat)
    requires gs != [] && k <= |Flatten(gs[..|gs| - 1])| && k < |Flatten(gs)|
    ensures Finished(gs, k) == Finished(gs[..|gs| - 1], k) && gs[..|gs| - 1][..Finished(gs, k)] == gs[..Finished(gs, k)]
    ensures Flatten(gs)[..k] == Flatten(gs[..|gs| - 1])[..k]
  {
  }

  /** After a torn append: the operations of the complete groups, and one operation more
      exactly if one unmarked record survived. */
  lemma TornCommitted(gs: seq<Group>, k: nat)
    requires ProperGroups(gs) && k <= |Flatten(gs)|
    ensures var m := Finished(gs, k);
      var j := k - |Flatten(gs[..m])|;
      && 0 <= j && (m < |gs| ==> j <= |gs[m].ops|)
      && Committed(Flatten(gs)[..k]) == AllOps(gs[..m]) + (if m < |gs| && j == 1 then gs[m].ops[..1] else [])
  {
    TornAt(gs, k);
    var m := Finished(gs, k);
    var tail := if m < |gs| then gs[m].ops[..k - |Flatten(gs[..m])|] else [];
    GroupsCommitted(gs[..m], tail);
  }

  /** A torn log is read as whole groups exactly unless it ends in one unmarked operation of a
      group of several. */
  lemma AtomicIff(gs: seq<Group>, k: nat)
    requires ProperGroups(gs) && k <= |Flatten(gs)|
    ensures var m := Finished(gs, k);
      (exists i | 0 <= i <= |gs| :: Committed(Flatten(gs)[..k]) == AllOps(gs[..i])) <==>
      !(m < |gs| && k == |Flatten(gs[..m])| + 1 && |gs[m].ops| >= 2)
  {
    TornCommitted(gs, k);
    var m := Finished(gs, k);
    var out := Committed(Flatten(gs)[..k]);
    if m == |gs| || k != |Flatten(gs[..m])| + 1 {
      assert out == AllOps(gs[..m]);
    } else if |gs[m].ops| == 1 {
      assert gs[..m + 1][..m] == gs[..m] && gs[m].ops[..1] == gs[m].ops;
      assert out == AllOps(gs[..m + 1]);
    } else if |gs[m].ops| >= 2 {
      forall i | 0 <= i <= |gs|
        ensures out != AllOps(gs[..i])
      {
        if i <= m {
          OpsGrow(gs, i, m);
        } else {
          assert gs[..m + 1][..m] == gs[..m];
          OpsGrow(gs, m + 1, i);
        }
      }
    }
  }

  /** A group of two operations of which only the first reached the disk: recovery takes that
      one operation for committed. */
  lemma HalfGroup(a: Op, b: Op)
    requires a.Data? && b.Data?
    ensures Committed(Flatten([Group([(1, a), (2, b)], 3)])[..1]) == [(1, a)]
  {
    var g := Group([(1, a), (2, b)], 3);
    OneGroupFlat(g);
    var rs := Flatten([g]);
    assert rs[..1] == [(1, a)];
    assert [(1, a)][..0] == [];
    assert Scan([(1, a)]) == Acc([], [] + [(1, a)]);
  }

  lemma {:induction false} OpsGrow(gs: seq<Group>, i: nat, j: nat)
    requires i <= j <= |gs|
    ensures |AllOps(gs[..i])| <= |AllOps(gs[..j])|
    decreases j - i
  {
    if i < j {
      OpsGrow(gs, i, j - 1);
      assert gs[..j][..j - 1] == gs[..j - 1];
    }
  }

  // ---- From bytes to operations ----

  /** Reading back any prefix of the bytes of a log: it parses, and yields the operations of
      its complete groups and at most one more. */
  lemma TornBytes(gs: seq<Group>, n: nat)
    requires ProperGroups(gs) && n <= |EncodeAll(Flatten(gs))|
    requires forall i | 0 <= i < |Flatten(gs)| :: Small(Flatten(gs)[i])
    ensures var k := Whole(Flatten(gs), n);
      var m := Finished(gs, k);
      var p := Parse(EncodeAll(Flatten(gs))[..n], 0);
      && p.Ok? && p.value.1 == |EncodeAll(Flatten(gs)[..k])| <= n
      && |Flatten(gs[..m])| <= k
      && Committed(RecordsOf(p.value.0)) ==
         AllOps(gs[..m]) + (if m < |gs| && k == |Flatten(gs[..m])| + 1 && gs[m].ops != [] then gs[m].ops[..1] else [])
  {
    var rs := Flatten(gs);
    TornTail(rs, n, 0);
    WholeExact(rs, n);
    LocatedRecords(rs[..Whole(rs, n)], 0);
    TornCommitted(gs, Whole(rs, n));
  }

  function RecordsOf(frames: seq<Frame>): (rs: seq<Record>)
    ensures |rs| == |frames| && forall i | 0 <= i < |rs| :: rs[i] == (frames[i].lsn, frames[i].op)
  {
    seq(|frames|, i requires 0 <= i < |frames| => (frames[i].lsn, frames[i].op))
  }

  lemma NoRecords()
    ensures RecordsOf([]) == []
  {
  }

  lemma LocatedFirst(r: Record, rest: seq<Frame>, base: nat, end: nat)
    ensures RecordsOf([Frame(r.0, r.1, base, end)] + rest) == [r] + RecordsOf(rest)
  {
  }

  lemma {:induction false} LocatedRecords(rs: seq<Record>, base: nat)
    ensures RecordsOf(Located(rs, base)) == rs
    decreases |rs|
  {
    hide RecordsOf, Encode;
    if rs == [] {
      NoRecords();
    } else {
      var end := base + |Encode(rs[0])|;
      LocatedRecords(rs[1..], end);
      LocatedFirst(rs[0], Located(rs[1..], end), base, end);
      Halves(rs, 1);
      assert rs[..1] == [rs[0]];
    }
  }
}
