/** Commit and recovery over the write-ahead log (runtime.rs, wal.rs): append, apply, publish,
    checkpoint and truncate, with a crash possible after every step. */
module CommitProtocol {
  import opened Basics
  import opened WalFrames
  import opened WalGroups

  // ---- The log above a boundary ----

  predicate Rising(rs: seq<Record>) {
    forall i, j | 0 <= i < j < |rs| :: rs[i].0 < rs[j].0
  }

  /** `records_after`. */
  function After(rs: seq<Record>, lsn: nat): seq<Record> {
    if rs == [] then [] else (if rs[0].0 > lsn then [rs[0]] else []) + After(rs[1..], lsn)
  }

  /** The position of the first record above `lsn`, or the end. */
  function FirstAbove(rs: seq<Record>, lsn: nat): (k: nat)
    ensures k <= |rs| && (k < |rs| ==> rs[k].0 > lsn)
    ensures forall i | 0 <= i < k :: rs[i].0 <= lsn
  {
    if rs == [] || rs[0].0 > lsn then 0 else 1 + FirstAbove(rs[1..], lsn)
  }

  /** With rising LSNs the records above a boundary are a suffix. */
  lemma {:induction false} AfterSuffix(rs: seq<Record>, lsn: nat)
    requires Rising(rs)
    ensures After(rs, lsn) == rs[FirstAbove(rs, lsn)..]
    decreases |rs|
  {
    if rs != [] {
      if rs[0].0 > lsn {
        AfterAll(rs, lsn);
      } else {
        AfterSuffix(rs[1..], lsn);
      }
    }
  }

  lemma {:induction false} AfterAll(rs: seq<Record>, lsn: nat)
    requires forall i | 0 <= i < |rs| :: rs[i].0 > lsn
    ensures After(rs, lsn) == rs
  {
    if rs != [] {
      AfterAll(rs[1..], lsn);
    }
  }

  lemma {:induction false} AfterSplit(a: seq<Record>, b: seq<Record>, lsn: nat)
    ensures After(a + b, lsn) == After(a, lsn) + After(b, lsn)
    decreases |a|
  {
    if a == [] {
      assert a + b == b;
    } else {
      assert (a + b)[1..] == a[1..] + b;
      AfterSplit(a[1..], b, lsn);
    }
  }

  lemma {:induction false} AfterNone(rs: seq<Record>, lsn: nat)
    requires forall i | 0 <= i < |rs| :: rs[i].0 <= lsn
    ensures After(rs, lsn) == []
  {
    if rs != [] {
      AfterNone(rs[1..], lsn);
    }
  }

  /** The largest LSN of a mark. */
  function MaxCommit(rs: seq<Record>): Option<nat> {
    if rs == [] then None
    else
      var m, r := MaxCommit(rs[..|rs| - 1]), rs[|rs| - 1];
      if r.1.Data? then m else if m.None? then Some(r.0) else Some(Max(r.0, m.value))
  }

  lemma {:induction false} MaxCommitIs(rs: seq<Record>)
    ensures MaxCommit(rs).Some? ==> (MaxCommit(rs).value, Commit) in rs
    ensures forall i | 0 <= i < |rs| && rs[i].1.Commit? :: MaxCommit(rs).Some? && rs[i].0 <= MaxCommit(rs).value
    decreases |rs|
  {
    if rs != [] {
      MaxCommitIs(rs[..|rs| - 1]);
    }
  }

  // ---- What survives a crash ----

  /** The durable state: the log, the checkpoint, the published version number and the LSNs
      of the operations carried out on the tables. */
  datatype Disk = Disk(log: seq<Record>, checkpoint: nat, csn: nat, applied: set<nat>)

  /** The records that recovery looks at. */
  function Tail(d: Disk): seq<Record> {
    After(d.log, d.checkpoint)
  }

  /** The refusal of `recover_wal`: the versions are ahead of the log. */
  predicate Refused(d: Disk) {
    var latest := MaxCommit(d.log);
    d.csn > Max(d.checkpoint, if latest.None? then d.checkpoint else latest.value)
  }

  /** A single unmarked operation. */
  predicate Lone(t: seq<Record>) {
    |t| == 1 && t[0].1.Data?
  }

  /** A mark without operations. */
  predicate Bare(t: seq<Record>) {
    |t| == 1 && t[0].1.Commit?
  }

  /** At most one group, whole or cut off. */
  predicate OneGroup(t: seq<Record>) {
    forall i | 0 <= i < |t| - 1 :: t[i].1.Data?
  }

  function Last(t: seq<Record>): nat
    requires t != []
  {
    t[|t| - 1].0
  }

  /** The tail ends in a mark. */
  predicate Marked(t: seq<Record>) {
    t != [] && t[|t| - 1].1.Commit?
  }

  /** LSNs follow the checkpoint without a gap. */
  predicate Follows(t: seq<Record>, checkpoint: nat) {
    forall i | 0 <= i < |t| :: t[i].0 == checkpoint + 1 + i
  }

  /** The invariant of every reachable state: one group above the checkpoint, and versions
      published at most up to its end, or one number ahead of the checkpoint. */
  predicate Inv(d: Disk) {
    && Rising(d.log) && OneGroup(Tail(d)) && Follows(Tail(d), d.checkpoint) && d.checkpoint <= d.csn
    && (d.csn <= d.checkpoint + 1 || (Marked(Tail(d)) && d.csn == Last(Tail(d))))
  }

  /** Between commits: nothing in the log is above the checkpoint. The versions can be one number
      ahead, when the mark of a published group without operations was discarded. */
  predicate Idle(d: Disk) {
    Inv(d) && Tail(d) == []
  }

  /** Idle, with the versions at the checkpoint. */
  predicate Clean(d: Disk) {
    Idle(d) && d.csn == d.checkpoint
  }

  function Lsns(rs: seq<Record>): set<nat> {
    set r <- rs | r.1.Data? :: r.0
  }

  /** The operations carried out, or carried out by the next recovery. */
  function Kept(d: Disk): set<nat> {
    d.applied + Lsns(Committed(Tail(d)))
  }

  /** Exactly a publication that is not covered by a mark makes recovery refuse. */
  lemma RefusedIff(d: Disk)
    requires Inv(d)
    ensures Refused(d) <==> d.csn > d.checkpoint && !Marked(Tail(d))
  {
    var k := FirstAbove(d.log, d.checkpoint);
    AfterSuffix(d.log, d.checkpoint);
    MaxCommitIs(d.log);
    var t := Tail(d);
    if Marked(t) {
      assert t[|t| - 1] == d.log[|d.log| - 1];
    } else if d.csn > d.checkpoint {
      forall i | k <= i < |d.log|
        ensures d.log[i].1.Data?
      {
        assert d.log[i] == t[i - k];
      }
      MarkIn(d.log);
    }
  }

  lemma MarkIn(rs: seq<Record>)
    ensures MaxCommit(rs).Some? ==> exists i | 0 <= i < |rs| :: rs[i].1.Commit? && rs[i].0 == MaxCommit(rs).value
  {
    MaxCommitIs(rs);
    if MaxCommit(rs).Some? {
      var i :| 0 <= i < |rs| && rs[i] == (MaxCommit(rs).value, Commit);
      assert rs[i].1.Commit?;
    }
  }

  // ---- The steps of a commit ----

  /** The records of a group whose first LSN is `first`. */
  function GroupRecords(ops: seq<Op>, first: nat): (rs: seq<Record>)
    ensures |rs| == |ops| + 1
    ensures forall i | 0 <= i < |ops| :: rs[i] == (first + i, ops[i])
    ensures rs[|ops|] == (first + |ops|, Commit)
  {
    seq(|ops|, i requires 0 <= i < |ops| => (first + i, ops[i])) + [(first + |ops|, Commit)]
  }

  predicate AllData(ops: seq<Op>) {
    forall i | 0 <= i < |ops| :: ops[i].Data?
  }

  lemma RisingAppend(a: seq<Record>, b: seq<Record>, n: nat)
    requires Rising(a) && Rising(b) && (forall i | 0 <= i < |a| :: a[i].0 < n) && forall i | 0 <= i < |b| :: n <= b[i].0
    ensures Rising(a + b)
  {
    forall i, j | 0 <= i < j < |a + b|
      ensures (a + b)[i].0 < (a + b)[j].0
    {
      if i < |a| <= j {
        assert (a + b)[i].0 < n <= (a + b)[j].0;
      }
    }
  }

  lemma IdleBelow(d: Disk)
    requires Idle(d)
    ensures forall i | 0 <= i < |d.log| :: d.log[i].0 <= d.checkpoint
  {
    AfterSuffix(d.log, d.checkpoint);
  }

  lemma AppendTail(d: Disk, part: seq<Record>)
    requires Idle(d) && OneGroup(part) && Follows(part, d.checkpoint)
    ensures var d' := d.(log := d.log + part);
      Inv(d') && Tail(d') == part
  {
    IdleBelow(d);
    RisingAppend(d.log, part, d.checkpoint + 1);
    AfterSplit(d.log, part, d.checkpoint);
    AfterAll(part, d.checkpoint);
    assert [] + part == part;
  }

  lemma IdleKept(d: Disk)
    requires Idle(d)
    ensures Kept(d) == d.applied
  {
    TailCommitted([]);
  }

  /** Whatever part of a group reached the log, the state is sound; recovery refuses it exactly if
      the versions were ahead before and the mark is missing. */
  lemma AppendStep(d: Disk, ops: seq<Op>, k: nat)
    requires Idle(d) && AllData(ops) && k <= |ops| + 1
    ensures var d' := d.(log := d.log + GroupRecords(ops, d.checkpoint + 1)[..k]);
      && Inv(d') && Tail(d') == GroupRecords(ops, d.checkpoint + 1)[..k] && Kept(d) <= Kept(d')
      && (Refused(d') <==> d.csn > d.checkpoint && k <= |ops|)
  {
    hide Inv, Idle, Refused, Tail, Committed, Lsns;
    var part := GroupRecords(ops, d.checkpoint + 1)[..k];
    AppendTail(d, part);
    IdleKept(d);
    RefusedIff(d.(log := d.log + part));
  }

  /** The operations of a whole group are committed. */
  lemma GroupCommitted(ops: seq<Op>, first: nat)
    requires AllData(ops)
    ensures Committed(GroupRecords(ops, first)) == GroupRecords(ops, first)[..|ops|]
    ensures Lsns(GroupRecords(ops, first)[..|ops|]) == Lsns(GroupRecords(ops, first))
  {
    var g := GroupRecords(ops, first);
    var group := Group(g[..|ops|], first + |ops|);
    OneGroupFlat(group);
    assert Records(group) == g;
    GroupsCommitted([group], []);
    assert g + [] == g && group.ops + [] == group.ops;
    MarkAdds(group.ops, (first + |ops|, Commit));
  }

  lemma MarkAdds(rs: seq<Record>, r: Record)
    ensures Lsns(rs + [r]) == Lsns(rs) + (if r.1.Data? then {r.0} else {})
  {
    var all := rs + [r];
    assert all[|rs|] == r;
    forall x | x in rs
      ensures x in all
    {
      var i :| 0 <= i < |rs| && rs[i] == x;
      assert all[i] == x;
    }
  }

  /** A tail that recovery or a commit may publish: marked, or a lone operation. */
  predicate Publishable(t: seq<Record>) {
    t != [] && (t[|t| - 1].1.Commit? || Lone(t))
  }

  /** Publishing the versions of a tail; the state stays recoverable exactly if the tail has
      its mark. */
  lemma PublishStep(d: Disk)
    requires Inv(d) && Publishable(Tail(d))
    ensures var d' := d.(csn := Last(Tail(d)));
      && d.csn <= d'.csn && Inv(d') && Tail(d') == Tail(d) && Kept(d') == Kept(d)
      && (Refused(d') <==> Lone(Tail(d)))
  {
    RefusedIff(d.(csn := Last(Tail(d))));
  }

  /** Moving the checkpoint over a tail that is carried out and published. */
  lemma CheckpointStep(d: Disk)
    requires Inv(d) && Publishable(Tail(d)) && d.csn == Last(Tail(d)) && Lsns(Committed(Tail(d))) <= d.applied
    ensures var d' := d.(checkpoint := Last(Tail(d)));
      Clean(d') && Kept(d) <= Kept(d') && !Refused(d')
  {
    var d' := d.(checkpoint := Last(Tail(d)));
    AfterSuffix(d.log, d.checkpoint);
    var k := FirstAbove(d.log, d.checkpoint);
    assert Tail(d)[|Tail(d)| - 1] == d.log[|d.log| - 1];
    AfterNone(d.log, d'.checkpoint);
    RefusedIff(d');
  }

  /** `truncate_before` at the checkpoint of a clean state empties the log. */
  lemma TruncateStep(d: Disk)
    requires Clean(d)
    ensures FirstAbove(d.log, d.checkpoint) == |d.log|
    ensures Clean(d.(log := [])) && Kept(d.(log := [])) == Kept(d) && !Refused(d.(log := []))
  {
    AfterSuffix(d.log, d.checkpoint);
    TailCommitted([]);
    RefusedIff(d.(log := []));
  }

  /** `truncate_after` drops a tail without committed operations. */
  lemma DiscardStep(d: Disk)
    requires Inv(d) && Committed(Tail(d)) == []
    ensures var d' := d.(log := d.log[..FirstAbove(d.log, d.checkpoint)]);
      && Inv(d') && Tail(d') == [] && Kept(d') == Kept(d)
      && (Refused(d') <==> d.csn > d.checkpoint)
  {
    var d' := d.(log := d.log[..FirstAbove(d.log, d.checkpoint)]);
    AfterNone(d'.log, d.checkpoint);
    TailCommitted([]);
    TailCommitted(Tail(d));
    RefusedIff(d');
  }

  /** A state on the way: everything kept before is still kept, and so are the operations `ls`. */
  predicate Sound(d: Disk, d0: Disk, ls: set<nat>) {
    Inv(d) && Kept(d0) <= Kept(d) && ls <= Kept(d)
  }

  lemma AppendSound(d: Disk, ops: seq<Op>, k: nat)
    requires Idle(d) && AllData(ops) && k <= |ops| + 1
    ensures var d' := d.(log := d.log + GroupRecords(ops, d.checkpoint + 1)[..k]);
      Sound(d', d, {}) && (Refused(d') <==> d.csn > d.checkpoint && k <= |ops|)
  {
    AppendStep(d, ops, k);
  }

  /** The number `take_lsn` gives out next. */
  function NextOf(d: Disk, next: nat): nat {
    if next != 0 then next
    else 1 + Max(d.checkpoint, if d.log == [] then 0 else d.log[|d.log| - 1].0)
  }

  /** New LSNs follow the checkpoint, above every record in the log. */
  lemma NextAbove(d: Disk, next: nat)
    requires Idle(d) && (next == 0 || next == d.checkpoint + 1)
    ensures NextOf(d, next) == d.checkpoint + 1 && forall i | 0 <= i < |d.log| :: d.log[i].0 < NextOf(d, next)
  {
    IdleBelow(d);
  }

  /** A group in the log of which the first `i` operations are carried out. */
  predicate GroupDone(d0: Disk, d: Disk, ops: seq<Op>, i: nat)
    requires i <= |ops|
  {
    && Idle(d0) && AllData(ops)
    && d == d0.(log := d0.log + GroupRecords(ops, d0.checkpoint + 1), applied := d.applied)
    && d0.applied <= d.applied && Lsns(GroupRecords(ops, d0.checkpoint + 1)[..i]) <= d.applied
  }

  lemma GroupReady(d0: Disk, ops: seq<Op>)
    requires Idle(d0) && AllData(ops)
    ensures GroupDone(d0, d0.(log := d0.log + GroupRecords(ops, d0.checkpoint + 1)), ops, 0)
  {
    assert GroupRecords(ops, d0.checkpoint + 1)[..0] == [];
  }

  /** The state while a group is carried out: its tail is the group, all of it kept. */
  lemma GroupState(d0: Disk, d: Disk, ops: seq<Op>, i: nat)
    requires i <= |ops| && GroupDone(d0, d, ops, i)
    ensures Inv(d) && Tail(d) == GroupRecords(ops, d0.checkpoint + 1) && !Refused(d)
    ensures Kept(d0) <= Kept(d) && Lsns(GroupRecords(ops, d0.checkpoint + 1)) <= Kept(d)
  {
    hide Committed, Refused, Idle, AllData;
    var g := GroupRecords(ops, d0.checkpoint + 1);
    var d1 := d0.(log := d0.log + g);
    AppendStep(d0, ops, |ops| + 1);
    assert g[..|ops| + 1] == g;
    GroupCommitted(ops, d0.checkpoint + 1);
    AppliedOnly(d1, d);
  }

  /** Carrying out operations changes nothing about the log. */
  lemma AppliedOnly(d: Disk, d': Disk)
    requires d' == d.(applied := d'.applied) && d.applied <= d'.applied && Inv(d)
    ensures Inv(d') && Tail(d') == Tail(d) && (Refused(d') <==> Refused(d)) && Kept(d) <= Kept(d')
  {
  }

  lemma ApplyGroup(d0: Disk, d: Disk, ops: seq<Op>, i: nat)
    requires i < |ops| && GroupDone(d0, d, ops, i)
    ensures var d' := d.(applied := d.applied + {d0.checkpoint + 1 + i});
      GroupDone(d0, d', ops, i + 1) && Sound(d', d0, Lsns(GroupRecords(ops, d0.checkpoint + 1))) && !Refused(d')
  {
    var g := GroupRecords(ops, d0.checkpoint + 1);
    assert g[..i + 1] == g[..i] + [g[i]];
    MarkAdds(g[..i], g[i]);
    GroupState(d0, d.(applied := d.applied + {d0.checkpoint + 1 + i}), ops, i + 1);
  }

  /** The last three steps: a tail that is carried out is published, the checkpoint moves over it,
      and the log is emptied. */
  lemma FinishTail(d: Disk, d0: Disk, ls: set<nat>)
    requires Sound(d, d0, ls) && Inv(d) && Publishable(Tail(d)) && Lsns(Committed(Tail(d))) <= d.applied
    ensures var d1 := d.(csn := Last(Tail(d)));
      var d2 := d1.(checkpoint := Last(Tail(d)));
      && d.csn <= d1.csn && Sound(d1, d0, ls) && (Refused(d1) <==> Lone(Tail(d)))
      && Sound(d2, d0, ls) && !Refused(d2) && d2.log[FirstAbove(d2.log, d2.checkpoint)..] == []
    ensures var d3 := d.(csn := Last(Tail(d)), checkpoint := Last(Tail(d)), log := []);
      Sound(d3, d0, ls) && Inv(d3) && Idle(d3) && Clean(d3) && !Refused(d3) && Kept(d3) == d.applied
  {
    hide Inv, Idle, Clean, Refused, Tail, Committed, Lsns, Kept, Lone;
    PublishStep(d);
    var d1 := d.(csn := Last(Tail(d)));
    CheckpointStep(d1);
    var d2 := d1.(checkpoint := Last(Tail(d)));
    CleanIdle(d2);
    TruncateStep(d2);
    CleanIdle(d2.(log := []));
    IdleKept(d2.(log := []));
  }

  lemma GroupPublish(d0: Disk, d: Disk, ops: seq<Op>)
    requires GroupDone(d0, d, ops, |ops|)
    ensures var ls := Lsns(GroupRecords(ops, d0.checkpoint + 1));
      && Sound(d, d0, ls) && ls <= d.applied && Lsns(Committed(Tail(d))) <= d.applied && Publishable(Tail(d)) && Inv(d)
      && !Lone(Tail(d)) && Last(Tail(d)) == d0.checkpoint + 1 + |ops|
  {
    hide Refused, Committed, Kept, Clean, Idle, Inv;
    GroupState(d0, d, ops, |ops|);
    GroupCommitted(ops, d0.checkpoint + 1);
  }

  lemma CleanIdle(d: Disk)
    requires Clean(d)
    ensures Idle(d) && Inv(d)
  {
  }

  // ---- The steps of recovery ----

  /** A published mark without operations, not yet covered by the checkpoint. */
  predicate BarePublished(d: Disk) {
    Bare(Tail(d)) && d.csn > d.checkpoint
  }

  /** What counts as committed of one group, whole or cut off. */
  lemma TailCommitted(t: seq<Record>)
    requires OneGroup(t)
    ensures Committed(t) == if t == [] then [] else if t[|t| - 1].1.Commit? then t[..|t| - 1] else if |t| == 1 then t else []
  {
    if t == [] || t[|t| - 1].1.Data? {
      assert NoMark(t) && Flatten([]) + t == t;
      GroupsCommitted([], t);
    } else {
      var g := Group(t[..|t| - 1], t[|t| - 1].0);
      OneGroupFlat(g);
      assert Records(g) == t && t + [] == t && g.ops + [] == g.ops;
      GroupsCommitted([g], []);
    }
  }

  lemma RefusedIs(d: Disk)
    ensures var latest := MaxCommit(d.log);
      Refused(d) <==> d.csn > Max(d.checkpoint, if latest.None? then d.checkpoint else latest.value)
  {
  }

  lemma EmptyLog(d: Disk)
    requires Inv(d) && !Refused(d) && d.log == []
    ensures Idle(d) && Clean(d) && Kept(d) == d.applied && !Lone(Tail(d)) && !BarePublished(d)
  {
    RefusedIff(d);
    TailCommitted([]);
  }

  lemma DiscardAll(d: Disk)
    requires Inv(d) && !Refused(d) && Committed(Tail(d)) == []
    ensures var d' := d.(log := d.log[..FirstAbove(d.log, d.checkpoint)]);
      && Inv(d') && Sound(d', d, {}) && Idle(d') && Kept(d) == d'.applied
      && !Lone(Tail(d)) && (Clean(d') <==> !BarePublished(d)) && (Refused(d') <==> BarePublished(d))
  {
    RefusedIff(d);
    DiscardStep(d);
    TailCommitted(Tail(d));
  }

  /** Recovery after the first `i` committed operations. */
  ghost predicate Replayed(d0: Disk, d: Disk, i: nat) {
    && Inv(d0) && !Refused(d0) && i <= |Committed(Tail(d0))|
    && d == d0.(applied := d0.applied + Lsns(Committed(Tail(d0))[..i]))
  }

  lemma ReplayReady(d: Disk)
    requires Inv(d) && !Refused(d) && Committed(Tail(d)) != []
    ensures Replayed(d, d, 0) && Publishable(Tail(d)) && !BarePublished(d)
    ensures NoMark(Tail(d)) ==> Committed(Tail(d))[|Committed(Tail(d))| - 1].0 == Last(Tail(d))
    ensures Tail(d)[|Tail(d)| - 1].1.Commit? || NoMark(Tail(d))
  {
    TailCommitted(Tail(d));
    assert Committed(Tail(d))[..0] == [];
  }

  lemma ReplayOne(d0: Disk, d: Disk, i: nat)
    requires Replayed(d0, d, i) && i < |Committed(Tail(d0))|
    ensures var d' := d.(applied := d.applied + {Committed(Tail(d0))[i].0});
      Replayed(d0, d', i + 1) && Sound(d', d0, {}) && !Refused(d')
  {
    var rs := Committed(Tail(d0));
    var d' := d.(applied := d.applied + {rs[i].0});
    assert rs[..i + 1] == rs[..i] + [rs[i]];
    MarkAdds(rs[..i], rs[i]);
    TailCommitted(Tail(d0));
    AppliedOnly(d0, d');
  }

  lemma ReplayPublish(d0: Disk, d: Disk)
    requires Replayed(d0, d, |Committed(Tail(d0))|) && Committed(Tail(d0)) != []
    ensures Sound(d, d0, {}) && Inv(d) && Tail(d) == Tail(d0) && Publishable(Tail(d))
    ensures Lsns(Committed(Tail(d))) <= d.applied && Kept(d0) == d.applied
  {
    hide Refused, Committed, Clean, Inv;
    ReplayReady(d0);
    var rs := Committed(Tail(d0));
    assert rs[..|rs|] == rs;
    AppliedOnly(d0, d);
  }

  // ---- The server ----

  class Server {
    var disk: Disk
    /** The next LSN; 0 until the first one is taken. */
    var nextLsn: nat
    var recoveryRequired: bool

    ghost predicate Valid()
      reads this
    {
      Inv(disk) && (recoveryRequired || (Idle(disk) && (nextLsn == 0 || nextLsn == disk.checkpoint + 1)))
    }

    /** A process that has just started on what is on the disk. */
    constructor (found: Disk)
      requires Inv(found)
      ensures Valid() && disk == found && nextLsn == 0 && recoveryRequired
    {
      disk, nextLsn, recoveryRequired := found, 0, true;
    }

    /** `take_lsn`: above the checkpoint and above every record in the log. */
    method TakeLsn() returns (lsn: nat)
      modifies this`nextLsn
      ensures lsn == NextOf(disk, old(nextLsn)) && nextLsn == lsn + 1
    {
      if nextLsn == 0 {
        var base := disk.checkpoint;
        if disk.log != [] {
          base := Max(base, disk.log[|disk.log| - 1].0);
        }
        nextLsn := base + 1;
      }
      lsn := nextLsn;
      nextLsn := nextLsn + 1;
    }

    /** `append_group`: the operations and their mark, in one write. `torn` holds what a crash
        during the write can leave. */
    method AppendGroup(ops: seq<Op>) returns (commit: nat, ghost torn: seq<Disk>)
      requires Idle(disk) && (nextLsn == 0 || nextLsn == disk.checkpoint + 1) && AllData(ops)
      modifies this`disk, this`nextLsn
      ensures commit == disk.checkpoint + 1 + |ops| && nextLsn == commit + 1
      ensures disk == old(disk).(log := old(disk).log + GroupRecords(ops, old(disk.checkpoint) + 1))
      ensures |torn| == |ops| + 2
      ensures forall k | 0 <= k < |torn| :: Sound(torn[k], old(disk), {}) && (Refused(torn[k]) <==> old(disk.csn > disk.checkpoint) && k <= |ops|)
    {
      hide Sound, Refused, Idle;
      ghost var d0, first := disk, disk.checkpoint + 1;
      NextAbove(disk, nextLsn);
      ghost var g := GroupRecords(ops, first);
      var frames: seq<Record> := [];
      var i: nat := 0;
      while i < |ops|
        invariant i <= |ops| && frames == g[..i] && NextOf(disk, nextLsn) == first + i && disk == d0
      {
        var lsn := TakeLsn();
        frames := frames + [(lsn, ops[i])];
        i := i + 1;
      }
      commit := TakeLsn();
      frames := frames + [(commit, Commit)];
      assert frames == g;
      torn := seq(|ops| + 2, k requires 0 <= k < |ops| + 2 => d0.(log := d0.log + g[..k]));
      forall k | 0 <= k < |torn|
        ensures Sound(torn[k], d0, {}) && (Refused(torn[k]) <==> d0.csn > d0.checkpoint && k <= |ops|)
      {
        AppendSound(d0, ops, k);
      }
      disk := disk.(log := disk.log + frames);
    }

    /** The end of a commit and of a recovery: publish, move the checkpoint, empty the log. */
    method Finish(max: nat, ghost d0: Disk, ghost ls: set<nat>) returns (ghost passed: seq<Disk>)
      requires Sound(disk, d0, ls) && Inv(disk) && Publishable(Tail(disk)) && Lsns(Committed(Tail(disk))) <= disk.applied
      requires max == Last(Tail(disk))
      modifies this`disk
      ensures disk == old(disk).(csn := max, checkpoint := max, log := [])
      ensures Sound(disk, d0, ls) && Inv(disk) && Idle(disk) && Clean(disk) && Kept(disk) == disk.applied
      ensures |passed| == 3 && forall i | 0 <= i < |passed| :: Sound(passed[i], d0, ls)
      ensures (Refused(passed[0]) <==> Lone(Tail(old(disk)))) && !Refused(passed[1]) && !Refused(passed[2])
    {
      hide Sound, Refused, Idle, Clean, Inv, Kept, Tail, Lone, Lsns, Committed;
      FinishTail(disk, d0, ls);
      disk := disk.(csn := max);
      passed := [disk];
      disk := disk.(checkpoint := max);
      passed := passed + [disk];
      disk := disk.(log := disk.log[FirstAbove(disk.log, max)..]);
      passed := passed + [disk];
    }

    /** `group_via_wal`: append, apply, publish, checkpoint, truncate. A failure after the append
        leaves the server refusing writes until it is recovered. `torn` holds what a crash
        during the append can leave, `passed` every state after it: there the group is kept
        for good, whether or not the call succeeds. */
    method CommitGroup(ops: seq<Op>) returns (r: Option<nat>, ghost torn: seq<Disk>, ghost passed: seq<Disk>)
      requires Valid() && AllData(ops)
      modifies this
      ensures Valid()
      ensures old(recoveryRequired) ==> r == None && disk == old(disk) && torn == passed == []
      ensures !old(recoveryRequired) ==> Lsns(GroupRecords(ops, old(disk.checkpoint) + 1)) <= Kept(disk)
      ensures r.Some? ==>
        && !old(recoveryRequired) && !recoveryRequired && Clean(disk) && r.value == disk.checkpoint == old(disk.checkpoint) + 1 + |ops|
        && Lsns(GroupRecords(ops, old(disk.checkpoint) + 1)) <= disk.applied
      ensures forall k | 0 <= k < |torn| :: Sound(torn[k], old(disk), {}) && (Refused(torn[k]) <==> old(disk.csn > disk.checkpoint) && k <= |ops|)
      ensures forall i | 0 <= i < |passed| :: Sound(passed[i], old(disk), Lsns(GroupRecords(ops, old(disk.checkpoint) + 1))) && !Refused(passed[i])
    {
      hide Sound, Refused, Idle, Clean, Inv, Kept;
      torn, passed := [], [];
      if recoveryRequired {
        return None, torn, passed;
      }
      ghost var d0, g := disk, GroupRecords(ops, disk.checkpoint + 1);
      var start := disk.checkpoint + 1;
      var commit;
      commit, torn := AppendGroup(ops);
      recoveryRequired := true;
      GroupReady(d0, ops);
      var i: nat := 0;
      while i < |ops|
        invariant i <= |ops| && GroupDone(d0, disk, ops, i) && nextLsn == commit + 1 && recoveryRequired
        invariant forall j | 0 <= j < |passed| :: Sound(passed[j], d0, Lsns(g)) && !Refused(passed[j])
      {
        GroupState(d0, disk, ops, i);
        if * {
          return None, torn, passed;
        }
        ApplyGroup(d0, disk, ops, i);
        disk := disk.(applied := disk.applied + {start + i});
        passed := passed + [disk];
        i := i + 1;
      }
      GroupState(d0, disk, ops, i);
      if * {
        return None, torn, passed;
      }
      GroupPublish(d0, disk, ops);
      ghost var last := Finish(commit, d0, Lsns(g));
      passed := passed + last;
      recoveryRequired := false;
      r := Some(commit);
    }

    /** `recover_wal`, on a process that has just started. It refuses exactly the states whose
        versions are ahead of the log; otherwise everything kept is carried out. It passes
        only through states that can be recovered again, exactly unless the log ends in a lone
        operation, or in a published mark without operations. */
    method Recover() returns (ok: bool, ghost passed: seq<Disk>)
      requires Valid() && nextLsn == 0
      modifies this`disk, this`recoveryRequired
      ensures Valid()
      ensures ok <==> !Refused(old(disk))
      ensures !ok ==> disk == old(disk) && passed == []
      ensures ok ==> !recoveryRequired && Idle(disk) && Kept(old(disk)) == disk.applied
      ensures ok ==> (Clean(disk) <==> !BarePublished(old(disk)))
      ensures forall i | 0 <= i < |passed| :: Sound(passed[i], old(disk), {})
      ensures ok ==> ((forall i | 0 <= i < |passed| :: !Refused(passed[i])) <==>
                       !Lone(Tail(old(disk))) && !BarePublished(old(disk)))
    {
      hide Sound, Refused, Idle, Clean, Inv, Kept, MaxCommit, BarePublished, After, Lone;
      passed := [];
      var latest := MaxCommit(disk.log);
      RefusedIs(disk);
      if disk.csn > Max(disk.checkpoint, if latest.None? then disk.checkpoint else latest.value) {
        return false, passed;
      }
      ok := true;
      recoveryRequired := false;
      if disk.log == [] {
        EmptyLog(disk);
        return;
      }
      var pending := After(disk.log, disk.checkpoint);
      var records := CommittedOps(pending);
      if records == [] {
        DiscardAll(disk);
        disk := disk.(log := disk.log[..FirstAbove(disk.log, disk.checkpoint)]);
        passed := passed + [disk];
        assert passed[0] == disk;
      } else {
        passed := ReplayTail(pending, records);
      }
    }

    /** Carries out the committed operations, publishes, moves the checkpoint, empties the log. */
    method ReplayTail(pending: seq<Record>, records: seq<Record>) returns (ghost passed: seq<Disk>)
      requires Inv(disk) && pending == Tail(disk) && records == Committed(pending) && records != [] && !Refused(disk)
      modifies this`disk
      ensures Inv(disk) && Idle(disk) && Clean(disk) && Kept(old(disk)) == disk.applied && !BarePublished(old(disk))
      ensures forall i | 0 <= i < |passed| :: Sound(passed[i], old(disk), {})
      ensures (forall i | 0 <= i < |passed| :: !Refused(passed[i])) <==> !Lone(pending)
    {
      hide Sound, Refused, Idle, Clean, Inv, Kept, BarePublished, Lone, Committed, Lsns, Publishable;
      ghost var d0 := disk;
      passed := [];
      ReplayReady(d0);
      var marked := LastMark(pending);
      var max := if marked.Some? then marked.value else records[|records| - 1].0;
      var i: nat := 0;
      while i < |records|
        invariant i <= |records| && Replayed(d0, disk, i)
        invariant forall j | 0 <= j < |passed| :: Sound(passed[j], d0, {}) && !Refused(passed[j])
      {
        ReplayOne(d0, disk, i);
        disk := disk.(applied := disk.applied + {records[i].0});
        passed := passed + [disk];
        i := i + 1;
      }
      ReplayPublish(d0, disk);
      ghost var last := Finish(max, d0, {});
      ghost var at := |passed|;
      passed := passed + last;
      assert Refused(passed[at]) <==> Lone(pending);
    }

    /** The LSN of the last mark, searched from the end. */
    method LastMark(rs: seq<Record>) returns (r: Option<nat>)
      ensures rs != [] && rs[|rs| - 1].1.Commit? ==> r == Some(rs[|rs| - 1].0)
      ensures r.None? <==> NoMark(rs)
    {
      var i: nat := |rs|;
      while i > 0
        invariant i <= |rs| && forall j | i <= j < |rs| :: rs[j].1.Data?
      {
        i := i - 1;
        if rs[i].1.Commit? {
          return Some(rs[i].0);
        }
      }
      return None;
    }
  }
}
