/** Whole runs of commits, crashes, restarts and recoveries (runtime.rs, wal.rs): what holds in
    every reachable state, and exactly when recovery refuses. */
module CommitRuns {
  import opened Basics
  import opened WalFrames
  import opened WalGroups
  import opened CommitProtocol

  /** What the process is doing: not running, replaying the log, waiting for a commit, between
      the append and the checkpoint of one, or between checkpoint and truncation. */
  datatype Mode = Down | Recovering | Ready | Committing | Closing

  datatype Node = Node(disk: Disk, mode: Mode)

  /** One step. `Append` leaves the first `k` records of a group: all of them, or what a crash
      during the write left. A failure inside a commit or a recovery is a crash: nothing is
      written until the next start. */
  datatype Action =
    | Crash
    | Start
    | Append(ops: seq<Op>, k: nat)
    | Apply(lsn: nat)
    | Publish
    | Checkpoint
    | Truncate
    | Discard

  /** A commit, or a recovery that found something to replay. */
  predicate Working(n: Node) {
    n.mode.Committing? || (n.mode.Recovering? && Committed(Tail(n.disk)) != [])
  }

  predicate Carried(d: Disk) {
    Publishable(Tail(d)) && Lsns(Committed(Tail(d))) <= d.applied
  }

  predicate Enabled(n: Node, a: Action) {
    match a
    case Crash => true
    case Start => n.mode.Down? && !Refused(n.disk)
    case Append(ops, k) => n.mode.Ready? && AllData(ops) && k <= |ops| + 1
    case Apply(lsn) => Working(n) && lsn in Lsns(Committed(Tail(n.disk)))
    case Publish => Working(n) && Carried(n.disk)
    case Checkpoint => Working(n) && Carried(n.disk) && n.disk.csn == Last(Tail(n.disk))
    case Truncate => n.mode.Closing?
    case Discard => n.mode.Recovering? && Committed(Tail(n.disk)) == []
  }

  function Do(n: Node, a: Action): Node
    requires Enabled(n, a)
  {
    var d := n.disk;
    match a
    case Crash => Node(d, Down)
    case Start => Node(d, Recovering)
    case Append(ops, k) =>
      Node(d.(log := d.log + GroupRecords(ops, d.checkpoint + 1)[..k]), if k <= |ops| then Down else Committing)
    case Apply(lsn) => Node(d.(applied := d.applied + {lsn}), n.mode)
    case Publish => Node(d.(csn := Last(Tail(d))), n.mode)
    case Checkpoint => Node(d.(checkpoint := Last(Tail(d))), Closing)
    case Truncate => Node(d.(log := d.log[FirstAbove(d.log, d.checkpoint)..]), Ready)
    case Discard => Node(d.(log := d.log[..FirstAbove(d.log, d.checkpoint)]), Ready)
  }

  /** The invariant of every reachable state: one group above the checkpoint, which a commit has
      marked; nothing above it between commits; and a recovery is ahead of the log only behind a
      lone operation it has published itself. */
  predicate Fit(n: Node) {
    && Inv(n.disk)
    && (n.mode.Ready? ==> Idle(n.disk))
    && (n.mode.Closing? ==> Clean(n.disk))
    && (n.mode.Committing? ==> Marked(Tail(n.disk)))
    && (n.mode.Recovering? && Refused(n.disk) ==> Lone(Tail(n.disk)))
  }

  /** The two steps that leave versions without a mark behind them. */
  predicate Strands(n: Node, a: Action) {
    (a.Publish? && Lone(Tail(n.disk))) || (a.Discard? && BarePublished(n.disk))
  }

  /** The two steps that cover such versions again: a complete group, and the checkpoint. */
  predicate Heals(a: Action) {
    a.Checkpoint? || (a.Append? && a.k == |a.ops| + 1)
  }

  // ---- One step ----

  /** What a step must keep: the invariant, every operation kept, and the exact account of
      refusals. */
  predicate Keeps(n: Node, a: Action, n': Node)
    requires Enabled(n, a)
  {
    && Fit(n') && Kept(n.disk) <= Kept(n'.disk)
    && (Refused(n'.disk) <==> Strands(n, a) || (Refused(n.disk) && !Heals(a)))
    && Tail(n'.disk) == (match a
                         case Append(ops, k) => GroupRecords(ops, n.disk.checkpoint + 1)[..k]
                         case Checkpoint => []
                         case Truncate => []
                         case Discard => []
                         case _ => Tail(n.disk))
  }

  lemma AppendKeeps(n: Node, ops: seq<Op>, k: nat)
    requires Fit(n) && Enabled(n, Append(ops, k))
    ensures Keeps(n, Append(ops, k), Do(n, Append(ops, k)))
  {
    hide Inv, Refused, Kept, AllData;
    AppendStep(n.disk, ops, k);
    RefusedIff(n.disk);
  }

  lemma ApplyKeeps(n: Node, lsn: nat)
    requires Fit(n) && Enabled(n, Apply(lsn))
    ensures Keeps(n, Apply(lsn), Do(n, Apply(lsn)))
  {
    hide Inv, Refused, Kept;
    AppliedOnly(n.disk, Do(n, Apply(lsn)).disk);
  }

  lemma PublishKeeps(n: Node)
    requires Fit(n) && Enabled(n, Publish)
    ensures Keeps(n, Publish, Do(n, Publish))
  {
    hide Inv, Refused, Kept, Committed;
    PublishStep(n.disk);
    RefusedIff(n.disk);
  }

  lemma CheckpointKeeps(n: Node)
    requires Fit(n) && Enabled(n, Checkpoint)
    ensures Keeps(n, Checkpoint, Do(n, Checkpoint))
  {
    hide Inv, Refused, Kept, Committed;
    CheckpointStep(n.disk);
  }

  lemma TruncateKeeps(n: Node)
    requires Fit(n) && Enabled(n, Truncate)
    ensures Keeps(n, Truncate, Do(n, Truncate))
  {
    hide Inv, Refused, Kept, Committed;
    TruncateStep(n.disk);
    assert n.disk.log[|n.disk.log|..] == [];
    RefusedIff(n.disk);
  }

  lemma DiscardKeeps(n: Node)
    requires Fit(n) && Enabled(n, Discard)
    ensures Keeps(n, Discard, Do(n, Discard))
  {
    hide Refused, Kept, Committed;
    DiscardStep(n.disk);
    RefusedIff(n.disk);
    TailCommitted(Tail(n.disk));
  }

  /** Every step keeps the invariant and everything kept. It leads to a refusal exactly if it
      publishes a lone operation, or discards the mark of a published group without operations,
      or neither appends a complete group nor moves the checkpoint in a refused state. */
  lemma StepKeeps(n: Node, a: Action)
    requires Fit(n) && Enabled(n, a)
    ensures Keeps(n, a, Do(n, a))
  {
    match a
    case Crash =>
    case Start =>
    case Append(ops, k) => AppendKeeps(n, ops, k);
    case Apply(lsn) => ApplyKeeps(n, lsn);
    case Publish => PublishKeeps(n);
    case Checkpoint => CheckpointKeeps(n);
    case Truncate => TruncateKeeps(n);
    case Discard => DiscardKeeps(n);
  }

  // ---- Runs ----

  datatype Trace = Trace(nodes: seq<Node>, actions: seq<Action>)

  ghost predicate StepAt(t: Trace, i: nat)
    requires |t.nodes| == |t.actions| + 1 && i < |t.actions|
  {
    Enabled(t.nodes[i], t.actions[i]) && t.nodes[i + 1] == Do(t.nodes[i], t.actions[i])
  }

  const EMPTY: Node := Node(Disk([], 0, 0, {}), Down)

  /** A run from an empty database. */
  ghost predicate IsRun(t: Trace) {
    && |t.nodes| == |t.actions| + 1
    && t.nodes[0] == EMPTY
    && forall i | 0 <= i < |t.actions| :: StepAt(t, i)
  }

  lemma {:induction false} RunFit(t: Trace, i: nat)
    requires IsRun(t) && i < |t.nodes|
    ensures Fit(t.nodes[i])
    ensures i < |t.actions| ==> StepAt(t, i) && Keeps(t.nodes[i], t.actions[i], t.nodes[i + 1])
  {
    hide Enabled, Do, Fit, Keeps;
    if i == 0 {
      EmptyFits();
    } else {
      RunFit(t, i - 1);
      KeepsFits(t.nodes[i - 1], t.actions[i - 1], t.nodes[i]);
    }
    if i < |t.actions| {
      assert StepAt(t, i);
      StepKeeps(t.nodes[i], t.actions[i]);
    }
  }

  lemma EmptyFits()
    ensures Fit(EMPTY)
  {
  }

  lemma KeepsFits(n: Node, a: Action, n': Node)
    requires Enabled(n, a) && Keeps(n, a, n')
    ensures Fit(n')
  {
    hide Enabled;
  }

  /** In every reachable state at most one group, whole or cut off, lies above the checkpoint,
      numbered from it without a gap, and the published version lies between the checkpoint and
      the end of that group, or is one number ahead of an empty tail. */
  lemma OneGroupAbove(t: Trace, i: nat)
    requires IsRun(t) && i < |t.nodes|
    ensures var d := t.nodes[i].disk;
      && OneGroup(Tail(d)) && Follows(Tail(d), d.checkpoint) && Rising(d.log)
      && d.checkpoint <= d.csn <= (if Tail(d) == [] then d.checkpoint + 1 else Last(Tail(d)))
  {
    RunFit(t, i);
  }

  /** No operation that was carried out or completely logged is ever dropped. */
  lemma {:induction false} NeverDropped(t: Trace, i: nat, j: nat)
    requires IsRun(t) && i <= j < |t.nodes|
    ensures Kept(t.nodes[i].disk) <= Kept(t.nodes[j].disk)
    decreases j
  {
    hide Kept, Fit, Enabled, Do;
    if i < j {
      NeverDropped(t, i, j - 1);
      RunFit(t, j - 1);
    }
  }

  lemma WholeAppend(n: Node, a: Action)
    requires Fit(n) && a.Append? && a.k == |a.ops| + 1 && Enabled(n, a)
    ensures Lsns(GroupRecords(a.ops, n.disk.checkpoint + 1)) <= Kept(Do(n, a).disk)
  {
    hide Kept, Lsns, Inv, Refused, AllData, Tail;
    var g := GroupRecords(a.ops, n.disk.checkpoint + 1);
    GroupReady(n.disk, a.ops);
    assert g[..a.k] == g;
    GroupState(n.disk, Do(n, a).disk, a.ops, 0);
  }

  /** A group whose append completed is kept in every later state. */
  lemma AppendedKept(t: Trace, i: nat, j: nat)
    requires IsRun(t) && i < j < |t.nodes| && t.actions[i].Append? && t.actions[i].k == |t.actions[i].ops| + 1
    ensures Lsns(GroupRecords(t.actions[i].ops, t.nodes[i].disk.checkpoint + 1)) <= Kept(t.nodes[j].disk)
  {
    hide Kept, Lsns, Enabled, Do, Fit, Keeps;
    RunFit(t, i);
    WholeAppend(t.nodes[i], t.actions[i]);
    NeverDropped(t, i + 1, j);
  }

  // ---- When recovery refuses ----

  /** Step `k` left versions without a mark, and no step before `i` covered them. */
  ghost predicate StrandedAt(t: Trace, k: nat, i: nat)
    requires |t.nodes| == |t.actions| + 1 && i < |t.nodes|
  {
    && k < i && Strands(t.nodes[k], t.actions[k])
    && forall m | k < m < i :: !Heals(t.actions[m])
  }

  lemma RunRefused(t: Trace, i: nat)
    requires IsRun(t) && i < |t.actions|
    ensures Refused(t.nodes[i + 1].disk) <==>
            Strands(t.nodes[i], t.actions[i]) || (Refused(t.nodes[i].disk) && !Heals(t.actions[i]))
  {
    hide Fit, Refused, Strands, Heals, Enabled, Do;
    RunFit(t, i);
  }

  /** Recovery refuses a state exactly if one of the two stranding steps led there and neither a
      complete group nor a checkpoint followed it. */
  lemma {:induction false} RefusedExactly(t: Trace, i: nat)
    requires IsRun(t) && i < |t.nodes|
    ensures Refused(t.nodes[i].disk) <==> exists k :: StrandedAt(t, k, i)
  {
    hide Fit, Refused, Strands, Heals, StepAt, Keeps;
    if i == 0 {
      assert !Refused(EMPTY.disk) by { RefusedIs(EMPTY.disk); }
    } else {
      RefusedExactly(t, i - 1);
      RunRefused(t, i - 1);
      if Refused(t.nodes[i].disk) {
        if Strands(t.nodes[i - 1], t.actions[i - 1]) {
          assert StrandedAt(t, i - 1, i);
        } else {
          var k :| StrandedAt(t, k, i - 1);
          assert StrandedAt(t, k, i);
        }
      } else if k: nat :| StrandedAt(t, k, i) {
        assert k < i - 1 ==> StrandedAt(t, k, i - 1);
      }
    }
  }

  /** A refused state whose process is gone is final: nothing but a crash can follow. */
  lemma {:induction false} RefusedForever(t: Trace, i: nat, j: nat)
    requires IsRun(t) && i <= j < |t.nodes| && t.nodes[i].mode.Down? && Refused(t.nodes[i].disk)
    ensures t.nodes[j] == t.nodes[i] && (j < |t.actions| ==> t.actions[j].Crash?)
    decreases j
  {
    hide Refused;
    if i < j {
      RefusedForever(t, i, j - 1);
      assert StepAt(t, j - 1);
    }
    if j < |t.actions| {
      assert StepAt(t, j);
    }
  }

  /** No group is empty, and no crash cuts an append down to a single unmarked operation. */
  ghost predicate NoLoneTail(t: Trace) {
    forall i | 0 <= i < |t.actions| && t.actions[i].Append? :: t.actions[i].ops != [] && t.actions[i].k != 1
  }

  lemma TailStep(t: Trace, i: nat)
    requires IsRun(t) && NoLoneTail(t) && i < |t.actions| && |Tail(t.nodes[i].disk)| != 1
    ensures |Tail(t.nodes[i + 1].disk)| != 1 && !Strands(t.nodes[i], t.actions[i])
  {
    hide Fit, Refused, Kept, Tail, Committed, Lsns, AllData;
    RunFit(t, i);
    if t.actions[i].Append? {
      AppendLength(t.nodes[i], t.actions[i]);
    }
  }

  /** In a run without lone tails recovery never refuses, whatever the crashes. */
  lemma {:induction false} NeverRefused(t: Trace, i: nat)
    requires IsRun(t) && NoLoneTail(t) && i < |t.nodes|
    ensures !Refused(t.nodes[i].disk) && |Tail(t.nodes[i].disk)| != 1
  {
    hide Refused, Strands, StepAt, NoLoneTail;
    if i == 0 {
      RefusedIs(EMPTY.disk);
    } else {
      NeverRefused(t, i - 1);
      TailStep(t, i - 1);
      RunRefused(t, i - 1);
    }
  }

  lemma AppendLength(n: Node, a: Action)
    requires a.Append? && Enabled(n, a)
    ensures |GroupRecords(a.ops, n.disk.checkpoint + 1)[..a.k]| == a.k
  {
  }

  // ---- Two runs that end in a refusal ----

  /** The disk of the examples: one record in the log. */
  function OneRecord(op: Op, csn: nat, applied: set<nat>): Disk {
    Disk([(1, op)], 0, csn, applied)
  }

  lemma OneTail(op: Op, csn: nat, applied: set<nat>)
    ensures Tail(OneRecord(op, csn, applied)) == [(1, op)]
    ensures Committed([(1, op)]) == if op.Data? then [(1, op)] else []
    ensures Lsns([(1, op)]) == if op.Data? then {1} else {}
  {
    var rs: seq<Record> := [(1, op)];
    AfterAll(rs, 0);
    TailCommitted(rs);
    assert rs[..0] == [];
    MarkAdds([], (1, op));
    assert [] + rs == rs;
  }

  lemma OneMark(op: Op, csn: nat, applied: set<nat>)
    ensures Refused(OneRecord(op, csn, applied)) <==> csn > if op.Data? then 0 else 1
  {
    var rs: seq<Record> := [(1, op)];
    assert rs[..|rs| - 1] == [];
    assert MaxCommit([]) == None;
  }

  /** A database that has just been created. */
  lemma Fresh()
    ensures Enabled(EMPTY, Start) && Do(EMPTY, Start) == Node(EMPTY.disk, Recovering)
    ensures Enabled(Node(EMPTY.disk, Recovering), Discard) && Do(Node(EMPTY.disk, Recovering), Discard) == Node(EMPTY.disk, Ready)
  {
    RefusedIs(EMPTY.disk);
    TailCommitted([]);
  }

  lemma FirstAppend(ops: seq<Op>)
    requires AllData(ops)
    ensures Enabled(Node(EMPTY.disk, Ready), Append(ops, 1))
    ensures Do(Node(EMPTY.disk, Ready), Append(ops, 1)) ==
      if ops == [] then Node(OneRecord(Commit, 0, {}), Committing) else Node(OneRecord(ops[0], 0, {}), Down)
  {
    var g := GroupRecords(ops, 1);
    assert g[..1] == [g[0]] && EMPTY.disk.log + g[..1] == [g[0]];
  }

  lemma LoneSteps(op: Op)
    requires op.Data?
    ensures var n := Node(OneRecord(op, 0, {}), Recovering);
      && Enabled(n.(mode := Down), Start) && Do(n.(mode := Down), Start) == n
      && Enabled(n, Apply(1)) && Do(n, Apply(1)) == Node(OneRecord(op, 0, {1}), Recovering)
  {
    OneTail(op, 0, {});
    OneMark(op, 0, {});
  }

  lemma OnePublish(op: Op, applied: set<nat>, mode: Mode)
    requires applied == (if op.Data? then {1} else {}) && mode == if op.Data? then Recovering else Committing
    ensures var n := Node(OneRecord(op, 0, applied), mode);
      Enabled(n, Publish) && Do(n, Publish) == Node(OneRecord(op, 1, applied), mode)
  {
    OneTail(op, 0, applied);
  }

  lemma BareSteps()
    ensures var n := Node(OneRecord(Commit, 1, {}), Recovering);
      && Enabled(n.(mode := Down), Start) && Do(n.(mode := Down), Start) == n
      && Enabled(n, Discard) && Do(n, Discard) == Node(Disk([], 0, 1, {}), Ready)
    ensures Refused(Disk([], 0, 1, {}))
  {
    OneTail(Commit, 1, {});
    OneMark(Commit, 1, {});
    RefusedIs(Disk([], 0, 1, {}));
    assert FirstAbove([(1, Commit)], 0) == 0;
  }

  function LoneActions(op: Op): seq<Action> {
    [Start, Discard, Append([op], 1), Start, Apply(1), Publish, Crash]
  }

  /** A write of one operation whose mark is lost, and a recovery that stops between publishing
      it and moving the checkpoint: the database can no longer be opened. */
  lemma LoneRefused(op: Op)
    requires op.Data?
    ensures exists t: Trace :: IsRun(t) && t.actions == LoneActions(op) && t.nodes[7].mode.Down? && Refused(t.nodes[7].disk)
  {
    hide Enabled, Do, Refused;
    Fresh();
    FirstAppend([op]);
    LoneSteps(op);
    OnePublish(op, {1}, Recovering);
    OneMark(op, 1, {1});
    CrashStep(Node(OneRecord(op, 1, {1}), Recovering));
    var t := Trace([EMPTY, Node(EMPTY.disk, Recovering), Node(EMPTY.disk, Ready), Node(OneRecord(op, 0, {}), Down),
                    Node(OneRecord(op, 0, {}), Recovering), Node(OneRecord(op, 0, {1}), Recovering),
                    Node(OneRecord(op, 1, {1}), Recovering), Node(OneRecord(op, 1, {1}), Down)], LoneActions(op));
    assert StepAt(t, 0) && StepAt(t, 1) && StepAt(t, 2) && StepAt(t, 3) && StepAt(t, 4) && StepAt(t, 5) && StepAt(t, 6);
    assert IsRun(t);
  }

  lemma CrashStep(n: Node)
    ensures Enabled(n, Crash) && Do(n, Crash) == Node(n.disk, Down)
  {
  }

  const BARE: seq<Action> := [Start, Discard, Append([], 1), Publish, Crash, Start, Discard, Crash]

  /** An empty group that is published, and recovered before its checkpoint: the server goes on,
      but if it stops again before a complete group follows, the database cannot be opened. */
  lemma BareRefused()
    ensures exists t: Trace :: IsRun(t) && t.actions == BARE && t.nodes[7].mode.Ready? && t.nodes[8].mode.Down? && Refused(t.nodes[8].disk)
  {
    hide Enabled, Do, Refused;
    Fresh();
    FirstAppend([]);
    OnePublish(Commit, {}, Committing);
    CrashStep(Node(OneRecord(Commit, 1, {}), Committing));
    BareSteps();
    CrashStep(Node(Disk([], 0, 1, {}), Ready));
    var t := Trace([EMPTY, Node(EMPTY.disk, Recovering), Node(EMPTY.disk, Ready), Node(OneRecord(Commit, 0, {}), Committing),
                    Node(OneRecord(Commit, 1, {}), Committing), Node(OneRecord(Commit, 1, {}), Down),
                    Node(OneRecord(Commit, 1, {}), Recovering), Node(Disk([], 0, 1, {}), Ready), Node(Disk([], 0, 1, {}), Down)], BARE);
    assert StepAt(t, 0) && StepAt(t, 1) && StepAt(t, 2) && StepAt(t, 3);
    assert StepAt(t, 4) && StepAt(t, 5) && StepAt(t, 6) && StepAt(t, 7);
    assert IsRun(t);
  }
}
