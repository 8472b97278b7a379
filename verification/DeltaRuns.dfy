/** Whole lives of the version catalogue (mvcc.rs): steps of the engine, publishes that write to
    the disk, and crashes, inside a publish or between steps, each followed by an open. */
module DeltaRuns {
  import opened Basics
  import opened Versions
  import opened Publish
  import opened Catalog
  import opened Transactions
  import opened Snapshots
  import opened DeltaFrames
  import opened DeltaLog

  /** The engine in memory and the files it writes. */
  datatype World = World(system: System, disk: Disk)

  /** A publish that was under way. */
  datatype Attempt = Attempt(csn: nat, schemas: seq<Schema>, list: Listing, next: Durable, large: bool, shared: set<nat>)

  /** A step of the engine; or a crash that leaves the disk `left`, and the next open. `large` and
      `shared` are what `persist` finds: the size of the log, and the tables both states share. */
  datatype Event =
    | Step(a: Action, large: bool, shared: set<nat>)
    | Crash(during: Option<Attempt>, left: Disk)

  /** A publish takes a new csn, and the tables it does not list are live. */
  ghost predicate Attempts(s: State, p: Attempt) {
    Publishes(s, p.csn, p.schemas, p.list, p.next) && SharedOk(s.durable, p.next, p.shared)
  }

  ghost predicate Leaves(codec: Codec<Delta>, w: World, during: Option<Attempt>, left: Disk) {
    match during
    case None => left == w.disk
    case Some(p) =>
      && Attempts(w.system.state, p)
      && CrashPoint(codec, w.disk, w.system.state.durable, p.next, Oldest(w.system.state.txs, p.csn), p.large, p.shared, left)
  }

  /** A process that has just opened the catalogue. */
  function Fresh(d: Durable): System {
    System(State(d, map[], 0), map[])
  }

  ghost predicate Stepped(codec: Codec<Delta>, w: World, a: Action, large: bool, shared: set<nat>, w': World) {
    && Next(w.system, a, w'.system)
    && if a.PublishAt? then
         var d, d' := w.system.state.durable, w'.system.state.durable;
         && d.csn < a.csn && CurrentLive(d, a.schemas, a.list) && SharedOk(d, d', shared)
         && w'.disk == Persist(codec, w.disk, d, d', Oldest(w.system.state.txs, a.csn), large, shared)
       else w'.disk == w.disk
  }

  ghost predicate Happens(codec: Codec<Delta>, w: World, e: Event, w': World) {
    match e
    case Step(a, large, shared) => Stepped(codec, w, a, large, shared, w')
    case Crash(during, left) =>
      && Leaves(codec, w, during, left)
      && Opened(codec, left) == Ok((w'.system.state.durable, w'.disk))
      && w'.system == Fresh(w'.system.state.durable)
  }

  /** Memory and disk are in step around the stored state `p`. */
  ghost predicate InStep(codec: Codec<Delta>, w: World, p: Durable) {
    SnapshotInv(w.system.state) && exists log :: w.disk == DiskOf(codec, log) && Synced(w.system.state, log, p)
  }

  // ---- One event ----

  lemma FinishSynced(s: State, token: Token, log: Log, p: Durable)
    requires SnapshotInv(s) && Synced(s, log, p)
    ensures Synced(FinishState(s, token), log, p)
  {
    hide Resting, Replayed;
    var txs := RemoveTx(s.txs, token);
    var oldest := Oldest(txs, s.durable.csn);
    SameSnapshotsLive(s.txs, txs);
    LiveAtMostCsn(s);
    OldestNeverDecreases(s.txs, s.durable.csn, txs, s.durable.csn);
    var bound: nat :| bound <= Oldest(s.txs, s.durable.csn) && s.durable == PruneDurable(p, bound);
    PruneDurableTwice(p, bound, oldest);
  }

  lemma TxsSynced(s: State, txs': Txs, nextTx': nat, log: Log, p: Durable)
    requires Synced(s, log, p) && Oldest(s.txs, s.durable.csn) <= Oldest(txs', s.durable.csn)
    ensures Synced(s.(txs := txs', nextTx := nextTx'), log, p)
  {
    hide Resting, Replayed;
  }

  lemma BeginOldest(s: State, schemas: seq<Schema>, serializable: bool, s': State)
    requires SnapshotInv(s) && BeginState(s, schemas, serializable) == Ok(s')
    ensures s'.durable == s.durable && Oldest(s.txs, s.durable.csn) <= Oldest(s'.txs, s.durable.csn)
  {
    LiveAtMostCsn(s);
    assert LiveSnapshots(s'.txs) <= LiveSnapshots(s.txs) + {s.durable.csn};
    OldestNeverDecreases(s.txs, s.durable.csn, s'.txs, s.durable.csn);
  }

  /** Steps that publish nothing leave the disk in step, even the prune of `finish`. */
  lemma QuietSynced(s: System, a: Action, s': System, log: Log, p: Durable)
    requires SnapshotInv(s.state) && Next(s, a, s') && !a.PublishAt? && Synced(s.state, log, p)
    ensures Synced(s'.state, log, p)
  {
    hide Synced;
    LiveAtMostCsn(s.state);
    if a.Finish? {
      FinishSynced(s.state, a.token, log, p);
    } else if a.Begin? {
      BeginOldest(s.state, a.schemas, a.serializable, s'.state);
      TxsSynced(s.state, s'.state.txs, s'.state.nextTx, log, p);
    } else if a.BeginFail? {
      TxsSynced(s.state, s.state.txs, s'.state.nextTx, log, p);
    } else {
      LockStepTxs(s, a, s');
      SameSnapshotsLive(s.state.txs, s'.state.txs);
      OldestNeverDecreases(s.state.txs, s.state.durable.csn, s'.state.txs, s.state.durable.csn);
      TxsSynced(s.state, s'.state.txs, s.state.nextTx, log, p);
    }
  }

  lemma StepInStep(codec: Codec<Delta>, w: World, a: Action, large: bool, shared: set<nat>, w': World, p: Durable)
    requires InStep(codec, w, p) && Stepped(codec, w, a, large, shared, w')
    ensures InStep(codec, w', if a.PublishAt? then w'.system.state.durable else p)
  {
    hide Synced, Next;
    var log :| w.disk == DiskOf(codec, log) && Synced(w.system.state, log, p);
    StepKeepsSnapshots(w.system, a, w'.system);
    if a.PublishAt? {
      var s, d' := w.system.state, w'.system.state.durable;
      PublishedState(w.system, a, w'.system);
      PublishSynced(s, log, p, a.csn, a.schemas, a.list, d', large, shared);
      PersistIs(codec, log, s.durable, d', Oldest(s.txs, a.csn), large, shared);
    } else {
      QuietSynced(w.system, a, w'.system, log, p);
    }
  }

  lemma PublishedState(s: System, a: Action, s': System)
    requires SnapshotInv(s.state) && a.PublishAt? && Next(s, a, s')
    requires s.state.durable.csn < a.csn && CurrentLive(s.state.durable, a.schemas, a.list)
    ensures s'.state == s.state.(durable := s'.state.durable)
    ensures Publishes(s.state, a.csn, a.schemas, a.list, s'.state.durable)
  {
  }

  /** Whatever point a crash comes at, the catalogue opens: to the stored state, or to the one
      that was being published, and the disk is in step with it. */
  lemma CrashOpens(codec: Codec<Delta>, w: World, during: Option<Attempt>, left: Disk, p: Durable)
    requires Faithful(codec) && InStep(codec, w, p) && Leaves(codec, w, during, left)
    ensures OpensInStep(codec, left, p) || (during.Some? && OpensInStep(codec, left, during.value.next))
  {
    hide Synced, Opened, OpensInStep, Publishes, SharedOk, CrashPoint;
    var s := w.system.state;
    var log :| w.disk == DiskOf(codec, log) && Synced(s, log, p);
    match during
    case None => SyncedOpens(codec, s, log, p);
    case Some(t) =>
      PublishCrashAtomic(codec, s, log, p, t.csn, t.schemas, t.list, t.next, t.large, t.shared, left);
  }

  lemma CrashInStep(codec: Codec<Delta>, w: World, during: Option<Attempt>, left: Disk, w': World, p: Durable)
    requires Faithful(codec) && InStep(codec, w, p) && Happens(codec, w, Crash(during, left), w')
    ensures var q := w'.system.state.durable;
      InStep(codec, w', q) && (q == p || (during.Some? && q == during.value.next))
  {
    hide Synced, Opened, Leaves;
    var q := w'.system.state.durable;
    CrashOpens(codec, w, during, left, p);
    assert OpensInStep(codec, left, q);
    var log :| Opened(codec, left) == Ok((q, DiskOf(codec, log))) && Synced(State(q, map[], 0), log, q);
    RestartSynced(State(q, map[], 0), log, q);
  }

  // ---- Lives ----

  datatype Life = Life(worlds: seq<World>, events: seq<Event>)

  ghost predicate HappensAt(codec: Codec<Delta>, l: Life, i: nat)
    requires |l.worlds| == |l.events| + 1 && i < |l.events|
  {
    Happens(codec, l.worlds[i], l.events[i], l.worlds[i + 1])
  }

  /** Any sequence of events from an empty directory. */
  ghost predicate IsLife(codec: Codec<Delta>, l: Life) {
    && |l.worlds| == |l.events| + 1
    && l.worlds[0] == World(Fresh(EMPTY), Disk(None, []))
    && forall i | 0 <= i < |l.events| :: HappensAt(codec, l, i)
  }

  /** What is stored: the state of the last completed publish, or what the last open found. */
  ghost function Stored(l: Life, i: nat): Durable
    requires |l.worlds| == |l.events| + 1 && i < |l.worlds|
  {
    if i == 0 || l.events[i - 1].Crash? || l.events[i - 1].a.PublishAt? then l.worlds[i].system.state.durable
    else Stored(l, i - 1)
  }

  lemma EmptyInStep(codec: Codec<Delta>)
    ensures InStep(codec, World(Fresh(EMPTY), Disk(None, [])), EMPTY)
  {
    var log, s := Log(None, []), State(EMPTY, map[], 0);
    assert DiskOf(codec, log) == Disk(None, []);
    assert LiveSnapshots(map[]) == {} && PruneDurable(EMPTY, 0) == EMPTY;
    assert Synced(s, log, EMPTY);
  }

  lemma {:induction false} LifeInStep(codec: Codec<Delta>, l: Life, i: nat)
    requires Faithful(codec) && IsLife(codec, l) && i < |l.worlds|
    ensures InStep(codec, l.worlds[i], Stored(l, i))
  {
    hide InStep, Stepped, Happens;
    if i == 0 {
      EmptyInStep(codec);
    } else {
      LifeInStep(codec, l, i - 1);
      assert HappensAt(codec, l, i - 1);
      EventInStep(codec, l.worlds[i - 1], l.events[i - 1], l.worlds[i], Stored(l, i - 1));
    }
  }

  lemma EventInStep(codec: Codec<Delta>, w: World, e: Event, w': World, p: Durable)
    requires Faithful(codec) && InStep(codec, w, p) && Happens(codec, w, e, w')
    ensures InStep(codec, w', if e.Crash? || e.a.PublishAt? then w'.system.state.durable else p)
  {
    hide InStep, Stepped;
    match e
    case Step(a, large, shared) => StepInStep(codec, w, a, large, shared, w', p);
    case Crash(during, left) => CrashInStep(codec, w, during, left, w', p);
  }

  /** Lossless log: at every point of every life, opening the disk gives exactly what is stored,
      and leaves the disk as it is. */
  lemma OpenGivesStored(codec: Codec<Delta>, l: Life, i: nat)
    requires Faithful(codec) && IsLife(codec, l) && i < |l.worlds|
    ensures Opened(codec, l.worlds[i].disk) == Ok((Stored(l, i), l.worlds[i].disk))
  {
    hide Synced, Opened;
    LifeInStep(codec, l, i);
    var w := l.worlds[i];
    var log :| w.disk == DiskOf(codec, log) && Synced(w.system.state, log, Stored(l, i));
    SyncedOpens(codec, w.system.state, log, Stored(l, i));
  }

  /** Crash safety over whole lives: a crash at any point, at any byte of a publish, is followed
      by an open that succeeds, and from which the life goes on with what was stored before or
      with what was being published. */
  lemma CrashGivesStoredOrNew(codec: Codec<Delta>, l: Life, i: nat, during: Option<Attempt>, left: Disk)
    requires Faithful(codec) && IsLife(codec, l) && i < |l.worlds| && Leaves(codec, l.worlds[i], during, left)
    ensures Opened(codec, left).Ok?
    ensures var q := Opened(codec, left).value.0;
      && (q == Stored(l, i) || (during.Some? && q == during.value.next))
      && Happens(codec, l.worlds[i], Crash(during, left), World(Fresh(q), Opened(codec, left).value.1))
  {
    hide Synced, Opened, Leaves, InStep;
    LifeInStep(codec, l, i);
    CrashOpens(codec, l.worlds[i], during, left, Stored(l, i));
  }

  /** No completed publish is ever taken back: the stored csn never decreases. */
  lemma {:induction false} StoredNeverBack(codec: Codec<Delta>, l: Life, i: nat, j: nat)
    requires Faithful(codec) && IsLife(codec, l) && i <= j < |l.worlds|
    ensures Stored(l, i).csn <= Stored(l, j).csn
    decreases j
  {
    hide InStep, Stepped, Happens;
    if i < j {
      StoredNeverBack(codec, l, i, j - 1);
      LifeInStep(codec, l, j - 1);
      assert HappensAt(codec, l, j - 1);
      EventNotBack(codec, l.worlds[j - 1], l.events[j - 1], l.worlds[j], Stored(l, j - 1));
    }
  }

  lemma EventNotBack(codec: Codec<Delta>, w: World, e: Event, w': World, p: Durable)
    requires Faithful(codec) && InStep(codec, w, p) && Happens(codec, w, e, w')
    ensures e.Crash? || e.a.PublishAt? ==> p.csn <= w'.system.state.durable.csn
  {
    hide Opened, Synced, CrashPoint;
    var s := w.system.state;
    var log :| w.disk == DiskOf(codec, log) && Synced(s, log, p);
    SyncedCsn(s, log, p);
    match e
    case Step(a, large, shared) =>
      if a.PublishAt? {
        PublishedState(w.system, a, w'.system);
        PublishedRests(s, a.csn, a.schemas, a.list, w'.system.state.durable);
      }
    case Crash(during, left) =>
      CrashInStep(codec, w, during, left, w', p);
      if during.Some? {
        var t := during.value;
        PublishedRests(s, t.csn, t.schemas, t.list, t.next);
      }
  }

  lemma SyncedCsn(s: State, log: Log, p: Durable)
    requires Synced(s, log, p)
    ensures s.durable.csn == p.csn
  {
  }
}
