/** The page file (page.rs) with its buffer pool on top of the full-page journal
    (page_wal.rs). The ghost results list every disk state that an
    operation passes through. */
module PageFile {
  import opened Basics
  import opened PageJournal
  import opened PagePool

  /** Every one of these disks can be opened after a crash. The first ones are passed while the
      frames of the batch are appended: a crash is repaired to `s` with a prefix of the frames
      appended so far. From then on it is repaired to `s` with the whole batch. */
  ghost predicate AllRepaired(ds: seq<Disk>, s: Image, ws: seq<Write>) {
    forall i | 0 <= i < |ds| :: RepairedAt(ds[i], s, ws, i)
  }

  ghost predicate RepairedAt(d: Disk, s: Image, ws: seq<Write>, i: nat) {
    if i < |ws| then CrashGivesPrefix(d, s, ws[..i + 1]) else CrashGives(d, Apply(ws, s))
  }

  ghost predicate AllGive(ds: seq<Disk>, s: Image) {
    forall i | 0 <= i < |ds| :: CrashGives(ds[i], s)
  }

  lemma Joined(a: seq<Disk>, b: seq<Disk>, s: Image, ws: seq<Write>)
    requires AllRepaired(a, s, ws) && |ws| <= |a| && AllGive(b, Apply(ws, s))
    ensures AllRepaired(a + b, s, ws)
  {
    hide CrashGives, CrashGivesPrefix, Apply;
    forall i | 0 <= i < |a + b|
      ensures RepairedAt((a + b)[i], s, ws, i)
    {
      if i < |a| {
        assert RepairedAt(a[i], s, ws, i);
      }
    }
  }

  /** A batch once it is durable: nothing is carried out yet, and a crash is repaired to it. */
  lemma BatchPrepared(d: Disk, m: Meta, c: Image, lsn: nat, ws: seq<Write>)
    requires Rest(d, m, c)
    ensures var d' := SyncLog(Appended(d, FramesOf(lsn, m, ws)));
      && Prepared(d, d', c, ws) && Logged(d', NoteAll(m, FramesOf(lsn, m, ws))) && CrashGives(d', Apply(ws, d.data))
    ensures ws == [] ==> Prepared(d, d, c, ws) && Logged(d, m) && CrashGives(d, Apply(ws, d.data))
  {
    var fs := FramesOf(lsn, m, ws);
    BatchDurable(d, m, c, lsn, ws);
    BatchLogged(d, m, lsn, ws);
    var d' := SyncLog(Appended(d, fs));
    ApplySplit(Fresh(d.log, d.meta.sequence), ws, c);
    FullySynced(d', c, Apply(ws, d.data));
    if ws == [] {
      assert d.log + fs == d.log;
      assert d' == d;
    }
  }

  lemma NothingAppended(d: Disk, m: Meta, fs: seq<Frame>)
    ensures Appended(d, fs[..0]) == d && NoteAll(m, fs[..0]) == m
  {
    assert d.log + fs[..0] == d.log;
  }

  lemma FrameAppended(d: Disk, m: Meta, c: Image, lsn: nat, ws: seq<Write>, i: nat)
    requires Rest(d, m, c) && i < |ws|
    ensures var fs := FramesOf(lsn, m, ws);
      var f := NextFrame(lsn, NoteAll(m, fs[..i]), ws[i]);
      && AppendFrame(Appended(d, fs[..i]), f) == Appended(d, fs[..i + 1])
      && Note(NoteAll(m, fs[..i]), f) == NoteAll(m, fs[..i + 1])
      && CrashGivesPrefix(Appended(d, fs[..i + 1]), d.data, ws[..i + 1])
  {
    var fs := FramesOf(lsn, m, ws);
    FrameAt(lsn, m, ws, i);
    AppendedOk(d, m, c, lsn, ws, i + 1);
    assert d.log + fs[..i] + [fs[i]] == d.log + fs[..i + 1];
  }

  lemma NothingDone(ws: seq<Write>, s: Image)
    ensures Apply(ws[..0], s) == s
  {
  }

  lemma LoggedData(d: Disk, w: Write, m: Meta)
    requires Logged(d, m)
    ensures Logged(DoData(d, w), m)
  {
  }

  lemma BatchRest(d0: Disk, d: Disk, m: Meta, c: Image, ws: seq<Write>)
    requires Prepared(d0, d, c, ws) && Logged(d, m) && d.data == Apply(ws, d0.data)
    ensures Rest(d, m, c)
  {
    CarriedOut(d0, d, c, ws);
  }

  /** Publishing the metadata of synced pages, and then emptying the journal, loses nothing. */
  lemma PublishGives(d: Disk, m: Meta)
    requires Settled(Publish(d, m))
    ensures CrashGives(Publish(d, m), d.data) && CrashGives(ClearLog(Publish(d, m)), d.data)
    ensures Rest(ClearLog(Publish(d, m)), m, d.data)
  {
    var d1 := Publish(d, m);
    SettledOk(d1);
    SettledGives(d1);
    var d2 := ClearLog(d1);
    SettledOk(d2);
    SettledGives(d2);
  }

  lemma NothingToPublish(d: Disk, m: Meta)
    requires Settled(Publish(d, m)) && d.log == [] && d.meta == m
    ensures ClearLog(Publish(d, m)) == d
  {
  }

  lemma SettledGives(d: Disk)
    requires Settled(d)
    ensures CrashGives(d, d.data)
  {
    SettledOk(d);
    forall d', k: nat | Crash(d, d', k)
      ensures Recovered(d') == d.data
    {
      CrashRepaired(d, d.data, d', k);
      NothingFresh(d.log[..k], d.meta.sequence);
    }
  }

  lemma ImageAdded(ws: seq<Write>, p: nat, bytes: Content)
    ensures Pages(ws + [Put(p, bytes)]) == Pages(ws) + {p}
  {
    assert Put(p, bytes) in ws + [Put(p, bytes)];
    forall q | q in Pages(ws)
      ensures q in Pages(ws + [Put(p, bytes)])
    {
      var w :| w in ws && w.Put? && w.page == q;
      assert w in ws + [Put(p, bytes)];
    }
  }

  lemma PoolDirty(data: Image, cache: map<nat, Content>, dirty: set<nat>)
    requires PoolOk(data, cache, dirty)
    ensures dirty <= cache.Keys
  {
  }

  /** Syncing the data file once the journal is carried out. */
  lemma SyncGives(d: Disk, m: Meta, c: Image)
    requires Rest(d, m, c)
    ensures Rest(SyncData(d), m, c) && CrashGives(SyncData(d), d.data)
    ensures Settled(Publish(SyncData(d), m)) && (d.log == [] ==> d.meta == m)
  {
    SyncDataOk(d, c);
    RestGives(SyncData(d), m, c);
  }

  /** Exactly the cached pages have a time of last use, none in the future. */
  ghost predicate Recent(cache: map<nat, Content>, lastUsed: map<nat, nat>, clock: nat) {
    lastUsed.Keys == cache.Keys && forall p <- cache :: lastUsed[p] <= clock
  }

  lemma DropSmaller(cache: map<nat, Content>, p: nat)
    requires p in cache
    ensures |cache - {p}| == |cache| - 1
  {
    assert (cache - {p}).Keys == cache.Keys - {p};
    assert |cache.Keys| == |cache| && |(cache - {p}).Keys| == |cache - {p}|;
  }

  lemma RecentKeys(cache: map<nat, Content>, lastUsed: map<nat, nat>, clock: nat)
    requires Recent(cache, lastUsed, clock)
    ensures lastUsed.Keys == cache.Keys
  {
  }

  /** No cached page was used later. */
  ghost predicate Newest(lastUsed: map<nat, nat>, p: nat) {
    p in lastUsed && forall q <- lastUsed | q != p :: lastUsed[q] < lastUsed[p]
  }

  lemma KeepLarger(cache: map<nat, Content>, p: nat, bytes: Content)
    ensures |cache[p := bytes]| == if p in cache then |cache| else |cache| + 1
  {
    var cache' := cache[p := bytes];
    assert cache'.Keys == cache.Keys + {p};
    assert |cache.Keys| == |cache| && |cache'.Keys| == |cache'|;
  }

  lemma SameKept(cache: map<nat, Content>, p: nat)
    requires p in cache
    ensures cache[p := cache[p]] == cache
  {
  }

  lemma UpdateKept(cache: map<nat, Content>, lastUsed: map<nat, nat>, clock: nat, p: nat, bytes: Content)
    requires p in cache && Recent(cache, lastUsed, clock)
    ensures Recent(cache[p := bytes], lastUsed, clock) && |cache[p := bytes]| == |cache|
  {
    KeepLarger(cache, p, bytes);
    assert cache[p := bytes].Keys == cache.Keys;
  }

  lemma CachedShown(data: Image, cache: map<nat, Content>, p: nat)
    requires p in cache
    ensures p < |View(data, cache)| && View(data, cache)[p] == cache[p]
  {
  }

  lemma Emptied(s: Image)
    ensures Apply([Clear], s) == [] && View([], map[]) == [] && PoolOk([], map[], {})
  {
    assert [Clear][1..] == [];
    assert Apply([Clear], s) == Apply([], []);
    CountIs([], map[], 0);
  }

  /** A disk as it is found when the file is opened: all of it durable, and repairable. */
  ghost predicate Found(d: Disk, c: Image) {
    DiskOk(d, c) && d.synced == |d.log| && d.base == d.data && d.wild == {} && !d.cut
  }

  /** What every crash leaves can be opened. */
  lemma CrashFound(d: Disk, c: Image, d': Disk, k: nat)
    requires DiskOk(d, c) && Crash(d, d', k)
    ensures Found(d', c)
  {
    CrashRepaired(d, c, d', k);
  }

  /** Recovery after `i` frames: `x` is the data file as it was found. */
  ghost predicate Replaying(d: Disk, now: Disk, m: Meta, c: Image, i: nat)
    requires i <= |d.log|
  {
    && now.log == d.log && now.synced == |d.log| && now.meta == d.meta && DiskOk(now, c)
    && now.data == Apply(Fresh(d.log[..i], d.meta.sequence), d.data)
    && m == NoteAll(d.meta, d.log[..i])
    && m.sequence == if i == 0 then d.meta.sequence else Max(d.meta.sequence, d.log[i - 1].sequence)
  }

  lemma FoundFacts(d: Disk, c: Image)
    requires Found(d, c)
    ensures Recovered(d) == Apply(Fresh(d.log, d.meta.sequence), c)
    ensures d.log == [] ==> Rest(d, d.meta, d.data) && Recovered(d) == d.data && NoteAll(d.meta, d.log) == d.meta
  {
    assert d.log[..|d.log|] == d.log;
    AgreesSelf(d.data);
    assert Crash(d, d, |d.log|);
    CrashRepaired(d, c, d, |d.log|);
    if d.log == [] {
      SettledOk(d);
    }
  }

  lemma AgreesSelf(x: Image)
    ensures Agrees({}, x, x)
  {
  }

  lemma ReplayStart(d: Disk, c: Image)
    requires Found(d, c)
    ensures Replaying(d, d, d.meta, c, 0)
  {
  }

  lemma ReplaySkip(d: Disk, now: Disk, m: Meta, c: Image, i: nat)
    requires Found(d, c) && i < |d.log| && Replaying(d, now, m, c, i) && d.log[i].sequence <= d.meta.sequence
    ensures Replaying(d, now, m, c, i + 1)
  {
    hide DiskOk;
    FrameSplit(d, i);
    LogRises(d, c, i);
  }

  lemma ReplayStep(d: Disk, now: Disk, m: Meta, c: Image, i: nat)
    requires Found(d, c) && i < |d.log| && Replaying(d, now, m, c, i) && d.log[i].sequence > d.meta.sequence
    ensures Replaying(d, DoData(now, d.log[i].write), Note(m, d.log[i]), c, i + 1)
    ensures CrashGives(DoData(now, d.log[i].write), Recovered(d))
  {
    hide DiskOk, CrashGives, Recovered;
    var f, s := d.log[i], d.meta.sequence;
    FrameSplit(d, i);
    LogRises(d, c, i);
    ApplySnoc(Fresh(d.log[..i], s), f.write, d.data);
    assert d.log[..|d.log|] == d.log;
    DoDataOk(now, c, f.write);
    FoundFacts(d, c);
    FullySynced(DoData(now, f.write), c, Recovered(d));
  }

  /** Sequence numbers start above 0 and rise. */
  lemma LogRises(d: Disk, c: Image, i: nat)
    requires Found(d, c) && i < |d.log|
    ensures (if i == 0 then 0 else d.log[i - 1].sequence) < d.log[i].sequence
  {
  }

  lemma FrameSplit(d: Disk, i: nat)
    requires i < |d.log|
    ensures var f, s := d.log[i], d.meta.sequence;
      && NoteAll(d.meta, d.log[..i + 1]) == Note(NoteAll(d.meta, d.log[..i]), f)
      && (f.sequence <= s ==> Fresh(d.log[..i + 1], s) == Fresh(d.log[..i], s))
      && (f.sequence > s ==> Fresh(d.log[..i + 1], s) == Fresh(d.log[..i], s) + [f.write] && f.write in Fresh(d.log, s))
  {
    var f, s := d.log[i], d.meta.sequence;
    assert d.log[..i + 1] == d.log[..i] + [f];
    NoteSplit(d.meta, d.log[..i], [f]);
    FreshSplit(d.log[..i], [f], s);
    assert [f][1..] == [];
    assert Fresh([f], s) == if f.sequence > s then [f.write] else [];
    assert NoteAll(NoteAll(d.meta, d.log[..i]), [f]) == Note(NoteAll(d.meta, d.log[..i]), f);
    FreshPrefix(d.log, i + 1, s);
  }

  lemma ReplayDone(d: Disk, now: Disk, m: Meta, c: Image)
    requires Found(d, c) && Replaying(d, now, m, c, |d.log|)
    ensures now.data == Recovered(d) && m == NoteAll(d.meta, d.log)
    ensures Settled(Publish(SyncData(now), m)) && CrashGives(SyncData(now), Recovered(d))
  {
    assert d.log[..|d.log|] == d.log;
    FoundFacts(d, c);
    SyncDataOk(now, c);
    FullySynced(SyncData(now), c, Recovered(d));
    NoteHigh(d.meta, d.log);
  }

  // ---- Crashes during recovery ----

  /** The disk after recovery has gone through `i` frames. */
  function Redone(d: Disk, i: nat): Disk
    requires i <= |d.log|
  {
    if i == 0 then d
    else if d.log[i - 1].sequence > d.meta.sequence then DoData(Redone(d, i - 1), d.log[i - 1].write)
    else Redone(d, i - 1)
  }

  /** A disk that recovery of `d` passes through: some frames are carried out; then the data file
      is synced, the metadata published, the journal emptied. */
  ghost predicate Passes(d: Disk, x: Disk) {
    || (exists i: nat :: i <= |d.log| && x == Redone(d, i))
    || (d.log != [] &&
        var synced := SyncData(Redone(d, |d.log|));
        var published := Publish(synced, NoteAll(d.meta, d.log));
        x == synced || x == published || x == ClearLog(published))
  }

  lemma RedonePasses(d: Disk, i: nat)
    requires i <= |d.log|
    ensures Passes(d, Redone(d, i))
  {
  }

  lemma LastPasses(d: Disk)
    requires d.log != []
    ensures var synced := SyncData(Redone(d, |d.log|));
      var published := Publish(synced, NoteAll(d.meta, d.log));
      Passes(d, synced) && Passes(d, published) && Passes(d, ClearLog(published))
  {
  }

  lemma {:induction false} RedoneReplays(d: Disk, c: Image, i: nat) returns (m: Meta)
    requires Found(d, c) && i <= |d.log|
    ensures Replaying(d, Redone(d, i), m, c, i)
    decreases i
  {
    hide Found, Replaying;
    if i == 0 {
      m := d.meta;
      ReplayStart(d, c);
    } else {
      m := RedoneReplays(d, c, i - 1);
      if d.log[i - 1].sequence > d.meta.sequence {
        ReplayStep(d, Redone(d, i - 1), m, c, i - 1);
        m := Note(m, d.log[i - 1]);
      } else {
        ReplaySkip(d, Redone(d, i - 1), m, c, i - 1);
      }
    }
  }

  lemma RedoneGives(d: Disk, c: Image, i: nat)
    requires Found(d, c) && i <= |d.log|
    ensures CrashGives(Redone(d, i), Recovered(d))
  {
    var m := RedoneReplays(d, c, i);
    FoundFacts(d, c);
    FullySynced(Redone(d, i), c, Recovered(d));
  }

  /** Recovery stopped at any point is repaired to the same image. */
  lemma PassedGives(d: Disk, c: Image, x: Disk)
    requires Found(d, c) && Passes(d, x)
    ensures CrashGives(x, Recovered(d))
  {
    hide Found, CrashGives, Recovered, Settled, Replaying, NoteAll;
    if i: nat :| i <= |d.log| && x == Redone(d, i) {
      RedoneGives(d, c, i);
    } else {
      var now := Redone(d, |d.log|);
      var m := RedoneReplays(d, c, |d.log|);
      ReplayDone(d, now, m, c);
      PublishGives(SyncData(now), m);
    }
  }

  /** The next start finds what a crash during the recovery of `d` left. */
  ghost predicate Interrupted(d: Disk, next: Disk) {
    exists x: Disk, k: nat :: Passes(d, x) && Crash(x, next, k)
  }

  lemma InterruptedFound(d: Disk, c: Image, next: Disk) returns (c': Image)
    requires Found(d, c) && Interrupted(d, next)
    ensures Found(next, c') && Recovered(next) == Recovered(d)
  {
    hide Found, Passes, Recovered, DiskOk;
    var x: Disk, k: nat :| Passes(d, x) && Crash(x, next, k);
    PassedGives(d, c, x);
    c' :| DiskOk(x, c');
    CrashFound(x, c', next, k);
  }

  /** However often recovery is interrupted by a crash, every start can open what it finds, and
      would recover the same image as the first. */
  lemma {:induction false} RepeatedCrashes(starts: seq<Disk>, c: Image, i: nat) returns (c': Image)
    requires i < |starts| && Found(starts[0], c) && forall j | 0 <= j < |starts| - 1 :: Interrupted(starts[j], starts[j + 1])
    ensures Found(starts[i], c') && Recovered(starts[i]) == Recovered(starts[0])
    decreases i
  {
    hide Found, Interrupted, Recovered;
    if i == 0 {
      c' := c;
    } else {
      c' := RepeatedCrashes(starts, c, i - 1);
      c' := InterruptedFound(starts[i - 1], c', starts[i]);
    }
  }

  /** A crash at any disk that an operation passes, followed by any number of crashes during
      recovery: the last start can open what it finds, and recovers what the first would have,
      an image that the disk was promised to be repaired to. */
  lemma CrashThenCrashes(d: Disk, k: nat, starts: seq<Disk>) returns (c: Image)
    requires Repairable(d) && starts != [] && Crash(d, starts[0], k)
    requires forall j | 0 <= j < |starts| - 1 :: Interrupted(starts[j], starts[j + 1])
    ensures var last := starts[|starts| - 1];
      && Found(last, c)
      && (forall s: Image | CrashGives(d, s) :: Recovered(last) == s)
      && (forall s: Image, ws: seq<Write> | CrashGivesPrefix(d, s, ws) :: exists j | 0 <= j <= |ws| :: Recovered(last) == Apply(ws[..j], s))
  {
    hide Found, Recovered, DiskOk, Interrupted, Apply;
    var c0: Image :| DiskOk(d, c0);
    CrashFound(d, c0, starts[0], k);
    c := RepeatedCrashes(starts, c0, |starts| - 1);
  }

  lemma EmptyPool(data: Image)
    ensures View(data, map[]) == data && PoolOk(data, map[], {})
  {
    CountIs(data, map[], |data|);
  }

  class File {
    var disk: Disk
    var state: Meta
    var lsn: nat
    var pending: bool
    const capacity: nat
    var cache: map<nat, Content>
    var lastUsed: map<nat, nat>
    var clock: nat
    var dirty: set<nat>
    ghost var checkpoint: Image

    ghost predicate Valid()
      reads this
    {
      && Rest(disk, state, checkpoint) && (pending <==> disk.log != [])
      && PoolOk(disk.data, cache, dirty)
      && Recent(cache, lastUsed, clock)
      && |cache| <= Max(1, capacity)
    }

    /** The file as readers see it. */
    ghost function Contents(): Image
      reads this
    {
      View(disk.data, cache)
    }

    /** A new, empty page file. */
    constructor (pool: nat)
      ensures Valid() && Contents() == [] && capacity == pool
    {
      disk := Disk([], [], {}, false, [], 0, Meta(0, map[]));
      state, lsn, pending := Meta(0, map[]), 0, false;
      capacity, cache, lastUsed, clock, dirty := pool, map[], map[], 0, {};
      checkpoint := [];
      new;
      Emptied([]);
    }

    /** `open`: recovers the files as they are found after a crash. It never refuses what a
        crash can leave; the result is the checkpointed image `c` with the surviving writes
        applied; and a crash on the way changes nothing about it. */
    method Open(d: Disk, ghost c: Image) returns (ok: bool, ghost passed: seq<Disk>)
      requires Found(d, c)
      modifies this
      ensures ok && Valid()
      ensures Contents() == disk.data == Recovered(d) == Apply(Fresh(d.log, d.meta.sequence), c)
      ensures state == NoteAll(d.meta, d.log) && disk.log == []
      ensures AllGive(passed, Contents())
      ensures forall i | 0 <= i < |passed| :: Passes(d, passed[i])
      ensures Passes(d, disk)
    {
      hide Rest, CrashGives, Passes, Found, Replaying, Settled, Recovered, Apply, Fresh, NoteAll, View, PoolOk;
      disk, state, pending := d, d.meta, false;
      cache, lastUsed, clock, dirty := map[], map[], 0, {};
      checkpoint, passed := c, [];
      FoundFacts(d, c);
      if d.log == [] {
        checkpoint := d.data;
        EmptyPool(disk.data);
        RedonePasses(d, 0);
        return true, passed;
      }
      ok, passed := Replay(d, c);
      ReplayDone(d, disk, state, c);
      LastPasses(d);
      disk := SyncData(disk);
      passed := passed + [disk];
      pending := true;
      ghost var more := Checkpoint();
      passed := passed + more;
      EmptyPool(disk.data);
    }

    /** The loop of `recover`: checks each frame and carries out those above the checkpoint. */
    method Replay(d: Disk, ghost c: Image) returns (ok: bool, ghost passed: seq<Disk>)
      requires Found(d, c) && disk == d && state == d.meta
      modifies this`disk, this`state
      ensures ok && Replaying(d, disk, state, c, |d.log|) && disk == Redone(d, |d.log|)
      ensures AllGive(passed, Recovered(d)) && forall i | 0 <= i < |passed| :: Passes(d, passed[i])
    {
      hide CrashGives, Passes, Recovered, Apply, Fresh, NoteAll, Found, Replaying;
      passed := [];
      var previous: nat, i: nat := 0, 0;
      ReplayStart(d, c);
      while i < |d.log|
        invariant i <= |d.log| && Replaying(d, disk, state, c, i) && previous == if i == 0 then 0 else d.log[i - 1].sequence
        invariant disk == Redone(d, i)
        invariant AllGive(passed, Recovered(d)) && forall j | 0 <= j < |passed| :: Passes(d, passed[j])
      {
        LogRises(d, c, i);
        var frame := d.log[i];
        if frame.sequence <= previous {
          return false, passed;
        }
        previous := frame.sequence;
        if frame.sequence <= d.meta.sequence {
          ReplaySkip(d, disk, state, c, i);
        } else {
          ReplayStep(d, disk, state, c, i);
          disk := DoData(disk, frame.write);
          RedonePasses(d, i + 1);
          passed := passed + [disk];
          state := Note(state, frame);
        }
        i := i + 1;
      }
      ok := true;
    }

    /** `prepare`: appends the frames of a batch and syncs the journal. */
    method Prepare(ws: seq<Write>) returns (ghost passed: seq<Disk>)
      requires Rest(disk, state, checkpoint) && (pending <==> disk.log != [])
      modifies this`disk, this`state, this`pending
      ensures Prepared(old(disk), disk, checkpoint, ws) && Logged(disk, state) && (pending <==> disk.log != [])
      ensures disk.data == old(disk.data)
      ensures AllRepaired(passed, old(disk.data), ws) && |ws| <= |passed|
      ensures CrashGives(disk, Apply(ws, old(disk.data)))
      ensures state == NoteAll(old(state), FramesOf(lsn, old(state), ws))
    {
      hide Rest, Prepared, Logged, CrashGivesPrefix, CrashGives, Apply, NoteAll, FramesOf;
      ghost var d0, m0, fs := disk, state, FramesOf(lsn, state, ws);
      passed := [];
      BatchPrepared(d0, m0, checkpoint, lsn, ws);
      if ws == [] {
        NothingAppended(d0, m0, fs);
        assert fs[..0] == fs;
        return;
      }
      var i: nat := 0;
      NothingAppended(d0, m0, fs);
      while i < |ws|
        invariant i <= |ws| && disk == Appended(d0, fs[..i]) && state == NoteAll(m0, fs[..i])
        invariant AllRepaired(passed, d0.data, ws) && |passed| == i
        invariant pending <==> disk.log != []
      {
        FrameAppended(d0, m0, checkpoint, lsn, ws, i);
        var frame := NextFrame(lsn, state, ws[i]);
        disk := AppendFrame(disk, frame);
        passed := passed + [disk];
        state := Note(state, frame);
        pending := true;
        i := i + 1;
      }
      assert fs[..i] == fs;
      disk := SyncLog(disk);
      passed := passed + [disk];
    }

    /** Carries out a durable batch on the data file: `write_image` page by page, or `set_len(0)`. */
    method WriteImages(ws: seq<Write>, ghost d0: Disk) returns (ghost passed: seq<Disk>)
      requires Prepared(d0, disk, checkpoint, ws) && Logged(disk, state) && disk.data == d0.data
      modifies this`disk
      ensures Rest(disk, state, checkpoint) && disk.data == Apply(ws, d0.data) && disk.log == old(disk.log)
      ensures AllGive(passed, Apply(ws, d0.data))
    {
      hide Prepared, Logged, CrashGives, Apply;
      passed := [];
      var i: nat := 0;
      NothingDone(ws, d0.data);
      while i < |ws|
        invariant i <= |ws| && Prepared(d0, disk, checkpoint, ws) && Logged(disk, state)
        invariant disk.data == Apply(ws[..i], d0.data) && disk.log == old(disk.log)
        invariant AllGive(passed, Apply(ws, d0.data))
      {
        CarryOut(d0, disk, checkpoint, ws, i);
        LoggedData(disk, ws[i], state);
        disk := DoData(disk, ws[i]);
        passed := passed + [disk];
        i := i + 1;
      }
      assert ws[..i] == ws;
      BatchRest(d0, disk, state, checkpoint, ws);
    }

    /** `checkpoint`: publishes the metadata of the synced pages, then empties the journal. */
    method Checkpoint() returns (ghost passed: seq<Disk>)
      requires Settled(Publish(disk, state)) && (!pending ==> disk.log == [] && disk.meta == state)
      modifies this`disk, this`pending, this`checkpoint
      ensures disk == ClearLog(Publish(old(disk), state))
      ensures passed == if old(pending) then [Publish(old(disk), state), ClearLog(Publish(old(disk), state))] else []
      ensures Rest(disk, state, checkpoint) && !pending
      ensures disk.log == [] && disk.data == old(disk.data) && disk.meta == state
      ensures AllGive(passed, disk.data)
    {
      hide CrashGives, DiskOk, Settled, Rest;
      passed := [];
      PublishGives(disk, state);
      checkpoint := disk.data;
      if !pending {
        NothingToPublish(disk, state);
        return;
      }
      disk := Publish(disk, state);
      passed := passed + [disk];
      disk := ClearLog(disk);
      passed := passed + [disk];
      pending := false;
    }

    /** The images of all dirty pages, in any order. */
    method DirtyImages() returns (ws: seq<Write>)
      requires dirty <= cache.Keys
      ensures Batch(ws, cache) && Pages(ws) == dirty
    {
      ws := [];
      var rest := dirty;
      while rest != {}
        invariant rest <= dirty && Batch(ws, cache) && Pages(ws) + rest == dirty
        decreases |rest|
      {
        var p :| p in rest;
        ImageAdded(ws, p, cache[p]);
        ws := ws + [Put(p, cache[p])];
        rest := rest - {p};
      }
    }

    /** Journals and writes the images of all dirty pages; the data file is not synced. */
    method WriteBack() returns (ghost passed: seq<Disk>, ghost ws: seq<Write>)
      requires Rest(disk, state, checkpoint) && (pending <==> disk.log != []) && PoolOk(disk.data, cache, dirty)
      modifies this`disk, this`state, this`pending
      ensures Rest(disk, state, checkpoint) && (pending <==> disk.log != [])
      ensures Batch(ws, cache) && Pages(ws) == dirty && disk.data == Apply(ws, old(disk.data))
      ensures AllRepaired(passed, old(disk.data), ws) && |ws| <= |passed|
    {
      hide Rest, PoolOk, Prepared, AllRepaired, AllGive, CrashGives, Apply, Batch, Pages;
      PoolDirty(disk.data, cache, dirty);
      ghost var d0 := disk;
      var images := DirtyImages();
      ws := images;
      passed := Prepare(images);
      ghost var more := WriteImages(images, d0);
      Joined(passed, more, d0.data, images);
      passed := passed + more;
    }

    /** `flush`: all dirty pages reach the disk, durably; readers see no change. */
    method Flush() returns (ghost passed: seq<Disk>, ghost ws: seq<Write>)
      requires Valid()
      modifies this`disk, this`state, this`pending, this`dirty, this`checkpoint
      ensures Valid() && Contents() == old(Contents())
      ensures dirty == {} && disk.log == [] && disk.data == Contents() && CrashGives(disk, Contents())
      ensures Batch(ws, cache) && Pages(ws) == old(dirty) && AllRepaired(passed, old(disk.data), ws)
    {
      hide Rest, PoolOk, CrashGives, AllRepaired, Apply, Batch, Pages, View, Recent, Settled;
      ghost var data0, dirty0 := disk.data, dirty;
      passed, ws := WriteBack();
      FlushInvisible(ws, data0, cache, dirty0);
      SyncGives(disk, state, checkpoint);
      disk := SyncData(disk);
      ghost var synced := [disk];
      ghost var more := Checkpoint();
      Joined(passed, synced + more, data0, ws);
      passed := passed + (synced + more);
      dirty := {};
      RestGives(disk, state, checkpoint);
    }

    /** The least recently used page. */
    method FindVictim() returns (victim: Option<nat>)
      requires lastUsed.Keys == cache.Keys
      ensures victim.None? <==> cache == map[]
      ensures victim.Some? ==> victim.value in cache && forall q <- cache :: lastUsed[victim.value] <= lastUsed[q]
    {
      victim := None;
      var rest := cache.Keys;
      while rest != {}
        invariant rest <= cache.Keys && (victim.None? ==> rest == cache.Keys)
        invariant victim.Some? ==> victim.value in cache && forall q <- cache | q !in rest :: lastUsed[victim.value] <= lastUsed[q]
        decreases |rest|
      {
        var p :| p in rest;
        if victim.None? || lastUsed[p] < lastUsed[victim.value] {
          victim := Some(p);
        }
        rest := rest - {p};
      }
    }

    /** `evict_one`: drops the least recently used page, after writing all dirty pages back if
        it is dirty; readers see no change. */
    method EvictOne() returns (ghost victim: Option<nat>, ghost passed: seq<Disk>, ghost ws: seq<Write>)
      requires Valid()
      modifies this`disk, this`state, this`pending, this`dirty, this`cache, this`lastUsed
      ensures Valid() && Contents() == old(Contents())
      ensures victim.None? ==> old(cache) == map[] && cache == map[]
      ensures victim.Some? ==>
        && victim.value in old(cache) && cache == old(cache) - {victim.value}
        && forall q <- old(cache) :: old(lastUsed[victim.value]) <= old(lastUsed)[q]
      ensures |disk.data| >= |old(disk.data)| && forall p: nat | p !in old(cache) :: At(disk.data, p) == At(old(disk.data), p)
      ensures Batch(ws, old(cache)) && AllRepaired(passed, old(disk.data), ws)
    {
      hide Rest, PoolOk, RepairedAt, Apply, Pages, View, Recent;
      passed, ws := [], [];
      RecentKeys(cache, lastUsed, clock);
      var found := FindVictim();
      victim := found;
      if found.None? {
        return;
      }
      if found.value in dirty {
        passed, ws := Clean();
      }
      Drop(found.value);
    }

    /** Writes all dirty pages back. */
    method Clean() returns (ghost passed: seq<Disk>, ghost ws: seq<Write>)
      requires Valid()
      modifies this`disk, this`state, this`pending, this`dirty
      ensures Valid() && Contents() == old(Contents()) && dirty == {}
      ensures |disk.data| >= |old(disk.data)| && forall p: nat | p !in cache :: At(disk.data, p) == At(old(disk.data), p)
      ensures Batch(ws, cache) && AllRepaired(passed, old(disk.data), ws)
    {
      hide Rest, PoolOk, RepairedAt, Apply, Pages, View, Recent, Batch;
      ghost var data0, dirty0 := disk.data, dirty;
      PoolDirty(data0, cache, dirty0);
      passed, ws := WriteBack();
      FlushInvisible(ws, data0, cache, dirty0);
      WrittenBack(ws, cache, data0);
      dirty := {};
    }

    method Drop(p: nat)
      requires Valid() && p in cache && p !in dirty
      modifies this`cache, this`lastUsed
      ensures Valid() && Contents() == old(Contents())
      ensures cache == old(cache) - {p}
    {
      hide Rest, PoolOk, View;
      DropInvisible(disk.data, cache, dirty, p);
      DropSmaller(cache, p);
      cache := cache - {p};
      lastUsed := lastUsed - {p};
    }

    /** `num_pages`. */
    method NumPages() returns (n: nat)
      ensures n == |Contents()|
    {
      var top: nat, rest := 0, cache.Keys;
      while rest != {}
        invariant rest <= cache.Keys && (forall p <- cache | p !in rest :: p < top) && (top == 0 || top - 1 in cache)
        decreases |rest|
      {
        var p :| p in rest;
        if top < p + 1 {
          top := p + 1;
        }
        rest := rest - {p};
      }
      n := Max(|disk.data|, top);
      CountIs(disk.data, cache, n);
    }

    /** Puts a page into the cache and makes it the most recently used. */
    method Keep(p: nat, bytes: Content)
      requires Recent(cache, lastUsed, clock)
      modifies this`cache, this`lastUsed, this`clock
      ensures cache == old(cache)[p := bytes]
      ensures Recent(cache, lastUsed, clock) && Newest(lastUsed, p)
      ensures |cache| <= |old(cache)| + 1 && (p in old(cache) ==> |cache| == |old(cache)|)
    {
      KeepLarger(cache, p, bytes);
      cache := cache[p := bytes];
      clock := clock + 1;
      lastUsed := lastUsed[p := clock];
    }

    /** Makes room for one more page. */
    method MakeRoom() returns (ghost passed: seq<Disk>, ghost ws: seq<Write>)
      requires Valid()
      modifies this`disk, this`state, this`pending, this`dirty, this`cache, this`lastUsed
      ensures Valid() && Contents() == old(Contents()) && |cache| + 1 <= Max(1, capacity)
      ensures forall p <- cache :: p in old(cache)
      ensures |disk.data| >= |old(disk.data)| && forall p: nat | p !in old(cache) :: At(disk.data, p) == At(old(disk.data), p)
      ensures Batch(ws, old(cache)) && AllRepaired(passed, old(disk.data), ws)
    {
      hide Rest, PoolOk, RepairedAt, Pages, View, Recent;
      passed, ws := [], [];
      if |cache| >= capacity {
        ghost var victim;
        ghost var before := cache;
        victim, passed, ws := EvictOne();
        if victim.Some? {
          DropSmaller(before, victim.value);
        }
      }
    }

    /** `note_access`: the page is in the cache afterwards, unless the file does not have it. */
    method NoteAccess(id: nat) returns (ok: bool, ghost passed: seq<Disk>, ghost ws: seq<Write>)
      requires Valid()
      modifies this`disk, this`state, this`pending, this`dirty, this`cache, this`lastUsed, this`clock
      ensures Valid() && Contents() == old(Contents())
      ensures ok <==> id in old(cache) || id < |old(disk.data)|
      ensures ok ==> id in cache && id < |Contents()| && cache[id] == Contents()[id] && Newest(lastUsed, id)
      ensures Batch(ws, old(cache)) && AllRepaired(passed, old(disk.data), ws)
    {
      hide Rest, PoolOk, RepairedAt, Pages, View, Recent;
      passed, ws := [], [];
      ok := true;
      if id in cache {
        SameKept(cache, id);
        Keep(id, cache[id]);
      } else {
        if id >= |disk.data| {
          return false, [], [];
        }
        var bytes := disk.data[id];
        passed, ws := MakeRoom();
        LoadInvisible(disk.data, cache, dirty, id);
        Keep(id, bytes);
      }
      CachedShown(disk.data, cache, id);
    }

    /** `read_page`: the latest write of the page. */
    method ReadPage(id: nat) returns (r: Option<Content>, ghost passed: seq<Disk>, ghost ws: seq<Write>)
      requires Valid()
      modifies this`disk, this`state, this`pending, this`dirty, this`cache, this`lastUsed, this`clock
      ensures Valid() && Contents() == old(Contents())
      ensures r.Some? <==> id in old(cache) || id < |old(disk.data)|
      ensures r.Some? ==> id < |Contents()| && r.value == Contents()[id]
      ensures AllRepaired(passed, old(disk.data), ws)
    {
      var ok;
      ok, passed, ws := NoteAccess(id);
      r := if ok then Some(cache[id]) else None;
    }

    /** `write_page`: the cache takes the page, the file follows later. */
    method WritePage(id: nat, bytes: Content) returns (ghost passed: seq<Disk>, ghost ws: seq<Write>)
      requires Valid()
      modifies this`disk, this`state, this`pending, this`dirty, this`cache, this`lastUsed, this`clock
      ensures Valid() && Contents() == PutPage(old(Contents()), id, bytes)
      ensures Newest(lastUsed, id)
      ensures AllRepaired(passed, old(disk.data), ws)
    {
      hide Rest, PoolOk, RepairedAt, Pages, View, Recent;
      passed, ws := [], [];
      if id !in cache {
        passed, ws := MakeRoom();
      }
      WriteVisible(disk.data, cache, dirty, id, bytes);
      Keep(id, bytes);
      dirty := dirty + {id};
    }

    /** `update_page`: changes a page in place. */
    method UpdatePage(id: nat, f: Content -> Content) returns (ok: bool, ghost passed: seq<Disk>, ghost ws: seq<Write>)
      requires Valid()
      modifies this`disk, this`state, this`pending, this`dirty, this`cache, this`lastUsed, this`clock
      ensures Valid()
      ensures ok <==> id in old(cache) || id < |old(disk.data)|
      ensures !ok ==> Contents() == old(Contents())
      ensures ok ==> id < |old(Contents())| && Contents() == old(Contents())[id := f(old(Contents())[id])]
      ensures AllRepaired(passed, old(disk.data), ws)
    {
      hide Rest, PoolOk, RepairedAt, Pages, View, Recent;
      ok, passed, ws := NoteAccess(id);
      if ok {
        var bytes := f(cache[id]);
        WriteVisible(disk.data, cache, dirty, id, bytes);
        UpdateKept(cache, lastUsed, clock, id, bytes);
        cache := cache[id := bytes];
        dirty := dirty + {id};
      }
    }

    /** `append_page`: a zero page behind the last one. */
    method AppendPage() returns (id: nat, ghost passed: seq<Disk>, ghost ws: seq<Write>)
      requires Valid()
      modifies this`disk, this`state, this`pending, this`dirty, this`cache, this`lastUsed, this`clock
      ensures Valid() && id == |old(Contents())| && Contents() == old(Contents()) + [0]
      ensures AllRepaired(passed, old(disk.data), ws)
    {
      id := NumPages();
      passed, ws := WritePage(id, 0);
    }

    /** `truncate`: the file is empty, and stays so after a crash. */
    method Truncate() returns (ghost passed: seq<Disk>)
      requires Valid()
      modifies this
      ensures Valid() && Contents() == [] && CrashGives(disk, [])
      ensures AllRepaired(passed, old(disk.data), [Clear])
    {
      hide Rest, Prepared, Logged, AllRepaired, AllGive, CrashGives;
      ghost var d0 := disk;
      passed := Prepare([Clear]);
      cache, lastUsed, dirty := map[], map[], {};
      ghost var more := WriteImages([Clear], d0);
      Joined(passed, more, d0.data, [Clear]);
      passed := passed + more;
      Emptied(d0.data);
      RestGives(disk, state, checkpoint);
    }
  }
}
