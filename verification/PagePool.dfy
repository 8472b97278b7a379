/** Batches of the full-page journal (page_wal.rs) and the buffer pool (page.rs) as values:
    what a crash during a batch leaves, and why the cache is invisible. */
module PagePool {
  import opened Basics
  import opened PageJournal

  // ---- Journal batches ----

  /** The LSN recorded with a write. */
  function FrameLsn(lsn: nat, m: Meta, w: Write): nat {
    if w.Put? && w.page in m.lsns then Max(lsn, m.lsns[w.page]) else lsn
  }

  function NextFrame(lsn: nat, m: Meta, w: Write): Frame {
    Frame(m.sequence + 1, FrameLsn(lsn, m, w), w)
  }

  /** The frames of a batch. */
  function FramesOf(lsn: nat, m: Meta, ws: seq<Write>): (fs: seq<Frame>)
    ensures |fs| == |ws|
    decreases |ws|
  {
    if ws == [] then []
    else
      var f := NextFrame(lsn, m, ws[0]);
      [f] + FramesOf(lsn, Note(m, f), ws[1..])
  }

  lemma {:induction false} FramesAre(lsn: nat, m: Meta, ws: seq<Write>)
    ensures forall i | 0 <= i < |ws| :: FramesOf(lsn, m, ws)[i].write == ws[i] && FramesOf(lsn, m, ws)[i].sequence == m.sequence + 1 + i
    decreases |ws|
  {
    if ws != [] {
      FramesAre(lsn, Note(m, NextFrame(lsn, m, ws[0])), ws[1..]);
    }
  }

  /** What a batch records: as many sequence numbers as writes, and for each page written the later
      of its LSN and the batch's, so no page LSN ever falls. */
  lemma {:induction false} LsnsRise(lsn: nat, m: Meta, ws: seq<Write>, p: nat)
    requires Clear !in ws
    ensures var after := NoteAll(m, FramesOf(lsn, m, ws));
      && after.sequence == m.sequence + |ws|
      && (p in after.lsns <==> p in m.lsns || p in Pages(ws))
      && (p in after.lsns ==>
            after.lsns[p] == if p !in Pages(ws) then m.lsns[p] else if p in m.lsns then Max(lsn, m.lsns[p]) else lsn)
    decreases |ws|
  {
    if ws != [] {
      var w := ws[0];
      var f := NextFrame(lsn, m, w);
      assert w in ws;
      Halves(ws, 1);
      assert ws == [w] + ws[1..];
      assert Pages(ws) == Pages(ws[1..]) + {w.page};
      assert FramesOf(lsn, m, ws)[1..] == FramesOf(lsn, Note(m, f), ws[1..]);
      LsnsRise(lsn, Note(m, f), ws[1..], p);
    }
  }

  /** The frame that the loop of `prepare` builds next. */
  lemma {:induction false} FrameAt(lsn: nat, m: Meta, ws: seq<Write>, i: nat)
    requires i < |ws|
    ensures FramesOf(lsn, m, ws)[i] == NextFrame(lsn, NoteAll(m, FramesOf(lsn, m, ws)[..i]), ws[i])
    ensures NoteAll(m, FramesOf(lsn, m, ws)[..i + 1]) == Note(NoteAll(m, FramesOf(lsn, m, ws)[..i]), FramesOf(lsn, m, ws)[i])
    decreases i
  {
    var fs := FramesOf(lsn, m, ws);
    if i == 0 {
      assert fs[..1] == [fs[0]];
      assert NoteAll(m, [fs[0]]) == NoteAll(Note(m, fs[0]), []);
    } else {
      FrameAt(lsn, Note(m, fs[0]), ws[1..], i - 1);
      assert fs[..i][1..] == fs[1..][..i - 1] && fs[..i + 1][1..] == fs[1..][..i];
    }
  }

  /** The journal between operations: everything in it is durable, above the checkpoint and
      carried out; `m` is the metadata in memory. */
  ghost predicate Rest(d: Disk, m: Meta, c: Image) {
    DiskOk(d, c) && d.synced == |d.log| && Logged(d, m) && d.data == Apply(Fresh(d.log, d.meta.sequence), c)
  }

  ghost predicate Logged(d: Disk, m: Meta) {
    && (forall i | 0 <= i < |d.log| :: d.meta.sequence < d.log[i].sequence <= m.sequence)
    && d.meta.sequence <= m.sequence && m == NoteAll(d.meta, d.log)
  }

  lemma RestGives(d: Disk, m: Meta, c: Image)
    requires Rest(d, m, c)
    ensures CrashGives(d, d.data)
  {
    FullySynced(d, c, d.data);
  }

  /** The disk after `i` frames of a batch are appended. */
  function Appended(d: Disk, fs: seq<Frame>): Disk {
    d.(log := d.log + fs)
  }

  lemma AppendedOk(d: Disk, m: Meta, c: Image, lsn: nat, ws: seq<Write>, i: nat)
    requires Rest(d, m, c) && i <= |ws|
    ensures var d' := Appended(d, FramesOf(lsn, m, ws)[..i]);
      DiskOk(d', c) && CrashGivesPrefix(d', d.data, ws[..i])
  {
    hide CrashGivesPrefix, Apply, Fresh, NoteAll, Covered;
    var fs := FramesOf(lsn, m, ws);
    FramesAre(lsn, m, ws);
    var d' := Appended(d, fs[..i]);
    assert d'.log[..d'.synced] == d.log && d.log[..d.synced] == d.log;
    assert Covered(Fresh(d'.log[..d'.synced], d'.meta.sequence), d', c) by {
      CoveredSame(Fresh(d.log, d.meta.sequence), d, d', c);
    }
    PartlyAppended(d', c, |d.log|, ws[..i]);
    assert d'.log[..|d.log|] == d.log;
  }

  lemma CoveredSame(ws: seq<Write>, d: Disk, d': Disk, c: Image)
    requires Covered(ws, d, c) && d'.cut == d.cut && d'.wild == d.wild && d'.base == d.base
    ensures Covered(ws, d', c)
  {
  }

  /** The journal after `prepare`: the batch is durable and not yet carried out. */
  ghost predicate Prepared(d0: Disk, d: Disk, c: Image, ws: seq<Write>) {
    && DiskOk(d, c) && d.synced == |d.log| && d.meta == d0.meta
    && Fresh(d.log, d.meta.sequence) == Fresh(d0.log, d0.meta.sequence) + ws
    && Apply(Fresh(d0.log, d0.meta.sequence), c) == d0.data
  }

  lemma BatchDurable(d: Disk, m: Meta, c: Image, lsn: nat, ws: seq<Write>)
    requires Rest(d, m, c)
    ensures Prepared(d, SyncLog(Appended(d, FramesOf(lsn, m, ws))), c, ws)
  {
    var fs := FramesOf(lsn, m, ws);
    FramesAre(lsn, m, ws);
    AppendedOk(d, m, c, lsn, ws, |ws|);
    assert fs[..|ws|] == fs;
    SyncLogOk(Appended(d, fs), c);
    FreshSplit(d.log, fs, d.meta.sequence);
    AllFresh(fs, d.meta.sequence);
    assert WritesOf(fs) == ws;
  }

  lemma BatchLogged(d: Disk, m: Meta, lsn: nat, ws: seq<Write>)
    requires Logged(d, m)
    ensures Logged(Appended(d, FramesOf(lsn, m, ws)), NoteAll(m, FramesOf(lsn, m, ws)))
  {
    var fs := FramesOf(lsn, m, ws);
    FramesAre(lsn, m, ws);
    NoteSplit(d.meta, d.log, fs);
    NoteHigh(m, fs);
  }

  /** While a durable batch is carried out, every crash is repaired to all of it. */
  lemma CarryOut(d0: Disk, d: Disk, c: Image, ws: seq<Write>, i: nat)
    requires Prepared(d0, d, c, ws) && i < |ws| && d.data == Apply(ws[..i], d0.data)
    ensures var d' := DoData(d, ws[i]);
      Prepared(d0, d', c, ws) && d'.data == Apply(ws[..i + 1], d0.data) && CrashGives(d', Apply(ws, d0.data))
  {
    hide DiskOk, Apply, CrashGives, Fresh, Prepared;
    CarryPrepared(d0, d, c, ws, i);
    CarryData(d, d0.data, ws, i);
    CarryGives(d0, DoData(d, ws[i]), c, ws);
  }

  lemma CarryPrepared(d0: Disk, d: Disk, c: Image, ws: seq<Write>, i: nat)
    requires Prepared(d0, d, c, ws) && i < |ws|
    ensures Prepared(d0, DoData(d, ws[i]), c, ws)
  {
    hide DiskOk, Apply, Fresh;
    var before := Fresh(d0.log, d0.meta.sequence);
    assert d.log[..d.synced] == d.log;
    assert ws[i] == (before + ws)[|before| + i];
    DoDataOk(d, c, ws[i]);
  }

  lemma CarryData(d: Disk, s: Image, ws: seq<Write>, i: nat)
    requires i < |ws| && d.data == Apply(ws[..i], s)
    ensures DoData(d, ws[i]).data == Apply(ws[..i + 1], s)
  {
    hide Apply;
    Longer(ws, i);
    ApplySnoc(ws[..i], ws[i], s);
  }

  lemma CarryGives(d0: Disk, d: Disk, c: Image, ws: seq<Write>)
    requires Prepared(d0, d, c, ws)
    ensures CrashGives(d, Apply(ws, d0.data))
  {
    hide DiskOk, Apply, Fresh;
    ApplySplit(Fresh(d0.log, d0.meta.sequence), ws, c);
    FullySynced(d, c, Apply(ws, d0.data));
  }

  /** After the batch is carried out the data file is what the journal says. */
  lemma CarriedOut(d0: Disk, d: Disk, c: Image, ws: seq<Write>)
    requires Prepared(d0, d, c, ws) && d.data == Apply(ws, d0.data)
    ensures d.data == Apply(Fresh(d.log, d.meta.sequence), c)
    ensures CrashGives(d, d.data)
  {
    ApplySplit(Fresh(d0.log, d0.meta.sequence), ws, c);
    FullySynced(d, c, d.data);
  }

  // ---- The buffer pool ----

  /** One more than the largest member. */
  ghost function Top(s: set<nat>): (n: nat)
    ensures forall p <- s :: p < n
    ensures n == 0 || n - 1 in s
  {
    if s == {} then 0
    else
      var q :| q in s;
      assert s == (s - {q}) + {q};
      Max(q + 1, Top(s - {q}))
  }

  /** The page that a reader sees. */
  function Shown(data: Image, cache: map<nat, Content>, p: nat): Content {
    if p in cache then cache[p] else At(data, p)
  }

  ghost function Count(data: Image, cache: map<nat, Content>): nat {
    Max(|data|, Top(cache.Keys))
  }

  /** The file as readers see it, through the cache. */
  ghost function View(data: Image, cache: map<nat, Content>): (v: Image)
    ensures |v| == Count(data, cache) && forall p | 0 <= p < |v| :: v[p] == Shown(data, cache, p)
  {
    seq(Count(data, cache), p requires 0 <= p < Count(data, cache) => Shown(data, cache, p))
  }

  /** Clean cached pages are the file's, dirty ones are cached. */
  ghost predicate PoolOk(data: Image, cache: map<nat, Content>, dirty: set<nat>) {
    dirty <= cache.Keys && forall p <- cache | p !in dirty :: p < |data| && data[p] == cache[p]
  }

  /** Images of cached pages. */
  ghost predicate Batch(ws: seq<Write>, cache: map<nat, Content>) {
    forall w <- ws :: w.Put? && w.page in cache && w.bytes == cache[w.page]
  }

  lemma CountIs(data: Image, cache: map<nat, Content>, n: nat)
    requires |data| <= n && (forall p <- cache :: p < n) && (n == |data| || n - 1 in cache)
    ensures Count(data, cache) == n
  {
  }

  /** Writing back cached pages, in any order. */
  lemma {:induction false} WrittenBack(ws: seq<Write>, cache: map<nat, Content>, data: Image)
    requires Batch(ws, cache)
    ensures var r := Apply(ws, data);
      && |data| <= |r| && (|r| == |data| || |r| - 1 in Pages(ws))
      && (forall p <- Pages(ws) :: p < |r| && r[p] == cache[p])
      && (forall p: nat | p !in Pages(ws) :: At(r, p) == At(data, p))
    decreases |ws|
  {
    if ws != [] {
      var w, rest := ws[0], ws[1..];
      assert ws == [w] + rest && w in ws;
      assert Pages(ws) == Pages(rest) + {w.page};
      WrittenBack(rest, cache, PutPage(data, w.page, w.bytes));
    }
  }

  /** However far a batch got, every page is as before or as cached: none is torn. */
  lemma NoTornPage(ws: seq<Write>, cache: map<nat, Content>, s: Image, j: nat, p: nat)
    requires Batch(ws, cache) && j <= |ws|
    ensures var r := Apply(ws[..j], s);
      At(r, p) == At(s, p) || (p in Pages(ws) && p < |r| && r[p] == cache[p])
  {
    var part := ws[..j];
    forall w | w in part
      ensures w in ws
    {
      var i :| 0 <= i < |part| && part[i] == w;
      assert ws[i] == w;
    }
    WrittenBack(part, cache, s);
  }

  /** Writing back all dirty pages changes nothing for a reader and cleans the cache. */
  lemma FlushInvisible(ws: seq<Write>, data: Image, cache: map<nat, Content>, dirty: set<nat>)
    requires PoolOk(data, cache, dirty) && Batch(ws, cache) && Pages(ws) == dirty
    ensures PoolOk(Apply(ws, data), cache, {})
    ensures View(Apply(ws, data), cache) == View(data, cache) == Apply(ws, data)
  {
    hide Apply, Batch, Count, Pages;
    var r := Apply(ws, data);
    WrittenBack(ws, cache, data);
    CountIs(data, cache, |r|);
    CountIs(r, cache, |r|);
    SameView(r, data, cache, dirty);
  }

  lemma SameView(r: Image, data: Image, cache: map<nat, Content>, dirty: set<nat>)
    requires Count(r, cache) == |r| == Count(data, cache)
    requires forall p <- cache :: p < |r| && r[p] == cache[p]
    requires forall p: nat | p !in dirty :: At(r, p) == At(data, p)
    requires dirty <= cache.Keys
    ensures View(r, cache) == View(data, cache) == r
  {
    hide Count;
    var v, w := View(r, cache), View(data, cache);
    forall p | 0 <= p < |r|
      ensures v[p] == r[p] == w[p]
    {
      assert At(r, p) == r[p];
    }
  }

  /** Dropping a clean page from the cache changes nothing for a reader. */
  lemma DropInvisible(data: Image, cache: map<nat, Content>, dirty: set<nat>, victim: nat)
    requires PoolOk(data, cache, dirty) && victim in cache && victim !in dirty
    ensures PoolOk(data, cache - {victim}, dirty)
    ensures View(data, cache - {victim}) == View(data, cache)
  {
    var cache' := cache - {victim};
    assert cache.Keys == cache'.Keys + {victim};
    assert forall p <- cache :: p == victim || p in cache';
    CountIs(data, cache, Count(data, cache'));
  }

  /** Loading a page of the file into the cache changes nothing for a reader. */
  lemma LoadInvisible(data: Image, cache: map<nat, Content>, dirty: set<nat>, p: nat)
    requires PoolOk(data, cache, dirty) && p < |data| && p !in cache
    ensures PoolOk(data, cache[p := data[p]], dirty)
    ensures View(data, cache[p := data[p]]) == View(data, cache)
  {
    CountIs(data, cache[p := data[p]], Count(data, cache));
  }

  /** A write through the cache is a write for every reader. */
  lemma WriteVisible(data: Image, cache: map<nat, Content>, dirty: set<nat>, p: nat, bytes: Content)
    requires PoolOk(data, cache, dirty)
    ensures PoolOk(data, cache[p := bytes], dirty + {p})
    ensures View(data, cache[p := bytes]) == PutPage(View(data, cache), p, bytes)
  {
    CountIs(data, cache[p := bytes], Max(Count(data, cache), p + 1));
  }
}
