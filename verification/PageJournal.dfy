/** The full-page journal (page_wal.rs) and the disk under it: what a crash may leave of the
    data file and the log, and why replaying the log repairs it from every crash point. */
module PageJournal {
  import opened Basics

  /** The contents of a page, by name; 0 is the page of zero bytes. */
  type Content = nat
  type Image = seq<Content>

  // ---- Page images ----

  /** A journaled write: a full page, or the record that the file was emptied. */
  datatype Write = Put(page: nat, bytes: Content) | Clear

  /** Page `p` of a file; pages behind the end read as zero once the file grows over them. */
  function At(s: Image, p: nat): Content {
    if p < |s| then s[p] else 0
  }

  /** Writing page `p`; a gap before it is filled with zeros. */
  function PutPage(s: Image, p: nat, bytes: Content): (r: Image)
    ensures |r| == Max(|s|, p + 1)
    ensures forall q | 0 <= q < |r| :: r[q] == if q == p then bytes else At(s, q)
  {
    if p < |s| then s[p := bytes] else s + seq(p - |s|, _ => 0) + [bytes]
  }

  function Do(w: Write, s: Image): Image {
    if w.Clear? then [] else PutPage(s, w.page, w.bytes)
  }

  function Apply(ws: seq<Write>, s: Image): Image {
    if ws == [] then s else Apply(ws[1..], Do(ws[0], s))
  }

  lemma {:induction false} ApplySplit(a: seq<Write>, b: seq<Write>, s: Image)
    ensures Apply(a + b, s) == Apply(b, Apply(a, s))
    decreases |a|
  {
    if a == [] {
      assert a + b == b;
    } else {
      assert (a + b)[1..] == a[1..] + b;
      ApplySplit(a[1..], b, Do(a[0], s));
    }
  }

  lemma ApplySnoc(a: seq<Write>, w: Write, s: Image)
    ensures Apply(a + [w], s) == Do(w, Apply(a, s))
  {
    ApplySplit(a, [w], s);
    assert [w][1..] == [];
    assert Apply([w], Apply(a, s)) == Apply([], Do(w, Apply(a, s)));
  }

  function Pages(ws: seq<Write>): set<nat> {
    set w <- ws | w.Put? :: w.page
  }

  /** The images differ at most on the pages `on`, and neither is longer beyond them. */
  ghost predicate Agrees(on: set<nat>, x: Image, y: Image) {
    && (forall p: nat | p !in on :: At(x, p) == At(y, p))
    && NoLonger(on, x, y) && NoLonger(on, y, x)
  }

  ghost predicate NoLonger(on: set<nat>, x: Image, y: Image) {
    |x| <= |y| || exists w <- on :: |x| <= w + 1
  }

  lemma AgreesTrans(on: set<nat>, x: Image, y: Image, z: Image)
    requires Agrees(on, x, y) && Agrees(on, y, z)
    ensures Agrees(on, x, z)
  {
  }

  lemma AgreesMore(on: set<nat>, more: set<nat>, x: Image, y: Image)
    requires Agrees(on, x, y) && on <= more
    ensures Agrees(more, x, y)
  {
  }

  lemma AgreesEqual(x: Image, y: Image)
    requires Agrees({}, x, y)
    ensures x == y
  {
    assert forall p: nat | p < |x| :: At(x, p) == x[p] && At(y, p) == y[p];
  }

  lemma AgreesPut(on: set<nat>, x: Image, y: Image, p: nat, bytes: Content)
    requires Agrees(on + {p}, x, y)
    ensures Agrees(on, PutPage(x, p, bytes), PutPage(y, p, bytes))
  {
    var x', y' := PutPage(x, p, bytes), PutPage(y, p, bytes);
    forall q: nat | q !in on
      ensures At(x', q) == At(y', q)
    {
      assert q != p ==> At(x, q) == At(y, q);
    }
    LongerPut(on, x, y, p, bytes);
    LongerPut(on, y, x, p, bytes);
  }

  lemma LongerPut(on: set<nat>, x: Image, y: Image, p: nat, bytes: Content)
    requires NoLonger(on + {p}, x, y)
    ensures NoLonger(on, PutPage(x, p, bytes), PutPage(y, p, bytes))
  {
    var x', y' := PutPage(x, p, bytes), PutPage(y, p, bytes);
    if |y'| < |x'| {
      var w :| w in on + {p} && |x| <= w + 1;
      assert w in on;
    }
  }

  /** Replaying a log repairs whatever happened to the pages it covers. */
  lemma {:induction false} Repairs(ws: seq<Write>, x: Image, y: Image)
    requires Clear in ws || Agrees(Pages(ws), x, y)
    ensures Apply(ws, x) == Apply(ws, y)
    decreases |ws|
  {
    if ws == [] {
      assert Pages(ws) == {};
      AgreesEqual(x, y);
    } else {
      var w, rest := ws[0], ws[1..];
      assert ws == [w] + rest;
      if w.Put? && Clear !in rest {
        assert Pages(ws) == Pages(rest) + {w.page};
        AgreesPut(Pages(rest), x, y, w.page, w.bytes);
        Repairs(rest, PutPage(x, w.page, w.bytes), PutPage(y, w.page, w.bytes));
      } else if w.Put? {
        Repairs(rest, PutPage(x, w.page, w.bytes), PutPage(y, w.page, w.bytes));
      }
    }
  }

  lemma {:induction false} ApplyAgrees(ws: seq<Write>, s: Image)
    requires Clear !in ws
    ensures Agrees(Pages(ws), Apply(ws, s), s)
    decreases |ws|
  {
    if ws != [] {
      var w, rest := ws[0], ws[1..];
      assert ws == [w] + rest && w in ws;
      assert Pages(ws) == Pages(rest) + {w.page};
      var s' := PutPage(s, w.page, w.bytes);
      ApplyAgrees(rest, s');
      PutAgrees(s, w.page, w.bytes);
      AgreesMore({w.page}, Pages(ws), s', s);
      AgreesMore(Pages(rest), Pages(ws), Apply(rest, s'), s');
      AgreesTrans(Pages(ws), Apply(rest, s'), s', s);
    }
  }

  lemma PutAgrees(s: Image, p: nat, bytes: Content)
    ensures Agrees({p}, PutPage(s, p, bytes), s)
  {
    assert p in {p};
  }

  // ---- The disk ----

  /** A journal frame. */
  datatype Frame = Frame(sequence: nat, lsn: nat, write: Write)

  /** The published page metadata: the checkpoint and the LSN of each page. */
  datatype Meta = Meta(sequence: nat, lsns: map<nat, nat>)

  /** The files and what of them is durable: `base` is the data file at its last sync, `wild`
      and `cut` say what was written or emptied since; the first `synced` frames of the log
      are durable. */
  datatype Disk = Disk(data: Image, base: Image, wild: set<nat>, cut: bool, log: seq<Frame>, synced: nat, meta: Meta)

  /** Data pages written since the last sync survive in any state, torn or missing. */
  ghost predicate Survives(d: Disk, x: Image) {
    d.cut || Agrees(d.wild, x, d.base)
  }

  /** A crash keeps the durable frames and any prefix of the others. */
  ghost predicate Crash(d: Disk, d': Disk, k: nat) {
    && d.synced <= k <= |d.log| && Survives(d, d'.data)
    && d' == Disk(d'.data, d'.data, {}, false, d.log[..k], k, d.meta)
  }

  // ---- Replay ----

  /** The writes above the checkpoint. */
  function Fresh(log: seq<Frame>, checkpoint: nat): seq<Write> {
    if log == [] then []
    else (if log[0].sequence > checkpoint then [log[0].write] else []) + Fresh(log[1..], checkpoint)
  }

  /** What recovery makes of the data file. */
  function Recovered(d: Disk): Image {
    Apply(Fresh(d.log, d.meta.sequence), d.data)
  }

  /** The metadata after a frame. */
  function Note(m: Meta, f: Frame): Meta {
    if f.sequence <= m.sequence then m
    else Meta(f.sequence, if f.write.Clear? then map[] else m.lsns[f.write.page := f.lsn])
  }

  function NoteAll(m: Meta, log: seq<Frame>): Meta
    decreases |log|
  {
    if log == [] then m else NoteAll(Note(m, log[0]), log[1..])
  }

  lemma {:induction false} FreshSplit(a: seq<Frame>, b: seq<Frame>, checkpoint: nat)
    ensures Fresh(a + b, checkpoint) == Fresh(a, checkpoint) + Fresh(b, checkpoint)
    decreases |a|
  {
    if a == [] {
      assert a + b == b;
    } else {
      assert (a + b)[1..] == a[1..] + b;
      FreshSplit(a[1..], b, checkpoint);
    }
  }

  lemma FreshPrefix(log: seq<Frame>, k: nat, checkpoint: nat)
    requires k <= |log|
    ensures Fresh(log, checkpoint) == Fresh(log[..k], checkpoint) + Fresh(log[k..], checkpoint)
  {
    assert log == log[..k] + log[k..];
    FreshSplit(log[..k], log[k..], checkpoint);
  }

  predicate Increasing(log: seq<Frame>) {
    (forall i | 0 <= i < |log| :: 0 < log[i].sequence) && forall i, j | 0 <= i < j < |log| :: log[i].sequence < log[j].sequence
  }

  lemma {:induction false} NothingFresh(log: seq<Frame>, checkpoint: nat)
    requires forall i | 0 <= i < |log| :: log[i].sequence <= checkpoint
    ensures Fresh(log, checkpoint) == []
  {
    if log != [] {
      NothingFresh(log[1..], checkpoint);
    }
  }

  lemma {:induction false} NoteSplit(m: Meta, a: seq<Frame>, b: seq<Frame>)
    ensures NoteAll(m, a + b) == NoteAll(NoteAll(m, a), b)
    decreases |a|
  {
    if a == [] {
      assert a + b == b;
    } else {
      assert (a + b)[1..] == a[1..] + b;
      NoteSplit(Note(m, a[0]), a[1..], b);
    }
  }

  lemma {:induction false} NoteHigh(m: Meta, log: seq<Frame>)
    ensures m.sequence <= NoteAll(m, log).sequence
    ensures forall i | 0 <= i < |log| :: log[i].sequence <= NoteAll(m, log).sequence
    decreases |log|
  {
    if log != [] {
      NoteHigh(Note(m, log[0]), log[1..]);
    }
  }

  // ---- The invariant of the disk ----

  /** The durable frames cover everything that may be lost: replaying them over what a crash
      leaves gives the same as over the checkpointed image `c`. */
  ghost predicate Covered(ws: seq<Write>, d: Disk, c: Image) {
    Clear in ws || (!d.cut && d.wild <= Pages(ws) && Agrees(Pages(ws), d.base, c))
  }

  ghost predicate DiskOk(d: Disk, c: Image) {
    d.synced <= |d.log| && Increasing(d.log) && Covered(Fresh(d.log[..d.synced], d.meta.sequence), d, c)
  }

  lemma CoveredMore(ws: seq<Write>, more: seq<Write>, d: Disk, c: Image)
    requires Covered(ws, d, c)
    ensures Covered(ws + more, d, c)
  {
    if Clear !in ws {
      assert Pages(ws) <= Pages(ws + more);
      AgreesMore(Pages(ws), Pages(ws + more), d.base, c);
    }
  }

  lemma SurvivesCovered(ws: seq<Write>, d: Disk, c: Image, x: Image)
    requires Covered(ws, d, c) && Survives(d, x)
    ensures Clear in ws || Agrees(Pages(ws), x, c)
  {
    if Clear !in ws {
      AgreesMore(d.wild, Pages(ws), x, d.base);
      AgreesTrans(Pages(ws), x, d.base, c);
    }
  }

  /** After any crash, recovery gives the checkpointed image with a prefix of the journaled
      writes applied, at least all durable ones; and the disk is again repairable. */
  lemma CrashRepaired(d: Disk, c: Image, d': Disk, k: nat)
    requires DiskOk(d, c) && Crash(d, d', k)
    ensures DiskOk(d', c)
    ensures Recovered(d') == Apply(Fresh(d.log[..k], d.meta.sequence), c)
  {
    var s := d.meta.sequence;
    var ws, all := Fresh(d.log[..d.synced], s), Fresh(d.log[..k], s);
    FreshPrefix(d.log[..k], d.synced, s);
    assert d.log[..k][..d.synced] == d.log[..d.synced];
    CoveredMore(ws, Fresh(d.log[..k][d.synced..], s), d, c);
    SurvivesCovered(all, d, c, d'.data);
    Repairs(all, d'.data, c);
    assert d'.log[..d'.synced] == d.log[..k];
  }

  // ---- The operations of the disk ----

  function AppendFrame(d: Disk, f: Frame): Disk {
    d.(log := d.log + [f])
  }

  function SyncLog(d: Disk): Disk {
    d.(synced := |d.log|)
  }

  function WriteData(d: Disk, p: nat, bytes: Content): Disk {
    d.(data := PutPage(d.data, p, bytes), wild := d.wild + {p})
  }

  function CutData(d: Disk): Disk {
    d.(data := [], cut := true)
  }

  /** Carrying out a journaled write on the data file. */
  function DoData(d: Disk, w: Write): Disk {
    if w.Clear? then CutData(d) else WriteData(d, w.page, w.bytes)
  }

  function SyncData(d: Disk): Disk {
    d.(base := d.data, wild := {}, cut := false)
  }

  function Publish(d: Disk, m: Meta): Disk {
    d.(meta := m)
  }

  function ClearLog(d: Disk): Disk {
    d.(log := [], synced := 0)
  }

  function DurableWrites(d: Disk): seq<Write>
    requires d.synced <= |d.log|
  {
    Fresh(d.log[..d.synced], d.meta.sequence)
  }

  lemma SyncLogOk(d: Disk, c: Image)
    requires DiskOk(d, c)
    ensures DiskOk(SyncLog(d), c)
  {
    FreshPrefix(d.log, d.synced, d.meta.sequence);
    CoveredMore(DurableWrites(d), Fresh(d.log[d.synced..], d.meta.sequence), d, c);
    assert d.log[..|d.log|] == d.log;
  }

  /** A write may reach the data file once it is durable in the journal. */
  lemma DoDataOk(d: Disk, c: Image, w: Write)
    requires DiskOk(d, c) && w in DurableWrites(d)
    ensures DiskOk(DoData(d, w), c)
  {
  }

  lemma SyncDataOk(d: Disk, c: Image)
    requires DiskOk(d, c) && d.synced == |d.log| && d.data == Apply(Fresh(d.log, d.meta.sequence), c)
    ensures DiskOk(SyncData(d), c)
  {
    assert d.log[..d.synced] == d.log;
    if Clear !in Fresh(d.log, d.meta.sequence) {
      ApplyAgrees(Fresh(d.log, d.meta.sequence), c);
    }
  }

  /** The data file is synced and the log holds nothing above the checkpoint. */
  ghost predicate Settled(d: Disk) {
    && d.base == d.data && d.wild == {} && !d.cut
    && d.synced <= |d.log| && Increasing(d.log) && forall i | 0 <= i < |d.log| :: d.log[i].sequence <= d.meta.sequence
  }

  lemma SettledOk(d: Disk)
    requires Settled(d)
    ensures DiskOk(d, d.data) && Fresh(d.log, d.meta.sequence) == []
  {
    NothingFresh(d.log[..d.synced], d.meta.sequence);
    NothingFresh(d.log, d.meta.sequence);
  }

  // ---- What every crash gives ----

  /** Recovery can start from whatever a crash of this disk leaves. */
  ghost predicate Repairable(d: Disk) {
    exists c: Image :: DiskOk(d, c)
  }

  /** Every crash can be opened, and is repaired to this image. */
  ghost predicate CrashGives(d: Disk, s: Image) {
    Repairable(d) && forall d', k: nat | Crash(d, d', k) :: Recovered(d') == s
  }

  /** Every crash can be opened, and is repaired to `s` with some prefix of the batch applied. */
  ghost predicate CrashGivesPrefix(d: Disk, s: Image, ws: seq<Write>) {
    Repairable(d) && forall d', k: nat | Crash(d, d', k) :: exists j | 0 <= j <= |ws| :: Recovered(d') == Apply(ws[..j], s)
  }

  lemma FullySynced(d: Disk, c: Image, s: Image)
    requires DiskOk(d, c) && d.synced == |d.log| && Apply(Fresh(d.log, d.meta.sequence), c) == s
    ensures CrashGives(d, s)
  {
    forall d', k: nat | Crash(d, d', k)
      ensures Recovered(d') == s
    {
      CrashRepaired(d, c, d', k);
      assert d.log[..k] == d.log;
    }
  }

  function WritesOf(log: seq<Frame>): (ws: seq<Write>)
    ensures |ws| == |log| && forall i | 0 <= i < |log| :: ws[i] == log[i].write
  {
    seq(|log|, i requires 0 <= i < |log| => log[i].write)
  }

  lemma {:induction false} AllFresh(log: seq<Frame>, checkpoint: nat)
    requires forall i | 0 <= i < |log| :: log[i].sequence > checkpoint
    ensures Fresh(log, checkpoint) == WritesOf(log)
  {
    if log != [] {
      AllFresh(log[1..], checkpoint);
      assert WritesOf(log) == [log[0].write] + WritesOf(log[1..]);
    }
  }

  /** While a batch is being appended, a crash leaves some prefix of it. */
  lemma PartlyAppended(d: Disk, c: Image, n: nat, ws: seq<Write>)
    requires DiskOk(d, c) && n <= d.synced && |d.log| <= n + |ws|
    requires forall i | n <= i < |d.log| :: d.log[i].sequence > d.meta.sequence && d.log[i].write == ws[i - n]
    ensures CrashGivesPrefix(d, Apply(Fresh(d.log[..n], d.meta.sequence), c), ws)
  {
    forall d', k: nat | Crash(d, d', k)
      ensures exists j | 0 <= j <= |ws| :: Recovered(d') == Apply(ws[..j], Apply(Fresh(d.log[..n], d.meta.sequence), c))
    {
      PartlySurvived(d, c, n, ws, d', k);
    }
  }

  lemma PartlySurvived(d: Disk, c: Image, n: nat, ws: seq<Write>, d': Disk, k: nat)
    requires DiskOk(d, c) && n <= d.synced && |d.log| <= n + |ws| && Crash(d, d', k)
    requires forall i | n <= i < |d.log| :: d.log[i].sequence > d.meta.sequence && d.log[i].write == ws[i - n]
    ensures Recovered(d') == Apply(ws[..k - n], Apply(Fresh(d.log[..n], d.meta.sequence), c))
  {
    hide DiskOk, Recovered, Apply, Fresh, Survives;
    var s := d.meta.sequence;
    CrashRepaired(d, c, d', k);
    var log := d.log[..k];
    FreshPrefix(log, n, s);
    AllFresh(log[n..], s);
    assert log[..n] == d.log[..n] && WritesOf(log[n..]) == ws[..k - n];
    ApplySplit(Fresh(d.log[..n], s), ws[..k - n], c);
  }
}
