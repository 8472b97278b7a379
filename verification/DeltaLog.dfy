/** The delta log of the version catalogue (mvcc.rs `persist`, `replay_deltas`, `open`):
    what is read back after a crash at any point. */
module DeltaLog {
  import opened Basics
  import opened Rows
  import opened Versions
  import opened Publish
  import opened Catalog
  import opened Transactions
  import opened Snapshots
  import opened DeltaFrames

  datatype TableDelta = TableDelta(schema: Schema, changed: nat, live: bool, rows: map<nat, Chain>, removed: set<nat>)

  datatype Delta = Delta(format: nat, csn: nat, nextRow: nat, oldest: nat, tables: map<nat, TableDelta>, removed: set<nat>)

  /** The snapshot file and the bytes of the delta file. */
  datatype Disk = Disk(base: Option<Durable>, file: Bytes)

  /** A snapshot and the deltas written behind it. */
  datatype Log = Log(base: Option<Durable>, lines: seq<Delta>)

  function DiskOf(codec: Codec<Delta>, log: Log): Disk {
    Disk(log.base, FileOf(codec, log.lines))
  }

  // ---- Writing ----

  function RowsOfTable(tables: Tables, t: nat): map<nat, Chain> {
    if t in tables then tables[t].rows else map[]
  }

  function MakeTableDelta(prior: map<nat, Chain>, h: History): TableDelta {
    TableDelta(h.schema, h.changed, h.live,
               map id | id in h.rows && !(id in prior && prior[id] == h.rows[id]) :: h.rows[id],
               prior.Keys - h.rows.Keys)
  }

  /** The delta from the state in memory to the published one. `shared` are the tables
      recognised as untouched because both states share them. */
  function MakeDelta(previous: Durable, next: Durable, oldest: nat, shared: set<nat>): Delta {
    Delta(1, next.csn, next.nextRow, oldest,
          map t | t in next.tables && t !in shared :: MakeTableDelta(RowsOfTable(previous.tables, t), next.tables[t]),
          previous.tables.Keys - next.tables.Keys)
  }

  // ---- Reading back ----

  function UpdateTable(tables: Tables, t: nat, u: TableDelta): History {
    History(u.schema, u.changed, u.live, (RowsOfTable(tables, t) - u.removed) + u.rows)
  }

  /** One complete line applied, and pruned with its own bound. */
  function ApplyDelta(d: Durable, delta: Delta): Durable {
    var kept := d.tables - delta.removed;
    var tables := map t | t in kept.Keys + delta.tables.Keys ::
      if t in delta.tables then UpdateTable(kept, t, delta.tables[t]) else kept[t];
    PruneDurable(d.(csn := delta.csn, nextRow := delta.nextRow, tables := tables), delta.oldest)
  }

  /** One line of `replay_deltas`: lines that the snapshot already covers are skipped. */
  function ReplayLine(base: nat, d: Durable, line: Delta): Result<Durable> {
    if line.format != 1 || line.oldest > line.csn then Err("invalid MVCC delta version")
    else if line.csn <= base then Ok(d)
    else if line.csn < d.csn || line.nextRow < d.nextRow then Err("MVCC delta moved backwards")
    else Ok(ApplyDelta(d, line))
  }

  function Replay(base: nat, d: Durable, lines: seq<Delta>): Result<Durable>
    decreases |lines|
  {
    if lines == [] then Ok(d) else
    var before :- Replay(base, d, lines[..|lines| - 1]);
    ReplayLine(base, before, lines[|lines| - 1])
  }

  const EMPTY := Durable(1, 0, 0, map[])

  /** The state a log stands for. */
  function Replayed(log: Log): Result<Durable> {
    if log.base.None? then
      if log.lines != [] then Err("MVCC delta has no base snapshot") else Ok(EMPTY)
    else Replay(log.base.value.csn, log.base.value, log.lines)
  }

  // ---- Reading the file ----

  function ReplayFrames(codec: Codec<Delta>, base: nat, d: Durable, lines: seq<Bytes>): Result<Durable>
    decreases |lines|
  {
    if lines == [] then Ok(d) else
    var before :- ReplayFrames(codec, base, d, lines[..|lines| - 1]);
    var line :- ReadFrame(codec, lines[|lines| - 1]);
    ReplayLine(base, before, line)
  }

  /** `replay_deltas`: the state with the whole lines of the file applied, and the file cut
      behind the last of them. */
  function ReplayFile(codec: Codec<Delta>, d: Durable, file: Bytes): Result<(Durable, Bytes)> {
    var next :- ReplayFrames(codec, d.csn, d, WholeLines(file));
    Ok((next, Flat(WholeLines(file))))
  }

  /** `open`: the state in memory and the disk it leaves. */
  ghost function Opened(codec: Codec<Delta>, disk: Disk): Result<(Durable, Disk)> {
    if disk.base.None? && disk.file != [] then Err("MVCC delta has no base snapshot") else
    var r :- ReplayFile(codec, if disk.base.None? then EMPTY else disk.base.value, disk.file);
    if OpenAccepts(r.0) then Ok((r.0, disk.(file := r.1))) else Err("invalid MVCC version catalog")
  }

  /** The replay loop: it stops at an unterminated line and cuts the file there, and it gives up
      at the first bad line. */
  method ReplayDeltas(codec: Codec<Delta>, d0: Durable, file: Bytes) returns (r: Result<(Durable, Bytes)>)
    ensures r == ReplayFile(codec, d0, file)
  {
    hide ReplayFile, ReplayFrames, ReplayLine, ReadFrame, Flat, Ends;
    var base, d, complete := d0.csn, d0, 0;
    var pieces := Pieces(file);
    var i: nat := 0;
    ReplayStarts(codec, d0, pieces);
    while i < |pieces| && Ends(pieces[i])
      invariant i <= |pieces| && ReplayFrames(codec, base, d0, pieces[..i]) == Ok(d)
      invariant complete == |Flat(pieces[..i])| && forall j | 0 <= j < i :: Ends(pieces[j])
    {
      OneMore(codec, base, d0, d, pieces, i);
      var line := ReadFrame(codec, pieces[i]);
      var next := if line.Err? then Err(line.error) else ReplayLine(base, d, line.value);
      if next.Err? {
        FileFails(codec, d0, file, i + 1);
        return Err(next.error);
      }
      d := next.value;
      complete := complete + |pieces[i]|;
      i := i + 1;
    }
    FileDone(codec, d0, file, i);
    assert file[..|file|] == file;
    return Ok((d, if complete != |file| then file[..complete] else file));
  }

  lemma ReplayStarts(codec: Codec<Delta>, d0: Durable, pieces: seq<Bytes>)
    ensures ReplayFrames(codec, d0.csn, d0, pieces[..0]) == Ok(d0) && Flat(pieces[..0]) == []
  {
  }

  lemma OneMore(codec: Codec<Delta>, base: nat, d0: Durable, d: Durable, pieces: seq<Bytes>, i: nat)
    requires i < |pieces| && ReplayFrames(codec, base, d0, pieces[..i]) == Ok(d)
    ensures |Flat(pieces[..i + 1])| == |Flat(pieces[..i])| + |pieces[i]|
    ensures var line := ReadFrame(codec, pieces[i]);
      ReplayFrames(codec, base, d0, pieces[..i + 1]) == if line.Err? then Err(line.error) else ReplayLine(base, d, line.value)
  {
    Longer(pieces, i);
    FlatSnoc(pieces[..i], pieces[i]);
  }

  lemma FileFails(codec: Codec<Delta>, d0: Durable, file: Bytes, n: nat)
    requires n <= |Pieces(file)| && forall j | 0 <= j < n :: Ends(Pieces(file)[j])
    requires ReplayFrames(codec, d0.csn, d0, Pieces(file)[..n]).Err?
    ensures ReplayFile(codec, d0, file) == Err(ReplayFrames(codec, d0.csn, d0, Pieces(file)[..n]).error)
  {
    WholePrefix(file, n);
    ReplayFails(codec, d0.csn, d0, WholeLines(file), n);
  }

  lemma FileDone(codec: Codec<Delta>, d0: Durable, file: Bytes, n: nat)
    requires n <= |Pieces(file)| && (forall j | 0 <= j < n :: Ends(Pieces(file)[j])) && (n < |Pieces(file)| ==> !Ends(Pieces(file)[n]))
    requires ReplayFrames(codec, d0.csn, d0, Pieces(file)[..n]).Ok?
    ensures var complete := |Flat(Pieces(file)[..n])|;
      && complete <= |file|
      && ReplayFile(codec, d0, file) == Ok((ReplayFrames(codec, d0.csn, d0, Pieces(file)[..n]).value, file[..complete]))
  {
    WholePrefix(file, n);
    assert WholeLines(file) == Pieces(file)[..n];
    FlatPrefix(Pieces(file), n);
  }

  lemma WholePrefix(file: Bytes, n: nat)
    requires n <= |Pieces(file)| && forall j | 0 <= j < n :: Ends(Pieces(file)[j])
    ensures n <= |WholeLines(file)| && WholeLines(file)[..n] == Pieces(file)[..n]
  {
  }

  lemma {:induction false} FlatPrefix(lines: seq<Bytes>, n: nat)
    requires n <= |lines|
    ensures |Flat(lines[..n])| <= |Flat(lines)| && Flat(lines)[..|Flat(lines[..n])|] == Flat(lines[..n])
    decreases |lines|
  {
    if n == |lines| {
      assert lines[..n] == lines;
    } else {
      assert lines[..|lines| - 1][..n] == lines[..n];
      FlatPrefix(lines[..|lines| - 1], n);
      FlatSnoc(lines[..|lines| - 1], lines[|lines| - 1]);
      Halves(lines, |lines| - 1);
      assert lines == lines[..|lines| - 1] + [lines[|lines| - 1]];
    }
  }

  /** A bad line makes the whole replay fail the same way. */
  lemma {:induction false} ReplayFails(codec: Codec<Delta>, base: nat, d: Durable, lines: seq<Bytes>, n: nat)
    requires n <= |lines| && ReplayFrames(codec, base, d, lines[..n]).Err?
    ensures ReplayFrames(codec, base, d, lines) == ReplayFrames(codec, base, d, lines[..n])
    decreases |lines|
  {
    if n == |lines| {
      assert lines[..n] == lines;
    } else {
      assert lines[..|lines| - 1][..n] == lines[..n];
      ReplayFails(codec, base, d, lines[..|lines| - 1], n);
    }
  }

  /** Reading written lines back replays their deltas. */
  lemma {:induction false} FramesReplay(codec: Codec<Delta>, base: nat, d: Durable, lines: seq<Delta>)
    requires Faithful(codec)
    ensures ReplayFrames(codec, base, d, Frames(codec, lines)) == Replay(base, d, lines)
    decreases |lines|
  {
    if lines != [] {
      var before, line := lines[..|lines| - 1], lines[|lines| - 1];
      assert Frames(codec, lines)[..|lines| - 1] == Frames(codec, before);
      FramesReplay(codec, base, d, before);
      assert Reads(codec, line);
      FrameReads(codec, line);
    }
  }

  /** Opening a file that ends inside a line gives the state of the log in front of it, and cuts
      the file back to that log. */
  lemma TornOpens(codec: Codec<Delta>, log: Log, line: Delta, k: nat, p: Durable)
    requires Faithful(codec) && Replayed(log) == Ok(p) && OpenAccepts(p)
    requires k < |Frame(codec, line)| && (log.base.None? ==> k == 0)
    ensures Opened(codec, Disk(log.base, FileOf(codec, log.lines) + Frame(codec, line)[..k])) == Ok((p, DiskOf(codec, log)))
  {
    var start := if log.base.None? then EMPTY else log.base.value;
    TornFile(codec, log.lines, line, k);
    FramesReplay(codec, start.csn, start, log.lines);
  }

  const NO_DELTA := Delta(1, 0, 0, 0, map[], {})

  /** A file of whole lines is left as it is. */
  lemma WholeOpens(codec: Codec<Delta>, log: Log, p: Durable)
    requires Faithful(codec) && Replayed(log) == Ok(p) && OpenAccepts(p)
    ensures Opened(codec, DiskOf(codec, log)) == Ok((p, DiskOf(codec, log)))
  {
    TornOpens(codec, log, NO_DELTA, 0, p);
    assert FileOf(codec, log.lines) + Frame(codec, NO_DELTA)[..0] == FileOf(codec, log.lines);
  }

  // ---- Pruning twice ----

  lemma PruneRowsTwice(rows: map<nat, Chain>, a: nat, b: nat)
    requires a <= b
    ensures PruneRows(PruneRows(rows, a), b) == PruneRows(rows, b)
  {
    forall id <- rows
      ensures PruneChain(PruneChain(rows[id], a), b) == PruneChain(rows[id], b)
    {
      PruneTwice(rows[id], a, b);
    }
  }

  function TableAt(tables: Tables, t: nat): Option<History> {
    if t in tables then Some(tables[t]) else None
  }

  /** What pruning leaves of one table. */
  function Pruned(h: Option<History>, oldest: nat): Option<History> {
    if h.Some? && (h.value.live || PruneRows(h.value.rows, oldest) != map[]) then Some(PruneTable(h.value, oldest)) else None
  }

  lemma PruneDurableAt(d: Durable, oldest: nat, t: nat)
    ensures TableAt(PruneDurable(d, oldest).tables, t) == Pruned(TableAt(d.tables, t), oldest)
  {
  }

  lemma PrunedTwice(h: Option<History>, a: nat, b: nat)
    requires a <= b
    ensures Pruned(Pruned(h, a), b) == Pruned(h, b)
  {
    if h.Some? {
      PruneRowsTwice(h.value.rows, a, b);
      if PruneRows(h.value.rows, a) == map[] {
        assert PruneRows(h.value.rows, b) == PruneRows(map[], b) == map[];
      }
    }
  }

  lemma SameTables(a: Tables, b: Tables)
    requires forall t: nat :: TableAt(a, t) == TableAt(b, t)
    ensures a == b
  {
    forall t <- a
      ensures t in b && a[t] == b[t]
    {
      assert TableAt(a, t) == TableAt(b, t);
    }
    forall t <- b
      ensures t in a
    {
      assert TableAt(a, t) == TableAt(b, t);
    }
  }

  /** Forgetting in two steps is forgetting at the later bound. */
  lemma PruneDurableTwice(d: Durable, a: nat, b: nat)
    requires a <= b
    ensures PruneDurable(PruneDurable(d, a), b) == PruneDurable(d, b)
  {
    var once, twice := PruneDurable(d, b), PruneDurable(PruneDurable(d, a), b);
    forall t: nat
      ensures TableAt(once.tables, t) == TableAt(twice.tables, t)
    {
      PruneDurableAt(d, b, t);
      PruneDurableAt(d, a, t);
      PruneDurableAt(PruneDurable(d, a), b, t);
      PrunedTwice(TableAt(d.tables, t), a, b);
    }
    SameTables(once.tables, twice.tables);
  }

  // ---- A delta loses nothing ----

  /** The rows a table delta leads to. */
  function UpdatedRows(stored: map<nat, Chain>, u: TableDelta): map<nat, Chain> {
    (stored - u.removed) + u.rows
  }

  /** Writing the difference between the rows in memory and the new rows, and applying it
      to the stored rows that memory has since pruned further, gives the new rows. */
  lemma RowsDelta(stored: map<nat, Chain>, memory: map<nat, Chain>, next: History, bound: nat, oldest: nat)
    requires bound <= oldest && memory == PruneRows(stored, bound) && PruneRows(next.rows, oldest) == next.rows
    ensures PruneRows(UpdatedRows(stored, MakeTableDelta(memory, next)), oldest) == next.rows
  {
    var u := MakeTableDelta(memory, next);
    var updated := UpdatedRows(stored, u);
    forall id | id in updated || id in next.rows
      ensures id in next.rows ==> id in updated && PruneChain(updated[id], oldest) == next.rows[id] && next.rows[id] != []
      ensures id !in next.rows ==> id in updated && PruneChain(updated[id], oldest) == []
    {
      RowDelta(stored, memory, next, bound, oldest, id);
    }
  }

  lemma RowDelta(stored: map<nat, Chain>, memory: map<nat, Chain>, next: History, bound: nat, oldest: nat, id: nat)
    requires bound <= oldest && memory == PruneRows(stored, bound) && PruneRows(next.rows, oldest) == next.rows
    ensures var updated := UpdatedRows(stored, MakeTableDelta(memory, next));
      if id in next.rows then id in updated && PruneChain(updated[id], oldest) == next.rows[id] && next.rows[id] != []
      else id in updated ==> PruneChain(updated[id], oldest) == []
  {
    if id in stored {
      PruneTwice(stored[id], bound, oldest);
    }
    if id in next.rows {
      assert id in PruneRows(next.rows, oldest);
      assert PruneChain(next.rows[id], oldest) == next.rows[id];
    }
  }

  /** One table of the replayed state, before its pruning. */
  function UpdatedAt(p: Durable, delta: Delta, t: nat): Option<History> {
    if t in delta.tables then Some(UpdateTable(p.tables - delta.removed, t, delta.tables[t]))
    else if t in delta.removed then None
    else TableAt(p.tables, t)
  }

  lemma ApplyDeltaAt(p: Durable, delta: Delta, t: nat)
    ensures TableAt(ApplyDelta(p, delta).tables, t) == Pruned(UpdatedAt(p, delta, t), delta.oldest)
  {
    var kept := p.tables - delta.removed;
    var tables := map x | x in kept.Keys + delta.tables.Keys ::
      if x in delta.tables then UpdateTable(kept, x, delta.tables[x]) else kept[x];
    PruneDurableAt(p.(csn := delta.csn, nextRow := delta.nextRow, tables := tables), delta.oldest, t);
  }

  /** A published state keeps only tables that are live or still have rows, and only
      versions above the bound. */
  ghost predicate Settled(d: Durable, oldest: nat) {
    forall t <- d.tables :: Pruned(Some(d.tables[t]), oldest) == Some(d.tables[t])
  }

  lemma TableDeltaCorrect(p: Durable, m: Durable, next: Durable, bound: nat, oldest: nat, shared: set<nat>, t: nat)
    requires bound <= oldest && m == PruneDurable(p, bound) && Settled(next, oldest)
    requires forall x <- shared :: TableAt(next.tables, x) == TableAt(m.tables, x)
    ensures Pruned(UpdatedAt(p, MakeDelta(m, next, oldest, shared), t), oldest) == TableAt(next.tables, t)
  {
    PruneDurableAt(p, bound, t);
    var stored := RowsOfTable(p.tables, t);
    assert RowsOfTable(m.tables, t) == PruneRows(stored, bound);
    if t in next.tables {
      assert Pruned(Some(next.tables[t]), oldest) == Some(next.tables[t]);
      if t in shared {
        PrunedTwice(TableAt(p.tables, t), bound, oldest);
      } else {
        RowsDelta(stored, RowsOfTable(m.tables, t), next.tables[t], bound, oldest);
      }
    } else if t !in m.tables {
      PrunedTwice(TableAt(p.tables, t), bound, oldest);
    }
  }

  /** Replaying the delta of a publish on the stored state gives the published state,
      although the state in memory it was computed from had been pruned meanwhile. */
  lemma DeltaLossless(p: Durable, m: Durable, next: Durable, bound: nat, oldest: nat, shared: set<nat>)
    requires bound <= oldest && m == PruneDurable(p, bound) && Settled(next, oldest) && next.format == p.format
    requires forall x <- shared :: TableAt(next.tables, x) == TableAt(m.tables, x)
    ensures ApplyDelta(p, MakeDelta(m, next, oldest, shared)) == next
  {
    var delta := MakeDelta(m, next, oldest, shared);
    forall t: nat
      ensures TableAt(ApplyDelta(p, delta).tables, t) == TableAt(next.tables, t)
    {
      ApplyDeltaAt(p, delta, t);
      TableDeltaCorrect(p, m, next, bound, oldest, shared, t);
    }
    SameTables(ApplyDelta(p, delta).tables, next.tables);
  }

  // ---- A publish and its crash points ----

  /** Tables of the catalogue that are not listed are live. */
  ghost predicate CurrentLive(d: Durable, schemas: seq<Schema>, list: Listing) {
    forall t <- d.tables | t in SchemaIds(schemas) && t !in ObjectIds(list) :: d.tables[t].live
  }

  lemma PublishedSettled(d: Durable, floor: nat, csn: nat, schemas: seq<Schema>, list: Listing, oldest: nat, next: Durable)
    requires DurableOk(d, floor) && Proper(d, csn, schemas, list) && CurrentLive(d, schemas, list)
    requires PublishDurable(d, csn, schemas, list, oldest) == Ok(next)
    ensures Settled(next, oldest)
  {
    var listed := PublishList(d.tables, d.nextRow, list, d.csn, csn).value;
    assert ListReady(d.tables, d.nextRow, list, d.csn, csn, floor);
    PublishListCorrect(d.tables, d.nextRow, list, d.csn, csn, floor, listed.0, listed.1);
    forall t <- next.tables
      ensures Pruned(Some(next.tables[t]), oldest) == Some(next.tables[t])
    {
      assert TableOutcome(d.tables, list, csn, floor, listed.0, listed.1, t);
      PruneRowsTwice(DropMissing(listed.0, SchemaIds(schemas), csn)[t].rows, oldest, oldest);
    }
  }

  /** `persist` rewrites the snapshot when there is none to extend, or when the log has
      grown too large. */
  predicate Compacts(base: Option<Durable>, memory: Durable, large: bool) {
    memory.format != 2 || base.None? || large
  }

  /** The log after `persist`. */
  function Extended(log: Log, memory: Durable, next: Durable, oldest: nat, large: bool, shared: set<nat>): Log {
    if Compacts(log.base, memory, large) then Log(Some(next), [])
    else log.(lines := log.lines + [MakeDelta(memory, next, oldest, shared)])
  }

  /** The disk after `persist`. */
  function Persist(codec: Codec<Delta>, disk: Disk, memory: Durable, next: Durable, oldest: nat, large: bool, shared: set<nat>): Disk {
    if Compacts(disk.base, memory, large) then Disk(Some(next), [])
    else disk.(file := disk.file + Frame(codec, MakeDelta(memory, next, oldest, shared)))
  }

  /** The disk with the first `k` bytes of a line behind the file. */
  ghost predicate TornAt(codec: Codec<Delta>, disk: Disk, line: Delta, k: nat, c: Disk) {
    k < |Frame(codec, line)| && c == disk.(file := disk.file + Frame(codec, line)[..k])
  }

  /** The disks a crash during `persist` can leave: nothing written yet, part of a line or the
      renamed snapshot with the old file behind it, or all of it. */
  ghost predicate CrashPoint(codec: Codec<Delta>, disk: Disk, memory: Durable, next: Durable, oldest: nat, large: bool, shared: set<nat>, c: Disk) {
    || c == disk
    || c == Persist(codec, disk, memory, next, oldest, large, shared)
    || (if Compacts(disk.base, memory, large) then c == disk.(base := Some(next))
        else exists k: nat :: TornAt(codec, disk, MakeDelta(memory, next, oldest, shared), k, c))
  }

  /** A stored state: well formed without any snapshot to keep, and with nothing left to prune
      at some bound up to its csn. */
  ghost predicate Resting(p: Durable) {
    && DurableOk(p, p.csn) && p.format in {1, 2}
    && exists bound: nat :: bound <= p.csn && PruneDurable(p, bound) == p
  }

  /** The log holds `p`, which memory may have pruned further up to the oldest snapshot. */
  ghost predicate Synced(s: State, log: Log, p: Durable) {
    && Replayed(log) == Ok(p) && Resting(p)
    && (exists bound: nat :: bound <= Oldest(s.txs, s.durable.csn) && s.durable == PruneDurable(p, bound))
    && (log.base.Some? ==> log.base.value.csn <= p.csn)
    && LinesUpTo(log.lines, p.csn)
  }

  predicate LinesUpTo(lines: seq<Delta>, csn: nat) {
    forall line | line in lines :: line.format == 1 && line.oldest <= line.csn <= csn
  }

  lemma {:induction false} ReplaySkips(base: nat, d: Durable, lines: seq<Delta>)
    requires LinesUpTo(lines, base)
    ensures Replay(base, d, lines) == Ok(d)
    decreases |lines|
  {
    if lines != [] {
      assert lines[|lines| - 1] in lines;
      ReplaySkips(base, d, lines[..|lines| - 1]);
    }
  }

  lemma ReplayAppended(base: nat, d: Durable, lines: seq<Delta>, p: Durable, line: Delta)
    requires Replay(base, d, lines) == Ok(p)
    ensures Replay(base, d, lines + [line]) == ReplayLine(base, p, line)
  {
    assert (lines + [line])[..|lines|] == lines;
  }

  /** A published csn reaches the disk exactly when it is above the csn of the snapshot
      file, or nothing has changed: a line at or below that csn is skipped on reopening. */
  lemma AppendDurableIff(log: Log, p: Durable, line: Delta, next: Durable)
    requires log.base.Some? && Replayed(log) == Ok(p)
    requires line.format == 1 && line.oldest <= line.csn && p.csn <= line.csn && p.nextRow <= line.nextRow
    requires ApplyDelta(p, line) == next
    ensures Replayed(log.(lines := log.lines + [line])) == Ok(next) <==> log.base.value.csn < line.csn || p == next
  {
    ReplayAppended(log.base.value.csn, log.base.value, log.lines, p, line);
  }

  /** What a publish needs of the engine and its caller. */
  ghost predicate Publishes(s: State, csn: nat, schemas: seq<Schema>, list: Listing, next: Durable) {
    && SnapshotInv(s) && s.durable.csn < csn
    && Proper(s.durable, csn, schemas, list) && CurrentLive(s.durable, schemas, list)
    && PublishDurable(s.durable, csn, schemas, list, Oldest(s.txs, csn)) == Ok(next)
  }

  lemma AppendCorrect(s: State, log: Log, p: Durable, csn: nat, schemas: seq<Schema>, list: Listing, next: Durable, shared: set<nat>)
    requires Synced(s, log, p) && Publishes(s, csn, schemas, list, next)
    requires log.base.Some? && s.durable.format == 2 && SharedOk(s.durable, next, shared)
    ensures var line := MakeDelta(s.durable, next, Oldest(s.txs, csn), shared);
      && Replayed(log.(lines := log.lines + [line])) == Ok(next)
      && line.format == 1 && line.oldest <= line.csn == csn
  {
    var floor, oldest := Oldest(s.txs, s.durable.csn), Oldest(s.txs, csn);
    LiveAtMostCsn(s);
    OldestNeverDecreases(s.txs, s.durable.csn, s.txs, csn);
    PublishCorrect(s.durable, floor, csn, schemas, list, oldest, next);
    PublishedSettled(s.durable, floor, csn, schemas, list, oldest, next);
    var bound: nat :| bound <= floor && s.durable == PruneDurable(p, bound);
    DeltaLossless(p, s.durable, next, bound, oldest, shared);
    AppendDurableIff(log, p, MakeDelta(s.durable, next, oldest, shared), next);
  }

  /** Tables recognised as shared are the same in both states. */
  ghost predicate SharedOk(memory: Durable, next: Durable, shared: set<nat>) {
    forall x <- shared :: TableAt(next.tables, x) == TableAt(memory.tables, x)
  }

  /** What is published can rest on the disk. */
  lemma PublishedRests(s: State, csn: nat, schemas: seq<Schema>, list: Listing, next: Durable)
    requires Publishes(s, csn, schemas, list, next)
    ensures Resting(next) && next.csn == csn && Oldest(s.txs, csn) <= csn && PruneDurable(next, Oldest(s.txs, csn)) == next
  {
    var floor, oldest := Oldest(s.txs, s.durable.csn), Oldest(s.txs, csn);
    LiveAtMostCsn(s);
    PublishCorrect(s.durable, floor, csn, schemas, list, oldest, next);
    PublishedSettled(s.durable, floor, csn, schemas, list, oldest, next);
    SettledPrune(next, oldest);
    DurableFloor(next, Max(floor, oldest), csn);
  }

  lemma PublishSynced(s: State, log: Log, p: Durable, csn: nat, schemas: seq<Schema>, list: Listing, next: Durable,
                      large: bool, shared: set<nat>)
    requires Synced(s, log, p) && Publishes(s, csn, schemas, list, next) && SharedOk(s.durable, next, shared)
    ensures Synced(s.(durable := next), Extended(log, s.durable, next, Oldest(s.txs, csn), large, shared), next)
  {
    hide Publishes, Resting, PublishDurable, PruneDurable, MakeDelta;
    PublishedRests(s, csn, schemas, list, next);
    PublishesNewer(s, log, p, csn, schemas, list, next);
    if !Compacts(log.base, s.durable, large) {
      AppendCorrect(s, log, p, csn, schemas, list, next, shared);
    } else {
      assert Replayed(Log(Some(next), [])) == Ok(next);
    }
  }

  lemma PublishesNewer(s: State, log: Log, p: Durable, csn: nat, schemas: seq<Schema>, list: Listing, next: Durable)
    requires Synced(s, log, p) && Publishes(s, csn, schemas, list, next)
    ensures s.durable.csn == p.csn < csn && LinesUpTo(log.lines, csn)
  {
  }

  /** The renamed snapshot covers the whole old file. */
  lemma RenamedSynced(s: State, log: Log, p: Durable, csn: nat, schemas: seq<Schema>, list: Listing, next: Durable)
    requires Synced(s, log, p) && Publishes(s, csn, schemas, list, next)
    ensures Synced(s.(durable := next), Log(Some(next), log.lines), next)
  {
    hide Publishes, Resting, PublishDurable, PruneDurable;
    PublishedRests(s, csn, schemas, list, next);
    PublishesNewer(s, log, p, csn, schemas, list, next);
    ReplaySkips(next.csn, next, log.lines);
  }

  /** A process that opens what is stored is in step with it. */
  lemma RestartSynced(s: State, log: Log, p: Durable)
    requires Synced(s, log, p)
    ensures Synced(State(p, map[], 0), log, p) && SnapshotInv(State(p, map[], 0)) && OpenAccepts(p)
  {
    assert LiveSnapshots(map[]) == {};
    OpenNeverRejects(p, p.csn);
  }

  lemma PersistIs(codec: Codec<Delta>, log: Log, memory: Durable, next: Durable, oldest: nat, large: bool, shared: set<nat>)
    ensures Persist(codec, DiskOf(codec, log), memory, next, oldest, large, shared)
         == DiskOf(codec, Extended(log, memory, next, oldest, large, shared))
  {
    FileSnoc(codec, log.lines, MakeDelta(memory, next, oldest, shared));
  }

  /** Opening the disk `c` gives `q`, and leaves a disk in step with it. */
  ghost predicate OpensInStep(codec: Codec<Delta>, c: Disk, q: Durable) {
    exists log :: Opened(codec, c) == Ok((q, DiskOf(codec, log))) && Synced(State(q, map[], 0), log, q)
  }

  lemma SyncedOpens(codec: Codec<Delta>, s: State, log: Log, p: Durable)
    requires Faithful(codec) && Synced(s, log, p)
    ensures Opened(codec, DiskOf(codec, log)) == Ok((p, DiskOf(codec, log))) && OpensInStep(codec, DiskOf(codec, log), p)
  {
    hide Synced, Opened, OpenAccepts;
    RestartSynced(s, log, p);
    assert Replayed(log) == Ok(p) by { SyncedHolds(s, log, p); }
    WholeOpens(codec, log, p);
  }

  lemma SyncedHolds(s: State, log: Log, p: Durable)
    requires Synced(s, log, p)
    ensures Replayed(log) == Ok(p)
  {
  }

  lemma TornInStep(codec: Codec<Delta>, s: State, log: Log, p: Durable, line: Delta, c: Disk)
    requires Faithful(codec) && Synced(s, log, p) && log.base.Some?
    requires exists k: nat :: TornAt(codec, DiskOf(codec, log), line, k, c)
    ensures OpensInStep(codec, c, p)
  {
    hide Synced, Opened, OpenAccepts;
    var k: nat :| TornAt(codec, DiskOf(codec, log), line, k, c);
    RestartSynced(s, log, p);
    SyncedHolds(s, log, p);
    TornOpens(codec, log, line, k, p);
  }

  /** Crash atomicity of one publish: whatever byte it stops at, opening gives exactly the state
      of the last completed publish or the new one, and cuts the disk back to one that is in step
      with it; a completed publish gives the new one. */
  lemma PublishCrashAtomic(codec: Codec<Delta>, s: State, log: Log, p: Durable, csn: nat, schemas: seq<Schema>, list: Listing,
                           next: Durable, large: bool, shared: set<nat>, c: Disk)
    requires Faithful(codec) && Synced(s, log, p) && Publishes(s, csn, schemas, list, next) && SharedOk(s.durable, next, shared)
    requires CrashPoint(codec, DiskOf(codec, log), s.durable, next, Oldest(s.txs, csn), large, shared, c)
    ensures OpensInStep(codec, c, p) || OpensInStep(codec, c, next)
    ensures c == Persist(codec, DiskOf(codec, log), s.durable, next, Oldest(s.txs, csn), large, shared) ==> OpensInStep(codec, c, next)
  {
    hide Synced, Opened, Publishes, SharedOk, OpensInStep, Persist, Extended, TornAt, MakeDelta;
    var oldest := Oldest(s.txs, csn);
    PersistIs(codec, log, s.durable, next, oldest, large, shared);
    PublishSynced(s, log, p, csn, schemas, list, next, large, shared);
    SyncedOpens(codec, s.(durable := next), Extended(log, s.durable, next, oldest, large, shared), next);
    SyncedOpens(codec, s, log, p);
    RenamedSynced(s, log, p, csn, schemas, list, next);
    SyncedOpens(codec, s.(durable := next), Log(Some(next), log.lines), next);
    if exists k: nat :: TornAt(codec, DiskOf(codec, log), MakeDelta(s.durable, next, oldest, shared), k, c) {
      if log.base.Some? {
        TornInStep(codec, s, log, p, MakeDelta(s.durable, next, oldest, shared), c);
      }
    }
  }

  lemma SettledPrune(d: Durable, oldest: nat)
    requires Settled(d, oldest)
    ensures PruneDurable(d, oldest) == d
  {
    forall t: nat
      ensures TableAt(PruneDurable(d, oldest).tables, t) == TableAt(d.tables, t)
    {
      PruneDurableAt(d, oldest, t);
    }
    SameTables(PruneDurable(d, oldest).tables, d.tables);
  }
}
