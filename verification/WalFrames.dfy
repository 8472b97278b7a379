/** The byte format of the write-ahead log (wal.rs): framing, torn tails and commit groups. */
module WalFrames {
  import opened Basics

  type Bytes = seq<byte>

  const OP_COMMIT: byte := 10

  /** The kinds of logged operations. */
  datatype OpKind =
    | InsertOp
    | ReplaceAllOp
    | InsertBatchOp
    | DeleteKeysOp
    | DropColumnOp
    | AccountsOp
    | ReplaceSchemaOp
    | HideColumnOp
    | CompactOp
    | CreateTableOp
    | DropTableOp
    | CreateIndexOp
    | DropIndexOp
    | MigrateOp

  /** The byte that stands for a kind. */
  function Code(kind: OpKind): byte {
    match kind
    case InsertOp => 1
    case ReplaceAllOp => 2
    case InsertBatchOp => 3
    case DeleteKeysOp => 4
    case DropColumnOp => 5
    case AccountsOp => 6
    case ReplaceSchemaOp => 7
    case HideColumnOp => 8
    case CompactOp => 9
    case CreateTableOp => 11
    case DropTableOp => 12
    case CreateIndexOp => 13
    case DropIndexOp => 14
    case MigrateOp => 15
  }

  /** The kind a byte stands for, if any. */
  function KindOf(b: byte): Option<OpKind> {
    if b == 1 then Some(InsertOp)
    else if b == 2 then Some(ReplaceAllOp)
    else if b == 3 then Some(InsertBatchOp)
    else if b == 4 then Some(DeleteKeysOp)
    else if b == 5 then Some(DropColumnOp)
    else if b == 6 then Some(AccountsOp)
    else if b == 7 then Some(ReplaceSchemaOp)
    else if b == 8 then Some(HideColumnOp)
    else if b == 9 then Some(CompactOp)
    else if b == 11 then Some(CreateTableOp)
    else if b == 12 then Some(DropTableOp)
    else if b == 13 then Some(CreateIndexOp)
    else if b == 14 then Some(DropIndexOp)
    else if b == 15 then Some(MigrateOp)
    else None
  }

  /** A log operation: its kind, table name and serialized arguments; or the commit mark. */
  datatype Op = Data(kind: OpKind, table: Bytes, payload: Bytes) | Commit

  /** A record: LSN and operation. */
  type Record = (nat, Op)

  /** A record with the byte range of its frame. */
  datatype Frame = Frame(lsn: nat, op: Op, start: nat, end: nat)

  // ---- Encoding ----

  function Kind(op: Op): byte {
    if op.Commit? then OP_COMMIT else Code(op.kind)
  }

  function Table(op: Op): Bytes {
    if op.Commit? then [] else op.table
  }

  function Payload(op: Op): Bytes {
    if op.Commit? then [] else op.payload
  }

  /** The frame body; the length of the table name is cut to sixteen bits. */
  function Body(r: Record): Bytes {
    LittleEndian(r.0, 8) + [Kind(r.1)] + LittleEndian(|Table(r.1)| % 0x1_0000, 2) + Table(r.1) + Payload(r.1)
  }

  /** `encode`: length and body. */
  function Encode(r: Record): Bytes {
    LittleEndian(|Body(r)| % 0x1_0000_0000, 4) + Body(r)
  }

  /** `decode_body`. */
  function Decode(body: Bytes): Result<Record> {
    if |body| < 11 then Err("body too short")
    else
      var n := FromLittleEndian(body[9..11]);
      if |body| < 11 + n then Err("table name truncated")
      else if body[8] == OP_COMMIT then Ok((FromLittleEndian(body[..8]), Commit))
      else if KindOf(body[8]).None? then Err("unknown op type")
      else Ok((FromLittleEndian(body[..8]), Data(KindOf(body[8]).value, body[11..11 + n], body[11 + n..])))
  }

  /** A record as the writer builds it. */
  predicate Proper(r: Record) {
    r.0 <= U64_MAX
  }

  /** Every kind is read back, and no kind is taken for the mark. */
  lemma CodesDistinct(kind: OpKind)
    ensures KindOf(Code(kind)) == Some(kind) && Code(kind) != OP_COMMIT
  {
  }

  lemma Widths()
    ensures Pow256(2) == 0x1_0000 && Pow256(4) == 0x1_0000_0000 && Pow256(8) == 0x1_0000_0000_0000_0000
  {
    assert Pow256(4) == 0x1_0000_0000;
  }

  lemma BodyParts(r: Record)
    ensures var b := Body(r);
      && |b| == 11 + |Table(r.1)| + |Payload(r.1)|
      && b[..8] == LittleEndian(r.0, 8) && b[8] == Kind(r.1)
      && b[9..11] == LittleEndian(|Table(r.1)| % 0x1_0000, 2)
      && b[11..] == Table(r.1) + Payload(r.1)
  {
  }

  /** A body of every kind decodes to its record exactly if the table name fits its length
      field. */
  lemma DecodeIff(r: Record)
    requires Proper(r)
    ensures Decode(Body(r)) == Ok(r) <==> |Table(r.1)| < 0x1_0000
  {
    var b, n := Body(r), |Table(r.1)|;
    BodyParts(r);
    Widths();
    LittleEndianRoundTrip(r.0, 8);
    LittleEndianRoundTrip(n % 0x1_0000, 2);
    if r.1.Data? {
      CodesDistinct(r.1.kind);
    }
    assert b[11..11 + n] == b[11..][..n] == Table(r.1);
    assert b[11 + n..] == b[11..][n..] == Payload(r.1);
  }

  // ---- Parsing ----

  type Parsed = Result<(seq<Frame>, nat)>

  /** A scan with frames found before it. */
  function Prepend(frames: seq<Frame>, p: Parsed): Parsed {
    match p
    case Err(e) => Err(e)
    case Ok(s) => Ok((frames + s.0, s.1))
  }

  lemma PrependMore(frames: seq<Frame>, f: Frame, p: Parsed)
    ensures Prepend(frames, Prepend([f], p)) == Prepend(frames + [f], p)
    ensures Prepend([], p) == p
  {
    if p.Ok? {
      assert frames + ([f] + p.value.0) == frames + [f] + p.value.0;
      assert [] + p.value.0 == p.value.0;
    }
  }

  /** The loop of `parse`, from byte `base` of the file on. */
  function Parse(buf: Bytes, base: nat): Parsed
    decreases |buf|
  {
    if |buf| < 4 then Ok(([], base))
    else
      var end := 4 + FromLittleEndian(buf[..4]);
      if end > |buf| then Ok(([], base))
      else match Decode(buf[4..end])
        case Err(e) => Err(e)
        case Ok(r) => Prepend([Frame(r.0, r.1, base, base + end)], Parse(buf[end..], base + end))
  }

  /** `parse`. */
  method ParseFile(buf: Bytes) returns (r: Parsed)
    ensures r == Parse(buf, 0)
  {
    var frames, offset: nat := [], 0;
    assert buf[0..] == buf;
    PrependMore([], Frame(0, Commit, 0, 0), Parse(buf, 0));
    while offset + 4 <= |buf|
      invariant offset <= |buf|
      invariant Parse(buf, 0) == Prepend(frames, Parse(buf[offset..], offset))
      decreases |buf| - offset
    {
      var rest := buf[offset..];
      assert buf[offset..offset + 4] == rest[..4];
      var end := offset + 4 + FromLittleEndian(buf[offset..offset + 4]);
      if end > |buf| {
        break;
      }
      assert buf[offset + 4..end] == rest[4..end - offset] && buf[end..] == rest[end - offset..];
      match Decode(buf[offset + 4..end])
      case Err(e) =>
        return Err(e);
      case Ok(record) =>
        PrependMore(frames, Frame(record.0, record.1, offset, end), Parse(buf[end..], end));
        frames := frames + [Frame(record.0, record.1, offset, end)];
        offset := end;
    }
    assert frames + [] == frames;
    r := Ok((frames, offset));
  }

  /** The log file of a list of records. */
  function EncodeAll(rs: seq<Record>): Bytes {
    if rs == [] then [] else Encode(rs[0]) + EncodeAll(rs[1..])
  }

  /** A record that fits its length fields. */
  predicate Small(r: Record) {
    Proper(r) && |Table(r.1)| < 0x1_0000 && |Body(r)| < 0x1_0000_0000
  }

  /** How many records lie wholly in the first `n` bytes. */
  function Whole(rs: seq<Record>, n: nat): (k: nat)
    ensures k <= |rs|
  {
    if rs == [] || n < |Encode(rs[0])| then 0 else 1 + Whole(rs[1..], n - |Encode(rs[0])|)
  }

  /** The frames of records laid out from byte `base` on. */
  function Located(rs: seq<Record>, base: nat): seq<Frame> {
    if rs == [] then []
    else
      var end := base + |Encode(rs[0])|;
      [Frame(rs[0].0, rs[0].1, base, end)] + Located(rs[1..], end)
  }

  /** `Whole` is the largest number of records that fit. */
  lemma {:induction false} WholeExact(rs: seq<Record>, n: nat)
    ensures |EncodeAll(rs[..Whole(rs, n)])| <= n
    ensures Whole(rs, n) < |rs| ==> n < |EncodeAll(rs[..Whole(rs, n) + 1])|
    decreases |rs|
  {
    var k := Whole(rs, n);
    if rs != [] && n >= |Encode(rs[0])| {
      WholeExact(rs[1..], n - |Encode(rs[0])|);
      assert rs[..k][1..] == rs[1..][..k - 1];
      if k < |rs| {
        assert rs[..k + 1][1..] == rs[1..][..k];
      }
    } else if rs != [] {
      assert rs[..1][1..] == [];
      assert EncodeAll(rs[..1]) == Encode(rs[0]) + EncodeAll([]);
    }
  }

  /** One frame at the front of a buffer. */
  lemma FirstFrame(r: Record, buf: Bytes)
    requires Small(r) && 4 <= |buf| && |buf| <= |Encode(r)| && buf == Encode(r)[..|buf|]
    ensures 4 + FromLittleEndian(buf[..4]) == |Encode(r)|
    ensures |buf| == |Encode(r)| ==> buf[4..] == Body(r)
  {
    hide Encode, Body, LittleEndian, FromLittleEndian;
    Widths();
    LittleEndianRoundTrip(|Body(r)|, 4);
    EncodeParts(r);
    assert buf[..4] == Encode(r)[..4];
    assert |buf| == |Encode(r)| ==> buf == Encode(r);
  }

  lemma EncodeParts(r: Record)
    requires |Body(r)| < 0x1_0000_0000
    ensures |Encode(r)| == 4 + |Body(r)| && Encode(r)[..4] == LittleEndian(|Body(r)|, 4) && Encode(r)[4..] == Body(r)
  {
    hide Body, LittleEndian;
  }

  /** Every prefix of a log parses, to exactly the records wholly inside it, and the good
      length is the end of the last of them. */
  lemma {:induction false} TornTail(rs: seq<Record>, n: nat, base: nat)
    requires n <= |EncodeAll(rs)| && forall i | 0 <= i < |rs| :: Small(rs[i])
    ensures Parse(EncodeAll(rs)[..n], base) ==
            Ok((Located(rs[..Whole(rs, n)], base), base + |EncodeAll(rs[..Whole(rs, n)])|))
    decreases |rs|
  {
    hide Encode, Small, Parse;
    if rs == [] {
      NothingToParse(base);
    } else {
      if n < |Encode(rs[0])| {
        TornFirst(rs, n, base);
      } else {
        var e, k := Encode(rs[0]), Whole(rs, n);
        TornTail(rs[1..], n - |e|, base + |e|);
        ParseFirst(rs[0], EncodeAll(rs[1..])[..n - |e|], base);
        assert EncodeAll(rs)[..n] == e + EncodeAll(rs[1..])[..n - |e|];
        assert rs[..k][1..] == rs[1..][..k - 1] && rs[..k][0] == rs[0];
      }
    }
  }

  lemma NothingToParse(base: nat)
    ensures Parse([], base) == Ok(([], base))
  {
  }

  lemma TornFirst(rs: seq<Record>, n: nat, base: nat)
    requires rs != [] && Small(rs[0]) && n < |Encode(rs[0])| && n <= |EncodeAll(rs)|
    ensures Parse(EncodeAll(rs)[..n], base) == Ok(([], base))
  {
    var buf := EncodeAll(rs)[..n];
    assert buf == Encode(rs[0])[..n];
    if 4 <= n {
      FirstFrame(rs[0], buf);
    }
  }

  lemma ParseFirst(r: Record, rest: Bytes, base: nat)
    requires Small(r)
    ensures Parse(Encode(r) + rest, base) == Prepend([Frame(r.0, r.1, base, base + |Encode(r)|)], Parse(rest, base + |Encode(r)|))
  {
    var e, buf := Encode(r), Encode(r) + rest;
    FirstFrame(r, e);
    DecodeIff(r);
    assert buf[..4] == e[..4] && buf[4..|e|] == e[4..] && buf[|e|..] == rest;
  }
}
