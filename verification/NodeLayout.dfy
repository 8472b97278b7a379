/** The page image of an index node (btree.rs): slots grow from the front, cells from the
    back, and every node an insertion can produce fits its page. */
module NodeLayout {
  import opened Basics

  type Bytes = seq<byte>

  const HEADER: nat := 11
  const SLOT: nat := 2
  const CELL_FIXED: nat := 10
  const LEGACY_KEY_BYTES: nat := 64
  const MAX_KEY_BYTES: nat := 128
  const LEAF: byte := 0
  const INTERNAL: byte := 1
  /** config.rs: the largest page. */
  const MAX_PAGE: nat := 65536

  // ---- How much fits ----

  predicate FitsInPage(page: nat, order: nat) {
    order >= 2 && HEADER + (order - 1) * (SLOT + CELL_FIXED + LEGACY_KEY_BYTES) <= page
  }

  function SatSub(a: nat, b: nat): nat {
    if a < b then 0 else a - b
  }

  function KeyLimit(page: nat, order: nat): nat {
    if order < 2 then 0
    else
      var room := SatSub(SatSub(page, HEADER) / (order - 1), SLOT + CELL_FIXED);
      if room < MAX_KEY_BYTES then room else MAX_KEY_BYTES
  }

  function MaxOrder(page: nat): nat {
    SatSub(page, HEADER) / (SLOT + CELL_FIXED + LEGACY_KEY_BYTES) + 1
  }

  /** Bytes taken by the cells of the first `n` keys. */
  function CellBytes(keys: seq<Bytes>, n: nat): (r: nat)
    requires n <= |keys|
  {
    if n == 0 then 0 else CellBytes(keys, n - 1) + CELL_FIXED + |keys[n - 1]|
  }

  function NodeBytes(keys: seq<Bytes>): nat {
    HEADER + |keys| * SLOT + CellBytes(keys, |keys|)
  }

  /** `max_order` is the largest order that fits, when any does. */
  lemma MaxOrderExact(page: nat, order: nat)
    requires 2 <= order
    ensures FitsInPage(page, order) <==> order <= MaxOrder(page) && HEADER <= page
  {
    var cell := SLOT + CELL_FIXED + LEGACY_KEY_BYTES;
    if HEADER <= page {
      DivideBound(order - 1, page - HEADER, cell);
    } else {
      assert (order - 1) * cell >= 0;
    }
  }

  lemma DivideBound(n: nat, room: nat, cell: nat)
    requires 0 < cell
    ensures n * cell <= room <==> n <= room / cell
  {
    var q := room / cell;
    assert q * cell <= room < (q + 1) * cell;
    if n <= q {
      assert n * cell <= q * cell;
    } else {
      assert (q + 1) * cell <= n * cell;
    }
  }

  lemma {:induction false} CellBytesBound(keys: seq<Bytes>, n: nat, limit: nat)
    requires n <= |keys| && forall i | 0 <= i < n :: |keys[i]| <= limit
    ensures CellBytes(keys, n) <= n * (CELL_FIXED + limit)
  {
    if n > 0 {
      CellBytesBound(keys, n - 1, limit);
      assert n * (CELL_FIXED + limit) == (n - 1) * (CELL_FIXED + limit) + CELL_FIXED + limit;
    }
  }

  /** For every accepted order, a node within the key count and key length limits fits. */
  lemma NodeFits(page: nat, order: nat, keys: seq<Bytes>)
    requires FitsInPage(page, order) && |keys| <= order - 1
    requires forall i | 0 <= i < |keys| :: |keys[i]| <= KeyLimit(page, order)
    ensures NodeBytes(keys) <= page
  {
    var limit := KeyLimit(page, order);
    CellBytesBound(keys, |keys|, limit);
    RoomPerKey(page, order);
    ManyFit(|keys|, order - 1, SLOT + CELL_FIXED + limit, page - HEADER);
    assert |keys| * (SLOT + CELL_FIXED + limit) == |keys| * SLOT + |keys| * (CELL_FIXED + limit);
  }

  lemma RoomPerKey(page: nat, order: nat)
    requires FitsInPage(page, order)
    ensures LEGACY_KEY_BYTES <= KeyLimit(page, order) && SLOT + CELL_FIXED + KeyLimit(page, order) <= (page - HEADER) / (order - 1)
  {
    DivideBound(SLOT + CELL_FIXED + LEGACY_KEY_BYTES, page - HEADER, order - 1);
  }

  lemma ManyFit(k: nat, n: nat, each: nat, room: nat)
    requires 0 < n && k <= n && each <= room / n
    ensures k * each <= room
  {
    DivideBound(each, room, n);
    assert k * each <= n * each;
  }

  /** The legacy key length is always within the limit, and the limit is the best possible:
      with room for fewer bytes than `limit + 1` per key, some node would not fit. */
  lemma KeyLimitTight(page: nat, order: nat, keys: seq<Bytes>)
    requires FitsInPage(page, order) && |keys| == order - 1 && KeyLimit(page, order) < MAX_KEY_BYTES
    requires forall i | 0 <= i < |keys| :: |keys[i]| > KeyLimit(page, order)
    ensures LEGACY_KEY_BYTES <= KeyLimit(page, order) && NodeBytes(keys) > page
  {
    var n, limit := order - 1, KeyLimit(page, order);
    DivideBound(SLOT + CELL_FIXED + LEGACY_KEY_BYTES, page - HEADER, n);
    CellBytesAbove(keys, n, limit + 1);
    DivideBound(SLOT + CELL_FIXED + limit + 1, page - HEADER, n);
    assert n * (SLOT + CELL_FIXED + limit + 1) == n * SLOT + n * (CELL_FIXED + limit + 1);
    assert (SLOT + CELL_FIXED + limit + 1) * n == n * (SLOT + CELL_FIXED + limit + 1);
  }

  lemma {:induction false} CellBytesAbove(keys: seq<Bytes>, n: nat, low: nat)
    requires n <= |keys| && forall i | 0 <= i < n :: |keys[i]| >= low
    ensures CellBytes(keys, n) >= n * (CELL_FIXED + low)
  {
    if n > 0 {
      CellBytesAbove(keys, n - 1, low);
      assert n * (CELL_FIXED + low) == (n - 1) * (CELL_FIXED + low) + CELL_FIXED + low;
    }
  }

  // ---- The page image ----

  /** A node as btree.rs keeps it: a leaf has one value per key and a next leaf, an inner
      node one child more than keys. */
  datatype Node = Node(kind: byte, next: nat, keys: seq<Bytes>, values: seq<nat>)

  ghost predicate InOrder(keys: seq<Bytes>) {
    forall i, j | 0 <= i < j < |keys| && j == i + 1 :: !LexLess(keys[j], keys[i])
  }

  /** A node as insertions and deletions build it. */
  ghost predicate WellFormed(node: Node) {
    && InOrder(node.keys) && (forall i | 0 <= i < |node.keys| :: |node.keys[i]| <= MAX_KEY_BYTES)
    && (forall i | 0 <= i < |node.values| :: node.values[i] <= U64_MAX) && node.next <= U64_MAX
    && (node.kind == LEAF || node.kind == INTERNAL)
    && (node.kind == LEAF ==> |node.values| == |node.keys|)
    && (node.kind == INTERNAL ==> |node.values| == |node.keys| + 1 && node.next == 0 && 0 !in node.values)
  }

  function U16(b: Bytes, off: nat): (v: nat)
    requires off + 2 <= |b|
    ensures v <= 65535
  {
    b[off] as int + 256 * b[off + 1] as int
  }

  function U64(b: Bytes, off: nat): nat
    requires off + 8 <= |b|
  {
    FromLittleEndian(b[off..off + 8])
  }

  /** The slot of key `i` points to a cell that ends at or before `end` and holds the pair. */
  ghost predicate HoldsCell(b: Bytes, count: nat, i: nat, end: nat, key: Bytes, value: nat)
    requires HEADER + count * SLOT <= |b| && i < count
  {
    var off := U16(b, HEADER + i * SLOT);
    && HEADER + count * SLOT <= off && off + CELL_FIXED + |key| <= end <= |b| && |key| <= MAX_KEY_BYTES
    && U16(b, off) == |key|
    && b[off + 2..off + 2 + |key|] == key
    && U64(b, off + 2 + |key|) == value
  }

  /** Where the cell of key `i` must end: where the previous cell starts. */
  function EndAt(b: Bytes, count: nat, i: nat): nat
    requires HEADER + count * SLOT <= |b| && i <= count
  {
    if i == 0 then |b| else U16(b, HEADER + (i - 1) * SLOT)
  }

  function Trailer(node: Node): nat {
    if node.kind == INTERNAL && node.values != [] then node.values[|node.values| - 1]
    else if node.kind == INTERNAL then 0
    else node.next
  }

  ghost predicate HoldsHeader(b: Bytes, node: Node) {
    && HEADER + |node.keys| * SLOT <= |b| && b[0] == node.kind && U16(b, 1) == |node.keys| && U64(b, 3) == Trailer(node)
  }

  ghost predicate HoldsCells(b: Bytes, node: Node, n: nat)
    requires HEADER + |node.keys| * SLOT <= |b| && n <= |node.keys| <= |node.values|
  {
    forall i | 0 <= i < n :: HoldsCell(b, |node.keys|, i, EndAt(b, |node.keys|, i), node.keys[i], node.values[i])
  }

  /** The page holds the node. */
  ghost predicate Holds(b: Bytes, node: Node) {
    WellFormed(node) && HoldsHeader(b, node) && HoldsCells(b, node, |node.keys|)
  }

  /** Copies bytes into a page. */
  method CopyInto(p: array<byte>, off: nat, bytes: Bytes)
    requires off + |bytes| <= p.Length
    modifies p
    ensures p[off..off + |bytes|] == bytes
    ensures forall k | 0 <= k < p.Length && !(off <= k < off + |bytes|) :: p[k] == old(p[k])
  {
    var i: nat := 0;
    while i < |bytes|
      invariant i <= |bytes|
      invariant forall k | 0 <= k < i :: p[off + k] == bytes[k]
      invariant forall k | 0 <= k < p.Length && !(off <= k < off + i) :: p[k] == old(p[k])
    {
      p[off + i] := bytes[i];
      i := i + 1;
    }
  }

  lemma U16Written(b: Bytes, off: nat, v: nat)
    requires off + 2 <= |b| && b[off..off + 2] == LittleEndian(v, 2) && v < 65536
    ensures U16(b, off) == v
  {
    assert LittleEndian(v, 2)[1..] == LittleEndian(v / 256, 1);
    assert b[off] == b[off..off + 2][0] && b[off + 1] == b[off..off + 2][1];
  }

  lemma U64Written(b: Bytes, off: nat, v: nat)
    requires off + 8 <= |b| && b[off..off + 8] == LittleEndian(v, 8) && v <= U64_MAX
    ensures U64(b, off) == v
  {
    assert Pow256(8) == 0x1_0000_0000_0000_0000 by {
      assert Pow256(4) == 0x1_0000_0000;
    }
    LittleEndianRoundTrip(v, 8);
  }

  // ---- Writing ----

  /** Cell `i` is where `put_node` puts it, directly before cell `i - 1`. */
  ghost predicate Placed(b: Bytes, keys: seq<Bytes>, values: seq<nat>, i: nat)
    requires i < |keys| <= |values| && NodeBytes(keys) <= |b|
  {
    CellsBelow(keys, i + 1);
    var off := |b| - CellBytes(keys, i + 1);
    && b[HEADER + i * SLOT..HEADER + i * SLOT + 2] == LittleEndian(off % 65536, 2)
    && b[off..off + CELL_FIXED + |keys[i]|] == Cell(keys[i], values[i])
  }

  /** The bytes of one cell: key length, key, value. */
  function Cell(key: Bytes, value: nat): (c: Bytes)
    ensures |c| == CELL_FIXED + |key|
  {
    LittleEndian(|key| % 65536, 2) + key + LittleEndian(value, 8)
  }

  lemma {:induction false} CellsBelow(keys: seq<Bytes>, n: nat)
    requires n <= |keys|
    ensures CellBytes(keys, n) <= CellBytes(keys, |keys|)
    ensures 0 < n ==> CellBytes(keys, n) == CellBytes(keys, n - 1) + CELL_FIXED + |keys[n - 1]|
    decreases |keys| - n
  {
    if n < |keys| {
      CellsBelow(keys, n + 1);
    }
  }

  method Zero(p: array<byte>)
    modifies p
    ensures forall k | 0 <= k < p.Length :: p[k] == 0
  {
    for i := 0 to p.Length
      invariant forall k | 0 <= k < i :: p[k] == 0
    {
      p[i] := 0;
    }
  }

  method PutHeader(p: array<byte>, node: Node)
    requires HEADER + |node.keys| * SLOT <= p.Length && |node.keys| <= 65535
    modifies p
    ensures p[0] == node.kind && p[1..3] == LittleEndian(|node.keys|, 2) && p[3..11] == LittleEndian(Trailer(node), 8)
  {
    p[0] := node.kind;
    CopyInto(p, 1, LittleEndian(|node.keys|, 2));
    CopyInto(p, 3, LittleEndian(Trailer(node), 8));
    assert p[1..3] == LittleEndian(|node.keys|, 2);
  }

  /** The free bytes between the slots and the cells after `i` keys. */
  lemma RoomFor(keys: seq<Bytes>, i: nat, page: nat)
    requires i < |keys| && NodeBytes(keys) <= page
    ensures CellBytes(keys, i + 1) == CellBytes(keys, i) + CELL_FIXED + |keys[i]|
    ensures HEADER + |keys| * SLOT <= page - CellBytes(keys, i + 1)
  {
    CellsBelow(keys, i + 1);
  }

  lemma CellPieces(b: Bytes, off: nat, key: Bytes, value: nat)
    requires off + CELL_FIXED + |key| <= |b|
    requires b[off..off + 2] == LittleEndian(|key| % 65536, 2) && b[off + 2..off + 2 + |key|] == key
    requires b[off + 2 + |key|..off + CELL_FIXED + |key|] == LittleEndian(value, 8)
    ensures b[off..off + CELL_FIXED + |key|] == Cell(key, value)
  {
    assert b[off..off + CELL_FIXED + |key|] ==
           b[off..off + 2] + b[off + 2..off + 2 + |key|] + b[off + 2 + |key|..off + CELL_FIXED + |key|];
  }

  method WriteCell(p: array<byte>, off: nat, key: Bytes, value: nat)
    requires off + CELL_FIXED + |key| <= p.Length
    modifies p
    ensures p[off..off + CELL_FIXED + |key|] == Cell(key, value)
    ensures forall k | 0 <= k < p.Length && !(off <= k < off + CELL_FIXED + |key|) :: p[k] == old(p[k])
  {
    CopyInto(p, off, LittleEndian(|key| % 65536, 2));
    CopyInto(p, off + 2, key);
    assert p[off..off + 2] == LittleEndian(|key| % 65536, 2);
    CopyInto(p, off + 2 + |key|, LittleEndian(value, 8));
    assert p[off + 2..off + 2 + |key|] == key;
    assert p[off..off + 2] == LittleEndian(|key| % 65536, 2);
    CellPieces(p[..], off, key, value);
  }

  /** One round of `put_node`: the cell before the cursor, and its slot. */
  method PutCell(p: array<byte>, keys: seq<Bytes>, values: seq<nat>, i: nat, cursor: nat)
    requires i < |keys| <= |values| && NodeBytes(keys) <= p.Length && cursor == p.Length - CellBytes(keys, i + 1)
    modifies p
    ensures Placed(p[..], keys, values, i)
    ensures forall k | 0 <= k < p.Length && !(HEADER + i * SLOT <= k < HEADER + i * SLOT + 2) && !(cursor <= k < cursor + CELL_FIXED + |keys[i]|) ::
      p[k] == old(p[k])
  {
    RoomFor(keys, i, p.Length);
    WriteCell(p, cursor, keys[i], values[i]);
    CopyInto(p, HEADER + i * SLOT, LittleEndian(cursor % 65536, 2));
    assert p[cursor..cursor + CELL_FIXED + |keys[i]|] == Cell(keys[i], values[i]);
  }

  /** A cell that is already placed is out of the way of later ones. */
  lemma PlacedStays(b: Bytes, b': Bytes, keys: seq<Bytes>, values: seq<nat>, j: nat, i: nat)
    requires j < i < |keys| <= |values| && NodeBytes(keys) <= |b| == |b'| && Placed(b, keys, values, j)
    requires var cursor := |b| - CellBytes(keys, i + 1);
      forall k | 0 <= k < |b| && !(HEADER + i * SLOT <= k < HEADER + i * SLOT + 2) && !(cursor <= k < cursor + CELL_FIXED + |keys[i]|) ::
        b'[k] == b[k]
    ensures Placed(b', keys, values, j)
  {
    hide Cell, LittleEndian;
    CellsApart(keys, j, i);
    RoomFor(keys, i, |b|);
    RoomFor(keys, j, |b|);
    var off := |b| - CellBytes(keys, j + 1);
    assert b'[off..off + CELL_FIXED + |keys[j]|] == b[off..off + CELL_FIXED + |keys[j]|];
    assert b'[HEADER + j * SLOT..HEADER + j * SLOT + 2] == b[HEADER + j * SLOT..HEADER + j * SLOT + 2];
  }

  lemma {:induction false} CellsApart(keys: seq<Bytes>, j: nat, i: nat)
    requires j <= i <= |keys|
    ensures CellBytes(keys, j) <= CellBytes(keys, i)
    ensures j < i ==> CellBytes(keys, j + 1) <= CellBytes(keys, i)
    decreases i - j
  {
    if j < i {
      CellsApart(keys, j + 1, i);
    }
  }

  /** The loop of `put_node`. */
  method PutCells(p: array<byte>, keys: seq<Bytes>, values: seq<nat>)
    requires |keys| <= |values| && NodeBytes(keys) <= p.Length
    modifies p
    ensures forall j | 0 <= j < |keys| :: Placed(p[..], keys, values, j)
    ensures forall k | 0 <= k < HEADER :: p[k] == old(p[k])
  {
    var cursor := p.Length;
    for i := 0 to |keys|
      invariant cursor == p.Length - CellBytes(keys, i)
      invariant forall j | 0 <= j < i :: Placed(p[..], keys, values, j)
      invariant forall k | 0 <= k < HEADER :: p[k] == old(p[k])
    {
      RoomFor(keys, i, p.Length);
      cursor := cursor - CELL_FIXED - |keys[i]|;
      ghost var before := p[..];
      PutCell(p, keys, values, i, cursor);
      forall j | 0 <= j < i
        ensures Placed(p[..], keys, values, j)
      {
        PlacedStays(before, p[..], keys, values, j, i);
      }
    }
  }

  /** What `put_node` wrote, read through the slots. */
  lemma PlacedHolds(b: Bytes, node: Node)
    requires WellFormed(node) && |node.keys| <= 65535 && NodeBytes(node.keys) <= |b| <= MAX_PAGE
    requires b[0] == node.kind && b[1..3] == LittleEndian(|node.keys|, 2) && b[3..11] == LittleEndian(Trailer(node), 8)
    requires forall j | 0 <= j < |node.keys| :: Placed(b, node.keys, node.values, j)
    ensures Holds(b, node)
  {
    U16Written(b, 1, |node.keys|);
    U64Written(b, 3, Trailer(node));
    forall i | 0 <= i < |node.keys|
      ensures HoldsCell(b, |node.keys|, i, EndAt(b, |node.keys|, i), node.keys[i], node.values[i])
    {
      PlacedSlot(b, node.keys, node.values, i);
      if i > 0 {
        PlacedSlot(b, node.keys, node.values, i - 1);
      }
      PlacedCell(b, node.keys, node.values, i);
    }
  }

  lemma PlacedSlot(b: Bytes, keys: seq<Bytes>, values: seq<nat>, i: nat)
    requires i < |keys| <= |values| && NodeBytes(keys) <= |b| <= MAX_PAGE && Placed(b, keys, values, i)
    ensures U16(b, HEADER + i * SLOT) == |b| - CellBytes(keys, i + 1)
  {
    RoomFor(keys, i, |b|);
    U16Written(b, HEADER + i * SLOT, |b| - CellBytes(keys, i + 1));
  }

  lemma PlacedCell(b: Bytes, keys: seq<Bytes>, values: seq<nat>, i: nat)
    requires i < |keys| <= |values| && NodeBytes(keys) <= |b| <= MAX_PAGE && Placed(b, keys, values, i)
    requires |keys[i]| <= MAX_KEY_BYTES && values[i] <= U64_MAX
    ensures |b| >= CellBytes(keys, i) && HoldsCell(b, |keys|, i, |b| - CellBytes(keys, i), keys[i], values[i])
  {
    hide Cell, LittleEndian, U64;
    RoomFor(keys, i, |b|);
    PlacedSlot(b, keys, values, i);
    ReadCell(b, |b| - CellBytes(keys, i + 1), keys[i], values[i]);
  }

  lemma CellParts(key: Bytes, value: nat)
    requires |key| <= MAX_KEY_BYTES
    ensures var c := Cell(key, value);
      && c[0..2] == LittleEndian(|key|, 2) && c[2..2 + |key|] == key
      && c[2 + |key|..CELL_FIXED + |key|] == LittleEndian(value, 8)
  {
    hide LittleEndian;
    var a, v := LittleEndian(|key|, 2), LittleEndian(value, 8);
    ThreeParts(a, key, v);
  }

  lemma ThreeParts(a: Bytes, b: Bytes, c: Bytes)
    ensures var s := a + b + c;
      s[0..|a|] == a && s[|a|..|a| + |b|] == b && s[|a| + |b|..|s|] == c
  {
  }

  lemma ReadCell(b: Bytes, off: nat, key: Bytes, value: nat)
    requires off + CELL_FIXED + |key| <= |b| && b[off..off + CELL_FIXED + |key|] == Cell(key, value)
    requires |key| <= MAX_KEY_BYTES && value <= U64_MAX
    ensures U16(b, off) == |key| && b[off + 2..off + 2 + |key|] == key && U64(b, off + 2 + |key|) == value
  {
    hide Cell, LittleEndian, U16, U64;
    var end := off + CELL_FIXED + |key|;
    CellParts(key, value);
    Slice(b, off, end, off, off + 2);
    Slice(b, off, end, off + 2, off + 2 + |key|);
    Slice(b, off, end, off + 2 + |key|, end);
    U16Written(b, off, |key|);
    U64Written(b, off + 2 + |key|, value);
  }

  /** `put_node`: refused exactly when the node does not fit. */
  method PutNode(p: array<byte>, node: Node) returns (ok: bool)
    requires |node.keys| <= |node.values|
    modifies p
    ensures ok <==> |node.keys| <= 65535 && NodeBytes(node.keys) <= p.Length
    ensures !ok ==> p[..] == old(p[..])
    ensures ok && WellFormed(node) && p.Length <= MAX_PAGE ==> Holds(p[..], node)
  {
    if |node.keys| > 65535 || NodeBytes(node.keys) > p.Length {
      return false;
    }
    Zero(p);
    PutHeader(p, node);
    ghost var before := p[..];
    PutCells(p, node.keys, node.values);
    ok := true;
    assert p[1..3] == before[1..3] && p[3..11] == before[3..11];
    if WellFormed(node) && p.Length <= MAX_PAGE {
      PlacedHolds(p[..], node);
    }
  }

  // ---- Reading ----

  lemma U64Bound(b: Bytes, off: nat)
    requires off + 8 <= |b|
    ensures U64(b, off) <= U64_MAX
  {
    assert Pow256(8) == 0x1_0000_0000_0000_0000 by {
      assert Pow256(4) == 0x1_0000_0000;
    }
    FromLittleEndianBound(b[off..off + 8]);
  }

  /** One round of `get_node`: the only cell the slot can mean, or a refusal. */
  method GetCell(b: Bytes, count: nat, i: nat, end: nat) returns (r: Option<(Bytes, nat)>)
    requires HEADER + count * SLOT <= |b| && i < count && end <= |b|
    ensures r.Some? ==> HoldsCell(b, count, i, end, r.value.0, r.value.1) && r.value.1 <= U64_MAX
    ensures forall key: Bytes, value: nat | HoldsCell(b, count, i, end, key, value) :: r == Some((key, value))
  {
    var off := U16(b, HEADER + i * SLOT);
    if off < HEADER + count * SLOT || off + CELL_FIXED > |b| {
      return None;
    }
    var klen := U16(b, off);
    if klen > MAX_KEY_BYTES || off + CELL_FIXED + klen > |b| {
      return None;
    }
    if off + CELL_FIXED + klen > end {
      return None;
    }
    U64Bound(b, off + 2 + klen);
    return Some((b[off + 2..off + 2 + klen], U64(b, off + 2 + klen)));
  }

  lemma HeldCell(b: Bytes, node: Node, i: nat)
    requires Holds(b, node) && i < |node.keys|
    ensures HEADER + |node.keys| * SLOT <= |b| && |node.keys| <= |node.values|
    ensures HoldsCell(b, |node.keys|, i, EndAt(b, |node.keys|, i), node.keys[i], node.values[i])
  {
  }

  /** The loop of `get_node`. */
  method GetCells(b: Bytes, count: nat) returns (r: Option<(seq<Bytes>, seq<nat>)>)
    requires HEADER + count * SLOT <= |b|
    ensures r.Some? ==>
      var (keys, values) := r.value;
      && |keys| == |values| == count
      && forall i | 0 <= i < count :: HoldsCell(b, count, i, EndAt(b, count, i), keys[i], values[i]) && values[i] <= U64_MAX
    ensures forall node | Holds(b, node) && |node.keys| == count :: r == Some((node.keys, node.values[..count]))
  {
    hide HoldsCell, HoldsHeader, InOrder, HoldsCells;
    var keys, values, end: nat := [], [], |b|;
    for i := 0 to count
      invariant |keys| == |values| == i && end == EndAt(b, count, i) <= |b|
      invariant forall j | 0 <= j < i :: HoldsCell(b, count, j, EndAt(b, count, j), keys[j], values[j]) && values[j] <= U64_MAX
      invariant forall node | Holds(b, node) && |node.keys| == count :: keys == node.keys[..i] && values == node.values[..i]
    {
      var cell := GetCell(b, count, i, end);
      forall node | Holds(b, node) && |node.keys| == count
        ensures cell == Some((node.keys[i], node.values[i]))
      {
        HeldCell(b, node, i);
      }
      if cell.None? {
        return None;
      }
      end := U16(b, HEADER + i * SLOT);
      keys, values := keys + [cell.value.0], values + [cell.value.1];
      forall node | Holds(b, node) && |node.keys| == count
        ensures keys == node.keys[..i + 1] && values == node.values[..i + 1]
      {
        HeldCell(b, node, i);
      }
    }
    assert forall node | Holds(b, node) && |node.keys| == count :: node.keys[..count] == node.keys;
    return Some((keys, values));
  }

  /** `windows(2).any(pair[0] > pair[1])`. */
  method Unsorted(keys: seq<Bytes>) returns (r: bool)
    ensures r <==> !InOrder(keys)
  {
    var i: nat := 1;
    while i < |keys|
      invariant 1 <= i
      invariant forall j, k | 0 <= j < k < i && k < |keys| && k == j + 1 :: !LexLess(keys[k], keys[j])
    {
      if LexLess(keys[i], keys[i - 1]) {
        return true;
      }
      i := i + 1;
    }
    return false;
  }

  /** `get_node` returns the node that the page holds, and refuses every page that holds none. */
  method GetNode(b: Bytes) returns (r: Option<Node>)
    ensures r.Some? ==> Holds(b, r.value)
    ensures forall node | Holds(b, node) :: r == Some(node)
  {
    if |b| < HEADER {
      return None;
    }
    var kind, count := b[0], U16(b, 1);
    if (kind != LEAF && kind != INTERNAL) || HEADER + count * SLOT > |b| {
      return None;
    }
    var trailer := U64(b, 3);
    U64Bound(b, 3);
    var cells := GetCells(b, count);
    if cells.None? {
      return None;
    }
    var (keys, values) := cells.value;
    var bad := Unsorted(keys);
    if bad {
      return None;
    }
    if kind == INTERNAL {
      values := values + [trailer];
      if 0 in values {
        return None;
      }
      r := Some(Node(kind, 0, keys, values));
    } else {
      r := Some(Node(kind, trailer, keys, values));
    }
    forall node | Holds(b, node)
      ensures r == Some(node)
    {
      assert kind == LEAF ==> node.values[..count] == node.values;
      assert kind == INTERNAL ==> node.values == node.values[..count] + [node.values[count]];
    }
  }

  /** Storing a node and loading it gives the node again. */
  method StoreAndLoad(p: array<byte>, node: Node) returns (r: Option<Node>)
    requires |node.keys| <= |node.values| && p.Length <= MAX_PAGE
    modifies p
    ensures WellFormed(node) && |node.keys| <= 65535 && NodeBytes(node.keys) <= p.Length ==> r == Some(node)
  {
    var ok := PutNode(p, node);
    r := GetNode(p[..]);
  }
}
