/** The slotted heap page (heap.rs) on its bytes: a slot directory from the front, tuples from
    the back, deletion by clearing a length, and compaction in place. */
module SlottedPage {
  import opened Basics
  import opened NodeLayout

  const DIRECTORY: nat := 2
  const SLOT_BYTES: nat := 8

  function U32(b: Bytes, off: nat): nat
    requires off + 4 <= |b|
  {
    FromLittleEndian(b[off..off + 4])
  }

  lemma U32Written(b: Bytes, off: nat, v: nat)
    requires off + 4 <= |b| && b[off..off + 4] == LittleEndian(v, 4) && v < 0x1_0000_0000
    ensures U32(b, off) == v
  {
    assert Pow256(4) == 0x1_0000_0000;
    LittleEndianRoundTrip(v, 4);
  }

  function Count(b: Bytes): nat
    requires DIRECTORY <= |b|
  {
    U16(b, 0)
  }

  function SlotAt(i: nat): nat {
    DIRECTORY + i * SLOT_BYTES
  }

  /** The directory lies inside the page. */
  predicate Framed(b: Bytes) {
    DIRECTORY <= |b| <= MAX_PAGE && SlotAt(Count(b)) <= |b|
  }

  function Off(b: Bytes, i: nat): nat
    requires SlotAt(i + 1) <= |b|
  {
    U32(b, SlotAt(i))
  }

  function Len(b: Bytes, i: nat): nat
    requires SlotAt(i + 1) <= |b|
  {
    U32(b, SlotAt(i) + 4)
  }

  /** Where the tuples of the first `k` slots begin: later tuples lie further to the front. */
  function End(b: Bytes, k: nat): nat
    requires SlotAt(k) <= |b|
  {
    if k == 0 then |b| else if Len(b, k - 1) > 0 then Off(b, k - 1) else End(b, k - 1)
  }

  /** The tuple of slot `i` lies between the directory and the tuples before it. */
  predicate SlotOk(b: Bytes, i: nat)
    requires Framed(b) && i < Count(b)
  {
    Len(b, i) > 0 ==> SlotAt(Count(b)) <= Off(b, i) && Off(b, i) + Len(b, i) <= End(b, i)
  }

  predicate PageOk(b: Bytes) {
    Framed(b) && forall i | 0 <= i < Count(b) :: SlotOk(b, i)
  }

  /** `tuple_bytes`: nothing for a deleted slot. */
  function Tuple(b: Bytes, i: nat): (t: Option<Bytes>)
    requires PageOk(b) && i < Count(b)
    ensures t.Some? <==> Len(b, i) > 0
    ensures t.Some? ==> |t.value| == Len(b, i)
  {
    EndHigh(b, i);
    assert SlotOk(b, i);
    if Len(b, i) == 0 then None else Some(b[Off(b, i)..Off(b, i) + Len(b, i)])
  }

  /** The page as a list of slots. */
  function Tuples(b: Bytes): (ts: seq<Option<Bytes>>)
    requires PageOk(b)
    ensures |ts| == Count(b) && forall i | 0 <= i < |ts| :: ts[i] == Tuple(b, i)
  {
    seq(Count(b), i requires 0 <= i < Count(b) => Tuple(b, i))
  }

  lemma {:induction false} EndHigh(b: Bytes, k: nat)
    requires PageOk(b) && k <= Count(b)
    ensures SlotAt(Count(b)) <= End(b, k) <= |b|
    decreases k
  {
    if k > 0 {
      assert SlotOk(b, k - 1);
      EndHigh(b, k - 1);
    }
  }

  /** Later slots begin further to the front. */
  lemma {:induction false} EndFalls(b: Bytes, i: nat, k: nat)
    requires PageOk(b) && i <= k <= Count(b)
    ensures End(b, k) <= End(b, i)
    ensures i < k && Len(b, i) > 0 ==> End(b, k) <= Off(b, i)
    decreases k - i
  {
    if i < k {
      assert SlotOk(b, i);
      EndFalls(b, i + 1, k);
    }
  }

  /** Bytes of the live tuples of the first `k` slots. */
  function LiveBytes(b: Bytes, k: nat): nat
    requires SlotAt(k) <= |b|
  {
    if k == 0 then 0 else LiveBytes(b, k - 1) + Len(b, k - 1)
  }

  /** Live tuples never overlap, so they fit between the first of them and the page end. */
  lemma {:induction false} LiveFits(b: Bytes, k: nat)
    requires PageOk(b) && k <= Count(b)
    ensures LiveBytes(b, k) <= |b| - End(b, k)
  {
    if k > 0 {
      LiveFits(b, k - 1);
      assert SlotOk(b, k - 1);
    }
  }

  lemma {:induction false} LiveGrows(b: Bytes, i: nat, k: nat)
    requires SlotAt(k) <= |b| && i <= k
    ensures LiveBytes(b, i) <= LiveBytes(b, k)
    ensures i < k ==> LiveBytes(b, i + 1) == LiveBytes(b, i) + Len(b, i) <= LiveBytes(b, k)
    decreases k - i
  {
    if i < k {
      LiveGrows(b, i + 1, k);
    }
  }

  /** `free_end`. */
  method FreeEnd(p: array<byte>) returns (r: nat)
    requires PageOk(p[..])
    ensures r == End(p[..], Count(p[..]))
  {
    ghost var b := p[..];
    var n := U16(p[..], 0);
    r := p.Length;
    for i := 0 to n
      invariant r == End(b, i)
    {
      assert SlotOk(b, i);
      var off, len := U32(p[..], SlotAt(i)), U32(p[..], SlotAt(i) + 4);
      if len > 0 && off < r {
        r := off;
      }
    }
  }

  // ---- Writing bytes ----

  function Overwrite(b: Bytes, off: nat, bytes: Bytes): (r: Bytes)
    requires off + |bytes| <= |b|
    ensures |r| == |b| && r[off..off + |bytes|] == bytes
  {
    b[..off] + bytes + b[off + |bytes|..]
  }

  lemma Miss(b: Bytes, off: nat, bytes: Bytes, lo: nat, hi: nat)
    requires off + |bytes| <= |b| && lo <= hi <= |b| && (hi <= off || off + |bytes| <= lo)
    ensures Overwrite(b, off, bytes)[lo..hi] == b[lo..hi]
  {
    var r := Overwrite(b, off, bytes);
    assert forall k | lo <= k < hi :: r[k] == b[k];
    assert r[lo..hi] == b[lo..hi];
  }

  method Overwrites(p: array<byte>, off: nat, bytes: Bytes)
    requires off + |bytes| <= p.Length
    modifies p
    ensures p[..] == Overwrite(old(p[..]), off, bytes)
  {
    CopyInto(p, off, bytes);
    assert forall k | 0 <= k < p.Length :: p[k] == Overwrite(old(p[..]), off, bytes)[k] by {
      assert forall k | 0 <= k < |bytes| :: p[off..off + |bytes|][k] == bytes[k];
    }
  }

  // ---- Slots that did not change ----

  /** Slot `i` reads the same. */
  predicate SameSlot(b: Bytes, b': Bytes, i: nat)
    requires SlotAt(i + 1) <= |b| == |b'|
  {
    b'[SlotAt(i)..SlotAt(i + 1)] == b[SlotAt(i)..SlotAt(i + 1)]
  }

  lemma SameSlotReads(b: Bytes, b': Bytes, i: nat)
    requires SlotAt(i + 1) <= |b| == |b'| && SameSlot(b, b', i)
    ensures Off(b', i) == Off(b, i) && Len(b', i) == Len(b, i)
  {
    var s, s' := b[SlotAt(i)..SlotAt(i + 1)], b'[SlotAt(i)..SlotAt(i + 1)];
    assert b[SlotAt(i)..SlotAt(i) + 4] == s[..4] && b[SlotAt(i) + 4..SlotAt(i) + 8] == s[4..8];
    assert b'[SlotAt(i)..SlotAt(i) + 4] == s'[..4] && b'[SlotAt(i) + 4..SlotAt(i) + 8] == s'[4..8];
  }

  lemma {:induction false} SameEnd(b: Bytes, b': Bytes, k: nat)
    requires SlotAt(k) <= |b| == |b'| && forall i | 0 <= i < k :: SameSlot(b, b', i)
    ensures End(b', k) == End(b, k)
  {
    if k > 0 {
      SameEnd(b, b', k - 1);
      SameSlotReads(b, b', k - 1);
    }
  }

  // ---- Insertion ----

  /** What `insert_tuple` writes: the count, one slot and the tuple before the others. */
  ghost predicate Inserted(b: Bytes, b': Bytes, tuple: Bytes)
    requires PageOk(b)
  {
    var n := Count(b);
    var e := End(b, n);
    && |b'| == |b| && SlotAt(n + 1) + |tuple| <= e <= |b|
    && b'[0..2] == LittleEndian(n + 1, 2)
    && b'[SlotAt(n)..SlotAt(n) + 4] == LittleEndian(e - |tuple|, 4)
    && b'[SlotAt(n) + 4..SlotAt(n) + 8] == LittleEndian(|tuple|, 4)
    && b'[e - |tuple|..e] == tuple
    && b'[2..SlotAt(n)] == b[2..SlotAt(n)]
    && b'[e..] == b[e..]
  }

  lemma InsertedReads(b: Bytes, b': Bytes, tuple: Bytes)
    requires PageOk(b) && Inserted(b, b', tuple)
    ensures var n := Count(b);
      && Framed(b') && Count(b') == n + 1 && Off(b', n) == End(b, n) - |tuple| && Len(b', n) == |tuple|
      && (forall i | 0 <= i < n :: SameSlot(b, b', i))
      && End(b', n) == End(b, n)
  {
    var n := Count(b);
    U16Written(b', 0, n + 1);
    U32Written(b', SlotAt(n), End(b, n) - |tuple|);
    U32Written(b', SlotAt(n) + 4, |tuple|);
    forall i | 0 <= i < n
      ensures SameSlot(b, b', i)
    {
      SameInside(b, b', n, i);
    }
    SameEnd(b, b', n);
  }

  lemma SameInside(b: Bytes, b': Bytes, n: nat, i: nat)
    requires i < n && SlotAt(n) <= |b| == |b'| && b'[2..SlotAt(n)] == b[2..SlotAt(n)]
    ensures SameSlot(b, b', i)
  {
    var lo, hi := SlotAt(i), SlotAt(i + 1);
    assert hi <= SlotAt(n);
    Slice(b, 2, SlotAt(n), lo, hi);
    Slice(b', 2, SlotAt(n), lo, hi);
  }

  lemma InsertedSlotOk(b: Bytes, b': Bytes, tuple: Bytes, i: nat)
    requires PageOk(b) && Inserted(b, b', tuple) && Framed(b') && i < Count(b') == Count(b) + 1
    ensures SlotOk(b', i)
  {
    InsertedReads(b, b', tuple);
    var n := Count(b);
    if i < n {
      SameSlotReads(b, b', i);
      SameEnd(b, b', i);
      assert SlotOk(b, i);
      EndFalls(b, i, n);
    }
  }

  lemma InsertedTuple(b: Bytes, b': Bytes, tuple: Bytes, i: nat)
    requires PageOk(b) && Inserted(b, b', tuple) && PageOk(b') && i < Count(b') == Count(b) + 1
    ensures Tuple(b', i) == if i < Count(b) then Tuple(b, i) else if tuple == [] then None else Some(tuple)
  {
    InsertedReads(b, b', tuple);
    var n := Count(b);
    if i < n {
      SameSlotReads(b, b', i);
      assert SlotOk(b, i);
      EndFalls(b, i, n);
      EndHigh(b, i);
      if Len(b, i) > 0 {
        SameBehind(b, b', End(b, n), Off(b, i), Len(b, i));
      }
    }
  }

  lemma SameBehind(b: Bytes, b': Bytes, e: nat, off: nat, len: nat)
    requires e <= off && off + len <= |b| == |b'| && b'[e..] == b[e..]
    ensures b'[off..off + len] == b[off..off + len]
  {
    assert b[e..|b|] == b[e..] && b'[e..|b|] == b'[e..];
    Slice(b, e, |b|, off, off + len);
    Slice(b', e, |b|, off, off + len);
  }

  lemma InsertedPage(b: Bytes, b': Bytes, tuple: Bytes)
    requires PageOk(b) && Inserted(b, b', tuple)
    ensures PageOk(b') && Tuples(b') == Tuples(b) + [if tuple == [] then None else Some(tuple)]
  {
    InsertedReads(b, b', tuple);
    forall i | 0 <= i < Count(b')
      ensures SlotOk(b', i)
    {
      InsertedSlotOk(b, b', tuple, i);
    }
    forall i | 0 <= i < Count(b')
      ensures Tuple(b', i) == (Tuples(b) + [if tuple == [] then None else Some(tuple)])[i]
    {
      InsertedTuple(b, b', tuple, i);
    }
  }

  /** `insert_tuple`: a new last slot, refused exactly if slot and tuple do not fit. */
  method InsertTuple(p: array<byte>, tuple: Bytes) returns (slot: Option<nat>)
    requires PageOk(p[..])
    modifies p
    ensures PageOk(p[..])
    ensures slot.None? <==> SlotAt(old(Count(p[..])) + 1) + |tuple| > old(End(p[..], Count(p[..])))
    ensures slot.None? ==> p[..] == old(p[..])
    ensures slot.Some? ==>
      slot.value == old(Count(p[..])) && Tuples(p[..]) == old(Tuples(p[..])) + [if tuple == [] then None else Some(tuple)]
  {
    ghost var b := p[..];
    var n := U16(p[..], 0);
    var end := FreeEnd(p);
    EndHigh(b, n);
    if SlotAt(n) + SLOT_BYTES + |tuple| > end {
      return None;
    }
    WriteTuple(p, n, end, tuple);
    InsertedPage(b, p[..], tuple);
    return Some(n);
  }

  method WriteTuple(p: array<byte>, n: nat, end: nat, tuple: Bytes)
    requires PageOk(p[..]) && n == Count(p[..]) && end == End(p[..], n) && SlotAt(n + 1) + |tuple| <= end <= p.Length
    modifies p
    ensures Inserted(old(p[..]), p[..], tuple)
  {
    hide PageOk, Count, End, Inserted, Overwrite;
    ghost var b := p[..];
    Overwrites(p, end - |tuple|, tuple);
    Overwrites(p, SlotAt(n), LittleEndian(end - |tuple|, 4));
    Overwrites(p, SlotAt(n) + 4, LittleEndian(|tuple|, 4));
    Overwrites(p, 0, LittleEndian(n + 1, 2));
    InsertedWrites(b, n, end, tuple);
  }

  lemma InsertedWrites(b: Bytes, n: nat, end: nat, tuple: Bytes)
    requires PageOk(b) && n == Count(b) && end == End(b, n) && SlotAt(n + 1) + |tuple| <= end <= |b|
    ensures var b1 := Overwrite(b, end - |tuple|, tuple);
      var b2 := Overwrite(b1, SlotAt(n), LittleEndian(end - |tuple|, 4));
      var b3 := Overwrite(b2, SlotAt(n) + 4, LittleEndian(|tuple|, 4));
      Inserted(b, Overwrite(b3, 0, LittleEndian(n + 1, 2)), tuple)
  {
    hide Overwrite, LittleEndian, PageOk;
    var at, off, off4, len4, n2 := SlotAt(n), end - |tuple|, LittleEndian(end - |tuple|, 4), LittleEndian(|tuple|, 4), LittleEndian(n + 1, 2);
    var b1 := Overwrite(b, off, tuple);
    var b2 := Overwrite(b1, at, off4);
    var b3 := Overwrite(b2, at + 4, len4);
    Miss(b3, 0, n2, at, at + 4);
    Miss(b2, at + 4, len4, at, at + 4);
    Miss(b3, 0, n2, at + 4, at + 8);
    Miss(b3, 0, n2, off, end);
    Miss(b2, at + 4, len4, off, end);
    Miss(b1, at, off4, off, end);
    Miss(b3, 0, n2, 2, at);
    Miss(b2, at + 4, len4, 2, at);
    Miss(b1, at, off4, 2, at);
    Miss(b, off, tuple, 2, at);
    Miss(b3, 0, n2, end, |b|);
    Miss(b2, at + 4, len4, end, |b|);
    Miss(b1, at, off4, end, |b|);
    Miss(b, off, tuple, end, |b|);
  }

  // ---- Deletion ----

  /** The page with the length of one slot cleared. */
  function Cleared(b: Bytes, slot: nat): Bytes
    requires SlotAt(slot + 1) <= |b|
  {
    Overwrite(b, SlotAt(slot) + 4, LittleEndian(0, 4))
  }

  lemma ClearedReads(b: Bytes, slot: nat)
    requires PageOk(b) && slot < Count(b)
    ensures var b' := Cleared(b, slot);
      && Framed(b') && Count(b') == Count(b) && Len(b', slot) == 0
      && (forall i | 0 <= i < Count(b) && i != slot :: SameSlot(b, b', i))
      && b'[SlotAt(Count(b))..] == b[SlotAt(Count(b))..]
  {
    var b', at, zero := Cleared(b, slot), SlotAt(slot) + 4, LittleEndian(0, 4);
    Miss(b, at, zero, 0, 2);
    assert U16(b', 0) == U16(b, 0) by {
      assert b'[0] == b'[0..2][0] && b'[1] == b'[0..2][1] && b[0] == b[0..2][0] && b[1] == b[0..2][1];
    }
    U32Written(b', at, 0);
    forall i | 0 <= i < Count(b) && i != slot
      ensures SameSlot(b, b', i)
    {
      Miss(b, at, zero, SlotAt(i), SlotAt(i + 1));
    }
    Miss(b, at, zero, SlotAt(Count(b)), |b|);
  }

  lemma {:induction false} ClearedEnd(b: Bytes, b': Bytes, slot: nat, k: nat)
    requires PageOk(b) && slot < Count(b) && k <= Count(b) && |b'| == |b|
    requires Len(b', slot) == 0 && forall i | 0 <= i < Count(b) && i != slot :: SameSlot(b, b', i)
    ensures End(b, k) <= End(b', k)
    decreases k
  {
    hide U32, SameSlot;
    if k > 0 {
      ClearedEnd(b, b', slot, k - 1);
      if k - 1 == slot {
        EndFalls(b, k - 1, k);
      } else {
        SameSlotReads(b, b', k - 1);
      }
    }
  }

  lemma DeletedPage(b: Bytes, slot: nat)
    requires PageOk(b) && slot < Count(b)
    ensures PageOk(Cleared(b, slot)) && Tuples(Cleared(b, slot)) == Tuples(b)[slot := None]
  {
    var b' := Cleared(b, slot);
    ClearedReads(b, slot);
    forall i | 0 <= i < Count(b')
      ensures SlotOk(b', i)
    {
      if i != slot {
        SameSlotReads(b, b', i);
        ClearedEnd(b, b', slot, i);
        assert SlotOk(b, i);
      }
    }
    forall i | 0 <= i < Count(b')
      ensures Tuple(b', i) == Tuples(b)[slot := None][i]
    {
      if i != slot {
        SameSlotReads(b, b', i);
        assert SlotOk(b, i);
        EndHigh(b, i);
        if Len(b, i) > 0 {
          SameBehind(b, b', SlotAt(Count(b)), Off(b, i), Len(b, i));
        }
      }
    }
  }

  /** `delete_tuple`: clears the length of a live slot. */
  method DeleteTuple(p: array<byte>, slot: nat) returns (ok: bool)
    requires PageOk(p[..])
    modifies p
    ensures PageOk(p[..])
    ensures ok <==> slot < old(Count(p[..])) && old(Tuples(p[..]))[slot].Some?
    ensures !ok ==> p[..] == old(p[..])
    ensures ok ==> Tuples(p[..]) == old(Tuples(p[..]))[slot := None]
  {
    if slot >= U16(p[..], 0) {
      return false;
    }
    if U32(p[..], SlotAt(slot) + 4) == 0 {
      return false;
    }
    DeletedPage(p[..], slot);
    Overwrites(p, SlotAt(slot) + 4, LittleEndian(0, 4));
    return true;
  }

  // ---- Compaction ----

  /** The live tuples of the first `k` slots, in slot order. */
  function LiveList(b: Bytes, k: nat): seq<(nat, Bytes)>
    requires PageOk(b) && k <= Count(b)
  {
    if k == 0 then []
    else LiveList(b, k - 1) + (if Tuple(b, k - 1).Some? then [(k - 1, Tuple(b, k - 1).value)] else [])
  }

  /** The next live slot from `k` on. */
  lemma {:induction false} NextLive(b: Bytes, k: nat) returns (i: nat)
    requires PageOk(b) && k <= Count(b) && |LiveList(b, k)| < |LiveList(b, Count(b))|
    ensures k <= i < Count(b) && Tuple(b, i).Some? && LiveBytes(b, i) == LiveBytes(b, k)
    ensures LiveList(b, Count(b))[|LiveList(b, k)|] == (i, Tuple(b, i).value)
    ensures |LiveList(b, i + 1)| == |LiveList(b, k)| + 1
    ensures forall j | k <= j < i :: Tuple(b, j).None?
    decreases Count(b) - k
  {
    hide SlotOk, U32, U16, Off, Len, Tuple, End;
    if Tuple(b, k).Some? {
      i := k;
      LivePrefix(b, k + 1, Count(b));
    } else {
      i := NextLive(b, k + 1);
    }
  }

  lemma {:induction false} LivePrefix(b: Bytes, k: nat, n: nat)
    requires PageOk(b) && k <= n <= Count(b)
    ensures LiveList(b, k) <= LiveList(b, n)
    decreases n - k
  {
    if k < n {
      LivePrefix(b, k, n - 1);
    }
  }

  /** Slot `i` of `now` has its tuple at the place that compaction gives it. */
  predicate AtPlace(b: Bytes, now: Bytes, i: nat)
    requires PageOk(b) && i < Count(b) && |now| == |b|
  {
    LiveFits(b, i + 1);
    LiveGrows(b, i, i + 1);
    Tuple(b, i).Some? ==>
      var off := |b| - LiveBytes(b, i + 1);
      Off(now, i) == off && now[off..off + Len(b, i)] == Tuple(b, i).value
  }

  /** The first `k` slots are compacted; the lengths are all as before. */
  ghost predicate Moved(b: Bytes, now: Bytes, k: nat)
    requires PageOk(b) && k <= Count(b)
  {
    && |now| == |b| && now[0..2] == b[0..2]
    && (forall i | 0 <= i < Count(b) :: Len(now, i) == Len(b, i))
    && (forall i | 0 <= i < k :: AtPlace(b, now, i))
  }

  lemma SameCount(b: Bytes, now: Bytes)
    requires 2 <= |b| && 2 <= |now| && now[0..2] == b[0..2]
    ensures Count(now) == Count(b)
  {
    assert b[0] == b[0..2][0] && b[1] == b[0..2][1] && now[0] == now[0..2][0] && now[1] == now[0..2][1];
  }

  lemma {:induction false} MovedEnd(b: Bytes, now: Bytes, k: nat)
    requires PageOk(b) && k <= Count(b) && Moved(b, now, Count(b))
    ensures LiveBytes(b, k) <= |b| && End(now, k) == |b| - LiveBytes(b, k) && LiveBytes(now, k) == LiveBytes(b, k)
    decreases k
  {
    LiveFits(b, k);
    EndHigh(b, k);
    if k > 0 {
      MovedEnd(b, now, k - 1);
      assert AtPlace(b, now, k - 1);
    }
  }

  lemma MovedSlot(b: Bytes, now: Bytes, i: nat)
    requires PageOk(b) && i < Count(b) && Moved(b, now, Count(b)) && Framed(now) && Count(now) == Count(b)
    ensures SlotOk(now, i)
  {
    MovedEnd(b, now, i);
    MovedEnd(b, now, Count(b));
    assert AtPlace(b, now, i);
    LiveGrows(b, i, Count(b));
    LiveFits(b, Count(b));
    EndHigh(b, Count(b));
  }

  /** A compacted page holds the same tuples in the same slots, without dead bytes. */
  lemma MovedPage(b: Bytes, now: Bytes)
    requires PageOk(b) && Moved(b, now, Count(b))
    ensures PageOk(now) && Tuples(now) == Tuples(b)
    ensures |now| - End(now, Count(now)) == LiveBytes(now, Count(now)) == LiveBytes(b, Count(b))
  {
    hide SlotOk, U32, U16, AtPlace, Tuple, LiveBytes;
    SameCount(b, now);
    forall i | 0 <= i < Count(b)
      ensures SlotOk(now, i)
    {
      MovedSlot(b, now, i);
    }
    forall i | 0 <= i < Count(b)
      ensures Tuple(now, i) == Tuple(b, i)
    {
      MovedTuple(b, now, i);
    }
    MovedEnd(b, now, Count(b));
  }

  lemma MovedTuple(b: Bytes, now: Bytes, i: nat)
    requires PageOk(b) && PageOk(now) && i < Count(b) == Count(now) && Moved(b, now, Count(b))
    ensures Tuple(now, i) == Tuple(b, i)
  {
    hide SlotOk, U32, U16, LiveBytes;
    assert AtPlace(b, now, i);
  }

  // One round of moving.

  /** The page after slot `i` was given its compacted place. */
  function MoveOne(b: Bytes, now: Bytes, i: nat, off: nat, bytes: Bytes): (r: Bytes)
    requires SlotAt(i + 1) <= |now| && off + |bytes| <= |now|
    ensures |r| == |now|
  {
    Overwrite(Overwrite(now, off, bytes), SlotAt(i), LittleEndian(off, 4))
  }

  lemma MoveReads(b: Bytes, now: Bytes, i: nat, off: nat, bytes: Bytes, j: nat)
    requires PageOk(b) && |now| == |b| && i < Count(b) && j < Count(b)
    requires SlotAt(Count(b)) <= off && off + |bytes| <= |b|
    ensures var r := MoveOne(b, now, i, off, bytes);
      && r[0..2] == now[0..2] && Len(r, j) == Len(now, j)
      && Off(r, j) == (if j == i then off else Off(now, j))
  {
    var mid, at, o4 := Overwrite(now, off, bytes), SlotAt(i), LittleEndian(off, 4);
    Miss(mid, at, o4, 0, 2);
    Miss(now, off, bytes, 0, 2);
    Miss(mid, at, o4, SlotAt(j) + 4, SlotAt(j) + 8);
    Miss(now, off, bytes, SlotAt(j) + 4, SlotAt(j) + 8);
    if j == i {
      U32Written(MoveOne(b, now, i, off, bytes), at, off);
    } else {
      Miss(mid, at, o4, SlotAt(j), SlotAt(j) + 4);
      Miss(now, off, bytes, SlotAt(j), SlotAt(j) + 4);
    }
  }

  lemma MoveBytes(b: Bytes, now: Bytes, i: nat, off: nat, bytes: Bytes, lo: nat, hi: nat)
    requires PageOk(b) && |now| == |b| && i < Count(b) && SlotAt(Count(b)) <= off && off + |bytes| <= |b|
    requires off + |bytes| <= lo <= hi <= |b|
    ensures var r := MoveOne(b, now, i, off, bytes);
      r[lo..hi] == now[lo..hi] && r[off..off + |bytes|] == bytes
  {
    var mid, at, o4 := Overwrite(now, off, bytes), SlotAt(i), LittleEndian(off, 4);
    Miss(mid, at, o4, lo, hi);
    Miss(now, off, bytes, lo, hi);
    Miss(mid, at, o4, off, off + |bytes|);
  }

  lemma RoomToMove(b: Bytes, i: nat)
    requires PageOk(b) && i < Count(b)
    ensures SlotAt(Count(b)) + LiveBytes(b, i + 1) <= |b| && LiveBytes(b, i + 1) == LiveBytes(b, i) + Len(b, i)
  {
    LiveGrows(b, i, Count(b));
    LiveFits(b, Count(b));
    EndHigh(b, Count(b));
  }

  lemma MovedOther(b: Bytes, now: Bytes, i: nat, j: nat)
    requires PageOk(b) && i < Count(b) && |now| == |b| && Tuple(b, i).Some? && j < i && AtPlace(b, now, j)
    requires SlotAt(Count(b)) + LiveBytes(b, i + 1) <= |b| && LiveBytes(b, i + 1) == LiveBytes(b, i) + Len(b, i)
    ensures AtPlace(b, MoveOne(b, now, i, |b| - LiveBytes(b, i + 1), Tuple(b, i).value), j)
  {
    hide SlotOk, U32, U16, MoveOne, PageOk, LiveBytes;
    if Tuple(b, j).Some? {
      var off := |b| - LiveBytes(b, i + 1);
      MoveReads(b, now, i, off, Tuple(b, i).value, j);
      LiveGrows(b, j, i);
      RoomToMove(b, j);
      MoveBytes(b, now, i, off, Tuple(b, i).value, |b| - LiveBytes(b, j + 1), |b| - LiveBytes(b, j));
    }
  }

  lemma MovedThis(b: Bytes, now: Bytes, i: nat)
    requires PageOk(b) && i < Count(b) && |now| == |b| && Tuple(b, i).Some?
    requires SlotAt(Count(b)) + LiveBytes(b, i + 1) <= |b| && LiveBytes(b, i + 1) == LiveBytes(b, i) + Len(b, i)
    ensures AtPlace(b, MoveOne(b, now, i, |b| - LiveBytes(b, i + 1), Tuple(b, i).value), i)
  {
    var off := |b| - LiveBytes(b, i + 1);
    MoveReads(b, now, i, off, Tuple(b, i).value, i);
    MoveBytes(b, now, i, off, Tuple(b, i).value, |b|, |b|);
  }

  /** Moving the next live tuple: the dead slots in between need no place. */
  lemma MoveNext(b: Bytes, now: Bytes, k: nat, i: nat)
    requires PageOk(b) && k <= i < Count(b) && Moved(b, now, k) && Tuple(b, i).Some?
    requires forall j | k <= j < i :: Tuple(b, j).None?
    ensures SlotAt(Count(b)) + LiveBytes(b, i + 1) <= |b| && LiveBytes(b, i + 1) == LiveBytes(b, i) + |Tuple(b, i).value|
    ensures Moved(b, MoveOne(b, now, i, |b| - LiveBytes(b, i + 1), Tuple(b, i).value), i + 1)
  {
    hide AtPlace;
    RoomToMove(b, i);
    var off := |b| - LiveBytes(b, i + 1);
    var r := MoveOne(b, now, i, off, Tuple(b, i).value);
    forall j | 0 <= j < Count(b)
      ensures r[0..2] == now[0..2] && Len(r, j) == Len(b, j)
    {
      MoveReads(b, now, i, off, Tuple(b, i).value, j);
    }
    forall j | 0 <= j < i + 1
      ensures AtPlace(b, r, j)
    {
      if j == i {
        MovedThis(b, now, i);
      } else {
        if j >= k {
          DeadPlaced(b, now, j);
        }
        MovedOther(b, now, i, j);
      }
    }
  }

  lemma DeadPlaced(b: Bytes, now: Bytes, i: nat)
    requires PageOk(b) && i < Count(b) && |now| == |b| && Tuple(b, i).None?
    ensures AtPlace(b, now, i)
  {
  }

  /** While the live tuples are collected, only the offsets of dead slots are cleared. */
  ghost predicate Collecting(b: Bytes, now: Bytes)
    requires PageOk(b)
  {
    && |now| == |b| && now[0..2] == b[0..2] && now[SlotAt(Count(b))..] == b[SlotAt(Count(b))..]
    && (forall i | 0 <= i < Count(b) :: Len(now, i) == Len(b, i))
    && (forall i | 0 <= i < Count(b) && Len(b, i) > 0 :: Off(now, i) == Off(b, i))
  }

  lemma CollectDead(b: Bytes, now: Bytes, i: nat)
    requires PageOk(b) && Collecting(b, now) && i < Count(b) && Len(b, i) == 0
    ensures Collecting(b, Overwrite(now, SlotAt(i), LittleEndian(0, 4)))
  {
    hide SlotOk, U32, U16, Overwrite, Len, Off, LittleEndian;
    var r, zero := Overwrite(now, SlotAt(i), LittleEndian(0, 4)), LittleEndian(0, 4);
    Miss(now, SlotAt(i), zero, 0, 2);
    Miss(now, SlotAt(i), zero, SlotAt(Count(b)), |b|);
    forall j | 0 <= j < Count(b)
      ensures Len(r, j) == Len(now, j) && (j != i ==> Off(r, j) == Off(now, j))
    {
      SlotMiss(now, i, zero, j);
    }
  }

  lemma SlotMiss(now: Bytes, i: nat, four: Bytes, j: nat)
    requires |four| == 4 && SlotAt(i + 1) <= |now| && SlotAt(j + 1) <= |now|
    ensures Len(Overwrite(now, SlotAt(i), four), j) == Len(now, j)
    ensures i != j ==> Off(Overwrite(now, SlotAt(i), four), j) == Off(now, j)
  {
    hide Overwrite;
    var at := SlotAt(i);
    Miss(now, at, four, SlotAt(j) + 4, SlotAt(j) + 8);
    if i != j {
      Miss(now, at, four, SlotAt(j), SlotAt(j) + 4);
    }
  }

  lemma CollectTuple(b: Bytes, now: Bytes, i: nat)
    requires PageOk(b) && Collecting(b, now) && i < Count(b) && Len(b, i) > 0
    ensures Off(now, i) + Len(now, i) <= |now| && Tuple(b, i) == Some(now[Off(now, i)..Off(now, i) + Len(now, i)])
  {
    assert SlotOk(b, i);
    EndHigh(b, i);
    SameBehind(b, now, SlotAt(Count(b)), Off(b, i), Len(b, i));
  }

  /** The first loop of `compact_page`: copies of the live tuples. */
  method CollectLive(p: array<byte>) returns (live: seq<(nat, Bytes)>)
    requires PageOk(p[..])
    modifies p
    ensures Collecting(old(p[..]), p[..])
    ensures live == LiveList(old(p[..]), Count(old(p[..])))
  {
    hide SlotOk, U32, Tuple, Off, Len, PageOk, Collecting;
    ghost var b := p[..];
    CollectStart(b);
    var n := U16(p[..], 0);
    live := [];
    for i := 0 to n
      invariant Collecting(b, p[..]) && live == LiveList(b, i)
    {
      CollectReads(b, p[..], i);
      var off, len := Off(p[..], i), Len(p[..], i);
      if len > 0 {
        CollectTuple(b, p[..], i);
        live := live + [(i, p[off..off + len])];
      } else {
        CollectDead(b, p[..], i);
        Overwrites(p, SlotAt(i), LittleEndian(0, 4));
      }
    }
  }

  lemma CollectStart(b: Bytes)
    requires PageOk(b)
    ensures Framed(b) && Collecting(b, b)
  {
  }

  lemma CollectReads(b: Bytes, now: Bytes, i: nat)
    requires PageOk(b) && Collecting(b, now) && i < Count(b)
    ensures |now| == |b| && SlotAt(i + 1) <= |b| && Len(now, i) == Len(b, i)
    ensures Len(b, i) == 0 <==> Tuple(b, i).None?
  {
  }

  lemma CollectMoved(b: Bytes, now: Bytes)
    requires PageOk(b) && Collecting(b, now)
    ensures Moved(b, now, 0)
  {
  }

  /** The second loop of `compact_page`: the tuples packed against the end of the page. */
  method MoveLive(p: array<byte>, live: seq<(nat, Bytes)>, ghost b: Bytes)
    requires PageOk(b) && Moved(b, p[..], 0) && live == LiveList(b, Count(b))
    modifies p
    ensures Moved(b, p[..], Count(b))
  {
    hide SlotOk, U32, Tuple, Off, Len, PageOk, Moved, LiveList, LiveBytes;
    MoveStart(b, p[..]);
    var end := p.Length;
    var j: nat := 0;
    ghost var k: nat := 0;
    while j < |live|
      invariant j <= |live| && k <= Count(b) && |LiveList(b, k)| == j && Moved(b, p[..], k) && p.Length == |b|
      invariant SlotAt(Count(b)) <= |b|
      invariant end == |b| - LiveBytes(b, k)
    {
      ghost var i := NextLive(b, k);
      MoveNext(b, p[..], k, i);
      var (slot, bytes) := live[j];
      end := end - |bytes|;
      Overwrites(p, end, bytes);
      Overwrites(p, SlotAt(slot), LittleEndian(end, 4));
      k := i + 1;
      j := j + 1;
    }
    MoveRest(b, p[..], k);
  }

  lemma MoveStart(b: Bytes, now: Bytes)
    requires PageOk(b) && Moved(b, now, 0)
    ensures |now| == |b| && SlotAt(Count(b)) <= |b| && LiveList(b, 0) == [] && LiveBytes(b, 0) == 0
  {
  }

  /** Behind the last live slot all are dead. */
  lemma {:induction false} MoveRest(b: Bytes, now: Bytes, k: nat)
    requires PageOk(b) && k <= Count(b) && Moved(b, now, k) && |LiveList(b, k)| == |LiveList(b, Count(b))|
    ensures Moved(b, now, Count(b))
    decreases Count(b) - k
  {
    hide SlotOk, U32, U16, Tuple, Off, Len, LiveBytes, AtPlace;
    if k < Count(b) {
      LivePrefix(b, k + 1, Count(b));
      DeadPlaced(b, now, k);
      MoveRest(b, now, k + 1);
    }
  }

  /** `dead_bytes`. */
  method DeadBytes(p: array<byte>) returns (r: nat)
    requires PageOk(p[..])
    ensures r == Dead(p[..])
  {
    ghost var b := p[..];
    var n := U16(p[..], 0);
    var live := 0;
    for i := 0 to n
      invariant live == LiveBytes(b, i)
    {
      live := live + U32(p[..], SlotAt(i) + 4);
    }
    var end := FreeEnd(p);
    EndHigh(b, n);
    r := SatSub(p.Length - end, live);
  }

  /** The bytes behind the first tuple that belong to no live tuple. */
  function Dead(b: Bytes): nat
    requires PageOk(b)
  {
    EndHigh(b, Count(b));
    SatSub(|b| - End(b, Count(b)), LiveBytes(b, Count(b)))
  }

  /** `compact_page`: the same tuples in the same slots, and no dead byte left. */
  method CompactPage(p: array<byte>) returns (reclaimed: nat)
    requires PageOk(p[..])
    modifies p
    ensures PageOk(p[..]) && Tuples(p[..]) == old(Tuples(p[..]))
    ensures Dead(p[..]) == 0 && reclaimed == old(Dead(p[..]))
  {
    hide SlotOk, U32, U16, Tuple, Collecting, Moved, LiveList;
    ghost var b := p[..];
    reclaimed := DeadBytes(p);
    if reclaimed == 0 {
      return;
    }
    var live := CollectLive(p);
    CollectMoved(b, p[..]);
    MoveLive(p, live, b);
    MovedPage(b, p[..]);
  }

  /** After compaction a tuple fits exactly if the live tuples, their slots, one more slot and
      the tuple are within the page. */
  lemma CompactedFits(b: Bytes, tuple: Bytes)
    requires PageOk(b) && Dead(b) == 0
    ensures SlotAt(Count(b) + 1) + |tuple| > End(b, Count(b)) <==> SlotAt(Count(b) + 1) + LiveBytes(b, Count(b)) + |tuple| > |b|
  {
    LiveFits(b, Count(b));
  }
}
