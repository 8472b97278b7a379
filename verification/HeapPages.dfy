/** Heap pages on their bytes (heap.rs) as the lists of slots that the table works with:
    compaction and insertion on bytes are the insertion of a row into a page that has room. */
module HeapPages {
  import opened Basics
  import opened Rows
  import opened HeapCells
  import opened HeapTable
  import opened SlottedPage
  import NodeLayout

  function Encoded(slot: Option<Row>, encode: Row -> Bytes): Option<Bytes> {
    if slot.None? then None else Some(encode(slot.value))
  }

  /** The bytes hold these slots. */
  ghost predicate Holds(b: Bytes, slots: Slots, encode: Row -> Bytes) {
    PageOk(b) && |slots| == Count(b) && forall i | 0 <= i < |slots| :: Tuples(b)[i] == Encoded(slots[i], encode)
  }

  function SizeOf(encode: Row -> Bytes): Row -> nat {
    (row: Row) => |encode(row)|
  }

  /** The bytes of the live tuples are the sizes of the live rows. */
  lemma {:induction false} LiveSizes(b: Bytes, slots: Slots, encode: Row -> Bytes, k: nat)
    requires Holds(b, slots, encode) && k <= |slots|
    ensures LiveBytes(b, k) == LiveSize(slots[..k], SizeOf(encode))
    decreases k
  {
    if k > 0 {
      LiveSizes(b, slots, encode, k - 1);
      Longer(slots, k - 1);
      assert Tuples(b)[k - 1] == Tuple(b, k - 1);
      assert Tuple(b, k - 1) == Encoded(slots[k - 1], encode);
    }
  }

  /** The room on a compacted page is what the table computes from the slots. */
  lemma RoomAgrees(b: Bytes, slots: Slots, encode: Row -> Bytes, row: Row)
    requires Holds(b, slots, encode) && Dead(b) == 0
    ensures SlotAt(Count(b) + 1) + |encode(row)| > End(b, Count(b)) <==> !HeapTable.Fits(slots, row, |b|, SizeOf(encode))
  {
    CompactedFits(b, encode(row));
    LiveSizes(b, slots, encode, |slots|);
    assert slots[..|slots|] == slots;
  }

  /** The page half of `insert_returning_position`: compact, then insert. */
  method PlaceOnPage(p: array<byte>, tuple: Bytes, ghost slots: Slots, ghost encode: Row -> Bytes, ghost row: Row) returns (slot: Option<nat>)
    requires Holds(p[..], slots, encode) && tuple == encode(row) && tuple != []
    modifies p
    ensures slot.Some? <==> HeapTable.Fits(slots, row, p.Length, SizeOf(encode))
    ensures slot.None? ==> Holds(p[..], slots, encode)
    ensures slot.Some? ==> slot.value == |slots| && Holds(p[..], slots + [Some(row)], encode)
  {
    hide PageOk, Tuples, Dead, HeapTable.Fits;
    var reclaimed := CompactPage(p);
    RoomAgrees(p[..], slots, encode, row);
    slot := InsertTuple(p, tuple);
  }

  /** The page half of `delete_at`: clear the slot, and compact if a quarter of the page is
      dead. */
  method DeleteOnPage(p: array<byte>, slot: nat, ghost slots: Slots, ghost encode: Row -> Bytes) returns (ok: bool)
    requires Holds(p[..], slots, encode)
    modifies p
    ensures ok <==> slot < |slots| && slots[slot].Some?
    ensures Holds(p[..], if ok then slots[slot := None] else slots, encode)
  {
    hide PageOk, Tuples, Dead;
    ok := DeleteTuple(p, slot);
    if ok {
      var dead := DeadBytes(p);
      if dead * 4 >= p.Length {
        var reclaimed := CompactPage(p);
      }
    }
  }

  /** `compact_pages`: every page keeps its slots and loses its dead bytes. */
  method CompactPages(pages: seq<array<byte>>, ghost slots: seq<Slots>, ghost encode: Row -> Bytes) returns (reclaimed: nat)
    requires |slots| == |pages| && Apart(pages)
    requires forall i | 0 <= i < |pages| :: Holds(pages[i][..], slots[i], encode)
    modifies set i | 0 <= i < |pages| :: pages[i]
    ensures forall i | 0 <= i < |pages| :: Holds(pages[i][..], slots[i], encode) && Dead(pages[i][..]) == 0
    ensures reclaimed == DeadAll(old(Images(pages)))
  {
    hide Dead, PageOk, Tuples;
    reclaimed := 0;
    var n: nat := 0;
    ghost var images := Images(pages);
    while n < |pages|
      invariant n <= |pages|
      invariant forall i | 0 <= i < |pages| :: Holds(pages[i][..], slots[i], encode)
      invariant forall i | 0 <= i < n :: Dead(pages[i][..]) == 0
      invariant forall i | n <= i < |pages| :: pages[i][..] == images[i]
      invariant reclaimed == DeadAll(images[..n])
    {
      Longer(images, n);
      var dead := DeadBytes(pages[n]);
      if dead != 0 {
        var more := CompactPage(pages[n]);
        reclaimed := reclaimed + more;
        assert forall i | 0 <= i < |pages| && i != n :: pages[i] != pages[n];
      }
      n := n + 1;
    }
    assert images[..n] == images;
  }

  ghost function Images(pages: seq<array<byte>>): (images: seq<Bytes>)
    reads set i | 0 <= i < |pages| :: pages[i]
    ensures |images| == |pages| && forall i | 0 <= i < |pages| :: images[i] == pages[i][..]
  {
    seq(|pages|, i requires 0 <= i < |pages| reads set k | 0 <= k < |pages| :: pages[k] => pages[i][..])
  }

  /** The dead bytes of all pages. */
  ghost function DeadAll(images: seq<Bytes>): nat {
    if images == [] then 0
    else
      var last := images[|images| - 1];
      DeadAll(images[..|images| - 1]) + if PageOk(last) then Dead(last) else 0
  }

  /** No page twice. */
  predicate Apart(pages: seq<array<byte>>) {
    forall i, j | 0 <= i < j < |pages| :: pages[i] != pages[j]
  }
}
