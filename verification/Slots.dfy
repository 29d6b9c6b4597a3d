/** Packets in the slots of a ring, and what writes to one slot leave alone. */
module Slots {
  import opened ByteOrder
  import opened Memory
  import opened Crc32
  import opened Wire
  import opened Counters
  import opened Region
  import opened Dispatch

  // A message as it travels: its type, its payload, and the checksum stored with it.
  datatype Packed = Packed(t: MsgType, payload: seq<Byte>, crc: bv32) {
    ghost predicate Valid() {
      && |payload| == t.Size()
      && Fits(t)
      && exists computeCrc :: crc == StoredCrc(payload, computeCrc)
    }

    function Image(h: Endian): (r: seq<Byte>)
      ensures |r| == HEADER_SIZE + |payload|
    {
      Packet(h, t, payload, crc)
    }
  }

  ghost predicate Holds(r: Region, h: Endian, mem: seq<Byte>, slot: nat, m: Packed) {
    && m.Valid()
    && HEADER_SIZE + |m.payload| <= r.slotBytes
    && r.Offset(slot) + r.slotBytes <= |mem|
    && mem[r.Offset(slot)..r.Offset(slot) + HEADER_SIZE + |m.payload|] == m.Image(h)
  }

  // The queue lies in the slots from number `taken` on.
  ghost predicate HoldsAll(r: Region, h: Endian, mem: seq<Byte>, taken: nat, queue: seq<Packed>) {
    forall i :: 0 <= i < |queue| ==> Holds(r, h, mem, SlotOf(r.shape, taken + i), queue[i])
  }

  // A slot that prepare<T> has been at, whatever its payload is by now.
  ghost predicate Prepared(r: Region, h: Endian, mem: seq<Byte>, slot: nat, t: MsgType) {
    && r.Offset(slot) + HEADER_SIZE + t.Size() <= |mem|
    && mem[r.Offset(slot)..r.Offset(slot) + HEADER_SIZE] == HeaderBytes(h, Header(MAGIC, t.id, t.version, 0, t.Size()))
  }

  function DraftIn(r: Region, mem: seq<Byte>, slot: nat, t: MsgType): seq<Byte>
    requires r.Offset(slot) + HEADER_SIZE + t.Size() <= |mem|
  {
    mem[r.Offset(slot) + HEADER_SIZE..r.Offset(slot) + HEADER_SIZE + t.Size()]
  }

  // The slot as the pointer and size that the wire functions are given.
  function SlotBuffer(r: Region, mem: seq<Byte>, slot: nat): Buffer
    requires r.Offset(slot) + r.slotBytes <= |mem|
  {
    Buffer.Memory(r.address + r.Offset(slot), mem[r.Offset(slot)..r.Offset(slot) + r.slotBytes])
  }

  lemma SlotInside(r: Region, slot: nat)
    requires r.Valid() && slot < r.shape.Capacity()
    ensures r.Offset(slot) + r.slotBytes <= r.Total() && r.Offset(slot) >= r.base
  {
    hide Pow2;
    SlotsDisjoint(r, slot, slot);
  }

  lemma HoldsElsewhere(r: Region, h: Endian, mem: seq<Byte>, slot: nat, m: Packed, other: nat, at: nat,
                       bytes: seq<Byte>)
    requires r.Valid() && |mem| == r.Total() && slot < r.shape.Capacity() && other < r.shape.Capacity() && slot != other
    requires Holds(r, h, mem, slot, m)
    requires r.Offset(other) <= at && at + |bytes| <= r.Offset(other) + r.slotBytes
    ensures at + |bytes| <= |mem|
    ensures Holds(r, h, Splice(mem, at, bytes), slot, m)
  {
    hide Pow2, Packet, Packed.Valid;
    SlotsDisjoint(r, slot, other);
    SlotsDisjoint(r, other, slot);
    SpliceOutside(mem, at, bytes, r.Offset(slot), r.Offset(slot) + HEADER_SIZE + |m.payload|);
  }

  /** Writing inside the free slot that comes next leaves every queued message alone. */
  lemma QueueElsewhere(r: Region, h: Endian, mem: seq<Byte>, taken: nat, queue: seq<Packed>, at: nat, bytes: seq<Byte>)
    requires r.Valid() && |mem| == r.Total() && |queue| < r.shape.Capacity()
    requires HoldsAll(r, h, mem, taken, queue)
    requires var slot := SlotOf(r.shape, taken + |queue|);
             r.Offset(slot) <= at && at + |bytes| <= r.Offset(slot) + r.slotBytes
    ensures at + |bytes| <= |mem|
    ensures HoldsAll(r, h, Splice(mem, at, bytes), taken, queue)
  {
    hide Pow2, Holds, SlotOf, Splice, Region.Valid;
    var free := SlotOf(r.shape, taken + |queue|);
    SlotInside(r, free);
    forall i | 0 <= i < |queue|
      ensures Holds(r, h, Splice(mem, at, bytes), SlotOf(r.shape, taken + i), queue[i])
    {
      SlotsDiffer(r.shape, taken + i, taken + |queue|);
      HoldsElsewhere(r, h, mem, SlotOf(r.shape, taken + i), queue[i], free, at, bytes);
    }
  }

  lemma PrepareMakesReady(r: Region, h: Endian, mem: seq<Byte>, slot: nat, t: MsgType)
    requires r.Offset(slot) + HEADER_SIZE + t.Size() <= |mem|
    ensures var mem' := Splice(mem, r.Offset(slot), Packet(h, t, t.initial, 0));
            Prepared(r, h, mem', slot, t) && DraftIn(r, mem', slot, t) == t.initial
  {
    hide HeaderBytes, Splice;
    var at, image := r.Offset(slot), Packet(h, t, t.initial, 0);
    var mem' := Splice(mem, at, image);
    SliceOfSlice(mem', at, |image|, 0, HEADER_SIZE);
    SliceOfSlice(mem', at, |image|, HEADER_SIZE, t.Size());
  }

  lemma FillKeepsReady(r: Region, h: Endian, mem: seq<Byte>, slot: nat, t: MsgType, offset: nat, bytes: seq<Byte>)
    requires Prepared(r, h, mem, slot, t) && offset + |bytes| <= t.Size()
    ensures var mem' := Splice(mem, r.Offset(slot) + HEADER_SIZE + offset, bytes);
            && Prepared(r, h, mem', slot, t)
            && DraftIn(r, mem', slot, t) == Splice(DraftIn(r, mem, slot, t), offset, bytes)
  {
    hide HeaderBytes;
  }

  /** Storing the checksum makes a prepared slot hold the message drafted in it. */
  lemma CommitMakesMessage(r: Region, h: Endian, mem: seq<Byte>, slot: nat, t: MsgType, computeCrc: bool)
    requires Prepared(r, h, mem, slot, t) && Fits(t)
    requires HEADER_SIZE + t.Size() <= r.slotBytes && r.Offset(slot) + r.slotBytes <= |mem|
    ensures var payload := DraftIn(r, mem, slot, t);
            Holds(r, h, Splice(mem, r.Offset(slot) + 8, CrcField(h, payload, computeCrc)), slot,
                  Packed(t, payload, StoredCrc(payload, computeCrc)))
  {
    hide CrcField, StoredCrc, HeaderBytes, Splice;
    var at, payload := r.Offset(slot), DraftIn(r, mem, slot, t);
    var image, field := Packet(h, t, payload, 0), CrcField(h, payload, computeCrc);
    assert mem[at..at + |image|] == image;
    SpliceSame(mem, at, |image|);
    SpliceInto(mem, at, image, 8, field);
    StoringCrc(h, t, payload, 0, computeCrc);
    assert Packed(t, payload, StoredCrc(payload, computeCrc)).Valid();
  }

  /** view<T> on a slot gives the payload of the message in it exactly when that message
      has the traits of T; stored checksums are always right. */
  lemma ViewOfSlot(r: Region, h: Endian, mem: seq<Byte>, slot: nat, m: Packed, t: MsgType, verifyCrc: bool)
    requires r.Valid() && r.Suits(t) && Holds(r, h, mem, slot, m)
    ensures View(h, t, SlotBuffer(r, mem, slot), verifyCrc) == if SameTraits(t, m.t) then Some(m.payload) else None
  {
    hide View, Validate, Packet, Checksum, Pow2, Region.Valid, StoredCrc;
    SlotIsPacket(r, h, mem, slot, m);
    CrcIsRight(m);
    PayloadAligned(r, t, slot);
    var at := r.Offset(slot);
    var slack := mem[at + |m.Image(h)|..at + r.slotBytes];
    ValidateAcceptsExactly(h, m.t, t, m.payload, m.crc, slack, r.address + at, verifyCrc);
  }

  lemma CrcIsRight(m: Packed)
    requires m.Valid()
    ensures m.crc != 0 ==> Checksum(m.payload) == m.crc
  {
    hide Checksum;
  }

  lemma SlotIsPacket(r: Region, h: Endian, mem: seq<Byte>, slot: nat, m: Packed)
    requires Holds(r, h, mem, slot, m)
    ensures var at := r.Offset(slot);
            mem[at..at + r.slotBytes] == Packet(h, m.t, m.payload, m.crc) + mem[at + |m.Image(h)|..at + r.slotBytes]
  {
    hide Packet;
  }

  // What peek_packet shows of a message in a slot.
  function Shown(r: Region, slot: nat, m: Packed): PacketView {
    PacketView(Header(MAGIC, m.t.id, m.t.version, m.crc, m.t.Size()),
               Some(r.address + r.Offset(slot) + HEADER_SIZE), m.t.Size())
  }

  lemma ShownIs(r: Region, h: Endian, mem: seq<Byte>, slot: nat, m: Packed)
    requires Holds(r, h, mem, slot, m)
    ensures var view := Shown(r, slot, m);
            && view.IsValid() && view.header.msgId == m.t.id && view.header.version == m.t.version
            && view.header.crc == m.crc && view.header.payloadLen == view.payloadLen == |m.payload|
  {
    hide Checksum, Packet;
  }

  lemma InspectionOfSlot(r: Region, h: Endian, mem: seq<Byte>, slot: nat, m: Packed)
    requires Holds(r, h, mem, slot, m)
    ensures InspectError(h, SlotBuffer(r, mem, slot)) == Ok
    ensures Inspected(h, SlotBuffer(r, mem, slot)) == Shown(r, slot, m)
    ensures DraftIn(r, mem, slot, m.t) == m.payload
  {
    hide Packet, InspectError, Inspected, StoredCrc;
    SlotIsPacket(r, h, mem, slot, m);
    var at := r.Offset(slot);
    InspectedPacket(h, m.t, m.payload, m.crc, mem[at + |m.Image(h)|..at + r.slotBytes], r.address + at);
    PayloadBehindHeader(h, m);
    SliceOfSlice(mem, at, |m.Image(h)|, HEADER_SIZE, m.t.Size());
  }

  lemma PayloadBehindHeader(h: Endian, m: Packed)
    ensures m.Image(h)[HEADER_SIZE..] == m.payload
  {
    hide HeaderBytes;
  }
}
