/** The ring classes, used by one thread at a time: SpscRingBuffer and IpcRingBuffer, which
    carry one message type, and IpcEnvelopeRingBuffer, which carries any that fit. They
    share their code but for size() and for what commit_write reads. */
module Rings {
  import opened ByteOrder
  import opened Memory
  import opened Crc32
  import opened Wire
  import opened Counters
  import opened Region
  import opened Dispatch
  import opened Slots
  import opened Bus

  datatype Kind = Spsc | Ipc | Envelope

  const NO_PACKET := PacketView(Header(0, 0, 0, 0, 0), None, 0)

  class Ring {
    const kind: Kind
    const host: Endian
    const region: Region
    const table: seq<bv32>
    const memory: array<Byte>
    var head: nat
    var tail: nat
    // The messages in the ring, and how many were taken out of it before.
    ghost var queue: seq<Packed>
    ghost var taken: nat

    ghost predicate Valid()
      reads this, memory
    {
      && region.Valid()
      && IsTable(table)
      && memory.Length == region.Total()
      && |queue| <= region.shape.Capacity()
      && head == WordOf(region.shape, taken + |queue|)
      && tail == WordOf(region.shape, taken)
      && HoldsAll(region, host, memory[..], taken, queue)
    }

    // The slot of the next message.
    ghost function NextSlot(): nat
      reads this
    {
      SlotOf(region.shape, taken + |queue|)
    }

    // prepare_write<T> has answered with a slot, and it has not been committed yet.
    ghost predicate Ready(t: MsgType)
      reads this, memory
    {
      && |queue| < region.shape.Capacity()
      && region.Suits(t)
      && Prepared(region, host, memory[..], NextSlot(), t)
    }

    // What has been written to the payload of that slot.
    ghost function Draft(t: MsgType): seq<Byte>
      requires Ready(t)
      reads this, memory
    {
      DraftIn(region, memory[..], NextSlot(), t)
    }

    // Between then and now, only the slot of the next message has been written to.
    ghost predicate OnlyNextSlot(before: seq<Byte>, slot: nat)
      reads memory
    {
      SameOutside(before, memory[..], region.Offset(slot), region.Offset(slot) + region.slotBytes)
    }

    constructor (kind: Kind, host: Endian, region: Region, table: seq<bv32>, memory: array<Byte>)
      requires region.Valid() && IsTable(table) && memory.Length == region.Total()
      ensures Valid() && queue == []
      ensures this.kind == kind && this.host == host && this.region == region && this.memory == memory
    {
      this.kind := kind;
      this.host := host;
      this.region := region;
      this.table := table;
      this.memory := memory;
      head := 0;
      tail := 0;
      queue := [];
      taken := 0;
      RemainderIs(0, region.shape.Words(), 0, 0);
    }

    // What the words decide is what the queue says.
    lemma Decisions()
      requires Valid()
      ensures Minus(region.shape, head, tail) == |queue|
      ensures head == tail <==> queue == []
      ensures MaskedIndex(region.shape, head) == NextSlot()
      ensures MaskedIndex(region.shape, tail) == SlotOf(region.shape, taken)
      ensures Plus1(region.shape, head) == WordOf(region.shape, taken + |queue| + 1)
      ensures Plus1(region.shape, tail) == WordOf(region.shape, taken + 1)
      ensures region.Offset(NextSlot()) + region.slotBytes <= memory.Length
      ensures region.Offset(SlotOf(region.shape, taken)) + region.slotBytes <= memory.Length
    {
      hide Pow2, HoldsAll, IsTable;
      WordsDecideAlike(region.shape, taken + |queue|, taken);
      NextWord(region.shape, taken);
      SlotInside(region, NextSlot());
      SlotInside(region, SlotOf(region.shape, taken));
    }

    method Size() returns (size: nat)
      requires Valid()
      ensures size == |queue| <==> head >= tail
      ensures head < tail ==>
                size == if kind == Spsc then (region.shape.Capacity() + |queue|) % region.shape.Words() else 0
    {
      hide HoldsAll, IsTable, Pow2, SpscSize;
      Decisions();
      SizeExactly(region.shape, taken + |queue|, taken);
      size := if kind == Spsc then SpscSize(region.shape, head, tail) else IpcSize(head, tail);
    }

    method Empty() returns (empty: bool)
      requires Valid()
      ensures empty <==> queue == []
    {
      Decisions();
      empty := head == tail;
    }

    method Full() returns (full: bool)
      requires Valid()
      ensures full <==> |queue| == region.shape.Capacity()
    {
      Decisions();
      full := Minus(region.shape, head, tail) >= region.shape.Capacity();
    }

    /** prepare_write<T>: the place of the payload, or None when the ring is full. */
    method PrepareWrite(t: MsgType) returns (payload: Option<nat>)
      requires Valid() && region.Suits(t)
      modifies memory
      ensures Valid()
      ensures payload == if |queue| == region.shape.Capacity() then None
                         else Some(region.Offset(NextSlot()) + HEADER_SIZE)
      ensures payload.None? ==> memory[..] == old(memory[..])
      ensures payload.Some? ==> Ready(t) && Draft(t) == t.initial
      ensures OnlyNextSlot(old(memory[..]), NextSlot())
    {
      hide Pow2, IsTable, HoldsAll, Packet, Prepared, SlotOf, WordOf, Minus, MaskedIndex, Region.Valid,
        Region.Offset, DraftIn;
      Decisions();
      payload := None;
      if Minus(region.shape, head, tail) >= region.shape.Capacity() {
        return;
      }
      var at := region.Offset(MaskedIndex(region.shape, head));
      PayloadAligned(region, t, NextSlot());
      var error := Prepare(host, t, memory, at, region.slotBytes, region.address + at);
      QueueElsewhere(region, host, old(memory[..]), taken, queue, at, Packet(host, t, t.initial, 0));
      PrepareMakesReady(region, host, old(memory[..]), NextSlot(), t);
      SpliceStaysInside(old(memory[..]), at, Packet(host, t, t.initial, 0), at, at + region.slotBytes);
      if error == Ok {
        payload := Some(at + HEADER_SIZE);
      }
    }

    /** The caller writes through the pointer that prepare_write has given it. */
    method Fill(ghost t: MsgType, payload: nat, offset: nat, bytes: seq<Byte>)
      requires Valid() && Ready(t) && payload == region.Offset(NextSlot()) + HEADER_SIZE
      requires offset + |bytes| <= t.Size()
      modifies memory
      ensures Valid() && Ready(t)
      ensures Draft(t) == Splice(old(Draft(t)), offset, bytes)
      ensures OnlyNextSlot(old(memory[..]), NextSlot())
    {
      hide Pow2, IsTable, HoldsAll, Prepared, SlotOf, WordOf, Region.Valid, Region.Offset, Splice;
      Decisions();
      Write(memory, payload + offset, bytes);
      QueueElsewhere(region, host, old(memory[..]), taken, queue, payload + offset, bytes);
      FillKeepsReady(region, host, old(memory[..]), NextSlot(), t, offset, bytes);
      ghost var at := payload - HEADER_SIZE;
      SpliceStaysInside(old(memory[..]), payload + offset, bytes, at, at + region.slotBytes);
    }

    /** commit_write: the message prepared and filled in becomes the youngest of the queue,
        with its checksum or with 0 for "unchecked". */
    method CommitWrite(t: MsgType, computeCrc: bool)
      requires Valid() && Ready(t)
      modifies this`head, this`queue, memory
      ensures Valid()
      ensures queue == old(queue) + [Packed(t, old(Draft(t)), StoredCrc(old(Draft(t)), computeCrc))]
      ensures queue[|old(queue)|].crc == if computeCrc then Checksum(old(Draft(t))) else 0
      ensures OnlyNextSlot(old(memory[..]), old(NextSlot()))
    {
      hide Pow2, IsTable, HoldsAll, Prepared, SlotOf, WordOf, Minus, Plus1, MaskedIndex, Region.Valid, Region.Offset,
        Splice, CrcField, DraftIn, Holds, Checksum;
      Decisions();
      ghost var mem, slot, payload := memory[..], NextSlot(), Draft(t);
      var at := region.Offset(MaskedIndex(region.shape, head));
      StoreCrc(t, at, computeCrc);
      QueueElsewhere(region, host, mem, taken, queue, at + 8, CrcField(host, payload, computeCrc));
      CommitMakesMessage(region, host, mem, slot, t, computeCrc);
      SpliceStaysInside(mem, at + 8, CrcField(host, payload, computeCrc), at, at + region.slotBytes);
      HoldsOneMore(region, host, memory[..], taken, queue, Packed(t, payload, StoredCrc(payload, computeCrc)));
      head := Plus1(region.shape, head);
      queue := queue + [Packed(t, payload, StoredCrc(payload, computeCrc))];
    }

    // The typed rings call finalize<T>; the other one goes by the length in the header.
    method StoreCrc(t: MsgType, at: nat, computeCrc: bool)
      requires Valid() && Ready(t) && at == region.Offset(NextSlot()) && at + region.slotBytes <= memory.Length
      modifies memory
      ensures memory[..] == Splice(old(memory[..]), at + 8, CrcField(host, old(Draft(t)), computeCrc))
      ensures SameOutside(old(memory[..]), memory[..], at + 8, at + 12)
      ensures Load32(host, memory[at + 8..at + 12]) == if computeCrc then Checksum(old(Draft(t))) else 0
    {
      hide Pow2, IsTable, HoldsAll, SlotOf, WordOf, Region.Valid, Region.Offset, Splice, CrcField, HeaderBytes,
        Checksum, Prepared, Load32;
      if kind == Envelope {
        StoreCrcByLength(t, at, computeCrc);
      } else {
        var _ := Finalize(host, table, t, memory, at + HEADER_SIZE, computeCrc);
      }
    }

    method StoreCrcByLength(ghost t: MsgType, at: nat, computeCrc: bool)
      requires Valid() && Ready(t) && at == region.Offset(NextSlot()) && at + region.slotBytes <= memory.Length
      modifies memory
      ensures memory[..] == Splice(old(memory[..]), at + 8, CrcField(host, old(Draft(t)), computeCrc))
      ensures SameOutside(old(memory[..]), memory[..], at + 8, at + 12)
      ensures Load32(host, memory[at + 8..at + 12]) == if computeCrc then Checksum(old(Draft(t))) else 0
    {
      hide Pow2, IsTable, HoldsAll, SlotOf, WordOf, Region.Valid, Region.Offset, Splice, CrcField, HeaderBytes,
        Checksum, Prepared, LoadLength, Load32;
      PreparedLength(region, host, memory[..], NextSlot(), t);
      assert memory[at + 12..at + 16] == memory[..][at + 12..at + 16];
      var length := LoadLength(host, memory[at + 12..at + 16]);
      ghost var payload := DraftIn(region, memory[..], NextSlot(), t);
      assert memory[at + HEADER_SIZE..at + HEADER_SIZE + t.Size()] == payload;
      ChecksumOfNothing(host, payload, computeCrc);
      var field := ComputeCrcField(host, table, memory, at + HEADER_SIZE, length, computeCrc && length > 0);
      FieldIsRead(host, memory[..], at + 8, payload, computeCrc);
      Write(memory, at + 8, field);
    }

    /** push: the value is queued unless the ring is full. */
    method Push(t: MsgType, value: seq<Byte>, computeCrc: bool) returns (ok: bool)
      requires Valid() && region.Suits(t) && |value| == t.Size()
      modifies this`head, this`queue, memory
      ensures Valid()
      ensures ok <==> old(|queue|) < region.shape.Capacity()
      ensures queue == PushCall(region.shape.Capacity(), old(queue), Packed(t, value, StoredCrc(value, computeCrc)))
      ensures queue == if ok then old(queue) + [Packed(t, value, if computeCrc then Checksum(value) else 0)]
                       else old(queue)
      ensures OnlyNextSlot(old(memory[..]), old(NextSlot()))
    {
      hide Pow2, IsTable, HoldsAll, Prepared, SlotOf, WordOf, Region.Valid, Region.Offset, Region.Suits, StoredCrc,
        DraftIn;
      var payload := PrepareWrite(t);
      if payload.None? {
        return false;
      }
      ghost var slot, before, prepared := NextSlot(), old(memory[..]), memory[..];
      Fill(t, payload.value, 0, value);
      assert Draft(t) == value;
      ghost var filled := memory[..];
      CommitWrite(t, computeCrc);
      OnlyOneSlot(before, prepared, filled, memory[..], region, slot);
      return true;
    }

    /** peek_read<T> and peek_msg<T>: the place of the payload of the oldest message, if
        there is one and it has the traits of T. Its bytes are exactly those committed. */
    method Peek(t: MsgType, verifyCrc: bool) returns (payload: Option<nat>)
      requires Valid() && region.Suits(t)
      ensures payload.Some? <==> queue != [] && SameTraits(t, queue[0].t)
      ensures payload.Some? ==> payload.value + t.Size() <= memory.Length
                                && memory[payload.value..payload.value + t.Size()] == queue[0].payload
    {
      hide Pow2, IsTable, HoldsAll, Holds, SlotOf, WordOf, MaskedIndex, Region.Valid, Region.Offset, Region.Suits,
        Validate;
      Decisions();
      if tail == head {
        return None;
      }
      var at := region.Offset(MaskedIndex(region.shape, tail));
      Oldest(region, host, memory[..], taken, queue);
      PayloadOfSlot(region, host, memory[..], SlotOf(region.shape, taken), queue[0]);
      ViewOfSlot(region, host, memory[..], SlotOf(region.shape, taken), queue[0], t, verifyCrc);
      assert memory[at..at + region.slotBytes] == memory[..][at..at + region.slotBytes];
      var error := Validate(host, t, Buffer.Memory(region.address + at, memory[at..at + region.slotBytes]), verifyCrc);
      return if error == Ok then Some(at + HEADER_SIZE) else None;
    }

    /** peek_packet: the header of the oldest message and exactly its payload, never bytes
        that a longer message left in the slot; an empty view when the ring is empty. */
    method PeekPacket(verifyCrc: bool) returns (view: PacketView)
      requires Valid()
      ensures queue == [] ==> view == NO_PACKET
      ensures queue != [] ==>
                && view == Shown(region, SlotOf(region.shape, taken), queue[0])
                && view.IsValid() && view.header.msgId == queue[0].t.id && view.header.version == queue[0].t.version
                && view.header.crc == queue[0].crc && view.header.payloadLen == view.payloadLen == |queue[0].payload|
                && var at := region.Offset(SlotOf(region.shape, taken)) + HEADER_SIZE;
                   at + view.payloadLen <= memory.Length && memory[at..at + view.payloadLen] == queue[0].payload
    {
      hide Pow2, IsTable, HoldsAll, Holds, SlotOf, WordOf, MaskedIndex, Region.Valid, Region.Offset, InspectError,
        Inspected, Checksum, Shown, Packed.Valid, Load32, Load16, LoadLength;
      Decisions();
      if tail == head {
        return NO_PACKET;
      }
      var at := region.Offset(MaskedIndex(region.shape, tail));
      Oldest(region, host, memory[..], taken, queue);
      PayloadOfSlot(region, host, memory[..], SlotOf(region.shape, taken), queue[0]);
      InspectionOfSlot(region, host, memory[..], SlotOf(region.shape, taken), queue[0]);
      ShownIs(region, host, memory[..], SlotOf(region.shape, taken), queue[0]);
      assert memory[at..at + region.slotBytes] == memory[..][at..at + region.slotBytes];
      var slot := Buffer.Memory(region.address + at, memory[at..at + region.slotBytes]);
      var error, inspected := InspectPacket(host, slot, NO_PACKET);
      if error != Ok {
        return NO_PACKET;
      }
      if verifyCrc && inspected.header.crc != 0 {
        var crc := ComputeDefault(table, memory, at + HEADER_SIZE, inspected.payloadLen);
        if crc != inspected.header.crc {
          return NO_PACKET;
        }
      }
      return inspected;
    }

    // commit_read, which must find a message to take.
    method CommitRead()
      requires Valid() && queue != []
      modifies this`tail, this`queue, this`taken
      ensures Valid()
      ensures queue == old(queue)[1..]
    {
      hide Pow2, IsTable, HoldsAll, SlotOf, WordOf, Plus1, Region.Valid, Region.Offset;
      Decisions();
      TheRestIsHeld(region, host, memory[..], taken, queue);
      tail := Plus1(region.shape, tail);
      queue, taken := queue[1..], taken + 1;
    }

    /** pop, and consume with the visitor handed the result: the oldest message is taken
        out and handed over, unless it is of another type. */
    method Pop(t: MsgType, verifyCrc: bool) returns (value: Option<seq<Byte>>)
      requires Valid() && region.Suits(t)
      modifies this`tail, this`queue, this`taken
      ensures Valid()
      ensures value == if old(queue) != [] && SameTraits(t, old(queue)[0].t) then Some(old(queue)[0].payload) else None
      ensures queue == if value.Some? then old(queue)[1..] else old(queue)
    {
      hide Pow2, IsTable, HoldsAll, SlotOf, WordOf, Region.Valid, Region.Offset, Region.Suits;
      var payload := Peek(t, verifyCrc);
      if payload.None? {
        return None;
      }
      value := Some(memory[payload.value..payload.value + t.Size()]);
      CommitRead();
    }

    /** dispatch on the oldest message. */
    method DispatchOldest(types: seq<MsgType>, verifyCrc: bool) returns (handled: bool, visits: seq<Visit>)
      requires Valid() && forall t :: t in types ==> region.Suits(t)
      ensures handled <==> visits != []
      ensures visits == DispatchCall(queue, types).1
      ensures handled <==> queue != [] && exists t :: t in types && SameTraits(t, queue[0].t)
      ensures handled ==> && |visits| == 1 && visits[0].t in types
                          && SameTraits(visits[0].t, queue[0].t) && visits[0].payload == queue[0].payload
    {
      hide Pow2, IsTable, HoldsAll, Holds, SlotOf, WordOf, MaskedIndex, Region.Valid, Region.Offset, Region.Suits,
        DispatchBuffer;
      Decisions();
      if tail == head {
        return false, [];
      }
      var at := region.Offset(MaskedIndex(region.shape, tail));
      Oldest(region, host, memory[..], taken, queue);
      DispatchOfSlot(region, host, memory[..], SlotOf(region.shape, taken), queue[0], types, verifyCrc);
      assert memory[at..at + region.slotBytes] == memory[..][at..at + region.slotBytes];
      var slot := Buffer.Memory(region.address + at, memory[at..at + region.slotBytes]);
      var result := DispatchBuffer(host, types, slot, verifyCrc);
      return result.0, result.1;
    }

    /** dispatch_and_commit: the oldest message is visited and taken out together, or,
        when its type is not listed, neither. */
    method DispatchAndCommit(types: seq<MsgType>, verifyCrc: bool) returns (handled: bool, visits: seq<Visit>)
      requires Valid() && forall t :: t in types ==> region.Suits(t)
      modifies this`tail, this`queue, this`taken
      ensures Valid()
      ensures (queue, visits) == DispatchCall(old(queue), types)
      ensures handled <==> visits != []
      ensures handled <==> old(queue) != [] && exists t :: t in types && SameTraits(t, old(queue)[0].t)
      ensures handled ==> && |visits| == 1 && visits[0].t in types && SameTraits(visits[0].t, old(queue)[0].t)
                          && visits[0].payload == old(queue)[0].payload && queue == old(queue)[1..]
      ensures !handled ==> queue == old(queue)
    {
      hide Pow2, IsTable, HoldsAll, SlotOf, WordOf, Region.Valid, Region.Offset, Region.Suits, FirstLike;
      handled, visits := DispatchOldest(types, verifyCrc);
      if handled {
        CommitRead();
      }
    }
  }

  /** Any run of calls on a new ring does to its messages what `After` says, and so takes
      them out in order (`VisitsAreInOrder`). */
  method RunCalls(ring: Ring, calls: seq<Call>) returns (taken: seq<Option<Visit>>)
    requires ring.Valid() && ring.queue == []
    requires forall call :: call in calls ==> Suitable(ring.region, call)
    modifies ring`head, ring`tail, ring`queue, ring`taken, ring.memory
    ensures ring.Valid()
    ensures var history := After(ring.region.shape.Capacity(), calls);
            InOrder(history) && ring.queue == history.queue && taken == history.taken
  {
    hide Pow2, Ring.Valid, Region.Valid, Region.Suits, DispatchCall, PushCall, ConsumeCall, InOrder;
    taken := [];
    ghost var capacity := ring.region.shape.Capacity();
    for i := 0 to |calls|
      invariant ring.Valid()
      invariant ring.queue == After(capacity, calls[..i]).queue && taken == After(capacity, calls[..i]).taken
    {
      assert calls[..i + 1][..i] == calls[..i];
      assert Suitable(ring.region, calls[i]);
      var visits := OneCall(ring, calls[i]);
      taken := taken + visits;
    }
    assert calls[..|calls|] == calls;
    VisitsAreInOrder(capacity, calls);
  }

  // What the compiler demands of a call: its types fit the ring, and a value its type.
  ghost predicate Suitable(r: Region, call: Call) {
    match call
    case Pushed(t, value, _) => r.Suits(t) && |value| == t.Size()
    case Dispatched(types, _) => forall t :: t in types ==> r.Suits(t)
    case Consumed(t, _) => r.Suits(t)
    case Dropped => true
  }

  method OneCall(ring: Ring, call: Call) returns (taken: seq<Option<Visit>>)
    requires ring.Valid() && Suitable(ring.region, call)
    modifies ring`head, ring`tail, ring`queue, ring`taken, ring.memory
    ensures ring.Valid()
    ensures forall before: History :: before.queue == old(ring.queue) ==>
              var after := AfterCall(ring.region.shape.Capacity(), before, call);
              ring.queue == after.queue && before.taken + taken == after.taken
  {
    hide Pow2, Ring.Valid, Region.Valid, Region.Suits, DispatchCall, PushCall;
    match call
    case Pushed(t, value, computeCrc) =>
      var _ := ring.Push(t, value, computeCrc);
      taken := [];
    case Dispatched(types, verifyCrc) =>
      var _, visits := ring.DispatchAndCommit(types, verifyCrc);
      taken := Somes(visits);
    case Consumed(t, verifyCrc) =>
      var value := ring.Pop(t, verifyCrc);
      taken := if value.Some? then [Some(Visit(t, value.value))] else [];
      assert taken == Somes(ConsumeCall(old(ring.queue), t).1);
    case Dropped =>
      var empty := ring.Empty();
      taken := [];
      if !empty {
        ring.CommitRead();
        taken := [None];
      }
  }

  // ---- Facts about the slots of a queue ----

  lemma OnlyOneSlot(before: seq<Byte>, prepared: seq<Byte>, filled: seq<Byte>, after: seq<Byte>, r: Region, slot: nat)
    requires var from, to := r.Offset(slot), r.Offset(slot) + r.slotBytes;
             && SameOutside(before, prepared, from, to) && SameOutside(prepared, filled, from, to)
             && SameOutside(filled, after, from, to)
    ensures SameOutside(before, after, r.Offset(slot), r.Offset(slot) + r.slotBytes)
  {
    hide SameOutside;
    var from, to := r.Offset(slot), r.Offset(slot) + r.slotBytes;
    SameOutsideTwice(before, prepared, filled, from, to);
    SameOutsideTwice(before, filled, after, from, to);
  }

  lemma Oldest(r: Region, h: Endian, mem: seq<Byte>, taken: nat, queue: seq<Packed>)
    requires HoldsAll(r, h, mem, taken, queue) && queue != []
    ensures Holds(r, h, mem, SlotOf(r.shape, taken), queue[0])
  {
    hide Holds, SlotOf;
    assert Holds(r, h, mem, SlotOf(r.shape, taken + 0), queue[0]);
  }

  lemma TheRestIsHeld(r: Region, h: Endian, mem: seq<Byte>, taken: nat, queue: seq<Packed>)
    requires HoldsAll(r, h, mem, taken, queue) && queue != []
    ensures HoldsAll(r, h, mem, taken + 1, queue[1..])
  {
    hide Holds, SlotOf;
    forall i | 0 <= i < |queue[1..]|
      ensures Holds(r, h, mem, SlotOf(r.shape, taken + 1 + i), queue[1..][i])
    {
      var next := i + 1;
      assert Holds(r, h, mem, SlotOf(r.shape, taken + next), queue[next]);
    }
  }

  lemma HoldsOneMore(r: Region, h: Endian, mem: seq<Byte>, taken: nat, queue: seq<Packed>, m: Packed)
    requires HoldsAll(r, h, mem, taken, queue) && Holds(r, h, mem, SlotOf(r.shape, taken + |queue|), m)
    ensures HoldsAll(r, h, mem, taken, queue + [m])
  {
    hide Holds, SlotOf;
  }

  lemma PayloadOfSlot(r: Region, h: Endian, mem: seq<Byte>, slot: nat, m: Packed)
    requires Holds(r, h, mem, slot, m)
    ensures var at := r.Offset(slot) + HEADER_SIZE;
            && at + m.t.Size() <= |mem| && mem[at..at + m.t.Size()] == m.payload
            && at + m.t.Size() <= r.Offset(slot) + r.slotBytes
    ensures m.crc != 0 ==> Checksum(m.payload) == m.crc
  {
    hide Checksum, Packet, InspectError, Inspected, StoredCrc;
    CrcIsRight(m);
    InspectionOfSlot(r, h, mem, slot, m);
  }

  lemma PreparedLength(r: Region, h: Endian, mem: seq<Byte>, slot: nat, t: MsgType)
    requires Prepared(r, h, mem, slot, t) && Fits(t)
    ensures LoadLength(h, mem[r.Offset(slot) + 12..r.Offset(slot) + 16]) == t.Size()
  {
    hide Store32, Store16, StoreLength, LoadLength, HeaderBytes;
    var at, header := r.Offset(slot), Header(MAGIC, t.id, t.version, 0, t.Size());
    LengthBytes(h, header);
    assert mem[at + 12..at + 16] == mem[at..at + HEADER_SIZE][12..16];
    LoadStoreLength(h, t.Size());
  }

  lemma LengthBytes(h: Endian, header: Header)
    ensures HeaderBytes(h, header)[12..16] == StoreLength(h, header.payloadLen)
  {
    hide Store32, Store16, StoreLength;
  }

  // Skipping the checksum of an empty payload changes nothing: it is 0 anyway.
  lemma ChecksumOfNothing(h: Endian, payload: seq<Byte>, computeCrc: bool)
    ensures CrcField(h, payload, computeCrc && |payload| > 0) == CrcField(h, payload, computeCrc)
  {
    hide Store32;
  }

  lemma {:induction false} FoldOfSlot(r: Region, h: Endian, mem: seq<Byte>, slot: nat, m: Packed,
                                      types: seq<MsgType>, verifyCrc: bool)
    requires r.Valid() && Holds(r, h, mem, slot, m) && forall t :: t in types ==> r.Suits(t)
    ensures DispatchFold(h, types, m.t.id, SlotBuffer(r, mem, slot), verifyCrc)
         == match FirstLike(types, m.t)
            case Some(t) => (true, [Visit(t, m.payload)])
            case None => (false, [])
    decreases |types|
  {
    hide Holds, View, SlotBuffer, Region.Valid, Region.Suits;
    if types != [] {
      HeldBuffer(r, h, mem, slot, m);
      ViewOfSlot(r, h, mem, slot, m, types[0], verifyCrc);
      FoldOfSlot(r, h, mem, slot, m, types[1..], verifyCrc);
      var rest := DispatchFold(h, types[1..], m.t.id, SlotBuffer(r, mem, slot), verifyCrc);
      assert [] + rest.1 == rest.1;
    }
  }

  lemma HeldBuffer(r: Region, h: Endian, mem: seq<Byte>, slot: nat, m: Packed)
    requires Holds(r, h, mem, slot, m)
    ensures r.Offset(slot) + r.slotBytes <= |mem|
  {
  }

  lemma DispatchOfSlot(r: Region, h: Endian, mem: seq<Byte>, slot: nat, m: Packed, types: seq<MsgType>, verifyCrc: bool)
    requires r.Valid() && Holds(r, h, mem, slot, m) && forall t :: t in types ==> r.Suits(t)
    ensures r.Offset(slot) + r.slotBytes <= |mem|
    ensures DispatchBuffer(h, types, SlotBuffer(r, mem, slot), verifyCrc)
         == match FirstLike(types, m.t)
            case Some(t) => (true, [Visit(t, m.payload)])
            case None => (false, [])
  {
    hide Holds, View, ReadHeader, DispatchFold, FirstLike, Region.Valid, Region.Suits;
    HeldBuffer(r, h, mem, slot, m);
    InspectionOfSlot(r, h, mem, slot, m);
    FoldOfSlot(r, h, mem, slot, m, types, verifyCrc);
  }
}
