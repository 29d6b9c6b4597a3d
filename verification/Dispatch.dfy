/** The dispatcher of include/sinew/dispatch.hpp: it finds the message type of a packet in
    a list of types and hands the payload to the visitor. */
module Dispatch {
  import opened ByteOrder
  import opened Memory
  import opened Crc32
  import opened Wire

  /** What inspect_packet fills in: a copy of the header, and where the payload lies. */
  datatype PacketView = PacketView(header: Header, payload: Option<nat>, payloadLen: nat) {
    predicate IsValid() {
      header.magic == MAGIC && payload.Some?
    }
  }

  // A call of the visitor.
  datatype Visit = Visit(t: MsgType, payload: seq<Byte>)

  // The `size` bytes at an address, as the caller of the library passes them on.
  function BufferAt(block: Buffer, address: nat, size: nat): Buffer
    requires block.Memory? && block.address <= address && address + size <= block.address + |block.bytes|
  {
    Buffer.Memory(address, block.bytes[address - block.address..address - block.address + size])
  }

  /** inspect_packet. The view is left as it was unless the packet is accepted. */
  method InspectPacket(h: Endian, buffer: Buffer, before: PacketView) returns (error: ErrorCode, view: PacketView)
    ensures error == InspectError(h, buffer)
    ensures view == if error == Ok then Inspected(h, buffer) else before
    ensures buffer.Null? || |buffer.bytes| < 16 ==> error == BufferTooSmall
    ensures buffer.Memory? && |buffer.bytes| >= 16 ==>
              var bytes := buffer.bytes;
              var right, fits := Load32(h, bytes[0..4]) == 0x574E4953, 16 + LoadLength(h, bytes[12..16]) <= |bytes|;
              && (error == BadMagic <==> !right)
              && (error == BufferTooSmall <==> right && !fits)
              && (error == Ok <==> right && fits)
    ensures error != Ok ==> view == before
    ensures error == Ok ==>
              var bytes, header := buffer.bytes, view.header;
              && view.IsValid() && view.payload == Some(buffer.address + 16)
              && view.payloadLen == header.payloadLen == LoadLength(h, bytes[12..16])
              && header.magic == Load32(h, bytes[0..4]) && header.crc == Load32(h, bytes[8..12])
              && header.msgId == Load16(h, bytes[4..6]) && header.version == Load16(h, bytes[6..8])
  {
    hide Load32, Load16, LoadLength;
    view := before;
    if buffer.Null? || |buffer.bytes| < HEADER_SIZE {
      return BufferTooSmall, view;
    }
    var header := ReadHeader(h, buffer.bytes);
    if header.magic != MAGIC {
      return BadMagic, view;
    }
    if header.payloadLen > |buffer.bytes| - HEADER_SIZE {
      return BufferTooSmall, view;
    }
    return Ok, PacketView(header, Some(buffer.address + HEADER_SIZE), header.payloadLen);
  }

  function InspectError(h: Endian, buffer: Buffer): ErrorCode {
    if buffer.Null? || |buffer.bytes| < HEADER_SIZE then BufferTooSmall
    else if ReadHeader(h, buffer.bytes).magic != MAGIC then BadMagic
    else if HEADER_SIZE + ReadHeader(h, buffer.bytes).payloadLen > |buffer.bytes| then BufferTooSmall
    else Ok
  }

  function Inspected(h: Endian, buffer: Buffer): PacketView
    requires InspectError(h, buffer) == Ok
  {
    var header := ReadHeader(h, buffer.bytes);
    PacketView(header, Some(buffer.address + HEADER_SIZE), header.payloadLen)
  }

  ghost predicate DistinctIds(types: seq<MsgType>) {
    forall i, j :: 0 <= i < j < |types| ==> types[i].id != types[j].id
  }

  // The check made when the dispatcher is compiled for a list of types.
  method HasDuplicateMessageIds(types: seq<MsgType>) returns (found: bool)
    ensures found <==> exists i, j :: 0 <= i < j < |types| && types[i].id == types[j].id
    ensures found <==> !DistinctIds(types)
  {
    for i := 0 to |types|
      invariant forall k, l :: 0 <= k < i && k < l < |types| ==> types[k].id != types[l].id
    {
      for j := i + 1 to |types|
        invariant forall l :: i < l < j ==> types[i].id != types[l].id
      {
        if types[i].id == types[j].id {
          return true;
        }
      }
    }
    return false;
  }

  // try_dispatch_single: its result, and the calls it makes.
  function TryDispatchSingle(h: Endian, t: MsgType, id: bv16, buffer: Buffer, verifyCrc: bool): (bool, seq<Visit>) {
    if t.id == id then
      match View(h, t, buffer, verifyCrc)
      case Some(payload) => (true, [Visit(t, payload)])
      case None => (false, [])
    else (false, [])
  }

  // The types in turn, up to the first that accepts the packet.
  function DispatchFold(h: Endian, types: seq<MsgType>, id: bv16, buffer: Buffer, verifyCrc: bool): (bool, seq<Visit>) {
    if types == [] then (false, [])
    else
      var first := TryDispatchSingle(h, types[0], id, buffer, verifyCrc);
      if first.0 then first
      else
        var rest := DispatchFold(h, types[1..], id, buffer, verifyCrc);
        (rest.0, first.1 + rest.1)
  }

  function DispatchBuffer(h: Endian, types: seq<MsgType>, buffer: Buffer, verifyCrc: bool): (bool, seq<Visit>) {
    if buffer.Null? || |buffer.bytes| < HEADER_SIZE then (false, [])
    else
      var header := ReadHeader(h, buffer.bytes);
      if header.magic != MAGIC then (false, [])
      else DispatchFold(h, types, header.msgId, buffer, verifyCrc)
  }

  // A view that points into a block of memory, with its header in front of the payload.
  predicate PointsInto(view: PacketView, block: Buffer) {
    view.IsValid() ==>
      && block.Memory?
      && block.address + HEADER_SIZE <= view.payload.value
      && view.payload.value + view.payloadLen <= block.address + |block.bytes|
  }

  function DispatchView(h: Endian, types: seq<MsgType>, block: Buffer, view: PacketView, verifyCrc: bool): (bool,
                        seq<Visit>)
    requires PointsInto(view, block)
  {
    if !view.IsValid() then (false, [])
    else
      var packet := BufferAt(block, view.payload.value - HEADER_SIZE, HEADER_SIZE + view.payloadLen);
      DispatchBuffer(h, types, packet, verifyCrc)
  }

  // ---- Who is visited ----

  lemma ViewNeedsItsId(h: Endian, t: MsgType, buffer: Buffer, verifyCrc: bool)
    requires View(h, t, buffer, verifyCrc).Some?
    ensures buffer.Memory? && |buffer.bytes| >= HEADER_SIZE
    ensures ReadHeader(h, buffer.bytes).magic == MAGIC && ReadHeader(h, buffer.bytes).msgId == t.id
    ensures ReadHeader(h, buffer.bytes).payloadLen == t.Size() <= |buffer.bytes| - HEADER_SIZE
  {
    hide ReadHeader;
  }

  /** The fold makes at most one call, and it is for a type that accepts the packet; with
      distinct ids there is only one such type, so the fold finds it wherever it is. */
  lemma {:induction false} FoldVisits(h: Endian, types: seq<MsgType>, id: bv16, buffer: Buffer, verifyCrc: bool)
    ensures var (handled, visits) := DispatchFold(h, types, id, buffer, verifyCrc);
            && (handled <==> visits != [])
            && |visits| <= 1
            && (handled ==> visits[0].t in types && visits[0].t.id == id
                            && View(h, visits[0].t, buffer, verifyCrc) == Some(visits[0].payload))
    ensures forall t :: t in types && t.id == id && View(h, t, buffer, verifyCrc).Some? ==>
              DispatchFold(h, types, id, buffer, verifyCrc).0
    decreases |types|
  {
    hide View;
    if types != [] {
      FoldVisits(h, types[1..], id, buffer, verifyCrc);
    }
  }

  lemma SameIdSameType(types: seq<MsgType>, t: MsgType, u: MsgType)
    requires DistinctIds(types) && t in types && u in types && t.id == u.id
    ensures t == u
  {
    var i :| 0 <= i < |types| && types[i] == t;
    var j :| 0 <= j < |types| && types[j] == u;
  }

  /** For every buffer and every list of types with distinct ids: the dispatcher visits
      nobody unless a listed type can view the packet, and then it visits exactly that
      type, once, with the payload of that view. */
  lemma DispatchExactly(h: Endian, types: seq<MsgType>, buffer: Buffer, verifyCrc: bool)
    requires DistinctIds(types)
    ensures var (handled, visits) := DispatchBuffer(h, types, buffer, verifyCrc);
            && (handled <==> visits != [])
            && (handled <==> exists t :: t in types && View(h, t, buffer, verifyCrc).Some?)
            && forall t, payload ::
                 visits == [Visit(t, payload)] <==> t in types && View(h, t, buffer, verifyCrc) == Some(payload)
  {
    hide View, ReadHeader;
    var (handled, visits) := DispatchBuffer(h, types, buffer, verifyCrc);
    if buffer.Memory? && |buffer.bytes| >= HEADER_SIZE {
      FoldVisits(h, types, ReadHeader(h, buffer.bytes).msgId, buffer, verifyCrc);
    }
    forall t, payload | t in types && View(h, t, buffer, verifyCrc) == Some(payload)
      ensures visits == [Visit(t, payload)]
    {
      ViewNeedsItsId(h, t, buffer, verifyCrc);
      SameIdSameType(types, t, visits[0].t);
      assert visits == [visits[0]];
    }
  }

  lemma DistinctEitherWay(types: seq<MsgType>, others: seq<MsgType>)
    requires DistinctIds(types) && multiset(types) == multiset(others)
    ensures DistinctIds(others)
  {
    forall i, j | 0 <= i < j < |others|
      ensures others[i].id != others[j].id
    {
      var t, u := others[i], others[j];
      assert t in multiset(others) && u in multiset(others);
      if t.id == u.id {
        SameIdSameType(types, t, u);
        Twice(others, i, j);
        OnlyOnce(types, t);
      }
    }
  }

  lemma Twice(types: seq<MsgType>, i: nat, j: nat)
    requires i < j < |types| && types[i] == types[j]
    ensures multiset(types)[types[i]] >= 2
  {
    var front, back := types[..j], types[j..];
    assert types == front + back && front[i] == types[i] && back[0] == types[i];
    assert types[i] in multiset(front) && types[i] in multiset(back);
  }

  lemma OnlyOnce(types: seq<MsgType>, t: MsgType)
    requires DistinctIds(types)
    ensures multiset(types)[t] <= 1
  {
    if types != [] {
      var n := |types| - 1;
      OnlyOnce(types[..n], t);
      assert types == types[..n] + [types[n]];
    }
  }

  /** The order in which the types are listed makes no difference. */
  lemma OrderIsIrrelevant(h: Endian, types: seq<MsgType>, others: seq<MsgType>, buffer: Buffer, verifyCrc: bool)
    requires DistinctIds(types) && multiset(types) == multiset(others)
    ensures DispatchBuffer(h, types, buffer, verifyCrc) == DispatchBuffer(h, others, buffer, verifyCrc)
  {
    hide DispatchBuffer, View, DistinctIds;
    DistinctEitherWay(types, others);
    DispatchExactly(h, types, buffer, verifyCrc);
    DispatchExactly(h, others, buffer, verifyCrc);
    assert forall t :: t in types <==> t in multiset(types);
    assert forall t :: t in others <==> t in multiset(others);
    var (handled, visits) := DispatchBuffer(h, types, buffer, verifyCrc);
    if handled {
      var t :| t in types && View(h, t, buffer, verifyCrc).Some?;
      var payload := View(h, t, buffer, verifyCrc).value;
      assert visits == [Visit(t, payload)];
      assert DispatchBuffer(h, others, buffer, verifyCrc).1 == [Visit(t, payload)];
    }
  }

  // ---- Through a view or directly ----

  lemma ViewOfPrefix(h: Endian, t: MsgType, address: nat, bytes: seq<Byte>, size: nat, verifyCrc: bool)
    requires HEADER_SIZE <= size <= |bytes| && size == HEADER_SIZE + ReadHeader(h, bytes).payloadLen
    ensures ReadHeader(h, bytes[..size]) == ReadHeader(h, bytes)
    ensures View(h, t, Buffer.Memory(address, bytes[..size]), verifyCrc)
         == View(h, t, Buffer.Memory(address, bytes), verifyCrc)
  {
    hide ReadHeader, Checksum;
    assert bytes[..size][..HEADER_SIZE] == bytes[..HEADER_SIZE];
    HeaderOfPrefix(h, bytes[..size], bytes);
    if t.Size() + HEADER_SIZE <= size {
      assert bytes[..size][HEADER_SIZE..HEADER_SIZE + t.Size()] == bytes[HEADER_SIZE..HEADER_SIZE + t.Size()];
    }
  }

  lemma {:induction false} FoldOfPrefix(h: Endian, types: seq<MsgType>, id: bv16, address: nat, bytes: seq<Byte>,
                                        size: nat, verifyCrc: bool)
    requires HEADER_SIZE <= size <= |bytes| && size == HEADER_SIZE + ReadHeader(h, bytes).payloadLen
    ensures DispatchFold(h, types, id, Buffer.Memory(address, bytes[..size]), verifyCrc)
         == DispatchFold(h, types, id, Buffer.Memory(address, bytes), verifyCrc)
    decreases |types|
  {
    hide View, ReadHeader;
    if types != [] {
      ViewOfPrefix(h, types[0], address, bytes, size, verifyCrc);
      FoldOfPrefix(h, types[1..], id, address, bytes, size, verifyCrc);
    }
  }

  /** Dispatching a raw buffer succeeds exactly when inspecting it does and dispatching
      the resulting view does, and then both make the same call. */
  lemma RawAndInspectedAgree(h: Endian, types: seq<MsgType>, buffer: Buffer, verifyCrc: bool)
    ensures var raw := DispatchBuffer(h, types, buffer, verifyCrc);
            if InspectError(h, buffer) == Ok
            then PointsInto(Inspected(h, buffer), buffer)
                 && raw == DispatchView(h, types, buffer, Inspected(h, buffer), verifyCrc)
            else raw == (false, [])
  {
    hide View, ReadHeader;
    if buffer.Memory? && |buffer.bytes| >= HEADER_SIZE {
      var header := ReadHeader(h, buffer.bytes);
      FoldVisits(h, types, header.msgId, buffer, verifyCrc);
      if InspectError(h, buffer) == Ok {
        var size := HEADER_SIZE + header.payloadLen;
        assert buffer.bytes[..size][..HEADER_SIZE] == buffer.bytes[..HEADER_SIZE];
        HeaderOfPrefix(h, buffer.bytes[..size], buffer.bytes);
        FoldOfPrefix(h, types, header.msgId, buffer.address, buffer.bytes, size, verifyCrc);
        assert BufferAt(buffer, buffer.address, size).bytes == buffer.bytes[..size];
      } else if DispatchBuffer(h, types, buffer, verifyCrc).0 {
        ViewNeedsItsId(h, DispatchBuffer(h, types, buffer, verifyCrc).1[0].t, buffer, verifyCrc);
      }
    }
  }

  /** Inspecting a packet shows its id, version and checksum, and exactly its payload,
      whatever follows it in the buffer. */
  lemma InspectedPacket(h: Endian, t: MsgType, payload: seq<Byte>, crc: bv32, slack: seq<Byte>, address: nat)
    requires Fits(t) && |payload| == t.Size()
    ensures var buffer := Buffer.Memory(address, Packet(h, t, payload, crc) + slack);
            && InspectError(h, buffer) == Ok
            && var view := Inspected(h, buffer);
               && view.header == Header(MAGIC, t.id, t.version, crc, t.Size())
               && view.payload == Some(address + HEADER_SIZE) && view.payloadLen == t.Size()
               && BufferAt(buffer, view.payload.value, view.payloadLen).bytes == payload
  {
    hide ReadHeader, HeaderBytes;
    PacketHeader(h, t, payload, crc, slack);
  }
}
