/** The steps that publish, read and hand back a message, and the invariant over runs. */
module RingSteps {
  import opened ByteOrder
  import opened Memory
  import opened Crc32
  import opened Wire
  import opened Counters
  import opened Region
  import opened Dispatch
  import opened RingProtocol
  import opened RingInvariant

  // ---- head_.store(head + 1, release) ----

  lemma OrderGrows(c: Config, order: seq<Entry>, clock: nat, next: Entry)
    requires IsOrder(c, order, clock) && next == Entry(WordOf(c.Shape(), |order|), clock + 1)
    ensures IsOrder(c, order + [next], clock + 1)
  {
    hide WordOf;
  }

  lemma WholeRow(row: seq<Cell>, t: MsgType, count: nat, clock: nat)
    requires count <= |row| && WrittenBy(row, clock)
    ensures HoldsMessage(row, Message(t, Values(row)[..count]), clock + 1)
  {
  }

  lemma SlotsHoldOneMore(c: Config, s: State, s': State)
    requires Shaped(c, s) && Shaped(c, s') && InStep(c, s) && InStep(c, s') && SlotsHold(c, s)
    requires s'.cells == s.cells && |s'.tails| == |s.tails|
    requires |s'.heads| == |s.heads| + 1 && s.heads <= s'.heads
    requires s.committed <= s'.committed
    requires var m := HeadCount(s); HoldsMessage(s.cells[SlotOf(c.Shape(), m)], s'.committed[m], s'.heads[m + 1].clock)
    ensures SlotsHold(c, s')
  {
    hide SlotOf, HoldsMessage, Pow2;
    forall m: nat | TailCount(s) <= m < HeadCount(s')
      ensures HoldsMessage(s'.cells[SlotOf(c.Shape(), m)], s'.committed[m], s'.heads[m + 1].clock)
    {
      if m < HeadCount(s) {
        assert HoldsMessage(s.cells[SlotOf(c.Shape(), m)], s.committed[m], s.heads[m + 1].clock);
      }
    }
  }

  lemma SealedOneMore(c: Config, s: State, s': State)
    requires AllSealed(c, s) && s.committed <= s'.committed && |s'.committed| == |s.committed| + 1
    requires IsSealed(c, s'.committed[|s.committed|])
    ensures AllSealed(c, s')
  {
    hide IsSealed;
  }

  lemma ReleaseHeadFacts(c: Config, s: State)
    requires Inv(c, s) && s.ppc.Sealing? && s.ppc.done == 4
    ensures HEADER_SIZE + s.ppc.t.Size() <= c.region.slotBytes
    ensures IsSealed(c, Message(s.ppc.t, Values(s.cells[s.ppc.slot])[..HEADER_SIZE + s.ppc.t.Size()]))
    ensures s.ppc.head == WordOf(c.Shape(), HeadCount(s)) && s.ppc.slot == SlotOf(c.Shape(), HeadCount(s))
    ensures HeadCount(s) < s.producer.acquired + c.Capacity() && |s.committed| == HeadCount(s)
  {
    hide Inv, SharedInv, ConsumerReady, Values, SlotOf, WordOf, IsSealed, HeaderReady, Pow2, Region.Valid, Region.Suits;
    Parts(c, s);
    OwnedSlot(c, s);
    SealedImage(c, s.ppc.t, s.ppc.head, s.ppc.slot, s.ppc.field, HeadCount(s), s.producer.acquired,
                Values(s.cells[s.ppc.slot]));
  }

  lemma ReleaseHeadShared(c: Config, s: State, s': State)
    requires c.Valid() && Shaped(c, s) && InStep(c, s) && SharedInv(c, s) && Shaped(c, s') && InStep(c, s')
    requires s'.cells == s.cells && s'.tails == s.tails && s'.consumer == s.consumer && s'.delivered == s.delivered
    requires s'.producer.clock == s.producer.clock + 1
    requires s'.heads == s.heads + [Entry(WordOf(c.Shape(), |s.heads|), s.producer.clock + 1)]
    requires s.committed <= s'.committed && IsSealed(c, s'.committed[HeadCount(s)])
    requires var row, m := s.cells[SlotOf(c.Shape(), HeadCount(s))], s'.committed[HeadCount(s)];
             |m.image| <= |row| && m == Message(m.t, Values(row)[..|m.image|])
    ensures SharedInv(c, s')
  {
    hide WordOf, SlotOf, Values, WrittenBy, ReadBy, HoldsMessage, IsSealed, Matches, SlotsHold, ReadsDone, Pow2,
      Region.Valid;
    OrderGrows(c, s.heads, s.producer.clock, s'.heads[|s.heads|]);
    var row := s.cells[SlotOf(c.Shape(), HeadCount(s))];
    assert WrittenBy(row, s.producer.clock);
    WholeRow(row, s'.committed[HeadCount(s)].t, |s'.committed[HeadCount(s)].image|, s.producer.clock);
    SlotsHoldOneMore(c, s, s');
    ReadsStillDone(c, s, s');
    ClocksStayBound(s, s');
    SealedOneMore(c, s, s');
    DeliveriesStillMatch(s, s');
  }

  lemma ReleaseHeadShaped(c: Config, s: State)
    requires c.Valid() && Shaped(c, s) && InStep(c, s)
    requires s.ppc.Sealing? && HEADER_SIZE + s.ppc.t.Size() <= c.region.slotBytes
    requires HeadCount(s) < s.producer.acquired + c.Capacity()
    ensures var s' := AfterReleaseHead(c, s); Shaped(c, s') && InStep(c, s') && ProducerReady(c, s')
  {
    hide Values, SlotOf, Plus1, Pow2, Region.Valid, Region.Suits;
  }

  lemma ReleaseHeadKeeps(c: Config, s: State)
    requires Inv(c, s) && s.ppc.Sealing? && s.ppc.done == 4 && HEADER_SIZE + s.ppc.t.Size() <= c.region.slotBytes
    ensures Inv(c, AfterReleaseHead(c, s))
  {
    hide Inv, InStep, SharedInv, ConsumerReady, ProducerReady, Values, SlotOf, WordOf, IsSealed, Plus1, Pow2,
      Region.Valid, Region.Suits;
    Parts(c, s);
    ReleaseHeadFacts(c, s);
    NextWord(c.Shape(), HeadCount(s));
    var s' := AfterReleaseHead(c, s);
    ReleaseHeadShaped(c, s);
    ReleaseHeadShared(c, s, s');
    ConsumerUndisturbed(c, s, s');
    Whole(c, s');
  }

  // ---- A read of one byte ----

  // Only the marks of the reader change, and only in one slot.
  ghost predicate ReadsOnly(c: Config, s: State, s': State, slot: nat)
    requires Shaped(c, s) && Shaped(c, s')
  {
    && slot < c.Capacity()
    && s'.heads == s.heads && s'.tails == s.tails && s'.committed == s.committed && s'.delivered == s.delivered
    && s'.producer == s.producer && s'.consumer == Tick(s.consumer)
    && (forall i :: 0 <= i < |s.cells| && i != slot ==> s'.cells[i] == s.cells[i])
    && Values(s'.cells[slot]) == Values(s.cells[slot])
    && (forall clock :: WrittenBy(s.cells[slot], clock) ==> WrittenBy(s'.cells[slot], clock))
    && ReadBy(s'.cells[slot], s'.consumer.clock)
  }

  lemma ReadCellReads(c: Config, s: State, s': State, slot: nat, offset: nat)
    requires Shaped(c, s) && Shaped(c, s') && ClocksBound(s)
    requires slot < c.Capacity() && offset < c.region.slotBytes && s'.cells == ReadCell(s, slot, offset)
    requires s'.heads == s.heads && s'.tails == s.tails && s'.committed == s.committed && s'.delivered == s.delivered
    requires s'.producer == s.producer && s'.consumer == Tick(s.consumer)
    ensures ReadsOnly(c, s, s', slot)
  {
    assert ReadBy(s.cells[slot], s.consumer.clock);
  }

  lemma ReadKeepsSlots(c: Config, s: State, s': State, slot: nat)
    requires Shaped(c, s) && Shaped(c, s') && InStep(c, s) && InStep(c, s') && SlotsHold(c, s)
    requires ReadsOnly(c, s, s', slot)
    ensures SlotsHold(c, s')
  {
    hide SlotOf, Pow2, Values, WrittenBy, ReadBy;
    forall m: nat | TailCount(s) <= m < HeadCount(s)
      ensures HoldsMessage(s'.cells[SlotOf(c.Shape(), m)], s'.committed[m], s'.heads[m + 1].clock)
    {
      assert HoldsMessage(s.cells[SlotOf(c.Shape(), m)], s.committed[m], s.heads[m + 1].clock);
    }
  }

  lemma ReadKeepsReads(c: Config, s: State, s': State)
    requires Shaped(c, s) && Shaped(c, s') && InStep(c, s) && InStep(c, s') && ReadsDone(c, s)
    requires TailCount(s) < s.consumer.acquired && ReadsOnly(c, s, s', SlotOf(c.Shape(), TailCount(s)))
    ensures ReadsDone(c, s')
  {
    hide SlotOf, Pow2, Values, WrittenBy, ReadBy;
    forall m: nat | TailCount(s) <= m < TailCount(s) + c.Capacity() && !(m == TailCount(s) < s.consumer.acquired)
      ensures ReadBy(s'.cells[SlotOf(c.Shape(), m)], s'.tails[PreviousUse(c, m)].clock)
    {
      SlotsDiffer(c.Shape(), TailCount(s), m);
      assert ReadBy(s.cells[SlotOf(c.Shape(), m)], s.tails[PreviousUse(c, m)].clock);
    }
  }

  lemma ReadKeepsClocks(c: Config, s: State, s': State, slot: nat)
    requires Shaped(c, s) && Shaped(c, s') && ClocksBound(s) && ReadsOnly(c, s, s', slot)
    ensures ClocksBound(s')
  {
    hide Values;
    forall i | 0 <= i < |s'.cells|
      ensures WrittenBy(s'.cells[i], s'.producer.clock) && ReadBy(s'.cells[i], s'.consumer.clock)
    {
      assert WrittenBy(s.cells[i], s.producer.clock) && ReadBy(s.cells[i], s.consumer.clock);
    }
  }

  lemma ReadKeepsShared(c: Config, s: State, s': State, slot: nat)
    requires c.Valid() && Shaped(c, s) && InStep(c, s) && SharedInv(c, s) && Shaped(c, s')
    requires TailCount(s) < s.consumer.acquired && slot == SlotOf(c.Shape(), TailCount(s))
    requires ReadsOnly(c, s, s', slot)
    ensures InStep(c, s') && SharedInv(c, s')
  {
    hide SlotsHold, ReadsDone, ClocksBound, AllSealed, WrittenBy, ReadBy, Values, SlotOf, Pow2;
    ReadKeepsSlots(c, s, s', slot);
    ReadKeepsReads(c, s, s');
    ReadKeepsClocks(c, s, s', slot);
    AllSealedStays(c, s, s');
  }

  lemma ReadByteKeeps(c: Config, s: State, offset: nat, value: Byte)
    requires Inv(c, s) && s.cpc.Reading? && offset < c.region.slotBytes
    requires s.cells[s.cpc.slot][offset].wrote <= KnownToConsumer(s) ==> value == s.cells[s.cpc.slot][offset].value
    ensures Inv(c, AfterReadByte(s, offset, value))
  {
    hide Inv, InStep, SharedInv, ProducerReady, Values, ReadCell, SlotOf, ClocksBound, IsSealed, HoldsMessage, Pow2,
      Region.Valid, Region.Suits;
    Parts(c, s);
    SharedParts(c, s);
    ReadsCommittedByte(c, s, offset, value);
    ReadSlotHolds(c, s);
    var s' := AfterReadByte(s, offset, value);
    AfterReadByteShaped(c, s, offset, value);
    ReadCellReads(c, s, s', s.cpc.slot, offset);
    ReadKeepsShared(c, s, s', s.cpc.slot);
    ProducerUndisturbed(c, s, s');
    Whole(c, s');
  }

  lemma AfterReadByteShaped(c: Config, s: State, offset: nat, value: Byte)
    requires Shaped(c, s) && s.cpc.Reading? && offset < c.region.slotBytes
    ensures Shaped(c, AfterReadByte(s, offset, value))
  {
  }

  // ---- view<T> on the bytes read ----

  lemma AssembledPart(got: map<nat, Byte>, m: Message, n: nat, from: nat, to: nat)
    requires Matches(got, m) && Covers(got, from, to) && from <= to <= |m.image| <= n
    ensures Assemble(got, n)[from..to] == m.image[from..to]
  {
  }

  lemma DecidedByHeader(h: Endian, t: MsgType, m: MsgType, crc: bv32, address: nat, bytes: seq<Byte>, verifyCrc: bool)
    requires |bytes| >= HEADER_SIZE + t.Size() && (address + HEADER_SIZE) % t.align == 0
    requires ReadHeader(h, bytes) == Header(MAGIC, m.id, m.version, crc, m.Size())
    requires SameTraits(t, m) && verifyCrc && crc != 0 ==> Checksum(bytes[HEADER_SIZE..HEADER_SIZE + t.Size()]) == crc
    ensures Validate(h, t, Buffer.Memory(address, bytes), verifyCrc) == Ok <==> SameTraits(t, m)
  {
    hide ReadHeader, Checksum;
  }

  lemma HeaderRead(c: Config, got: map<nat, Byte>, m: Message, payload: seq<Byte>, crc: bv32)
    requires c.region.slotBytes >= |m.image| && Fits(m.t) && |payload| == m.t.Size()
    requires Matches(got, m) && Covers(got, 0, HEADER_SIZE)
    requires m.image == Packet(c.host, m.t, payload, crc)
    ensures ReadHeader(c.host, Assemble(got, c.region.slotBytes)) == Header(MAGIC, m.t.id, m.t.version, crc, m.t.Size())
  {
    hide ReadHeader, Packet, Assemble;
    PacketHeader(c.host, m.t, payload, crc, []);
    assert m.image + [] == m.image;
    AssembledPart(got, m, c.region.slotBytes, 0, HEADER_SIZE);
    HeaderOfPrefix(c.host, Assemble(got, c.region.slotBytes), m.image);
  }

  lemma PayloadRead(c: Config, got: map<nat, Byte>, m: Message, payload: seq<Byte>, crc: bv32)
    requires c.region.slotBytes >= |m.image| && |payload| == m.t.Size()
    requires Matches(got, m) && Covers(got, HEADER_SIZE, HEADER_SIZE + m.t.Size())
    requires m.image == Packet(c.host, m.t, payload, crc)
    ensures Assemble(got, c.region.slotBytes)[HEADER_SIZE..HEADER_SIZE + m.t.Size()] == payload
  {
    hide Packet, Assemble;
    AssembledPart(got, m, c.region.slotBytes, HEADER_SIZE, HEADER_SIZE + m.t.Size());
    PayloadOfPacket(c, m.t, payload, crc);
  }

  /** On a committed message, view<T> succeeds exactly when the message was prepared with
      the traits of T: it is never refused for its checksum, its magic number or its place. */
  lemma ViewAccepts(c: Config, slot: nat, got: map<nat, Byte>, m: Message, t: MsgType, verifyCrc: bool)
    requires c.Valid() && slot < c.Capacity() && IsSealed(c, m) && Matches(got, m)
    requires t in c.types && CanView(c, got, t, verifyCrc)
    ensures ViewError(c, slot, got, t, verifyCrc) == Ok <==> SameTraits(t, m.t)
  {
    hide Matches, Covers, Assemble, Packet, ReadHeader, Checksum, Validate;
    var payload, crc :|
      && |payload| == m.t.Size() && (crc == 0 || crc == Checksum(payload))
      && m.image == Packet(c.host, m.t, payload, crc);
    var address := c.region.address + c.region.Offset(slot);
    assert c.region.Suits(t) && c.region.Suits(m.t);
    PayloadAligned(c.region, t, slot);
    HeaderRead(c, got, m, payload, crc);
    if SameTraits(t, m.t) && verifyCrc && crc != 0 {
      PayloadRead(c, got, m, payload, crc);
    }
    DecidedByHeader(c.host, t, m.t, crc, address, Assemble(got, c.region.slotBytes), verifyCrc);
  }

  lemma PayloadOfPacket(c: Config, t: MsgType, payload: seq<Byte>, crc: bv32)
    ensures Packet(c.host, t, payload, crc)[HEADER_SIZE..HEADER_SIZE + |payload|] == payload
  {
    hide HeaderBytes;
  }

  lemma AcceptKeeps(c: Config, s: State, t: MsgType, verifyCrc: bool)
    requires Inv(c, s) && s.cpc.Reading? && t in c.types && CanView(c, s.cpc.got, t, verifyCrc)
    ensures Inv(c, AfterAccept(c, s, t, verifyCrc))
    ensures AfterAccept(c, s, t, verifyCrc).cpc
         == if SameTraits(t, s.committed[TailCount(s)].t) then s.cpc.(accepted := Some(t)) else s.cpc
  {
    hide Inv, SlotOf, WordOf, Values, ProducerReady, SharedInv, Pow2, ViewError, Matches, SameTraits, IsSealed,
      HoldsMessage, CanView, Region.Valid, Region.Suits;
    Parts(c, s);
    ReadSlotHolds(c, s);
    ViewAccepts(c, s.cpc.slot, s.cpc.got, s.committed[TailCount(s)], t, verifyCrc);
    ConsumerLocalStepKeeps(c, s, AfterAccept(c, s, t, verifyCrc));
  }

  /** On a committed message peek_packet is never refused, and shows its id, version and
      checksum, its length, and the place of its payload. */
  lemma InspectionShows(c: Config, slot: nat, got: map<nat, Byte>, m: Message, verifyCrc: bool)
    requires c.Valid() && slot < c.Capacity() && IsSealed(c, m) && Matches(got, m) && CanInspect(c, got, verifyCrc)
    ensures Shows(c, slot, got, verifyCrc)
    ensures exists crc :: m.image[8..12] == Store32(c.host, crc)
              && Inspected(c.host, ReadBuffer(c, slot, got))
                 == PacketView(Header(MAGIC, m.t.id, m.t.version, crc, m.t.Size()),
                               Some(c.region.address + c.region.Offset(slot) + HEADER_SIZE), m.t.Size())
  {
    hide Matches, Covers, Assemble, Packet, ReadHeader, Checksum, Store32, Region.Valid;
    var payload, crc :|
      && |payload| == m.t.Size() && (crc == 0 || crc == Checksum(payload))
      && m.image == Packet(c.host, m.t, payload, crc);
    assert c.region.Suits(m.t);
    HeaderRead(c, got, m, payload, crc);
    CrcBytesOfPacket(c, m.t, payload, crc);
    if verifyCrc && crc != 0 {
      PayloadRead(c, got, m, payload, crc);
    }
  }

  lemma CrcBytesOfPacket(c: Config, t: MsgType, payload: seq<Byte>, crc: bv32)
    ensures Packet(c.host, t, payload, crc)[8..12] == Store32(c.host, crc)
  {
    hide Store32, Store16, StoreLength;
  }

  lemma InspectKeeps(c: Config, s: State, verifyCrc: bool)
    requires Inv(c, s) && s.cpc.Reading? && CanInspect(c, s.cpc.got, verifyCrc)
    ensures Inv(c, AfterInspect(c, s, verifyCrc))
    ensures AfterInspect(c, s, verifyCrc).cpc == s.cpc
  {
    hide Inv, SlotOf, WordOf, Values, ProducerReady, SharedInv, Pow2, Shows, Matches, SameTraits, IsSealed,
      HoldsMessage, CanInspect, Region.Valid, Region.Suits;
    Parts(c, s);
    ReadSlotHolds(c, s);
    InspectionShows(c, s.cpc.slot, s.cpc.got, s.committed[TailCount(s)], verifyCrc);
    ConsumerLocalStepKeeps(c, s, AfterInspect(c, s, verifyCrc));
  }

  // ---- tail_.store(tail + 1, release) ----

  lemma ReadsDoneOneMore(c: Config, s: State, s': State)
    requires Shaped(c, s) && Shaped(c, s') && InStep(c, s) && InStep(c, s') && ReadsDone(c, s)
    requires s'.cells == s.cells && s'.consumer.acquired == s.consumer.acquired
    requires s.tails <= s'.tails && |s'.tails| == |s.tails| + 1
    requires ReadBy(s.cells[SlotOf(c.Shape(), TailCount(s))], s'.tails[TailCount(s')].clock)
    ensures ReadsDone(c, s')
  {
    hide SlotOf, ReadBy, Pow2;
    forall m: nat | TailCount(s') <= m < TailCount(s') + c.Capacity() && !(m == TailCount(s') < s'.consumer.acquired)
      ensures ReadBy(s'.cells[SlotOf(c.Shape(), m)], s'.tails[PreviousUse(c, m)].clock)
    {
      if m < TailCount(s) + c.Capacity() {
        assert ReadBy(s.cells[SlotOf(c.Shape(), m)], s.tails[PreviousUse(c, m)].clock);
      } else {
        SlotRepeats(c.Shape(), TailCount(s));
      }
    }
  }

  lemma ReadByLater(row: seq<Cell>, clock: nat)
    requires ReadBy(row, clock)
    ensures ReadBy(row, clock + 1)
  {
  }

  lemma DeliveredOneMore(s: State, s': State, delivery: Delivery)
    requires DeliveredMatch(s) && |s.delivered| < |s.committed| && s'.committed == s.committed
    requires s'.delivered == s.delivered + [delivery]
    requires Agrees(delivery, s.committed[|s.delivered|])
    ensures DeliveredMatch(s')
  {
    hide Agrees;
  }

  lemma ReleaseTailShared(c: Config, s: State, s': State, delivery: Delivery)
    requires c.Valid() && Shaped(c, s) && InStep(c, s) && SharedInv(c, s) && Shaped(c, s') && InStep(c, s')
    requires s'.cells == s.cells && s'.heads == s.heads && s'.producer == s.producer && s'.committed == s.committed
    requires s'.consumer == Tick(s.consumer) && TailCount(s) < s.consumer.seen
    requires s'.tails == s.tails + [Entry(WordOf(c.Shape(), |s.tails|), s.consumer.clock + 1)]
    requires s'.delivered == s.delivered + [delivery]
    requires Agrees(delivery, s.committed[TailCount(s)])
    ensures SharedInv(c, s')
  {
    hide WordOf, SlotOf, Values, WrittenBy, ReadBy, HoldsMessage, IsSealed, Agrees, SlotsHold,
      ReadsDone, Pow2, Region.Valid;
    OrderGrows(c, s.tails, s.consumer.clock, s'.tails[|s.tails|]);
    var row := s.cells[SlotOf(c.Shape(), TailCount(s))];
    assert ReadBy(row, s.consumer.clock);
    ReadByLater(row, s.consumer.clock);
    SlotsStillHold(c, s, s');
    ReadsDoneOneMore(c, s, s');
    ClocksStayBound(s, s');
    AllSealedStays(c, s, s');
    DeliveredOneMore(s, s', delivery);
  }

  lemma TakenAgrees(c: Config, s: State)
    requires Inv(c, s) && TailCount(s) < s.consumer.seen
    ensures TailCount(s) < |s.committed| && Agrees(Taken(s.cpc), s.committed[TailCount(s)])
  {
    hide SlotOf, WordOf, Values, ProducerReady, SharedInv, Pow2, SameTraits, Region.Valid, Region.Suits;
  }

  lemma ReleaseTailKeeps(c: Config, s: State)
    requires Inv(c, s) && !s.cpc.TailLoaded? && TailCount(s) < s.consumer.seen
    ensures Inv(c, AfterReleaseTail(c, s))
  {
    hide Inv, SharedInv, ProducerReady, Values, SlotOf, WordOf, Plus1, Pow2, Agrees, Taken, Region.Valid, Region.Suits;
    Parts(c, s);
    Words(c, s);
    TakenAgrees(c, s);
    NextWord(c.Shape(), TailCount(s));
    var s' := AfterReleaseTail(c, s);
    ReleaseTailShared(c, s, s', Taken(s.cpc));
    ProducerUndisturbed(c, s, s');
    Whole(c, s');
  }

  // ---- Runs ----

  // There are initial states: here every byte is 0.
  function Initial(c: Config): State {
    var row := seq(c.region.slotBytes, _ => Cell(Byte(0), 0, 0));
    State([Entry(0, 0)], [Entry(0, 0)], seq(c.Capacity(), _ => row),
          Thread(0, 0, 0), Resting, Thread(0, 0, 0), Idle, [], [])
  }

  lemma InitialIsInit(c: Config)
    requires c.Valid()
    ensures Init(c, Initial(c))
  {
    hide Pow2;
  }

  lemma InitInv(c: Config, s: State)
    requires c.Valid() && Init(c, s)
    ensures Inv(c, s)
  {
    hide SlotOf, Values, WrittenBy, ReadBy, Pow2;
    var d := c.Shape().Words();
    RemainderIs(0, d, 0, 0);
    forall m: nat | 0 <= m < c.Capacity()
      ensures ReadBy(s.cells[SlotOf(c.Shape(), m)], s.tails[PreviousUse(c, m)].clock)
    {
      assert ReadBy(s.cells[SlotOf(c.Shape(), m)], 0);
    }
  }

  lemma ProducerStepKeepsInv(c: Config, s: State, a: Action)
    requires Inv(c, s) && Enabled(c, s, a) && a.OfProducer()
    ensures Inv(c, Next(c, s, a))
  {
    hide Inv, InStep, SharedInv, ProducerReady, ConsumerReady, Pow2, Region.Valid, Region.Suits,
      AfterLoadHead, AfterAcquireTail, AfterPrepareByte, AfterFillByte, AfterAbandon, AfterSeal, AfterSealByte,
      AfterReleaseHead, AfterQueryTail;
    Parts(c, s);
    ShapeIsValid(c);
    match a
    case LoadHead => LoadHeadKeeps(c, s);
    case AcquireTail(i, t) => AcquireTailKeeps(c, s, i, t);
    case PrepareByte => PrepareByteKeeps(c, s);
    case FillByte(offset, value) => FillByteKeeps(c, s, offset, value);
    case Abandon => AbandonKeeps(c, s);
    case Seal(computeCrc) => SealKeeps(c, s, computeCrc);
    case SealByte => SealByteKeeps(c, s);
    case ReleaseHead => ReleaseHeadKeeps(c, s);
    case QueryTail(i) => QueryTailKeeps(c, s, i);
  }

  lemma ConsumerStepKeepsInv(c: Config, s: State, a: Action)
    requires Inv(c, s) && Enabled(c, s, a) && !a.OfProducer()
    ensures Inv(c, Next(c, s, a))
  {
    hide Inv, InStep, SharedInv, ProducerReady, ConsumerReady, Pow2, Region.Valid, Region.Suits,
      AfterLoadTail, AfterAcquireHead, AfterReadByte, AfterAccept, AfterInspect, AfterLeave,
      AfterReleaseTail, AfterQueryHead, CanView, CanInspect, KnownToConsumer;
    Parts(c, s);
    match a
    case LoadTail => LoadTailKeeps(c, s);
    case AcquireHead(i) => AcquireHeadKeeps(c, s, i);
    case ReadByte(offset, value) => ReadByteKeeps(c, s, offset, value);
    case Accept(t, verifyCrc) => AcceptKeeps(c, s, t, verifyCrc);
    case Inspect(verifyCrc) => InspectKeeps(c, s, verifyCrc);
    case Leave => LeaveKeeps(c, s);
    case ReleaseTail => ReleaseTailKeeps(c, s);
    case QueryHead(i) => QueryHeadKeeps(c, s, i);
  }

  /** Every step keeps the invariant. */
  lemma StepKeepsInv(c: Config, s: State, a: Action)
    requires Inv(c, s) && Enabled(c, s, a)
    ensures Inv(c, Next(c, s, a))
  {
    hide Inv, Next, Enabled, Shaped;
    if a.OfProducer() {
      ProducerStepKeepsInv(c, s, a);
    } else {
      ConsumerStepKeepsInv(c, s, a);
    }
  }
}
