/** Every step of the ring keeps the invariant, and no step is a data race. */
module RingInvariant {
  import opened ByteOrder
  import opened Memory
  import opened Crc32
  import opened Wire
  import opened Counters
  import opened Region
  import opened RingProtocol

  // The invariant taken apart and put together, for proofs that hide its definition.
  lemma Parts(c: Config, s: State)
    requires Inv(c, s)
    ensures c.Valid() && Shaped(c, s) && InStep(c, s) && SharedInv(c, s) && ProducerReady(c, s) && ConsumerReady(c, s)
  {
    hide Shaped, InStep, SharedInv, ProducerReady, ConsumerReady;
  }

  lemma Whole(c: Config, s: State)
    requires c.Valid() && Shaped(c, s) && InStep(c, s) && SharedInv(c, s) && ProducerReady(c, s) && ConsumerReady(c, s)
    ensures Inv(c, s)
  {
    hide Shaped, InStep, SharedInv, ProducerReady, ConsumerReady;
  }

  // ---- Consequences of the invariant ----

  lemma SlotIndexOfWord(c: Config, index: nat)
    requires c.Valid()
    ensures SlotIndex(c, WordOf(c.Shape(), index)) == SlotOf(c.Shape(), index)
  {
    MaskedWordIsSlot(c.Shape(), index);
  }

  predicate ProducerOwns(s: State) {
    s.ppc.Preparing? || s.ppc.Filling? || s.ppc.Sealing?
  }

  /** The producer and the consumer are never in the same slot. */
  lemma NeverInTheSameSlot(c: Config, s: State)
    requires Inv(c, s) && ProducerOwns(s) && s.cpc.Reading?
    ensures s.ppc.slot != s.cpc.slot
  {
    SlotsDiffer(c.Shape(), TailCount(s), HeadCount(s));
  }

  lemma OwnedSlotWasRead(c: Config, s: State)
    requires Inv(c, s) && ProducerOwns(s)
    ensures ReadBy(s.cells[s.ppc.slot], KnownToProducer(s))
  {
    hide SlotOf, WordOf, HeaderReady, Values, Pow2, ReadBy, Region.Valid, Region.Suits, ConsumerReady, SlotsHold,
      Template, CrcField;
    var head := HeadCount(s);
    assert !(head == TailCount(s) < s.consumer.acquired);
    assert ReadBy(s.cells[SlotOf(c.Shape(), head)], s.tails[PreviousUse(c, head)].clock);
    assert PreviousUse(c, head) <= s.producer.acquired;
    ReadByMonotone(s.cells[s.ppc.slot], s.tails[PreviousUse(c, head)].clock, KnownToProducer(s));
  }

  lemma ReadByMonotone(row: seq<Cell>, clock: nat, later: nat)
    requires ReadBy(row, clock) && clock <= later
    ensures ReadBy(row, later)
  {
  }

  lemma WrittenByMonotone(row: seq<Cell>, clock: nat, later: nat)
    requires WrittenBy(row, clock) && clock <= later
    ensures WrittenBy(row, later)
  {
  }

  lemma ReadSlotWasWritten(c: Config, s: State)
    requires Inv(c, s) && s.cpc.Reading?
    ensures WrittenBy(s.cells[s.cpc.slot], KnownToConsumer(s))
  {
    hide SlotOf, WordOf, HeaderReady, Values, Pow2, WrittenBy, ReadBy, Region.Valid, Region.Suits, ProducerReady,
      ReadsDone, Matches;
    var tail := TailCount(s);
    assert HoldsMessage(s.cells[SlotOf(c.Shape(), tail)], s.committed[tail], s.heads[tail + 1].clock);
    assert tail + 1 <= s.consumer.acquired;
    WrittenByMonotone(s.cells[s.cpc.slot], s.heads[tail + 1].clock, KnownToConsumer(s));
  }

  /** Whenever the producer is about to write, everything it overwrites was last read
      before a tail store it has acquired; whenever the consumer is about to read, the
      bytes were last written before a head store it has acquired. */
  lemma NoRace(c: Config, s: State)
    requires Inv(c, s)
    ensures ProducerOwns(s) ==> ReadBy(s.cells[s.ppc.slot], KnownToProducer(s))
    ensures s.cpc.Reading? ==> WrittenBy(s.cells[s.cpc.slot], KnownToConsumer(s))
  {
    hide Inv, ReadBy, WrittenBy, KnownToProducer, KnownToConsumer;
    if ProducerOwns(s) {
      OwnedSlotWasRead(c, s);
    }
    if s.cpc.Reading? {
      ReadSlotWasWritten(c, s);
    }
  }

  lemma ReadSlotHolds(c: Config, s: State)
    requires Inv(c, s) && s.cpc.Reading?
    ensures TailCount(s) < HeadCount(s) == |s.committed|
    ensures HoldsMessage(s.cells[s.cpc.slot], s.committed[TailCount(s)], s.heads[TailCount(s) + 1].clock)
    ensures s.cpc.slot == SlotOf(c.Shape(), TailCount(s))
    ensures Matches(s.cpc.got, s.committed[TailCount(s)])
    ensures IsSealed(c, s.committed[TailCount(s)])
  {
    hide SlotOf, WordOf, Values, ProducerReady, ReadsDone, HoldsMessage, Pow2, Region.Valid, Region.Suits;
  }

  // So a read always returns the byte that is there, and that is the committed byte.
  lemma ReadsCommittedByte(c: Config, s: State, offset: nat, value: Byte)
    requires Inv(c, s) && s.cpc.Reading? && offset < c.region.slotBytes
    requires s.cells[s.cpc.slot][offset].wrote <= KnownToConsumer(s) ==> value == s.cells[s.cpc.slot][offset].value
    ensures value == s.cells[s.cpc.slot][offset].value
    ensures offset < |s.committed[TailCount(s)].image| ==> value == s.committed[TailCount(s)].image[offset]
  {
    hide Inv, Values, HoldsMessage, SlotOf, IsSealed, Matches, Pow2, Region.Valid, Region.Suits;
    Parts(c, s);
    NoRace(c, s);
    ReadSlotHolds(c, s);
    ByteOfMessage(s.cells[s.cpc.slot], s.committed[TailCount(s)], s.heads[TailCount(s) + 1].clock, offset);
  }

  lemma ByteOfMessage(row: seq<Cell>, m: Message, clock: nat, offset: nat)
    requires HoldsMessage(row, m, clock) && offset < |row|
    ensures offset < |m.image| ==> row[offset].value == m.image[offset]
  {
    if offset < |m.image| {
      assert Values(row)[..|m.image|][offset] == row[offset].value;
    }
  }

  lemma Words(c: Config, s: State)
    requires Inv(c, s)
    ensures forall i :: 0 <= i < |s.heads| ==> s.heads[i].word == WordOf(c.Shape(), i)
    ensures forall i :: 0 <= i < |s.tails| ==> s.tails[i].word == WordOf(c.Shape(), i)
  {
    hide WordOf, SlotOf, ProducerReady, ConsumerReady, SlotsHold, ReadsDone;
  }

  // ---- What the producer's program counter promises, from step to step ----

  lemma PrepareReady(c: Config, t: MsgType, slot: nat, done: nat, head: nat, acquired: nat, values: seq<Byte>)
    requires c.Valid() && |values| == c.region.slotBytes
    requires ProducerAt(c, Preparing(t, slot, done), head, acquired, values)
    ensures done < |values|
    ensures var written := values[done := Template(c, t)[done]];
            if done + 1 < HEADER_SIZE + t.Size()
            then ProducerAt(c, Preparing(t, slot, done + 1), head, acquired, written)
            else ProducerAt(c, Filling(t, slot), head, acquired, written)
  {
    hide Packet, SlotOf;
    assert c.region.Suits(t);
    var image := Template(c, t);
    var written := values[done := image[done]];
    assert written[..done + 1] == image[..done + 1];
    if done + 1 == HEADER_SIZE + t.Size() {
      assert written[..HEADER_SIZE] == written[..done + 1][..HEADER_SIZE];
      assert image[..HEADER_SIZE] == Splice(image[..HEADER_SIZE], 8, NO_FIELD[..0]);
    }
  }

  lemma FillReady(c: Config, t: MsgType, slot: nat, head: nat, acquired: nat, values: seq<Byte>, offset: nat,
                  value: Byte)
    requires c.Valid() && |values| == c.region.slotBytes && HEADER_SIZE <= offset < |values|
    requires ProducerAt(c, Filling(t, slot), head, acquired, values)
    ensures ProducerAt(c, Filling(t, slot), head, acquired, values[offset := value])
  {
    hide Packet, SlotOf, Template;
    assert values[offset := value][..HEADER_SIZE] == values[..HEADER_SIZE];
  }

  lemma SealReady(c: Config, t: MsgType, slot: nat, head: nat, acquired: nat, values: seq<Byte>, computeCrc: bool)
    requires c.Valid() && |values| == c.region.slotBytes
    requires ProducerAt(c, Filling(t, slot), head, acquired, values)
    ensures HEADER_SIZE + t.Size() <= |values|
    ensures var field := CrcField(c.host, Payload(values, t), computeCrc);
            ProducerAt(c, Sealing(t, WordOf(c.Shape(), head), slot, field, 0), head, acquired, values)
  {
    hide Template, SlotOf, WordOf, Payload, CrcField;
    assert c.region.Suits(t);
    var field := CrcField(c.host, Payload(values, t), computeCrc);
    assert NO_FIELD[..0] == field[..0];
  }

  lemma SealByteReady(c: Config, t: MsgType, word: nat, slot: nat, field: seq<Byte>, done: nat,
                      head: nat, acquired: nat, values: seq<Byte>)
    requires c.Valid() && |values| == c.region.slotBytes && done < 4
    requires ProducerAt(c, Sealing(t, word, slot, field, done), head, acquired, values)
    ensures ProducerAt(c, Sealing(t, word, slot, field, done + 1), head, acquired, values[8 + done := field[done]])
  {
    hide Template, SlotOf, WordOf, CrcField;
    assert c.region.Suits(t);
    var written := values[8 + done := field[done]];
    assert Payload(written, t) == Payload(values, t);
    assert field[..done + 1] == field[..done] + [field[done]];
    assert written[..HEADER_SIZE] == values[..HEADER_SIZE][8 + done := field[done]];
    assert written[..HEADER_SIZE] == Splice(Template(c, t)[..HEADER_SIZE], 8, field[..done + 1]);
  }

  // Once its crc field is complete, what is in the slot is a packet with that checksum.
  lemma SealedExactly(c: Config, t: MsgType, word: nat, slot: nat, field: seq<Byte>, head: nat, acquired: nat,
                      values: seq<Byte>, computeCrc: bool)
    requires c.Valid() && |values| == c.region.slotBytes
    requires ProducerAt(c, Sealing(t, word, slot, field, 4), head, acquired, values)
    ensures HEADER_SIZE + t.Size() <= |values|
    ensures var payload := Payload(values, t);
            var crc := if computeCrc then Checksum(payload) else 0;
            field == CrcField(c.host, payload, computeCrc) ==>
              values[..HEADER_SIZE + t.Size()] == Packet(c.host, t, payload, crc)
  {
    hide Template, SlotOf, WordOf, CrcField, Packet, Checksum;
    assert c.region.Suits(t);
    var payload, image := Payload(values, t), values[..HEADER_SIZE + t.Size()];
    if field == CrcField(c.host, payload, computeCrc) {
      assert field[..4] == field;
      StoringCrc(c.host, t, payload, 0, computeCrc);
      ImageIsPacket(c, t, payload, field);
      assert image == values[..HEADER_SIZE] + payload;
    }
  }

  // That makes it sealed.
  lemma SealedImage(c: Config, t: MsgType, word: nat, slot: nat, field: seq<Byte>, head: nat, acquired: nat,
                    values: seq<Byte>)
    requires c.Valid() && |values| == c.region.slotBytes
    requires ProducerAt(c, Sealing(t, word, slot, field, 4), head, acquired, values)
    ensures HEADER_SIZE + t.Size() <= |values|
    ensures IsSealed(c, Message(t, values[..HEADER_SIZE + t.Size()]))
  {
    hide Template, SlotOf, WordOf, CrcField, Packet, Checksum, HeaderReady;
    assert c.region.Suits(t);
    var computeCrc :| field == CrcField(c.host, Payload(values, t), computeCrc);
    SealedExactly(c, t, word, slot, field, head, acquired, values, computeCrc);
  }

  lemma ImageIsPacket(c: Config, t: MsgType, payload: seq<Byte>, field: seq<Byte>)
    requires |field| == 4
    ensures Splice(Template(c, t)[..HEADER_SIZE], 8, field) + payload == Splice(Packet(c.host, t, payload, 0), 8, field)
  {
    hide HeaderBytes;
    var header := HeaderBytes(c.host, Header(MAGIC, t.id, t.version, 0, t.Size()));
    assert Template(c, t)[..HEADER_SIZE] == header;
    SpliceLeft(header, payload, 8, field);
  }

  // ---- Steps that touch no slot ----

  // Nothing shared changes; clocks advance and knowledge grows.
  ghost predicate LocalStep(c: Config, s: State, s': State) {
    && s'.heads == s.heads && s'.tails == s.tails && s'.cells == s.cells
    && s'.committed == s.committed && s'.delivered == s.delivered
    && s.producer.clock <= s'.producer.clock && s.consumer.clock <= s'.consumer.clock
    && s.consumer.acquired <= s'.consumer.acquired
  }

  lemma ClocksStayBound(s: State, s': State)
    requires ClocksBound(s) && s'.cells == s.cells
    requires s.producer.clock <= s'.producer.clock && s.consumer.clock <= s'.consumer.clock
    ensures ClocksBound(s')
  {
    forall i | 0 <= i < |s'.cells|
      ensures WrittenBy(s'.cells[i], s'.producer.clock) && ReadBy(s'.cells[i], s'.consumer.clock)
    {
      assert WrittenBy(s.cells[i], s.producer.clock) && ReadBy(s.cells[i], s.consumer.clock);
    }
  }

  lemma DeliveriesStillMatch(s: State, s': State)
    requires DeliveredMatch(s) && s.committed <= s'.committed && s'.delivered == s.delivered
    ensures DeliveredMatch(s')
  {
    hide Agrees;
  }

  lemma AllSealedStays(c: Config, s: State, s': State)
    requires AllSealed(c, s) && s'.committed == s.committed
    ensures AllSealed(c, s')
  {
    hide IsSealed;
  }

  lemma OrderLater(c: Config, order: seq<Entry>, clock: nat, later: nat)
    requires IsOrder(c, order, clock) && clock <= later
    ensures IsOrder(c, order, later)
  {
    hide WordOf;
  }

  lemma SlotsStillHold(c: Config, s: State, s': State)
    requires Shaped(c, s) && Shaped(c, s') && InStep(c, s) && InStep(c, s') && SlotsHold(c, s)
    requires s'.cells == s.cells && s'.heads == s.heads && s'.committed == s.committed && |s.tails| <= |s'.tails|
    ensures SlotsHold(c, s')
  {
    hide SlotOf, HoldsMessage, Pow2;
    forall m: nat | TailCount(s') <= m < HeadCount(s')
      ensures HoldsMessage(s'.cells[SlotOf(c.Shape(), m)], s'.committed[m], s'.heads[m + 1].clock)
    {
      assert HoldsMessage(s.cells[SlotOf(c.Shape(), m)], s.committed[m], s.heads[m + 1].clock);
    }
  }

  lemma ReadsStillDone(c: Config, s: State, s': State)
    requires Shaped(c, s) && Shaped(c, s') && InStep(c, s) && InStep(c, s') && ReadsDone(c, s)
    requires s'.cells == s.cells && s'.tails == s.tails && s.consumer.acquired <= s'.consumer.acquired
    ensures ReadsDone(c, s')
  {
    hide SlotOf, ReadBy, Pow2;
    forall m: nat | TailCount(s) <= m < TailCount(s) + c.Capacity() && !(m == TailCount(s) < s'.consumer.acquired)
      ensures ReadBy(s'.cells[SlotOf(c.Shape(), m)], s'.tails[PreviousUse(c, m)].clock)
    {
      assert ReadBy(s.cells[SlotOf(c.Shape(), m)], s.tails[PreviousUse(c, m)].clock);
    }
  }

  lemma LocalStepKeeps(c: Config, s: State, s': State)
    requires Inv(c, s) && LocalStep(c, s, s') && Shaped(c, s') && InStep(c, s')
    ensures SharedInv(c, s')
  {
    hide Shaped, InStep, ProducerReady, ConsumerReady, Region.Valid, Pow2,
      IsOrder, ClocksBound, SlotsHold, ReadsDone, AllSealed, DeliveredMatch;
    OrderLater(c, s.heads, s.producer.clock, s'.producer.clock);
    OrderLater(c, s.tails, s.consumer.clock, s'.consumer.clock);
    ClocksStayBound(s, s');
    SlotsStillHold(c, s, s');
    ReadsStillDone(c, s, s');
    AllSealedStays(c, s, s');
    DeliveriesStillMatch(s, s');
  }

  // A step of the producer leaves the consumer where it was, and the other way round.
  lemma ConsumerUndisturbed(c: Config, s: State, s': State)
    requires Inv(c, s) && Shaped(c, s') && InStep(c, s')
    requires s'.cpc == s.cpc && |s'.tails| == |s.tails| && s.committed <= s'.committed
    requires s.consumer.acquired <= s'.consumer.acquired
    ensures ConsumerReady(c, s')
  {
    hide SlotOf, WordOf, Pow2, Values, SharedInv, ProducerReady, Matches, Region.Valid, Region.Suits;
  }

  lemma ProducerUndisturbed(c: Config, s: State, s': State)
    requires Inv(c, s) && Shaped(c, s') && InStep(c, s')
    requires s'.ppc == s.ppc && |s'.heads| == |s.heads| && s.producer.acquired <= s'.producer.acquired
    requires var slot := SlotOf(c.Shape(), HeadCount(s)); Values(s'.cells[slot]) == Values(s.cells[slot])
    ensures ProducerReady(c, s')
  {
    hide SlotOf, WordOf, Pow2, Values, SharedInv, ConsumerReady, HeaderReady, CrcField, Template, Region.Valid,
      Region.Suits;
  }

  lemma ProducerLocalStepKeeps(c: Config, s: State, s': State)
    requires Inv(c, s) && LocalStep(c, s, s') && s'.cpc == s.cpc
    requires Shaped(c, s') && InStep(c, s') && ProducerReady(c, s')
    ensures Inv(c, s')
  {
    hide ProducerReady, ConsumerReady, SharedInv, Shaped, InStep, Region.Valid;
    LocalStepKeeps(c, s, s');
    ConsumerUndisturbed(c, s, s');
  }

  lemma ConsumerLocalStepKeeps(c: Config, s: State, s': State)
    requires Inv(c, s) && LocalStep(c, s, s') && s'.ppc == s.ppc && s'.producer == s.producer
    requires Shaped(c, s') && InStep(c, s') && ConsumerReady(c, s')
    ensures Inv(c, s')
  {
    hide ProducerReady, ConsumerReady, SharedInv, Values, SlotOf, Pow2, Region.Valid;
    LocalStepKeeps(c, s, s');
    ProducerUndisturbed(c, s, s');
  }

  lemma LoadHeadKeeps(c: Config, s: State)
    requires Inv(c, s)
    ensures Inv(c, AfterLoadHead(s))
  {
    hide Inv, SlotOf, WordOf, Values, ConsumerReady, SharedInv, Pow2, Region.Valid;
    Parts(c, s);
    Words(c, s);
    ProducerLocalStepKeeps(c, s, AfterLoadHead(s));
  }

  lemma AbandonKeeps(c: Config, s: State)
    requires Inv(c, s)
    ensures Inv(c, AfterAbandon(s))
  {
    hide Inv, SlotOf, Values, ConsumerReady, SharedInv, Pow2, Region.Valid;
    Parts(c, s);
    ProducerLocalStepKeeps(c, s, AfterAbandon(s));
  }

  lemma QueryTailKeeps(c: Config, s: State, i: nat)
    requires Inv(c, s) && s.producer.seen <= i < |s.tails|
    ensures Inv(c, AfterQueryTail(s, i))
  {
    hide Inv, SlotOf, Values, ConsumerReady, ProducerAt, SharedInv, Pow2, Region.Valid;
    Parts(c, s);
    ProducerLocalStepKeeps(c, s, AfterQueryTail(s, i));
  }

  /** prepare_write answers null exactly when the tail it loaded leaves no room. */
  lemma AcquireTailKeeps(c: Config, s: State, i: nat, t: MsgType)
    requires Inv(c, s) && s.ppc.HeadLoaded? && s.producer.seen <= i < |s.tails| && t in c.types
    ensures Inv(c, AfterAcquireTail(c, s, i, t))
    ensures AfterAcquireTail(c, s, i, t).ppc.Resting? <==> HeadCount(s) - i >= c.Capacity()
  {
    hide Inv, SlotOf, WordOf, Values, Minus, SlotIndex, Template, ConsumerReady, SharedInv, Pow2, Region.Valid,
      Region.Suits;
    Parts(c, s);
    var s' := AfterAcquireTail(c, s, i, t);
    ShapeIsValid(c);
    WordsDecideAlike(c.Shape(), HeadCount(s), i);
    SlotIndexOfWord(c, HeadCount(s));
    Words(c, s);
    if s'.ppc.Preparing? {
      assert Values(s'.cells[s'.ppc.slot])[..0] == Template(c, t)[..0];
    }
    ProducerLocalStepKeeps(c, s, s');
  }

  lemma ShapeIsValid(c: Config)
    requires c.Valid()
    ensures c.Shape().Valid() && c.region.slotBytes >= HEADER_SIZE
    ensures forall t :: t in c.types ==> HEADER_SIZE + t.Size() <= c.region.slotBytes
  {
    assert forall t :: t in c.types ==> c.region.Suits(t);
  }

  lemma SealKeeps(c: Config, s: State, computeCrc: bool)
    requires Inv(c, s) && s.ppc.Filling?
    requires HEADER_SIZE + s.ppc.t.Size() <= c.region.slotBytes
    ensures Inv(c, AfterSeal(c, s, computeCrc))
  {
    hide Inv, SlotOf, WordOf, Values, SlotIndex, CrcField, ProducerAt, ConsumerReady, SharedInv, Payload, Pow2,
      Region.Valid, Region.Suits;
    Parts(c, s);
    OwnedSlot(c, s);
    var s', head := AfterSeal(c, s, computeCrc), HeadCount(s);
    SlotIndexOfWord(c, head);
    Words(c, s);
    SealReady(c, s.ppc.t, s.ppc.slot, head, s.producer.acquired, Values(s.cells[SlotOf(c.Shape(), head)]), computeCrc);
    ProducerLocalStepKeeps(c, s, s');
  }

  lemma LoadTailKeeps(c: Config, s: State)
    requires Inv(c, s)
    ensures Inv(c, AfterLoadTail(s))
  {
    hide Inv, SlotOf, WordOf, Values, ProducerReady, SharedInv, Pow2, Region.Valid;
    Parts(c, s);
    Words(c, s);
    ConsumerLocalStepKeeps(c, s, AfterLoadTail(s));
  }

  lemma LeaveKeeps(c: Config, s: State)
    requires Inv(c, s)
    ensures Inv(c, AfterLeave(s))
  {
    hide Inv, SlotOf, WordOf, Values, ProducerReady, SharedInv, Pow2, Region.Valid;
    Parts(c, s);
    ConsumerLocalStepKeeps(c, s, AfterLeave(s));
  }

  lemma QueryHeadKeeps(c: Config, s: State, i: nat)
    requires Inv(c, s) && s.consumer.seen <= i < |s.heads|
    ensures Inv(c, AfterQueryHead(s, i))
  {
    hide Inv, SlotOf, WordOf, Values, ProducerReady, ConsumerAt, SharedInv, Pow2, Region.Valid, Matches;
    Parts(c, s);
    ConsumerLocalStepKeeps(c, s, AfterQueryHead(s, i));
  }

  /** peek_read finds the ring empty exactly when the head it loaded is its own tail. */
  lemma AcquireHeadKeeps(c: Config, s: State, i: nat)
    requires Inv(c, s) && s.cpc.TailLoaded? && s.consumer.seen <= i < |s.heads|
    ensures Inv(c, AfterAcquireHead(c, s, i))
    ensures AfterAcquireHead(c, s, i).cpc.Idle? <==> i == TailCount(s)
  {
    hide Inv, SlotOf, WordOf, Values, SlotIndex, ProducerReady, SharedInv, Pow2, Region.Valid;
    Parts(c, s);
    ShapeIsValid(c);
    WordsDecideAlike(c.Shape(), i, TailCount(s));
    SlotIndexOfWord(c, TailCount(s));
    Words(c, s);
    ConsumerLocalStepKeeps(c, s, AfterAcquireHead(c, s, i));
  }

  // ---- The producer writes a byte ----

  ghost predicate SameButCells(s: State, s': State) {
    && s'.heads == s.heads && s'.tails == s.tails && s'.committed == s.committed
    && s'.delivered == s.delivered && s'.consumer == s.consumer
  }

  // Only the slot of the next message changes, and its reads stay as they were.
  ghost predicate WritesOnly(c: Config, s: State, s': State, slot: nat)
    requires Shaped(c, s) && Shaped(c, s')
  {
    && slot < c.Capacity()
    && SameButCells(s, s')
    && s'.producer == Tick(s.producer)
    && (forall i :: 0 <= i < |s.cells| && i != slot ==> s'.cells[i] == s.cells[i])
    && WrittenBy(s'.cells[slot], s'.producer.clock)
    && forall clock :: ReadBy(s.cells[slot], clock) ==> ReadBy(s'.cells[slot], clock)
  }

  lemma WriteCellWrites(c: Config, s: State, s': State, slot: nat, offset: nat, value: Byte)
    requires Shaped(c, s) && Shaped(c, s') && ClocksBound(s)
    requires slot < c.Capacity() && offset < c.region.slotBytes && s'.cells == WriteCell(s, slot, offset, value)
    requires SameButCells(s, s')
    requires s'.producer == Tick(s.producer)
    ensures WritesOnly(c, s, s', slot)
    ensures Values(s'.cells[slot]) == Values(s.cells[slot])[offset := value]
  {
    assert WrittenBy(s.cells[slot], s.producer.clock);
  }

  lemma WriteKeepsSlots(c: Config, s: State, s': State)
    requires Shaped(c, s) && Shaped(c, s') && InStep(c, s) && InStep(c, s') && SlotsHold(c, s)
    requires HeadCount(s) < TailCount(s) + c.Capacity()
    requires WritesOnly(c, s, s', SlotOf(c.Shape(), HeadCount(s)))
    ensures SlotsHold(c, s')
  {
    hide SlotOf, Pow2, HoldsMessage;
    forall m: nat | TailCount(s) <= m < HeadCount(s)
      ensures HoldsMessage(s'.cells[SlotOf(c.Shape(), m)], s'.committed[m], s'.heads[m + 1].clock)
    {
      SlotsDiffer(c.Shape(), m, HeadCount(s));
      assert HoldsMessage(s.cells[SlotOf(c.Shape(), m)], s.committed[m], s.heads[m + 1].clock);
    }
  }

  lemma WriteKeepsReads(c: Config, s: State, s': State, slot: nat)
    requires Shaped(c, s) && Shaped(c, s') && InStep(c, s) && InStep(c, s') && ReadsDone(c, s)
    requires WritesOnly(c, s, s', slot)
    ensures ReadsDone(c, s')
  {
    hide SlotOf, Pow2, ReadBy;
    forall m: nat | TailCount(s) <= m < TailCount(s) + c.Capacity() && !(m == TailCount(s) < s.consumer.acquired)
      ensures ReadBy(s'.cells[SlotOf(c.Shape(), m)], s'.tails[PreviousUse(c, m)].clock)
    {
      assert ReadBy(s.cells[SlotOf(c.Shape(), m)], s.tails[PreviousUse(c, m)].clock);
    }
  }

  lemma WriteKeepsClocks(c: Config, s: State, s': State, slot: nat)
    requires Shaped(c, s) && Shaped(c, s') && ClocksBound(s) && WritesOnly(c, s, s', slot)
    ensures ClocksBound(s')
  {
    forall i | 0 <= i < |s'.cells|
      ensures WrittenBy(s'.cells[i], s'.producer.clock) && ReadBy(s'.cells[i], s'.consumer.clock)
    {
      assert WrittenBy(s.cells[i], s.producer.clock) && ReadBy(s.cells[i], s.consumer.clock);
    }
  }

  lemma OwnedSlot(c: Config, s: State)
    requires Inv(c, s) && ProducerOwns(s)
    ensures s.ppc.slot == SlotOf(c.Shape(), HeadCount(s)) && HeadCount(s) < TailCount(s) + c.Capacity()
    ensures HeadCount(s) < s.producer.acquired + c.Capacity()
  {
    hide SlotOf, WordOf, Values, SharedInv, ConsumerReady, HeaderReady, CrcField, Template, Pow2, Region.Valid,
      Region.Suits;
  }

  lemma SharedParts(c: Config, s: State)
    requires c.Valid() && Shaped(c, s) && InStep(c, s) && SharedInv(c, s)
    ensures ClocksBound(s)
  {
    hide Shaped, InStep, ClocksBound, SlotsHold, ReadsDone, AllSealed, DeliveredMatch, IsOrder;
  }

  lemma WriteKeepsShared(c: Config, s: State, s': State, slot: nat)
    requires c.Valid() && Shaped(c, s) && InStep(c, s) && SharedInv(c, s) && Shaped(c, s')
    requires HeadCount(s) < TailCount(s) + c.Capacity() && slot == SlotOf(c.Shape(), HeadCount(s))
    requires WritesOnly(c, s, s', slot)
    ensures InStep(c, s') && SharedInv(c, s')
  {
    hide SlotsHold, ReadsDone, ClocksBound, AllSealed, WrittenBy, ReadBy, SlotOf, Pow2, Region.Valid;
    WriteKeepsSlots(c, s, s');
    WriteKeepsReads(c, s, s', slot);
    WriteKeepsClocks(c, s, s', slot);
    AllSealedStays(c, s, s');
  }

  lemma WriteKeeps(c: Config, s: State, s': State, offset: nat, value: Byte)
    requires Inv(c, s) && Shaped(c, s') && ProducerOwns(s) && offset < c.region.slotBytes
    requires s'.cells == WriteCell(s, s.ppc.slot, offset, value)
    requires SameButCells(s, s') && s'.producer == Tick(s.producer)
    ensures InStep(c, s') && SharedInv(c, s')
    ensures Values(s'.cells[s.ppc.slot]) == Values(s.cells[s.ppc.slot])[offset := value]
    ensures s.ppc.slot == SlotOf(c.Shape(), HeadCount(s))
  {
    hide Inv, SharedInv, InStep, SlotOf, ConsumerReady, ProducerReady, WriteCell, Values, Pow2, Region.Valid,
      WritesOnly;
    OwnedSlot(c, s);
    Parts(c, s);
    SharedParts(c, s);
    WriteCellWrites(c, s, s', s.ppc.slot, offset, value);
    WriteKeepsShared(c, s, s', s.ppc.slot);
  }

  lemma ProducerWriteKeeps(c: Config, s: State, s': State, offset: nat, value: Byte)
    requires Inv(c, s) && Shaped(c, s') && ProducerOwns(s) && offset < c.region.slotBytes
    requires s'.cells == WriteCell(s, s.ppc.slot, offset, value)
    requires SameButCells(s, s') && s'.producer == Tick(s.producer) && s'.cpc == s.cpc
    requires ProducerAt(c, s'.ppc, HeadCount(s), s.producer.acquired, Values(s.cells[s.ppc.slot])[offset := value])
    ensures Inv(c, s')
  {
    hide Inv, InStep, SharedInv, ConsumerReady, ProducerAt, Values, WriteCell, SlotOf, Pow2, Region.Valid;
    WriteKeeps(c, s, s', offset, value);
    ConsumerUndisturbed(c, s, s');
    Parts(c, s);
    Whole(c, s');
  }

  lemma PrepareByteKeeps(c: Config, s: State)
    requires Inv(c, s) && s.ppc.Preparing? && s.ppc.done < HEADER_SIZE + s.ppc.t.Size() <= c.region.slotBytes
    ensures Inv(c, AfterPrepareByte(c, s))
  {
    hide Inv, InStep, SharedInv, ConsumerReady, ProducerAt, Values, WriteCell, SlotOf, Template, Pow2, Region.Valid,
      Region.Suits;
    Parts(c, s);
    OwnedSlot(c, s);
    PrepareReady(c, s.ppc.t, s.ppc.slot, s.ppc.done, HeadCount(s), s.producer.acquired, Values(s.cells[s.ppc.slot]));
    ProducerWriteKeeps(c, s, AfterPrepareByte(c, s), s.ppc.done, Template(c, s.ppc.t)[s.ppc.done]);
  }

  lemma FillByteKeeps(c: Config, s: State, offset: nat, value: Byte)
    requires Inv(c, s) && s.ppc.Filling? && HEADER_SIZE <= offset < c.region.slotBytes
    ensures Inv(c, AfterFillByte(s, offset, value))
  {
    hide Inv, InStep, SharedInv, ConsumerReady, ProducerAt, Values, WriteCell, SlotOf, Pow2, Region.Valid, Region.Suits;
    Parts(c, s);
    OwnedSlot(c, s);
    FillReady(c, s.ppc.t, s.ppc.slot, HeadCount(s), s.producer.acquired, Values(s.cells[s.ppc.slot]), offset, value);
    ProducerWriteKeeps(c, s, AfterFillByte(s, offset, value), offset, value);
  }

  lemma SealByteKeeps(c: Config, s: State)
    requires Inv(c, s) && s.ppc.Sealing? && s.ppc.done < 4 && HEADER_SIZE <= c.region.slotBytes
    ensures Inv(c, AfterSealByte(s))
  {
    hide Inv, InStep, SharedInv, ConsumerReady, ProducerAt, Values, WriteCell, SlotOf, Pow2, Region.Valid, Region.Suits;
    Parts(c, s);
    OwnedSlot(c, s);
    SealByteReady(c, s.ppc.t, s.ppc.head, s.ppc.slot, s.ppc.field, s.ppc.done,
                  HeadCount(s), s.producer.acquired, Values(s.cells[s.ppc.slot]));
    ProducerWriteKeeps(c, s, AfterSealByte(s), 8 + s.ppc.done, s.ppc.field[s.ppc.done]);
  }
}
