/** The lock-free ring as one producer and one consumer run it, step by step.

    The two atomic counters are modification orders: a load may return any entry from
    the last one the thread has seen onwards. Slot bytes are plain memory; every cell
    remembers the producer's event that wrote it last and the consumer's event that read
    it last, so that happens-before (section 4.7.1 of ISO/IEC 14882:2017) can be decided:
    an event of the other thread happened before the current one exactly when its number
    is at most the clock carried by a release store this thread has acquired. */
module RingProtocol {
  import opened ByteOrder
  import opened Memory
  import opened Wire
  import opened Counters
  import opened Region
  import opened Crc32
  import opened Dispatch

  // ---- State ----

  datatype Config = Config(region: Region, host: Endian, types: seq<MsgType>) {
    predicate Valid() {
      region.Valid() && forall t :: t in types ==> region.Suits(t)
    }

    function Shape(): Shape {
      region.shape
    }

    function Capacity(): nat {
      region.shape.Capacity()
    }
  }

  // A release store to an atomic counter, with the clock of the storing thread.
  datatype Entry = Entry(word: nat, clock: nat)

  // A byte of a slot, the producer's last write to it and the consumer's last read.
  datatype Cell = Cell(value: Byte, wrote: nat, read: nat)

  /** What a thread knows of the other's counter: the newest entry it has loaded, and the
      newest it has loaded with acquire. `clock` numbers its own events. */
  datatype Thread = Thread(clock: nat, seen: nat, acquired: nat)

  datatype ProducerPc =
    | Resting
    | HeadLoaded(head: nat)
    | Preparing(t: MsgType, slot: nat, done: nat)
    | Filling(t: MsgType, slot: nat)
    | Sealing(t: MsgType, head: nat, slot: nat, field: seq<Byte>, done: nat)

  datatype ConsumerPc =
    | Idle
    | TailLoaded(tail: nat)
    | Reading(slot: nat, got: map<nat, Byte>, accepted: Option<MsgType>)

  // A packet as it stood in its slot when head was stored.
  datatype Message = Message(t: MsgType, image: seq<Byte>)

  /** What the consumer had read of a message, and as which type it had viewed it, if it
      had, when it stored tail. */
  datatype Delivery = Delivery(t: Option<MsgType>, got: map<nat, Byte>)

  datatype State = State(
    heads: seq<Entry>, tails: seq<Entry>, cells: seq<seq<Cell>>,
    producer: Thread, ppc: ProducerPc,
    consumer: Thread, cpc: ConsumerPc,
    committed: seq<Message>, delivered: seq<Delivery>)

  function Values(row: seq<Cell>): (r: seq<Byte>)
    ensures |r| == |row|
    ensures forall o :: 0 <= o < |row| ==> r[o] == row[o].value
  {
    seq(|row|, o requires 0 <= o < |row| => row[o].value)
  }

  ghost predicate WrittenBy(row: seq<Cell>, clock: nat) {
    forall o :: 0 <= o < |row| ==> row[o].wrote <= clock
  }

  ghost predicate ReadBy(row: seq<Cell>, clock: nat) {
    forall o :: 0 <= o < |row| ==> row[o].read <= clock
  }

  ghost predicate Shaped(c: Config, s: State) {
    && |s.heads| > 0
    && |s.tails| > 0
    && |s.cells| == c.Capacity()
    && (forall i :: 0 <= i < |s.cells| ==> |s.cells[i]| == c.region.slotBytes)
    && s.producer.seen < |s.tails| && s.producer.acquired < |s.tails|
    && s.consumer.seen < |s.heads| && s.consumer.acquired < |s.heads|
    && (s.ppc.Preparing? ==> s.ppc.t in c.types && s.ppc.slot < c.Capacity())
    && (s.ppc.Filling? ==> s.ppc.t in c.types && s.ppc.slot < c.Capacity())
    && (s.ppc.Sealing? ==> s.ppc.t in c.types && s.ppc.slot < c.Capacity() && |s.ppc.field| == 4)
    && (s.cpc.Reading? ==> s.cpc.slot < c.Capacity())
  }

  // Both sides attached, nothing sent yet, slots with arbitrary contents.
  ghost predicate Init(c: Config, s: State) {
    && Shaped(c, s)
    && s.heads == [Entry(0, 0)] && s.tails == [Entry(0, 0)]
    && (forall i :: 0 <= i < |s.cells| ==> WrittenBy(s.cells[i], 0) && ReadBy(s.cells[i], 0))
    && s.producer == Thread(0, 0, 0) && s.ppc == Resting
    && s.consumer == Thread(0, 0, 0) && s.cpc == Idle
    && s.committed == [] && s.delivered == []
  }

  // ---- Steps ----

  datatype Action =
    | LoadHead
    | AcquireTail(i: nat, t: MsgType)
    | PrepareByte
    | FillByte(offset: nat, value: Byte)
    | Abandon
    | Seal(computeCrc: bool)
    | SealByte
    | ReleaseHead
    | QueryTail(i: nat)
    | LoadTail
    | AcquireHead(i: nat)
    | ReadByte(offset: nat, value: Byte)
    | Accept(t: MsgType, verifyCrc: bool)
    | Inspect(verifyCrc: bool)
    | Leave
    | ReleaseTail
    | QueryHead(i: nat)
  {
    predicate OfProducer() {
      || LoadHead? || AcquireTail? || PrepareByte? || FillByte? || Abandon?
      || Seal? || SealByte? || ReleaseHead? || QueryTail?
    }
  }

  function HeadCount(s: State): nat
    requires |s.heads| > 0
  {
    |s.heads| - 1
  }

  function TailCount(s: State): nat
    requires |s.tails| > 0
  {
    |s.tails| - 1
  }

  // The other thread's events that happened before this thread's next one.
  function KnownToProducer(s: State): nat
    requires s.producer.acquired < |s.tails|
  {
    s.tails[s.producer.acquired].clock
  }

  function KnownToConsumer(s: State): nat
    requires s.consumer.acquired < |s.heads|
  {
    s.heads[s.consumer.acquired].clock
  }

  // prepare<T> on the chosen slot: header and newly constructed value.
  function Template(c: Config, t: MsgType): (r: seq<Byte>)
    ensures |r| == HEADER_SIZE + t.Size()
  {
    Packet(c.host, t, t.initial, 0)
  }

  // The bytes read so far, as a buffer; bytes not read count as zero.
  function Assemble(got: map<nat, Byte>, n: nat): (r: seq<Byte>)
    ensures |r| == n
    ensures forall o :: 0 <= o < n ==> r[o] == if o in got then got[o] else Byte(0)
  {
    seq(n, o requires 0 <= o < n => if o in got then got[o] else Byte(0))
  }

  ghost predicate Covers(got: map<nat, Byte>, from: nat, to: nat) {
    forall o: nat :: from <= o < to ==> o in got
  }

  // The bytes read of a slot, as the pointer and size that the wire functions get.
  function ReadBuffer(c: Config, slot: nat, got: map<nat, Byte>): Buffer {
    Buffer.Memory(c.region.address + c.region.Offset(slot), Assemble(got, c.region.slotBytes))
  }

  /** view<T> on what was read. It looks at the header, and at the payload only to check
      a stored checksum. */
  function ViewError(c: Config, slot: nat, got: map<nat, Byte>, t: MsgType, verifyCrc: bool): ErrorCode {
    Validate(c.host, t, ReadBuffer(c, slot, got), verifyCrc)
  }

  ghost predicate CanView(c: Config, got: map<nat, Byte>, t: MsgType, verifyCrc: bool)
    requires c.region.slotBytes >= HEADER_SIZE
  {
    && Covers(got, 0, HEADER_SIZE)
    && (verifyCrc && ReadHeader(c.host, Assemble(got, c.region.slotBytes)).crc != 0
        ==> Covers(got, HEADER_SIZE, HEADER_SIZE + t.Size()))
  }

  /** Does peek_packet answer with a view on what was read? It goes by the length in the
      header, and looks at the payload only to check a stored checksum. */
  predicate Shows(c: Config, slot: nat, got: map<nat, Byte>, verifyCrc: bool) {
    var buffer := ReadBuffer(c, slot, got);
    && InspectError(c.host, buffer) == Ok
    && var view := Inspected(c.host, buffer);
       verifyCrc && view.header.crc != 0 ==>
         Checksum(buffer.bytes[HEADER_SIZE..HEADER_SIZE + view.payloadLen]) == view.header.crc
  }

  ghost predicate CanInspect(c: Config, got: map<nat, Byte>, verifyCrc: bool)
    requires c.region.slotBytes >= HEADER_SIZE
  {
    && Covers(got, 0, HEADER_SIZE)
    && var header := ReadHeader(c.host, Assemble(got, c.region.slotBytes));
       verifyCrc && header.crc != 0 ==> Covers(got, HEADER_SIZE, HEADER_SIZE + header.payloadLen)
  }

  ghost predicate Enabled(c: Config, s: State, a: Action)
    requires c.Valid() && Shaped(c, s)
  {
    match a
    case LoadHead => s.ppc.Resting?
    case AcquireTail(i, t) => s.ppc.HeadLoaded? && s.producer.seen <= i < |s.tails| && t in c.types
    case PrepareByte => s.ppc.Preparing? && s.ppc.done < HEADER_SIZE + s.ppc.t.Size()
    case FillByte(offset, _) => s.ppc.Filling? && HEADER_SIZE <= offset < HEADER_SIZE + s.ppc.t.Size()
    case Abandon => s.ppc.Filling?
    case Seal(_) => s.ppc.Filling?
    case SealByte => s.ppc.Sealing? && s.ppc.done < 4
    case ReleaseHead => s.ppc.Sealing? && s.ppc.done == 4
    case QueryTail(i) => s.producer.seen <= i < |s.tails|
    case LoadTail => s.cpc.Idle?
    case AcquireHead(i) => s.cpc.TailLoaded? && s.consumer.seen <= i < |s.heads|
    // A read that races with the last write may return any byte.
    case ReadByte(offset, value) =>
      && s.cpc.Reading?
      && offset < c.region.slotBytes
      && (var cell := s.cells[s.cpc.slot][offset]; cell.wrote <= KnownToConsumer(s) ==> value == cell.value)
    case Accept(t, verifyCrc) => s.cpc.Reading? && t in c.types && CanView(c, s.cpc.got, t, verifyCrc)
    case Inspect(verifyCrc) => s.cpc.Reading? && CanInspect(c, s.cpc.got, verifyCrc)
    case Leave => s.cpc.Reading?
    // commit_read needs a ring that the consumer has seen not to be empty, and no more:
    // not that it has viewed the message, nor that it has looked at it at all.
    case ReleaseTail => !s.cpc.TailLoaded? && TailCount(s) < s.consumer.seen
    case QueryHead(i) => s.consumer.seen <= i < |s.heads|
  }

  function WriteCell(s: State, slot: nat, offset: nat, value: Byte): (r: seq<seq<Cell>>)
    requires slot < |s.cells| && offset < |s.cells[slot]|
    ensures |r| == |s.cells| && forall i :: 0 <= i < |r| ==> |r[i]| == |s.cells[i]|
  {
    s.cells[slot := s.cells[slot][offset := Cell(value, s.producer.clock + 1, s.cells[slot][offset].read)]]
  }

  function ReadCell(s: State, slot: nat, offset: nat): (r: seq<seq<Cell>>)
    requires slot < |s.cells| && offset < |s.cells[slot]|
    ensures |r| == |s.cells| && forall i :: 0 <= i < |r| ==> |r[i]| == |s.cells[i]|
  {
    s.cells[slot := s.cells[slot][offset := s.cells[slot][offset].(read := s.consumer.clock + 1)]]
  }

  function Tick(thread: Thread): Thread {
    thread.(clock := thread.clock + 1)
  }

  // head_.load(relaxed): a thread always sees its own last store.
  function AfterLoadHead(s: State): State
    requires |s.heads| > 0
  {
    s.(producer := Tick(s.producer), ppc := HeadLoaded(s.heads[HeadCount(s)].word))
  }

  // tail_.load(acquire), the test for a full ring, and the choice of the slot.
  function AfterAcquireTail(c: Config, s: State, i: nat, t: MsgType): State
    requires c.Valid() && s.ppc.HeadLoaded? && i < |s.tails|
  {
    s.(producer := Thread(s.producer.clock + 1, i, i),
       ppc := if Minus(c.Shape(), s.ppc.head, s.tails[i].word) >= c.Capacity() then Resting
              else Preparing(t, SlotIndex(c, s.ppc.head), 0))
  }

  function AfterPrepareByte(c: Config, s: State): State
    requires s.ppc.Preparing? && s.ppc.slot < |s.cells| && s.ppc.done < |s.cells[s.ppc.slot]|
    requires s.ppc.done < HEADER_SIZE + s.ppc.t.Size()
  {
    var done, size := s.ppc.done + 1, HEADER_SIZE + s.ppc.t.Size();
    s.(producer := Tick(s.producer),
       cells := WriteCell(s, s.ppc.slot, s.ppc.done, Template(c, s.ppc.t)[s.ppc.done]),
       ppc := if done < size then Preparing(s.ppc.t, s.ppc.slot, done) else Filling(s.ppc.t, s.ppc.slot))
  }

  function AfterFillByte(s: State, offset: nat, value: Byte): State
    requires s.ppc.Filling? && s.ppc.slot < |s.cells| && offset < |s.cells[s.ppc.slot]|
  {
    s.(producer := Tick(s.producer), cells := WriteCell(s, s.ppc.slot, offset, value))
  }

  function AfterAbandon(s: State): State {
    s.(producer := Tick(s.producer), ppc := Resting)
  }

  // The start of commit_write: head_.load(relaxed), the slot again, and the checksum.
  function AfterSeal(c: Config, s: State, computeCrc: bool): State
    requires c.Valid() && |s.heads| > 0 && s.ppc.Filling?
    requires |s.cells| == c.Capacity()
    requires forall i :: 0 <= i < |s.cells| ==> |s.cells[i]| >= HEADER_SIZE + s.ppc.t.Size()
  {
    var head := s.heads[HeadCount(s)].word;
    var slot := SlotIndex(c, head);
    s.(producer := Tick(s.producer),
       ppc := Sealing(s.ppc.t, head, slot, CrcField(c.host, Payload(Values(s.cells[slot]), s.ppc.t), computeCrc), 0))
  }

  function AfterSealByte(s: State): State
    requires s.ppc.Sealing? && s.ppc.done < |s.ppc.field|
    requires s.ppc.slot < |s.cells| && 8 + s.ppc.done < |s.cells[s.ppc.slot]|
  {
    s.(producer := Tick(s.producer),
       cells := WriteCell(s, s.ppc.slot, 8 + s.ppc.done, s.ppc.field[s.ppc.done]),
       ppc := Sealing(s.ppc.t, s.ppc.head, s.ppc.slot, s.ppc.field, s.ppc.done + 1))
  }

  // head_.store(head + 1, release)
  function AfterReleaseHead(c: Config, s: State): State
    requires s.ppc.Sealing? && s.ppc.slot < |s.cells|
    requires HEADER_SIZE + s.ppc.t.Size() <= |s.cells[s.ppc.slot]|
  {
    s.(producer := Tick(s.producer),
       heads := s.heads + [Entry(Plus1(c.Shape(), s.ppc.head), s.producer.clock + 1)],
       committed := s.committed
                    + [Message(s.ppc.t, Values(s.cells[s.ppc.slot])[..HEADER_SIZE + s.ppc.t.Size()])],
       ppc := Resting)
  }

  // A relaxed load of tail, in size(), empty() or full().
  function AfterQueryTail(s: State, i: nat): State {
    s.(producer := Thread(s.producer.clock + 1, i, s.producer.acquired))
  }

  function AfterLoadTail(s: State): State
    requires |s.tails| > 0
  {
    s.(consumer := Tick(s.consumer), cpc := TailLoaded(s.tails[TailCount(s)].word))
  }

  function AfterAcquireHead(c: Config, s: State, i: nat): State
    requires c.Valid() && s.cpc.TailLoaded? && i < |s.heads|
  {
    s.(consumer := Thread(s.consumer.clock + 1, i, i),
       cpc := if s.heads[i].word == s.cpc.tail then Idle else Reading(SlotIndex(c, s.cpc.tail), map[], None))
  }

  function AfterReadByte(s: State, offset: nat, value: Byte): State
    requires s.cpc.Reading? && s.cpc.slot < |s.cells| && offset < |s.cells[s.cpc.slot]|
  {
    s.(consumer := Tick(s.consumer), cells := ReadCell(s, s.cpc.slot, offset),
       cpc := s.cpc.(got := s.cpc.got[offset := value]))
  }

  // view<T>; after a refusal another type may be tried, as dispatch does.
  function AfterAccept(c: Config, s: State, t: MsgType, verifyCrc: bool): State
    requires s.cpc.Reading?
  {
    s.(consumer := Tick(s.consumer),
       cpc := if ViewError(c, s.cpc.slot, s.cpc.got, t, verifyCrc) == Ok then s.cpc.(accepted := Some(t)) else s.cpc)
  }

  function AfterInspect(c: Config, s: State, verifyCrc: bool): State
    requires s.cpc.Reading?
  {
    s.(consumer := Tick(s.consumer),
       cpc := if Shows(c, s.cpc.slot, s.cpc.got, verifyCrc) then s.cpc else Idle)
  }

  function AfterLeave(s: State): State {
    s.(consumer := Tick(s.consumer), cpc := Idle)
  }

  // What the consumer knows of the message it hands back: nothing, if it was not at it.
  function Taken(pc: ConsumerPc): Delivery {
    if pc.Reading? then Delivery(pc.accepted, pc.got) else Delivery(None, map[])
  }

  // commit_read: tail_.load(relaxed), tail_.store(tail + 1, release)
  function AfterReleaseTail(c: Config, s: State): State
    requires |s.tails| > 0
  {
    s.(consumer := Tick(s.consumer),
       tails := s.tails + [Entry(Plus1(c.Shape(), s.tails[TailCount(s)].word), s.consumer.clock + 1)],
       delivered := s.delivered + [Taken(s.cpc)],
       cpc := Idle)
  }

  function AfterQueryHead(s: State, i: nat): State {
    s.(consumer := Thread(s.consumer.clock + 1, i, s.consumer.acquired))
  }

  ghost function Next(c: Config, s: State, a: Action): State
    requires c.Valid() && Shaped(c, s) && Enabled(c, s, a)
  {
    match a
    case LoadHead => AfterLoadHead(s)
    case AcquireTail(i, t) => AfterAcquireTail(c, s, i, t)
    case PrepareByte => AfterPrepareByte(c, s)
    case FillByte(offset, value) => AfterFillByte(s, offset, value)
    case Abandon => AfterAbandon(s)
    case Seal(computeCrc) => AfterSeal(c, s, computeCrc)
    case SealByte => AfterSealByte(s)
    case ReleaseHead => AfterReleaseHead(c, s)
    case QueryTail(i) => AfterQueryTail(s, i)
    case LoadTail => AfterLoadTail(s)
    case AcquireHead(i) => AfterAcquireHead(c, s, i)
    case ReadByte(offset, value) => AfterReadByte(s, offset, value)
    case Accept(t, verifyCrc) => AfterAccept(c, s, t, verifyCrc)
    case Inspect(verifyCrc) => AfterInspect(c, s, verifyCrc)
    case Leave => AfterLeave(s)
    case ReleaseTail => AfterReleaseTail(c, s)
    case QueryHead(i) => AfterQueryHead(s, i)
  }

  // slots_[word & kIndexMask]
  function SlotIndex(c: Config, word: nat): (slot: nat)
    requires c.Valid()
    ensures slot < c.Capacity()
  {
    MaskIsRemainder(word, c.Shape().capacityBits);
    MaskedIndex(c.Shape(), word)
  }

  // ---- The invariant ----

  // The modification order of a counter: the words of 0, 1, 2, ... with rising clocks.
  ghost predicate IsOrder(c: Config, order: seq<Entry>, clock: nat) {
    && |order| > 0
    && order[0].clock == 0
    && (forall i :: 0 <= i < |order| ==> order[i].word == WordOf(c.Shape(), i))
    && (forall i :: 0 <= i < |order| ==> order[i].clock <= clock)
    && (forall i, j :: 0 <= i <= j < |order| ==> order[i].clock <= order[j].clock)
  }

  /** The producer does not run ahead of what it has acquired from the consumer, nor the
      consumer of what it has seen of the producer. */
  ghost predicate InStep(c: Config, s: State) {
    && |s.heads| > 0 && |s.tails| > 0
    && s.producer.acquired <= s.producer.seen <= TailCount(s)
    && TailCount(s) <= s.consumer.seen <= HeadCount(s) && s.consumer.acquired <= s.consumer.seen
    && HeadCount(s) <= s.producer.acquired + c.Capacity()
    && |s.committed| == HeadCount(s) && |s.delivered| == TailCount(s)
  }

  ghost predicate HoldsMessage(row: seq<Cell>, message: Message, clock: nat) {
    && |message.image| <= |row|
    && Values(row)[..|message.image|] == message.image
    && WrittenBy(row, clock)
  }

  // Outstanding messages are in their slots, written before their head was stored.
  ghost predicate SlotsHold(c: Config, s: State)
    requires Shaped(c, s) && InStep(c, s)
  {
    forall m: nat :: TailCount(s) <= m < HeadCount(s) ==>
      HoldsMessage(s.cells[SlotOf(c.Shape(), m)], s.committed[m], s.heads[m + 1].clock)
  }

  function PreviousUse(c: Config, m: nat): nat {
    if m + 1 <= c.Capacity() then 0 else m + 1 - c.Capacity()
  }

  /** Each slot was last read before the tail store that handed it back, except the one
      the consumer may be reading now. */
  ghost predicate ReadsDone(c: Config, s: State)
    requires Shaped(c, s) && InStep(c, s)
  {
    forall m: nat :: TailCount(s) <= m < TailCount(s) + c.Capacity() && !(m == TailCount(s) < s.consumer.acquired) ==>
      ReadBy(s.cells[SlotOf(c.Shape(), m)], s.tails[PreviousUse(c, m)].clock)
  }

  ghost predicate ClocksBound(s: State) {
    forall i :: 0 <= i < |s.cells| ==> WrittenBy(s.cells[i], s.producer.clock) && ReadBy(s.cells[i], s.consumer.clock)
  }

  // A sealed packet of one of the types, with the checksum of its payload or 0.
  ghost predicate IsSealed(c: Config, m: Message) {
    && m.t in c.types
    && exists payload, crc ::
         && |payload| == m.t.Size() && (crc == 0 || crc == Checksum(payload))
         && m.image == Packet(c.host, m.t, payload, crc)
  }

  ghost predicate AllSealed(c: Config, s: State) {
    forall m :: 0 <= m < |s.committed| ==> IsSealed(c, s.committed[m])
  }

  // Everything read of a message is what was committed.
  ghost predicate Matches(got: map<nat, Byte>, m: Message) {
    forall o: nat :: o in got && o < |m.image| ==> got[o] == m.image[o]
  }

  // What is known of a message taken out is true of the message committed.
  ghost predicate Agrees(d: Delivery, m: Message) {
    Matches(d.got, m) && (d.t.Some? ==> SameTraits(d.t.value, m.t))
  }

  ghost predicate DeliveredMatch(s: State) {
    && |s.delivered| <= |s.committed|
    && forall m :: 0 <= m < |s.delivered| ==> Agrees(s.delivered[m], s.committed[m])
  }

  // The header is the prepared one, except for the part of the crc field written so far.
  ghost predicate HeaderReady(c: Config, values: seq<Byte>, t: MsgType, field: seq<Byte>, done: nat)
    requires |values| >= HEADER_SIZE && done <= |field| == 4
  {
    values[..HEADER_SIZE] == Splice(Template(c, t)[..HEADER_SIZE], 8, field[..done])
  }

  const NO_FIELD: seq<Byte> := [Byte(0), Byte(0), Byte(0), Byte(0)]

  function Payload(values: seq<Byte>, t: MsgType): seq<Byte>
    requires HEADER_SIZE + t.Size() <= |values|
  {
    values[HEADER_SIZE..HEADER_SIZE + t.Size()]
  }

  /** What the producer's program counter promises, given the number of heads stored, the
      newest tail it has acquired, and the bytes of the slot of the next message. */
  ghost predicate ProducerAt(c: Config, pc: ProducerPc, head: nat, acquired: nat, values: seq<Byte>)
    requires c.Valid() && |values| == c.region.slotBytes
  {
    match pc
    case Resting => true
    case HeadLoaded(word) => word == WordOf(c.Shape(), head)
    case Preparing(t, slot, done) =>
      && t in c.types && head < acquired + c.Capacity() && slot == SlotOf(c.Shape(), head)
      && done < HEADER_SIZE + t.Size() && values[..done] == Template(c, t)[..done]
    case Filling(t, slot) =>
      && t in c.types && head < acquired + c.Capacity() && slot == SlotOf(c.Shape(), head)
      && HeaderReady(c, values, t, NO_FIELD, 0)
    case Sealing(t, word, slot, field, done) =>
      && t in c.types && head < acquired + c.Capacity() && slot == SlotOf(c.Shape(), head)
      && word == WordOf(c.Shape(), head) && |field| == 4 && done <= 4
      && HeaderReady(c, values, t, field, done)
      && exists computeCrc :: field == CrcField(c.host, Payload(values, t), computeCrc)
  }

  /** What the consumer's program counter promises, given the number of tails stored, the
      newest head it has acquired, and the messages committed. */
  ghost predicate ConsumerAt(c: Config, pc: ConsumerPc, tail: nat, acquired: nat, committed: seq<Message>)
    requires c.Valid()
  {
    match pc
    case Idle => true
    case TailLoaded(word) => word == WordOf(c.Shape(), tail)
    case Reading(slot, got, accepted) =>
      && tail < acquired <= |committed| && slot == SlotOf(c.Shape(), tail)
      && Agrees(Delivery(accepted, got), committed[tail])
  }

  ghost predicate ProducerReady(c: Config, s: State)
    requires c.Valid() && Shaped(c, s)
  {
    ProducerAt(c, s.ppc, HeadCount(s), s.producer.acquired, Values(s.cells[SlotOf(c.Shape(), HeadCount(s))]))
  }

  ghost predicate ConsumerReady(c: Config, s: State)
    requires c.Valid() && Shaped(c, s)
  {
    ConsumerAt(c, s.cpc, TailCount(s), s.consumer.acquired, s.committed)
  }

  // The part of the invariant that does not look at what the threads are doing.
  ghost predicate SharedInv(c: Config, s: State)
    requires c.Valid() && Shaped(c, s) && InStep(c, s)
  {
    && IsOrder(c, s.heads, s.producer.clock)
    && IsOrder(c, s.tails, s.consumer.clock)
    && ClocksBound(s)
    && SlotsHold(c, s)
    && ReadsDone(c, s)
    && AllSealed(c, s)
    && DeliveredMatch(s)
  }

  ghost predicate Inv(c: Config, s: State) {
    && c.Valid()
    && Shaped(c, s)
    && InStep(c, s)
    && SharedInv(c, s)
    && ProducerReady(c, s)
    && ConsumerReady(c, s)
  }
}
