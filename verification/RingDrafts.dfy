/** What the producer fills in is what it commits, whatever the consumer does meanwhile. */
module RingDrafts {
  import opened ByteOrder
  import opened Memory
  import opened Crc32
  import opened Wire
  import opened Counters
  import opened Region
  import opened RingProtocol
  import opened RingInvariant
  import opened RingSteps
  import opened RingRefinement

  predicate Drafting(s: State) {
    s.ppc.Filling? || s.ppc.Sealing?
  }

  // The payload in the slot being filled or sealed.
  ghost function Draft(c: Config, s: State): seq<Byte>
    requires c.Valid() && Shaped(c, s) && Drafting(s)
  {
    ShapeIsValid(c);
    Payload(Values(s.cells[s.ppc.slot]), s.ppc.t)
  }

  /** What the producer means to send: a new value of the message type it prepared last,
      with the bytes it has filled in since, in order, and a checksum or none. */
  datatype Intention = Intention(payload: seq<Byte>, computeCrc: bool)

  ghost function Intended(run: seq<State>, actions: seq<Action>): Intention
    requires |run| == |actions| + 1
    decreases |actions|
  {
    if actions == [] then Intention([], false)
    else
      var n := |actions| - 1;
      IntendedNext(Intended(run[..n + 1], actions[..n]), run[n], actions[n])
  }

  function IntendedNext(x: Intention, s: State, a: Action): Intention {
    match a
    case PrepareByte => if s.ppc.Preparing? then x.(payload := s.ppc.t.initial) else x
    case FillByte(offset, value) =>
      if HEADER_SIZE <= offset < HEADER_SIZE + |x.payload| then x.(payload := x.payload[offset - HEADER_SIZE := value])
      else x
    case Seal(computeCrc) => x.(computeCrc := computeCrc)
    case _ => x
  }

  // The draft is the one intended, and so is the checksum being stored.
  ghost predicate AsIntended(c: Config, s: State, x: Intention)
    requires c.Valid() && Shaped(c, s)
  {
    && (Drafting(s) ==> Draft(c, s) == x.payload)
    && (s.ppc.Sealing? ==> s.ppc.field == CrcField(c.host, x.payload, x.computeCrc))
  }

  lemma PreparedDraft(c: Config, s: State)
    requires Inv(c, s) && s.ppc.Preparing? && s.ppc.done + 1 == HEADER_SIZE + s.ppc.t.Size() <= c.region.slotBytes
    ensures Payload(Values(AfterPrepareByte(c, s).cells[s.ppc.slot]), s.ppc.t) == s.ppc.t.initial
  {
    hide Inv, InStep, SharedInv, ConsumerReady, SlotOf, WordOf, HeaderBytes, Region.Valid, Region.Suits, Pow2;
    Parts(c, s);
    OwnedSlot(c, s);
    var image, t := Template(c, s.ppc.t), s.ppc.t;
    var values, written := Values(s.cells[s.ppc.slot]), Values(AfterPrepareByte(c, s).cells[s.ppc.slot]);
    assert values[..s.ppc.done] == image[..s.ppc.done];
    assert written == values[s.ppc.done := image[s.ppc.done]];
    assert written[..HEADER_SIZE + t.Size()] == image;
    assert Payload(written, t) == written[..HEADER_SIZE + t.Size()][HEADER_SIZE..] == t.initial;
  }

  lemma FilledDraft(c: Config, s: State, offset: nat, value: Byte)
    requires c.Valid() && Shaped(c, s) && s.ppc.Filling? && HEADER_SIZE <= offset < HEADER_SIZE + s.ppc.t.Size()
    requires HEADER_SIZE + s.ppc.t.Size() <= c.region.slotBytes
    ensures Shaped(c, AfterFillByte(s, offset, value))
    ensures Draft(c, AfterFillByte(s, offset, value)) == Draft(c, s)[offset - HEADER_SIZE := value]
  {
    hide Region.Valid, Region.Suits, Pow2;
    var s' := AfterFillByte(s, offset, value);
    assert Values(s'.cells[s.ppc.slot]) == Values(s.cells[s.ppc.slot])[offset := value];
  }

  lemma SealedDraft(c: Config, s: State)
    requires c.Valid() && Shaped(c, s) && s.ppc.Sealing? && s.ppc.done < 4
    requires HEADER_SIZE + s.ppc.t.Size() <= c.region.slotBytes
    ensures Shaped(c, AfterSealByte(s))
    ensures Draft(c, AfterSealByte(s)) == Draft(c, s)
  {
    hide Region.Valid, Region.Suits, Pow2;
    var s' := AfterSealByte(s);
    assert Values(s'.cells[s.ppc.slot]) == Values(s.cells[s.ppc.slot])[8 + s.ppc.done := s.ppc.field[s.ppc.done]];
  }

  lemma ReadLeavesDraft(c: Config, s: State, offset: nat, value: Byte)
    requires c.Valid() && Shaped(c, s) && s.cpc.Reading? && offset < c.region.slotBytes && Drafting(s)
    ensures Shaped(c, AfterReadByte(s, offset, value))
    ensures Draft(c, AfterReadByte(s, offset, value)) == Draft(c, s)
  {
    hide Region.Valid, Region.Suits, Pow2;
    var s' := AfterReadByte(s, offset, value);
    assert Values(s'.cells[s.ppc.slot]) == Values(s.cells[s.ppc.slot]);
  }

  lemma SealKeepsSlot(c: Config, s: State, computeCrc: bool)
    requires Inv(c, s) && s.ppc.Filling? && HEADER_SIZE + s.ppc.t.Size() <= c.region.slotBytes
    ensures s.ppc.slot < |s.cells| && HEADER_SIZE + s.ppc.t.Size() <= |s.cells[s.ppc.slot]|
    ensures AfterSeal(c, s, computeCrc).ppc.slot == s.ppc.slot
    ensures AfterSeal(c, s, computeCrc).ppc.field
         == CrcField(c.host, Payload(Values(s.cells[s.ppc.slot]), s.ppc.t), computeCrc)
  {
    hide Inv, InStep, SharedInv, ProducerReady, ConsumerReady, SlotOf, WordOf, SlotIndex, Values, CrcField,
      Region.Valid, Region.Suits, Pow2, Payload;
    Parts(c, s);
    OwnedSlot(c, s);
    Words(c, s);
    SlotIndexOfWord(c, HeadCount(s));
  }

  lemma DraftOfSameSlot(c: Config, s: State, s': State)
    requires c.Valid() && Shaped(c, s) && Shaped(c, s') && Drafting(s) && Drafting(s')
    requires s'.cells == s.cells && s'.ppc.slot == s.ppc.slot && s'.ppc.t == s.ppc.t
    ensures Draft(c, s') == Draft(c, s)
  {
  }

  // Steps of the producer that touch the draft or leave it alone.
  lemma ProducerDraftStep(c: Config, s: State, a: Action, s': State, x: Intention)
    requires Inv(c, s) && IsStep(c, s, a, s') && a.OfProducer() && Inv(c, s')
    requires AsIntended(c, s, x)
    ensures AsIntended(c, s', IntendedNext(x, s, a))
  {
    hide Inv, InStep, SharedInv, ProducerReady, ConsumerReady, Region.Valid, Region.Suits, Pow2, Draft, WriteCell,
      SlotIndex, Minus, Plus1, CrcField, Template, Values, Payload;
    Parts(c, s);
    Parts(c, s');
    ShapeIsValid(c);
    match a
    case PrepareByte =>
      if s'.ppc.Filling? {
        PreparedDraft(c, s);
        DraftIs(c, s');
      }
    case FillByte(offset, value) =>
      DraftIs(c, s);
      FilledDraft(c, s, offset, value);
    case Seal(computeCrc) =>
      SealKeepsSlot(c, s, computeCrc);
      DraftOfSameSlot(c, s, s');
      DraftIs(c, s);
    case SealByte => SealedDraft(c, s);
    case QueryTail(_) =>
      if Drafting(s) {
        DraftOfSameSlot(c, s, s');
      }
    case _ =>
  }

  lemma DraftIs(c: Config, s: State)
    requires c.Valid() && Shaped(c, s) && Drafting(s)
    ensures HEADER_SIZE + s.ppc.t.Size() <= c.region.slotBytes
    ensures Draft(c, s) == Payload(Values(s.cells[s.ppc.slot]), s.ppc.t)
    ensures |Draft(c, s)| == s.ppc.t.Size()
  {
    ShapeIsValid(c);
  }

  lemma ConsumerDraftStep(c: Config, s: State, a: Action, s': State)
    requires Inv(c, s) && IsStep(c, s, a, s') && !a.OfProducer() && Inv(c, s')
    ensures s'.ppc == s.ppc
    ensures forall x :: AsIntended(c, s, x) ==> AsIntended(c, s', x)
  {
    hide Inv, InStep, SharedInv, ProducerReady, ConsumerReady, Region.Valid, Region.Suits, Pow2, Draft, ReadCell,
      SlotIndex, Minus, Plus1, Values, ViewError, CanView, Shows, CanInspect, CrcField;
    Parts(c, s);
    Parts(c, s');
    if Drafting(s) {
      if a.ReadByte? {
        ReadLeavesDraft(c, s, a.offset, a.value);
      } else {
        DraftOfSameSlot(c, s, s');
      }
    }
  }

  lemma {:induction false} DraftIsIntended(c: Config, run: seq<State>, actions: seq<Action>)
    requires IsRun(c, run, actions)
    ensures Inv(c, run[|actions|]) && Shaped(c, run[|actions|])
    ensures AsIntended(c, run[|actions|], Intended(run, actions))
    decreases |actions|
  {
    hide Inv, IsStep, IntendedNext, AsIntended, Shaped, Region.Valid, QueueAfter, Trace;
    var n := |actions|;
    RunRefines(c, run, actions);
    Parts(c, run[n]);
    if n == 0 {
      NothingIntended(c, run[0], Intended(run, actions));
    } else {
      DraftIsIntended(c, run[..n], actions[..n - 1]);
      var s, a, s' := run[n - 1], actions[n - 1], run[n];
      if a.OfProducer() {
        ProducerDraftStep(c, s, a, s', Intended(run[..n], actions[..n - 1]));
      } else {
        ConsumerDraftStep(c, s, a, s');
        ConsumerIntends(Intended(run[..n], actions[..n - 1]), s, a);
      }
    }
  }

  lemma NothingIntended(c: Config, s: State, x: Intention)
    requires c.Valid() && Init(c, s)
    ensures Shaped(c, s) && AsIntended(c, s, x)
  {
  }

  lemma ConsumerIntends(x: Intention, s: State, a: Action)
    requires !a.OfProducer()
    ensures IntendedNext(x, s, a) == x
  {
  }

  // The packet that a producer commits that has sealed its draft.
  lemma ReleasesAsIntended(c: Config, s: State, s': State, x: Intention)
    requires Inv(c, s) && IsStep(c, s, ReleaseHead, s') && AsIntended(c, s, x)
    ensures s.ppc.Sealing? && |x.payload| == s.ppc.t.Size()
    ensures s'.ppc.Resting? && s'.delivered == s.delivered
    ensures var crc := if x.computeCrc then Checksum(x.payload) else 0;
            s'.committed == s.committed + [Message(s.ppc.t, Packet(c.host, s.ppc.t, x.payload, crc))]
  {
    hide Inv, InStep, SharedInv, ConsumerReady, Draft, Region.Valid, Region.Suits, Pow2, Plus1, Values, Packet,
      Checksum, CrcField, Payload, HeaderReady, SlotOf, WordOf;
    NextIsReleaseHead(c, s, s');
    Parts(c, s);
    OwnedSlot(c, s);
    DraftIs(c, s);
    SealedExactly(c, s.ppc.t, s.ppc.head, s.ppc.slot, s.ppc.field, HeadCount(s), s.producer.acquired,
                  Values(s.cells[s.ppc.slot]), x.computeCrc);
  }

  /** When head is stored, the message committed is the packet of exactly the payload the
      producer meant, with the checksum it asked for last: no byte is lost, and nothing of
      an earlier message is left in it. */
  lemma CommitsWhatWasFilledIn(c: Config, run: seq<State>, actions: seq<Action>)
    requires IsRun(c, run, actions) && actions != [] && actions[|actions| - 1] == ReleaseHead
    ensures var n := |actions| - 1;
            && run[n].ppc.Sealing?
            && var t, x := run[n].ppc.t, Intended(run[..n + 1], actions[..n]);
               && |x.payload| == t.Size()
               && var crc := if x.computeCrc then Checksum(x.payload) else 0;
                  run[n + 1].committed == run[n].committed + [Message(t, Packet(c.host, t, x.payload, crc))]
  {
    hide Inv, IsStep, Intended, AsIntended, Region.Valid, Packet, Checksum;
    var n := |actions| - 1;
    DraftIsIntended(c, run[..n + 1], actions[..n]);
    ReleasesAsIntended(c, run[n], run[n + 1], Intended(run[..n + 1], actions[..n]));
  }
}
