/** Every run of the ring is a run of a bounded queue: the stores to head and tail are the
    moments at which a message enters and leaves it. */
module RingRefinement {
  import opened ByteOrder
  import opened Memory
  import opened Wire
  import opened Counters
  import opened Region
  import opened RingProtocol
  import opened RingInvariant
  import opened RingSteps

  // ---- The queue ----

  datatype Operation = Enqueue(m: Message) | Dequeue(d: Delivery)

  /** What a queue of bounded capacity holds after these operations, if it allows them:
      it takes a message only when it is not full, and gives out only the oldest one. */
  ghost function QueueAfter(capacity: nat, ops: seq<Operation>): Option<seq<Message>> {
    if ops == [] then Some([])
    else
      var before := QueueAfter(capacity, ops[..|ops| - 1]);
      if before.None? then None else Accepts(capacity, before.value, ops[|ops| - 1])
  }

  ghost function Accepts(capacity: nat, queue: seq<Message>, op: Operation): Option<seq<Message>> {
    match op
    case Enqueue(m) => if |queue| < capacity then Some(queue + [m]) else None
    case Dequeue(d) =>
      if queue != [] && Agrees(d, queue[0]) then Some(queue[1..]) else None
  }

  // ---- Runs ----

  ghost predicate IsRun(c: Config, run: seq<State>, actions: seq<Action>) {
    && c.Valid()
    && |run| == |actions| + 1
    && Init(c, run[0])
    && forall i :: 0 <= i < |actions| ==> IsStep(c, run[i], actions[i], run[i + 1])
  }

  ghost predicate IsStep(c: Config, s: State, a: Action, s': State) {
    c.Valid() && Shaped(c, s) && Enabled(c, s, a) && s' == Next(c, s, a)
  }

  // The messages in the ring.
  ghost function Outstanding(s: State): seq<Message> {
    if |s.delivered| <= |s.committed| then s.committed[|s.delivered|..] else []
  }

  // What a step does to the queue.
  ghost function Operations(s: State, a: Action, s': State): seq<Operation> {
    if a.ReleaseHead? && s'.committed != [] then [Enqueue(s'.committed[|s'.committed| - 1])]
    else if a.ReleaseTail? && s'.delivered != [] then [Dequeue(s'.delivered[|s'.delivered| - 1])]
    else []
  }

  ghost function Trace(run: seq<State>, actions: seq<Action>): seq<Operation>
    requires |run| == |actions| + 1
    decreases |actions|
  {
    if actions == [] then []
    else
      var n := |actions| - 1;
      Trace(run[..n + 1], actions[..n]) + Operations(run[n], actions[n], run[n + 1])
  }

  // ---- Refinement ----

  lemma CountsOf(c: Config, s: State)
    requires Inv(c, s)
    ensures TailCount(s) == |s.delivered| <= |s.committed| == HeadCount(s)
    ensures |Outstanding(s)| == HeadCount(s) - TailCount(s) <= c.Capacity()
    ensures DeliveredMatch(s)
  {
    hide SlotsHold, ReadsDone, AllSealed, ClocksBound, IsOrder, ProducerReady, ConsumerReady, Shaped, Agrees,
      Region.Valid, Region.Suits, Pow2;
  }

  /** Storing head puts a sealed message into a queue that has room for it. */
  lemma EnqueueRefines(c: Config, s: State)
    requires Inv(c, s) && s.ppc.Sealing? && s.ppc.done == 4 && HEADER_SIZE + s.ppc.t.Size() <= c.region.slotBytes
    ensures var s' := AfterReleaseHead(c, s);
            exists m ::
              && s'.committed == s.committed + [m] && s'.delivered == s.delivered
              && IsSealed(c, m)
              && Accepts(c.Capacity(), Outstanding(s), Enqueue(m)) == Some(Outstanding(s'))
  {
    hide Inv, InStep, SharedInv, ProducerReady, ConsumerReady, IsSealed, Values, SlotOf, WordOf, Plus1, Region.Valid,
      Region.Suits, Pow2;
    Parts(c, s);
    OwnedSlot(c, s);
    ReleaseHeadFacts(c, s);
    CountsOf(c, s);
    var s', m := AfterReleaseHead(c, s), Message(s.ppc.t, Values(s.cells[s.ppc.slot])[..HEADER_SIZE + s.ppc.t.Size()]);
    assert Outstanding(s') == Outstanding(s) + [m];
  }

  /** Storing tail takes the oldest message out of the queue, whether or not the consumer
      has looked at it; what it had read of it, and the type it had viewed it as, are those
      of that message. */
  lemma DequeueRefines(c: Config, s: State)
    requires Inv(c, s) && !s.cpc.TailLoaded? && TailCount(s) < s.consumer.seen
    ensures var s', d := AfterReleaseTail(c, s), Taken(s.cpc);
            && s'.delivered == s.delivered + [d] && s'.committed == s.committed
            && Accepts(c.Capacity(), Outstanding(s), Dequeue(d)) == Some(Outstanding(s'))
  {
    hide Inv, Agrees, Taken, Plus1, Pow2;
    TakenAgrees(c, s);
    CountsOf(c, s);
    assert Outstanding(AfterReleaseTail(c, s)) == Outstanding(s)[1..];
  }

  // All other steps leave the queue alone.
  lemma OtherStepsStutter(c: Config, s: State, a: Action)
    requires Inv(c, s) && Enabled(c, s, a) && !a.ReleaseHead? && !a.ReleaseTail?
    ensures var s' := Next(c, s, a);
            && s'.committed == s.committed && s'.delivered == s.delivered
            && |s'.heads| == |s.heads| && |s'.tails| == |s.tails|
  {
    hide InStep, SharedInv, ProducerReady, ConsumerReady, Values, Region.Valid, Region.Suits, Pow2, WriteCell, ReadCell,
      CanView, ViewError, Minus, SlotIndex, CrcField, Payload, Template, KnownToConsumer;
  }

  lemma OneMoreOperation(capacity: nat, ops: seq<Operation>, op: Operation, queue: seq<Message>, queue': seq<Message>)
    requires QueueAfter(capacity, ops) == Some(queue) && Accepts(capacity, queue, op) == Some(queue')
    ensures QueueAfter(capacity, ops + [op]) == Some(queue')
  {
    hide Accepts;
    assert (ops + [op])[..|ops|] == ops;
  }

  lemma StepRefines(c: Config, s: State, a: Action, s': State, ops: seq<Operation>)
    requires Inv(c, s) && IsStep(c, s, a, s')
    requires QueueAfter(c.Capacity(), ops) == Some(Outstanding(s))
    ensures Inv(c, s')
    ensures QueueAfter(c.Capacity(), ops + Operations(s, a, s')) == Some(Outstanding(s'))
  {
    hide Inv, Shaped, Enabled, AfterReleaseHead, AfterReleaseTail, Accepts, IsSealed, QueueAfter, Region.Valid, Pow2,
      Next;
    StepKeepsInv(c, s, a);
    if a.ReleaseHead? {
      NextIsReleaseHead(c, s, s');
      EnqueueRefines(c, s);
      OneMoreOperation(c.Capacity(), ops, Enqueue(s'.committed[|s'.committed| - 1]), Outstanding(s), Outstanding(s'));
    } else if a.ReleaseTail? {
      NextIsReleaseTail(c, s, s');
      DequeueRefines(c, s);
      OneMoreOperation(c.Capacity(), ops, Dequeue(s'.delivered[|s'.delivered| - 1]), Outstanding(s), Outstanding(s'));
    } else {
      OtherStepsStutter(c, s, a);
      assert ops + Operations(s, a, s') == ops;
    }
  }

  lemma NextIsReleaseHead(c: Config, s: State, s': State)
    requires Inv(c, s) && IsStep(c, s, ReleaseHead, s')
    ensures s.ppc.Sealing? && s.ppc.done == 4 && HEADER_SIZE + s.ppc.t.Size() <= c.region.slotBytes
    ensures s.ppc.slot < |s.cells| && HEADER_SIZE + s.ppc.t.Size() <= |s.cells[s.ppc.slot]|
    ensures s' == AfterReleaseHead(c, s)
  {
    hide Inv, AfterReleaseHead, Region.Valid, Region.Suits, Pow2;
    ShapeIsValid(c);
  }

  lemma NextIsReleaseTail(c: Config, s: State, s': State)
    requires IsStep(c, s, ReleaseTail, s')
    ensures |s.tails| > 0 && !s.cpc.TailLoaded? && TailCount(s) < s.consumer.seen
    ensures s' == AfterReleaseTail(c, s)
  {
    hide AfterReleaseTail, Region.Valid, Pow2;
  }

  lemma {:induction false} RunRefines(c: Config, run: seq<State>, actions: seq<Action>)
    requires IsRun(c, run, actions)
    ensures Inv(c, run[|actions|])
    ensures QueueAfter(c.Capacity(), Trace(run, actions)) == Some(Outstanding(run[|actions|]))
    decreases |actions|
  {
    hide Inv, IsStep, Next, Enabled, Operations, Region.Valid;
    var n := |actions|;
    if n == 0 {
      InitInv(c, run[0]);
    } else {
      RunRefines(c, run[..n], actions[..n - 1]);
      StepRefines(c, run[n - 1], actions[n - 1], run[n], Trace(run[..n], actions[..n - 1]));
    }
  }

  // The slot the producer writes is not the one the consumer reads, and neither races.
  ghost predicate RaceFree(c: Config, s: State)
    requires Shaped(c, s)
  {
    && (ProducerOwns(s) && s.cpc.Reading? ==> s.ppc.slot != s.cpc.slot)
    && (ProducerOwns(s) ==> ReadBy(s.cells[s.ppc.slot], KnownToProducer(s)))
    && (s.cpc.Reading? ==> WrittenBy(s.cells[s.cpc.slot], KnownToConsumer(s)))
  }

  /** The main theorem. In every state of every run: what has happened so far is allowed by
      a queue of the capacity of the ring, which now holds the outstanding messages; the
      deliveries are, in order, a prefix of the messages committed; at most a full ring is
      outstanding; and no access to a slot byte races with one of the other thread. */
  lemma RunsAreSafe(c: Config, run: seq<State>, actions: seq<Action>, k: nat)
    requires IsRun(c, run, actions) && k <= |actions|
    ensures Inv(c, run[k]) && RaceFree(c, run[k])
    ensures TailCount(run[k]) == |run[k].delivered| && HeadCount(run[k]) == |run[k].committed|
    ensures QueueAfter(c.Capacity(), Trace(run[..k + 1], actions[..k])) == Some(Outstanding(run[k]))
    ensures |Outstanding(run[k])| <= c.Capacity() && DeliveredMatch(run[k])
  {
    hide IsStep, Init, QueueAfter, Trace, Matches, SameTraits, Inv, Region.Valid, ReadBy, WrittenBy, KnownToConsumer,
      KnownToProducer;
    RunRefines(c, run[..k + 1], actions[..k]);
    CountsOf(c, run[k]);
    Parts(c, run[k]);
    NoRace(c, run[k]);
    if ProducerOwns(run[k]) && run[k].cpc.Reading? {
      NeverInTheSameSlot(c, run[k]);
    }
  }

  /** A message read in full is the message committed, byte for byte. */
  lemma ReadInFull(got: map<nat, Byte>, m: Message)
    requires Matches(got, m) && Covers(got, 0, |m.image|)
    ensures Assemble(got, |m.image|) == m.image
  {
  }
}
