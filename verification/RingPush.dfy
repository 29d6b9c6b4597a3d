/** A push in any run: it never waits for the consumer, and it commits its value exactly
    when the tail it has loaded leaves room. */
module RingPush {
  import opened ByteOrder
  import opened Memory
  import opened Crc32
  import opened Wire
  import opened Counters
  import opened Region
  import opened RingProtocol
  import opened RingInvariant
  import opened RingSteps
  import opened RingRefinement
  import opened RingDrafts
  import opened RingCalls
  import opened RingGuarantees

  datatype Push = Push(t: MsgType, payload: seq<Byte>, computeCrc: bool) {
    predicate Valid() {
      |payload| == t.Size()
    }

    function Length(): nat {
      24 + 2 * t.Size()
    }

    /** The code of push: what may be its p-th step. Which tail it loads is not its choice. */
    predicate Allows(p: nat, a: Action)
      requires Valid()
    {
      var n := t.Size();
      if p == 0 then a == LoadHead
      else if p == 1 then a.AcquireTail? && a.t == t
      else if p < 18 + n then a == PrepareByte
      else if p < 18 + 2 * n then a == FillByte(p - 2 - n, payload[p - 18 - n])
      else if p == 18 + 2 * n then a == Seal(computeCrc)
      else if p < 23 + 2 * n then a == SealByte
      else p == 23 + 2 * n && a == ReleaseHead
    }

    // What is in the slot, once it is prepared, after p steps.
    function Meant(p: nat): Intention
      requires Valid()
    {
      var k := if p <= 18 + t.Size() then 0 else if p <= 18 + 2 * t.Size() then p - 18 - t.Size() else t.Size();
      Intention(payload[..k] + t.initial[k..], computeCrc)
    }

    // The message sent.
    function Sent(h: Endian): Message
      requires Valid()
    {
      Message(t, Packet(h, t, payload, if computeCrc then Checksum(payload) else 0))
    }
  }

  // Did the tail loaded leave room? Until it is loaded, nothing is refused.
  predicate Room(c: Config, start: State, own: seq<Action>) {
    |own| >= 2 && own[1].AcquireTail? ==> |start.committed| - own[1].i < c.Capacity()
  }

  // The producer has taken these steps of a push and no others.
  ghost predicate Follows(call: Push, own: seq<Action>)
    requires call.Valid()
  {
    forall p :: 0 <= p < |own| ==> call.Allows(p, own[p])
  }

  ghost predicate PcAt(call: Push, pc: ProducerPc, p: nat, room: bool) {
    var n := call.t.Size();
    if p == 0 then pc.Resting?
    else if p == 1 then pc.HeadLoaded?
    else if !room then p == 2 && pc.Resting?
    else if p < 18 + n then pc.Preparing? && pc.t == call.t && pc.done == p - 2
    else if p <= 18 + 2 * n then pc.Filling? && pc.t == call.t
    else if p <= 23 + 2 * n then pc.Sealing? && pc.t == call.t && pc.done == p - 19 - 2 * n
    else p == 24 + 2 * n && pc.Resting?
  }

  // Where a push is after p of its steps.
  ghost predicate PushAt(c: Config, s: State, start: State, call: Push, p: nat, room: bool)
    requires call.Valid()
  {
    && Inv(c, s) && c.Valid() && Shaped(c, s)
    && PcAt(call, s.ppc, p, room)
    && AsIntended(c, s, call.Meant(p))
    && s.committed == start.committed + if p == call.Length() then [call.Sent(c.host)] else []
  }

  lemma Mixed(payload: seq<Byte>, initial: seq<Byte>, k: nat)
    requires |payload| == |initial| && k < |payload|
    ensures (payload[..k] + initial[k..])[k := payload[k]] == payload[..k + 1] + initial[k + 1..]
  {
  }

  lemma MeantNext(call: Push, p: nat, s: State, a: Action)
    requires call.Valid() && call.Allows(p, a) && p < call.Length()
    requires 2 <= p < 18 + call.t.Size() ==> s.ppc.Preparing? && s.ppc.t == call.t
    ensures IntendedNext(call.Meant(p), s, a) == call.Meant(p + 1)
  {
    var n := call.t.Size();
    if p < 18 + n {
      assert call.payload[..0] + call.t.initial[0..] == call.t.initial;
    } else if p < 18 + 2 * n {
      Mixed(call.payload, call.t.initial, p - 18 - n);
    } else {
      assert call.payload[..n] + call.t.initial[n..] == call.payload;
    }
  }

  lemma Completed(call: Push)
    requires call.Valid()
    ensures call.Meant(call.Length() - 1) == Intention(call.payload, call.computeCrc)
  {
    assert call.payload[..call.t.Size()] + call.t.initial[call.t.Size()..] == call.payload;
  }

  // A step of the producer moves its program counter along the code.
  lemma PcAdvances(c: Config, s: State, a: Action, s': State, call: Push, p: nat, room: bool)
    requires Inv(c, s) && IsStep(c, s, a, s') && call.Valid() && p < call.Length() && p != 1
    requires PcAt(call, s.ppc, p, room) && call.Allows(p, a)
    ensures p >= 2 ==> room
    ensures PcAt(call, s'.ppc, p + 1, room)
    ensures p < call.Length() - 1 ==> s'.committed == s.committed
  {
    hide Inv, Values, Region.Valid, Region.Suits, Pow2, WriteCell, Minus, SlotIndex, CrcField, Payload, Template, Plus1;
  }

  lemma OwnStep(c: Config, s: State, a: Action, s': State, start: State, call: Push, p: nat, room: bool)
    requires call.Valid() && PushAt(c, s, start, call, p, room) && IsStep(c, s, a, s') && call.Allows(p, a)
    ensures p < call.Length() && a.OfProducer()
    ensures p >= 2 ==> room
    ensures p == 1 ==> a.AcquireTail? && PushAt(c, s', start, call, 2, |start.committed| - a.i < c.Capacity())
    ensures p != 1 ==> PushAt(c, s', start, call, p + 1, room)
  {
    hide Inv, Shaped, Region.Valid, AsIntended, Next, Enabled, Push.Meant, IntendedNext, Packet, Checksum;
    StepKeeps(c, s, a, s');
    ProducerDraftStep(c, s, a, s', call.Meant(p));
    if p == 1 {
      MeantNext(call, p, s, a);
      AcquireTailDecides(c, s, a.i, a.t, s');
      CountsOf(c, s);
      LoadedPc(c, s, a, s');
    } else {
      PcAdvances(c, s, a, s', call, p, room);
      MeantNext(call, p, s, a);
      if p == call.Length() - 1 {
        Completed(call);
        ReleasesAsIntended(c, s, s', call.Meant(p));
      }
    }
  }

  lemma LoadedPc(c: Config, s: State, a: Action, s': State)
    requires IsStep(c, s, a, s') && a.AcquireTail?
    ensures s'.committed == s.committed
    ensures s'.ppc.Resting? || (s'.ppc.Preparing? && s'.ppc.t == a.t && s'.ppc.done == 0)
  {
    hide Minus, SlotIndex, Region.Valid, Region.Suits, Pow2;
  }

  lemma OtherStep(c: Config, s: State, a: Action, s': State, start: State, call: Push, p: nat, room: bool)
    requires call.Valid() && PushAt(c, s, start, call, p, room) && IsStep(c, s, a, s') && !a.OfProducer()
    ensures PushAt(c, s', start, call, p, room)
  {
    hide Inv, Shaped, Region.Valid, AsIntended, Next, Enabled, Push.Meant, Packet, Checksum;
    StepKeeps(c, s, a, s');
    ConsumerDraftStep(c, s, a, s');
    ConsumerLeavesProducer(c, s, a, s');
  }

  lemma StartsAt(c: Config, s: State, call: Push)
    requires call.Valid() && c.Valid() && Inv(c, s) && s.ppc.Resting?
    ensures PushAt(c, s, s, call, 0, true)
  {
    hide InStep, SharedInv, ProducerReady, ConsumerReady, Region.Valid, Pow2, Push.Meant, Packet, Checksum;
    assert s.committed + [] == s.committed;
  }

  lemma {:induction false} PushIsAt(c: Config, run: seq<State>, actions: seq<Action>, call: Push)
    requires IsStretch(c, run, actions) && run[0].ppc.Resting?
    requires call.Valid() && Follows(call, Own(actions, true))
    ensures var own := Own(actions, true);
            |own| <= call.Length() && PushAt(c, run[|actions|], run[0], call, |own|, Room(c, run[0], own))
    decreases |actions|
  {
    hide Inv, IsStep, Region.Valid, PushAt, Push.Allows;
    var n := |actions|;
    if n == 0 {
      StartsAt(c, run[0], call);
    } else {
      var before, own, a := Own(actions[..n - 1], true), Own(actions, true), actions[n - 1];
      var room := Room(c, run[0], before);
      assert before == own[..|before|];
      PushIsAt(c, run[..n], actions[..n - 1], call);
      assert IsStep(c, run[n - 1], a, run[n]);
      if a.OfProducer() {
        assert own[|before|] == a;
        OwnStep(c, run[n - 1], a, run[n], run[0], call, |before|, room);
      } else {
        OtherStep(c, run[n - 1], a, run[n], run[0], call, |before|, room);
      }
    }
  }

  // ---- What a push comes to ----

  /** In any part of any run: while the producer does nothing but one push, whatever the
      consumer does between its steps and whichever tail it loads, the push is refused by
      its second step exactly when that tail leaves no room, and then commits nothing; if
      not, its last step commits exactly its value, and no earlier one commits anything. */
  lemma PushOutcome(c: Config, run: seq<State>, actions: seq<Action>, call: Push)
    requires IsStretch(c, run, actions) && run[0].ppc.Resting?
    requires call.Valid() && Follows(call, Own(actions, true))
    ensures var own, end := Own(actions, true), run[|actions|];
            var room := Room(c, run[0], own);
            && |own| <= call.Length()
            && (|own| == 2 ==> if room then end.ppc.Preparing? else end.ppc.Resting?)
            && (|own| > 2 ==> room)
            && (|own| == call.Length() ==> end.ppc.Resting?)
            && end.committed
               == run[0].committed
                  + if |own| < call.Length() then []
                    else [Message(call.t, Packet(c.host, call.t, call.payload,
                                                 if call.computeCrc then Checksum(call.payload) else 0))]
  {
    hide Inv, Shaped, IsStep, Region.Valid, AsIntended, Push.Allows, Packet, Checksum;
    PushIsAt(c, run, actions, call);
  }

  /** The tail loaded counts, not the tail there is: with a stale one a push is refused
      even while the ring has room. */
  lemma StaleTailRefuses(c: Config, s: State, t: MsgType)
    requires Inv(c, s) && s.ppc.HeadLoaded? && t in c.types
    requires |s.committed| - s.producer.seen >= c.Capacity()
    ensures c.Valid() && Shaped(c, s) && Enabled(c, s, AcquireTail(s.producer.seen, t))
    ensures Next(c, s, AcquireTail(s.producer.seen, t)).ppc.Resting?
  {
    hide Inv, Region.Valid, Region.Suits, Pow2, Minus, SlotIndex;
    Parts(c, s);
    CountsOf(c, s);
    AcquireTailKeeps(c, s, s.producer.seen, t);
  }

  // The next step of a push, given that it loads the newest tail if it is to load one.
  function NextOfPush(call: Push, s: State, p: nat): Action
    requires call.Valid() && p < call.Length() && |s.tails| > 0
  {
    var n := call.t.Size();
    if p == 0 then LoadHead
    else if p == 1 then AcquireTail(TailCount(s), call.t)
    else if p < 18 + n then PrepareByte
    else if p < 18 + 2 * n then FillByte(p - 2 - n, call.payload[p - 18 - n])
    else if p == 18 + 2 * n then Seal(call.computeCrc)
    else if p < 23 + 2 * n then SealByte
    else ReleaseHead
  }

  lemma NextIsEnabled(c: Config, s: State, start: State, call: Push, p: nat)
    requires call.Valid() && PushAt(c, s, start, call, p, true) && p < call.Length() && call.t in c.types
    ensures |s.tails| > 0
    ensures Enabled(c, s, NextOfPush(call, s, p)) && call.Allows(p, NextOfPush(call, s, p))
    ensures p == 1 ==> forall i: nat :: s.producer.seen <= i < |s.tails| ==> Enabled(c, s, AcquireTail(i, call.t))
  {
    hide Inv, Region.Valid, Region.Suits, Pow2, AsIntended, Push.Meant;
  }

  /** A push never waits: at every moment of any run, unless it has been refused, its next
      step can be taken, and it has a fixed number of steps. */
  lemma PushNeverWaits(c: Config, run: seq<State>, actions: seq<Action>, call: Push)
    requires IsStretch(c, run, actions) && run[0].ppc.Resting?
    requires call.Valid() && Follows(call, Own(actions, true)) && call.t in c.types
    requires |Own(actions, true)| < call.Length() && Room(c, run[0], Own(actions, true))
    ensures var p, end := |Own(actions, true)|, run[|actions|];
            && Shaped(c, end) && |end.tails| > 0
            && call.Allows(p, NextOfPush(call, end, p)) && Enabled(c, end, NextOfPush(call, end, p))
            && (p == 1 ==> forall i: nat :: end.producer.seen <= i < |end.tails| ==>
                             Enabled(c, end, AcquireTail(i, call.t)))
  {
    hide Inv, Shaped, Enabled, IsStep, Region.Valid, AsIntended, Push.Allows, Packet, Checksum, NextOfPush;
    PushIsAt(c, run, actions, call);
    NextIsEnabled(c, run[|actions|], run[0], call, |Own(actions, true)|);
  }

  // ---- By itself ----

  /** So a push that is under way, or that finds room, can be finished by the producer alone
      at any moment. */
  lemma {:induction false} PushCanFinish(c: Config, run: seq<State>, actions: seq<Action>, call: Push)
    returns (run': seq<State>, actions': seq<Action>)
    requires IsStretch(c, run, actions) && run[0].ppc.Resting?
    requires call.Valid() && Follows(call, Own(actions, true)) && call.t in c.types
    requires |Own(actions, true)| <= call.Length() && Room(c, run[0], Own(actions, true))
    requires |Own(actions, true)| < 2 ==> |Outstanding(run[|actions|])| < c.Capacity()
    ensures IsStretch(c, run', actions') && actions <= actions' && run <= run'
    ensures |actions'| == |actions| + call.Length() - |Own(actions, true)|
    ensures run'[|actions'|].committed == run[0].committed + [call.Sent(c.host)]
    decreases call.Length() - |Own(actions, true)|
  {
    hide Inv, Shaped, Enabled, Next, Region.Valid, Push.Allows, Packet, Checksum, NextOfPush, Outstanding;
    var own, end := Own(actions, true), run[|actions|];
    PushOutcome(c, run, actions, call);
    if |own| == call.Length() {
      run', actions' := run, actions;
    } else {
      PushNeverWaits(c, run, actions, call);
      var a := NextOfPush(call, end, |own|);
      var next, more := run + [Next(c, end, a)], actions + [a];
      StretchKeepsInv(c, run, actions);
      NextKeepsGoing(c, end, call, |own|);
      assert IsStep(c, end, a, next[|actions| + 1]);
      assert more[..|actions|] == actions && next[..|actions| + 1] == run;
      assert IsStretch(c, next, more);
      run', actions' := PushCanFinish(c, next, more, call);
    }
  }

  lemma NextKeepsGoing(c: Config, s: State, call: Push, p: nat)
    requires Inv(c, s) && c.Valid() && Shaped(c, s) && call.Valid() && p < call.Length()
    requires |s.tails| > 0 && Enabled(c, s, NextOfPush(call, s, p)) && (p < 2 ==> |Outstanding(s)| < c.Capacity())
    ensures NextOfPush(call, s, p).OfProducer()
    ensures p == 0 ==> Outstanding(Next(c, s, NextOfPush(call, s, p))) == Outstanding(s)
    ensures p == 1 ==> NextOfPush(call, s, p).AcquireTail? && |s.committed| - NextOfPush(call, s, p).i < c.Capacity()
  {
    hide Inv, Region.Valid, Region.Suits, Pow2;
    CountsOf(c, s);
  }
}
