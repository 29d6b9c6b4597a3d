/** A pop in any run: it never waits for the producer, and it takes out the oldest message,
    byte for byte, exactly when the head it has loaded shows one and that one is of its type. */
module RingPop {
  import opened ByteOrder
  import opened Memory
  import opened Wire
  import opened Counters
  import opened Region
  import opened RingProtocol
  import opened RingInvariant
  import opened RingSteps
  import opened RingRefinement
  import opened RingCalls
  import opened RingGuarantees

  /** A call of pop. `checks` says whether view reads the payload to check its checksum,
      which it does when it is asked to and finds that one is stored. */
  datatype Pop = Pop(t: MsgType, verifyCrc: bool, checks: bool) {
    // The number of steps up to the decision of view, and in all.
    function Viewed(): nat {
      18 + if checks then t.Size() else 0
    }

    function Length(agrees: bool): nat {
      Viewed() + 2 + if agrees then t.Size() else 0
    }

    /** The code of pop: what may be its p-th step, if the message is of its type or not.
        Which head it loads and what it reads is not its choice. */
    predicate Allows(p: nat, a: Action, agrees: bool) {
      if p == 0 then a == LoadTail
      else if p == 1 then a.AcquireHead?
      else if p < Viewed() then a.ReadByte? && a.offset == p - 2
      else if p == Viewed() then a == Accept(t, verifyCrc)
      else if !agrees then p == Viewed() + 1 && a == Leave
      else if p <= Viewed() + t.Size() then a.ReadByte? && a.offset == HEADER_SIZE + (p - Viewed() - 1)
      else p == Viewed() + t.Size() + 1 && a == ReleaseTail
    }
  }

  // Did the head loaded show a message? Until it is loaded, nothing is known.
  predicate Found(start: State, own: seq<Action>) {
    |own| >= 2 && own[1].AcquireHead? ==> own[1].i != |start.delivered|
  }

  // The oldest message when the pop began, once it is there, is of this type.
  predicate IsOfType(s: State, start: State, t: MsgType) {
    |start.delivered| < |s.committed| && SameTraits(t, s.committed[|start.delivered|].t)
  }

  ghost predicate Follows(call: Pop, own: seq<Action>, agrees: bool) {
    forall p :: 0 <= p < |own| ==> call.Allows(p, own[p], agrees)
  }

  ghost predicate ConsumerPcAt(call: Pop, pc: ConsumerPc, p: nat, found: bool, agrees: bool) {
    if p == 0 then pc.Idle?
    else if p == 1 then pc.TailLoaded?
    else if !found then p == 2 && pc.Idle?
    else if p <= call.Viewed() then pc.Reading? && Covers(pc.got, 0, p - 2) && pc.accepted.None?
    else if !agrees then if p == call.Viewed() + 1 then pc.Reading? && pc.accepted.None?
                         else p == call.Length(false) && pc.Idle?
    else if p <= call.Viewed() + 1 + call.t.Size() then
      && pc.Reading? && pc.accepted == Some(call.t)
      && Covers(pc.got, 0, HEADER_SIZE + (p - call.Viewed() - 1))
    else p == call.Length(true) && pc.Idle?
  }

  // The message taken out, read in full.
  ghost predicate TookOut(c: Config, s: State, start: State, t: MsgType) {
    && |start.delivered| < |s.committed|
    && var m := s.committed[|start.delivered|];
       exists got :: s.delivered == start.delivered + [Delivery(Some(t), got)] && Assemble(got, |m.image|) == m.image
  }

  // Where a pop is after p of its steps.
  ghost predicate PopAt(c: Config, s: State, start: State, call: Pop, p: nat, found: bool, agrees: bool) {
    && Inv(c, s) && c.Valid() && Shaped(c, s)
    && start.committed <= s.committed
    && ConsumerPcAt(call, s.cpc, p, found, agrees)
    && (p >= 2 && found ==> |start.delivered| < |s.committed|)
    && (if agrees && p == call.Length(true) then TookOut(c, s, start, call.t) else s.delivered == start.delivered)
  }

  lemma PopStartsAt(c: Config, s: State, call: Pop, agrees: bool)
    requires c.Valid() && Inv(c, s) && s.cpc.Idle?
    ensures PopAt(c, s, s, call, 0, true, agrees)
  {
    hide InStep, SharedInv, ProducerReady, ConsumerReady, Region.Valid, Pow2;
  }

  // Loading, reading and leaving move the program counter along the code.
  lemma PcAdvances(c: Config, s: State, a: Action, s': State, call: Pop, p: nat, found: bool, agrees: bool)
    requires IsStep(c, s, a, s') && ConsumerPcAt(call, s.cpc, p, found, agrees) && call.Allows(p, a, agrees)
    requires p != 1 && p != call.Viewed() && !a.ReleaseTail?
    ensures p >= 2 ==> found
    ensures ConsumerPcAt(call, s'.cpc, p + 1, found, agrees)
    ensures s'.delivered == s.delivered && s'.committed == s.committed
    ensures !(agrees && p + 1 == call.Length(true))
  {
    hide Region.Valid, Region.Suits, Pow2, ReadCell, SlotIndex, CanView, KnownToConsumer;
  }

  lemma LookFinds(c: Config, s: State, i: nat, s': State)
    requires Inv(c, s) && IsStep(c, s, AcquireHead(i), s')
    ensures i != |s.delivered| ==> |s.delivered| < |s.committed|
                                   && s'.cpc.Reading? && s'.cpc.got == map[] && s'.cpc.accepted.None?
    ensures i == |s.delivered| ==> s'.cpc.Idle?
    ensures s'.delivered == s.delivered && s'.committed == s.committed
  {
    hide Inv, SlotIndex, Region.Valid, Pow2;
    CountsOf(c, s);
    SeenBeyondTail(c, s);
    AcquireHeadDecides(c, s, i, s');
  }

  lemma ViewDecides(c: Config, s: State, t: MsgType, verifyCrc: bool, s': State)
    requires Inv(c, s) && IsStep(c, s, Accept(t, verifyCrc), s') && s.cpc.Reading?
    ensures |s.delivered| < |s.committed|
    ensures s'.cpc == if SameTraits(t, s.committed[|s.delivered|].t) then s.cpc.(accepted := Some(t)) else s.cpc
    ensures s'.delivered == s.delivered && s'.committed == s.committed
  {
    hide Inv, ViewError, CanView, SameTraits, Region.Valid, Pow2, Matches, HoldsMessage, IsSealed;
    CountsOf(c, s);
    ReadSlotHolds(c, s);
    AcceptKeeps(c, s, t, verifyCrc);
  }

  lemma TakesOut(c: Config, s: State, s': State)
    requires Inv(c, s) && IsStep(c, s, ReleaseTail, s') && s.cpc.Reading? && s.cpc.accepted.Some?
    requires Covers(s.cpc.got, 0, HEADER_SIZE + s.cpc.accepted.value.Size())
    ensures s'.cpc.Idle? && s'.committed == s.committed
    ensures TookOut(c, s', s, s.cpc.accepted.value)
  {
    hide Inv, Plus1, Region.Valid, Pow2, Matches, Covers, Assemble, Accepts;
    NextIsReleaseTail(c, s, s');
    DequeueRefines(c, s);
    TakenAgrees(c, s);
    CountsOf(c, s);
    var m := s.committed[|s.delivered|];
    OldestImage(c, s);
    ReadInFull(s.cpc.got, m);
    assert s'.delivered == s.delivered + [Delivery(Some(s.cpc.accepted.value), s.cpc.got)];
  }

  lemma OldestImage(c: Config, s: State)
    requires Inv(c, s) && |s.delivered| < |s.committed|
    ensures var m := s.committed[|s.delivered|]; |m.image| == HEADER_SIZE + m.t.Size()
  {
    hide Shaped, InStep, SlotsHold, ReadsDone, ClocksBound, IsOrder, ProducerReady, ConsumerReady, DeliveredMatch,
      Region.Valid, Region.Suits, Pow2;
    assert IsSealed(c, s.committed[|s.delivered|]);
  }

  lemma LoadingStep(c: Config, s: State, a: Action, s': State, start: State, call: Pop, found: bool, agrees: bool)
    requires PopAt(c, s, start, call, 1, found, agrees) && IsStep(c, s, a, s') && a.AcquireHead?
    ensures PopAt(c, s', start, call, 2, a.i != |start.delivered|, agrees)
  {
    hide Inv, Shaped, Region.Valid, Next, Enabled, SameTraits, TookOut;
    StepKeeps(c, s, a, s');
    LookFinds(c, s, a.i, s');
  }

  lemma ViewingStep(c: Config, s: State, a: Action, s': State, start: State, call: Pop, found: bool, agrees: bool)
    requires PopAt(c, s, start, call, call.Viewed(), found, agrees) && IsStep(c, s, a, s')
    requires a == Accept(call.t, call.verifyCrc)
    requires |start.delivered| < |s.committed| ==> agrees == IsOfType(s, start, call.t)
    ensures found && PopAt(c, s', start, call, call.Viewed() + 1, found, agrees)
  {
    hide Inv, Shaped, Region.Valid, Next, SameTraits, TookOut;
    AcceptReads(c, s, a, s');
    StepKeeps(c, s, a, s');
    ViewDecides(c, s, call.t, call.verifyCrc, s');
  }

  lemma AcceptReads(c: Config, s: State, a: Action, s': State)
    requires IsStep(c, s, a, s') && a.Accept?
    ensures s.cpc.Reading?
  {
    hide Region.Valid, CanView;
  }

  lemma TakingStep(c: Config, s: State, a: Action, s': State, start: State, call: Pop, p: nat, found: bool,
                   agrees: bool)
    requires PopAt(c, s, start, call, p, found, agrees) && IsStep(c, s, a, s') && call.Allows(p, a, agrees)
    requires a.ReleaseTail?
    ensures found && p + 1 == call.Length(agrees) && agrees && PopAt(c, s', start, call, p + 1, found, agrees)
  {
    hide Inv, Shaped, Region.Valid, Next, Enabled, SameTraits, TookOut;
    StepKeeps(c, s, a, s');
    TakesOut(c, s, s');
    TookOutSince(c, s, s', start, call.t);
  }

  lemma OwnStep(c: Config, s: State, a: Action, s': State, start: State, call: Pop, p: nat, found: bool, agrees: bool)
    requires PopAt(c, s, start, call, p, found, agrees) && IsStep(c, s, a, s') && call.Allows(p, a, agrees)
    requires |start.delivered| < |s.committed| ==> agrees == IsOfType(s, start, call.t)
    ensures p < call.Length(agrees) && !a.OfProducer()
    ensures p >= 2 ==> found
    ensures p == 1 ==> a.AcquireHead? && PopAt(c, s', start, call, 2, a.i != |start.delivered|, agrees)
    ensures p != 1 ==> PopAt(c, s', start, call, p + 1, found, agrees)
  {
    hide Inv, Shaped, IsStep, Region.Valid, IsOfType, TookOut, ConsumerPcAt, Pop.Allows, Pop.Viewed, Pop.Length;
    StillAhead(call, p, a, agrees);
    if p == 1 {
      LoadingStep(c, s, a, s', start, call, found, agrees);
    } else if p == call.Viewed() {
      ViewingStep(c, s, a, s', start, call, found, agrees);
    } else if a.ReleaseTail? {
      TakingStep(c, s, a, s', start, call, p, found, agrees);
    } else {
      StepKeeps(c, s, a, s');
      PcAdvances(c, s, a, s', call, p, found, agrees);
    }
  }

  // Every step of the code comes before its end, and is one of the consumer.
  lemma StillAhead(call: Pop, p: nat, a: Action, agrees: bool)
    requires call.Allows(p, a, agrees)
    ensures p < call.Length(agrees) && !a.OfProducer() && call.Viewed() >= 18
    ensures p == 1 ==> a.AcquireHead?
    ensures p == call.Viewed() ==> a == Accept(call.t, call.verifyCrc)
  {
  }

  lemma TookOutSince(c: Config, s: State, s': State, start: State, t: MsgType)
    requires TookOut(c, s', s, t) && s.delivered == start.delivered
    ensures TookOut(c, s', start, t)
  {
  }

  lemma OtherStep(c: Config, s: State, a: Action, s': State, start: State, call: Pop, p: nat, found: bool, agrees: bool)
    requires PopAt(c, s, start, call, p, found, agrees) && IsStep(c, s, a, s') && a.OfProducer()
    ensures PopAt(c, s', start, call, p, found, agrees)
  {
    hide Inv, Shaped, Region.Valid, Next, Enabled, ConsumerPcAt, Assemble;
    StepKeeps(c, s, a, s');
    ProducerLeavesConsumer(c, s, a, s');
  }

  lemma CommittedGrows(c: Config, s: State, a: Action, s': State)
    requires Inv(c, s) && IsStep(c, s, a, s')
    ensures s.committed <= s'.committed
  {
    hide Inv, IsStep;
    if a.OfProducer() {
      ProducerLeavesConsumer(c, s, a, s');
    } else {
      ConsumerLeavesProducer(c, s, a, s');
    }
  }

  lemma {:induction false} PopIsAt(c: Config, run: seq<State>, actions: seq<Action>, call: Pop, agrees: bool)
    requires IsStretch(c, run, actions) && run[0].cpc.Idle?
    requires Follows(call, Own(actions, false), agrees)
    requires |run[0].delivered| < |run[|actions|].committed| ==> agrees == IsOfType(run[|actions|], run[0], call.t)
    ensures var own := Own(actions, false);
            |own| <= call.Length(agrees) && PopAt(c, run[|actions|], run[0], call, |own|, Found(run[0], own), agrees)
    decreases |actions|
  {
    hide Inv, IsStep, Region.Valid, PopAt, Pop.Allows, SameTraits;
    var n := |actions|;
    if n == 0 {
      PopStartsAt(c, run[0], call, agrees);
    } else {
      var before, own, a := Own(actions[..n - 1], false), Own(actions, false), actions[n - 1];
      var found := Found(run[0], before);
      assert before == own[..|before|];
      assert IsStep(c, run[n - 1], a, run[n]);
      StretchKeepsInv(c, run[..n], actions[..n - 1]);
      CommittedGrows(c, run[n - 1], a, run[n]);
      PopIsAt(c, run[..n], actions[..n - 1], call, agrees);
      if a.OfProducer() {
        OtherStep(c, run[n - 1], a, run[n], run[0], call, |before|, found, agrees);
      } else {
        assert own[|before|] == a;
        OwnStep(c, run[n - 1], a, run[n], run[0], call, |before|, found, agrees);
      }
    }
  }

  // ---- What a pop comes to ----

  /** In any part of any run: while the consumer does nothing but one pop, whatever the
      producer does between its steps and whichever head it loads, the pop finds the ring
      empty by its second step exactly when that head is its own tail, and then takes
      nothing. If not, it takes the message that was oldest when it began, and every byte
      of it, with its last step, or refuses it because it is of another type. */
  lemma PopOutcome(c: Config, run: seq<State>, actions: seq<Action>, call: Pop, agrees: bool)
    requires IsStretch(c, run, actions) && run[0].cpc.Idle?
    requires Follows(call, Own(actions, false), agrees)
    requires |run[0].delivered| < |run[|actions|].committed| ==> agrees == IsOfType(run[|actions|], run[0], call.t)
    ensures var own, end := Own(actions, false), run[|actions|];
            var found := Found(run[0], own);
            && |own| <= call.Length(agrees)
            && (|own| == 2 ==> if found then end.cpc.Reading? else end.cpc.Idle?)
            && (|own| > 2 ==> found)
            && (|own| == call.Length(agrees) ==> end.cpc.Idle?)
            && (if agrees && |own| == call.Length(agrees) then TookOut(c, end, run[0], call.t)
                else end.delivered == run[0].delivered)
  {
    hide Inv, Shaped, IsStep, Region.Valid, Pop.Allows, SameTraits, TookOut, Covers;
    PopIsAt(c, run, actions, call, agrees);
  }

  // A step that may come next, given what there is to load and to read.
  function NextOfPop(call: Pop, s: State, p: nat, agrees: bool): Action
    requires |s.heads| > 0
  {
    if p == 0 then LoadTail
    else if p == 1 then AcquireHead(HeadCount(s))
    else if p < call.Viewed() then Reads(s, p - 2)
    else if p == call.Viewed() then Accept(call.t, call.verifyCrc)
    else if !agrees then Leave
    else if p <= call.Viewed() + call.t.Size() then Reads(s, HEADER_SIZE + (p - call.Viewed() - 1))
    else ReleaseTail
  }

  function Reads(s: State, offset: nat): Action {
    if s.cpc.Reading? && s.cpc.slot < |s.cells| && offset < |s.cells[s.cpc.slot]|
    then ReadByte(offset, s.cells[s.cpc.slot][offset].value) else Leave
  }

  // The branch of view: the payload has been read for its checksum if that is needed.
  predicate ChecksIfNeeded(c: Config, s: State, call: Pop) {
    && s.cpc.Reading? && c.region.slotBytes >= HEADER_SIZE && call.verifyCrc
    && ReadHeader(c.host, Assemble(s.cpc.got, c.region.slotBytes)).crc != 0
    ==> call.checks
  }

  lemma NextIsEnabled(c: Config, s: State, start: State, call: Pop, p: nat, agrees: bool)
    requires PopAt(c, s, start, call, p, true, agrees) && p < call.Length(agrees) && call.t in c.types
    requires p == call.Viewed() ==> ChecksIfNeeded(c, s, call)
    ensures |s.heads| > 0
    ensures Enabled(c, s, NextOfPop(call, s, p, agrees)) && call.Allows(p, NextOfPop(call, s, p, agrees), agrees)
    ensures p == 1 ==> forall i: nat :: s.consumer.seen <= i < |s.heads| ==> Enabled(c, s, AcquireHead(i))
  {
    hide Inv, Region.Valid, Region.Suits, Pow2, SameTraits, TookOut, Assemble, ReadHeader, KnownToConsumer;
    ShapeIsValid(c);
    if s.cpc.Reading? {
      ReadingHasSeen(c, s);
    }
  }

  lemma ReadingHasSeen(c: Config, s: State)
    requires Inv(c, s) && s.cpc.Reading?
    ensures |s.tails| > 0 && TailCount(s) < s.consumer.seen
  {
    hide SharedInv, ProducerReady, SlotOf, Region.Valid, Region.Suits, Pow2, Agrees;
  }

  /** A pop never waits: at every moment of any run, unless it has found the ring empty,
      its next step can be taken, and it has a fixed number of steps. */
  lemma PopNeverWaits(c: Config, run: seq<State>, actions: seq<Action>, call: Pop, agrees: bool)
    requires IsStretch(c, run, actions) && run[0].cpc.Idle? && call.t in c.types
    requires Follows(call, Own(actions, false), agrees)
    requires |run[0].delivered| < |run[|actions|].committed| ==> agrees == IsOfType(run[|actions|], run[0], call.t)
    requires |Own(actions, false)| < call.Length(agrees) && Found(run[0], Own(actions, false))
    requires |Own(actions, false)| == call.Viewed() ==> ChecksIfNeeded(c, run[|actions|], call)
    ensures var p, end := |Own(actions, false)|, run[|actions|];
            && Shaped(c, end) && |end.heads| > 0
            && var a := NextOfPop(call, end, p, agrees);
               && call.Allows(p, a, agrees) && Enabled(c, end, a)
               && (p == 1 ==> forall i: nat :: end.consumer.seen <= i < |end.heads| ==> Enabled(c, end, AcquireHead(i)))
  {
    hide Inv, Shaped, Enabled, IsStep, Region.Valid, Pop.Allows, SameTraits, TookOut, NextOfPop, ChecksIfNeeded;
    PopIsAt(c, run, actions, call, agrees);
    NextIsEnabled(c, run[|actions|], run[0], call, |Own(actions, false)|, agrees);
  }

  // ---- By itself ----

  /** So a pop that is under way, or that finds a message, can be finished by the consumer
      alone at any moment. */
  lemma {:induction false} PopCanFinish(c: Config, run: seq<State>, actions: seq<Action>, call: Pop, agrees: bool)
    returns (run': seq<State>, actions': seq<Action>)
    requires IsStretch(c, run, actions) && run[0].cpc.Idle? && call.t in c.types && (call.verifyCrc ==> call.checks)
    requires Follows(call, Own(actions, false), agrees) && Found(run[0], Own(actions, false))
    requires |run[0].delivered| < |run[|actions|].committed| && agrees == IsOfType(run[|actions|], run[0], call.t)
    ensures IsStretch(c, run', actions') && actions <= actions' && run <= run'
    ensures |actions'| == |actions| + call.Length(agrees) - |Own(actions, false)|
    ensures agrees ==> TookOut(c, run'[|actions'|], run[0], call.t)
    ensures !agrees ==> run'[|actions'|].delivered == run[0].delivered
    decreases call.Length(agrees) - |Own(actions, false)|
  {
    hide Inv, Shaped, Enabled, Next, Region.Valid, Pop.Allows, NextOfPop, TookOut, SameTraits;
    var own, end := Own(actions, false), run[|actions|];
    PopOutcome(c, run, actions, call, agrees);
    if |own| == call.Length(agrees) {
      run', actions' := run, actions;
    } else {
      PopNeverWaits(c, run, actions, call, agrees);
      var a := NextOfPop(call, end, |own|, agrees);
      var next, more := run + [Next(c, end, a)], actions + [a];
      StretchKeepsInv(c, run, actions);
      assert IsStep(c, end, a, next[|actions| + 1]);
      NextKeepsGoing(c, end, run[0], call, |own|, agrees);
      assert more[..|actions|] == actions && next[..|actions| + 1] == run;
      assert IsStretch(c, next, more);
      run', actions' := PopCanFinish(c, next, more, call, agrees);
    }
  }

  lemma NextKeepsGoing(c: Config, s: State, start: State, call: Pop, p: nat, agrees: bool)
    requires Inv(c, s) && c.Valid() && Shaped(c, s) && p < call.Length(agrees)
    requires |s.heads| > 0 && Enabled(c, s, NextOfPop(call, s, p, agrees))
    requires |start.delivered| < |s.committed|
    ensures !NextOfPop(call, s, p, agrees).OfProducer()
    ensures Next(c, s, NextOfPop(call, s, p, agrees)).committed == s.committed
    ensures var a := NextOfPop(call, s, p, agrees); p == 1 ==> a.AcquireHead? && a.i != |start.delivered|
  {
    hide Inv, Region.Valid, Region.Suits, Pow2, SlotIndex, ReadCell, ViewError, CanView, Plus1, KnownToConsumer;
    CountsOf(c, s);
  }
}
