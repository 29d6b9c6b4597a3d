/** Stretches of a run, and the steps that one side takes in them. */
module RingCalls {
  import opened ByteOrder
  import opened Memory
  import opened Wire
  import opened Counters
  import opened Region
  import opened RingProtocol
  import opened RingInvariant
  import opened RingSteps
  import opened RingRefinement

  // Any part of a run, in which the steps of both threads may come in any order.
  ghost predicate IsStretch(c: Config, run: seq<State>, actions: seq<Action>) {
    && c.Valid()
    && |run| == |actions| + 1
    && Inv(c, run[0])
    && forall i :: 0 <= i < |actions| ==> IsStep(c, run[i], actions[i], run[i + 1])
  }

  // The steps of one side alone.
  function Own(actions: seq<Action>, producer: bool): (own: seq<Action>)
    ensures |own| <= |actions|
  {
    if actions == [] then []
    else
      var before, a := Own(actions[..|actions| - 1], producer), actions[|actions| - 1];
      if a.OfProducer() == producer then before + [a] else before
  }

  lemma StepKeeps(c: Config, s: State, a: Action, s': State)
    requires Inv(c, s) && IsStep(c, s, a, s')
    ensures c.Valid() && Inv(c, s') && Shaped(c, s')
  {
    hide Inv, Shaped, Enabled, Next, Region.Valid;
    StepKeepsInv(c, s, a);
    Parts(c, s');
  }

  lemma {:induction false} StretchKeepsInv(c: Config, run: seq<State>, actions: seq<Action>)
    requires IsStretch(c, run, actions)
    ensures Inv(c, run[|actions|])
    decreases |actions|
  {
    hide Inv, IsStep, Region.Valid;
    var n := |actions|;
    if n > 0 {
      StretchKeepsInv(c, run[..n], actions[..n - 1]);
      StepKeeps(c, run[n - 1], actions[n - 1], run[n]);
    }
  }

  // Every part of a run is a stretch.
  lemma PartOfRun(c: Config, run: seq<State>, actions: seq<Action>, i: nat, j: nat)
    requires IsRun(c, run, actions) && i <= j <= |actions|
    ensures IsStretch(c, run[i..j + 1], actions[i..j])
  {
    hide Inv, IsStep, Init, Region.Valid, QueueAfter, Trace;
    RunRefines(c, run[..i + 1], actions[..i]);
  }

  lemma ProducerLeavesConsumer(c: Config, s: State, a: Action, s': State)
    requires Inv(c, s) && IsStep(c, s, a, s') && a.OfProducer()
    ensures s'.cpc == s.cpc && s'.consumer == s.consumer && s'.delivered == s.delivered && s.committed <= s'.committed
  {
    hide Inv, Values, Region.Valid, Region.Suits, Pow2, WriteCell, Minus, SlotIndex, CrcField, Payload, Template, Plus1,
      InStep, SharedInv, ProducerReady, ConsumerReady;
  }

  lemma ConsumerLeavesProducer(c: Config, s: State, a: Action, s': State)
    requires Inv(c, s) && IsStep(c, s, a, s') && !a.OfProducer()
    ensures s'.ppc == s.ppc && s'.producer == s.producer && s'.committed == s.committed
  {
    hide Inv, Values, Region.Valid, Region.Suits, Pow2, ReadCell, SlotIndex, CanView, ViewError, Shows, CanInspect,
      KnownToConsumer, Plus1, InStep, SharedInv, ProducerReady, ConsumerReady;
  }
}
