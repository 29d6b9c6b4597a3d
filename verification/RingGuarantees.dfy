/** What a run of the ring guarantees the code on either side of it: the answers of full(),
    empty() and size() stay true, and what is committed is not refused. */
module RingGuarantees {
  import opened ByteOrder
  import opened Memory
  import opened Wire
  import opened Counters
  import opened Region
  import opened RingProtocol
  import opened RingInvariant
  import opened RingSteps
  import opened RingRefinement

  // ---- full(), empty() and size() ----

  // What a thread has seen of the other's counter never goes back.
  lemma SeenGrows(c: Config, s: State, a: Action, s': State)
    requires Inv(c, s) && IsStep(c, s, a, s')
    ensures s.producer.seen <= s'.producer.seen && s.consumer.seen <= s'.consumer.seen
    ensures a.QueryTail? ==> s'.producer.seen == a.i
    ensures a.QueryHead? ==> s'.consumer.seen == a.i
    ensures |s'.heads| == |s.heads| + if a.ReleaseHead? then 1 else 0
    ensures |s'.tails| == |s.tails| + if a.ReleaseTail? then 1 else 0
  {
    hide InStep, SharedInv, ProducerReady, ConsumerReady, Values, Region.Valid, Region.Suits, Pow2, WriteCell, ReadCell,
      CanView, ViewError, Minus, SlotIndex, CrcField, Payload, Template, KnownToConsumer, Plus1;
  }

  lemma Reaches(c: Config, run: seq<State>, actions: seq<Action>, k: nat)
    requires IsRun(c, run, actions) && k <= |actions|
    ensures Inv(c, run[k])
  {
    hide Inv, IsStep, Init, Region.Valid, Trace, QueueAfter;
    RunRefines(c, run[..k + 1], actions[..k]);
  }

  // Nothing is committed, or nothing handed back, by these steps.
  ghost predicate NoneCommitted(actions: seq<Action>, from: nat, to: nat)
    requires to <= |actions|
  {
    forall k :: from <= k < to ==> !actions[k].ReleaseHead?
  }

  ghost predicate NoneReturned(actions: seq<Action>, from: nat, to: nat)
    requires to <= |actions|
  {
    forall k :: from <= k < to ==> !actions[k].ReleaseTail?
  }

  lemma {:induction false} SeenGrowsAlong(c: Config, run: seq<State>, actions: seq<Action>, i: nat, j: nat)
    requires IsRun(c, run, actions) && i <= j <= |actions|
    ensures run[i].producer.seen <= run[j].producer.seen && run[i].consumer.seen <= run[j].consumer.seen
    ensures NoneCommitted(actions, i, j) ==> |run[j].heads| == |run[i].heads|
    ensures NoneReturned(actions, i, j) ==> |run[j].tails| == |run[i].tails|
    decreases j
  {
    hide Inv, IsStep, Region.Valid, Init;
    if i < j {
      SeenGrowsAlong(c, run, actions, i, j - 1);
      Reaches(c, run, actions, j - 1);
      SeenGrows(c, run[j - 1], actions[j - 1], run[j]);
      assert NoneCommitted(actions, i, j) ==> !actions[j - 1].ReleaseHead?;
      assert NoneReturned(actions, i, j) ==> !actions[j - 1].ReleaseTail?;
    }
  }

  // full() as the producer computes it from the tail it loads.
  predicate FullWith(c: Config, s: State, i: nat)
    requires |s.heads| > 0 && i < |s.tails|
  {
    Minus(c.Shape(), s.heads[HeadCount(s)].word, s.tails[i].word) >= c.Capacity()
  }

  // empty() as the consumer computes it from the head it loads.
  predicate EmptyWith(s: State, i: nat)
    requires |s.tails| > 0 && i < |s.heads|
  {
    s.heads[i].word == s.tails[TailCount(s)].word
  }

  lemma FullExactly(c: Config, s: State, i: nat)
    requires Inv(c, s) && s.producer.seen <= i < |s.tails|
    ensures |s.heads| > 0
    ensures FullWith(c, s, i) <==> HeadCount(s) - i >= c.Capacity()
  {
    hide Inv, SharedInv, ProducerReady, ConsumerReady, SlotOf, WordOf, Pow2, Minus, Region.Valid, Region.Suits;
    Parts(c, s);
    ShapeIsValid(c);
    Words(c, s);
    WordsDecideAlike(c.Shape(), HeadCount(s), i);
  }

  lemma EmptyExactly(c: Config, s: State, i: nat)
    requires Inv(c, s) && s.consumer.seen <= i < |s.heads|
    ensures |s.tails| > 0
    ensures EmptyWith(s, i) <==> i == TailCount(s)
  {
    hide Inv, SharedInv, ProducerReady, ConsumerReady, SlotOf, WordOf, Pow2, Minus, Region.Valid, Region.Suits;
    Parts(c, s);
    ShapeIsValid(c);
    Words(c, s);
    WordsDecideAlike(c.Shape(), i, TailCount(s));
  }

  /** Once full() has answered false to the producer, its next prepare_write is not
      refused, whatever the consumer does meanwhile and whichever tail it loads. */
  lemma NotFullStaysTrue(c: Config, run: seq<State>, actions: seq<Action>, i: nat, j: nat)
    requires IsRun(c, run, actions) && i < j < |actions|
    requires actions[i].QueryTail? && actions[j].AcquireTail?
    requires NoneCommitted(actions, i, j)
    requires |run[i].heads| > 0 && actions[i].i < |run[i].tails| && !FullWith(c, run[i], actions[i].i)
    ensures run[j + 1].ppc.Preparing?
  {
    hide Inv, Next, AfterAcquireTail, Region.Valid, FullWith;
    Reaches(c, run, actions, i);
    Reaches(c, run, actions, j);
    SeenGrowsAlong(c, run, actions, i, i + 1);
    SeenGrowsAlong(c, run, actions, i + 1, j);
    assert IsStep(c, run[i], actions[i], run[i + 1]) && IsStep(c, run[j], actions[j], run[j + 1]);
    FullExactly(c, run[i], actions[i].i);
    SeenGrows(c, run[i], actions[i], run[i + 1]);
    AcquireTailDecides(c, run[j], actions[j].i, actions[j].t, run[j + 1]);
  }

  lemma AcquireTailDecides(c: Config, s: State, i: nat, t: MsgType, s': State)
    requires Inv(c, s) && IsStep(c, s, AcquireTail(i, t), s')
    ensures |s.heads| > 0 && s.producer.seen <= i
    ensures s'.ppc.Preparing? <==> HeadCount(s) - i < c.Capacity()
  {
    hide Inv, SlotIndex, Region.Valid, Pow2, Minus;
    Parts(c, s);
    AcquireTailKeeps(c, s, i, t);
  }

  /** Once empty() has answered false to the consumer, its next peek_read finds a slot,
      whatever the producer does meanwhile and whichever head it loads. */
  lemma NotEmptyStaysTrue(c: Config, run: seq<State>, actions: seq<Action>, i: nat, j: nat)
    requires IsRun(c, run, actions) && i < j < |actions|
    requires actions[i].QueryHead? && actions[j].AcquireHead?
    requires NoneReturned(actions, i, j)
    requires |run[i].tails| > 0 && actions[i].i < |run[i].heads| && !EmptyWith(run[i], actions[i].i)
    ensures run[j + 1].cpc.Reading?
  {
    hide Inv, Next, AfterAcquireHead, Region.Valid, EmptyWith;
    Reaches(c, run, actions, i);
    Reaches(c, run, actions, j);
    SeenGrowsAlong(c, run, actions, i, i + 1);
    SeenGrowsAlong(c, run, actions, i + 1, j);
    assert IsStep(c, run[i], actions[i], run[i + 1]) && IsStep(c, run[j], actions[j], run[j + 1]);
    EmptyExactly(c, run[i], actions[i].i);
    SeenBeyondTail(c, run[i]);
    SeenGrows(c, run[i], actions[i], run[i + 1]);
    AcquireHeadDecides(c, run[j], actions[j].i, run[j + 1]);
  }

  lemma SeenBeyondTail(c: Config, s: State)
    requires Inv(c, s)
    ensures |s.tails| > 0 && TailCount(s) <= s.consumer.seen
  {
    hide SharedInv, ProducerReady, ConsumerReady, Pow2, Region.Valid;
  }

  lemma AcquireHeadDecides(c: Config, s: State, i: nat, s': State)
    requires Inv(c, s) && IsStep(c, s, AcquireHead(i), s')
    ensures |s.tails| > 0 && s.consumer.seen <= i
    ensures s'.cpc.Reading? <==> i != TailCount(s)
  {
    hide Inv, SlotIndex, Region.Valid, Pow2;
    Parts(c, s);
    AcquireHeadKeeps(c, s, i);
  }

  /** size() as the producer computes it counts at least the messages outstanding, and as
      the consumer computes it at most those, always between 0 and the capacity, as long
      as the head word it uses is not below the tail word. */
  lemma SizeIsOneSided(c: Config, s: State, i: nat, j: nat)
    requires Inv(c, s) && s.producer.seen <= i < |s.tails| && s.consumer.seen <= j < |s.heads|
    ensures |s.heads| > 0 && |s.tails| > 0
    ensures var head, tail := s.heads[HeadCount(s)].word, s.tails[i].word;
            head >= tail ==>
              HeadCount(s) - TailCount(s) <= SpscSize(c.Shape(), head, tail) == IpcSize(head, tail) <= c.Capacity()
    ensures var head, tail := s.heads[j].word, s.tails[TailCount(s)].word;
            head >= tail ==>
              0 <= SpscSize(c.Shape(), head, tail) == IpcSize(head, tail) <= HeadCount(s) - TailCount(s) <= c.Capacity()
  {
    hide Inv, SharedInv, ProducerReady, ConsumerReady, SlotOf, WordOf, Pow2, SpscSize, IpcSize, Region.Valid,
      Region.Suits;
    Parts(c, s);
    ShapeIsValid(c);
    Words(c, s);
    SizeExactly(c.Shape(), HeadCount(s), i);
    SizeExactly(c.Shape(), j, TailCount(s));
  }

  /** On a ring whose types share one set of traits (a typed ring has one type), a message
      found is never refused: peek_read is null exactly when the ring looked empty. */
  lemma TypedRingNeverRefuses(c: Config, s: State, t: MsgType, verifyCrc: bool)
    requires Inv(c, s) && s.cpc.Reading? && t in c.types && CanView(c, s.cpc.got, t, verifyCrc)
    requires forall u :: u in c.types ==> SameTraits(t, u)
    ensures AfterAccept(c, s, t, verifyCrc).cpc == s.cpc.(accepted := Some(t))
  {
    hide Inv, ViewError, SameTraits, Matches, HoldsMessage, CanView, Region.Valid, Pow2;
    ReadSlotHolds(c, s);
    AcceptKeeps(c, s, t, verifyCrc);
  }

  /** commit_read needs a message that the consumer has seen. Without one, the next
      peek_read may take an old head for news, and look into a slot for a message that
      nothing it has loaded says was committed. */
  lemma CommitReadNeedsAMessage(c: Config, s: State)
    requires Inv(c, s) && s.cpc.Idle? && |s.delivered| == s.consumer.seen
    ensures c.Valid() && Shaped(c, s)
    ensures var taken := AfterReleaseTail(c, s);
            && |taken.tails| > 0
            && var looking := AfterLoadTail(taken);
               && looking.cpc.TailLoaded? && looking.consumer.seen < |looking.heads|
               && AfterAcquireHead(c, looking, looking.consumer.seen).cpc.Reading?
               && |looking.delivered| > looking.consumer.seen
  {
    hide Inv, SharedInv, ProducerReady, ConsumerReady, Region.Valid, Region.Suits, Pow2, WordOf, SlotIndex, Plus1,
      Taken;
    Parts(c, s);
    ShapeIsValid(c);
    CountsOf(c, s);
    Words(c, s);
    var tail := TailCount(s);
    NextWord(c.Shape(), tail);
    WordsAreRings(c.Shape());
    WordsDecideAlike(c.Shape(), tail + 1, tail);
  }
}
