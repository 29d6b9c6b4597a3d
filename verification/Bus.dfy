/** What runs of calls do to the messages of a ring. */
module Bus {
  import opened ByteOrder
  import opened Memory
  import opened Crc32
  import opened Wire
  import opened Dispatch
  import opened Slots

  // The first listed type that a message can be viewed as.
  function FirstLike(types: seq<MsgType>, t: MsgType): (r: Option<MsgType>)
    ensures r.Some? <==> exists u :: u in types && SameTraits(u, t)
    ensures r.Some? ==> r.value in types && SameTraits(r.value, t)
  {
    if types == [] then None
    else if SameTraits(types[0], t) then Some(types[0])
    else FirstLike(types[1..], t)
  }

  function PushCall(capacity: nat, queue: seq<Packed>, m: Packed): seq<Packed> {
    if |queue| < capacity then queue + [m] else queue
  }

  function DispatchCall(queue: seq<Packed>, types: seq<MsgType>): (seq<Packed>, seq<Visit>) {
    if queue == [] then (queue, [])
    else
      match FirstLike(types, queue[0].t)
      case Some(t) => (queue[1..], [Visit(t, queue[0].payload)])
      case None => (queue, [])
  }

  // consume<T> and pop.
  function ConsumeCall(queue: seq<Packed>, t: MsgType): (seq<Packed>, seq<Visit>) {
    if queue != [] && SameTraits(t, queue[0].t) then (queue[1..], [Visit(t, queue[0].payload)]) else (queue, [])
  }

  /** The calls on a ring: push, dispatch_and_commit, consume or pop, and commit_read if
      the ring is not empty. */
  datatype Call =
    | Pushed(t: MsgType, value: seq<Byte>, computeCrc: bool)
    | Dispatched(types: seq<MsgType>, verifyCrc: bool)
    | Consumed(t: MsgType, verifyCrc: bool)
    | Dropped

  /** The messages in the ring, those it has accepted, and, for each message taken out,
      the visit it was taken out with, if there was one. */
  datatype History = History(queue: seq<Packed>, accepted: seq<Packed>, taken: seq<Option<Visit>>)

  function Somes(visits: seq<Visit>): (r: seq<Option<Visit>>)
    ensures |r| == |visits| && forall i :: 0 <= i < |visits| ==> r[i] == Some(visits[i])
  {
    seq(|visits|, i requires 0 <= i < |visits| => Some(visits[i]))
  }

  function Sent(call: Call): Packed
    requires call.Pushed?
  {
    Packed(call.t, call.value, StoredCrc(call.value, call.computeCrc))
  }

  function AfterCall(capacity: nat, before: History, call: Call): History {
    match call
    case Pushed(_, _, _) =>
      History(PushCall(capacity, before.queue, Sent(call)),
              if |before.queue| < capacity then before.accepted + [Sent(call)] else before.accepted, before.taken)
    case Dispatched(types, _) =>
      var (queue, visits) := DispatchCall(before.queue, types);
      History(queue, before.accepted, before.taken + Somes(visits))
    case Consumed(t, _) =>
      var (queue, visits) := ConsumeCall(before.queue, t);
      History(queue, before.accepted, before.taken + Somes(visits))
    case Dropped =>
      if before.queue == [] then before else History(before.queue[1..], before.accepted, before.taken + [None])
  }

  function After(capacity: nat, calls: seq<Call>): History {
    if calls == [] then History([], [], [])
    else AfterCall(capacity, After(capacity, calls[..|calls| - 1]), calls[|calls| - 1])
  }

  // A visit shows the message.
  predicate Shows(visit: Visit, m: Packed) {
    SameTraits(visit.t, m.t) && visit.payload == m.payload
  }

  // The oldest accepted messages have been taken out, with these visits; the others are in.
  ghost predicate InOrder(history: History) {
    && |history.taken| <= |history.accepted|
    && (forall i :: 0 <= i < |history.taken| ==>
          history.taken[i].Some? ==> Shows(history.taken[i].value, history.accepted[i]))
    && history.queue == history.accepted[|history.taken|..]
  }

  lemma PushKeepsOrder(before: History, m: Packed)
    requires InOrder(before)
    ensures InOrder(History(before.queue + [m], before.accepted + [m], before.taken))
  {
    hide Shows;
  }

  lemma TakingKeepsOrder(before: History, visit: Option<Visit>)
    requires InOrder(before) && before.queue != []
    requires visit.Some? ==> Shows(visit.value, before.queue[0])
    ensures InOrder(History(before.queue[1..], before.accepted, before.taken + [visit]))
  {
    hide Shows;
    assert before.queue[0] == before.accepted[|before.taken|];
  }

  lemma CallKeepsOrder(capacity: nat, before: History, call: Call)
    requires InOrder(before) && |before.queue| <= capacity
    ensures InOrder(AfterCall(capacity, before, call)) && |AfterCall(capacity, before, call).queue| <= capacity
  {
    hide FirstLike, InOrder;
    var visits := if call.Dispatched? then DispatchCall(before.queue, call.types).1
                  else if call.Consumed? then ConsumeCall(before.queue, call.t).1 else [];
    if call.Pushed? {
      PushKeepsOrder(before, Sent(call));
    } else if visits != [] {
      TakingKeepsOrder(before, Some(visits[0]));
      assert Somes(visits) == [Some(visits[0])];
    } else {
      assert before.taken + Somes(visits) == before.taken;
      if call.Dropped? && before.queue != [] {
        TakingKeepsOrder(before, None);
      }
    }
  }

  /** Over every run of these calls, whatever types each of them lists: the messages taken
      out are, one for one and in order, the oldest accepted ones, each as its visit showed
      it, and the others are still in the ring. Nothing overtakes a message nobody listed. */
  lemma {:induction false} VisitsAreInOrder(capacity: nat, calls: seq<Call>)
    ensures InOrder(After(capacity, calls)) && |After(capacity, calls).queue| <= capacity
    decreases |calls|
  {
    hide AfterCall, InOrder;
    if calls == [] {
      NothingYet();
    } else {
      VisitsAreInOrder(capacity, calls[..|calls| - 1]);
      CallKeepsOrder(capacity, After(capacity, calls[..|calls| - 1]), calls[|calls| - 1]);
    }
  }

  /** What each call does, after any run: a push is accepted exactly when there is room; a
      dispatch takes the oldest message out exactly when it lists a type of its traits, and
      consume when its type has them; commit_read takes it out in any case. */
  lemma CallExactly(capacity: nat, calls: seq<Call>, call: Call)
    ensures After(capacity, []) == History([], [], [])
    ensures var before, after := After(capacity, calls), After(capacity, calls + [call]);
            var takes := before.queue != [] && match call
                         case Pushed(_, _, _) => false
                         case Dispatched(types, _) => exists t :: t in types && SameTraits(t, before.queue[0].t)
                         case Consumed(t, _) => SameTraits(t, before.queue[0].t)
                         case Dropped => true;
            && (takes ==> && after.queue == before.queue[1..] && after.accepted == before.accepted
                          && |after.taken| == |before.taken| + 1 && before.taken <= after.taken
                          && (after.taken[|before.taken|].None? <==> call.Dropped?)
                          && (call.Dispatched? ==> after.taken[|before.taken|].value.t in call.types)
                          && (call.Consumed? ==> after.taken[|before.taken|].value.t == call.t)
                          && (!call.Dropped? ==> Shows(after.taken[|before.taken|].value, before.queue[0])))
            && (!takes && !call.Pushed? ==> after == before)
    ensures call.Pushed? ==>
              var sent := Packed(call.t, call.value, if call.computeCrc then Checksum(call.value) else 0);
              var before := After(capacity, calls);
              After(capacity, calls + [call])
              == if |before.queue| < capacity
                 then before.(queue := before.queue + [sent], accepted := before.accepted + [sent]) else before
  {
    hide FirstLike, SameTraits, Checksum;
    var before := After(capacity, calls);
    assert (calls + [call])[..|calls|] == calls;
    assert before.taken + [] == before.taken;
  }

  lemma NothingYet()
    ensures InOrder(History([], [], []))
  {
  }
}
