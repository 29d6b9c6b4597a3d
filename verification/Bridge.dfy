/** The ROS 2 bridge of include/sinew/ros2_bridge.hpp, over a ring that carries one type.
    The converters are parameters; they see a payload as its bytes. */
module Bridge {
  import opened ByteOrder
  import opened Memory
  import opened Crc32
  import opened Wire
  import opened Counters
  import opened Region
  import opened Slots
  import opened Rings

  function Payloads(queue: seq<Packed>): (r: seq<seq<Byte>>)
    ensures |r| == |queue|
    ensures forall i :: 0 <= i < |queue| ==> r[i] == queue[i].payload
  {
    seq(|queue|, i requires 0 <= i < |queue| => queue[i].payload)
  }

  // One message object after to_ros has been applied to each payload in turn.
  function Converted<P, R>(toRos: (P, R) -> R, blank: R, payloads: seq<P>): R {
    if payloads == [] then blank
    else toRos(payloads[|payloads| - 1], Converted(toRos, blank, payloads[..|payloads| - 1]))
  }

  // What it was after each of them.
  function Reusing<P, R>(toRos: (P, R) -> R, blank: R, payloads: seq<P>): (r: seq<R>)
    ensures |r| == |payloads|
    ensures forall i :: 0 <= i < |payloads| ==> r[i] == Converted(toRos, blank, payloads[..i + 1])
  {
    seq(|payloads|, i requires 0 <= i < |payloads| => Converted(toRos, blank, payloads[..i + 1]))
  }

  // to_ros applied to each payload, every time into a new message.
  function Afresh<P, R>(toRos: (P, R) -> R, blank: R, payloads: seq<P>): (r: seq<R>)
    ensures |r| == |payloads|
    ensures forall i :: 0 <= i < |payloads| ==> r[i] == toRos(payloads[i], blank)
  {
    seq(|payloads|, i requires 0 <= i < |payloads| => toRos(payloads[i], blank))
  }

  // A converter that leaves nothing of the message before in a reused one.
  ghost predicate Overwrites<P(!new), R>(toRos: (P, R) -> R, blank: R) {
    forall first, second :: toRos(second, toRos(first, blank)) == toRos(second, blank)
  }

  lemma OneMoreConversion<R>(toRos: (seq<Byte>, R) -> R, blank: R, queue: seq<Packed>, next: Packed)
    ensures var payloads, more := Payloads(queue), Payloads(queue + [next]);
            && Converted(toRos, blank, more) == toRos(next.payload, Converted(toRos, blank, payloads))
            && Reusing(toRos, blank, more) == Reusing(toRos, blank, payloads) + [Converted(toRos, blank, more)]
  {
    var payloads, more := Payloads(queue), Payloads(queue + [next]);
    assert more[..|payloads|] == payloads;
    assert more[..|more|] == more;
    forall i | 0 <= i < |payloads|
      ensures Reusing(toRos, blank, more)[i] == Reusing(toRos, blank, payloads)[i]
    {
      assert more[..i + 1] == payloads[..i + 1];
    }
  }

  /** A reused message publishes what new ones would, for every sequence of payloads, exactly
      when the converter overwrites everything it left behind the time before. */
  lemma ReuseIsSafeExactly<P(!new), R>(toRos: (P, R) -> R, blank: R)
    ensures (forall payloads :: Reusing(toRos, blank, payloads) == Afresh(toRos, blank, payloads))
       <==> Overwrites(toRos, blank)
  {
    if Overwrites(toRos, blank) {
      forall payloads
        ensures Reusing(toRos, blank, payloads) == Afresh(toRos, blank, payloads)
      {
        forall i | 0 <= i < |payloads|
          ensures Reusing(toRos, blank, payloads)[i] == toRos(payloads[i], blank)
        {
          ConvertedAfresh(toRos, blank, payloads[..i + 1]);
        }
      }
    }
    if forall payloads :: Reusing(toRos, blank, payloads) == Afresh(toRos, blank, payloads) {
      forall first, second
        ensures toRos(second, toRos(first, blank)) == toRos(second, blank)
      {
        var both := [first, second];
        assert Reusing(toRos, blank, both)[1] == Afresh(toRos, blank, both)[1];
        assert both[..2] == both && both[..1] == [first] && [first][..0] == [];
        assert Converted(toRos, blank, [first]) == toRos(first, blank);
      }
    }
  }

  /** A converter that appends to what is there is one that shows. */
  lemma AppendingShows(payload: seq<Byte>)
    requires payload != []
    ensures var append := (p: seq<Byte>, into: seq<Byte>) => into + p;
            && Reusing(append, [], [payload, payload]) == [payload, payload + payload]
            && Afresh(append, [], [payload, payload]) == [payload, payload]
            && !Overwrites(append, [])
  {
    var append := (p: seq<Byte>, into: seq<Byte>) => into + p;
    var both := [payload, payload];
    assert append(payload, []) == [] + payload == payload;
    assert both[..1] == [payload] && both[..2] == both && [payload][..0] == [];
    assert Converted(append, [], [payload]) == append(payload, []);
    assert Reusing(append, [], both) == [payload, payload + payload];
    assert |append(payload, append(payload, []))| == 2 * |payload|;
  }

  lemma ConvertedAfresh<P(!new), R>(toRos: (P, R) -> R, blank: R, payloads: seq<P>)
    requires Overwrites(toRos, blank) && payloads != []
    ensures Converted(toRos, blank, payloads) == toRos(payloads[|payloads| - 1], blank)
  {
    var n := |payloads| - 1;
    if n > 0 {
      ConvertedAfresh(toRos, blank, payloads[..n]);
      assert toRos(payloads[n], toRos(payloads[..n][n - 1], blank)) == toRos(payloads[n], blank);
    }
  }

  // What spin_some does: how many it processes, what it leaves, and what it publishes.
  function SpinCall<R>(toRos: (seq<Byte>, R) -> R, blank: R, hasCallback: bool, queue: seq<Packed>, maxMessages: nat)
    : (nat, seq<Packed>, seq<R>)
  {
    var n := Min(maxMessages, |queue|);
    (n, queue[n..], if hasCallback then Reusing(toRos, blank, Payloads(queue[..n])) else [])
  }

  // What handle_ros_message does: whether it accepts the message, and what is then queued.
  function HandleCall<S>(capacity: nat, t: MsgType, fromRos: (S, seq<Byte>) -> seq<Byte>, queue: seq<Packed>,
                         message: S, computeCrc: bool): (bool, seq<Packed>)
  {
    var value := fromRos(message, t.initial);
    if |queue| < capacity then (true, queue + [Packed(t, value, StoredCrc(value, computeCrc))]) else (false, queue)
  }

  class BridgePublisher<R> {
    const ring: Ring
    const t: MsgType
    const toRos: (seq<Byte>, R) -> R
    const blank: R
    const hasCallback: bool

    constructor (ring: Ring, t: MsgType, toRos: (seq<Byte>, R) -> R, blank: R, hasCallback: bool)
      ensures this.ring == ring && this.t == t && this.toRos == toRos
      ensures this.blank == blank && this.hasCallback == hasCallback
    {
      this.ring, this.t, this.toRos, this.blank, this.hasCallback := ring, t, toRos, blank, hasCallback;
    }

    /** spin_some: up to so many of the oldest messages are taken out of the ring and
        published in order. One message object is converted into again and again. */
    method SpinSome(maxMessages: nat) returns (processed: nat, published: seq<R>)
      requires ring.Valid() && ring.region.Suits(t)
      requires forall m :: m in ring.queue ==> SameTraits(t, m.t)
      modifies ring`tail, ring`queue, ring`taken
      ensures ring.Valid()
      ensures (processed, ring.queue, published)
           == SpinCall(toRos, blank, hasCallback, old(ring.queue), maxMessages)
      ensures processed == Min(maxMessages, |old(ring.queue)|)
      ensures ring.queue == old(ring.queue)[processed..]
      ensures |published| == if hasCallback then processed else 0
      ensures OneByOne(toRos, blank, old(ring.queue), published)
    {
      hide Region.Suits, Region.Valid, Pow2, Converted, Ring.Valid, Reusing, Payloads, OneByOne;
      processed, published := 0, [];
      var message := blank;
      ghost var before := ring.queue;
      StartsBlank(toRos, blank);
      while processed < maxMessages
        invariant ring.Valid() && processed <= Min(maxMessages, |before|)
        invariant ring.queue == before[processed..]
        invariant message == Converted(toRos, blank, Payloads(before[..processed]))
        invariant published == if hasCallback then Reusing(toRos, blank, Payloads(before[..processed])) else []
      {
        var payload := ring.Peek(t, false);
        if payload.None? {
          break;
        }
        ghost var next := ring.queue[0];
        message := toRos(ring.memory[payload.value..payload.value + t.Size()], message);
        OneMoreConversion(toRos, blank, before[..processed], next);
        assert before[..processed] + [next] == before[..processed + 1];
        if hasCallback {
          published := published + [message];
        }
        ring.CommitRead();
        processed := processed + 1;
      }
      EachFromTheLast(toRos, blank, before, processed);
    }
  }

  // Each is the payload in its place, converted into what the one before left behind.
  ghost predicate OneByOne<R>(toRos: (seq<Byte>, R) -> R, blank: R, queue: seq<Packed>, published: seq<R>) {
    && |published| <= |queue|
    && forall i :: 0 <= i < |published| ==>
         published[i] == toRos(queue[i].payload, if i == 0 then blank else published[i - 1])
  }

  lemma EachFromTheLast<R>(toRos: (seq<Byte>, R) -> R, blank: R, queue: seq<Packed>, n: nat)
    requires n <= |queue|
    ensures OneByOne(toRos, blank, queue, Reusing(toRos, blank, Payloads(queue[..n])))
    ensures OneByOne(toRos, blank, queue, [])
  {
    var payloads := Payloads(queue[..n]);
    forall i | 0 <= i < n
      ensures Converted(toRos, blank, payloads[..i + 1])
           == toRos(payloads[i], Converted(toRos, blank, payloads[..i]))
    {
      assert payloads[..i + 1][..i] == payloads[..i];
    }
  }

  lemma StartsBlank<R>(toRos: (seq<Byte>, R) -> R, blank: R)
    ensures Converted(toRos, blank, Payloads([])) == blank
    ensures Reusing(toRos, blank, Payloads([])) == []
  {
  }

  class BridgeSubscriber<S(!new)> {
    const ring: Ring
    const t: MsgType
    const fromRos: (S, seq<Byte>) -> seq<Byte>

    constructor (ring: Ring, t: MsgType, fromRos: (S, seq<Byte>) -> seq<Byte>)
      ensures this.ring == ring && this.t == t && this.fromRos == fromRos
    {
      this.ring, this.t, this.fromRos := ring, t, fromRos;
    }

    /** handle_ros_message: the converted message is queued unless the ring is full. The
        converter writes into a new value of the type, of fixed size. */
    method HandleRosMessage(message: S, computeCrc: bool) returns (ok: bool)
      requires ring.Valid() && ring.region.Suits(t)
      requires forall m :: |fromRos(m, t.initial)| == t.Size()
      modifies ring`head, ring`queue, ring.memory
      ensures ring.Valid()
      ensures (ok, ring.queue)
           == HandleCall(ring.region.shape.Capacity(), t, fromRos, old(ring.queue), message, computeCrc)
      ensures ok <==> |old(ring.queue)| < ring.region.shape.Capacity()
      ensures var value := fromRos(message, t.initial);
              ring.queue == if ok then old(ring.queue) + [Packed(t, value, if computeCrc then Checksum(value) else 0)]
                            else old(ring.queue)
    {
      hide Region.Suits, Region.Valid, Pow2, Ring.Valid, Checksum;
      var payload := ring.PrepareWrite(t);
      if payload.None? {
        return false;
      }
      var value := fromRos(message, t.initial);
      ring.Fill(t, payload.value, 0, value);
      assert ring.Draft(t) == value;
      ring.CommitWrite(t, computeCrc);
      return true;
    }
  }

  // ---- Both ends ----

  // Both ends of a bridge over one ring: the type it carries and the two converters.
  datatype Link<!S, !R> = Link(capacity: nat, t: MsgType, fromRos: (S, seq<Byte>) -> seq<Byte>,
                               toRos: (seq<Byte>, R) -> R, blank: R, hasCallback: bool) {
    // A message of one side converted into one of the other.
    function Across(message: S, into: R): R {
      toRos(fromRos(message, t.initial), into)
    }
  }

  datatype BridgeCall<S> = Handled(message: S, computeCrc: bool) | Spun(maxMessages: nat)

  // What is in the ring, what was accepted, how much was taken out, and what was published.
  datatype Traffic<S, R> = Traffic(queue: seq<Packed>, accepted: seq<S>, taken: nat, published: seq<R>)

  function AfterBridgeCall<S, R>(link: Link<S, R>, before: Traffic<S, R>, call: BridgeCall<S>): Traffic<S, R> {
    match call
    case Handled(message, computeCrc) =>
      var (ok, queue) := HandleCall(link.capacity, link.t, link.fromRos, before.queue, message, computeCrc);
      Traffic(queue, if ok then before.accepted + [message] else before.accepted, before.taken, before.published)
    case Spun(maxMessages) =>
      var (processed, queue, published) :=
        SpinCall(link.toRos, link.blank, link.hasCallback, before.queue, maxMessages);
      Traffic(queue, before.accepted, before.taken + processed, before.published + published)
  }

  function TrafficAfter<S, R>(link: Link<S, R>, calls: seq<BridgeCall<S>>): Traffic<S, R> {
    if calls == [] then Traffic([], [], 0, [])
    else AfterBridgeCall(link, TrafficAfter(link, calls[..|calls| - 1]), calls[|calls| - 1])
  }

  // The ring holds the conversions of the accepted messages not taken out yet.
  ghost predicate QueueInOrder<S, R>(link: Link<S, R>, now: Traffic<S, R>) {
    && |now.accepted| == now.taken + |now.queue|
    && forall i :: 0 <= i < |now.queue| ==>
         now.queue[i].t == link.t && now.queue[i].payload == link.fromRos(now.accepted[now.taken + i], link.t.initial)
  }

  // What has been taken out has been published, each message as if into a new one.
  ghost predicate Conserves<S, R>(link: Link<S, R>, now: Traffic<S, R>) {
    now.taken <= |now.accepted| && now.published == Afresh(link.Across, link.blank, now.accepted[..now.taken])
  }

  lemma SameConversions<S, R>(link: Link<S, R>, payloads: seq<seq<Byte>>, messages: seq<S>)
    requires |payloads| == |messages|
    requires forall i :: 0 <= i < |payloads| ==> payloads[i] == link.fromRos(messages[i], link.t.initial)
    ensures Converted(link.toRos, link.blank, payloads) == Converted(link.Across, link.blank, messages)
  {
  }

  lemma ReusedAcross<S, R>(link: Link<S, R>, payloads: seq<seq<Byte>>, messages: seq<S>)
    requires |payloads| == |messages|
    requires forall i :: 0 <= i < |payloads| ==> payloads[i] == link.fromRos(messages[i], link.t.initial)
    ensures Reusing(link.toRos, link.blank, payloads) == Reusing(link.Across, link.blank, messages)
  {
    hide Converted;
    forall i | 0 <= i < |payloads|
      ensures Reusing(link.toRos, link.blank, payloads)[i] == Reusing(link.Across, link.blank, messages)[i]
    {
      SameConversions(link, payloads[..i + 1], messages[..i + 1]);
    }
  }

  lemma CallKeepsQueueInOrder<S, R>(link: Link<S, R>, before: Traffic<S, R>, call: BridgeCall<S>)
    requires QueueInOrder(link, before)
    ensures QueueInOrder(link, AfterBridgeCall(link, before, call))
  {
    hide Reusing, StoredCrc;
  }

  lemma {:induction false} QueueStaysInOrder<S, R>(link: Link<S, R>, calls: seq<BridgeCall<S>>)
    ensures QueueInOrder(link, TrafficAfter(link, calls))
    decreases |calls|
  {
    hide QueueInOrder, AfterBridgeCall;
    if calls == [] {
      NoTraffic(link);
    } else {
      QueueStaysInOrder(link, calls[..|calls| - 1]);
      CallKeepsQueueInOrder(link, TrafficAfter(link, calls[..|calls| - 1]), calls[|calls| - 1]);
    }
  }

  lemma NoTraffic<S, R>(link: Link<S, R>)
    ensures var none: Traffic<S, R> := Traffic([], [], 0, []); QueueInOrder(link, none) && Conserves(link, none)
  {
  }

  lemma CallConserves<S(!new), R>(link: Link<S, R>, before: Traffic<S, R>, call: BridgeCall<S>)
    requires link.hasCallback && Overwrites(link.Across, link.blank)
    requires QueueInOrder(link, before) && Conserves(link, before)
    ensures Conserves(link, AfterBridgeCall(link, before, call))
  {
    hide Overwrites, Reusing, Afresh, StoredCrc;
    var accepted, taken := before.accepted, before.taken;
    match call
    case Handled(message, _) => assert (accepted + [message])[..taken] == accepted[..taken];
    case Spun(maxMessages) =>
      var n := Min(maxMessages, |before.queue|);
      var some := accepted[taken..taken + n];
      ReusedAcross(link, Payloads(before.queue[..n]), some);
      ReuseIsSafeExactly(link.Across, link.blank);
      assert accepted[..taken + n] == accepted[..taken] + some;
      assert before.published + Afresh(link.Across, link.blank, some)
          == Afresh(link.Across, link.blank, accepted[..taken + n]);
  }

  /** End to end, for every run of calls on either side: with a callback, and a converter
      that overwrites what it is given, what has been published is the conversion of the
      oldest messages accepted, in order, each as if into a new message, and the others
      are still in the ring. */
  lemma {:induction false} PublishesWhatWasAccepted<S(!new), R>(link: Link<S, R>, calls: seq<BridgeCall<S>>)
    requires link.hasCallback && Overwrites(link.Across, link.blank)
    ensures Conserves(link, TrafficAfter(link, calls)) && QueueInOrder(link, TrafficAfter(link, calls))
    decreases |calls|
  {
    hide QueueInOrder, Conserves, Overwrites, AfterBridgeCall;
    QueueStaysInOrder(link, calls);
    if calls == [] {
      NoTraffic(link);
    } else {
      PublishesWhatWasAccepted(link, calls[..|calls| - 1]);
      CallConserves(link, TrafficAfter(link, calls[..|calls| - 1]), calls[|calls| - 1]);
    }
  }

  lemma OneMoreCall<S, R>(link: Link<S, R>, calls: seq<BridgeCall<S>>, call: BridgeCall<S>)
    ensures TrafficAfter(link, calls + [call]) == AfterBridgeCall(link, TrafficAfter(link, calls), call)
  {
    hide AfterBridgeCall;
    assert (calls + [call])[..|calls|] == calls;
  }

  /** Progress: after any run, a spin takes as many messages as its limit and the ring
      allow, and publishes each of them if there is a callback. */
  lemma SpinExactly<S(!new), R>(link: Link<S, R>, calls: seq<BridgeCall<S>>, maxMessages: nat)
    ensures var before, after := TrafficAfter(link, calls), TrafficAfter(link, calls + [Spun(maxMessages)]);
            var n := if maxMessages < |before.queue| then maxMessages else |before.queue|;
            && after.queue == before.queue[n..] && after.accepted == before.accepted && after.taken == before.taken + n
            && |after.published| == |before.published| + (if link.hasCallback then n else 0)
            && before.published <= after.published
  {
    hide TrafficAfter, Converted;
    OneMoreCall(link, calls, Spun(maxMessages));
  }

  /** So one with a large enough limit empties the ring: everything accepted has been taken
      out and, with a callback and converters that overwrite, published. */
  lemma SpinEmpties<S(!new), R>(link: Link<S, R>, calls: seq<BridgeCall<S>>, maxMessages: nat)
    requires maxMessages >= |TrafficAfter(link, calls).queue|
    ensures var after := TrafficAfter(link, calls + [Spun(maxMessages)]);
            && after.queue == [] && after.accepted == TrafficAfter(link, calls).accepted
            && after.taken == |after.accepted|
            && (link.hasCallback && Overwrites(link.Across, link.blank) ==>
                  after.published == Afresh(link.Across, link.blank, after.accepted))
  {
    hide TrafficAfter, Overwrites, Converted, Afresh;
    SpinExactly(link, calls, maxMessages);
    QueueStaysInOrder(link, calls);
    var after := TrafficAfter(link, calls + [Spun(maxMessages)]);
    if link.hasCallback && Overwrites(link.Across, link.blank) {
      PublishesWhatWasAccepted(link, calls + [Spun(maxMessages)]);
      assert after.accepted[..after.taken] == after.accepted;
    }
  }

  // A message is accepted exactly when there is room.
  lemma AcceptsExactly<S, R>(link: Link<S, R>, calls: seq<BridgeCall<S>>, message: S, computeCrc: bool)
    ensures var before, after := TrafficAfter(link, calls), TrafficAfter(link, calls + [Handled(message, computeCrc)]);
            && after.accepted == before.accepted + (if |before.queue| < link.capacity then [message] else [])
            && after.taken == before.taken && after.published == before.published
  {
    hide TrafficAfter;
    OneMoreCall(link, calls, Handled(message, computeCrc));
  }

  // One message sent and fetched, and two.
  lemma OneAcross<S, R>(link: Link<S, R>, message: S)
    requires link.capacity >= 1
    ensures var now := TrafficAfter(link, [Handled(message, false)] + [Spun(1)]);
            now.taken == 1 && now.accepted == [message] && |now.published| == if link.hasCallback then 1 else 0
  {
    hide Converted, StoredCrc;
    OneMoreCall(link, [], Handled(message, false));
    assert [] + [BridgeCall.Handled(message, false)] == [Handled(message, false)];
    OneMoreCall(link, [Handled(message, false)], Spun(1));
  }

  lemma TwoAcross<S, R>(link: Link<S, R>, first: S, second: S)
    requires link.capacity >= 2 && link.hasCallback
    ensures var now := TrafficAfter(link, [Handled(first, false)] + [Handled(second, false)] + [Spun(2)]);
            && now.taken == 2 && now.accepted == [first, second] && |now.published| == 2
            && now.published[1] == link.Across(second, link.Across(first, link.blank))
  {
    hide StoredCrc, Converted;
    OneMoreCall(link, [], Handled(first, false));
    assert [] + [BridgeCall.Handled(first, false)] == [Handled(first, false)];
    OneMoreCall(link, [Handled(first, false)], Handled(second, false));
    var calls := [BridgeCall.Handled(first, false)] + [Handled(second, false)];
    OneMoreCall(link, calls, Spun(2));
    var before := TrafficAfter(link, calls);
    assert before.accepted == [first] + [second] == [first, second];
    assert before.queue[..2] == before.queue;
    QueueStaysInOrder(link, calls);
    ReusedAcross(link, Payloads(before.queue), [first, second]);
    ConvertedTwice(link.Across, link.blank, first, second);
    assert [first, second][..2] == [first, second];
  }

  lemma ConvertedTwice<P, R>(toRos: (P, R) -> R, blank: R, first: P, second: P)
    ensures Converted(toRos, blank, [first, second]) == toRos(second, toRos(first, blank))
  {
    assert [first, second][..1] == [first] && [first][..0] == [];
    assert Converted(toRos, blank, [first]) == toRos(first, blank);
  }

  ghost predicate AlwaysConserves<S(!new), R>(link: Link<S, R>) {
    forall calls :: Conserves(link, TrafficAfter(link, calls))
  }

  /** The condition is exact: over all runs nothing is lost or muddled if and only if there
      is a callback and the converters together overwrite all of the reused message. */
  lemma ConservesExactly<S(!new), R>(link: Link<S, R>, some: S)
    requires link.capacity >= 2
    ensures AlwaysConserves(link) <==> link.hasCallback && Overwrites(link.Across, link.blank)
  {
    hide TrafficAfter;
    if link.hasCallback && Overwrites(link.Across, link.blank) {
      forall calls
        ensures Conserves(link, TrafficAfter(link, calls))
      {
        PublishesWhatWasAccepted(link, calls);
      }
    } else if AlwaysConserves(link) {
      OneAcross(link, some);
      assert Conserves(link, TrafficAfter(link, [Handled(some, false)] + [Spun(1)]));
      var across := link.Across;
      forall first, second
        ensures across(second, across(first, link.blank)) == across(second, link.blank)
      {
        TwoAcross(link, first, second);
        assert Conserves(link, TrafficAfter(link, [Handled(first, false)] + [Handled(second, false)] + [Spun(2)]));
        assert [first, second][..2] == [first, second];
      }
    }
  }

  /** Any run of calls on a publisher and a subscriber that share a new ring does what
      `TrafficAfter` says, and so publishes what was accepted. */
  method RunBridge<S(!new), R>(subscriber: BridgeSubscriber<S>, publisher: BridgePublisher<R>,
                               calls: seq<BridgeCall<S>>)
    returns (published: seq<R>)
    requires subscriber.ring == publisher.ring && subscriber.t == publisher.t
    requires publisher.ring.Valid() && publisher.ring.queue == [] && publisher.ring.region.Suits(publisher.t)
    requires forall m :: |subscriber.fromRos(m, subscriber.t.initial)| == subscriber.t.Size()
    modifies publisher.ring`head, publisher.ring`tail, publisher.ring`queue, publisher.ring`taken, publisher.ring.memory
    ensures publisher.ring.Valid()
    ensures var now := TrafficAfter(LinkOf(subscriber, publisher), calls);
            publisher.ring.queue == now.queue && published == now.published
  {
    hide Region.Suits, Region.Valid, Pow2, Ring.Valid, Reusing, StoredCrc;
    ghost var link := LinkOf(subscriber, publisher);
    published := [];
    for i := 0 to |calls|
      invariant publisher.ring.Valid()
      invariant publisher.ring.queue == TrafficAfter(link, calls[..i]).queue
      invariant published == TrafficAfter(link, calls[..i]).published
    {
      assert calls[..i + 1][..i] == calls[..i];
      QueueStaysInOrder(link, calls[..i]);
      match calls[i]
      case Handled(message, computeCrc) =>
        var _ := subscriber.HandleRosMessage(message, computeCrc);
      case Spun(maxMessages) =>
        var _, some := publisher.SpinSome(maxMessages);
        published := published + some;
    }
    assert calls[..|calls|] == calls;
  }

  ghost function LinkOf<S(!new), R>(subscriber: BridgeSubscriber<S>, publisher: BridgePublisher<R>): Link<S, R> {
    Link(publisher.ring.region.shape.Capacity(), publisher.t, subscriber.fromRos, publisher.toRos, publisher.blank,
         publisher.hasCallback)
  }
}
