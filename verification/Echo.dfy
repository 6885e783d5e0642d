/** Echo suppression in a bidirectional bridge. The two callbacks of a factory are methods over
    publishers; a run interleaves external publications with deliveries from two broadcast buses
    that also hand the bridge its own publications. */
module Echo {
  import opened Wrappers

  const BRIDGE_NODE := "/ros_bridge"

  /** A ROS 1 message event; the connection header may be missing. */
  datatype Event1<A> = Event1(header: Option<map<string, string>>, message: A)

  /** A ROS 2 message with the identity of its publisher. */
  datatype Event2<B> = Event2(gid: nat, message: B)

  datatype Factory<!A, !B> = Factory(to2: A -> B, to1: B -> A)

  class Publisher<M> {
    var sent: seq<M>

    constructor ()
      ensures sent == []
    {
      sent := [];
    }

    method Publish(message: M)
      modifies this
      ensures sent == old(sent) + [message]
    {
      sent := sent + [message];
    }
  }

  predicate FromBridge(header: map<string, string>) {
    "callerid" in header && header["callerid"] == BRIDGE_NODE
  }

  // ----- the callbacks -----

  /** What one ROS 1 message makes the bridge publish on ROS 2. */
  function Forward1<A, B>(factory: Factory<A, B>, event: Event1<A>): seq<B> {
    if event.header.None? || FromBridge(event.header.value) then [] else [factory.to2(event.message)]
  }

  /** What one ROS 2 message makes the bridge publish on ROS 1; `handed` is the identity of the
      publisher that was handed over, if any, and `valid` tells that there is a ROS 1 publisher. */
  function Forward2<A, B>(factory: Factory<A, B>, event: Event2<B>, valid: bool, handed: Option<nat>): seq<A> {
    if handed == Some(event.gid) || !valid then [] else [factory.to1(event.message)]
  }

  /** The connection header names the bridge's node as the caller. */
  ghost predicate NamesBridge(header: Option<map<string, string>>) {
    exists h :: header == Some(h) && "callerid" in h && h["callerid"] == "/ros_bridge"
  }

  /** Every message of another caller, named or not, is converted and published; one that names the
      bridge, or that has no header at all, is dropped. */
  lemma Forward1Exactly<A, B>(factory: Factory<A, B>, event: Event1<A>)
    ensures Forward1(factory, event) ==
            if event.header.Some? && !NamesBridge(event.header) then [factory.to2(event.message)] else []
  {
  }

  method Ros1Callback<A, B>(factory: Factory<A, B>, event: Event1<A>, ros2Pub: Publisher<B>)
    modifies ros2Pub
    ensures ros2Pub.sent == old(ros2Pub.sent) + Forward1(factory, event)
    ensures event.header.None? ==> ros2Pub.sent == old(ros2Pub.sent)
    ensures forall h | event.header == Some(h) ::
              ros2Pub.sent == old(ros2Pub.sent) +
                if "callerid" in h && h["callerid"] == "/ros_bridge" then [] else [factory.to2(event.message)]
  {
    if event.header.None? { return; }
    var header := event.header.value;
    if "callerid" in header {
      if header["callerid"] == BRIDGE_NODE { return; }
    }
    ros2Pub.Publish(factory.to2(event.message));
  }

  method Ros2Callback<A, B>(factory: Factory<A, B>, event: Event2<B>, ros1Pub: Publisher?<A>, ros2Pub: Option<nat>)
    modifies ros1Pub
    ensures ros1Pub != null ==> ros1Pub.sent == old(ros1Pub.sent) + Forward2(factory, event, true, ros2Pub)
    ensures ros1Pub == null ==> Forward2(factory, event, false, ros2Pub) == []
    ensures ros1Pub != null ==>
              ros1Pub.sent == old(ros1Pub.sent) + if ros2Pub == Some(event.gid) then [] else [factory.to1(event.message)]
  {
    if ros2Pub.Some? {
      if event.gid == ros2Pub.value { return; }
    }
    if ros1Pub == null { return; }
    ros1Pub.Publish(factory.to1(event.message));
  }

  // ----- the closed loop -----

  /** `handedOver`: the bridge was created bidirectional, so the ROS 2 callback knows its publisher.
      `loopback`: the ROS 2 middleware delivers a participant's own publications although the
      subscription asks it not to, which not every middleware honours. */
  datatype Config<!A, !B> = Config(factory: Factory<A, B>, gid: nat, valid: bool, handedOver: bool, loopback: bool)

  /** A pending delivery; `own` tells the publications of the bridge from external ones. */
  datatype Delivery<E> = Delivery(own: bool, event: E)

  datatype State<A, B> = State(
    bus1: seq<Delivery<Event1<A>>>, bus2: seq<Delivery<Event2<B>>>,
    log1: seq<Delivery<Event1<A>>>, log2: seq<Delivery<Event2<B>>>,
    published1: seq<Event1<A>>, published2: seq<Event2<B>>,
    out1: seq<A>, out2: seq<B>)

  datatype Action<A, B> = Publish1(event1: Event1<A>) | Publish2(event2: Event2<B>) | Deliver1(i: nat) | Deliver2(i: nat)

  function Initial<A, B>(): State<A, B> {
    State([], [], [], [], [], [], [], [])
  }

  function Own1<A>(messages: seq<A>): seq<Delivery<Event1<A>>> {
    seq(|messages|, i requires 0 <= i < |messages| =>
      Delivery(true, Event1(Some(map["callerid" := BRIDGE_NODE]), messages[i])))
  }

  function Own2<B>(gid: nat, messages: seq<B>): seq<Delivery<Event2<B>>> {
    seq(|messages|, i requires 0 <= i < |messages| => Delivery(true, Event2(gid, messages[i])))
  }

  /** Node names and publisher identities are unique. */
  predicate Enabled<A, B>(c: Config<A, B>, s: State<A, B>, a: Action<A, B>) {
    match a
    case Publish1(e) => !(e.header.Some? && FromBridge(e.header.value))
    case Publish2(e) => e.gid != c.gid
    case Deliver1(i) => i < |s.bus1|
    case Deliver2(i) => i < |s.bus2|
  }

  /** Any node of another name may publish on ROS 1, with whatever header, and any publisher of
      another identity on ROS 2; and each pending message may be delivered next. */
  lemma EnabledExactly<A, B>(c: Config<A, B>, s: State<A, B>, e1: Event1<A>, e2: Event2<B>, i: nat)
    ensures Enabled(c, s, Publish1(e1)) <==>
              e1.header == None || "callerid" !in e1.header.value || e1.header.value["callerid"] != "/ros_bridge"
    ensures Enabled(c, s, Publish2(e2)) <==> e2.gid != c.gid
    ensures Enabled(c, s, Deliver1(i)) <==> i < |s.bus1|
    ensures Enabled(c, s, Deliver2(i)) <==> i < |s.bus2|
  {
  }

  function Step<A, B>(c: Config<A, B>, s: State<A, B>, a: Action<A, B>): State<A, B>
    requires Enabled(c, s, a)
  {
    match a
    case Publish1(e) => s.(bus1 := s.bus1 + [Delivery(false, e)], published1 := s.published1 + [e])
    case Publish2(e) => s.(bus2 := s.bus2 + [Delivery(false, e)], published2 := s.published2 + [e])
    case Deliver1(i) =>
      var d := s.bus1[i];
      var sent := Forward1(c.factory, d.event);
      s.(bus1 := s.bus1[..i] + s.bus1[i + 1..], log1 := s.log1 + [d], out2 := s.out2 + sent,
         bus2 := s.bus2 + if c.loopback then Own2(c.gid, sent) else [])
    case Deliver2(i) =>
      var d := s.bus2[i];
      var sent := Forward2(c.factory, d.event, c.valid, if c.handedOver then Some(c.gid) else None);
      s.(bus2 := s.bus2[..i] + s.bus2[i + 1..], log2 := s.log2 + [d], out1 := s.out1 + sent,
         bus1 := s.bus1 + Own1(sent))
  }

  /** The state that a run reaches, or None if some action of it is not enabled. */
  function After<A, B>(c: Config<A, B>, s: State<A, B>, run: seq<Action<A, B>>): Option<State<A, B>>
    decreases run
  {
    if run == [] then Some(s)
    else if !Enabled(c, s, run[0]) then None
    else After(c, Step(c, s, run[0]), run[1..])
  }

  // ----- what the run should do -----

  function External<E>(ds: seq<Delivery<E>>): seq<E> {
    if ds == [] then []
    else External(ds[..|ds| - 1]) + if ds[|ds| - 1].own then [] else [ds[|ds| - 1].event]
  }

  function FlatMap<E, R>(f: E -> seq<R>, es: seq<E>): seq<R> {
    if es == [] then [] else FlatMap(f, es[..|es| - 1]) + f(es[|es| - 1])
  }

  /** Every external ROS 1 message that has a connection header is to be carried over. */
  function Wanted1<A, B>(c: Config<A, B>): Event1<A> -> seq<B> {
    (e: Event1<A>) => if e.header.Some? then [c.factory.to2(e.message)] else []
  }

  function Wanted2<A, B>(c: Config<A, B>): Event2<B> -> seq<A> {
    (e: Event2<B>) => if c.valid then [c.factory.to1(e.message)] else []
  }

  /** The output on each side is exactly the converted external messages that were processed from
      the other side, once each and in order. */
  ghost predicate NoEcho<A, B>(c: Config<A, B>, s: State<A, B>) {
    && s.out2 == FlatMap(Wanted1(c), External(s.log1))
    && s.out1 == FlatMap(Wanted2(c), External(s.log2))
  }

  /** What the bridge publishes on ROS 2 does not come back to ROS 1. */
  predicate Silent<A, B>(c: Config<A, B>) {
    c.handedOver || !c.loopback || !c.valid
  }

  // ----- invariants -----

  ghost predicate Honest1<A>(ds: seq<Delivery<Event1<A>>>) {
    forall d | d in ds :: d.own <==> d.event.header.Some? && FromBridge(d.event.header.value)
  }

  ghost predicate Honest2<A, B>(c: Config<A, B>, ds: seq<Delivery<Event2<B>>>) {
    forall d | d in ds :: (d.own <==> d.event.gid == c.gid) && (d.own ==> c.loopback)
  }

  ghost predicate Honest<A, B>(c: Config<A, B>, s: State<A, B>) {
    Honest1(s.bus1) && Honest2(c, s.bus2)
  }

  /** Every external publication is pending or processed, exactly once. */
  ghost predicate Conserved<A, B>(s: State<A, B>) {
    && multiset(s.published1) == multiset(External(s.log1)) + multiset(External(s.bus1))
    && multiset(s.published2) == multiset(External(s.log2)) + multiset(External(s.bus2))
  }

  lemma StaysHonest<A, B>(c: Config<A, B>, s: State<A, B>, a: Action<A, B>)
    requires Honest(c, s) && Enabled(c, s, a)
    ensures Honest(c, Step(c, s, a))
  {}

  lemma {:induction false} ExternalOfConcat<E>(xs: seq<Delivery<E>>, ys: seq<Delivery<E>>)
    ensures External(xs + ys) == External(xs) + External(ys)
  {
    if ys == [] {
      assert xs + ys == xs;
    } else {
      ExternalOfConcat(xs, ys[..|ys| - 1]);
      assert (xs + ys)[..|xs + ys| - 1] == xs + ys[..|ys| - 1];
    }
  }

  lemma ExternalOfRemoval<E>(ds: seq<Delivery<E>>, i: nat)
    requires i < |ds|
    ensures multiset(External(ds)) == multiset(External(ds[..i] + ds[i + 1..])) + multiset(External([ds[i]]))
  {
    hide External;
    var before, after := ds[..i], ds[i + 1..];
    ExternalOfConcat(before, after);
    ExternalOfConcat(before + [ds[i]], after);
    ExternalOfConcat(before, [ds[i]]);
    assert ds == before + [ds[i]] + after;
  }

  lemma OwnIsNotExternal<E>(ds: seq<Delivery<E>>)
    requires |ds| <= 1 && forall d | d in ds :: d.own
    ensures External(ds) == []
  {
    if ds != [] {
      assert ds[0] in ds && ds[..0] == [];
    }
  }

  /** One delivery moves the external part of a bus to its log. */
  lemma DeliveryConserves<E>(published: seq<E>, bus: seq<Delivery<E>>, log: seq<Delivery<E>>, i: nat)
    requires i < |bus| && multiset(published) == multiset(External(log)) + multiset(External(bus))
    ensures multiset(published) == multiset(External(log + [bus[i]])) + multiset(External(bus[..i] + bus[i + 1..]))
  {
    hide External;
    ExternalOfRemoval(bus, i);
    ExternalOfConcat(log, [bus[i]]);
  }

  /** The bridge's own publications leave the external part of a bus alone. */
  lemma OwnPublicationsDoNotCount<E>(bus: seq<Delivery<E>>, more: seq<Delivery<E>>)
    requires |more| <= 1 && forall d | d in more :: d.own
    ensures External(bus + more) == External(bus)
  {
    ExternalOfConcat(bus, more);
    OwnIsNotExternal(more);
  }

  lemma PublicationConserves<E>(published: seq<E>, bus: seq<Delivery<E>>, log: seq<Delivery<E>>, event: E)
    requires multiset(published) == multiset(External(log)) + multiset(External(bus))
    ensures multiset(published + [event])
         == multiset(External(log)) + multiset(External(bus + [Delivery(false, event)]))
  {
    ExternalOfConcat(bus, [Delivery(false, event)]);
    assert External([Delivery(false, event)]) == [event];
    hide External;
    assert multiset(published + [event]) == multiset(published) + multiset{event};
  }

  lemma Delivery1Conserves<A, B>(c: Config<A, B>, s: State<A, B>, i: nat)
    requires Conserved(s) && i < |s.bus1|
    ensures Conserved(Step(c, s, Deliver1(i)))
  {
    hide External;
    var sent := Forward1(c.factory, s.bus1[i].event);
    var more := if c.loopback then Own2(c.gid, sent) else [];
    DeliveryConserves(s.published1, s.bus1, s.log1, i);
    OwnPublicationsDoNotCount(s.bus2, more);
  }

  lemma Delivery2Conserves<A, B>(c: Config<A, B>, s: State<A, B>, i: nat)
    requires Conserved(s) && i < |s.bus2|
    ensures Conserved(Step(c, s, Deliver2(i)))
  {
    hide External;
    var handed := if c.handedOver then Some(c.gid) else None;
    var more := Own1(Forward2(c.factory, s.bus2[i].event, c.valid, handed));
    DeliveryConserves(s.published2, s.bus2, s.log2, i);
    OwnPublicationsDoNotCount(s.bus1, more);
  }

  lemma StaysConserved<A, B>(c: Config<A, B>, s: State<A, B>, a: Action<A, B>)
    requires Conserved(s) && Enabled(c, s, a)
    ensures Conserved(Step(c, s, a))
  {
    hide External;
    match a
    case Publish1(e) =>
      PublicationConserves(s.published1, s.bus1, s.log1, e);
    case Publish2(e) =>
      PublicationConserves(s.published2, s.bus2, s.log2, e);
    case Deliver1(i) =>
      Delivery1Conserves(c, s, i);
    case Deliver2(i) =>
      Delivery2Conserves(c, s, i);
  }

  lemma StaysWithoutEcho<A, B>(c: Config<A, B>, s: State<A, B>, a: Action<A, B>)
    requires Honest(c, s) && NoEcho(c, s) && Enabled(c, s, a)
    requires Silent(c)
    ensures NoEcho(c, Step(c, s, a))
  {
    hide External, FlatMap;
    match a
    case Publish1(_) =>
    case Publish2(_) =>
    case Deliver1(i) =>
      assert s.bus1[i] in s.bus1;
      CarriedAfter(Wanted1(c), s.log1, s.bus1[i]);
    case Deliver2(i) =>
      assert s.bus2[i] in s.bus2;
      CarriedAfter(Wanted2(c), s.log2, s.bus2[i]);
  }

  /** Logging an external delivery asks for its messages; logging an own one asks for nothing. */
  lemma CarriedAfter<E, R>(f: E -> seq<R>, log: seq<Delivery<E>>, d: Delivery<E>)
    ensures FlatMap(f, External(log + [d])) == FlatMap(f, External(log)) + if d.own then [] else f(d.event)
  {
    ExternalOfConcat(log, [d]);
    var more := External([d]);
    assert more == if d.own then [] else [d.event];
    hide External;
    FlatMapOfConcat(f, External(log), more);
    if !d.own { FlatMapOfSingle(f, d.event); }
  }

  lemma {:induction false} FlatMapOfConcat<E, R>(f: E -> seq<R>, xs: seq<E>, ys: seq<E>)
    ensures FlatMap(f, xs + ys) == FlatMap(f, xs) + FlatMap(f, ys)
  {
    if ys == [] {
      assert xs + ys == xs;
    } else {
      FlatMapOfConcat(f, xs, ys[..|ys| - 1]);
      assert (xs + ys)[..|xs + ys| - 1] == xs + ys[..|ys| - 1];
    }
  }

  // ----- over all runs -----

  lemma {:induction false} NoEchoFrom<A, B>(c: Config<A, B>, s: State<A, B>, run: seq<Action<A, B>>)
    requires Honest(c, s) && NoEcho(c, s) && Silent(c)
    requires After(c, s, run).Some?
    ensures NoEcho(c, After(c, s, run).value)
    decreases run
  {
    if run != [] {
      StaysHonest(c, s, run[0]);
      StaysWithoutEcho(c, s, run[0]);
      NoEchoFrom(c, Step(c, s, run[0]), run[1..]);
    }
  }

  lemma {:induction false} ConservedFrom<A, B>(c: Config<A, B>, s: State<A, B>, run: seq<Action<A, B>>)
    requires Honest(c, s) && Conserved(s) && After(c, s, run).Some?
    ensures Conserved(After(c, s, run).value) && Honest(c, After(c, s, run).value)
    decreases run
  {
    hide Conserved, Step, Honest;
    if run != [] {
      StaysHonest(c, s, run[0]);
      StaysConserved(c, s, run[0]);
      ConservedFrom(c, Step(c, s, run[0]), run[1..]);
    }
  }

  ghost predicate NeverEchoes<A(!new), B(!new)>(c: Config<A, B>) {
    forall run: seq<Action<A, B>> | After(c, Initial(), run).Some? :: NoEcho(c, After(c, Initial(), run).value)
  }

  /** From every state, a message of another caller can be published and delivered, and it then comes
      out converted on the other side; so does a ROS 2 message of another publisher, if there is a
      ROS 1 publisher. */
  lemma OthersAreCarriedOver<A, B>(c: Config<A, B>, s: State<A, B>, h: map<string, string>, m1: A, gid: nat, m2: B)
    requires ("callerid" in h ==> h["callerid"] != "/ros_bridge") && gid != c.gid
    ensures var end := After(c, s, [Publish1(Event1(Some(h), m1)), Deliver1(|s.bus1|)]);
            end.Some? && end.value.out2 == s.out2 + [c.factory.to2(m1)] && end.value.out1 == s.out1
    ensures var end := After(c, s, [Publish2(Event2(gid, m2)), Deliver2(|s.bus2|)]);
            end.Some? && end.value.out1 == s.out1 + (if c.valid then [c.factory.to1(m2)] else []) && end.value.out2 == s.out2
  {
    var e1, e2 := Event1(Some(h), m1), Event2(gid, m2);
    var run1: seq<Action<A, B>> := [Publish1(e1), Deliver1(|s.bus1|)];
    var run2: seq<Action<A, B>> := [Publish2(e2), Deliver2(|s.bus2|)];
    var s1, s2 := Step(c, s, run1[0]), Step(c, s, run2[0]);
    assert run1[1..] == [Deliver1(|s.bus1|)] && run1[1..][1..] == [];
    assert run2[1..] == [Deliver2(|s.bus2|)] && run2[1..][1..] == [];
    assert s1.bus1[|s.bus1|] == Delivery(false, e1) && s2.bus2[|s.bus2|] == Delivery(false, e2);
    assert After(c, s, run1) == After(c, s1, run1[1..]) == After(c, Step(c, s1, Deliver1(|s.bus1|)), []);
    assert After(c, s, run2) == After(c, s2, run2[1..]) == After(c, Step(c, s2, Deliver2(|s.bus2|)), []);
  }

  /** Handing the ROS 2 publisher over is what prevents echoes: all runs are free of them exactly if
      it is handed over, or the middleware does not loop back, or there is no ROS 1 publisher. */
  lemma NoEchoIffRecognised<A(!new), B(!new)>(c: Config<A, B>, message: A)
    ensures NeverEchoes(c) <==> Silent(c)
  {
    if Silent(c) {
      forall run: seq<Action<A, B>> | After(c, Initial(), run).Some?
        ensures NoEcho(c, After(c, Initial(), run).value)
      {
        NoEchoFrom(c, Initial(), run);
      }
    } else {
      EchoWithoutHandover(c, message);
    }
  }

  /** One external ROS 1 message comes back to ROS 1 once if the publisher is not recognised and the
      middleware does not honour the subscription's request to leave out local publications. */
  lemma EchoWithoutHandover<A, B>(c: Config<A, B>, message: A)
    requires c.valid && !c.handedOver && c.loopback
    ensures var run := [Publish1(Event1(Some(map[]), message)), Deliver1(0), Deliver2(0), Deliver1(0)];
            var end := After(c, Initial(), run);
            && end.Some? && end.value.out1 == [c.factory.to1(c.factory.to2(message))]
            && end.value.bus1 == [] && end.value.bus2 == []
            && !NoEcho(c, end.value)
  {
    var e := Event1(Some(map[]), message);
    var run: seq<Action<A, B>> := [Publish1(e), Deliver1(0), Deliver2(0), Deliver1(0)];
    var s1 := Step(c, Initial(), run[0]);
    var s2 := Step(c, s1, run[1]);
    assert s2.bus1 == [] && s2.bus2 == Own2(c.gid, [c.factory.to2(message)]);
    var s3 := Step(c, s2, run[2]);
    assert s3.bus1 == Own1([c.factory.to1(c.factory.to2(message))]) && s3.bus2 == [];
    var s4 := Step(c, s3, run[3]);
    assert run[1..] == [Deliver1(0), Deliver2(0), Deliver1(0)];
    assert run[1..][1..] == [Deliver2(0), Deliver1(0)];
    assert run[1..][1..][1..] == [Deliver1(0)];
    assert run[1..][1..][1..][1..] == [];
    assert After(c, s4, []) == Some(s4);
    assert After(c, s3, [Deliver1(0)]) == Some(s4);
    assert After(c, s2, [Deliver2(0), Deliver1(0)]) == Some(s4);
    assert After(c, s1, [Deliver1(0), Deliver2(0), Deliver1(0)]) == Some(s4);
    assert After(c, Initial(), run) == Some(s4);
    OwnIsNotExternal(s4.log2);
  }

  // ----- quiescence -----

  function Weight<E>(ds: seq<Delivery<E>>, own: nat, external: nat): nat {
    if ds == [] then 0
    else Weight(ds[..|ds| - 1], own, external) + if ds[|ds| - 1].own then own else external
  }

  /** An upper bound on the deliveries that the pending messages can still cause. */
  function Measure<A, B>(s: State<A, B>): nat {
    Weight(s.bus1, 1, 3) + Weight(s.bus2, 2, 2)
  }

  lemma {:induction false} WeightOfConcat<E>(xs: seq<Delivery<E>>, ys: seq<Delivery<E>>, own: nat, external: nat)
    ensures Weight(xs + ys, own, external) == Weight(xs, own, external) + Weight(ys, own, external)
  {
    if ys == [] {
      assert xs + ys == xs;
    } else {
      WeightOfConcat(xs, ys[..|ys| - 1], own, external);
      assert (xs + ys)[..|xs + ys| - 1] == xs + ys[..|ys| - 1];
    }
  }

  lemma WeightOfRemoval<E>(ds: seq<Delivery<E>>, i: nat, own: nat, external: nat)
    requires i < |ds|
    ensures Weight(ds, own, external)
         == Weight(ds[..i] + ds[i + 1..], own, external) + if ds[i].own then own else external
  {
    WeightOfConcat(ds[..i], ds[i + 1..], own, external);
    WeightOfConcat(ds[..i] + [ds[i]], ds[i + 1..], own, external);
    WeightOfConcat(ds[..i], [ds[i]], own, external);
    assert ds == ds[..i] + [ds[i]] + ds[i + 1..];
    assert [ds[i]][..0] == [];
  }

  predicate IsDelivery<A, B>(a: Action<A, B>) {
    a.Deliver1? || a.Deliver2?
  }

  /** Every delivery lowers the measure, with or without the hand-over. */
  lemma DeliveryLowersMeasure<A, B>(c: Config<A, B>, s: State<A, B>, a: Action<A, B>)
    requires Honest(c, s) && Enabled(c, s, a) && IsDelivery(a)
    ensures Measure(Step(c, s, a)) < Measure(s)
  {
    match a
    case Deliver1(i) =>
      var more := if c.loopback then Own2(c.gid, Forward1(c.factory, s.bus1[i].event)) else [];
      assert s.bus1[i] in s.bus1;
      WeightOfRemoval(s.bus1, i, 1, 3);
      WeightOfConcat(s.bus2, more, 2, 2);
      assert |more| <= 1 && (more != [] ==> more[..0] == []);
    case Deliver2(i) =>
      var handed := if c.handedOver then Some(c.gid) else None;
      var more := Own1(Forward2(c.factory, s.bus2[i].event, c.valid, handed));
      WeightOfRemoval(s.bus2, i, 2, 2);
      WeightOfConcat(s.bus1, more, 1, 3);
      assert |more| <= 1 && (more != [] ==> more[..0] == []);
  }

  /** Without new external publications, a run has no more deliveries than the measure allows. */
  lemma {:induction false} RunIsBounded<A, B>(c: Config<A, B>, s: State<A, B>, run: seq<Action<A, B>>)
    requires Honest(c, s) && After(c, s, run).Some?
    requires forall a | a in run :: IsDelivery(a)
    ensures |run| + Measure(After(c, s, run).value) <= Measure(s)
    decreases run
  {
    hide Step, Honest, Measure;
    if run != [] {
      assert run[0] in run;
      StaysHonest(c, s, run[0]);
      DeliveryLowersMeasure(c, s, run[0]);
      RunIsBounded(c, Step(c, s, run[0]), run[1..]);
    }
  }

  /** From every state, some number of deliveries empties both buses. */
  lemma {:induction false} Settle<A, B>(c: Config<A, B>, s: State<A, B>) returns (run: seq<Action<A, B>>)
    requires Honest(c, s)
    ensures forall a | a in run :: IsDelivery(a)
    ensures var end := After(c, s, run); end.Some? && end.value.bus1 == [] && end.value.bus2 == []
    decreases Measure(s)
  {
    if s.bus1 == [] && s.bus2 == [] {
      run := [];
    } else {
      var a: Action<A, B> := if s.bus1 != [] then Deliver1(0) else Deliver2(0);
      StaysHonest(c, s, a);
      DeliveryLowersMeasure(c, s, a);
      var rest := Settle(c, Step(c, s, a));
      run := [a] + rest;
      assert run[1..] == rest;
    }
  }

  /** Once both buses are empty, each external message of a side has been published on the other
      side exactly once. */
  lemma SettledMeansCarriedOver<A, B>(c: Config<A, B>, run: seq<Action<A, B>>)
    requires Silent(c)
    requires var end := After(c, Initial(), run); end.Some? && end.value.bus1 == [] && end.value.bus2 == []
    ensures var s := After(c, Initial(), run).value;
            && multiset(s.out2) == multiset(FlatMap(Wanted1(c), s.published1))
            && multiset(s.out1) == multiset(FlatMap(Wanted2(c), s.published2))
  {
    NoEchoFrom(c, Initial(), run);
    ConservedFrom(c, Initial(), run);
    var s := After(c, Initial(), run).value;
    FlatMapOfPermutation(Wanted1(c), s.published1, External(s.log1));
    FlatMapOfPermutation(Wanted2(c), s.published2, External(s.log2));
  }

  lemma {:induction false} FlatMapOfPermutation<E, R>(f: E -> seq<R>, xs: seq<E>, ys: seq<E>)
    requires multiset(xs) == multiset(ys)
    ensures multiset(FlatMap(f, xs)) == multiset(FlatMap(f, ys))
    decreases |xs|
  {
    if xs == [] {
      assert |multiset(ys)| == 0;
    } else {
      var i := LastElsewhere(xs, ys);
      FlatMapOfPermutation(f, xs[..|xs| - 1], ys[..i] + ys[i + 1..]);
      FlatMapOfRemoval(f, ys, i);
    }
  }

  /** Where a rearrangement has the last element. */
  lemma LastElsewhere<E>(xs: seq<E>, ys: seq<E>) returns (i: nat)
    requires xs != [] && multiset(xs) == multiset(ys)
    ensures i < |ys| && ys[i] == xs[|xs| - 1]
    ensures multiset(xs[..|xs| - 1]) == multiset(ys[..i] + ys[i + 1..])
  {
    var x, front := xs[|xs| - 1], xs[..|xs| - 1];
    assert xs == front + [x];
    assert x in multiset(ys);
    i :| 0 <= i < |ys| && ys[i] == x;
    assert ys == ys[..i] + [x] + ys[i + 1..];
    assert multiset(front) == multiset(xs) - multiset{x};
    assert multiset(ys[..i] + ys[i + 1..]) == multiset(ys) - multiset{x};
  }

  lemma FlatMapOfRemoval<E, R>(f: E -> seq<R>, ys: seq<E>, i: nat)
    requires i < |ys|
    ensures multiset(FlatMap(f, ys)) == multiset(FlatMap(f, ys[..i] + ys[i + 1..])) + multiset(f(ys[i]))
  {
    hide FlatMap;
    var before, after := ys[..i], ys[i + 1..];
    FlatMapOfSingle(f, ys[i]);
    FlatMapOfConcat(f, before, after);
    FlatMapOfConcat(f, before + [ys[i]], after);
    FlatMapOfConcat(f, before, [ys[i]]);
    assert ys == before + [ys[i]] + after;
    MultisetOfMiddle(FlatMap(f, before), f(ys[i]), FlatMap(f, after));
  }

  lemma FlatMapOfSingle<E, R>(f: E -> seq<R>, e: E)
    ensures FlatMap(f, [e]) == f(e)
  {
    assert [e][..0] == [];
  }

  lemma MultisetOfMiddle<R>(a: seq<R>, b: seq<R>, c: seq<R>)
    ensures multiset(a + b + c) == multiset(a + c) + multiset(b)
  {
  }
}
