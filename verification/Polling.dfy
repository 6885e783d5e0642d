/** The dynamic bridge as a whole: two polls that interleave with each other, with arbitrary nodes
    that join and leave, and with failing creations. A locked section of the source is one step. */
module Polling {
  import opened Wrappers
  import opened Reconciler
  import opened Snapshots

  /** The endpoints that the bridge has to react to: in ROS 1 the nodes beside the bridge's own node,
      and in ROS 2 all endpoints beside the one that each table entry owns. The latter include what
      the bridge's ROS 2 node has by itself, such as its publishers of /rosout and
      /parameter_events, because nothing in the bridge discounts those. */
  datatype Graph = Graph(
    publishers1: map<Name, set<Node>>,
    subscribers1: map<Name, set<Node>>,
    publishers2: map<Name, nat>,
    subscribers2: map<Name, nat>)

  /** The progress of the ROS 1 poll with its local variables. */
  datatype Poll1 =
    | Idle1
    | Read1(activePublishers: set<Name>, activeSubscribers: set<Name>, services: map<Name, Details>)
    | Stored1(activePublishers: set<Name>, activeSubscribers: set<Name>)
    | Typed1(publishers: map<Name, TypeName>, subscribers: map<Name, TypeName>)
    | Ready1

  /** The progress of the ROS 2 poll. */
  datatype Poll2 =
    | Idle2
    | Counted2(publishers: map<Name, TypeName>, subscribers: map<Name, TypeName>)
    | Served2(publishers: map<Name, TypeName>, subscribers: map<Name, TypeName>, services: map<Name, Details>)
    | Stored2(publishers: map<Name, TypeName>, subscribers: map<Name, TypeName>)
    | Ready2

  /** The shared snapshots. */
  datatype Snap = Snap(
    publishers1: map<Name, TypeName>,
    subscribers1: map<Name, TypeName>,
    publishers2: map<Name, TypeName>,
    subscribers2: map<Name, TypeName>,
    services1: map<Name, Details>,
    services2: map<Name, Details>)

  datatype State = State(
    graph: Graph,
    snap: Snap,
    topics12: Topics,
    topics21: Topics,
    services: Services,
    epoch: nat,
    poll1: Poll1,
    poll2: Poll2)

  /** What stays fixed while the bridge runs. */
  datatype Config = Config(
    all12: bool,
    all21: bool,
    lookup12: TypeName -> Option<TypeName>,
    lookup21: TypeName -> Option<TypeName>)

  /** Which creations succeed during one update. */
  datatype Outcome = Outcome(
    topic12: (Name, TypeName, TypeName) -> bool,
    topic21: (Name, TypeName, TypeName) -> bool,
    service12: (Name, Details) -> bool,
    service21: (Name, Details) -> bool)

  datatype Action =
    | Environment(graph: Graph)                           // nodes join or leave
    | ReadSystemState(publishers: seq<(Name, seq<Node>)>, subscribers: seq<(Name, seq<Node>)>, services: map<Name, Details>)
    | StoreServices1
    | ReadTypes(types: seq<(Name, TypeName)>)
    | FailTypes                                           // the master does not answer
    | StoreTopics1
    | Update1(outcome: Outcome)
    | CountTopics2(topics: seq<Ros2Topic>, pubs: map<Name, TypeName>, subs: map<Name, TypeName>)
    | CollectServices2(services: map<Name, Details>)
    | StoreServices2
    | StoreTopics2
    | Update2(outcome: Outcome)

  // ----- what the two middlewares report: external endpoints and the bridge's own ones -----

  /** The master lists the external nodes of every topic, and the bridge's node on any topics, among
      them /rosout, which every node publishes. */
  ghost predicate ReportsNodes(entries: seq<(Name, seq<Node>)>, external: map<Name, set<Node>>) {
    && (forall i, k | 0 <= i < |entries| && 0 <= k < |entries[i].1| ::
          entries[i].1[k] == SELF ||
          (entries[i].0 in external && entries[i].1[k] in external[entries[i].0]))
    && (forall t, n | t in external && n in external[t] ::
          exists i :: 0 <= i < |entries| && entries[i].0 == t && n in entries[i].1)
    && (forall t | t in external :: SELF !in external[t])
  }

  function Count(m: map<Name, nat>, t: Name): nat {
    if t in m then m[t] else 0
  }

  /** The ROS 2 graph counts external endpoints and one own endpoint per bridge. */
  ghost predicate ReportsCounts(topics: seq<Ros2Topic>, s: State) {
    forall i | 0 <= i < |topics| ::
      && topics[i].publishers == Count(s.graph.publishers2, topics[i].name) + (if topics[i].name in s.topics12 then 1 else 0)
      && topics[i].subscribers == Count(s.graph.subscribers2, topics[i].name) + (if topics[i].name in s.topics21 then 1 else 0)
  }

  // ----- steps -----

  function Side12(c: Config, s: State, o: Outcome): Side {
    Side(s.snap.publishers1, s.snap.subscribers2, c.all12, c.lookup12, false, o.topic12)
  }

  function Side21(c: Config, s: State, o: Outcome): Side {
    Side(s.snap.publishers2, s.snap.subscribers1, c.all21, c.lookup21, true, o.topic21)
  }

  function SideServices(s: State, o: Outcome): ServiceSide {
    ServiceSide(s.snap.services1, s.snap.services2, o.service21, o.service12)
  }

  function AfterUpdate(c: Config, s: State, o: Outcome): State {
    s.(topics12 := UpdatedTable(Side12(c, s, o), s.topics12, s.epoch),
       topics21 := UpdatedTable(Side21(c, s, o), s.topics21, s.epoch),
       services := UpdatedServices(SideServices(s, o), s.services, s.epoch),
       epoch := s.epoch + 1)
  }

  ghost predicate Enabled(s: State, a: Action) {
    match a
    case Environment(_) => true
    case ReadSystemState(ps, ss, _) =>
      s.poll1.Idle1? && ReportsNodes(ps, s.graph.publishers1) && ReportsNodes(ss, s.graph.subscribers1)
    case StoreServices1 => s.poll1.Read1?
    case ReadTypes(_) => s.poll1.Stored1?
    case FailTypes => s.poll1.Stored1?
    case StoreTopics1 => s.poll1.Typed1?
    case Update1(_) => s.poll1.Ready1?
    case CountTopics2(ts, ps, ss) =>
      s.poll2.Idle2? && ReportsCounts(ts, s) && Counts(ts, s.topics12.Keys, s.topics21.Keys, ps, ss)
    case CollectServices2(_) => s.poll2.Counted2?
    case StoreServices2 => s.poll2.Served2?
    case StoreTopics2 => s.poll2.Stored2?
    case Update2(_) => s.poll2.Ready2?
  }

  ghost function Next(c: Config, s: State, a: Action): State
    requires Enabled(s, a)
  {
    match a
    case Environment(g) => s.(graph := g)
    case ReadSystemState(ps, ss, srv) => s.(poll1 := Read1(ActiveTopics(ps), ActiveTopics(ss), srv))
    case StoreServices1 =>
      s.(snap := s.snap.(services1 := s.poll1.services), poll1 := Stored1(s.poll1.activePublishers, s.poll1.activeSubscribers))
    case ReadTypes(types) =>
      s.(poll1 := Typed1(TypedPublishers(types, s.poll1.activePublishers), TypedSubscribers(types, s.poll1.activeSubscribers)))
    case FailTypes => s.(poll1 := Idle1)
    case StoreTopics1 =>
      s.(snap := s.snap.(publishers1 := s.poll1.publishers, subscribers1 := s.poll1.subscribers), poll1 := Ready1)
    case Update1(o) => AfterUpdate(c, s, o).(poll1 := Idle1)
    case CountTopics2(_, ps, ss) => s.(poll2 := Counted2(ps, ss))
    case CollectServices2(srv) => s.(poll2 := Served2(s.poll2.publishers, s.poll2.subscribers, srv))
    case StoreServices2 =>
      s.(snap := s.snap.(services2 := s.poll2.services), poll2 := Stored2(s.poll2.publishers, s.poll2.subscribers))
    case StoreTopics2 =>
      s.(snap := s.snap.(publishers2 := s.poll2.publishers, subscribers2 := s.poll2.subscribers), poll2 := Ready2)
    case Update2(o) => AfterUpdate(c, s, o).(poll2 := Idle2)
  }

  ghost predicate Step(c: Config, s: State, a: Action, s': State) {
    Enabled(s, a) && s' == Next(c, s, a)
  }

  /** A run: one more state than actions. */
  ghost predicate Run(c: Config, states: seq<State>, actions: seq<Action>) {
    |states| == |actions| + 1 && forall k | 0 <= k < |actions| :: Step(c, states[k], actions[k], states[k + 1])
  }

  predicate IsUpdate(a: Action) {
    a.Update1? || a.Update2?
  }

  // ----- observations -----

  /** Discounting the bridge's own node is exact: the ROS 1 poll observes a topic precisely if an
      external node is registered for it. */
  lemma ActiveIsExternal(entries: seq<(Name, seq<Node>)>, external: map<Name, set<Node>>, t: Name)
    requires ReportsNodes(entries, external)
    ensures t in ActiveTopics(entries) <==> t in external && external[t] != {}
  {
    if t in ActiveTopics(entries) {
      var i :| 0 <= i < |entries| && HasOther(entries[i].1) && entries[i].0 == t;
      var k :| 0 <= k < |entries[i].1| && entries[i].1[k] != SELF;
      assert entries[i].1[k] in external[t];
    }
    if t in external && external[t] != {} {
      var n :| n in external[t];
      var i :| 0 <= i < |entries| && entries[i].0 == t && n in entries[i].1;
      var k :| 0 <= k < |entries[i].1| && entries[i].1[k] == n;
      assert entries[i].1[k] != SELF;
    }
  }

  /** So is the decrement of the ROS 2 counts, whether or not the bridge is on the topic. */
  lemma CountedIsExternal(s: State, topics: seq<Ros2Topic>, ps: map<Name, TypeName>, ss: map<Name, TypeName>, t: Name)
    requires ReportsCounts(topics, s) && Counts(topics, s.topics12.Keys, s.topics21.Keys, ps, ss)
    ensures t in ps ==> Count(s.graph.publishers2, t) > 0
    ensures t in ss ==> Count(s.graph.subscribers2, t) > 0
    ensures forall i | 0 <= i < |topics| && topics[i].name == t && !Ignored(topics[i]) ::
              (t in ps <==> Count(s.graph.publishers2, t) > 0) && (t in ss <==> Count(s.graph.subscribers2, t) > 0)
  {
    if t in ps || t in ss {
      assert t in ps.Keys + ss.Keys;
      var i :| 0 <= i < |topics| && topics[i].name == t;
    }
  }

  // ----- no self-sustaining feedback -----

  datatype Kind = Publisher1 | Subscriber1 | Publisher2 | Subscriber2

  predicate External(g: Graph, kind: Kind, t: Name) {
    match kind
    case Publisher1 => t in g.publishers1 && g.publishers1[t] != {}
    case Subscriber1 => t in g.subscribers1 && g.subscribers1[t] != {}
    case Publisher2 => Count(g.publishers2, t) > 0
    case Subscriber2 => Count(g.subscribers2, t) > 0
  }

  predicate Recorded(v: Snap, kind: Kind, t: Name) {
    match kind
    case Publisher1 => t in v.publishers1
    case Subscriber1 => t in v.subscribers1
    case Publisher2 => t in v.publishers2
    case Subscriber2 => t in v.subscribers2
  }

  /** The poll of this kind carries the topic in its local variables. */
  predicate Carried(s: State, kind: Kind, t: Name) {
    match kind
    case Publisher1 =>
      (match s.poll1
       case Read1(ps, _, _) => t in ps
       case Stored1(ps, _) => t in ps
       case Typed1(ps, _) => t in ps
       case _ => false)
    case Subscriber1 =>
      (match s.poll1
       case Read1(_, ss, _) => t in ss
       case Stored1(_, ss) => t in ss
       case Typed1(_, ss) => t in ss
       case _ => false)
    case Publisher2 =>
      (match s.poll2
       case Counted2(ps, _) => t in ps
       case Served2(ps, _, _) => t in ps
       case Stored2(ps, _) => t in ps
       case _ => false)
    case Subscriber2 =>
      (match s.poll2
       case Counted2(_, ss) => t in ss
       case Served2(_, ss, _) => t in ss
       case Stored2(_, ss) => t in ss
       case _ => false)
  }

  predicate IsRos1(kind: Kind) {
    kind.Publisher1? || kind.Subscriber1?
  }

  predicate PollIdle(s: State, kind: Kind) {
    if IsRos1(kind) then s.poll1.Idle1? else s.poll2.Idle2?
  }

  predicate PollReady(s: State, kind: Kind) {
    if IsRos1(kind) then s.poll1.Ready1? else s.poll2.Ready2?
  }

  /** The direction that needs this kind of external endpoint has a bridge on the topic. */
  predicate Bridged(s: State, kind: Kind, t: Name) {
    if kind.Publisher1? || kind.Subscriber2? then t in s.topics12 else t in s.topics21
  }

  /** Bridge-all is off in the direction that would make up for a missing subscriber. */
  predicate Needed(c: Config, kind: Kind) {
    (kind.Subscriber2? ==> !c.all12) && (kind.Subscriber1? ==> !c.all21)
  }

  /** Nothing in the bridge refers to the endpoint any more. */
  predicate Forgotten(s: State, kind: Kind, t: Name) {
    !Carried(s, kind, t) && !Recorded(s.snap, kind, t) && !Bridged(s, kind, t)
  }

  /** The poll that will make the bridge forget the endpoint is on its way. */
  predicate Forgetting(s: State, kind: Kind, t: Name) {
    || (!PollIdle(s, kind) && !PollReady(s, kind) && !Carried(s, kind, t))
    || (PollReady(s, kind) && !Recorded(s.snap, kind, t))
    || Forgotten(s, kind, t)
  }

  /** The beginning of a poll. */
  predicate Begins(a: Action, kind: Kind) {
    if IsRos1(kind) then a.ReadSystemState? else a.CountTopics2?
  }

  /** The beginning of a poll carries exactly the topics with an external endpoint, as far as the
      report names them. */
  lemma ObservationsAreExact(c: Config, s: State, a: Action, s': State, kind: Kind, t: Name)
    requires Step(c, s, a, s') && Begins(a, kind) && Complete(a, kind, t)
    ensures Carried(s', kind, t) <==> External(s.graph, kind, t)
  {
    match a
    case ReadSystemState(ps, ss, _) =>
      ActiveIsExternal(ps, s.graph.publishers1, t);
      ActiveIsExternal(ss, s.graph.subscribers1, t);
    case CountTopics2(ts, ps, ss) =>
      CountedIsExternal(s, ts, ps, ss, t);
    case _ =>
  }

  /** The report of a poll says enough about the topic: the ROS 2 graph lists it, with one type and
      not under the ignored name, and the master knows the type of a publisher. */
  predicate Complete(a: Action, kind: Kind, t: Name) {
    match a
    case CountTopics2(ts, _, _) => IsRos1(kind) || exists i | 0 <= i < |ts| :: ts[i].name == t && !Ignored(ts[i])
    case ReadTypes(types) => kind.Publisher1? ==> LastType(types, t).Some?
    case _ => true
  }

  lemma ObservationsAreExternal(c: Config, s: State, a: Action, s': State, kind: Kind, t: Name)
    requires Step(c, s, a, s') && Begins(a, kind) && !External(s.graph, kind, t)
    ensures !Carried(s', kind, t)
  {
    match a
    case ReadSystemState(ps, ss, _) =>
      ActiveIsExternal(ps, s.graph.publishers1, t);
      ActiveIsExternal(ss, s.graph.subscribers1, t);
    case CountTopics2(ts, ps, ss) =>
      CountedIsExternal(s, ts, ps, ss, t);
    case _ =>
  }

  /** An update drops a bridge whose endpoint is not recorded, whoever performs it. */
  lemma UpdateDrops(c: Config, s: State, o: Outcome, kind: Kind, t: Name)
    requires Needed(c, kind) && !Recorded(s.snap, kind, t)
    ensures !Bridged(AfterUpdate(c, s, o), kind, t)
  {
    var d12, d21 := Side12(c, s, o), Side21(c, s, o);
    if kind.Publisher1? || kind.Subscriber2? {
      assert Obsolete(d12, t);
    } else {
      assert Obsolete(d21, t);
    }
  }

  lemma ForgottenIsStable(c: Config, s: State, a: Action, s': State, kind: Kind, t: Name)
    requires Step(c, s, a, s') && Needed(c, kind) && !External(s.graph, kind, t) && Forgotten(s, kind, t)
    ensures Forgotten(s', kind, t)
  {
    hide UpdatedTable, UpdatedServices, ReportsNodes, ReportsCounts, Counts, ActiveTopics;
    if Begins(a, kind) {
      ObservationsAreExternal(c, s, a, s', kind, t);
    } else if IsUpdate(a) {
      UpdateDrops(c, s, a.outcome, kind, t);
    }
  }

  lemma ForgettingIsStable(c: Config, s: State, a: Action, s': State, kind: Kind, t: Name)
    requires Step(c, s, a, s') && Needed(c, kind) && !External(s.graph, kind, t) && Forgetting(s, kind, t)
    requires IsRos1(kind) ==> !a.FailTypes?
    ensures Forgetting(s', kind, t)
  {
    hide UpdatedTable, UpdatedServices, ReportsNodes, ReportsCounts, Counts, ActiveTopics;
    if Forgotten(s, kind, t) {
      ForgottenIsStable(c, s, a, s', kind, t);
    } else if IsUpdate(a) && PollReady(s, kind) {
      UpdateDrops(c, s, a.outcome, kind, t);
    }
  }

  /** Once the last external endpoint of a kind has left a topic for good, any full poll of that
      side begun afterwards ends with the bridge that needs it removed, and it stays removed: the
      endpoints of the table entries never sustain a bridge. Those that the bridge's ROS 2 node has
      by itself are external here, and do. */
  lemma NoSelfSustainingFeedback(c: Config, states: seq<State>, actions: seq<Action>, kind: Kind, t: Name, begin: nat, end: nat)
    requires Run(c, states, actions) && Needed(c, kind)
    requires begin < end < |states| && Begins(actions[begin], kind)
    requires forall k | begin <= k < |states| :: !External(states[k].graph, kind, t)
    requires PollIdle(states[end], kind)
    requires IsRos1(kind) ==> forall k | begin <= k < end :: !actions[k].FailTypes?
    ensures forall k | end <= k < |states| :: !Bridged(states[k], kind, t) && !Recorded(states[k].snap, kind, t)
  {
    hide UpdatedTable, UpdatedServices, ReportsNodes, ReportsCounts, Counts, ActiveTopics, Next, Enabled, External, Recorded, Carried;
    assert Step(c, states[begin], actions[begin], states[begin + 1]);
    ObservationsAreExternal(c, states[begin], actions[begin], states[begin + 1], kind, t);
    assert Forgetting(states[begin + 1], kind, t) by { BeginsForgetting(c, states[begin], actions[begin], states[begin + 1], kind, t); }
    var k := begin + 1;
    while k < end
      invariant begin < k <= end && Forgetting(states[k], kind, t)
    {
      assert Step(c, states[k], actions[k], states[k + 1]);
      ForgettingIsStable(c, states[k], actions[k], states[k + 1], kind, t);
      k := k + 1;
    }
    ForgottenFrom(c, states, actions, kind, t, end);
  }

  lemma BeginsForgetting(c: Config, s: State, a: Action, s': State, kind: Kind, t: Name)
    requires Step(c, s, a, s') && Begins(a, kind) && !Carried(s', kind, t)
    ensures Forgetting(s', kind, t)
  {
  }

  lemma ForgottenFrom(c: Config, states: seq<State>, actions: seq<Action>, kind: Kind, t: Name, from: nat)
    requires Run(c, states, actions) && Needed(c, kind) && from < |states|
    requires forall k | from <= k < |states| :: !External(states[k].graph, kind, t)
    requires Forgotten(states[from], kind, t)
    ensures forall k | from <= k < |states| :: Forgotten(states[k], kind, t)
  {
    hide Next, Enabled, External, Forgotten;
    var k := from;
    while k + 1 < |states|
      invariant from <= k < |states| && forall l | from <= l <= k :: Forgotten(states[l], kind, t)
    {
      assert Step(c, states[k], actions[k], states[k + 1]);
      ForgottenIsStable(c, states[k], actions[k], states[k + 1], kind, t);
      k := k + 1;
    }
  }

  // ----- services over runs -----

  /** In every run from disjoint service tables, no service is ever bridged in both directions,
      and right after each update both tables only hold services of the current snapshots. */
  lemma {:induction false} ServiceExclusivityOverRuns(c: Config, states: seq<State>, actions: seq<Action>, k: nat)
    requires Run(c, states, actions) && Disjoint(states[0].services) && k < |states|
    ensures Disjoint(states[k].services)
    ensures k > 0 && IsUpdate(actions[k - 1]) ==>
              states[k].services.s12.Keys <= states[k].snap.services2.Keys &&
              states[k].services.s21.Keys <= states[k].snap.services1.Keys
    decreases k
  {
    hide UpdatedTable, UpdatedServices, ReportsNodes, ReportsCounts, Counts, ActiveTopics;
    if k > 0 {
      ServiceExclusivityOverRuns(c, states, actions, k - 1);
      var s, a := states[k - 1], actions[k - 1];
      assert Step(c, s, a, states[k]);
      if IsUpdate(a) {
        ServicesStayExclusive(SideServices(s, a.outcome), s.services, s.epoch);
      }
    }
  }

  // ----- the identity of bridges over runs -----

  datatype Table = Topics12 | Topics21 | Services12 | Services21

  /** The bridge that a table holds for a name, if any. */
  function Held(s: State, table: Table, n: Name): Option<Handle> {
    match table
    case Topics12 => if n in s.topics12 then Some(s.topics12[n].handle) else None
    case Topics21 => if n in s.topics21 then Some(s.topics21[n].handle) else None
    case Services12 => if n in s.services.s12 then Some(s.services.s12[n]) else None
    case Services21 => if n in s.services.s21 then Some(s.services.s21[n]) else None
  }

  /** A step leaves a slot alone, empties it, or fills it with a bridge of the current epoch, which
      then is over. */
  lemma SlotAfterStep(c: Config, s: State, a: Action, s': State, table: Table, n: Name)
    requires Step(c, s, a, s')
    ensures s.epoch <= s'.epoch
    ensures var h := Held(s', table, n);
            h == Held(s, table, n) || h == None || (h == Some(Handle(s.epoch, n)) && s.epoch < s'.epoch)
  {
    hide UpdatedTable, UpdatedServices, ReportsNodes, ReportsCounts, Counts, ActiveTopics;
    if IsUpdate(a) {
      SlotAfterUpdate(c, s, a.outcome, table, n);
    }
  }

  lemma SlotAfterUpdate(c: Config, s: State, o: Outcome, table: Table, n: Name)
    ensures var h := Held(AfterUpdate(c, s, o), table, n);
            h == Held(s, table, n) || h == None || h == Some(Handle(s.epoch, n))
  {
  }

  /** What a slot holds after the start of a run is what it held at the start, or was created
      since. */
  lemma {:induction false} SlotOverRun(c: Config, states: seq<State>, actions: seq<Action>, table: Table, n: Name, i: nat, j: nat)
    requires Run(c, states, actions) && i <= j < |states|
    ensures states[i].epoch <= states[j].epoch
    ensures var h := Held(states[j], table, n);
            h == Held(states[i], table, n) || h == None || h.value.epoch >= states[i].epoch
    decreases j - i
  {
    hide Held, Next, Enabled;
    if i < j {
      SlotOverRun(c, states, actions, table, n, i, j - 1);
      assert Step(c, states[j - 1], actions[j - 1], states[j]);
      SlotAfterStep(c, states[j - 1], actions[j - 1], states[j], table, n);
    }
  }

  /** A bridge that is gone never comes back: if a table holds the same bridge at two moments of a
      run that began with none, it has held it at every moment in between. */
  lemma BridgesNeverReturn(c: Config, states: seq<State>, actions: seq<Action>, table: Table, n: Name, first: nat, mid: nat, last: nat)
    requires Run(c, states, actions) && first <= mid <= last < |states|
    requires Held(states[0], table, n) == None
    requires Held(states[first], table, n).Some? && Held(states[last], table, n) == Held(states[first], table, n)
    ensures Held(states[mid], table, n) == Held(states[first], table, n)
  {
    hide Held, Next, Enabled;
    OlderThanEpoch(c, states, actions, table, n, first);
    SlotOverRun(c, states, actions, table, n, first, mid);
    SlotOverRun(c, states, actions, table, n, mid, last);
  }

  lemma {:induction false} OlderThanEpoch(c: Config, states: seq<State>, actions: seq<Action>, table: Table, n: Name, k: nat)
    requires Run(c, states, actions) && k < |states| && Held(states[0], table, n) == None
    ensures Held(states[k], table, n).Some? ==> Held(states[k], table, n).value.epoch < states[k].epoch
  {
    hide Held, Next, Enabled;
    if k > 0 {
      OlderThanEpoch(c, states, actions, table, n, k - 1);
      assert Step(c, states[k - 1], actions[k - 1], states[k]);
      SlotAfterStep(c, states[k - 1], actions[k - 1], states[k], table, n);
    }
  }

  // ----- where bridges come from -----

  /** The side that an update of the 1to2 or of the 2to1 topic table works with. */
  function SideOf(c: Config, s: State, o: Outcome, to2: bool): Side {
    if to2 then Side12(c, s, o) else Side21(c, s, o)
  }

  function TableOf(s: State, to2: bool): Topics {
    if to2 then s.topics12 else s.topics21
  }

  /** Every topic bridge of every reachable state was created by one of the updates before, with
      exactly the types that this update wanted; no update since has found its topic without
      endpoints or wanted other types; and it has been in the table ever since. */
  lemma {:induction false} Provenance(c: Config, states: seq<State>, actions: seq<Action>, to2: bool, t: Name, k: nat) returns (l: nat)
    requires Run(c, states, actions) && k < |states| && t !in TableOf(states[0], to2) && t in TableOf(states[k], to2)
    ensures l < k && IsUpdate(actions[l])
    ensures var d, e := SideOf(c, states[l], actions[l].outcome, to2), TableOf(states[k], to2)[t];
            CallsFor(d, t, e.source, e.sink) && d.creates(t, e.source, e.sink) && e.handle == Handle(states[l].epoch, t)
    ensures forall m | l < m < k && IsUpdate(actions[m]) ::
              LeavesAlone(SideOf(c, states[m], actions[m].outcome, to2), t, TableOf(states[k], to2)[t])
    ensures forall m | l < m <= k :: t in TableOf(states[m], to2) && TableOf(states[m], to2)[t] == TableOf(states[k], to2)[t]
    decreases k
  {
    hide Next, Enabled, CallsFor, LeavesAlone, Side12, Side21;
    var s, a := states[k - 1], actions[k - 1];
    assert Step(c, s, a, states[k]);
    TableAfterStep(c, s, a, states[k], to2);
    if IsUpdate(a) {
      EntryAfterUpdate(SideOf(c, s, a.outcome, to2), TableOf(s, to2), s.epoch, t);
    }
    if t in TableOf(s, to2) && TableOf(s, to2)[t] == TableOf(states[k], to2)[t]
       && (IsUpdate(a) ==> LeavesAlone(SideOf(c, s, a.outcome, to2), t, TableOf(s, to2)[t])) {
      l := Provenance(c, states, actions, to2, t, k - 1);
    } else {
      l := k - 1;
    }
  }

  lemma TableAfterStep(c: Config, s: State, a: Action, s': State, to2: bool)
    requires Step(c, s, a, s')
    ensures TableOf(s', to2) ==
            if IsUpdate(a) then UpdatedTable(SideOf(c, s, a.outcome, to2), TableOf(s, to2), s.epoch) else TableOf(s, to2)
  {
    hide UpdatedTable, UpdatedServices, ReportsNodes, ReportsCounts, Counts, ActiveTopics;
  }

  lemma EntryAfterUpdate(d: Side, table: Topics, epoch: nat, t: Name)
    requires t in UpdatedTable(d, table, epoch)
    ensures var e := UpdatedTable(d, table, epoch)[t];
            || (t in table && table[t] == e && LeavesAlone(d, t, e))
            || (CallsFor(d, t, e.source, e.sink) && d.creates(t, e.source, e.sink) && e.handle == Handle(epoch, t))
  {
    KeptOrFresh(d, table, epoch, t);
  }

  // ----- every recorded topic and every bridge was grounded in an external endpoint -----

  /** A poll that began before `k` found an external endpoint of this kind. */
  ghost predicate FoundBefore(states: seq<State>, actions: seq<Action>, kind: Kind, t: Name, k: nat) {
    exists b | 0 <= b < k :: b < |states| && b < |actions| && Begins(actions[b], kind) && External(states[b].graph, kind, t)
  }

  lemma NothingNewIsKnown(c: Config, s: State, a: Action, s': State, kind: Kind, t: Name)
    requires Step(c, s, a, s')
    ensures Carried(s', kind, t) || Recorded(s'.snap, kind, t) ==>
              Carried(s, kind, t) || Recorded(s.snap, kind, t) || (Begins(a, kind) && External(s.graph, kind, t))
  {
    hide UpdatedTable, UpdatedServices, ReportsNodes, ReportsCounts, Counts, ActiveTopics, External;
    if Begins(a, kind) && !External(s.graph, kind, t) {
      ObservationsAreExternal(c, s, a, s', kind, t);
    }
  }

  /** In every run that begins without knowledge of a topic, the topic is carried or recorded only
      if some poll before found an external endpoint of that kind. */
  lemma {:induction false} RecordedWasExternal(c: Config, states: seq<State>, actions: seq<Action>, kind: Kind, t: Name, k: nat)
    requires Run(c, states, actions) && k < |states|
    requires !Carried(states[0], kind, t) && !Recorded(states[0].snap, kind, t)
    ensures Carried(states[k], kind, t) || Recorded(states[k].snap, kind, t) ==> FoundBefore(states, actions, kind, t, k)
    decreases k
  {
    hide Next, Enabled, Carried, Recorded, External, Begins;
    if k > 0 {
      RecordedWasExternal(c, states, actions, kind, t, k - 1);
      assert Step(c, states[k - 1], actions[k - 1], states[k]);
      NothingNewIsKnown(c, states[k - 1], actions[k - 1], states[k], kind, t);
    }
  }

  /** The kinds of endpoints that a topic bridge of this direction connects. */
  function Source(to2: bool): Kind {
    if to2 then Publisher1 else Publisher2
  }

  function Sink(to2: bool): Kind {
    if to2 then Subscriber2 else Subscriber1
  }

  function All(c: Config, to2: bool): bool {
    if to2 then c.all12 else c.all21
  }

  /** In every run that begins without a bridge and without knowledge of the topic, a topic bridge of
      either direction exists only if polls before found an external publisher on its source side
      and, with bridge-all off, an external subscriber on the other. */
  lemma BridgeIsGrounded(c: Config, states: seq<State>, actions: seq<Action>, to2: bool, t: Name, k: nat)
    requires Run(c, states, actions) && k < |states| && t !in TableOf(states[0], to2) && t in TableOf(states[k], to2)
    requires forall kind | kind == Source(to2) || kind == Sink(to2) ::
               !Carried(states[0], kind, t) && !Recorded(states[0].snap, kind, t)
    ensures FoundBefore(states, actions, Source(to2), t, k)
    ensures !All(c, to2) ==> FoundBefore(states, actions, Sink(to2), t, k)
  {
    var l := Provenance(c, states, actions, to2, t, k);
    hide Next, Enabled, Carried, External, Begins;
    RecordedWasExternal(c, states, actions, Source(to2), t, l);
    RecordedWasExternal(c, states, actions, Sink(to2), t, l);
  }

  // ----- convergence of the closed loop -----

  /** The poll of this kind has read the graph and not yet stored what it found. */
  predicate Under(s: State, kind: Kind) {
    !PollIdle(s, kind) && !PollReady(s, kind)
  }

  /** The snapshot tells the truth about the topic, and so does a poll that is under way. */
  predicate Tracks(s: State, kind: Kind, t: Name) {
    && (Recorded(s.snap, kind, t) <==> External(s.graph, kind, t))
    && (Under(s, kind) ==> (Carried(s, kind, t) <==> External(s.graph, kind, t)))
  }

  /** The snapshot does, or will as soon as the poll under way has stored. */
  predicate Learns(s: State, kind: Kind, t: Name) {
    Tracks(s, kind, t) || (Under(s, kind) && (Carried(s, kind, t) <==> External(s.graph, kind, t)))
  }

  lemma LearningStep(c: Config, s: State, a: Action, s': State, kind: Kind, t: Name)
    requires Step(c, s, a, s') && Complete(a, kind, t)
    requires External(s'.graph, kind, t) == External(s.graph, kind, t)
    ensures Tracks(s, kind, t) ==> Tracks(s', kind, t)
    ensures Begins(a, kind) || (Learns(s, kind, t) && !(a.FailTypes? && IsRos1(kind))) ==> Learns(s', kind, t)
  {
    hide UpdatedTable, UpdatedServices, ReportsNodes, ReportsCounts, Counts, ActiveTopics, External;
    if Begins(a, kind) {
      ObservationsAreExact(c, s, a, s', kind, t);
      hide Complete;
    }
  }

  /** From index `from` on, the external endpoints of this kind come and go no more, and reports are
      complete. */
  ghost predicate Steady(states: seq<State>, actions: seq<Action>, kind: Kind, t: Name, from: nat)
  {
    && |states| == |actions| + 1 && from < |states|
    && (forall k | from <= k < |states| :: External(states[k].graph, kind, t) == External(states[from].graph, kind, t))
    && (forall k | from <= k < |actions| :: Complete(actions[k], kind, t))
  }

  /** A full poll: begun at `begin` and about to update at `update`. */
  ghost predicate FullPoll(states: seq<State>, actions: seq<Action>, kind: Kind, begin: nat, update: nat) {
    && begin < update < |actions| < |states| && Begins(actions[begin], kind)
    && (if IsRos1(kind) then actions[update].Update1? else actions[update].Update2?)
    && forall k | begin <= k < update :: !(actions[k].FailTypes? && IsRos1(kind))
  }

  /** When a full poll begun in the steady time updates, the snapshot tells the truth, for good. */
  lemma FullPollTracks(c: Config, states: seq<State>, actions: seq<Action>, kind: Kind, t: Name, from: nat, begin: nat, update: nat, last: nat)
    requires Run(c, states, actions) && Steady(states, actions, kind, t, from) && from <= begin
    requires FullPoll(states, actions, kind, begin, update) && update <= last < |states|
    ensures Tracks(states[last], kind, t)
  {
    hide Next, Carried, Recorded, External, Complete;
    var k := begin;
    while k < update
      invariant begin <= k <= update && (k > begin ==> Learns(states[k], kind, t))
    {
      assert Step(c, states[k], actions[k], states[k + 1]);
      LearningStep(c, states[k], actions[k], states[k + 1], kind, t);
      k := k + 1;
    }
    assert Step(c, states[update], actions[update], states[update + 1]);
    assert PollReady(states[update], kind);
    while k < last
      invariant update <= k <= last && Tracks(states[k], kind, t)
    {
      assert Step(c, states[k], actions[k], states[k + 1]);
      LearningStep(c, states[k], actions[k], states[k + 1], kind, t);
      k := k + 1;
    }
  }

  /** The creation of a bridge for the topic succeeds, whatever its types. */
  ghost predicate CanCreate(o: Outcome, to2: bool, t: Name) {
    forall source, sink :: if to2 then o.topic12(t, source, sink) else o.topic21(t, source, sink)
  }

  lemma TruthfulUpdate(c: Config, s: State, a: Action, s': State, to2: bool, t: Name)
    requires Step(c, s, a, s') && IsUpdate(a) && !All(c, to2) && CanCreate(a.outcome, to2, t)
    requires Tracks(s, Source(to2), t) && Tracks(s, Sink(to2), t)
    ensures t in TableOf(s', to2) <==> External(s.graph, Source(to2), t) && External(s.graph, Sink(to2), t)
  {
    TableAfterStep(c, s, a, s', to2);
    ExactReconciliation(SideOf(c, s, a.outcome, to2), TableOf(s, to2), s.epoch, t);
  }

  /** Once the external endpoints on both sides of a topic are steady, reports are complete and
      creations succeed, one full poll of each side brings the closed loop to where the topic is
      bridged if and only if it has external endpoints on both sides, and it stays there. */
  lemma ClosedLoopConverges(c: Config, states: seq<State>, actions: seq<Action>, to2: bool, t: Name, from: nat,
      begin: nat, update: nat, begin': nat, update': nat, k: nat)
    requires Run(c, states, actions) && !All(c, to2)
    requires Steady(states, actions, Source(to2), t, from) && Steady(states, actions, Sink(to2), t, from)
    requires from <= begin && FullPoll(states, actions, Source(to2), begin, update)
    requires from <= begin' && FullPoll(states, actions, Sink(to2), begin', update')
    requires forall m | from <= m < |actions| && IsUpdate(actions[m]) :: CanCreate(actions[m].outcome, to2, t)
    requires update < k < |states| && update' < k
    ensures t in TableOf(states[k], to2) <==>
              External(states[from].graph, Source(to2), t) && External(states[from].graph, Sink(to2), t)
  {
    hide Next, Enabled, Carried, Recorded, External, Complete, TableOf, CanCreate, Tracks;
    var m := if update < update' then update' else update;
    FullPollTracks(c, states, actions, Source(to2), t, from, begin, update, m);
    FullPollTracks(c, states, actions, Sink(to2), t, from, begin', update', m);
    assert Step(c, states[m], actions[m], states[m + 1]);
    TruthfulUpdate(c, states[m], actions[m], states[m + 1], to2, t);
    m := m + 1;
    while m < k
      invariant update < m <= k && update' < m
      invariant t in TableOf(states[m], to2) <==>
                  External(states[from].graph, Source(to2), t) && External(states[from].graph, Sink(to2), t)
    {
      assert Step(c, states[m], actions[m], states[m + 1]);
      TableAfterStep(c, states[m], actions[m], states[m + 1], to2);
      if IsUpdate(actions[m]) {
        FullPollTracks(c, states, actions, Source(to2), t, from, begin, update, m);
        FullPollTracks(c, states, actions, Sink(to2), t, from, begin', update', m);
        TruthfulUpdate(c, states[m], actions[m], states[m + 1], to2, t);
      }
      m := m + 1;
    }
  }

  // ----- convergence of the tables -----

  /** With the snapshots and the outcomes of creations fixed, two updates bring all four tables to
      a state that further updates leave alone, down to the identity of every bridge. */
  lemma UpdatesConverge(c: Config, s: State, o: Outcome)
    requires Disjoint(s.services)
    ensures var settled := AfterUpdate(c, AfterUpdate(c, s, o), o);
            AfterUpdate(c, settled, o) == settled.(epoch := s.epoch + 3)
  {
    hide UpdatedTable, UpdatedServices;
    TopicUpdateIsIdempotent(Side12(c, s, o), s.topics12, s.epoch, s.epoch + 1);
    TopicUpdateIsIdempotent(Side12(c, s, o), s.topics12, s.epoch, s.epoch + 2);
    TopicUpdateIsIdempotent(Side21(c, s, o), s.topics21, s.epoch, s.epoch + 1);
    TopicUpdateIsIdempotent(Side21(c, s, o), s.topics21, s.epoch, s.epoch + 2);
    TwoUpdatesSuffice(SideServices(s, o), s.services, s.epoch, s.epoch + 1, s.epoch + 2);
  }

  // ----- the wildcard over runs -----

  /** At this update the topic of a 2to1 bridge still has its ROS 2 publisher of the same type and
      either a ROS 1 subscriber or bridge-all. */
  predicate StillWanted(c: Config, s: State, t: Name, source: TypeName) {
    && t in s.snap.publishers2 && s.snap.publishers2[t] == source
    && (c.all21 || t in s.snap.subscribers1)
  }

  /** A 2to1 bridge with an unknown ROS 1 type keeps its handle through any number of updates,
      whatever ROS 1 types are reported in between and whichever creations fail. */
  lemma {:induction false} WildcardStableOverRuns(c: Config, states: seq<State>, actions: seq<Action>, t: Name, k: nat)
    requires Run(c, states, actions) && k < |states|
    requires t in states[0].topics21 && states[0].topics21[t].sink == ""
    requires forall l | 0 <= l < k && IsUpdate(actions[l]) :: StillWanted(c, states[l], t, states[0].topics21[t].source)
    ensures t in states[k].topics21 && states[k].topics21[t] == states[0].topics21[t]
    decreases k
  {
    hide UpdatedTable, UpdatedServices, ReportsNodes, ReportsCounts, Counts, ActiveTopics;
    if k > 0 {
      WildcardStableOverRuns(c, states, actions, t, k - 1);
      var s, a := states[k - 1], actions[k - 1];
      assert Step(c, s, a, states[k]);
      if IsUpdate(a) {
        WildcardIsKept(Side21(c, s, a.outcome), s.topics21, s.epoch, t);
      }
    }
  }
}
