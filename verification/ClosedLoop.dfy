/** The polls and updates of module Polling in plain terms: what one update makes of the snapshots,
    what one poll makes of the graph, and where the types of the bridges settle. */
module ClosedLoop {
  import opened Wrappers
  import opened Reconciler
  import opened Snapshots
  import opened Polling

  // ----- one update -----

  /** The 1to2 table after an update: publishers from ROS 1, subscribers from ROS 2, the flag and the
      lookup of this direction. */
  lemma Update12(c: Config, s: State, o: Outcome, t: Name)
    ensures var w, v, was := AfterUpdate(c, s, o).topics12, s.snap, s.topics12;
            if t !in v.publishers1 || (t !in v.subscribers2 && !c.all12) then
              t !in w
            else if t !in v.subscribers2 && c.lookup12(v.publishers1[t]) == None then
              if t in was then t in w && w[t] == was[t] else t !in w
            else
              var ros1 := v.publishers1[t];
              var ros2 := if t in v.subscribers2 then v.subscribers2[t] else c.lookup12(ros1).value;
              if t in was && was[t].source == ros1 && was[t].sink == ros2 then t in w && w[t] == was[t]
              else if o.topic12(t, ros1, ros2) then
                t in w && w[t].source == ros1 && w[t].sink == ros2 && w[t].handle == Handle(s.epoch, t)
              else t !in w
  {
    hide UpdatedTable, UpdatedServices;
    var d := Side12(c, s, o);
    UnwantedTopicAfterUpdate(d, s.topics12, s.epoch, t);
    if t in d.publishers && t in d.subscribers {
      WantedTopicAfterUpdate(d, s.topics12, s.epoch, t, d.subscribers[t]);
    } else if t in d.publishers && d.all && d.lookup(d.publishers[t]).Some? {
      WantedTopicAfterUpdate(d, s.topics12, s.epoch, t, d.lookup(d.publishers[t]).value);
    }
  }

  /** The 2to1 table: publishers from ROS 2, subscribers from ROS 1, and an unknown ROS 1 type that
      matches anything. */
  lemma Update21(c: Config, s: State, o: Outcome, t: Name)
    ensures var w, v, was := AfterUpdate(c, s, o).topics21, s.snap, s.topics21;
            if t !in v.publishers2 || (t !in v.subscribers1 && !c.all21) then
              t !in w
            else if t !in v.subscribers1 && c.lookup21(v.publishers2[t]) == None then
              if t in was then t in w && w[t] == was[t] else t !in w
            else
              var ros2 := v.publishers2[t];
              var ros1 := if t in v.subscribers1 then v.subscribers1[t] else c.lookup21(ros2).value;
              if t in was && was[t].source == ros2 && (was[t].sink == ros1 || was[t].sink == "") then t in w && w[t] == was[t]
              else if o.topic21(t, ros2, ros1) then
                t in w && w[t].source == ros2 && w[t].sink == ros1 && w[t].handle == Handle(s.epoch, t)
              else t !in w
  {
    hide UpdatedTable, UpdatedServices;
    var d := Side21(c, s, o);
    UnwantedTopicAfterUpdate(d, s.topics21, s.epoch, t);
    if t in d.publishers && t in d.subscribers {
      WantedTopicAfterUpdate(d, s.topics21, s.epoch, t, d.subscribers[t]);
    } else if t in d.publishers && d.all && d.lookup(d.publishers[t]).Some? {
      WantedTopicAfterUpdate(d, s.topics21, s.epoch, t, d.lookup(d.publishers[t]).value);
    }
  }

  /** The service tables: a ROS 1 service gets a 2to1 bridge, a ROS 2 service a 1to2 bridge unless the
      other direction came first, and what the snapshot of its side has lost goes. */
  lemma UpdateServices(c: Config, s: State, o: Outcome, n: Name)
    requires Disjoint(s.services)
    ensures var w, v, was := AfterUpdate(c, s, o).services, s.snap, s.services;
            var from1 := n in v.services1 && n !in was.s12 && n !in was.s21 && o.service21(n, v.services1[n]);
            var from2 := n in v.services2 && n !in was.s12 && n !in was.s21 && !from1 && o.service12(n, v.services2[n]);
            && (n in w.s21 <==> from1 || (n in was.s21 && n in v.services1))
            && (n in w.s12 <==> from2 || (n in was.s12 && n in v.services2))
            && (n in w.s21 ==> w.s21[n] == if n in was.s21 then was.s21[n] else Handle(s.epoch, n))
            && (n in w.s12 ==> w.s12[n] == if n in was.s12 then was.s12[n] else Handle(s.epoch, n))
  {
  }

  // ----- bridges whose types have changed -----

  /** The snapshots call for a bridge of this direction with these types. */
  predicate AskedFor(c: Config, v: Snap, to2: bool, t: Name, source: TypeName, sink: TypeName) {
    if to2 then
      && t in v.publishers1 && v.publishers1[t] == source
      && (if t in v.subscribers2 then v.subscribers2[t] == sink else c.all12 && c.lookup12(source) == Some(sink))
    else
      && t in v.publishers2 && v.publishers2[t] == source
      && (if t in v.subscribers1 then v.subscribers1[t] == sink else c.all21 && c.lookup21(source) == Some(sink))
  }

  lemma StaleBridgeIsReplaced(c: Config, s: State, o: Outcome, to2: bool, t: Name, source: TypeName, sink: TypeName)
    requires AskedFor(c, s.snap, to2, t, source, sink) && t in TableOf(s, to2) && TableOf(s, to2)[t].handle.epoch < s.epoch
    requires var e := TableOf(s, to2)[t]; e.source != source || (e.sink != sink && (to2 || e.sink != ""))
    ensures var w := TableOf(AfterUpdate(c, s, o), to2);
            t !in w || (w[t].source == source && w[t].sink == sink && w[t].handle != TableOf(s, to2)[t].handle)
  {
    hide AfterUpdate;
    Update12(c, s, o, t);
    Update21(c, s, o, t);
  }

  /** In every run, a topic bridge with other types than the snapshots call for does not survive the
      next update, and it never comes back. */
  lemma StaleBridgesDoNotSurvive(c: Config, states: seq<State>, actions: seq<Action>, to2: bool, t: Name,
      source: TypeName, sink: TypeName, k: nat, j: nat)
    requires Run(c, states, actions) && t !in TableOf(states[0], to2) && k < |actions| && IsUpdate(actions[k])
    requires t in TableOf(states[k], to2) && AskedFor(c, states[k].snap, to2, t, source, sink)
    requires var e := TableOf(states[k], to2)[t]; e.source != source || (e.sink != sink && (to2 || e.sink != ""))
    requires k < j < |states| && t in TableOf(states[j], to2)
    ensures TableOf(states[j], to2)[t].handle != TableOf(states[k], to2)[t].handle
  {
    hide AfterUpdate, Enabled, AskedFor;
    var table := if to2 then Topics12 else Topics21;
    OlderThanEpoch(c, states, actions, table, t, k);
    assert Step(c, states[k], actions[k], states[k + 1]);
    StaleBridgeIsReplaced(c, states[k], actions[k].outcome, to2, t, source, sink);
    if Held(states[j], table, t) == Held(states[k], table, t) {
      BridgesNeverReturn(c, states, actions, table, t, k, k + 1, j);
    }
  }

  // ----- a whole poll -----

  /** Nodes join and leave at any time. */
  lemma NodesComeAndGo(c: Config, s: State, graph: Graph)
    ensures Step(c, s, Environment(graph), s.(graph := graph))
  {
  }

  /** The master may fail to answer, which ends the poll with the services stored and the topics as
      they were. */
  lemma FailedPoll(c: Config, s: State, publishers: seq<(Name, seq<Node>)>, subscribers: seq<(Name, seq<Node>)>, services: map<Name, Details>)
    returns (states: seq<State>)
    requires s.poll1.Idle1? && ReportsNodes(publishers, s.graph.publishers1) && ReportsNodes(subscribers, s.graph.subscribers1)
    ensures Run(c, states, [ReadSystemState(publishers, subscribers, services), StoreServices1, FailTypes])
    ensures states[0] == s && states[3] == s.(snap := s.snap.(services1 := services))
  {
    hide ReportsNodes, ActiveTopics;
    var s1 := Next(c, s, ReadSystemState(publishers, subscribers, services));
    var s2 := Next(c, s1, StoreServices1);
    states := [s, s1, s2, Next(c, s2, FailTypes)];
  }

  lemma NodesInOrder(nodes: set<Node>) returns (q: seq<Node>)
    ensures forall n :: n in q <==> n in nodes
  {
    q := [];
    var todo := nodes;
    while todo != {}
      invariant todo <= nodes && forall n :: n in q <==> n in nodes - todo
      decreases todo
    {
      var n :| n in todo;
      todo := todo - {n};
      q := q + [n];
    }
  }

  /** An entry lists exactly the external nodes of its topic. */
  ghost predicate ListsNodes(entry: (Name, seq<Node>), external: map<Name, set<Node>>) {
    entry.0 in external && (forall n :: n in entry.1 <==> n in external[entry.0])
  }

  /** What the master may report of the nodes on the topics. */
  lemma ReportOf(external: map<Name, set<Node>>) returns (entries: seq<(Name, seq<Node>)>)
    requires forall t | t in external :: "/ros_bridge" !in external[t]
    ensures ReportsNodes(entries, external)
  {
    entries := [];
    var todo := external.Keys;
    while todo != {}
      invariant todo <= external.Keys && forall i | 0 <= i < |entries| :: ListsNodes(entries[i], external)
      invariant forall t | t in external && t !in todo :: exists i :: 0 <= i < |entries| && entries[i].0 == t
      decreases todo
    {
      var t :| t in todo;
      todo := todo - {t};
      var q := NodesInOrder(external[t]);
      var was := entries;
      entries := was + [(t, q)];
      forall u | u in external && u !in todo ensures exists i :: 0 <= i < |entries| && entries[i].0 == u {
        if u == t {
          assert entries[|was|].0 == u;
        } else {
          var i :| 0 <= i < |was| && was[i].0 == u;
          assert entries[i].0 == u;
        }
      }
    }
    forall t, n | t in external && n in external[t] ensures exists i :: 0 <= i < |entries| && entries[i].0 == t && n in entries[i].1 {
      var i :| 0 <= i < |entries| && entries[i].0 == t;
      assert ListsNodes(entries[i], external);
    }
    forall i, k | 0 <= i < |entries| && 0 <= k < |entries[i].1| ensures entries[i].0 in external && entries[i].1[k] in external[entries[i].0] {
      assert ListsNodes(entries[i], external) && entries[i].1[k] in entries[i].1;
    }
  }

  /** The type that a report of the master gives for a topic: the last one. */
  predicate GivesType(types: seq<(Name, TypeName)>, t: Name, ty: TypeName) {
    exists i | 0 <= i < |types| :: types[i] == (t, ty) && forall j | i < j < |types| :: types[j].0 != t
  }

  lemma GivenType(types: seq<(Name, TypeName)>, t: Name)
    ensures LastType(types, t) == None <==> forall i | 0 <= i < |types| :: types[i].0 != t
    ensures forall ty :: LastType(types, t) == Some(ty) <==> GivesType(types, t, ty)
  {
    LastTypeIsLast(types, t);
    if LastType(types, t).Some? { LastIsGiven(types, t); }
  }

  lemma {:induction false} LastIsGiven(types: seq<(Name, TypeName)>, t: Name)
    requires LastType(types, t).Some?
    ensures GivesType(types, t, LastType(types, t).value)
  {
    var n := |types| - 1;
    if types[n].0 == t {
      assert types[n] == (t, LastType(types, t).value);
    } else {
      LastIsGiven(types[..n], t);
      var i :| 0 <= i < n && types[..n][i] == (t, LastType(types, t).value) && forall j | i < j < n :: types[..n][j].0 != t;
      forall j | i < j < |types| ensures types[j].0 != t {
        if j < n { assert types[..n][j] == types[j]; }
      }
      assert types[i] == (t, LastType(types, t).value);
    }
  }

  /** The snapshots after a ROS 1 poll: its publishers are the topics with another node's publisher
      and a known type, its subscribers those with another node's subscriber, of the empty type if
      it is not known, its services those of the report; the ROS 2 part is as before. */
  ghost predicate PolledRos1(v: Snap, was: Snap, g: Graph, types: seq<(Name, TypeName)>, services: map<Name, Details>) {
    && (forall t :: t in v.publishers1 <==>
          t in g.publishers1 && g.publishers1[t] != {} && exists i | 0 <= i < |types| :: types[i].0 == t)
    && (forall t | t in v.publishers1 :: GivesType(types, t, v.publishers1[t]))
    && (forall t :: t in v.subscribers1 <==> t in g.subscribers1 && g.subscribers1[t] != {})
    && (forall t | t in v.subscribers1 ::
          if exists i | 0 <= i < |types| :: types[i].0 == t then GivesType(types, t, v.subscribers1[t]) else v.subscribers1[t] == "")
    && v.services1 == services
    && v.publishers2 == was.publishers2 && v.subscribers2 == was.subscribers2 && v.services2 == was.services2
  }

  /** Whatever the graph, the types and the services: a ROS 1 poll can run through, and it leaves the
      snapshots above, on which the update works. */
  lemma PollOfRos1(c: Config, s: State, types: seq<(Name, TypeName)>, services: map<Name, Details>, o: Outcome)
    returns (actions: seq<Action>, states: seq<State>)
    requires s.poll1.Idle1?
    requires forall t | t in s.graph.publishers1 :: "/ros_bridge" !in s.graph.publishers1[t]
    requires forall t | t in s.graph.subscribers1 :: "/ros_bridge" !in s.graph.subscribers1[t]
    ensures Run(c, states, actions) && |actions| == 5 && actions[4] == Update1(o) && states[0] == s
    ensures PolledRos1(states[4].snap, s.snap, s.graph, types, services)
    ensures states[5] == AfterUpdate(c, s.(snap := states[4].snap), o)
  {
    var ps := ReportOf(s.graph.publishers1);
    var ss := ReportOf(s.graph.subscribers1);
    actions, states := StepsOfRos1(c, s, ps, ss, types, services, o);
    Ros1Snapshots(states[4].snap, s.snap, s.graph, ps, ss, types, services);
  }

  lemma StepsOfRos1(c: Config, s: State, ps: seq<(Name, seq<Node>)>, ss: seq<(Name, seq<Node>)>, types: seq<(Name, TypeName)>,
      services: map<Name, Details>, o: Outcome)
    returns (actions: seq<Action>, states: seq<State>)
    requires s.poll1.Idle1? && ReportsNodes(ps, s.graph.publishers1) && ReportsNodes(ss, s.graph.subscribers1)
    ensures Run(c, states, actions) && |actions| == 5 && actions[4] == Update1(o) && states[0] == s
    ensures states[4].snap == s.snap.(services1 := services,
              publishers1 := TypedPublishers(types, ActiveTopics(ps)), subscribers1 := TypedSubscribers(types, ActiveTopics(ss)))
    ensures states[5] == AfterUpdate(c, s.(snap := states[4].snap), o)
  {
    hide UpdatedTable, UpdatedServices, Counts, ReportsCounts, ReportsNodes, ActiveTopics, TypedPublishers, TypedSubscribers;
    actions := [ReadSystemState(ps, ss, services), StoreServices1, ReadTypes(types), StoreTopics1, Update1(o)];
    var s1 := Next(c, s, actions[0]);
    var s2 := Next(c, s1, actions[1]);
    var s3 := Next(c, s2, actions[2]);
    var s4 := Next(c, s3, actions[3]);
    states := [s, s1, s2, s3, s4, Next(c, s4, actions[4])];
    assert s4.snap == s.snap.(services1 := services,
                              publishers1 := TypedPublishers(types, ActiveTopics(ps)), subscribers1 := TypedSubscribers(types, ActiveTopics(ss)));
    assert s4 == s.(snap := s4.snap, poll1 := Ready1);
    UpdateIgnoresPolls(c, s, s4.snap, o);
  }

  lemma UpdateIgnoresPolls(c: Config, s: State, v: Snap, o: Outcome)
    requires s.poll1.Idle1?
    ensures AfterUpdate(c, s.(snap := v, poll1 := Ready1), o).(poll1 := Idle1) == AfterUpdate(c, s.(snap := v), o)
  {
    hide UpdatedTable, UpdatedServices;
  }

  lemma Ros1Snapshots(v: Snap, was: Snap, g: Graph, ps: seq<(Name, seq<Node>)>, ss: seq<(Name, seq<Node>)>,
      types: seq<(Name, TypeName)>, services: map<Name, Details>)
    requires ReportsNodes(ps, g.publishers1) && ReportsNodes(ss, g.subscribers1)
    requires v == was.(services1 := services,
                       publishers1 := TypedPublishers(types, ActiveTopics(ps)), subscribers1 := TypedSubscribers(types, ActiveTopics(ss)))
    ensures PolledRos1(v, was, g, types, services)
  {
    hide ReportsNodes, ActiveTopics, LastType, GivesType;
    forall t
      ensures t in ActiveTopics(ps) <==> t in g.publishers1 && g.publishers1[t] != {}
      ensures t in ActiveTopics(ss) <==> t in g.subscribers1 && g.subscribers1[t] != {}
      ensures LastType(types, t) == None <==> forall i | 0 <= i < |types| :: types[i].0 != t
      ensures forall ty :: LastType(types, t) == Some(ty) <==> GivesType(types, t, ty)
    {
      ActiveIsExternal(ps, g.publishers1, t);
      ActiveIsExternal(ss, g.subscribers1, t);
      GivenType(types, t);
    }
  }

  /** The snapshots after a ROS 2 poll that is told this type for every topic. */
  ghost predicate PolledRos2(v: Snap, was: Snap, g: Graph, types: Name -> TypeName, services: map<Name, Details>) {
    && (forall t :: t in v.publishers2 <==> t in g.publishers2 && g.publishers2[t] > 0 && t != "parameter_events")
    && (forall t | t in v.publishers2 :: v.publishers2[t] == types(t))
    && (forall t :: t in v.subscribers2 <==> t in g.subscribers2 && g.subscribers2[t] > 0 && t != "parameter_events")
    && (forall t | t in v.subscribers2 :: v.subscribers2[t] == types(t))
    && v.services2 == services
    && v.publishers1 == was.publishers1 && v.subscribers1 == was.subscribers1 && v.services1 == was.services1
  }

  /** What the ROS 2 graph reports of these topics. */
  function Counted(s: State, types: Name -> TypeName, names: seq<Name>): (ts: seq<Ros2Topic>)
    ensures |ts| == |names|
    ensures forall i | 0 <= i < |ts| ::
              ts[i] == Ros2Topic(names[i], [types(names[i])],
                                 Count(s.graph.publishers2, names[i]) + (if names[i] in s.topics12 then 1 else 0),
                                 Count(s.graph.subscribers2, names[i]) + (if names[i] in s.topics21 then 1 else 0))
  {
    seq(|names|, i requires 0 <= i < |names| =>
      Ros2Topic(names[i], [types(names[i])],
                Count(s.graph.publishers2, names[i]) + (if names[i] in s.topics12 then 1 else 0),
                Count(s.graph.subscribers2, names[i]) + (if names[i] in s.topics21 then 1 else 0)))
  }

  lemma NamesInOrder(names: set<Name>) returns (q: seq<Name>)
    ensures (forall n :: n in q <==> n in names) && forall i, j | 0 <= i < j < |q| :: q[i] != q[j]
  {
    q := [];
    var todo := names;
    while todo != {}
      invariant todo <= names && (forall n :: n in q <==> n in names - todo)
      invariant forall i, j | 0 <= i < j < |q| :: q[i] != q[j]
      decreases todo
    {
      var n :| n in todo;
      todo := todo - {n};
      assert n !in q;
      q := q + [n];
    }
  }

  /** A ROS 2 poll can run through, too, with bridges in place or not. */
  lemma PollOfRos2(c: Config, s: State, types: Name -> TypeName, services: map<Name, Details>, o: Outcome)
    returns (actions: seq<Action>, states: seq<State>)
    requires s.poll2.Idle2?
    ensures Run(c, states, actions) && |actions| == 5 && actions[4] == Update2(o) && states[0] == s
    ensures PolledRos2(states[4].snap, s.snap, s.graph, types, services)
    ensures states[5] == AfterUpdate(c, s.(snap := states[4].snap), o)
  {
    var names := NamesInOrder(s.graph.publishers2.Keys + s.graph.subscribers2.Keys);
    var ts := Counted(s, types, names);
    var ps := map t | t in s.graph.publishers2 && s.graph.publishers2[t] > 0 && t != "parameter_events" :: types(t);
    var ss := map t | t in s.graph.subscribers2 && s.graph.subscribers2[t] > 0 && t != "parameter_events" :: types(t);
    CountsOfReport(s, types, names, ts, ps, ss);
    actions, states := StepsOfRos2(c, s, ts, ps, ss, services, o);
  }

  lemma StepsOfRos2(c: Config, s: State, ts: seq<Ros2Topic>, ps: map<Name, TypeName>, ss: map<Name, TypeName>,
      services: map<Name, Details>, o: Outcome)
    returns (actions: seq<Action>, states: seq<State>)
    requires s.poll2.Idle2? && ReportsCounts(ts, s) && Counts(ts, s.topics12.Keys, s.topics21.Keys, ps, ss)
    ensures Run(c, states, actions) && |actions| == 5 && actions[4] == Update2(o) && states[0] == s
    ensures states[4].snap == s.snap.(services2 := services, publishers2 := ps, subscribers2 := ss)
    ensures states[5] == AfterUpdate(c, s.(snap := states[4].snap), o)
  {
    hide UpdatedTable, UpdatedServices, Counts, ReportsCounts, ReportsNodes;
    actions := [CountTopics2(ts, ps, ss), CollectServices2(services), StoreServices2, StoreTopics2, Update2(o)];
    var s1 := Next(c, s, actions[0]);
    var s2 := Next(c, s1, actions[1]);
    var s3 := Next(c, s2, actions[2]);
    var s4 := Next(c, s3, actions[3]);
    states := [s, s1, s2, s3, s4, Next(c, s4, actions[4])];
    assert s4.snap == s.snap.(services2 := services, publishers2 := ps, subscribers2 := ss);
    assert s4 == s.(snap := s4.snap, poll2 := Ready2);
    Update2IgnoresPolls(c, s, s4.snap, o);
  }

  lemma Update2IgnoresPolls(c: Config, s: State, v: Snap, o: Outcome)
    requires s.poll2.Idle2?
    ensures AfterUpdate(c, s.(snap := v, poll2 := Ready2), o).(poll2 := Idle2) == AfterUpdate(c, s.(snap := v), o)
  {
    hide UpdatedTable, UpdatedServices;
  }

  lemma CountsOfReport(s: State, types: Name -> TypeName, names: seq<Name>, ts: seq<Ros2Topic>, ps: map<Name, TypeName>, ss: map<Name, TypeName>)
    requires ts == Counted(s, types, names)
    requires forall n :: n in names <==> n in s.graph.publishers2.Keys + s.graph.subscribers2.Keys
    requires ps == map t | t in s.graph.publishers2 && s.graph.publishers2[t] > 0 && t != "parameter_events" :: types(t)
    requires ss == map t | t in s.graph.subscribers2 && s.graph.subscribers2[t] > 0 && t != "parameter_events" :: types(t)
    ensures ReportsCounts(ts, s) && Counts(ts, s.topics12.Keys, s.topics21.Keys, ps, ss)
  {
    hide RecordsPublisher, RecordsSubscriber, Counted, ReportsCounts;
    CountedIsReported(s, types, names);
    NamesAreReported(s, types, names, ps.Keys + ss.Keys);
    forall i | 0 <= i < |ts|
      ensures ts[i].name in ps <==> RecordsPublisher(ts[i], s.topics12.Keys)
      ensures ts[i].name in ss <==> RecordsSubscriber(ts[i], s.topics21.Keys)
    {
      RecordsCounted(s, types, names, i);
    }
  }

  lemma NamesAreReported(s: State, types: Name -> TypeName, names: seq<Name>, keys: set<Name>)
    requires forall n | n in keys :: n in names
    ensures var ts := Counted(s, types, names); keys <= set i | 0 <= i < |ts| :: ts[i].name
  {
    hide Counted;
    var ts := Counted(s, types, names);
    forall t | t in keys ensures t in set i | 0 <= i < |ts| :: ts[i].name {
      var i :| 0 <= i < |names| && names[i] == t;
      assert ts[i].name == t;
    }
  }

  lemma CountedIsReported(s: State, types: Name -> TypeName, names: seq<Name>)
    ensures ReportsCounts(Counted(s, types, names), s)
  {
    hide Counted;
  }

  lemma RecordsCounted(s: State, types: Name -> TypeName, names: seq<Name>, i: nat)
    requires i < |names|
    ensures var n, t := names[i], Counted(s, types, names)[i];
            && (RecordsPublisher(t, s.topics12.Keys) <==> n in s.graph.publishers2 && s.graph.publishers2[n] > 0 && n != "parameter_events")
            && (RecordsSubscriber(t, s.topics21.Keys) <==> n in s.graph.subscribers2 && s.graph.subscribers2[n] > 0 && n != "parameter_events")
  {
    hide RecordsPublisher, RecordsSubscriber;
    RecordsOtherEndpoints(Counted(s, types, names)[i], s.topics12.Keys, s.topics21.Keys);
  }

  // ----- where the types settle -----

  function Lookup(m: map<Name, TypeName>, t: Name): Option<TypeName> {
    if t in m then Some(m[t]) else None
  }

  /** The type that a snapshot records for the topic, and the one that the poll under way has. */
  function RecordedType(v: Snap, kind: Kind, t: Name): Option<TypeName> {
    match kind
    case Publisher1 => Lookup(v.publishers1, t)
    case Subscriber1 => Lookup(v.subscribers1, t)
    case Publisher2 => Lookup(v.publishers2, t)
    case Subscriber2 => Lookup(v.subscribers2, t)
  }

  function CarriedType(s: State, kind: Kind, t: Name): Option<TypeName> {
    match kind
    case Publisher1 => (match s.poll1 case Typed1(ps, _) => Lookup(ps, t) case _ => None)
    case Subscriber1 => (match s.poll1 case Typed1(_, ss) => Lookup(ss, t) case _ => None)
    case Publisher2 =>
      (match s.poll2
       case Counted2(ps, _) => Lookup(ps, t)
       case Served2(ps, _, _) => Lookup(ps, t)
       case Stored2(ps, _) => Lookup(ps, t)
       case _ => None)
    case Subscriber2 =>
      (match s.poll2
       case Counted2(_, ss) => Lookup(ss, t)
       case Served2(_, ss, _) => Lookup(ss, t)
       case Stored2(_, ss) => Lookup(ss, t)
       case _ => None)
  }

  /** Whatever the report says of the topic's type is this type; the type of a ROS 1 subscriber that
      the master does not know is the empty one. */
  ghost predicate SaysType(a: Action, kind: Kind, t: Name, ty: TypeName) {
    match a
    case ReadTypes(types) =>
      IsRos1(kind) ==>
        if exists i | 0 <= i < |types| :: types[i].0 == t then GivesType(types, t, ty) else kind.Subscriber1? ==> ty == ""
    case CountTopics2(ts, _, _) =>
      !IsRos1(kind) ==> forall i | 0 <= i < |ts| && ts[i].name == t && |ts[i].types| == 1 :: ts[i].types[0] == ty
    case _ => true
  }

  /** No other type is recorded or carried. */
  predicate TypeTracks(s: State, kind: Kind, t: Name, ty: TypeName) {
    && (RecordedType(s.snap, kind, t) == None || RecordedType(s.snap, kind, t) == Some(ty))
    && (CarriedType(s, kind, t) == None || CarriedType(s, kind, t) == Some(ty))
  }

  predicate TypeLearns(s: State, kind: Kind, t: Name, ty: TypeName) {
    || TypeTracks(s, kind, t, ty)
    || (Under(s, kind) && (CarriedType(s, kind, t) == None || CarriedType(s, kind, t) == Some(ty)))
  }

  lemma TypeStep(c: Config, s: State, a: Action, s': State, kind: Kind, t: Name, ty: TypeName)
    requires Step(c, s, a, s') && SaysType(a, kind, t, ty)
    ensures TypeTracks(s, kind, t, ty) ==> TypeTracks(s', kind, t, ty)
    ensures Begins(a, kind) || (TypeLearns(s, kind, t, ty) && !(a.FailTypes? && IsRos1(kind))) ==> TypeLearns(s', kind, t, ty)
  {
    hide UpdatedTable, UpdatedServices, ReportsNodes, ReportsCounts, Counts, ActiveTopics, GivesType, LastType;
    match a
    case ReadTypes(types) => GivenType(types, t);
    case CountTopics2(ts, ps, ss) => CountedTypes(s, ts, ps, ss, t);
    case _ =>
  }

  lemma CountedTypes(s: State, ts: seq<Ros2Topic>, ps: map<Name, TypeName>, ss: map<Name, TypeName>, t: Name)
    requires Counts(ts, s.topics12.Keys, s.topics21.Keys, ps, ss)
    ensures t in ps ==> exists i | 0 <= i < |ts| :: ts[i].name == t && ts[i].types == [ps[t]]
    ensures t in ss ==> exists i | 0 <= i < |ts| :: ts[i].name == t && ts[i].types == [ss[t]]
  {
    if t in ps || t in ss {
      assert t in ps.Keys + ss.Keys;
      var i :| 0 <= i < |ts| && ts[i].name == t;
    }
  }

  /** When a full poll whose reports name this type updates, the snapshot has no other, for good. */
  lemma FullPollTypes(c: Config, states: seq<State>, actions: seq<Action>, kind: Kind, t: Name, ty: TypeName,
      begin: nat, update: nat, last: nat)
    requires Run(c, states, actions) && FullPoll(states, actions, kind, begin, update) && update <= last < |states|
    requires forall k | begin <= k < |actions| :: SaysType(actions[k], kind, t, ty)
    ensures TypeTracks(states[last], kind, t, ty)
  {
    hide Next, TypeTracks, RecordedType, CarriedType, SaysType;
    var k := begin;
    while k < update
      invariant begin <= k <= update && (k > begin ==> TypeLearns(states[k], kind, t, ty))
    {
      assert Step(c, states[k], actions[k], states[k + 1]);
      TypeStep(c, states[k], actions[k], states[k + 1], kind, t, ty);
      k := k + 1;
    }
    assert Step(c, states[update], actions[update], states[update + 1]);
    assert PollReady(states[update], kind);
    while k < last
      invariant update <= k <= last && TypeTracks(states[k], kind, t, ty)
    {
      assert Step(c, states[k], actions[k], states[k + 1]);
      TypeStep(c, states[k], actions[k], states[k + 1], kind, t, ty);
      k := k + 1;
    }
  }

  /** The table has what external endpoints `p` and `q` of these types and the flag call for. */
  predicate Settled(c: Config, w: Topics, to2: bool, t: Name, p: bool, source: TypeName, q: bool, sink: TypeName) {
    var all, mapped := if to2 then c.all12 else c.all21, if to2 then c.lookup12(source) else c.lookup21(source);
    && (!p || (!q && !all) ==> t !in w)
    && (p && q ==> t in w && w[t].source == source && (w[t].sink == sink || (!to2 && w[t].sink == "")))
    && (p && !q && all && mapped.Some? ==>
          t in w && w[t].source == source && (w[t].sink == mapped.value || (!to2 && w[t].sink == "")))
  }

  lemma TruthfulUpdateSettles(c: Config, s: State, o: Outcome, to2: bool, t: Name, source: TypeName, sink: TypeName)
    requires CanCreate(o, to2, t)
    requires Tracks(s, Source(to2), t) && TypeTracks(s, Source(to2), t, source)
    requires Tracks(s, Sink(to2), t) && TypeTracks(s, Sink(to2), t, sink)
    ensures Settled(c, TableOf(AfterUpdate(c, s, o), to2), to2, t, External(s.graph, Source(to2), t), source, External(s.graph, Sink(to2), t), sink)
  {
    hide AfterUpdate, External, Carried;
    if to2 { Update12(c, s, o, t); } else { Update21(c, s, o, t); }
  }

  /** The closed loop with types and with or without bridge-all: once the external endpoints of a
      topic are steady, reports name their types, and creations succeed, one full poll of each side
      brings the loop to where the topic is bridged with the publisher's type and the
      subscriber's type, or failing a subscriber, with bridge-all on, the mapped type; without a
      publisher, or without either of the two, it is not bridged. It stays there. */
  lemma ClosedLoopSettles(c: Config, states: seq<State>, actions: seq<Action>, to2: bool, t: Name, source: TypeName, sink: TypeName,
      from: nat, begin: nat, update: nat, begin': nat, update': nat, k: nat)
    requires Run(c, states, actions)
    requires Steady(states, actions, Source(to2), t, from) && Steady(states, actions, Sink(to2), t, from)
    requires forall m | from <= m < |actions| :: SaysType(actions[m], Source(to2), t, source) && SaysType(actions[m], Sink(to2), t, sink)
    requires from <= begin && FullPoll(states, actions, Source(to2), begin, update)
    requires from <= begin' && FullPoll(states, actions, Sink(to2), begin', update')
    requires forall m | from <= m < |actions| && IsUpdate(actions[m]) :: CanCreate(actions[m].outcome, to2, t)
    requires update < k < |states| && update' < k
    ensures Settled(c, TableOf(states[k], to2), to2, t,
                    External(states[from].graph, Source(to2), t), source, External(states[from].graph, Sink(to2), t), sink)
  {
    hide Next, Enabled, Carried, Recorded, External, Complete, TableOf, CanCreate, Tracks, TypeTracks, SaysType, Settled;
    var m := if update < update' then update' else update;
    SettledAfterUpdate(c, states, actions, to2, t, source, sink, from, begin, update, begin', update', m);
    m := m + 1;
    while m < k
      invariant update < m <= k && update' < m
      invariant Settled(c, TableOf(states[m], to2), to2, t,
                        External(states[from].graph, Source(to2), t), source, External(states[from].graph, Sink(to2), t), sink)
    {
      assert Step(c, states[m], actions[m], states[m + 1]);
      TableAfterStep(c, states[m], actions[m], states[m + 1], to2);
      if IsUpdate(actions[m]) {
        SettledAfterUpdate(c, states, actions, to2, t, source, sink, from, begin, update, begin', update', m);
      }
      m := m + 1;
    }
  }

  lemma SettledAfterUpdate(c: Config, states: seq<State>, actions: seq<Action>, to2: bool, t: Name, source: TypeName, sink: TypeName,
      from: nat, begin: nat, update: nat, begin': nat, update': nat, m: nat)
    requires Run(c, states, actions)
    requires Steady(states, actions, Source(to2), t, from) && Steady(states, actions, Sink(to2), t, from)
    requires forall l | from <= l < |actions| :: SaysType(actions[l], Source(to2), t, source) && SaysType(actions[l], Sink(to2), t, sink)
    requires from <= begin && FullPoll(states, actions, Source(to2), begin, update)
    requires from <= begin' && FullPoll(states, actions, Sink(to2), begin', update')
    requires update <= m < |actions| && update' <= m && IsUpdate(actions[m]) && CanCreate(actions[m].outcome, to2, t)
    ensures Settled(c, TableOf(states[m + 1], to2), to2, t,
                    External(states[from].graph, Source(to2), t), source, External(states[from].graph, Sink(to2), t), sink)
  {
    hide Next, Enabled, Carried, Recorded, External, Complete, TableOf, CanCreate, Tracks, TypeTracks, SaysType, Settled;
    FullPollTracks(c, states, actions, Source(to2), t, from, begin, update, m);
    FullPollTracks(c, states, actions, Sink(to2), t, from, begin', update', m);
    FullPollTypes(c, states, actions, Source(to2), t, source, begin, update, m);
    FullPollTypes(c, states, actions, Sink(to2), t, sink, begin', update', m);
    TruthfulUpdateSettles(c, states[m], actions[m].outcome, to2, t, source, sink);
    assert Step(c, states[m], actions[m], states[m + 1]);
    UpdatedTableOf(c, states[m], actions[m], states[m + 1], to2);
  }

  lemma UpdatedTableOf(c: Config, s: State, a: Action, s': State, to2: bool)
    requires Step(c, s, a, s') && IsUpdate(a)
    ensures TableOf(s', to2) == TableOf(AfterUpdate(c, s, a.outcome), to2)
  {
    hide UpdatedTable, UpdatedServices;
  }

  // ----- services on their way to the update -----

  /** The action that finds the services of one side, and the one that stores them. */
  predicate FindsServices(a: Action, ros1: bool) {
    if ros1 then a.ReadSystemState? else a.CollectServices2?
  }

  predicate StoresServices(a: Action, ros1: bool) {
    if ros1 then a.StoreServices1? else a.StoreServices2?
  }

  /** However the two polls interleave: the services that a poll found are the ones that it stores,
      and updates work with them until the next poll of that side stores others. */
  lemma ServicesReachTheUpdates(c: Config, states: seq<State>, actions: seq<Action>, ros1: bool, find: nat, store: nat, k: nat)
    requires Run(c, states, actions) && find < store < k < |states|
    requires FindsServices(actions[find], ros1) && StoresServices(actions[store], ros1)
    requires forall m | find < m < store :: !FindsServices(actions[m], ros1) && !StoresServices(actions[m], ros1)
    requires forall m | store < m < k :: !StoresServices(actions[m], ros1)
    ensures (if ros1 then states[k].snap.services1 else states[k].snap.services2) == actions[find].services
  {
    hide AfterUpdate, ReportsNodes, ReportsCounts, Counts, ActiveTopics, TypedPublishers, TypedSubscribers;
    assert Step(c, states[find], actions[find], states[find + 1]);
    var m := find + 1;
    while m < store
      invariant find < m <= store
      invariant if ros1 then states[m].poll1.Read1? && states[m].poll1.services == actions[find].services
                else states[m].poll2.Served2? && states[m].poll2.services == actions[find].services
    {
      assert Step(c, states[m], actions[m], states[m + 1]);
      FoundServicesStay(c, states[m], actions[m], states[m + 1], ros1);
      m := m + 1;
    }
    assert Step(c, states[store], actions[store], states[store + 1]);
    m := store + 1;
    while m < k
      invariant store < m <= k
      invariant (if ros1 then states[m].snap.services1 else states[m].snap.services2) == actions[find].services
    {
      assert Step(c, states[m], actions[m], states[m + 1]);
      StoredServicesStay(c, states[m], actions[m], states[m + 1], ros1);
      m := m + 1;
    }
  }

  lemma FoundServicesStay(c: Config, s: State, a: Action, s': State, ros1: bool)
    requires Step(c, s, a, s') && !FindsServices(a, ros1) && !StoresServices(a, ros1)
    ensures ros1 && s.poll1.Read1? ==> s'.poll1 == s.poll1
    ensures !ros1 && s.poll2.Served2? ==> s'.poll2 == s.poll2
  {
    hide UpdatedTable, UpdatedServices, ReportsNodes, ReportsCounts, Counts, ActiveTopics, TypedPublishers, TypedSubscribers;
  }

  lemma StoredServicesStay(c: Config, s: State, a: Action, s': State, ros1: bool)
    requires Step(c, s, a, s') && !StoresServices(a, ros1)
    ensures if ros1 then s'.snap.services1 == s.snap.services1 else s'.snap.services2 == s.snap.services2
  {
    hide UpdatedTable, UpdatedServices, ReportsNodes, ReportsCounts, Counts, ActiveTopics, TypedPublishers, TypedSubscribers;
  }
}
