/** How the two polls turn what the middleware reports into snapshots, discounting the bridge's
    own endpoints. */
module Snapshots {
  import opened Wrappers
  import opened Reconciler

  type Node = string

  /** The name under which the bridge itself appears in the ROS 1 graph. */
  const SELF: Node := "/ros_bridge"

  // ----- ROS 1: a topic is active if a node beside the bridge is registered for it -----

  predicate HasOther(nodes: seq<Node>) {
    exists k | 0 <= k < |nodes| :: nodes[k] != SELF
  }

  function ActiveTopics(entries: seq<(Name, seq<Node>)>): set<Name> {
    set i | 0 <= i < |entries| && HasOther(entries[i].1) :: entries[i].0
  }

  /** A topic is active exactly if some node of another name than the bridge's is listed for it. */
  lemma ActiveMeansAnotherNode(entries: seq<(Name, seq<Node>)>, t: Name)
    ensures t in ActiveTopics(entries) <==>
              exists i, k | 0 <= i < |entries| && 0 <= k < |entries[i].1| :: entries[i].0 == t && entries[i].1[k] != "/ros_bridge"
  {
    if i, k :| 0 <= i < |entries| && 0 <= k < |entries[i].1| && entries[i].0 == t && entries[i].1[k] != "/ros_bridge" {
      assert HasOther(entries[i].1);
    }
  }

  /** The nested loops over one part of the system state, with the early exit. */
  method CollectActiveTopics(entries: seq<(Name, seq<Node>)>) returns (active: set<Name>)
    ensures active == ActiveTopics(entries)
  {
    active := {};
    var j := 0;
    while j < |entries|
      invariant j <= |entries|
      invariant active == ActiveTopics(entries[..j])
    {
      ghost var before := active;
      var nodes := entries[j].1;
      var k := 0;
      while k < |nodes|
        invariant k <= |nodes| && active == before
        invariant forall l | 0 <= l < k :: nodes[l] == SELF
      {
        if nodes[k] == SELF {
          k := k + 1;
          continue;
        }
        active := active + {entries[j].0};
        break;
      }
      ActiveTopicsOfNext(entries, j);
      j := j + 1;
    }
    assert entries[..j] == entries;
  }

  lemma ActiveTopicsOfNext(entries: seq<(Name, seq<Node>)>, j: nat)
    requires j < |entries|
    ensures ActiveTopics(entries[..j + 1]) ==
            ActiveTopics(entries[..j]) + if HasOther(entries[j].1) then {entries[j].0} else {}
  {
    var a, b := entries[..j], entries[..j + 1];
    assert b[j] == entries[j] && forall i | 0 <= i < j :: b[i] == a[i];
    forall t ensures t in ActiveTopics(b) <==> t in ActiveTopics(a) || (HasOther(entries[j].1) && t == entries[j].0) {
      if t in ActiveTopics(a) {
        var i :| 0 <= i < |a| && HasOther(a[i].1) && a[i].0 == t;
        assert b[i] == a[i];
      }
      if t in ActiveTopics(b) {
        var i :| 0 <= i < |b| && HasOther(b[i].1) && b[i].0 == t;
        if i < j { assert a[i] == b[i]; }
      }
      if HasOther(entries[j].1) && t == entries[j].0 {
        assert HasOther(b[j].1) && b[j].0 == t;
      }
    }
  }

  /** The last type that the master reports for a topic. */
  function LastType(topics: seq<(Name, TypeName)>, t: Name): Option<TypeName> {
    if topics == [] then None
    else
      var last := topics[|topics| - 1];
      if last.0 == t then Some(last.1) else LastType(topics[..|topics| - 1], t)
  }

  /** It is the type of the entry for the topic behind which there is no other. */
  lemma {:induction false} LastTypeIsLast(topics: seq<(Name, TypeName)>, t: Name)
    ensures LastType(topics, t) == None <==> forall i | 0 <= i < |topics| :: topics[i].0 != t
    ensures forall i | 0 <= i < |topics| && topics[i].0 == t && (forall j | i < j < |topics| :: topics[j].0 != t) ::
              LastType(topics, t) == Some(topics[i].1)
  {
    if topics != [] {
      var front := topics[..|topics| - 1];
      LastTypeIsLast(front, t);
      assert forall i | 0 <= i < |front| :: front[i] == topics[i];
      assert forall i | 0 <= i < |topics| - 1 :: topics[i] == front[i];
    }
  }

  /** Active publishers of a known type. */
  function TypedPublishers(topics: seq<(Name, TypeName)>, active: set<Name>): map<Name, TypeName> {
    map t | t in active && LastType(topics, t).Some? :: LastType(topics, t).value
  }

  /** Active subscribers; their type is empty when the master does not know it. */
  function TypedSubscribers(topics: seq<(Name, TypeName)>, active: set<Name>): map<Name, TypeName> {
    map t | t in active :: match LastType(topics, t) case Some(ty) => ty case None => ""
  }

  /** One more report only concerns its own topic. */
  lemma TypedOfNext(topics: seq<(Name, TypeName)>, i: nat, active: set<Name>)
    requires i < |topics|
    ensures TypedPublishers(topics[..i + 1], active) ==
            if topics[i].0 in active then TypedPublishers(topics[..i], active)[topics[i].0 := topics[i].1]
            else TypedPublishers(topics[..i], active)
  {
    assert topics[..i + 1][..i] == topics[..i] && topics[..i + 1][i] == topics[i];
  }

  /** The loop over the topic types. */
  method TypeTopics(topics: seq<(Name, TypeName)>, activePublishers: set<Name>, activeSubscribers: set<Name>)
    returns (publishers: map<Name, TypeName>, subscribers: map<Name, TypeName>)
    ensures publishers == TypedPublishers(topics, activePublishers)
    ensures subscribers == TypedSubscribers(topics, activeSubscribers)
  {
    publishers, subscribers := map[], map[];
    var i := 0;
    while i < |topics|
      invariant i <= |topics|
      invariant publishers == TypedPublishers(topics[..i], activePublishers)
      invariant subscribers == TypedPublishers(topics[..i], activeSubscribers)
    {
      hide TypedPublishers;
      TypedOfNext(topics, i, activePublishers);
      TypedOfNext(topics, i, activeSubscribers);
      var (name, datatype') := topics[i];
      var hasPublisher, hasSubscriber := name in activePublishers, name in activeSubscribers;
      i := i + 1;
      if !hasPublisher && !hasSubscriber { continue; }
      if hasPublisher { publishers := publishers[name := datatype']; }
      if hasSubscriber { subscribers := subscribers[name := datatype']; }
    }
    assert topics[..i] == topics;
    subscribers := AddUntyped(subscribers, activeSubscribers);
  }

  /** The loop that adds the subscribers whose type the master does not report. */
  method AddUntyped(known: map<Name, TypeName>, active: set<Name>) returns (subscribers: map<Name, TypeName>)
    requires known.Keys <= active
    ensures subscribers == map t | t in active :: if t in known then known[t] else ""
  {
    subscribers := known;
    var todo := active;
    while todo != {}
      invariant todo <= active && known.Keys <= subscribers.Keys <= active
      invariant forall t | t in active && t !in todo :: t in subscribers
      invariant forall t | t in subscribers :: subscribers[t] == if t in known then known[t] else ""
      decreases todo
    {
      var t :| t in todo;
      todo := todo - {t};
      if t !in subscribers { subscribers := subscribers[t := ""]; }
    }
  }

  // ----- ROS 2: counts of endpoints -----

  datatype Ros2Topic = Ros2Topic(name: Name, types: seq<TypeName>, publishers: nat, subscribers: nat)

  /** The endpoints beside the bridge's own one. */
  function Discounted(count: nat, bridged: bool): nat {
    if bridged && count > 0 then count - 1 else count
  }

  predicate Ignored(t: Ros2Topic) {
    t.name == "parameter_events" || |t.types| != 1
  }

  /** Topics of one type with a publisher beside the bridge. */
  predicate RecordsPublisher(t: Ros2Topic, bridged12: set<Name>) {
    !Ignored(t) && Discounted(t.publishers, t.name in bridged12) > 0
  }

  predicate RecordsSubscriber(t: Ros2Topic, bridged21: set<Name>) {
    !Ignored(t) && Discounted(t.subscribers, t.name in bridged21) > 0
  }

  /** Exactly the topics outside parameter_events that have one type and more publishers than the
      bridge itself contributes. */
  lemma RecordsOtherEndpoints(t: Ros2Topic, bridged12: set<Name>, bridged21: set<Name>)
    ensures RecordsPublisher(t, bridged12) <==>
              t.name != "parameter_events" && |t.types| == 1 && t.publishers > (if t.name in bridged12 then 1 else 0)
    ensures RecordsSubscriber(t, bridged21) <==>
              t.name != "parameter_events" && |t.types| == 1 && t.subscribers > (if t.name in bridged21 then 1 else 0)
  {
  }

  predicate DistinctNames(topics: seq<Ros2Topic>) {
    forall i, j | 0 <= i < j < |topics| :: topics[i].name != topics[j].name
  }

  /** The snapshots list exactly the topics with an endpoint of the kind beside the bridge. */
  predicate Counts(topics: seq<Ros2Topic>, bridged12: set<Name>, bridged21: set<Name>,
      publishers: map<Name, TypeName>, subscribers: map<Name, TypeName>)
  {
    && (forall i | 0 <= i < |topics| ::
          && (topics[i].name in publishers <==> RecordsPublisher(topics[i], bridged12))
          && (topics[i].name in subscribers <==> RecordsSubscriber(topics[i], bridged21))
          && (topics[i].name in publishers ==> [publishers[topics[i].name]] == topics[i].types)
          && (topics[i].name in subscribers ==> [subscribers[topics[i].name]] == topics[i].types))
    && publishers.Keys + subscribers.Keys <= set i | 0 <= i < |topics| :: topics[i].name
  }

  /** The snapshots list a reported topic exactly if it is not parameter_events, has one type and has
      more endpoints of the kind than the bridge itself contributes, and then with that type. */
  lemma CountsExactly(topics: seq<Ros2Topic>, bridged12: set<Name>, bridged21: set<Name>,
      publishers: map<Name, TypeName>, subscribers: map<Name, TypeName>, i: nat)
    requires Counts(topics, bridged12, bridged21, publishers, subscribers) && i < |topics|
    ensures var t := topics[i];
            && (t.name in publishers <==>
                  t.name != "parameter_events" && |t.types| == 1 && t.publishers > (if t.name in bridged12 then 1 else 0))
            && (t.name in subscribers <==>
                  t.name != "parameter_events" && |t.types| == 1 && t.subscribers > (if t.name in bridged21 then 1 else 0))
            && (t.name in publishers ==> publishers[t.name] == t.types[0])
            && (t.name in subscribers ==> subscribers[t.name] == t.types[0])
    ensures forall n | n in publishers.Keys + subscribers.Keys :: exists k | 0 <= k < |topics| :: topics[k].name == n
  {
    hide RecordsPublisher, RecordsSubscriber;
    RecordsOtherEndpoints(topics[i], bridged12, bridged21);
  }

  /** The loop over the ROS 2 topics; `bridged12` and `bridged21` are the keys of the tables. */
  method CountTopics(topics: seq<Ros2Topic>, bridged12: set<Name>, bridged21: set<Name>)
    returns (publishers: map<Name, TypeName>, subscribers: map<Name, TypeName>)
    requires DistinctNames(topics) && forall i | 0 <= i < |topics| :: |topics[i].types| > 0
    ensures Counts(topics, bridged12, bridged21, publishers, subscribers)
  {
    publishers, subscribers := map[], map[];
    var i := 0;
    while i < |topics|
      invariant i <= |topics|
      invariant forall j | 0 <= j < i ::
                  && (topics[j].name in publishers <==> RecordsPublisher(topics[j], bridged12))
                  && (topics[j].name in subscribers <==> RecordsSubscriber(topics[j], bridged21))
                  && (topics[j].name in publishers ==> [publishers[topics[j].name]] == topics[j].types)
                  && (topics[j].name in subscribers ==> [subscribers[topics[j].name]] == topics[j].types)
      invariant publishers.Keys + subscribers.Keys <= set j | 0 <= j < i :: topics[j].name
    {
      var t := topics[i];
      i := i + 1;
      if t.name == "parameter_events" { continue; }
      var topicType := t.types[0];
      if |t.types| > 1 { continue; }
      var publisherCount, subscriberCount := t.publishers, t.subscribers;
      if t.name in bridged12 && publisherCount > 0 { publisherCount := publisherCount - 1; }
      if t.name in bridged21 && subscriberCount > 0 { subscriberCount := subscriberCount - 1; }
      if publisherCount > 0 { publishers := publishers[t.name := topicType]; }
      if subscriberCount > 0 { subscribers := subscribers[t.name := topicType]; }
    }
  }
}
