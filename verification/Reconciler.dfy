/** What one call of `update_bridge` does to the four bridge tables, topic by topic and service
    by service, and the properties of repeated calls. */
module Reconciler {
  import opened Wrappers

  type Name = string
  type TypeName = string

  /** The identity of a bridge: at most one is created for a name by one update. */
  datatype Handle = Handle(epoch: nat, name: Name)

  /** An entry of a topic table: for a 1to2 bridge the source is ROS 1, for a 2to1 bridge it is
      ROS 2. */
  datatype Entry = Entry(source: TypeName, sink: TypeName, handle: Handle)

  /** One direction of the topic bridge during one update: the snapshots of publishers and
      subscribers that it reads, its bridge-all flag, the mapping lookup for bridge-all, whether
      an empty sink type in the table matches anything, and which creations succeed. */
  datatype Side = Side(
    publishers: map<Name, TypeName>,
    subscribers: map<Name, TypeName>,
    all: bool,
    lookup: TypeName -> Option<TypeName>,
    wildcard: bool,
    creates: (Name, TypeName, TypeName) -> bool)

  type Topics = map<Name, Entry>

  /** The types with which a topic is to be bridged, if it is. */
  function Wanted(d: Side, t: Name): Option<(TypeName, TypeName)> {
    if t !in d.publishers then None
    else if t in d.subscribers then Some((d.publishers[t], d.subscribers[t]))
    else if !d.all then None
    else
      var mapped := d.lookup(d.publishers[t]);
      if mapped.None? then None else Some((d.publishers[t], mapped.value))
  }

  predicate Matches(d: Side, e: Entry, types: (TypeName, TypeName)) {
    e.source == types.0 && (e.sink == types.1 || (d.wildcard && e.sink == ""))
  }

  predicate Obsolete(d: Side, t: Name) {
    t !in d.publishers || (!d.all && t !in d.subscribers)
  }

  /** The entry of one topic after the creation loop. */
  function Created(d: Side, table: Topics, epoch: nat, t: Name): Option<Entry> {
    var was := if t in table then Some(table[t]) else None;
    var types := Wanted(d, t);
    if types.None? then was
    else if was.Some? && Matches(d, was.value, types.value) then was
    else if d.creates(t, types.value.0, types.value.1) then
      Some(Entry(types.value.0, types.value.1, Handle(epoch, t)))
    else None
  }

  /** The entry of one topic after the update. */
  function Updated(d: Side, table: Topics, epoch: nat, t: Name): Option<Entry> {
    if Obsolete(d, t) then None else Created(d, table, epoch, t)
  }

  function CreatedTable(d: Side, table: Topics, epoch: nat): (r: Topics)
    ensures forall t :: t in r <==> Created(d, table, epoch, t).Some?
    ensures forall t | t in r :: r[t] == Created(d, table, epoch, t).value
  {
    map t | t in table.Keys + d.publishers.Keys && Created(d, table, epoch, t).Some? :: Created(d, table, epoch, t).value
  }

  function UpdatedTable(d: Side, table: Topics, epoch: nat): (r: Topics)
    ensures forall t :: t in r <==> Updated(d, table, epoch, t).Some?
    ensures forall t | t in r :: r[t] == Updated(d, table, epoch, t).value
  {
    map t | t in table.Keys + d.publishers.Keys && Updated(d, table, epoch, t).Some? :: Updated(d, table, epoch, t).value
  }

  // ----- properties of topic updates -----

  /** An entry with the types under which the topic is published and wanted; where an unknown type
      matches anything, the empty sink type stands for every other. */
  predicate HasTypes(e: Entry, source: TypeName, sink: TypeName, wildcard: bool) {
    e.source == source && (e.sink == sink || (wildcard && e.sink == ""))
  }

  /** What one update does to a topic that it wants to bridge with these types: a bridge that has
      them is kept, with its handle; any other is replaced, or lost if the creation fails. */
  lemma WantedTopicAfterUpdate(d: Side, table: Topics, epoch: nat, t: Name, sink: TypeName)
    requires t in d.publishers
    requires if t in d.subscribers then d.subscribers[t] == sink else d.all && d.lookup(d.publishers[t]) == Some(sink)
    ensures var w, source := UpdatedTable(d, table, epoch), d.publishers[t];
            if t in table && table[t].source == source && (table[t].sink == sink || (d.wildcard && table[t].sink == "")) then
              t in w && w[t] == table[t]
            else if d.creates(t, source, sink) then
              t in w && w[t].source == source && w[t].sink == sink && w[t].handle == Handle(epoch, t)
            else
              t !in w
  {
  }

  /** What it does to the others: a topic without a publisher, or without a subscriber and bridge-all,
      is not bridged; with bridge-all, one without a subscriber and a mapping is left alone. */
  lemma UnwantedTopicAfterUpdate(d: Side, table: Topics, epoch: nat, t: Name)
    ensures var w := UpdatedTable(d, table, epoch);
            && (t !in d.publishers ==> t !in w)
            && (t !in d.subscribers && !d.all ==> t !in w)
            && (t in d.publishers && t !in d.subscribers && d.all && d.lookup(d.publishers[t]) == None ==>
                  if t in table then t in w && w[t] == table[t] else t !in w)
  {
  }

  /** Without bridge-all, the table is exactly the topics published on one side and subscribed on
      the other that were already bridged with those types or whose creation succeeded, and every
      entry has those types. */
  lemma ExactReconciliation(d: Side, table: Topics, epoch: nat, t: Name)
    requires !d.all
    ensures t in UpdatedTable(d, table, epoch) <==>
              t in d.publishers && t in d.subscribers &&
              ((t in table && HasTypes(table[t], d.publishers[t], d.subscribers[t], d.wildcard)) ||
               d.creates(t, d.publishers[t], d.subscribers[t]))
    ensures t in UpdatedTable(d, table, epoch) ==>
              var e := UpdatedTable(d, table, epoch)[t];
              && e.source == d.publishers[t]
              && (e.sink == d.subscribers[t] || (d.wildcard && e.sink == "" && t in table && e == table[t]))
  {
    hide UpdatedTable;
    UnwantedTopicAfterUpdate(d, table, epoch, t);
    if t in d.publishers && t in d.subscribers {
      WantedTopicAfterUpdate(d, table, epoch, t, d.subscribers[t]);
    }
  }

  /** With bridge-all, the table is exactly the published topics that are either wanted, with the
      subscriber's type or failing that the mapped one, and were bridged so or could be created, or
      have no mapping and keep the bridge that they had, whatever its types. */
  lemma ExactReconciliationOfAll(d: Side, table: Topics, epoch: nat, t: Name)
    requires d.all
    ensures t in UpdatedTable(d, table, epoch) <==>
              && t in d.publishers
              && (if t !in d.subscribers && d.lookup(d.publishers[t]).None? then t in table
                  else
                    var source, sink := d.publishers[t], if t in d.subscribers then d.subscribers[t] else d.lookup(d.publishers[t]).value;
                    (t in table && HasTypes(table[t], source, sink, d.wildcard)) || d.creates(t, source, sink))
    ensures t in UpdatedTable(d, table, epoch) ==>
              var e := UpdatedTable(d, table, epoch)[t];
              if t !in d.subscribers && d.lookup(d.publishers[t]).None? then e == table[t]
              else
                var sink := if t in d.subscribers then d.subscribers[t] else d.lookup(d.publishers[t]).value;
                && e.source == d.publishers[t]
                && (e.sink == sink || (d.wildcard && e.sink == "" && t in table && e == table[t]))
  {
    hide UpdatedTable;
    UnwantedTopicAfterUpdate(d, table, epoch, t);
    if t in d.publishers && (t in d.subscribers || d.lookup(d.publishers[t]).Some?) {
      WantedTopicAfterUpdate(d, table, epoch, t, if t in d.subscribers then d.subscribers[t] else d.lookup(d.publishers[t]).value);
    }
  }

  /** The snapshots find nothing wrong with a bridge `e` of the topic. */
  predicate LeavesAlone(d: Side, t: Name, e: Entry) {
    && t in d.publishers
    && (if t in d.subscribers then HasTypes(e, d.publishers[t], d.subscribers[t], d.wildcard)
        else d.all && match d.lookup(d.publishers[t])
                      case Some(mapped) => HasTypes(e, d.publishers[t], mapped, d.wildcard)
                      case None => true)
  }

  /** A bridge survives the update, unchanged, if and only if the snapshots find nothing wrong with
      it, given that the handles of the table are older than those that the update gives out. */
  lemma BridgeSurvivesIff(d: Side, table: Topics, epoch: nat, t: Name)
    requires t in table && table[t].handle.epoch < epoch
    ensures var w := UpdatedTable(d, table, epoch);
            && (t in w && w[t].handle == table[t].handle <==> LeavesAlone(d, t, table[t]))
            && (t in w && w[t].handle == table[t].handle ==> w[t] == table[t])
  {
    hide UpdatedTable;
    UnwantedTopicAfterUpdate(d, table, epoch, t);
    if t in d.publishers {
      if t in d.subscribers {
        WantedTopicAfterUpdate(d, table, epoch, t, d.subscribers[t]);
      } else if d.all && d.lookup(d.publishers[t]).Some? {
        WantedTopicAfterUpdate(d, table, epoch, t, d.lookup(d.publishers[t]).value);
      }
    }
  }

  /** The types with which the topic is bridged if it is bridged anew. */
  predicate CallsFor(d: Side, t: Name, source: TypeName, sink: TypeName) {
    && t in d.publishers && d.publishers[t] == source
    && (if t in d.subscribers then d.subscribers[t] == sink else d.all && d.lookup(source) == Some(sink))
  }

  /** A bridge that is in the table after the update is either the very one that was there, and
      then its topic's types did not call for another, or it was created by this update, and then
      they did. */
  lemma KeptOrFresh(d: Side, table: Topics, epoch: nat, t: Name)
    requires t in UpdatedTable(d, table, epoch)
    ensures var e := UpdatedTable(d, table, epoch)[t];
            || (t in table && e == table[t] && LeavesAlone(d, t, e))
            || (e.handle == Handle(epoch, t) && CallsFor(d, t, e.source, e.sink) && d.creates(t, e.source, e.sink)
                && (t in table ==> !HasTypes(table[t], e.source, e.sink, d.wildcard)))
  {
    hide UpdatedTable;
    UnwantedTopicAfterUpdate(d, table, epoch, t);
    if t in d.publishers && t in d.subscribers {
      WantedTopicAfterUpdate(d, table, epoch, t, d.subscribers[t]);
    } else if t in d.publishers && d.all && d.lookup(d.publishers[t]).Some? {
      WantedTopicAfterUpdate(d, table, epoch, t, d.lookup(d.publishers[t]).value);
    }
  }

  /** A second update with the same snapshots and the same creation results changes nothing: no
      entry, no handle. */
  lemma TopicUpdateIsIdempotent(d: Side, table: Topics, epoch: nat, epoch': nat)
    ensures UpdatedTable(d, UpdatedTable(d, table, epoch), epoch') == UpdatedTable(d, table, epoch)
  {
    var once := UpdatedTable(d, table, epoch);
    forall t ensures Updated(d, once, epoch', t) == Updated(d, table, epoch, t) {
      assert t in once <==> Updated(d, table, epoch, t).Some?;
    }
  }

  /** A bridge with an unknown sink type is left alone as long as its topic keeps its publisher's
      type and stays wanted on the other side, whatever type is reported there. */
  lemma WildcardIsKept(d: Side, table: Topics, epoch: nat, t: Name)
    requires d.wildcard && t in table && table[t].sink == ""
    requires t in d.publishers && d.publishers[t] == table[t].source && (d.all || t in d.subscribers)
    ensures t in UpdatedTable(d, table, epoch) && UpdatedTable(d, table, epoch)[t] == table[t]
  {
  }

  // ----- services -----

  datatype Details = Details(package: string, srv: string)

  /** The services of both snapshots and which creations succeed (a factory exists and does not
      throw). */
  datatype ServiceSide = ServiceSide(
    ros1: map<Name, Details>,
    ros2: map<Name, Details>,
    creates21: (Name, Details) -> bool,
    creates12: (Name, Details) -> bool)

  datatype Services = Services(s12: map<Name, Handle>, s21: map<Name, Handle>)

  predicate Disjoint(v: Services) {
    v.s12.Keys !! v.s21.Keys
  }

  /** A ROS 1 service that is bridged in neither direction gets a 2to1 bridge. */
  function CreatedServices21(d: ServiceSide, v: Services, epoch: nat): map<Name, Handle> {
    v.s21 + map n | n in d.ros1 && n !in v.s21 && n !in v.s12 && d.creates21(n, d.ros1[n]) :: Handle(epoch, n)
  }

  /** A ROS 2 service that is then bridged in neither direction gets a 1to2 bridge. */
  function CreatedServices12(d: ServiceSide, v: Services, epoch: nat): map<Name, Handle> {
    v.s12 + map n | n in d.ros2 && n !in v.s12 && n !in v.s21 && d.creates12(n, d.ros2[n]) :: Handle(epoch, n)
  }

  function Restrict<T>(m: map<Name, T>, keys: set<Name>): map<Name, T> {
    map n | n in m && n in keys :: m[n]
  }

  /** Creation from ROS 1, creation from ROS 2, and only then the removals. */
  function UpdatedServices(d: ServiceSide, v: Services, epoch: nat): Services {
    var s21 := CreatedServices21(d, v, epoch);
    var s12 := CreatedServices12(d, Services(v.s12, s21), epoch);
    Services(Restrict(s12, d.ros2.Keys), Restrict(s21, d.ros1.Keys))
  }

  /** No service is ever bridged in both directions, and each table keeps only services that the
      snapshot still has. */
  lemma ServicesStayExclusive(d: ServiceSide, v: Services, epoch: nat)
    requires Disjoint(v)
    ensures var w := UpdatedServices(d, v, epoch);
            Disjoint(w) && w.s12.Keys !! w.s21.Keys && w.s12.Keys <= d.ros2.Keys && w.s21.Keys <= d.ros1.Keys
  {
  }

  /** Exactly which services are bridged after an update, from which direction. */
  lemma ExactServices(d: ServiceSide, v: Services, epoch: nat, n: Name)
    requires Disjoint(v)
    ensures var w := UpdatedServices(d, v, epoch);
            && (n in w.s21 <==> n in d.ros1 && (n in v.s21 || (n !in v.s12 && d.creates21(n, d.ros1[n]))))
            && (n in w.s12 <==>
                  && n in d.ros2
                  && (n in v.s12 || (n !in v.s21 && d.creates12(n, d.ros2[n]) && !(n in d.ros1 && d.creates21(n, d.ros1[n])))))
            && (n in w.s21 ==> w.s21[n] == if n in v.s21 then v.s21[n] else Handle(epoch, n))
            && (n in w.s12 ==> w.s12[n] == if n in v.s12 then v.s12[n] else Handle(epoch, n))
  {
  }

  /** A service that changes sides between two snapshots is still in its old table while the
      creation loops run. */
  predicate ChangesSides(d: ServiceSide, v: Services, n: Name) {
    || (n in v.s21 && n !in d.ros1 && n in d.ros2 && d.creates12(n, d.ros2[n]))
    || (n in v.s12 && n !in d.ros2 && n in d.ros1 && d.creates21(n, d.ros1[n]))
  }

  /** Exactly the services that change sides are bridged in neither direction after one update, and
      in the direction of their new side after the second. */
  lemma ChangingSidesTakesTwo(d: ServiceSide, v: Services, epoch: nat, epoch': nat, n: Name)
    requires Disjoint(v)
    ensures var once := UpdatedServices(d, v, epoch); var twice := UpdatedServices(d, once, epoch');
            && (ChangesSides(d, v, n) <==>
                  n !in once.s12 && n !in once.s21 && (n in twice.s12 || n in twice.s21))
            && (ChangesSides(d, v, n) ==> (n in twice.s12 <==> n in v.s21) && (n in twice.s21 <==> n in v.s12))
            && (!ChangesSides(d, v, n) ==> (n in twice.s12 <==> n in once.s12) && (n in twice.s21 <==> n in once.s21))
            && (n in once.s12 ==> n in twice.s12 && twice.s12[n] == once.s12[n])
            && (n in once.s21 ==> n in twice.s21 && twice.s21[n] == once.s21[n])
  {
    var once := UpdatedServices(d, v, epoch);
    ServicesStayExclusive(d, v, epoch);
    ExactServices(d, v, epoch, n);
    ExactServices(d, once, epoch', n);
  }

  /** One update reaches a fixpoint precisely when no service changes sides. */
  lemma OneUpdateSuffices(d: ServiceSide, v: Services, epoch: nat, epoch': nat)
    requires Disjoint(v)
    ensures (UpdatedServices(d, UpdatedServices(d, v, epoch), epoch') == UpdatedServices(d, v, epoch)) <==>
            (forall n :: !ChangesSides(d, v, n))
  {
    hide UpdatedServices, ChangesSides;
    var w := UpdatedServices(d, v, epoch);
    var x := UpdatedServices(d, w, epoch');
    forall n
      ensures ChangesSides(d, v, n) <==> (n in x.s12 && n !in w.s12) || (n in x.s21 && n !in w.s21)
      ensures n in w.s12 ==> n in x.s12 && x.s12[n] == w.s12[n]
      ensures n in w.s21 ==> n in x.s21 && x.s21[n] == w.s21[n]
    {
      ChangingSidesTakesTwo(d, v, epoch, epoch', n);
    }
    if forall n :: !ChangesSides(d, v, n) {
      assert x.s12.Keys == w.s12.Keys && x.s21.Keys == w.s21.Keys;
      assert x.s12 == w.s12 && x.s21 == w.s21;
    }
  }

  /** Two updates always do. */
  lemma TwoUpdatesSuffice(d: ServiceSide, v: Services, epoch: nat, epoch': nat, epoch'': nat)
    requires Disjoint(v)
    ensures var w := UpdatedServices(d, UpdatedServices(d, v, epoch), epoch');
            UpdatedServices(d, w, epoch'') == w
  {
    var w := UpdatedServices(d, v, epoch);
    ServicesStayExclusive(d, v, epoch);
    forall n ensures !ChangesSides(d, w, n) {
      ExactServices(d, v, epoch, n);
    }
    OneUpdateSuffices(d, w, epoch', epoch'');
  }
}
