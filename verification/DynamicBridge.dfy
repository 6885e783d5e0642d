/** The bridge tables as the objects that `update_bridge` changes in place, with the loops of the
    source, proved against the pointwise specification of module Reconciler. */
module DynamicBridge {
  import opened Wrappers
  import opened Reconciler

  /** One topic table together with the endpoints that its bridges own in the middleware. */
  class TopicTable {
    var bridges: Topics
    var owned: set<Handle>

    constructor ()
      ensures Valid(0) && bridges == map[] && owned == {}
    {
      bridges := map[];
      owned := {};
    }

    /** Every owned endpoint belongs to an entry, every entry owns its endpoint, and nothing was
        created in an epoch that is still to come. */
    ghost predicate Valid(epoch: nat)
      reads this
    {
      && (forall t | t in bridges :: bridges[t].handle in owned && bridges[t].handle.name == t && bridges[t].handle.epoch < epoch)
      && (forall h | h in owned :: h.name in bridges && bridges[h.name].handle == h)
    }

    /** The bridge's own endpoints on a topic, as the ROS 2 graph counts them. */
    function OwnEndpoints(t: Name): set<Handle>
      reads this
    {
      set h | h in owned && h.name == t
    }

    /** The graph counts exactly one own endpoint on a bridged topic and none elsewhere: the
        number that the poll discounts. */
    lemma OwnEndpointsAreCounted(epoch: nat, t: Name)
      requires Valid(epoch)
      ensures |OwnEndpoints(t)| == if t in bridges then 1 else 0
    {
      if t in bridges {
        assert OwnEndpoints(t) == {bridges[t].handle};
      } else {
        assert OwnEndpoints(t) == {};
      }
    }

    /** `bridges.erase(topic_name)`, which destroys the endpoints. */
    method Erase(t: Name)
      requires t in bridges
      modifies this
      ensures bridges == old(bridges) - {t}
      ensures owned == old(owned) - {old(bridges)[t].handle}
    {
      owned := owned - {bridges[t].handle};
      bridges := bridges - {t};
    }

    /** The body of the creation loop for one topic. */
    method BridgeTopic(d: Side, epoch: nat, t: Name)
      requires Valid(epoch + 1) && t in d.publishers
      requires t in bridges ==> bridges[t].handle.epoch < epoch
      modifies this
      ensures Valid(epoch + 1)
      ensures forall u | u != t :: u in bridges <==> u in old(bridges)
      ensures forall u | u in bridges && u != t :: bridges[u] == old(bridges)[u]
      ensures t in bridges <==> Created(d, old(bridges), epoch, t).Some?
      ensures t in bridges ==> bridges[t] == Created(d, old(bridges), epoch, t).value
    {
      var source := d.publishers[t];
      var sink: TypeName;
      if t !in d.subscribers {
        if !d.all { return; }
        var mapped := d.lookup(source);
        if mapped.None? { return; }
        sink := mapped.value;
      } else {
        sink := d.subscribers[t];
      }
      if t in bridges {
        if bridges[t].source == source && (bridges[t].sink == sink || (d.wildcard && bridges[t].sink == "")) {
          return;
        }
        Erase(t);
      }
      if !d.creates(t, source, sink) { return; }
      var handle := Handle(epoch, t);
      owned := owned + {handle};
      bridges := bridges[t := Entry(source, sink, handle)];
    }

    /** The creation loop. */
    method CreateBridges(d: Side, epoch: nat)
      requires Valid(epoch)
      modifies this
      ensures Valid(epoch + 1)
      ensures bridges == CreatedTable(d, old(bridges), epoch)
    {
      hide Created;
      var todo := d.publishers.Keys;
      ghost var was := bridges;
      UnpublishedStay(d, was, epoch);
      while todo != {}
        invariant todo <= d.publishers.Keys && Valid(epoch + 1)
        invariant forall t | t in todo :: t in bridges <==> t in was
        invariant forall t | t in todo && t in bridges :: bridges[t] == was[t]
        invariant forall t | t !in todo :: t in bridges <==> Created(d, was, epoch, t).Some?
        invariant forall t | t !in todo && t in bridges :: bridges[t] == Created(d, was, epoch, t).value
        decreases todo
      {
        var t :| t in todo;
        todo := todo - {t};
        CreatedIsLocal(d, bridges, was, epoch, t);
        BridgeTopic(d, epoch, t);
      }
      assert bridges == CreatedTable(d, was, epoch);
    }

    /** The outcome for a topic depends on its own entry only. */
    lemma CreatedIsLocal(d: Side, a: Topics, b: Topics, epoch: nat, t: Name)
      requires (t in a <==> t in b) && (t in a ==> a[t] == b[t])
      ensures Created(d, a, epoch, t) == Created(d, b, epoch, t)
    {
    }

    lemma UnpublishedStay(d: Side, table: Topics, epoch: nat)
      ensures forall t | t !in d.publishers :: Created(d, table, epoch, t) == if t in table then Some(table[t]) else None
    {
    }

    /** The removal loops: the obsolete topics are collected first, then erased. */
    method RemoveObsolete(d: Side, epoch: nat)
      requires Valid(epoch)
      modifies this
      ensures Valid(epoch)
      ensures bridges == map t | t in old(bridges) && !Obsolete(d, t) :: old(bridges)[t]
    {
      var toBeRemoved := set t | t in bridges && (t !in d.publishers || (!d.all && t !in d.subscribers));
      ghost var doomed := toBeRemoved;
      while toBeRemoved != {}
        invariant toBeRemoved <= doomed && toBeRemoved <= bridges.Keys && Valid(epoch)
        invariant bridges == old(bridges) - (doomed - toBeRemoved)
        decreases toBeRemoved
      {
        var t :| t in toBeRemoved;
        toBeRemoved := toBeRemoved - {t};
        Erase(t);
      }
    }
  }

  /** The two service tables. */
  class ServiceTables {
    var s12: map<Name, Handle>
    var s21: map<Name, Handle>

    constructor ()
      ensures Contents() == Services(map[], map[])
    {
      s12, s21 := map[], map[];
    }

    function Contents(): Services
      reads this
    {
      Services(s12, s21)
    }

    method CreateFromRos1(d: ServiceSide, epoch: nat)
      modifies this
      ensures s12 == old(s12) && s21 == CreatedServices21(d, old(Contents()), epoch)
    {
      var todo := d.ros1.Keys;
      ghost var target := CreatedServices21(d, Contents(), epoch);
      while todo != {}
        invariant todo <= d.ros1.Keys && s12 == old(s12)
        invariant forall n | n in todo :: n in s21 <==> n in old(s21)
        invariant forall n | n !in todo :: n in s21 <==> n in target
        invariant forall n | n in s21 :: n in target && s21[n] == target[n]
        decreases todo
      {
        var name :| name in todo;
        todo := todo - {name};
        if name !in s21 && name !in s12 && d.creates21(name, d.ros1[name]) {
          s21 := s21[name := Handle(epoch, name)];
        }
      }
      assert s21 == target;
    }

    method CreateFromRos2(d: ServiceSide, epoch: nat)
      modifies this
      ensures s21 == old(s21) && s12 == CreatedServices12(d, old(Contents()), epoch)
    {
      var todo := d.ros2.Keys;
      ghost var target := CreatedServices12(d, Contents(), epoch);
      while todo != {}
        invariant todo <= d.ros2.Keys && s21 == old(s21)
        invariant forall n | n in todo :: n in s12 <==> n in old(s12)
        invariant forall n | n !in todo :: n in s12 <==> n in target
        invariant forall n | n in s12 :: n in target && s12[n] == target[n]
        decreases todo
      {
        var name :| name in todo;
        todo := todo - {name};
        if name !in s12 && name !in s21 && d.creates12(name, d.ros2[name]) {
          s12 := s12[name := Handle(epoch, name)];
        }
      }
      assert s12 == target;
    }

    /** The two erasing iterations. */
    method RemoveObsolete(d: ServiceSide)
      modifies this
      ensures s21 == Restrict(old(s21), d.ros1.Keys) && s12 == Restrict(old(s12), d.ros2.Keys)
    {
      var todo := s21.Keys;
      while todo != {}
        invariant todo <= s21.Keys && s12 == old(s12)
        invariant s21 == map n | n in old(s21) && (n in todo || n in d.ros1) :: old(s21)[n]
        decreases todo
      {
        var name :| name in todo;
        todo := todo - {name};
        if name !in d.ros1 { s21 := s21 - {name}; }
      }
      todo := s12.Keys;
      while todo != {}
        invariant todo <= s12.Keys && s21 == Restrict(old(s21), d.ros1.Keys)
        invariant s12 == map n | n in old(s12) && (n in todo || n in d.ros2) :: old(s12)[n]
        decreases todo
      {
        var name :| name in todo;
        todo := todo - {name};
        if name !in d.ros2 { s12 := s12 - {name}; }
      }
    }
  }

  class Bridge {
    const topics12: TopicTable
    const topics21: TopicTable
    const services: ServiceTables
    var epoch: nat

    constructor ()
      ensures Valid() && fresh(topics12) && fresh(topics21) && fresh(services)
      ensures topics12.bridges == map[] && topics21.bridges == map[] && services.Contents() == Services(map[], map[])
    {
      topics12 := new TopicTable();
      topics21 := new TopicTable();
      services := new ServiceTables();
      epoch := 0;
    }

    ghost predicate Valid()
      reads this, topics12, topics21, services
    {
      topics12 != topics21 && topics12.Valid(epoch) && topics21.Valid(epoch) && Disjoint(services.Contents())
    }

    /** `update_bridge`: both creation loops, both removals, then the services, under one lock. */
    method UpdateBridge(d12: Side, d21: Side, ds: ServiceSide)
      requires Valid()
      modifies this, topics12, topics21, services
      ensures Valid() && epoch == old(epoch) + 1
      ensures topics12.bridges == UpdatedTable(d12, old(topics12.bridges), old(epoch))
      ensures topics21.bridges == UpdatedTable(d21, old(topics21.bridges), old(epoch))
      ensures services.Contents() == UpdatedServices(ds, old(services.Contents()), old(epoch))
    {
      hide UpdatedTable, UpdatedServices;
      UpdateTopics(d12, d21);
      UpdateServices(ds);
      epoch := epoch + 1;
    }

    method UpdateTopics(d12: Side, d21: Side)
      requires topics12 != topics21 && topics12.Valid(epoch) && topics21.Valid(epoch)
      modifies topics12, topics21
      ensures topics12.Valid(epoch + 1) && topics21.Valid(epoch + 1)
      ensures topics12.bridges == UpdatedTable(d12, old(topics12.bridges), epoch)
      ensures topics21.bridges == UpdatedTable(d21, old(topics21.bridges), epoch)
    {
      ghost var was12, was21 := topics12.bridges, topics21.bridges;
      topics12.CreateBridges(d12, epoch);
      topics21.CreateBridges(d21, epoch);
      topics12.RemoveObsolete(d12, epoch + 1);
      topics21.RemoveObsolete(d21, epoch + 1);
      RemovalCompletes(d12, was12, epoch);
      RemovalCompletes(d21, was21, epoch);
    }

    method UpdateServices(ds: ServiceSide)
      requires Disjoint(services.Contents())
      modifies services
      ensures services.Contents() == UpdatedServices(ds, old(services.Contents()), epoch)
      ensures Disjoint(services.Contents())
    {
      ghost var was := services.Contents();
      services.CreateFromRos1(ds, epoch);
      services.CreateFromRos2(ds, epoch);
      services.RemoveObsolete(ds);
      ServicesStayExclusive(ds, was, epoch);
    }

    /** Creating and then removing is the pointwise update. */
    lemma RemovalCompletes(d: Side, table: Topics, epoch: nat)
      ensures var created := CreatedTable(d, table, epoch);
              (map t | t in created && !Obsolete(d, t) :: created[t]) == UpdatedTable(d, table, epoch)
    {
    }
  }
}
