/** The topological ordering of the message mappings in `generate_messages`. */
module Ordering {
  datatype Message = Message(package: string, name: string)

  /** A mapping object, whose dependency set the ordering consumes. `recorded` remembers the
      dependencies as they were recorded. */
  class Mapping {
    const ros1: Message
    const ros2: Message
    ghost const recorded: set<Message>
    var depends: set<Message>

    constructor (ros1: Message, ros2: Message, depends: set<Message>)
      ensures this.ros1 == ros1 && this.ros2 == ros2 && this.depends == depends && recorded == depends
    {
      this.ros1, this.ros2, this.depends, this.recorded := ros1, ros2, depends, depends;
    }
  }

  /** The ROS 2 messages of some mappings. */
  ghost function Provided(ms: set<Mapping>): set<Message> {
    set m | m in ms :: m.ros2
  }

  ghost function Elements(ms: seq<Mapping>): set<Mapping> {
    set m | m in ms
  }

  predicate Distinct(ms: seq<Mapping>) {
    forall i, j | 0 <= i < j < |ms| :: ms[i] != ms[j]
  }

  /** Every recorded dependency is the ROS 2 message of a strictly earlier mapping. */
  ghost predicate Topological(ms: seq<Mapping>) {
    forall k | 0 <= k < |ms| :: ms[k].recorded <= Provided(Elements(ms[..k]))
  }

  /** A set that contains every mapping of `all` whose recorded dependencies it provides. */
  ghost predicate Closed(all: set<Mapping>, some: set<Mapping>) {
    forall m | m in all && m.recorded <= Provided(some) :: m in some
  }

  // ----- the result is the least closed set -----

  lemma {:induction false} InEveryClosedSet(ms: seq<Mapping>, all: set<Mapping>, some: set<Mapping>, k: nat)
    requires Topological(ms) && Elements(ms) <= all && Closed(all, some) && k <= |ms|
    ensures Elements(ms[..k]) <= some
    decreases k
  {
    if k > 0 {
      InEveryClosedSet(ms, all, some, k - 1);
      var m := ms[k - 1];
      assert m in ms && m in Elements(ms);
      assert m.recorded <= Provided(Elements(ms[..k - 1])) <= Provided(some);
      forall x | x in Elements(ms[..k]) ensures x in some {
        var i :| 0 <= i < k && ms[..k][i] == x;
        if i < k - 1 { assert ms[..k - 1][i] == x; }
      }
    }
  }

  /** A topologically ordered list at which no further mapping is ready is the least closed set,
      however the ready mappings were picked. */
  lemma OrderedIsLeastClosed(ms: seq<Mapping>, rest: set<Mapping>, all: set<Mapping>)
    requires Topological(ms) && all == Elements(ms) + rest
    requires forall m | m in rest :: !(m.recorded <= Provided(Elements(ms)))
    ensures Closed(all, Elements(ms))
    ensures forall some: set<Mapping> | Closed(all, some) :: Elements(ms) <= some
  {
    forall some: set<Mapping> | Closed(all, some) ensures Elements(ms) <= some {
      InEveryClosedSet(ms, all, some, |ms|);
      assert ms[..|ms|] == ms;
    }
  }

  /** Two maximal topological orders of the same mappings contain the same mappings. */
  lemma PickDoesNotMatter(ms: seq<Mapping>, rest: set<Mapping>, ms': seq<Mapping>, rest': set<Mapping>)
    requires Topological(ms) && Topological(ms') && Elements(ms) + rest == Elements(ms') + rest'
    requires forall m | m in rest :: !(m.recorded <= Provided(Elements(ms)))
    requires forall m | m in rest' :: !(m.recorded <= Provided(Elements(ms')))
    ensures Elements(ms) == Elements(ms')
  {
    var all := Elements(ms) + rest;
    OrderedIsLeastClosed(ms, rest, all);
    OrderedIsLeastClosed(ms', rest', all);
  }

  // ----- the loop -----

  /** The first mapping without unsatisfied dependencies, or the length if there is none. */
  method FirstReady(mappings: seq<Mapping>) returns (i: nat)
    ensures i <= |mappings|
    ensures i < |mappings| ==> mappings[i].depends == {} && forall j | 0 <= j < i :: mappings[j].depends != {}
    ensures i == |mappings| ==> forall m | m in mappings :: m.depends != {}
  {
    i := 0;
    while i < |mappings|
      invariant i <= |mappings| && forall j | 0 <= j < i :: mappings[j].depends != {}
    {
      if mappings[i].depends == {} { return; }
      i := i + 1;
    }
  }

  /** Removes a message from the dependencies of the remaining mappings. */
  method Satisfy(mappings: seq<Mapping>, ros2: Message)
    requires Distinct(mappings)
    modifies Elements(mappings)
    ensures forall m | m in mappings :: m.depends == old(m.depends) - {ros2}
  {
    var j := 0;
    while j < |mappings|
      invariant j <= |mappings|
      invariant forall i | 0 <= i < j :: mappings[i].depends == old(mappings[i].depends) - {ros2}
      invariant forall i | j <= i < |mappings| :: mappings[i].depends == old(mappings[i].depends)
    {
      if ros2 in mappings[j].depends {
        mappings[j].depends := mappings[j].depends - {ros2};
      }
      j := j + 1;
    }
  }

  /** The whole loop. The ordered mappings come in topological order and are exactly the least
      closed set; ordered and leftover mappings are the input, rearranged; every leftover is
      still waiting for exactly those of its dependencies that no ordered mapping provides. */
  method OrderMappings(input: seq<Mapping>) returns (ordered: seq<Mapping>, leftover: seq<Mapping>)
    requires Distinct(input) && forall m | m in input :: m.depends == m.recorded
    modifies Elements(input)
    ensures multiset(ordered) + multiset(leftover) == multiset(input)
    ensures Topological(ordered)
    ensures forall m | m in leftover :: m.depends == m.recorded - Provided(Elements(ordered)) && m.depends != {}
    ensures Closed(Elements(input), Elements(ordered))
    ensures forall some: set<Mapping> | Closed(Elements(input), some) :: Elements(ordered) <= some
  {
    hide Topological, Closed, Provided, Distinct;
    var mappings := input;
    ordered := [];
    NothingOrdered();
    while mappings != []
      invariant Distinct(mappings) && Elements(mappings) <= Elements(input)
      invariant multiset(ordered) + multiset(mappings) == multiset(input)
      invariant Topological(ordered)
      invariant forall m | m in mappings :: m.depends == m.recorded - Provided(Elements(ordered))
      decreases |mappings|
    {
      var i := FirstReady(mappings);
      if i == |mappings| { break; }
      var m := mappings[i];
      NothingLeft(m.recorded, Provided(Elements(ordered)));
      MoveOne(mappings, ordered, i);
      mappings := mappings[..i] + mappings[i + 1..];
      ordered := ordered + [m];
      Satisfy(mappings, m.ros2);
    }
    leftover := mappings;
    SplitElements(input, ordered, leftover);
    forall m | m in Elements(leftover) ensures !(m.recorded <= Provided(Elements(ordered))) {
      assert m.depends != {};
      NothingLeft(m.recorded, Provided(Elements(ordered)));
    }
    OrderedIsLeastClosed(ordered, Elements(leftover), Elements(input));
  }

  lemma NothingOrdered()
    ensures Topological([]) && Provided(Elements([])) == {}
  {}

  lemma NothingLeft(recorded: set<Message>, provided: set<Message>)
    ensures recorded - provided == {} <==> recorded <= provided
  {
    assert forall d | d in recorded :: d in recorded - provided || d in provided;
  }

  lemma SplitElements(input: seq<Mapping>, ordered: seq<Mapping>, leftover: seq<Mapping>)
    requires multiset(ordered) + multiset(leftover) == multiset(input)
    ensures Elements(input) == Elements(ordered) + Elements(leftover)
  {
    assert forall x :: x in input <==> x in multiset(input);
    assert forall x :: x in multiset(input) <==> x in multiset(ordered) || x in multiset(leftover);
  }

  /** Moving a ready mapping to the end of the ordered list. */
  lemma MoveOne(mappings: seq<Mapping>, ordered: seq<Mapping>, i: nat)
    requires i < |mappings| && Distinct(mappings) && Topological(ordered)
    requires mappings[i].recorded <= Provided(Elements(ordered))
    ensures var rest, more := mappings[..i] + mappings[i + 1..], ordered + [mappings[i]];
            && Distinct(rest) && Elements(rest) <= Elements(mappings) && Topological(more)
            && multiset(more) + multiset(rest) == multiset(ordered) + multiset(mappings)
            && Provided(Elements(more)) == Provided(Elements(ordered)) + {mappings[i].ros2}
  {
    var m := mappings[i];
    var rest, more := mappings[..i] + mappings[i + 1..], ordered + [m];
    assert mappings == mappings[..i] + [m] + mappings[i + 1..];
    assert forall k | 0 <= k < |rest| :: rest[k] == mappings[if k < i then k else k + 1];
    assert Elements(more) == Elements(ordered) + {m};
    forall k | 0 <= k < |more| ensures more[k].recorded <= Provided(Elements(more[..k])) {
      assert more[..k] == ordered[..k];
      if k == |ordered| { assert ordered[..k] == ordered; }
    }
    forall d ensures d in Provided(Elements(more)) <==> d in Provided(Elements(ordered)) + {m.ros2} {
    }
  }
}
