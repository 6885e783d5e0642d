/** What the dictionaries that the generator builds mean for the first diagram. */
module MappingLimits {
  import opened Schema
  import opened Conversion
  import opened Ros1Wire
  import opened DirectStream
  import opened Layout
  import opened WriteLimits
  import opened FieldMapping

  // ----- from dictionaries of names to a schema -----

  function FieldAt(fields: seq<string>, name: string): (i: nat)
    ensures i <= |fields| && (i < |fields| ==> fields[i] == name) && forall j | 0 <= j < i :: fields[j] != name
  {
    if fields == [] || fields[0] == name then 0 else 1 + FieldAt(fields[1..], name)
  }

  function MemberAt(members: seq<Member>, m: Member): (i: nat)
    ensures i <= |members| && (i < |members| ==> members[i] == m) && forall j | 0 <= j < i :: members[j] != m
  {
    if members == [] || members[0] == m then 0 else 1 + MemberAt(members[1..], m)
  }

  /** The pair of positions that an entry of a dictionary stands for; selections of several levels
      have none. */
  function PairOf(fields: seq<string>, members: seq<Member>, ros1: Fields1, ros2: Members2): Pair {
    Pair(if |ros1| == 1 then FieldAt(fields, ros1[0]) else |fields|,
         if |ros2| == 1 then MemberAt(members, ros2[0]) else |members|)
  }

  function Pairs12(fields: seq<string>, members: seq<Member>, d: seq<(Fields1, Members2)>): (r: seq<Pair>)
    ensures |r| == |d| && forall k | 0 <= k < |d| :: r[k] == PairOf(fields, members, d[k].0, d[k].1)
  {
    seq(|d|, k requires 0 <= k < |d| => PairOf(fields, members, d[k].0, d[k].1))
  }

  function Pairs21(fields: seq<string>, members: seq<Member>, d: seq<(Members2, Fields1)>): (r: seq<Pair>)
    ensures |r| == |d| && forall k | 0 <= k < |d| :: r[k] == PairOf(fields, members, d[k].1, d[k].0)
  {
    seq(|d|, k requires 0 <= k < |d| => PairOf(fields, members, d[k].1, d[k].0))
  }

  /** The schema of a message with fields of these types, mapped by these assignments. */
  function SchemaOf(fields: seq<string>, members: seq<Member>, types: seq<Schema>,
      entries: seq<(Fields1, Members2)>, defaults: seq<Value>): Schema
  {
    Record(types, Pairs12(fields, members, PutAll(entries, |entries|)),
           Pairs21(fields, members, PutAll(Swapped(entries), |entries|)), defaults)
  }

  /** Without manual rules. */
  function NameBased(fields: seq<string>, members: seq<Member>, types: seq<Schema>, defaults: seq<Value>): Schema {
    SchemaOf(fields, members, types, Assignments(fields, members, []), defaults)
  }

  /** The message is generated without the missing-field flag. */
  ghost predicate Unflagged(fields: seq<string>, members: seq<Member>, types: seq<Schema>, defaults: seq<Value>) {
    && DistinctNames(fields) && !SomeLeftOver([], members, fields) && |types| == |fields|
    && WellFormed(NameBased(fields, members, types, defaults))
  }

  /** All field types are mapped by name, with nothing missing and without collisions. */
  ghost predicate AllCovered(types: seq<Schema>) {
    forall i | 0 <= i < |types| :: Covered(types[i])
  }

  /** Two ROS 1 fields whose names differ only in case take no bytes. */
  ghost predicate CollisionsAreEmpty(fields: seq<string>, types: seq<Schema>)
    requires |types| == |fields|
  {
    forall i, j | 0 <= i < j < |fields| && Lower(fields[i]) == Lower(fields[j]) :: Width(types[i]) == 0
  }

  // ----- the dictionaries of an unflagged name-based mapping -----

  predicate AllMatched(fields: seq<string>, members: seq<Member>) {
    DistinctNames(fields) && forall i | 0 <= i < |fields| :: HasMember(members, fields[i])
  }

  /** The member that field `i` is matched with. */
  function MatchOf(fields: seq<string>, members: seq<Member>, i: nat): (m: Member)
    requires AllMatched(fields, members) && i < |fields|
    ensures m in members && m.name == Lower(fields[i])
  {
    members[FirstMember(members, fields[i])]
  }

  /** The assignments to the ROS 2 to ROS 1 dictionary. */
  function Matches(fields: seq<string>, members: seq<Member>): (e: seq<(Members2, Fields1)>)
    requires AllMatched(fields, members)
    ensures |e| == |fields| && forall i | 0 <= i < |e| :: e[i] == ([MatchOf(fields, members, i)], [fields[i]])
  {
    seq(|fields|, i requires 0 <= i < |fields| => ([MatchOf(fields, members, i)], [fields[i]]))
  }

  lemma MatchesAreNamePairs(fields: seq<string>, members: seq<Member>)
    requires AllMatched(fields, members)
    ensures Swapped(NamePairs(fields, members, |fields|)) == Matches(fields, members)
  {
    AllPairs(fields, members, |fields|);
  }

  /** Entry `d` was assigned for field `i`, last of all fields below `n` with that member. */
  predicate LastFor(fields: seq<string>, members: seq<Member>, d: (Members2, Fields1), i: nat, n: nat)
    requires AllMatched(fields, members) && n <= |fields|
  {
    && i < n && d == ([MatchOf(fields, members, i)], [fields[i]])
    && forall l | 0 <= l < n && MatchOf(fields, members, l) == MatchOf(fields, members, i) :: l <= i
  }

  /** The ROS 2 to ROS 1 dictionary after the first `n` fields. */
  function DictionaryAfter(fields: seq<string>, members: seq<Member>, n: nat): seq<(Members2, Fields1)>
    requires AllMatched(fields, members) && n <= |fields|
  {
    PutAll(Matches(fields, members), n)
  }

  /** Where it then has the member of field `n`, if it has it. */
  function PlaceOf(fields: seq<string>, members: seq<Member>, n: nat): nat
    requires AllMatched(fields, members) && n < |fields|
  {
    KeyIndex(DictionaryAfter(fields, members, n), [MatchOf(fields, members, n)])
  }

  lemma DictionaryOfNext(fields: seq<string>, members: seq<Member>, n: nat)
    requires AllMatched(fields, members) && n < |fields|
    ensures var d, k := DictionaryAfter(fields, members, n), PlaceOf(fields, members, n);
            var entry := ([MatchOf(fields, members, n)], [fields[n]]);
            && DictionaryAfter(fields, members, n + 1) == (if k < |d| then d[k := entry] else d + [entry])
            && (k < |d| ==> d[k].0 == entry.0) && forall l | 0 <= l < |d| && l != k :: d[l].0 != entry.0
  {
    PutAllHasDistinctKeys(Matches(fields, members), n);
    hide MatchOf;
    var d, k := DictionaryAfter(fields, members, n), PlaceOf(fields, members, n);
    forall l | 0 <= l < |d| && l != k ensures d[l].0 != [MatchOf(fields, members, n)] {
      if l < k {
      } else {
        assert d[k].0 != d[l].0;
      }
    }
  }

  /** The ROS 1 fields in the order of that dictionary. */
  function OrderAfter(fields: seq<string>, members: seq<Member>, n: nat): (order: seq<nat>)
    requires AllMatched(fields, members) && n <= |fields|
    ensures Indices(order, n)
  {
    if n == 0 then []
    else
      var before, k := OrderAfter(fields, members, n - 1), PlaceOf(fields, members, n - 1);
      if k < |before| then before[k := n - 1] else before + [n - 1]
  }

  predicate AllLast(fields: seq<string>, members: seq<Member>, d: seq<(Members2, Fields1)>, order: seq<nat>, n: nat)
    requires AllMatched(fields, members) && n <= |fields|
  {
    |d| == |order| && forall k | 0 <= k < |d| :: LastFor(fields, members, d[k], order[k], n)
  }

  lemma {:induction false} EveryEntryIsLast(fields: seq<string>, members: seq<Member>, n: nat)
    requires AllMatched(fields, members) && n <= |fields|
    ensures AllLast(fields, members, DictionaryAfter(fields, members, n), OrderAfter(fields, members, n), n)
  {
    hide *;
    if n == 0 {
      EmptyDictionary(fields, members);
    } else {
      EveryEntryIsLast(fields, members, n - 1);
      DictionaryOfNext(fields, members, n - 1);
      OrderOfNext(fields, members, n - 1);
      SameLength(fields, members, n - 1);
      AllStayLast(fields, members, DictionaryAfter(fields, members, n - 1), OrderAfter(fields, members, n - 1),
                  PlaceOf(fields, members, n - 1), n - 1, DictionaryAfter(fields, members, n), OrderAfter(fields, members, n));
    }
  }

  lemma OrderOfNext(fields: seq<string>, members: seq<Member>, n: nat)
    requires AllMatched(fields, members) && n < |fields|
    ensures var order, k := OrderAfter(fields, members, n), PlaceOf(fields, members, n);
            OrderAfter(fields, members, n + 1) == if k < |order| then order[k := n] else order + [n]
  {
    hide PlaceOf, AllMatched;
  }

  lemma SameLength(fields: seq<string>, members: seq<Member>, n: nat)
    requires AllMatched(fields, members) && n <= |fields|
    requires AllLast(fields, members, DictionaryAfter(fields, members, n), OrderAfter(fields, members, n), n)
    ensures |DictionaryAfter(fields, members, n)| == |OrderAfter(fields, members, n)|
  {
  }

  /** Assigning field `n`, at place `k` if there is one and at the end otherwise. */
  lemma AllStayLast(fields: seq<string>, members: seq<Member>, d: seq<(Members2, Fields1)>, order: seq<nat>, k: nat, n: nat,
      d': seq<(Members2, Fields1)>, order': seq<nat>)
    requires AllMatched(fields, members) && n < |fields| && AllLast(fields, members, d, order, n)
    requires forall l | 0 <= l < |d| && l != k :: d[l].0 != [MatchOf(fields, members, n)]
    requires var entry := ([MatchOf(fields, members, n)], [fields[n]]);
             d' == (if k < |d| then d[k := entry] else d + [entry]) && order' == if k < |order| then order[k := n] else order + [n]
    ensures AllLast(fields, members, d', order', n + 1)
  {
    hide MatchOf, AllMatched, LastFor;
    NextIsLast(fields, members, n);
    forall l | 0 <= l < |d| && l != k ensures LastFor(fields, members, d[l], order[l], n + 1) {
      StaysLast(fields, members, d[l], order[l], n);
    }
  }

  lemma StaysLast(fields: seq<string>, members: seq<Member>, d: (Members2, Fields1), i: nat, n: nat)
    requires AllMatched(fields, members) && n < |fields| && LastFor(fields, members, d, i, n)
    requires d.0 != [MatchOf(fields, members, n)]
    ensures LastFor(fields, members, d, i, n + 1)
  {
    hide MatchOf, AllMatched;
  }

  lemma NextIsLast(fields: seq<string>, members: seq<Member>, n: nat)
    requires AllMatched(fields, members) && n < |fields|
    ensures LastFor(fields, members, ([MatchOf(fields, members, n)], [fields[n]]), n, n + 1)
  {
    hide MatchOf, AllMatched;
  }

  lemma EmptyDictionary(fields: seq<string>, members: seq<Member>)
    requires AllMatched(fields, members)
    ensures AllLast(fields, members, DictionaryAfter(fields, members, 0), OrderAfter(fields, members, 0), 0)
  {
  }

  /** If colliding fields take no bytes, the dictionary has the others in declaration order. */
  lemma {:induction false} VisibleInOrder(fields: seq<string>, members: seq<Member>, widths: seq<nat>, n: nat)
    requires AllMatched(fields, members) && n <= |fields| == |widths|
    requires forall i, j | 0 <= i < j < |fields| && Lower(fields[i]) == Lower(fields[j]) :: widths[i] == 0 && widths[j] == 0
    ensures Visible(widths, OrderAfter(fields, members, n)) == Visible(widths, Declared(n))
  {
    hide MatchOf, PutAll, KeyIndex, Matches, AllMatched, DictionaryAfter, Visible, Lower;
    if n > 0 {
      VisibleInOrder(fields, members, widths, n - 1);
      var before, k := OrderAfter(fields, members, n - 1), PlaceOf(fields, members, n - 1);
      assert Declared(n) == Declared(n - 1) + [n - 1];
      VisibleOfNext(widths, Declared(n - 1), n - 1);
      if k < |before| {
        CollidesWithNext(fields, members, n - 1);
        VisibleOfUpdate(widths, before, k, n - 1);
      } else {
        VisibleOfNext(widths, before, n - 1);
      }
    } else {
      assert Declared(0) == [];
    }
  }

  lemma CollidesWithNext(fields: seq<string>, members: seq<Member>, n: nat)
    requires AllMatched(fields, members) && n < |fields|
    requires PlaceOf(fields, members, n) < |OrderAfter(fields, members, n)|
    ensures var i := OrderAfter(fields, members, n)[PlaceOf(fields, members, n)];
            i < n && Lower(fields[i]) == Lower(fields[n])
  {
    EveryEntryIsLast(fields, members, n);
    DictionaryOfNext(fields, members, n);
    hide MatchOf, PutAll, KeyIndex, Matches, AllMatched, DictionaryAfter, OrderAfter, PlaceOf, Lower;
    var d, order, k := DictionaryAfter(fields, members, n), OrderAfter(fields, members, n), PlaceOf(fields, members, n);
    assert LastFor(fields, members, d[k], order[k], n);
    assert d[k].0[0] == MatchOf(fields, members, n) && d[k].0[0] == MatchOf(fields, members, order[k]);
  }

  // ----- the exact condition for name-based mappings -----

  lemma FieldAtName(fields: seq<string>, i: nat)
    requires DistinctNames(fields) && i < |fields|
    ensures FieldAt(fields, fields[i]) == i
  {
    var j := FieldAt(fields, fields[i]);
    assert j <= i;
  }

  /** The dictionaries of an unflagged name-based mapping, as pairs of positions. */
  lemma NameBasedPairs(fields: seq<string>, members: seq<Member>, types: seq<Schema>, defaults: seq<Value>)
    requires DistinctNames(fields) && !SomeLeftOver([], members, fields)
    ensures AllMatched(fields, members)
    ensures var s := NameBased(fields, members, types, defaults);
            && s.pairs21 == Pairs21(fields, members, DictionaryAfter(fields, members, |fields|))
            && |s.pairs12| == |fields|
            && forall i | 0 <= i < |fields| :: s.pairs12[i] == Pair(i, MemberAt(members, MatchOf(fields, members, i)))
  {
    forall i | 0 <= i < |fields| ensures HasMember(members, fields[i]) {
      assert !LeftOver([], members, fields[i]);
    }
    AllPairs(fields, members, |fields|);
    MatchesAreNamePairs(fields, members);
    ForwardInDeclarationOrder(fields, members);
    var e := NamePairs(fields, members, |fields|);
    assert Assignments(fields, members, []) == e;
    hide NamePairs, PutAll, Matches, HasMember, FirstMember;
    forall i | 0 <= i < |fields| ensures PairOf(fields, members, e[i].0, e[i].1) == Pair(i, MemberAt(members, MatchOf(fields, members, i))) {
      FieldAtName(fields, i);
    }
  }

  lemma OrderOfPairs(fields: seq<string>, members: seq<Member>)
    requires AllMatched(fields, members)
    ensures var p := Pairs21(fields, members, DictionaryAfter(fields, members, |fields|));
            DictionaryOrder(p) == OrderAfter(fields, members, |fields|) && KeysDistinct(p) && Distinct(DictionaryOrder(p))
  {
    EveryEntryIsLast(fields, members, |fields|);
    PutAllHasDistinctKeys(Matches(fields, members), |fields|);
    var d, order := DictionaryAfter(fields, members, |fields|), OrderAfter(fields, members, |fields|);
    assert DistinctKeys(d);
    hide MatchOf, PutAll, Matches, DictionaryAfter, OrderAfter;
    var p := Pairs21(fields, members, d);
    forall k | 0 <= k < |d| ensures p[k].ros1 == order[k] && p[k].ros2 < |members| && d[k].0 == [members[p[k].ros2]] {
      assert LastFor(fields, members, d[k], order[k], |fields|);
      FieldAtName(fields, order[k]);
      MemberAtIsFound(members, MatchOf(fields, members, order[k]));
    }
    forall k, l | 0 <= k < l < |d| ensures p[k].ros1 != p[l].ros1 && p[k].ros2 != p[l].ros2 {
      assert d[k].0 != d[l].0;
      assert LastFor(fields, members, d[k], order[k], |fields|) && LastFor(fields, members, d[l], order[l], |fields|);
    }
  }

  lemma {:induction false} MemberAtIsFound(members: seq<Member>, m: Member)
    requires m in members
    ensures MemberAt(members, m) < |members|
  {
    if members[0] != m {
      MemberAtIsFound(members[1..], m);
    }
  }

  /** A field with a later namesake is left out of the dictionary. */
  lemma ColliderIsLeftOut(fields: seq<string>, members: seq<Member>, i: nat, j: nat)
    requires AllMatched(fields, members) && i < j < |fields| && Lower(fields[i]) == Lower(fields[j])
    ensures i !in OrderAfter(fields, members, |fields|)
  {
    EveryEntryIsLast(fields, members, |fields|);
    SameFirstMember(members, fields[i], fields[j]);
    assert MatchOf(fields, members, i) == MatchOf(fields, members, j);
    hide MatchOf, PutAll, Matches, DictionaryAfter, OrderAfter;
    var d, order := DictionaryAfter(fields, members, |fields|), OrderAfter(fields, members, |fields|);
    forall k | 0 <= k < |order| ensures order[k] != i {
      assert LastFor(fields, members, d[k], order[k], |fields|);
    }
  }

  /** Colliding fields have the same type, that of their common member. */
  lemma CollidersHaveOneType(fields: seq<string>, members: seq<Member>, types: seq<Schema>, defaults: seq<Value>, i: nat, j: nat)
    requires Unflagged(fields, members, types, defaults) && i < j < |fields| && Lower(fields[i]) == Lower(fields[j])
    ensures types[i] == types[j]
  {
    NameBasedPairs(fields, members, types, defaults);
    SameFirstMember(members, fields[i], fields[j]);
    assert MatchOf(fields, members, i) == MatchOf(fields, members, j);
    var s := NameBased(fields, members, types, defaults);
    assert s.fields == types && OneTypeEach(s.fields, s.pairs12, s.pairs12);
    hide WellFormed, NameBased, MatchOf, DictionaryAfter, MemberAt, OneTypeEach;
    OneTypePerMember(s.fields, s.pairs12, i, j);
  }

  lemma OneTypePerMember(fs: seq<Schema>, p: seq<Pair>, k: nat, l: nat)
    requires OneTypeEach(fs, p, p) && k < |p| && l < |p| && p[k].ros2 == p[l].ros2
    ensures p[k].ros1 < |fs| && p[l].ros1 < |fs| && fs[p[k].ros1] == fs[p[l].ros1]
  {
  }

  lemma NameBasedIsComposed(fields: seq<string>, members: seq<Member>, types: seq<Schema>, defaults: seq<Value>)
    requires Unflagged(fields, members, types, defaults) && AllCovered(types)
    ensures AllMatched(fields, members)
    ensures var s := NameBased(fields, members, types, defaults);
            && Composed(s) && !FieldMissing(s.fields, s.pairs12)
            && DictionaryOrder(s.pairs21) == OrderAfter(fields, members, |fields|) && Distinct(DictionaryOrder(s.pairs21))
  {
    NameBasedPairs(fields, members, types, defaults);
    OrderOfPairs(fields, members);
    hide WellFormed, Covered, DictionaryAfter, OrderAfter, MatchOf;
    var s := NameBased(fields, members, types, defaults);
    forall i | 0 <= i < |types| ensures Mentions(s.pairs12, i) {
      assert s.pairs12[i].ros1 == i;
    }
  }

  /** For a name-based mapping without the missing-field flag, the first diagram holds for every
      message if and only if ROS 1 names that differ only in case belong to fields without bytes; if
      not, the direct stream is too short for every message. */
  lemma NameBasedDiagramIff(fields: seq<string>, members: seq<Member>, types: seq<Schema>, defaults: seq<Value>)
    requires Unflagged(fields, members, types, defaults) && AllCovered(types)
    ensures var s := NameBased(fields, members, types, defaults);
            && ((forall v2 | HasType2(s, v2) :: Commutes(s, v2)) <==> CollisionsAreEmpty(fields, types))
            && (!CollisionsAreEmpty(fields, types) ==> forall v2 | HasType2(s, v2) ::
                  Write(s, v2).Some? && |Write(s, v2).value| < |Enc1(s, To1(s, v2, Fresh1(s)))|)
  {
    var s := NameBased(fields, members, types, defaults);
    NameBasedIsComposed(fields, members, types, defaults);
    if CollisionsAreEmpty(fields, types) {
      EmptyCollisionsLayOut(fields, members, types, defaults);
      DiagramIffLaidOutAsDeclared(s);
    } else {
      var i, j :| 0 <= i < j < |fields| && Lower(fields[i]) == Lower(fields[j]) && Width(types[i]) != 0;
      ColliderIsLeftOut(fields, members, i, j);
      hide Composed, FieldMissing, HasType2, NameBased, OrderAfter, Write, Enc1, To1, Fresh1;
      forall v2 | HasType2(s, v2)
        ensures Write(s, v2).Some? && |Write(s, v2).value| < |Enc1(s, To1(s, v2, Fresh1(s)))|
      {
        LeftOutFieldShortens(s, i, v2);
      }
      var v2 := MarkedMessage(s, |s.pairs21|);
      assert !Commutes(s, v2);
    }
  }

  /** The fields with bytes are then in declaration order. */
  lemma EmptyCollisionsAreInvisible(fields: seq<string>, members: seq<Member>, types: seq<Schema>, defaults: seq<Value>)
    requires Unflagged(fields, members, types, defaults) && CollisionsAreEmpty(fields, types)
    ensures AllMatched(fields, members)
    ensures var widths := Widths(Parts(NameBased(fields, members, types, defaults)));
            Visible(widths, OrderAfter(fields, members, |fields|)) == Visible(widths, Declared(|fields|))
  {
    NameBasedPairs(fields, members, types, defaults);
    var widths := Widths(Parts(NameBased(fields, members, types, defaults)));
    forall i, j | 0 <= i < j < |fields| && Lower(fields[i]) == Lower(fields[j]) ensures widths[i] == 0 && widths[j] == 0 {
      CollidersHaveOneType(fields, members, types, defaults, i, j);
    }
    VisibleInOrder(fields, members, widths, |fields|);
  }

  lemma EmptyCollisionsLayOut(fields: seq<string>, members: seq<Member>, types: seq<Schema>, defaults: seq<Value>)
    requires Unflagged(fields, members, types, defaults) && AllCovered(types) && CollisionsAreEmpty(fields, types)
    ensures var s := NameBased(fields, members, types, defaults); Composed(s) && LaidOutAsDeclared(s)
  {
    var s := NameBased(fields, members, types, defaults);
    NameBasedIsComposed(fields, members, types, defaults);
    OrderIndexes(s);
    VaryingPartsHaveWidth(s);
    hide Unflagged, NameBased, Composed, CanVary, Visible, OrderAfter, SameLayout;
    EmptyCollisionsAreInvisible(fields, members, types, defaults);
    SameVisibleSameLayout(Parts(s), Declared(|fields|), OrderAfter(fields, members, |fields|));
  }

  /** Such collisions are among the mappings that the generator accepts. */
  lemma CollisionsOccur(a: Member)
    requires a == Member("a", Plain)
    ensures Unflagged(["A", "a"], [a], [Bool, Bool], [Num(0)]) && AllCovered([Bool, Bool]) && !CollisionsAreEmpty(["A", "a"], [Bool, Bool])
  {
    var fields, members, types := ["A", "a"], [a], [Bool, Bool];
    assert Lower("A") == "a" && Lower("a") == "a";
    assert MatchesMember(fields[0], members[0]) && MatchesMember(fields[1], members[0]);
    assert Width(Bool) == 1;
    assert Lower(fields[0]) == Lower(fields[1]) && Width(types[0]) != 0;
    NameBasedPairs(fields, members, types, [Num(0)]);
    OrderOfPairs(fields, members);
    TwoBoolsWellFormed(NameBased(fields, members, types, [Num(0)]));
  }

  /** Any dictionaries between two bool fields and bool members are well formed. */
  lemma TwoBoolsWellFormed(s: Schema)
    requires s.Record? && s.fields == [Bool, Bool] && forall j | 0 <= j < |s.defaults| :: s.defaults[j] == Num(0)
    requires forall k | 0 <= k < |s.pairs12| :: s.pairs12[k].ros1 < 2 && s.pairs12[k].ros2 < |s.defaults|
    requires forall k | 0 <= k < |s.pairs21| :: s.pairs21[k].ros1 < 2 && s.pairs21[k].ros2 < |s.defaults|
    ensures WellFormed(s)
  {
    var fs, p12, p21 := s.fields, s.pairs12, s.pairs21;
    assert HasType2(Bool, Num(0)) && WellFormed(Bool);
    hide HasType2;
    assert MembersHaveType2(fs, p12, s.defaults) && MembersHaveType2(fs, p21, s.defaults);
    assert OneTypeEach(fs, p12, p12) && OneTypeEach(fs, p12, p21) && OneTypeEach(fs, p21, p21);
    hide MembersHaveType2, OneTypeEach;
  }

  // ----- a manual rule -----

  /** The manual rule that maps the first of two fields to the second member of the other's name. */
  function CrossedRule(b: Member): seq<(Fields1, Members2)> {
    [(["a"], [b])]
  }

  /** With that rule, the diagram fails for some message of every two field types that can vary. */
  lemma ManualRuleBreaksDiagram(a: Member, b: Member, types: seq<Schema>, defaults: seq<Value>) returns (v2: Value)
    requires a == Member("a", Plain) && b == Member("b", Plain) && |types| == 2
    requires WellFormed(SchemaOf(["a", "b"], [a, b], types, Assignments(["a", "b"], [a, b], CrossedRule(b)), defaults))
    requires Covered(types[0]) && Covered(types[1]) && CanVary(types[0]) && CanVary(types[1])
    ensures var s := SchemaOf(["a", "b"], [a, b], types, Assignments(["a", "b"], [a, b], CrossedRule(b)), defaults);
            !FieldMissing(s.fields, s.pairs12) && HasType2(s, v2) && !Commutes(s, v2)
  {
    var s := SchemaOf(["a", "b"], [a, b], types, Assignments(["a", "b"], [a, b], CrossedRule(b)), defaults);
    CrossedPairs(a, b, types, defaults);
    hide CanVary, Covered, WellFormed, PutAll, Assignments;
    assert s.pairs12[0].ros1 == 0 && s.pairs12[1].ros1 == 1;
    v2 := InversionBreaksDiagram(s, 0, 1);
  }

  lemma CrossedPairs(a: Member, b: Member, types: seq<Schema>, defaults: seq<Value>)
    requires a == Member("a", Plain) && b == Member("b", Plain)
    ensures var s := SchemaOf(["a", "b"], [a, b], types, Assignments(["a", "b"], [a, b], CrossedRule(b)), defaults);
            s.pairs12 == [Pair(0, 0), Pair(1, 1)] && s.pairs21 == [Pair(1, 1), Pair(0, 0)]
  {
    ManualRuleReorders(a, b);
    var fields, members := ["a", "b"], [a, b];
    assert DistinctNames(fields);
    FieldAtName(fields, 0);
    FieldAtName(fields, 1);
    assert MemberAt(members, members[0]) == 0;
    assert members[1..] == [b] && MemberAt(members, members[1]) == 1;
    hide PutAll, Assignments, NamePairs, FieldAt, MemberAt;
  }

  /** The rule occurs with well-formed messages. */
  lemma CrossedRuleOccurs(a: Member, b: Member)
    requires a == Member("a", Plain) && b == Member("b", Plain)
    ensures WellFormed(SchemaOf(["a", "b"], [a, b], [Bool, Bool], Assignments(["a", "b"], [a, b], CrossedRule(b)), [Num(0), Num(0)]))
  {
    CrossedPairs(a, b, [Bool, Bool], [Num(0), Num(0)]);
    hide PutAll, Assignments;
    TwoBoolsWellFormed(SchemaOf(["a", "b"], [a, b], [Bool, Bool], Assignments(["a", "b"], [a, b], CrossedRule(b)), [Num(0), Num(0)]));
  }
}
