/** How `determine_field_mapping` pairs the fields of a ROS 1 message with the members of a ROS 2
    message, and when the resulting dictionaries are what the code generator needs. */
module FieldMapping {
  import opened Wrappers
  import opened Schema
  import opened Ordering

  datatype MemberType =
    | Plain                                                   // primitive, string, array, sequence
    | Namespaced(namespaces: seq<string>, name: string)       // a single sub-message

  datatype Member = Member(name: string, memberType: MemberType)

  /** A selection of fields: one name, or a path into sub-messages. */
  type Fields1 = seq<string>
  type Members2 = seq<Member>

  // ----- insertion-ordered dictionaries -----

  function KeyIndex<K(==), V>(d: seq<(K, V)>, key: K): (i: nat)
    ensures i <= |d|
    ensures i < |d| ==> d[i].0 == key
    ensures forall j | 0 <= j < i :: d[j].0 != key
  {
    if d == [] || d[0].0 == key then 0 else 1 + KeyIndex(d[1..], key)
  }

  /** Assignment to a key: an existing key keeps its position. */
  function Put<K(==), V>(d: seq<(K, V)>, key: K, value: V): seq<(K, V)> {
    var i := KeyIndex(d, key);
    if i < |d| then d[i := (key, value)] else d + [(key, value)]
  }

  /** The first `n` assignments of a list, one after the other, to an empty dictionary. */
  function PutAll<K(==), V>(entries: seq<(K, V)>, n: nat): seq<(K, V)>
    requires n <= |entries|
  {
    if n == 0 then [] else Put(PutAll(entries, n - 1), entries[n - 1].0, entries[n - 1].1)
  }

  function Swapped<K, V>(entries: seq<(K, V)>): (r: seq<(V, K)>)
    ensures |r| == |entries| && forall i | 0 <= i < |r| :: r[i] == (entries[i].1, entries[i].0)
  {
    seq(|entries|, i requires 0 <= i < |entries| => (entries[i].1, entries[i].0))
  }

  predicate DistinctKeys<K(==), V>(d: seq<(K, V)>) {
    forall i, j | 0 <= i < j < |d| :: d[i].0 != d[j].0
  }

  lemma {:induction false} PutAllHasDistinctKeys<K, V>(entries: seq<(K, V)>, n: nat)
    requires n <= |entries|
    ensures DistinctKeys(PutAll(entries, n))
  {
    if n > 0 {
      PutAllHasDistinctKeys(entries, n - 1);
    }
  }

  /** Assignments to distinct keys keep their order. */
  lemma {:induction false} PutAllOfDistinct<K, V>(entries: seq<(K, V)>, n: nat)
    requires n <= |entries| && DistinctKeys(entries)
    ensures PutAll(entries, n) == entries[..n]
  {
    if n > 0 {
      PutAllOfDistinct(entries, n - 1);
    }
  }

  /** Entry `e` was assigned, and its key not again, by the first `n` assignments. */
  predicate LastAssigned<K(==), V(==)>(entries: seq<(K, V)>, n: nat, e: (K, V))
    requires n <= |entries|
  {
    exists i | 0 <= i < n :: entries[i] == e && forall j | i < j < n :: entries[j].0 != e.0
  }

  lemma LastAssignedAfterNext<K, V>(entries: seq<(K, V)>, n: nat, e: (K, V))
    requires 0 < n <= |entries|
    ensures LastAssigned(entries, n, e) <==>
              e == entries[n - 1] || (e.0 != entries[n - 1].0 && LastAssigned(entries, n - 1, e))
  {
    if e == entries[n - 1] {
      assert entries[n - 1] == e;
    }
    if e.0 != entries[n - 1].0 && LastAssigned(entries, n - 1, e) {
      var i :| 0 <= i < n - 1 && entries[i] == e && forall j | i < j < n - 1 :: entries[j].0 != e.0;
      assert entries[i] == e && forall j | i < j < n :: entries[j].0 != e.0;
    }
  }

  /** A dictionary holds the last value assigned to each key. */
  lemma {:induction false} PutAllExactly<K, V>(entries: seq<(K, V)>, n: nat, e: (K, V))
    requires n <= |entries|
    ensures e in PutAll(entries, n) <==> LastAssigned(entries, n, e)
  {
    hide LastAssigned, Put;
    if n > 0 {
      PutAllExactly(entries, n - 1, e);
      LastAssignedAfterNext(entries, n, e);
      PutAllHasDistinctKeys(entries, n - 1);
      PutExactly(PutAll(entries, n - 1), entries[n - 1].0, entries[n - 1].1);
    } else {
      NothingAssigned(entries, e);
    }
  }

  lemma NothingAssigned<K, V>(entries: seq<(K, V)>, e: (K, V))
    ensures !LastAssigned(entries, 0, e)
  {
  }

  predicate HasKey<K(==), V>(d: seq<(K, V)>, key: K) {
    exists k | 0 <= k < |d| :: d[k].0 == key
  }

  lemma {:induction false} AssignedKeysAreListed<K, V>(entries: seq<(K, V)>, n: nat, i: nat)
    requires i < n <= |entries|
    ensures HasKey(PutAll(entries, n), entries[i].0)
  {
    hide Put;
    var d, e := PutAll(entries, n - 1), entries[n - 1];
    PutAllHasDistinctKeys(entries, n - 1);
    PutExactly(d, e.0, e.1);
    if i < n - 1 {
      AssignedKeysAreListed(entries, n - 1, i);
      var k :| 0 <= k < |d| && d[k].0 == entries[i].0;
      assert PutAll(entries, n)[k].0 == entries[i].0;
    }
  }

  /** Its keys come in the order in which they were first assigned. */
  lemma {:induction false} PutAllInOrder<K, V>(entries: seq<(K, V)>, n: nat)
    requires n <= |entries|
    ensures var d := PutAll(entries, n);
            && (forall k | 0 <= k < |d| :: KeyIndex(entries, d[k].0) < n)
            && (forall k, l | 0 <= k < l < |d| :: KeyIndex(entries, d[k].0) < KeyIndex(entries, d[l].0))
  {
    hide Put, KeyIndex, HasKey;
    if n > 0 {
      var d, e := PutAll(entries, n - 1), entries[n - 1];
      PutAllInOrder(entries, n - 1);
      PutAllHasDistinctKeys(entries, n - 1);
      PutExactly(d, e.0, e.1);
      FirstAssignment(entries, n - 1);
      assert PutAll(entries, n) == Put(d, e.0, e.1);
      assert forall k | 0 <= k < |PutAll(entries, n)| :: PutAll(entries, n)[k].0 == if k < |d| then d[k].0 else e.0;
      if KeyIndex(entries, e.0) < n - 1 {
        AssignedKeysAreListed(entries, n - 1, KeyIndex(entries, e.0));
        KeyIsListed(d, e.0);
      }
    }
  }

  lemma KeyIsListed<K, V>(d: seq<(K, V)>, key: K)
    requires HasKey(d, key)
    ensures !(forall k | 0 <= k < |d| :: d[k].0 != key)
  {
  }

  lemma FirstAssignment<K, V>(entries: seq<(K, V)>, i: nat)
    requires i < |entries|
    ensures KeyIndex(entries, entries[i].0) <= i && entries[KeyIndex(entries, entries[i].0)].0 == entries[i].0
  {
    hide KeyIndex;
  }

  lemma PutExactly<K, V>(d: seq<(K, V)>, key: K, value: V)
    requires DistinctKeys(d)
    ensures var r := Put(d, key, value);
            && (forall x :: x in r <==> x == (key, value) || (x in d && x.0 != key))
            && (forall k | 0 <= k < |r| :: r[k].0 == if k < |d| then d[k].0 else key)
            && (|r| == |d| || (|r| == |d| + 1 && forall k | 0 <= k < |d| :: d[k].0 != key))
            && exists k | 0 <= k < |r| :: r[k].0 == key
  {
    var r, i := Put(d, key, value), KeyIndex(d, key);
    assert r[i] == (key, value);
    forall x | x in d && x.0 != key ensures x in r {
      var k :| 0 <= k < |d| && d[k] == x;
      assert r[k] == x;
    }
  }

  // ----- matching by name -----

  function LowerChar(c: char): char {
    if 'A' <= c <= 'Z' then c - 'A' + 'a' else c
  }

  /** `name.lower()` of an ASCII identifier. */
  function Lower(s: string): (r: string)
    ensures |r| == |s|
  {
    seq(|s|, i requires 0 <= i < |s| => LowerChar(s[i]))
  }

  /** The 26 capital letters move to the small ones; nothing else changes. */
  lemma LowerExactly(s: string, i: nat)
    requires i < |s|
    ensures Lower(s)[i] as int == s[i] as int + if 65 <= s[i] as int <= 90 then 32 else 0
  {
  }

  predicate MatchesMember(field: string, member: Member) {
    Lower(field) == member.name
  }

  predicate HasMember(members: seq<Member>, field: string) {
    exists j | 0 <= j < |members| :: MatchesMember(field, members[j])
  }

  predicate HasField(fields: seq<string>, member: Member) {
    exists i | 0 <= i < |fields| :: MatchesMember(fields[i], member)
  }

  function FirstMember(members: seq<Member>, field: string): (j: nat)
    requires HasMember(members, field)
    ensures j < |members| && MatchesMember(field, members[j])
    ensures forall l | 0 <= l < j :: !MatchesMember(field, members[l])
  {
    if MatchesMember(field, members[0]) then 0
    else
      assert HasMember(members[1..], field) by {
        var j :| 0 <= j < |members| && MatchesMember(field, members[j]);
        assert members[1..][j - 1] == members[j];
      }
      1 + FirstMember(members[1..], field)
  }

  /** The pairs found by name among the first `n` ROS 1 fields, in declaration order. */
  function NamePairs(fields: seq<string>, members: seq<Member>, n: nat): seq<(Fields1, Members2)>
    requires n <= |fields|
  {
    if n == 0 then []
    else
      var before := NamePairs(fields, members, n - 1);
      var f := fields[n - 1];
      if HasMember(members, f) then before + [([f], [members[FirstMember(members, f)]])] else before
  }

  /** Each ROS 1 field is paired with the first member that has its name in small letters. */
  lemma {:induction false} NamePairsExactly(fields: seq<string>, members: seq<Member>, n: nat, e: (Fields1, Members2))
    requires n <= |fields|
    ensures e in NamePairs(fields, members, n) <==>
              exists i, j | 0 <= i < n && 0 <= j < |members| ::
                && e == ([fields[i]], [members[j]]) && members[j].name == Lower(fields[i])
                && forall l | 0 <= l < j :: members[l].name != Lower(fields[i])
  {
    if n > 0 {
      NamePairsExactly(fields, members, n - 1, e);
      hide Lower;
      var f := fields[n - 1];
      if HasMember(members, f) {
        var j := FirstMember(members, f);
        assert e == ([f], [members[j]]) ==> members[j].name == Lower(fields[n - 1]);
      }
    }
  }

  // ----- the mapping object -----

  predicate DistinctNames(fields: seq<string>) {
    forall i, j | 0 <= i < j < |fields| :: fields[i] != fields[j]
  }

  /** The dependency that one mapped member records, if any. */
  function Dependency(m: Member): Option<Message> {
    match m.memberType
    case Plain => None
    case Namespaced(ns, name) =>
      if |ns| != 2 || ns[1] != "msg" || ns[0] == "builtin_interfaces" then None else Some(Message(ns[0], name))
  }

  function Dependencies(ms: Members2): set<Message> {
    set m | m in ms && Dependency(m).Some? :: Dependency(m).value
  }

  function AllDependencies(entries: seq<(Fields1, Members2)>): set<Message> {
    set e, d | e in entries && d in Dependencies(e.1) :: d
  }

  /** A message is depended on exactly if some assigned member is a single sub-message of it, of the
      form package, msg, name, outside builtin_interfaces. */
  lemma DependsExactly(entries: seq<(Fields1, Members2)>, d: Message)
    ensures d in AllDependencies(entries) <==>
              && d.package != "builtin_interfaces"
              && exists e, m | e in entries && m in e.1 :: m.memberType == Namespaced([d.package, "msg"], d.name)
  {
    if d in AllDependencies(entries) {
      var e :| e in entries && d in Dependencies(e.1);
      var m :| m in e.1 && Dependency(m) == Some(d);
      assert m.memberType.namespaces == [d.package, "msg"];
    }
    if d.package != "builtin_interfaces" {
      forall e, m | e in entries && m in e.1 && m.memberType == Namespaced([d.package, "msg"], d.name) ensures d in AllDependencies(entries) {
        assert Dependency(m) == Some(d);
        assert d in Dependencies(e.1);
      }
    }
  }

  class FieldTable {
    var fields12: seq<(Fields1, Members2)>
    var fields21: seq<(Members2, Fields1)>
    var depends: set<Message>
    var missing: bool

    constructor ()
      ensures fields12 == [] && fields21 == [] && depends == {} && !missing
    {
      fields12, fields21, depends, missing := [], [], {}, false;
    }

    /** The dictionaries and dependencies are those of a list of assignments. */
    ghost predicate Holds(entries: seq<(Fields1, Members2)>)
      reads this
    {
      && fields12 == PutAll(entries, |entries|)
      && fields21 == PutAll(Swapped(entries), |entries|)
      && depends == AllDependencies(entries)
    }

    /** `add_field_pair` */
    method AddFieldPair(ros1: Fields1, ros2: Members2, ghost entries: seq<(Fields1, Members2)>)
      requires Holds(entries)
      modifies this`fields12, this`fields21, this`depends
      ensures Holds(entries + [(ros1, ros2)])
    {
      fields12 := Put(fields12, ros1, ros2);
      fields21 := Put(fields21, ros2, ros1);
      AddDependencies(ros2);
      PutAllOfNext(entries, (ros1, ros2));
      PutAllOfNext(Swapped(entries), (ros2, ros1));
      assert Swapped(entries + [(ros1, ros2)]) == Swapped(entries) + [(ros2, ros1)];
      DependenciesOfEntries(entries, (ros1, ros2));
    }

    method AddDependencies(ros2: Members2)
      modifies this`depends
      ensures depends == old(depends) + Dependencies(ros2)
    {
      var k := 0;
      while k < |ros2|
        invariant k <= |ros2| && depends == old(depends) + Dependencies(ros2[..k])
      {
        var d := Dependency(ros2[k]);
        DependenciesOfNext(ros2, k);
        if d.Some? { depends := depends + {d.value}; }
        k := k + 1;
      }
      assert ros2[..k] == ros2;
    }
  }

  lemma DependenciesOfNext(ms: Members2, k: nat)
    requires k < |ms|
    ensures Dependencies(ms[..k + 1]) ==
            Dependencies(ms[..k]) + (if Dependency(ms[k]).Some? then {Dependency(ms[k]).value} else {})
  {
    assert ms[..k + 1] == ms[..k] + [ms[k]];
  }

  lemma DependenciesOfEntries(entries: seq<(Fields1, Members2)>, e: (Fields1, Members2))
    ensures AllDependencies(entries + [e]) == AllDependencies(entries) + Dependencies(e.1)
  {
    var more := entries + [e];
    forall d ensures d in AllDependencies(more) <==> d in AllDependencies(entries) || d in Dependencies(e.1) {
      if d in AllDependencies(entries) {
        var x :| x in entries && d in Dependencies(x.1);
        assert x in more;
      }
      if d in Dependencies(e.1) {
        assert e in more;
      }
    }
  }

  lemma {:induction false} PutAllOfPrefix<K, V>(entries: seq<(K, V)>, e: (K, V), n: nat)
    requires n <= |entries|
    ensures PutAll(entries + [e], n) == PutAll(entries, n)
  {
    if n > 0 {
      PutAllOfPrefix(entries, e, n - 1);
      assert (entries + [e])[n - 1] == entries[n - 1];
    }
  }

  lemma PutAllOfNext<K, V>(entries: seq<(K, V)>, e: (K, V))
    ensures PutAll(entries + [e], |entries| + 1) == Put(PutAll(entries, |entries|), e.0, e.1)
  {
    PutAllOfPrefix(entries, e, |entries|);
  }

  // ----- determine_field_mapping -----

  /** Some ROS 1 selection in the dictionary starts with this field. */
  predicate Mapped(entries: seq<(Fields1, Members2)>, field: string) {
    exists i | 0 <= i < |entries| :: |entries[i].0| > 0 && entries[i].0[0] == field
  }

  /** A ROS 1 field that neither a manual rule nor a member of its name takes care of. */
  predicate LeftOver(manual: seq<(Fields1, Members2)>, members: seq<Member>, field: string) {
    !Mapped(manual, field) && !HasMember(members, field)
  }

  /** The `ros1_field_missing_in_ros2` flag. */
  predicate SomeLeftOver(manual: seq<(Fields1, Members2)>, members: seq<Member>, fields: seq<string>) {
    exists i | 0 <= i < |fields| :: LeftOver(manual, members, fields[i])
  }

  predicate SomeUnmatched(fields: seq<string>, members: seq<Member>) {
    exists j | 0 <= j < |members| :: !HasField(fields, members[j])
  }

  /** Manual pairs first, then the name-based ones. */
  function Assignments(fields: seq<string>, members: seq<Member>, manual: seq<(Fields1, Members2)>): seq<(Fields1, Members2)> {
    manual + NamePairs(fields, members, |fields|)
  }

  /** A ROS 1 field is left over exactly if no manual selection starts with it and no member has its
      name in small letters. */
  lemma LeftOverExactly(manual: seq<(Fields1, Members2)>, members: seq<Member>, field: string)
    ensures LeftOver(manual, members, field) <==>
              && (forall e | e in manual :: |e.0| == 0 || e.0[0] != field)
              && (forall m | m in members :: m.name != Lower(field))
  {
    hide Lower;
    if !LeftOver(manual, members, field) && !Mapped(manual, field) {
      var j :| 0 <= j < |members| && MatchesMember(field, members[j]);
      assert members[j] in members;
    }
    if Mapped(manual, field) {
      var k :| 0 <= k < |manual| && |manual[k].0| > 0 && manual[k].0[0] == field;
      assert manual[k] in manual;
    }
  }

  lemma UnmatchedExactly(fields: seq<string>, members: seq<Member>)
    ensures SomeUnmatched(fields, members) <==>
              exists m | m in members :: forall f | f in fields :: m.name != Lower(f)
  {
    hide Lower;
    if SomeUnmatched(fields, members) {
      var j :| 0 <= j < |members| && !HasField(fields, members[j]);
      forall f | f in fields ensures members[j].name != Lower(f) {
        var i :| 0 <= i < |fields| && fields[i] == f;
        assert !MatchesMember(fields[i], members[j]);
      }
      assert members[j] in members;
    }
    if m :| m in members && forall f | f in fields :: m.name != Lower(f) {
      var j :| 0 <= j < |members| && members[j] == m;
      assert !HasField(fields, members[j]);
    }
  }

  /** Both specs having loaded: the manual pairs are assigned first, then the name-based pairs;
      the flag says whether a ROS 1 field is left over, and the result is null exactly if one is
      while a ROS 2 member has no ROS 1 field of its name. */
  method DetermineFieldMapping(fields: seq<string>, members: seq<Member>, manual: seq<(Fields1, Members2)>)
    returns (mapping: FieldTable?)
    ensures mapping == null <==> SomeLeftOver(manual, members, fields) && SomeUnmatched(fields, members)
    ensures mapping != null ==> fresh(mapping) && mapping.Holds(Assignments(fields, members, manual))
    ensures mapping != null ==> mapping.missing == SomeLeftOver(manual, members, fields)
  {
    var table := new FieldTable();
    AssignManual(table, manual);
    table.missing := AssignByName(table, fields, members, manual);
    if table.missing {
      var unmatched := FindUnmatched(fields, members);
      if unmatched { return null; }
    }
    return table;
  }

  /** The mapping object of a pair of messages, as the ordering gets it: its dependencies are exactly
      the sub-messages of the members that are assigned, manually or by name. */
  method DetermineMapping(ros1: Message, ros2: Message, fields: seq<string>, members: seq<Member>, manual: seq<(Fields1, Members2)>)
    returns (mapping: Mapping?)
    ensures mapping == null <==>
              && (exists f | f in fields :: (forall e | e in manual :: |e.0| == 0 || e.0[0] != f) && forall m | m in members :: m.name != Lower(f))
              && (exists m | m in members :: forall f | f in fields :: m.name != Lower(f))
    ensures mapping != null ==> fresh(mapping) && mapping.ros1 == ros1 && mapping.ros2 == ros2 && mapping.depends == mapping.recorded
    ensures mapping != null ==> forall d ::
              d in mapping.recorded <==>
                && d.package != "builtin_interfaces"
                && exists e, m | e in Assignments(fields, members, manual) && m in e.1 ::
                     m.memberType == Namespaced([d.package, "msg"], d.name)
  {
    hide LeftOver, Lower, SomeUnmatched, Assignments, AllDependencies;
    var table := DetermineFieldMapping(fields, members, manual);
    UnmatchedExactly(fields, members);
    forall f ensures LeftOver(manual, members, f) <==>
        (forall e | e in manual :: |e.0| == 0 || e.0[0] != f) && forall m | m in members :: m.name != Lower(f)
    {
      LeftOverExactly(manual, members, f);
    }
    if table == null { return null; }
    forall d ensures d in table.depends <==>
        && d.package != "builtin_interfaces"
        && exists e, m | e in Assignments(fields, members, manual) && m in e.1 :: m.memberType == Namespaced([d.package, "msg"], d.name)
    {
      DependsExactly(Assignments(fields, members, manual), d);
    }
    mapping := new Mapping(ros1, ros2, table.depends);
  }

  /** The name-based pass. */
  method AssignByName(table: FieldTable, fields: seq<string>, members: seq<Member>, ghost manual: seq<(Fields1, Members2)>)
    returns (missing: bool)
    requires table.Holds(manual)
    modifies table`fields12, table`fields21, table`depends
    ensures table.Holds(Assignments(fields, members, manual))
    ensures missing == SomeLeftOver(manual, members, fields)
  {
    missing := false;
    var i := 0;
    assert manual + NamePairs(fields, members, 0) == manual && !SomeLeftOver(manual, members, fields[..0]);
    hide NamePairs, LeftOver, SomeLeftOver, FieldTable.Holds;
    while i < |fields|
      invariant i <= |fields| && table.Holds(manual + NamePairs(fields, members, i))
      invariant missing == SomeLeftOver(manual, members, fields[..i])
    {
      var mapped := AssignField(table, fields, members, manual, i);
      LeftOverAfterNext(fields, members, manual, i);
      if !mapped { missing := true; }
      i := i + 1;
    }
    assert fields[..i] == fields;
  }

  lemma LeftOverAfterNext(fields: seq<string>, members: seq<Member>, manual: seq<(Fields1, Members2)>, i: nat)
    requires i < |fields|
    ensures SomeLeftOver(manual, members, fields[..i + 1]) <==>
              SomeLeftOver(manual, members, fields[..i]) || LeftOver(manual, members, fields[i])
  {
    hide LeftOver;
    var before, after := fields[..i], fields[..i + 1];
    assert after[i] == fields[i] && forall l | 0 <= l < i :: after[l] == before[l];
  }

  /** One iteration: the field is paired with the first member of its name, and the dictionary is
      asked whether the field is mapped by now. */
  method AssignField(table: FieldTable, fields: seq<string>, members: seq<Member>, ghost manual: seq<(Fields1, Members2)>, i: nat)
    returns (mapped: bool)
    requires i < |fields| && table.Holds(manual + NamePairs(fields, members, i))
    modifies table`fields12, table`fields21, table`depends
    ensures table.Holds(manual + NamePairs(fields, members, i + 1))
    ensures mapped <==> !LeftOver(manual, members, fields[i])
  {
    ghost var entries := manual + NamePairs(fields, members, i);
    var j := FindMember(members, fields[i]);
    if j < |members| {
      table.AddFieldPair([fields[i]], [members[j]], entries);
    }
    ghost var more := manual + NamePairs(fields, members, i + 1);
    assert j < |members| ==> more == entries + [([fields[i]], [members[j]])];
    mapped := StartsWith(table.fields12, fields[i]);
    KeysOfPutAll(more, |more|, fields[i]);
    assert more[..|more|] == more;
    MappedByNow(fields, members, manual, i);
  }

  lemma MappedByNow(fields: seq<string>, members: seq<Member>, manual: seq<(Fields1, Members2)>, i: nat)
    requires i < |fields|
    ensures Mapped(manual + NamePairs(fields, members, i + 1), fields[i]) <==> !LeftOver(manual, members, fields[i])
  {
    var f, before := fields[i], NamePairs(fields, members, i);
    NamePairsAreMatched(fields, members, i);
    MappedInEither(manual, NamePairs(fields, members, i + 1), f);
    if HasMember(members, f) {
      MappedAfterNext(before, ([f], [members[FirstMember(members, f)]]), f);
    }
    if Mapped(before, f) {
      var k :| 0 <= k < |before| && |before[k].0| > 0 && before[k].0[0] == f;
      assert HasMember(members, before[k].0[0]);
    }
  }

  lemma MappedInEither(a: seq<(Fields1, Members2)>, b: seq<(Fields1, Members2)>, field: string)
    ensures Mapped(a + b, field) <==> Mapped(a, field) || Mapped(b, field)
  {
    var r := a + b;
    if Mapped(a, field) {
      var k :| 0 <= k < |a| && |a[k].0| > 0 && a[k].0[0] == field;
      assert r[k] == a[k];
    }
    if Mapped(b, field) {
      var k :| 0 <= k < |b| && |b[k].0| > 0 && b[k].0[0] == field;
      assert r[|a| + k] == b[k];
    }
    if Mapped(r, field) {
      var k :| 0 <= k < |r| && |r[k].0| > 0 && r[k].0[0] == field;
      if k < |a| { assert a[k] == r[k]; } else { assert b[k - |a|] == r[k]; }
    }
  }

  /** Name-based pairs consist of single fields of the message with a member of their name. */
  lemma {:induction false} NamePairsAreMatched(fields: seq<string>, members: seq<Member>, n: nat)
    requires n <= |fields|
    ensures forall e | e in NamePairs(fields, members, n) ::
              |e.0| == 1 && |e.1| == 1 && e.0[0] in fields[..n] && e.1[0] in members
              && MatchesMember(e.0[0], e.1[0]) && HasMember(members, e.0[0])
  {
    if n > 0 {
      NamePairsAreMatched(fields, members, n - 1);
      assert fields[..n] == fields[..n - 1] + [fields[n - 1]];
    }
  }

  /** The search for a ROS 2 member without a ROS 1 field of its name. */
  method FindUnmatched(fields: seq<string>, members: seq<Member>) returns (found: bool)
    ensures found == SomeUnmatched(fields, members)
  {
    var j := 0;
    while j < |members|
      invariant j <= |members| && forall l | 0 <= l < j :: HasField(fields, members[l])
    {
      var i := 0;
      while i < |fields| && !MatchesMember(fields[i], members[j])
        invariant i <= |fields| && forall l | 0 <= l < i :: !MatchesMember(fields[l], members[j])
      {
        i := i + 1;
      }
      if i == |fields| { return true; }
      j := j + 1;
    }
    return false;
  }

  /** The manual rules, in order. */
  method AssignManual(table: FieldTable, manual: seq<(Fields1, Members2)>)
    requires table.Holds([])
    modifies table`fields12, table`fields21, table`depends
    ensures table.Holds(manual)
  {
    var k := 0;
    while k < |manual|
      invariant k <= |manual| && table.Holds(manual[..k])
    {
      table.AddFieldPair(manual[k].0, manual[k].1, manual[..k]);
      assert manual[..k + 1] == manual[..k] + [manual[k]];
      k := k + 1;
    }
    assert manual[..k] == manual;
  }

  /** The inner loop over the ROS 2 members; the length if none matches. */
  method FindMember(members: seq<Member>, field: string) returns (j: nat)
    ensures if HasMember(members, field) then j == FirstMember(members, field) else j == |members|
  {
    j := 0;
    while j < |members|
      invariant j <= |members| && forall l | 0 <= l < j :: !MatchesMember(field, members[l])
    {
      if MatchesMember(field, members[j]) { return; }
      j := j + 1;
    }
  }

  method StartsWith(dict: seq<(Fields1, Members2)>, field: string) returns (b: bool)
    ensures b <==> Mapped(dict, field)
  {
    var k := 0;
    while k < |dict|
      invariant k <= |dict| && forall l | 0 <= l < k :: !(|dict[l].0| > 0 && dict[l].0[0] == field)
    {
      if |dict[k].0| > 0 && dict[k].0[0] == field { return true; }
      k := k + 1;
    }
    return false;
  }

  /** A dictionary has the keys of its assignments. */
  lemma {:induction false} KeysOfPutAll(entries: seq<(Fields1, Members2)>, n: nat, field: string)
    requires n <= |entries|
    ensures Mapped(PutAll(entries, n), field) <==> Mapped(entries[..n], field)
  {
    if n > 0 {
      KeysOfPutAll(entries, n - 1, field);
      var d, e := PutAll(entries, n - 1), entries[n - 1];
      MappedAfterPut(d, e.0, e.1, field);
      MappedAfterNext(entries[..n - 1], e, field);
      assert entries[..n] == entries[..n - 1] + [e];
    }
  }

  lemma MappedAfterPut(d: seq<(Fields1, Members2)>, key: Fields1, value: Members2, field: string)
    ensures Mapped(Put(d, key, value), field) <==> Mapped(d, field) || (|key| > 0 && key[0] == field)
  {
    var r, i := Put(d, key, value), KeyIndex(d, key);
    if Mapped(d, field) {
      var k :| 0 <= k < |d| && |d[k].0| > 0 && d[k].0[0] == field;
      assert r[k].0 == d[k].0;
    }
    if |key| > 0 && key[0] == field {
      assert r[i].0 == key;
    }
    if Mapped(r, field) {
      var k :| 0 <= k < |r| && |r[k].0| > 0 && r[k].0[0] == field;
      if k < |d| { assert d[k].0 == r[k].0; }
    }
  }

  lemma MappedAfterNext(d: seq<(Fields1, Members2)>, e: (Fields1, Members2), field: string)
    ensures Mapped(d + [e], field) <==> Mapped(d, field) || (|e.0| > 0 && e.0[0] == field)
  {
    var r := d + [e];
    if Mapped(d, field) {
      var k :| 0 <= k < |d| && |d[k].0| > 0 && d[k].0[0] == field;
      assert r[k] == d[k];
    }
    if |e.0| > 0 && e.0[0] == field {
      assert r[|d|] == e;
    }
  }

  // ----- the shape of a purely name-based mapping -----

  function Entries12(fields: seq<string>, members: seq<Member>): seq<(Fields1, Members2)> {
    var e := NamePairs(fields, members, |fields|);
    PutAll(e, |e|)
  }

  function Entries21(fields: seq<string>, members: seq<Member>): seq<(Members2, Fields1)> {
    var e := NamePairs(fields, members, |fields|);
    PutAll(Swapped(e), |e|)
  }

  predicate MutuallyInverse(a: seq<(Fields1, Members2)>, b: seq<(Members2, Fields1)>) {
    (forall e | e in a :: (e.1, e.0) in b) && (forall e | e in b :: (e.1, e.0) in a)
  }

  /** No two matched ROS 1 fields have names that differ only in case. */
  predicate MatchedNamesDistinct(fields: seq<string>, members: seq<Member>) {
    forall i, j | 0 <= i < j < |fields| && HasMember(members, fields[i]) && HasMember(members, fields[j]) ::
      Lower(fields[i]) != Lower(fields[j])
  }

  /** The positions of the matched ones among the first `n` fields. */
  function MatchedPositions(fields: seq<string>, members: seq<Member>, n: nat): (at: seq<nat>)
    requires n <= |fields|
    ensures forall k | 0 <= k < |at| :: at[k] < n && HasMember(members, fields[at[k]])
    ensures forall k, l | 0 <= k < l < |at| :: at[k] < at[l]
  {
    if n == 0 then []
    else
      var before := MatchedPositions(fields, members, n - 1);
      if HasMember(members, fields[n - 1]) then before + [n - 1] else before
  }

  lemma {:induction false} MatchedAreListed(fields: seq<string>, members: seq<Member>, n: nat, i: nat)
    requires i < n <= |fields| && HasMember(members, fields[i])
    ensures i in MatchedPositions(fields, members, n)
  {
    if i < n - 1 {
      MatchedAreListed(fields, members, n - 1, i);
    }
  }

  function PairAt(fields: seq<string>, members: seq<Member>, i: nat): (Fields1, Members2)
    requires i < |fields| && HasMember(members, fields[i])
  {
    ([fields[i]], [members[FirstMember(members, fields[i])]])
  }

  lemma {:induction false} PairsFollowDeclaration(fields: seq<string>, members: seq<Member>, n: nat)
    requires n <= |fields|
    ensures var e, at := NamePairs(fields, members, n), MatchedPositions(fields, members, n);
            |at| == |e| && forall k | 0 <= k < |e| :: e[k] == PairAt(fields, members, at[k])
  {
    hide HasMember, FirstMember;
    if n > 0 {
      PairsFollowDeclaration(fields, members, n - 1);
    }
  }

  /** The dictionaries list the matched fields in declaration order. */
  lemma ForwardInDeclarationOrder(fields: seq<string>, members: seq<Member>)
    requires DistinctNames(fields)
    ensures Entries12(fields, members) == NamePairs(fields, members, |fields|)
  {
    var e := NamePairs(fields, members, |fields|);
    var at := MatchedPositions(fields, members, |fields|);
    PairsFollowDeclaration(fields, members, |fields|);
    forall k, l | 0 <= k < l < |e| ensures e[k].0 != e[l].0 {
      assert fields[at[k]] != fields[at[l]];
      assert e[k].0[0] != e[l].0[0];
    }
    PutAllOfDistinct(e, |e|);
    assert e[..|e|] == e;
  }

  lemma BackwardInDeclarationOrder(fields: seq<string>, members: seq<Member>)
    requires MatchedNamesDistinct(fields, members)
    ensures Entries21(fields, members) == Swapped(NamePairs(fields, members, |fields|))
  {
    var e := NamePairs(fields, members, |fields|);
    var at := MatchedPositions(fields, members, |fields|);
    PairsFollowDeclaration(fields, members, |fields|);
    forall k, l | 0 <= k < l < |e| ensures Swapped(e)[k].0 != Swapped(e)[l].0 {
      assert Lower(fields[at[k]]) != Lower(fields[at[l]]);
      assert e[k].1[0].name != e[l].1[0].name;
    }
    PutAllOfDistinct(Swapped(e), |e|);
    assert Swapped(e)[..|e|] == Swapped(e);
  }

  /** The two dictionaries of a name-based mapping are mutual inverses exactly if the matched ROS 1
      names stay distinct after lower-casing; then both list the pairs in declaration order. */
  lemma InverseIffDistinct(fields: seq<string>, members: seq<Member>)
    requires DistinctNames(fields)
    ensures MutuallyInverse(Entries12(fields, members), Entries21(fields, members)) <==> MatchedNamesDistinct(fields, members)
    ensures MatchedNamesDistinct(fields, members) ==> Entries21(fields, members) == Swapped(Entries12(fields, members))
  {
    var e := NamePairs(fields, members, |fields|);
    ForwardInDeclarationOrder(fields, members);
    if MatchedNamesDistinct(fields, members) {
      BackwardInDeclarationOrder(fields, members);
      var b := Swapped(e);
      forall x | x in e ensures (x.1, x.0) in b {
        var k :| 0 <= k < |e| && e[k] == x;
        assert b[k] == (x.1, x.0);
      }
      forall x | x in b ensures (x.1, x.0) in e {
        var k :| 0 <= k < |b| && b[k] == x;
        assert e[k] == (x.1, x.0);
      }
    } else {
      var i, j :| 0 <= i < j < |fields| && HasMember(members, fields[i]) && HasMember(members, fields[j]) &&
        Lower(fields[i]) == Lower(fields[j]);
      var at := MatchedPositions(fields, members, |fields|);
      PairsFollowDeclaration(fields, members, |fields|);
      MatchedAreListed(fields, members, |fields|, i);
      MatchedAreListed(fields, members, |fields|, j);
      var k :| 0 <= k < |at| && at[k] == i;
      var l :| 0 <= l < |at| && at[l] == j;
      SameFirstMember(members, fields[i], fields[j]);
      assert e[k] in e && e[l] in e && e[k].1 == e[l].1 && e[k].0[0] != e[l].0[0];
      var b := Entries21(fields, members);
      PutAllHasDistinctKeys(Swapped(e), |e|);
      if (e[k].1, e[k].0) in b && (e[l].1, e[l].0) in b {
        OneValuePerKey(b, e[k].1, e[k].0, e[l].0);
      }
    }
  }

  lemma OneValuePerKey<K, V>(d: seq<(K, V)>, key: K, v: V, v': V)
    requires DistinctKeys(d) && (key, v) in d && (key, v') in d
    ensures v == v'
  {
    var p :| 0 <= p < |d| && d[p] == (key, v);
    var q :| 0 <= q < |d| && d[q] == (key, v');
    assert !(p < q) && !(q < p);
  }

  lemma SameFirstMember(members: seq<Member>, f: string, g: string)
    requires HasMember(members, f) && HasMember(members, g) && Lower(f) == Lower(g)
    ensures FirstMember(members, f) == FirstMember(members, g)
  {
    var a, b := FirstMember(members, f), FirstMember(members, g);
    assert MatchesMember(f, members[b]) && MatchesMember(g, members[a]);
  }

  /** The flag is clear exactly if the dictionary lists every ROS 1 field, in declaration order. */
  lemma CoverageIffNotMissing(fields: seq<string>, members: seq<Member>)
    requires DistinctNames(fields)
    ensures var d := Entries12(fields, members);
            !SomeLeftOver([], members, fields) <==> |d| == |fields| && forall i | 0 <= i < |d| :: d[i].0 == [fields[i]]
  {
    ForwardInDeclarationOrder(fields, members);
    var d := Entries12(fields, members);
    assert forall f :: LeftOver([], members, f) <==> !HasMember(members, f);
    if !SomeLeftOver([], members, fields) {
      forall i | 0 <= i < |fields| ensures HasMember(members, fields[i]) {
        assert !LeftOver([], members, fields[i]);
      }
      AllPairs(fields, members, |fields|);
    }
    if |d| == |fields| && forall i | 0 <= i < |d| :: d[i].0 == [fields[i]] {
      NamePairsAreMatched(fields, members, |fields|);
      forall i | 0 <= i < |fields| ensures !LeftOver([], members, fields[i]) {
        assert d[i] in d && d[i].0[0] == fields[i];
      }
    }
  }

  lemma {:induction false} AllPairs(fields: seq<string>, members: seq<Member>, n: nat)
    requires n <= |fields| && forall i | 0 <= i < |fields| :: HasMember(members, fields[i])
    ensures var e := NamePairs(fields, members, n);
            |e| == n && forall i | 0 <= i < n :: e[i] == ([fields[i]], [members[FirstMember(members, fields[i])]])
  {
    if n > 0 {
      AllPairs(fields, members, n - 1);
    }
  }

  /** The positions that a name-based pair stands for in the schema of the message. */
  function SchemaPairs(fields: seq<string>, members: seq<Member>): (r: seq<Pair>)
    requires forall i | 0 <= i < |fields| :: HasMember(members, fields[i])
    ensures |r| == |fields|
  {
    seq(|fields|, i requires 0 <= i < |fields| => Pair(i, FirstMember(members, fields[i])))
  }

  /** What the codec relies on: an unflagged name-based mapping of fields whose names stay distinct
      gives a covering list of pairs, the same for both dictionaries. */
  lemma NameBasedMappingIsCovering(fields: seq<string>, members: seq<Member>, schemas: seq<Schema>)
    requires DistinctNames(fields) && MatchedNamesDistinct(fields, members) && !SomeLeftOver([], members, fields)
    requires |schemas| == |fields|
    ensures forall i | 0 <= i < |fields| :: HasMember(members, fields[i])
    ensures var p, d12, d21 := SchemaPairs(fields, members), Entries12(fields, members), Entries21(fields, members);
            && Covering(schemas, p) && |d12| == |d21| == |p|
            && forall k | 0 <= k < |p| ::
                 d12[k] == ([fields[p[k].ros1]], [members[p[k].ros2]]) && d21[k] == ([members[p[k].ros2]], [fields[p[k].ros1]])
  {
    forall i | 0 <= i < |fields| ensures HasMember(members, fields[i]) {
      assert !LeftOver([], members, fields[i]);
    }
    AllPairs(fields, members, |fields|);
    ForwardInDeclarationOrder(fields, members);
    BackwardInDeclarationOrder(fields, members);
    var p := SchemaPairs(fields, members);
    forall k, l | 0 <= k < l < |p| ensures p[k].ros2 != p[l].ros2 {
      assert Lower(fields[k]) != Lower(fields[l]);
    }
  }

  /** A manual rule that renames a field still leaves the name-based pass to run: here it does not
      even take effect in one direction, and in the other it reorders the dictionary. */
  lemma ManualRuleReorders(a: Member, b: Member)
    requires a == Member("a", Plain) && b == Member("b", Plain)
    ensures var entries := Assignments(["a", "b"], [a, b], [(["a"], [b])]);
            && PutAll(entries, |entries|) == [(["a"], [a]), (["b"], [b])]
            && PutAll(Swapped(entries), |entries|) == [([b], ["b"]), ([a], ["a"])]
  {
    var fields, members := ["a", "b"], [a, b];
    assert Lower("a") == "a" && Lower("b") == "b";
    assert MatchesMember("a", members[0]) && MatchesMember("b", members[1]) && !MatchesMember("b", members[0]);
    assert NamePairs(fields, members, 0) == [];
    assert NamePairs(fields, members, 1) == [(["a"], [a])];
    assert NamePairs(fields, members, 2) == [(["a"], [a]), (["b"], [b])];
    var entries := Assignments(fields, members, [(["a"], [b])]);
    assert entries == [(["a"], [b]), (["a"], [a]), (["b"], [b])];
    assert PutAll(entries, 1) == [(["a"], [b])];
    assert PutAll(entries, 2) == [(["a"], [a])];
    var back := Swapped(entries);
    assert PutAll(back, 1) == [([b], ["a"])];
    assert PutAll(back, 2) == [([b], ["a"]), ([a], ["a"])];
    assert KeyIndex(PutAll(back, 2), [b]) == 0;
  }
}
