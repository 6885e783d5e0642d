/** The generated dispatch from a pair of type names to a factory, and the flat mapping tables. */
module Dispatch {
  import opened Wrappers
  import opened Ordering

  /** A mapping as the templates see it. */
  datatype Mapped = Mapped(ros1: Message, ros2: Message)

  /** A factory carries the ROS 1 and ROS 2 type names that it was built for. */
  datatype Factory = Factory(ros1Type: string, ros2Type: string)

  function Ros1Type(m: Message): string {
    m.package + "/" + m.name
  }

  function Ros2Type(m: Message): string {
    m.package + "/msg/" + m.name
  }

  // ----- the flat tables -----

  function Get1to2Mapping(mappings: seq<Mapped>, ros1Type: string): Option<string> {
    if mappings == [] then None
    else if ros1Type == Ros1Type(mappings[0].ros1) then Some(Ros2Type(mappings[0].ros2))
    else Get1to2Mapping(mappings[1..], ros1Type)
  }

  function Get2to1Mapping(mappings: seq<Mapped>, ros2Type: string): Option<string> {
    if mappings == [] then None
    else if ros2Type == Ros2Type(mappings[0].ros2) then Some(Ros1Type(mappings[0].ros1))
    else Get2to1Mapping(mappings[1..], ros2Type)
  }

  // ----- the generated dispatch tree -----

  /** The if-chain of `get_factory_<package>__msg__<message>` over the mappings of that message. */
  function MessageFactory(mapped: seq<Mapped>, ros1Type: string, ros2Type: string): Option<Factory> {
    if mapped == [] then None
    else
      var m := mapped[0];
      if (ros1Type == Ros1Type(m.ros1) || ros1Type == "") && ros2Type == Ros2Type(m.ros2) then
        Some(Factory(Ros1Type(m.ros1), ros2Type))
      else MessageFactory(mapped[1..], ros1Type, ros2Type)
  }

  /** The mappings that the generator hands to the file of one ROS 2 message. */
  function MappingsOf(mappings: seq<Mapped>, message: Message): seq<Mapped> {
    if mappings == [] then []
    else if mappings[0].ros2 == message then [mappings[0]] + MappingsOf(mappings[1..], message)
    else MappingsOf(mappings[1..], message)
  }

  /** The cascade of `get_factory_<package>` over the messages of the package. */
  function PackageFactory(mappings: seq<Mapped>, messages: seq<Message>, package: string, ros1Type: string, ros2Type: string): Option<Factory> {
    if messages == [] then None
    else if messages[0].package != package then PackageFactory(mappings, messages[1..], package, ros1Type, ros2Type)
    else
      var f := MessageFactory(MappingsOf(mappings, messages[0]), ros1Type, ros2Type);
      if f.Some? then f else PackageFactory(mappings, messages[1..], package, ros1Type, ros2Type)
  }

  function BuiltinFactory(ros1Type: string, ros2Type: string): Option<Factory> {
    if (ros1Type == "std_msgs/Duration" || ros1Type == "") && ros2Type == "builtin_interfaces/msg/Duration" then
      Some(Factory("std_msgs/Duration", ros2Type))
    else if (ros1Type == "std_msgs/Time" || ros1Type == "") && ros2Type == "builtin_interfaces/msg/Time" then
      Some(Factory("std_msgs/Time", ros2Type))
    else None
  }

  function PackagesFactory(mappings: seq<Mapped>, messages: seq<Message>, packages: seq<string>, ros1Type: string, ros2Type: string): Option<Factory> {
    if packages == [] then None
    else
      var f := PackageFactory(mappings, messages, packages[0], ros1Type, ros2Type);
      if f.Some? then f else PackagesFactory(mappings, messages, packages[1..], ros1Type, ros2Type)
  }

  /** `get_factory`; None is the exception that no specialization exists. */
  function GetFactory(mappings: seq<Mapped>, messages: seq<Message>, packages: seq<string>, ros1Type: string, ros2Type: string): Option<Factory> {
    var f := BuiltinFactory(ros1Type, ros2Type);
    if f.Some? then f else PackagesFactory(mappings, messages, packages, ros1Type, ros2Type)
  }

  // ----- agreement -----

  /** Package and message names are identifiers. */
  predicate Plain(s: string) {
    '/' !in s
  }

  predicate PlainMessage(m: Message) {
    Plain(m.package) && Plain(m.name)
  }

  /** The context that the generator builds: all names are plain and every mapped ROS 2 message and
      its package are listed. */
  ghost predicate Listed(mappings: seq<Mapped>, messages: seq<Message>, packages: seq<string>) {
    && (forall m | m in mappings :: PlainMessage(m.ros2) && m.ros2 in messages && m.ros2.package in packages)
    && (forall m | m in messages :: PlainMessage(m))
  }

  /** Such a context exists for every list of mappings with plain names. */
  lemma ContextIsListed(mappings: seq<Mapped>)
    requires forall m | m in mappings :: '/' !in m.ros2.package && '/' !in m.ros2.name
    ensures Listed(mappings, seq(|mappings|, i requires 0 <= i < |mappings| => mappings[i].ros2),
                   seq(|mappings|, i requires 0 <= i < |mappings| => mappings[i].ros2.package))
  {
    var messages := seq(|mappings|, i requires 0 <= i < |mappings| => mappings[i].ros2);
    var packages := seq(|mappings|, i requires 0 <= i < |mappings| => mappings[i].ros2.package);
    forall m | m in mappings ensures m.ros2 in messages && m.ros2.package in packages {
      var i :| 0 <= i < |mappings| && mappings[i] == m;
      assert messages[i] == m.ros2 && packages[i] == m.ros2.package;
    }
  }

  /** A name without a slash ends where the first slash stands. */
  lemma FirstSlash(name: string, rest: string, i: nat)
    requires Plain(name) && i <= |name|
    ensures (name + "/" + rest)[i] == '/' <==> i == |name|
  {
    if i < |name| {
      assert name[i] in name;
    }
  }

  /** A ROS 2 type name determines its message. */
  lemma Ros2TypeInjective(m: Message, m': Message)
    requires PlainMessage(m) && PlainMessage(m') && Ros2Type(m) == Ros2Type(m')
    ensures m == m'
  {
    var p, p' := |m.package|, |m'.package|;
    var s, s' := Ros2Type(m), Ros2Type(m');
    assert s == m.package + "/" + ("msg/" + m.name);
    assert s' == m'.package + "/" + ("msg/" + m'.name);
    if p <= p' {
      FirstSlash(m'.package, "msg/" + m'.name, p);
    } else {
      FirstSlash(m.package, "msg/" + m.name, p');
    }
    assert s[p] == s'[p'] == '/';
    assert s[..p] == m.package && s[p + 5..] == m.name;
    assert s'[..p'] == m'.package && s'[p' + 5..] == m'.name;
  }

  /** The mapping that the flat scan picks for a request. */
  predicate Answers(m: Mapped, ros1Type: string, ros2Type: string) {
    (ros1Type == Ros1Type(m.ros1) || ros1Type == "") && ros2Type == Ros2Type(m.ros2)
  }

  /** Filtering by the requested message changes nothing; filtering by another leaves nothing. */
  lemma {:induction false} FilterIsHarmless(mappings: seq<Mapped>, message: Message, ros1Type: string, ros2Type: string)
    requires PlainMessage(message) && forall m | m in mappings :: PlainMessage(m.ros2)
    ensures ros2Type == Ros2Type(message) ==>
              MessageFactory(MappingsOf(mappings, message), ros1Type, ros2Type) == MessageFactory(mappings, ros1Type, ros2Type)
    ensures ros2Type != Ros2Type(message) ==>
              MessageFactory(MappingsOf(mappings, message), ros1Type, ros2Type) == None
  {
    if mappings != [] {
      var m, rest := mappings[0], mappings[1..];
      FilterIsHarmless(rest, message, ros1Type, ros2Type);
      if m.ros2 == message {
        assert MappingsOf(mappings, message)[1..] == MappingsOf(rest, message);
      } else if Ros2Type(m.ros2) == Ros2Type(message) {
        Ros2TypeInjective(m.ros2, message);
      }
    }
  }

  /** The cascade of a package finds what the flat scan finds if it lists a message of the
      requested type, and otherwise nothing. */
  lemma {:induction false} PackageScan(mappings: seq<Mapped>, messages: seq<Message>, package: string, ros1Type: string, ros2Type: string)
    requires forall m | m in mappings :: PlainMessage(m.ros2)
    requires forall m | m in messages :: PlainMessage(m)
    ensures var f := PackageFactory(mappings, messages, package, ros1Type, ros2Type);
            f == if exists m | m in messages :: m.package == package && Ros2Type(m) == ros2Type
                 then MessageFactory(mappings, ros1Type, ros2Type) else None
  {
    if messages != [] {
      var head, rest := messages[0], messages[1..];
      PackageScan(mappings, rest, package, ros1Type, ros2Type);
      FilterIsHarmless(mappings, head, ros1Type, ros2Type);
      assert messages == [head] + rest;
    }
  }

  lemma {:induction false} PackagesScan(mappings: seq<Mapped>, messages: seq<Message>, packages: seq<string>, ros1Type: string, ros2Type: string)
    requires forall m | m in mappings :: PlainMessage(m.ros2)
    requires forall m | m in messages :: PlainMessage(m)
    ensures var f := PackagesFactory(mappings, messages, packages, ros1Type, ros2Type);
            f == if exists m | m in messages :: m.package in packages && Ros2Type(m) == ros2Type
                 then MessageFactory(mappings, ros1Type, ros2Type) else None
  {
    if packages != [] {
      PackageScan(mappings, messages, packages[0], ros1Type, ros2Type);
      PackagesScan(mappings, messages, packages[1..], ros1Type, ros2Type);
      assert packages == [packages[0]] + packages[1..];
    }
  }

  /** The flat scan answers exactly if some mapping does, with the factory of such a mapping. */
  lemma {:induction false} FlatScan(mappings: seq<Mapped>, ros1Type: string, ros2Type: string)
    ensures var f := MessageFactory(mappings, ros1Type, ros2Type);
            if exists m | m in mappings :: Answers(m, ros1Type, ros2Type) then
              exists m | m in mappings :: Answers(m, ros1Type, ros2Type) && f == Some(Factory(Ros1Type(m.ros1), ros2Type))
            else f == None
  {
    if mappings != [] {
      var head, rest := mappings[0], mappings[1..];
      FlatScan(rest, ros1Type, ros2Type);
      assert mappings == [head] + rest;
      if Answers(head, ros1Type, ros2Type) {
        assert head in mappings;
      } else {
        assert forall m :: m in mappings && Answers(m, ros1Type, ros2Type) <==> m in rest && Answers(m, ros1Type, ros2Type);
      }
    }
  }

  /** A type of the package with the hand-written factories. */
  predicate IsBuiltin(ros2Type: string) {
    ros2Type == "builtin_interfaces/msg/Duration" || ros2Type == "builtin_interfaces/msg/Time"
  }

  /** Outside the built-in types, the nested dispatch is the flat scan of the mapping list. */
  lemma DispatchIsFlatScan(mappings: seq<Mapped>, messages: seq<Message>, packages: seq<string>, ros1Type: string, ros2Type: string)
    requires Listed(mappings, messages, packages) && !IsBuiltin(ros2Type)
    ensures GetFactory(mappings, messages, packages, ros1Type, ros2Type) == MessageFactory(mappings, ros1Type, ros2Type)
  {
    FlatOrNothing(mappings, messages, packages, ros1Type, ros2Type);
  }

  /** The order in which the generator lists packages and messages decides nothing. */
  lemma ListingOrderDoesNotMatter(mappings: seq<Mapped>, messages: seq<Message>, packages: seq<string>,
      messages': seq<Message>, packages': seq<string>, ros1Type: string, ros2Type: string)
    requires Listed(mappings, messages, packages) && Listed(mappings, messages', packages')
    ensures GetFactory(mappings, messages, packages, ros1Type, ros2Type)
         == GetFactory(mappings, messages', packages', ros1Type, ros2Type)
  {
    PackagesScan(mappings, messages, packages, ros1Type, ros2Type);
    PackagesScan(mappings, messages', packages', ros1Type, ros2Type);
    FlatScan(mappings, ros1Type, ros2Type);
    if MessageFactory(mappings, ros1Type, ros2Type).Some? {
      var m :| m in mappings && Answers(m, ros1Type, ros2Type);
      assert m.ros2 in messages && m.ros2 in messages';
    }
  }

  /** With two type names, a factory exists exactly if the pair is in the mapping list, and it is
      the factory of that pair. */
  lemma DispatchFindsExactlyThePairs(mappings: seq<Mapped>, messages: seq<Message>, packages: seq<string>, ros1Type: string, ros2Type: string)
    requires Listed(mappings, messages, packages) && !IsBuiltin(ros2Type) && ros1Type != ""
    ensures var f := GetFactory(mappings, messages, packages, ros1Type, ros2Type);
            && (f.Some? <==> exists m | m in mappings :: Ros1Type(m.ros1) == ros1Type && Ros2Type(m.ros2) == ros2Type)
            && (f.Some? ==> f.value == Factory(ros1Type, ros2Type))
  {
    DispatchIsFlatScan(mappings, messages, packages, ros1Type, ros2Type);
    FlatScan(mappings, ros1Type, ros2Type);
    if exists m | m in mappings :: Ros1Type(m.ros1) == ros1Type && Ros2Type(m.ros2) == ros2Type {
      var m :| m in mappings && Ros1Type(m.ros1) == ros1Type && Ros2Type(m.ros2) == ros2Type;
      assert Answers(m, ros1Type, ros2Type);
    }
  }

  /** With an unknown ROS 1 type, a factory exists exactly if the flat table has the ROS 2 type, and
      then it is built for the ROS 1 type that the table names. */
  lemma WildcardAgreesWithTable(mappings: seq<Mapped>, messages: seq<Message>, packages: seq<string>, ros2Type: string)
    requires Listed(mappings, messages, packages) && !IsBuiltin(ros2Type)
    ensures var f, t := GetFactory(mappings, messages, packages, "", ros2Type), Get2to1Mapping(mappings, ros2Type);
            f == if t.None? then None else Some(Factory(t.value, ros2Type))
  {
    DispatchIsFlatScan(mappings, messages, packages, "", ros2Type);
    WildcardScan(mappings, ros2Type);
  }

  lemma {:induction false} WildcardScan(mappings: seq<Mapped>, ros2Type: string)
    ensures var f, t := MessageFactory(mappings, "", ros2Type), Get2to1Mapping(mappings, ros2Type);
            f == if t.None? then None else Some(Factory(t.value, ros2Type))
  {
    if mappings != [] {
      WildcardScan(mappings[1..], ros2Type);
    }
  }

  /** The pair that bridge-all looks up is always one that the dispatch supports. */
  lemma BridgeAllPairsAreSupported(mappings: seq<Mapped>, messages: seq<Message>, packages: seq<string>, ros1Type: string, ros2Type: string)
    requires Listed(mappings, messages, packages) && ros1Type != "" && ros2Type != "" && !IsBuiltin(ros2Type)
    requires Get1to2Mapping(mappings, ros1Type) == Some(ros2Type) || Get2to1Mapping(mappings, ros2Type) == Some(ros1Type)
    ensures GetFactory(mappings, messages, packages, ros1Type, ros2Type) == Some(Factory(ros1Type, ros2Type))
  {
    DispatchFindsExactlyThePairs(mappings, messages, packages, ros1Type, ros2Type);
    TableEntriesAreMappings(mappings, ros1Type, ros2Type);
  }

  lemma {:induction false} TableEntriesAreMappings(mappings: seq<Mapped>, ros1Type: string, ros2Type: string)
    requires Get1to2Mapping(mappings, ros1Type) == Some(ros2Type) || Get2to1Mapping(mappings, ros2Type) == Some(ros1Type)
    ensures exists m | m in mappings :: Ros1Type(m.ros1) == ros1Type && Ros2Type(m.ros2) == ros2Type
  {
    var head := mappings[0];
    if Ros1Type(head.ros1) == ros1Type && Ros2Type(head.ros2) == ros2Type {
      assert head in mappings;
    } else {
      TableEntriesAreMappings(mappings[1..], ros1Type, ros2Type);
      assert mappings == [head] + mappings[1..];
    }
  }

  // ----- the tables and the dispatch, in full -----

  /** The first mapping of a ROS 1 type is the one that the table answers with, and only a type
      without any mapping has no answer. */
  lemma {:induction false} Table1to2Exactly(mappings: seq<Mapped>, ros1Type: string)
    ensures var r := Get1to2Mapping(mappings, ros1Type);
            && (r == None <==> forall m | m in mappings :: ros1Type != m.ros1.package + "/" + m.ros1.name)
            && (forall i | 0 <= i < |mappings| && ros1Type == mappings[i].ros1.package + "/" + mappings[i].ros1.name
                         && (forall j | 0 <= j < i :: ros1Type != mappings[j].ros1.package + "/" + mappings[j].ros1.name) ::
                  r == Some(mappings[i].ros2.package + "/msg/" + mappings[i].ros2.name))
  {
    if mappings != [] {
      var head, rest := mappings[0], mappings[1..];
      assert mappings == [head] + rest;
      Table1to2Exactly(rest, ros1Type);
      assert forall i | 1 <= i < |mappings| :: mappings[i] == rest[i - 1];
    }
  }

  lemma {:induction false} Table2to1Exactly(mappings: seq<Mapped>, ros2Type: string)
    ensures var r := Get2to1Mapping(mappings, ros2Type);
            && (r == None <==> forall m | m in mappings :: ros2Type != m.ros2.package + "/msg/" + m.ros2.name)
            && (forall i | 0 <= i < |mappings| && ros2Type == mappings[i].ros2.package + "/msg/" + mappings[i].ros2.name
                         && (forall j | 0 <= j < i :: ros2Type != mappings[j].ros2.package + "/msg/" + mappings[j].ros2.name) ::
                  r == Some(mappings[i].ros1.package + "/" + mappings[i].ros1.name))
  {
    if mappings != [] {
      var head, rest := mappings[0], mappings[1..];
      assert mappings == [head] + rest;
      Table2to1Exactly(rest, ros2Type);
      assert forall i | 1 <= i < |mappings| :: mappings[i] == rest[i - 1];
    }
  }

  /** The request names the two messages of the mapping, or leaves the ROS 1 type open. */
  predicate Requested(m: Mapped, ros1Type: string, ros2Type: string) {
    && (ros1Type == "" || ros1Type == m.ros1.package + "/" + m.ros1.name)
    && ros2Type == m.ros2.package + "/msg/" + m.ros2.name
  }

  lemma HeadDecides(mappings: seq<Mapped>, ros1Type: string, ros2Type: string)
    requires mappings != []
    ensures var m := mappings[0];
            MessageFactory(mappings, ros1Type, ros2Type) ==
              if Requested(m, ros1Type, ros2Type) then Some(Factory(m.ros1.package + "/" + m.ros1.name, ros2Type))
              else MessageFactory(mappings[1..], ros1Type, ros2Type)
  {
  }

  lemma {:induction false} FirstRequested(mappings: seq<Mapped>, ros1Type: string, ros2Type: string)
    ensures var f := MessageFactory(mappings, ros1Type, ros2Type);
            && (f == None <==> forall i | 0 <= i < |mappings| :: !Requested(mappings[i], ros1Type, ros2Type))
            && (forall i | 0 <= i < |mappings| && Requested(mappings[i], ros1Type, ros2Type)
                         && (forall j | 0 <= j < i :: !Requested(mappings[j], ros1Type, ros2Type)) ::
                  f == Some(Factory(mappings[i].ros1.package + "/" + mappings[i].ros1.name, ros2Type)))
  {
    hide Requested, MessageFactory;
    if mappings == [] {
      NothingToRequest(ros1Type, ros2Type);
    } else {
      var rest := mappings[1..];
      HeadDecides(mappings, ros1Type, ros2Type);
      FirstRequested(rest, ros1Type, ros2Type);
      assert forall i | 1 <= i < |mappings| :: mappings[i] == rest[i - 1];
      assert forall i | 0 <= i < |rest| :: rest[i] == mappings[i + 1];
    }
  }

  lemma NothingToRequest(ros1Type: string, ros2Type: string)
    ensures MessageFactory([], ros1Type, ros2Type) == None
  {
  }

  /** For every request: the two hand-written factories serve the ROS 2 types Duration and Time under
      the names of std_msgs, or with the ROS 1 type left open; for all other requests the first mapping
      that serves it decides, and if there is none, there is no factory. */
  lemma GetFactoryExactly(mappings: seq<Mapped>, messages: seq<Message>, packages: seq<string>, ros1Type: string, ros2Type: string)
    requires Listed(mappings, messages, packages)
    ensures var f := GetFactory(mappings, messages, packages, ros1Type, ros2Type);
            if ros2Type == "builtin_interfaces/msg/Duration" && (ros1Type == "std_msgs/Duration" || ros1Type == "") then
              f == Some(Factory("std_msgs/Duration", ros2Type))
            else if ros2Type == "builtin_interfaces/msg/Time" && (ros1Type == "std_msgs/Time" || ros1Type == "") then
              f == Some(Factory("std_msgs/Time", ros2Type))
            else
              && (f == None <==> forall i | 0 <= i < |mappings| :: !Requested(mappings[i], ros1Type, ros2Type))
              && (forall i | 0 <= i < |mappings| && Requested(mappings[i], ros1Type, ros2Type)
                           && (forall j | 0 <= j < i :: !Requested(mappings[j], ros1Type, ros2Type)) ::
                    f == Some(Factory(mappings[i].ros1.package + "/" + mappings[i].ros1.name, ros2Type)))
  {
    hide Requested;
    FirstRequested(mappings, ros1Type, ros2Type);
    FlatOrNothing(mappings, messages, packages, ros1Type, ros2Type);
  }

  /** Behind the built-in types, the nested dispatch is the flat scan. */
  lemma FlatOrNothing(mappings: seq<Mapped>, messages: seq<Message>, packages: seq<string>, ros1Type: string, ros2Type: string)
    requires Listed(mappings, messages, packages)
    ensures PackagesFactory(mappings, messages, packages, ros1Type, ros2Type) == MessageFactory(mappings, ros1Type, ros2Type)
  {
    PackagesScan(mappings, messages, packages, ros1Type, ros2Type);
    FlatScan(mappings, ros1Type, ros2Type);
    if MessageFactory(mappings, ros1Type, ros2Type).Some? {
      var m :| m in mappings && Answers(m, ros1Type, ros2Type);
      assert m.ros2 in messages;
    }
  }
}
