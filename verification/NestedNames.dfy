/** The first diagram at a single message, for schemas that are mapped by name at every level. */
module NestedNames {
  import opened Wrappers
  import opened LittleEndian
  import opened Schema
  import opened Conversion
  import opened Ros1Wire
  import opened DirectStream
  import opened Diagram
  import opened Refusal
  import opened Layout
  import opened WriteLimits
  import opened FieldMapping
  import opened MappingLimits

  // ----- messages with fields left out -----

  /** The ROS 2 to ROS 1 dictionary leaves out a field that takes bytes. */
  ghost predicate LeavesOut(s: Schema)
    requires s.Record?
  {
    exists i | 0 <= i < |s.fields| :: Width(s.fields[i]) > 0 && i !in DictionaryOrder(s.pairs21)
  }

  /** The traversal of `v` comes by such a message, at any depth. */
  ghost predicate Meets(s: Schema, v: Value)
    requires HasType2(s, v)
    decreases s
  {
    match s
    case Sequence(e, _) => exists i | 0 <= i < |v.elems| :: Meets(e, v.elems[i])
    case Array(e, _) => exists i | 0 <= i < |v.elems| :: Meets(e, v.elems[i])
    case Record(fs, _, p21, _) => LeavesOut(s) || exists k | 0 <= k < |p21| :: Meets(fs[p21[k].ros1], v.slots[p21[k].ros2])
    case _ => false
  }

  ghost function FieldWidths(fs: seq<Schema>): (r: seq<nat>)
    ensures |r| == |fs| && forall i | 0 <= i < |r| :: r[i] == Width(fs[i])
  {
    seq(|fs|, i requires 0 <= i < |fs| => Width(fs[i]))
  }

  /** The dictionary has no field twice and, unless it leaves one out, all that take bytes in
      declaration order. */
  ghost predicate InOrder(s: Schema)
    requires s.Record?
  {
    var order := DictionaryOrder(s.pairs21);
    && Indices(order, |s.fields|) && Distinct(order)
    && (LeavesOut(s) || Visible(FieldWidths(s.fields), order) == Visible(FieldWidths(s.fields), Declared(|s.fields|)))
  }

  /** Every message reachable from the schema is in order, or flagged. */
  ghost predicate Orderly(s: Schema)
    decreases s
  {
    match s
    case Sequence(e, _) => Orderly(e)
    case Array(e, _) => Orderly(e)
    case Record(fs, p12, _, _) => (forall i | 0 <= i < |fs| :: Orderly(fs[i])) && (FieldMissing(fs, p12) || InOrder(s))
    case _ => true
  }

  // ----- types without bytes -----

  lemma {:induction false} NoWidthNoBytes(s: Schema, v: Value)
    requires WellFormed(s) && HasType1(s, v) && Width(s) == 0
    ensures Enc1(s, v) == []
    decreases s, 0, 0
  {
    match s
    case Array(e, n) =>
      if n > 0 { NoWidthNoElement(e, n); }
      NoWidthNoBody(e, v.elems);
    case Record(fs, _, _, _) =>
      forall i | 0 <= i < |fs| ensures Width(fs[i]) == 0 {
        if Width(fs[i]) > 0 { FieldHasWidth(fs, Fresh1(s).slots, 0, i); }
      }
      NoWidthNoFields(fs, v.slots, 0);
    case _ =>
  }

  lemma NoWidthNoElement(e: Schema, n: nat)
    requires n > 0 && WellFormed(Array(e, n)) && Width(Array(e, n)) == 0
    ensures !e.Prim? && Width(e) == 0
  {
    var vs := Copies(n, Fresh1(e));
    assert Fresh1(Array(e, n)) == List(vs) && ElemsHaveType1(e, vs);
    assert Width(Array(e, n)) == |EncBody(e, vs)|;
    hide HasType1, Fresh1, Enc1;
    if e.Prim? {
      BlockHasWidth(e, vs);
    } else {
      assert EncBody(e, vs) == Enc1(e, vs[0]) + EncElems(e, vs, 1);
    }
  }

  lemma NoWidthNoBody(e: Schema, vs: seq<Value>)
    requires WellFormed(e) && ElemsHaveType1(e, vs) && (vs != [] ==> !e.Prim? && Width(e) == 0)
    ensures EncBody(e, vs) == []
    decreases e, 2, 0
  {
    hide HasType1, WellFormed, Width, Enc1;
    if vs != [] { NoWidthNoElems(e, vs, 0); }
  }

  lemma {:induction false} NoWidthNoElems(e: Schema, vs: seq<Value>, k: nat)
    requires WellFormed(e) && ElemsHaveType1(e, vs) && Width(e) == 0 && k <= |vs|
    ensures EncElems(e, vs, k) == []
    decreases e, 1, |vs| - k
  {
    hide HasType1, WellFormed, Width, Enc1;
    if k < |vs| {
      NoWidthNoBytes(e, vs[k]);
      NoWidthNoElems(e, vs, k + 1);
    }
  }

  lemma {:induction false} NoWidthNoFields(fs: seq<Schema>, vs: seq<Value>, k: nat)
    requires FieldsHaveType1(fs, vs) && k <= |fs| && forall i | 0 <= i < |fs| :: WellFormed(fs[i]) && Width(fs[i]) == 0
    ensures EncFields(fs, vs, k) == []
    decreases fs, 1, |fs| - k
  {
    hide HasType1, WellFormed, Width, Enc1;
    if k < |fs| {
      NoWidthNoBytes(fs[k], vs[k]);
      NoWidthNoFields(fs, vs, k + 1);
    }
  }

  // ----- the same bytes, or fewer -----

  /** What was written for some bytes: fewer if anything was left out, and these bytes otherwise. */
  predicate Written(w: Option<seq<byte>>, bs: seq<byte>, short: bool) {
    w.Some? && if short then |w.value| < |bs| else w.value == bs
  }

  lemma WrittenConcat(v: Option<seq<byte>>, a: seq<byte>, short: bool, w: Option<seq<byte>>, b: seq<byte>, short': bool)
    requires Written(v, a, short) && Written(w, b, short')
    ensures Written(Join(v, w), a + b, short || short')
  {
  }

  lemma {:induction false} NestedDiagram(s: Schema, v2: Value)
    requires WellFormed(s) && Orderly(s) && HasType2(s, v2) && !Hits(s, v2)
    ensures Written(Write(s, v2), Enc1(s, To1(s, v2, Fresh1(s))), Meets(s, v2))
    decreases s, 3, 0
  {
    hide ElemsTo1, FieldsTo1, WriteBody, WriteFields, EncBody, EncFields, InOrder, LeavesOut;
    match s
    case Sequence(e, _) =>
      var ts := Resized([], |v2.elems|, Fresh1(e));
      NestedBody(e, v2.elems, ts);
      WrittenConcat(Some(U32(|v2.elems|)), U32(|v2.elems|), false, WriteBody(e, v2.elems), EncBody(e, ElemsTo1(e, v2.elems, ts)), Meets(s, v2));
    case Array(e, n) => NestedBody(e, v2.elems, Copies(n, Fresh1(e)));
    case Record(_, _, _, _) => NestedRecord(s, v2);
    case _ => DirectWriteIsSerialization(s, v2);
  }

  lemma NestedBody(e: Schema, vs: seq<Value>, ts: seq<Value>)
    requires WellFormed(e) && Orderly(e) && ElemsHaveType2(e, vs) && |vs| == |ts| && forall i | 0 <= i < |ts| :: ts[i] == Fresh1(e)
    requires forall i | 0 <= i < |vs| :: !Hits(e, vs[i])
    ensures ElemsHaveType1(e, ts)
    ensures Written(WriteBody(e, vs), EncBody(e, ElemsTo1(e, vs, ts)), exists i | 0 <= i < |vs| :: Meets(e, vs[i]))
    decreases e, 5, 0
  {
    hide HasType1, Fresh1;
    if e.Prim? {
      assert ElemsTo1(e, vs, ts) == vs;
    } else {
      NestedElems(e, vs, ts, 0);
    }
  }

  lemma {:induction false} NestedElems(e: Schema, vs: seq<Value>, ts: seq<Value>, k: nat)
    requires WellFormed(e) && Orderly(e) && ElemsHaveType2(e, vs) && |vs| == |ts| && forall i | 0 <= i < |ts| :: ts[i] == Fresh1(e)
    requires k <= |vs| && forall i | 0 <= i < |vs| :: !Hits(e, vs[i])
    ensures ElemsHaveType1(e, ts)
    ensures Written(WriteElems(e, vs, k), EncElems(e, ElemsTo1(e, vs, ts), k), exists i | k <= i < |vs| :: Meets(e, vs[i]))
    decreases e, 4, |vs| - k
  {
    hide HasType1, HasType2, Fresh1, Write, Enc1, To1, WellFormed, Orderly, Hits, Meets;
    if k < |vs| {
      NestedDiagram(e, vs[k]);
      NestedElems(e, vs, ts, k + 1);
      var us := ElemsTo1(e, vs, ts);
      WrittenConcat(Write(e, vs[k]), Enc1(e, us[k]), Meets(e, vs[k]),
                    WriteElems(e, vs, k + 1), EncElems(e, us, k + 1), exists i | k + 1 <= i < |vs| :: Meets(e, vs[i]));
    }
  }

  /** Without repetitions, each named field has the conversion of its partner. */
  lemma {:induction false} FieldsTo1Once(fs: seq<Schema>, pairs: seq<Pair>, k: nat, slots2: seq<Value>, slots1: seq<Value>)
    requires k <= |pairs| && Distinct(DictionaryOrder(pairs)) && forall i | 0 <= i < |fs| :: WellFormed(fs[i])
    requires MembersHaveType2(fs, pairs, slots2) && FieldsHaveType1(fs, slots1)
    ensures var r := FieldsTo1(fs, pairs, k, slots2, slots1);
            && (forall l | k <= l < |pairs| ::
                  r[pairs[l].ros1] == To1(fs[pairs[l].ros1], slots2[pairs[l].ros2], slots1[pairs[l].ros1]))
            && (forall i | 0 <= i < |fs| && NotNamed(pairs, k, i) :: r[i] == slots1[i])
    decreases |pairs| - k
  {
    hide To1, HasType1, HasType2, WellFormed, NotNamed;
    if k < |pairs| {
      var i, j := pairs[k].ros1, pairs[k].ros2;
      var v := To1(fs[i], slots2[j], slots1[i]);
      FieldsTo1Once(fs, pairs, k + 1, slots2, slots1[i := v]);
      NotNamedFrom(pairs, k);
      NotNamedAgain(pairs, k);
    }
  }

  lemma NotNamedAgain(pairs: seq<Pair>, k: nat)
    requires k < |pairs| && Distinct(DictionaryOrder(pairs))
    ensures NotNamed(pairs, k + 1, pairs[k].ros1)
  {
    var order := DictionaryOrder(pairs);
    assert forall l | k < l < |pairs| :: order[k] != order[l];
  }

  lemma ConvertedOnce(s: Schema, v2: Value)
    requires s.Record? && WellFormed(s) && HasType2(s, v2) && InOrder(s)
    ensures v2.Struct? && MembersHaveType2(s.fields, s.pairs21, v2.slots) && (forall i | 0 <= i < |s.fields| :: WellFormed(s.fields[i]))
    ensures var vs, p := Converted(s, v2), s.pairs21;
            && (forall k | 0 <= k < |p| ::
                  vs[p[k].ros1] == To1(s.fields[p[k].ros1], v2.slots[p[k].ros2], Fresh1(s.fields[p[k].ros1])))
            && (forall i | 0 <= i < |s.fields| && NotNamed(p, 0, i) :: vs[i] == Fresh1(s.fields[i]))
  {
    hide HasType1, Visible, LeavesOut;
    FieldsTo1Once(s.fields, s.pairs21, 0, v2.slots, Fresh1(s).slots);
  }

  /** What is written for the members from position `k` of the dictionary on. */
  lemma {:induction false} NestedFields(s: Schema, v2: Value, segments: seq<seq<byte>>, k: nat)
    requires s.Record? && WellFormed(s) && (forall i | 0 <= i < |s.fields| :: WellFormed(s.fields[i]) && Orderly(s.fields[i]))
    requires v2.Struct? && MembersHaveType2(s.fields, s.pairs21, v2.slots) && k <= |s.pairs21| && |segments| == |s.fields|
    requires Indices(DictionaryOrder(s.pairs21), |segments|)
    requires forall l | 0 <= l < |s.pairs21| :: !Hits(s.fields[s.pairs21[l].ros1], v2.slots[s.pairs21[l].ros2])
    requires forall l | 0 <= l < |s.pairs21| ::
               var f := s.fields[s.pairs21[l].ros1]; segments[s.pairs21[l].ros1] == Enc1(f, To1(f, v2.slots[s.pairs21[l].ros2], Fresh1(f)))
    ensures Written(WriteFields(s.fields, s.pairs21, v2.slots, k), Bytes(segments, DictionaryOrder(s.pairs21)[k..]),
                    exists l | k <= l < |s.pairs21| :: Meets(s.fields[s.pairs21[l].ros1], v2.slots[s.pairs21[l].ros2]))
    decreases s.fields, 4, |s.pairs21| - k
  {
    hide HasType1, HasType2, Fresh1, Write, Enc1, To1, WellFormed, Orderly, Hits, Meets;
    var fs, p, order := s.fields, s.pairs21, DictionaryOrder(s.pairs21);
    if k < |p| {
      var i, j := p[k].ros1, p[k].ros2;
      NestedDiagram(fs[i], v2.slots[j]);
      NestedFields(s, v2, segments, k + 1);
      assert order[k..] == [order[k]] + order[k + 1..];
      BytesOfConcat(segments, [order[k]], order[k + 1..]);
      BytesOfOne(segments, order[k]);
      hide Bytes;
      WrittenConcat(Write(fs[i], v2.slots[j]), segments[i], Meets(fs[i], v2.slots[j]),
                    WriteFields(fs, p, v2.slots, k + 1), Bytes(segments, order[k + 1..]),
                    exists l | k + 1 <= l < |p| :: Meets(fs[p[l].ros1], v2.slots[p[l].ros2]));
    }
  }

  lemma NestedRecord(s: Schema, v2: Value)
    requires s.Record? && WellFormed(s) && Orderly(s) && HasType2(s, v2) && !Hits(s, v2)
    ensures Written(Write(s, v2), Enc1(s, To1(s, v2, Fresh1(s))), Meets(s, v2))
    decreases s, 2, 0
  {
    RecordPieces(s, v2);
    NestedMembers(s, v2);
    hide HasType1, HasType2, Fresh1, Write, Enc1, To1, WellFormed, Bytes, Visible, LeavesOut, Converted, WriteFields, DictionaryOrder;
    if LeavesOut(s) {
      LeftOutIsShorter(s, v2);
    } else {
      NothingVisibleLeftOut(s, v2);
    }
  }

  /** All members, compared with the named fields of the converted message. */
  lemma NestedMembers(s: Schema, v2: Value)
    requires s.Record? && WellFormed(s) && Orderly(s) && HasType2(s, v2) && !Hits(s, v2)
    ensures v2.Struct? && MembersHaveType2(s.fields, s.pairs21, v2.slots) && InOrder(s)
    ensures Written(WriteFields(s.fields, s.pairs21, v2.slots, 0), Bytes(Segments(s.fields, Converted(s, v2)), DictionaryOrder(s.pairs21)),
                    exists l | 0 <= l < |s.pairs21| :: Meets(s.fields[s.pairs21[l].ros1], v2.slots[s.pairs21[l].ros2]))
    decreases s, 1, 0
  {
    var fs, p, order := s.fields, s.pairs21, DictionaryOrder(s.pairs21);
    ConvertedOnce(s, v2);
    assert forall i | 0 <= i < |fs| :: Orderly(fs[i]);
    assert forall l | 0 <= l < |p| :: !Hits(fs[p[l].ros1], v2.slots[p[l].ros2]);
    hide HasType1, HasType2, Fresh1, Write, Enc1, To1, WellFormed, Bytes, Visible, LeavesOut, Converted, WriteFields, Meets, Hits, Orderly;
    NestedFields(s, v2, Segments(fs, Converted(s, v2)), 0);
    assert order[0..] == order;
  }

  lemma RecordPieces(s: Schema, v2: Value)
    requires s.Record? && WellFormed(s) && HasType2(s, v2)
    ensures v2.Struct? && MembersHaveType2(s.fields, s.pairs21, v2.slots)
    ensures Enc1(s, To1(s, v2, Fresh1(s))) == Bytes(Segments(s.fields, Converted(s, v2)), Declared(|s.fields|))
    ensures !FieldMissing(s.fields, s.pairs12) ==> Write(s, v2) == WriteFields(s.fields, s.pairs21, v2.slots, 0)
  {
    hide WriteFields, HasType1;
    FieldsAreSegments(s.fields, Converted(s, v2), 0);
    assert Declared(|s.fields|)[..0] == [];
  }

  lemma LeftOutIsShorter(s: Schema, v2: Value)
    requires s.Record? && WellFormed(s) && HasType2(s, v2) && InOrder(s) && LeavesOut(s)
    ensures var segments := Segments(s.fields, Converted(s, v2));
            |Bytes(segments, DictionaryOrder(s.pairs21))| < |Bytes(segments, Declared(|s.fields|))|
  {
    hide HasType1, HasType2, WellFormed, Enc1, Fresh1, Visible, Converted, Bytes;
    ConvertedOnce(s, v2);
    var i :| 0 <= i < |s.fields| && Width(s.fields[i]) > 0 && i !in DictionaryOrder(s.pairs21);
    NamedOrNot(s.pairs21, i);
    var segments := Segments(s.fields, Converted(s, v2));
    LengthOfBytes(segments, DictionaryOrder(s.pairs21));
    LengthOfBytes(segments, Declared(|s.fields|));
    MissingPartIsMissed(Lengths(segments), DictionaryOrder(s.pairs21), |s.fields|, i);
  }

  lemma NothingVisibleLeftOut(s: Schema, v2: Value)
    requires s.Record? && WellFormed(s) && HasType2(s, v2) && InOrder(s) && !LeavesOut(s)
    ensures var segments := Segments(s.fields, Converted(s, v2));
            Bytes(segments, DictionaryOrder(s.pairs21)) == Bytes(segments, Declared(|s.fields|))
  {
    assert forall i | 0 <= i < |s.fields| :: WellFormed(s.fields[i]);
    hide HasType1, HasType2, WellFormed, Enc1, Fresh1, Visible, Converted, Bytes, Width, LeavesOut;
    var segments, widths := Segments(s.fields, Converted(s, v2)), FieldWidths(s.fields);
    forall i | 0 <= i < |widths| && widths[i] == 0 ensures segments[i] == [] {
      NoWidthNoBytes(s.fields[i], Converted(s, v2)[i]);
    }
    VisibleBytes(segments, widths, DictionaryOrder(s.pairs21));
    VisibleBytes(segments, widths, Declared(|s.fields|));
  }

  lemma {:induction false} VisibleBytes(parts: seq<seq<byte>>, widths: seq<nat>, order: seq<nat>)
    requires |parts| == |widths| && Indices(order, |parts|) && forall i | 0 <= i < |widths| && widths[i] == 0 :: parts[i] == []
    ensures Bytes(parts, Visible(widths, order)) == Bytes(parts, order)
  {
    if order != [] {
      var front, last := order[..|order| - 1], order[|order| - 1];
      VisibleBytes(parts, widths, front);
      if widths[last] > 0 {
        var r := Visible(widths, front) + [last];
        assert r[..|r| - 1] == Visible(widths, front);
      } else {
        assert Visible(widths, order) == Visible(widths, front);
      }
    }
  }

  // ----- names -----

  /** The schema of a message is what the generator makes of these names without manual rules. */
  ghost predicate NamedAs(s: Schema, fields: seq<string>, members: seq<Member>)
    requires s.Record?
  {
    DistinctNames(fields) && |s.fields| == |fields| && s == NameBased(fields, members, s.fields, s.defaults)
  }

  ghost predicate Named(s: Schema)
    requires s.Record?
  {
    exists fields, members :: NamedAs(s, fields, members)
  }

  /** Every message reachable from the schema is mapped by name. */
  ghost predicate NamedThroughout(s: Schema)
    decreases s
  {
    match s
    case Sequence(e, _) => NamedThroughout(e)
    case Array(e, _) => NamedThroughout(e)
    case Record(fs, _, _, _) => (forall i | 0 <= i < |fs| :: NamedThroughout(fs[i])) && Named(s)
    case _ => true
  }

  /** The flag of the generator is that of the schema. */
  lemma FlagOfNames(s: Schema, fields: seq<string>, members: seq<Member>)
    requires s.Record? && NamedAs(s, fields, members)
    ensures FieldMissing(s.fields, s.pairs12) <==> SomeLeftOver([], members, fields)
  {
    hide NameBased, SomeLeftOver;
    if SomeLeftOver([], members, fields) {
      LeftOverIsMissing(s, fields, members);
    } else {
      NameBasedPairs(fields, members, s.fields, s.defaults);
      forall i | 0 <= i < |s.fields| ensures Mentions(s.pairs12, i) {
        assert s.pairs12[i].ros1 == i;
      }
    }
  }

  lemma LeftOverIsMissing(s: Schema, fields: seq<string>, members: seq<Member>)
    requires s.Record? && NamedAs(s, fields, members) && SomeLeftOver([], members, fields)
    ensures FieldMissing(s.fields, s.pairs12)
  {
    PairsAreMatched(s, fields, members);
    hide NamedAs, HasMember;
    var i :| 0 <= i < |fields| && LeftOver([], members, fields[i]);
    assert !Mentions(s.pairs12, i);
    assert |s.fields| == |fields|;
  }

  lemma PairsAreMatched(s: Schema, fields: seq<string>, members: seq<Member>)
    requires s.Record? && NamedAs(s, fields, members)
    ensures |s.fields| == |fields|
    ensures forall k | 0 <= k < |s.pairs12| :: s.pairs12[k].ros1 < |fields| && HasMember(members, fields[s.pairs12[k].ros1])
  {
    var d := NamePairs(fields, members, |fields|);
    assert Assignments(fields, members, []) == d;
    hide NamePairs, PutAll, HasMember, MatchesMember, FieldAt;
    ForwardInDeclarationOrder(fields, members);
    NamePairsAreMatched(fields, members, |fields|);
    assert s.pairs12 == Pairs12(fields, members, d);
    hide NameBased, NamedAs;
    forall k | 0 <= k < |d| ensures FieldAt(fields, d[k].0[0]) < |fields| && HasMember(members, fields[FieldAt(fields, d[k].0[0])]) {
      assert d[k] in d;
      FieldIsFound(fields, d[k].0[0]);
    }
  }

  lemma FieldIsFound(fields: seq<string>, name: string)
    requires name in fields
    ensures FieldAt(fields, name) < |fields|
  {
  }

  /** A message that is mapped by name leaves out a field with bytes if and only if the name of such a
      field differs from that of a later one in case only. */
  lemma LeavesOutIffCollision(s: Schema, fields: seq<string>, members: seq<Member>)
    requires s.Record? && WellFormed(s) && NamedAs(s, fields, members) && !SomeLeftOver([], members, fields)
    ensures LeavesOut(s) <==> !CollisionsAreEmpty(fields, s.fields)
    ensures InOrder(s)
  {
    NamesAreOrdered(s, fields, members);
    hide NameBased, Width, WellFormed, OrderAfter, Visible, DictionaryOrder;
    if CollisionsAreEmpty(fields, s.fields) {
      EmptyCollisionsAreInvisible(fields, members, s.fields, s.defaults);
      assert Widths(Parts(s)) == FieldWidths(s.fields);
      SameVisibleLeavesNoneOut(s);
    } else {
      var i, j :| 0 <= i < j < |fields| && Lower(fields[i]) == Lower(fields[j]) && Width(s.fields[i]) != 0;
      ColliderIsLeftOut(fields, members, i, j);
    }
  }

  lemma SameVisibleLeavesNoneOut(s: Schema)
    requires s.Record? && Indices(DictionaryOrder(s.pairs21), |s.fields|)
    requires Visible(FieldWidths(s.fields), DictionaryOrder(s.pairs21)) == Visible(FieldWidths(s.fields), Declared(|s.fields|))
    ensures !LeavesOut(s)
  {
    hide Width, Visible, DictionaryOrder;
    forall i | 0 <= i < |s.fields| && Width(s.fields[i]) > 0 ensures i in DictionaryOrder(s.pairs21) {
      assert Declared(|s.fields|)[i] == i;
      VisibleIff(FieldWidths(s.fields), DictionaryOrder(s.pairs21), i);
      VisibleIff(FieldWidths(s.fields), Declared(|s.fields|), i);
    }
  }

  lemma NamesAreOrdered(s: Schema, fields: seq<string>, members: seq<Member>)
    requires s.Record? && WellFormed(s) && NamedAs(s, fields, members) && !SomeLeftOver([], members, fields)
    ensures Unflagged(fields, members, s.fields, s.defaults) && AllMatched(fields, members)
    ensures DictionaryOrder(s.pairs21) == OrderAfter(fields, members, |fields|) && Distinct(DictionaryOrder(s.pairs21))
  {
    NameBasedPairs(fields, members, s.fields, s.defaults);
    OrderOfPairs(fields, members);
  }

  lemma {:induction false} VisibleIff(widths: seq<nat>, order: seq<nat>, i: nat)
    requires Indices(order, |widths|) && i < |widths|
    ensures i in Visible(widths, order) <==> i in order && widths[i] > 0
  {
    if order != [] {
      VisibleIff(widths, order[..|order| - 1], i);
      assert order == order[..|order| - 1] + [order[|order| - 1]];
    }
  }

  lemma {:induction false} NamedIsOrderly(s: Schema)
    requires WellFormed(s) && NamedThroughout(s)
    ensures Orderly(s)
    decreases s
  {
    match s
    case Sequence(e, _) => NamedIsOrderly(e);
    case Array(e, _) => NamedIsOrderly(e);
    case Record(fs, p12, _, _) =>
      forall i | 0 <= i < |fs| ensures Orderly(fs[i]) {
        NamedIsOrderly(fs[i]);
      }
      NamedIsInOrder(s);
    case _ =>
  }

  lemma NamedIsInOrder(s: Schema)
    requires s.Record? && WellFormed(s) && Named(s)
    ensures FieldMissing(s.fields, s.pairs12) || InOrder(s)
  {
    hide WellFormed, NamedAs, FieldMissing, InOrder;
    var fields, members :| NamedAs(s, fields, members);
    FlagOfNames(s, fields, members);
    if !SomeLeftOver([], members, fields) { LeavesOutIffCollision(s, fields, members); }
  }

  /** For schemas that are mapped by name at every level, flagged and colliding names included: the
      first diagram holds at a message if and only if its traversal meets neither a flagged record nor
      one that leaves out a field with bytes. If it meets the latter only, the stream is too short. */
  lemma NestedNameBasedDiagram(s: Schema, v2: Value)
    requires WellFormed(s) && NamedThroughout(s) && HasType2(s, v2)
    ensures Commutes(s, v2) <==> !Hits(s, v2) && !Meets(s, v2)
    ensures !Hits(s, v2) && Meets(s, v2) ==> Write(s, v2).Some? && |Write(s, v2).value| < |Enc1(s, To1(s, v2, Fresh1(s)))|
  {
    NamedIsOrderly(s);
    WriteRefusesExactlyHits(s, v2);
    hide Write, Enc1, To1, Fresh1, HasType2, WellFormed, Hits, Meets, Orderly, NamedThroughout;
    if !Hits(s, v2) { NestedDiagram(s, v2); }
  }
}
