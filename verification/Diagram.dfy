/** The commuting diagrams between the direct streams, the in-memory conversions and the plain
    ROS 1 serializer. */
module Diagram {
  import opened Wrappers
  import opened LittleEndian
  import opened Schema
  import opened Conversion
  import opened RoundTrip
  import opened Ros1Wire
  import opened DirectStream
  import opened SerializerLaws
  import opened Wrapping

  // ----- writing a ROS 2 message directly -----

  lemma CoveringMentions(fs: seq<Schema>, pairs: seq<Pair>)
    requires Covering(fs, pairs)
    ensures !FieldMissing(fs, pairs)
  {
    forall i | 0 <= i < |fs| ensures Mentions(pairs, i) {
      assert pairs[i].ros1 == i;
    }
  }

  /** First diagram: streaming a ROS 2 message directly yields, byte for byte, the ROS 1
      serialization of its conversion into a default-constructed ROS 1 message. */
  lemma {:induction false} DirectWriteIsSerialization(s: Schema, v2: Value)
    requires WellFormed(s) && Covered(s) && HasType2(s, v2)
    ensures Write(s, v2) == Some(Enc1(s, To1(s, v2, Fresh1(s))))
    decreases s, 3, 0
  {
    match s
    case Time => assert U32(ToUint32(v2.sec)) == U32(v2.sec);
    case Duration => assert U32(ToInt32(v2.nsec)) == U32(v2.nsec);
    case Header => assert U32(ToUint32(v2.slots[0].sec)) == U32(v2.slots[0].sec);
    case Sequence(e, _) => DirectBody(e, v2.elems, Resized([], |v2.elems|, Fresh1(e)));
    case Array(e, n) => DirectBody(e, v2.elems, Copies(n, Fresh1(e)));
    case Record(fs, p12, p21, _) =>
      CoveringMentions(fs, p12);
      FieldsTo1At(fs, p21, 0, v2.slots, Fresh1(s).slots);
      DirectFields(fs, p21, v2.slots, To1(s, v2, Fresh1(s)).slots, 0);
    case _ =>
  }

  lemma DirectBody(e: Schema, vs: seq<Value>, ts: seq<Value>)
    requires WellFormed(e) && Covered(e) && ElemsHaveType2(e, vs) && |vs| == |ts|
    requires forall i | 0 <= i < |ts| :: ts[i] == Fresh1(e)
    ensures ElemsHaveType1(e, ts)
    ensures WriteBody(e, vs) == Some(EncBody(e, ElemsTo1(e, vs, ts)))
    decreases e, 5, 0
  {
    hide HasType1, Fresh1;
    if e.Prim? {
      assert ElemsTo1(e, vs, ts) == vs;
    } else {
      DirectElems(e, vs, ts, 0);
    }
  }

  lemma {:induction false} DirectElems(e: Schema, vs: seq<Value>, ts: seq<Value>, k: nat)
    requires WellFormed(e) && Covered(e) && ElemsHaveType2(e, vs) && k <= |vs| == |ts|
    requires forall i | 0 <= i < |ts| :: ts[i] == Fresh1(e)
    ensures ElemsHaveType1(e, ts)
    ensures WriteElems(e, vs, k) == Some(EncElems(e, ElemsTo1(e, vs, ts), k))
    decreases e, 4, |vs| - k
  {
    hide HasType1, HasType2, Fresh1, Write, Enc1, To1, WellFormed, Covered;
    if k < |vs| {
      DirectWriteIsSerialization(e, vs[k]);
      DirectElems(e, vs, ts, k + 1);
    }
  }

  lemma {:induction false} DirectFields(fs: seq<Schema>, pairs: seq<Pair>, slots2: seq<Value>, slots1: seq<Value>, k: nat)
    requires Covering(fs, pairs) && k <= |pairs|
    requires forall i | 0 <= i < |fs| :: WellFormed(fs[i]) && Covered(fs[i])
    requires MembersHaveType2(fs, pairs, slots2) && FieldsHaveType1(fs, slots1)
    requires forall i | 0 <= i < |fs| :: slots1[i] == To1(fs[i], slots2[pairs[i].ros2], Fresh1(fs[i]))
    ensures WriteFields(fs, pairs, slots2, k) == Some(EncFields(fs, slots1, k))
    decreases fs, 4, |pairs| - k
  {
    hide HasType1, HasType2, Fresh1, Write, Enc1, To1, WellFormed, Covered;
    if k < |pairs| {
      DirectWriteIsSerialization(fs[k], slots2[pairs[k].ros2]);
      DirectFields(fs, pairs, slots2, slots1, k + 1);
    }
  }

  // ----- counting the length -----

  /** The length pass counts the bytes of the writing pass modulo 2^32, and both refuse the same
      messages; no assumption on the message is needed. */
  lemma {:induction false} LengthIsModular(s: Schema, v: Value)
    requires HasType2(s, v)
    ensures Len(s, v).Some? <==> Write(s, v).Some?
    ensures Len(s, v).Some? ==> Len(s, v).value == ToUint32(|Write(s, v).value|)
    decreases s, 3, 0
  {
    match s
    case Sequence(e, _) =>
      LengthOfBody(e, v.elems);
      LengthOfJoin(Some(U32(|v.elems|)), WriteBody(e, v.elems), Some(4), LenBody(e, v.elems));
    case Array(e, _) => LengthOfBody(e, v.elems);
    case Record(fs, _, p21, _) => LengthOfFields(fs, p21, v.slots, 0);
    case _ =>
  }

  lemma LengthOfJoin(a: Option<seq<byte>>, b: Option<seq<byte>>, m: Option<nat>, n: Option<nat>)
    requires (m.Some? <==> a.Some?) && (m.Some? ==> m.value == ToUint32(|a.value|))
    requires (n.Some? <==> b.Some?) && (n.Some? ==> n.value == ToUint32(|b.value|))
    ensures Plus(m, n).Some? <==> Join(a, b).Some?
    ensures Plus(m, n).Some? ==> Plus(m, n).value == ToUint32(|Join(a, b).value|)
  {
  }

  lemma LengthOfBody(e: Schema, vs: seq<Value>)
    requires ElemsHaveType2(e, vs)
    ensures LenBody(e, vs).Some? <==> WriteBody(e, vs).Some?
    ensures LenBody(e, vs).Some? ==> LenBody(e, vs).value == ToUint32(|WriteBody(e, vs).value|)
    decreases e, 5, 0
  {
    if !e.Prim? {
      LengthOfElems(e, vs, 0);
    }
  }

  lemma {:induction false} LengthOfElems(e: Schema, vs: seq<Value>, k: nat)
    requires k <= |vs| && ElemsHaveType2(e, vs)
    ensures LenElems(e, vs, k).Some? <==> WriteElems(e, vs, k).Some?
    ensures LenElems(e, vs, k).Some? ==> LenElems(e, vs, k).value == ToUint32(|WriteElems(e, vs, k).value|)
    decreases e, 4, |vs| - k
  {
    hide Len, Write, HasType2, Plus, Join, ToUint32;
    if k < |vs| {
      LengthIsModular(e, vs[k]);
      LengthOfElems(e, vs, k + 1);
      LengthOfJoin(Write(e, vs[k]), WriteElems(e, vs, k + 1), Len(e, vs[k]), LenElems(e, vs, k + 1));
    }
  }

  lemma {:induction false} LengthOfFields(fs: seq<Schema>, pairs: seq<Pair>, vs: seq<Value>, k: nat)
    requires k <= |pairs| && MembersHaveType2(fs, pairs, vs)
    ensures LenFields(fs, pairs, vs, k).Some? <==> WriteFields(fs, pairs, vs, k).Some?
    ensures LenFields(fs, pairs, vs, k).Some? ==>
              LenFields(fs, pairs, vs, k).value == ToUint32(|WriteFields(fs, pairs, vs, k).value|)
    decreases fs, 4, |pairs| - k
  {
    hide Len, Write, HasType2, Plus, Join, ToUint32;
    if k < |pairs| {
      var f, v := fs[pairs[k].ros1], vs[pairs[k].ros2];
      LengthIsModular(f, v);
      LengthOfFields(fs, pairs, vs, k + 1);
      LengthOfJoin(Write(f, v), WriteFields(fs, pairs, vs, k + 1), Len(f, v), LenFields(fs, pairs, vs, k + 1));
    }
  }

  /** The reported length is exact precisely when the message is shorter than 2^32 bytes. */
  lemma LengthExactness(s: Schema, v2: Value)
    requires WellFormed(s) && Covered(s) && HasType2(s, v2)
    ensures Len(s, v2).Some? && Write(s, v2).Some?
    ensures Len(s, v2).value == |Write(s, v2).value| <==> |Write(s, v2).value| < TWO_TO_THE_32
  {
    hide Len, Write, Enc1, To1, HasType1, HasType2, WellFormed, Covered;
    DirectWriteIsSerialization(s, v2);
    LengthIsModular(s, v2);
  }

  // ----- reading a ROS 2 message directly -----

  /** The result of parsing a ROS 1 message and converting it over the target. */
  function ParseAndConvert(s: Schema, bs: seq<byte>, t2: Value): Option<Parsed<Value>>
    requires WellFormed(s) && HasType2(s, t2)
  {
    var p := Dec1(s, bs);
    if p.None? then None
    else
      var r := To2(s, p.value.value, t2);
      if r.None? then None else Some(Parsed(r.value, p.value.rest))
  }

  /** Reading fails when the ROS 1 deserializer does, and otherwise consumes the same bytes. */
  lemma {:induction false} ReadConsumes(s: Schema, bs: seq<byte>, t2: Value)
    requires WellFormed(s) && Covered(s) && HasType2(s, t2) && Read(s, bs, t2).Some?
    ensures Dec1(s, bs).Some? && Read(s, bs, t2).value.rest == Dec1(s, bs).value.rest
    decreases s, 3, 0
  {
    match s
    case Sequence(e, b) =>
      var n := TakeU32(bs);
      ReadBodyConsumes(e, n.value.rest, Resized(t2.elems, n.value.value, Fresh2(e)));
    case Array(e, _) => ReadBodyConsumes(e, bs, t2.elems);
    case Record(_, _, _, _) => ReadFieldsConsumes(s, 0, bs, t2.slots);
    case _ =>
  }

  lemma ReadBodyConsumes(e: Schema, bs: seq<byte>, ts: seq<Value>)
    requires WellFormed(e) && Covered(e) && ElemsHaveType2(e, ts) && ReadInto(e, ts, bs).Some?
    ensures DecBody(e, |ts|, bs).Some? && ReadInto(e, ts, bs).value.rest == DecBody(e, |ts|, bs).value.rest
    decreases e, 5, 0
  {
    hide Read, Dec1, HasType2, Covered;
    if !e.Prim? {
      ReadElemsConsumes(e, bs, ts, 0);
    }
  }

  lemma {:induction false} ReadElemsConsumes(e: Schema, bs: seq<byte>, ts: seq<Value>, k: nat)
    requires WellFormed(e) && Covered(e) && k <= |ts| && ElemsHaveType2(e, ts) && ReadElems(e, ts, k, bs).Some?
    ensures var p := DecElems(e, |ts| - k, bs); p.Some? && ReadElems(e, ts, k, bs).value.rest == p.value.rest
    decreases e, 4, |ts| - k
  {
    hide Read, Dec1, HasType1, HasType2, WellFormed, Covered;
    if k < |ts| {
      ReadConsumes(e, bs, ts[k]);
      ReadElemsConsumes(e, Dec1(e, bs).value.rest, ts, k + 1);
    }
  }

  lemma {:induction false} ReadFieldsConsumes(s: Schema, k: nat, bs: seq<byte>, slots2: seq<Value>)
    requires s.Record? && WellFormed(s) && Covered(s) && k <= |s.fields|
    requires HasType2(s, Struct(slots2)) && ReadFields(s, k, bs, slots2).Some?
    ensures var p := DecFields(s.fields, k, bs); p.Some? && ReadFields(s, k, bs, slots2).value.rest == p.value.rest
    decreases s.fields, 4, |s.fields| - k
  {
    hide Read, Dec1, HasType1, HasType2, WellFormed;
    if k < |s.fields| {
      MemberTyped(s, slots2, s.pairs21[k]);
      var j := s.pairs21[k].ros2;
      var read := Read(s.fields[k], bs, slots2[j]).value;
      ReadConsumes(s.fields[k], bs, slots2[j]);
      StoreMember(s, slots2, s.pairs21[k], read.value);
      ReadFieldsConsumes(s, k + 1, read.rest, slots2[j := read.value]);
    }
  }

  /** A converted value together with the bytes that follow it. */
  function WithRest<T>(r: Option<T>, rest: seq<byte>): Option<Parsed<T>> {
    if r.None? then None else Some(Parsed(r.value, rest))
  }

  function AsList(r: Option<seq<Value>>): Option<Value> {
    if r.None? then None else Some(List(r.value))
  }

  /** What a direct read does to a byte string that parses: it converts the parsed message, patched
      with the target's own elements behind every wrapped block. */
  lemma {:induction false} ReadConvertsPatched(s: Schema, bs: seq<byte>, t2: Value)
    requires WellFormed(s) && Covered(s) && HasType2(s, t2) && Dec1(s, bs).Some?
    ensures var p := Dec1(s, bs).value;
            Read(s, bs, t2) == WithRest(To2(s, Patch(s, p.value, t2), t2), p.rest)
    decreases s, 3, 0
  {
    match s
    case Sequence(_, _) => ReadSequenceConverts(s, bs, t2);
    case Array(e, _) => ReadBodyConverts(e, bs, t2.elems);
    case Record(_, _, _, _) => ReadRecordConverts(s, bs, t2);
    case _ =>
  }

  lemma ReadSequenceConverts(s: Schema, bs: seq<byte>, t2: Value)
    requires s.Sequence? && WellFormed(s) && Covered(s) && HasType2(s, t2) && Dec1(s, bs).Some?
    ensures var p := Dec1(s, bs).value;
            Read(s, bs, t2) == WithRest(To2(s, Patch(s, p.value, t2), t2), p.rest)
    decreases s, 2, 0
  {
    var n := TakeU32(bs).value;
    if !(s.bound.Some? && n.value > s.bound.value) {
      ReadBodyConverts(s.elem, n.rest, Resized(t2.elems, n.value, Fresh2(s.elem)));
    }
  }

  lemma ReadRecordConverts(s: Schema, bs: seq<byte>, t2: Value)
    requires s.Record? && WellFormed(s) && Covered(s) && HasType2(s, t2) && Dec1(s, bs).Some?
    ensures var p := Dec1(s, bs).value;
            Read(s, bs, t2) == WithRest(To2(s, Patch(s, p.value, t2), t2), p.rest)
    decreases s, 2, 0
  {
    hide Read, Dec1, To2, Patch, PatchFields, ReadFields, DecFields, FieldsTo2, WellFormed, HasType1, HasType2, Covered;
    RecordParses(s, bs);
    RecordTyped(s, t2);
    var p := DecFields(s.fields, 0, bs).value;
    RecordPatches(s, p.value, t2);
    ReadFieldsConverts(s, 0, bs, t2.slots, PatchFields(s, p.value, t2.slots));
    RecordReads(s, bs, t2);
    RecordConverts(s, Struct(PatchFields(s, p.value, t2.slots)), t2);
  }

  lemma RecordParses(s: Schema, bs: seq<byte>)
    requires s.Record? && WellFormed(s) && Dec1(s, bs).Some?
    ensures FieldsWellFormed(s) && DecFields(s.fields, 0, bs).Some?
    ensures var p := DecFields(s.fields, 0, bs).value;
            Dec1(s, bs).value == Parsed(Struct(p.value), p.rest)
  {
    assert FieldsWellFormed(s) by { hide Dec1, DecFields, HasType1; }
    hide WellFormed, DecFields;
  }

  lemma RecordReads(s: Schema, bs: seq<byte>, t2: Value)
    requires s.Record? && WellFormed(s) && Covered(s) && HasType2(s, t2)
    ensures t2.Struct? && HasType2(s, Struct(t2.slots))
    ensures var r := ReadFields(s, 0, bs, t2.slots);
            Read(s, bs, t2) == if r.None? then None else Some(Parsed(Struct(r.value.value), r.value.rest))
  {
    CoveringMentions(s.fields, s.pairs12);
  }

  lemma RecordPatches(s: Schema, vs: seq<Value>, t2: Value)
    requires s.Record? && WellFormed(s) && Covered(s) && HasType1(s, Struct(vs)) && HasType2(s, t2)
    ensures t2.Struct? && HasType2(s, Struct(t2.slots)) && FieldsHaveType1(s.fields, vs)
    ensures var ws := PatchFields(s, vs, t2.slots);
            && HasType1(s, Struct(ws)) && FieldsHaveType1(s.fields, ws)
            && Patch(s, Struct(vs), t2) == Struct(ws) && PatchedFrom(s, 0, vs, t2.slots, ws)
  {
    hide PatchField;
  }

  /** `ws` has the patched values of the fields from position `k` on. */
  ghost predicate PatchedFrom(s: Schema, k: nat, vs: seq<Value>, slots2: seq<Value>, ws: seq<Value>)
    requires s.Record? && WellFormed(s) && Covered(s) && HasType2(s, Struct(slots2)) && |ws| == |s.fields|
  {
    && k + |vs| == |s.fields|
    && forall i | 0 <= i < |vs| :: HasType1(s.fields[k + i], vs[i]) && ws[k + i] == PatchField(s, k + i, vs[i], slots2)
  }

  /** Storing one member does not concern the fields that follow. */
  lemma PatchedFromNext(s: Schema, k: nat, head: Value, tail: seq<Value>, slots2: seq<Value>, ws: seq<Value>, v: Value)
    requires s.Record? && WellFormed(s) && Covered(s) && HasType2(s, Struct(slots2)) && |ws| == |s.fields|
    requires k < |s.fields| && PatchedFrom(s, k, [head] + tail, slots2, ws) && HasType2(s.fields[k], v)
    ensures s.pairs21[k].ros2 < |slots2| && HasType2(s, Struct(slots2[s.pairs21[k].ros2 := v]))
    ensures PatchedFrom(s, k + 1, tail, slots2[s.pairs21[k].ros2 := v], ws)
  {
    hide Patch, HasType1, HasType2, WellFormed;
    var j, vs := s.pairs21[k].ros2, [head] + tail;
    StoreMember(s, slots2, s.pairs21[k], v);
    var slots2' := slots2[j := v];
    forall i | 0 <= i < |tail|
      ensures HasType1(s.fields[k + 1 + i], tail[i])
      ensures ws[k + 1 + i] == PatchField(s, k + 1 + i, tail[i], slots2')
    {
      assert vs[1 + i] == tail[i] && k + (1 + i) == k + 1 + i;
      MemberTyped(s, slots2, s.pairs21[k + 1 + i]);
    }
  }

  lemma RecordConverts(s: Schema, v1: Value, t2: Value)
    requires s.Record? && WellFormed(s) && HasType1(s, v1) && HasType2(s, t2)
    ensures v1.Struct? && t2.Struct? && FieldsHaveType1(s.fields, v1.slots) && HasType2(s, Struct(t2.slots))
    ensures var r := FieldsTo2(s, 0, v1.slots, t2.slots);
            To2(s, v1, t2) == if r.None? then None else Some(Struct(r.value))
  {
  }

  ghost predicate FieldsWellFormed(s: Schema)
    requires s.Record?
  {
    forall i | 0 <= i < |s.fields| :: WellFormed(s.fields[i])
  }

  lemma RecordTyped(s: Schema, t2: Value)
    requires s.Record? && WellFormed(s) && HasType2(s, t2)
    ensures t2.Struct? && HasType2(s, Struct(t2.slots)) && FieldsWellFormed(s)
  {
  }

  lemma ReadBodyConverts(e: Schema, bs: seq<byte>, ts: seq<Value>)
    requires WellFormed(e) && Covered(e) && ElemsHaveType2(e, ts) && DecBody(e, |ts|, bs).Some?
    ensures var p := DecBody(e, |ts|, bs).value;
            ReadInto(e, ts, bs) == WithRest(AsList(ElemsTo2(e, PatchBody(e, p.value.elems, ts), ts, 0)), p.rest)
    decreases e, 5, 0
  {
    hide Read, Dec1, To2, HasType1, HasType2, WellFormed, Covered, Patch, ElemsTo2, ReadElems, DecElems;
    if e.Prim? {
      ReadBlockConverts(e, bs, ts);
    } else {
      hide Overlay, Take, Copies;
      var vs := DecElems(e, |ts|, bs).value.value;
      ReadElemsConverts(e, bs, ts, 0, PatchElems(e, vs, ts));
    }
  }

  /** `ws` has the patched values of the elements from position `k` on. */
  ghost predicate PatchedElemsFrom(e: Schema, k: nat, vs: seq<Value>, ts: seq<Value>, ws: seq<Value>)
    requires WellFormed(e) && Covered(e) && ElemsHaveType2(e, ts) && |ws| == |ts|
  {
    && k + |vs| == |ts|
    && forall i | 0 <= i < |vs| :: HasType1(e, vs[i]) && ws[k + i] == Patch(e, vs[i], ts[k + i])
  }

  lemma ReadBlockConverts(e: Schema, bs: seq<byte>, ts: seq<Value>)
    requires e.Prim? && WellFormed(e) && ElemsHaveType2(e, ts) && DecBody(e, |ts|, bs).Some?
    ensures var p := DecBody(e, |ts|, bs).value; var ws := PatchBody(e, p.value.elems, ts);
            ReadInto(e, ts, bs) == Some(Parsed(List(ws), p.rest)) && ElemsTo2(e, ws, ts, 0) == Some(ws)
  {
    hide Overlay, ElemsTo2;
    var w, m, len, zeros := e.width, BlockCount(e.width, |ts|), BlockLength(e.width, |ts|), Copies(|ts|, Num(0));
    assert Numbers(w, zeros);
    OverlayParts(w, m, bs[..len], ts, zeros);
    PrimitivesConvert(e, PatchBody(e, Overlay(w, bs[..len], zeros), ts), ts, 0);
  }

  lemma {:induction false} ReadElemsConverts(e: Schema, bs: seq<byte>, ts: seq<Value>, k: nat, ws: seq<Value>)
    requires WellFormed(e) && Covered(e) && k <= |ts| == |ws| && ElemsHaveType2(e, ts) && ElemsHaveType1(e, ws)
    requires DecElems(e, |ts| - k, bs).Some? && PatchedElemsFrom(e, k, DecElems(e, |ts| - k, bs).value.value, ts, ws)
    ensures ReadElems(e, ts, k, bs) == WithRest(ElemsTo2(e, ws, ts, k), DecElems(e, |ts| - k, bs).value.rest)
    decreases e, 4, |ts| - k
  {
    hide Read, Dec1, To2, Patch, HasType1, HasType2, WellFormed, Covered;
    if k < |ts| {
      var head := Dec1(e, bs).value;
      var p, tail := DecElems(e, |ts| - k, bs).value, DecElems(e, |ts| - k - 1, head.rest).value;
      assert p.value == [head.value] + tail.value && p.rest == tail.rest;
      hide DecElems;
      assert p.value[0] == head.value && ws[k + 0] == Patch(e, head.value, ts[k + 0]);
      forall i | 0 <= i < |tail.value|
        ensures HasType1(e, tail.value[i]) && ws[k + 1 + i] == Patch(e, tail.value[i], ts[k + 1 + i])
      {
        assert p.value[1 + i] == tail.value[i] && k + (1 + i) == k + 1 + i;
      }
      hide PatchedElemsFrom;
      assert PatchedElemsFrom(e, k + 1, tail.value, ts, ws);
      ReadConvertsPatched(e, bs, ts[k]);
      ReadElemsConverts(e, head.rest, ts, k + 1, ws);
    }
  }

  lemma {:induction false} ReadFieldsConverts(s: Schema, k: nat, bs: seq<byte>, slots2: seq<Value>, ws: seq<Value>)
    requires s.Record? && WellFormed(s) && Covered(s) && k <= |s.fields|
    requires HasType2(s, Struct(slots2)) && DecFields(s.fields, k, bs).Some? && FieldsHaveType1(s.fields, ws)
    requires PatchedFrom(s, k, DecFields(s.fields, k, bs).value.value, slots2, ws)
    ensures ReadFields(s, k, bs, slots2) == WithRest(FieldsTo2(s, k, ws, slots2), DecFields(s.fields, k, bs).value.rest)
    decreases s.fields, 4, |s.fields| - k
  {
    hide Read, Dec1, To2, Patch, HasType1, HasType2;
    var fs := s.fields;
    if k < |fs| {
      MemberTyped(s, slots2, s.pairs21[k]);
      var j := s.pairs21[k].ros2;
      var head := Dec1(fs[k], bs).value;
      var p, tail := DecFields(fs, k, bs).value, DecFields(fs, k + 1, head.rest).value;
      assert p.value == [head.value] + tail.value && p.rest == tail.rest;
      hide DecFields;
      assert p.value[0] == head.value && ws[k + 0] == PatchField(s, k + 0, head.value, slots2);
      assert ws[k] == Patch(fs[k], head.value, slots2[j]);
      hide PatchedFrom, PatchField;
      ReadConvertsPatched(fs[k], bs, slots2[j]);
      var read := Read(fs[k], bs, slots2[j]);
      if read.Some? {
        PatchedFromNext(s, k, head.value, tail.value, slots2, ws, read.value.value);
        ReadFieldsConverts(s, k + 1, head.rest, slots2[j := read.value.value], ws);
      }
    }
  }

  /** Reading succeeds if and only if parsing does and no sequence exceeds the bound of its
      partner. */
  lemma ReadIffParsesWithinBounds(s: Schema, bs: seq<byte>, t2: Value)
    requires WellFormed(s) && Covered(s) && HasType2(s, t2)
    ensures Read(s, bs, t2).Some? <==> Dec1(s, bs).Some? && WithinBounds(s, Dec1(s, bs).value.value)
  {
    hide Read, Dec1, To2, Patch, HasType1, HasType2, WellFormed, Covered, WithinBounds, SameBlocks, Normal;
    if Dec1(s, bs).Some? {
      var v1 := Dec1(s, bs).value.value;
      ReadConvertsPatched(s, bs, t2);
      PatchKeepsBlocks(s, v1, t2);
      ConvertsIffWithinBounds(s, Patch(s, v1, t2), t2);
    } else if Read(s, bs, t2).Some? {
      ReadConsumes(s, bs, t2);
    }
  }

  /** Second diagram, for every byte string, well formed or not. Reading into a ROS 2 message fails
      when the ROS 1 deserializer fails; it gives the conversion of the parsed message over the
      target, and the same rest, if and only if the conversion is refused as well or the target
      holds behind every wrapped block what the parsed message has there, which is zeros. */
  lemma DirectReadIsParseAndConvert(s: Schema, bs: seq<byte>, t2: Value)
    requires WellFormed(s) && Covered(s) && HasType2(s, t2)
    ensures Dec1(s, bs).None? ==> Read(s, bs, t2) == ParseAndConvert(s, bs, t2) == None
    ensures Dec1(s, bs).Some? ==>
              var v1 := Dec1(s, bs).value.value;
              && TailsZero(s, v1)
              && (Read(s, bs, t2) == ParseAndConvert(s, bs, t2) <==> !WithinBounds(s, v1) || TailsAgree(s, v1, t2))
              && (Fits1(s, v1) ==> TailsAgree(s, v1, t2))
  {
    hide Read, Dec1, To2, Patch, HasType1, HasType2, WellFormed, Covered, Fits1, WithinBounds, TailsZero, TailsAgree, WordSized;
    ReadIffParsesWithinBounds(s, bs, t2);
    if Dec1(s, bs).Some? {
      var v1 := Dec1(s, bs).value.value;
      ParsedIsParseable(s, bs);
      ReadConvertsPatched(s, bs, t2);
      ConvertsIffWithinBounds(s, v1, t2);
      if WithinBounds(s, v1) { PatchedConverts(s, v1, t2); }
      if Fits1(s, v1) { FittingTailsAgree(s, v1, t2); }
    }
  }
}
