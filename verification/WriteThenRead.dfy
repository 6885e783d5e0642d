/** Reading what was written, for messages with any dictionaries: writing and reading follow the same
    ROS 2 to ROS 1 dictionary, so that nothing but its keys matters. */
module WriteThenRead {
  import opened Wrappers
  import opened LittleEndian
  import opened Schema
  import opened RoundTrip
  import opened Ros1Wire
  import opened DirectStream
  import opened Wrapping
  import opened SerializerLaws
  import opened Refusal
  import StreamRoundTrip

  // ----- the conditions -----

  /** Every element count that the traversal of the message meets fits its 32-bit word. */
  predicate CountsFit(s: Schema, v: Value)
    requires HasType2(s, v)
    decreases s
  {
    match s
    case Sequence(e, _) => |v.elems| < TWO_TO_THE_32 && forall i | 0 <= i < |v.elems| :: CountsFit(e, v.elems[i])
    case Array(e, _) => forall i | 0 <= i < |v.elems| :: CountsFit(e, v.elems[i])
    case Record(fs, _, p21, _) => forall k | 0 <= k < |p21| :: CountsFit(fs[p21[k].ros1], v.slots[p21[k].ros2])
    case _ => true
  }

  /** Behind every block with a wrapped byte count, the target of the read already holds the elements
      of the message. */
  ghost predicate TargetHasTails(s: Schema, v: Value, t: Value)
    requires WellFormed(s) && HasType2(s, v) && HasType2(s, t)
    decreases s, 0
  {
    match s
    case Sequence(e, _) => TargetHasTail(e, v.elems, Resized(t.elems, |v.elems|, Fresh2(e)))
    case Array(e, _) => TargetHasTail(e, v.elems, t.elems)
    case Record(fs, _, p21, _) =>
      forall k | 0 <= k < |p21| :: TargetHasTails(fs[p21[k].ros1], v.slots[p21[k].ros2], t.slots[p21[k].ros2])
    case _ => true
  }

  ghost predicate TargetHasTail(e: Schema, vs: seq<Value>, ts: seq<Value>)
    requires WellFormed(e) && |vs| == |ts| && ElemsHaveType2(e, vs) && ElemsHaveType2(e, ts)
    decreases e, 1
  {
    if e.Prim? then forall i | BlockCount(e.width, |vs|) <= i < |vs| :: vs[i] == ts[i]
    else forall i | 0 <= i < |vs| :: TargetHasTails(e, vs[i], ts[i])
  }

  ghost predicate MemberHasTails(s: Schema, k: nat, vs: seq<Value>, ts: seq<Value>)
    requires s.Record? && WellFormed(s) && k < |s.pairs21| && HasType2(s, Struct(vs)) && HasType2(s, Struct(ts))
  {
    var i, j := s.pairs21[k].ros1, s.pairs21[k].ros2;
    TargetHasTails(s.fields[i], vs[j], ts[j])
  }

  /** Member `k` of the dictionary is restored. */
  ghost predicate MemberRestored(s: Schema, k: nat, vs: seq<Value>, ts: seq<Value>, rs: seq<Value>)
    requires s.Record? && WellFormed(s) && k < |s.pairs21|
    requires HasType2(s, Struct(vs)) && HasType2(s, Struct(ts)) && HasType2(s, Struct(rs))
  {
    var i, j := s.pairs21[k].ros1, s.pairs21[k].ros2;
    Restores(s.fields[i], vs[j], ts[j], rs[j])
  }

  // ----- counts that fit are read back -----

  lemma ReadOfWrittenHeader(v: Value, rest: seq<byte>)
    requires HasType2(Header, v)
    ensures ReadHeader(Write(Header, v).value + rest) == Some(Parsed(v, rest))
  {
    var c := StringBytes(v.slots[1].chars) + rest;
    var b := StampBytes(v.slots[0]) + c;
    assert Write(Header, v).value + rest == U32(0) + b;
    TakeU32OfConcat(0, b);
    TakeStampOfConcat(v.slots[0], c);
    Reinterpret(v.slots[0].sec);
    TakeStringOfConcat(v.slots[1].chars, rest);
    assert v == Struct([v.slots[0], v.slots[1]]);
  }

  lemma ReadOfWrittenScalar(s: Schema, v: Value, rest: seq<byte>)
    requires s.Prim? || s.Bool? || s.Str?
    requires WellFormed(s) && HasType2(s, v)
    ensures Write(s, v).Some? && forall t | HasType2(s, t) :: Read(s, Write(s, v).value + rest, t) == Some(Parsed(v, rest))
  {
    match s
    case Prim(w) =>
      hide Encode, Decode, Pow256;
      TakeOfConcat(Encode(w, v.n), rest);
      DecodeOfEncode(w, v.n);
    case Bool => TakeOfConcat([v.n], rest);
    case Str => TakeStringOfConcat(v.chars, rest);
  }

  lemma ReadOfWrittenStamp(s: Schema, v: Value, rest: seq<byte>)
    requires s.Time? || s.Duration?
    requires HasType2(s, v)
    ensures Write(s, v).Some? && ReadStamp(Write(s, v).value + rest) == Some(Parsed(v, rest))
  {
    TakeStampOfConcat(v, rest);
    Reinterpret(v.sec);
  }

  lemma {:induction false} ReadOfWritten(s: Schema, v: Value, t: Value, rest: seq<byte>)
    requires WellFormed(s) && Keyed(s) && HasType2(s, v) && HasType2(s, t) && CountsFit(s, v) && Write(s, v).Some?
    ensures var r := Read(s, Write(s, v).value + rest, t);
            r.Some? && r.value.rest == rest && (Restores(s, v, t, r.value.value) <==> TargetHasTails(s, v, t))
    decreases s, 3, 0
  {
    hide ReadInto, WriteBody, ReadStamp, ReadHeader, RestoresElems, TargetHasTail, Pow256, Encode;
    match s
    case Time => ReadOfWrittenStamp(s, v, rest);
    case Duration => ReadOfWrittenStamp(s, v, rest);
    case Header => ReadOfWrittenHeader(v, rest);
    case Sequence(e, _) => ReadOfWrittenSequence(s, v, t, rest);
    case Array(e, _) => ReadOfWrittenBody(e, v.elems, t.elems, rest);
    case Record(_, _, _, _) => ReadOfWrittenRecord(s, v, t, rest);
    case _ => ReadOfWrittenScalar(s, v, rest);
  }

  lemma ReadOfWrittenSequence(s: Schema, v: Value, t: Value, rest: seq<byte>)
    requires s.Sequence? && WellFormed(s) && Keyed(s) && HasType2(s, v) && HasType2(s, t) && CountsFit(s, v) && Write(s, v).Some?
    ensures var r := Read(s, Write(s, v).value + rest, t);
            r.Some? && r.value.rest == rest && (Restores(s, v, t, r.value.value) <==> TargetHasTails(s, v, t))
    decreases s, 2, 0
  {
    hide ReadInto, WriteBody, RestoresElems, TargetHasTail;
    var body, ts := WriteBody(s.elem, v.elems).value, Resized(t.elems, |v.elems|, Fresh2(s.elem));
    assert Write(s, v).value + rest == U32(|v.elems|) + (body + rest);
    TakeU32OfConcat(|v.elems|, body + rest);
    ReadOfWrittenBody(s.elem, v.elems, ts, rest);
  }

  lemma ReadOfWrittenBody(e: Schema, vs: seq<Value>, ts: seq<Value>, rest: seq<byte>)
    requires WellFormed(e) && Keyed(e) && |vs| == |ts| && ElemsHaveType2(e, vs) && ElemsHaveType2(e, ts)
    requires (forall i | 0 <= i < |vs| :: CountsFit(e, vs[i])) && WriteBody(e, vs).Some?
    ensures var r := ReadInto(e, ts, WriteBody(e, vs).value + rest);
            r.Some? && r.value.rest == rest && (RestoresElems(e, vs, ts, r.value.value.elems) <==> TargetHasTail(e, vs, ts))
    decreases e, 5, 0
  {
    hide Read, Write, HasType2, WellFormed, Keyed, CountsFit, TargetHasTails, Overlay, BlockMemory, Restores;
    if e.Prim? {
      ReadOfWrittenBlock(e, vs, ts, rest);
    } else {
      ReadOfWrittenElems(e, vs, ts, 0, rest);
    }
  }

  lemma ReadOfWrittenBlock(e: Schema, vs: seq<Value>, ts: seq<Value>, rest: seq<byte>)
    requires e.Prim? && WellFormed(e) && |vs| == |ts| && ElemsHaveType2(e, vs) && ElemsHaveType2(e, ts)
    ensures WriteBody(e, vs).Some?
    ensures var r := ReadInto(e, ts, WriteBody(e, vs).value + rest);
            r.Some? && r.value.rest == rest && (RestoresElems(e, vs, ts, r.value.value.elems) <==> TargetHasTail(e, vs, ts))
  {
    hide Overlay, BlockMemory;
    var w, m := e.width, BlockCount(e.width, |vs|);
    MemoryOfPrefix(w, vs, m);
    OverlayOfMemory(w, vs[..m], ts);
    var bs, r := BlockBytes(w, vs), vs[..m] + ts[m..];
    TakeOfConcat(bs, rest);
    assert Overlay(w, bs, ts) == r;
    assert forall i | 0 <= i < |vs| :: Restores(e, vs[i], ts[i], r[i]) <==> r[i] == vs[i];
    assert forall i | 0 <= i < |vs| :: r[i] == if i < m then vs[i] else ts[i];
  }

  lemma {:induction false} ReadOfWrittenElems(e: Schema, vs: seq<Value>, ts: seq<Value>, k: nat, rest: seq<byte>)
    requires WellFormed(e) && Keyed(e) && k <= |vs| == |ts| && ElemsHaveType2(e, vs) && ElemsHaveType2(e, ts)
    requires (forall i | 0 <= i < |vs| :: CountsFit(e, vs[i])) && WriteElems(e, vs, k).Some?
    ensures var r := ReadElems(e, ts, k, WriteElems(e, vs, k).value + rest);
            r.Some? && r.value.rest == rest && |r.value.value| == |vs| - k &&
            forall i | 0 <= i < |vs| - k ::
              Restores(e, vs[k + i], ts[k + i], r.value.value[i]) <==> TargetHasTails(e, vs[k + i], ts[k + i])
    decreases e, 4, |vs| - k
  {
    hide Read, Write, HasType2, WellFormed, Keyed, CountsFit, TargetHasTails, Restores;
    if k == |vs| {
      assert WriteElems(e, vs, k).value + rest == rest;
    } else {
      var head, tail := Write(e, vs[k]).value, WriteElems(e, vs, k + 1).value;
      assert WriteElems(e, vs, k).value + rest == head + (tail + rest);
      ReadOfWritten(e, vs[k], ts[k], tail + rest);
      ReadOfWrittenElems(e, vs, ts, k + 1, rest);
      var first, more := Read(e, head + (tail + rest), ts[k]).value.value, ReadElems(e, ts, k + 1, tail + rest).value.value;
      hide ReadElems, WriteElems;
      forall i | 0 <= i < |vs| - k
        ensures Restores(e, vs[k + i], ts[k + i], ([first] + more)[i]) <==> TargetHasTails(e, vs[k + i], ts[k + i])
      {
        if i > 0 { assert ([first] + more)[i] == more[i - 1] && vs[k + i] == vs[k + 1 + (i - 1)] && ts[k + i] == ts[k + 1 + (i - 1)]; }
      }
    }
  }

  lemma ReadOfWrittenRecord(s: Schema, v: Value, t: Value, rest: seq<byte>)
    requires s.Record? && WellFormed(s) && Keyed(s) && HasType2(s, v) && HasType2(s, t) && CountsFit(s, v) && Write(s, v).Some?
    ensures var r := Read(s, Write(s, v).value + rest, t);
            r.Some? && r.value.rest == rest && (Restores(s, v, t, r.value.value) <==> TargetHasTails(s, v, t))
    decreases s, 2, 0
  {
    var p := s.pairs21;
    assert HasType2(s, Struct(v.slots)) && HasType2(s, Struct(t.slots)) && MembersHaveType2(s.fields, p, v.slots);
    assert forall l | 0 <= l < |p| :: CountsFit(s.fields[p[l].ros1], v.slots[p[l].ros2]);
    ReadOfWrittenFields(s, v.slots, t.slots, 0, t.slots, rest);
    var r := ReadFields(s, 0, WriteFields(s.fields, p, v.slots, 0).value + rest, t.slots).value.value;
    RecordSteps(s, v, t, Write(s, v).value + rest);
    RecordRestored(s, v, t, r);
  }

  lemma RecordSteps(s: Schema, v: Value, t: Value, bs: seq<byte>)
    requires s.Record? && WellFormed(s) && HasType2(s, v) && HasType2(s, t) && Write(s, v).Some?
    ensures v.Struct? && t.Struct? && MembersHaveType2(s.fields, s.pairs21, v.slots) && HasType2(s, Struct(t.slots))
    ensures Write(s, v) == WriteFields(s.fields, s.pairs21, v.slots, 0)
    ensures var r := ReadFields(s, 0, bs, t.slots);
            Read(s, bs, t) == if r.None? then None else Some(Parsed(Struct(r.value.value), r.value.rest))
  {
    hide ReadFields, WriteFields;
  }

  lemma RecordRestored(s: Schema, v: Value, t: Value, rs: seq<Value>)
    requires s.Record? && WellFormed(s) && HasType2(s, v) && HasType2(s, t) && HasType2(s, Struct(rs))
    requires v.Struct? && t.Struct? && HasType2(s, Struct(v.slots)) && HasType2(s, Struct(t.slots))
    requires forall k | 0 <= k < |s.pairs21| :: MemberRestored(s, k, v.slots, t.slots, rs) <==> MemberHasTails(s, k, v.slots, t.slots)
    requires forall j | 0 <= j < |rs| && !Partner(s.pairs21, j) :: rs[j] == t.slots[j]
    ensures Restores(s, v, t, Struct(rs)) <==> TargetHasTails(s, v, t)
  {
    RestoresByMember(s, v, t, rs);
    TailsByMember(s, v, t);
    hide Restores, TargetHasTails, MemberRestored, MemberHasTails, HasType2, WellFormed;
  }

  lemma RestoresByMember(s: Schema, v: Value, t: Value, rs: seq<Value>)
    requires s.Record? && WellFormed(s) && HasType2(s, v) && HasType2(s, t) && HasType2(s, Struct(rs))
    requires v.Struct? && t.Struct? && HasType2(s, Struct(v.slots)) && HasType2(s, Struct(t.slots))
    requires forall j | 0 <= j < |rs| && !Partner(s.pairs21, j) :: rs[j] == t.slots[j]
    ensures Restores(s, v, t, Struct(rs)) <==> forall k | 0 <= k < |s.pairs21| :: MemberRestored(s, k, v.slots, t.slots, rs)
  {
    hide HasType2, WellFormed;
    RestoresFieldsByMember(s, v.slots, t.slots, rs);
    hide RestoresFields, MemberRestored;
  }

  lemma RestoresFieldsByMember(s: Schema, vs: seq<Value>, ts: seq<Value>, rs: seq<Value>)
    requires s.Record? && WellFormed(s) && HasType2(s, Struct(vs)) && HasType2(s, Struct(ts)) && HasType2(s, Struct(rs))
    requires forall j | 0 <= j < |rs| && !Partner(s.pairs21, j) :: rs[j] == ts[j]
    ensures RestoresFields(s, vs, ts, rs) <==> forall k | 0 <= k < |s.pairs21| :: MemberRestored(s, k, vs, ts, rs)
  {
    hide Restores, WellFormed, HasType2;
    if RestoresFields(s, vs, ts, rs) {
      forall k | 0 <= k < |s.pairs21| ensures MemberRestored(s, k, vs, ts, rs) {
      }
    }
    if forall k | 0 <= k < |s.pairs21| :: MemberRestored(s, k, vs, ts, rs) {
      EveryMemberRestored(s, vs, ts, rs);
    }
  }

  lemma EveryMemberRestored(s: Schema, vs: seq<Value>, ts: seq<Value>, rs: seq<Value>)
    requires s.Record? && WellFormed(s) && HasType2(s, Struct(vs)) && HasType2(s, Struct(ts)) && HasType2(s, Struct(rs))
    requires forall j | 0 <= j < |rs| && !Partner(s.pairs21, j) :: rs[j] == ts[j]
    requires forall k | 0 <= k < |s.pairs21| :: MemberRestored(s, k, vs, ts, rs)
    ensures RestoresFields(s, vs, ts, rs)
  {
    hide Restores;
    forall k | 0 <= k < |s.pairs21|
      ensures var i, j := s.pairs21[k].ros1, s.pairs21[k].ros2; Restores(s.fields[i], vs[j], ts[j], rs[j])
    {
      assert MemberRestored(s, k, vs, ts, rs);
    }
    hide HasType2, WellFormed;
  }

  lemma TailsByMember(s: Schema, v: Value, t: Value)
    requires s.Record? && WellFormed(s) && HasType2(s, v) && HasType2(s, t)
    requires v.Struct? && t.Struct? && HasType2(s, Struct(v.slots)) && HasType2(s, Struct(t.slots))
    ensures TargetHasTails(s, v, t) <==> forall k | 0 <= k < |s.pairs21| :: MemberHasTails(s, k, v.slots, t.slots)
  {
    forall k | 0 <= k < |s.pairs21|
      ensures MemberHasTails(s, k, v.slots, t.slots) <==>
                var i, j := s.pairs21[k].ros1, s.pairs21[k].ros2; TargetHasTails(s.fields[i], v.slots[j], t.slots[j])
    {
    }
    hide MemberHasTails, HasType2, WellFormed;
  }

  /** The members from position `k` of the dictionary on, with the target `ts` and what is in the
      slots by now. */
  lemma {:induction false} ReadOfWrittenFields(s: Schema, vs: seq<Value>, ts: seq<Value>, k: nat, slots: seq<Value>, rest: seq<byte>)
    requires s.Record? && WellFormed(s) && Keyed(s) && k <= |s.pairs21| && MembersHaveType2(s.fields, s.pairs21, vs)
    requires HasType2(s, Struct(vs)) && HasType2(s, Struct(ts)) && HasType2(s, Struct(slots)) && |slots| == |ts|
    requires forall l | 0 <= l < |s.pairs21| :: CountsFit(s.fields[s.pairs21[l].ros1], vs[s.pairs21[l].ros2])
    requires forall l | k <= l < |s.pairs21| :: s.pairs21[l].ros2 < |ts| && slots[s.pairs21[l].ros2] == ts[s.pairs21[l].ros2]
    requires WriteFields(s.fields, s.pairs21, vs, k).Some?
    ensures var r := ReadFields(s, k, WriteFields(s.fields, s.pairs21, vs, k).value + rest, slots);
            && r.Some? && r.value.rest == rest && |r.value.value| == |slots|
            && (forall l | k <= l < |s.pairs21| :: MemberRestored(s, l, vs, ts, r.value.value) <==> MemberHasTails(s, l, vs, ts))
            && (forall j | 0 <= j < |slots| && (forall l | k <= l < |s.pairs21| :: s.pairs21[l].ros2 != j) :: r.value.value[j] == slots[j])
    decreases s.fields, 4, |s.pairs21| - k
  {
    hide Read, Write, HasType2, WellFormed, CountsFit, TargetHasTails, Restores;
    var fs, p := s.fields, s.pairs21;
    if k == |p| {
      assert WriteFields(fs, p, vs, k).value + rest == rest;
    } else {
      var i, j := p[k].ros1, p[k].ros2;
      MemberTyped(s, slots, p[k]);
      var head, tail := Write(fs[i], vs[j]).value, WriteFields(fs, p, vs, k + 1).value;
      assert WriteFields(fs, p, vs, k).value + rest == head + (tail + rest);
      ReadOfWritten(fs[i], vs[j], slots[j], tail + rest);
      var v := Read(fs[i], head + (tail + rest), slots[j]).value.value;
      StoreMember(s, slots, p[k], v);
      ReadOfWrittenFields(s, vs, ts, k + 1, slots[j := v], rest);
    }
  }

  // ----- counts that do not fit are never read back -----

  lemma {:induction false} ReadCountsFit(s: Schema, bs: seq<byte>, t: Value)
    requires WellFormed(s) && Keyed(s) && HasType2(s, t) && Read(s, bs, t).Some?
    ensures CountsFit(s, Read(s, bs, t).value.value)
    decreases s, 3, 0
  {
    match s
    case Sequence(e, b) =>
      var n := TakeU32(bs).value;
      ReadIntoCountsFit(e, Resized(t.elems, n.value, Fresh2(e)), n.rest);
    case Array(e, _) => ReadIntoCountsFit(e, t.elems, bs);
    case Record(_, _, _, _) => ReadFieldsCountsFit(s, 0, bs, t.slots);
    case _ =>
  }

  lemma ReadIntoCountsFit(e: Schema, ts: seq<Value>, bs: seq<byte>)
    requires WellFormed(e) && Keyed(e) && ElemsHaveType2(e, ts) && ReadInto(e, ts, bs).Some?
    ensures forall i | 0 <= i < |ts| :: CountsFit(e, ReadInto(e, ts, bs).value.value.elems[i])
    decreases e, 5, 0
  {
    if !e.Prim? {
      hide Read, HasType2, WellFormed, Keyed, CountsFit;
      ReadElemsCountsFit(e, ts, 0, bs);
    }
  }

  lemma {:induction false} ReadElemsCountsFit(e: Schema, ts: seq<Value>, k: nat, bs: seq<byte>)
    requires WellFormed(e) && Keyed(e) && k <= |ts| && ElemsHaveType2(e, ts) && ReadElems(e, ts, k, bs).Some?
    ensures forall i | 0 <= i < |ts| - k :: CountsFit(e, ReadElems(e, ts, k, bs).value.value[i])
    decreases e, 4, |ts| - k
  {
    hide Read, HasType2, WellFormed, Keyed, CountsFit;
    if k < |ts| {
      ReadCountsFit(e, bs, ts[k]);
      ReadElemsCountsFit(e, ts, k + 1, Read(e, bs, ts[k]).value.rest);
    }
  }

  lemma {:induction false} ReadFieldsCountsFit(s: Schema, k: nat, bs: seq<byte>, slots: seq<Value>)
    requires s.Record? && WellFormed(s) && Keyed(s) && k <= |s.pairs21| && HasType2(s, Struct(slots))
    requires ReadFields(s, k, bs, slots).Some?
    ensures var r := ReadFields(s, k, bs, slots).value.value;
            forall l | k <= l < |s.pairs21| :: CountsFit(s.fields[s.pairs21[l].ros1], r[s.pairs21[l].ros2])
    decreases s.fields, 4, |s.pairs21| - k
  {
    hide Read, HasType2, WellFormed, CountsFit;
    if k < |s.pairs21| {
      var p := s.pairs21[k];
      MemberTyped(s, slots, p);
      ReadCountsFit(s.fields[p.ros1], bs, slots[p.ros2]);
      var head := Read(s.fields[p.ros1], bs, slots[p.ros2]).value;
      StoreMember(s, slots, p, head.value);
      ReadFieldsCountsFit(s, k + 1, head.rest, slots[p.ros2 := head.value]);
      ReadFieldsKeep(s, k + 1, head.rest, slots[p.ros2 := head.value], p.ros2, true);
    }
  }

  /** A restored message has the counts of the original. */
  lemma {:induction false} RestoredCounts(s: Schema, v: Value, t: Value, r: Value)
    requires WellFormed(s) && HasType2(s, v) && HasType2(s, t) && HasType2(s, r) && Restores(s, v, t, r)
    ensures CountsFit(s, v) <==> CountsFit(s, r)
    decreases s, 0
  {
    match s
    case Sequence(e, _) => RestoredElemCounts(e, v.elems, Resized(t.elems, |v.elems|, Fresh2(e)), r.elems);
    case Array(e, _) => RestoredElemCounts(e, v.elems, t.elems, r.elems);
    case Record(fs, _, p, _) =>
      forall k | 0 <= k < |p|
        ensures CountsFit(fs[p[k].ros1], v.slots[p[k].ros2]) <==> CountsFit(fs[p[k].ros1], r.slots[p[k].ros2])
      {
        RestoredCounts(fs[p[k].ros1], v.slots[p[k].ros2], t.slots[p[k].ros2], r.slots[p[k].ros2]);
      }
    case _ =>
  }

  lemma RestoredElemCounts(e: Schema, vs: seq<Value>, ts: seq<Value>, rs: seq<Value>)
    requires WellFormed(e) && |vs| == |ts| == |rs|
    requires ElemsHaveType2(e, vs) && ElemsHaveType2(e, ts) && ElemsHaveType2(e, rs) && RestoresElems(e, vs, ts, rs)
    ensures forall i | 0 <= i < |vs| :: CountsFit(e, vs[i]) <==> CountsFit(e, rs[i])
    decreases e, 1
  {
    hide HasType2, WellFormed, CountsFit, Restores;
    forall i | 0 <= i < |vs| ensures CountsFit(e, vs[i]) <==> CountsFit(e, rs[i]) {
      RestoredCounts(e, vs[i], ts[i], rs[i]);
    }
  }

  // ----- read after write -----

  /** Where all byte counts fit, both conditions hold. */
  lemma {:induction false} FittingIsRestorable(s: Schema, v: Value, t: Value)
    requires WellFormed(s) && HasType2(s, v) && HasType2(s, t) && Fits2(s, v)
    ensures CountsFit(s, v) && TargetHasTails(s, v, t)
    decreases s, 0
  {
    match s
    case Sequence(e, _) => FittingElemsAreRestorable(e, v.elems, Resized(t.elems, |v.elems|, Fresh2(e)));
    case Array(e, _) => FittingElemsAreRestorable(e, v.elems, t.elems);
    case Record(fs, _, p, _) =>
      forall k | 0 <= k < |p| ensures CountsFit(fs[p[k].ros1], v.slots[p[k].ros2]) && MemberHasTails(s, k, v.slots, t.slots) {
        FittingIsRestorable(fs[p[k].ros1], v.slots[p[k].ros2], t.slots[p[k].ros2]);
      }
    case _ =>
  }

  lemma FittingElemsAreRestorable(e: Schema, vs: seq<Value>, ts: seq<Value>)
    requires WellFormed(e) && |vs| == |ts| && ElemsHaveType2(e, vs) && ElemsHaveType2(e, ts)
    requires (e.Prim? ==> |vs| * e.width < TWO_TO_THE_32) && forall i | 0 <= i < |vs| :: Fits2(e, vs[i])
    ensures (forall i | 0 <= i < |vs| :: CountsFit(e, vs[i])) && TargetHasTail(e, vs, ts)
    decreases e, 1
  {
    hide HasType2, Fits2, CountsFit, TargetHasTails;
    forall i | 0 <= i < |vs| ensures CountsFit(e, vs[i]) && TargetHasTails(e, vs[i], ts[i]) {
      FittingIsRestorable(e, vs[i], ts[i]);
    }
  }

  /** Written, and read back to the end with every named member restored. */
  ghost predicate ComesBack(s: Schema, v2: Value, t2: Value, rest: seq<byte>)
    requires WellFormed(s) && HasType2(s, v2) && HasType2(s, t2)
  {
    var w := Write(s, v2);
    w.Some? && var r := Read(s, w.value + rest, t2); r.Some? && r.value.rest == rest && Restores(s, v2, t2, r.value.value)
  }

  lemma FittingComesBack(s: Schema, v2: Value, t2: Value, rest: seq<byte>)
    requires WellFormed(s) && Keyed(s) && HasType2(s, v2) && HasType2(s, t2) && Write(s, v2).Some? && CountsFit(s, v2)
    ensures ComesBack(s, v2, t2, rest) <==> TargetHasTails(s, v2, t2)
  {
    hide Read, Write, HasType2, WellFormed, Keyed, CountsFit, TargetHasTails, Restores;
    ReadOfWritten(s, v2, t2, rest);
  }

  lemma ComingBackFits(s: Schema, v2: Value, t2: Value, rest: seq<byte>)
    requires WellFormed(s) && Keyed(s) && HasType2(s, v2) && HasType2(s, t2) && ComesBack(s, v2, t2, rest)
    ensures Write(s, v2).Some? && CountsFit(s, v2)
  {
    hide Read, Write, HasType2, WellFormed, Keyed, CountsFit, Restores;
    var bs := Write(s, v2).value + rest;
    ReadCountsFit(s, bs, t2);
    RestoredCounts(s, v2, t2, Read(s, bs, t2).value.value);
  }

  /** For messages with any dictionaries, reordered, repeating or incomplete ones included: a message
      is written, and reading what was written, whatever bytes follow, stops exactly at its end,
      restores every member that the dictionary names, at every depth, and leaves the others at the
      value that the target had, if and only if no message in it is flagged, every count fits its
      32-bit word, and the target already holds what every wrapped block leaves out. Where all byte
      counts fit, the last two always hold. */
  lemma ReadAfterWrite(s: Schema, v2: Value, t2: Value, rest: seq<byte>)
    requires WellFormed(s) && Keyed(s) && HasType2(s, v2) && HasType2(s, t2)
    ensures ComesBack(s, v2, t2, rest) <==> !Hits(s, v2) && CountsFit(s, v2) && TargetHasTails(s, v2, t2)
    ensures Fits2(s, v2) ==> CountsFit(s, v2) && TargetHasTails(s, v2, t2)
  {
    WriteRefusesExactlyHits(s, v2);
    hide *;
    if Fits2(s, v2) { FittingIsRestorable(s, v2, t2); }
    if ComesBack(s, v2, t2, rest) { ComingBackFits(s, v2, t2, rest); }
    if !Hits(s, v2) && CountsFit(s, v2) { FittingComesBack(s, v2, t2, rest); }
  }

  /** 2^29 zeros do not come back over a target with a one in it. */
  lemma WrappedCountBreaksReadAfterWrite(zeros: Value, t2: Value, rest: seq<byte>)
    requires zeros == List(Copies(0x2000_0000, Num(0))) && t2 == List([Num(1)])
    ensures WellFormed(StreamRoundTrip.DOUBLES) && HasType2(StreamRoundTrip.DOUBLES, zeros) && HasType2(StreamRoundTrip.DOUBLES, t2)
    ensures !ComesBack(StreamRoundTrip.DOUBLES, zeros, t2, rest)
  {
    StreamRoundTrip.ManyDoubles(zeros, t2);
    DoublesHaveTail(zeros, t2);
    hide *;
    ReadAfterWrite(StreamRoundTrip.DOUBLES, zeros, t2, rest);
  }

  lemma DoublesHaveTail(zeros: Value, t2: Value)
    requires zeros.List? && |zeros.elems| == 0x2000_0000 && zeros.elems[0] == Num(0) && t2 == List([Num(1)])
    requires WellFormed(StreamRoundTrip.DOUBLES) && HasType2(StreamRoundTrip.DOUBLES, zeros) && HasType2(StreamRoundTrip.DOUBLES, t2)
    ensures Keyed(StreamRoundTrip.DOUBLES) && !TargetHasTails(StreamRoundTrip.DOUBLES, zeros, t2)
  {
    hide HasType2;
    assert Resized(t2.elems, |zeros.elems|, Fresh2(Prim(8)))[0] == Num(1);
  }
}
