/** Exactly which messages the direct streams refuse because of a ROS 1 field missing in ROS 2. */
module Refusal {
  import opened Wrappers
  import opened LittleEndian
  import opened Schema
  import opened Ros1Wire
  import opened DirectStream
  import opened Diagram

  /** The traversal of `v` comes by a message, at any depth, with a ROS 1 field missing in ROS 2. */
  predicate Hits(s: Schema, v: Value)
    requires HasType2(s, v)
    decreases s
  {
    match s
    case Sequence(e, _) => exists i | 0 <= i < |v.elems| :: Hits(e, v.elems[i])
    case Array(e, _) => exists i | 0 <= i < |v.elems| :: Hits(e, v.elems[i])
    case Record(fs, p12, p21, _) =>
      FieldMissing(fs, p12) || exists k | 0 <= k < |p21| :: Hits(fs[p21[k].ros1], v.slots[p21[k].ros2])
    case _ => false
  }

  /** Both passes over a ROS 2 message refuse exactly the messages that hit; a flagged message type
      is harmless in an empty sequence and below a member without a ROS 1 partner. */
  lemma {:induction false} WriteRefusesExactlyHits(s: Schema, v: Value)
    requires HasType2(s, v)
    ensures Write(s, v).None? <==> Hits(s, v)
    ensures Len(s, v).None? <==> Hits(s, v)
    decreases s, 3, 0
  {
    LengthIsModular(s, v);
    match s
    case Sequence(e, _) => WriteBodyRefuses(e, v.elems);
    case Array(e, _) => WriteBodyRefuses(e, v.elems);
    case Record(fs, p12, p21, _) =>
      if !FieldMissing(fs, p12) { WriteFieldsRefuses(fs, p21, v.slots, 0); }
    case _ =>
  }

  lemma WriteBodyRefuses(e: Schema, vs: seq<Value>)
    requires ElemsHaveType2(e, vs)
    ensures WriteBody(e, vs).None? <==> exists i | 0 <= i < |vs| :: Hits(e, vs[i])
    decreases e, 5, 0
  {
    if !e.Prim? { WriteElemsRefuses(e, vs, 0); }
  }

  lemma {:induction false} WriteElemsRefuses(e: Schema, vs: seq<Value>, k: nat)
    requires ElemsHaveType2(e, vs) && k <= |vs|
    ensures WriteElems(e, vs, k).None? <==> exists i | k <= i < |vs| :: Hits(e, vs[i])
    decreases e, 4, |vs| - k
  {
    hide Write, HasType2, Hits;
    if k < |vs| {
      WriteRefusesExactlyHits(e, vs[k]);
      WriteElemsRefuses(e, vs, k + 1);
    }
  }

  lemma {:induction false} WriteFieldsRefuses(fs: seq<Schema>, pairs: seq<Pair>, vs: seq<Value>, k: nat)
    requires MembersHaveType2(fs, pairs, vs) && k <= |pairs|
    ensures WriteFields(fs, pairs, vs, k).None? <==> exists l | k <= l < |pairs| :: Hits(fs[pairs[l].ros1], vs[pairs[l].ros2])
    decreases fs, 4, |pairs| - k
  {
    hide Write, HasType2, Hits;
    if k < |pairs| {
      WriteRefusesExactlyHits(fs[pairs[k].ros1], vs[pairs[k].ros2]);
      WriteFieldsRefuses(fs, pairs, vs, k + 1);
    }
  }

  // ----- reading -----

  /** As in any dictionary, the keys of every ROS 2 to ROS 1 dictionary are distinct. */
  ghost predicate Keyed(s: Schema)
    decreases s
  {
    match s
    case Sequence(e, _) => Keyed(e)
    case Array(e, _) => Keyed(e)
    case Record(fs, _, p21, _) =>
      (forall i | 0 <= i < |fs| :: Keyed(fs[i])) && forall k, l | 0 <= k < l < |p21| :: p21[k].ros2 != p21[l].ros2
    case _ => true
  }

  /** `r`, unless it is a message that hits. */
  function Unless(hits: bool, r: Option<Parsed<Value>>): Option<Parsed<Value>> {
    if hits then None else r
  }

  /** The reader refuses a stream, beyond overruns and bounds, exactly if the message in it hits; it
      then reads what it would read without the flag. */
  lemma {:induction false} ReadRefusesExactlyHits(s: Schema, bs: seq<byte>, t: Value)
    requires WellFormed(s) && Keyed(s) && HasType2(s, t)
    ensures var r := Read(s, bs, t, false);
            Read(s, bs, t) == Unless(r.Some? && Hits(s, r.value.value), r)
    decreases s, 3, 0
  {
    match s
    case Sequence(e, b) =>
      var n := TakeU32(bs);
      if n.Some? && !(b.Some? && n.value.value > b.value) {
        ReadIntoRefuses(e, Resized(t.elems, n.value.value, Fresh2(e)), n.value.rest);
      }
    case Array(e, _) => ReadIntoRefuses(e, t.elems, bs);
    case Record(_, _, _, _) => ReadRecordRefuses(s, bs, t);
    case _ =>
  }

  lemma ReadIntoRefuses(e: Schema, ts: seq<Value>, bs: seq<byte>)
    requires WellFormed(e) && Keyed(e) && ElemsHaveType2(e, ts)
    ensures var r := ReadInto(e, ts, bs, false);
            ReadInto(e, ts, bs) == Unless(r.Some? && exists i | 0 <= i < |ts| :: Hits(e, r.value.value.elems[i]), r)
    decreases e, 5, 0
  {
    if !e.Prim? {
      hide Read, HasType2, WellFormed, Hits, Keyed;
      ReadElemsRefuses(e, ts, 0, bs);
    }
  }

  lemma {:induction false} ReadElemsRefuses(e: Schema, ts: seq<Value>, k: nat, bs: seq<byte>)
    requires WellFormed(e) && Keyed(e) && k <= |ts| && ElemsHaveType2(e, ts)
    ensures var r := ReadElems(e, ts, k, bs, false);
            ReadElems(e, ts, k, bs) ==
              if r.Some? && exists i | 0 <= i < |ts| - k :: Hits(e, r.value.value[i]) then None else r
    decreases e, 4, |ts| - k
  {
    hide Read, HasType2, WellFormed, Hits, Keyed;
    if k < |ts| {
      ReadRefusesExactlyHits(e, bs, ts[k]);
      var head := Read(e, bs, ts[k], false);
      if head.Some? {
        ReadElemsRefuses(e, ts, k + 1, head.value.rest);
        var tail := ReadElems(e, ts, k + 1, head.value.rest, false);
        if tail.Some? {
          AnyInCons(e, head.value.value, tail.value.value);
        }
      }
    }
  }

  lemma AnyInCons(e: Schema, v: Value, vs: seq<Value>)
    requires HasType2(e, v) && ElemsHaveType2(e, vs)
    ensures ElemsHaveType2(e, [v] + vs)
    ensures (exists i | 0 <= i < |[v] + vs| :: Hits(e, ([v] + vs)[i])) <==> Hits(e, v) || exists i | 0 <= i < |vs| :: Hits(e, vs[i])
  {
    hide HasType2, Hits;
    var all := [v] + vs;
    if Hits(e, v) { assert Hits(e, all[0]); }
    if exists i | 0 <= i < |vs| :: Hits(e, vs[i]) {
      var i :| 0 <= i < |vs| && Hits(e, vs[i]);
      assert Hits(e, all[1 + i]);
    }
  }

  /** Some member from position `k` of the dictionary on hits. */
  predicate AnyFieldHits(s: Schema, k: nat, slots: seq<Value>)
    requires s.Record? && HasType2(s, Struct(slots)) && k <= |s.pairs21|
  {
    exists l | k <= l < |s.pairs21| :: Hits(s.fields[s.pairs21[l].ros1], slots[s.pairs21[l].ros2])
  }

  lemma ReadRecordRefuses(s: Schema, bs: seq<byte>, t: Value)
    requires s.Record? && WellFormed(s) && Keyed(s) && HasType2(s, t)
    ensures var r := Read(s, bs, t, false);
            Read(s, bs, t) == Unless(r.Some? && Hits(s, r.value.value), r)
    decreases s, 2, 0
  {
    hide ReadFields, WellFormed, Keyed;
    ReadFieldsRefuses(s, 0, bs, t.slots);
  }

  lemma {:induction false} ReadFieldsRefuses(s: Schema, k: nat, bs: seq<byte>, slots: seq<Value>)
    requires s.Record? && WellFormed(s) && Keyed(s) && k <= |s.pairs21| && HasType2(s, Struct(slots))
    ensures var r := ReadFields(s, k, bs, slots, false);
            ReadFields(s, k, bs, slots) == if r.Some? && AnyFieldHits(s, k, r.value.value) then None else r
    decreases s.fields, 4, |s.pairs21| - k
  {
    hide Read, HasType2, WellFormed, Hits;
    if k < |s.pairs21| {
      var p := s.pairs21[k];
      MemberTyped(s, slots, p);
      ReadRefusesExactlyHits(s.fields[p.ros1], bs, slots[p.ros2]);
      var head := Read(s.fields[p.ros1], bs, slots[p.ros2], false);
      if head.Some? {
        StoreMember(s, slots, p, head.value.value);
        var slots' := slots[p.ros2 := head.value.value];
        ReadFieldsRefuses(s, k + 1, head.value.rest, slots');
        ReadFieldsKeep(s, k + 1, head.value.rest, slots', p.ros2, false);
      }
    }
  }

  /** A slot without a pair from position `k` on is not stored to. */
  lemma {:induction false} ReadFieldsKeep(s: Schema, k: nat, bs: seq<byte>, slots: seq<Value>, j: nat, checked: bool)
    requires s.Record? && WellFormed(s) && k <= |s.pairs21| && HasType2(s, Struct(slots)) && j < |slots|
    requires forall l | k <= l < |s.pairs21| :: s.pairs21[l].ros2 != j
    ensures var r := ReadFields(s, k, bs, slots, checked);
            r.Some? ==> |r.value.value| == |slots| && r.value.value[j] == slots[j]
    decreases |s.pairs21| - k
  {
    hide Read, HasType2, WellFormed;
    if k < |s.pairs21| {
      var p := s.pairs21[k];
      MemberTyped(s, slots, p);
      var head := Read(s.fields[p.ros1], bs, slots[p.ros2], checked);
      if head.Some? {
        StoreMember(s, slots, p, head.value.value);
        ReadFieldsKeep(s, k + 1, head.value.rest, slots[p.ros2 := head.value.value], j, checked);
      }
    }
  }
}
