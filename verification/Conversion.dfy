/** The generated `convert_1_to_2` and `convert_2_to_1` on in-memory messages, and what they
    preserve. Both assign into a destination that already holds a value. */
module Conversion {
  import opened Wrappers
  import opened LittleEndian
  import opened Schema

  // ----- convert_2_to_1 -----

  function To1(s: Schema, v2: Value, t1: Value): (r: Value)
    requires WellFormed(s) && HasType2(s, v2) && HasType1(s, t1)
    ensures HasType1(s, r)
    decreases s, 0, 0
  {
    match s
    case Prim(_) => v2
    case Bool => v2
    case Str => v2
    case Time => Stamp(ToUint32(v2.sec), v2.nsec)
    case Duration => Stamp(v2.sec, ToInt32(v2.nsec))
    case Header => Struct([t1.slots[0], Stamp(ToUint32(v2.slots[0].sec), v2.slots[0].nsec), v2.slots[1]])
    case Sequence(e, _) => List(ElemsTo1(e, v2.elems, Resized(t1.elems, |v2.elems|, Fresh1(e))))
    case Array(e, _) => List(ElemsTo1(e, v2.elems, t1.elems))
    case Record(fs, _, p21, _) => Struct(FieldsTo1(fs, p21, 0, v2.slots, t1.slots))
  }

  function ElemsTo1(e: Schema, vs: seq<Value>, ts: seq<Value>): (r: seq<Value>)
    requires WellFormed(e) && |vs| == |ts| && ElemsHaveType2(e, vs) && ElemsHaveType1(e, ts)
    ensures |r| == |vs| && ElemsHaveType1(e, r)
    ensures forall i | 0 <= i < |vs| :: r[i] == To1(e, vs[i], ts[i])
    decreases e, 1, |vs|
  {
    seq(|vs|, i requires 0 <= i < |vs| => To1(e, vs[i], ts[i]))
  }

  /** The assignments of the pairs from position `k` on, in dictionary order. */
  function FieldsTo1(fs: seq<Schema>, pairs: seq<Pair>, k: nat, slots2: seq<Value>, slots1: seq<Value>): (r: seq<Value>)
    requires k <= |pairs|
    requires forall i | 0 <= i < |fs| :: WellFormed(fs[i])
    requires MembersHaveType2(fs, pairs, slots2) && FieldsHaveType1(fs, slots1)
    ensures FieldsHaveType1(fs, r)
    decreases fs, 1, |pairs| - k
  {
    if k == |pairs| then slots1
    else
      var i, j := pairs[k].ros1, pairs[k].ros2;
      FieldsTo1(fs, pairs, k + 1, slots2, slots1[i := To1(fs[i], slots2[j], slots1[i])])
  }

  // ----- convert_1_to_2; None when a bounded ROS 2 sequence cannot hold the source -----

  function To2(s: Schema, v1: Value, t2: Value): (r: Option<Value>)
    requires WellFormed(s) && HasType1(s, v1) && HasType2(s, t2)
    ensures r.Some? ==> HasType2(s, r.value)
    decreases s, 0, 0
  {
    match s
    case Prim(_) => Some(v1)
    case Bool => Some(Num(if v1.n == 0 then 0 else 1))
    case Str => Some(v1)
    case Time => Some(Stamp(ToInt32(v1.sec), v1.nsec))
    case Duration => Some(Stamp(v1.sec, ToUint32(v1.nsec)))
    case Header => Some(Struct([Stamp(ToInt32(v1.slots[1].sec), v1.slots[1].nsec), v1.slots[2]]))
    case Sequence(e, b) =>
      if b.Some? && |v1.elems| > b.value then None
      else
        var r := ElemsTo2(e, v1.elems, Resized(t2.elems, |v1.elems|, Fresh2(e)), 0);
        if r.None? then None else Some(List(r.value))
    case Array(e, _) =>
      var r := ElemsTo2(e, v1.elems, t2.elems, 0);
      if r.None? then None else Some(List(r.value))
    case Record(fs, p12, _, _) =>
      var r := FieldsTo2(s, 0, v1.slots, t2.slots);
      if r.None? then None else Some(Struct(r.value))
  }

  /** The converted elements from position `k` on. */
  function ElemsTo2(e: Schema, vs: seq<Value>, ts: seq<Value>, k: nat): (r: Option<seq<Value>>)
    requires WellFormed(e) && k <= |vs| == |ts| && ElemsHaveType1(e, vs) && ElemsHaveType2(e, ts)
    ensures r.Some? ==> |r.value| == |vs| - k && ElemsHaveType2(e, r.value)
    decreases e, 1, |vs| - k
  {
    if k == |vs| then Some([])
    else
      var head := To2(e, vs[k], ts[k]);
      if head.None? then None
      else
        var tail := ElemsTo2(e, vs, ts, k + 1);
        if tail.None? then None else Some([head.value] + tail.value)
  }

  function FieldsTo2(s: Schema, k: nat, slots1: seq<Value>, slots2: seq<Value>): (r: Option<seq<Value>>)
    requires s.Record? && k <= |s.pairs12| && WellFormed(s)
    requires FieldsHaveType1(s.fields, slots1) && HasType2(s, Struct(slots2))
    ensures r.Some? ==> HasType2(s, Struct(r.value))
    decreases s.fields, 1, |s.pairs12| - k
  {
    if k == |s.pairs12| then Some(slots2)
    else
      var i, j := s.pairs12[k].ros1, s.pairs12[k].ros2;
      var head := To2(s.fields[i], slots1[i], slots2[j]);
      if head.None? then None
      else FieldsTo2(s, k + 1, slots1, slots2[j := head.value])
  }
}
