/** What the generated `internal_stream_translate_helper` functions do with a ROS 2 message on
    the three kinds of ROS 1 stream: bytes written (OStream), message read (IStream) and length
    counted (LStream). All of them follow the ROS 2 to ROS 1 dictionary; a message with a ROS 1
    field missing in ROS 2 is refused by an exception, modelled as None. */
module DirectStream {
  import opened Wrappers
  import opened LittleEndian
  import opened Schema
  import opened Ros1Wire

  // ----- OStream -----

  function Write(s: Schema, v: Value): (r: Option<seq<byte>>)
    requires HasType2(s, v)
    decreases s, 0, 0
  {
    match s
    case Prim(w) => Some(Encode(w, v.n))
    case Bool => Some([v.n])
    case Str => Some(StringBytes(v.chars))
    case Time => Some(StampBytes(v))
    case Duration => Some(StampBytes(v))
    case Header => Some(U32(0) + StampBytes(v.slots[0]) + StringBytes(v.slots[1].chars))
    case Sequence(e, _) =>
      Join(Some(U32(|v.elems|)), WriteBody(e, v.elems))
    case Array(e, _) => WriteBody(e, v.elems)
    case Record(fs, p12, p21, _) =>
      if FieldMissing(fs, p12) then None else WriteFields(fs, p21, v.slots, 0)
  }

  function Join(a: Option<seq<byte>>, b: Option<seq<byte>>): Option<seq<byte>> {
    if a.None? || b.None? then None else Some(a.value + b.value)
  }

  lemma JoinAssociates(a: Option<seq<byte>>, b: Option<seq<byte>>, c: Option<seq<byte>>)
    ensures Join(a, Join(b, c)) == Join(Join(a, b), c)
    ensures Join(Some([]), a) == a && Join(a, Some([])) == a
  {
    if a.Some? {
      assert [] + a.value == a.value && a.value + [] == a.value;
      if b.Some? && c.Some? {
        assert a.value + (b.value + c.value) == (a.value + b.value) + c.value;
      }
    }
  }

  function WriteBody(e: Schema, vs: seq<Value>): Option<seq<byte>>
    requires ElemsHaveType2(e, vs)
    decreases e, 2, 0
  {
    if e.Prim? then Some(BlockBytes(e.width, vs)) else WriteElems(e, vs, 0)
  }

  function WriteElems(e: Schema, vs: seq<Value>, k: nat): Option<seq<byte>>
    requires k <= |vs| && ElemsHaveType2(e, vs)
    decreases e, 1, |vs| - k
  {
    if k == |vs| then Some([]) else Join(Write(e, vs[k]), WriteElems(e, vs, k + 1))
  }

  function WriteFields(fs: seq<Schema>, pairs: seq<Pair>, vs: seq<Value>, k: nat): Option<seq<byte>>
    requires k <= |pairs| && MembersHaveType2(fs, pairs, vs)
    decreases fs, 1, |pairs| - k
  {
    if k == |pairs| then Some([])
    else Join(Write(fs[pairs[k].ros1], vs[pairs[k].ros2]), WriteFields(fs, pairs, vs, k + 1))
  }

  // ----- LStream: a 32-bit counter -----

  function Len(s: Schema, v: Value): (r: Option<nat>)
    requires HasType2(s, v)
    ensures r.Some? ==> r.value < TWO_TO_THE_32
    decreases s, 0, 0
  {
    match s
    case Prim(w) => Some(ToUint32(w))
    case Bool => Some(1)
    case Str => Some(ToUint32(4 + |v.chars|))
    case Time => Some(8)
    case Duration => Some(8)
    case Header => Some(ToUint32(16 + |v.slots[1].chars|))
    case Sequence(e, _) => Plus(Some(4), LenBody(e, v.elems))
    case Array(e, _) => LenBody(e, v.elems)
    case Record(fs, p12, p21, _) =>
      if FieldMissing(fs, p12) then None else LenFields(fs, p21, v.slots, 0)
  }

  function Plus(a: Option<nat>, b: Option<nat>): (r: Option<nat>)
    ensures r.Some? ==> r.value < TWO_TO_THE_32
  {
    if a.None? || b.None? then None else Some(ToUint32(a.value + b.value))
  }

  lemma PlusAssociates(a: nat, b: Option<nat>, c: Option<nat>)
    ensures b.Some? ==> Plus(Some(a), Plus(b, c)) == Plus(Some(ToUint32(a + b.value)), c)
    ensures b.None? ==> Plus(Some(a), Plus(b, c)) == None
  {
    if b.Some? && c.Some? {
      ToUint32Absorbs(a, b.value + c.value);
      ToUint32Absorbs(a + b.value, c.value);
      assert a + (b.value + c.value) == (a + b.value) + c.value;
    }
  }

  lemma PlusUnit(a: Option<nat>)
    requires a.Some? ==> a.value < TWO_TO_THE_32
    ensures Plus(Some(0), a) == a && Plus(a, Some(0)) == a
  {
  }

  function LenBody(e: Schema, vs: seq<Value>): (r: Option<nat>)
    requires ElemsHaveType2(e, vs)
    ensures r.Some? ==> r.value < TWO_TO_THE_32
    decreases e, 2, 0
  {
    if e.Prim? then Some(BlockLength(e.width, |vs|)) else LenElems(e, vs, 0)
  }

  function LenElems(e: Schema, vs: seq<Value>, k: nat): (r: Option<nat>)
    requires k <= |vs| && ElemsHaveType2(e, vs)
    ensures r.Some? ==> r.value < TWO_TO_THE_32
    decreases e, 1, |vs| - k
  {
    if k == |vs| then Some(0) else Plus(Len(e, vs[k]), LenElems(e, vs, k + 1))
  }

  function LenFields(fs: seq<Schema>, pairs: seq<Pair>, vs: seq<Value>, k: nat): (r: Option<nat>)
    requires k <= |pairs| && MembersHaveType2(fs, pairs, vs)
    ensures r.Some? ==> r.value < TWO_TO_THE_32
    decreases fs, 1, |pairs| - k
  {
    if k == |pairs| then Some(0)
    else Plus(Len(fs[pairs[k].ros1], vs[pairs[k].ros2]), LenFields(fs, pairs, vs, k + 1))
  }

  // ----- IStream: reads over the value `t` that the message already holds; None is a stream
  // overrun, a bounded sequence that is too small, or the exception above. Without `checked`, the
  // reader that the generator would emit if it ignored the missing-field flag. -----

  function Read(s: Schema, bs: seq<byte>, t: Value, checked: bool := true): (r: Option<Parsed<Value>>)
    requires WellFormed(s) && HasType2(s, t)
    ensures r.Some? ==> HasType2(s, r.value.value)
    decreases s, 0, 0
  {
    match s
    case Prim(w) =>
      var p := Take(w, bs);
      if p.None? then None else Some(Parsed(Num(Decode(p.value.value)), p.value.rest))
    case Bool =>
      var p := Take(1, bs);
      if p.None? then None
      else Some(Parsed(Num(if p.value.value[0] == 0 then 0 else 1), p.value.rest))
    case Str =>
      var p := TakeString(bs);
      if p.None? then None else Some(Parsed(Text(p.value.value), p.value.rest))
    case Time => ReadStamp(bs)
    case Duration => ReadStamp(bs)
    case Header => ReadHeader(bs)
    case Sequence(e, b) =>
      var n := TakeU32(bs);
      if n.None? then None
      else if b.Some? && n.value.value > b.value then None
      else ReadInto(e, Resized(t.elems, n.value.value, Fresh2(e)), n.value.rest, checked)
    case Array(e, _) => ReadInto(e, t.elems, bs, checked)
    case Record(fs, p12, p21, _) =>
      if checked && FieldMissing(fs, p12) then None
      else
        var r := ReadFields(s, 0, bs, t.slots, checked);
        if r.None? then None else Some(Parsed(Struct(r.value.value), r.value.rest))
  }

  function ReadStamp(bs: seq<byte>): (r: Option<Parsed<Value>>)
    ensures r.Some? ==> HasType2(Time, r.value.value) && HasType2(Duration, r.value.value)
  {
    var p := TakeStamp(bs);
    if p.None? then None
    else Some(Parsed(Stamp(ToInt32(p.value.value.0), p.value.value.1), p.value.rest))
  }

  /** The `seq` is dropped. */
  function ReadHeader(bs: seq<byte>): (r: Option<Parsed<Value>>)
    ensures r.Some? ==> HasType2(Header, r.value.value)
  {
    var seqNo := TakeU32(bs);
    if seqNo.None? then None
    else
      var stamp := ReadStamp(seqNo.value.rest);
      if stamp.None? then None
      else
        var frame := TakeString(stamp.value.rest);
        if frame.None? then None
        else Some(Parsed(Struct([stamp.value.value, Text(frame.value.value)]), frame.value.rest))
  }

  /** The elements of a sequence or array whose storage already has its final size. */
  function ReadInto(e: Schema, ts: seq<Value>, bs: seq<byte>, checked: bool := true): (r: Option<Parsed<Value>>)
    requires WellFormed(e) && ElemsHaveType2(e, ts)
    ensures r.Some? ==> r.value.value.List? && |r.value.value.elems| == |ts| && ElemsHaveType2(e, r.value.value.elems)
    decreases e, 2, 0
  {
    if e.Prim? then
      var p := Take(BlockLength(e.width, |ts|), bs);
      if p.None? then None else Some(Parsed(List(Overlay(e.width, p.value.value, ts)), p.value.rest))
    else
      var r := ReadElems(e, ts, 0, bs, checked);
      if r.None? then None else Some(Parsed(List(r.value.value), r.value.rest))
  }

  function ReadElems(e: Schema, ts: seq<Value>, k: nat, bs: seq<byte>, checked: bool := true): (r: Option<Parsed<seq<Value>>>)
    requires WellFormed(e) && k <= |ts| && ElemsHaveType2(e, ts)
    ensures r.Some? ==> |r.value.value| == |ts| - k && ElemsHaveType2(e, r.value.value)
    decreases e, 1, |ts| - k
  {
    if k == |ts| then Some(Parsed([], bs))
    else
      var head := Read(e, bs, ts[k], checked);
      if head.None? then None
      else
        var tail := ReadElems(e, ts, k + 1, head.value.rest, checked);
        if tail.None? then None
        else Some(Parsed([head.value.value] + tail.value.value, tail.value.rest))
  }

  function ReadFields(s: Schema, k: nat, bs: seq<byte>, slots: seq<Value>, checked: bool := true): (r: Option<Parsed<seq<Value>>>)
    requires s.Record? && WellFormed(s) && k <= |s.pairs21| && HasType2(s, Struct(slots))
    ensures r.Some? ==> HasType2(s, Struct(r.value.value))
    decreases s.fields, 1, |s.pairs21| - k
  {
    if k == |s.pairs21| then Some(Parsed(slots, bs))
    else
      var i, j := s.pairs21[k].ros1, s.pairs21[k].ros2;
      var head := Read(s.fields[i], bs, slots[j], checked);
      if head.None? then None
      else ReadFields(s, k + 1, head.value.rest, slots[j := head.value.value], checked)
  }
}
