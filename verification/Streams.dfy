/** The ROS 1 stream objects, the imperative helpers that move their cursors, and the generated
    conversion routines with their loops, each proved against its specification function. */
module Streams {
  import opened Wrappers
  import opened LittleEndian
  import opened Schema
  import opened Conversion
  import opened RoundTrip
  import opened Ros1Wire
  import opened DirectStream
  import opened Diagram

  // ----- ros::serialization::OStream -----

  class OStream {
    const data: array<byte>
    const end: nat
    var pos: nat

    ghost predicate Valid()
      reads this
    {
      pos <= end <= data.Length
    }

    constructor (data: array<byte>, length: nat)
      requires length <= data.Length
      ensures Valid() && this.data == data && pos == 0 && end == length
    {
      this.data := data;
      end := length;
      pos := 0;
    }

    function GetLength(): nat
      requires Valid()
      reads this
    {
      end - pos
    }

    /** The effect of an operation that should append `w`, where None is an exception thrown by
        the operation itself: it succeeds exactly when there is something to append and it fits,
        it appends exactly that, and it never touches a byte outside the rest of the window. */
    twostate predicate Appended(ok: bool, new w: Option<seq<byte>>)
      reads this, data
    {
      && Valid() && old(Valid()) && old(pos) <= pos
      && data[..old(pos)] == old(data[..pos])
      && data[end..] == old(data[end..])
      && (ok <==> w.Some? && old(pos) + |w.value| <= end)
      && (ok ==> pos == old(pos) + |w.value| && data[old(pos)..pos] == w.value)
    }

    /** `memcpy(stream.advance(n), ...)`; false is the overrun exception. */
    method Put(bs: seq<byte>) returns (ok: bool)
      requires Valid()
      modifies this, data
      ensures Appended(ok, Some(bs))
    {
      if pos + |bs| > end { return false; }
      var i := 0;
      while i < |bs|
        invariant i <= |bs| && pos == old(pos)
        invariant data[..pos] == old(data[..pos]) && data[end..] == old(data[end..])
        invariant data[pos..pos + i] == bs[..i]
      {
        data[pos + i] := bs[i];
        i := i + 1;
      }
      pos := pos + |bs|;
      ok := true;
    }

    /** `internal_stream_translate_helper(OStream &, const ROS2_T &)` */
    method WriteMessage(s: Schema, v: Value) returns (ok: bool)
      requires Valid() && HasType2(s, v)
      modifies this, data
      ensures Appended(ok, Write(s, v))
      decreases s, 3, 0
    {
      match s
      case Prim(w) => ok := Put(Encode(w, v.n));
      case Bool => ok := Put([v.n]);
      case Str => ok := Put(StringBytes(v.chars));
      case Time => ok := Put(StampBytes(v));
      case Duration => ok := Put(StampBytes(v));
      case Header => ok := WriteHeader(v);
      case Sequence(e, _) => ok := WriteSequence(e, v.elems);
      case Array(e, _) => ok := WriteAll(e, v.elems);
      case Record(fs, p12, p21, _) =>
        if FieldMissing(fs, p12) { return false; }
        ok := WriteMembers(fs, p21, v.slots);
    }

    /** The hand-written Header case, with its fake `seq`. */
    method WriteHeader(v: Value) returns (ok: bool)
      requires Valid() && HasType2(Header, v)
      modifies this, data
      ensures Appended(ok, Write(Header, v))
    {
      ghost var start := pos;
      ok := Put(U32(0));
      if !ok { return; }
      ghost var afterSeq := pos;
      ok := Put(StampBytes(v.slots[0]));
      assert data[..start] == data[..afterSeq][..start];
      if !ok { return; }
      ghost var afterStamp := pos;
      assert data[start..pos] == data[start..afterSeq] + data[afterSeq..pos];
      ok := Put(StringBytes(v.slots[1].chars));
      assert data[..start] == data[..afterStamp][..start];
      if !ok { return; }
      assert data[start..pos] == data[start..afterStamp] + data[afterStamp..pos];
    }

    /** A size word (`streamVectorSize`) and the elements. */
    method WriteSequence(e: Schema, vs: seq<Value>) returns (ok: bool)
      requires Valid() && ElemsHaveType2(e, vs)
      modifies this, data
      ensures Appended(ok, Join(Some(U32(|vs|)), WriteBody(e, vs)))
      decreases e, 5, 0
    {
      hide U32, WriteBody, ElemsHaveType2;
      ghost var start := pos;
      ok := Put(U32(|vs|));
      if !ok { return; }
      ghost var afterSize := pos;
      ok := WriteAll(e, vs);
      if !ok { return; }
      assert data[start..pos] == data[start..afterSize] + data[afterSize..pos];
    }

    method WriteAll(e: Schema, vs: seq<Value>) returns (ok: bool)
      requires Valid() && ElemsHaveType2(e, vs)
      modifies this, data
      ensures Appended(ok, WriteBody(e, vs))
      decreases e, 4, 1
    {
      if e.Prim? {
        ok := Put(BlockBytes(e.width, vs));
      } else {
        ok := WriteEach(e, vs);
      }
    }

    /** The element-wise loop. */
    method WriteEach(e: Schema, vs: seq<Value>) returns (ok: bool)
      requires Valid() && ElemsHaveType2(e, vs)
      modifies this, data
      ensures Appended(ok, WriteElems(e, vs, 0))
      decreases e, 4, 0
    {
      hide Write, HasType2, HasType1, Enc1;
      ghost var done := [];
      var k := 0;
      ok := true;
      JoinAssociates(WriteElems(e, vs, 0), None, None);
      while k < |vs|
        invariant k <= |vs| && ok && Appended(true, Some(done))
        invariant Join(Some(done), WriteElems(e, vs, k)) == WriteElems(e, vs, 0)
      {
        JoinAssociates(Some(done), Write(e, vs[k]), WriteElems(e, vs, k + 1));
        ghost var mid := pos;
        ok := WriteMessage(e, vs[k]);
        if !ok { return; }
        assert data[old(pos)..pos] == data[old(pos)..mid] + data[mid..pos];
        done := done + Write(e, vs[k]).value;
        k := k + 1;
      }
      JoinAssociates(Some(done), None, None);
    }

    method WriteMembers(fs: seq<Schema>, pairs: seq<Pair>, slots: seq<Value>) returns (ok: bool)
      requires Valid() && MembersHaveType2(fs, pairs, slots)
      modifies this, data
      ensures Appended(ok, WriteFields(fs, pairs, slots, 0))
      decreases fs, 4, 0
    {
      hide Write, HasType2, WriteFields;
      ghost var done := [];
      var k := 0;
      ok := true;
      JoinAssociates(WriteFields(fs, pairs, slots, 0), None, None);
      while k < |pairs|
        invariant k <= |pairs| && ok && Appended(true, Some(done))
        invariant Join(Some(done), WriteFields(fs, pairs, slots, k)) == WriteFields(fs, pairs, slots, 0)
      {
        NextMember(fs, pairs, slots, k, done);
        ghost var mid := pos;
        ok := WriteMessage(fs[pairs[k].ros1], slots[pairs[k].ros2]);
        if !ok { return; }
        assert data[old(pos)..pos] == data[old(pos)..mid] + data[mid..pos];
        done := done + Write(fs[pairs[k].ros1], slots[pairs[k].ros2]).value;
        k := k + 1;
      }
      JoinAssociates(Some(done), None, None);
      assert WriteFields(fs, pairs, slots, k) == Some([]) by { NoMoreMembers(fs, pairs, slots); }
    }

    lemma NextMember(fs: seq<Schema>, pairs: seq<Pair>, slots: seq<Value>, k: nat, done: seq<byte>)
      requires MembersHaveType2(fs, pairs, slots) && k < |pairs|
      ensures Join(Some(done), WriteFields(fs, pairs, slots, k)) ==
                Join(Join(Some(done), Write(fs[pairs[k].ros1], slots[pairs[k].ros2])), WriteFields(fs, pairs, slots, k + 1))
    {
      hide Write, HasType2;
      JoinAssociates(Some(done), Write(fs[pairs[k].ros1], slots[pairs[k].ros2]), WriteFields(fs, pairs, slots, k + 1));
    }

    lemma NoMoreMembers(fs: seq<Schema>, pairs: seq<Pair>, slots: seq<Value>)
      requires MembersHaveType2(fs, pairs, slots)
      ensures WriteFields(fs, pairs, slots, |pairs|) == Some([])
    {
    }
  }

  // ----- ros::serialization::LStream -----

  class LStream {
    var count: uint32

    constructor ()
      ensures count == 0
    {
      count := 0;
    }

    /** The effect of counting `n` more bytes, where None is an exception. */
    twostate predicate Counted(ok: bool, new n: Option<nat>)
      reads this
    {
      && (ok <==> n.Some?)
      && (ok ==> count == ToUint32(old(count) + n.value))
    }

    method Advance(n: nat)
      modifies this
      ensures count < TWO_TO_THE_32
      ensures Counted(true, Some(ToUint32(n)))
    {
      ToUint32Absorbs(count, n);
      count := ToUint32(count + n);
    }

    /** `internal_stream_translate_helper(LStream &, const ROS2_T &)` */
    method CountMessage(s: Schema, v: Value) returns (ok: bool)
      requires HasType2(s, v)
      modifies this
      ensures Counted(ok, Len(s, v))
      decreases s, 3, 0
    {
      ok := true;
      match s
      case Prim(w) => Advance(w);
      case Bool => Advance(1);
      case Str => Advance(4 + |v.chars|);
      case Time => Advance(8);
      case Duration => Advance(8);
      case Header => Advance(4 + 8 + 4 + |v.slots[1].chars|);
      case Sequence(e, _) => ok := CountSequence(e, v.elems);
      case Array(e, _) => ok := CountAll(e, v.elems);
      case Record(fs, p12, p21, _) =>
        if FieldMissing(fs, p12) { return false; }
        ok := CountMembers(fs, p21, v.slots);
    }

    method CountSequence(e: Schema, vs: seq<Value>) returns (ok: bool)
      requires ElemsHaveType2(e, vs)
      modifies this
      ensures Counted(ok, Plus(Some(4), LenBody(e, vs)))
      decreases e, 5, 0
    {
      hide ToUint32, LenBody;
      ghost var start := count;
      ghost var n := LenBody(e, vs);
      assert ToUint32(4) == 4;
      Advance(4);
      ok := CountAll(e, vs);
      if ok {
        CountsAdd(start, 4, n.value);
      }
    }

    lemma CountsAdd(start: nat, a: nat, b: nat)
      ensures ToUint32(ToUint32(start + a) + b) == ToUint32(start + ToUint32(a + b))
    {
      ToUint32Absorbs(start + a, b);
      ToUint32Absorbs(start, a + b);
      assert (start + a) + b == start + (a + b);
    }

    method CountAll(e: Schema, vs: seq<Value>) returns (ok: bool)
      requires ElemsHaveType2(e, vs)
      modifies this
      ensures Counted(ok, LenBody(e, vs))
      decreases e, 4, 1
    {
      if e.Prim? {
        Advance(BlockLength(e.width, |vs|));
        ok := true;
      } else {
        ok := CountEach(e, vs);
      }
    }

    /** The element-wise loop. */
    method CountEach(e: Schema, vs: seq<Value>) returns (ok: bool)
      requires ElemsHaveType2(e, vs)
      modifies this
      ensures Counted(ok, LenElems(e, vs, 0))
      decreases e, 4, 0
    {
      hide Len, HasType2, ToUint32;
      ok := true;
      ghost var done: nat := 0;
      ghost var start := count;
      var k := 0;
      PlusUnit(LenElems(e, vs, 0));
      while k < |vs|
        invariant k <= |vs| && ok && done < TWO_TO_THE_32
        invariant k == 0 ==> done == 0 && count == start
        invariant k > 0 ==> count == ToUint32(start + done)
        invariant Plus(Some(done), LenElems(e, vs, k)) == LenElems(e, vs, 0)
      {
        PlusAssociates(done, Len(e, vs[k]), LenElems(e, vs, k + 1));
        ok := CountMessage(e, vs[k]);
        if !ok { return; }
        CountsAdd(start, done, Len(e, vs[k]).value);
        done := ToUint32(done + Len(e, vs[k]).value);
        k := k + 1;
      }
      PlusUnit(Some(done));
    }

    method CountMembers(fs: seq<Schema>, pairs: seq<Pair>, slots: seq<Value>) returns (ok: bool)
      requires MembersHaveType2(fs, pairs, slots)
      modifies this
      ensures Counted(ok, LenFields(fs, pairs, slots, 0))
      decreases fs, 4, 0
    {
      hide Len, HasType2, ToUint32;
      ok := true;
      ghost var done: nat := 0;
      ghost var start := count;
      var k := 0;
      PlusUnit(LenFields(fs, pairs, slots, 0));
      while k < |pairs|
        invariant k <= |pairs| && ok && done < TWO_TO_THE_32
        invariant k == 0 ==> done == 0 && count == start
        invariant k > 0 ==> count == ToUint32(start + done)
        invariant Plus(Some(done), LenFields(fs, pairs, slots, k)) == LenFields(fs, pairs, slots, 0)
      {
        var f, v := fs[pairs[k].ros1], slots[pairs[k].ros2];
        PlusAssociates(done, Len(f, v), LenFields(fs, pairs, slots, k + 1));
        ok := CountMessage(f, v);
        if !ok { return; }
        CountsAdd(start, done, Len(f, v).value);
        done := ToUint32(done + Len(f, v).value);
        k := k + 1;
      }
      PlusUnit(Some(done));
    }
  }

  /** `length_2_as_1_stream` */
  method LengthAsRos1Stream(s: Schema, v2: Value) returns (length: Option<nat>)
    requires HasType2(s, v2)
    ensures length == Len(s, v2)
  {
    var stream := new LStream();
    var ok := stream.CountMessage(s, v2);
    length := if ok then Some(stream.count) else None;
  }

  /** A buffer of `length` bytes, and the memory behind it. */
  method Allocate(length: nat, guard: seq<byte>) returns (buffer: array<byte>)
    ensures fresh(buffer) && buffer.Length == length + |guard| && buffer[length..] == guard
  {
    buffer := new byte[length + |guard|](i requires 0 <= i < length + |guard| => if i < length then 0 else guard[i - length]);
  }

  /** A length pass, a buffer of that length followed by `guard` further bytes, and a writing
      pass: the buffer is filled exactly, with the ROS 1 serialization of the converted message,
      no capacity is left, and the guard bytes are untouched. */
  method SerializeDirectly(s: Schema, v2: Value, guard: seq<byte>) returns (buffer: array<byte>, left: nat)
    requires WellFormed(s) && Covered(s) && HasType2(s, v2)
    requires |Enc1(s, To1(s, v2, Fresh1(s)))| < TWO_TO_THE_32
    ensures buffer[..] == Enc1(s, To1(s, v2, Fresh1(s))) + guard
    ensures left == 0
  {
    DirectWriteIsSerialization(s, v2);
    LengthExactness(s, v2);
    hide Write, Len, Enc1, To1, HasType1, HasType2, WellFormed, Covered, Fresh1, ToUint32;
    var counted := LengthAsRos1Stream(s, v2);
    var length := counted.value;
    buffer := Allocate(length, guard);
    var stream := new OStream(buffer, length);
    var ok := stream.WriteMessage(s, v2);
    left := stream.GetLength();
    assert buffer[..] == buffer[0..length] + buffer[length..];
  }

  // ----- ros::serialization::IStream -----

  class IStream {
    const data: array<byte>
    const end: nat
    var pos: nat

    ghost predicate Valid()
      reads this
    {
      pos <= end <= data.Length
    }

    constructor (data: array<byte>, length: nat)
      requires length <= data.Length
      ensures Valid() && this.data == data && pos == 0 && end == length
    {
      this.data := data;
      end := length;
      pos := 0;
    }

    function Remaining(): (bs: seq<byte>)
      requires Valid()
      reads this, data
      ensures |bs| == end - pos
    {
      data[pos..end]
    }

    /** `stream.advance(n)`; None is the overrun exception. */
    method Advance(n: nat) returns (r: Option<seq<byte>>)
      requires Valid()
      modifies this
      ensures Valid()
      ensures var p := Take(n, old(Remaining()));
              if p.None? then r.None? else r == Some(p.value.value) && Remaining() == p.value.rest
    {
      if pos + n > end { return None; }
      r := Some(data[pos..pos + n]);
      assert data[pos..end][..n] == data[pos..pos + n] && data[pos..end][n..] == data[pos + n..end];
      pos := pos + n;
    }

    /** `stream.next(uint32_t &)` */
    method NextWord() returns (r: Option<nat>)
      requires Valid()
      modifies this
      ensures Valid()
      ensures var p := TakeU32(old(Remaining()));
              if p.None? then r.None? else r == Some(p.value.value) && Remaining() == p.value.rest
    {
      var bs := Advance(4);
      if bs.None? { return None; }
      r := Some(Decode(bs.value));
    }

    method NextString() returns (r: Option<seq<byte>>)
      requires Valid()
      modifies this
      ensures Valid()
      ensures var p := TakeString(old(Remaining()));
              if p.None? then r.None? else r == Some(p.value.value) && Remaining() == p.value.rest
    {
      var n := NextWord();
      if n.None? { return None; }
      r := Advance(n.value);
    }

    method NextStamp() returns (r: Option<Value>)
      requires Valid()
      modifies this
      ensures Valid()
      ensures var p := ReadStamp(old(Remaining()));
              if p.None? then r.None? else r == Some(p.value.value) && Remaining() == p.value.rest
    {
      var sec := NextWord();
      if sec.None? { return None; }
      var nsec := NextWord();
      if nsec.None? { return None; }
      r := Some(Stamp(ToInt32(sec.value), nsec.value));
    }

    /** `internal_stream_translate_helper(IStream &, ROS2_T &)`: `t` is the message as it was. */
    method ReadMessage(s: Schema, t: Value) returns (r: Option<Value>)
      requires Valid() && WellFormed(s) && HasType2(s, t)
      modifies this
      ensures Valid()
      ensures var p := Read(s, old(Remaining()), t);
              if p.None? then r.None? else r == Some(p.value.value) && Remaining() == p.value.rest
      decreases s, 3, 0
    {
      match s
      case Prim(w) =>
        var bs := Advance(w);
        r := if bs.None? then None else Some(Num(Decode(bs.value)));
      case Bool =>
        var bs := Advance(1);
        r := if bs.None? then None else Some(Num(if bs.value[0] == 0 then 0 else 1));
      case Str =>
        var chars := NextString();
        r := if chars.None? then None else Some(Text(chars.value));
      case Time => r := NextStamp();
      case Duration => r := NextStamp();
      case Header => r := ReadHeader();
      case Sequence(e, b) => r := ReadSequence(s, t);
      case Array(e, _) => r := ReadAll(e, t.elems);
      case Record(fs, p12, _, _) =>
        if FieldMissing(fs, p12) { return None; }
        var slots := ReadMembers(s, t.slots);
        r := if slots.None? then None else Some(Struct(slots.value));
    }

    /** The hand-written Header case: the `seq` read is thrown away. */
    method ReadHeader() returns (r: Option<Value>)
      requires Valid()
      modifies this
      ensures Valid()
      ensures var t := Struct([Stamp(0, 0), Text([])]);
              var p := Read(Header, old(Remaining()), t);
              if p.None? then r.None? else r == Some(p.value.value) && Remaining() == p.value.rest
    {
      var seqNo := NextWord();
      if seqNo.None? { return None; }
      var stamp := NextStamp();
      if stamp.None? { return None; }
      var frame := NextString();
      if frame.None? { return None; }
      r := Some(Struct([stamp.value, Text(frame.value)]));
    }

    method ReadSequence(s: Schema, t: Value) returns (r: Option<Value>)
      requires s.Sequence? && Valid() && WellFormed(s) && HasType2(s, t)
      modifies this
      ensures Valid()
      ensures var p := Read(s, old(Remaining()), t);
              if p.None? then r.None? else r == Some(p.value.value) && Remaining() == p.value.rest
      decreases s, 2, 0
    {
      var n := NextWord();
      if n.None? { return None; }
      if s.bound.Some? && n.value > s.bound.value { return None; }
      r := ReadAll(s.elem, Resized(t.elems, n.value, Fresh2(s.elem)));
    }

    method ReadAll(e: Schema, ts: seq<Value>) returns (r: Option<Value>)
      requires Valid() && WellFormed(e) && ElemsHaveType2(e, ts)
      modifies this
      ensures Valid()
      ensures var p := ReadInto(e, ts, old(Remaining()));
              if p.None? then r.None? else r == Some(p.value.value) && Remaining() == p.value.rest
      decreases e, 4, 1
    {
      if e.Prim? {
        var bs := Advance(BlockLength(e.width, |ts|));
        r := if bs.None? then None else Some(List(Overlay(e.width, bs.value, ts)));
      } else {
        var vs := ReadEach(e, ts);
        r := if vs.None? then None else Some(List(vs.value));
      }
    }

    /** The element-wise loop. */
    method ReadEach(e: Schema, ts: seq<Value>) returns (r: Option<seq<Value>>)
      requires Valid() && WellFormed(e) && ElemsHaveType2(e, ts)
      modifies this
      ensures Valid()
      ensures var p := ReadElems(e, ts, 0, old(Remaining()));
              if p.None? then r.None? else r == Some(p.value.value) && Remaining() == p.value.rest
      decreases e, 4, 0
    {
      hide Read, HasType2, WellFormed;
      var vs := [];
      var k := 0;
      ghost var all := ReadElems(e, ts, 0, Remaining());
      assert forall tail: seq<Value> :: [] + tail == tail;
      while k < |ts|
        invariant k <= |ts| && |vs| == k && Valid()
        invariant var tail := ReadElems(e, ts, k, Remaining());
                  all == if tail.None? then None else Some(Parsed(vs + tail.value.value, tail.value.rest))
      {
        var v := ReadMessage(e, ts[k]);
        if v.None? { return None; }
        assert forall tail: seq<Value> :: vs + ([v.value] + tail) == vs + [v.value] + tail;
        vs := vs + [v.value];
        k := k + 1;
      }
      assert vs + [] == vs;
      r := Some(vs);
    }

    method ReadMembers(s: Schema, slots0: seq<Value>) returns (r: Option<seq<Value>>)
      requires s.Record? && Valid() && WellFormed(s) && HasType2(s, Struct(slots0))
      modifies this
      ensures Valid()
      ensures var p := ReadFields(s, 0, old(Remaining()), slots0);
              if p.None? then r.None? else r == Some(p.value.value) && Remaining() == p.value.rest
      decreases s.fields, 4, 0
    {
      hide Read, HasType2, WellFormed;
      var slots := slots0;
      var k := 0;
      ghost var all := ReadFields(s, 0, Remaining(), slots0);
      while k < |s.pairs21|
        invariant k <= |s.pairs21| && Valid() && HasType2(s, Struct(slots))
        invariant all == ReadFields(s, k, Remaining(), slots)
      {
        MemberTyped(s, slots, s.pairs21[k]);
        var v := ReadMessage(s.fields[s.pairs21[k].ros1], slots[s.pairs21[k].ros2]);
        if v.None? { return None; }
        StoreMember(s, slots, s.pairs21[k], v.value);
        slots := slots[s.pairs21[k].ros2 := v.value];
        k := k + 1;
      }
      r := Some(slots);
    }
  }

  // ----- the generated conversion routines -----

  /** `convert_2_to_1(const ROS2_T &, ROS1_T &)` */
  method ConvertTo1(s: Schema, v2: Value, t1: Value) returns (r: Value)
    requires WellFormed(s) && HasType2(s, v2) && HasType1(s, t1)
    ensures r == To1(s, v2, t1)
    decreases s, 3
  {
    match s
    case Time => r := Stamp(ToUint32(v2.sec), v2.nsec);
    case Duration => r := Stamp(v2.sec, ToInt32(v2.nsec));
    case Header => r := Struct([t1.slots[0], Stamp(ToUint32(v2.slots[0].sec), v2.slots[0].nsec), v2.slots[1]]);
    case Sequence(e, _) =>
      var vs := ConvertEachTo1(e, v2.elems, Resized(t1.elems, |v2.elems|, Fresh1(e)));
      r := List(vs);
    case Array(e, _) =>
      var vs := ConvertEachTo1(e, v2.elems, t1.elems);
      r := List(vs);
    case Record(fs, _, p21, _) =>
      var slots := ConvertMembersTo1(fs, p21, v2.slots, t1.slots);
      r := Struct(slots);
    case _ => r := v2;
  }

  method ConvertEachTo1(e: Schema, vs: seq<Value>, ts: seq<Value>) returns (r: seq<Value>)
    requires WellFormed(e) && |vs| == |ts| && ElemsHaveType2(e, vs) && ElemsHaveType1(e, ts)
    ensures r == ElemsTo1(e, vs, ts)
    decreases e, 4
  {
    hide To1, HasType1, HasType2, WellFormed;
    r := ts;
    var k := 0;
    while k < |vs|
      invariant k <= |vs| && |r| == |ts|
      invariant forall i | 0 <= i < k :: r[i] == To1(e, vs[i], ts[i])
      invariant forall i | k <= i < |ts| :: r[i] == ts[i]
    {
      var v := ConvertTo1(e, vs[k], r[k]);
      r := r[k := v];
      k := k + 1;
    }
  }

  method ConvertMembersTo1(fs: seq<Schema>, pairs: seq<Pair>, slots2: seq<Value>, slots1: seq<Value>) returns (r: seq<Value>)
    requires forall i | 0 <= i < |fs| :: WellFormed(fs[i])
    requires MembersHaveType2(fs, pairs, slots2) && FieldsHaveType1(fs, slots1)
    ensures r == FieldsTo1(fs, pairs, 0, slots2, slots1)
    decreases fs, 4
  {
    hide To1, HasType1, HasType2, WellFormed;
    r := slots1;
    var k := 0;
    while k < |pairs|
      invariant k <= |pairs| && FieldsHaveType1(fs, r)
      invariant FieldsTo1(fs, pairs, k, slots2, r) == FieldsTo1(fs, pairs, 0, slots2, slots1)
    {
      var i := pairs[k].ros1;
      var v := ConvertTo1(fs[i], slots2[pairs[k].ros2], r[i]);
      r := r[i := v];
      k := k + 1;
    }
  }

  /** `convert_1_to_2(const ROS1_T &, ROS2_T &)`; None is the refusal of a bounded sequence. */
  method ConvertTo2(s: Schema, v1: Value, t2: Value) returns (r: Option<Value>)
    requires WellFormed(s) && HasType1(s, v1) && HasType2(s, t2)
    ensures r == To2(s, v1, t2)
    decreases s, 3
  {
    match s
    case Bool => r := Some(Num(if v1.n == 0 then 0 else 1));
    case Time => r := Some(Stamp(ToInt32(v1.sec), v1.nsec));
    case Duration => r := Some(Stamp(v1.sec, ToUint32(v1.nsec)));
    case Header => r := Some(Struct([Stamp(ToInt32(v1.slots[1].sec), v1.slots[1].nsec), v1.slots[2]]));
    case Sequence(e, b) =>
      if b.Some? && |v1.elems| > b.value { return None; }
      var vs := ConvertEachTo2(e, v1.elems, Resized(t2.elems, |v1.elems|, Fresh2(e)));
      r := if vs.None? then None else Some(List(vs.value));
    case Array(e, _) =>
      var vs := ConvertEachTo2(e, v1.elems, t2.elems);
      r := if vs.None? then None else Some(List(vs.value));
    case Record(_, _, _, _) =>
      var slots := ConvertMembersTo2(s, v1.slots, t2.slots);
      r := if slots.None? then None else Some(Struct(slots.value));
    case _ => r := Some(v1);
  }

  method ConvertEachTo2(e: Schema, vs: seq<Value>, ts: seq<Value>) returns (r: Option<seq<Value>>)
    requires WellFormed(e) && |vs| == |ts| && ElemsHaveType1(e, vs) && ElemsHaveType2(e, ts)
    ensures r == ElemsTo2(e, vs, ts, 0)
    decreases e, 4
  {
    hide To2, HasType1, HasType2, WellFormed, ElemsTo2;
    ElemsTo2Each(e, vs, ts);
    var out := ts;
    var k := 0;
    while k < |vs|
      invariant k <= |vs| && |out| == |ts|
      invariant forall i | 0 <= i < k :: To2(e, vs[i], ts[i]) == Some(out[i])
      invariant forall i | k <= i < |ts| :: out[i] == ts[i]
    {
      var v := ConvertTo2(e, vs[k], out[k]);
      if v.None? { return None; }
      out := out[k := v.value];
      k := k + 1;
    }
    assert ElemsTo2(e, vs, ts, 0).value == out;
    r := Some(out);
  }

  method ConvertMembersTo2(s: Schema, slots1: seq<Value>, slots2: seq<Value>) returns (r: Option<seq<Value>>)
    requires s.Record? && WellFormed(s)
    requires FieldsHaveType1(s.fields, slots1) && HasType2(s, Struct(slots2))
    ensures r == FieldsTo2(s, 0, slots1, slots2)
    decreases s.fields, 4
  {
    hide To2, HasType1, HasType2, WellFormed;
    var out := slots2;
    var k := 0;
    while k < |s.pairs12|
      invariant k <= |s.pairs12| && HasType2(s, Struct(out))
      invariant FieldsTo2(s, k, slots1, out) == FieldsTo2(s, 0, slots1, slots2)
    {
      var p := s.pairs12[k];
      MemberTyped(s, out, p);
      var v := ConvertTo2(s.fields[p.ros1], slots1[p.ros1], out[p.ros2]);
      if v.None? { return None; }
      StoreMember(s, out, p, v.value);
      out := out[p.ros2 := v.value];
      k := k + 1;
    }
    r := Some(out);
  }
}
