/** The plain ROS 1 serializer and deserializer: the reference that the direct streams of the
    bridge have to match. A message is the concatenation of its fields in declaration order;
    sequences and strings carry a 32-bit count; the byte count of a block of primitives is
    computed in 32 bits. */
module Ros1Wire {
  import opened Wrappers
  import opened LittleEndian
  import opened Schema

  /** A value and the bytes that follow it. */
  datatype Parsed<T> = Parsed(value: T, rest: seq<byte>)

  // ----- pieces shared by every stream -----

  function StringBytes(chars: seq<byte>): seq<byte> {
    U32(|chars|) + chars
  }

  function StampBytes(v: Value): (bs: seq<byte>)
    requires v.Stamp?
    ensures |bs| == 8
  {
    U32(v.sec) + U32(v.nsec)
  }

  predicate Numbers(w: nat, vs: seq<Value>) {
    forall i | 0 <= i < |vs| :: vs[i].Num? && vs[i].n < Pow256(w)
  }

  /** The memory of a contiguous block of primitives. */
  function BlockMemory(w: nat, vs: seq<Value>): (bs: seq<byte>)
    requires Numbers(w, vs)
    ensures |bs| == |vs| * w
  {
    if vs == [] then []
    else
      assert |vs| * w == w + (|vs| - 1) * w;
      Encode(w, vs[0].n) + BlockMemory(w, vs[1..])
  }

  /** `const uint32_t data_len = vec.size() * sizeof(value_type);` */
  function BlockLength(w: nat, n: nat): (len: nat)
    ensures len < TWO_TO_THE_32 && len <= n * w
    ensures n * w < TWO_TO_THE_32 ==> len == n * w
  {
    n * w % TWO_TO_THE_32
  }

  /** What `memcpy` copies of a block of primitives. */
  function BlockBytes(w: nat, vs: seq<Value>): (bs: seq<byte>)
    requires Numbers(w, vs)
    ensures |bs| == BlockLength(w, |vs|)
  {
    BlockMemory(w, vs)[..BlockLength(w, |vs|)]
  }

  /** Copying bytes over the front of a block of primitives that held `was`. */
  function Overlay(w: nat, bs: seq<byte>, was: seq<Value>): (vs: seq<Value>)
    requires w > 0 && |bs| <= |was| * w
    requires Numbers(w, was)
    ensures |vs| == |was| && Numbers(w, vs)
    decreases |was|
  {
    if |bs| < w then was
    else
      assert (|was| - 1) * w == |was| * w - w;
      [Num(Decode(bs[..w]))] + Overlay(w, bs[w..], was[1..])
  }

  function Take(n: nat, bs: seq<byte>): (r: Option<Parsed<seq<byte>>>)
    ensures r.Some? <==> n <= |bs|
    ensures r.Some? ==> |r.value.value| == n && bs == r.value.value + r.value.rest
  {
    if n <= |bs| then Some(Parsed(bs[..n], bs[n..])) else None
  }

  function TakeU32(bs: seq<byte>): (r: Option<Parsed<nat>>)
    ensures r.Some? <==> 4 <= |bs|
    ensures r.Some? ==> r.value.value < TWO_TO_THE_32 && bs == U32(r.value.value) + r.value.rest
  {
    if |bs| < 4 then None
    else
      U32OfDecode(bs[..4]);
      Some(Parsed(Decode(bs[..4]), bs[4..]))
  }

  function TakeString(bs: seq<byte>): (r: Option<Parsed<seq<byte>>>)
    ensures r.Some? ==> |r.value.value| < TWO_TO_THE_32 && bs == StringBytes(r.value.value) + r.value.rest
  {
    var n := TakeU32(bs);
    if n.None? then None
    else
      var chars := Take(n.value.value, n.value.rest);
      if chars.None? then None
      else
        assert bs == U32(n.value.value) + (chars.value.value + chars.value.rest);
        chars
  }

  /** Two 32-bit words. */
  function TakeStamp(bs: seq<byte>): (r: Option<Parsed<(nat, nat)>>)
    ensures r.Some? <==> 8 <= |bs|
    ensures r.Some? ==> r.value.value.0 < TWO_TO_THE_32 && r.value.value.1 < TWO_TO_THE_32
    ensures r.Some? ==> bs == U32(r.value.value.0) + U32(r.value.value.1) + r.value.rest
  {
    var sec := TakeU32(bs);
    if sec.None? then None
    else
      var nsec := TakeU32(sec.value.rest);
      if nsec.None? then None else Some(Parsed((sec.value.value, nsec.value.value), nsec.value.rest))
  }

  // ----- serialize -----

  function Enc1(s: Schema, v: Value): (bs: seq<byte>)
    requires HasType1(s, v)
    decreases s, 0, 0
  {
    match s
    case Prim(w) => Encode(w, v.n)
    case Bool => [v.n]
    case Str => StringBytes(v.chars)
    case Time => StampBytes(v)
    case Duration => StampBytes(v)
    case Header => U32(v.slots[0].n) + StampBytes(v.slots[1]) + StringBytes(v.slots[2].chars)
    case Sequence(e, _) => U32(|v.elems|) + EncBody(e, v.elems)
    case Array(e, _) => EncBody(e, v.elems)
    case Record(fs, _, _, _) => EncFields(fs, v.slots, 0)
  }

  /** The elements of a sequence or array. */
  function EncBody(e: Schema, vs: seq<Value>): seq<byte>
    requires ElemsHaveType1(e, vs)
    decreases e, 2, 0
  {
    if e.Prim? then BlockBytes(e.width, vs) else EncElems(e, vs, 0)
  }

  /** The elements from position `k` on. */
  function EncElems(e: Schema, vs: seq<Value>, k: nat): seq<byte>
    requires k <= |vs| && ElemsHaveType1(e, vs)
    decreases e, 1, |vs| - k
  {
    if k == |vs| then [] else Enc1(e, vs[k]) + EncElems(e, vs, k + 1)
  }

  /** The fields from position `k` on. */
  function EncFields(fs: seq<Schema>, vs: seq<Value>, k: nat): seq<byte>
    requires k <= |fs| && FieldsHaveType1(fs, vs)
    decreases fs, 1, |fs| - k
  {
    if k == |fs| then [] else Enc1(fs[k], vs[k]) + EncFields(fs, vs, k + 1)
  }

  // ----- deserialize into a default-constructed message; None is a stream overrun -----

  function Dec1(s: Schema, bs: seq<byte>): (r: Option<Parsed<Value>>)
    requires WellFormed(s)
    ensures r.Some? ==> HasType1(s, r.value.value)
    decreases s, 0, 0
  {
    match s
    case Prim(w) =>
      var p := Take(w, bs);
      if p.None? then None else Some(Parsed(Num(Decode(p.value.value)), p.value.rest))
    case Bool =>
      var p := Take(1, bs);
      if p.None? then None else Some(Parsed(Num(p.value.value[0]), p.value.rest))
    case Str =>
      var p := TakeString(bs);
      if p.None? then None else Some(Parsed(Text(p.value.value), p.value.rest))
    case Time =>
      var p := TakeStamp(bs);
      if p.None? then None else Some(Parsed(Stamp(p.value.value.0, p.value.value.1), p.value.rest))
    case Duration =>
      var p := TakeStamp(bs);
      if p.None? then None
      else Some(Parsed(Stamp(ToInt32(p.value.value.0), ToInt32(p.value.value.1)), p.value.rest))
    case Header =>
      var seqNo := TakeU32(bs);
      if seqNo.None? then None
      else
        var stamp := TakeStamp(seqNo.value.rest);
        if stamp.None? then None
        else
          var frame := TakeString(stamp.value.rest);
          if frame.None? then None
          else
            var t := stamp.value.value;
            Some(Parsed(Struct([Num(seqNo.value.value), Stamp(t.0, t.1), Text(frame.value.value)]), frame.value.rest))
    case Sequence(e, _) =>
      var n := TakeU32(bs);
      if n.None? then None else DecBody(e, n.value.value, n.value.rest)
    case Array(e, n) => DecBody(e, n, bs)
    case Record(fs, _, _, _) =>
      var r := DecFields(fs, 0, bs);
      if r.None? then None else Some(Parsed(Struct(r.value.value), r.value.rest))
  }

  function DecBody(e: Schema, n: nat, bs: seq<byte>): (r: Option<Parsed<Value>>)
    requires WellFormed(e)
    ensures r.Some? ==> r.value.value.List? && |r.value.value.elems| == n && ElemsHaveType1(e, r.value.value.elems)
    decreases e, 2, 0
  {
    if e.Prim? then
      var p := Take(BlockLength(e.width, n), bs);
      if p.None? then None
      else Some(Parsed(List(Overlay(e.width, p.value.value, Copies(n, Num(0)))), p.value.rest))
    else
      var r := DecElems(e, n, bs);
      if r.None? then None else Some(Parsed(List(r.value.value), r.value.rest))
  }

  /** `n` consecutive elements. */
  function DecElems(e: Schema, n: nat, bs: seq<byte>): (r: Option<Parsed<seq<Value>>>)
    requires WellFormed(e)
    ensures r.Some? ==> |r.value.value| == n && ElemsHaveType1(e, r.value.value)
    decreases e, 1, n
  {
    if n == 0 then Some(Parsed([], bs))
    else
      var head := Dec1(e, bs);
      if head.None? then None
      else
        var tail := DecElems(e, n - 1, head.value.rest);
        if tail.None? then None
        else Some(Parsed([head.value.value] + tail.value.value, tail.value.rest))
  }

  /** The values of the fields from position `k` on. */
  function DecFields(fs: seq<Schema>, k: nat, bs: seq<byte>): (r: Option<Parsed<seq<Value>>>)
    requires k <= |fs| && forall i | 0 <= i < |fs| :: WellFormed(fs[i])
    ensures r.Some? ==> |r.value.value| == |fs| - k
    ensures r.Some? ==> forall i | k <= i < |fs| :: HasType1(fs[i], r.value.value[i - k])
    decreases fs, 1, |fs| - k
  {
    if k == |fs| then Some(Parsed([], bs))
    else
      var head := Dec1(fs[k], bs);
      if head.None? then None
      else
        var tail := DecFields(fs, k + 1, head.value.rest);
        if tail.None? then None
        else Some(Parsed([head.value.value] + tail.value.value, tail.value.rest))
  }
}
