/** The field mapping that the generator hands to the templates, as a type-driven schema,
    and the in-memory ROS 1 and ROS 2 values it relates. */
module Schema {
  import opened Wrappers
  import opened LittleEndian

  /** An entry of a field mapping: ROS 1 field `ros1` (an index in declaration order) is
      matched with ROS 2 member `ros2` (an index among the members). */
  datatype Pair = Pair(ros1: nat, ros2: nat)

  datatype Schema =
    | Prim(width: nat)    // an integer or float of `width` bytes, the same type on both sides
    | Bool                // `uint8_t` in ROS 1 C++, `bool` in ROS 2 C++
    | Str
    | Time                // ros::Time / builtin_interfaces::msg::Time
    | Duration            // ros::Duration / builtin_interfaces::msg::Duration
    | Header              // std_msgs/Header, whose `seq` has no ROS 2 counterpart
    | Sequence(elem: Schema, bound: Option<nat>)
    | Array(elem: Schema, size: nat)
      /** A message: the types of its ROS 1 fields in declaration order, the two field
          dictionaries in iteration order, and a default-constructed ROS 2 message, which has
          one slot for every member, matched or not. */
    | Record(fields: seq<Schema>, pairs12: seq<Pair>, pairs21: seq<Pair>, defaults: seq<Value>)

  datatype Value =
    | Num(n: nat)                     // the bit pattern of a primitive
    | Text(chars: seq<byte>)
    | Stamp(sec: int, nsec: int)
    | List(elems: seq<Value>)
    | Struct(slots: seq<Value>)

  // ----- typing of ROS 1 values -----

  predicate HasType1(s: Schema, v: Value)
    decreases s
  {
    match s
    case Prim(w) => v.Num? && v.n < Pow256(w)
    case Bool => v.Num? && v.n < 256
    case Str => v.Text? && |v.chars| < TWO_TO_THE_32
    case Time => v.Stamp? && IsUint32(v.sec) && IsUint32(v.nsec)
    case Duration => v.Stamp? && IsInt32(v.sec) && IsInt32(v.nsec)
    case Header => v.Struct? && |v.slots| == 3
      && v.slots[0].Num? && v.slots[0].n < TWO_TO_THE_32
      && v.slots[1].Stamp? && IsUint32(v.slots[1].sec) && IsUint32(v.slots[1].nsec)
      && v.slots[2].Text? && |v.slots[2].chars| < TWO_TO_THE_32
    case Sequence(e, _) => v.List? && forall i | 0 <= i < |v.elems| :: HasType1(e, v.elems[i])
    case Array(e, n) => v.List? && |v.elems| == n && forall i | 0 <= i < n :: HasType1(e, v.elems[i])
    case Record(fs, _, _, _) =>
      v.Struct? && |v.slots| == |fs| && forall i | 0 <= i < |fs| :: HasType1(fs[i], v.slots[i])
  }

  predicate ElemsHaveType1(e: Schema, vs: seq<Value>)
  {
    forall i | 0 <= i < |vs| :: HasType1(e, vs[i])
  }

  predicate FieldsHaveType1(fs: seq<Schema>, vs: seq<Value>)
  {
    |vs| == |fs| && forall i | 0 <= i < |fs| :: HasType1(fs[i], vs[i])
  }

  // ----- typing of ROS 2 values -----

  predicate HasType2(s: Schema, v: Value)
    decreases s
  {
    match s
    case Prim(w) => v.Num? && v.n < Pow256(w)
    case Bool => v.Num? && v.n < 2
    case Str => v.Text? && |v.chars| < TWO_TO_THE_32
    case Time => v.Stamp? && IsInt32(v.sec) && IsUint32(v.nsec)
    case Duration => v.Stamp? && IsInt32(v.sec) && IsUint32(v.nsec)
    case Header => v.Struct? && |v.slots| == 2
      && v.slots[0].Stamp? && IsInt32(v.slots[0].sec) && IsUint32(v.slots[0].nsec)
      && v.slots[1].Text? && |v.slots[1].chars| < TWO_TO_THE_32
    case Sequence(e, b) => v.List? && (b.Some? ==> |v.elems| <= b.value)
      && forall i | 0 <= i < |v.elems| :: HasType2(e, v.elems[i])
    case Array(e, n) => v.List? && |v.elems| == n && forall i | 0 <= i < n :: HasType2(e, v.elems[i])
    case Record(fs, p12, p21, ds) =>
      v.Struct? && |v.slots| == |ds|
      && (forall k | 0 <= k < |p12| ::
            p12[k].ros1 < |fs| && p12[k].ros2 < |v.slots| && HasType2(fs[p12[k].ros1], v.slots[p12[k].ros2]))
      && (forall k | 0 <= k < |p21| ::
            p21[k].ros1 < |fs| && p21[k].ros2 < |v.slots| && HasType2(fs[p21[k].ros1], v.slots[p21[k].ros2]))
  }

  predicate ElemsHaveType2(e: Schema, vs: seq<Value>)
  {
    forall i | 0 <= i < |vs| :: HasType2(e, vs[i])
  }

  /** Every matched member holds a value of the type of its partner. */
  predicate MembersHaveType2(fs: seq<Schema>, pairs: seq<Pair>, vs: seq<Value>)
  {
    forall k | 0 <= k < |pairs| ::
      pairs[k].ros1 < |fs| && pairs[k].ros2 < |vs| && HasType2(fs[pairs[k].ros1], vs[pairs[k].ros2])
  }

  // ----- well-formed schemas -----

  /** What the C++ type system guarantees about generated code: primitives have a machine
      width, element types are storable and serializable contiguously, and the default ROS 2
      message is well typed. */
  ghost predicate WellFormed(s: Schema)
    decreases s
  {
    match s
    case Prim(w) => w == 1 || w == 2 || w == 4 || w == 8
    case Sequence(e, _) => WellFormed(e) && !e.Bool?
    case Array(e, n) => WellFormed(e) && !e.Bool? && (e.Prim? ==> n * e.width < TWO_TO_THE_32)
    case Record(fs, p12, p21, ds) =>
      (forall i | 0 <= i < |fs| :: WellFormed(fs[i]))
      && MembersHaveType2(fs, p12, ds) && MembersHaveType2(fs, p21, ds)
      && OneTypeEach(fs, p12, p12) && OneTypeEach(fs, p12, p21) && OneTypeEach(fs, p21, p21)
    case _ => true
  }

  /** A ROS 2 member has one type, however many pairs name it. */
  ghost predicate OneTypeEach(fs: seq<Schema>, ps: seq<Pair>, qs: seq<Pair>) {
    forall k, l | 0 <= k < |ps| && 0 <= l < |qs| && ps[k].ros2 == qs[l].ros2 ::
      ps[k].ros1 < |fs| && qs[l].ros1 < |fs| && fs[ps[k].ros1] == fs[qs[l].ros1]
  }

  predicate Mentions(pairs: seq<Pair>, i: nat) {
    exists k | 0 <= k < |pairs| :: pairs[k].ros1 == i
  }

  /** The `ros1_field_missing_in_ros2` flag of a mapping. */
  predicate FieldMissing(fs: seq<Schema>, pairs12: seq<Pair>) {
    exists i | 0 <= i < |fs| :: !Mentions(pairs12, i)
  }

  /** Pairs that list every ROS 1 field once, in declaration order, with distinct partners. */
  predicate Covering(fs: seq<Schema>, pairs: seq<Pair>) {
    && |pairs| == |fs|
    && (forall k | 0 <= k < |pairs| :: pairs[k].ros1 == k)
    && (forall k, l | 0 <= k < l < |pairs| :: pairs[k].ros2 != pairs[l].ros2)
  }

  /** Every message reachable from the schema is mapped by name with no ROS 1 field missing
      (Header, which is hand-written, excepted). */
  ghost predicate Covered(s: Schema)
    decreases s
  {
    match s
    case Sequence(e, _) => Covered(e)
    case Array(e, _) => Covered(e)
    case Record(fs, p12, p21, _) =>
      (forall i | 0 <= i < |fs| :: Covered(fs[i])) && p12 == p21 && Covering(fs, p21)
    case _ => true
  }

  /** Assigning a matched member keeps a ROS 2 message well typed. */
  lemma StoreMember(s: Schema, slots: seq<Value>, p: Pair, v: Value)
    requires s.Record? && WellFormed(s) && HasType2(s, Struct(slots))
    requires p in s.pairs12 || p in s.pairs21
    requires p.ros1 < |s.fields| && HasType2(s.fields[p.ros1], v)
    ensures p.ros2 < |slots| && WellFormed(s.fields[p.ros1]) && HasType2(s.fields[p.ros1], slots[p.ros2])
    ensures HasType2(s, Struct(slots[p.ros2 := v]))
  {
  }

  lemma MemberTyped(s: Schema, slots: seq<Value>, p: Pair)
    requires s.Record? && WellFormed(s) && HasType2(s, Struct(slots))
    requires p in s.pairs12 || p in s.pairs21
    ensures p.ros1 < |s.fields| && p.ros2 < |slots|
    ensures WellFormed(s.fields[p.ros1]) && HasType2(s.fields[p.ros1], slots[p.ros2])
  {
  }

  // ----- default-constructed messages -----

  function Fresh1(s: Schema): (v: Value)
    ensures HasType1(s, v)
    decreases s
  {
    match s
    case Prim(_) => Num(0)
    case Bool => Num(0)
    case Str => Text([])
    case Time => Stamp(0, 0)
    case Duration => Stamp(0, 0)
    case Header => Struct([Num(0), Stamp(0, 0), Text([])])
    case Sequence(_, _) => List([])
    case Array(e, n) => List(Copies(n, Fresh1(e)))
    case Record(fs, _, _, _) => Struct(seq(|fs|, i requires 0 <= i < |fs| => Fresh1(fs[i])))
  }

  function Fresh2(s: Schema): (v: Value)
    requires WellFormed(s)
    ensures HasType2(s, v)
    decreases s
  {
    match s
    case Prim(_) => Num(0)
    case Bool => Num(0)
    case Str => Text([])
    case Time => Stamp(0, 0)
    case Duration => Stamp(0, 0)
    case Header => Struct([Stamp(0, 0), Text([])])
    case Sequence(_, _) => List([])
    case Array(e, n) => List(Copies(n, Fresh2(e)))
    case Record(_, _, _, ds) => Struct(ds)
  }

  function Copies(n: nat, v: Value): (vs: seq<Value>)
    ensures |vs| == n
    ensures forall i | 0 <= i < n :: vs[i] == v
  {
    seq(n, _ => v)
  }

  /** `std::vector::resize`: keeps the elements that fit and appends default ones. */
  function Resized(vs: seq<Value>, n: nat, filler: Value): (r: seq<Value>)
    ensures |r| == n
    ensures forall i | 0 <= i < n :: r[i] == if i < |vs| then vs[i] else filler
  {
    if n <= |vs| then vs[..n] else vs + Copies(n - |vs|, filler)
  }

  // ----- sizes that the 32-bit counters of the wire format can represent -----

  predicate CountFits(e: Schema, n: nat) {
    n < TWO_TO_THE_32 && (e.Prim? ==> n * e.width < TWO_TO_THE_32)
  }

  predicate Fits1(s: Schema, v: Value)
    requires HasType1(s, v)
    decreases s
  {
    match s
    case Sequence(e, _) => CountFits(e, |v.elems|) && forall i | 0 <= i < |v.elems| :: Fits1(e, v.elems[i])
    case Array(e, _) => forall i | 0 <= i < |v.elems| :: Fits1(e, v.elems[i])
    case Record(fs, _, _, _) => forall i | 0 <= i < |fs| :: Fits1(fs[i], v.slots[i])
    case _ => true
  }

  predicate Fits2(s: Schema, v: Value)
    requires HasType2(s, v)
    decreases s
  {
    match s
    case Sequence(e, _) => CountFits(e, |v.elems|) && forall i | 0 <= i < |v.elems| :: Fits2(e, v.elems[i])
    case Array(e, _) => forall i | 0 <= i < |v.elems| :: Fits2(e, v.elems[i])
    case Record(fs, _, p21, _) =>
      forall k | 0 <= k < |p21| :: Fits2(fs[p21[k].ros1], v.slots[p21[k].ros2])
    case _ => true
  }
}
