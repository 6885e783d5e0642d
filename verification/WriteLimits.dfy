/** Exactly which field mappings make the first diagram hold: those whose ROS 2 to ROS 1 dictionary
    lays a message out as its ROS 1 declaration does. */
module WriteLimits {
  import opened Wrappers
  import opened LittleEndian
  import opened Schema
  import opened Conversion
  import opened RoundTrip
  import opened Ros1Wire
  import opened DirectStream
  import opened Diagram
  import opened Layout

  // ----- what a type can hold -----

  /** The bytes that a default message of the type takes. */
  ghost function Width(s: Schema): nat {
    |Enc1(s, Fresh1(s))|
  }

  /** The type can hold more than its default message. */
  predicate CanVary(s: Schema)
    decreases s
  {
    match s
    case Sequence(_, b) => b != Some(0)
    case Array(e, n) => n > 0 && CanVary(e)
    case Record(fs, _, _, _) => exists i | 0 <= i < |fs| :: CanVary(fs[i])
    case _ => true
  }

  /** A ROS 1 message with a byte other than zero, if the type has one. */
  ghost function Mark(s: Schema): (v: Value)
    requires WellFormed(s)
    ensures HasType1(s, v)
    decreases s
  {
    match s
    case Prim(w) => MachineByte(w); Num(1)
    case Bool => Num(1)
    case Str => Text([0])
    case Time => Stamp(1, 0)
    case Duration => Stamp(1, 0)
    case Header => Struct([Num(0), Stamp(1, 0), Text([])])
    case Sequence(e, _) => List([Fresh1(e)])
    case Array(e, n) => List(Copies(n, Mark(e)))
    case Record(fs, _, _, _) =>
      Struct(seq(|fs|, i requires 0 <= i < |fs| => if CanVary(fs[i]) then Mark(fs[i]) else Fresh1(fs[i])))
  }

  lemma MachineByte(w: nat)
    requires w > 0
    ensures 1 < Pow256(w) && w == |Encode(w, 1)| && Encode(w, 1)[0] == 1
  {
  }

  lemma {:induction false} ZeroEncode(w: nat)
    ensures AllZero(Encode(w, 0))
  {
    if w > 0 {
      ZeroEncode(w - 1);
    }
  }

  lemma {:induction false} ZeroMemory(w: nat, vs: seq<Value>)
    requires Numbers(w, vs) && forall i | 0 <= i < |vs| :: vs[i] == Num(0)
    ensures AllZero(BlockMemory(w, vs))
  {
    if vs != [] {
      ZeroEncode(w);
      ZeroMemory(w, vs[1..]);
      ZeroConcat(Encode(w, 0), BlockMemory(w, vs[1..]));
    }
  }

  /** A default message is written as zeros. */
  lemma {:induction false} FreshIsZero(s: Schema)
    requires WellFormed(s)
    ensures AllZero(Enc1(s, Fresh1(s)))
    decreases s, 3, 0
  {
    match s
    case Prim(w) => ZeroEncode(w);
    case Array(e, n) => FreshBodyIsZero(e, Copies(n, Fresh1(e)));
    case Record(fs, _, _, _) => FreshFieldsAreZero(fs, Fresh1(s).slots, 0);
    case Bool =>
    case Header => FreshHeaderIsZero();
    case Sequence(e, _) =>
      ZeroWords();
      assert EncBody(e, []) == [];
    case _ => ZeroWords();
  }

  lemma ZeroWords()
    ensures AllZero(U32(0)) && AllZero(U32(0) + U32(0)) && AllZero(U32(0) + [])
  {
    ZeroEncode(4);
    ZeroConcat(U32(0), U32(0));
    ZeroConcat(U32(0), []);
  }

  lemma FreshHeaderIsZero()
    ensures AllZero(Enc1(Header, Fresh1(Header)))
  {
    ZeroWords();
    ZeroConcat(U32(0), StampBytes(Stamp(0, 0)));
    ZeroConcat(U32(0) + StampBytes(Stamp(0, 0)), StringBytes([]));
  }

  lemma FreshBodyIsZero(e: Schema, vs: seq<Value>)
    requires WellFormed(e) && forall i | 0 <= i < |vs| :: vs[i] == Fresh1(e)
    ensures ElemsHaveType1(e, vs) && AllZero(EncBody(e, vs))
    decreases e, 5, 0
  {
    hide BlockMemory, HasType1;
    assert ElemsHaveType1(e, vs);
    if e.Prim? {
      FreshBlockIsZero(e, vs);
    } else {
      FreshElemsAreZero(e, vs, 0);
    }
  }

  lemma FreshBlockIsZero(e: Schema, vs: seq<Value>)
    requires e.Prim? && WellFormed(e) && forall i | 0 <= i < |vs| :: vs[i] == Fresh1(e)
    ensures ElemsHaveType1(e, vs) && AllZero(EncBody(e, vs))
  {
    hide BlockMemory;
    assert Numbers(e.width, vs);
    ZeroMemory(e.width, vs);
  }

  lemma {:induction false} FreshElemsAreZero(e: Schema, vs: seq<Value>, k: nat)
    requires WellFormed(e) && k <= |vs| && ElemsHaveType1(e, vs) && forall i | 0 <= i < |vs| :: vs[i] == Fresh1(e)
    ensures AllZero(EncElems(e, vs, k))
    decreases e, 4, |vs| - k
  {
    hide Enc1, HasType1, Fresh1, WellFormed;
    if k < |vs| {
      FreshIsZero(e);
      FreshElemsAreZero(e, vs, k + 1);
      ZeroConcat(Enc1(e, vs[k]), EncElems(e, vs, k + 1));
    }
  }

  lemma {:induction false} FreshFieldsAreZero(fs: seq<Schema>, vs: seq<Value>, k: nat)
    requires k <= |fs| && FieldsHaveType1(fs, vs)
    requires forall i | 0 <= i < |fs| :: WellFormed(fs[i]) && vs[i] == Fresh1(fs[i])
    ensures AllZero(EncFields(fs, vs, k))
    decreases fs, 4, |fs| - k
  {
    hide Enc1, HasType1, Fresh1, WellFormed;
    if k < |fs| {
      FreshIsZero(fs[k]);
      FreshFieldsAreZero(fs, vs, k + 1);
      ZeroConcat(Enc1(fs[k], vs[k]), EncFields(fs, vs, k + 1));
    }
  }

  /** A marked message is not. */
  lemma {:induction false} MarkIsNotZero(s: Schema)
    requires WellFormed(s) && CanVary(s)
    ensures !AllZero(Enc1(s, Mark(s)))
    decreases s, 3, 0
  {
    match s
    case Prim(w) => MachineByte(w);
    case Bool => assert Enc1(s, Mark(s))[0] == 1;
    case Str => OneIsNotZero(); ZeroConcat(U32(1), [0]);
    case Time => OneIsNotZero(); ZeroConcat(U32(1), U32(0));
    case Duration => OneIsNotZero(); ZeroConcat(U32(1), U32(0));
    case Header => MarkedHeaderIsNotZero();
    case Sequence(e, _) => OneIsNotZero(); ZeroConcat(U32(1), EncBody(e, [Fresh1(e)]));
    case Array(e, n) => MarkedBodyIsNotZero(e, Copies(n, Mark(e)));
    case Record(fs, _, _, _) =>
      var i :| 0 <= i < |fs| && CanVary(fs[i]);
      MarkIsNotZero(fs[i]);
      FieldIsNotZero(fs, Mark(s).slots, 0, i);
  }

  lemma OneIsNotZero()
    ensures !AllZero(U32(1))
  {
    MachineByte(4);
    assert U32(1)[0] == 1;
  }

  lemma MarkedHeaderIsNotZero()
    ensures !AllZero(Enc1(Header, Mark(Header)))
  {
    OneIsNotZero();
    ZeroConcat(U32(1), U32(0));
    ZeroConcat(U32(0), StampBytes(Stamp(1, 0)));
    ZeroConcat(U32(0) + StampBytes(Stamp(1, 0)), StringBytes([]));
  }

  lemma MarkedBodyIsNotZero(e: Schema, vs: seq<Value>)
    requires WellFormed(e) && CanVary(e) && |vs| > 0 && (e.Prim? ==> |vs| * e.width < TWO_TO_THE_32)
    requires forall i | 0 <= i < |vs| :: vs[i] == Mark(e)
    ensures ElemsHaveType1(e, vs) && !AllZero(EncBody(e, vs))
    decreases e, 5, 0
  {
    assert ElemsHaveType1(e, vs);
    if e.Prim? {
      MarkedBlockIsNotZero(e, vs);
    } else {
      hide Enc1, HasType1, Mark, CanVary, WellFormed;
      MarkIsNotZero(e);
      ZeroConcat(Enc1(e, vs[0]), EncElems(e, vs, 1));
    }
  }

  lemma MarkedBlockIsNotZero(e: Schema, vs: seq<Value>)
    requires e.Prim? && WellFormed(e) && |vs| > 0 && |vs| * e.width < TWO_TO_THE_32
    requires forall i | 0 <= i < |vs| :: vs[i] == Mark(e)
    ensures ElemsHaveType1(e, vs) && !AllZero(EncBody(e, vs))
  {
    var w := e.width;
    MachineByte(w);
    assert ElemsHaveType1(e, vs) && Numbers(w, vs);
    var bs := BlockMemory(w, vs);
    assert EncBody(e, vs) == bs;
    assert bs == Encode(w, 1) + BlockMemory(w, vs[1..]);
    assert bs[0] == 1;
  }

  lemma {:induction false} FieldIsNotZero(fs: seq<Schema>, vs: seq<Value>, k: nat, i: nat)
    requires k <= i < |fs| && FieldsHaveType1(fs, vs) && !AllZero(Enc1(fs[i], vs[i]))
    ensures !AllZero(EncFields(fs, vs, k))
    decreases i - k
  {
    hide Enc1, HasType1;
    ZeroConcat(Enc1(fs[k], vs[k]), EncFields(fs, vs, k + 1));
    if k < i {
      FieldIsNotZero(fs, vs, k + 1, i);
    }
  }

  /** Default and marked messages pass through ROS 2 unchanged. */
  lemma {:induction false} FreshPasses(s: Schema)
    requires WellFormed(s)
    ensures WithinBounds(s, Fresh1(s)) && Canonical(s, Fresh1(s))
    decreases s
  {
    match s
    case Array(e, n) => FreshPasses(e);
    case Record(fs, _, _, _) =>
      forall i | 0 <= i < |fs| ensures WithinBounds(fs[i], Fresh1(fs[i])) && Canonical(fs[i], Fresh1(fs[i])) {
        FreshPasses(fs[i]);
      }
    case _ =>
  }

  lemma {:induction false} MarkPasses(s: Schema)
    requires WellFormed(s) && CanVary(s)
    ensures WithinBounds(s, Mark(s)) && Canonical(s, Mark(s))
    decreases s
  {
    match s
    case Sequence(e, _) => FreshPasses(e);
    case Array(e, n) => MarkPasses(e);
    case Record(fs, _, _, _) =>
      var vs := Mark(s).slots;
      forall i | 0 <= i < |fs| ensures WithinBounds(fs[i], vs[i]) && Canonical(fs[i], vs[i]) {
        if CanVary(fs[i]) { MarkPasses(fs[i]); } else { FreshPasses(fs[i]); }
      }
    case _ =>
  }

  /** A type that cannot vary has its default message only. */
  lemma {:induction false} FixedIsFresh(s: Schema, v: Value)
    requires HasType1(s, v) && WithinBounds(s, v) && !CanVary(s)
    ensures v == Fresh1(s)
    decreases s
  {
    match s
    case Sequence(_, _) =>
    case Array(e, n) =>
      forall i | 0 <= i < n ensures v.elems[i] == Fresh1(e) {
        FixedIsFresh(e, v.elems[i]);
      }
      assert v.elems == Copies(n, Fresh1(e));
    case Record(fs, _, _, _) =>
      forall i | 0 <= i < |fs| ensures v.slots[i] == Fresh1(s).slots[i] {
        FixedIsFresh(fs[i], v.slots[i]);
      }
  }

  lemma {:induction false} VaryingHasWidth(s: Schema)
    requires WellFormed(s) && CanVary(s)
    ensures Width(s) > 0
    decreases s, 0
  {
    match s
    case Array(e, n) => VaryingBodyHasWidth(e, Copies(n, Fresh1(e)));
    case Record(fs, _, _, _) =>
      var i :| 0 <= i < |fs| && CanVary(fs[i]);
      VaryingHasWidth(fs[i]);
      FieldHasWidth(fs, Fresh1(s).slots, 0, i);
    case _ =>
  }

  lemma VaryingBodyHasWidth(e: Schema, vs: seq<Value>)
    requires WellFormed(e) && CanVary(e) && |vs| > 0 && (e.Prim? ==> |vs| * e.width < TWO_TO_THE_32)
    requires forall i | 0 <= i < |vs| :: vs[i] == Fresh1(e)
    ensures ElemsHaveType1(e, vs) && |EncBody(e, vs)| > 0
    decreases e, 1
  {
    hide Enc1, HasType1, CanVary;
    assert ElemsHaveType1(e, vs);
    if e.Prim? {
      BlockHasWidth(e, vs);
    } else {
      hide Fresh1, WellFormed;
      VaryingHasWidth(e);
      assert EncElems(e, vs, 0) == Enc1(e, vs[0]) + EncElems(e, vs, 1);
    }
  }

  lemma BlockHasWidth(e: Schema, vs: seq<Value>)
    requires e.Prim? && WellFormed(e) && |vs| > 0 && |vs| * e.width < TWO_TO_THE_32 && ElemsHaveType1(e, vs)
    ensures |EncBody(e, vs)| > 0
  {
    hide BlockMemory;
    assert |vs| * e.width >= e.width;
  }

  lemma {:induction false} FieldHasWidth(fs: seq<Schema>, vs: seq<Value>, k: nat, i: nat)
    requires k <= i < |fs| && FieldsHaveType1(fs, vs) && |Enc1(fs[i], vs[i])| > 0
    ensures |EncFields(fs, vs, k)| > 0
    decreases i - k
  {
    hide Enc1, HasType1;
    if k < i {
      FieldHasWidth(fs, vs, k + 1, i);
    }
  }

  /** A ROS 1 message that passes unchanged is what its conversion is written as. */
  lemma WriteOfConverted(s: Schema, v1: Value)
    requires WellFormed(s) && Covered(s) && HasType1(s, v1) && WithinBounds(s, v1) && Canonical(s, v1)
    ensures var v2 := To2(s, v1, Fresh2(s)); v2.Some? && To1(s, v2.value, Fresh1(s)) == v1
  {
    hide To1, To2, HasType1, HasType2, WellFormed, Covered, WithinBounds, Canonical, Normal, Fresh1, Fresh2;
    ConvertsIffWithinBounds(s, v1, Fresh2(s));
    ThereAndBack1(s, v1, Fresh2(s));
    NormalIffCanonical(s, v1);
  }

  // ----- assigning over an earlier assignment -----

  /** Converting into this target is like converting into a fresh one. */
  ghost predicate Clean(s: Schema, t1: Value)
    requires WellFormed(s) && HasType1(s, t1)
  {
    forall v2 | HasType2(s, v2) :: To1(s, v2, t1) == To1(s, v2, Fresh1(s))
  }

  /** A second conversion leaves nothing of the first. */
  lemma {:induction false} SecondConversionWins(s: Schema, v2: Value, u2: Value)
    requires WellFormed(s) && Covered(s) && HasType2(s, v2) && HasType2(s, u2)
    ensures To1(s, v2, To1(s, u2, Fresh1(s))) == To1(s, v2, Fresh1(s))
    decreases s, 0
  {
    match s
    case Sequence(e, _) =>
      var n, us := |v2.elems|, To1(s, u2, Fresh1(s)).elems;
      SecondElemsWin(e, v2.elems, u2.elems, Resized(us, n, Fresh1(e)), Resized([], n, Fresh1(e)));
    case Array(e, n) =>
      SecondElemsWin(e, v2.elems, u2.elems, To1(s, u2, Fresh1(s)).elems, Copies(n, Fresh1(e)));
    case Record(fs, _, p, _) => SecondFieldsWin(s, v2.slots, u2.slots);
    case _ =>
  }

  lemma SecondElemsWin(e: Schema, vs: seq<Value>, us: seq<Value>, ts: seq<Value>, blanks: seq<Value>)
    requires WellFormed(e) && Covered(e) && |vs| == |ts| == |blanks|
    requires ElemsHaveType2(e, vs) && ElemsHaveType2(e, us) && ElemsHaveType1(e, ts) && ElemsHaveType1(e, blanks)
    requires forall i | 0 <= i < |vs| :: blanks[i] == Fresh1(e)
    requires forall i | 0 <= i < |vs| :: ts[i] == if i < |us| then To1(e, us[i], Fresh1(e)) else Fresh1(e)
    ensures ElemsTo1(e, vs, ts) == ElemsTo1(e, vs, blanks)
    decreases e, 1
  {
    hide To1, HasType1, HasType2, Fresh1, WellFormed, Covered;
    forall i | 0 <= i < |vs| ensures To1(e, vs[i], ts[i]) == To1(e, vs[i], blanks[i]) {
      if i < |us| { SecondConversionWins(e, vs[i], us[i]); }
    }
  }

  lemma SecondFieldsWin(s: Schema, vs: seq<Value>, us: seq<Value>)
    requires s.Record? && WellFormed(s) && Covered(s) && HasType2(s, Struct(vs)) && HasType2(s, Struct(us))
    ensures To1(s, Struct(vs), To1(s, Struct(us), Fresh1(s))) == To1(s, Struct(vs), Fresh1(s))
    decreases s, 0, 0
  {
    var fs, p := s.fields, s.pairs21;
    var blanks := Fresh1(s).slots;
    var ts := To1(s, Struct(us), Fresh1(s)).slots;
    assert MembersHaveType2(fs, p, vs) && MembersHaveType2(fs, p, us);
    hide To1, HasType1, HasType2, Fresh1;
    FieldsTo1At(fs, p, 0, us, blanks);
    FieldsTo1At(fs, p, 0, vs, ts);
    FieldsTo1At(fs, p, 0, vs, blanks);
    forall i | 0 <= i < |fs| ensures To1(fs[i], vs[p[i].ros2], ts[i]) == To1(fs[i], vs[p[i].ros2], blanks[i]) {
      SecondConversionWins(fs[i], vs[p[i].ros2], us[p[i].ros2]);
    }
  }

  lemma FreshIsClean(s: Schema)
    requires WellFormed(s)
    ensures Clean(s, Fresh1(s))
  {
  }

  lemma ConvertedIsClean(s: Schema, u2: Value, t1: Value)
    requires WellFormed(s) && Covered(s) && HasType2(s, u2) && HasType1(s, t1) && Clean(s, t1)
    ensures Clean(s, To1(s, u2, t1))
  {
    hide To1, HasType1, HasType2, Fresh1, WellFormed, Covered;
    forall v2 | HasType2(s, v2) ensures To1(s, v2, To1(s, u2, t1)) == To1(s, v2, Fresh1(s)) {
      SecondConversionWins(s, v2, u2);
    }
  }

  // ----- the two layouts of a message -----

  /** The keys of the ROS 2 to ROS 1 dictionary are distinct. */
  predicate KeysDistinct(pairs: seq<Pair>) {
    forall k, l | 0 <= k < l < |pairs| :: pairs[k].ros2 != pairs[l].ros2
  }

  /** A message whose parts are mapped by name throughout, whatever its own dictionaries are like. */
  ghost predicate Composed(s: Schema) {
    s.Record? && WellFormed(s) && (forall i | 0 <= i < |s.fields| :: Covered(s.fields[i])) && KeysDistinct(s.pairs21)
  }

  /** The ROS 1 fields in the order of the ROS 2 to ROS 1 dictionary. */
  function DictionaryOrder(pairs: seq<Pair>): (order: seq<nat>)
    ensures |order| == |pairs| && forall k | 0 <= k < |pairs| :: order[k] == pairs[k].ros1
  {
    seq(|pairs|, k requires 0 <= k < |pairs| => pairs[k].ros1)
  }

  /** The fields of a message; one that the dictionary does not name stays at its default. */
  ghost function Parts(s: Schema): (parts: seq<Part>)
    requires s.Record?
    ensures |parts| == |s.fields|
    ensures forall i | 0 <= i < |s.fields| ::
              parts[i] == Part(Width(s.fields[i]), CanVary(s.fields[i]) && i in DictionaryOrder(s.pairs21))
  {
    seq(|s.fields|, i requires 0 <= i < |s.fields| =>
      Part(Width(s.fields[i]), CanVary(s.fields[i]) && i in DictionaryOrder(s.pairs21)))
  }

  /** The dictionary gives a default message the size of its ROS 1 declaration, and it puts the fields
      that can vary at the same offsets. */
  ghost predicate LaidOutAsDeclared(s: Schema)
    requires Composed(s)
  {
    OrderIndexes(s);
    SameLayout(Parts(s), Declared(|s.fields|), DictionaryOrder(s.pairs21))
  }

  lemma OrderIndexes(s: Schema)
    requires Composed(s)
    ensures Indices(DictionaryOrder(s.pairs21), |s.fields|)
  {
    assert MembersHaveType2(s.fields, s.pairs21, s.defaults);
  }

  /** The first diagram at one message. */
  ghost predicate Commutes(s: Schema, v2: Value)
    requires WellFormed(s) && HasType2(s, v2)
  {
    Write(s, v2) == Some(Enc1(s, To1(s, v2, Fresh1(s))))
  }

  /** The bytes of every ROS 1 field of the converted message. */
  ghost function Segments(fs: seq<Schema>, vs: seq<Value>): (r: seq<seq<byte>>)
    requires FieldsHaveType1(fs, vs)
    ensures |r| == |fs| && forall i | 0 <= i < |fs| :: r[i] == Enc1(fs[i], vs[i])
  {
    seq(|fs|, i requires 0 <= i < |fs| => Enc1(fs[i], vs[i]))
  }

  lemma {:induction false} FieldsAreSegments(fs: seq<Schema>, vs: seq<Value>, k: nat)
    requires k <= |fs| && FieldsHaveType1(fs, vs)
    ensures Bytes(Segments(fs, vs), Declared(|fs|)[..k]) + EncFields(fs, vs, k) == Bytes(Segments(fs, vs), Declared(|fs|))
    decreases |fs| - k
  {
    hide Enc1, HasType1, Bytes, Segments;
    var order := Declared(|fs|);
    if k == |fs| {
      assert EncFields(fs, vs, k) == [] && order[..k] == order;
    } else {
      FieldsAreSegments(fs, vs, k + 1);
      BytesOfNext(Segments(fs, vs), order, k);
    }
  }

  lemma BytesOfNext(parts: seq<seq<byte>>, order: seq<nat>, k: nat)
    requires Indices(order, |parts|) && k < |order|
    ensures Bytes(parts, order[..k + 1]) == Bytes(parts, order[..k]) + parts[order[k]]
  {
    assert order[..k + 1][..k] == order[..k];
  }

  /** No pair from position `k` on is for this field. */
  predicate NotNamed(pairs: seq<Pair>, k: nat, i: nat) {
    forall l | k <= l < |pairs| :: pairs[l].ros1 != i
  }

  /** Each field has the conversion of the last partner that the dictionary names for it; the others
      are untouched. */
  lemma {:induction false} FieldsTo1Named(fs: seq<Schema>, pairs: seq<Pair>, k: nat, slots2: seq<Value>, slots1: seq<Value>)
    requires k <= |pairs| && forall i | 0 <= i < |fs| :: WellFormed(fs[i]) && Covered(fs[i])
    requires MembersHaveType2(fs, pairs, slots2) && FieldsHaveType1(fs, slots1)
    requires forall i | 0 <= i < |fs| :: Clean(fs[i], slots1[i])
    ensures var r := FieldsTo1(fs, pairs, k, slots2, slots1);
            && (forall l | k <= l < |pairs| && NotNamed(pairs, l + 1, pairs[l].ros1) ::
                  r[pairs[l].ros1] == To1(fs[pairs[l].ros1], slots2[pairs[l].ros2], Fresh1(fs[pairs[l].ros1])))
            && (forall i | 0 <= i < |fs| && NotNamed(pairs, k, i) :: r[i] == slots1[i])
    decreases |pairs| - k
  {
    hide To1, HasType1, HasType2, WellFormed, Covered, Clean, Fresh1, NotNamed;
    if k < |pairs| {
      var i, j := pairs[k].ros1, pairs[k].ros2;
      var v := To1(fs[i], slots2[j], slots1[i]);
      CleanConversion(fs[i], slots2[j], slots1[i]);
      FieldsTo1Named(fs, pairs, k + 1, slots2, slots1[i := v]);
      NotNamedFrom(pairs, k);
    }
  }

  lemma NotNamedFrom(pairs: seq<Pair>, k: nat)
    requires k < |pairs|
    ensures forall i :: NotNamed(pairs, k, i) <==> pairs[k].ros1 != i && NotNamed(pairs, k + 1, i)
  {
  }

  lemma CleanConversion(s: Schema, v2: Value, t1: Value)
    requires WellFormed(s) && Covered(s) && HasType2(s, v2) && HasType1(s, t1) && Clean(s, t1)
    ensures To1(s, v2, t1) == To1(s, v2, Fresh1(s)) && Clean(s, To1(s, v2, t1))
  {
    ConvertedIsClean(s, v2, t1);
  }

  /** The converted message, field by field. */
  ghost function Converted(s: Schema, v2: Value): (vs: seq<Value>)
    requires s.Record? && WellFormed(s) && HasType2(s, v2)
    ensures FieldsHaveType1(s.fields, vs)
  {
    To1(s, v2, Fresh1(s)).slots
  }

  lemma ConvertedFields(s: Schema, v2: Value)
    requires Composed(s) && HasType2(s, v2)
    ensures v2.Struct? && MembersHaveType2(s.fields, s.pairs21, v2.slots) && (forall i | 0 <= i < |s.fields| :: WellFormed(s.fields[i]))
    ensures var vs, p := Converted(s, v2), s.pairs21;
            && (forall k | 0 <= k < |p| && NotNamed(p, k + 1, p[k].ros1) ::
                  vs[p[k].ros1] == To1(s.fields[p[k].ros1], v2.slots[p[k].ros2], Fresh1(s.fields[p[k].ros1])))
            && (forall i | 0 <= i < |s.fields| && NotNamed(p, 0, i) :: vs[i] == Fresh1(s.fields[i]))
  {
    hide HasType1, Covered, Clean;
    var p, blank := s.pairs21, Fresh1(s).slots;
    assert MembersHaveType2(s.fields, p, v2.slots);
    forall i | 0 <= i < |s.fields| ensures Clean(s.fields[i], blank[i]) {
      FreshIsClean(s.fields[i]);
    }
    FieldsTo1Named(s.fields, p, 0, v2.slots, blank);
  }

  lemma NamedOrNot(pairs: seq<Pair>, i: nat)
    ensures NotNamed(pairs, 0, i) <==> i !in DictionaryOrder(pairs)
  {
    if i in DictionaryOrder(pairs) {
      var k :| 0 <= k < |pairs| && DictionaryOrder(pairs)[k] == i;
      assert pairs[k].ros1 == i;
    }
    if !NotNamed(pairs, 0, i) {
      var k :| 0 <= k < |pairs| && pairs[k].ros1 == i;
      assert DictionaryOrder(pairs)[k] == i;
    }
  }

  /** The last pair for a field that has one from position `k` on. */
  lemma {:induction false} LastPair(pairs: seq<Pair>, k: nat, i: nat) returns (l: nat)
    requires k <= |pairs| && !NotNamed(pairs, k, i)
    ensures k <= l < |pairs| && pairs[l].ros1 == i && NotNamed(pairs, l + 1, i)
    decreases |pairs| - k
  {
    if NotNamed(pairs, k + 1, i) {
      l := k;
    } else {
      l := LastPair(pairs, k + 1, i);
    }
  }

  // ----- the direct stream, member by member -----

  /** The bytes of every member that the dictionary names. */
  ghost function MemberBytes(s: Schema, v2: Value): (r: seq<seq<byte>>)
    requires s.Record? && WellFormed(s) && HasType2(s, v2) && v2.Struct? && MembersHaveType2(s.fields, s.pairs21, v2.slots)
    ensures |r| == |s.pairs21|
    ensures forall k | 0 <= k < |r| ::
              var f := s.fields[s.pairs21[k].ros1]; r[k] == Enc1(f, To1(f, v2.slots[s.pairs21[k].ros2], Fresh1(f)))
  {
    seq(|s.pairs21|, k requires 0 <= k < |s.pairs21| =>
      var f := s.fields[s.pairs21[k].ros1]; Enc1(f, To1(f, v2.slots[s.pairs21[k].ros2], Fresh1(f))))
  }

  lemma {:induction false} WriteIsMembers(s: Schema, v2: Value, k: nat)
    requires Composed(s) && HasType2(s, v2) && k <= |s.pairs21|
    requires v2.Struct? && MembersHaveType2(s.fields, s.pairs21, v2.slots)
    ensures var all := Declared(|s.pairs21|);
            Join(Some(Bytes(MemberBytes(s, v2), all[..k])), WriteFields(s.fields, s.pairs21, v2.slots, k)) == Some(Bytes(MemberBytes(s, v2), all))
    decreases |s.pairs21| - k
  {
    var fs, p, members, all := s.fields, s.pairs21, MemberBytes(s, v2), Declared(|s.pairs21|);
    hide Bytes, MemberBytes, Write, Enc1, HasType1, HasType2, Fresh1, To1, WellFormed, Covered;
    if k == |p| {
      assert all[..k] == all;
      JoinAssociates(Some(Bytes(members, all)), None, None);
    } else {
      WriteOfMember(s, v2, k);
      BytesOfNext(members, all, k);
      JoinAssociates(Some(Bytes(members, all[..k])), Some(members[k]), WriteFields(fs, p, v2.slots, k + 1));
      assert WriteFields(fs, p, v2.slots, k) == Join(Some(members[k]), WriteFields(fs, p, v2.slots, k + 1));
      hide WriteFields;
      WriteIsMembers(s, v2, k + 1);
    }
  }

  lemma WriteOfMember(s: Schema, v2: Value, k: nat)
    requires Composed(s) && HasType2(s, v2) && k < |s.pairs21|
    requires v2.Struct? && MembersHaveType2(s.fields, s.pairs21, v2.slots)
    ensures Write(s.fields[s.pairs21[k].ros1], v2.slots[s.pairs21[k].ros2]) == Some(MemberBytes(s, v2)[k])
  {
    assert WellFormed(s.fields[s.pairs21[k].ros1]);
    hide Write, Enc1, HasType1, HasType2, Fresh1, To1, WellFormed;
    DirectWriteIsSerialization(s.fields[s.pairs21[k].ros1], v2.slots[s.pairs21[k].ros2]);
  }

  /** Both sides of the diagram as pieces: the members in the order of the dictionary, and the
      segments in the order of the declaration. */
  lemma BothSides(s: Schema, v2: Value)
    requires Composed(s) && HasType2(s, v2)
    ensures v2.Struct? && MembersHaveType2(s.fields, s.pairs21, v2.slots)
    ensures Enc1(s, To1(s, v2, Fresh1(s))) == Bytes(Segments(s.fields, Converted(s, v2)), Declared(|s.fields|))
    ensures Write(s, v2) == if FieldMissing(s.fields, s.pairs12) then None
                            else Some(Bytes(MemberBytes(s, v2), Declared(|s.pairs21|)))
  {
    RecordBytes(s, v2);
    hide Enc1, HasType1, HasType2, To1, Fresh1, Write, WriteFields, EncFields, FieldMissing, MemberBytes, Segments, Converted, WellFormed, Covered;
    FieldsAreSegments(s.fields, Converted(s, v2), 0);
    assert Declared(|s.fields|)[..0] == [] && Declared(|s.pairs21|)[..0] == [];
    assert [] + EncFields(s.fields, Converted(s, v2), 0) == EncFields(s.fields, Converted(s, v2), 0);
    WriteIsMembers(s, v2, 0);
    JoinAssociates(WriteFields(s.fields, s.pairs21, v2.slots, 0), None, None);
  }

  lemma RecordBytes(s: Schema, v2: Value)
    requires Composed(s) && HasType2(s, v2)
    ensures v2.Struct? && MembersHaveType2(s.fields, s.pairs21, v2.slots)
    ensures Enc1(s, To1(s, v2, Fresh1(s))) == EncFields(s.fields, Converted(s, v2), 0)
    ensures Write(s, v2) == if FieldMissing(s.fields, s.pairs12) then None else WriteFields(s.fields, s.pairs21, v2.slots, 0)
  {
  }

  // ----- messages in which every field that can vary is named once -----

  ghost predicate Tidy(s: Schema)
    requires Composed(s)
  {
    OrderIndexes(s);
    LiveOnce(Parts(s), DictionaryOrder(s.pairs21))
  }

  /** A field that cannot vary has its default bytes, and so has a field that is not named. */
  lemma FixedBytes(s: Schema, v2: Value, i: nat)
    requires Composed(s) && HasType2(s, v2) && i < |s.fields| && !Parts(s)[i].live
    ensures Converted(s, v2)[i] == Fresh1(s.fields[i])
  {
    hide Enc1, HasType1, HasType2, Fresh1, To1, To2, Converted, Covered, WithinBounds, CanVary, WellFormed, Width;
    ConvertedFields(s, v2);
    NamedOrNot(s.pairs21, i);
    if !NotNamed(s.pairs21, 0, i) {
      var k := LastPair(s.pairs21, 0, i);
      FixedMember(s.fields[i], v2.slots[s.pairs21[k].ros2]);
    }
  }

  lemma FixedMember(s: Schema, v2: Value)
    requires WellFormed(s) && Covered(s) && HasType2(s, v2) && !CanVary(s)
    ensures To1(s, v2, Fresh1(s)) == Fresh1(s)
  {
    hide HasType1, HasType2, Fresh1, To1, To2, Covered, WithinBounds, CanVary, WellFormed;
    ThereAndBack2(s, v2, v2);
    ConvertsIffWithinBounds(s, To1(s, v2, Fresh1(s)), v2);
    FixedIsFresh(s, To1(s, v2, Fresh1(s)));
  }

  /** Then the members are the segments in the order of the dictionary. */
  lemma MembersAreSegments(s: Schema, v2: Value)
    requires Composed(s) && Tidy(s) && HasType2(s, v2)
    ensures v2.Struct? && MembersHaveType2(s.fields, s.pairs21, v2.slots) && Indices(DictionaryOrder(s.pairs21), |s.fields|)
    ensures Bytes(MemberBytes(s, v2), Declared(|s.pairs21|)) == Bytes(Segments(s.fields, Converted(s, v2)), DictionaryOrder(s.pairs21))
  {
    OrderIndexes(s);
    ConvertedFields(s, v2);
    var p, order := s.pairs21, DictionaryOrder(s.pairs21);
    var segments, members := Segments(s.fields, Converted(s, v2)), MemberBytes(s, v2);
    hide Enc1, HasType1, HasType2, Fresh1, To1, Converted, CanVary, WellFormed, Width, Bytes;
    forall k | 0 <= k < |p| ensures members[k] == segments[order[k]] {
      MemberIsSegment(s, v2, k);
    }
    BytesRenamed(segments, order, members);
  }

  lemma MemberIsSegment(s: Schema, v2: Value, k: nat)
    requires Composed(s) && Tidy(s) && HasType2(s, v2) && k < |s.pairs21|
    requires v2.Struct? && MembersHaveType2(s.fields, s.pairs21, v2.slots)
    ensures MemberBytes(s, v2)[k] == Segments(s.fields, Converted(s, v2))[s.pairs21[k].ros1]
  {
    hide Enc1, HasType1, HasType2, Fresh1, To1, Converted, CanVary, Width;
    OrderIndexes(s);
    ConvertedFields(s, v2);
    var p, order := s.pairs21, DictionaryOrder(s.pairs21);
    var i := p[k].ros1;
    assert order[k] in order;
    if Parts(s)[i].live {
      forall l | k + 1 <= l < |p| ensures p[l].ros1 != i {
        assert order[l] == p[l].ros1 && order[k] == i;
      }
    } else {
      FixedBytes(s, v2, i);
      FixedMember(s.fields[i], v2.slots[p[k].ros2]);
    }
  }

  /** The segments of a converted message fill the parts. */
  lemma SegmentsFill(s: Schema, v2: Value)
    requires Composed(s) && HasType2(s, v2)
    ensures Fills(Parts(s), Segments(s.fields, Converted(s, v2)))
  {
    assert forall i | 0 <= i < |s.fields| :: WellFormed(s.fields[i]);
    hide Enc1, HasType1, HasType2, Fresh1, Converted, Covered, CanVary, WellFormed;
    forall i | 0 <= i < |s.fields| && !Parts(s)[i].live ensures Segments(s.fields, Converted(s, v2))[i] == Zeros(Parts(s)[i].width) {
      FixedBytes(s, v2, i);
      FreshIsZero(s.fields[i]);
      AllZeroIsZeros(Enc1(s.fields[i], Fresh1(s.fields[i])));
    }
  }

  lemma AllZeroIsZeros(bs: seq<byte>)
    requires AllZero(bs)
    ensures bs == Zeros(|bs|)
  {
  }

  // ----- messages with chosen members -----

  /** One value for every pair of the dictionary, each of which passes through ROS 2 unchanged. */
  ghost predicate Choices(s: Schema, us: seq<Value>)
    requires Composed(s)
  {
    && |us| == |s.pairs21|
    && forall k | 0 <= k < |us| ::
         var i := s.pairs21[k].ros1;
         i < |s.fields| && HasType1(s.fields[i], us[k]) && WithinBounds(s.fields[i], us[k]) && Canonical(s.fields[i], us[k])
  }

  /** A ROS 2 message with chosen values in the first `k` members of the dictionary. */
  lemma {:induction false} ChooseSlots(s: Schema, us: seq<Value>, k: nat) returns (slots: seq<Value>)
    requires Composed(s) && Choices(s, us) && k <= |s.pairs21|
    ensures HasType2(s, Struct(slots))
    ensures forall l | 0 <= l < k ::
              var i, j := s.pairs21[l].ros1, s.pairs21[l].ros2;
              && i < |s.fields| && j < |slots| && WellFormed(s.fields[i]) && HasType2(s.fields[i], slots[j])
              && To1(s.fields[i], slots[j], Fresh1(s.fields[i])) == us[l]
  {
    if k == 0 {
      slots := s.defaults;
    } else {
      var before := ChooseSlots(s, us, k - 1);
      slots := ChooseSlot(s, us, k - 1, before);
    }
  }

  lemma ChooseSlot(s: Schema, us: seq<Value>, k: nat, before: seq<Value>) returns (slots: seq<Value>)
    requires Composed(s) && Choices(s, us) && k < |s.pairs21| && HasType2(s, Struct(before))
    ensures HasType2(s, Struct(slots)) && |slots| == |before|
    ensures forall j | 0 <= j < |slots| && j != s.pairs21[k].ros2 :: slots[j] == before[j]
    ensures var i, j := s.pairs21[k].ros1, s.pairs21[k].ros2;
            && i < |s.fields| && j < |slots| && WellFormed(s.fields[i]) && HasType2(s.fields[i], slots[j])
            && To1(s.fields[i], slots[j], Fresh1(s.fields[i])) == us[k]
  {
    hide To1, HasType1, HasType2, WellFormed, WithinBounds, Canonical, Fresh1, Fresh2, To2, Covered;
    var p := s.pairs21[k];
    MemberTyped(s, before, p);
    WriteOfConverted(s.fields[p.ros1], us[k]);
    var v := To2(s.fields[p.ros1], us[k], Fresh2(s.fields[p.ros1])).value;
    StoreMember(s, before, p, v);
    slots := before[p.ros2 := v];
  }

  /** The pieces of that message. */
  lemma ChooseMessage(s: Schema, us: seq<Value>) returns (v2: Value)
    requires Composed(s) && Choices(s, us)
    ensures HasType2(s, v2) && v2.Struct? && MembersHaveType2(s.fields, s.pairs21, v2.slots)
    ensures forall k | 0 <= k < |us| :: MemberBytes(s, v2)[k] == Enc1(s.fields[s.pairs21[k].ros1], us[k])
    ensures forall k | 0 <= k < |us| && NotNamed(s.pairs21, k + 1, s.pairs21[k].ros1) :: Converted(s, v2)[s.pairs21[k].ros1] == us[k]
    ensures forall i | 0 <= i < |s.fields| && NotNamed(s.pairs21, 0, i) :: Converted(s, v2)[i] == Fresh1(s.fields[i])
  {
    var slots := ChooseSlots(s, us, |s.pairs21|);
    v2 := Struct(slots);
    hide To1, HasType1, HasType2, WithinBounds, Canonical, Fresh1, Enc1, Covered, Converted, WellFormed;
    ConvertedFields(s, v2);
  }

  /** Default values for all members but, if it is one, number `m`, which is marked. */
  ghost function MarkedChoices(s: Schema, m: nat): (us: seq<Value>)
    requires Composed(s)
    ensures |us| == |s.pairs21|
    ensures forall k | 0 <= k < |us| ::
              var i := s.pairs21[k].ros1;
              i < |s.fields| && WellFormed(s.fields[i]) && us[k] == if k == m then Mark(s.fields[i]) else Fresh1(s.fields[i])
  {
    OrderIndexes(s);
    assert forall k | 0 <= k < |s.pairs21| :: DictionaryOrder(s.pairs21)[k] == s.pairs21[k].ros1;
    seq(|s.pairs21|, k requires 0 <= k < |s.pairs21| =>
      var i := s.pairs21[k].ros1; if k == m then Mark(s.fields[i]) else Fresh1(s.fields[i]))
  }

  lemma MarkedChoicesPass(s: Schema, m: nat)
    requires Composed(s) && (m < |s.pairs21| ==> s.pairs21[m].ros1 < |s.fields| && CanVary(s.fields[s.pairs21[m].ros1]))
    ensures Choices(s, MarkedChoices(s, m))
  {
    hide HasType1, WithinBounds, Canonical, Fresh1, Covered, CanVary, Mark, WellFormed, KeysDistinct;
    var us := MarkedChoices(s, m);
    forall k | 0 <= k < |us|
      ensures var f := s.fields[s.pairs21[k].ros1]; HasType1(f, us[k]) && WithinBounds(f, us[k]) && Canonical(f, us[k])
    {
      if k == m { MarkPasses(s.fields[s.pairs21[k].ros1]); } else { FreshPasses(s.fields[s.pairs21[k].ros1]); }
    }
  }

  lemma MarkedMessage(s: Schema, m: nat) returns (v2: Value)
    requires Composed(s) && (m < |s.pairs21| ==> s.pairs21[m].ros1 < |s.fields| && CanVary(s.fields[s.pairs21[m].ros1]))
    ensures HasType2(s, v2) && v2.Struct? && MembersHaveType2(s.fields, s.pairs21, v2.slots)
    ensures m < |s.pairs21| ==> !AllZero(MemberBytes(s, v2)[m])
    ensures forall i | 0 <= i < |s.fields| ::
              Converted(s, v2)[i] == if m < |s.pairs21| && s.pairs21[m].ros1 == i && NotNamed(s.pairs21, m + 1, i) && WellFormed(s.fields[i])
                                     then Mark(s.fields[i]) else Fresh1(s.fields[i])
  {
    assert forall i | 0 <= i < |s.fields| :: WellFormed(s.fields[i]);
    hide HasType1, HasType2, WithinBounds, Canonical, Fresh1, Enc1, Covered, Converted, CanVary, Mark, WellFormed, Choices, KeysDistinct;
    var us := MarkedChoices(s, m);
    MarkedChoicesPass(s, m);
    v2 := ChooseMessage(s, us);
    hide Composed, HasType2;
    if m < |us| { MarkIsNotZero(s.fields[s.pairs21[m].ros1]); }
    forall i | 0 <= i < |s.fields|
      ensures Converted(s, v2)[i] == if m < |s.pairs21| && s.pairs21[m].ros1 == i && NotNamed(s.pairs21, m + 1, i)
                                     then Mark(s.fields[i]) else Fresh1(s.fields[i])
    {
      if !NotNamed(s.pairs21, 0, i) {
        var k := LastPair(s.pairs21, 0, i);
      }
    }
  }

  /** The segments of a message that is blank but for one field. */
  lemma MarkedSegments(s: Schema, v2: Value, m: nat)
    requires Composed(s) && HasType2(s, v2) && m <= |s.fields|
    requires forall i | 0 <= i < |s.fields| ::
               WellFormed(s.fields[i]) && Converted(s, v2)[i] == if i == m then Mark(s.fields[i]) else Fresh1(s.fields[i])
    ensures var segments := Segments(s.fields, Converted(s, v2));
            segments == if m == |s.fields| then Blank(Parts(s)) else Blank(Parts(s))[m := Enc1(s.fields[m], Mark(s.fields[m]))]
  {
    hide HasType1, HasType2, Fresh1, Enc1, Covered, Converted, CanVary, Mark, WellFormed;
    forall i | 0 <= i < |s.fields| ensures Enc1(s.fields[i], Fresh1(s.fields[i])) == Zeros(Width(s.fields[i])) {
      FreshIsZero(s.fields[i]);
      AllZeroIsZeros(Enc1(s.fields[i], Fresh1(s.fields[i])));
    }
  }

  // ----- the exact condition -----

  /** A field that takes bytes and that a dictionary without repetitions leaves out makes the direct
      stream too short, for every message. */
  lemma LeftOutFieldShortens(s: Schema, i: nat, v2: Value)
    requires Composed(s) && HasType2(s, v2) && !FieldMissing(s.fields, s.pairs12) && Distinct(DictionaryOrder(s.pairs21))
    requires i < |s.fields| && i !in DictionaryOrder(s.pairs21) && Width(s.fields[i]) > 0
    ensures Write(s, v2).Some? && |Write(s, v2).value| < |Enc1(s, To1(s, v2, Fresh1(s)))|
  {
    hide Write, Enc1, HasType1, HasType2, Fresh1, To1, Converted, Bytes, FieldMissing, Covered, WellFormed, CanVary;
    OrderIndexes(s);
    BothSides(s, v2);
    MembersAreSegments(s, v2);
    ConvertedFields(s, v2);
    NamedOrNot(s.pairs21, i);
    var segments := Segments(s.fields, Converted(s, v2));
    LengthOfBytes(segments, DictionaryOrder(s.pairs21));
    LengthOfBytes(segments, Declared(|s.fields|));
    MissingPartIsMissed(Lengths(segments), DictionaryOrder(s.pairs21), |s.fields|, i);
  }

  /** The first diagram holds for every message of a type if and only if no ROS 1 field is missing in
      ROS 2 and the ROS 2 to ROS 1 dictionary lays the message out as declared. */
  lemma DiagramIffLaidOutAsDeclared(s: Schema)
    requires Composed(s)
    ensures (forall v2 | HasType2(s, v2) :: Commutes(s, v2)) <==>
            !FieldMissing(s.fields, s.pairs12) && LaidOutAsDeclared(s)
  {
    if !FieldMissing(s.fields, s.pairs12) && LaidOutAsDeclared(s) {
      LaidOutIsTidy(s);
      forall v2 | HasType2(s, v2) ensures Commutes(s, v2) {
        LaidOutCommutes(s, v2);
      }
    }
    if forall v2 | HasType2(s, v2) :: Commutes(s, v2) {
      CommutingIsTidy(s);
      CommutingIsLaidOut(s);
    }
  }

  lemma LaidOutIsTidy(s: Schema)
    requires Composed(s) && LaidOutAsDeclared(s)
    ensures Tidy(s)
  {
    hide CanVary, Width;
    OrderIndexes(s);
    VaryingPartsHaveWidth(s);
    SameLayoutOnce(Parts(s), Declared(|s.fields|), DictionaryOrder(s.pairs21));
  }

  lemma LaidOutCommutes(s: Schema, v2: Value)
    requires Composed(s) && Tidy(s) && HasType2(s, v2) && !FieldMissing(s.fields, s.pairs12) && LaidOutAsDeclared(s)
    ensures Commutes(s, v2)
  {
    hide Write, Enc1, HasType1, HasType2, Fresh1, To1, Converted, Bytes, FieldMissing, Covered, WellFormed, SameLayout, Fills, Tidy;
    OrderIndexes(s);
    BothSides(s, v2);
    MembersAreSegments(s, v2);
    SegmentsFill(s, v2);
    SameLayoutSameBytes(Parts(s), Segments(s.fields, Converted(s, v2)), Declared(|s.fields|), DictionaryOrder(s.pairs21));
  }

  /** A field that can vary and has two partners: what only the first of them holds is written, but
      not converted. */
  lemma CommutingIsTidy(s: Schema)
    requires Composed(s) && forall v2 | HasType2(s, v2) :: Commutes(s, v2)
    ensures Tidy(s)
  {
    OrderIndexes(s);
    var p, order := s.pairs21, DictionaryOrder(s.pairs21);
    hide Composed, Commutes, HasType2, CanVary, Width;
    forall k, l | 0 <= k < l < |order| && order[k] == order[l] ensures !Parts(s)[order[k]].live {
      if Parts(s)[order[k]].live {
        var v2 := RepetitionBreaksDiagram(s, k, l);
      }
    }
  }

  lemma RepetitionBreaksDiagram(s: Schema, k: nat, l: nat) returns (v2: Value)
    requires Composed(s) && k < l < |s.pairs21| && s.pairs21[k].ros1 == s.pairs21[l].ros1 < |s.fields|
    requires CanVary(s.fields[s.pairs21[k].ros1])
    ensures HasType2(s, v2) && !Commutes(s, v2)
  {
    assert forall i | 0 <= i < |s.fields| :: WellFormed(s.fields[i]);
    v2 := MarkedMessage(s, k);
    assert !NotNamed(s.pairs21, k + 1, s.pairs21[k].ros1);
    hide Write, Enc1, HasType1, HasType2, Fresh1, To1, Converted, Bytes, FieldMissing, Covered, WellFormed, CanVary, Mark, AllZero;
    hide NotNamed, MemberBytes, Segments;
    BothSides(s, v2);
    FreshSegmentsAreZero(s, v2);
    BytesZeroIff(MemberBytes(s, v2), Declared(|s.pairs21|));
    assert Declared(|s.pairs21|)[k] == k;
  }

  lemma FreshSegmentsAreZero(s: Schema, v2: Value)
    requires Composed(s) && HasType2(s, v2)
    requires forall i | 0 <= i < |s.fields| :: Converted(s, v2)[i] == Fresh1(s.fields[i])
    ensures AllZero(Bytes(Segments(s.fields, Converted(s, v2)), Declared(|s.fields|)))
  {
    assert forall i | 0 <= i < |s.fields| :: WellFormed(s.fields[i]);
    hide Enc1, HasType1, HasType2, Fresh1, Converted, Bytes, Covered, WellFormed, AllZero;
    forall i | 0 <= i < |s.fields| ensures AllZero(Segments(s.fields, Converted(s, v2))[i]) {
      FreshIsZero(s.fields[i]);
    }
    BytesZeroIff(Segments(s.fields, Converted(s, v2)), Declared(|s.fields|));
  }

  lemma CommutingIsLaidOut(s: Schema)
    requires Composed(s) && Tidy(s) && forall v2 | HasType2(s, v2) :: Commutes(s, v2)
    ensures !FieldMissing(s.fields, s.pairs12) && LaidOutAsDeclared(s)
  {
    assert forall i | 0 <= i < |s.fields| :: WellFormed(s.fields[i]);
    OrderIndexes(s);
    var fs, parts, a, b := s.fields, Parts(s), Declared(|s.fields|), DictionaryOrder(s.pairs21);
    BlankAgrees(s);
    var marks := seq(|fs|, i requires 0 <= i < |fs| => if CanVary(fs[i]) then Enc1(fs[i], MarkOf(s, i)) else []);
    hide Enc1, HasType1, HasType2, Bytes, FieldMissing, Covered, WellFormed, SameLayout, CanVary, Mark, AllZero, Commutes;
    forall i | 0 <= i < |fs| && parts[i].live
      ensures parts[i].width > 0 && !AllZero(marks[i]) && i in a && i in b
      ensures Bytes(Blank(parts)[i := marks[i]], a) == Bytes(Blank(parts)[i := marks[i]], b)
    {
      VaryingHasWidth(fs[i]);
      MarkIsNotZero(fs[i]);
      assert a[i] == i;
      MarkAgrees(s, i);
    }
    AgreeingOnMarks(parts, a, b, marks);
  }

  lemma BlankAgrees(s: Schema)
    requires Composed(s) && Tidy(s) && forall v2 | HasType2(s, v2) :: Commutes(s, v2)
    ensures !FieldMissing(s.fields, s.pairs12) && Indices(DictionaryOrder(s.pairs21), |s.fields|)
    ensures Bytes(Blank(Parts(s)), Declared(|s.fields|)) == Bytes(Blank(Parts(s)), DictionaryOrder(s.pairs21))
  {
    assert forall i | 0 <= i < |s.fields| :: WellFormed(s.fields[i]);
    hide Write, Enc1, HasType1, HasType2, Fresh1, To1, Converted, Bytes, FieldMissing, Covered, WellFormed, CanVary, Mark, Tidy, Segments, MemberBytes;
    var v2 := MarkedMessage(s, |s.pairs21|);
    assert Commutes(s, v2);
    BothSides(s, v2);
    MembersAreSegments(s, v2);
    MarkedSegments(s, v2, |s.fields|);
  }

  lemma MarkAgrees(s: Schema, i: nat)
    requires Composed(s) && Tidy(s) && forall v2 | HasType2(s, v2) :: Commutes(s, v2)
    requires i < |s.fields| && Parts(s)[i].live
    ensures Indices(DictionaryOrder(s.pairs21), |s.fields|)
    ensures var bytes := Blank(Parts(s))[i := Enc1(s.fields[i], MarkOf(s, i))];
            Bytes(bytes, Declared(|s.fields|)) == Bytes(bytes, DictionaryOrder(s.pairs21))
  {
    assert forall j | 0 <= j < |s.fields| :: WellFormed(s.fields[j]);
    OrderIndexes(s);
    NamedOrNot(s.pairs21, i);
    var k := LastPair(s.pairs21, 0, i);
    hide Write, Enc1, HasType1, HasType2, Fresh1, To1, Converted, Bytes, FieldMissing, Covered, WellFormed, CanVary, Mark, Tidy, Segments, MemberBytes;
    var v2 := MarkedMessage(s, k);
    assert Commutes(s, v2);
    BothSides(s, v2);
    MembersAreSegments(s, v2);
    MarkedSegments(s, v2, i);
  }

  ghost function MarkOf(s: Schema, i: nat): (v: Value)
    requires Composed(s) && i < |s.fields|
    ensures WellFormed(s.fields[i]) && HasType1(s.fields[i], v) && v == Mark(s.fields[i])
  {
    Mark(s.fields[i])
  }

  /** For any two fields that can vary and that the dictionary lists the other way round, there is a
      message at which the diagram fails. */
  lemma InversionBreaksDiagram(s: Schema, k: nat, l: nat) returns (v2: Value)
    requires Composed(s) && k < l < |s.pairs21| && s.pairs21[l].ros1 < s.pairs21[k].ros1 < |s.fields|
    requires CanVary(s.fields[s.pairs21[k].ros1]) && CanVary(s.fields[s.pairs21[l].ros1])
    ensures HasType2(s, v2) && !Commutes(s, v2)
  {
    InversionIsNotLaidOut(s, k, l);
    hide *;
    DiagramIffLaidOutAsDeclared(s);
    v2 :| HasType2(s, v2) && !Commutes(s, v2);
  }

  lemma InversionIsNotLaidOut(s: Schema, k: nat, l: nat)
    requires Composed(s) && k < l < |s.pairs21| && s.pairs21[l].ros1 < s.pairs21[k].ros1 < |s.fields|
    requires CanVary(s.fields[s.pairs21[k].ros1]) && CanVary(s.fields[s.pairs21[l].ros1])
    ensures !LaidOutAsDeclared(s)
  {
    OrderIndexes(s);
    VaryingPartsHaveWidth(s);
    var i, j, order := s.pairs21[l].ros1, s.pairs21[k].ros1, DictionaryOrder(s.pairs21);
    assert order[k] in order && order[l] in order;
    hide CanVary, Width, SameLayout, Live;
    if LaidOutAsDeclared(s) {
      LaidOutIsTidy(s);
      InversionChangesLayout(Parts(s), Declared(|s.fields|), order, i, j, k, l);
    }
  }

  lemma VaryingPartsHaveWidth(s: Schema)
    requires Composed(s)
    ensures LivePartsHaveWidth(Parts(s))
  {
    hide CanVary, Width, Covered;
    forall i | 0 <= i < |s.fields| && CanVary(s.fields[i]) ensures Width(s.fields[i]) > 0 {
      VaryingHasWidth(s.fields[i]);
    }
  }
}
