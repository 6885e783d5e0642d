/** Round trips through a ROS 1 byte stream, derived from the two diagrams. */
module StreamRoundTrip {
  import opened Wrappers
  import opened LittleEndian
  import opened Schema
  import opened Conversion
  import opened RoundTrip
  import opened Ros1Wire
  import opened DirectStream
  import opened SerializerLaws
  import opened Diagram
  import opened Wrapping

  /** Two messages with counts that fit have the same bytes if and only if they are equal up to what
      lies behind wrapped blocks. */
  lemma SameBytesIff(s: Schema, v: Value, v': Value)
    requires WellFormed(s) && HasType1(s, v) && HasType1(s, v') && WordSized(s, v) && WordSized(s, v')
    ensures Enc1(s, v) == Enc1(s, v') <==> Kept(s, v) == Kept(s, v')
    ensures Fits1(s, v) && Fits1(s, v') ==> Kept(s, v) == v && Kept(s, v') == v'
  {
    hide Dec1, Enc1, HasType1, WellFormed, WordSized, TailsZero, Kept, SameBlocks, Fits1;
    ParseOfWordSized(s, v, []);
    ParseOfWordSized(s, v', []);
    KeptHasZeroTails(s, v);
    KeptHasZeroTails(s, v');
    SameBlocksSameBytes(s, Kept(s, v), v);
    SameBlocksSameBytes(s, Kept(s, v'), v');
    KeptIff(s, v);
    KeptIff(s, v');
    if Fits1(s, v) { FittingHasNoTails(s, v); }
    if Fits1(s, v') { FittingHasNoTails(s, v'); }
  }

  // ----- write after read -----

  /** Every byte string that can be read is a ROS 1 serialization, and writing back the message
      read gives the serialization of the same ROS 1 message with every Header `seq` zeroed and
      every `bool` byte clamped: the same bytes precisely when the message was canonical. */
  lemma WriteAfterRead(s: Schema, bs: seq<byte>, t2: Value)
    requires WellFormed(s) && Covered(s) && HasType2(s, t2) && Read(s, bs, t2).Some?
    ensures Dec1(s, bs).Some? && Write(s, Read(s, bs, t2).value.value).Some?
    ensures var v1, rest := Dec1(s, bs).value.value, Read(s, bs, t2).value.rest;
            var written := Write(s, Read(s, bs, t2).value.value).value;
            && bs == Enc1(s, v1) + rest
            && written == Enc1(s, Normal(s, v1))
            && (bs == written + rest <==> Canonical(s, v1))
  {
    hide Read, Write, Dec1, Enc1, To1, To2, HasType1, HasType2, WellFormed, Covered, Normal, Canonical, Fresh1;
    hide Patch, SameBlocks, WithinBounds;
    ReadIffParsesWithinBounds(s, bs, t2);
    ReadConvertsPatched(s, bs, t2);
    SerializeOfParse(s, bs);
    var v1, rest := Dec1(s, bs).value.value, Read(s, bs, t2).value.rest;
    var patched := Patch(s, v1, t2);
    DirectWriteIsSerialization(s, To2(s, patched, t2).value);
    ThereAndBack1(s, patched, t2);
    PatchKeepsBlocks(s, v1, t2);
    SameBlocksSameBytes(s, Normal(s, patched), Normal(s, v1));
    NormalKeepsLength(s, v1);
    NormalBytesIff(s, v1);
    EqualFronts(Enc1(s, v1), Enc1(s, Normal(s, v1)), rest);
  }

  lemma EqualFronts(a: seq<byte>, b: seq<byte>, rest: seq<byte>)
    requires |a| == |b|
    ensures a + rest == b + rest <==> a == b
  {
    assert a == (a + rest)[..|a|] && b == (b + rest)[..|b|];
  }

  // ----- the bytes that change -----

  /** Zeroing and clamping do not move any byte. */
  lemma {:induction false} NormalKeepsLength(s: Schema, v1: Value)
    requires HasType1(s, v1)
    ensures |Enc1(s, Normal(s, v1))| == |Enc1(s, v1)|
    decreases s, 3, 0
  {
    match s
    case Sequence(e, _) => NormalBodyLength(e, v1.elems);
    case Array(e, _) => NormalBodyLength(e, v1.elems);
    case Record(fs, _, _, _) => NormalFieldsLength(fs, v1.slots, 0);
    case _ =>
  }

  lemma NormalBodyLength(e: Schema, vs: seq<Value>)
    requires ElemsHaveType1(e, vs)
    ensures |EncBody(e, NormalElems(e, vs))| == |EncBody(e, vs)|
    decreases e, 5, 0
  {
    if e.Prim? {
      assert NormalElems(e, vs) == vs;
    } else {
      NormalElemsLength(e, vs, 0);
    }
  }

  lemma {:induction false} NormalElemsLength(e: Schema, vs: seq<Value>, k: nat)
    requires ElemsHaveType1(e, vs) && k <= |vs|
    ensures |EncElems(e, NormalElems(e, vs), k)| == |EncElems(e, vs, k)|
    decreases e, 4, |vs| - k
  {
    hide Enc1, HasType1, Normal, NormalElems;
    if k < |vs| {
      NormalKeepsLength(e, vs[k]);
      NormalElemsLength(e, vs, k + 1);
    }
  }

  lemma {:induction false} NormalFieldsLength(fs: seq<Schema>, vs: seq<Value>, k: nat)
    requires FieldsHaveType1(fs, vs) && k <= |fs|
    ensures |EncFields(fs, NormalFields(fs, vs), k)| == |EncFields(fs, vs, k)|
    decreases fs, 4, |fs| - k
  {
    hide Enc1, HasType1, Normal, NormalFields;
    if k < |fs| {
      NormalKeepsLength(fs[k], vs[k]);
      NormalFieldsLength(fs, vs, k + 1);
    }
  }

  /** They show in the bytes whenever they change the message. */
  lemma {:induction false} NormalBytesIff(s: Schema, v1: Value)
    requires HasType1(s, v1)
    ensures Enc1(s, Normal(s, v1)) == Enc1(s, v1) <==> Canonical(s, v1)
    decreases s, 3, 0
  {
    match s
    case Header => HeaderBytesIff(v1);
    case Sequence(e, _) =>
      NormalBodyBytesIff(e, v1.elems);
      assert Enc1(s, v1)[4..] == EncBody(e, v1.elems) && Enc1(s, Normal(s, v1))[4..] == EncBody(e, NormalElems(e, v1.elems));
    case Array(e, _) => NormalBodyBytesIff(e, v1.elems);
    case Record(fs, _, _, _) => NormalFieldsBytesIff(fs, v1.slots, 0);
    case _ =>
  }

  lemma HeaderBytesIff(v1: Value)
    requires HasType1(Header, v1)
    ensures Enc1(Header, Normal(Header, v1)) == Enc1(Header, v1) <==> Canonical(Header, v1)
  {
    hide Encode, Decode, Pow256;
    var n, r := v1.slots[0].n, Normal(Header, v1);
    assert Enc1(Header, v1)[..4] == U32(n) && Enc1(Header, r)[..4] == U32(0);
    DecodeOfU32(n);
    DecodeOfU32(0);
    if n == 0 { assert r.slots == v1.slots; }
  }

  lemma NormalBodyBytesIff(e: Schema, vs: seq<Value>)
    requires ElemsHaveType1(e, vs)
    ensures EncBody(e, NormalElems(e, vs)) == EncBody(e, vs) <==> forall i | 0 <= i < |vs| :: Canonical(e, vs[i])
    decreases e, 5, 0
  {
    if e.Prim? {
      assert NormalElems(e, vs) == vs;
    } else {
      NormalElemsBytesIff(e, vs, 0);
    }
  }

  lemma {:induction false} NormalElemsBytesIff(e: Schema, vs: seq<Value>, k: nat)
    requires ElemsHaveType1(e, vs) && k <= |vs|
    ensures EncElems(e, NormalElems(e, vs), k) == EncElems(e, vs, k) <==> forall i | k <= i < |vs| :: Canonical(e, vs[i])
    decreases e, 4, |vs| - k
  {
    hide Enc1, HasType1, Normal, NormalElems, Canonical;
    if k < |vs| {
      NormalKeepsLength(e, vs[k]);
      NormalBytesIff(e, vs[k]);
      NormalElemsBytesIff(e, vs, k + 1);
      var ws := NormalElems(e, vs);
      EqualHalves(Enc1(e, ws[k]), EncElems(e, ws, k + 1), Enc1(e, vs[k]), EncElems(e, vs, k + 1));
    }
  }

  lemma {:induction false} NormalFieldsBytesIff(fs: seq<Schema>, vs: seq<Value>, k: nat)
    requires FieldsHaveType1(fs, vs) && k <= |fs|
    ensures EncFields(fs, NormalFields(fs, vs), k) == EncFields(fs, vs, k) <==> forall i | k <= i < |fs| :: Canonical(fs[i], vs[i])
    decreases fs, 4, |fs| - k
  {
    hide Enc1, HasType1, Normal, NormalFields, Canonical;
    if k < |fs| {
      NormalKeepsLength(fs[k], vs[k]);
      NormalBytesIff(fs[k], vs[k]);
      NormalFieldsBytesIff(fs, vs, k + 1);
      var ws := NormalFields(fs, vs);
      EqualHalves(Enc1(fs[k], ws[k]), EncFields(fs, ws, k + 1), Enc1(fs[k], vs[k]), EncFields(fs, vs, k + 1));
    }
  }

  lemma EqualHalves(a: seq<byte>, b: seq<byte>, a': seq<byte>, b': seq<byte>)
    requires |a| == |a'|
    ensures a + b == a' + b' <==> a == a' && b == b'
  {
    assert (a + b)[..|a|] == a && (a + b)[|a|..] == b;
    assert (a' + b')[..|a'|] == a' && (a' + b')[|a'|..] == b';
  }

  // ----- a wrapped block does make a difference -----

  const DOUBLES := Sequence(Prim(8), None)

  lemma ManyDoubles(zeros: Value, t2: Value)
    requires zeros == List(Copies(0x2000_0000, Num(0))) && t2 == List([Num(1)])
    ensures WellFormed(DOUBLES) && Covered(DOUBLES) && HasType1(DOUBLES, zeros) && HasType2(DOUBLES, zeros) && HasType2(DOUBLES, t2)
    ensures Parseable(DOUBLES, zeros) && WithinBounds(DOUBLES, zeros)
  {
    assert Pow256(8) == 256 * Pow256(7);
    hide Pow256;
  }

  lemma ManyDoublesLeaveTails(zeros: Value, t2: Value)
    requires zeros.List? && |zeros.elems| == 0x2000_0000 && zeros.elems[0] == Num(0) && t2 == List([Num(1)])
    requires WellFormed(DOUBLES) && Covered(DOUBLES) && HasType1(DOUBLES, zeros) && HasType2(DOUBLES, t2)
    ensures !TailsAgree(DOUBLES, zeros, t2)
  {
    hide HasType1, HasType2;
    assert Resized(t2.elems, |zeros.elems|, Fresh2(Prim(8)))[0] == Num(1);
  }

  lemma ManyDoublesAreACount(zeros: Value)
    requires zeros.List? && |zeros.elems| == 0x2000_0000 && HasType1(DOUBLES, zeros)
    ensures Enc1(DOUBLES, zeros) == U32(0x2000_0000)
  {
    hide BlockMemory;
    assert EncBody(Prim(8), zeros.elems) == [];
  }

  /** 2^29 doubles have 0 bytes in 32-bit arithmetic: the stream consists of their count, and a
      direct read over a target with a one in it keeps the one, unlike the ROS 1 path. */
  lemma WrappedCountBreaksReadDiagram(zeros: Value, t2: Value)
    requires zeros == List(Copies(0x2000_0000, Num(0))) && t2 == List([Num(1)])
    ensures WellFormed(DOUBLES) && HasType2(DOUBLES, t2) && Dec1(DOUBLES, U32(0x2000_0000)) == Some(Parsed(zeros, []))
    ensures Read(DOUBLES, U32(0x2000_0000), t2) != ParseAndConvert(DOUBLES, U32(0x2000_0000), t2)
  {
    ManyDoubles(zeros, t2);
    ManyDoublesLeaveTails(zeros, t2);
    ManyDoublesAreACount(zeros);
    hide *;
    ParseOfSerialize(DOUBLES, zeros, []);
    assert U32(0x2000_0000) + [] == U32(0x2000_0000);
    DirectReadIsParseAndConvert(DOUBLES, U32(0x2000_0000), t2);
  }
}
