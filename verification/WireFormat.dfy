/** The ROS 1 wire format byte by byte: little-endian words, counts before their contents, and the
    parts of a message one behind the other. The serializer produces exactly this. */
module WireFormat {
  import opened LittleEndian
  import opened Schema
  import opened Ros1Wire

  /** These bytes are the machine word `n`, least significant byte first. */
  predicate Word(bs: seq<byte>, n: int) {
    || (|bs| == 1 && n == bs[0])
    || (|bs| == 2 && n == bs[0] as int + 0x100 * (bs[1] as int))
    || (|bs| == 4 && n == bs[0] as int + 0x100 * (bs[1] as int) + 0x1_0000 * (bs[2] as int) + 0x100_0000 * (bs[3] as int))
    || (|bs| == 8 && n == bs[0] as int + 0x100 * (bs[1] as int) + 0x1_0000 * (bs[2] as int) + 0x100_0000 * (bs[3] as int)
                         + 0x1_0000_0000 * (bs[4] as int) + 0x100_0000_0000 * (bs[5] as int) + 0x1_0000_0000_0000 * (bs[6] as int) + 0x100_0000_0000_0000 * (bs[7] as int))
  }

  /** A signed 32-bit word in two's complement. */
  predicate SignedWord(bs: seq<byte>, n: int) {
    |bs| == 4 && Word(bs, if n < 0 then n + 0x1_0000_0000 else n)
  }

  /** A string: its length, then its characters. */
  predicate LaysText(chars: seq<byte>, bs: seq<byte>) {
    |bs| == 4 + |chars| && Word(bs[..4], |chars|) && bs[4..] == chars
  }

  /** These bytes are the ROS 1 value `v`. */
  ghost predicate Lays(s: Schema, v: Value, bs: seq<byte>)
    requires HasType1(s, v)
    decreases s, 0, 0
  {
    match s
    case Prim(w) => |bs| == w && Word(bs, v.n)
    case Bool => bs == [v.n]
    case Str => LaysText(v.chars, bs)
    case Time => |bs| == 8 && Word(bs[..4], v.sec) && Word(bs[4..], v.nsec)
    case Duration => |bs| == 8 && SignedWord(bs[..4], v.sec) && SignedWord(bs[4..], v.nsec)
    case Header =>
      && |bs| >= 12 && Word(bs[..4], v.slots[0].n)
      && Word(bs[4..8], v.slots[1].sec) && Word(bs[8..12], v.slots[1].nsec) && LaysText(v.slots[2].chars, bs[12..])
    case Sequence(e, _) => |bs| >= 4 && Word(bs[..4], |v.elems|) && LaysElems(e, v.elems, 0, bs[4..])
    case Array(e, _) => LaysElems(e, v.elems, 0, bs)
    case Record(fs, _, _, _) => LaysFields(fs, v.slots, 0, bs)
  }

  /** The elements from position `k` on. */
  ghost predicate LaysElems(e: Schema, vs: seq<Value>, k: nat, bs: seq<byte>)
    requires k <= |vs| && ElemsHaveType1(e, vs)
    decreases e, 1, |vs| - k
  {
    if k == |vs| then bs == []
    else exists n | 0 <= n <= |bs| :: Lays(e, vs[k], bs[..n]) && LaysElems(e, vs, k + 1, bs[n..])
  }

  /** The fields from position `k` on, in declaration order. */
  ghost predicate LaysFields(fs: seq<Schema>, vs: seq<Value>, k: nat, bs: seq<byte>)
    requires k <= |fs| && FieldsHaveType1(fs, vs)
    decreases fs, 1, |fs| - k
  {
    if k == |fs| then bs == []
    else exists n | 0 <= n <= |bs| :: Lays(fs[k], vs[k], bs[..n]) && LaysFields(fs, vs, k + 1, bs[n..])
  }

  // ----- words -----

  lemma DecodeStep(bs: seq<byte>)
    requires bs != []
    ensures Decode(bs) == bs[0] + 256 * Decode(bs[1..])
  {
  }

  lemma DecodeOfPair(bs: seq<byte>)
    requires |bs| >= 2
    ensures Decode(bs) == bs[0] as int + 0x100 * (bs[1] as int) + 0x1_0000 * Decode(bs[2..])
  {
    DecodeStep(bs);
    DecodeStep(bs[1..]);
    assert bs[1..][1..] == bs[2..];
  }

  lemma DecodeOfFour(bs: seq<byte>)
    requires |bs| >= 4
    ensures Decode(bs) == bs[0] as int + 0x100 * (bs[1] as int) + 0x1_0000 * (bs[2] as int) + 0x100_0000 * (bs[3] as int) + 0x1_0000_0000 * Decode(bs[4..])
  {
    hide Decode;
    DecodeOfPair(bs);
    DecodeOfPair(bs[2..]);
    assert bs[2..][2..] == bs[4..];
  }

  lemma WordIsDecode(bs: seq<byte>)
    requires |bs| == 1 || |bs| == 2 || |bs| == 4 || |bs| == 8
    ensures forall n :: Word(bs, n) <==> n == Decode(bs)
  {
    assert Decode([]) == 0;
    if |bs| == 1 {
      DecodeStep(bs);
      assert bs[1..] == [];
    } else if |bs| == 2 {
      DecodeOfPair(bs);
      assert bs[2..] == [];
    } else if |bs| == 4 {
      DecodeOfFour(bs);
      assert bs[4..] == [];
    } else {
      hide Decode;
      DecodeOfFour(bs);
      DecodeOfFour(bs[4..]);
      assert bs[4..][4..] == [];
    }
  }

  lemma EncodeIsWord(w: nat, n: nat, bs: seq<byte>)
    requires (w == 1 || w == 2 || w == 4 || w == 8) && n < Pow256(w)
    ensures bs == Encode(w, n) <==> |bs| == w && Word(bs, n)
  {
    hide Encode, Decode, Pow256, Word;
    DecodeOfEncode(w, n);
    if |bs| == w {
      WordIsDecode(bs);
      EncodeOfDecode(bs);
    }
  }

  lemma U32IsWord(n: int, bs: seq<byte>)
    ensures IsUint32(n) ==> (bs == U32(n) <==> |bs| == 4 && Word(bs, n))
    ensures IsInt32(n) ==> (bs == U32(n) <==> SignedWord(bs, n))
  {
    hide Encode, Pow256, Word;
    Pow256Of4();
    EncodeIsWord(4, ToUint32(n), bs);
  }

  lemma TextIs(chars: seq<byte>, bs: seq<byte>)
    requires |chars| < TWO_TO_THE_32
    ensures bs == StringBytes(chars) <==> LaysText(chars, bs)
  {
    hide U32, Word;
    if |bs| >= 4 {
      U32IsWord(|chars|, bs[..4]);
      assert bs == bs[..4] + bs[4..];
    }
  }

  lemma TwoWords(a: seq<byte>, b: seq<byte>, bs: seq<byte>)
    requires |a| == |b| == 4
    ensures bs == a + b <==> |bs| == 8 && bs[..4] == a && bs[4..] == b
  {
    if |bs| == 8 { assert bs == bs[..4] + bs[4..]; }
  }

  // ----- messages -----

  /** The serializer writes a message with counts that fit as exactly these bytes. */
  lemma {:induction false} SerializedExactly(s: Schema, v: Value, bs: seq<byte>)
    requires WellFormed(s) && HasType1(s, v) && Fits1(s, v)
    ensures bs == Enc1(s, v) <==> Lays(s, v, bs)
    decreases s, 3, 0
  {
    hide Word, SignedWord, LaysText, U32, Encode, Pow256, LaysElems, LaysFields, EncElems, EncFields;
    match s
    case Prim(w) => EncodeIsWord(w, v.n, bs);
    case Bool =>
    case Str => TextIs(v.chars, bs);
    case Time => StampExactly(s, v, bs);
    case Duration => StampExactly(s, v, bs);
    case Header => HeaderExactly(v, bs);
    case Sequence(e, _) =>
      if |bs| >= 4 {
        U32IsWord(|v.elems|, bs[..4]);
        BodyExactly(e, v.elems, bs[4..]);
        assert bs == bs[..4] + bs[4..];
      }
    case Array(e, _) => BodyExactly(e, v.elems, bs);
    case Record(fs, _, _, _) => FieldsExactly(fs, v.slots, 0, bs);
  }

  lemma StampExactly(s: Schema, v: Value, bs: seq<byte>)
    requires (s.Time? || s.Duration?) && HasType1(s, v)
    ensures bs == Enc1(s, v) <==> Lays(s, v, bs)
  {
    hide Word, SignedWord, U32;
    TwoWords(U32(v.sec), U32(v.nsec), bs);
    if |bs| == 8 {
      U32IsWord(v.sec, bs[..4]);
      U32IsWord(v.nsec, bs[4..]);
    }
  }

  lemma HeaderExactly(v: Value, bs: seq<byte>)
    requires HasType1(Header, v)
    ensures bs == Enc1(Header, v) <==> Lays(Header, v, bs)
  {
    hide Word, LaysText, U32, StringBytes;
    var a, b, c, d := U32(v.slots[0].n), U32(v.slots[1].sec), U32(v.slots[1].nsec), StringBytes(v.slots[2].chars);
    assert Enc1(Header, v) == a + (b + c) + d;
    FourParts(a, b, c, d, bs);
    if |bs| >= 12 {
      U32IsWord(v.slots[0].n, bs[..4]);
      U32IsWord(v.slots[1].sec, bs[4..8]);
      U32IsWord(v.slots[1].nsec, bs[8..12]);
      TextIs(v.slots[2].chars, bs[12..]);
    }
  }

  lemma FourParts(a: seq<byte>, b: seq<byte>, c: seq<byte>, d: seq<byte>, bs: seq<byte>)
    requires |a| == |b| == |c| == 4
    ensures bs == a + (b + c) + d <==> |bs| >= 12 && bs[..4] == a && bs[4..8] == b && bs[8..12] == c && bs[12..] == d
  {
    if |bs| >= 12 { assert bs == bs[..4] + (bs[4..8] + bs[8..12]) + bs[12..]; }
  }

  lemma BodyExactly(e: Schema, vs: seq<Value>, bs: seq<byte>)
    requires WellFormed(e) && ElemsHaveType1(e, vs) && (forall i | 0 <= i < |vs| :: Fits1(e, vs[i]))
    requires e.Prim? ==> |vs| * e.width < TWO_TO_THE_32
    ensures bs == EncBody(e, vs) <==> LaysElems(e, vs, 0, bs)
    decreases e, 5, 0
  {
    hide HasType1, WellFormed, Fits1, Lays, LaysElems, Enc1, EncElems, BlockMemory;
    if e.Prim? { BlockIsElements(e, vs); }
    ElemsExactly(e, vs, 0, bs);
  }

  /** A block whose byte count does not wrap is its elements, one after the other. */
  lemma BlockIsElements(e: Schema, vs: seq<Value>)
    requires e.Prim? && WellFormed(e) && ElemsHaveType1(e, vs) && |vs| * e.width < TWO_TO_THE_32
    ensures EncBody(e, vs) == EncElems(e, vs, 0)
  {
    hide BlockMemory, EncElems;
    MemoryIsElements(e, vs, 0);
    assert vs[0..] == vs;
  }

  lemma {:induction false} MemoryIsElements(e: Schema, vs: seq<Value>, k: nat)
    requires e.Prim? && WellFormed(e) && ElemsHaveType1(e, vs) && k <= |vs|
    ensures Numbers(e.width, vs[k..]) && BlockMemory(e.width, vs[k..]) == EncElems(e, vs, k)
    decreases |vs| - k
  {
    if k < |vs| {
      MemoryIsElements(e, vs, k + 1);
      assert vs[k..][1..] == vs[k + 1..];
    }
  }

  lemma {:induction false} ElemsExactly(e: Schema, vs: seq<Value>, k: nat, bs: seq<byte>)
    requires WellFormed(e) && ElemsHaveType1(e, vs) && k <= |vs| && forall i | 0 <= i < |vs| :: Fits1(e, vs[i])
    ensures bs == EncElems(e, vs, k) <==> LaysElems(e, vs, k, bs)
    decreases e, 4, |vs| - k
  {
    hide HasType1, WellFormed, Fits1, Lays, Enc1;
    if k < |vs| {
      var head, tail := Enc1(e, vs[k]), EncElems(e, vs, k + 1);
      forall n | 0 <= n <= |bs|
        ensures Lays(e, vs[k], bs[..n]) && LaysElems(e, vs, k + 1, bs[n..]) <==> bs[..n] == head && bs[n..] == tail
      {
        SerializedExactly(e, vs[k], bs[..n]);
        ElemsExactly(e, vs, k + 1, bs[n..]);
      }
      SplitsIff(head, tail, bs);
    }
  }

  lemma SplitsIff(a: seq<byte>, b: seq<byte>, bs: seq<byte>)
    ensures bs == a + b <==> exists n | 0 <= n <= |bs| :: bs[..n] == a && bs[n..] == b
  {
    if bs == a + b { assert bs[..|a|] == a && bs[|a|..] == b; }
    if n :| 0 <= n <= |bs| && bs[..n] == a && bs[n..] == b { assert bs == bs[..n] + bs[n..]; }
  }

  lemma {:induction false} FieldsExactly(fs: seq<Schema>, vs: seq<Value>, k: nat, bs: seq<byte>)
    requires FieldsHaveType1(fs, vs) && k <= |fs| && forall i | 0 <= i < |fs| :: WellFormed(fs[i]) && Fits1(fs[i], vs[i])
    ensures bs == EncFields(fs, vs, k) <==> LaysFields(fs, vs, k, bs)
    decreases fs, 4, |fs| - k
  {
    hide HasType1, WellFormed, Fits1, Lays, Enc1;
    if k < |fs| {
      var head, tail := Enc1(fs[k], vs[k]), EncFields(fs, vs, k + 1);
      forall n | 0 <= n <= |bs|
        ensures Lays(fs[k], vs[k], bs[..n]) && LaysFields(fs, vs, k + 1, bs[n..]) <==> bs[..n] == head && bs[n..] == tail
      {
        SerializedExactly(fs[k], vs[k], bs[..n]);
        FieldsExactly(fs, vs, k + 1, bs[n..]);
      }
      SplitsIff(head, tail, bs);
    }
  }
}
