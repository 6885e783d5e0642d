/** Laws of the plain ROS 1 serializer: serializing inverts parsing on every byte string, and parsing
    inverts serializing on exactly the messages that the format can represent. */
module SerializerLaws {
  import opened Wrappers
  import opened LittleEndian
  import opened Schema
  import opened Ros1Wire
  import opened Wrapping

  // ----- blocks of primitives, whole or cut off by a wrapped byte count -----

  lemma Multiples(n: nat, m: nat, w: nat)
    requires n <= m
    ensures 0 <= n * w <= m * w
    ensures n > 0 ==> (n - 1) * w == n * w - w && (m - 1) * w == m * w - w && w <= n * w
  {
  }

  /** Copying the memory of some elements over the front of a block. */
  lemma {:induction false} OverlayOfMemory(w: nat, vs: seq<Value>, was: seq<Value>)
    requires w > 0 && |vs| <= |was| && Numbers(w, vs) && Numbers(w, was)
    ensures |BlockMemory(w, vs)| <= |was| * w
    ensures Overlay(w, BlockMemory(w, vs), was) == vs + was[|vs|..]
    decreases |vs|
  {
    Multiples(|vs|, |was|, w);
    var bs := BlockMemory(w, vs);
    if vs == [] {
      assert bs == [] && Overlay(w, bs, was) == was;
    } else {
      var front, tail := Encode(w, vs[0].n), BlockMemory(w, vs[1..]);
      assert bs == front + tail;
      OverlayOfMemory(w, vs[1..], was[1..]);
      OverlayOfHead(w, front, tail, was);
      DecodeOfEncode(w, vs[0].n);
      hide *;
      HeadFirst(vs, was);
    }
  }

  lemma HeadFirst<T>(vs: seq<T>, was: seq<T>)
    requires 0 < |vs| <= |was|
    ensures vs + was[|vs|..] == [vs[0]] + (vs[1..] + was[1..][|vs[1..]|..])
  {
    assert was[1..][|vs[1..]|..] == was[|vs|..];
  }

  /** One step of the copy. */
  lemma OverlayOfHead(w: nat, front: seq<byte>, tail: seq<byte>, was: seq<Value>)
    requires w > 0 && was != [] && |front| == w && |tail| <= (|was| - 1) * w && Numbers(w, was)
    ensures |front + tail| <= |was| * w
    ensures Overlay(w, front + tail, was) == [Num(Decode(front))] + Overlay(w, tail, was[1..])
  {
    Multiples(1, |was|, w);
    hide Decode, Pow256;
    assert (front + tail)[..w] == front && (front + tail)[w..] == tail;
  }

  /** The front of the block then has the bytes that were copied. */
  lemma {:induction false} MemoryOfOverlay(w: nat, m: nat, bs: seq<byte>, was: seq<Value>)
    requires w > 0 && |bs| == m * w && m <= |was| && |bs| <= |was| * w && Numbers(w, was)
    ensures BlockMemory(w, Overlay(w, bs, was)[..m]) == bs
    decreases m
  {
    Multiples(m, |was|, w);
    if m > 0 {
      var front, tail := bs[..w], bs[w..];
      MemoryOfOverlay(w, m - 1, tail, was[1..]);
      OverlayOfHead(w, front, tail, was);
      EncodeOfDecode(front);
      var r, rest := Overlay(w, bs, was), Overlay(w, tail, was[1..]);
      assert bs == front + tail;
      hide Overlay, Encode, Decode, Pow256;
      assert r[..m][0] == Num(Decode(front)) && r[..m][1..] == rest[..m - 1];
      assert BlockMemory(w, r[..m]) == Encode(w, Decode(front)) + BlockMemory(w, rest[..m - 1]);
    }
  }

  /** Behind the copied elements a block keeps its own, and in front it does not. */
  lemma OverlayParts(w: nat, m: nat, bs: seq<byte>, was: seq<Value>, other: seq<Value>)
    requires w > 0 && |bs| == m * w && m <= |was| == |other| && |bs| <= |was| * w
    requires Numbers(w, was) && Numbers(w, other)
    ensures Overlay(w, bs, was) == Overlay(w, bs, other)[..m] + was[m..]
  {
    var vs := Overlay(w, bs, other)[..m];
    MemoryOfOverlay(w, m, bs, other);
    OverlayOfMemory(w, vs, was);
  }

  lemma TakeOfConcat(a: seq<byte>, rest: seq<byte>)
    ensures Take(|a|, a + rest) == Some(Parsed(a, rest))
  {
    assert (a + rest)[..|a|] == a && (a + rest)[|a|..] == rest;
  }

  lemma TakeU32OfConcat(n: nat, rest: seq<byte>)
    requires n < TWO_TO_THE_32
    ensures TakeU32(U32(n) + rest) == Some(Parsed(n, rest))
  {
    DecodeOfU32(n);
    var bs := U32(n) + rest;
    assert bs[..4] == U32(n) && bs[4..] == rest;
  }

  lemma TakeStringOfConcat(chars: seq<byte>, rest: seq<byte>)
    requires |chars| < TWO_TO_THE_32
    ensures TakeString(StringBytes(chars) + rest) == Some(Parsed(chars, rest))
  {
    assert StringBytes(chars) + rest == U32(|chars|) + (chars + rest);
    TakeU32OfConcat(|chars|, chars + rest);
    TakeOfConcat(chars, rest);
  }

  lemma U32OfToUint32(x: int)
    ensures U32(ToUint32(x)) == U32(x)
  {
  }

  lemma TakeStampOfConcat(v: Value, rest: seq<byte>)
    requires v.Stamp?
    ensures TakeStamp(StampBytes(v) + rest) == Some(Parsed((ToUint32(v.sec), ToUint32(v.nsec)), rest))
  {
    U32OfToUint32(v.sec);
    U32OfToUint32(v.nsec);
    assert StampBytes(v) + rest == U32(ToUint32(v.sec)) + (U32(ToUint32(v.nsec)) + rest);
    TakeU32OfConcat(ToUint32(v.sec), U32(ToUint32(v.nsec)) + rest);
    TakeU32OfConcat(ToUint32(v.nsec), rest);
  }

  // ----- parsing what was serialized -----

  lemma ParseOfHeader(v: Value, rest: seq<byte>)
    requires HasType1(Header, v)
    ensures Dec1(Header, Enc1(Header, v) + rest) == Some(Parsed(v, rest))
  {
    var c := StringBytes(v.slots[2].chars) + rest;
    var b := StampBytes(v.slots[1]) + c;
    assert Enc1(Header, v) + rest == U32(v.slots[0].n) + b;
    TakeU32OfConcat(v.slots[0].n, b);
    TakeStampOfConcat(v.slots[1], c);
    TakeStringOfConcat(v.slots[2].chars, rest);
    assert v == Struct([v.slots[0], v.slots[1], v.slots[2]]);
  }

  lemma ParseOfDuration(v: Value, rest: seq<byte>)
    requires HasType1(Duration, v)
    ensures Dec1(Duration, Enc1(Duration, v) + rest) == Some(Parsed(v, rest))
  {
    TakeStampOfConcat(v, rest);
    Reinterpret(v.sec);
    Reinterpret(v.nsec);
  }

  /** The messages that the format can represent. */
  ghost predicate Parseable(s: Schema, v: Value)
    requires WellFormed(s) && HasType1(s, v)
  {
    WordSized(s, v) && TailsZero(s, v)
  }

  lemma {:induction false} ParseOfParseable(s: Schema, v: Value, rest: seq<byte>)
    requires WellFormed(s) && HasType1(s, v) && WordSized(s, v) && TailsZero(s, v)
    ensures Dec1(s, Enc1(s, v) + rest) == Some(Parsed(v, rest))
    decreases s, 3, 0
  {
    match s
    case Prim(w) =>
      TakeOfConcat(Encode(w, v.n), rest);
      DecodeOfEncode(w, v.n);
    case Bool => TakeOfConcat([v.n], rest);
    case Str => TakeStringOfConcat(v.chars, rest);
    case Time => TakeStampOfConcat(v, rest);
    case Duration => ParseOfDuration(v, rest);
    case Header => ParseOfHeader(v, rest);
    case Sequence(e, _) =>
      assert Enc1(s, v) + rest == U32(|v.elems|) + (EncBody(e, v.elems) + rest);
      TakeU32OfConcat(|v.elems|, EncBody(e, v.elems) + rest);
      ParseOfBody(e, v.elems, rest);
    case Array(e, _) => ParseOfBody(e, v.elems, rest);
    case Record(fs, _, _, _) =>
      ParseOfFields(fs, v.slots, 0, rest);
      assert v.slots[0..] == v.slots;
  }

  lemma ParseOfBody(e: Schema, vs: seq<Value>, rest: seq<byte>)
    requires WellFormed(e) && ElemsHaveType1(e, vs) && TailsZeroBody(e, vs)
    requires forall i | 0 <= i < |vs| :: WordSized(e, vs[i])
    ensures DecBody(e, |vs|, EncBody(e, vs) + rest) == Some(Parsed(List(vs), rest))
    decreases e, 5, 0
  {
    hide Enc1, Dec1, HasType1, WordSized, TailsZero, Overlay, BlockMemory;
    if e.Prim? {
      ParseOfBlock(e, vs, rest);
    } else {
      ParseOfElems(e, vs, 0, rest);
      assert vs[0..] == vs;
    }
  }

  lemma ParseOfBlock(e: Schema, vs: seq<Value>, rest: seq<byte>)
    requires e.Prim? && WellFormed(e) && ElemsHaveType1(e, vs) && TailsZeroBody(e, vs)
    ensures DecBody(e, |vs|, EncBody(e, vs) + rest) == Some(Parsed(List(vs), rest))
  {
    var w, m, zeros := e.width, BlockCount(e.width, |vs|), Copies(|vs|, Num(0));
    MemoryOfPrefix(w, vs, m);
    var bs := BlockBytes(w, vs);
    assert bs == BlockMemory(w, vs[..m]);
    TakeOfConcat(bs, rest);
    OverlayOfMemory(w, vs[..m], zeros);
    hide Overlay, BlockMemory;
    assert vs[..m] + zeros[m..] == vs;
  }

  lemma {:induction false} ParseOfElems(e: Schema, vs: seq<Value>, k: nat, rest: seq<byte>)
    requires WellFormed(e) && k <= |vs| && ElemsHaveType1(e, vs)
    requires forall i | 0 <= i < |vs| :: WordSized(e, vs[i]) && TailsZero(e, vs[i])
    ensures DecElems(e, |vs| - k, EncElems(e, vs, k) + rest) == Some(Parsed(vs[k..], rest))
    decreases e, 4, |vs| - k
  {
    hide Enc1, Dec1, HasType1, WordSized, TailsZero, WellFormed;
    if k < |vs| {
      var tail := EncElems(e, vs, k + 1) + rest;
      assert EncElems(e, vs, k) + rest == Enc1(e, vs[k]) + tail;
      ParseOfParseable(e, vs[k], tail);
      ParseOfElems(e, vs, k + 1, rest);
      assert vs[k..] == [vs[k]] + vs[k + 1..];
    } else {
      assert EncElems(e, vs, k) + rest == rest;
      assert vs[k..] == [];
    }
  }

  lemma {:induction false} ParseOfFields(fs: seq<Schema>, vs: seq<Value>, k: nat, rest: seq<byte>)
    requires k <= |fs| && FieldsHaveType1(fs, vs)
    requires forall i | 0 <= i < |fs| :: WellFormed(fs[i]) && WordSized(fs[i], vs[i]) && TailsZero(fs[i], vs[i])
    ensures DecFields(fs, k, EncFields(fs, vs, k) + rest) == Some(Parsed(vs[k..], rest))
    decreases fs, 4, |fs| - k
  {
    hide Enc1, Dec1, HasType1, WordSized, TailsZero, WellFormed;
    if k < |fs| {
      var tail := EncFields(fs, vs, k + 1) + rest;
      assert EncFields(fs, vs, k) + rest == Enc1(fs[k], vs[k]) + tail;
      ParseOfParseable(fs[k], vs[k], tail);
      ParseOfFields(fs, vs, k + 1, rest);
      assert vs[k..] == [vs[k]] + vs[k + 1..];
    } else {
      assert EncFields(fs, vs, k) + rest == rest;
      assert vs[k..] == [];
    }
  }

  /** Whatever is parsed is representable. */
  lemma {:induction false} ParsedIsParseable(s: Schema, bs: seq<byte>)
    requires WellFormed(s) && Dec1(s, bs).Some?
    ensures WordSized(s, Dec1(s, bs).value.value) && TailsZero(s, Dec1(s, bs).value.value)
    decreases s, 3, 0
  {
    match s
    case Sequence(e, _) =>
      var n := TakeU32(bs).value;
      ParsedBodyIsParseable(e, n.value, n.rest);
    case Array(e, n) => ParsedBodyIsParseable(e, n, bs);
    case Record(_, _, _, _) => ParsedRecordIsParseable(s, bs);
    case _ =>
  }

  lemma ParsedRecordIsParseable(s: Schema, bs: seq<byte>)
    requires s.Record? && WellFormed(s) && Dec1(s, bs).Some?
    ensures WordSized(s, Dec1(s, bs).value.value) && TailsZero(s, Dec1(s, bs).value.value)
    decreases s, 2, 0
  {
    RecordFields(s, bs);
    ParsedFieldsAreParseable(s.fields, 0, bs);
    hide Dec1, DecFields, WordSized, TailsZero, HasType1, WellFormed;
    RecordIsParseable(s, DecFields(s.fields, 0, bs).value.value);
  }

  lemma RecordFields(s: Schema, bs: seq<byte>)
    requires s.Record? && WellFormed(s) && Dec1(s, bs).Some?
    ensures (forall i | 0 <= i < |s.fields| :: WellFormed(s.fields[i])) && DecFields(s.fields, 0, bs).Some?
    ensures Dec1(s, bs).value.value == Struct(DecFields(s.fields, 0, bs).value.value)
  {
    hide DecFields;
  }

  /** These are values of the fields from position `k` on, and all of them are representable. */
  ghost predicate FieldsParseable(fs: seq<Schema>, k: nat, vs: seq<Value>) {
    k + |vs| == |fs| && forall j | 0 <= j < |vs| :: FieldParseable(fs, k + j, vs[j])
  }

  ghost predicate FieldParseable(fs: seq<Schema>, i: nat, v: Value)
    requires i < |fs|
  {
    WellFormed(fs[i]) && HasType1(fs[i], v) && WordSized(fs[i], v) && TailsZero(fs[i], v)
  }

  lemma RecordIsParseable(s: Schema, vs: seq<Value>)
    requires s.Record? && WellFormed(s) && FieldsParseable(s.fields, 0, vs)
    ensures HasType1(s, Struct(vs)) && WordSized(s, Struct(vs)) && TailsZero(s, Struct(vs))
  {
    forall j | 0 <= j < |vs| ensures FieldParseable(s.fields, j, vs[j]) {
      assert FieldParseable(s.fields, 0 + j, vs[j]);
    }
  }

  lemma ParsedBodyIsParseable(e: Schema, n: nat, bs: seq<byte>)
    requires WellFormed(e) && DecBody(e, n, bs).Some?
    ensures var vs := DecBody(e, n, bs).value.value.elems;
            TailsZeroBody(e, vs) && forall i | 0 <= i < n :: WordSized(e, vs[i])
    decreases e, 5, 0
  {
    if e.Prim? {
      ParsedBlockHasZeroTail(e, n, bs);
    } else {
      hide Dec1, HasType1, WordSized, TailsZero, DecElems;
      ParsedElemsAreParseable(e, n, bs);
    }
  }

  lemma ParsedBlockHasZeroTail(e: Schema, n: nat, bs: seq<byte>)
    requires e.Prim? && WellFormed(e) && DecBody(e, n, bs).Some?
    ensures TailsZeroBody(e, DecBody(e, n, bs).value.value.elems)
  {
    hide Overlay;
    var w, m, zeros := e.width, BlockCount(e.width, n), Copies(n, Num(0));
    assert Numbers(w, zeros);
    OverlayParts(w, m, bs[..BlockLength(w, n)], zeros, zeros);
  }

  lemma {:induction false} ParsedElemsAreParseable(e: Schema, n: nat, bs: seq<byte>)
    requires WellFormed(e) && DecElems(e, n, bs).Some?
    ensures forall i | 0 <= i < n ::
              WordSized(e, DecElems(e, n, bs).value.value[i]) && TailsZero(e, DecElems(e, n, bs).value.value[i])
    decreases e, 4, n
  {
    hide Dec1, HasType1, WordSized, TailsZero, WellFormed;
    if n > 0 {
      ParsedIsParseable(e, bs);
      ParsedElemsAreParseable(e, n - 1, Dec1(e, bs).value.rest);
    }
  }

  lemma {:induction false} ParsedFieldsAreParseable(fs: seq<Schema>, k: nat, bs: seq<byte>)
    requires k <= |fs| && (forall i | 0 <= i < |fs| :: WellFormed(fs[i])) && DecFields(fs, k, bs).Some?
    ensures FieldsParseable(fs, k, DecFields(fs, k, bs).value.value)
    decreases fs, 4, |fs| - k
  {
    hide Dec1, HasType1, WordSized, TailsZero, WellFormed;
    if k < |fs| {
      var head := Dec1(fs[k], bs).value;
      var tail := DecFields(fs, k + 1, head.rest).value.value;
      assert DecFields(fs, k, bs).value.value == [head.value] + tail;
      ParsedIsParseable(fs[k], bs);
      ParsedFieldsAreParseable(fs, k + 1, head.rest);
      hide DecFields;
      OneMoreParseable(fs, k, head.value, tail);
    }
  }

  lemma OneMoreParseable(fs: seq<Schema>, k: nat, v: Value, vs: seq<Value>)
    requires k < |fs| && WellFormed(fs[k]) && HasType1(fs[k], v) && WordSized(fs[k], v) && TailsZero(fs[k], v)
    requires FieldsParseable(fs, k + 1, vs)
    ensures FieldsParseable(fs, k, [v] + vs)
  {
    assert FieldParseable(fs, k, v);
    hide FieldParseable, WellFormed, HasType1, WordSized, TailsZero;
    var all := [v] + vs;
    forall j | 0 <= j < |all| ensures FieldParseable(fs, k + j, all[j]) {
      if j > 0 { assert FieldParseable(fs, k + 1 + (j - 1), vs[j - 1]) && all[j] == vs[j - 1]; }
    }
  }

  /** Parsing inverts serializing, whatever follows, if and only if every count fits its word and
      the message holds zeros behind every wrapped block. */
  lemma ParseOfSerialize(s: Schema, v: Value, rest: seq<byte>)
    requires WellFormed(s) && HasType1(s, v)
    ensures Dec1(s, Enc1(s, v) + rest) == Some(Parsed(v, rest)) <==> Parseable(s, v)
  {
    hide Dec1, Enc1, HasType1, WellFormed, WordSized, TailsZero;
    if Parseable(s, v) {
      ParseOfParseable(s, v, rest);
    } else if Dec1(s, Enc1(s, v) + rest).Some? {
      ParsedIsParseable(s, Enc1(s, v) + rest);
    }
  }

  /** If only the counts fit, parsing finds zeros behind the wrapped blocks. */
  lemma ParseOfWordSized(s: Schema, v: Value, rest: seq<byte>)
    requires WellFormed(s) && HasType1(s, v) && WordSized(s, v)
    ensures Dec1(s, Enc1(s, v) + rest) == Some(Parsed(Kept(s, v), rest))
  {
    hide Dec1, Enc1, HasType1, WellFormed, WordSized, TailsZero, Kept, SameBlocks;
    KeptHasZeroTails(s, v);
    SameBlocksSameBytes(s, Kept(s, v), v);
    ParseOfParseable(s, Kept(s, v), rest);
  }

  // ----- serializing what was parsed -----

  lemma SerializeOfHeader(bs: seq<byte>)
    requires Dec1(Header, bs).Some?
    ensures var p := Dec1(Header, bs).value; bs == Enc1(Header, p.value) + p.rest
  {
    var p := Dec1(Header, bs).value;
    var a := TakeU32(bs).value;
    var b := TakeStamp(a.rest).value;
    var c := TakeString(b.rest).value;
    var stamp := Stamp(b.value.0, b.value.1);
    assert p == Parsed(Struct([Num(a.value), stamp, Text(c.value)]), c.rest);
    assert Enc1(Header, p.value) == U32(a.value) + StampBytes(stamp) + StringBytes(c.value);
    assert a.rest == StampBytes(stamp) + b.rest;
    hide *;
    ThreeParts(U32(a.value), StampBytes(stamp), StringBytes(c.value), c.rest);
  }

  lemma ThreeParts(a: seq<byte>, b: seq<byte>, c: seq<byte>, rest: seq<byte>)
    ensures a + (b + (c + rest)) == (a + b + c) + rest
  {
  }

  lemma SerializeOfDuration(bs: seq<byte>)
    requires Dec1(Duration, bs).Some?
    ensures var p := Dec1(Duration, bs).value; bs == Enc1(Duration, p.value) + p.rest
  {
    var p := Dec1(Duration, bs).value;
    var q := TakeStamp(bs).value.value;
    assert U32(p.value.sec) == U32(q.0) && U32(p.value.nsec) == U32(q.1);
  }

  lemma {:induction false} SerializeOfParse(s: Schema, bs: seq<byte>)
    requires WellFormed(s) && Dec1(s, bs).Some?
    ensures var p := Dec1(s, bs).value; bs == Enc1(s, p.value) + p.rest
    decreases s, 3, 0
  {
    var p := Dec1(s, bs).value;
    match s
    case Prim(w) => EncodeOfDecode(bs[..w]);
    case Bool =>
    case Str =>
    case Time =>
    case Duration => SerializeOfDuration(bs);
    case Header => SerializeOfHeader(bs);
    case Sequence(e, _) =>
      var n := TakeU32(bs).value;
      SerializeOfBody(e, n.value, n.rest);
      assert bs == U32(n.value) + (EncBody(e, p.value.elems) + p.rest);
    case Array(e, n) => SerializeOfBody(e, n, bs);
    case Record(fs, _, _, _) =>
      SerializeOfFields(fs, 0, bs, []);
      assert [] + p.value.slots == p.value.slots;
  }

  lemma SerializeOfBody(e: Schema, n: nat, bs: seq<byte>)
    requires WellFormed(e) && DecBody(e, n, bs).Some?
    ensures var p := DecBody(e, n, bs).value; bs == EncBody(e, p.value.elems) + p.rest
    decreases e, 5, 0
  {
    hide Enc1, Dec1, HasType1, Overlay, BlockMemory, EncElems, DecElems;
    var p := DecBody(e, n, bs).value;
    if e.Prim? {
      SerializeOfBlock(e, n, bs);
    } else {
      SerializeOfElems(e, n, bs, []);
      assert [] + p.value.elems == p.value.elems;
    }
  }

  lemma SerializeOfBlock(e: Schema, n: nat, bs: seq<byte>)
    requires e.Prim? && WellFormed(e) && DecBody(e, n, bs).Some?
    ensures var p := DecBody(e, n, bs).value; bs == BlockBytes(e.width, p.value.elems) + p.rest
  {
    hide Overlay, BlockMemory;
    var w, m, len := e.width, BlockCount(e.width, n), BlockLength(e.width, n);
    var zeros := Copies(n, Num(0));
    assert Numbers(w, zeros);
    var vs := Overlay(w, bs[..len], zeros);
    MemoryOfOverlay(w, m, bs[..len], zeros);
    MemoryOfPrefix(w, vs, m);
    assert bs == bs[..len] + bs[len..];
  }

  lemma {:induction false} SerializeOfElems(e: Schema, n: nat, bs: seq<byte>, before: seq<Value>)
    requires WellFormed(e) && DecElems(e, n, bs).Some? && ElemsHaveType1(e, before)
    ensures var p := DecElems(e, n, bs).value;
            ElemsHaveType1(e, before + p.value) && bs == EncElems(e, before + p.value, |before|) + p.rest
    decreases e, 4, n
  {
    hide Enc1, Dec1, HasType1, WellFormed;
    var p := DecElems(e, n, bs).value;
    if n > 0 {
      var head := Dec1(e, bs).value;
      var tail := DecElems(e, n - 1, head.rest).value;
      assert p.value == [head.value] + tail.value && p.rest == tail.rest;
      hide DecElems;
      SerializeOfParse(e, bs);
      var more := before + [head.value];
      SerializeOfElems(e, n - 1, head.rest, more);
      assert more + tail.value == before + p.value;
      assert (before + p.value)[|before|] == head.value;
    }
  }

  lemma {:induction false} SerializeOfFields(fs: seq<Schema>, k: nat, bs: seq<byte>, before: seq<Value>)
    requires k <= |fs| == k + |fs[k..]| && |before| == k
    requires forall i | 0 <= i < |fs| :: WellFormed(fs[i])
    requires forall i | 0 <= i < k :: HasType1(fs[i], before[i])
    requires DecFields(fs, k, bs).Some?
    ensures var p := DecFields(fs, k, bs).value;
            FieldsHaveType1(fs, before + p.value) && bs == EncFields(fs, before + p.value, k) + p.rest
    decreases fs, 4, |fs| - k
  {
    hide Enc1, Dec1, HasType1, WellFormed;
    var p := DecFields(fs, k, bs).value;
    if k < |fs| {
      var head := Dec1(fs[k], bs).value;
      assert head.value == p.value[0];
      SerializeOfParse(fs[k], bs);
      var tail := DecFields(fs, k + 1, head.rest).value;
      assert p.value == [head.value] + tail.value;
      SerializeOfFields(fs, k + 1, head.rest, before + [head.value]);
      assert before + [head.value] + tail.value == before + p.value;
    }
  }
}
