/** What the 32-bit byte count of a block of primitives leaves out: a block whose byte count wraps
    carries its first elements only, so that the direct streams and the ROS 1 path can differ in
    the elements behind them. */
module Wrapping {
  import opened Wrappers
  import opened LittleEndian
  import opened Schema
  import opened Conversion
  import opened RoundTrip
  import opened Ros1Wire

  predicate MachineWidth(w: nat) {
    w == 1 || w == 2 || w == 4 || w == 8
  }

  /** How many elements of a block of `n` primitives the 32-bit byte count covers. */
  function BlockCount(w: nat, n: nat): (m: nat)
    requires MachineWidth(w)
    ensures m <= n && m * w == BlockLength(w, n)
    ensures n * w < TWO_TO_THE_32 ==> m == n
  {
    BlockIsWhole(w, n);
    n % (TWO_TO_THE_32 / w)
  }

  /** The byte count wraps at a whole number of elements. */
  lemma BlockIsWhole(w: nat, n: nat)
    requires MachineWidth(w)
    ensures (n % (TWO_TO_THE_32 / w)) * w == BlockLength(w, n)
  {
    if w == 1 {
    } else if w == 2 {
      Whole(2, 0x8000_0000, n);
    } else if w == 4 {
      Whole(4, 0x4000_0000, n);
    } else {
      Whole(8, 0x2000_0000, n);
    }
  }

  lemma Whole(w: nat, per: nat, n: nat)
    requires w > 0 && per > 0 && per * w == TWO_TO_THE_32
    ensures (n % per) * w == BlockLength(w, n)
  {
    var q, r := n / per, n % per;
    assert n * w == (per * q + r) * w == (per * w) * q + r * w;
    assert 0 <= r * w < per * w by { Scaled(r, per, w); }
    RemainderIsUnique(n * w, q, r * w);
  }

  lemma Scaled(r: nat, per: nat, w: nat)
    requires r < per && w > 0
    ensures 0 <= r * w < per * w
  {
  }

  // ----- the conditions -----

  /** Every element count, and thus every size word, fits 32 bits. */
  predicate WordSized(s: Schema, v: Value)
    requires HasType1(s, v)
    decreases s
  {
    match s
    case Sequence(e, _) => |v.elems| < TWO_TO_THE_32 && forall i | 0 <= i < |v.elems| :: WordSized(e, v.elems[i])
    case Array(e, _) => forall i | 0 <= i < |v.elems| :: WordSized(e, v.elems[i])
    case Record(fs, _, _, _) => forall i | 0 <= i < |fs| :: WordSized(fs[i], v.slots[i])
    case _ => true
  }

  /** Behind every wrapped block the message holds zeros. */
  ghost predicate TailsZero(s: Schema, v: Value)
    requires WellFormed(s) && HasType1(s, v)
    decreases s, 0
  {
    match s
    case Sequence(e, _) => TailsZeroBody(e, v.elems)
    case Array(e, _) => TailsZeroBody(e, v.elems)
    case Record(fs, _, _, _) => forall i | 0 <= i < |fs| :: TailsZero(fs[i], v.slots[i])
    case _ => true
  }

  ghost predicate TailsZeroBody(e: Schema, vs: seq<Value>)
    requires WellFormed(e) && ElemsHaveType1(e, vs)
    decreases e, 1
  {
    if e.Prim? then forall i | BlockCount(e.width, |vs|) <= i < |vs| :: vs[i] == Num(0)
    else forall i | 0 <= i < |vs| :: TailsZero(e, vs[i])
  }

  /** Behind every wrapped block the message holds what the target of a direct read holds there:
      its own elements, or default ones where its sequence was shorter. */
  ghost predicate TailsAgree(s: Schema, v: Value, t: Value)
    requires WellFormed(s) && Covered(s) && HasType1(s, v) && HasType2(s, t)
    decreases s, 0
  {
    match s
    case Sequence(e, _) => TailsAgreeBody(e, v.elems, Resized(t.elems, |v.elems|, Fresh2(e)))
    case Array(e, _) => TailsAgreeBody(e, v.elems, t.elems)
    case Record(fs, _, p, _) => forall i | 0 <= i < |fs| :: TailsAgree(fs[i], v.slots[i], t.slots[p[i].ros2])
    case _ => true
  }

  ghost predicate TailsAgreeBody(e: Schema, vs: seq<Value>, ts: seq<Value>)
    requires WellFormed(e) && Covered(e) && |vs| == |ts| && ElemsHaveType1(e, vs) && ElemsHaveType2(e, ts)
    decreases e, 1
  {
    if e.Prim? then forall i | BlockCount(e.width, |vs|) <= i < |vs| :: vs[i] == ts[i]
    else forall i | 0 <= i < |vs| :: TailsAgree(e, vs[i], ts[i])
  }

  /** The two messages have the same shape and differ at most behind wrapped blocks. */
  ghost predicate SameBlocks(s: Schema, v: Value, w: Value)
    requires WellFormed(s) && HasType1(s, v) && HasType1(s, w)
    decreases s, 0
  {
    match s
    case Sequence(e, _) => |v.elems| == |w.elems| && SameBlocksBody(e, v.elems, w.elems)
    case Array(e, _) => SameBlocksBody(e, v.elems, w.elems)
    case Record(fs, _, _, _) => forall i | 0 <= i < |fs| :: SameBlocks(fs[i], v.slots[i], w.slots[i])
    case _ => v == w
  }

  ghost predicate SameBlocksBody(e: Schema, vs: seq<Value>, ws: seq<Value>)
    requires WellFormed(e) && |vs| == |ws| && ElemsHaveType1(e, vs) && ElemsHaveType1(e, ws)
    decreases e, 1
  {
    if e.Prim? then vs[..BlockCount(e.width, |vs|)] == ws[..BlockCount(e.width, |vs|)]
    else forall i | 0 <= i < |vs| :: SameBlocks(e, vs[i], ws[i])
  }

  // ----- the message with other elements behind the wrapped blocks -----

  /** With zeros there: what the ROS 1 deserializer makes of the serialized message. */
  ghost function Kept(s: Schema, v: Value): (r: Value)
    requires WellFormed(s) && HasType1(s, v)
    ensures HasType1(s, r)
    decreases s, 0
  {
    match s
    case Sequence(e, _) => List(KeptBody(e, v.elems))
    case Array(e, _) => List(KeptBody(e, v.elems))
    case Record(fs, _, _, _) => Struct(seq(|fs|, i requires 0 <= i < |fs| => Kept(fs[i], v.slots[i])))
    case _ => v
  }

  ghost function KeptBody(e: Schema, vs: seq<Value>): (r: seq<Value>)
    requires WellFormed(e) && ElemsHaveType1(e, vs)
    ensures |r| == |vs| && ElemsHaveType1(e, r)
    decreases e, 1
  {
    if e.Prim? then
      var m := BlockCount(e.width, |vs|);
      vs[..m] + Copies(|vs| - m, Num(0))
    else seq(|vs|, i requires 0 <= i < |vs| => Kept(e, vs[i]))
  }

  /** With the elements of the target there: what a direct read converts. */
  ghost function Patch(s: Schema, v: Value, t: Value): (r: Value)
    requires WellFormed(s) && Covered(s) && HasType1(s, v) && HasType2(s, t)
    ensures HasType1(s, r)
    decreases s, 0
  {
    match s
    case Sequence(e, _) => List(PatchBody(e, v.elems, Resized(t.elems, |v.elems|, Fresh2(e))))
    case Array(e, _) => List(PatchBody(e, v.elems, t.elems))
    case Record(_, _, _, _) => Struct(PatchFields(s, v.slots, t.slots))
    case _ => v
  }

  ghost function PatchBody(e: Schema, vs: seq<Value>, ts: seq<Value>): (r: seq<Value>)
    requires WellFormed(e) && Covered(e) && |vs| == |ts| && ElemsHaveType1(e, vs) && ElemsHaveType2(e, ts)
    ensures |r| == |vs| && ElemsHaveType1(e, r)
    decreases e, 2
  {
    if e.Prim? then
      var m := BlockCount(e.width, |vs|);
      vs[..m] + ts[m..]
    else PatchElems(e, vs, ts)
  }

  ghost function PatchElems(e: Schema, vs: seq<Value>, ts: seq<Value>): (r: seq<Value>)
    requires WellFormed(e) && Covered(e) && |vs| == |ts| && ElemsHaveType1(e, vs) && ElemsHaveType2(e, ts)
    ensures |r| == |vs| && forall i | 0 <= i < |vs| :: HasType1(e, r[i]) && r[i] == Patch(e, vs[i], ts[i])
    decreases e, 1
  {
    seq(|vs|, i requires 0 <= i < |vs| => Patch(e, vs[i], ts[i]))
  }

  /** Field `i` with its partner in the target. */
  ghost function PatchField(s: Schema, i: nat, v: Value, slots2: seq<Value>): (r: Value)
    requires s.Record? && WellFormed(s) && Covered(s) && i < |s.fields| && HasType1(s.fields[i], v)
    requires HasType2(s, Struct(slots2))
    ensures HasType1(s.fields[i], r)
    decreases s.fields, 1
  {
    Patch(s.fields[i], v, slots2[s.pairs21[i].ros2])
  }

  ghost function PatchFields(s: Schema, vs: seq<Value>, slots2: seq<Value>): (r: seq<Value>)
    requires s.Record? && WellFormed(s) && Covered(s) && FieldsHaveType1(s.fields, vs) && HasType2(s, Struct(slots2))
    ensures |r| == |vs|
    ensures forall i | 0 <= i < |s.fields| :: HasType1(s.fields[i], r[i]) && r[i] == PatchField(s, i, vs[i], slots2)
    decreases s.fields, 2
  {
    seq(|vs|, i requires 0 <= i < |vs| => PatchField(s, i, vs[i], slots2))
  }

  // ----- how the conditions are related -----

  /** Blocks of fewer than 2^32 bytes have nothing behind them. */
  lemma {:induction false} FittingHasNoTails(s: Schema, v: Value)
    requires WellFormed(s) && HasType1(s, v) && Fits1(s, v)
    ensures WordSized(s, v) && TailsZero(s, v)
    decreases s, 0
  {
    match s
    case Sequence(e, _) => FittingBodyHasNoTails(e, v.elems);
    case Array(e, _) => FittingBodyHasNoTails(e, v.elems);
    case Record(fs, _, _, _) =>
      forall i | 0 <= i < |fs| ensures WordSized(fs[i], v.slots[i]) && TailsZero(fs[i], v.slots[i]) {
        FittingHasNoTails(fs[i], v.slots[i]);
      }
    case _ =>
  }

  lemma FittingBodyHasNoTails(e: Schema, vs: seq<Value>)
    requires WellFormed(e) && ElemsHaveType1(e, vs) && (e.Prim? ==> |vs| * e.width < TWO_TO_THE_32)
    requires forall i | 0 <= i < |vs| :: Fits1(e, vs[i])
    ensures (forall i | 0 <= i < |vs| :: WordSized(e, vs[i])) && TailsZeroBody(e, vs)
    decreases e, 1
  {
    hide HasType1, Fits1, WordSized, TailsZero;
    forall i | 0 <= i < |vs| ensures WordSized(e, vs[i]) && TailsZero(e, vs[i]) {
      FittingHasNoTails(e, vs[i]);
    }
  }

  lemma {:induction false} FittingTailsAgree(s: Schema, v: Value, t: Value)
    requires WellFormed(s) && Covered(s) && HasType1(s, v) && HasType2(s, t) && Fits1(s, v)
    ensures TailsAgree(s, v, t)
    decreases s, 0
  {
    match s
    case Sequence(e, _) => FittingBodyTailsAgree(e, v.elems, Resized(t.elems, |v.elems|, Fresh2(e)));
    case Array(e, _) => FittingBodyTailsAgree(e, v.elems, t.elems);
    case Record(fs, _, p, _) =>
      forall i | 0 <= i < |fs| ensures TailsAgree(fs[i], v.slots[i], t.slots[p[i].ros2]) {
        FittingTailsAgree(fs[i], v.slots[i], t.slots[p[i].ros2]);
      }
    case _ =>
  }

  lemma FittingBodyTailsAgree(e: Schema, vs: seq<Value>, ts: seq<Value>)
    requires WellFormed(e) && Covered(e) && |vs| == |ts| && ElemsHaveType1(e, vs) && ElemsHaveType2(e, ts)
    requires (e.Prim? ==> |vs| * e.width < TWO_TO_THE_32) && forall i | 0 <= i < |vs| :: Fits1(e, vs[i])
    ensures TailsAgreeBody(e, vs, ts)
    decreases e, 1
  {
    hide HasType1, HasType2, Fits1, TailsAgree;
    if !e.Prim? {
      forall i | 0 <= i < |vs| ensures TailsAgree(e, vs[i], ts[i]) {
        FittingTailsAgree(e, vs[i], ts[i]);
      }
    }
  }

  // ----- zeros behind the blocks -----

  lemma {:induction false} KeptIff(s: Schema, v: Value)
    requires WellFormed(s) && HasType1(s, v)
    ensures Kept(s, v) == v <==> TailsZero(s, v)
    decreases s, 0
  {
    match s
    case Sequence(e, _) => KeptBodyIff(e, v.elems);
    case Array(e, _) => KeptBodyIff(e, v.elems);
    case Record(fs, _, _, _) =>
      forall i | 0 <= i < |fs| ensures Kept(s, v).slots[i] == v.slots[i] <==> TailsZero(fs[i], v.slots[i]) {
        KeptIff(fs[i], v.slots[i]);
      }
      assert Kept(s, v) == v <==> Kept(s, v).slots == v.slots;
    case _ =>
  }

  lemma KeptBodyIff(e: Schema, vs: seq<Value>)
    requires WellFormed(e) && ElemsHaveType1(e, vs)
    ensures KeptBody(e, vs) == vs <==> TailsZeroBody(e, vs)
    decreases e, 1
  {
    hide HasType1, Kept, TailsZero;
    var r := KeptBody(e, vs);
    if e.Prim? {
      var m := BlockCount(e.width, |vs|);
      assert forall i | 0 <= i < m :: r[i] == vs[i];
    } else {
      forall i | 0 <= i < |vs| ensures r[i] == vs[i] <==> TailsZero(e, vs[i]) {
        KeptIff(e, vs[i]);
      }
    }
  }

  lemma {:induction false} KeptHasZeroTails(s: Schema, v: Value)
    requires WellFormed(s) && HasType1(s, v)
    ensures TailsZero(s, Kept(s, v)) && SameBlocks(s, Kept(s, v), v)
    ensures WordSized(s, Kept(s, v)) <==> WordSized(s, v)
    decreases s, 0
  {
    match s
    case Sequence(e, _) => KeptBodyHasZeroTails(e, v.elems);
    case Array(e, _) => KeptBodyHasZeroTails(e, v.elems);
    case Record(fs, _, _, _) =>
      var r := Kept(s, v).slots;
      forall i | 0 <= i < |fs|
        ensures TailsZero(fs[i], r[i]) && SameBlocks(fs[i], r[i], v.slots[i])
        ensures WordSized(fs[i], r[i]) <==> WordSized(fs[i], v.slots[i])
      {
        KeptHasZeroTails(fs[i], v.slots[i]);
      }
    case _ =>
  }

  lemma KeptBodyHasZeroTails(e: Schema, vs: seq<Value>)
    requires WellFormed(e) && ElemsHaveType1(e, vs)
    ensures TailsZeroBody(e, KeptBody(e, vs)) && SameBlocksBody(e, KeptBody(e, vs), vs)
    ensures forall i | 0 <= i < |vs| :: WordSized(e, KeptBody(e, vs)[i]) <==> WordSized(e, vs[i])
    decreases e, 1
  {
    hide HasType1, Kept, TailsZero, SameBlocks;
    var r := KeptBody(e, vs);
    if e.Prim? {
      assert forall v | HasType1(e, v) :: WordSized(e, v);
    } else {
      hide WordSized;
      forall i | 0 <= i < |vs|
        ensures TailsZero(e, r[i]) && SameBlocks(e, r[i], vs[i]) && (WordSized(e, r[i]) <==> WordSized(e, vs[i]))
      {
        KeptHasZeroTails(e, vs[i]);
      }
    }
  }

  // ----- the bytes do not show what is behind the blocks -----

  lemma {:induction false} SameBlocksSameBytes(s: Schema, v: Value, w: Value)
    requires WellFormed(s) && HasType1(s, v) && HasType1(s, w) && SameBlocks(s, v, w)
    ensures Enc1(s, v) == Enc1(s, w)
    decreases s, 3, 0
  {
    match s
    case Sequence(e, _) => SameBodyBytes(e, v.elems, w.elems);
    case Array(e, _) => SameBodyBytes(e, v.elems, w.elems);
    case Record(fs, _, _, _) => SameFieldsBytes(fs, v.slots, w.slots, 0);
    case _ =>
  }

  lemma SameBodyBytes(e: Schema, vs: seq<Value>, ws: seq<Value>)
    requires WellFormed(e) && |vs| == |ws| && ElemsHaveType1(e, vs) && ElemsHaveType1(e, ws)
    requires SameBlocksBody(e, vs, ws)
    ensures EncBody(e, vs) == EncBody(e, ws)
    decreases e, 5, 0
  {
    hide SameBlocks, BlockMemory;
    if e.Prim? {
      var m := BlockCount(e.width, |vs|);
      MemoryOfPrefix(e.width, vs, m);
      MemoryOfPrefix(e.width, ws, m);
    } else {
      SameElemsBytes(e, vs, ws, 0);
    }
  }

  /** The first bytes of a block are the memory of its first elements. */
  lemma {:induction false} MemoryOfPrefix(w: nat, vs: seq<Value>, m: nat)
    requires Numbers(w, vs) && m <= |vs|
    ensures m * w <= |vs| * w && BlockMemory(w, vs)[..m * w] == BlockMemory(w, vs[..m])
    decreases m
  {
    assert 0 <= m * w <= |vs| * w;
    if m > 0 {
      MemoryOfPrefix(w, vs[1..], m - 1);
      assert m * w == w + (m - 1) * w;
      assert vs[..m][1..] == vs[1..][..m - 1];
    }
  }

  lemma {:induction false} SameElemsBytes(e: Schema, vs: seq<Value>, ws: seq<Value>, k: nat)
    requires WellFormed(e) && k <= |vs| == |ws| && ElemsHaveType1(e, vs) && ElemsHaveType1(e, ws)
    requires forall i | 0 <= i < |vs| :: SameBlocks(e, vs[i], ws[i])
    ensures EncElems(e, vs, k) == EncElems(e, ws, k)
    decreases e, 4, |vs| - k
  {
    hide HasType1, SameBlocks, Enc1, WellFormed;
    if k < |vs| {
      SameBlocksSameBytes(e, vs[k], ws[k]);
      SameElemsBytes(e, vs, ws, k + 1);
    }
  }

  lemma {:induction false} SameFieldsBytes(fs: seq<Schema>, vs: seq<Value>, ws: seq<Value>, k: nat)
    requires k <= |fs| && FieldsHaveType1(fs, vs) && FieldsHaveType1(fs, ws)
    requires forall i | 0 <= i < |fs| :: WellFormed(fs[i]) && SameBlocks(fs[i], vs[i], ws[i])
    ensures EncFields(fs, vs, k) == EncFields(fs, ws, k)
    decreases fs, 4, |fs| - k
  {
    hide HasType1, SameBlocks, Enc1, WellFormed;
    if k < |fs| {
      SameBlocksSameBytes(fs[k], vs[k], ws[k]);
      SameFieldsBytes(fs, vs, ws, k + 1);
    }
  }

  // ----- the elements of a target behind the blocks -----

  lemma {:induction false} PatchKeepsBlocks(s: Schema, v: Value, t: Value)
    requires WellFormed(s) && Covered(s) && HasType1(s, v) && HasType2(s, t)
    ensures SameBlocks(s, Normal(s, Patch(s, v, t)), Normal(s, v))
    ensures WithinBounds(s, Patch(s, v, t)) <==> WithinBounds(s, v)
    decreases s, 0
  {
    hide PatchBody, PatchFields, PatchField, SameBlocksBody, NormalElems, NormalFields;
    match s
    case Sequence(e, _) => PatchKeepsBodyBlocks(e, v.elems, Resized(t.elems, |v.elems|, Fresh2(e)));
    case Array(e, _) => PatchKeepsBodyBlocks(e, v.elems, t.elems);
    case Record(fs, _, _, _) =>
      forall i | 0 <= i < |fs|
        ensures var r := Patch(s, v, t).slots[i];
                SameBlocks(fs[i], Normal(fs[i], r), Normal(fs[i], v.slots[i])) && (WithinBounds(fs[i], r) <==> WithinBounds(fs[i], v.slots[i]))
      {
        PatchKeepsFieldBlocks(s, i, v.slots, t.slots);
      }
    case _ =>
  }

  lemma PatchKeepsFieldBlocks(s: Schema, i: nat, vs: seq<Value>, ts: seq<Value>)
    requires s.Record? && WellFormed(s) && Covered(s) && i < |s.fields| && FieldsHaveType1(s.fields, vs) && HasType2(s, Struct(ts))
    ensures var f, r := s.fields[i], PatchField(s, i, vs[i], ts);
            SameBlocks(f, Normal(f, r), Normal(f, vs[i])) && (WithinBounds(f, r) <==> WithinBounds(f, vs[i]))
    decreases s.fields, 1
  {
    hide HasType1, Patch, SameBlocks, Normal, WithinBounds;
    PatchKeepsBlocks(s.fields[i], vs[i], ts[s.pairs21[i].ros2]);
  }

  lemma PatchKeepsBodyBlocks(e: Schema, vs: seq<Value>, ts: seq<Value>)
    requires WellFormed(e) && Covered(e) && |vs| == |ts| && ElemsHaveType1(e, vs) && ElemsHaveType2(e, ts)
    ensures var r := PatchBody(e, vs, ts);
            && SameBlocksBody(e, NormalElems(e, r), NormalElems(e, vs))
            && forall i | 0 <= i < |vs| :: WithinBounds(e, r[i]) <==> WithinBounds(e, vs[i])
    decreases e, 1
  {
    hide HasType1, HasType2, Patch, SameBlocks;
    var r := PatchBody(e, vs, ts);
    if e.Prim? {
      assert forall v | HasType1(e, v) :: Normal(e, v) == v && WithinBounds(e, v);
      assert NormalElems(e, r) == r && NormalElems(e, vs) == vs;
    } else {
      hide Normal, WithinBounds;
      forall i | 0 <= i < |vs|
        ensures SameBlocks(e, Normal(e, r[i]), Normal(e, vs[i])) && (WithinBounds(e, r[i]) <==> WithinBounds(e, vs[i]))
      {
        PatchKeepsBlocks(e, vs[i], ts[i]);
      }
    }
  }

  lemma {:induction false} SameBlocksSamePatch(s: Schema, v: Value, w: Value, t: Value)
    requires WellFormed(s) && Covered(s) && HasType1(s, v) && HasType1(s, w) && HasType2(s, t) && SameBlocks(s, v, w)
    ensures Patch(s, v, t) == Patch(s, w, t)
    decreases s, 0
  {
    match s
    case Sequence(e, _) => SameBodyPatch(e, v.elems, w.elems, Resized(t.elems, |v.elems|, Fresh2(e)));
    case Array(e, _) => SameBodyPatch(e, v.elems, w.elems, t.elems);
    case Record(fs, _, p, _) =>
      var a, b := Patch(s, v, t).slots, Patch(s, w, t).slots;
      forall i | 0 <= i < |fs| ensures a[i] == b[i] {
        assert a[i] == PatchField(s, i, v.slots[i], t.slots) && b[i] == PatchField(s, i, w.slots[i], t.slots);
        SameBlocksSamePatch(fs[i], v.slots[i], w.slots[i], t.slots[p[i].ros2]);
      }
    case _ =>
  }

  lemma SameBodyPatch(e: Schema, vs: seq<Value>, ws: seq<Value>, ts: seq<Value>)
    requires WellFormed(e) && Covered(e) && |vs| == |ws| == |ts|
    requires ElemsHaveType1(e, vs) && ElemsHaveType1(e, ws) && ElemsHaveType2(e, ts) && SameBlocksBody(e, vs, ws)
    ensures PatchBody(e, vs, ts) == PatchBody(e, ws, ts)
    decreases e, 1
  {
    hide HasType1, HasType2, Patch, SameBlocks;
    if !e.Prim? {
      forall i | 0 <= i < |vs| ensures Patch(e, vs[i], ts[i]) == Patch(e, ws[i], ts[i]) {
        SameBlocksSamePatch(e, vs[i], ws[i], ts[i]);
      }
    }
  }

  // ----- when the elements behind the blocks show in the converted message -----

  /** Converting the patched message gives the conversion of the message itself if and only if the
      tails agree. */
  lemma {:induction false} PatchedConverts(s: Schema, v: Value, t: Value)
    requires WellFormed(s) && Covered(s) && HasType1(s, v) && HasType2(s, t) && WithinBounds(s, v)
    ensures To2(s, v, t).Some? && To2(s, Patch(s, v, t), t).Some?
    ensures To2(s, Patch(s, v, t), t) == To2(s, v, t) <==> TailsAgree(s, v, t)
    decreases s, 3
  {
    hide PatchBody, PatchFields, PatchField, ElemsTo2, FieldsTo2, TailsAgreeBody;
    PatchKeepsBlocks(s, v, t);
    ConvertsIffWithinBounds(s, v, t);
    ConvertsIffWithinBounds(s, Patch(s, v, t), t);
    match s
    case Sequence(e, _) => PatchedElemsConvert(e, v.elems, Resized(t.elems, |v.elems|, Fresh2(e)));
    case Array(e, _) => PatchedElemsConvert(e, v.elems, t.elems);
    case Record(_, _, _, _) => PatchedRecordConverts(s, v, t);
    case _ =>
  }

  lemma PatchedElemsConvert(e: Schema, vs: seq<Value>, ts: seq<Value>)
    requires WellFormed(e) && Covered(e) && |vs| == |ts| && ElemsHaveType1(e, vs) && ElemsHaveType2(e, ts)
    requires forall i | 0 <= i < |vs| :: WithinBounds(e, vs[i])
    requires ElemsTo2(e, vs, ts, 0).Some? && ElemsTo2(e, PatchBody(e, vs, ts), ts, 0).Some?
    ensures ElemsTo2(e, PatchBody(e, vs, ts), ts, 0) == ElemsTo2(e, vs, ts, 0) <==> TailsAgreeBody(e, vs, ts)
    decreases e, 5
  {
    if e.Prim? {
      hide ElemsTo2;
      PrimitivesConvert(e, PatchBody(e, vs, ts), ts, 0);
      PrimitivesConvert(e, vs, ts, 0);
      PatchedBlock(e, vs, ts);
    } else {
      hide HasType1, HasType2, Patch, TailsAgree, ElemsTo2, WithinBounds, To2, Covered, WellFormed;
      PatchedEach(e, vs, ts);
      ElemsEqualIff(e, PatchBody(e, vs, ts), vs, ts, 0);
    }
  }

  lemma PatchedBlock(e: Schema, vs: seq<Value>, ts: seq<Value>)
    requires e.Prim? && WellFormed(e) && |vs| == |ts| && ElemsHaveType1(e, vs) && ElemsHaveType2(e, ts)
    ensures PatchBody(e, vs, ts) == vs <==> TailsAgreeBody(e, vs, ts)
  {
    hide HasType1, HasType2;
    var m, r := BlockCount(e.width, |vs|), PatchBody(e, vs, ts);
    assert forall i | 0 <= i < |vs| :: r[i] == if i < m then vs[i] else ts[i];
  }

  lemma PatchedEach(e: Schema, vs: seq<Value>, ts: seq<Value>)
    requires !e.Prim? && WellFormed(e) && Covered(e) && |vs| == |ts| && ElemsHaveType1(e, vs) && ElemsHaveType2(e, ts)
    requires forall i | 0 <= i < |vs| :: WithinBounds(e, vs[i])
    ensures forall i | 0 <= i < |vs| ::
              (To2(e, PatchBody(e, vs, ts)[i], ts[i]) == To2(e, vs[i], ts[i])) <==> TailsAgree(e, vs[i], ts[i])
    decreases e, 4
  {
    hide HasType1, HasType2, Patch, TailsAgree, WithinBounds, To2, Covered, WellFormed;
    forall i | 0 <= i < |vs|
      ensures (To2(e, PatchBody(e, vs, ts)[i], ts[i]) == To2(e, vs[i], ts[i])) <==> TailsAgree(e, vs[i], ts[i])
    {
      PatchedConverts(e, vs[i], ts[i]);
      assert PatchBody(e, vs, ts)[i] == Patch(e, vs[i], ts[i]);
    }
  }

  lemma {:induction false} PrimitivesConvert(e: Schema, vs: seq<Value>, ts: seq<Value>, k: nat)
    requires e.Prim? && WellFormed(e) && k <= |vs| == |ts| && ElemsHaveType1(e, vs) && ElemsHaveType2(e, ts)
    ensures ElemsTo2(e, vs, ts, k) == Some(vs[k..])
    decreases |vs| - k
  {
    if k < |vs| {
      PrimitivesConvert(e, vs, ts, k + 1);
      assert To2(e, vs[k], ts[k]) == Some(vs[k]);
      assert vs[k..] == [vs[k]] + vs[k + 1..];
    }
  }

  lemma {:induction false} ElemsEqualIff(e: Schema, vs: seq<Value>, ws: seq<Value>, ts: seq<Value>, k: nat)
    requires WellFormed(e) && k <= |vs| == |ws| == |ts|
    requires ElemsHaveType1(e, vs) && ElemsHaveType1(e, ws) && ElemsHaveType2(e, ts)
    requires ElemsTo2(e, vs, ts, k).Some? && ElemsTo2(e, ws, ts, k).Some?
    ensures ElemsTo2(e, vs, ts, k) == ElemsTo2(e, ws, ts, k) <==>
              forall i | k <= i < |vs| :: To2(e, vs[i], ts[i]) == To2(e, ws[i], ts[i])
    decreases |vs| - k
  {
    hide HasType1, HasType2, To2, WellFormed;
    if k < |vs| {
      ElemsEqualIff(e, vs, ws, ts, k + 1);
      var a, b := To2(e, vs[k], ts[k]), To2(e, ws[k], ts[k]);
      var as', bs := ElemsTo2(e, vs, ts, k + 1).value, ElemsTo2(e, ws, ts, k + 1).value;
      HeadAndTail(a.value, as', b.value, bs);
    }
  }

  lemma HeadAndTail<T>(a: T, as': seq<T>, b: T, bs: seq<T>)
    ensures [a] + as' == [b] + bs <==> a == b && as' == bs
  {
    assert ([a] + as')[1..] == as' && ([b] + bs)[1..] == bs;
    assert ([a] + as')[0] == a && ([b] + bs)[0] == b;
  }

  lemma PatchedRecordConverts(s: Schema, v: Value, t: Value)
    requires s.Record? && WellFormed(s) && Covered(s) && HasType1(s, v) && HasType2(s, t) && WithinBounds(s, v)
    requires To2(s, v, t).Some? && To2(s, Patch(s, v, t), t).Some?
    ensures To2(s, Patch(s, v, t), t) == To2(s, v, t) <==> TailsAgree(s, v, t)
    decreases s.fields, 4
  {
    var ws := Patch(s, v, t).slots;
    assert HasType2(s, Struct(t.slots)) && FieldsHaveType1(s.fields, ws) && FieldsHaveType1(s.fields, v.slots);
    RecordsEqualIff(s, Patch(s, v, t), v, t);
    forall i | 0 <= i < |s.fields|
      ensures (FieldTo2(s, i, ws, t.slots) == FieldTo2(s, i, v.slots, t.slots)) <==>
                TailsAgree(s.fields[i], v.slots[i], t.slots[s.pairs21[i].ros2])
    {
      assert ws[i] == PatchField(s, i, v.slots[i], t.slots);
      PatchedConverts(s.fields[i], v.slots[i], t.slots[s.pairs21[i].ros2]);
    }
  }

  /** Two conversions of a message over the same target are equal exactly if those of all fields
      are. */
  lemma RecordsEqualIff(s: Schema, v: Value, w: Value, t: Value)
    requires s.Record? && WellFormed(s) && Covered(s) && HasType1(s, v) && HasType1(s, w) && HasType2(s, t)
    requires To2(s, v, t).Some? && To2(s, w, t).Some?
    ensures v.Struct? && w.Struct? && t.Struct? && HasType2(s, Struct(t.slots))
    ensures FieldsHaveType1(s.fields, v.slots) && FieldsHaveType1(s.fields, w.slots)
    ensures To2(s, v, t) == To2(s, w, t) <==>
              forall i | 0 <= i < |s.fields| :: FieldTo2(s, i, v.slots, t.slots) == FieldTo2(s, i, w.slots, t.slots)
  {
    RecordAsFields(s, v, t);
    RecordAsFields(s, w, t);
    var p := s.pairs12;
    assert p[0..] == p;
    hide To2, HasType1, FieldTo2, FieldsTo2, WellFormed;
    FieldsTo2At(s, 0, v.slots, t.slots);
    FieldsTo2At(s, 0, w.slots, t.slots);
    var a, b := FieldsTo2(s, 0, v.slots, t.slots).value, FieldsTo2(s, 0, w.slots, t.slots).value;
    forall i | 0 <= i < |s.fields| ensures p[i].ros2 < |t.slots| && |a| == |b| == |t.slots| {
      assert HasType2(s, Struct(a)) && HasType2(s, Struct(b));
    }
    assert |a| == |b| == |t.slots|;
    hide HasType2, Covered;
    forall i | 0 <= i < |s.fields|
      ensures FieldTo2(s, i, v.slots, t.slots) == Some(a[p[i].ros2]) && FieldTo2(s, i, w.slots, t.slots) == Some(b[p[i].ros2])
    {
    }
    SlotsEqualIff(p, t.slots, a, b);
  }

  lemma RecordAsFields(s: Schema, v: Value, t: Value)
    requires s.Record? && WellFormed(s) && Covered(s) && HasType1(s, v) && HasType2(s, t) && To2(s, v, t).Some?
    ensures v.Struct? && t.Struct? && HasType2(s, Struct(t.slots)) && FieldsHaveType1(s.fields, v.slots)
    ensures var r := FieldsTo2(s, 0, v.slots, t.slots);
            r.Some? && To2(s, v, t) == Some(Struct(r.value)) && |r.value| == |t.slots|
  {
    assert HasType2(s, To2(s, v, t).value);
  }

  /** Two conversions over the same target are equal exactly if they agree on every partner. */
  lemma SlotsEqualIff(p: seq<Pair>, ts: seq<Value>, a: seq<Value>, b: seq<Value>)
    requires |a| == |b| == |ts| && forall k | 0 <= k < |p| :: p[k].ros2 < |ts|
    requires forall j | 0 <= j < |ts| && !Partner(p, j) :: a[j] == ts[j] && b[j] == ts[j]
    ensures a == b <==> forall k | 0 <= k < |p| :: a[p[k].ros2] == b[p[k].ros2]
  {
    if forall k | 0 <= k < |p| :: a[p[k].ros2] == b[p[k].ros2] {
      forall j | 0 <= j < |ts| ensures a[j] == b[j] {
        if Partner(p, j) {
          var k :| 0 <= k < |p| && p[k].ros2 == j;
        }
      }
    }
  }
}
