/** Which dictionaries make the second diagram hold: a direct read agrees with parsing and converting
    for a name-based mapping exactly if colliding names belong to fields without bytes. */
module ReadLimits {
  import opened Wrappers
  import opened LittleEndian
  import opened Schema
  import opened Conversion
  import opened RoundTrip
  import opened Ros1Wire
  import opened DirectStream
  import opened SerializerLaws
  import opened Diagram
  import opened Refusal
  import opened Wrapping
  import opened Layout
  import opened WriteLimits
  import opened FieldMapping
  import opened MappingLimits
  import opened NestedNames
  import opened WriteThenRead

  /** The second diagram, for all targets and all byte strings but those of messages with counts that
      do not fit. */
  ghost predicate ReadsAgree(s: Schema)
    requires WellFormed(s)
  {
    forall bs, t2 | HasType2(s, t2) && (Dec1(s, bs).Some? ==> Fits1(s, Dec1(s, bs).value.value)) ::
      Read(s, bs, t2) == ParseAndConvert(s, bs, t2)
  }

  // ----- default messages -----

  lemma {:induction false} FreshFits(s: Schema)
    requires WellFormed(s)
    ensures Fits1(s, Fresh1(s))
    decreases s
  {
    match s
    case Array(e, n) => FreshFits(e);
    case Record(fs, _, _, _) =>
      forall i | 0 <= i < |fs| ensures Fits1(fs[i], Fresh1(fs[i])) {
        FreshFits(fs[i]);
      }
    case _ =>
  }

  /** No message takes fewer bytes than the default one. */
  lemma {:induction false} AtLeastWidth(s: Schema, v: Value)
    requires WellFormed(s) && HasType1(s, v)
    ensures |Enc1(s, v)| >= Width(s)
    decreases s, 0, 0
  {
    match s
    case Array(e, n) => AtLeastBody(e, v.elems, Copies(n, Fresh1(e)));
    case Record(fs, _, _, _) => AtLeastFields(fs, v.slots, Fresh1(s).slots, 0);
    case Sequence(e, _) => assert EncBody(e, []) == [];
    case Header => AtLeastHeader(v);
    case _ =>
  }

  lemma AtLeastHeader(v: Value)
    requires HasType1(Header, v)
    ensures |Enc1(Header, v)| >= 16 == Width(Header)
  {
    hide Encode;
  }

  lemma AtLeastBody(e: Schema, vs: seq<Value>, blanks: seq<Value>)
    requires WellFormed(e) && ElemsHaveType1(e, vs) && |vs| == |blanks| && forall i | 0 <= i < |blanks| :: blanks[i] == Fresh1(e)
    ensures ElemsHaveType1(e, blanks) && |EncBody(e, vs)| >= |EncBody(e, blanks)|
    decreases e, 2, 0
  {
    hide Enc1, HasType1, WellFormed, Fresh1;
    if !e.Prim? { AtLeastElems(e, vs, blanks, 0); }
  }

  lemma {:induction false} AtLeastElems(e: Schema, vs: seq<Value>, blanks: seq<Value>, k: nat)
    requires WellFormed(e) && ElemsHaveType1(e, vs) && |vs| == |blanks| && forall i | 0 <= i < |blanks| :: blanks[i] == Fresh1(e)
    requires k <= |vs|
    ensures ElemsHaveType1(e, blanks) && |EncElems(e, vs, k)| >= |EncElems(e, blanks, k)|
    decreases e, 1, |vs| - k
  {
    hide Enc1, HasType1, WellFormed, Fresh1;
    if k < |vs| {
      AtLeastWidth(e, vs[k]);
      AtLeastElems(e, vs, blanks, k + 1);
    }
  }

  lemma {:induction false} AtLeastFields(fs: seq<Schema>, vs: seq<Value>, blanks: seq<Value>, k: nat)
    requires FieldsHaveType1(fs, vs) && FieldsHaveType1(fs, blanks) && k <= |fs|
    requires forall i | 0 <= i < |fs| :: WellFormed(fs[i]) && blanks[i] == Fresh1(fs[i])
    ensures |EncFields(fs, vs, k)| >= |EncFields(fs, blanks, k)|
    decreases fs, 1, |fs| - k
  {
    hide Enc1, HasType1, WellFormed, Fresh1;
    if k < |fs| {
      AtLeastWidth(fs[k], vs[k]);
      AtLeastFields(fs, vs, blanks, k + 1);
    }
  }

  /** A message whose conversion has counts that fit has such counts itself. */
  lemma {:induction false} FitsBack(s: Schema, v2: Value, t1: Value)
    requires WellFormed(s) && Covered(s) && HasType2(s, v2) && HasType1(s, t1) && Fits1(s, To1(s, v2, t1))
    ensures Fits2(s, v2)
    decreases s, 0
  {
    match s
    case Sequence(e, _) => ElemsFitBack(e, v2.elems, Resized(t1.elems, |v2.elems|, Fresh1(e)));
    case Array(e, _) => ElemsFitBack(e, v2.elems, t1.elems);
    case Record(fs, _, p, _) =>
      FieldsTo1At(fs, p, 0, v2.slots, t1.slots);
      forall k | 0 <= k < |p| ensures Fits2(fs[p[k].ros1], v2.slots[p[k].ros2]) {
        FitsBack(fs[k], v2.slots[p[k].ros2], t1.slots[k]);
      }
    case _ =>
  }

  lemma ElemsFitBack(e: Schema, vs: seq<Value>, ts: seq<Value>)
    requires WellFormed(e) && Covered(e) && |vs| == |ts| && ElemsHaveType2(e, vs) && ElemsHaveType1(e, ts)
    requires forall i | 0 <= i < |vs| :: Fits1(e, ElemsTo1(e, vs, ts)[i])
    ensures forall i | 0 <= i < |vs| :: Fits2(e, vs[i])
    decreases e, 1
  {
    hide To1, HasType1, HasType2, WellFormed, Covered, Fits1, Fits2;
    forall i | 0 <= i < |vs| ensures Fits2(e, vs[i]) {
      assert ElemsTo1(e, vs, ts)[i] == To1(e, vs[i], ts[i]);
      FitsBack(e, vs[i], ts[i]);
    }
  }

  lemma {:induction false} CoveredIsKeyed(s: Schema)
    requires Covered(s)
    ensures Keyed(s)
    decreases s
  {
    match s
    case Sequence(e, _) => CoveredIsKeyed(e);
    case Array(e, _) => CoveredIsKeyed(e);
    case Record(fs, _, _, _) =>
      forall i | 0 <= i < |fs| ensures Keyed(fs[i]) {
        CoveredIsKeyed(fs[i]);
      }
    case _ =>
  }

  // ----- a left-out field makes the paths differ -----

  /** Some byte string is read into every target, but ROS 1 cannot parse it. */
  ghost predicate ReadsUnparseable(s: Schema)
    requires WellFormed(s)
  {
    exists bs :: Dec1(s, bs).None? && forall t2 | HasType2(s, t2) :: Read(s, bs, t2).Some?
  }

  /** The stream of a blank message is one. */
  lemma LeftOutFieldBreaksRead(s: Schema, i: nat)
    requires Composed(s) && !FieldMissing(s.fields, s.pairs12) && Distinct(DictionaryOrder(s.pairs21))
    requires i < |s.fields| && i !in DictionaryOrder(s.pairs21) && Width(s.fields[i]) > 0
    ensures WellFormed(s) && ReadsUnparseable(s) && !ReadsAgree(s)
  {
    ComposedFields(s);
    var v2 := BlankMessage(s);
    LeftOutFieldShortens(s, i, v2);
    var bs := Write(s, v2).value;
    ComposedIsKeyed(s);
    WriteRefusesExactlyHits(s, v2);
    hide Composed, Write, Read, Dec1, Enc1, HasType1, HasType2, Fresh1, To1, Keyed, Hits, Width, Fits2, CountsFit, TargetHasTails;
    assert bs + [] == bs;
    forall t2 | HasType2(s, t2) ensures Read(s, bs, t2).Some? {
      ReadAfterWrite(s, v2, t2, []);
    }
    if Dec1(s, bs).Some? {
      SerializeOfParse(s, bs);
      AtLeastWidth(s, Dec1(s, bs).value.value);
      WidthOfMessage(s);
    }
    assert Read(s, bs, Struct(s.defaults)) != ParseAndConvert(s, bs, Struct(s.defaults));
  }

  lemma WidthOfMessage(s: Schema)
    ensures Width(s) == |Enc1(s, Fresh1(s))|
  {
    hide Enc1, Fresh1;
  }

  lemma ComposedIsKeyed(s: Schema)
    requires Composed(s)
    ensures WellFormed(s) && Keyed(s)
  {
    hide WellFormed, Covered;
    forall i | 0 <= i < |s.fields| ensures Keyed(s.fields[i]) {
      CoveredIsKeyed(s.fields[i]);
    }
  }

  lemma BlankMessage(s: Schema) returns (v2: Value)
    requires Composed(s) && Distinct(DictionaryOrder(s.pairs21))
    ensures HasType2(s, v2) && Fits2(s, v2) && To1(s, v2, Fresh1(s)) == Fresh1(s)
  {
    v2 := MarkedMessage(s, |s.pairs21|);
    BlankIsFresh(s, v2);
    ConvertedFields(s, v2);
    hide To1, Fresh1, HasType1, HasType2, WellFormed, Covered, Converted, NotNamed, Fits1, DictionaryOrder;
    var p := s.pairs21;
    forall k | 0 <= k < |p| ensures Fits2(s.fields[p[k].ros1], v2.slots[p[k].ros2]) {
      NotNamedAgain(p, k);
      FreshFits(s.fields[p[k].ros1]);
      FitsBack(s.fields[p[k].ros1], v2.slots[p[k].ros2], Fresh1(s.fields[p[k].ros1]));
    }
  }

  lemma BlankIsFresh(s: Schema, v2: Value)
    requires Composed(s) && HasType2(s, v2)
    requires forall i | 0 <= i < |s.fields| :: Converted(s, v2)[i] == Fresh1(s.fields[i])
    ensures To1(s, v2, Fresh1(s)) == Fresh1(s)
  {
    assert Converted(s, v2) == Fresh1(s).slots;
  }

  // ----- parts without bytes are neither read nor converted -----

  lemma {:induction false} NoWidthConverts(s: Schema, v1: Value, t2: Value)
    requires WellFormed(s) && Covered(s) && HasType1(s, v1) && HasType2(s, t2) && Width(s) == 0
    ensures To2(s, v1, t2) == Some(t2)
    decreases s, 0, 0
  {
    match s
    case Array(e, n) =>
      if n > 0 { NoWidthNoElement(e, n); }
      NoWidthElemsConvert(e, v1.elems, t2.elems, 0);
    case Record(fs, _, _, _) =>
      NoWidthNoField(s);
      NoWidthFieldsConvert(s, v1.slots, t2.slots, 0);
    case _ =>
  }

  lemma NoWidthNoField(s: Schema)
    requires s.Record? && WellFormed(s) && Width(s) == 0
    ensures forall i | 0 <= i < |s.fields| :: Width(s.fields[i]) == 0
  {
    forall i | 0 <= i < |s.fields| ensures Width(s.fields[i]) == 0 {
      if Width(s.fields[i]) > 0 { FieldHasWidth(s.fields, Fresh1(s).slots, 0, i); }
    }
  }

  lemma {:induction false} NoWidthElemsConvert(e: Schema, vs: seq<Value>, ts: seq<Value>, k: nat)
    requires WellFormed(e) && Covered(e) && |vs| == |ts| && ElemsHaveType1(e, vs) && ElemsHaveType2(e, ts) && k <= |ts|
    requires k < |ts| ==> Width(e) == 0
    ensures ElemsTo2(e, vs, ts, k) == Some(ts[k..])
    decreases e, 1, |ts| - k
  {
    hide To2, HasType1, HasType2, WellFormed, Covered, Width;
    if k < |ts| {
      NoWidthConverts(e, vs[k], ts[k]);
      NoWidthElemsConvert(e, vs, ts, k + 1);
      assert [ts[k]] + ts[k + 1..] == ts[k..];
    }
  }

  lemma {:induction false} NoWidthFieldsConvert(s: Schema, vs: seq<Value>, ts: seq<Value>, k: nat)
    requires s.Record? && WellFormed(s) && Covered(s) && FieldsHaveType1(s.fields, vs) && HasType2(s, Struct(ts)) && k <= |s.pairs12|
    requires forall i | 0 <= i < |s.fields| :: Width(s.fields[i]) == 0
    ensures FieldsTo2(s, k, vs, ts) == Some(ts)
    decreases s.fields, 1, |s.pairs12| - k
  {
    hide To2, HasType1, HasType2, WellFormed, Width;
    if k < |s.pairs12| {
      var p := s.pairs12[k];
      MemberTyped(s, ts, p);
      NoWidthConverts(s.fields[p.ros1], vs[p.ros1], ts[p.ros2]);
      assert ts[p.ros2 := ts[p.ros2]] == ts;
      NoWidthFieldsConvert(s, vs, ts, k + 1);
    }
  }

  lemma NoWidthReads(s: Schema, bs: seq<byte>, t2: Value)
    requires WellFormed(s) && Covered(s) && HasType2(s, t2) && Width(s) == 0
    ensures Read(s, bs, t2) == Some(Parsed(t2, bs))
  {
    var blank := Fresh1(s);
    FreshFits(s);
    NoWidthNoBytes(s, blank);
    hide *;
    FittingHasNoTails(s, blank);
    assert Enc1(s, blank) + bs == bs;
    ParseOfSerialize(s, blank, bs);
    DirectReadIsParseAndConvert(s, bs, t2);
    NoWidthConverts(s, blank, t2);
    ParsedBlank(s, blank, bs, t2);
  }

  lemma ParsedBlank(s: Schema, v1: Value, bs: seq<byte>, t2: Value)
    requires WellFormed(s) && HasType1(s, v1) && HasType2(s, t2) && Dec1(s, bs) == Some(Parsed(v1, bs)) && To2(s, v1, t2) == Some(t2)
    ensures ParseAndConvert(s, bs, t2) == Some(Parsed(t2, bs))
  {
    hide Dec1, To2, WellFormed;
  }

  // ----- the message with a member of its own for every part without bytes -----

  /** The two dictionaries have the fields with bytes in declaration order, with the same partners. */
  ghost predicate Aligned(s: Schema)
    requires Composed(s)
  {
    var fs, p, q, order := s.fields, s.pairs12, s.pairs21, DictionaryOrder(s.pairs21);
    && |p| == |fs| && (forall i | 0 <= i < |p| :: p[i].ros1 == i)
    && Indices(order, |fs|) && (forall k | 0 <= k < |q| :: q[k] == p[order[k]])
    && Visible(FieldWidths(fs), order) == Visible(FieldWidths(fs), Declared(|fs|))
  }

  ghost function OwnPairs(s: Schema): (r: seq<Pair>)
    requires s.Record? && |s.pairs12| == |s.fields|
    ensures |r| == |s.fields|
    ensures forall k | 0 <= k < |r| :: r[k] == if Width(s.fields[k]) > 0 then s.pairs12[k] else Pair(k, |s.defaults| + k)
  {
    seq(|s.fields|, k requires 0 <= k < |s.fields| => if Width(s.fields[k]) > 0 then s.pairs12[k] else Pair(k, |s.defaults| + k))
  }

  ghost function Extras(fs: seq<Schema>): (r: seq<Value>)
    requires forall i | 0 <= i < |fs| :: WellFormed(fs[i])
    ensures |r| == |fs| && forall i | 0 <= i < |r| :: HasType2(fs[i], r[i])
  {
    seq(|fs|, i requires 0 <= i < |fs| => Fresh2(fs[i]))
  }

  ghost function Spread(s: Schema): (r: Schema)
    requires Composed(s) && Aligned(s)
    ensures r.Record? && r.fields == s.fields && r.pairs12 == r.pairs21 == OwnPairs(s)
  {
    assert forall i | 0 <= i < |s.fields| :: WellFormed(s.fields[i]);
    Record(s.fields, OwnPairs(s), OwnPairs(s), s.defaults + Extras(s.fields))
  }

  lemma PartnersOfVisible(s: Schema, i: nat, j: nat)
    requires Composed(s) && Aligned(s) && i < j < |s.fields| && Width(s.fields[i]) > 0 && Width(s.fields[j]) > 0
    ensures s.pairs12[i].ros2 != s.pairs12[j].ros2
  {
    var widths, order := FieldWidths(s.fields), DictionaryOrder(s.pairs21);
    hide Width, Visible, WellFormed, Covered;
    assert Declared(|s.fields|)[i] == i && Declared(|s.fields|)[j] == j;
    VisibleIff(widths, order, i);
    VisibleIff(widths, order, j);
    VisibleIff(widths, Declared(|s.fields|), i);
    VisibleIff(widths, Declared(|s.fields|), j);
    var k :| 0 <= k < |order| && order[k] == i;
    var l :| 0 <= l < |order| && order[l] == j;
    assert s.pairs21[k] == s.pairs12[i] && s.pairs21[l] == s.pairs12[j];
  }

  lemma ComposedFields(s: Schema)
    requires Composed(s)
    ensures s.Record? && forall i | 0 <= i < |s.fields| :: WellFormed(s.fields[i]) && Covered(s.fields[i])
    ensures WellFormed(s) && HasType2(s, Struct(s.defaults))
  {
  }

  lemma SpreadTyped(s: Schema, slots: seq<Value>)
    requires Composed(s) && Aligned(s) && HasType2(s, Struct(slots))
    ensures |slots| == |s.defaults| && forall i | 0 <= i < |s.fields| :: WellFormed(s.fields[i])
    ensures MembersHaveType2(s.fields, OwnPairs(s), slots + Extras(s.fields))
    ensures HasType2(Spread(s), Struct(slots + Extras(s.fields)))
  {
    ComposedFields(s);
    SameSlots(s, slots);
    var r, q := slots + Extras(s.fields), OwnPairs(s);
    hide Width, Visible, Covered, WellFormed, HasType2, Composed, Aligned, OwnPairs, Extras, Spread;
    forall k | 0 <= k < |q| ensures q[k].ros1 < |s.fields| && q[k].ros2 < |r| && HasType2(s.fields[q[k].ros1], r[q[k].ros2]) {
      OwnMember(s, slots, k);
    }
    SpreadSlots(s, r);
  }

  lemma OwnMember(s: Schema, slots: seq<Value>, k: nat)
    requires Composed(s) && Aligned(s) && HasType2(s, Struct(slots)) && k < |s.fields| && |slots| == |s.defaults|
    requires forall i | 0 <= i < |s.fields| :: WellFormed(s.fields[i])
    ensures var p, r := OwnPairs(s)[k], slots + Extras(s.fields);
            p.ros1 == k && p.ros2 < |r| && HasType2(s.fields[k], r[p.ros2])
  {
    hide Width, Visible, Covered, WellFormed, HasType2;
    assert s.pairs12[k] in s.pairs12;
    MemberTyped(s, slots, s.pairs12[k]);
  }

  lemma SameSlots(s: Schema, slots: seq<Value>)
    requires s.Record? && HasType2(s, Struct(slots))
    ensures |slots| == |s.defaults|
  {
  }

  lemma SpreadIs(s: Schema)
    requires Composed(s) && Aligned(s)
    ensures (forall i | 0 <= i < |s.fields| :: WellFormed(s.fields[i])) && |s.pairs12| == |s.fields|
    ensures Spread(s) == Record(s.fields, OwnPairs(s), OwnPairs(s), s.defaults + Extras(s.fields))
  {
    hide Width, Visible, Covered, WellFormed, HasType2;
    ComposedFields(s);
  }

  lemma SpreadSlots(s: Schema, r: seq<Value>)
    requires Composed(s) && Aligned(s) && |r| == |s.defaults| + |s.fields|
    requires |s.pairs12| == |s.fields| && MembersHaveType2(s.fields, OwnPairs(s), r)
    ensures HasType2(Spread(s), Struct(r))
  {
    hide Width, Visible, Covered, WellFormed, Composed, Aligned, Spread, OwnPairs, Extras;
    SpreadIs(s);
  }

  lemma SpreadIsCovered(s: Schema)
    requires Composed(s) && Aligned(s)
    ensures WellFormed(Spread(s)) && Covered(Spread(s))
  {
    ComposedFields(s);
    SpreadTyped(s, s.defaults);
    OwnPairsCover(s);
    var r := Spread(s);
    assert r == Record(s.fields, OwnPairs(s), OwnPairs(s), s.defaults + Extras(s.fields));
    hide Width, Visible, HasType2, Composed, Aligned, OwnPairs, Spread, OneTypeEach, Covering, MembersHaveType2;
  }

  lemma OwnPairsCover(s: Schema)
    requires Composed(s) && Aligned(s)
    ensures Covering(s.fields, OwnPairs(s)) && OneTypeEach(s.fields, OwnPairs(s), OwnPairs(s))
  {
    var q := OwnPairs(s);
    assert forall k | 0 <= k < |q| :: q[k].ros1 == k by { OwnIndices(s); }
    hide Width, Visible, HasType2, Composed, Aligned, OwnPairs;
    forall k, l | 0 <= k < l < |q| ensures q[k].ros2 != q[l].ros2 {
      OwnPartners(s, k, l);
    }
    DistinctPartners(s.fields, q);
  }

  lemma OwnIndices(s: Schema)
    requires Composed(s) && Aligned(s)
    ensures forall k | 0 <= k < |s.fields| :: OwnPairs(s)[k].ros1 == k
  {
    hide Width, Composed, Visible;
  }

  lemma DistinctPartners(fs: seq<Schema>, q: seq<Pair>)
    requires |q| == |fs| && (forall k | 0 <= k < |q| :: q[k].ros1 == k) && forall k, l | 0 <= k < l < |q| :: q[k].ros2 != q[l].ros2
    ensures Covering(fs, q) && OneTypeEach(fs, q, q)
  {
  }

  lemma OwnPartners(s: Schema, k: nat, l: nat)
    requires Composed(s) && Aligned(s) && k < l < |s.fields|
    ensures OwnPairs(s)[k].ros2 != OwnPairs(s)[l].ros2
  {
    ComposedFields(s);
    hide Width, Visible;
    MemberTyped(s, s.defaults, s.pairs12[k]);
    MemberTyped(s, s.defaults, s.pairs12[l]);
    if Width(s.fields[k]) > 0 && Width(s.fields[l]) > 0 { PartnersOfVisible(s, k, l); }
  }

  // ----- both paths are the same for that message -----

  /** The parts with bytes from position `k` of the order on. */
  function VisibleFrom(widths: seq<nat>, order: seq<nat>, k: nat): (r: seq<nat>)
    requires Indices(order, |widths|) && k <= |order|
    decreases |order| - k
  {
    if k == |order| then []
    else (if widths[order[k]] > 0 then [order[k]] else []) + VisibleFrom(widths, order, k + 1)
  }

  lemma {:induction false} VisibleInParts(widths: seq<nat>, order: seq<nat>, k: nat)
    requires Indices(order, |widths|) && k <= |order|
    ensures Visible(widths, order) == Visible(widths, order[..k]) + VisibleFrom(widths, order, k)
    decreases |order| - k
  {
    hide Visible;
    if k == |order| {
      assert order[..k] == order;
    } else {
      VisibleInParts(widths, order, k + 1);
      assert order[..k + 1] == order[..k] + [order[k]];
      VisibleOfNext(widths, order[..k], order[k]);
      var a, b, c := Visible(widths, order[..k]), if widths[order[k]] > 0 then [order[k]] else [], VisibleFrom(widths, order, k + 1);
      assert (a + b) + c == a + (b + c);
    }
  }

  lemma SkipsInvisible(widths: seq<nat>, order: seq<nat>, k: nat)
    requires Indices(order, |widths|) && k < |order| && widths[order[k]] == 0
    ensures VisibleFrom(widths, order, k) == VisibleFrom(widths, order, k + 1)
  {
  }

  lemma VisibleFromStart(widths: seq<nat>, order: seq<nat>)
    requires Indices(order, |widths|)
    ensures VisibleFrom(widths, order, 0) == Visible(widths, order)
  {
    VisibleInParts(widths, order, 0);
    assert order[..0] == [];
  }

  /** The same outcome, with these values behind it. */
  function Extended(r: Option<Parsed<seq<Value>>>, more: seq<Value>): Option<Parsed<seq<Value>>> {
    if r.None? then None else Some(Parsed(r.value.value + more, r.value.rest))
  }

  /** One step of a read. */
  lemma ReadStep(s: Schema, k: nat, bs: seq<byte>, slots: seq<Value>)
    requires s.Record? && WellFormed(s) && HasType2(s, Struct(slots)) && k < |s.pairs21|
    ensures s.pairs21[k].ros1 < |s.fields| && s.pairs21[k].ros2 < |slots|
    ensures var f, j := s.fields[s.pairs21[k].ros1], s.pairs21[k].ros2;
            && WellFormed(f) && HasType2(f, slots[j])
            && var head := Read(f, bs, slots[j]);
               if head.None? then ReadFields(s, k, bs, slots).None?
               else HasType2(s, Struct(slots[j := head.value.value])) &&
                    ReadFields(s, k, bs, slots) == ReadFields(s, k + 1, head.value.rest, slots[j := head.value.value])
  {
    hide Read, HasType2, WellFormed;
    MemberTyped(s, slots, s.pairs21[k]);
    var head := Read(s.fields[s.pairs21[k].ros1], bs, slots[s.pairs21[k].ros2]);
    if head.Some? { StoreMember(s, slots, s.pairs21[k], head.value.value); }
  }

  lemma SkippedRead(s: Schema, k: nat, bs: seq<byte>, slots: seq<Value>)
    requires s.Record? && WellFormed(s) && HasType2(s, Struct(slots)) && k < |s.pairs21| && s.pairs21[k].ros1 < |s.fields|
    requires Covered(s.fields[s.pairs21[k].ros1]) && Width(s.fields[s.pairs21[k].ros1]) == 0
    ensures ReadFields(s, k, bs, slots) == ReadFields(s, k + 1, bs, slots)
  {
    hide Read, HasType2, WellFormed, ReadFields, Width, Covered;
    ReadStep(s, k, bs, slots);
    var j := s.pairs21[k].ros2;
    NoWidthReads(s.fields[s.pairs21[k].ros1], bs, slots[j]);
    assert slots[j := slots[j]] == slots;
  }

  /** The second schema has the same fields, in declaration order in both dictionaries; those with
      bytes have the partners that they have in the first. */
  ghost predicate SpreadOf(s: Schema, s': Schema)
  {
    && s.Record? && s'.Record? && WellFormed(s) && WellFormed(s') && s'.fields == s.fields
    && (forall i | 0 <= i < |s.fields| :: WellFormed(s.fields[i]) && Covered(s.fields[i]))
    && |s.pairs12| == |s'.pairs12| == |s.fields| && s'.pairs21 == s'.pairs12
    && (forall l | 0 <= l < |s.fields| :: OwnPair(s, s', l))
    && (forall k | 0 <= k < |s.pairs21| :: s.pairs21[k].ros1 < |s.fields| && s.pairs21[k] == s.pairs12[s.pairs21[k].ros1])
  }

  ghost predicate OwnPair(s: Schema, s': Schema, l: nat)
    requires s.Record? && s'.Record? && l < |s.fields| && l < |s.pairs12| && l < |s'.pairs12|
  {
    s.pairs12[l].ros1 == s'.pairs12[l].ros1 == l && (Width(s.fields[l]) > 0 ==> s'.pairs12[l] == s.pairs12[l])
  }

  predicate Appended(slots: seq<Value>, more: seq<Value>, slots': seq<Value>) {
    slots' == slots + more
  }

  lemma AppendedUpdate(slots: seq<Value>, more: seq<Value>, slots': seq<Value>, j: nat, v: Value)
    requires j < |slots| && Appended(slots, more, slots')
    ensures |slots'| == |slots| + |more| && slots'[j] == slots[j] && Appended(slots[j := v], more, slots'[j := v])
  {
  }

  /** Reading by the dictionary from position `k` on, and in declaration order from position `from` on. */
  lemma {:induction false} ReadsSpread(s: Schema, s': Schema, more: seq<Value>, k: nat, from: nat, bs: seq<byte>,
      slots: seq<Value>, slots': seq<Value>)
    requires SpreadOf(s, s') && k <= |s.pairs21| && from <= |s.fields| && HasType2(s, Struct(slots)) && HasType2(s', Struct(slots'))
    requires Indices(DictionaryOrder(s.pairs21), |s.fields|) && SameVisible(s, k, from) && Appended(slots, more, slots')
    ensures |s'.pairs21| == |s.fields|
    ensures ReadFields(s', from, bs, slots') == Extended(ReadFields(s, k, bs, slots), more)
    decreases |s.pairs21| - k
  {
    hide *;
    SpreadShape(s, s');
    if k < |s.pairs21| && Width(s.fields[s.pairs21[k].ros1]) == 0 {
      VisibleSkips(s, k, from);
      SkippedRead(s, k, bs, slots);
      ReadsSpread(s, s', more, k + 1, from, bs, slots, slots');
    } else {
      var l := SkippedOwn(s, s', k, from, bs, slots');
      if k < |s.pairs21| {
        SameNext(s, k, l);
        ReadsSame(s, s', more, k, l, bs, slots, slots');
        var j := s.pairs21[k].ros2;
        var head := Read(s.fields[l], bs, slots[j]);
        ExtendedEnds(slots, bs, more, slots');
        if head.Some? { ReadsSpread(s, s', more, k + 1, l + 1, head.value.rest, slots[j := head.value.value], slots'[j := head.value.value]); }
      } else {
        NothingVisible(s, k, l);
        ReadsNothing(s, slots, bs);
        ReadsNothing(s', slots', bs);
        ExtendedEnds(slots, bs, more, slots');
      }
    }
  }

  /** The next field with bytes, or the end of the declaration. */
  lemma {:induction false} SkippedOwn(s: Schema, s': Schema, k: nat, from: nat, bs: seq<byte>, slots: seq<Value>) returns (l: nat)
    requires SpreadOf(s, s') && HasType2(s', Struct(slots)) && from <= |s.fields| && k <= |s.pairs21|
    requires Indices(DictionaryOrder(s.pairs21), |s.fields|) && SameVisible(s, k, from)
    ensures |s'.pairs21| == |s.fields| && l <= |s.fields| && SameVisible(s, k, l) && (l < |s.fields| ==> Width(s.fields[l]) > 0)
    ensures ReadFields(s', from, bs, slots) == ReadFields(s', l, bs, slots)
    decreases |s.fields| - from
  {
    hide Read, HasType2, WellFormed, Width, Covered, ReadFields, OwnPair, SpreadOf, SameVisible;
    SpreadShape(s, s');
    l := from;
    if l < |s.fields| && Width(s.fields[l]) == 0 {
      OwnIndex(s, s', l);
      SkippedRead(s', l, bs, slots);
      VisibleSkips(s, k, l);
      l := SkippedOwn(s, s', k, from + 1, bs, slots);
    }
  }

  /** The dictionary from position `k` on and the declaration from position `l` on have the same
      fields with bytes. */
  ghost predicate SameVisible(s: Schema, k: nat, l: nat)
    requires s.Record? && Indices(DictionaryOrder(s.pairs21), |s.fields|) && k <= |s.pairs21| && l <= |s.fields|
  {
    VisibleFrom(FieldWidths(s.fields), DictionaryOrder(s.pairs21), k) == VisibleFrom(FieldWidths(s.fields), Declared(|s.fields|), l)
  }

  lemma VisibleSkips(s: Schema, k: nat, l: nat)
    requires s.Record? && Indices(DictionaryOrder(s.pairs21), |s.fields|) && k <= |s.pairs21| && l <= |s.fields| && SameVisible(s, k, l)
    ensures k < |s.pairs21| && s.pairs21[k].ros1 < |s.fields| && Width(s.fields[s.pairs21[k].ros1]) == 0 ==> SameVisible(s, k + 1, l)
    ensures l < |s.fields| && Width(s.fields[l]) == 0 ==> SameVisible(s, k, l + 1)
  {
    hide Width, VisibleFrom;
    var widths, order, own := FieldWidths(s.fields), DictionaryOrder(s.pairs21), Declared(|s.fields|);
    if k < |order| && widths[order[k]] == 0 { SkipsInvisible(widths, order, k); }
    if l < |own| && widths[own[l]] == 0 { SkipsInvisible(widths, own, l); }
  }

  lemma ExtendedEnds(slots: seq<Value>, bs: seq<byte>, more: seq<Value>, slots': seq<Value>)
    requires Appended(slots, more, slots')
    ensures Extended(Some(Parsed(slots, bs)), more) == Some(Parsed(slots', bs)) && Extended(None, more) == None
  {
  }

  lemma SpreadShape(s: Schema, s': Schema)
    requires SpreadOf(s, s')
    ensures s.Record? && s'.Record? && WellFormed(s) && WellFormed(s') && s'.fields == s.fields && |s'.pairs21| == |s.fields|
    ensures forall i | 0 <= i < |s.fields| :: Covered(s.fields[i])
    ensures forall k | 0 <= k < |s.pairs21| :: s.pairs21[k].ros1 < |s.fields|
  {
    hide WellFormed, Covered, OwnPair;
  }

  lemma OwnIndex(s: Schema, s': Schema, l: nat)
    requires SpreadOf(s, s') && l < |s.fields|
    ensures OwnPair(s, s', l) && s.pairs12[l].ros1 == s'.pairs12[l].ros1 == s'.pairs21[l].ros1 == l
  {
    hide Width, WellFormed, Covered;
  }

  /** At fields with bytes, these are the same. */
  lemma SameNext(s: Schema, k: nat, l: nat)
    requires s.Record? && Indices(DictionaryOrder(s.pairs21), |s.fields|) && k < |s.pairs21| && l <= |s.fields| && SameVisible(s, k, l)
    requires s.pairs21[k].ros1 < |s.fields| && Width(s.fields[s.pairs21[k].ros1]) > 0 && (l < |s.fields| ==> Width(s.fields[l]) > 0)
    ensures l < |s.fields| && s.pairs21[k].ros1 == l && SameVisible(s, k + 1, l + 1)
  {
    hide Width;
    var widths, a, b := FieldWidths(s.fields), DictionaryOrder(s.pairs21), Declared(|s.fields|);
    var tail := VisibleFrom(widths, a, k + 1);
    assert VisibleFrom(widths, a, k) == [a[k]] + tail;
    if l < |b| {
      var tail' := VisibleFrom(widths, b, l + 1);
      assert VisibleFrom(widths, b, l) == [b[l]] + tail';
      assert ([a[k]] + tail)[0] == ([b[l]] + tail')[0];
      assert ([a[k]] + tail)[1..] == tail && ([b[l]] + tail')[1..] == tail';
    }
  }

  lemma NothingVisible(s: Schema, k: nat, l: nat)
    requires s.Record? && Indices(DictionaryOrder(s.pairs21), |s.fields|) && k == |s.pairs21| && l <= |s.fields| && SameVisible(s, k, l)
    requires l < |s.fields| ==> Width(s.fields[l]) > 0
    ensures l == |s.fields|
  {
    hide Width;
  }

  lemma ReadsNothing(s: Schema, slots: seq<Value>, bs: seq<byte>)
    requires s.Record? && WellFormed(s) && HasType2(s, Struct(slots))
    ensures ReadFields(s, |s.pairs21|, bs, slots) == Some(Parsed(slots, bs))
  {
    hide HasType2, WellFormed;
  }

  /** The same field is read into the same member. */
  lemma ReadsSame(s: Schema, s': Schema, more: seq<Value>, k: nat, l: nat, bs: seq<byte>, slots: seq<Value>, slots': seq<Value>)
    requires SpreadOf(s, s') && k < |s.pairs21| && l < |s.fields| && HasType2(s, Struct(slots)) && HasType2(s', Struct(slots'))
    requires s.pairs21[k].ros1 == l && Width(s.fields[l]) > 0 && Appended(slots, more, slots')
    ensures s.pairs21[k].ros2 < |slots| <= |slots'| && WellFormed(s.fields[l]) && HasType2(s.fields[l], slots[s.pairs21[k].ros2])
    ensures var j := s.pairs21[k].ros2; var head := Read(s.fields[l], bs, slots[j]);
            if head.None? then ReadFields(s, k, bs, slots) == None && ReadFields(s', l, bs, slots') == None
            else
              var u, u' := slots[j := head.value.value], slots'[j := head.value.value];
              && HasType2(s, Struct(u)) && HasType2(s', Struct(u')) && Appended(u, more, u')
              && ReadFields(s, k, bs, slots) == ReadFields(s, k + 1, head.value.rest, u)
              && ReadFields(s', l, bs, slots') == ReadFields(s', l + 1, head.value.rest, u')
  {
    assert OwnPair(s, s', l);
    hide Read, HasType2, WellFormed, Width, Covered, ReadFields, Appended;
    var j := s.pairs21[k].ros2;
    ReadStep(s, k, bs, slots);
    ReadStep(s', l, bs, slots');
    hide SpreadOf, OwnPair;
    var head := Read(s.fields[l], bs, slots[j]);
    AppendedUpdate(slots, more, slots', j, if head.Some? then head.value.value else Num(0));
  }

  /** The conversion from position `k` on. */
  lemma {:induction false} ConvertsSpread(s: Schema, s': Schema, more: seq<Value>, k: nat, vs: seq<Value>, slots: seq<Value>)
    requires SpreadOf(s, s') && k <= |s.fields| && HasType2(s, Struct(slots)) && HasType2(s', Struct(slots + more))
    requires FieldsHaveType1(s.fields, vs)
    ensures var r := FieldsTo2(s, k, vs, slots);
            FieldsTo2(s', k, vs, slots + more) == if r.None? then None else Some(r.value + more)
    decreases |s.fields| - k
  {
    hide To2, HasType1, HasType2, WellFormed, Width, Covered, FieldsTo2, OwnPair;
    if k == |s.fields| {
      ConvertsNothing(s, vs, slots);
      ConvertsNothing(s', vs, slots + more);
    } else {
      OwnIndex(s, s', k);
      ConvertStep(s, k, vs, slots);
      ConvertStep(s', k, vs, slots + more);
      var f, j, j' := s.fields[k], s.pairs12[k].ros2, s'.pairs12[k].ros2;
      if Width(f) == 0 {
        NoWidthConverts(f, vs[k], slots[j]);
        NoWidthConverts(f, vs[k], (slots + more)[j']);
        Restored(slots, j);
        Restored(slots + more, j');
        ConvertsSpread(s, s', more, k + 1, vs, slots);
      } else {
        var head := To2(f, vs[k], slots[j]);
        SamePartner(s, s', k);
        AppendedUpdate(slots, more, slots + more, j, if head.Some? then head.value else Num(0));
        if head.Some? { ConvertsSpread(s, s', more, k + 1, vs, slots[j := head.value]); }
      }
    }
  }

  lemma Restored(slots: seq<Value>, j: nat)
    requires j < |slots|
    ensures slots[j := slots[j]] == slots
  {
  }

  lemma SamePartner(s: Schema, s': Schema, l: nat)
    requires SpreadOf(s, s') && l < |s.fields| && Width(s.fields[l]) > 0
    ensures s'.pairs12[l] == s.pairs12[l]
  {
    assert OwnPair(s, s', l);
    hide SpreadOf, Width;
  }

  lemma ConvertStep(s: Schema, k: nat, vs: seq<Value>, slots: seq<Value>)
    requires s.Record? && WellFormed(s) && HasType2(s, Struct(slots)) && FieldsHaveType1(s.fields, vs)
    requires k < |s.pairs12| && s.pairs12[k].ros1 == k < |s.fields|
    ensures s.pairs12[k].ros2 < |slots| && WellFormed(s.fields[k]) && HasType2(s.fields[k], slots[s.pairs12[k].ros2])
    ensures var j := s.pairs12[k].ros2; var head := To2(s.fields[k], vs[k], slots[j]);
            if head.None? then FieldsTo2(s, k, vs, slots).None?
            else HasType2(s, Struct(slots[j := head.value])) &&
                 FieldsTo2(s, k, vs, slots) == FieldsTo2(s, k + 1, vs, slots[j := head.value])
  {
    hide To2, HasType1, HasType2, WellFormed;
    MemberTyped(s, slots, s.pairs12[k]);
    var head := To2(s.fields[k], vs[k], slots[s.pairs12[k].ros2]);
    if head.Some? { StoreMember(s, slots, s.pairs12[k], head.value); }
  }

  lemma ConvertsNothing(s: Schema, vs: seq<Value>, slots: seq<Value>)
    requires s.Record? && WellFormed(s) && HasType2(s, Struct(slots)) && FieldsHaveType1(s.fields, vs)
    ensures FieldsTo2(s, |s.pairs12|, vs, slots) == Some(slots)
  {
    hide HasType1, HasType2, WellFormed;
  }

  // ----- the two messages as a whole -----

  lemma SpreadIsSpread(s: Schema)
    requires Composed(s) && Aligned(s)
    ensures SpreadOf(s, Spread(s))
  {
    hide Width, Visible, WellFormed, Covered, Composed, Aligned, Spread, OwnPair, OwnPairs, HasType2;
    ComposedFields(s);
    SpreadIsCovered(s);
    SpreadIs(s);
    NamedPartners(s);
    forall l | 0 <= l < |s.fields| ensures OwnPair(s, Spread(s), l) {
      SpreadPair(s, l);
    }
  }

  lemma NamedPartners(s: Schema)
    requires Composed(s) && Aligned(s)
    ensures |s.pairs12| == |s.fields|
    ensures forall k | 0 <= k < |s.pairs21| :: s.pairs21[k].ros1 < |s.fields| && s.pairs21[k] == s.pairs12[s.pairs21[k].ros1]
  {
    hide Width, Visible, WellFormed, Covered, Composed;
    ComposedFields(s);
    forall k | 0 <= k < |s.pairs21| ensures s.pairs21[k].ros1 < |s.fields| && s.pairs21[k] == s.pairs12[s.pairs21[k].ros1] {
      assert DictionaryOrder(s.pairs21)[k] == s.pairs21[k].ros1;
    }
  }

  lemma SpreadPair(s: Schema, l: nat)
    requires Composed(s) && Aligned(s) && l < |s.fields| == |s.pairs12| && |Spread(s).pairs12| == |s.fields|
    ensures OwnPair(s, Spread(s), l)
  {
    hide Width, Visible, WellFormed, Covered, Composed, Spread;
    SpreadIs(s);
  }

  lemma RecordRead(s: Schema, bs: seq<byte>, slots: seq<Value>)
    requires s.Record? && WellFormed(s) && HasType2(s, Struct(slots)) && !FieldMissing(s.fields, s.pairs12)
    ensures var r := ReadFields(s, 0, bs, slots);
            Read(s, bs, Struct(slots)) == if r.None? then None else Some(Parsed(Struct(r.value.value), r.value.rest))
  {
    hide ReadFields, WellFormed;
  }

  lemma AllListed(s: Schema)
    requires s.Record? && |s.pairs12| == |s.fields| && forall i | 0 <= i < |s.fields| :: s.pairs12[i].ros1 == i
    ensures !FieldMissing(s.fields, s.pairs12)
  {
    forall i | 0 <= i < |s.fields| ensures Mentions(s.pairs12, i) {
      assert s.pairs12[i].ros1 == i;
    }
  }

  /** With a member more for every field, at the end of the slots. */
  function With(r: Option<Parsed<Value>>, more: seq<Value>): Option<Parsed<Value>>
  {
    if r.Some? && r.value.value.Struct? then Some(Parsed(Struct(r.value.value.slots + more), r.value.rest)) else r
  }

  lemma SpreadReads(s: Schema, s': Schema, more: seq<Value>, bs: seq<byte>, slots: seq<Value>)
    requires SpreadOf(s, s') && HasType2(s, Struct(slots)) && HasType2(s', Struct(slots + more))
    requires Indices(DictionaryOrder(s.pairs21), |s.fields|)
    requires Visible(FieldWidths(s.fields), DictionaryOrder(s.pairs21)) == Visible(FieldWidths(s.fields), Declared(|s.fields|))
    ensures Read(s', bs, Struct(slots + more)) == With(Read(s, bs, Struct(slots)), more)
  {
    hide Read, HasType2, WellFormed, Width, Covered, ReadFields, SpreadOf, FieldMissing, Visible, VisibleFrom;
    SpreadShape(s, s');
    NothingMissing(s, s');
    VisibleFromStart(FieldWidths(s.fields), DictionaryOrder(s.pairs21));
    VisibleFromStart(FieldWidths(s.fields), Declared(|s.fields|));
    ReadsSpread(s, s', more, 0, 0, bs, slots, slots + more);
    RecordRead(s, bs, slots);
    RecordRead(s', bs, slots + more);
  }

  lemma NothingMissing(s: Schema, s': Schema)
    requires SpreadOf(s, s')
    ensures !FieldMissing(s.fields, s.pairs12) && !FieldMissing(s'.fields, s'.pairs12)
  {
    hide WellFormed, Covered, Width, FieldMissing;
    forall i | 0 <= i < |s.fields| ensures s.pairs12[i].ros1 == s'.pairs12[i].ros1 == i {
      assert OwnPair(s, s', i);
    }
    AllListed(s);
    AllListed(s');
  }

  lemma SpreadConverts(s: Schema, s': Schema, more: seq<Value>, bs: seq<byte>, slots: seq<Value>)
    requires SpreadOf(s, s') && HasType2(s, Struct(slots)) && HasType2(s', Struct(slots + more))
    ensures ParseAndConvert(s', bs, Struct(slots + more)) == With(ParseAndConvert(s, bs, Struct(slots)), more)
    ensures Dec1(s', bs) == Dec1(s, bs)
  {
    SpreadShape(s, s');
    SameParse(s, s', bs);
    if Dec1(s, bs).Some? {
      var v1 := Dec1(s, bs).value.value;
      hide Dec1, To2, HasType1, HasType2, WellFormed, SpreadOf, FieldsTo2;
      RecordConverts(s, v1, Struct(slots));
      RecordConverts(s', v1, Struct(slots + more));
      ConvertsSpread(s, s', more, 0, v1.slots, slots);
    }
  }

  lemma SameParse(s: Schema, s': Schema, bs: seq<byte>)
    requires s.Record? && s'.Record? && WellFormed(s) && WellFormed(s') && s.fields == s'.fields
    ensures Dec1(s, bs) == Dec1(s', bs)
  {
    hide DecFields;
  }

  lemma WithIsInjective(a: Option<Parsed<Value>>, b: Option<Parsed<Value>>, more: seq<Value>)
    requires a.Some? ==> a.value.value.Struct?
    requires b.Some? ==> b.value.value.Struct?
    ensures With(a, more) == With(b, more) <==> a == b
  {
    if a.Some? && b.Some? {
      var x, y := a.value.value.slots, b.value.value.slots;
      if x + more == y + more {
        assert |x + more| == |x| + |more| && |y + more| == |y| + |more|;
        assert x == (x + more)[..|x|] && y == (y + more)[..|y|];
      }
    }
  }

  /** Aligned dictionaries make the second diagram hold. */
  lemma AlignedReadsAgree(s: Schema)
    requires Composed(s) && Aligned(s)
    ensures WellFormed(s) && ReadsAgree(s)
  {
    ComposedFields(s);
    SpreadIsCovered(s);
    SpreadIsSpread(s);
    hide Read, Dec1, HasType2, Composed, Aligned, WellFormed, Covered, Spread, SpreadOf, Fits1;
    forall bs, t2 | HasType2(s, t2) && (Dec1(s, bs).Some? ==> Fits1(s, Dec1(s, bs).value.value))
      ensures Read(s, bs, t2) == ParseAndConvert(s, bs, t2)
    {
      AlignedReadAgrees(s, bs, t2);
    }
  }

  lemma AlignedReadAgrees(s: Schema, bs: seq<byte>, t2: Value)
    requires Composed(s) && Aligned(s) && WellFormed(s) && SpreadOf(s, Spread(s)) && Covered(Spread(s)) && HasType2(s, t2)
    requires Dec1(s, bs).Some? ==> Fits1(s, Dec1(s, bs).value.value)
    ensures Read(s, bs, t2) == ParseAndConvert(s, bs, t2)
  {
    var s', more := Spread(s), Extras(s.fields);
    AreStructs(s, bs, t2);
    SpreadTyped(s, t2.slots);
    SpreadReads(s, s', more, bs, t2.slots);
    hide Read, ParseAndConvert, Dec1, HasType2, Composed, Aligned, WellFormed, Covered, Spread, SpreadOf, Extras, With;
    SpreadConverts(s, s', more, bs, t2.slots);
    if Dec1(s, bs).Some? { SameFit(s, s', Dec1(s, bs).value.value); }
    hide Fits1;
    DirectReadIsParseAndConvert(s', bs, Struct(t2.slots + more));
    WithIsInjective(Read(s, bs, t2), ParseAndConvert(s, bs, t2), more);
  }

  lemma SameFit(s: Schema, s': Schema, v: Value)
    requires SpreadOf(s, s') && HasType1(s, v)
    ensures HasType1(s', v) && (Fits1(s, v) <==> Fits1(s', v))
  {
    hide SpreadOf;
    SpreadShape(s, s');
  }

  lemma AreStructs(s: Schema, bs: seq<byte>, t2: Value)
    requires s.Record? && WellFormed(s) && HasType2(s, t2)
    ensures t2.Struct?
    ensures Read(s, bs, t2).Some? ==> Read(s, bs, t2).value.value.Struct?
    ensures ParseAndConvert(s, bs, t2).Some? ==> ParseAndConvert(s, bs, t2).value.value.Struct?
  {
  }

  // ----- names -----

  lemma NamesAreAligned(fields: seq<string>, members: seq<Member>, types: seq<Schema>, defaults: seq<Value>)
    requires Unflagged(fields, members, types, defaults) && AllCovered(types) && CollisionsAreEmpty(fields, types)
    ensures var s := NameBased(fields, members, types, defaults); Composed(s) && Aligned(s)
  {
    var s := NameBased(fields, members, types, defaults);
    assert s.fields == types && |types| == |fields|;
    NameBasedIsComposed(fields, members, types, defaults);
    NameBasedPairs(fields, members, types, defaults);
    EmptyCollisionsAreInvisible(fields, members, types, defaults);
    PairsAgree(fields, members, types, defaults);
    hide *;
    SameWidths(s);
    AlignedByParts(s);
  }

  lemma SameWidths(s: Schema)
    requires s.Record?
    ensures Widths(Parts(s)) == FieldWidths(s.fields)
  {
    hide Width, CanVary, DictionaryOrder;
  }

  lemma AlignedByParts(s: Schema)
    requires Composed(s) && |s.pairs12| == |s.fields| && forall i | 0 <= i < |s.fields| :: s.pairs12[i].ros1 == i
    requires forall k | 0 <= k < |s.pairs21| :: s.pairs21[k].ros1 < |s.pairs12| && s.pairs21[k] == s.pairs12[s.pairs21[k].ros1]
    requires Indices(DictionaryOrder(s.pairs21), |s.fields|)
    requires Visible(FieldWidths(s.fields), DictionaryOrder(s.pairs21)) == Visible(FieldWidths(s.fields), Declared(|s.fields|))
    ensures Aligned(s)
  {
    hide Composed, Visible, FieldWidths, Declared;
  }

  lemma PairsAgree(fields: seq<string>, members: seq<Member>, types: seq<Schema>, defaults: seq<Value>)
    requires DistinctNames(fields) && !SomeLeftOver([], members, fields)
    ensures var s := NameBased(fields, members, types, defaults);
            forall k | 0 <= k < |s.pairs21| :: s.pairs21[k].ros1 < |s.pairs12| && s.pairs21[k] == s.pairs12[s.pairs21[k].ros1]
  {
    var s := NameBased(fields, members, types, defaults);
    NameBasedPairs(fields, members, types, defaults);
    EveryEntryIsLast(fields, members, |fields|);
    hide NameBased, MatchOf, DictionaryAfter, OrderAfter, MemberAt, FieldAt;
    var d, order := DictionaryAfter(fields, members, |fields|), OrderAfter(fields, members, |fields|);
    forall k | 0 <= k < |d| ensures s.pairs21[k].ros1 < |fields| && s.pairs21[k] == s.pairs12[s.pairs21[k].ros1] {
      assert LastFor(fields, members, d[k], order[k], |fields|);
      FieldAtName(fields, order[k]);
    }
  }

  /** For a name-based mapping without the missing-field flag, a direct read agrees with parsing and
      converting, for all targets and all byte strings, if and only if ROS 1 names that differ only in
      case belong to fields without bytes; if not, there is a byte string, the direct stream of a blank
      message, that is read into every target but that ROS 1 cannot parse. */
  lemma NameBasedReadIff(fields: seq<string>, members: seq<Member>, types: seq<Schema>, defaults: seq<Value>)
    requires Unflagged(fields, members, types, defaults) && AllCovered(types)
    ensures var s := NameBased(fields, members, types, defaults);
            && (ReadsAgree(s) <==> CollisionsAreEmpty(fields, types))
            && (!CollisionsAreEmpty(fields, types) ==> ReadsUnparseable(s))
  {
    var s := NameBased(fields, members, types, defaults);
    if CollisionsAreEmpty(fields, types) {
      NamesAreAligned(fields, members, types, defaults);
      hide *;
      AlignedReadsAgree(s);
    } else {
      NameBasedIsComposed(fields, members, types, defaults);
      assert s.fields == types && |types| == |fields|;
      var i := CollidingField(fields, members, types);
      hide *;
      LeftOutFieldBreaksRead(s, i);
    }
  }

  lemma CollidingField(fields: seq<string>, members: seq<Member>, types: seq<Schema>) returns (i: nat)
    requires AllMatched(fields, members) && |types| == |fields| && !CollisionsAreEmpty(fields, types)
    ensures i < |types| && Width(types[i]) > 0 && i !in OrderAfter(fields, members, |fields|)
  {
    hide OrderAfter, Width, AllMatched;
    var l, j :| 0 <= l < j < |fields| && Lower(fields[l]) == Lower(fields[j]) && Width(types[l]) != 0;
    ColliderIsLeftOut(fields, members, l, j);
    i := l;
  }
}
