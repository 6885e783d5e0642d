/** Converting a message to the other side and back. */
module RoundTrip {
  import opened Wrappers
  import opened LittleEndian
  import opened Schema
  import opened Conversion

  // ----- reference definitions -----

  /** The ROS 1 message with every Header `seq` zeroed and every `bool` byte clamped to 0 or 1,
      at any depth. */
  function Normal(s: Schema, v: Value): (r: Value)
    requires HasType1(s, v)
    ensures HasType1(s, r)
    decreases s, 0
  {
    match s
    case Bool => Num(if v.n == 0 then 0 else 1)
    case Header => Struct(v.slots[0 := Num(0)])
    case Sequence(e, _) => List(NormalElems(e, v.elems))
    case Array(e, _) => List(NormalElems(e, v.elems))
    case Record(fs, _, _, _) => Struct(NormalFields(fs, v.slots))
    case _ => v
  }

  function NormalElems(e: Schema, vs: seq<Value>): (r: seq<Value>)
    requires ElemsHaveType1(e, vs)
    ensures |r| == |vs| && forall i | 0 <= i < |vs| :: HasType1(e, r[i]) && r[i] == Normal(e, vs[i])
    decreases e, 1
  {
    seq(|vs|, i requires 0 <= i < |vs| => Normal(e, vs[i]))
  }

  function NormalFields(fs: seq<Schema>, vs: seq<Value>): (r: seq<Value>)
    requires FieldsHaveType1(fs, vs)
    ensures |r| == |fs| && forall i | 0 <= i < |fs| :: HasType1(fs[i], r[i]) && r[i] == Normal(fs[i], vs[i])
    decreases fs, 1
  {
    seq(|fs|, i requires 0 <= i < |fs| => Normal(fs[i], vs[i]))
  }

  /** Every Header `seq` is zero and every `bool` byte is 0 or 1. */
  predicate Canonical(s: Schema, v: Value)
    requires HasType1(s, v)
    decreases s
  {
    match s
    case Bool => v.n < 2
    case Header => v.slots[0].n == 0
    case Sequence(e, _) => forall i | 0 <= i < |v.elems| :: Canonical(e, v.elems[i])
    case Array(e, _) => forall i | 0 <= i < |v.elems| :: Canonical(e, v.elems[i])
    case Record(fs, _, _, _) => forall i | 0 <= i < |fs| :: Canonical(fs[i], v.slots[i])
    case _ => true
  }

  /** No sequence is longer than the bound of its ROS 2 partner. */
  predicate WithinBounds(s: Schema, v: Value)
    requires HasType1(s, v)
    decreases s
  {
    match s
    case Sequence(e, b) =>
      (b.Some? ==> |v.elems| <= b.value) && forall i | 0 <= i < |v.elems| :: WithinBounds(e, v.elems[i])
    case Array(e, _) => forall i | 0 <= i < |v.elems| :: WithinBounds(e, v.elems[i])
    case Record(fs, _, _, _) => forall i | 0 <= i < |fs| :: WithinBounds(fs[i], v.slots[i])
    case _ => true
  }

  predicate Partner(pairs: seq<Pair>, j: nat) {
    exists k | 0 <= k < |pairs| :: pairs[k].ros2 == j
  }

  /** `r` carries every matched member of `v2` and, for the members without a ROS 1 partner, the
      value that the target `t2` already had; elements that the target did not have start from
      a default-constructed message. */
  ghost predicate Restores(s: Schema, v2: Value, t2: Value, r: Value)
    requires WellFormed(s) && HasType2(s, v2) && HasType2(s, t2) && HasType2(s, r)
    decreases s, 0
  {
    match s
    case Sequence(e, _) =>
      |r.elems| == |v2.elems| && RestoresElems(e, v2.elems, Resized(t2.elems, |v2.elems|, Fresh2(e)), r.elems)
    case Array(e, _) => RestoresElems(e, v2.elems, t2.elems, r.elems)
    case Record(_, _, _, _) => RestoresFields(s, v2.slots, t2.slots, r.slots)
    case _ => r == v2
  }

  ghost predicate RestoresElems(e: Schema, vs: seq<Value>, ts: seq<Value>, r: seq<Value>)
    requires WellFormed(e) && |vs| == |ts| == |r|
    requires ElemsHaveType2(e, vs) && ElemsHaveType2(e, ts) && ElemsHaveType2(e, r)
    decreases e, 1
  {
    forall i | 0 <= i < |vs| :: Restores(e, vs[i], ts[i], r[i])
  }

  ghost predicate RestoresFields(s: Schema, slots2: seq<Value>, ts: seq<Value>, r: seq<Value>)
    requires s.Record? && WellFormed(s)
    requires HasType2(s, Struct(slots2)) && HasType2(s, Struct(ts)) && HasType2(s, Struct(r))
    decreases s.fields, 1
  {
    var p := s.pairs21;
    && (forall k | 0 <= k < |p| ::
          Restores(s.fields[p[k].ros1], slots2[p[k].ros2], ts[p[k].ros2], r[p[k].ros2]))
    && (forall j | 0 <= j < |r| && !Partner(p, j) :: r[j] == ts[j])
  }

  // ----- the loops of the two conversions, element by element -----

  lemma {:induction false} FieldsTo1At(fs: seq<Schema>, pairs: seq<Pair>, k: nat, slots2: seq<Value>, slots1: seq<Value>)
    requires k <= |pairs| && Covering(fs, pairs)
    requires forall i | 0 <= i < |fs| :: WellFormed(fs[i])
    requires MembersHaveType2(fs, pairs, slots2) && FieldsHaveType1(fs, slots1)
    ensures forall i | 0 <= i < k :: FieldsTo1(fs, pairs, k, slots2, slots1)[i] == slots1[i]
    ensures forall i | k <= i < |fs| ::
              FieldsTo1(fs, pairs, k, slots2, slots1)[i] == To1(fs[i], slots2[pairs[i].ros2], slots1[i])
    decreases |pairs| - k
  {
    hide To1, HasType1, HasType2, WellFormed;
    if k < |pairs| {
      var slots1' := slots1[k := To1(fs[k], slots2[pairs[k].ros2], slots1[k])];
      FieldsTo1At(fs, pairs, k + 1, slots2, slots1');
    }
  }

  lemma {:induction false} ElemsTo2At(e: Schema, vs: seq<Value>, ts: seq<Value>, k: nat)
    requires WellFormed(e) && k <= |vs| == |ts| && ElemsHaveType1(e, vs) && ElemsHaveType2(e, ts)
    ensures ElemsTo2(e, vs, ts, k).Some? <==> forall i | k <= i < |vs| :: To2(e, vs[i], ts[i]).Some?
    ensures ElemsTo2(e, vs, ts, k).Some? ==> forall i | k <= i < |vs| ::
              To2(e, vs[i], ts[i]) == Some(ElemsTo2(e, vs, ts, k).value[i - k])
    decreases |vs| - k
  {
    hide To2, HasType1, HasType2, WellFormed;
    if k < |vs| {
      ElemsTo2At(e, vs, ts, k + 1);
    }
  }

  /** All elements at once. */
  lemma ElemsTo2Each(e: Schema, vs: seq<Value>, ts: seq<Value>)
    requires WellFormed(e) && |vs| == |ts| && ElemsHaveType1(e, vs) && ElemsHaveType2(e, ts)
    ensures ElemsTo2(e, vs, ts, 0).Some? <==> forall i | 0 <= i < |vs| :: To2(e, vs[i], ts[i]).Some?
    ensures ElemsTo2(e, vs, ts, 0).Some? ==>
              forall i | 0 <= i < |vs| :: To2(e, vs[i], ts[i]) == Some(ElemsTo2(e, vs, ts, 0).value[i])
  {
    hide To2, HasType1, HasType2, WellFormed, ElemsTo2;
    ElemsTo2At(e, vs, ts, 0);
    if ElemsTo2(e, vs, ts, 0).Some? {
      var r := ElemsTo2(e, vs, ts, 0).value;
      forall i | 0 <= i < |vs| ensures To2(e, vs[i], ts[i]) == Some(r[i]) {
        assert r[i - 0] == r[i];
      }
    }
  }

  /** Field `i` of `slots1` converted over its partner in `slots2`. */
  function FieldTo2(s: Schema, i: nat, slots1: seq<Value>, slots2: seq<Value>): Option<Value>
    requires s.Record? && i < |s.fields| && WellFormed(s) && Covering(s.fields, s.pairs12)
    requires FieldsHaveType1(s.fields, slots1) && HasType2(s, Struct(slots2))
  {
    To2(s.fields[i], slots1[i], slots2[s.pairs12[i].ros2])
  }

  lemma {:induction false} FieldsTo2At(s: Schema, k: nat, slots1: seq<Value>, slots2: seq<Value>)
    requires s.Record? && k <= |s.pairs12| && WellFormed(s) && Covering(s.fields, s.pairs12)
    requires FieldsHaveType1(s.fields, slots1) && HasType2(s, Struct(slots2))
    ensures var r := FieldsTo2(s, k, slots1, slots2);
            && (r.Some? <==> forall i | k <= i < |s.fields| :: FieldTo2(s, i, slots1, slots2).Some?)
            && (r.Some? ==> forall i | k <= i < |s.fields| ::
                  FieldTo2(s, i, slots1, slots2) == Some(r.value[s.pairs12[i].ros2]))
            && (r.Some? ==> forall j | 0 <= j < |slots2| && !Partner(s.pairs12[k..], j) :: r.value[j] == slots2[j])
    decreases |s.pairs12| - k
  {
    hide To2, HasType1, HasType2, WellFormed;
    if k < |s.pairs12| {
      MemberTyped(s, slots2, s.pairs12[k]);
      var j := s.pairs12[k].ros2;
      var head := To2(s.fields[k], slots1[k], slots2[j]);
      assert head == FieldTo2(s, k, slots1, slots2);
      if head.Some? {
        StoreMember(s, slots2, s.pairs12[k], head.value);
        var slots2' := slots2[j := head.value];
        FieldsTo2At(s, k + 1, slots1, slots2');
        forall i | k < i < |s.fields| ensures FieldTo2(s, i, slots1, slots2') == FieldTo2(s, i, slots1, slots2) {
          MemberTyped(s, slots2, s.pairs12[i]);
        }
        PartnerOfRest(s.pairs12, k);
      }
    }
  }

  lemma PartnerOfRest(pairs: seq<Pair>, k: nat)
    requires k < |pairs|
    ensures forall j :: Partner(pairs[k..], j) <==> j == pairs[k].ros2 || Partner(pairs[k + 1..], j)
  {
    var all, rest := pairs[k..], pairs[k + 1..];
    forall j ensures Partner(all, j) <==> j == pairs[k].ros2 || Partner(rest, j) {
      if Partner(rest, j) {
        var l :| 0 <= l < |rest| && rest[l].ros2 == j;
        assert all[l + 1].ros2 == j;
      }
      if j == pairs[k].ros2 {
        assert all[0].ros2 == j;
      }
      if Partner(all, j) && j != pairs[k].ros2 {
        var l :| 0 <= l < |all| && all[l].ros2 == j;
        assert rest[l - 1].ros2 == j;
      }
    }
  }

  // ----- ROS 1 to ROS 2 and back -----

  /** The conversion to ROS 2 is refused exactly when a bounded sequence is exceeded. */
  lemma {:induction false} ConvertsIffWithinBounds(s: Schema, v1: Value, t2: Value)
    requires WellFormed(s) && Covered(s) && HasType1(s, v1) && HasType2(s, t2)
    ensures To2(s, v1, t2).Some? <==> WithinBounds(s, v1)
    decreases s, 0
  {
    match s
    case Sequence(e, b) =>
      if !(b.Some? && |v1.elems| > b.value) {
        ElemsWithinBounds(e, v1.elems, Resized(t2.elems, |v1.elems|, Fresh2(e)));
      }
    case Array(e, n) =>
      ElemsWithinBounds(e, v1.elems, t2.elems);
    case Record(fs, _, _, _) =>
      FieldsWithinBounds(s, v1.slots, t2.slots);
    case _ =>
  }

  lemma ElemsWithinBounds(e: Schema, vs: seq<Value>, ts: seq<Value>)
    requires WellFormed(e) && Covered(e) && |vs| == |ts| && ElemsHaveType1(e, vs) && ElemsHaveType2(e, ts)
    ensures ElemsTo2(e, vs, ts, 0).Some? <==> forall i | 0 <= i < |vs| :: WithinBounds(e, vs[i])
    decreases e, 1
  {
    hide To2, HasType1, HasType2, WellFormed, Covered, WithinBounds, ElemsTo2;
    ElemsTo2At(e, vs, ts, 0);
    forall i | 0 <= i < |vs| ensures To2(e, vs[i], ts[i]).Some? <==> WithinBounds(e, vs[i]) {
      ConvertsIffWithinBounds(e, vs[i], ts[i]);
    }
  }

  lemma FieldsWithinBounds(s: Schema, slots1: seq<Value>, slots2: seq<Value>)
    requires s.Record? && WellFormed(s) && Covered(s)
    requires FieldsHaveType1(s.fields, slots1) && HasType2(s, Struct(slots2))
    ensures FieldsTo2(s, 0, slots1, slots2).Some? <==> forall i | 0 <= i < |s.fields| :: WithinBounds(s.fields[i], slots1[i])
    decreases s.fields, 1
  {
    hide To2, HasType1, HasType2, WellFormed, WithinBounds, FieldsTo2;
    FieldsTo2At(s, 0, slots1, slots2);
    forall i | 0 <= i < |s.fields| ensures FieldTo2(s, i, slots1, slots2).Some? <==> WithinBounds(s.fields[i], slots1[i]) {
      MemberTyped(s, slots2, s.pairs12[i]);
      ConvertsIffWithinBounds(s.fields[i], slots1[i], slots2[s.pairs12[i].ros2]);
    }
  }

  /** The value round trip, for every ROS 1 message that ROS 2 can hold. */
  lemma {:induction false} ThereAndBack1(s: Schema, v1: Value, t2: Value)
    requires WellFormed(s) && Covered(s) && HasType1(s, v1) && HasType2(s, t2)
    requires To2(s, v1, t2).Some?
    ensures To1(s, To2(s, v1, t2).value, Fresh1(s)) == Normal(s, v1)
    decreases s, 0
  {
    hide ElemsTo1, ElemsTo2, FieldsTo1, FieldsTo2, NormalElems, NormalFields;
    match s
    case Time => Reinterpret(v1.sec);
    case Duration => Reinterpret(v1.nsec);
    case Header => Reinterpret(v1.slots[1].sec);
    case Sequence(e, _) =>
      ElemsBack1(e, v1.elems, Resized(t2.elems, |v1.elems|, Fresh2(e)), Resized([], |v1.elems|, Fresh1(e)));
    case Array(e, n) =>
      ElemsBack1(e, v1.elems, t2.elems, Copies(n, Fresh1(e)));
    case Record(fs, _, _, _) =>
      FieldsBack1(s, v1.slots, t2.slots, Fresh1(s).slots);
    case _ =>
  }

  lemma ElemsBack1(e: Schema, vs: seq<Value>, ts2: seq<Value>, ts1: seq<Value>)
    requires WellFormed(e) && Covered(e) && |vs| == |ts2| == |ts1|
    requires ElemsHaveType1(e, vs) && ElemsHaveType2(e, ts2)
    requires forall i | 0 <= i < |ts1| :: ts1[i] == Fresh1(e)
    requires ElemsTo2(e, vs, ts2, 0).Some?
    ensures ElemsHaveType1(e, ts1)
    ensures ElemsTo1(e, ElemsTo2(e, vs, ts2, 0).value, ts1) == NormalElems(e, vs)
    decreases e, 1
  {
    hide To1, To2, HasType1, HasType2, WellFormed, Covered, Normal, Fresh1, ElemsTo1, ElemsTo2, NormalElems;
    assert ElemsHaveType1(e, ts1);
    hide ElemsHaveType1, ElemsHaveType2;
    ElemsTo2Each(e, vs, ts2);
    var r := ElemsTo2(e, vs, ts2, 0).value;
    forall i | 0 <= i < |vs| ensures To1(e, r[i], ts1[i]) == Normal(e, vs[i]) {
      ThereAndBack1(e, vs[i], ts2[i]);
    }
  }

  lemma FieldsBack1(s: Schema, slots1: seq<Value>, slots2: seq<Value>, ts1: seq<Value>)
    requires s.Record? && WellFormed(s) && Covered(s)
    requires FieldsHaveType1(s.fields, slots1) && HasType2(s, Struct(slots2))
    requires |ts1| == |s.fields| && forall i | 0 <= i < |ts1| :: ts1[i] == Fresh1(s.fields[i])
    requires FieldsTo2(s, 0, slots1, slots2).Some?
    ensures FieldsHaveType1(s.fields, ts1)
    ensures var r := FieldsTo2(s, 0, slots1, slots2).value;
            MembersHaveType2(s.fields, s.pairs21, r) &&
            FieldsTo1(s.fields, s.pairs21, 0, r, ts1) == NormalFields(s.fields, slots1)
    decreases s.fields, 1
  {
    hide To1, To2, HasType1, HasType2, WellFormed, Normal, Fresh1, FieldsTo1, FieldsTo2;
    var fs, p := s.fields, s.pairs21;
    FieldsTo2At(s, 0, slots1, slots2);
    var r := FieldsTo2(s, 0, slots1, slots2).value;
    forall k | 0 <= k < |p| ensures k < |fs| && p[k].ros2 < |r| && WellFormed(fs[k]) && HasType2(fs[k], r[p[k].ros2]) {
      MemberTyped(s, r, p[k]);
    }
    FieldsTo1At(fs, p, 0, r, ts1);
    forall i | 0 <= i < |fs| ensures FieldsTo1(fs, p, 0, r, ts1)[i] == Normal(fs[i], slots1[i]) {
      MemberTyped(s, slots2, p[i]);
      assert FieldTo2(s, i, slots1, slots2) == Some(r[p[i].ros2]);
      ThereAndBack1(fs[i], slots1[i], slots2[p[i].ros2]);
    }
  }

  lemma {:induction false} NormalIffCanonical(s: Schema, v1: Value)
    requires HasType1(s, v1)
    ensures Normal(s, v1) == v1 <==> Canonical(s, v1)
    decreases s, 0
  {
    match s
    case Sequence(e, _) => NormalElemsIff(e, v1.elems);
    case Array(e, _) => NormalElemsIff(e, v1.elems);
    case Record(fs, _, _, _) =>
      var r := NormalFields(fs, v1.slots);
      forall i | 0 <= i < |fs| ensures r[i] == v1.slots[i] <==> Canonical(fs[i], v1.slots[i]) {
        NormalIffCanonical(fs[i], v1.slots[i]);
      }
      assert r == v1.slots <==> forall i | 0 <= i < |fs| :: r[i] == v1.slots[i];
    case _ =>
  }

  lemma NormalElemsIff(e: Schema, vs: seq<Value>)
    requires ElemsHaveType1(e, vs)
    ensures NormalElems(e, vs) == vs <==> forall i | 0 <= i < |vs| :: Canonical(e, vs[i])
    decreases e, 1
  {
    hide Normal, Canonical, HasType1;
    var r := NormalElems(e, vs);
    forall i | 0 <= i < |vs| ensures r[i] == vs[i] <==> Canonical(e, vs[i]) {
      NormalIffCanonical(e, vs[i]);
    }
    assert r == vs <==> forall i | 0 <= i < |vs| :: r[i] == vs[i];
  }

  /** Exactly when the value round trip is the identity. */
  lemma ValueRoundTrip(s: Schema, v1: Value)
    requires WellFormed(s) && Covered(s) && HasType1(s, v1)
    ensures To2(s, v1, Fresh2(s)).Some? <==> WithinBounds(s, v1)
    ensures WithinBounds(s, v1) ==>
              (To1(s, To2(s, v1, Fresh2(s)).value, Fresh1(s)) == v1 <==> Canonical(s, v1))
  {
    hide To1, To2, Normal, Canonical, WithinBounds, HasType1, HasType2, WellFormed, Covered;
    ConvertsIffWithinBounds(s, v1, Fresh2(s));
    if WithinBounds(s, v1) {
      ThereAndBack1(s, v1, Fresh2(s));
      NormalIffCanonical(s, v1);
    }
  }

  // ----- ROS 2 to ROS 1 and back -----

  lemma {:induction false} ThereAndBack2(s: Schema, v2: Value, t2: Value)
    requires WellFormed(s) && Covered(s) && HasType2(s, v2) && HasType2(s, t2)
    ensures var r := To2(s, To1(s, v2, Fresh1(s)), t2);
            r.Some? && Restores(s, v2, t2, r.value)
    decreases s, 0
  {
    hide ElemsTo1, ElemsTo2, FieldsTo1, FieldsTo2, RestoresElems, RestoresFields;
    match s
    case Time => Reinterpret(v2.sec);
    case Duration => Reinterpret(v2.nsec);
    case Header => Reinterpret(v2.slots[0].sec);
    case Sequence(e, _) =>
      ElemsBack2(e, v2.elems, Resized([], |v2.elems|, Fresh1(e)), Resized(t2.elems, |v2.elems|, Fresh2(e)));
    case Array(e, n) =>
      ElemsBack2(e, v2.elems, Copies(n, Fresh1(e)), t2.elems);
    case Record(fs, _, p, _) =>
      FieldsBack2(s, v2.slots, Fresh1(s).slots, t2.slots);
    case _ =>
  }

  lemma ElemsBack2(e: Schema, vs: seq<Value>, ts1: seq<Value>, ts2: seq<Value>)
    requires WellFormed(e) && Covered(e) && |vs| == |ts1| == |ts2|
    requires ElemsHaveType2(e, vs) && ElemsHaveType2(e, ts2)
    requires forall i | 0 <= i < |ts1| :: ts1[i] == Fresh1(e)
    ensures ElemsHaveType1(e, ts1)
    ensures var r := ElemsTo2(e, ElemsTo1(e, vs, ts1), ts2, 0);
            r.Some? && RestoresElems(e, vs, ts2, r.value)
    decreases e, 1
  {
    hide To1, To2, HasType1, HasType2, WellFormed, Covered, Restores, Fresh1, ElemsTo1, ElemsTo2;
    assert ElemsHaveType1(e, ts1);
    var ws := ElemsTo1(e, vs, ts1);
    hide ElemsHaveType1, ElemsHaveType2;
    ElemsTo2Each(e, ws, ts2);
    forall i | 0 <= i < |vs|
      ensures To2(e, ws[i], ts2[i]).Some? && Restores(e, vs[i], ts2[i], To2(e, ws[i], ts2[i]).value)
    {
      ThereAndBack2(e, vs[i], ts2[i]);
    }
  }

  lemma FieldsBack2(s: Schema, slots2: seq<Value>, ts1: seq<Value>, ts2: seq<Value>)
    requires s.Record? && WellFormed(s) && Covered(s)
    requires HasType2(s, Struct(slots2)) && HasType2(s, Struct(ts2))
    requires |ts1| == |s.fields| && forall i | 0 <= i < |ts1| :: ts1[i] == Fresh1(s.fields[i])
    ensures FieldsHaveType1(s.fields, ts1) && MembersHaveType2(s.fields, s.pairs21, slots2)
    ensures var r := FieldsTo2(s, 0, FieldsTo1(s.fields, s.pairs21, 0, slots2, ts1), ts2);
            r.Some? && RestoresFields(s, slots2, ts2, r.value)
    decreases s.fields, 1
  {
    hide To1, To2, HasType1, HasType2, WellFormed, Restores, Fresh1, FieldsTo1, FieldsTo2, RestoresFields;
    var fs, p := s.fields, s.pairs21;
    forall k | 0 <= k < |p| ensures k < |fs| && p[k].ros2 < |slots2| && WellFormed(fs[k]) && HasType2(fs[k], slots2[p[k].ros2]) {
      MemberTyped(s, slots2, p[k]);
    }
    var ws := FieldsTo1(fs, p, 0, slots2, ts1);
    FieldsTo1At(fs, p, 0, slots2, ts1);
    FieldsTo2At(s, 0, ws, ts2);
    forall i | 0 <= i < |fs| ensures FieldTo2(s, i, ws, ts2).Some? && FieldRestored(s, i, slots2, ts2, FieldTo2(s, i, ws, ts2).value) {
      MemberTyped(s, ts2, p[i]);
      ThereAndBack2(fs[i], slots2[p[i].ros2], ts2[p[i].ros2]);
    }
    FieldsRestored(s, slots2, ws, ts2);
  }

  /** `v` restores the partner of field `i`. */
  ghost predicate FieldRestored(s: Schema, i: nat, slots2: seq<Value>, ts2: seq<Value>, v: Value)
    requires s.Record? && WellFormed(s) && Covered(s) && i < |s.fields|
    requires HasType2(s, Struct(slots2)) && HasType2(s, Struct(ts2))
  {
    var j := s.pairs21[i].ros2;
    HasType2(s.fields[i], v) && Restores(s.fields[i], slots2[j], ts2[j], v)
  }

  lemma FieldsRestored(s: Schema, slots2: seq<Value>, ws: seq<Value>, ts2: seq<Value>)
    requires s.Record? && WellFormed(s) && Covered(s)
    requires HasType2(s, Struct(slots2)) && HasType2(s, Struct(ts2)) && FieldsHaveType1(s.fields, ws)
    requires forall i | 0 <= i < |s.fields| ::
               FieldTo2(s, i, ws, ts2).Some? && FieldRestored(s, i, slots2, ts2, FieldTo2(s, i, ws, ts2).value)
    ensures var r := FieldsTo2(s, 0, ws, ts2); r.Some? && RestoresFields(s, slots2, ts2, r.value)
  {
    hide To2, HasType1, Restores, FieldsTo2, FieldTo2;
    FieldsTo2At(s, 0, ws, ts2);
    var p, r := s.pairs21, FieldsTo2(s, 0, ws, ts2).value;
    forall k | 0 <= k < |p|
      ensures Restores(s.fields[p[k].ros1], slots2[p[k].ros2], ts2[p[k].ros2], r[p[k].ros2])
    {
      assert FieldTo2(s, k, ws, ts2) == Some(r[p[k].ros2]);
    }
    assert s.pairs12[0..] == p;
  }
}
