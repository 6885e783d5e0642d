/** What the two conversions do to messages with any dictionaries: which member gets the value of
    which field, written out down to the words, and what is left alone. */
module Carrying {
  import opened Wrappers
  import opened Schema
  import opened Conversion
  import opened RoundTrip

  /** What a pair assigns to: the ROS 2 member one way, the ROS 1 field the other way. */
  function Key(p: Pair, to2: bool): nat {
    if to2 then p.ros2 else p.ros1
  }

  /** No later pair of the list is for the same key. */
  predicate LastFor(p: seq<Pair>, to2: bool, k: nat)
    requires k < |p|
  {
    forall l | k < l < |p| :: Key(p[l], to2) != Key(p[k], to2)
  }

  /** Among the pairs from position `from` on, no other is for the same key. */
  predicate OnlyFor(p: seq<Pair>, to2: bool, from: nat, k: nat)
    requires k < |p|
  {
    forall l | from <= l < |p| && l != k :: Key(p[l], to2) != Key(p[k], to2)
  }

  predicate NoneFor(p: seq<Pair>, to2: bool, from: nat, j: nat) {
    forall l | from <= l < |p| :: Key(p[l], to2) != j
  }

  lemma NoneForNext(p: seq<Pair>, to2: bool, k: nat)
    requires k < |p|
    ensures forall j :: NoneFor(p, to2, k, j) <==> Key(p[k], to2) != j && NoneFor(p, to2, k + 1, j)
    ensures LastFor(p, to2, k) <==> NoneFor(p, to2, k + 1, Key(p[k], to2))
  {
    hide Key;
  }

  lemma OnlyForNext(p: seq<Pair>, to2: bool, k: nat, l: nat)
    requires k < l < |p|
    ensures OnlyFor(p, to2, k, l) <==> Key(p[k], to2) != Key(p[l], to2) && OnlyFor(p, to2, k + 1, l)
  {
    hide Key;
  }

  // ----- ROS 1 to ROS 2 -----

  /** No sequence that the conversion comes by is longer than the bound of its partner. */
  predicate ListedWithinBounds(s: Schema, v: Value)
    requires HasType1(s, v)
    decreases s
  {
    match s
    case Sequence(e, b) =>
      (b.Some? ==> |v.elems| <= b.value) && forall i | 0 <= i < |v.elems| :: ListedWithinBounds(e, v.elems[i])
    case Array(e, _) => forall i | 0 <= i < |v.elems| :: ListedWithinBounds(e, v.elems[i])
    case Record(fs, p, _, _) =>
      forall k | 0 <= k < |p| && p[k].ros1 < |fs| :: ListedWithinBounds(fs[p[k].ros1], v.slots[p[k].ros1])
    case _ => true
  }

  /** `r` carries the ROS 1 value `v`, over what the target `t` held. */
  ghost predicate Carries(s: Schema, v: Value, t: Value, r: Value)
    requires WellFormed(s) && HasType1(s, v) && HasType2(s, t) && HasType2(s, r)
    decreases s, 0
  {
    match s
    case Prim(_) => r.n == v.n
    case Bool => r.n == if v.n == 0 then 0 else 1
    case Str => r.chars == v.chars
    case Time => r.nsec == v.nsec && (r.sec == v.sec || r.sec == v.sec - 0x1_0000_0000)
    case Duration => r.sec == v.sec && (r.nsec == v.nsec || r.nsec == v.nsec + 0x1_0000_0000)
    case Header =>
      && r.slots[0].nsec == v.slots[1].nsec
      && (r.slots[0].sec == v.slots[1].sec || r.slots[0].sec == v.slots[1].sec - 0x1_0000_0000)
      && r.slots[1].chars == v.slots[2].chars
    case Sequence(e, _) =>
      && |r.elems| == |v.elems|
      && forall i | 0 <= i < |v.elems| :: Carries(e, v.elems[i], if i < |t.elems| then t.elems[i] else Fresh2(e), r.elems[i])
    case Array(e, _) => forall i | 0 <= i < |v.elems| :: Carries(e, v.elems[i], t.elems[i], r.elems[i])
    case Record(_, _, _, _) => FieldsCarried(s, v.slots, t.slots, r.slots)
  }

  /** Each listed field is in its member, unless a later pair takes the member; a member that no pair
      names keeps what the target held. */
  ghost predicate FieldsCarried(s: Schema, vs: seq<Value>, ts: seq<Value>, rs: seq<Value>)
    requires s.Record? && WellFormed(s)
    requires HasType1(s, Struct(vs)) && HasType2(s, Struct(ts)) && HasType2(s, Struct(rs))
    decreases s.fields, 1
  {
    var p := s.pairs12;
    && (forall k | 0 <= k < |p| && LastFor(p, true, k) :: FieldCarried(s, 0, k, vs, ts, rs))
    && (forall j | 0 <= j < |rs| && NoneFor(p, true, 0, j) :: rs[j] == ts[j])
  }

  /** The field of pair `k` is in its member, over what `slots` has there if no other pair from `from`
      on is for it. */
  ghost predicate FieldCarried(s: Schema, from: nat, k: nat, vs: seq<Value>, slots: seq<Value>, rs: seq<Value>)
    requires s.Record? && WellFormed(s) && k < |s.pairs12|
    requires HasType1(s, Struct(vs)) && HasType2(s, Struct(slots)) && HasType2(s, Struct(rs))
    decreases s.fields, 0
  {
    var i, j := s.pairs12[k].ros1, s.pairs12[k].ros2;
    exists u | HasType2(s.fields[i], u) && (OnlyFor(s.pairs12, true, from, k) ==> u == slots[j]) :: Carries(s.fields[i], vs[i], u, rs[j])
  }

  /** The conversion of a message with any dictionaries, reordered, repeating, incomplete or flagged
      ones included, succeeds exactly if the bounds are kept wherever it comes by. */
  lemma {:induction false} ConvertsIffListedWithinBounds(s: Schema, v: Value, t: Value)
    requires WellFormed(s) && HasType1(s, v) && HasType2(s, t)
    ensures To2(s, v, t).Some? <==> ListedWithinBounds(s, v)
    decreases s, 3, 0
  {
    hide ElemsTo2, FieldsTo2;
    match s
    case Sequence(e, b) =>
      if !(b.Some? && |v.elems| > b.value) { ElemsWithin(e, v.elems, Resized(t.elems, |v.elems|, Fresh2(e))); }
    case Array(e, _) => ElemsWithin(e, v.elems, t.elems);
    case Record(_, _, _, _) => RecordWithin(s, v, t);
    case _ =>
  }

  lemma ElemsWithin(e: Schema, vs: seq<Value>, ts: seq<Value>)
    requires WellFormed(e) && |vs| == |ts| && ElemsHaveType1(e, vs) && ElemsHaveType2(e, ts)
    ensures ElemsTo2(e, vs, ts, 0).Some? <==> forall i | 0 <= i < |vs| :: ListedWithinBounds(e, vs[i])
    decreases e, 4, 0
  {
    hide To2, HasType1, HasType2, WellFormed, ListedWithinBounds, ElemsTo2;
    ElemsTo2Each(e, vs, ts);
    forall i | 0 <= i < |vs| ensures To2(e, vs[i], ts[i]).Some? <==> ListedWithinBounds(e, vs[i]) {
      ConvertsIffListedWithinBounds(e, vs[i], ts[i]);
    }
  }

  lemma RecordWithin(s: Schema, v: Value, t: Value)
    requires s.Record? && WellFormed(s) && HasType1(s, v) && HasType2(s, t)
    ensures To2(s, v, t).Some? <==> ListedWithinBounds(s, v)
    decreases s, 2, 0
  {
    RecordUnfolds(s, v, t);
    FieldsWithin(s, 0, v.slots, t.slots);
  }

  lemma RecordUnfolds(s: Schema, v: Value, t: Value)
    requires s.Record? && WellFormed(s) && HasType1(s, v) && HasType2(s, t)
    ensures v.Struct? && t.Struct? && FieldsHaveType1(s.fields, v.slots) && HasType2(s, Struct(t.slots)) && HasType1(s, Struct(v.slots))
    ensures forall k | 0 <= k < |s.pairs12| :: s.pairs12[k].ros1 < |s.fields| && s.pairs12[k].ros2 < |t.slots|
    ensures var r := FieldsTo2(s, 0, v.slots, t.slots);
            To2(s, v, t) == if r.None? then None else Some(Struct(r.value))
  {
    hide FieldsTo2;
  }

  lemma {:induction false} FieldsWithin(s: Schema, k: nat, vs: seq<Value>, slots: seq<Value>)
    requires s.Record? && WellFormed(s) && k <= |s.pairs12| && FieldsHaveType1(s.fields, vs) && HasType2(s, Struct(slots))
    requires forall l | 0 <= l < |s.pairs12| :: s.pairs12[l].ros1 < |s.fields|
    ensures FieldsTo2(s, k, vs, slots).Some? <==>
              forall l | k <= l < |s.pairs12| :: ListedWithinBounds(s.fields[s.pairs12[l].ros1], vs[s.pairs12[l].ros1])
    decreases s.fields, 4, |s.pairs12| - k
  {
    hide To2, HasType1, HasType2, WellFormed, ListedWithinBounds;
    if k < |s.pairs12| {
      var i, j := s.pairs12[k].ros1, s.pairs12[k].ros2;
      MemberTyped(s, slots, s.pairs12[k]);
      ConvertsIffListedWithinBounds(s.fields[i], vs[i], slots[j]);
      var head := To2(s.fields[i], vs[i], slots[j]);
      if head.Some? {
        StoreMember(s, slots, s.pairs12[k], head.value);
        FieldsWithin(s, k + 1, vs, slots[j := head.value]);
      }
    }
  }

  /** And what comes out carries the message. */
  lemma {:induction false} ConversionCarries(s: Schema, v: Value, t: Value)
    requires WellFormed(s) && HasType1(s, v) && HasType2(s, t) && To2(s, v, t).Some?
    ensures Carries(s, v, t, To2(s, v, t).value)
    decreases s, 3, 0
  {
    hide ElemsTo2, FieldsTo2, FieldsCarried;
    match s
    case Sequence(e, _) => ElemsCarry(e, v.elems, Resized(t.elems, |v.elems|, Fresh2(e)));
    case Array(e, _) => ElemsCarry(e, v.elems, t.elems);
    case Record(_, _, _, _) => RecordCarries(s, v, t);
    case _ =>
  }

  lemma ElemsCarry(e: Schema, vs: seq<Value>, ts: seq<Value>)
    requires WellFormed(e) && |vs| == |ts| && ElemsHaveType1(e, vs) && ElemsHaveType2(e, ts) && ElemsTo2(e, vs, ts, 0).Some?
    ensures forall i | 0 <= i < |vs| :: Carries(e, vs[i], ts[i], ElemsTo2(e, vs, ts, 0).value[i])
    decreases e, 4, 0
  {
    hide To2, HasType1, HasType2, WellFormed, Carries, ElemsTo2;
    ElemsTo2Each(e, vs, ts);
    forall i | 0 <= i < |vs| ensures Carries(e, vs[i], ts[i], ElemsTo2(e, vs, ts, 0).value[i]) {
      ConversionCarries(e, vs[i], ts[i]);
    }
  }

  lemma RecordCarries(s: Schema, v: Value, t: Value)
    requires s.Record? && WellFormed(s) && HasType1(s, v) && HasType2(s, t) && To2(s, v, t).Some?
    ensures v.Struct? && t.Struct? && HasType1(s, Struct(v.slots)) && HasType2(s, Struct(t.slots))
    ensures FieldsTo2(s, 0, v.slots, t.slots).Some?
    ensures FieldsCarried(s, v.slots, t.slots, FieldsTo2(s, 0, v.slots, t.slots).value)
    decreases s, 2, 0
  {
    hide To2, HasType1, HasType2, WellFormed, Carries, FieldsTo2, FieldCarried, FieldsCarried;
    RecordUnfolds(s, v, t);
    FieldsCarry(s, 0, v.slots, t.slots);
    AllCarried(s, v.slots, t.slots, FieldsTo2(s, 0, v.slots, t.slots).value);
  }

  lemma AllCarried(s: Schema, vs: seq<Value>, ts: seq<Value>, rs: seq<Value>)
    requires s.Record? && WellFormed(s) && HasType1(s, Struct(vs)) && HasType2(s, Struct(ts)) && HasType2(s, Struct(rs))
    requires forall k | 0 <= k < |s.pairs12| && LastFor(s.pairs12, true, k) :: FieldCarried(s, 0, k, vs, ts, rs)
    requires forall j | 0 <= j < |rs| && NoneFor(s.pairs12, true, 0, j) :: rs[j] == ts[j]
    ensures FieldsCarried(s, vs, ts, rs)
  {
    hide Carries, WellFormed, LastFor, OnlyFor, NoneFor, FieldCarried, HasType1, HasType2;
  }

  lemma {:induction false} FieldsCarry(s: Schema, k: nat, vs: seq<Value>, slots: seq<Value>)
    requires s.Record? && WellFormed(s) && k <= |s.pairs12| && HasType1(s, Struct(vs)) && FieldsHaveType1(s.fields, vs)
    requires HasType2(s, Struct(slots)) && FieldsTo2(s, k, vs, slots).Some?
    ensures var r := FieldsTo2(s, k, vs, slots).value;
            && |r| == |slots|
            && (forall l | k <= l < |s.pairs12| && LastFor(s.pairs12, true, l) :: FieldCarried(s, k, l, vs, slots, r))
            && (forall j | 0 <= j < |slots| && NoneFor(s.pairs12, true, k, j) :: r[j] == slots[j])
    decreases s.fields, 4, |s.pairs12| - k
  {
    hide To2, HasType1, HasType2, WellFormed, Carries, FieldCarried, LastFor, OnlyFor, NoneFor;
    var p := s.pairs12;
    if k < |p| {
      var i, j := p[k].ros1, p[k].ros2;
      MemberTyped(s, slots, p[k]);
      var head := To2(s.fields[i], vs[i], slots[j]).value;
      ConversionCarries(s.fields[i], vs[i], slots[j]);
      StoreMember(s, slots, p[k], head);
      var more := slots[j := head];
      FieldsCarry(s, k + 1, vs, more);
      var r := FieldsTo2(s, k, vs, slots).value;
      hide FieldsTo2;
      forall l | k <= l < |p| && LastFor(p, true, l) ensures FieldCarried(s, k, l, vs, slots, r) {
        if l == k {
          HeadCarried(s, k, vs, slots, head, r);
        } else {
          TailCarried(s, k, l, vs, slots, head, r);
        }
      }
      NoneForNext(p, true, k);
    }
  }

  lemma HeadCarried(s: Schema, k: nat, vs: seq<Value>, slots: seq<Value>, head: Value, r: seq<Value>)
    requires s.Record? && WellFormed(s) && k < |s.pairs12| && HasType1(s, Struct(vs)) && HasType2(s, Struct(slots)) && HasType2(s, Struct(r))
    requires LastFor(s.pairs12, true, k) && |r| == |slots|
    requires var i, j := s.pairs12[k].ros1, s.pairs12[k].ros2;
             && i < |s.fields| && i < |vs| && j < |slots| && HasType1(s.fields[i], vs[i]) && WellFormed(s.fields[i])
             && HasType2(s.fields[i], slots[j]) && HasType2(s.fields[i], head)
             && Carries(s.fields[i], vs[i], slots[j], head)
             && forall l | 0 <= l < |r| && NoneFor(s.pairs12, true, k + 1, l) :: r[l] == slots[j := head][l]
    ensures FieldCarried(s, k, k, vs, slots, r)
  {
    hide Carries, HasType1, HasType2, WellFormed, OnlyFor;
    NoneForNext(s.pairs12, true, k);
  }

  lemma TailCarried(s: Schema, k: nat, l: nat, vs: seq<Value>, slots: seq<Value>, head: Value, r: seq<Value>)
    requires s.Record? && WellFormed(s) && k < l < |s.pairs12| && HasType1(s, Struct(vs)) && HasType2(s, Struct(slots)) && HasType2(s, Struct(r))
    requires s.pairs12[k].ros2 < |slots| && HasType2(s, Struct(slots[s.pairs12[k].ros2 := head]))
    requires FieldCarried(s, k + 1, l, vs, slots[s.pairs12[k].ros2 := head], r)
    ensures FieldCarried(s, k, l, vs, slots, r)
  {
    hide Carries, WellFormed, OnlyFor;
    OnlyForNext(s.pairs12, true, k, l);
    MemberTyped(s, slots, s.pairs12[l]);
  }

  // ----- ROS 2 to ROS 1 -----

  /** `r` carries the ROS 2 value `v`, over what the target `t` held; the `seq` of a Header is the
      target's. */
  ghost predicate CarriesBack(s: Schema, v: Value, t: Value, r: Value)
    requires WellFormed(s) && HasType2(s, v) && HasType1(s, t) && HasType1(s, r)
    decreases s, 0
  {
    match s
    case Prim(_) => r.n == v.n
    case Bool => r.n == v.n
    case Str => r.chars == v.chars
    case Time => r.nsec == v.nsec && (r.sec == v.sec || r.sec == v.sec + 0x1_0000_0000)
    case Duration => r.sec == v.sec && (r.nsec == v.nsec || r.nsec == v.nsec - 0x1_0000_0000)
    case Header =>
      && r.slots[0].n == t.slots[0].n && r.slots[1].nsec == v.slots[0].nsec
      && (r.slots[1].sec == v.slots[0].sec || r.slots[1].sec == v.slots[0].sec + 0x1_0000_0000)
      && r.slots[2].chars == v.slots[1].chars
    case Sequence(e, _) =>
      && |r.elems| == |v.elems|
      && forall i | 0 <= i < |v.elems| :: CarriesBack(e, v.elems[i], if i < |t.elems| then t.elems[i] else Fresh1(e), r.elems[i])
    case Array(e, _) => forall i | 0 <= i < |v.elems| :: CarriesBack(e, v.elems[i], t.elems[i], r.elems[i])
    case Record(_, _, _, _) => MembersCarried(s, v.slots, t.slots, r.slots)
  }

  /** Each listed member is in its field, unless a later pair takes the field; a field that no pair
      names keeps what the target held. */
  ghost predicate MembersCarried(s: Schema, vs: seq<Value>, ts: seq<Value>, rs: seq<Value>)
    requires s.Record? && WellFormed(s)
    requires HasType2(s, Struct(vs)) && HasType1(s, Struct(ts)) && HasType1(s, Struct(rs))
    decreases s.fields, 1
  {
    var p := s.pairs21;
    && (forall k | 0 <= k < |p| && LastFor(p, false, k) :: MemberCarried(s, 0, k, vs, ts, rs))
    && (forall i | 0 <= i < |rs| && NoneFor(p, false, 0, i) :: rs[i] == ts[i])
  }

  ghost predicate MemberCarried(s: Schema, from: nat, k: nat, vs: seq<Value>, slots: seq<Value>, rs: seq<Value>)
    requires s.Record? && WellFormed(s) && k < |s.pairs21|
    requires HasType2(s, Struct(vs)) && HasType1(s, Struct(slots)) && HasType1(s, Struct(rs))
    decreases s.fields, 0
  {
    var i, j := s.pairs21[k].ros1, s.pairs21[k].ros2;
    exists u | HasType1(s.fields[i], u) && (OnlyFor(s.pairs21, false, from, k) ==> u == slots[i]) :: CarriesBack(s.fields[i], vs[j], u, rs[i])
  }

  /** The conversion to ROS 1, with any dictionaries. */
  lemma {:induction false} ConversionCarriesBack(s: Schema, v: Value, t: Value)
    requires WellFormed(s) && HasType2(s, v) && HasType1(s, t)
    ensures CarriesBack(s, v, t, To1(s, v, t))
    decreases s, 3, 0
  {
    hide ElemsTo1, FieldsTo1, MembersCarried;
    match s
    case Sequence(e, _) => ElemsCarryBack(e, v.elems, Resized(t.elems, |v.elems|, Fresh1(e)));
    case Array(e, _) => ElemsCarryBack(e, v.elems, t.elems);
    case Record(_, _, _, _) => RecordCarriesBack(s, v, t);
    case _ =>
  }

  lemma ElemsCarryBack(e: Schema, vs: seq<Value>, ts: seq<Value>)
    requires WellFormed(e) && |vs| == |ts| && ElemsHaveType2(e, vs) && ElemsHaveType1(e, ts)
    ensures forall i | 0 <= i < |vs| :: CarriesBack(e, vs[i], ts[i], ElemsTo1(e, vs, ts)[i])
    decreases e, 4, 0
  {
    hide To1, HasType1, HasType2, WellFormed, CarriesBack, ElemsTo1;
    forall i | 0 <= i < |vs| ensures CarriesBack(e, vs[i], ts[i], ElemsTo1(e, vs, ts)[i]) {
      ConversionCarriesBack(e, vs[i], ts[i]);
      assert ElemsTo1(e, vs, ts)[i] == To1(e, vs[i], ts[i]);
    }
  }

  lemma RecordUnfoldsBack(s: Schema, v: Value, t: Value)
    requires s.Record? && WellFormed(s) && HasType2(s, v) && HasType1(s, t)
    ensures v.Struct? && t.Struct? && HasType2(s, Struct(v.slots)) && HasType1(s, Struct(t.slots))
    ensures FieldsHaveType1(s.fields, t.slots) && MembersHaveType2(s.fields, s.pairs21, v.slots)
    ensures forall i | 0 <= i < |s.fields| :: WellFormed(s.fields[i])
    ensures To1(s, v, t) == Struct(FieldsTo1(s.fields, s.pairs21, 0, v.slots, t.slots))
    ensures forall ws | FieldsHaveType1(s.fields, ws) :: HasType1(s, Struct(ws))
  {
    hide FieldsTo1;
  }

  lemma RecordCarriesBack(s: Schema, v: Value, t: Value)
    requires s.Record? && WellFormed(s) && HasType2(s, v) && HasType1(s, t)
    ensures v.Struct? && t.Struct? && HasType2(s, Struct(v.slots)) && HasType1(s, Struct(t.slots))
    ensures FieldsHaveType1(s.fields, t.slots) && MembersHaveType2(s.fields, s.pairs21, v.slots)
    ensures forall i | 0 <= i < |s.fields| :: WellFormed(s.fields[i])
    ensures var r := FieldsTo1(s.fields, s.pairs21, 0, v.slots, t.slots);
            HasType1(s, Struct(r)) && MembersCarried(s, v.slots, t.slots, r)
    decreases s, 2, 0
  {
    hide To1, HasType1, HasType2, WellFormed, CarriesBack, FieldsTo1, MemberCarried, MembersCarried, FieldsHaveType1, MembersHaveType2;
    RecordUnfoldsBack(s, v, t);
    MembersCarry(s, 0, v.slots, t.slots);
    AllCarriedBack(s, v.slots, t.slots, FieldsTo1(s.fields, s.pairs21, 0, v.slots, t.slots));
  }

  lemma AllCarriedBack(s: Schema, vs: seq<Value>, ts: seq<Value>, rs: seq<Value>)
    requires s.Record? && WellFormed(s) && HasType2(s, Struct(vs)) && HasType1(s, Struct(ts)) && HasType1(s, Struct(rs))
    requires forall k | 0 <= k < |s.pairs21| && LastFor(s.pairs21, false, k) :: MemberCarried(s, 0, k, vs, ts, rs)
    requires forall i | 0 <= i < |rs| && NoneFor(s.pairs21, false, 0, i) :: rs[i] == ts[i]
    ensures MembersCarried(s, vs, ts, rs)
  {
    hide CarriesBack, WellFormed, LastFor, OnlyFor, NoneFor, MemberCarried, HasType1, HasType2;
  }

  lemma StoreField(s: Schema, slots: seq<Value>, i: nat, v: Value)
    requires s.Record? && i < |s.fields| && HasType1(s, Struct(slots)) && HasType1(s.fields[i], v)
    ensures |slots| == |s.fields| && FieldsHaveType1(s.fields, slots) && HasType1(s.fields[i], slots[i])
    ensures HasType1(s, Struct(slots[i := v]))
  {
  }

  lemma {:induction false} MembersCarry(s: Schema, k: nat, vs: seq<Value>, slots: seq<Value>)
    requires s.Record? && WellFormed(s) && k <= |s.pairs21| && HasType2(s, Struct(vs)) && MembersHaveType2(s.fields, s.pairs21, vs)
    requires HasType1(s, Struct(slots)) && FieldsHaveType1(s.fields, slots) && forall i | 0 <= i < |s.fields| :: WellFormed(s.fields[i])
    ensures var r := FieldsTo1(s.fields, s.pairs21, k, vs, slots);
            && HasType1(s, Struct(r)) && |r| == |slots|
            && (forall l | k <= l < |s.pairs21| && LastFor(s.pairs21, false, l) :: MemberCarried(s, k, l, vs, slots, r))
            && (forall i | 0 <= i < |slots| && NoneFor(s.pairs21, false, k, i) :: r[i] == slots[i])
    decreases s.fields, 4, |s.pairs21| - k
  {
    hide To1, HasType1, HasType2, WellFormed, CarriesBack, MemberCarried, LastFor, OnlyFor, NoneFor;
    var p := s.pairs21;
    if k < |p| {
      var i, j := p[k].ros1, p[k].ros2;
      var head := To1(s.fields[i], vs[j], slots[i]);
      ConversionCarriesBack(s.fields[i], vs[j], slots[i]);
      StoreField(s, slots, i, head);
      var more := slots[i := head];
      MembersCarry(s, k + 1, vs, more);
      var r := FieldsTo1(s.fields, p, k, vs, slots);
      assert r == FieldsTo1(s.fields, p, k + 1, vs, more);
      hide FieldsTo1;
      forall l | k <= l < |p| && LastFor(p, false, l) ensures MemberCarried(s, k, l, vs, slots, r) {
        if l == k {
          HeadCarriedBack(s, k, vs, slots, head, r);
        } else {
          TailCarriedBack(s, k, l, vs, slots, head, r);
        }
      }
      NoneForNext(p, false, k);
    }
  }

  lemma HeadCarriedBack(s: Schema, k: nat, vs: seq<Value>, slots: seq<Value>, head: Value, r: seq<Value>)
    requires s.Record? && WellFormed(s) && k < |s.pairs21| && HasType2(s, Struct(vs)) && HasType1(s, Struct(slots)) && HasType1(s, Struct(r))
    requires LastFor(s.pairs21, false, k) && |r| == |slots|
    requires var i, j := s.pairs21[k].ros1, s.pairs21[k].ros2;
             && i < |s.fields| && i < |slots| && j < |vs| && HasType2(s.fields[i], vs[j]) && WellFormed(s.fields[i])
             && HasType1(s.fields[i], slots[i]) && HasType1(s.fields[i], head)
             && CarriesBack(s.fields[i], vs[j], slots[i], head)
             && forall l | 0 <= l < |r| && NoneFor(s.pairs21, false, k + 1, l) :: r[l] == slots[i := head][l]
    ensures MemberCarried(s, k, k, vs, slots, r)
  {
    hide CarriesBack, HasType1, HasType2, WellFormed, OnlyFor;
    NoneForNext(s.pairs21, false, k);
  }

  lemma TailCarriedBack(s: Schema, k: nat, l: nat, vs: seq<Value>, slots: seq<Value>, head: Value, r: seq<Value>)
    requires s.Record? && WellFormed(s) && k < l < |s.pairs21| && HasType2(s, Struct(vs)) && HasType1(s, Struct(slots)) && HasType1(s, Struct(r))
    requires s.pairs21[k].ros1 < |slots| && HasType1(s, Struct(slots[s.pairs21[k].ros1 := head]))
    requires MemberCarried(s, k + 1, l, vs, slots[s.pairs21[k].ros1 := head], r)
    ensures MemberCarried(s, k, l, vs, slots, r)
  {
    hide CarriesBack, WellFormed, OnlyFor;
    OnlyForNext(s.pairs21, false, k, l);
  }
}
