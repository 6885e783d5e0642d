/** Which schemas there are: the hypotheses of the diagrams hold for every machine width, every built-in
    type, and every message, sequence and array of such types. */
module Coverage {
  import opened Wrappers
  import opened Schema
  import opened Conversion

  /** A type to which the diagrams apply. */
  ghost predicate Admitted(s: Schema) {
    WellFormed(s) && Covered(s)
  }

  lemma TypesAreAdmitted()
    ensures forall w: nat :: Admitted(Prim(w)) <==> w == 1 || w == 2 || w == 4 || w == 8
    ensures Admitted(Bool) && Admitted(Str) && Admitted(Time) && Admitted(Duration) && Admitted(Header)
    ensures forall e: Schema, b: Option<nat> :: Admitted(Sequence(e, b)) <==> Admitted(e) && e != Bool
    ensures forall e: Schema, n: nat :: Admitted(Array(e, n)) <==> Admitted(e) && e != Bool && (e.Prim? ==> n * e.width < 0x1_0000_0000)
  {
  }

  /** A message with these ROS 1 fields, all of which have a ROS 2 member of their name, in any order,
      beside `more` members without a partner. */
  function MessageOf(fs: seq<Schema>, at: seq<nat>, defaults: seq<Value>): Schema
    requires |at| == |fs|
  {
    var p := seq(|fs|, i requires 0 <= i < |fs| => Pair(i, at[i]));
    Record(fs, p, p, defaults)
  }

  lemma MessagesAreAdmitted(fs: seq<Schema>, at: seq<nat>, defaults: seq<Value>)
    requires |at| == |fs| && (forall i, j | 0 <= i < j < |at| :: at[i] != at[j])
    requires forall i | 0 <= i < |fs| :: Admitted(fs[i]) && at[i] < |defaults| && HasType2(fs[i], defaults[at[i]])
    ensures Admitted(MessageOf(fs, at, defaults))
  {
    var s := MessageOf(fs, at, defaults);
    assert forall k | 0 <= k < |fs| :: s.pairs12[k] == Pair(k, at[k]);
    hide HasType2;
  }

  /** Default values are zeros, empty texts and empty sequences on both sides; a ROS 2 message has the
      defaults of its definition. */
  lemma {:induction false} DefaultsAgree(s: Schema)
    requires WellFormed(s) && !s.Record? && !s.Array?
    ensures To1(s, Fresh2(s), Fresh1(s)) == Fresh1(s)
    ensures Fresh2(s) == if s.Prim? || s.Bool? then Num(0) else if s.Str? then Text([]) else if s.Sequence? then List([])
                         else if s.Header? then Struct([Stamp(0, 0), Text([])]) else Stamp(0, 0)
  {
  }

  lemma DefaultArrays(e: Schema, n: nat, ds: seq<Value>)
    requires WellFormed(Array(e, n))
    ensures Fresh2(Array(e, n)).List? && |Fresh2(Array(e, n)).elems| == n
    ensures forall i | 0 <= i < n :: Fresh2(Array(e, n)).elems[i] == Fresh2(e)
    ensures forall fs, p, q | WellFormed(Record(fs, p, q, ds)) :: Fresh2(Record(fs, p, q, ds)) == Struct(ds)
  {
  }
}
