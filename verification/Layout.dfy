/** Byte layouts: when two orders of the same parts of a message give the same bytes, whatever the
    parts hold. */
module Layout {
  import opened LittleEndian

  /** What a part of a message takes in a default message, and whether it can ever hold anything but
      zeros there. A part that cannot has a fixed width. */
  datatype Part = Part(width: nat, live: bool)

  predicate Indices(order: seq<nat>, n: nat) {
    forall k | 0 <= k < |order| :: order[k] < n
  }

  predicate Distinct(order: seq<nat>) {
    forall k, l | 0 <= k < l < |order| :: order[k] != order[l]
  }

  function Declared(n: nat): (order: seq<nat>)
    ensures |order| == n && Indices(order, n) && Distinct(order)
    ensures forall k | 0 <= k < n :: order[k] == k
  {
    seq(n, k => k)
  }

  /** The bytes of the parts in this order. */
  function Bytes(parts: seq<seq<byte>>, order: seq<nat>): seq<byte>
    requires Indices(order, |parts|)
  {
    if order == [] then [] else Bytes(parts, order[..|order| - 1]) + parts[order[|order| - 1]]
  }

  function Size(widths: seq<nat>, order: seq<nat>): nat
    requires Indices(order, |widths|)
  {
    if order == [] then 0 else Size(widths, order[..|order| - 1]) + widths[order[|order| - 1]]
  }

  function Widths(parts: seq<Part>): (r: seq<nat>)
    ensures |r| == |parts| && forall i | 0 <= i < |r| :: r[i] == parts[i].width
  {
    seq(|parts|, i requires 0 <= i < |parts| => parts[i].width)
  }

  function Lengths(parts: seq<seq<byte>>): (r: seq<nat>)
    ensures |r| == |parts| && forall i | 0 <= i < |r| :: r[i] == |parts[i]|
  {
    seq(|parts|, i requires 0 <= i < |parts| => |parts[i]|)
  }

  /** The parts that can hold anything but zeros, with their offsets in a default message. */
  function Live(parts: seq<Part>, order: seq<nat>): seq<(nat, nat)>
    requires Indices(order, |parts|)
  {
    if order == [] then []
    else
      var front, last := order[..|order| - 1], order[|order| - 1];
      Live(parts, front) + if parts[last].live then [(last, Size(Widths(parts), front))] else []
  }

  /** A default message has the same size in both orders, and its live parts start at the same
      offsets. */
  predicate SameLayout(parts: seq<Part>, a: seq<nat>, b: seq<nat>)
    requires Indices(a, |parts|) && Indices(b, |parts|)
  {
    Size(Widths(parts), a) == Size(Widths(parts), b) && Live(parts, a) == Live(parts, b)
  }

  function Zeros(n: nat): (bs: seq<byte>)
    ensures |bs| == n && AllZero(bs)
  {
    seq(n, _ => 0)
  }

  predicate AllZero(bs: seq<byte>) {
    forall i | 0 <= i < |bs| :: bs[i] == 0
  }

  /** These bytes may stand where these parts are. */
  predicate Fills(parts: seq<Part>, bytes: seq<seq<byte>>) {
    |bytes| == |parts| && forall i | 0 <= i < |parts| && !parts[i].live :: bytes[i] == Zeros(parts[i].width)
  }

  /** The order has every live part at most once. */
  predicate LiveOnce(parts: seq<Part>, order: seq<nat>)
    requires Indices(order, |parts|)
  {
    forall k, l | 0 <= k < l < |order| && order[k] == order[l] :: !parts[order[k]].live
  }

  predicate LivePartsHaveWidth(parts: seq<Part>) {
    forall i | 0 <= i < |parts| && parts[i].live :: parts[i].width > 0
  }

  // ----- sizes -----

  lemma {:induction false} LengthOfBytes(parts: seq<seq<byte>>, order: seq<nat>)
    requires Indices(order, |parts|)
    ensures |Bytes(parts, order)| == Size(Lengths(parts), order)
  {
    if order != [] {
      LengthOfBytes(parts, order[..|order| - 1]);
    }
  }

  lemma {:induction false} SizeOfConcat(widths: seq<nat>, a: seq<nat>, b: seq<nat>)
    requires Indices(a, |widths|) && Indices(b, |widths|)
    ensures Indices(a + b, |widths|) && Size(widths, a + b) == Size(widths, a) + Size(widths, b)
  {
    if b == [] {
      assert a + b == a;
    } else {
      SizeOfConcat(widths, a, b[..|b| - 1]);
      assert (a + b)[..|a + b| - 1] == a + b[..|b| - 1];
    }
  }

  lemma SizeOfOne(widths: seq<nat>, i: nat)
    requires i < |widths|
    ensures Size(widths, [i]) == widths[i]
  {
    assert [i][..0] == [];
  }

  lemma SizeOfRemoval(widths: seq<nat>, order: seq<nat>, k: nat)
    requires Indices(order, |widths|) && k < |order|
    ensures Indices(order[..k] + order[k + 1..], |widths|)
    ensures Size(widths, order) == Size(widths, order[..k] + order[k + 1..]) + widths[order[k]]
  {
    hide Size;
    var a, x, b := order[..k], [order[k]], order[k + 1..];
    assert order == a + x + b;
    SizeOfConcat(widths, a + x, b);
    SizeOfConcat(widths, a, x);
    SizeOfConcat(widths, a, b);
    SizeOfOne(widths, order[k]);
  }

  /** An order that leaves a part out is shorter by at least that part. */
  lemma {:induction false} MissingPartIsMissed(widths: seq<nat>, order: seq<nat>, n: nat, i: nat)
    requires i < n <= |widths| && Indices(order, n) && Distinct(order) && i !in order
    ensures Size(widths, order) + widths[i] <= Size(widths, Declared(n))
    decreases n
  {
    var front := Declared(n)[..n - 1];
    assert front == Declared(n - 1);
    if exists k | 0 <= k < |order| :: order[k] == n - 1 {
      var k :| 0 <= k < |order| && order[k] == n - 1;
      var rest := order[..k] + order[k + 1..];
      SizeOfRemoval(widths, order, k);
      WithoutLast(order, n, k);
      if i < n - 1 { MissingPartIsMissed(widths, rest, n - 1, i); }
    } else {
      assert Indices(order, n - 1);
      if i < n - 1 {
        MissingPartIsMissed(widths, order, n - 1, i);
      } else {
        NoMoreThanDeclared(widths, order, n - 1);
      }
    }
  }

  lemma {:induction false} NoMoreThanDeclared(widths: seq<nat>, order: seq<nat>, n: nat)
    requires n <= |widths| && Indices(order, n) && Distinct(order)
    ensures Size(widths, order) <= Size(widths, Declared(n))
    decreases n
  {
    if order != [] {
      assert order[0] < n;
      assert Declared(n)[..n - 1] == Declared(n - 1);
      hide Size, Declared;
      if exists k | 0 <= k < |order| :: order[k] == n - 1 {
        var k :| 0 <= k < |order| && order[k] == n - 1;
        SizeOfRemoval(widths, order, k);
        WithoutLast(order, n, k);
        NoMoreThanDeclared(widths, order[..k] + order[k + 1..], n - 1);
        LastOfDeclared(widths, n);
      } else {
        NoMoreThanDeclared(widths, order, n - 1);
        LastOfDeclared(widths, n);
      }
    }
  }

  lemma LastOfDeclared(widths: seq<nat>, n: nat)
    requires 0 < n <= |widths|
    ensures Size(widths, Declared(n)) == Size(widths, Declared(n - 1)) + widths[n - 1]
  {
    assert Declared(n)[..n - 1] == Declared(n - 1);
  }

  lemma WithoutLast(order: seq<nat>, n: nat, k: nat)
    requires Indices(order, n) && Distinct(order) && k < |order| && order[k] == n - 1
    ensures var rest := order[..k] + order[k + 1..];
            Indices(rest, n - 1) && Distinct(rest) && forall x :: x in rest ==> x in order
  {
    var rest := order[..k] + order[k + 1..];
    assert forall l | 0 <= l < |rest| :: rest[l] == order[if l < k then l else l + 1];
  }

  // ----- the same layout gives the same bytes -----

  predicate PlacedIn(live: seq<(nat, nat)>, n: nat) {
    forall k | 0 <= k < |live| :: live[k].0 < n
  }

  /** The bytes that a layout determines: the live parts at the ends of runs of zeros. */
  function Assembled(parts: seq<Part>, bytes: seq<seq<byte>>, live: seq<(nat, nat)>, size: nat): seq<byte>
    requires |bytes| == |parts| && PlacedIn(live, |parts|)
    decreases |live|
  {
    if live == [] then Zeros(size)
    else
      var (i, at) := live[|live| - 1];
      Assembled(parts, bytes, live[..|live| - 1], at) + bytes[i] + Zeros(Minus(size, at + parts[i].width))
  }

  function Minus(a: nat, b: nat): nat {
    if a < b then 0 else a - b
  }

  lemma {:induction false} LiveOffsets(parts: seq<Part>, order: seq<nat>)
    requires Indices(order, |parts|)
    ensures forall k | 0 <= k < |Live(parts, order)| ::
              var (i, at) := Live(parts, order)[k]; i < |parts| && parts[i].live && at + parts[i].width <= Size(Widths(parts), order)
    ensures LivePartsHaveWidth(parts) ==>
              forall k, l | 0 <= k < l < |Live(parts, order)| :: Live(parts, order)[k].1 < Live(parts, order)[l].1
  {
    if order != [] {
      LiveOffsets(parts, order[..|order| - 1]);
    }
  }

  lemma ZerosAdd(a: nat, b: nat)
    ensures Zeros(a) + Zeros(b) == Zeros(a + b)
  {
  }

  lemma {:induction false} BytesAreAssembled(parts: seq<Part>, bytes: seq<seq<byte>>, order: seq<nat>)
    requires Fills(parts, bytes) && Indices(order, |parts|)
    ensures PlacedIn(Live(parts, order), |parts|)
    ensures Bytes(bytes, order) == Assembled(parts, bytes, Live(parts, order), Size(Widths(parts), order))
  {
    if order == [] {
      NothingAssembled(parts, bytes);
    } else {
      var front, last := order[..|order| - 1], order[|order| - 1];
      BytesAreAssembled(parts, bytes, front);
      LiveOffsets(parts, front);
      hide Assembled, PlacedIn;
      var live, size := Live(parts, front), Size(Widths(parts), front);
      PlacedInNext(live, last, size, |parts|);
      if parts[last].live {
        OneMoreLive(parts, bytes, live, size, last);
      } else {
        assert Live(parts, order) == live;
        MoreZeros(parts, bytes, live, size, parts[last].width);
      }
    }
  }

  lemma PlacedInNext(live: seq<(nat, nat)>, i: nat, at: nat, n: nat)
    requires PlacedIn(live, n) && i < n
    ensures PlacedIn(live + [(i, at)], n)
  {
  }

  lemma NothingAssembled(parts: seq<Part>, bytes: seq<seq<byte>>)
    requires |bytes| == |parts|
    ensures Assembled(parts, bytes, [], 0) == []
  {
  }

  lemma OneMoreLive(parts: seq<Part>, bytes: seq<seq<byte>>, live: seq<(nat, nat)>, size: nat, i: nat)
    requires |bytes| == |parts| && i < |parts| && PlacedIn(live, |parts|)
    ensures Assembled(parts, bytes, live + [(i, size)], size + parts[i].width) == Assembled(parts, bytes, live, size) + bytes[i]
  {
    var more := live + [(i, size)];
    assert more[..|more| - 1] == live && more[|more| - 1] == (i, size);
    assert Zeros(Minus(size + parts[i].width, size + parts[i].width)) == [];
  }

  lemma MoreZeros(parts: seq<Part>, bytes: seq<seq<byte>>, live: seq<(nat, nat)>, size: nat, more: nat)
    requires |bytes| == |parts| && PlacedIn(live, |parts|)
    requires live != [] ==> var (i, at) := live[|live| - 1]; at + parts[i].width <= size
    ensures Assembled(parts, bytes, live, size + more) == Assembled(parts, bytes, live, size) + Zeros(more)
  {
    if live == [] {
      ZerosAdd(size, more);
    } else {
      var (i, at) := live[|live| - 1];
      ZerosAdd(size - (at + parts[i].width), more);
    }
  }

  /** Whatever the parts hold, two orders with the same layout give the same bytes. */
  lemma SameLayoutSameBytes(parts: seq<Part>, bytes: seq<seq<byte>>, a: seq<nat>, b: seq<nat>)
    requires Fills(parts, bytes) && Indices(a, |parts|) && Indices(b, |parts|) && SameLayout(parts, a, b)
    ensures Bytes(bytes, a) == Bytes(bytes, b)
  {
    BytesAreAssembled(parts, bytes, a);
    BytesAreAssembled(parts, bytes, b);
  }

  // ----- different layouts are told apart -----

  /** All parts blank. */
  function Blank(parts: seq<Part>): (bytes: seq<seq<byte>>)
    ensures |bytes| == |parts| && forall i | 0 <= i < |parts| :: bytes[i] == Zeros(parts[i].width)
  {
    seq(|parts|, i requires 0 <= i < |parts| => Zeros(parts[i].width))
  }

  lemma {:induction false} BlankBytes(parts: seq<Part>, bytes: seq<seq<byte>>, order: seq<nat>)
    requires |bytes| == |parts| && Indices(order, |parts|)
    requires forall k | 0 <= k < |order| :: bytes[order[k]] == Zeros(parts[order[k]].width)
    ensures Bytes(bytes, order) == Zeros(Size(Widths(parts), order))
  {
    if order != [] {
      var front, last := order[..|order| - 1], order[|order| - 1];
      assert bytes[order[|front|]] == Zeros(parts[last].width);
      BlankBytes(parts, bytes, front);
      ZerosAdd(Size(Widths(parts), front), parts[last].width);
    }
  }

  lemma {:induction false} BytesOfConcat(bytes: seq<seq<byte>>, a: seq<nat>, b: seq<nat>)
    requires Indices(a, |bytes|) && Indices(b, |bytes|)
    ensures Indices(a + b, |bytes|) && Bytes(bytes, a + b) == Bytes(bytes, a) + Bytes(bytes, b)
  {
    if b == [] {
      assert a + b == a;
    } else {
      BytesOfConcat(bytes, a, b[..|b| - 1]);
      assert (a + b)[..|a + b| - 1] == a + b[..|b| - 1];
    }
  }

  lemma BytesOfOne(bytes: seq<seq<byte>>, i: nat)
    requires i < |bytes|
    ensures Bytes(bytes, [i]) == bytes[i]
  {
    assert [i][..0] == [];
  }

  /** One marked part among blank ones is found behind the widths of the parts before it. */
  lemma MarkedBytes(parts: seq<Part>, order: seq<nat>, k: nat, mark: seq<byte>) returns (tail: nat)
    requires Indices(order, |parts|) && k < |order| && forall l | 0 <= l < |order| && l != k :: order[l] != order[k]
    ensures Bytes(Blank(parts)[order[k] := mark], order) ==
              Zeros(Size(Widths(parts), order[..k])) + mark + Zeros(tail)
  {
    hide Bytes, Size;
    var bytes := Blank(parts)[order[k] := mark];
    var a, x, b := order[..k], [order[k]], order[k + 1..];
    assert order == a + x + b;
    BytesOfConcat(bytes, a + x, b);
    BytesOfConcat(bytes, a, x);
    BytesOfOne(bytes, order[k]);
    forall l | 0 <= l < |b| ensures bytes[b[l]] == Zeros(parts[b[l]].width) {
      assert b[l] == order[k + 1 + l];
    }
    BlankBytes(parts, bytes, a);
    BlankBytes(parts, bytes, b);
    tail := Size(Widths(parts), b);
  }

  /** A mark stands at one place only. */
  lemma MarkPlace(mark: seq<byte>, p: nat, p': nat, tail: nat, tail': nat)
    requires !AllZero(mark) && Zeros(p) + mark + Zeros(tail) == Zeros(p') + mark + Zeros(tail')
    ensures p == p'
  {
    var i := FirstNonZero(mark);
    FirstOfMarked(mark, p, tail, i);
    FirstOfMarked(mark, p', tail', i);
  }

  lemma FirstOfMarked(mark: seq<byte>, p: nat, tail: nat, i: nat)
    requires i < |mark| && mark[i] != 0 && forall j | 0 <= j < i :: mark[j] == 0
    ensures var bs := Zeros(p) + mark + Zeros(tail); bs[p + i] != 0 && forall j | 0 <= j < p + i :: bs[j] == 0
  {
  }

  lemma FirstNonZero(mark: seq<byte>) returns (i: nat)
    requires !AllZero(mark)
    ensures i < |mark| && mark[i] != 0 && AllZero(mark[..i])
    ensures forall j | 0 <= j < i :: mark[j] == 0
  {
    i := 0;
    while mark[i] == 0
      invariant i < |mark| && (forall j | 0 <= j < i :: mark[j] == 0) && !AllZero(mark)
      decreases |mark| - i
    {
      if i + 1 == |mark| { assert AllZero(mark); }
      i := i + 1;
    }
  }

  /** The live parts are exactly those of the order, at the widths of the parts before them. */
  lemma {:induction false} LiveIff(parts: seq<Part>, order: seq<nat>, i: nat, at: nat)
    requires Indices(order, |parts|)
    ensures (i, at) in Live(parts, order) <==>
              exists k | 0 <= k < |order| :: order[k] == i && parts[i].live && at == Size(Widths(parts), order[..k])
  {
    hide Size, Widths;
    if order != [] {
      var n := |order| - 1;
      var front := order[..n];
      LiveIff(parts, front, i, at);
      if exists k | 0 <= k < |front| :: front[k] == i && parts[i].live && at == Size(Widths(parts), front[..k]) {
        var k :| 0 <= k < |front| && front[k] == i && parts[i].live && at == Size(Widths(parts), front[..k]);
        assert order[k] == i && order[..k] == front[..k];
      }
      if exists k | 0 <= k < |order| :: order[k] == i && parts[i].live && at == Size(Widths(parts), order[..k]) {
        var k :| 0 <= k < |order| && order[k] == i && parts[i].live && at == Size(Widths(parts), order[..k]);
        if k < n { assert front[k] == i && front[..k] == order[..k]; }
      }
      if order[n] == i && parts[i].live && at == Size(Widths(parts), front) {
        assert order[..n] == front;
      }
    }
  }

  /** Increasing lists with the same elements are equal. */
  lemma {:induction false} IncreasingAreEqual(a: seq<(nat, nat)>, b: seq<(nat, nat)>)
    requires forall k, l | 0 <= k < l < |a| :: a[k].1 < a[l].1
    requires forall k, l | 0 <= k < l < |b| :: b[k].1 < b[l].1
    requires forall x :: x in a <==> x in b
    ensures a == b
    decreases |a|
  {
    assert a != [] ==> a[0] in a;
    assert b != [] ==> b[0] in b;
    if a != [] && b != [] {
      var x, y := a[|a| - 1], b[|b| - 1];
      assert x in b && y in a;
      assert x == y;
      var a', b' := a[..|a| - 1], b[..|b| - 1];
      forall z ensures z in a' <==> z in b' {
        if z in a' { assert z in a && z.1 < x.1; }
        if z in b' { assert z in b && z.1 < y.1; }
      }
      IncreasingAreEqual(a', b');
      assert a == a' + [x] && b == b' + [y];
    }
  }

  /** Two orders that agree on blank parts, and on every live part marked among blank ones, have the
      same layout. */
  lemma AgreeingOnMarks(parts: seq<Part>, a: seq<nat>, b: seq<nat>, marks: seq<seq<byte>>)
    requires LivePartsHaveWidth(parts) && |marks| == |parts|
    requires Indices(a, |parts|) && Indices(b, |parts|) && LiveOnce(parts, a) && LiveOnce(parts, b)
    requires forall i | 0 <= i < |parts| && parts[i].live :: !AllZero(marks[i]) && (i in a <==> i in b)
    requires Bytes(Blank(parts), a) == Bytes(Blank(parts), b)
    requires forall i | 0 <= i < |parts| && parts[i].live && i in a ::
               Bytes(Blank(parts)[i := marks[i]], a) == Bytes(Blank(parts)[i := marks[i]], b)
    ensures SameLayout(parts, a, b)
  {
    BlankBytes(parts, Blank(parts), a);
    BlankBytes(parts, Blank(parts), b);
    assert Size(Widths(parts), a) == |Bytes(Blank(parts), a)| == |Bytes(Blank(parts), b)| == Size(Widths(parts), b);
    LiveOffsets(parts, a);
    LiveOffsets(parts, b);
    hide Bytes, Size, Widths, Live, Blank, Zeros;
    forall x ensures x in Live(parts, a) <==> x in Live(parts, b) {
      LiveIff(parts, a, x.0, x.1);
      LiveIff(parts, b, x.0, x.1);
      if x in Live(parts, a) {
        var k :| 0 <= k < |a| && a[k] == x.0 && parts[x.0].live && x.1 == Size(Widths(parts), a[..k]);
        assert a[k] in a;
        var l :| 0 <= l < |b| && b[l] == x.0;
        SamePlace(parts, a, k, b, l, marks[x.0]);
      }
      if x in Live(parts, b) {
        var l :| 0 <= l < |b| && b[l] == x.0 && parts[x.0].live && x.1 == Size(Widths(parts), b[..l]);
        assert b[l] in b;
        var k :| 0 <= k < |a| && a[k] == x.0;
        SamePlace(parts, a, k, b, l, marks[x.0]);
      }
    }
    IncreasingAreEqual(Live(parts, a), Live(parts, b));
  }

  lemma SamePlace(parts: seq<Part>, a: seq<nat>, k: nat, b: seq<nat>, l: nat, mark: seq<byte>)
    requires Indices(a, |parts|) && Indices(b, |parts|) && LiveOnce(parts, a) && LiveOnce(parts, b) && !AllZero(mark)
    requires k < |a| && l < |b| && a[k] == b[l] && parts[a[k]].live
    requires Bytes(Blank(parts)[a[k] := mark], a) == Bytes(Blank(parts)[a[k] := mark], b)
    ensures Size(Widths(parts), a[..k]) == Size(Widths(parts), b[..l])
  {
    var tail := MarkedBytes(parts, a, k, mark);
    var tail' := MarkedBytes(parts, b, l, mark);
    MarkPlace(mark, Size(Widths(parts), a[..k]), Size(Widths(parts), b[..l]), tail, tail');
  }

  /** An order with the layout of one that has every live part once has it once, too. */
  lemma SameLayoutOnce(parts: seq<Part>, a: seq<nat>, b: seq<nat>)
    requires LivePartsHaveWidth(parts) && Indices(a, |parts|) && Indices(b, |parts|)
    requires LiveOnce(parts, a) && SameLayout(parts, a, b)
    ensures LiveOnce(parts, b)
  {
    var w := Widths(parts);
    forall k, l | 0 <= k < l < |b| && b[k] == b[l] ensures !parts[b[k]].live {
      if parts[b[k]].live {
        var i, at, at' := b[k], Size(w, b[..k]), Size(w, b[..l]);
        LaterIsFurther(parts, b, k, l);
        LiveIff(parts, b, i, at);
        LiveIff(parts, b, i, at');
        LiveIff(parts, a, i, at);
        LiveIff(parts, a, i, at');
      }
    }
  }

  /** Bytes are zero exactly if those of all parts are. */
  lemma {:induction false} BytesZeroIff(parts: seq<seq<byte>>, order: seq<nat>)
    requires Indices(order, |parts|)
    ensures AllZero(Bytes(parts, order)) <==> forall k | 0 <= k < |order| :: AllZero(parts[order[k]])
  {
    if order != [] {
      var n := |order| - 1;
      BytesZeroIff(parts, order[..n]);
      ZeroConcat(Bytes(parts, order[..n]), parts[order[n]]);
      assert forall k | 0 <= k < n :: order[..n][k] == order[k];
    }
  }

  lemma ZeroConcat(a: seq<byte>, b: seq<byte>)
    ensures AllZero(a + b) <==> AllZero(a) && AllZero(b)
  {
    if !AllZero(a) {
      var i :| 0 <= i < |a| && a[i] != 0;
      assert (a + b)[i] != 0;
    }
    if !AllZero(b) {
      var i :| 0 <= i < |b| && b[i] != 0;
      assert (a + b)[|a| + i] != 0;
    }
  }

  /** Numbering the parts anew. */
  lemma {:induction false} BytesRenamed(parts: seq<seq<byte>>, order: seq<nat>, named: seq<seq<byte>>)
    requires Indices(order, |parts|) && |named| == |order| && forall k | 0 <= k < |order| :: named[k] == parts[order[k]]
    ensures Bytes(named, Declared(|order|)) == Bytes(parts, order)
  {
    BytesRenamedUpTo(parts, order, named, |order|);
    assert order[..|order|] == order;
  }

  lemma {:induction false} BytesRenamedUpTo(parts: seq<seq<byte>>, order: seq<nat>, named: seq<seq<byte>>, n: nat)
    requires Indices(order, |parts|) && |named| == |order| && n <= |order|
    requires forall k | 0 <= k < |order| :: named[k] == parts[order[k]]
    ensures Bytes(named, Declared(n)) == Bytes(parts, order[..n])
  {
    if n > 0 {
      BytesRenamedUpTo(parts, order, named, n - 1);
      assert Declared(n)[..n - 1] == Declared(n - 1) && order[..n][..n - 1] == order[..n - 1];
    }
  }

  /** Two live parts that the orders list the other way round have different layouts. */
  lemma InversionChangesLayout(parts: seq<Part>, a: seq<nat>, b: seq<nat>, k: nat, l: nat, k': nat, l': nat)
    requires LivePartsHaveWidth(parts) && Indices(a, |parts|) && Indices(b, |parts|)
    requires LiveOnce(parts, a) && LiveOnce(parts, b)
    requires k < l < |a| && k' < l' < |b| && a[k] == b[l'] && a[l] == b[k']
    requires parts[a[k]].live && parts[a[l]].live
    ensures !SameLayout(parts, a, b)
  {
    var w := Widths(parts);
    var i, j := a[k], a[l];
    LaterIsFurther(parts, a, k, l);
    LaterIsFurther(parts, b, k', l');
    LiveIff(parts, a, i, Size(w, a[..k]));
    LiveIff(parts, a, j, Size(w, a[..l]));
    LiveIff(parts, b, i, Size(w, a[..k]));
    LiveIff(parts, b, j, Size(w, a[..l]));
  }

  lemma LaterIsFurther(parts: seq<Part>, order: seq<nat>, k: nat, l: nat)
    requires Indices(order, |parts|) && k < l < |order| && parts[order[k]].width > 0
    ensures Size(Widths(parts), order[..k]) < Size(Widths(parts), order[..l])
  {
    var w := Widths(parts);
    assert order[..l] == order[..k] + [order[k]] + order[k + 1..l];
    SizeOfConcat(w, order[..k] + [order[k]], order[k + 1..l]);
    SizeOfConcat(w, order[..k], [order[k]]);
    SizeOfOne(w, order[k]);
  }

  // ----- parts that take no bytes -----

  /** The order without the parts that take no bytes. */
  function Visible(widths: seq<nat>, order: seq<nat>): (r: seq<nat>)
    requires Indices(order, |widths|)
    ensures Indices(r, |widths|)
  {
    if order == [] then []
    else
      var front, last := order[..|order| - 1], order[|order| - 1];
      Visible(widths, front) + if widths[last] > 0 then [last] else []
  }

  lemma {:induction false} VisibleDecides(parts: seq<Part>, order: seq<nat>)
    requires LivePartsHaveWidth(parts) && Indices(order, |parts|)
    ensures var r := Visible(Widths(parts), order);
            Size(Widths(parts), r) == Size(Widths(parts), order) && Live(parts, r) == Live(parts, order)
  {
    if order != [] {
      var front, last := order[..|order| - 1], order[|order| - 1];
      VisibleDecides(parts, front);
      if parts[last].width > 0 {
        var r := Visible(Widths(parts), front) + [last];
        assert r[..|r| - 1] == Visible(Widths(parts), front);
      } else {
        assert Visible(Widths(parts), order) == Visible(Widths(parts), front);
      }
    }
  }

  /** Orders that differ in invisible parts only have the same layout. */
  lemma SameVisibleSameLayout(parts: seq<Part>, a: seq<nat>, b: seq<nat>)
    requires LivePartsHaveWidth(parts) && Indices(a, |parts|) && Indices(b, |parts|)
    requires Visible(Widths(parts), a) == Visible(Widths(parts), b)
    ensures SameLayout(parts, a, b)
  {
    VisibleDecides(parts, a);
    VisibleDecides(parts, b);
  }

  lemma VisibleOfNext(widths: seq<nat>, order: seq<nat>, i: nat)
    requires Indices(order, |widths|) && i < |widths|
    ensures Visible(widths, order + [i]) == Visible(widths, order) + if widths[i] > 0 then [i] else []
  {
    assert (order + [i])[..|order|] == order;
  }

  /** Replacing an invisible part by another does not show. */
  lemma {:induction false} VisibleOfUpdate(widths: seq<nat>, order: seq<nat>, k: nat, i: nat)
    requires Indices(order, |widths|) && k < |order| && i < |widths| && widths[order[k]] == 0 && widths[i] == 0
    ensures Visible(widths, order[k := i]) == Visible(widths, order)
  {
    var front := order[..|order| - 1];
    if k < |front| {
      VisibleOfUpdate(widths, front, k, i);
      assert order[k := i][..|order| - 1] == front[k := i];
    } else {
      assert order[k := i][..|order| - 1] == front;
    }
  }
}
