/** Bytes, fixed-width little-endian words and the two 32-bit reinterpretations that the
    bridge relies on when it assigns between `int32_t` and `uint32_t` members. */
module LittleEndian {
  type byte = x: int | 0 <= x < 256

  const TWO_TO_THE_31: int := 0x8000_0000
  const TWO_TO_THE_32: int := 0x1_0000_0000

  type uint32 = x: int | 0 <= x < TWO_TO_THE_32

  predicate IsUint32(x: int) { 0 <= x < TWO_TO_THE_32 }

  predicate IsInt32(x: int) { -TWO_TO_THE_31 <= x < TWO_TO_THE_31 }

  /** `uint32_t y = x;` */
  function ToUint32(x: int): (y: int)
    ensures IsUint32(y)
    ensures IsUint32(x) ==> y == x
  {
    x % TWO_TO_THE_32
  }

  /** `int32_t y = x;` on a two's complement machine. */
  function ToInt32(x: int): (y: int)
    ensures IsInt32(y)
    ensures IsInt32(x) ==> y == x
    ensures ToUint32(y) == ToUint32(x)
  {
    var u := x % TWO_TO_THE_32;
    if u < TWO_TO_THE_31 then u else u - TWO_TO_THE_32
  }

  /** Reinterpreting a 32-bit word and back is the identity in both directions. */
  lemma Reinterpret(x: int)
    ensures IsUint32(x) ==> ToUint32(ToInt32(x)) == x
    ensures IsInt32(x) ==> ToInt32(ToUint32(x)) == x
  {
  }

  /** Sums may be reduced early. */
  lemma ToUint32Absorbs(a: int, b: int)
    ensures ToUint32(ToUint32(a) + b) == ToUint32(a + b)
    ensures ToUint32(a + ToUint32(b)) == ToUint32(a + b)
  {
    var sum := ToUint32(a + b);
    var q := (a + b) / TWO_TO_THE_32;
    RemainderIsUnique(ToUint32(a) + b, q - a / TWO_TO_THE_32, sum);
    RemainderIsUnique(a + ToUint32(b), q - b / TWO_TO_THE_32, sum);
  }

  lemma RemainderIsUnique(x: int, q: int, r: int)
    requires x == TWO_TO_THE_32 * q + r && 0 <= r < TWO_TO_THE_32
    ensures ToUint32(x) == r
  {
    var d := x / TWO_TO_THE_32 - q;
    assert TWO_TO_THE_32 * d == r - ToUint32(x);
    assert -1 < d < 1;
  }

  function Pow256(w: nat): (p: nat)
    ensures p >= 1
  {
    if w == 0 then 1 else 256 * Pow256(w - 1)
  }

  lemma Pow256Of4()
    ensures Pow256(4) == TWO_TO_THE_32
  {
    assert Pow256(4) == 256 * (256 * (256 * (256 * Pow256(0))));
  }

  function Encode(w: nat, n: nat): (bs: seq<byte>)
    ensures |bs| == w
  {
    if w == 0 then [] else [n % 256] + Encode(w - 1, n / 256)
  }

  function Decode(bs: seq<byte>): (n: nat)
    ensures n < Pow256(|bs|)
  {
    if bs == [] then 0 else bs[0] + 256 * Decode(bs[1..])
  }

  lemma {:induction false} DecodeOfEncode(w: nat, n: nat)
    requires n < Pow256(w)
    ensures Decode(Encode(w, n)) == n
  {
    if w > 0 {
      DecodeOfEncode(w - 1, n / 256);
      assert Encode(w, n)[1..] == Encode(w - 1, n / 256);
    }
  }

  lemma {:induction false} EncodeOfDecode(bs: seq<byte>)
    ensures Encode(|bs|, Decode(bs)) == bs
  {
    if bs != [] {
      EncodeOfDecode(bs[1..]);
      var n := Decode(bs);
      assert n % 256 == bs[0] && n / 256 == Decode(bs[1..]);
      assert bs == [bs[0]] + bs[1..];
    }
  }

  /** A 32-bit word on the wire. */
  function U32(x: int): (bs: seq<byte>)
    ensures |bs| == 4
  {
    Encode(4, ToUint32(x))
  }

  lemma DecodeOfU32(x: int)
    ensures Decode(U32(x)) == ToUint32(x)
  {
    Pow256Of4();
    DecodeOfEncode(4, ToUint32(x));
  }

  lemma U32OfDecode(bs: seq<byte>)
    requires |bs| == 4
    ensures IsUint32(Decode(bs))
    ensures U32(Decode(bs)) == bs
  {
    Pow256Of4();
    EncodeOfDecode(bs);
  }
}
