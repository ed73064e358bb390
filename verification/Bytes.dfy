/** Bytes, and 32-bit signed integers in network order. */
module Bytes {

  type Byte = x: int | 0 <= x < 256

  type Int32 = x: int | -0x8000_0000 <= x < 0x8000_0000

  /** A `static_cast` of an unsigned 32-bit value to a signed one, and back. */
  function ToSigned(x: int): Int32
    requires 0 <= x < 0x1_0000_0000
  {
    if x < 0x8000_0000 then x else x - 0x1_0000_0000
  }

  function ToUnsigned(x: Int32): (r: int)
    ensures 0 <= r < 0x1_0000_0000
  {
    if x >= 0 then x else x + 0x1_0000_0000
  }

  function Encode32(x: Int32): seq<Byte> {
    var u := ToUnsigned(x);
    var v := u / 0x100;
    var w := v / 0x100;
    [w / 0x100, w % 0x100, v % 0x100, u % 0x100]
  }

  function Decode32(b: seq<Byte>): Int32
    requires |b| >= 4
  {
    var v: int := b[0];
    var w: int := v * 0x100 + b[1];
    var x: int := w * 0x100 + b[2];
    ToSigned(x * 0x100 + b[3])
  }

  /** Network order: the first byte weighs most. */
  lemma EncodesInOrder(x: Int32)
    ensures |Encode32(x)| == 4
    ensures Encode32(x)[0] == ToUnsigned(x) / 0x100_0000
    ensures Encode32(x)[1] == ToUnsigned(x) / 0x1_0000 % 0x100
    ensures Encode32(x)[2] == ToUnsigned(x) / 0x100 % 0x100
    ensures Encode32(x)[3] == ToUnsigned(x) % 0x100
  {
    TwoBytes(ToUnsigned(x));
    ThreeBytes(ToUnsigned(x));
  }

  lemma TwoBytes(u: nat)
    ensures u / 0x100 / 0x100 == u / 0x1_0000
  {
  }

  lemma ThreeBytes(u: nat)
    ensures u / 0x100 / 0x100 / 0x100 == u / 0x100_0000
  {
    TwoBytes(u);
    TwoBytesMore(u);
  }

  lemma TwoBytesMore(u: nat)
    ensures u / 0x1_0000 / 0x100 == u / 0x100_0000
  {
  }

  lemma DecodesInOrder(b: seq<Byte>)
    requires |b| >= 4
    ensures ToUnsigned(Decode32(b))
         == 0x100_0000 * (b[0] as int) + 0x1_0000 * (b[1] as int) + 0x100 * (b[2] as int) + b[3]
  {
  }

  lemma DecodeEncode32(x: Int32, tail: seq<Byte>)
    ensures |Encode32(x)| == 4 && Decode32(Encode32(x) + tail) == x
  {
  }

  lemma SameDigits(p: int, a: Byte, q: int, b: Byte)
    requires p * 0x100 + a == q * 0x100 + b
    ensures p == q && a == b
  {
  }

  /** Different bytes decode to different integers. */
  lemma DecodeInjective(a: seq<Byte>, b: seq<Byte>)
    requires |a| >= 4 && |b| >= 4 && Decode32(a) == Decode32(b)
    ensures a[..4] == b[..4]
  {
    var v: int, v': int := a[0], b[0];
    var w, w' := v * 0x100 + a[1], v' * 0x100 + b[1];
    SameDigits(w * 0x100 + a[2], a[3], w' * 0x100 + b[2], b[3]);
    SameDigits(w, a[2], w', b[2]);
    SameDigits(v, a[1], v', b[1]);
  }

  lemma EncodeDecode32(b: seq<Byte>)
    requires |b| == 4
    ensures Encode32(Decode32(b)) == b
  {
    var x := Decode32(b);
    DecodeEncode32(x, []);
    assert Encode32(x) + [] == Encode32(x) && Encode32(x)[..4] == Encode32(x) && b[..4] == b;
    DecodeInjective(Encode32(x), b);
  }
}
