/** Octets and big-endian numbers. */
module Bytes {

  type Byte = b: int | 0 <= b < 256

  /** The big-endian bytes of `n`, dropping what does not fit. */
  function BigEndian(n: nat, size: nat): (bytes: seq<Byte>)
    ensures |bytes| == size
  {
    if size == 0 then [] else BigEndian(n / 256, size - 1) + [n % 256]
  }

  function FromBigEndian(bytes: seq<Byte>): nat {
    if bytes == [] then 0 else FromBigEndian(bytes[..|bytes| - 1]) * 256 + bytes[|bytes| - 1]
  }

  predicate FitsIn(n: nat, size: nat) {
    if size == 0 then n == 0 else FitsIn(n / 256, size - 1)
  }

  lemma {:induction false} BigEndianInverse(n: nat, size: nat)
    requires FitsIn(n, size)
    ensures FromBigEndian(BigEndian(n, size)) == n
  {
    if size > 0 {
      BigEndianInverse(n / 256, size - 1);
      assert BigEndian(n, size)[..size - 1] == BigEndian(n / 256, size - 1);
    }
  }

  lemma {:induction false} FromBigEndianInverse(bytes: seq<Byte>)
    ensures BigEndian(FromBigEndian(bytes), |bytes|) == bytes
  {
    if bytes != [] { FromBigEndianInverse(bytes[..|bytes| - 1]); }
  }

  // ------------------------------------------------------------------------ masks

  /** The byte `b & keep | mark`. */
  function Masked(b: Byte, keep: bv8, mark: bv8): Byte {
    (((b as bv8) & keep) | mark) as int
  }

  function BitsOf(b: Byte): (w: bv8)
    ensures w as int == b
  {
    if b == 0 then 0 else BitsOf(b - 1) + 1
  }

  lemma {:induction false} SameBits(w: bv8, b: int)
    requires w as int == b
    ensures b as bv8 == w
  {
  }

  lemma {:induction false} OneByteOfBits(b: Byte)
    ensures (b as bv8) as int == b
  {
    SameBits(BitsOf(b), b);
  }

  lemma {:induction false} LowBits(w: bv8)
    ensures w & 0x0f < 0x10 && (w & 0x0f) as int == w as int % 16
    ensures w & 0x3f < 0x40 && (w & 0x3f) as int == w as int % 64
  {
    assert w & 0x0f == w % 16 && w & 0x3f == w % 64;
  }

  lemma {:induction false} SetAbove(v: bv8, w: bv8)
    requires v < 0x10 && w < 0x40
    ensures (v | 0x70) as int == v as int + 0x70
    ensures (w | 0x80) as int == w as int + 0x80
  {
    assert v | 0x70 == v + 0x70 && w | 0x80 == w + 0x80;
  }

  /** These masks keep the low bits and set a mark above them. */
  lemma {:induction false} MaskedBits(b: Byte)
    ensures Masked(b, 0x0f, 0x70) == b % 16 + 0x70
    ensures Masked(b, 0x3f, 0x80) == b % 64 + 0x80
  {
    var w := b as bv8;
    OneByteOfBits(b);
    LowBits(w);
    SetAbove(w & 0x0f, w & 0x3f);
  }
}
