/**
 * The one-time-code fixture: a base32 decoder with a 32-bit accumulator (RFC 4648
 * section 6) and the counter message that goes into the keyed hash.
 */
module Totp {
  import opened Bytes

  const ALPHABET := "ABCDEFGHIJKLMNOPQRSTUVWXYZ234567"

  /** `ALPHABET.indexOf(c)` */
  function IndexOf(c: char): (index: int)
    ensures -1 <= index < 32
  {
    IndexFrom(c, 0)
  }

  function IndexFrom(c: char, from: nat): (index: int)
    requires from <= 32
    ensures index == -1 || from <= index < 32
    decreases 32 - from
  {
    if from == 32 then -1 else if ALPHABET[from] == c then from else IndexFrom(c, from + 1)
  }

  predicate IsBase32(text: string) {
    forall i | 0 <= i < |text| :: 0 <= IndexOf(text[i])
  }

  const TWO_32 := 0x1_0000_0000

  /** `(buffer << 5) | index` on 32 bits; an absent character is -1, all ones. */
  function Accumulate(buffer: int, index: int): (next: int)
    requires index < 32
    ensures 0 <= next < TWO_32
  {
    ShiftedIsFree(buffer);
    if index < 0 then TWO_32 - 1 else buffer * 32 % TWO_32 + index
  }

  /** Five bits are free after the shift. */
  lemma {:induction false} ShiftedIsFree(buffer: int)
    ensures 0 <= buffer * 32 % TWO_32 <= TWO_32 - 32
  {
    var s, t := buffer * 32 / TWO_32, buffer * 32 % TWO_32;
    assert t == 32 * (buffer - s * 0x800_0000);
  }

  function ShiftRight(n: nat, bits: nat): nat {
    if bits == 0 then n else ShiftRight(n / 2, bits - 1)
  }

  /** The text as one unbounded number of five-bit digits. */
  function NumberOf(text: string): (n: nat)
    requires IsBase32(text)
  {
    if text == "" then 0 else NumberOf(text[..|text| - 1]) * 32 + IndexOf(text[|text| - 1])
  }

  /** The octets of that number, its trailing odd bits dropped. */
  function Regrouped(text: string): seq<Byte>
    requires IsBase32(text)
  {
    BigEndian(ShiftRight(NumberOf(text), 5 * |text| % 8), 5 * |text| / 8)
  }

  lemma {:induction false} ShiftOneMore(n: nat, bits: nat)
    ensures ShiftRight(n, bits) / 2 == ShiftRight(n, bits + 1)
  {
    if bits > 0 { ShiftOneMore(n / 2, bits - 1); }
  }

  lemma {:induction false} ShiftByOctet(n: nat, bits: nat)
    ensures ShiftRight(n, bits) / 256 == ShiftRight(n, bits + 8)
  {
    ShiftOneMore(n, bits);
    ShiftOneMore(n, bits + 1);
    ShiftOneMore(n, bits + 2);
    ShiftOneMore(n, bits + 3);
    ShiftOneMore(n, bits + 4);
    ShiftOneMore(n, bits + 5);
    ShiftOneMore(n, bits + 6);
    ShiftOneMore(n, bits + 7);
  }

  /** A digit shifted in leaves what is above it alone. */
  lemma {:induction false} ShiftedIn(number: nat, index: nat, bits: nat)
    requires index < 32
    ensures ShiftRight(number * 32 + index, bits + 5) == ShiftRight(number, bits)
  {
    var n := number * 32 + index;
    var a, b, c, d := n / 2, n / 4, n / 8, n / 16;
    assert a / 2 == b && b / 2 == c && c / 2 == d && d / 2 == number;
    assert ShiftRight(n, bits + 5) == ShiftRight(a, bits + 4) == ShiftRight(b, bits + 3);
    assert ShiftRight(b, bits + 3) == ShiftRight(c, bits + 2) == ShiftRight(d, bits + 1) == ShiftRight(number, bits);
  }

  /** The size of a window of 28 to 32 bits. */
  function WindowSize(bits: nat): nat
    requires 28 <= bits <= 32
    ensures WindowSize(bits) > 0
  {
    if bits == 32 then TWO_32 else if bits == 31 then 0x8000_0000 else if bits == 30 then 0x4000_0000
    else if bits == 29 then 0x2000_0000 else 0x1000_0000
  }

  lemma {:induction false} RemainderIs(n: int, size: nat, quotient: int, rest: int)
    requires size > 0 && n == quotient * size + rest && 0 <= rest < size
    ensures n % size == rest
  {
    MultiplesAreApart(n / size, quotient, size);
  }

  lemma {:induction false} MultiplesAreApart(p: int, q: int, size: nat)
    ensures p < q ==> p * size + size <= q * size
    ensures q < p ==> q * size + size <= p * size
    decreases if p < q then q - p else p - q
  {
    if p < q - 1 { MultiplesAreApart(p + 1, q, size); }
    if q < p - 1 { MultiplesAreApart(p - 1, q, size); }
  }

  lemma {:induction false} HalfOfWindow(n: nat, width: nat)
    requires 28 < width <= 32
    ensures n % WindowSize(width) / 2 == n / 2 % WindowSize(width - 1)
  {
    var half := WindowSize(width - 1);
    var q, r := n / WindowSize(width), n % WindowSize(width);
    assert n == q * WindowSize(width) + r && WindowSize(width) == 2 * half;
    assert n / 2 == q * half + r / 2;
    RemainderIs(n / 2, half, q, r / 2);
  }

  lemma {:induction false} OctetOfWindow(n: nat, width: nat)
    requires 28 <= width <= 32
    ensures n % WindowSize(width) % 256 == n % 256
  {
  }

  /** Of the 32 bits kept, only the low twelve are ever read, so losing the rest is harmless. */
  lemma {:induction false} WindowOfBuffer(n: nat, width: nat, bits: nat)
    requires width <= 32 && bits <= width - 28
    ensures ShiftRight(n % WindowSize(width), bits) % 256 == ShiftRight(n, bits) % 256
  {
    if bits == 0 {
      OctetOfWindow(n, width);
    } else {
      HalfOfWindow(n, width);
      WindowOfBuffer(n / 2, width - 1, bits - 1);
    }
  }

  /** One more character keeps the accumulator equal to the low 32 bits of the unbounded number. */
  lemma {:induction false} AccumulatedNumber(text: string, i: nat)
    requires IsBase32(text) && i < |text|
    ensures NumberOf(text[..i + 1]) == NumberOf(text[..i]) * 32 + IndexOf(text[i])
    ensures Accumulate(NumberOf(text[..i]) % TWO_32, IndexOf(text[i])) == NumberOf(text[..i + 1]) % TWO_32
  {
    assert text[..i + 1][..i] == text[..i];
    ShiftInto32(NumberOf(text[..i]), IndexOf(text[i]));
  }

  lemma {:induction false} ShiftInto32(n: nat, index: nat)
    requires index < 32
    ensures n % TWO_32 * 32 % TWO_32 + index == (n * 32 + index) % TWO_32
  {
    var q, r := n / TWO_32, n % TWO_32;
    var s, t := r * 32 / TWO_32, r * 32 % TWO_32;
    assert n * 32 + index == (q * 32 + s) * TWO_32 + (t + index);
    assert t == 32 * (r - s * 0x800_0000);
    RemainderIs(n * 32 + index, TWO_32, q * 32 + s, t + index);
  }

  /** When eight bits are there, the octet read from the 32-bit window extends the regrouping. */
  lemma {:induction false} OctetOut(number: nat, index: nat, bits: nat, size: nat)
    requires index < 32 && 3 <= bits < 8
    ensures BigEndian(ShiftRight(number * 32 + index, bits - 3), size + 1)
         == BigEndian(ShiftRight(number, bits), size) + [ShiftRight((number * 32 + index) % TWO_32, bits - 3) % 256]
  {
    var next := number * 32 + index;
    ShiftedIn(number, index, bits);
    ShiftByOctet(next, bits - 3);
    WindowOfBuffer(next, 32, bits - 3);
  }

  /** What the loop has after the characters of `text`: the low 32 bits of their number, and its full octets but for the last `bits` bits. */
  predicate Decoded(text: string, buffer: int, bits: nat, output: seq<Byte>) {
    IsBase32(text) ==>
      buffer == NumberOf(text) % TWO_32 && output == BigEndian(ShiftRight(NumberOf(text), bits), |output|)
  }

  lemma {:induction false} CharacterRead(text: string, i: nat, bits: nat, buffer: int, output: seq<Byte>, next: int)
    requires i < |text| && bits < 8 && Decoded(text[..i], buffer, bits, output)
    requires next == Accumulate(buffer, IndexOf(text[i]))
    ensures bits < 3 ==> Decoded(text[..i + 1], next, bits + 5, output)
    ensures bits >= 3 ==> Decoded(text[..i + 1], next, bits - 3, output + [ShiftRight(next, bits - 3) % 256])
  {
    if IsBase32(text[..i + 1]) {
      var before := text[..i + 1];
      assert before[..i] == text[..i] && before[i] == text[i];
      AccumulatedNumber(before, i);
      assert before[..i + 1] == before;
      var number, index := NumberOf(text[..i]), IndexOf(text[i]);
      if bits < 3 { ShiftedIn(number, index, bits); } else { OctetOut(number, index, bits, |output|); }
    }
  }

  /** The decoder: the accumulator is never masked, yet every octet comes out as if it were unbounded. */
  method Base32Decode(value: string) returns (output: seq<Byte>)
    ensures IsBase32(value) ==> output == Regrouped(value)
  {
    var buffer, bits := 0, 0;
    output := [];
    for i := 0 to |value|
      invariant 0 <= bits < 8 && 5 * i == 8 * |output| + bits && 0 <= buffer < TWO_32
      invariant Decoded(value[..i], buffer, bits, output)
    {
      ghost var before := buffer;
      buffer := Accumulate(buffer, IndexOf(value[i]));
      CharacterRead(value, i, bits, before, output, buffer);
      bits := bits + 5;
      if bits >= 8 {
        bits := bits - 8;
        output := output + [ShiftRight(buffer, bits) % 256];
      }
    }
    assert value[..|value|] == value;
    RegroupedAt(value, bits, |output|);
  }

  lemma {:induction false} RegroupedAt(text: string, bits: nat, size: nat)
    requires bits < 8 && 5 * |text| == 8 * size + bits
    ensures 5 * |text| % 8 == bits && 5 * |text| / 8 == size
  {
  }

  // --------------------------------------------------- decoding undoes encoding

  function ShiftLeft(n: nat, bits: nat): nat {
    if bits == 0 then n else 2 * ShiftLeft(n, bits - 1)
  }

  function DigitsOf(n: nat, size: nat): (text: string)
    ensures |text| == size
  {
    if size == 0 then "" else DigitsOf(n / 32, size - 1) + [ALPHABET[n % 32]]
  }

  /** RFC 4648 base32 without padding: zero bits fill the last digit. */
  function Base32Encode(bytes: seq<Byte>): string {
    var size := (8 * |bytes| + 4) / 5;
    DigitsOf(ShiftLeft(FromBigEndian(bytes), 5 * size - 8 * |bytes|), size)
  }

  predicate FitsBits(n: nat, bits: nat) {
    if bits == 0 then n == 0 else FitsBits(n / 2, bits - 1)
  }

  lemma {:induction false} DigitIndex(d: nat)
    requires d < 32
    ensures IndexOf(ALPHABET[d]) == d
  {
    IndexFromReaches(d, 0);
  }

  lemma {:induction false} IndexFromReaches(d: nat, from: nat)
    requires from <= d < 32
    ensures IndexFrom(ALPHABET[d], from) == d
    decreases d - from
  {
    if from < d {
      AlphabetDiffers(from, d);
      IndexFromReaches(d, from + 1);
    }
  }

  lemma {:induction false} AlphabetDiffers(a: nat, b: nat)
    requires a < b < 32
    ensures ALPHABET[a] != ALPHABET[b]
  {
    assert a < 26 ==> ALPHABET[a] == ('A' as int + a) as char;
    assert a >= 26 ==> ALPHABET[a] == ('2' as int + a - 26) as char;
    assert b < 26 ==> ALPHABET[b] == ('A' as int + b) as char;
    assert b >= 26 ==> ALPHABET[b] == ('2' as int + b - 26) as char;
  }

  lemma {:induction false} FitsLess(n: nat, bits: nat)
    requires FitsBits(n, bits + 5)
    ensures FitsBits(n / 32, bits)
  {
    var a, b, c, d := n / 2, n / 4, n / 8, n / 16;
    assert a / 2 == b && b / 2 == c && c / 2 == d && d / 2 == n / 32;
    assert FitsBits(a, bits + 4) && FitsBits(b, bits + 3) && FitsBits(c, bits + 2) && FitsBits(d, bits + 1);
  }

  lemma {:induction false} FitsOctetMore(n: nat, b: Byte, bits: nat)
    requires FitsBits(n, bits)
    ensures FitsBits(n * 256 + b, bits + 8)
  {
    var m := n * 256 + b;
    var m1, m2, m3, m4, m5, m6, m7 := m / 2, m / 4, m / 8, m / 16, m / 32, m / 64, m / 128;
    assert m7 / 2 == n && m6 / 2 == m7 && m5 / 2 == m6 && m4 / 2 == m5 && m3 / 2 == m4 && m2 / 2 == m3 && m1 / 2 == m2;
    assert FitsBits(m7, bits + 1) && FitsBits(m6, bits + 2) && FitsBits(m5, bits + 3) && FitsBits(m4, bits + 4);
    assert FitsBits(m3, bits + 5) && FitsBits(m2, bits + 6) && FitsBits(m1, bits + 7);
  }

  lemma {:induction false} OctetsFit(bytes: seq<Byte>)
    ensures FitsBits(FromBigEndian(bytes), 8 * |bytes|)
  {
    if bytes != [] {
      var n := |bytes| - 1;
      OctetsFit(bytes[..n]);
      FitsOctetMore(FromBigEndian(bytes[..n]), bytes[n], 8 * n);
    }
  }

  lemma {:induction false} ShiftedLeft(n: nat, bits: nat, pad: nat)
    requires FitsBits(n, bits)
    ensures FitsBits(ShiftLeft(n, pad), bits + pad) && ShiftRight(ShiftLeft(n, pad), pad) == n
  {
    if pad > 0 { ShiftedLeft(n, bits, pad - 1); }
  }

  lemma {:induction false} NumberOfDigits(n: nat, size: nat)
    requires FitsBits(n, 5 * size)
    ensures IsBase32(DigitsOf(n, size)) && NumberOf(DigitsOf(n, size)) == n
  {
    if size > 0 {
      FitsLess(n, 5 * size - 5);
      NumberOfDigits(n / 32, size - 1);
      DigitIndex(n % 32);
      NumberSnoc(DigitsOf(n / 32, size - 1), ALPHABET[n % 32]);
    }
  }

  lemma {:induction false} NumberSnoc(text: string, c: char)
    requires IsBase32(text) && 0 <= IndexOf(c)
    ensures IsBase32(text + [c]) && NumberOf(text + [c]) == NumberOf(text) * 32 + IndexOf(c)
  {
    assert (text + [c])[..|text|] == text;
  }

  /** Whatever octets are encoded, the decoder gives them back. */
  lemma {:induction false} DecodeUndoesEncode(bytes: seq<Byte>)
    ensures IsBase32(Base32Encode(bytes)) && Regrouped(Base32Encode(bytes)) == bytes
  {
    var size := (8 * |bytes| + 4) / 5;
    var pad := 5 * size - 8 * |bytes|;
    OctetsFit(bytes);
    ShiftedLeft(FromBigEndian(bytes), 8 * |bytes|, pad);
    NumberOfDigits(ShiftLeft(FromBigEndian(bytes), pad), size);
    FromBigEndianInverse(bytes);
    Padding(|bytes|, size, pad);
  }

  lemma {:induction false} Padding(octets: nat, size: nat, pad: nat)
    requires size == (8 * octets + 4) / 5 && pad == 5 * size - 8 * octets
    ensures 5 * size / 8 == octets && 5 * size % 8 == pad
  {
  }

  // ------------------------------------------------------- around the keyed hash

  /** The counter as the eight octets that are hashed, written from the last one back. */
  method CounterMessage(counter: nat) returns (message: array<Byte>)
    ensures message[..] == BigEndian(counter, 8)
  {
    message := new Byte[8];
    var remainder := counter;
    var index := 7;
    ghost var suffix: seq<Byte> := [];
    while index >= 0
      invariant -1 <= index <= 7
      invariant message[index + 1..] == suffix
      invariant BigEndian(remainder, index + 1) + suffix == BigEndian(counter, 8)
    {
      message[index] := remainder % 256;
      suffix := [remainder % 256] + suffix;
      assert BigEndian(remainder, index + 1) == BigEndian(remainder / 256, index) + [remainder % 256];
      remainder := remainder / 256;
      index := index - 1;
    }
  }

  /** The alphabet of RFC 4648 section 6: the letters, then the digits from 2 to 7. */
  lemma {:induction false} AlphabetExactly(c: char)
    ensures IndexOf(c) == if 'A' <= c <= 'Z' then c as int - 'A' as int else if '2' <= c <= '7' then c as int - '2' as int + 26 else -1
  {
    if 'A' <= c <= 'Z' {
      assert ALPHABET[c as int - 'A' as int] == c;
      DigitIndex(c as int - 'A' as int);
    } else if '2' <= c <= '7' {
      assert ALPHABET[c as int - '2' as int + 26] == c;
      DigitIndex(c as int - '2' as int + 26);
    } else {
      Absent(c, 0);
    }
  }

  lemma {:induction false} Absent(c: char, from: nat)
    requires from <= 32 && forall i | from <= i < 32 :: ALPHABET[i] != c
    ensures IndexFrom(c, from) == -1
    decreases 32 - from
  {
    if from < 32 { Absent(c, from + 1); }
  }

  /** The accumulator takes in a digit on 32 bits; a character that is none fills it with ones. */
  lemma {:induction false} AccumulateExactly(buffer: nat, index: int)
    requires -1 <= index < 32 && buffer < 0x1_0000_0000
    ensures index == -1 ==> Accumulate(buffer, index) == 0xFFFF_FFFF
    ensures 0 <= index ==> Accumulate(buffer, index) == (buffer * 32 + index) % 0x1_0000_0000
  {
    ShiftedIsFree(buffer);
    var q, r := buffer * 32 / TWO_32, buffer * 32 % TWO_32;
    assert buffer * 32 == q * TWO_32 + r;
    if 0 <= index { RemainderIs(buffer * 32 + index, TWO_32, q, r + index); }
  }
}
