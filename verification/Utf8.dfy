/**
 * JavaScript strings as UTF-16 code units, and their UTF-8 bytes (RFC 3629
 * section 3) as `Buffer` writes and reads them: malformed input is replaced,
 * never rejected.
 */
module Utf8 {
  import opened Bytes

  type CodeUnit = u: int | 0 <= u < 0x1_0000

  type JsString = seq<CodeUnit>

  const REPLACEMENT: CodeUnit := 0xFFFD

  predicate IsHigh(u: CodeUnit) {
    0xD800 <= u < 0xDC00
  }

  predicate IsLow(u: CodeUnit) {
    0xDC00 <= u < 0xE000
  }

  /** The text starts with a surrogate pair. */
  predicate StartsWithPair(s: JsString) {
    2 <= |s| && IsHigh(s[0]) && IsLow(s[1])
  }

  /** No surrogate stands alone. */
  predicate WellFormed(s: JsString) {
    s == [] || (if StartsWithPair(s) then WellFormed(s[2..]) else !IsHigh(s[0]) && !IsLow(s[0]) && WellFormed(s[1..]))
  }

  type CodePoint = c: int | 0 <= c < 0x11_0000

  function PairCodePoint(high: CodeUnit, low: CodeUnit): CodePoint
    requires IsHigh(high) && IsLow(low)
  {
    0x1_0000 + (high - 0xD800) * 0x400 + (low - 0xDC00)
  }

  function Units(c: CodePoint): JsString {
    if c < 0x1_0000 then [c] else [0xD800 + (c - 0x1_0000) / 0x400, 0xDC00 + (c - 0x1_0000) % 0x400]
  }

  function EncodeCodePoint(c: CodePoint): (bytes: seq<Byte>)
    ensures bytes != []
  {
    if c < 0x80 then [c]
    else if c < 0x800 then [0xC0 + c / 0x40, 0x80 + c % 0x40]
    else if c < 0x1_0000 then [0xE0 + c / 0x1000, 0x80 + c / 0x40 % 0x40, 0x80 + c % 0x40]
    else [0xF0 + c / 0x4_0000, 0x80 + c / 0x1000 % 0x40, 0x80 + c / 0x40 % 0x40, 0x80 + c % 0x40]
  }

  /** `Buffer.from(s, "utf8")` */
  function Encode(s: JsString): seq<Byte> {
    if s == [] then []
    else if StartsWithPair(s) then EncodeCodePoint(PairCodePoint(s[0], s[1])) + Encode(s[2..])
    else EncodeCodePoint(if IsHigh(s[0]) || IsLow(s[0]) then REPLACEMENT else s[0]) + Encode(s[1..])
  }

  predicate IsContinuation(b: Byte) {
    0x80 <= b < 0xC0
  }

  /** The range allowed for the byte after a lead byte; it keeps out overlong forms, surrogates and what lies past the last plane. */
  predicate IsSecond(lead: Byte, b: Byte) {
    (if lead == 0xE0 then 0xA0 else if lead == 0xF0 then 0x90 else 0x80) <= b
    && b < (if lead == 0xED then 0xA0 else if lead == 0xF4 then 0x90 else 0xC0)
  }

  /** How many bytes follow a lead byte; 0 for a byte that cannot lead. */
  function Following(lead: Byte): nat {
    if 0xC2 <= lead < 0xE0 then 1 else if 0xE0 <= lead < 0xF0 then 2 else if 0xF0 <= lead < 0xF5 then 3 else 0
  }

  /** How many bytes at the front form a complete sequence or the longest prefix of one. */
  function SequenceLength(b: seq<Byte>): (n: nat)
    requires b != []
    ensures 1 <= n <= |b|
  {
    var following := Following(b[0]);
    if following == 0 || |b| == 1 || !IsSecond(b[0], b[1]) then 1
    else if following == 1 || |b| == 2 || !IsContinuation(b[2]) then 2
    else if following == 2 || |b| == 3 || !IsContinuation(b[3]) then 3
    else 4
  }

  /** Six bits from each byte, most significant first. */
  function Join(b0: int, b1: int, b2: int, b3: int): int {
    b0 * 0x4_0000 + b1 % 0x40 * 0x1000 + b2 % 0x40 * 0x40 + b3 % 0x40
  }

  /** The code point of the first `n` bytes, or the replacement if they are not a complete sequence. */
  function FirstCodePoint(b: seq<Byte>, n: nat): CodePoint
    requires b != [] && n == SequenceLength(b)
  {
    if b[0] < 0x80 then b[0]
    else if Following(b[0]) != n - 1 || n == 1 then REPLACEMENT
    else if n == 2 then Join(0, 0, b[0] % 0x20, b[1])
    else if n == 3 then Join(0, b[0] % 0x10, b[1], b[2])
    else Join(b[0] % 8, b[1], b[2], b[3])
  }

  /** `buffer.toString("utf8")` */
  function Decode(b: seq<Byte>): JsString {
    if b == [] then []
    else
      var n := SequenceLength(b);
      Units(FirstCodePoint(b, n)) + Decode(b[n..])
  }

  lemma {:induction false} OneByteIsReadBack(c: CodePoint, rest: seq<Byte>)
    requires c < 0x80
    ensures var b := EncodeCodePoint(c) + rest; SequenceLength(b) == 1 && FirstCodePoint(b, 1) == c
  {
  }

  lemma {:induction false} TwoBytesAreReadBack(c: CodePoint, b: seq<Byte>)
    requires 0x80 <= c < 0x800 && 2 <= |b| && b[0] == 0xC0 + c / 0x40 && b[1] == 0x80 + c % 0x40
    ensures SequenceLength(b) == 2 && FirstCodePoint(b, 2) == c
  {
    assert b[0] % 0x20 == c / 0x40;
  }

  lemma {:induction false} ThreeBytesAreReadBack(c: CodePoint, b: seq<Byte>)
    requires 0x800 <= c < 0x1_0000 && !(0xD800 <= c < 0xE000)
    requires 3 <= |b| && b[0] == 0xE0 + c / 0x1000 && b[1] == 0x80 + c / 0x40 % 0x40 && b[2] == 0x80 + c % 0x40
    ensures SequenceLength(b) == 3 && FirstCodePoint(b, 3) == c
  {
    ThreeParts(c);
    assert b[0] % 0x10 == c / 0x1000;
  }

  lemma {:induction false} ThreeParts(c: CodePoint)
    requires c < 0x1_0000
    ensures c / 0x1000 * 0x1000 + c / 0x40 % 0x40 * 0x40 + c % 0x40 == c && c / 0x1000 < 0x10
    ensures c < 0x800 <==> c / 0x1000 == 0 && c / 0x40 % 0x40 < 0x20
    ensures 0xD800 <= c < 0xE000 <==> c / 0x1000 == 0xD && c / 0x40 % 0x40 >= 0x20
  {
    var p, q := c / 0x40, c / 0x1000;
    assert p / 0x40 == q;
    assert c == 0x40 * p + c % 0x40 && p == 0x40 * q + p % 0x40;
  }

  lemma {:induction false} FourParts(c: CodePoint)
    ensures c / 0x4_0000 * 0x4_0000 + c / 0x1000 % 0x40 * 0x1000 + c / 0x40 % 0x40 * 0x40 + c % 0x40 == c
    ensures c < 0x1_0000 <==> c / 0x4_0000 == 0 && c / 0x1000 % 0x40 < 0x10
    ensures c / 0x4_0000 <= 4 && (c / 0x4_0000 == 4 ==> c / 0x1000 % 0x40 < 0x10)
  {
    var p, q, r := c / 0x40, c / 0x1000, c / 0x4_0000;
    assert p / 0x40 == q && q / 0x40 == r;
    assert c == 0x40 * p + c % 0x40 && p == 0x40 * q + p % 0x40 && q == 0x40 * r + q % 0x40;
  }

  lemma {:induction false} FourBytesAreReadBack(c: CodePoint, b: seq<Byte>)
    requires 0x1_0000 <= c && 4 <= |b| && b[0] == 0xF0 + c / 0x4_0000 && b[1] == 0x80 + c / 0x1000 % 0x40
    requires b[2] == 0x80 + c / 0x40 % 0x40 && b[3] == 0x80 + c % 0x40
    ensures SequenceLength(b) == 4 && FirstCodePoint(b, 4) == c
  {
    FourParts(c);
    assert SequenceLength(b) == 4;
    assert b[0] % 8 == c / 0x4_0000 && b[1] % 0x40 == c / 0x1000 % 0x40;
    assert b[2] % 0x40 == c / 0x40 % 0x40 && b[3] % 0x40 == c % 0x40;
  }

  /** A code point that is not a surrogate is read back from its own bytes, whatever follows. */
  lemma {:induction false} CodePointIsReadBack(c: CodePoint, rest: seq<Byte>)
    requires !(0xD800 <= c < 0xE000)
    ensures var b := EncodeCodePoint(c) + rest;
            SequenceLength(b) == |EncodeCodePoint(c)| && FirstCodePoint(b, SequenceLength(b)) == c
  {
    var b := EncodeCodePoint(c) + rest;
    if c < 0x80 { OneByteIsReadBack(c, rest); }
    else if c < 0x800 { TwoBytesAreReadBack(c, b); }
    else if c < 0x1_0000 { ThreeBytesAreReadBack(c, b); }
    else { FourBytesAreReadBack(c, b); }
  }

  lemma {:induction false} DecodeAfterCodePoint(c: CodePoint, rest: seq<Byte>)
    requires !(0xD800 <= c < 0xE000)
    ensures Decode(EncodeCodePoint(c) + rest) == Units(c) + Decode(rest)
  {
    CodePointIsReadBack(c, rest);
    assert (EncodeCodePoint(c) + rest)[|EncodeCodePoint(c)|..] == rest;
  }

  lemma {:induction false} PairIsReadBack(high: CodeUnit, low: CodeUnit)
    requires IsHigh(high) && IsLow(low)
    ensures Units(PairCodePoint(high, low)) == [high, low]
  {
  }

  /** Bytes and back, for every well-formed text. */
  lemma {:induction false} DecodeUndoesEncode(s: JsString)
    requires WellFormed(s)
    ensures Decode(Encode(s)) == s
  {
    if s != [] {
      if StartsWithPair(s) {
        DecodeUndoesEncode(s[2..]);
        DecodePair(s);
      } else {
        DecodeUndoesEncode(s[1..]);
        DecodeUnit(s);
      }
    }
  }

  lemma {:induction false} DecodePair(s: JsString)
    requires StartsWithPair(s) && Decode(Encode(s[2..])) == s[2..]
    ensures Decode(Encode(s)) == s
  {
    DecodeAfterCodePoint(PairCodePoint(s[0], s[1]), Encode(s[2..]));
    PairIsReadBack(s[0], s[1]);
    assert s == [s[0], s[1]] + s[2..];
  }

  lemma {:induction false} DecodeUnit(s: JsString)
    requires s != [] && !StartsWithPair(s) && !IsHigh(s[0]) && !IsLow(s[0]) && Decode(Encode(s[1..])) == s[1..]
    ensures Decode(Encode(s)) == s
  {
    DecodeAfterCodePoint(s[0], Encode(s[1..]));
    assert s == [s[0]] + s[1..];
  }

  /** Half a pair is written, and a byte that cannot lead is read, as the replacement character. */
  lemma {:induction false} ReplacementExactly(u: CodeUnit, b: Byte)
    requires 0xD800 <= u < 0xE000 && (0x80 <= b < 0xC2 || 0xF5 <= b)
    ensures Encode([u]) == [0xEF, 0xBF, 0xBD] && Decode([b]) == [0xFFFD]
  {
    assert [u][1..] == [] && [b][1..] == [];
  }
}
