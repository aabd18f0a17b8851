/** base64url without padding (RFC 4648 section 5), as `Buffer` writes and reads it. */
module Base64Url {
  import opened Bytes

  type Digit = d: int | 0 <= d < 64

  function CharOf(d: Digit): char {
    if d < 26 then ('A' as int + d) as char
    else if d < 52 then ('a' as int + d - 26) as char
    else if d < 62 then ('0' as int + d - 52) as char
    else if d == 62 then '-' else '_'
  }

  predicate InAlphabet(c: char) {
    'A' <= c <= 'Z' || 'a' <= c <= 'z' || '0' <= c <= '9' || c == '-' || c == '_'
  }

  function DigitOf(c: char): Digit
    requires InAlphabet(c)
  {
    if 'A' <= c <= 'Z' then c as int - 'A' as int
    else if 'a' <= c <= 'z' then c as int - 'a' as int + 26
    else if '0' <= c <= '9' then c as int - '0' as int + 52
    else if c == '-' then 62 else 63
  }

  /** `/^[A-Za-z0-9_-]+$/` */
  predicate IsToken(text: string) {
    text != "" && AllInAlphabet(text)
  }

  predicate AllInAlphabet(text: string) {
    forall i | 0 <= i < |text| :: InAlphabet(text[i])
  }

  lemma {:induction false} DigitIsReadBack(d: Digit)
    ensures InAlphabet(CharOf(d)) && DigitOf(CharOf(d)) == d
  {
  }

  function Encode(b: seq<Byte>): string {
    if b == [] then ""
    else if |b| == 1 then [CharOf(b[0] / 4), CharOf(b[0] % 4 * 16)]
    else if |b| == 2 then [CharOf(b[0] / 4), CharOf(b[0] % 4 * 16 + b[1] / 16), CharOf(b[1] % 16 * 4)]
    else [CharOf(b[0] / 4), CharOf(b[0] % 4 * 16 + b[1] / 16), CharOf(b[1] % 16 * 4 + b[2] / 64), CharOf(b[2] % 64)]
         + Encode(b[3..])
  }

  /** Bits left over at the end are dropped, as `Buffer` does. */
  function Decode(text: string): seq<Byte>
    requires AllInAlphabet(text)
  {
    if |text| < 2 then []
    else
      var a, b := DigitOf(text[0]), DigitOf(text[1]);
      if |text| == 2 then [a * 4 + b / 16]
      else
        var c := DigitOf(text[2]);
        if |text| == 3 then [a * 4 + b / 16, b % 16 * 16 + c / 4]
        else [a * 4 + b / 16, b % 16 * 16 + c / 4, c % 4 * 64 + DigitOf(text[3])] + Decode(text[4..])
  }

  lemma {:induction false} GroupIsReadBack(b0: Byte, b1: Byte, b2: Byte)
    ensures var d0, d1, d2, d3 := b0 / 4, b0 % 4 * 16 + b1 / 16, b1 % 16 * 4 + b2 / 64, b2 % 64;
            d0 * 4 + d1 / 16 == b0 && d1 % 16 * 16 + d2 / 4 == b1 && d2 % 4 * 64 + d3 == b2
  {
  }

  lemma {:induction false} DecodeGroup(b0: Byte, b1: Byte, b2: Byte, rest: string)
    requires AllInAlphabet(rest)
    ensures var text := [CharOf(b0 / 4), CharOf(b0 % 4 * 16 + b1 / 16), CharOf(b1 % 16 * 4 + b2 / 64), CharOf(b2 % 64)] + rest;
            AllInAlphabet(text) && Decode(text) == [b0, b1, b2] + Decode(rest)
  {
    GroupIsReadBack(b0, b1, b2);
    DigitIsReadBack(b0 / 4);
    DigitIsReadBack(b0 % 4 * 16 + b1 / 16);
    DigitIsReadBack(b1 % 16 * 4 + b2 / 64);
    DigitIsReadBack(b2 % 64);
    var text := [CharOf(b0 / 4), CharOf(b0 % 4 * 16 + b1 / 16), CharOf(b1 % 16 * 4 + b2 / 64), CharOf(b2 % 64)] + rest;
    assert text[4..] == rest;
  }

  lemma {:induction false} DecodeOne(b0: Byte)
    ensures AllInAlphabet(Encode([b0])) && Decode(Encode([b0])) == [b0]
  {
    DigitIsReadBack(b0 / 4);
    DigitIsReadBack(b0 % 4 * 16);
    GroupIsReadBack(b0, 0, 0);
  }

  lemma {:induction false} DecodeTwo(b0: Byte, b1: Byte)
    ensures AllInAlphabet(Encode([b0, b1])) && Decode(Encode([b0, b1])) == [b0, b1]
  {
    DigitIsReadBack(b0 / 4);
    DigitIsReadBack(b0 % 4 * 16 + b1 / 16);
    DigitIsReadBack(b1 % 16 * 4);
    GroupIsReadBack(b0, b1, 0);
  }

  /** Text of the alphabet and back, for all bytes. */
  lemma {:induction false} DecodeUndoesEncode(b: seq<Byte>)
    ensures AllInAlphabet(Encode(b)) && Decode(Encode(b)) == b
  {
    if 3 <= |b| {
      DecodeUndoesEncode(b[3..]);
      DecodeGroup(b[0], b[1], b[2], Encode(b[3..]));
      assert b == [b[0], b[1], b[2]] + b[3..];
    } else if |b| == 2 {
      DecodeTwo(b[0], b[1]);
      assert b == [b[0], b[1]];
    } else if |b| == 1 {
      DecodeOne(b[0]);
      assert b == [b[0]];
    }
  }

  /** The alphabet of RFC 4648 section 5: runs from A, a and 0, then the minus and the underscore. */
  lemma {:induction false} AlphabetExactly(d: Digit)
    ensures CharOf(0) == 'A' && CharOf(26) == 'a' && CharOf(52) == '0' && CharOf(62) == '-' && CharOf(63) == '_'
    ensures d < 61 && d != 25 && d != 51 ==> CharOf(d + 1) as int == CharOf(d) as int + 1
  {
  }
}
