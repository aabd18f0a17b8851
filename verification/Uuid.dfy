/**
 * UUIDv7 (RFC 9562 section 5.7): 48 bits of timestamp, version, variant and 74
 * random bits, printed so that text order follows time.
 */
module Uuid {
  import opened Bytes
  import opened Text
  import opened Wrappers

  const MAX_TIMESTAMP := 0xffff_ffff_ffff
  const HEX := "0123456789abcdef"

  // ------------------------------------------------------------------- bytes

  function WithVersion(b: Byte): Byte {
    b % 16 + 0x70
  }

  function WithVariant(b: Byte): Byte {
    b % 64 + 0x80
  }

  /** The 16 bytes of the identifier. */
  function UuidBytes(timestamp: nat, random: seq<Byte>): (bytes: seq<Byte>)
    requires |random| == 16
    ensures |bytes| == 16
  {
    BigEndian(timestamp, 6) + [WithVersion(random[6]), random[7], WithVariant(random[8])] + random[9..]
  }

  // -------------------------------------------------------------------- text

  function HexOf(bytes: seq<Byte>): (hex: string)
    ensures |hex| == 2 * |bytes|
  {
    if bytes == [] then ""
    else
      var last := bytes[|bytes| - 1];
      HexOf(bytes[..|bytes| - 1]) + [HEX[last / 16], HEX[last % 16]]
  }

  function Layout(hex: string): (id: string)
    requires |hex| == 32
    ensures |id| == 36
  {
    hex[..8] + "-" + hex[8..12] + "-" + hex[12..16] + "-" + hex[16..20] + "-" + hex[20..]
  }

  function Uuidv7(timestamp: nat, random: seq<Byte>): string
    requires |random| == 16
  {
    Layout(HexOf(UuidBytes(timestamp, random)))
  }

  /** The generator: overwrites the random bytes in place, then prints them. */
  method Uuidv7Create(timestamp: int, bytes: array<Byte>) returns (result: Result<string>)
    modifies bytes
    ensures result.Ok? <==> 0 <= timestamp < 0x1_0000_0000_0000 && bytes.Length == 16
    ensures !(0 <= timestamp < 0x1_0000_0000_0000) ==>
              result == Err("UUIDv7 timestamps must be non-negative milliseconds within 48 bits.")
    ensures 0 <= timestamp < 0x1_0000_0000_0000 && bytes.Length != 16 ==> result == Err("UUIDv7 randomness must contain 16 bytes.")
    ensures result.Err? ==> bytes[..] == old(bytes[..])
    ensures result.Ok? ==> bytes[..] == UuidBytes(timestamp, old(bytes[..]))
    ensures result.Ok? ==> result.data == Uuidv7(timestamp, old(bytes[..]))
  {
    if timestamp < 0 || timestamp > MAX_TIMESTAMP {
      return Err("UUIDv7 timestamps must be non-negative milliseconds within 48 bits.");
    }
    if bytes.Length != 16 {
      return Err("UUIDv7 randomness must contain 16 bytes.");
    }
    ghost var random := bytes[..];
    WriteTimestamp(timestamp, bytes);
    assert bytes[..] == BigEndian(timestamp, 6) + random[6..];
    MarkVersion(bytes);
    MarkedBytes(timestamp, random, BigEndian(timestamp, 6) + random[6..]);
    return Ok(Layout(HexOf(bytes[..])));
  }

  lemma {:induction false} MarkedBytes(timestamp: nat, random: seq<Byte>, stamped: seq<Byte>)
    requires |random| == 16 && stamped == BigEndian(timestamp, 6) + random[6..]
    ensures |stamped| == 16
    ensures stamped[6 := WithVersion(stamped[6])][8 := WithVariant(stamped[8])] == UuidBytes(timestamp, random)
  {
    var marked := stamped[6 := WithVersion(stamped[6])][8 := WithVariant(stamped[8])];
    assert stamped[6] == random[6] && stamped[7] == random[7] && stamped[8] == random[8];
    assert marked[..6] == BigEndian(timestamp, 6) && marked[9..] == random[9..];
    assert marked == marked[..6] + [marked[6], marked[7], marked[8]] + marked[9..];
  }

  /** The first six bytes become the big-endian timestamp. */
  method WriteTimestamp(timestamp: nat, bytes: array<Byte>)
    requires bytes.Length == 16
    modifies bytes
    ensures bytes[..] == BigEndian(timestamp, 6) + old(bytes[6..])
  {
    for index := 0 to 6
      invariant forall i | 0 <= i < index :: bytes[i] == BigEndian(timestamp, 6)[i]
      invariant bytes[6..] == old(bytes[6..])
    {
      BigEndianAt(timestamp, 6, index);
      bytes[index] := timestamp / Power256(5 - index) % 256;
    }
  }

  method MarkVersion(bytes: array<Byte>)
    requires bytes.Length == 16
    modifies bytes
    ensures bytes[..] == old(bytes[..])[6 := WithVersion(old(bytes[6]))][8 := WithVariant(old(bytes[8]))]
  {
    MaskedBits(bytes[6]);
    bytes[6] := Masked(bytes[6], 0x0f, 0x70);
    MaskedBits(bytes[8]);
    bytes[8] := Masked(bytes[8], 0x3f, 0x80);
  }

  function Power256(n: nat): nat
    requires n <= 5
    ensures Power256(n) > 0
  {
    [1, 0x100, 0x1_0000, 0x100_0000, 0x1_0000_0000, 0x100_0000_0000][n]
  }

  lemma {:induction false} DivideTwice(n: nat, k: nat)
    requires k < 5
    ensures n / 256 / Power256(k) == n / Power256(k + 1)
  {
  }

  lemma {:induction false} BigEndianAt(n: nat, size: nat, index: nat)
    requires index < size <= 6
    ensures BigEndian(n, size)[index] == n / Power256(size - 1 - index) % 256
  {
    if index < size - 1 {
      BigEndianAt(n / 256, size - 1, index);
      DivideTwice(n, size - 2 - index);
    }
  }

  // -------------------------------------------------------------------- order

  predicate BytesBefore(a: seq<Byte>, b: seq<Byte>) {
    exists i | 0 <= i < |a| && i < |b| :: a[..i] == b[..i] && a[i] < b[i]
  }

  lemma {:induction false} BigEndianOrder(m: nat, n: nat, size: nat)
    requires m < n && FitsIn(n, size)
    ensures BytesBefore(BigEndian(m, size), BigEndian(n, size))
  {
    var a, b := BigEndian(m, size), BigEndian(n, size);
    if m / 256 == n / 256 {
      assert a[..size - 1] == b[..size - 1] && a[size - 1] < b[size - 1];
    } else {
      BigEndianOrder(m / 256, n / 256, size - 1);
      var x, y := BigEndian(m / 256, size - 1), BigEndian(n / 256, size - 1);
      var i :| 0 <= i < size - 1 && x[..i] == y[..i] && x[i] < y[i];
      assert a[..i] == x[..i] && b[..i] == y[..i] && a[i] < b[i];
    }
  }

  lemma {:induction false} FitsBelow(n: nat, size: nat, bound: nat)
    requires size <= 5 && bound == Power256(size) && n < bound
    ensures FitsIn(n, size)
  {
    if size > 0 { FitsBelow(n / 256, size - 1, bound / 256); }
  }

  lemma {:induction false} MillisecondsFit(n: nat)
    requires n <= MAX_TIMESTAMP
    ensures FitsIn(n, 6)
  {
    FitsBelow(n / 256, 5, Power256(5));
  }

  function Nibble(bytes: seq<Byte>, k: nat): (nibble: nat)
    requires k < 2 * |bytes|
    ensures nibble < 16
  {
    if k % 2 == 0 then bytes[k / 2] / 16 else bytes[k / 2] % 16
  }

  lemma {:induction false} HexAt(bytes: seq<Byte>, k: nat)
    requires k < 2 * |bytes|
    ensures HexOf(bytes)[k] == HEX[Nibble(bytes, k)]
  {
    var before := bytes[..|bytes| - 1];
    if k < 2 * |before| {
      HexAt(before, k);
      assert Nibble(before, k) == Nibble(bytes, k);
    }
  }

  lemma {:induction false} HexDigitsAscend(d: nat, e: nat)
    requires d < 16 && e < 16
    ensures HEX[d] < HEX[e] <==> d < e
  {
  }

  lemma {:induction false} HexPrefix(a: seq<Byte>, b: seq<Byte>, i: nat, first: nat)
    requires |a| == |b| && i < |a| && a[..i] == b[..i]
    requires first == 2 * i || (first == 2 * i + 1 && a[i] / 16 == b[i] / 16)
    ensures HexOf(a)[..first] == HexOf(b)[..first]
  {
    forall k | 0 <= k < first
      ensures HexOf(a)[k] == HexOf(b)[k]
    {
      HexAt(a, k);
      HexAt(b, k);
      SameNibble(a, b, i, k);
    }
  }

  lemma {:induction false} FirstNibble(a: seq<Byte>, b: seq<Byte>, i: nat)
    requires |a| == |b| && i < |a| && a[i] < b[i]
    ensures a[i] / 16 == b[i] / 16 ==> Nibble(a, 2 * i + 1) < Nibble(b, 2 * i + 1)
    ensures a[i] / 16 != b[i] / 16 ==> Nibble(a, 2 * i) < Nibble(b, 2 * i)
  {
    assert (2 * i + 1) / 2 == i && (2 * i) / 2 == i;
  }

  /** The first place where two texts differ, in favour of the first. */
  predicate DiffersAt(a: string, b: string, k: nat) {
    k < |a| && k < |b| && a[..k] == b[..k] && a[k] < b[k]
  }

  lemma {:induction false} HexOrder(a: seq<Byte>, b: seq<Byte>) returns (first: nat)
    requires |a| == |b| && BytesBefore(a, b)
    ensures DiffersAt(HexOf(a), HexOf(b), first)
  {
    var i :| 0 <= i < |a| && a[..i] == b[..i] && a[i] < b[i];
    first := if a[i] / 16 == b[i] / 16 then 2 * i + 1 else 2 * i;
    HexPrefix(a, b, i, first);
    FirstNibble(a, b, i);
    HexAt(a, first);
    HexAt(b, first);
    HexDigitsAscend(Nibble(a, first), Nibble(b, first));
  }

  lemma {:induction false} SameNibble(a: seq<Byte>, b: seq<Byte>, i: nat, k: nat)
    requires |a| == |b| && i < |a| && a[..i] == b[..i]
    requires k < 2 * i || (k == 2 * i && a[i] / 16 == b[i] / 16)
    ensures Nibble(a, k) == Nibble(b, k)
  {
    if k < 2 * i { assert a[k / 2] == a[..i][k / 2] && b[k / 2] == b[..i][k / 2]; }
  }

  function LayoutIndex(k: nat): nat {
    if k < 8 then k else if k < 12 then k + 1 else if k < 16 then k + 2 else if k < 20 then k + 3 else k + 4
  }

  lemma {:induction false} LayoutAt(hex: string, k: nat)
    requires |hex| == 32 && k < 32
    ensures Layout(hex)[LayoutIndex(k)] == hex[k]
    ensures Layout(hex)[8] == Layout(hex)[13] == Layout(hex)[18] == Layout(hex)[23] == '-'
  {
  }

  lemma {:induction false} LayoutOrder(x: string, y: string, k: nat)
    requires |x| == |y| == 32 && DiffersAt(x, y, k)
    ensures DiffersAt(Layout(x), Layout(y), LayoutIndex(k))
  {
    LayoutAt(x, k);
    LayoutAt(y, k);
    assert Layout(x)[..LayoutIndex(k)] == Layout(y)[..LayoutIndex(k)] by {
      forall j | 0 <= j < LayoutIndex(k)
        ensures Layout(x)[j] == Layout(y)[j]
      {
        if j != 8 && j != 13 && j != 18 && j != 23 {
          var i := if j < 8 then j else if j < 13 then j - 1 else if j < 18 then j - 2 else if j < 23 then j - 3 else j - 4;
          assert i < k && x[i] == x[..k][i] && y[i] == y[..k][i];
          LayoutAt(x, i);
          LayoutAt(y, i);
        }
      }
    }
  }

  /** Identifiers sort by time: whatever the randomness, an earlier millisecond is earlier text. */
  lemma {:induction false} LaterSortsLater(t1: nat, random1: seq<Byte>, t2: nat, random2: seq<Byte>)
    requires t1 < t2 <= MAX_TIMESTAMP && |random1| == |random2| == 16
    ensures TextBefore(Uuidv7(t1, random1), Uuidv7(t2, random2))
  {
    MillisecondsFit(t2);
    BigEndianOrder(t1, t2, 6);
    var a, b := UuidBytes(t1, random1), UuidBytes(t2, random2);
    var i :| 0 <= i < 6 && BigEndian(t1, 6)[..i] == BigEndian(t2, 6)[..i] && BigEndian(t1, 6)[i] < BigEndian(t2, 6)[i];
    assert a[..i] == BigEndian(t1, 6)[..i] && b[..i] == BigEndian(t2, 6)[..i];
    assert BytesBefore(a, b);
    var k := HexOrder(a, b);
    LayoutOrder(HexOf(a), HexOf(b), k);
    FirstDifference(Uuidv7(t1, random1), Uuidv7(t2, random2), LayoutIndex(k));
  }

  // ------------------------------------------------------------------ reading

  predicate IsHexDigit(c: char) {
    '0' <= c <= '9' || 'a' <= c <= 'f'
  }

  function NibbleOf(c: char): (nibble: nat)
    requires IsHexDigit(c)
    ensures nibble < 16 && HEX[nibble] == c
  {
    if c <= '9' then c as int - '0' as int else c as int - 'a' as int + 10
  }

  predicate AllHex(s: string) {
    forall i | 0 <= i < |s| :: IsHexDigit(s[i])
  }

  function BytesFromHex(hex: string): (bytes: seq<Byte>)
    requires |hex| % 2 == 0 && AllHex(hex)
    ensures |bytes| == |hex| / 2
  {
    if hex == "" then []
    else
      var n := |hex| - 2;
      BytesFromHex(hex[..n]) + [ByteOf(hex[n], hex[n + 1])]
  }

  function ByteOf(high: char, low: char): (b: Byte)
    requires IsHexDigit(high) && IsHexDigit(low)
    ensures HEX[b / 16] == high && HEX[b % 16] == low
  {
    var h, l := NibbleOf(high), NibbleOf(low);
    Halves(h, l);
    h * 16 + l
  }

  lemma {:induction false} Halves(high: nat, low: nat)
    requires low < 16
    ensures (high * 16 + low) / 16 == high && (high * 16 + low) % 16 == low
  {
  }

  lemma {:induction false} NibbleDigit(n: nat)
    requires n < 16
    ensures IsHexDigit(HEX[n]) && NibbleOf(HEX[n]) == n
  {
  }

  lemma {:induction false} DigitsOfByte(b: Byte)
    ensures IsHexDigit(HEX[b / 16]) && IsHexDigit(HEX[b % 16]) && ByteOf(HEX[b / 16], HEX[b % 16]) == b
  {
    NibbleDigit(b / 16);
    NibbleDigit(b % 16);
  }

  lemma {:induction false} HexDigitsSnoc(hex: string, high: char, low: char)
    requires AllHex(hex) && IsHexDigit(high) && IsHexDigit(low)
    ensures AllHex(hex + [high, low])
  {
  }

  lemma {:induction false} ByteSnoc(hex: string, high: char, low: char)
    requires |hex| % 2 == 0 && AllHex(hex) && IsHexDigit(high) && IsHexDigit(low)
    requires AllHex(hex + [high, low])
    ensures BytesFromHex(hex + [high, low]) == BytesFromHex(hex) + [ByteOf(high, low)]
  {
    var longer := hex + [high, low];
    assert longer[..|hex|] == hex && longer[|hex|] == high && longer[|hex| + 1] == low;
  }

  lemma {:induction false} HexSnoc(bytes: seq<Byte>, last: Byte)
    ensures HexOf(bytes + [last]) == HexOf(bytes) + [HEX[last / 16], HEX[last % 16]]
  {
    assert (bytes + [last])[..|bytes|] == bytes;
  }

  lemma {:induction false} BytesHexBytes(bytes: seq<Byte>)
    ensures AllHex(HexOf(bytes)) && BytesFromHex(HexOf(bytes)) == bytes
  {
    if bytes != [] {
      var before, last := bytes[..|bytes| - 1], bytes[|bytes| - 1];
      BytesHexBytes(before);
      DigitsOfByte(last);
      HexDigitsSnoc(HexOf(before), HEX[last / 16], HEX[last % 16]);
      ByteSnoc(HexOf(before), HEX[last / 16], HEX[last % 16]);
      assert before + [last] == bytes;
      HexSnoc(before, last);
    }
  }

  lemma {:induction false} HexBytesHex(hex: string)
    requires |hex| % 2 == 0 && AllHex(hex)
    ensures HexOf(BytesFromHex(hex)) == hex
  {
    if hex != "" {
      var n := |hex| - 2;
      var before, last := hex[..n], ByteOf(hex[n], hex[n + 1]);
      HexBytesHex(before);
      HexSnoc(BytesFromHex(before), last);
      HexEnds(hex);
    }
  }

  lemma {:induction false} HexEnds(hex: string)
    requires |hex| >= 2 && AllHex(hex)
    ensures var n := |hex| - 2;
      var last := ByteOf(hex[n], hex[n + 1]);
      hex == hex[..n] + [HEX[last / 16], HEX[last % 16]]
  {
    assert hex == hex[..|hex| - 2] + [hex[|hex| - 2], hex[|hex| - 1]];
  }

  /** The event log's check on identifiers. */
  predicate IsCanonicalEventId(id: string) {
    |id| == 36 && id[8] == '-' && id[13] == '-' && id[18] == '-' && id[23] == '-'
    && AllHex(Digits(id)) && id[14] == '7' && id[19] in "89ab"
  }

  /** The 32 digits between the dashes. */
  function Digits(id: string): (hex: string)
    requires |id| == 36
    ensures |hex| == 32
  {
    id[..8] + id[9..13] + id[14..18] + id[19..23] + id[24..]
  }

  lemma {:induction false} LayoutDigits(hex: string)
    requires |hex| == 32
    ensures Digits(Layout(hex)) == hex
  {
    var id := Layout(hex);
    assert id[..8] == hex[..8] && id[9..13] == hex[8..12] && id[14..18] == hex[12..16] && id[19..23] == hex[16..20];
    assert id[24..] == hex[20..];
  }

  function BytesOf(id: string): (bytes: seq<Byte>)
    requires |id| == 36 && AllHex(Digits(id))
    ensures |bytes| == 16
  {
    BytesFromHex(Digits(id))
  }

  /** The millisecond an identifier was made in. */
  function TimestampOf(id: string): nat
    requires |id| == 36 && AllHex(Digits(id))
  {
    FromBigEndian(BytesOf(id)[..6])
  }

  /** Every identifier passes the event log's check, and gives back its millisecond and its 74 random bits. */
  lemma {:induction false} IdentifierIsReadable(timestamp: nat, random: seq<Byte>)
    requires timestamp <= MAX_TIMESTAMP && |random| == 16
    ensures var id := Uuidv7(timestamp, random);
      && IsCanonicalEventId(id)
      && TimestampOf(id) == timestamp
      && BytesOf(id)[6..] == [WithVersion(random[6]), random[7], WithVariant(random[8])] + random[9..]
  {
    var bytes := UuidBytes(timestamp, random);
    var hex := HexOf(bytes);
    BytesHexBytes(bytes);
    LayoutDigits(hex);
    MillisecondsFit(timestamp);
    BigEndianInverse(timestamp, 6);
    assert bytes[..6] == BigEndian(timestamp, 6);
    LayoutAt(hex, 12);
    LayoutAt(hex, 16);
    HexAt(bytes, 12);
    HexAt(bytes, 16);
    assert Nibble(bytes, 12) == 7 && 8 <= Nibble(bytes, 16) <= 11;
  }

  /** Two identifiers collide exactly when the millisecond and all 74 random bits agree. */
  lemma {:induction false} CollidesExactly(t1: nat, random1: seq<Byte>, t2: nat, random2: seq<Byte>)
    requires t1 <= MAX_TIMESTAMP && t2 <= MAX_TIMESTAMP && |random1| == |random2| == 16
    ensures Uuidv7(t1, random1) == Uuidv7(t2, random2)
       <==> t1 == t2 && random1[6] % 16 == random2[6] % 16 && random1[7] == random2[7]
            && random1[8] % 64 == random2[8] % 64 && random1[9..] == random2[9..]
  {
    IdentifierIsReadable(t1, random1);
    IdentifierIsReadable(t2, random2);
    var rest1 := [WithVersion(random1[6]), random1[7], WithVariant(random1[8])] + random1[9..];
    var rest2 := [WithVersion(random2[6]), random2[7], WithVariant(random2[8])] + random2[9..];
    if rest1 == rest2 {
      assert rest1[0] == rest2[0] && rest1[1] == rest2[1] && rest1[2] == rest2[2];
      assert rest1[3..] == random1[9..] && rest2[3..] == random2[9..];
    }
  }

  lemma {:induction false} ByteFromHexAt(hex: string, i: nat)
    requires |hex| % 2 == 0 && AllHex(hex) && 2 * i < |hex|
    ensures BytesFromHex(hex)[i] == ByteOf(hex[2 * i], hex[2 * i + 1])
  {
    if 2 * i < |hex| - 2 { ByteFromHexAt(hex[..|hex| - 2], i); }
  }

  lemma {:induction false} MarkedByte(high: char, low: char)
    requires IsHexDigit(high) && IsHexDigit(low)
    ensures high == '7' ==> WithVersion(ByteOf(high, low)) == ByteOf(high, low)
    ensures high in "89ab" ==> WithVariant(ByteOf(high, low)) == ByteOf(high, low)
  {
    var b := ByteOf(high, low);
    assert b == NibbleOf(high) * 16 + NibbleOf(low);
    assert high == '7' ==> NibbleOf(high) == 7;
    assert high in "89ab" ==> 8 <= NibbleOf(high) < 12;
  }

  lemma {:induction false} CanonicalIdsAreMarked(id: string)
    requires IsCanonicalEventId(id)
    ensures WithVersion(BytesOf(id)[6]) == BytesOf(id)[6] && WithVariant(BytesOf(id)[8]) == BytesOf(id)[8]
  {
    var hex := Digits(id);
    assert hex[12] == id[14] && hex[16] == id[19];
    ByteFromHexAt(hex, 6);
    ByteFromHexAt(hex, 8);
    MarkedByte(hex[12], hex[13]);
    MarkedByte(hex[16], hex[17]);
  }

  lemma {:induction false} DigitsLayout(id: string)
    requires |id| == 36 && id[8] == '-' && id[13] == '-' && id[18] == '-' && id[23] == '-'
    ensures Layout(Digits(id)) == id
  {
    var hex := Digits(id);
    assert hex[..8] == id[..8] && hex[8..12] == id[9..13] && hex[12..16] == id[14..18];
    assert hex[16..20] == id[19..23] && hex[20..] == id[24..];
  }

  /** Conversely the check accepts nothing but the generator's output for some time and randomness. */
  lemma {:induction false} CanonicalIdsAreIdentifiers(id: string)
    requires IsCanonicalEventId(id)
    ensures id == Uuidv7(TimestampOf(id), BytesOf(id))
  {
    HexBytesHex(Digits(id));
    CanonicalIdsAreMarked(id);
    MarkedBytesStay(BytesOf(id));
    DigitsLayout(id);
  }

  lemma {:induction false} MarkedBytesStay(bytes: seq<Byte>)
    requires |bytes| == 16 && WithVersion(bytes[6]) == bytes[6] && WithVariant(bytes[8]) == bytes[8]
    ensures UuidBytes(FromBigEndian(bytes[..6]), bytes) == bytes
  {
    FromBigEndianInverse(bytes[..6]);
  }
}

