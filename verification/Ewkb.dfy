/** The EWKB point decoder: hexadecimal digits to bytes, bytes to integers of either byte order, integers to a point.
    A coordinate is its 64-bit pattern, so nothing is rounded. */
module Ewkb {
  import opened Wrappers

  type Bits = nat
  type Bytes = seq<nat>

  datatype Position = Position(longitude: Bits, latitude: Bits)

  datatype Fault = NotHexadecimal | TruncatedBytes | InvalidByteOrder | NotAPoint | WrongSrid

  const SRID_FLAG := 0x2000_0000
  const SRID := 4326

  /** The value of a hexadecimal digit of either case, or None. */
  function HexValue(c: char): Option<nat> {
    if '0' <= c <= '9' then Some((c - '0') as nat)
    else if 'a' <= c <= 'f' then Some((c - 'a') as nat + 10)
    else if 'A' <= c <= 'F' then Some((c - 'A') as nat + 10)
    else None
  }

  predicate IsHexadecimal(s: string) {
    s != "" && forall i | 0 <= i < |s| :: HexValue(s[i]).Some?
  }

  predicate AllBytes(bytes: Bytes) {
    forall i | 0 <= i < |bytes| :: bytes[i] < 256
  }

  function BytesOf(s: string): (bytes: Bytes)
    requires |s| % 2 == 0 && forall i | 0 <= i < |s| :: HexValue(s[i]).Some?
    ensures |bytes| == |s| / 2
    ensures forall k | 0 <= k < |bytes| :: bytes[k] == 16 * HexValue(s[2 * k]).value + HexValue(s[2 * k + 1]).value
    ensures AllBytes(bytes)
  {
    seq(|s| / 2, k requires 0 <= k < |s| / 2 => 16 * HexValue(s[2 * k]).value + HexValue(s[2 * k + 1]).value)
  }

  function Reversed(bytes: Bytes): (r: Bytes)
    ensures |r| == |bytes| && forall i | 0 <= i < |bytes| :: r[i] == bytes[|bytes| - 1 - i]
  {
    seq(|bytes|, i requires 0 <= i < |bytes| => bytes[|bytes| - 1 - i])
  }

  /** Most significant byte first. */
  function BigEndian(bytes: Bytes): nat {
    if bytes == [] then 0 else 256 * BigEndian(bytes[..|bytes| - 1]) + bytes[|bytes| - 1]
  }

  /** DataView.getUint32 / getFloat64: the unsigned integer in the bytes, in the chosen byte order. */
  function ReadUint(bytes: Bytes, littleEndian: bool): nat {
    BigEndian(if littleEndian then Reversed(bytes) else bytes)
  }

  function Power256(n: nat): nat {
    if n == 0 then 1 else 256 * Power256(n - 1)
  }

  /** The bytes of an integer, most significant first. */
  function ToBigEndian(value: nat, count: nat): Bytes {
    if count == 0 then [] else ToBigEndian(value / 256, count - 1) + [value % 256]
  }

  function WriteUint(value: nat, count: nat, littleEndian: bool): Bytes {
    var bytes := ToBigEndian(value, count);
    if littleEndian then Reversed(bytes) else bytes
  }

  /** The SRID flag of a 32-bit geometry type. */
  predicate HasSrid(geometryType: nat) {
    geometryType / SRID_FLAG % 2 == 1
  }

  /** parseOrganizationUnitPosition */
  function Parse(s: string): Result<Position, Fault> {
    if |s| % 2 != 0 || !IsHexadecimal(s) then Err(NotHexadecimal)
    else ParseBytes(BytesOf(s))
  }

  function ParseBytes(bytes: Bytes): Result<Position, Fault> {
    if |bytes| < 21 then Err(TruncatedBytes)
    else if bytes[0] != 0 && bytes[0] != 1 then Err(InvalidByteOrder)
    else
      var littleEndian := bytes[0] == 1;
      var geometryType := ReadUint(bytes[1..5], littleEndian);
      if geometryType % 256 != 1 then Err(NotAPoint)
      else
        var offset := if HasSrid(geometryType) then 9 else 5;
        if |bytes| < offset + 16 then Err(TruncatedBytes)
        else if HasSrid(geometryType) && ReadUint(bytes[5..9], littleEndian) != SRID then Err(WrongSrid)
        else
          Ok(Position(ReadUint(bytes[offset..offset + 8], littleEndian), ReadUint(bytes[offset + 8..offset + 16], littleEndian)))
  }

  /* ---- The encoder ---- */

  /** A point header in the given byte order, with its SRID when the type says so, and the two coordinates. */
  function EncodeBytes(littleEndian: bool, geometryType: nat, position: Position): Bytes {
    [if littleEndian then 1 else 0]
    + WriteUint(geometryType, 4, littleEndian)
    + (if geometryType / 0x2000_0000 % 2 == 1 then WriteUint(4326, 4, littleEndian) else [])
    + WriteUint(position.longitude, 8, littleEndian)
    + WriteUint(position.latitude, 8, littleEndian)
  }

  predicate ValidPosition(p: Position) {
    p.longitude < Power256(8) && p.latitude < Power256(8)
  }

  /** The geometry types the decoder takes for a point: any 32-bit type whose low byte is 1. */
  predicate PointType(geometryType: nat) {
    geometryType < Power256(4) && geometryType % 256 == 1
  }

  /** The string spells the bytes, each hexadecimal digit in either case. */
  predicate Spells(s: string, bytes: Bytes) {
    && |s| == 2 * |bytes|
    && forall k | 0 <= k < |bytes| ::
         && bytes[k] < 256
         && HexValue(s[2 * k]) == Some(bytes[k] / 16)
         && HexValue(s[2 * k + 1]) == Some(bytes[k] % 16)
  }

  /* ---- Round trips ---- */

  lemma {:induction false} ToBigEndianShape(value: nat, count: nat)
    ensures |ToBigEndian(value, count)| == count && AllBytes(ToBigEndian(value, count))
  {
    if count > 0 {
      ToBigEndianShape(value / 256, count - 1);
    }
  }

  lemma {:induction false} BigEndianOfInteger(value: nat, count: nat)
    requires value < Power256(count)
    ensures BigEndian(ToBigEndian(value, count)) == value
  {
    if count > 0 {
      BigEndianOfInteger(value / 256, count - 1);
      var higher := ToBigEndian(value / 256, count - 1);
      assert (higher + [value % 256])[..|higher|] == higher;
    }
  }

  lemma {:induction false} IntegerOfBigEndian(bytes: Bytes)
    requires AllBytes(bytes)
    ensures BigEndian(bytes) < Power256(|bytes|)
    ensures ToBigEndian(BigEndian(bytes), |bytes|) == bytes
  {
    if bytes != [] {
      var n := |bytes| - 1;
      IntegerOfBigEndian(bytes[..n]);
      assert bytes == bytes[..n] + [bytes[n]];
      assert BigEndian(bytes) / 256 == BigEndian(bytes[..n]) && BigEndian(bytes) % 256 == bytes[n];
    }
  }

  /** Reading undoes writing for every integer that fits, in both byte orders. */
  lemma ReadUndoesWrite(value: nat, count: nat, littleEndian: bool)
    requires value < Power256(count)
    ensures |WriteUint(value, count, littleEndian)| == count && AllBytes(WriteUint(value, count, littleEndian))
    ensures ReadUint(WriteUint(value, count, littleEndian), littleEndian) == value
  {
    ToBigEndianShape(value, count);
    BigEndianOfInteger(value, count);
    var bytes := ToBigEndian(value, count);
    assert Reversed(Reversed(bytes)) == bytes;
  }

  /** Writing undoes reading for every byte sequence. */
  lemma WriteUndoesRead(bytes: Bytes, littleEndian: bool)
    requires AllBytes(bytes)
    ensures ReadUint(bytes, littleEndian) < Power256(|bytes|)
    ensures WriteUint(ReadUint(bytes, littleEndian), |bytes|, littleEndian) == bytes
  {
    hide BigEndian, ToBigEndian, Power256;
    if littleEndian {
      BackwardBytes(bytes);
      IntegerOfBigEndian(Reversed(bytes));
    } else {
      IntegerOfBigEndian(bytes);
    }
  }

  lemma BackwardBytes(bytes: Bytes)
    requires AllBytes(bytes)
    ensures AllBytes(Reversed(bytes)) && Reversed(Reversed(bytes)) == bytes
  {
  }

  lemma Powers()
    ensures Power256(4) == 0x1_0000_0000
  {
    assert Power256(2) == 65536;
  }

  /** The pieces of an encoding, in place. */
  lemma Layout(order: nat, header: Bytes, srid: Bytes, longitude: Bytes, latitude: Bytes, tail: Bytes)
    requires |header| == 4 && |longitude| == 8 && |latitude| == 8
    ensures
      var bytes := [order] + header + srid + longitude + latitude + tail;
      var offset := 5 + |srid|;
      && |bytes| >= offset + 16
      && bytes[0] == order && bytes[1..5] == header && bytes[5..offset] == srid
      && bytes[offset..offset + 8] == longitude && bytes[offset + 8..offset + 16] == latitude
  {
  }

  /** What the parser returns, from the pieces it reads. */
  lemma ParsedPieces(bytes: Bytes, littleEndian: bool, geometryType: nat, position: Position, offset: nat)
    requires offset == (if HasSrid(geometryType) then 9 else 5) && |bytes| >= offset + 16
    requires bytes[0] == (if littleEndian then 1 else 0)
    requires ReadUint(bytes[1..5], littleEndian) == geometryType && geometryType % 256 == 1
    requires HasSrid(geometryType) ==> ReadUint(bytes[5..9], littleEndian) == SRID
    requires ReadUint(bytes[offset..offset + 8], littleEndian) == position.longitude
    requires ReadUint(bytes[offset + 8..offset + 16], littleEndian) == position.latitude
    ensures ParseBytes(bytes) == Ok(position)
  {
    hide ReadUint, HasSrid;
  }

  lemma SridWrittenOut(geometryType: nat)
    ensures HasSrid(geometryType) <==> geometryType / 0x2000_0000 % 2 == 1
  {
  }

  lemma DecodeBytes(littleEndian: bool, geometryType: nat, position: Position, tail: Bytes)
    requires PointType(geometryType) && ValidPosition(position)
    ensures ParseBytes(EncodeBytes(littleEndian, geometryType, position) + tail) == Ok(position)
  {
    hide ReadUint, WriteUint, HasSrid, Power256, ParseBytes;
    Powers();
    SridWrittenOut(geometryType);
    ReadUndoesWrite(geometryType, 4, littleEndian);
    ReadUndoesWrite(SRID, 4, littleEndian);
    ReadUndoesWrite(position.longitude, 8, littleEndian);
    ReadUndoesWrite(position.latitude, 8, littleEndian);
    var srid := if HasSrid(geometryType) then WriteUint(SRID, 4, littleEndian) else [];
    Layout(if littleEndian then 1 else 0, WriteUint(geometryType, 4, littleEndian), srid,
           WriteUint(position.longitude, 8, littleEndian), WriteUint(position.latitude, 8, littleEndian), tail);
    ParsedPieces(EncodeBytes(littleEndian, geometryType, position) + tail, littleEndian, geometryType, position, 5 + |srid|);
  }

  /** Decoding undoes encoding: for every point, both byte orders, with or without the SRID, any further flags of the
      geometry type, any letter case of the digits and any trailing bytes, the parser returns the encoded coordinates. */
  lemma ParseUndoesEncode(s: string, littleEndian: bool, geometryType: nat, position: Position, tail: Bytes)
    requires PointType(geometryType) && ValidPosition(position)
    requires Spells(s, EncodeBytes(littleEndian, geometryType, position) + tail)
    ensures Parse(s) == Ok(position)
  {
    DecodeBytes(littleEndian, geometryType, position, tail);
    var bytes := EncodeBytes(littleEndian, geometryType, position) + tail;
    SpelledBytes(s, bytes);
  }

  lemma SpelledBytes(s: string, bytes: Bytes)
    requires Spells(s, bytes) && bytes != []
    ensures IsHexadecimal(s) && BytesOf(s) == bytes
  {
    forall i | 0 <= i < |s|
      ensures HexValue(s[i]).Some?
    {
      var k := i / 2;
      assert i == 2 * k || i == 2 * k + 1;
      assert HexValue(s[2 * k]).Some? && HexValue(s[2 * k + 1]).Some?;
    }
    forall k | 0 <= k < |bytes|
      ensures BytesOf(s)[k] == bytes[k]
    {
      assert bytes[k] == 16 * (bytes[k] / 16) + bytes[k] % 16;
    }
  }

  /** Conversely, whatever string is accepted spells an encoding of the returned point, possibly with more bytes behind:
      nothing else is ever read as a point. */
  lemma AcceptedIsEncoding(s: string) returns (littleEndian: bool, geometryType: nat, tail: Bytes)
    requires Parse(s).Ok?
    ensures PointType(geometryType) && ValidPosition(Parse(s).value)
    ensures Spells(s, EncodeBytes(littleEndian, geometryType, Parse(s).value) + tail)
  {
    var bytes := BytesOf(s);
    littleEndian := bytes[0] == 1;
    geometryType := ReadUint(bytes[1..5], littleEndian);
    var offset := if HasSrid(geometryType) then 9 else 5;
    tail := bytes[offset + 16..];
    ReencodedBytes(bytes, littleEndian, geometryType, offset);
    BytesSpelled(s);
  }

  lemma BytesSpelled(s: string)
    requires |s| % 2 == 0 && IsHexadecimal(s)
    ensures Spells(s, BytesOf(s))
  {
    var bytes := BytesOf(s);
    forall k | 0 <= k < |bytes|
      ensures bytes[k] < 256
      ensures HexValue(s[2 * k]) == Some(bytes[k] / 16) && HexValue(s[2 * k + 1]) == Some(bytes[k] % 16)
    {
      assert HexValue(s[2 * k]).Some? && HexValue(s[2 * k + 1]).Some?;
      Nibbles(HexValue(s[2 * k]).value, HexValue(s[2 * k + 1]).value);
      HexIsNibble(s[2 * k]);
      HexIsNibble(s[2 * k + 1]);
    }
  }

  lemma Nibbles(high: nat, low: nat)
    ensures low < 16 ==> (16 * high + low) / 16 == high && (16 * high + low) % 16 == low
  {
  }

  lemma HexIsNibble(c: char)
    ensures HexValue(c).Some? ==> HexValue(c).value < 16
  {
  }

  /** What an accepted byte sequence looks like. */
  lemma AcceptedShape(bytes: Bytes, littleEndian: bool, geometryType: nat, offset: nat)
    requires ParseBytes(bytes).Ok?
    requires littleEndian == (bytes[0] == 1) && geometryType == ReadUint(bytes[1..5], littleEndian)
    requires offset == (if HasSrid(geometryType) then 9 else 5)
    ensures offset + 16 <= |bytes| && bytes[0] == (if littleEndian then 1 else 0) && geometryType % 256 == 1
    ensures HasSrid(geometryType) ==> ReadUint(bytes[5..9], littleEndian) == SRID
    ensures ParseBytes(bytes).value.longitude == ReadUint(bytes[offset..offset + 8], littleEndian)
    ensures ParseBytes(bytes).value.latitude == ReadUint(bytes[offset + 8..offset + 16], littleEndian)
  {
    hide ReadUint, HasSrid;
  }

  lemma ReencodedBytes(bytes: Bytes, littleEndian: bool, geometryType: nat, offset: nat)
    requires AllBytes(bytes) && ParseBytes(bytes).Ok?
    requires littleEndian == (bytes[0] == 1) && geometryType == ReadUint(bytes[1..5], littleEndian)
    requires offset == (if HasSrid(geometryType) then 9 else 5)
    ensures offset + 16 <= |bytes|
    ensures PointType(geometryType) && ValidPosition(ParseBytes(bytes).value)
    ensures bytes == EncodeBytes(littleEndian, geometryType, ParseBytes(bytes).value) + bytes[offset + 16..]
  {
    hide ReadUint, WriteUint, HasSrid, Power256, ParseBytes;
    SridWrittenOut(geometryType);
    AcceptedShape(bytes, littleEndian, geometryType, offset);
    WriteUndoesRead(bytes[1..5], littleEndian);
    WriteUndoesRead(bytes[5..9], littleEndian);
    WriteUndoesRead(bytes[offset..offset + 8], littleEndian);
    WriteUndoesRead(bytes[offset + 8..offset + 16], littleEndian);
    Pieces(bytes, offset);
  }

  lemma Pieces(bytes: Bytes, offset: nat)
    requires 5 <= offset && offset + 16 <= |bytes|
    ensures bytes == [bytes[0]] + bytes[1..5] + bytes[5..offset] + bytes[offset..offset + 8] + bytes[offset + 8..offset + 16] + bytes[offset + 16..]
  {
  }
}
