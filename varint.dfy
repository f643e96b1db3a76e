/** The variable-length integer encoding (`encode_varint`), also known as
    CompactSize in Bitcoin: an unsigned 64-bit integer becomes 1, 3, 5 or 9
    bytes. Small values are their own single byte; larger ones are a width
    marker (0xFD, 0xFE or 0xFF) followed by a 2-, 4- or 8-byte little-endian
    payload. */
module VarInt {
  import opened Bytes

  /** One past the largest encodable integer. */
  const TwoTo64: int := 0x1_0000_0000_0000_0000

  /** Leading bytes that announce a 2-, 4- or 8-byte payload. */
  const Marker16: byte := 0xFD
  const Marker32: byte := 0xFE
  const Marker64: byte := 0xFF

  /** Why an integer cannot be encoded (the `ValueError` of the source). */
  datatype EncodeError = OutOfRange(i: int)

  datatype Result<+T, +E> = Ok(value: T) | Err(error: E)

  /** Total length of an encoding, as announced by its leading byte alone. */
  function WidthOf(lead: byte): (w: nat)
  {
    if lead < Marker16 then 1
    else if lead == Marker16 then 3
    else if lead == Marker32 then 5
    else 9
  }

  /** The integer a buffer whose length agrees with its leading byte stands
      for: the leading byte itself, or the little-endian payload after a
      width marker. A reading used to state what the encoder means; it is not
      a decoder of the modelled program. */
  ghost function PayloadValue(b: seq<byte>): (n: nat)
    requires |b| >= 1 && |b| == WidthOf(b[0])
  {
    if |b| == 1 then b[0] as nat else FromLittleEndian(b[1..])
  }

  /** `encode_varint(i)`: fails exactly when `i` is negative or needs more
      than 64 bits; otherwise the encoding is 1 to 9 bytes long and its
      leading byte announces its length. */
  function EncodeVarInt(i: int): (r: Result<seq<byte>, EncodeError>)
    ensures r.Ok? <==> 0 <= i < TwoTo64
    ensures r.Err? ==> r.error == OutOfRange(i)
    ensures r.Ok? ==> 1 <= |r.value| <= 9 && |r.value| == WidthOf(r.value[0])
  {
    if i < 0 || i >= TwoTo64 then Err(OutOfRange(i))
    else if i < 0xFD then Ok([i as byte])
    else if i <= 0xFFFF then Ok([Marker16] + LittleEndian(i, 2))
    else if i <= 0xFFFF_FFFF then Ok([Marker32] + LittleEndian(i, 4))
    else Ok([Marker64] + LittleEndian(i, 8))
  }

  /** 0 to 252 encode as the single byte holding the value. */
  lemma EncodeVarIntSingleByte(i: int)
    requires 0 <= i <= 252
    ensures EncodeVarInt(i) == Ok([i as byte])
  {
  }

  /** 253 to 0xFFFF encode as 0xFD and the value in 2 little-endian bytes. */
  lemma EncodeVarIntTwoBytePayload(i: int)
    requires 0xFD <= i <= 0xFFFF
    ensures EncodeVarInt(i).Ok?
    ensures var b := EncodeVarInt(i).value;
      |b| == 3 && b[0] == Marker16 && FromLittleEndian(b[1..]) == i
  {
    var b := EncodeVarInt(i).value;
    assert b[1..] == LittleEndian(i, 2);
    LittleEndianRoundTrip(i, 2);
  }

  /** 0x10000 to 0xFFFFFFFF encode as 0xFE and the value in 4 little-endian bytes. */
  lemma EncodeVarIntFourBytePayload(i: int)
    requires 0x1_0000 <= i <= 0xFFFF_FFFF
    ensures EncodeVarInt(i).Ok?
    ensures var b := EncodeVarInt(i).value;
      |b| == 5 && b[0] == Marker32 && FromLittleEndian(b[1..]) == i
  {
    var b := EncodeVarInt(i).value;
    assert b[1..] == LittleEndian(i, 4);
    LittleEndianRoundTrip(i, 4);
  }

  /** 2^32 to 2^64 - 1 encode as 0xFF and the value in 8 little-endian bytes. */
  lemma EncodeVarIntEightBytePayload(i: int)
    requires 0x1_0000_0000 <= i < TwoTo64
    ensures EncodeVarInt(i).Ok?
    ensures var b := EncodeVarInt(i).value;
      |b| == 9 && b[0] == Marker64 && FromLittleEndian(b[1..]) == i
  {
    var b := EncodeVarInt(i).value;
    assert b[1..] == LittleEndian(i, 8);
    LittleEndianRoundTrip(i, 8);
  }

  /** Every encoding stands for the integer it was made from. */
  lemma EncodeVarIntMeaning(i: int)
    requires 0 <= i < TwoTo64
    ensures EncodeVarInt(i).Ok? && PayloadValue(EncodeVarInt(i).value) == i
  {
    if i < 0xFD {
    } else if i <= 0xFFFF {
      EncodeVarIntTwoBytePayload(i);
    } else if i <= 0xFFFF_FFFF {
      EncodeVarIntFourBytePayload(i);
    } else {
      EncodeVarIntEightBytePayload(i);
    }
  }

  /** Two integers in range never share an encoding. */
  lemma EncodeVarIntInjective(i: int, j: int)
    requires 0 <= i < TwoTo64 && 0 <= j < TwoTo64
    requires EncodeVarInt(i) == EncodeVarInt(j)
    ensures i == j
  {
    EncodeVarIntMeaning(i);
    EncodeVarIntMeaning(j);
  }

  /** The encoder always picks the shortest form that holds the value: a
      longer form is used only when every shorter one is too narrow. */
  lemma EncodeVarIntShortest(i: int)
    requires 0 <= i < TwoTo64
    ensures EncodeVarInt(i).Ok?
    ensures var n := |EncodeVarInt(i).value|;
      (n == 1 <==> i < 0xFD) &&
      (n <= 3 <==> i < 0x1_0000) &&
      (n <= 5 <==> i < 0x1_0000_0000)
  {
  }

  /** Two encodings with the same leading byte have the same length: a
      consequence of the last `ensures` of `EncodeVarInt`, which fixes every
      encoding's length as `WidthOf` its leading byte. */
  lemma LeadingByteDeterminesLength(i: int, j: int)
    requires 0 <= i < TwoTo64 && 0 <= j < TwoTo64
    requires EncodeVarInt(i).value[0] == EncodeVarInt(j).value[0]
    ensures |EncodeVarInt(i).value| == |EncodeVarInt(j).value|
  {
  }

  /** The one-byte vectors of tests/test_transactions.py (from the BitcoinSV wiki's VarInt page). */
  lemma EncodeVarIntVectorsOneByte()
    ensures EncodeVarInt(0) == Ok([0x00])
    ensures EncodeVarInt(252) == Ok([0xFC])
  {
  }

  /** The three-byte vectors: 0xFD and a 2-byte little-endian payload. */
  lemma EncodeVarIntVectorsThreeBytes()
    ensures EncodeVarInt(253) == Ok([0xFD, 0xFD, 0x00])
    ensures EncodeVarInt(255) == Ok([0xFD, 0xFF, 0x00])
    ensures EncodeVarInt(0x3419) == Ok([0xFD, 0x19, 0x34])
  {
    assert EncodeVarInt(253) == Ok([Marker16] + LittleEndian(253, 2));
    assert [Marker16] + LittleEndian(253, 2) == [0xFD, 0xFD, 0x00];
    assert EncodeVarInt(255) == Ok([Marker16] + LittleEndian(255, 2));
    assert [Marker16] + LittleEndian(255, 2) == [0xFD, 0xFF, 0x00];
    assert EncodeVarInt(0x3419) == Ok([Marker16] + LittleEndian(0x3419, 2));
    assert [Marker16] + LittleEndian(0x3419, 2) == [0xFD, 0x19, 0x34];
  }

  /** The five-byte vectors: 0xFE and a 4-byte little-endian payload. */
  lemma EncodeVarIntVectorsFiveBytes()
    ensures EncodeVarInt(0xDC4591) == Ok([0xFE, 0x91, 0x45, 0xDC, 0x00])
    ensures EncodeVarInt(0x80081E5) == Ok([0xFE, 0xE5, 0x81, 0x00, 0x08])
  {
    assert EncodeVarInt(0xDC4591) == Ok([Marker32] + LittleEndian(0xDC4591, 4));
    assert [Marker32] + LittleEndian(0xDC4591, 4) == [0xFE, 0x91, 0x45, 0xDC, 0x00];
    assert EncodeVarInt(0x80081E5) == Ok([Marker32] + LittleEndian(0x80081E5, 4));
    assert [Marker32] + LittleEndian(0x80081E5, 4) == [0xFE, 0xE5, 0x81, 0x00, 0x08];
  }

  /** A nine-byte vector: 0xFF and an 8-byte little-endian payload. */
  lemma EncodeVarIntVectorNineBytesA()
    ensures EncodeVarInt(0xB4DA564E2857) == Ok([0xFF, 0x57, 0x28, 0x4E, 0x56, 0xDA, 0xB4, 0x00, 0x00])
  {
    var payload: seq<byte> := [0x57, 0x28, 0x4E, 0x56, 0xDA, 0xB4, 0x00, 0x00];
    PayloadSpells(payload, 0xB4DA564E2857);
    assert [Marker64] + payload == [0xFF, 0x57, 0x28, 0x4E, 0x56, 0xDA, 0xB4, 0x00, 0x00];
  }

  /** The other nine-byte vector, which uses all eight payload bytes. */
  lemma EncodeVarIntVectorNineBytesB()
    ensures EncodeVarInt(0x4BF583A17D59C158) == Ok([0xFF, 0x58, 0xC1, 0x59, 0x7D, 0xA1, 0x83, 0xF5, 0x4B])
  {
    var payload: seq<byte> := [0x58, 0xC1, 0x59, 0x7D, 0xA1, 0x83, 0xF5, 0x4B];
    PayloadSpells(payload, 0x4BF583A17D59C158);
    assert [Marker64] + payload == [0xFF, 0x58, 0xC1, 0x59, 0x7D, 0xA1, 0x83, 0xF5, 0x4B];
  }

  /** An 8-byte payload that spells `n` is the payload the encoder writes for `n`. */
  lemma PayloadSpells(payload: seq<byte>, n: nat)
    requires |payload| == 8
    requires n == payload[0] as nat + 0x100 * (payload[1] as nat + 0x100 * (payload[2] as nat + 0x100 * (payload[3] as nat
      + 0x100 * (payload[4] as nat + 0x100 * (payload[5] as nat + 0x100 * (payload[6] as nat + 0x100 * payload[7] as nat))))))
    ensures LittleEndian(n, 8) == payload
  {
    var p := payload;
    assert p[7..][1..] == [];
    assert FromLittleEndian(p[6..]) == p[6] as nat + 0x100 * p[7] as nat by { assert p[6..][1..] == p[7..]; }
    assert FromLittleEndian(p[5..]) == p[5] as nat + 0x100 * FromLittleEndian(p[6..]) by { assert p[5..][1..] == p[6..]; }
    assert FromLittleEndian(p[4..]) == p[4] as nat + 0x100 * FromLittleEndian(p[5..]) by { assert p[4..][1..] == p[5..]; }
    assert FromLittleEndian(p[3..]) == p[3] as nat + 0x100 * FromLittleEndian(p[4..]) by { assert p[3..][1..] == p[4..]; }
    assert FromLittleEndian(p[2..]) == p[2] as nat + 0x100 * FromLittleEndian(p[3..]) by { assert p[2..][1..] == p[3..]; }
    assert FromLittleEndian(p[1..]) == p[1] as nat + 0x100 * FromLittleEndian(p[2..]) by { assert p[1..][1..] == p[2..]; }
    assert FromLittleEndian(p) == n;
    FromLittleEndianRoundTrip(p);
  }

  /** Negative integers and integers too wide for 9 bytes are refused. */
  lemma EncodeVarIntRejects()
    ensures EncodeVarInt(-5) == Err(OutOfRange(-5))
    ensures EncodeVarInt(-1) == Err(OutOfRange(-1))
    ensures EncodeVarInt(0x2_0000_0000_0000_0000) == Err(OutOfRange(0x2_0000_0000_0000_0000))
  {
  }
}
