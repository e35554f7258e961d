/**
 * The concrete cases the repository's unit tests exercise, restated as
 * lemmas about the model: the chunk type "RuSt" and its property bits, and a
 * chunk carrying the 42-byte message "This is where your secret message will
 * be!" under that type.
 */
module ChunkExamples {
  import opened Bytes
  import opened Errors
  import opened Crc
  import opened ChunkTypes
  import opened Chunks

  /** "RuSt" as bytes. */
  const RuStCode: Code := [82, 117, 83, 116]

  /** The UTF-8 bytes of "This is where your secret message will be!". */
  const Message: seq<byte> := [84, 104, 105, 115, 32, 105, 115, 32, 119, 104, 101, 114, 101, 32, 121, 111, 117, 114, 32, 115, 101, 99, 114, 101, 116, 32, 109, 101, 115, 115, 97, 103, 101, 32, 119, 105, 108, 108, 32, 98, 101, 33]

  /** The checksum `new` stores for the message under "RuSt" (payload, then type). */
  const MessageChecksum: u32 := 3492869447

  /** The checksum the tests expect, CRC-32 over the type, then the payload. */
  const TestsChecksum: u32 := 2882656334

  /** The type built from the bytes of "RuSt" gives those bytes back. */
  lemma TypeFromBytes()
    ensures ChunkTypes.TryFrom([82, 117, 83, 116]) == Ok(ChunkType(RuStCode))
    ensures ChunkType(RuStCode).Bytes() == [82, 117, 83, 116]
  {
  }

  /** Parsing "RuSt" gives the type built from its bytes. */
  lemma TypeFromStr()
    ensures |Utf8("RuSt")| == 4 && FromStr("RuSt") == Ok(ChunkType(RuStCode))
  {
    FromStrAccepts("RuSt");
    assert FromStr("RuSt").value.code == RuStCode;
  }

  /** A digit among the four characters is refused. */
  lemma DigitRejected()
    ensures |Utf8("Ru1t")| == 4 && FromStr("Ru1t") == Err(NotAlphabetic)
  {
    FromStrAccepts("Ru1t");
  }

  /** The type "RuSt" displays as "RuSt". */
  lemma TypeDisplay()
    ensures ChunkType(RuStCode).ToString() == "RuSt"
  {
  }

  /**
   * The property bits of "RuSt" and of the one-letter variants the tests
   * parse with `from_str`.
   */
  lemma PropertyBits()
    ensures var t := ChunkType(RuStCode);
      t.IsCritical() && !t.IsPublic() && t.IsReservedBitValid() && t.IsSafeToCopy() && t.IsValid()
    ensures |Utf8("ruSt")| == 4 && FromStr("ruSt") == Ok(ChunkType([114, 117, 83, 116]))
    ensures |Utf8("RUSt")| == 4 && FromStr("RUSt") == Ok(ChunkType([82, 85, 83, 116]))
    ensures |Utf8("Rust")| == 4 && FromStr("Rust") == Ok(ChunkType([82, 117, 115, 116]))
    ensures |Utf8("RuST")| == 4 && FromStr("RuST") == Ok(ChunkType([82, 117, 83, 84]))
    ensures !ChunkType([114, 117, 83, 116]).IsCritical()
    ensures ChunkType([82, 85, 83, 116]).IsPublic()
    ensures !ChunkType([82, 117, 115, 116]).IsReservedBitValid()
    ensures !ChunkType([82, 117, 115, 116]).IsValid()
    ensures !ChunkType([82, 117, 83, 84]).IsSafeToCopy()
  {
    ParsesTo("ruSt", [114, 117, 83, 116]);
    ParsesTo("RUSt", [82, 85, 83, 116]);
    ParsesTo("Rust", [82, 117, 115, 116]);
    ParsesTo("RuST", [82, 117, 83, 84]);
  }

  /** A four-character string spelling a code parses to the chunk type of that code. */
  lemma ParsesTo(s: string, code: Code)
    requires |s| == 4 && forall i :: 0 <= i < 4 ==> s[i] as int == code[i] as int
    ensures |Utf8(s)| == 4 && FromStr(s) == Ok(ChunkType(code))
  {
    Utf8OfAscii(s);
    forall i | 0 <= i < 4
      ensures IsAsciiLetter(s[i])
    {
      LetterIffAlphabetic(code[i], s[i]);
    }
    FromStrAccepts(s);
    assert FromStr(s).value.code == code;
  }

  // The two concrete checksums below are evaluated about ten bytes at a
  // time. The bytes are first turned into octets, in lemmas of their own;
  // each piece lemma then has the verifier compute one register value from
  // octet literals. The pieces reach the other lemmas as parameters, so that
  // no other lemma evaluates them again.

  /** The message in four pieces. */
  lemma MessageInPieces(msg: seq<byte>, m1: seq<byte>, m2: seq<byte>, m3: seq<byte>, m4: seq<byte>)
    requires msg == Message
    requires m1 == [84, 104, 105, 115, 32, 105, 115, 32, 119, 104, 101]
    requires m2 == [114, 101, 32, 121, 111, 117, 114, 32, 115, 101, 99]
    requires m3 == [114, 101, 116, 32, 109, 101, 115, 115, 97, 103]
    requires m4 == [101, 32, 119, 105, 108, 108, 32, 98, 101, 33]
    ensures msg == m1 + m2 + m3 + m4
  {
  }

  lemma OctetsOfPiece1(m: seq<byte>)
    requires m == [84, 104, 105, 115, 32, 105, 115, 32, 119, 104, 101]
    ensures Octets(m) == [84, 104, 105, 115, 32, 105, 115, 32, 119, 104, 101]
  {
    forall i | 0 <= i < 11
      ensures Octets(m)[i] == m[i] as bv8
    {
    }
  }

  lemma OctetsOfPiece2(m: seq<byte>)
    requires m == [114, 101, 32, 121, 111, 117, 114, 32, 115, 101, 99]
    ensures Octets(m) == [114, 101, 32, 121, 111, 117, 114, 32, 115, 101, 99]
  {
    forall i | 0 <= i < 11
      ensures Octets(m)[i] == m[i] as bv8
    {
    }
  }

  lemma OctetsOfPiece3(m: seq<byte>)
    requires m == [114, 101, 116, 32, 109, 101, 115, 115, 97, 103]
    ensures Octets(m) == [114, 101, 116, 32, 109, 101, 115, 115, 97, 103]
  {
    forall i | 0 <= i < 10
      ensures Octets(m)[i] == m[i] as bv8
    {
    }
  }

  lemma OctetsOfPiece4(m: seq<byte>)
    requires m == [101, 32, 119, 105, 108, 108, 32, 98, 101, 33]
    ensures Octets(m) == [101, 32, 119, 105, 108, 108, 32, 98, 101, 33]
  {
    forall i | 0 <= i < 10
      ensures Octets(m)[i] == m[i] as bv8
    {
    }
  }

  lemma OctetsOfType(t: seq<byte>)
    requires t == [82, 117, 83, 116]
    ensures Octets(t) == [82, 117, 83, 116]
  {
    forall i | 0 <= i < 4
      ensures Octets(t)[i] == t[i] as bv8
    {
    }
  }

  /** The message and the type as octets. */
  lemma OctetsInPieces(msg: seq<byte>, t: seq<byte>, o1: seq<bv8>, o2: seq<bv8>, o3: seq<bv8>, o4: seq<bv8>, ot: seq<bv8>)
    requires msg == Message && t == RuStCode
    requires o1 == [84, 104, 105, 115, 32, 105, 115, 32, 119, 104, 101]
    requires o2 == [114, 101, 32, 121, 111, 117, 114, 32, 115, 101, 99]
    requires o3 == [114, 101, 116, 32, 109, 101, 115, 115, 97, 103]
    requires o4 == [101, 32, 119, 105, 108, 108, 32, 98, 101, 33]
    requires ot == [82, 117, 83, 116]
    ensures Octets(msg) == o1 + o2 + o3 + o4
    ensures Octets(t) == ot
  {
    var m1: seq<byte>, m2: seq<byte>, m3: seq<byte>, m4: seq<byte> := [84, 104, 105, 115, 32, 105, 115, 32, 119, 104, 101], [114, 101, 32, 121, 111, 117, 114, 32, 115, 101, 99], [114, 101, 116, 32, 109, 101, 115, 115, 97, 103], [101, 32, 119, 105, 108, 108, 32, 98, 101, 33];
    MessageInPieces(msg, m1, m2, m3, m4);
    OctetsOfPiece1(m1); OctetsOfPiece2(m2); OctetsOfPiece3(m3); OctetsOfPiece4(m4);
    OctetsOfType(t);
    OctetsAppend(m1, m2);
    OctetsAppend(m1 + m2, m3);
    OctetsAppend(m1 + m2 + m3, m4);
  }

  lemma PayloadThenTypePiece1(o: seq<bv8>)
    requires o == [84, 104, 105, 115, 32, 105, 115, 32, 119, 104, 101]
    ensures Register(0xFFFF_FFFF, o) == 0x7374_5D3F
  {
    assert Register(0xFFFF_FFFF, [84, 104, 105, 115, 32, 105, 115, 32, 119, 104, 101]) == 0x7374_5D3F;
  }

  lemma PayloadThenTypePiece2(o: seq<bv8>)
    requires o == [114, 101, 32, 121, 111, 117, 114, 32, 115, 101, 99]
    ensures Register(0x7374_5D3F, o) == 0x4731_5F70
  {
    assert Register(0x7374_5D3F, [114, 101, 32, 121, 111, 117, 114, 32, 115, 101, 99]) == 0x4731_5F70;
  }

  lemma PayloadThenTypePiece3(o: seq<bv8>)
    requires o == [114, 101, 116, 32, 109, 101, 115, 115, 97, 103]
    ensures Register(0x4731_5F70, o) == 0xF533_B74C
  {
    assert Register(0x4731_5F70, [114, 101, 116, 32, 109, 101, 115, 115, 97, 103]) == 0xF533_B74C;
  }

  lemma PayloadThenTypePiece4(o: seq<bv8>)
    requires o == [101, 32, 119, 105, 108, 108, 32, 98, 101, 33]
    ensures Register(0xF533_B74C, o) == 0x0475_BD13
  {
    assert Register(0xF533_B74C, [101, 32, 119, 105, 108, 108, 32, 98, 101, 33]) == 0x0475_BD13;
  }

  lemma PayloadThenTypePiece5(o: seq<bv8>)
    requires o == [82, 117, 83, 116]
    ensures Register(0x0475_BD13, o) == 0x2FCF_0AB8
  {
    assert Register(0x0475_BD13, [82, 117, 83, 116]) == 0x2FCF_0AB8;
  }

  lemma TypeThenPayloadPiece1(o: seq<bv8>)
    requires o == [82, 117, 83, 116]
    ensures Register(0xFFFF_FFFF, o) == 0x2B7B_F6C3
  {
    assert Register(0xFFFF_FFFF, [82, 117, 83, 116]) == 0x2B7B_F6C3;
  }

  lemma TypeThenPayloadPiece2(o: seq<bv8>)
    requires o == [84, 104, 105, 115, 32, 105, 115, 32, 119, 104, 101]
    ensures Register(0x2B7B_F6C3, o) == 0x14FF_868B
  {
    assert Register(0x2B7B_F6C3, [84, 104, 105, 115, 32, 105, 115, 32, 119, 104, 101]) == 0x14FF_868B;
  }

  lemma TypeThenPayloadPiece3(o: seq<bv8>)
    requires o == [114, 101, 32, 121, 111, 117, 114, 32, 115, 101, 99]
    ensures Register(0x14FF_868B, o) == 0x31BC_11FF
  {
    assert Register(0x14FF_868B, [114, 101, 32, 121, 111, 117, 114, 32, 115, 101, 99]) == 0x31BC_11FF;
  }

  lemma TypeThenPayloadPiece4(o: seq<bv8>)
    requires o == [114, 101, 116, 32, 109, 101, 115, 115, 97, 103]
    ensures Register(0x31BC_11FF, o) == 0xB3EB_484F
  {
    assert Register(0x31BC_11FF, [114, 101, 116, 32, 109, 101, 115, 115, 97, 103]) == 0xB3EB_484F;
  }

  lemma TypeThenPayloadPiece5(o: seq<bv8>)
    requires o == [101, 32, 119, 105, 108, 108, 32, 98, 101, 33]
    ensures Register(0xB3EB_484F, o) == 0x542E_27B1
  {
    assert Register(0xB3EB_484F, [101, 32, 119, 105, 108, 108, 32, 98, 101, 33]) == 0x542E_27B1;
  }

  /** CRC-32 of the message followed by "RuSt": what `new` stores. */
  lemma PayloadThenTypeChecksum(msg: seq<byte>, t: seq<byte>, o1: seq<bv8>, o2: seq<bv8>, o3: seq<bv8>, o4: seq<bv8>, ot: seq<bv8>)
    requires msg == Message && t == RuStCode
    requires o1 == [84, 104, 105, 115, 32, 105, 115, 32, 119, 104, 101]
    requires o2 == [114, 101, 32, 121, 111, 117, 114, 32, 115, 101, 99]
    requires o3 == [114, 101, 116, 32, 109, 101, 115, 115, 97, 103]
    requires o4 == [101, 32, 119, 105, 108, 108, 32, 98, 101, 33]
    requires ot == [82, 117, 83, 116]
    ensures Crc32(msg + t) as int == MessageChecksum
  {
    OctetsInPieces(msg, t, o1, o2, o3, o4, ot);
    OctetsAppend(msg, t);
    PayloadThenTypePiece1(o1); PayloadThenTypePiece2(o2); PayloadThenTypePiece3(o3);
    PayloadThenTypePiece4(o4); PayloadThenTypePiece5(ot);
    RegisterAppend(0xFFFF_FFFF, o1, o2);
    RegisterAppend(0xFFFF_FFFF, o1 + o2, o3);
    RegisterAppend(0xFFFF_FFFF, o1 + o2 + o3, o4);
    RegisterAppend(0xFFFF_FFFF, o1 + o2 + o3 + o4, ot);
  }

  /** CRC-32 of "RuSt" followed by the message: the tests' constant. */
  lemma TypeThenPayloadChecksum(msg: seq<byte>, t: seq<byte>, o1: seq<bv8>, o2: seq<bv8>, o3: seq<bv8>, o4: seq<bv8>, ot: seq<bv8>)
    requires msg == Message && t == RuStCode
    requires o1 == [84, 104, 105, 115, 32, 105, 115, 32, 119, 104, 101]
    requires o2 == [114, 101, 32, 121, 111, 117, 114, 32, 115, 101, 99]
    requires o3 == [114, 101, 116, 32, 109, 101, 115, 115, 97, 103]
    requires o4 == [101, 32, 119, 105, 108, 108, 32, 98, 101, 33]
    requires ot == [82, 117, 83, 116]
    ensures Crc32(t + msg) as int == TestsChecksum
  {
    OctetsInPieces(msg, t, o1, o2, o3, o4, ot);
    OctetsAppend(t, msg);
    assert ot + (o1 + o2 + o3 + o4) == ot + o1 + o2 + o3 + o4;
    TypeThenPayloadPiece1(ot); TypeThenPayloadPiece2(o1); TypeThenPayloadPiece3(o2);
    TypeThenPayloadPiece4(o3); TypeThenPayloadPiece5(o4);
    RegisterAppend(0xFFFF_FFFF, ot, o1);
    RegisterAppend(0xFFFF_FFFF, ot + o1, o2);
    RegisterAppend(0xFFFF_FFFF, ot + o1 + o2, o3);
    RegisterAppend(0xFFFF_FFFF, ot + o1 + o2 + o3, o4);
  }

  /** `new` on the message stores length 42 and the payload-then-type checksum. */
  lemma NewMessageChunk()
    ensures |Message| == 42
    ensures New(ChunkType(RuStCode), Message).length == 42
    ensures New(ChunkType(RuStCode), Message).crc == MessageChecksum
  {
    PayloadThenTypeChecksum(Message, RuStCode, [84, 104, 105, 115, 32, 105, 115, 32, 119, 104, 101], [114, 101, 32, 121, 111, 117, 114, 32, 115, 101, 99], [114, 101, 116, 32, 109, 101, 115, 115, 97, 103], [101, 32, 119, 105, 108, 108, 32, 98, 101, 33], [82, 117, 83, 116]);
  }

  /** The buffer the parsing tests build: length 42, "RuSt", the message, then `crc`. */
  function TestBuffer(crc: u32): (r: seq<byte>)
    ensures |r| == 54
  {
    ToBeBytes(42) + RuStCode + Message + ToBeBytes(crc)
  }

  /**
   * The tests' buffer parses exactly when its CRC is the payload-then-type
   * checksum, and then yields length 42, type "RuSt" and the message.
   */
  lemma ParseTestBuffer(crc: u32)
    ensures Chunks.TryFrom(TestBuffer(crc)).Ok? <==> crc == MessageChecksum
    ensures Chunks.TryFrom(TestBuffer(crc)).Ok? ==>
      var c := Chunks.TryFrom(TestBuffer(crc)).value;
      c.length == 42 && c.chunkType.ToString() == "RuSt" && c.data == Message && c.crc == crc
    ensures Chunks.TryFrom(TestBuffer(crc)).Err? ==> Chunks.TryFrom(TestBuffer(crc)).error == ChecksumMismatch
  {
    NewMessageChunk();
    TryFromFramed(ChunkType(RuStCode), Message, crc, []);
    assert TestBuffer(crc) + [] == TestBuffer(crc);
  }

  /**
   * With the tests' constant the buffer is rejected: the valid-chunk tests
   * expect the PNG-order checksum, which `new` does not compute. The
   * decremented constant of the invalid-chunk test is rejected as that test
   * expects.
   */
  lemma TestsConstantsRejected()
    ensures Chunks.TryFrom(TestBuffer(TestsChecksum)) == Err(ChecksumMismatch)
    ensures Chunks.TryFrom(TestBuffer(TestsChecksum - 1)) == Err(ChecksumMismatch)
  {
    ParseTestBuffer(TestsChecksum);
    ParseTestBuffer(TestsChecksum - 1);
  }

  /** `data_as_string` on the message chunk gives the message text back. */
  method MessageAsString() returns (s: string)
    ensures s == "This is where your secret message will be!"
  {
    var r := DataAsString(New(ChunkType(RuStCode), Message));
    s := r.value;
    MessageText(s);
  }

  /** The characters whose code points are the message bytes spell the message. */
  lemma MessageText(s: string)
    requires |s| == |Message|
    requires forall i :: 0 <= i < |s| ==> s[i] as int == Message[i] as int
    ensures s == "This is where your secret message will be!"
  {
  }
}
