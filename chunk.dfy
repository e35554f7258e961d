/**
 * A PNG chunk: its type, its payload, the payload's length as a `u32`, and a
 * CRC-32. Built from a type and a payload, serialised as
 * length ++ type ++ payload ++ crc (big-endian integers), and parsed back.
 *
 * The checksum is taken over the payload FOLLOWED BY the type code, the
 * order this implementation uses; the PNG specification (section 5.3) takes
 * it over the type code followed by the data.
 */
module Chunks {
  import opened Bytes
  import opened Errors
  import opened Crc
  import opened ChunkTypes

  /** The record; its field destructors are the accessors `chunk_type`, `data`, `length` and `crc`. */
  datatype Chunk = Chunk(chunkType: ChunkType, data: seq<byte>, length: u32, crc: u32)

  /** The checksum this implementation stores: CRC-32 of the payload, then the type code. */
  function Checksum(chunkData: seq<byte>, chunkTypeCode: Bytes4): u32 {
    Crc32(chunkData + chunkTypeCode) as int
  }

  /**
   * What every chunk built by `New` or accepted by `TryFrom` satisfies: the
   * length is the payload's, and the CRC is the payload's checksum.
   */
  predicate WellFormed(c: Chunk) {
    c.length == |c.data| && c.crc == Checksum(c.data, c.chunkType.Bytes())
  }

  /**
   * `new`: stores the type and payload unchanged and computes length and
   * checksum. A payload of 2^32 bytes or more would make the `u32`
   * conversion panic.
   */
  function New(chunkType: ChunkType, chunkData: seq<byte>): (c: Chunk)
    requires |chunkData| < U32Limit
    ensures c.chunkType == chunkType && c.data == chunkData
    ensures c.length == |chunkData|
    ensures c.crc == Crc32(chunkData + chunkType.Bytes()) as int
    ensures WellFormed(c)
  {
    Chunk(chunkType, chunkData, |chunkData|, Checksum(chunkData, chunkType.Bytes()))
  }

  /** A chunk is well formed exactly when it is the chunk `New` builds from its type and payload. */
  lemma WellFormedIffNew(c: Chunk)
    ensures WellFormed(c) <==> |c.data| < U32Limit && c == New(c.chunkType, c.data)
  {
  }

  /**
   * `get_checksum`: appends the type code to (a copy of) the payload and
   * runs CRC-32 over the buffer.
   */
  method GetChecksum(chunkData: seq<byte>, chunkTypeCode: Bytes4) returns (sum: u32)
    ensures sum == Checksum(chunkData, chunkTypeCode)
    ensures sum == Crc32(chunkData + chunkTypeCode) as int
    ensures sum == (Update(Update(0xFFFF_FFFF, chunkData), chunkTypeCode) ^ 0xFFFF_FFFF) as int
  {
    var buffer := chunkData;
    buffer := buffer + chunkTypeCode;
    sum := Crc32(buffer) as int;
    UpdateAppend(0xFFFF_FFFF, chunkData, chunkTypeCode);
  }

  /**
   * `data_as_string`: one character per payload byte, each with the byte's
   * value as its code point. Reading an in-memory slice never fails.
   */
  method DataAsString(c: Chunk) returns (r: Result<string>)
    ensures r.Ok?
    ensures |r.value| == |c.data|
    ensures forall i :: 0 <= i < |c.data| ==> r.value[i] as int == c.data[i] as int
  {
    var s := "";
    for i := 0 to |c.data|
      invariant |s| == i
      invariant forall j :: 0 <= j < i ==> s[j] as int == c.data[j] as int
    {
      s := s + [ByteToChar(c.data[i])];
    }
    return Ok(s);
  }

  /** `as_bytes`: length, type code, payload and CRC, integers big-endian. */
  function AsBytes(c: Chunk): (r: seq<byte>)
    ensures |r| == 12 + |c.data|
    ensures r[..4] == ToBeBytes(c.length)
    ensures r[4..8] == c.chunkType.Bytes()
    ensures r[8..8 + |c.data|] == c.data
    ensures r[8 + |c.data|..] == ToBeBytes(c.crc)
  {
    ToBeBytes(c.length) + c.chunkType.Bytes() + c.data + ToBeBytes(c.crc)
  }

  /**
   * The serialised form of a well-formed chunk is 12 + length bytes long, and
   * its first and last four bytes decode to the length and the CRC.
   */
  lemma AsBytesFields(c: Chunk)
    requires WellFormed(c)
    ensures |AsBytes(c)| == 12 + c.length
    ensures FromBeBytes(AsBytes(c)[..4]) == c.length
    ensures FromBeBytes(AsBytes(c)[|AsBytes(c)| - 4..]) == c.crc
  {
    FromToBeBytes(c.length);
    FromToBeBytes(c.crc);
  }

  /**
   * `TryFrom<&[u8]>`, the parse the tests call: at least 12 bytes; a
   * big-endian length; a type code checked as `ChunkType::try_from` checks
   * it; that many payload bytes; a big-endian CRC that must equal the
   * recomputed checksum. Bytes after the CRC are not read.
   */
  function TryFrom(buf: seq<byte>): (r: Result<Chunk>)
    ensures |buf| < 12 ==> r == Err(TooShort)
    ensures |buf| >= 12 && !AllAlphabetic(buf[4..8]) ==> r == Err(NotAlphabetic)
    ensures |buf| >= 12 && AllAlphabetic(buf[4..8]) && |buf| < 12 + FromBeBytes(buf[..4]) ==> r == Err(Truncated)
    ensures r.Ok? ==> WellFormed(r.value) && 12 + r.value.length <= |buf|
  {
    if |buf| < 12 then Err(TooShort)
    else
      var length := FromBeBytes(buf[..4]);
      match ChunkTypes.TryFrom(buf[4..8])
      case Err(e) => Err(e)
      case Ok(chunkType) =>
        var n := length;
        if |buf| - 12 < n then Err(Truncated)
        else
          var data := buf[8..8 + n];
          var crc := FromBeBytes(buf[8 + n..12 + n]);
          if crc != Checksum(data, chunkType.Bytes()) then Err(ChecksumMismatch)
          else Ok(Chunk(chunkType, data, length, crc))
  }

  /**
   * Parsing never invents a chunk: an accepted buffer begins with exactly
   * the serialised form of the chunk it yields.
   */
  lemma TryFromSound(buf: seq<byte>)
    requires TryFrom(buf).Ok?
    ensures buf[..|AsBytes(TryFrom(buf).value)|] == AsBytes(TryFrom(buf).value)
  {
    var c := TryFrom(buf).value;
    var n := FromBeBytes(buf[..4]);
    var t := ChunkTypes.TryFrom(buf[4..8]);
    assert t.Ok? && 12 + n <= |buf|;
    assert c == Chunk(t.value, buf[8..8 + n], n, FromBeBytes(buf[8 + n..12 + n]));
    ToFromBeBytes(buf[..4]);
    ToFromBeBytes(buf[8 + n..12 + n]);
    assert buf[..12 + n] == buf[..4] + buf[4..8] + buf[8..8 + n] + buf[8 + n..12 + n];
  }

  /**
   * A buffer laid out as length ++ type ++ payload ++ crc (and anything after)
   * parses to the chunk `New` builds exactly when the declared CRC is the
   * recomputed one, and fails with a checksum mismatch otherwise.
   */
  lemma TryFromFramed(chunkType: ChunkType, chunkData: seq<byte>, crc: u32, rest: seq<byte>)
    requires |chunkData| < U32Limit
    ensures TryFrom(ToBeBytes(|chunkData|) + chunkType.Bytes() + chunkData + ToBeBytes(crc) + rest)
         == if crc == Checksum(chunkData, chunkType.Bytes()) then Ok(New(chunkType, chunkData))
            else Err(ChecksumMismatch)
  {
    var n := |chunkData|;
    var buf := ToBeBytes(n) + chunkType.Bytes() + chunkData + ToBeBytes(crc) + rest;
    assert buf[..4] == ToBeBytes(n);
    FromToBeBytes(n);
    assert buf[4..8] == chunkType.Bytes();
    assert buf[8..8 + n] == chunkData;
    assert buf[8 + n..12 + n] == ToBeBytes(crc);
    FromToBeBytes(crc);
  }

  /** Serialising a well-formed chunk and parsing it back gives the chunk. */
  lemma RoundTrip(c: Chunk, rest: seq<byte>)
    requires WellFormed(c)
    ensures TryFrom(AsBytes(c) + rest) == Ok(c)
  {
    WellFormedIffNew(c);
    TryFromFramed(c.chunkType, c.data, c.crc, rest);
  }

  /** `new`, then `as_bytes`, then parsing, gives back type, payload, length and CRC. */
  lemma NewRoundTrip(chunkType: ChunkType, chunkData: seq<byte>)
    requires |chunkData| < U32Limit
    ensures TryFrom(AsBytes(New(chunkType, chunkData))) == Ok(New(chunkType, chunkData))
  {
    RoundTrip(New(chunkType, chunkData), []);
    assert AsBytes(New(chunkType, chunkData)) + [] == AsBytes(New(chunkType, chunkData));
  }

  /** A serialised chunk whose CRC field was altered is rejected. */
  lemma TamperedCrcRejected(c: Chunk, crc: u32)
    requires WellFormed(c) && crc != c.crc
    ensures TryFrom(AsBytes(c.(crc := crc))) == Err(ChecksumMismatch)
  {
    TryFromFramed(c.chunkType, c.data, crc, []);
    assert AsBytes(c.(crc := crc)) + [] == AsBytes(c.(crc := crc));
  }
}
