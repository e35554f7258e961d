/**
 * The 4-byte chunk-type code of a PNG chunk. The case of each letter carries
 * one property bit (bit 5, value 0x20), as section 5.4 of the PNG
 * specification (second edition) lays out: ancillary, private, reserved and
 * safe-to-copy.
 */
module ChunkTypes {
  import opened Bytes
  import opened Errors

  /** The raw `[u8; 4]` array a chunk type is built from. */
  type Bytes4 = s: seq<byte> | |s| == 4 witness [0, 0, 0, 0]

  predicate AllAlphabetic(s: Bytes4) {
    forall i :: 0 <= i < 4 ==> IsAsciiAlphabetic(s[i])
  }

  /** A code that passed the constructors' check: four ASCII letters. */
  type Code = s: Bytes4 | AllAlphabetic(s) witness [0x41, 0x41, 0x41, 0x41]

  /** Bit 5 of a byte, `(byte >> 5) & 1`. */
  function PropertyBit(b: byte): (r: bv8)
    ensures r == 0 || r == 1
  {
    (b as int as bv8 >> 5) & 1
  }

  /** For a letter, bit 5 is clear exactly on upper case and set exactly on lower case. */
  lemma PropertyBitIsCase(b: byte)
    requires IsAsciiAlphabetic(b)
    ensures PropertyBit(b) == 0 <==> IsAsciiUppercase(b)
    ensures PropertyBit(b) == 1 <==> IsAsciiLowercase(b)
  {
  }

  /** An immutable chunk type; equality is equality of the codes. */
  datatype ChunkType = ChunkType(code: Code)
  {
    /** `bytes`: a copy of the stored code. */
    function Bytes(): (r: Bytes4)
      ensures AllAlphabetic(r)
      ensures TryFrom(r) == Ok(this)
    {
      code
    }

    /** Critical iff the first letter is upper case. */
    predicate IsCritical()
      ensures IsCritical() <==> IsAsciiUppercase(code[0])
    {
      PropertyBitIsCase(code[0]);
      PropertyBit(code[0]) == 0
    }

    /** Public iff the second letter is upper case. */
    predicate IsPublic()
      ensures IsPublic() <==> IsAsciiUppercase(code[1])
    {
      PropertyBitIsCase(code[1]);
      PropertyBit(code[1]) == 0
    }

    /** The reserved bit is valid iff the third letter is upper case. */
    predicate IsReservedBitValid()
      ensures IsReservedBitValid() <==> IsAsciiUppercase(code[2])
    {
      PropertyBitIsCase(code[2]);
      PropertyBit(code[2]) == 0
    }

    /** Safe to copy iff the fourth letter is lower case. */
    predicate IsSafeToCopy()
      ensures IsSafeToCopy() <==> IsAsciiLowercase(code[3])
    {
      PropertyBitIsCase(code[3]);
      PropertyBit(code[3]) == 1
    }

    /**
     * Validity is the reserved bit alone: the critical, public and
     * safe-to-copy bits do not take part.
     */
    predicate IsValid()
      ensures IsValid() <==> IsAsciiUppercase(code[2])
    {
      IsReservedBitValid()
    }

    /** `Display`: the four code bytes read as characters. */
    function ToString(): (s: string)
      ensures |s| == 4
      ensures forall i :: 0 <= i < 4 ==> s[i] as int == code[i] as int
      ensures forall i :: 0 <= i < 4 ==> IsAsciiLetter(s[i])
    {
      [ByteToChar(code[0]), ByteToChar(code[1]), ByteToChar(code[2]), ByteToChar(code[3])]
    }
  }

  /** `TryFrom<[u8; 4]>`: accepts the array iff every byte is an ASCII letter. */
  function TryFrom(value: Bytes4): (r: Result<ChunkType>)
    ensures r.Ok? <==> forall i :: 0 <= i < 4 ==> IsAsciiAlphabetic(value[i])
    ensures r.Ok? ==> r.value.code == value
    ensures r.Err? ==> r.error == NotAlphabetic
  {
    if AllAlphabetic(value) then Ok(ChunkType(value)) else Err(NotAlphabetic)
  }

  /**
   * `FromStr`: the first four bytes of the string's UTF-8 encoding, checked
   * as `TryFrom` checks them; later bytes are ignored. Fewer than four bytes
   * make the slice panic, hence the precondition.
   */
  function FromStr(s: string): (r: Result<ChunkType>)
    requires |Utf8(s)| >= 4
    ensures r == TryFrom(Utf8(s)[..4])
  {
    var bytes := Utf8(s);
    TryFrom(bytes[..4])
  }

  /**
   * `FromStr` accepts a string iff its first four characters are ASCII
   * letters, and the code is then those four characters.
   */
  lemma FromStrAccepts(s: string)
    requires |Utf8(s)| >= 4
    ensures FromStr(s).Ok? <==> |s| >= 4 && forall i :: 0 <= i < 4 ==> IsAsciiLetter(s[i])
    ensures FromStr(s).Ok? ==> forall i :: 0 <= i < 4 ==> FromStr(s).value.code[i] as int == s[i] as int
  {
    var n := if |s| < 4 then |s| else 4;
    if k :| 0 <= k < n && !IsAscii(s[k]) {
      FromStrRejectsNonAscii(s, k);
    } else {
      if |s| < 4 {
        Utf8OfAscii(s);
        assert false;
      }
      Utf8AsciiPrefix(s, 4);
      var bytes := Utf8(s)[..4];
      forall i | 0 <= i < 4
        ensures IsAsciiAlphabetic(bytes[i]) <==> IsAsciiLetter(s[i])
      {
        LetterIffAlphabetic(bytes[i], s[i]);
      }
    }
  }

  /** A non-ASCII character among the first four makes `FromStr` fail. */
  lemma FromStrRejectsNonAscii(s: string, k: nat)
    requires |Utf8(s)| >= 4
    requires k < 4 && k < |s| && !IsAscii(s[k])
    ensures FromStr(s) == Err(NotAlphabetic)
  {
    var first := FirstNonAscii(s, k);
    Utf8AtFirstNonAscii(s, first);
    assert !IsAsciiAlphabetic(Utf8(s)[..4][first]);
  }

  /** The smallest index at or below `k` that holds a non-ASCII character. */
  function FirstNonAscii(s: string, k: nat): (j: nat)
    requires k < |s| && !IsAscii(s[k])
    ensures j <= k && !IsAscii(s[j])
    ensures forall i :: 0 <= i < j ==> IsAscii(s[i])
    decreases k
  {
    if k == 0 || forall i :: 0 <= i < k ==> IsAscii(s[i]) then k
    else
      var i :| 0 <= i < k && !IsAscii(s[i]);
      FirstNonAscii(s, i)
  }

  /** Parsing the displayed form gives the chunk type back. */
  lemma {:induction false} DisplayRoundTrip(t: ChunkType)
    ensures |Utf8(t.ToString())| == 4
    ensures FromStr(t.ToString()) == Ok(t)
  {
    var s := t.ToString();
    Utf8OfAscii(s);
    assert Utf8(s)[..4] == t.code;
  }

  /** Two chunk types are equal iff their codes are. */
  lemma EqualIffSameBytes(a: ChunkType, b: ChunkType)
    ensures a == b <==> a.Bytes() == b.Bytes()
  {
  }
}
