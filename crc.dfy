/**
 * CRC-32/ISO-HDLC, the checksum of ISO 3309 used by the PNG format
 * (section 5.5 of the PNG specification, second edition): reflected
 * polynomial 0xEDB88320, register preset to all ones, result complemented.
 * The repository takes it from an external library; here it is given by
 * its bitwise reference definition.
 */
module Crc {
  import opened Bytes

  /** The reflected generator polynomial of CRC-32. */
  const Polynomial: bv32 := 0xEDB8_8320

  /** One shift of the register: divide by x, reducing by the polynomial. */
  function Shift(c: bv32): bv32 {
    if c & 1 == 1 then (c >> 1) ^ Polynomial else c >> 1
  }

  /**
   * Feed one octet into the register: the octet enters at the low end, least
   * significant bit first, and the register is shifted eight times.
   */
  function Feed(c: bv32, b: bv8): bv32 {
    var x := c ^ (b as bv32);
    Shift(Shift(Shift(Shift(Shift(Shift(Shift(Shift(x))))))))
  }

  /** The register after feeding every octet of `s`, in order, starting from `c`. */
  function Register(c: bv32, s: seq<bv8>): bv32
    decreases |s|
  {
    if s == [] then c else Register(Feed(c, s[0]), s[1..])
  }

  /** Bytes as the octets the register consumes. */
  function Octets(s: seq<byte>): (r: seq<bv8>)
    ensures |r| == |s|
  {
    seq(|s|, i requires 0 <= i < |s| => s[i] as bv8)
  }

  /** The register after feeding the bytes of `s`, starting from `c`. */
  function Update(c: bv32, s: seq<byte>): bv32 {
    Register(c, Octets(s))
  }

  /** CRC-32/ISO-HDLC of a byte string. */
  function Crc32(s: seq<byte>): bv32 {
    Update(0xFFFF_FFFF, s) ^ 0xFFFF_FFFF
  }

  /**
   * Feeding a concatenation is feeding its halves one after the other: the
   * register can be computed over a buffer in pieces.
   */
  lemma {:induction false} RegisterAppend(c: bv32, a: seq<bv8>, b: seq<bv8>)
    ensures Register(c, a + b) == Register(Register(c, a), b)
    decreases |a|
  {
    if a == [] {
      assert a + b == b;
    } else {
      assert (a + b)[1..] == a[1..] + b;
      RegisterAppend(Feed(c, a[0]), a[1..], b);
    }
  }

  /** Turning bytes into octets commutes with concatenation. */
  lemma OctetsAppend(a: seq<byte>, b: seq<byte>)
    ensures Octets(a + b) == Octets(a) + Octets(b)
  {
    assert |Octets(a + b)| == |Octets(a) + Octets(b)|;
    forall i | 0 <= i < |a| + |b|
      ensures Octets(a + b)[i] == (Octets(a) + Octets(b))[i]
    {
      if i < |a| {
        assert (a + b)[i] == a[i];
      } else {
        assert (a + b)[i] == b[i - |a|];
      }
    }
  }

  /** The same for bytes. */
  lemma UpdateAppend(c: bv32, a: seq<byte>, b: seq<byte>)
    ensures Update(c, a + b) == Update(Update(c, a), b)
  {
    OctetsAppend(a, b);
    RegisterAppend(c, Octets(a), Octets(b));
  }

  /** The standard check value of CRC-32/ISO-HDLC, over the ASCII digits "123456789". */
  lemma CheckValue()
    ensures Crc32([0x31, 0x32, 0x33, 0x34, 0x35, 0x36, 0x37, 0x38, 0x39]) == 0xCBF4_3926
  {
    var digits: seq<byte> := [0x31, 0x32, 0x33, 0x34, 0x35, 0x36, 0x37, 0x38, 0x39];
    DigitOctets(digits);
    DigitRegister(Octets(digits));
  }

  lemma DigitOctets(s: seq<byte>)
    requires s == [0x31, 0x32, 0x33, 0x34, 0x35, 0x36, 0x37, 0x38, 0x39]
    ensures Octets(s) == [0x31, 0x32, 0x33, 0x34, 0x35, 0x36, 0x37, 0x38, 0x39]
  {
    forall i | 0 <= i < 9
      ensures Octets(s)[i] == s[i] as bv8
    {
    }
  }

  lemma DigitRegister(o: seq<bv8>)
    requires o == [0x31, 0x32, 0x33, 0x34, 0x35, 0x36, 0x37, 0x38, 0x39]
    ensures Register(0xFFFF_FFFF, o) == 0x340B_C6D9
  {
    assert Register(0xFFFF_FFFF, [0x31, 0x32, 0x33, 0x34, 0x35, 0x36, 0x37, 0x38, 0x39]) == 0x340B_C6D9;
  }
}
