/**
 * Bytes, big-endian 32-bit integers, ASCII character classes and the UTF-8
 * byte view of a string: the primitive conversions the chunk code relies on
 * (`u32::to_be_bytes`, `u8::is_ascii_alphabetic`, `str::as_bytes`, `u8 as char`).
 */
module Bytes {

  /** Rust's `u8`. */
  newtype byte = x: int | 0 <= x < 0x100

  /** One more than the largest value of a `u32`. */
  const U32Limit: int := 0x1_0000_0000

  /** Rust's `u32`. */
  type u32 = x: int | 0 <= x < U32Limit

  // ---------------------------------------------------------------------------
  // Big-endian u32

  /** `u32::to_be_bytes`: most significant byte first. */
  function ToBeBytes(x: u32): (r: seq<byte>)
    ensures |r| == 4
  {
    var q1 := x / 0x100;
    var q2 := q1 / 0x100;
    [(q2 / 0x100) as byte, (q2 % 0x100) as byte, (q1 % 0x100) as byte, (x % 0x100) as byte]
  }

  /** `u32::from_be_bytes`: reads four bytes, most significant first. */
  function FromBeBytes(s: seq<byte>): u32
    requires |s| == 4
  {
    ((s[0] as int * 0x100 + s[1] as int) * 0x100 + s[2] as int) * 0x100 + s[3] as int
  }

  /** Decoding the big-endian bytes of a `u32` gives the value back. */
  lemma FromToBeBytes(x: u32)
    ensures FromBeBytes(ToBeBytes(x)) == x
  {
  }

  /** Division by 256 undoes multiplying by 256 and adding a byte. */
  lemma DivByByte(x: int, q: int, r: int)
    requires 0 <= r < 0x100 && x == q * 0x100 + r
    ensures x / 0x100 == q && x % 0x100 == r
  {
  }

  lemma ToFromBeBytes(s: seq<byte>)
    requires |s| == 4
    ensures ToBeBytes(FromBeBytes(s)) == s
  {
    var b0, b1, b2, b3 := s[0] as int, s[1] as int, s[2] as int, s[3] as int;
    var q2 := b0 * 0x100 + b1;
    var q1 := q2 * 0x100 + b2;
    var x := q1 * 0x100 + b3;
    DivByByte(x, q1, b3);
    DivByByte(q1, q2, b2);
    DivByByte(q2, b0, b1);
  }

  /** Two values have the same big-endian encoding only if they are equal. */
  lemma ToBeBytesInjective(x: u32, y: u32)
    ensures ToBeBytes(x) == ToBeBytes(y) <==> x == y
  {
    if ToBeBytes(x) == ToBeBytes(y) {
      FromToBeBytes(x);
      FromToBeBytes(y);
    }
  }

  // ---------------------------------------------------------------------------
  // ASCII classes of a byte

  /** 'A' to 'Z'. */
  predicate IsAsciiUppercase(b: byte) {
    0x41 <= b <= 0x5A
  }

  /** 'a' to 'z'. */
  predicate IsAsciiLowercase(b: byte) {
    0x61 <= b <= 0x7A
  }

  /** `u8::is_ascii_alphabetic`: 65-90 or 97-122. */
  predicate IsAsciiAlphabetic(b: byte)
    ensures IsAsciiAlphabetic(b) <==> 65 <= b as int <= 90 || 97 <= b as int <= 122
  {
    IsAsciiUppercase(b) || IsAsciiLowercase(b)
  }

  /** The same class on characters. */
  predicate IsAsciiLetter(c: char) {
    'A' <= c <= 'Z' || 'a' <= c <= 'z'
  }

  /** A byte and a character with the same code are letters together. */
  lemma LetterIffAlphabetic(b: byte, c: char)
    requires b as int == c as int
    ensures IsAsciiAlphabetic(b) <==> IsAsciiLetter(c)
  {
  }

  /** `b as char`: the character whose code point is the byte's value. */
  function ByteToChar(b: byte): (c: char)
    ensures c as int == b as int
  {
    b as int as char
  }

  // ---------------------------------------------------------------------------
  // UTF-8, the byte view `str::as_bytes` gives of a string

  predicate IsAscii(c: char) {
    c as int < 0x80
  }

  /** The UTF-8 encoding of one Unicode scalar value. */
  function EncodeChar(c: char): (r: seq<byte>)
    ensures 1 <= |r| <= 4
    ensures IsAscii(c) ==> r == [c as int as byte]
    ensures !IsAscii(c) ==> forall i :: 0 <= i < |r| ==> r[i] >= 0x80
  {
    var cp := c as int;
    if cp < 0x80 then
      [cp as byte]
    else if cp < 0x800 then
      [(0xC0 + cp / 0x40) as byte, (0x80 + cp % 0x40) as byte]
    else if cp < 0x1_0000 then
      [(0xE0 + cp / 0x1000) as byte, (0x80 + cp / 0x40 % 0x40) as byte, (0x80 + cp % 0x40) as byte]
    else
      [(0xF0 + cp / 0x4_0000) as byte, (0x80 + cp / 0x1000 % 0x40) as byte,
       (0x80 + cp / 0x40 % 0x40) as byte, (0x80 + cp % 0x40) as byte]
  }

  /** `str::as_bytes`: the UTF-8 encoding of a string. */
  function Utf8(s: string): (r: seq<byte>)
    ensures |r| >= |s|
  {
    if s == [] then [] else EncodeChar(s[0]) + Utf8(s[1..])
  }

  lemma {:induction false} Utf8Append(a: string, b: string)
    ensures Utf8(a + b) == Utf8(a) + Utf8(b)
    decreases |a|
  {
    if a == [] {
      assert a + b == b;
    } else {
      assert (a + b)[1..] == a[1..] + b;
      Utf8Append(a[1..], b);
    }
  }

  /** An ASCII string is encoded one byte per character, each byte the character's code. */
  lemma {:induction false} Utf8OfAscii(s: string)
    requires forall i :: 0 <= i < |s| ==> IsAscii(s[i])
    ensures |Utf8(s)| == |s|
    ensures forall i :: 0 <= i < |s| ==> Utf8(s)[i] as int == s[i] as int
    decreases |s|
  {
    if s != [] {
      Utf8OfAscii(s[1..]);
    }
  }

  /** The encoding of a string begins with the bytes of its ASCII prefix. */
  lemma Utf8AsciiPrefix(s: string, n: nat)
    requires n <= |s|
    requires forall i :: 0 <= i < n ==> IsAscii(s[i])
    ensures n <= |Utf8(s)|
    ensures forall i :: 0 <= i < n ==> Utf8(s)[i] as int == s[i] as int
  {
    assert s == s[..n] + s[n..];
    Utf8Append(s[..n], s[n..]);
    Utf8OfAscii(s[..n]);
  }

  /**
   * Where the first non-ASCII character of a string starts, its encoding has a
   * byte of 0x80 or more, which is no ASCII letter.
   */
  lemma Utf8AtFirstNonAscii(s: string, k: nat)
    requires k < |s| && !IsAscii(s[k])
    requires forall i :: 0 <= i < k ==> IsAscii(s[i])
    ensures k < |Utf8(s)| && Utf8(s)[k] >= 0x80
  {
    assert s == s[..k] + s[k..];
    Utf8Append(s[..k], s[k..]);
    Utf8OfAscii(s[..k]);
  }
}
