# pngme chunks, modelled in Dafny

This project models the two building blocks of the `pngme` PNG tool.

- **ChunkType** (`src/chunk_type.rs`) is the 4-byte chunk-type code.
  - It is built from a `[u8; 4]` array or parsed from a string. Either way it is accepted only if every byte is an ASCII letter.
  - Bit 5 (0x20) of each letter is one property bit: critical, public, reserved-bit-valid and safe-to-copy.
  - It displays as its four characters.
- **Chunk** (`src/chunk.rs`) records a chunk type, a payload, the payload's length as a `u32`, and a CRC-32.
  - It is built by `new`.
  - `as_bytes` serialises it as big-endian length, type code, payload, then big-endian CRC.
  - `data_as_string` reads the payload as text.

The repository takes the CRC from an external crate (`CRC_32_ISO_HDLC`). Here it is given by its bitwise definition: reflected polynomial 0xEDB88320, register preset to all ones, result complemented. The standard check value is proved for it, `Crc.CheckValue`.

Modules, one per file:

- `Bytes`: `u8`, `u32`, big-endian conversion, ASCII classes, and the UTF-8 encoding behind `str::as_bytes`.
- `Errors`: the error tag and `Result`.
- `Crc`: CRC-32.
- `ChunkTypes`: the chunk type.
- `Chunks`: the chunk, its serialisation and the parse.
- `ChunkExamples`: the repository's unit tests, restated as lemmas about the model.

Pure Rust code becomes functions and lemmas. Two operations work by mutation:

- `data_as_string` pushes characters in a loop, so it is a method with a loop invariant.
- `get_checksum` extends its buffer in place, so it is a method over a local buffer.

The accessors `length`, `chunk_type`, `data` and `crc` are the field destructors of the `Chunk` datatype.

`src/chunk.rs` contains no `TryFrom<&[u8]> for Chunk`, but its tests call one. The parse `Chunks.TryFrom` is therefore derived from those tests, as the inverse of `as_bytes`. It checks, in this order:

1. the buffer holds at least 12 bytes;
2. the type code is all letters;
3. the declared length fits in the buffer;
4. the declared CRC equals the recomputed checksum.

Bytes after the CRC are not read.

The checksum order is the one place where the code and its tests disagree; see "## Findings".

## Model

| member | source | states |
|---|---|---|
| Bytes.ToBeBytes | src/chunk.rs:82-85 | `u32::to_be_bytes`: four bytes, most significant first (inverted by `Bytes.FromBeBytes`, see the next two rows) |
| Bytes.FromToBeBytes | src/chunk.rs:82-85 | decoding `to_be_bytes` of a `u32` big-endian gives the value back |
| Bytes.ToFromBeBytes | src/chunk.rs:82-85 | every 4-byte string is the big-endian encoding of the value it decodes to |
| Bytes.ToBeBytesInjective | src/chunk.rs:82-85 | two `u32`s have the same big-endian bytes iff they are equal |
| Bytes.IsAsciiAlphabetic | src/chunk_type.rs:70 | `u8::is_ascii_alphabetic`: true iff the byte is in 65-90 or 97-122 |
| Bytes.ByteToChar | src/chunk.rs:72 | `byte as char`: the character whose code point is the byte's value |
| Bytes.Utf8 | src/chunk_type.rs:82 | `str::as_bytes`: the UTF-8 encoding, at least one byte per character |
| Bytes.Utf8OfAscii | src/chunk_type.rs:82 | `as_bytes` of an ASCII string has one byte per character, each byte that character's code |
| Bytes.Utf8AtFirstNonAscii | src/chunk_type.rs:82 | where the first non-ASCII character starts, the encoding has a byte of 0x80 or more |
| Crc.Crc32 | src/chunk.rs:93 | `Chunk::CRC.checksum`: CRC-32/ISO-HDLC, the register preset to all ones, fed every byte least significant bit first through the reflected polynomial 0xEDB88320, then complemented (its check value is `Crc.CheckValue`) |
| Crc.RegisterAppend | src/chunk.rs:91-93 | feeding a concatenation to the CRC register is feeding its parts one after the other |
| Crc.UpdateAppend | src/chunk.rs:91-93 | the same for byte strings: the checksum of payload ++ type continues the register state left by the payload |
| Crc.CheckValue | src/chunk.rs:32 | the CRC-32/ISO-HDLC defined here maps "123456789" to 0xCBF43926, the standard check value |
| ChunkTypes.ChunkType | src/chunk_type.rs:5-8 | the struct holding the 4-byte code, whose type admits only codes of four ASCII letters; derived equality is equality of the codes |
| ChunkTypes.PropertyBit | src/chunk_type.rs:35 | `(byte >> 5) & 1`, which is 0 or 1 |
| ChunkTypes.PropertyBitIsCase | src/chunk_type.rs:35 | for a letter, `(byte >> 5) & 1` is 0 iff upper case and 1 iff lower case |
| ChunkTypes.ChunkType.Bytes | src/chunk_type.rs:28-30 | the bytes are all letters, and `try_from` on them gives the same chunk type back |
| ChunkTypes.ChunkType.IsCritical | src/chunk_type.rs:32-37 | critical iff the first letter is upper case |
| ChunkTypes.ChunkType.IsPublic | src/chunk_type.rs:39-44 | public iff the second letter is upper case |
| ChunkTypes.ChunkType.IsReservedBitValid | src/chunk_type.rs:46-51 | reserved bit valid iff the third letter is upper case |
| ChunkTypes.ChunkType.IsSafeToCopy | src/chunk_type.rs:53-58 | safe to copy iff the fourth letter is lower case |
| ChunkTypes.ChunkType.IsValid | src/chunk_type.rs:60-62 | valid iff the third letter is upper case: the other three bits play no part |
| ChunkTypes.ChunkType.ToString | src/chunk_type.rs:94-98 | four characters, each the code byte read as a character, all ASCII letters |
| ChunkTypes.TryFrom | src/chunk_type.rs:66-76 | succeeds iff every byte is in 65-90 or 97-122, then holds exactly those bytes; otherwise fails with the not-alphabetic error |
| ChunkTypes.FromStr | src/chunk_type.rs:79-91 | is `try_from` of the first four bytes of the string's UTF-8 encoding; later bytes are ignored; fewer than four bytes is excluded (the slice panics) |
| ChunkTypes.FromStrAccepts | src/chunk_type.rs:81-91 | `from_str` succeeds iff the string has at least four characters and the first four are ASCII letters, and the code is then those characters |
| ChunkTypes.FromStrRejectsNonAscii | src/chunk_type.rs:82-89 | a non-ASCII character among the first four makes `from_str` fail with the not-alphabetic error |
| ChunkTypes.DisplayRoundTrip | src/chunk_type.rs:94-98 | parsing the displayed form of any chunk type gives that chunk type back |
| ChunkTypes.EqualIffSameBytes | src/chunk_type.rs:5-8 | two chunk types are equal iff their codes are |
| Chunks.Chunk | src/chunk.rs:24-29 | the struct of type, payload, `u32` length and `u32` crc; its destructors are the accessors of src/chunk.rs:48-62 |
| Chunks.Checksum | src/chunk.rs:39 | the value `new` stores: CRC-32 of the payload followed by the type code (`Chunks.GetChecksum` returns exactly this) |
| Chunks.New | src/chunk.rs:34-46 | stores type and payload unchanged, length is the payload's size, crc is CRC-32 of payload ++ type; payloads of 2^32 bytes or more are excluded (the `u32` conversion panics) |
| Chunks.WellFormedIffNew | src/chunk.rs:34-46 | a chunk has the length and CRC `new` gives iff it is `new` of its own type and payload |
| Chunks.GetChecksum | src/chunk.rs:90-95 | returns `Checksum`, the CRC-32 of the payload with the type code appended, equal to the register run over the payload and then over the type; so the crc `new` stores is what `get_checksum` returns |
| Chunks.DataAsString | src/chunk.rs:64-75 | always succeeds, with one character per payload byte, each having the byte's value as its code point |
| Chunks.AsBytes | src/chunk.rs:77-88 | 12 + payload-size bytes: big-endian length, type code, payload, big-endian crc, each at its offset |
| Chunks.AsBytesFields | src/chunk.rs:77-88 | for a chunk built by `new`, the serialised size is 12 + length, and the first and last four bytes decode to length and crc |
| Chunks.TryFrom | src/chunk.rs:162-208 | test-derived parse: fewer than 12 bytes, a non-letter type byte, or a length past the end each give their error; an accepted chunk is well formed and fits in the buffer |
| Chunks.TryFromSound | src/chunk.rs:162-187 | an accepted buffer begins with exactly the serialised form of the chunk it yields |
| Chunks.TryFromFramed | src/chunk.rs:162-208 | a buffer laid out as length, type, payload, crc parses to `new(type, payload)` iff the crc is the recomputed checksum, and otherwise fails with a checksum mismatch |
| Chunks.RoundTrip | src/chunk.rs:77-88 | parsing the serialised form of a chunk built by `new`, whatever follows it, gives the chunk back |
| Chunks.NewRoundTrip | src/chunk.rs:34-46 | `new`, then `as_bytes`, then parsing gives back type, payload, length and crc |
| Chunks.TamperedCrcRejected | src/chunk.rs:190-208 | a serialised chunk whose crc field was changed is rejected with a checksum mismatch |
| ChunkExamples.TypeFromBytes | src/chunk_type.rs:106-112 | `try_from([82, 117, 83, 116])` succeeds and `bytes` gives the array back |
| ChunkExamples.TypeFromStr | src/chunk_type.rs:114-119 | `from_str("RuSt")` equals `try_from` of its bytes |
| ChunkExamples.DigitRejected | src/chunk_type.rs:180-181 | `from_str("Ru1t")` fails |
| ChunkExamples.TypeDisplay | src/chunk_type.rs:184-188 | "RuSt" displays as "RuSt" |
| ChunkExamples.PropertyBits | src/chunk_type.rs:121-178 | `from_str` parses "ruSt", "RUSt", "Rust" and "RuST" to those codes, and the property bits of these and of "RuSt" are as the tests expect |
| ChunkExamples.PayloadThenTypeChecksum | src/chunk.rs:90-95 | CRC-32 of the message followed by "RuSt" is 3492869447 |
| ChunkExamples.TypeThenPayloadChecksum | src/chunk.rs:133 | CRC-32 of "RuSt" followed by the message is 2882656334, the tests' constant |
| ChunkExamples.NewMessageChunk | src/chunk.rs:127-134 | `new("RuSt", message)` has length 42 and crc 3492869447 |
| ChunkExamples.ParseTestBuffer | src/chunk.rs:162-187 | the tests' buffer parses iff its crc is 3492869447, and then yields length 42, type "RuSt" and the message |
| ChunkExamples.TestsConstantsRejected | src/chunk.rs:189-208 | the buffer with 2882656334 and the buffer with 2882656333 are both rejected with a checksum mismatch |
| ChunkExamples.MessageAsString | src/chunk.rs:148-154 | `data_as_string` of the message chunk is "This is where your secret message will be!" |

## Findings

`new` computes the CRC over the payload followed by the type code (`src/chunk.rs:39`, `:90-95`). Section 5.3 of the PNG specification, and the constant 2882656334 the tests expect, take it over the type code followed by the data. The rest of the model keeps the code's order, so that every other member describes the program as it stands.

| source | as written | input that shows it | evidently intended | confidence | as-written member | corrected member |
|---|---|---|---|---|---|---|
| src/chunk.rs:90-95 | the checksum covers the payload, then the type code; for the tests' chunk `new` stores 3492869447, and the tests' buffer carrying 2882656334 is rejected, so `test_new_chunk`, `test_chunk_crc` and the valid-parse tests (src/chunk.rs:127-187) cannot pass | type "RuSt", payload "This is where your secret message will be!" | the checksum covers the type code, then the payload, which gives the tests' 2882656334 | high (proved, not executed) | ChunkExamples.TestsConstantsRejected | ChunkExamples.TypeThenPayloadChecksum |

## Left out

- The `crc` crate's table-driven implementation is not part of this model. A bitwise definition of the same CRC is given instead.
- The error types' trait implementations and messages are left out. This covers `ChunkError` with its `source`, `cause` and `provide` (`src/chunk.rs:7-22`) and `ChunkTypeErrors` with its `Display` text (`src/chunk_type.rs:10-23`). Errors are a plain tag.
- Errors.Error.UnreadableByte is declared, as in the source, but no modelled operation produces it.
- Chunks.DataAsString always returns `Ok`. Its error branch is `Err()` with no argument, which does not compile. It would also only be reached on a failing read, and an in-memory slice never fails to read.
- The `Read::bytes()` iterators that `new` and `data_as_string` use to count and walk the payload are modelled as sequence length and indexing.
- The commented-out `Display for Chunk` and the stray `fn main` around the test module are not modelled. `test_chunk_trait_impls` formats a chunk with that missing `Display`, so it is not restated.
- Chunks.New has a precondition where the source panics: a payload of 2^32 bytes or more makes `try_into().unwrap()` panic.
- ChunkTypes.FromStr has a precondition where the source panics: a string whose UTF-8 encoding is shorter than four bytes panics at the slice `s[0..4]`.
- Chunks.TryFrom is derived from the tests, since no implementation exists. Its step order and its ignoring of trailing bytes are choices of this model.
- `u8` is modelled as an integer newtype, not a bit-vector. The property bit is computed on its bit-vector view.
