# microdata in Dafny

A model of microdata, a small allocation-free C library for microcontrollers. It has two parts:

- **SLIP framing.** This is the framing of RFC 1055 ("A Nonstandard for Transmission of IP Datagrams over Serial Lines: SLIP"), with the bytes END = 0xC0, ESC = 0xDB, ESC_END = 0xDC and ESC_ESC = 0xDD.
  - `SlipEncode` escapes a payload and appends one END byte.
  - `SlipDecode` turns a frame back into its payload. It is a four-state machine (NORMAL, IN_ESC, FINISHED, ERROR). It rejects a bad escape and rejects output beyond the destination's capacity.
- **Scalar pack/unpack.** `PackUint8` … `PackInt32` and `UnpackUint8` … `UnpackInt32` write or read a 1, 2 or 4-byte integer, little-endian, at a cursor in a byte buffer. Each returns the advanced cursor. The C++ `Pack`/`Unpack` overloads pick one of them by the value's type.

The files:

- `microdata_types.dfy` (module `MicrodataTypes`) holds what the header defines:
  - `SIZE_T` as the 0..255 type `SizeT`;
  - `SLIP_FRAME_END`;
  - the six scalar types and their value ranges.
- `scalar_codec.dfy` (module `ScalarCodec`) holds the `Pack*` and `Unpack*` functions of `src/microdata.c`.
  - They are methods on an `array<Byte>` with an index as the cursor.
  - Each is proved against the specification functions `LittleEndian` (the bytes of a value) and `Value` (the value of some bytes).
  - It proves that these two functions are inverse for each of the six types.
- `cpp_overloads.dfy` (module `CppOverloads`) holds the C++ overloads.
  - A tagged `Scalar` stands for the overloaded argument type.
  - It also holds the header's `MyData` example, whose fields are packed and unpacked through a chained cursor.
- `slip_codec.dfy` (module `SlipCodec`) holds `SlipEncode` and `SlipDecode`. Both are loops over arrays, proved against pure functions:
  - `Encode` is the frame of a payload.
  - `Unslip` is the outcome of decoding a byte sequence: a payload and the number of bytes read, or an error.
  - `SlipDecode` returns the C return code. It also returns the outcome.
  - `ReturnCode` maps the outcome back to the code: the payload length modulo 256 for a frame, and 0 for every failure.
  - The lemmas about `Encode` and `Unslip` cover:
    - the round trip;
    - that decoding accepts exactly the frames of payloads that fit;
    - the length bounds of a frame;
    - that END occurs only at the end of a frame;
    - the error cases.
- `sequences.dfy` (module `Sequences`) holds a few facts about sequence concatenation that the proofs share.

`SlipDecode` may run in place. Nothing in its contract requires `src != dest`, because the k-th output byte is written only after the source byte at index k has been read. The loop invariant states that the source bytes not yet read are unchanged. This holds even when `src` and `dest` are the same array.

## Model

| member | source | states |
|---|---|---|
| ScalarCodec.LittleEndian | src/microdata.c:17-22 | the bytes PACK_SHIFT writes for a value: exactly `width` of them |
| ScalarCodec.Assemble | src/microdata.c:35-41 | the unsigned number spelled by little-endian bytes is below 256^n for n bytes |
| ScalarCodec.ToSigned | src/microdata.c:49-54 | reading a bit pattern as two's complement gives a value in the signed range that is congruent to the pattern |
| ScalarCodec.Convert | src/microdata.c:35-36 | C's conversion to the unpacked type: a value in the type's range that is congruent to the input modulo 2^(8w) |
| ScalarCodec.Value | src/microdata.c:35-54 | the value of type t read from `t.width` bytes lies in t's range |
| ScalarCodec.AssembleLittleEndian | src/microdata.c:17-22 | the bytes written for x spell x modulo 2^(8w), for every width |
| ScalarCodec.LittleEndianAssemble | src/microdata.c:17-41 | writing out the number that a byte string spells gives back the byte string |
| ScalarCodec.RoundTrip | src/microdata.c:17-54 | unpacking, as the same type, the bytes packed for any value of one of the six types gives back the value, two's complement included |
| ScalarCodec.LittleEndianValue | src/microdata.c:17-54 | packing the value unpacked from any `width` bytes gives back those bytes |
| ScalarCodec.ConvertSum | src/microdata.c:35-36 | converting after each `*value += (Type)e` is the same as converting the plain sum once |
| ScalarCodec.ConvertPattern | src/microdata.c:35-54 | converting the assembled bit pattern to type t is reading the bytes as t |
| ScalarCodec.Accumulate | src/microdata.c:36 | one `*value += (Type)e` step keeps the running value equal to the converted sum of the terms added so far |
| ScalarCodec.Pack1 | src/microdata.c:20 | PACK1 writes byte 0 of the value at the cursor, changes no other byte and returns cursor + 1 |
| ScalarCodec.Pack2 | src/microdata.c:21 | PACK2 writes bytes 0 and 1 of the value, least significant first, changes no other byte and returns cursor + 2 |
| ScalarCodec.Pack4 | src/microdata.c:22 | PACK4 writes bytes 0 to 3 of the value, least significant first, changes no other byte and returns cursor + 4 |
| ScalarCodec.LittleEndianTwo | src/microdata.c:17-21 | the two bytes written are (v >> 0) & 0xFF and (v >> 8) & 0xFF |
| ScalarCodec.LittleEndianFour | src/microdata.c:17-22 | the four bytes written are (v >> 8k) & 0xFF for k = 0..3 |
| ScalarCodec.PackUint8 | src/microdata.c:24 | the buffer becomes the old prefix, the value's byte, and the old suffix; the cursor advances by 1 |
| ScalarCodec.PackUint16 | src/microdata.c:25 | the buffer becomes the old prefix, the value's two little-endian bytes, and the old suffix; the cursor advances by 2 |
| ScalarCodec.PackUint32 | src/microdata.c:26 | the same for four bytes; the cursor advances by 4 |
| ScalarCodec.PackInt8 | src/microdata.c:27 | as PackUint8; a negative value is written as its two's complement byte |
| ScalarCodec.PackInt16 | src/microdata.c:28 | as PackUint16, with the two's complement bytes of a negative value |
| ScalarCodec.PackInt32 | src/microdata.c:29 | as PackUint32, with the two's complement bytes of a negative value |
| ScalarCodec.Unpack1 | src/microdata.c:35-38 | UNPACK1 reads one byte at the cursor as type t and returns cursor + 1 |
| ScalarCodec.Unpack2 | src/microdata.c:35-39 | UNPACK2's two `+=` steps compute the value of type t of the two bytes at the cursor; returns cursor + 2 |
| ScalarCodec.Unpack4 | src/microdata.c:35-41 | UNPACK4's four `+=` steps compute the value of type t of the four bytes at the cursor; returns cursor + 4 |
| ScalarCodec.AssembleFour | src/microdata.c:40-41 | four bytes spell b0 + 2^8 b1 + 2^16 b2 + 2^24 b3 |
| ScalarCodec.UnpackUint8 | src/microdata.c:43-44 | the value is the byte at the cursor; the cursor advances by 1 and the buffer is only read |
| ScalarCodec.UnpackUint16 | src/microdata.c:45-46 | the value is the number the two bytes at the cursor spell, least significant first; the cursor advances by 2 |
| ScalarCodec.UnpackUint32 | src/microdata.c:47-48 | the value is the number the four bytes at the cursor spell; the cursor advances by 4 |
| ScalarCodec.UnpackInt8 | src/microdata.c:49-50 | the value is the byte at the cursor read as two's complement |
| ScalarCodec.UnpackInt16 | src/microdata.c:51-52 | the value is the two bytes at the cursor read as a two's complement 16-bit number |
| ScalarCodec.UnpackInt32 | src/microdata.c:53-54 | the value is the four bytes at the cursor read as a two's complement 32-bit number |
| ScalarCodec.AllOnesIsMinusOne | src/microdata.c:53-54 | four 0xFF bytes unpack as int32_t to -1 |
| CppOverloads.ValueOf | include/microdata.h:127-138 | the value carried by an overload's argument lies in the range of its type |
| CppOverloads.Make | include/microdata.h:133-138 | the argument of the overload for type t carries v |
| CppOverloads.Serialize | include/microdata.h:127-132 | a value packs to as many bytes as its type is wide |
| CppOverloads.Deserialize | include/microdata.h:133-138 | unpacking through the overload for type t yields a value of type t |
| CppOverloads.SerializeDeserialize | include/microdata.h:127-138 | Unpack with the overload for a value's type reads back what Pack wrote for it |
| CppOverloads.DeserializeSerialize | include/microdata.h:127-138 | Pack writes back the bytes that Unpack read, for every type and every byte pattern |
| CppOverloads.Pack | include/microdata.h:127-132 | each overload forwards to the Pack* function of its argument's width and signedness: it writes exactly that value's bytes at the cursor and returns the cursor past them |
| CppOverloads.Unpack | include/microdata.h:133-138 | each overload forwards to the Unpack* function of its pointer's type: it reads that type's value from the bytes at the cursor and returns the cursor past them |
| CppOverloads.TypesOf | include/microdata.h:69-74 | a record has one field type per field |
| CppOverloads.SerializeAll | include/microdata.h:83-88 | a record packed field after field occupies the sum of its field widths |
| CppOverloads.DeserializeAll | include/microdata.h:108-114 | unpacking fields of the given types one after another yields fields of exactly those types |
| CppOverloads.LayoutRoundTrip | include/microdata.h:59-121 | unpacking with a packed record's field types, from a buffer holding that record and then anything, gives the record back: fields lie back to back in call order |
| CppOverloads.SerializeCons | include/microdata.h:84-88 | packing one more field first puts its bytes first |
| CppOverloads.SerializeFour | include/microdata.h:84-88 | four chained Pack calls lay the four values' bytes out back to back |
| CppOverloads.MyDataLayout | include/microdata.h:69-74 | the MyData record occupies 8 bytes |
| CppOverloads.Fields | include/microdata.h:69-74 | the fields of MyData have the types uint8_t, uint8_t, int16_t and uint32_t, in that order |
| CppOverloads.PackMyData | include/microdata.h:83-88 | the four chained Pack calls write the packed record at the cursor and change no other byte; the cursor advances by 8 |
| CppOverloads.UnpackMyData | include/microdata.h:108-114 | the four chained Unpack calls read the record that the 8 bytes at the cursor hold |
| CppOverloads.MyDataRoundTrip | include/microdata.h:105-114 | unpacking a packed MyData gives it back |
| CppOverloads.MyDataExampleBytes | include/microdata.h:76-88 | the example record {42, 55, 24000, 456234234} packs to 2A 37 C0 5D FA 94 31 1B |
| SlipCodec.Escaped | src/microdata.c:73-84 | each payload byte becomes one or two frame bytes |
| SlipCodec.Escape | src/microdata.c:71-85 | the escaped payload is between |p| and 2·|p| bytes long |
| SlipCodec.Encode | src/microdata.c:67-88 | a frame is between |p| + 1 and 2·|p| + 1 bytes long and ends with END |
| SlipCodec.EscapeHasNoEnd | src/microdata.c:73-84 | END never occurs in an escaped payload |
| SlipCodec.EncodeEndsAtFirstEnd | src/microdata.c:71-86 | END occurs in a frame only as its last byte |
| SlipCodec.EscapeAppend | src/microdata.c:71-85 | escaping works byte by byte: the escape of p + q is the escape of p followed by the escape of q |
| SlipCodec.EscapeStep | src/microdata.c:71-85 | one more turn of the encoding loop appends the escape of the next byte |
| SlipCodec.PutEscaped | src/microdata.c:72-84 | the switch writes the escape of one byte at the output cursor, changes nothing after it and advances the cursor past it |
| SlipCodec.SlipEncode | src/microdata.c:67-88 | dest starts with the frame of the first `size` bytes of src and is unchanged after it; the return value is the frame length modulo 256, which is exact for size ≤ 127 |
| SlipCodec.Fits | src/microdata.c:122-129 | the check `++len; if (len > capacity)` lets one more byte through exactly when emitted < capacity, for the exact counter and for the 8-bit one below 255; with the 8-bit counter at 255 (mod 256) it always lets it through |
| SlipCodec.NextState | src/microdata.c:112-163 | the switch's `state = …` assignments: ERROR exactly on a rejection, FINISHED exactly on an unescaped END, and NORMAL or IN_ESC (the loop goes on) exactly after an escape start or an emitted byte |
| SlipCodec.Step | src/microdata.c:112-163 | the action for one byte in NORMAL or IN_ESC emits a byte only when one more byte fits the capacity |
| SlipCodec.Run | src/microdata.c:99-171 | the state machine over the remaining input: a frame emits fewer bytes than it reads, reads no more than the input holds, and, with the exact counter, stays within the capacity |
| SlipCodec.Unslip | src/microdata.c:99-171 | a decoded payload is shorter than what was read and no longer than the capacity |
| SlipCodec.UnslipAsWritten | src/microdata.c:99-171 | the machine with the source's 8-bit `len`: a frame still emits fewer bytes than it reads |
| SlipCodec.ReturnCode | include/microdata.h:54-56 | the C return value of an outcome (`return 0` at src/microdata.c:109, `return len` at src/microdata.c:170): 0 for every failure, the payload length for a frame shorter than 256 bytes, and that length modulo 256 in general |
| SlipCodec.SlipDecode | src/microdata.c:99-171 | the outcome is Unslip of the old source, even when decoding in place; the return value is the payload length for a frame and 0 for a failure; dest holds the payload and is unchanged after it; nothing at or beyond dest[capacity] changes |
| SlipCodec.DecodeByte | src/microdata.c:107-163 | the switch for one byte takes the action Step prescribes, writes only dest[len] and writes it only when it emits |
| SlipCodec.ExpectedStep | src/microdata.c:104-168 | one turn of the decoding loop preserves the outcome that Unslip prescribes |
| SlipCodec.RunOverByte | src/microdata.c:112-157 | the escape of one byte decodes to that byte when it fits |
| SlipCodec.RunOverEscape | src/microdata.c:112-157 | an escaped payload decodes to the payload as long as it fits |
| SlipCodec.RunOverFrame | src/microdata.c:104-133 | a whole frame decodes to its payload and stops at its END |
| SlipCodec.RoundTrip | src/microdata.c:67-171 | decoding the frame of p, followed by anything, with capacity ≥ |p| yields p after exactly the frame's bytes |
| SlipCodec.RunOverflows | src/microdata.c:122-157 | decoding fails with Overflow as soon as one more byte than the capacity would be emitted |
| SlipCodec.DecodeDetectsOverflow | src/microdata.c:122-157 | a payload longer than the capacity is rejected with Overflow, never truncated |
| SlipCodec.RunBadEscape | src/microdata.c:159-161 | ESC followed by a byte other than ESC_END or ESC_ESC fails with BadEscape |
| SlipCodec.DecodeRejectsBadEscape | src/microdata.c:135-163 | a bad escape after any payload that fits is rejected |
| SlipCodec.DecodeUnterminated | src/microdata.c:104-105 | input that ends before an unescaped END, after a lone ESC or not, is reported Unterminated |
| SlipCodec.EncodeCons | src/microdata.c:71-86 | the frame of b + q is the escape of b followed by the frame of q |
| SlipCodec.RunConsumesFrame | src/microdata.c:99-171 | the bytes a successful decode read are exactly the frame of the payload it produced |
| SlipCodec.EscapedStep | src/microdata.c:135-157 | a successful run from IN_ESC starts with ESC_END or ESC_ESC and emits END or ESC for it |
| SlipCodec.EscapedConsumesFrame | src/microdata.c:135-157 | after an ESC, the bytes a successful decode read are the rest of the frame of its payload |
| SlipCodec.DecodeIffFrame | src/microdata.c:99-171 | src decodes to p after n bytes if and only if the first n bytes of src are the frame of p and p fits the capacity |
| SlipCodec.ZeroReturnIsAmbiguous | src/microdata.c:108-170 | the empty frame and the malformed input ESC END both return 0 |
| SlipCodec.RunAgreesBelow255 | src/microdata.c:122-157 | with capacity ≤ 254 the 8-bit counter never wraps, and the source's machine and the exact one agree |
| SlipCodec.AsWrittenAgreesBelow255 | src/microdata.c:99-171 | for capacity ≤ 254 the source's decoder and Unslip agree on every input |
| SlipCodec.RunUnboundedAt255 | src/microdata.c:122-130 | with capacity 255 the 8-bit counter passes the overflow check every time |
| SlipCodec.AsWrittenOverrunsAt255 | src/microdata.c:122-130 | with capacity 255 the source decodes a payload of 256 bytes or more in full and returns its length modulo 256, where Unslip reports Overflow |

## Left out

- Reading past the source buffer. `SlipDecode` reads `*src++` with no length bound (src/microdata.c:104-105). The model's source is a finite array, and running out of it before an unescaped END is the outcome `Unterminated`. What the C reads past the buffer is not modelled.
- The extra byte `SlipDecode` reads after entering ERROR. The model's loop stops in the ERROR state and returns 0 without reading another byte (src/microdata.c:105-109).
- DecodeByte: on overflow the source also increments `len` before entering ERROR. The model leaves `len` as it was, since nothing reads it again before the function returns 0.
- SlipDecode, Unslip and DecodeByte: count emitted bytes with an exact counter, so DecodeByte's `len + 1 > capacity` is an exact comparison rather than the source's 8-bit one; they differ from the source only when len = capacity = 255. The two agree for every capacity up to 254 (`AsWrittenAgreesBelow255`). The capacity-255 case is modelled as written by `UnslipAsWritten` and listed under Findings.
- Undefined and implementation-defined shifts and conversions. The model gives them two's-complement meaning, through `Convert` and `LittleEndian`:
  - `>>` of a negative signed value (src/microdata.c:18) is modelled as the arithmetic shift, i.e. floor division;
  - `<<` into the sign bit of `int` (src/microdata.c:36) is modelled as wrapping modulo 2^(8w);
  - the narrowing conversions to a signed type of a value that does not fit it, such as `(int8_t)buffer[0]` or `(int16_t)(buffer[1] << 8)` for a byte of 0x80 or more (src/microdata.c:36), are modelled as wrapping modulo 2^(8w) into the type's range.
- Pointers. A pointer cursor is an index into the array, and the returned pointer is the index past the bytes written or read. `*value` is an out-parameter.
- The C++ overloads are chosen by static type. The model passes that type explicitly, as the `Scalar` constructor or the `ScalarType` asked for.
- `SIZE_T` is fixed to `uint8_t`. The header invites redefining it, and the model does not cover other widths.
- `extern "C"` blocks and include guards carry no behaviour.
- src/main.cc (the test driver: random values, console output, asserts) is not part of this model.

## Findings

| source | as written | input that shows it | evidently intended | confidence | as-written member | corrected member |
|---|---|---|---|---|---|---|
| src/microdata.c:102-130 | `len` is an 8-bit `SIZE_T`. With capacity 255, the 256th emitted byte wraps `++len` to 0, so `len > capacity` never fires. The decoder then writes dest[255] and beyond, and returns the length modulo 256. | the frame of any payload of 256 or more bytes (for example 256 zero bytes), decoded with capacity 255: it returns 0 after writing 256 bytes | reject with 0, without writing past dest[capacity - 1] | not executed | SlipCodec.AsWrittenOverrunsAt255 | SlipCodec.DecodeDetectsOverflow |
