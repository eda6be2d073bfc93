# Tagged binary document decoder, modelled in Dafny

This project models the decoder in `src-tauri/src/decoder.rs`. The decoder reads
the tagged, little-endian binary format in which a tabletop-simulation tool saves
its game and mod state, and turns it into a JSON value tree (`serde_json::Value`).

The format is a stream of fields. Each field is:
- a one-byte type tag;
- a NUL-terminated name;
- a payload whose shape the tag decides.

The payload kinds are:
- double: 8 bytes;
- string: a u32 length `L`, then `L` bytes, the last one trimmed;
- object and array: a u32 header, then nested fields up to a `0x00` tag;
- binary: a u32 length `L`, then `L + 1` bytes, of which the first `L - 1` are base64-encoded;
- bool: 1 byte;
- null: no payload;
- i32: 4 bytes;
- i64: 8 bytes.

`decode_contents` reads a leading u32 and then decodes top-level fields. It stops at
the first field whose tag it does not recognise. It stores every other field into
one JSON object through `build_json`.

The model has three layers:

- **Specification functions** (`WireFormat`). Each reader of the `Decoder` is a
  pure function of the buffer, the cursor and the `fields_decoded` counter. It
  returns the value read and the new cursor and counter, or the error the Rust code
  panics with (`DecodeError`: out of bounds, invalid UTF-8, the `length - 1`
  underflow, or the explicit `panic!()` on an unknown tag inside an object or an
  array).
- **The imperative decoder** (`Decoding.Decoder`). This is a class with the
  buffer, a mutable `cursor` and a mutable `fieldsDecoded`. Its methods follow the
  Rust methods statement by statement, loops included. Each is proved to return
  what its specification function returns and to leave the cursor and the counter
  where that function says. `Contents.DecodeContents` and `Json.BuildJson` are
  likewise the top-level loop and the JSON builder, each proved against a function
  (`Contents.DecodeSpec`, `Json.Place`).
- **Properties of the specification**:
  - the little-endian conversions are exact inverses of `to_le_bytes`;
  - the string payload decodes from UTF-8 and encodes back to the same bytes;
  - the binary text is the RFC 4648 base64 of exactly `L - 1` bytes, which
    `Base64.Decode` recovers;
  - the tag table (`WireFacts.Dispatch`) and the field counter;
  - a decoded tree never holds `Unknown`;
  - what a reader depends on: nothing before its start offset, and nothing after
    the end of a successful read;
  - the leading length and the object and array headers are ignored;
  - what `build_json` stores for each value.
- **A companion encoder and the round trip** (`WireEncoder`, `WireRoundTrip`).
  The Rust code only reads the format. `WireEncoder` writes it: a tag, the name
  and its NUL, then the payload. `WireRoundTrip` proves that `get_field`,
  `get_value_from` and the loops of `read_object` and `read_array` read back
  exactly what was written, and leave the cursor just past it.

Supporting modules:
- `LittleEndian`: bytes, i32, i64, and the conversions;
- `Utf8`: the UTF-8 encoding of section 3 of RFC 3629;
- `Base64`: section 4 of RFC 4648;
- `Outcomes`: `Option`, `Result` and `DecodeError`;
- `FieldValues`: the `FieldValue` enum and its tag table.

## Model

| member | source | states |
|---|---|---|
| FieldValues.TagOf | src-tauri/src/decoder.rs:88-102 | every variant except `Unknown` has a tag, and it is one of the nine known tags |
| LittleEndian.U32 | src-tauri/src/decoder.rs:122-124 | a little-endian u32 is below 2^32 |
| LittleEndian.I32 | src-tauri/src/decoder.rs:110-112 | the two's complement i32 of four bytes is negative exactly when the top bit of the last byte is set |
| LittleEndian.I64 | src-tauri/src/decoder.rs:114-116 | the two's complement i64 of eight bytes is negative exactly when the top bit of the last byte is set |
| LittleEndian.U32RoundTrip | src-tauri/src/decoder.rs:122-124 | `from_le_bytes(to_le_bytes(n)) == n` for every u32 |
| LittleEndian.U32BytesOfU32 | src-tauri/src/decoder.rs:122-124 | `to_le_bytes(from_le_bytes(b)) == b` for every four bytes |
| LittleEndian.U64RoundTrip | src-tauri/src/decoder.rs:126-128 | the 64-bit pattern read by `read_double` round-trips through its eight bytes |
| LittleEndian.U64BytesOfU64 | src-tauri/src/decoder.rs:126-128 | every eight bytes are the little-endian bytes of the pattern they are read as |
| LittleEndian.I32RoundTrip | src-tauri/src/decoder.rs:110-112 | `i32::from_le_bytes(x.to_le_bytes()) == x` |
| LittleEndian.I32BytesOfI32 | src-tauri/src/decoder.rs:110-112 | every four bytes are the little-endian bytes of the i32 they are read as |
| LittleEndian.I64RoundTrip | src-tauri/src/decoder.rs:114-116 | `i64::from_le_bytes(x.to_le_bytes()) == x` |
| LittleEndian.I64BytesOfI64 | src-tauri/src/decoder.rs:114-116 | every eight bytes are the little-endian bytes of the i64 they are read as |
| Utf8.Decode | src-tauri/src/decoder.rs:187 | decoding never yields more characters than there are bytes |
| Utf8.Encode | src-tauri/src/decoder.rs:187 | encoding never yields fewer bytes than characters |
| Utf8.DecodeEncode | src-tauri/src/decoder.rs:187 | `String::from_utf8` accepts the encoding of every string and gives that string back |
| Utf8.EncodeDecode | src-tauri/src/decoder.rs:187 | bytes that `String::from_utf8` accepts are exactly the encoding of the text it returns |
| Utf8.DecodeFirstOfEncodeChar | src-tauri/src/decoder.rs:187 | the first character decoded from an encoded character is that character, and the rest is untouched |
| Utf8.EncodeCharOfDecodeFirst | src-tauri/src/decoder.rs:187 | a decoded first character encodes back to exactly the bytes it was decoded from |
| Base64.Symbol | src-tauri/src/decoder.rs:181 | no sextet is written as the padding character |
| Base64.Index | src-tauri/src/decoder.rs:181 | a character that has a sextet is that sextet's symbol |
| Base64.IndexOfSymbol | src-tauri/src/decoder.rs:181 | the alphabet is one-to-one: every sextet's symbol reads back as the sextet |
| Base64.Encode | src-tauri/src/decoder.rs:181 | the text comes in whole four-character groups and is empty only for no bytes |
| Base64.EncodeLength | src-tauri/src/decoder.rs:181 | the text has 4·⌈n/3⌉ characters |
| Base64.EncodeAlphabet | src-tauri/src/decoder.rs:181 | every character is in the alphabet, except `=` padding in the last two positions |
| Base64.GroupRoundTrip | src-tauri/src/decoder.rs:181 | three bytes encode to four symbols that decode back to them |
| Base64.DecodeEncode | src-tauri/src/decoder.rs:181 | the base64 text determines the bytes: decoding it gives them back |
| Base64.FinalOne | src-tauri/src/decoder.rs:181 | a final lone byte, padded with `==`, decodes back to itself |
| Base64.FinalTwo | src-tauri/src/decoder.rs:181 | a final byte pair, padded with `=`, decodes back to itself |
| WireFormat.BytesAt | src-tauri/src/decoder.rs:104-108 | `read_bytes(n)` succeeds exactly when `cursor + n` is within the buffer, returns `n` bytes and advances by `n`; otherwise it is the bounds panic |
| WireFormat.U8At | src-tauri/src/decoder.rs:118-120 | `read_u8` succeeds exactly when a byte is left, returns that byte and advances by 1 |
| WireFormat.U32At | src-tauri/src/decoder.rs:122-124 | `read_u32` succeeds exactly when 4 bytes are left, and advances by 4 |
| WireFormat.I32At | src-tauri/src/decoder.rs:110-112 | `read_i32` succeeds exactly when 4 bytes are left, and advances by 4 |
| WireFormat.I64At | src-tauri/src/decoder.rs:114-116 | `read_i64` succeeds exactly when 8 bytes are left, and advances by 8 |
| WireFormat.DoubleAt | src-tauri/src/decoder.rs:126-128 | `read_double` succeeds exactly when 8 bytes are left, and advances by 8 |
| WireFormat.NumbersAt | src-tauri/src/decoder.rs:110-128 | each fixed-width reader returns the number whose `to_le_bytes` are exactly the bytes consumed; the signed ones are negative exactly when the top bit is set |
| WireFormat.BoolAt | src-tauri/src/decoder.rs:130-132 | `read_bool` is true exactly when the byte is 1, and advances by 1 |
| WireFormat.NulFrom | src-tauri/src/decoder.rs:191-199 | the scan stops within the buffer, and short of the end only on a NUL |
| WireFormat.NulFromFirst | src-tauri/src/decoder.rs:191-199 | the scan passes over no NUL, so where it stops is the first NUL at or after the cursor |
| WireFormat.Latin1 | src-tauri/src/decoder.rs:197 | `char::from(u8)` gives each byte the character with the same code point |
| WireFormat.NameAt | src-tauri/src/decoder.rs:191-199 | `read_string_uknl` returns the non-NUL bytes before the first NUL as characters of the same code points, and consumes that NUL; with no NUL it consumes the rest of the buffer; it never fails |
| WireFormat.StringAtMeaning | src-tauri/src/decoder.rs:184-188 | `read_string` succeeds exactly when the length `L` is readable and positive, `L` bytes follow, and the first `L - 1` are UTF-8; `L = 0` is the underflow error |
| WireFormat.StringAtText | src-tauri/src/decoder.rs:184-188 | a successful `read_string` advances by `4 + L` and returns the text whose UTF-8 encoding is the first `L - 1` payload bytes |
| WireFormat.BinaryAtMeaning | src-tauri/src/decoder.rs:178-182 | `read_binary` succeeds exactly when the length `L` is readable and positive and `L + 1` bytes follow; `L = 0` is the underflow error, once the one byte is read |
| WireFormat.BinaryAtText | src-tauri/src/decoder.rs:178-182 | a successful `read_binary` advances by `4 + L + 1` and returns the base64 text of the first `L - 1` payload bytes |
| WireFormat.ValueAt | src-tauri/src/decoder.rs:88-102 | `get_value_from` never moves the cursor backwards or past the end |
| WireFormat.ScalarAt | src-tauri/src/decoder.rs:90-100 | the non-nested arms of `get_value_from` never move the cursor backwards or past the end |
| WireFormat.ArrayAt | src-tauri/src/decoder.rs:134-154 | a successful `read_array` consumes the header and at least the terminator |
| WireFormat.ElementsAt | src-tauri/src/decoder.rs:138-151 | the element loop consumes at least the terminating tag |
| WireFormat.ObjectAt | src-tauri/src/decoder.rs:156-176 | a successful `read_object` consumes the header and at least the terminator |
| WireFormat.MembersAt | src-tauri/src/decoder.rs:160-173 | the member loop consumes at least the terminating tag |
| WireFormat.FieldAt | src-tauri/src/decoder.rs:82-86 | a successful `get_field` consumes at least the tag byte |
| WireFacts.Dispatch | src-tauri/src/decoder.rs:88-102 | an unrecognised tag yields `Unknown` and `Null` yields `Null`, both without reading; each known tag yields the variant of that tag; bool, i32, i64 and double consume 1, 4, 8 and 8 bytes; every scalar counts exactly one field |
| WireFacts.ValueFacts | src-tauri/src/decoder.rs:88-102 | a value read counts at least one field, and a value read from a known tag holds no `Unknown` anywhere |
| WireFacts.ElementsFacts | src-tauri/src/decoder.rs:138-151 | the array loop keeps the elements already read, in order, as a prefix, adds no `Unknown`, and never lowers the count |
| WireFacts.MembersFacts | src-tauri/src/decoder.rs:160-173 | the object loop keeps every name already read, adds no `Unknown`, and never lowers the count |
| WireFacts.UnknownAborts | src-tauri/src/decoder.rs:144-147 | an unrecognised non-zero tag inside an array or an object is the `panic!()` |
| WireFrames.BytesAtAgree | src-tauri/src/decoder.rs:104-108 | `read_bytes` at or after an offset reads nothing before it |
| WireFrames.NulFromAgree | src-tauri/src/decoder.rs:191-199 | the NUL scan reads nothing before where it starts |
| WireFrames.FixedAgree | src-tauri/src/decoder.rs:110-132 | the fixed-width readers read nothing before the cursor |
| WireFrames.StringAgree | src-tauri/src/decoder.rs:184-188 | `read_string` reads nothing before the cursor |
| WireFrames.BinaryAgree | src-tauri/src/decoder.rs:178-182 | `read_binary` reads nothing before the cursor |
| WireFrames.NameAgree | src-tauri/src/decoder.rs:191-199 | `read_string_uknl` reads nothing before the cursor |
| WireFrames.ValueAtAgree | src-tauri/src/decoder.rs:88-102 | `get_value_from` reads nothing before the cursor |
| WireFrames.ScalarAgree | src-tauri/src/decoder.rs:90-100 | the non-nested arms of `get_value_from` read nothing before the cursor |
| WireFrames.ObjectAtAgree | src-tauri/src/decoder.rs:156-176 | `read_object` reads nothing before the cursor |
| WireFrames.ArrayAtAgree | src-tauri/src/decoder.rs:134-154 | `read_array` reads nothing before the cursor |
| WireFrames.MembersAtAgree | src-tauri/src/decoder.rs:160-173 | the object loop reads nothing before the cursor |
| WireFrames.ElementsAtAgree | src-tauri/src/decoder.rs:138-151 | the array loop reads nothing before the cursor |
| WireFrames.MembersStep | src-tauri/src/decoder.rs:160-172 | one turn of the object loop is one `get_field` followed by an insert, or the unknown-tag panic |
| WireFrames.ElementsStep | src-tauri/src/decoder.rs:138-150 | one turn of the array loop is one `get_field` followed by a push, or the unknown-tag panic |
| WireFrames.FieldAtAgree | src-tauri/src/decoder.rs:82-86 | `get_field` reads nothing before the cursor |
| WireFrames.HeaderIgnored | src-tauri/src/decoder.rs:134-176 | the u32 header of an object or array is ignored: changing it changes nothing |
| WireFrames.BytesAtExt | src-tauri/src/decoder.rs:104-108 | a successful `read_bytes` reads the same on any longer buffer |
| WireFrames.NulFromExt | src-tauri/src/decoder.rs:191-199 | a NUL found inside a buffer is found the same on any longer buffer |
| WireFrames.FixedExt | src-tauri/src/decoder.rs:110-132 | a successful fixed-width read is the same on any longer buffer |
| WireFrames.StringExt | src-tauri/src/decoder.rs:184-188 | a successful `read_string` is the same on any longer buffer |
| WireFrames.BinaryExt | src-tauri/src/decoder.rs:178-182 | a successful `read_binary` is the same on any longer buffer |
| WireFrames.NameExt | src-tauri/src/decoder.rs:191-199 | a name whose NUL lies inside the buffer reads the same on any longer buffer |
| WireFrames.ValueAtExt | src-tauri/src/decoder.rs:88-102 | a successful `get_value_from` is the same on any longer buffer |
| WireFrames.ScalarExt | src-tauri/src/decoder.rs:90-100 | a successful non-nested read is the same on any longer buffer |
| WireFrames.ObjectAtExt | src-tauri/src/decoder.rs:156-176 | a successful `read_object` is the same on any longer buffer |
| WireFrames.ArrayAtExt | src-tauri/src/decoder.rs:134-154 | a successful `read_array` is the same on any longer buffer |
| WireFrames.MembersAtExt | src-tauri/src/decoder.rs:160-173 | a successful object loop is the same on any longer buffer |
| WireFrames.ElementsAtExt | src-tauri/src/decoder.rs:138-151 | a successful array loop is the same on any longer buffer |
| WireFrames.FieldAtExt | src-tauri/src/decoder.rs:82-86 | a successful `get_field` that ends inside the buffer is the same on any longer buffer |
| Decoding.Decoder.constructor | src-tauri/src/decoder.rs:74-80 | a new decoder is over the given buffer, with the cursor at 0 and no field counted |
| Decoding.Decoder.ReadBytes | src-tauri/src/decoder.rs:104-108 | returns and consumes what `WireFormat.BytesAt` says, or fails as it does |
| Decoding.Decoder.ReadU8 | src-tauri/src/decoder.rs:118-120 | returns and consumes what `WireFormat.U8At` says, or fails as it does |
| Decoding.Decoder.ReadU32 | src-tauri/src/decoder.rs:122-124 | returns and consumes what `WireFormat.U32At` says, or fails as it does |
| Decoding.Decoder.ReadI32 | src-tauri/src/decoder.rs:110-112 | returns and consumes what `WireFormat.I32At` says, or fails as it does |
| Decoding.Decoder.ReadI64 | src-tauri/src/decoder.rs:114-116 | returns and consumes what `WireFormat.I64At` says, or fails as it does |
| Decoding.Decoder.ReadDouble | src-tauri/src/decoder.rs:126-128 | returns and consumes what `WireFormat.DoubleAt` says, or fails as it does |
| Decoding.Decoder.ReadBool | src-tauri/src/decoder.rs:130-132 | returns and consumes what `WireFormat.BoolAt` says, or fails as it does |
| Decoding.Decoder.ReadStringUknl | src-tauri/src/decoder.rs:191-199 | the byte-by-byte loop returns and consumes exactly what `WireFormat.NameAt` says |
| Decoding.Decoder.ReadString | src-tauri/src/decoder.rs:184-188 | returns and consumes what `WireFormat.StringAt` says, or fails as it does |
| Decoding.Decoder.ReadBinary | src-tauri/src/decoder.rs:178-182 | returns and consumes what `WireFormat.BinaryAt` says, or fails as it does |
| Decoding.Decoder.GetField | src-tauri/src/decoder.rs:82-86 | returns, consumes and counts what `WireFormat.FieldAt` says, or fails as it does |
| Decoding.Decoder.GetValueFrom | src-tauri/src/decoder.rs:88-102 | returns, consumes and counts what `WireFormat.ValueAt` says, or fails as it does |
| Decoding.Decoder.ReadArray | src-tauri/src/decoder.rs:134-154 | the loop returns, consumes and counts what `WireFormat.ArrayAt` says, or fails as it does |
| Decoding.Decoder.ReadObject | src-tauri/src/decoder.rs:156-176 | the loop returns, consumes and counts what `WireFormat.ObjectAt` says, or fails as it does |
| Json.Project | src-tauri/src/decoder.rs:29-51 | `Null` and `Unknown` write nothing; a double becomes `null` exactly when it is not finite; an array keeps one slot per element; an object keeps exactly the members that are neither `Null` nor `Unknown` |
| Json.Set | src-tauri/src/decoder.rs:31-46 | `data[name] = v` makes `name` map to `v` and keeps every other key; `data[i] = v` replaces slot `i` and keeps the length |
| Json.Place | src-tauri/src/decoder.rs:29-51 | `Null` and `Unknown` leave the document unchanged; any other value is stored under its name (replacing an earlier one) or in its slot |
| Json.BuildJson | src-tauri/src/decoder.rs:29-51 | `build_json` leaves exactly what `Json.Place` says |
| Json.BuildObject | src-tauri/src/decoder.rs:37-42 | storing each map entry in turn, in any order, builds the projection of the object |
| Json.BuildArray | src-tauri/src/decoder.rs:43-48 | filling `v.len()` zero slots one index at a time builds the projection of the array |
| Json.KeptAll | src-tauri/src/decoder.rs:37-42 | once every entry is stored, the object is the projection of the map |
| Json.KeptAdd | src-tauri/src/decoder.rs:39-41 | storing one more entry is one more `build_json` call |
| Contents.TopLevelAt | src-tauri/src/decoder.rs:13-22 | the top-level loop yields an object; it ends on a field at or after the cursor whose tag is unrecognised, and counts more fields than it started with |
| Contents.TopLevelStops | src-tauri/src/decoder.rs:13-20 | the loop ends where `get_field` returns `Unknown`: that call reads the tag and the name after it, nothing more, and brings the count to its final value |
| Contents.DecodeSpec | src-tauri/src/decoder.rs:6-27 | a buffer shorter than the leading u32 is the bounds panic; a successful decode is a JSON object |
| Contents.DecodeContents | src-tauri/src/decoder.rs:6-27 | the top-level loop returns exactly what `Contents.DecodeSpec` says |
| Contents.DeclaredLengthIgnored | src-tauri/src/decoder.rs:9-19 | the declared length is never acted on: buffers differing only in it decode alike |
| Contents.TopLevelAgree | src-tauri/src/decoder.rs:13-22 | the top-level loop reads nothing before the cursor |
| Contents.TrailingBytesIgnored | src-tauri/src/decoder.rs:13-20 | once a buffer decodes, appending bytes leaves the decoded document unchanged |
| Contents.CursorMayMove | src-tauri/src/decoder.rs:13-20 | appended bytes can still be read: on `[0, 0, 0, 0, 0xFF]` the terminating name runs to the end, and appending `"A\0"` moves the final cursor from 5 to 7 |
| Contents.TopLevelExt | src-tauri/src/decoder.rs:13-22 | a successful top-level loop ends alike on any longer buffer: same document, same terminating field, same count, and the same cursor when the terminating name has its NUL inside the buffer |
| WireEncoder.LengthBytes | src-tauri/src/decoder.rs:122-124 | a length written as the four bytes of `len as u32` reads back as the length whenever it is below 2^32 |
| WireRoundTrip.LengthIs | src-tauri/src/decoder.rs:122-124 | `read_u32` on a written length returns that length |
| WireRoundTrip.NameRoundTrip | src-tauri/src/decoder.rs:191-199 | a name of one-byte, non-NUL characters written with its NUL reads back as itself, the NUL consumed |
| WireRoundTrip.StringRoundTrip | src-tauri/src/decoder.rs:184-188 | a string written as a length counting one trailing byte, its UTF-8 encoding and that byte reads back as the same string, with the cursor just past it |
| WireRoundTrip.BinaryBytes | src-tauri/src/decoder.rs:178-182 | whatever the bytes of its length field, a payload with `L = n + 1`, `n` bytes and two more reads back as the base64 text of the `n` bytes, with the cursor just past it |
| WireRoundTrip.BytesRoundTrip | src-tauri/src/decoder.rs:178-182 | a binary value written as the bytes its base64 text stands for reads back as the same text |
| WireRoundTrip.DoubleBack | src-tauri/src/decoder.rs:126-128 | a double written as the eight bytes of its bit pattern reads back as the same pattern |
| WireRoundTrip.BoolBack | src-tauri/src/decoder.rs:130-132 | a bool written as 1 or 0 reads back as itself |
| WireRoundTrip.IntBack | src-tauri/src/decoder.rs:110-112 | an i32 written with `to_le_bytes` reads back as itself |
| WireRoundTrip.Int64Back | src-tauri/src/decoder.rs:114-116 | an i64 written with `to_le_bytes` reads back as itself |
| WireRoundTrip.ScalarRoundTrip | src-tauri/src/decoder.rs:90-100 | every value without nested fields reads back from its own tag, with the cursor just past what was written |
| WireRoundTrip.ScalarValueAt | src-tauri/src/decoder.rs:88-101 | for a tag without nested fields, `get_value_from` is that read plus one field counted |
| WireRoundTrip.ObjectValueAt | src-tauri/src/decoder.rs:156-176 | the `Object` arm of `get_value_from` is the u32 header and then the member loop |
| WireRoundTrip.ArrayValueAt | src-tauri/src/decoder.rs:134-154 | the `Array` arm of `get_value_from` is the u32 header and then the element loop |
| WireRoundTrip.ValueRoundTrip | src-tauri/src/decoder.rs:88-102 | every value the encoder can write reads back from its tag as the same value, with the cursor just past it |
| WireRoundTrip.ObjectRoundTrip | src-tauri/src/decoder.rs:156-176 | an object written as a header, one field per member and a `0x00` reads back as the same map |
| WireRoundTrip.ArrayRoundTrip | src-tauri/src/decoder.rs:134-154 | an array written as a header, one field per element and a `0x00` reads back as the same elements in the same order |
| WireRoundTrip.FieldAtOf | src-tauri/src/decoder.rs:82-86 | `get_field` returns the tag, the name and the value read after them, and stops where the value ends |
| WireRoundTrip.FieldRoundTrip | src-tauri/src/decoder.rs:82-86 | one written field is one `get_field` that returns its tag, its name and its value, with the cursor just past it |
| WireRoundTrip.MembersNext | src-tauri/src/decoder.rs:160-172 | a field read back with a recognised tag is one turn of the object loop, which inserts it under its name |
| WireRoundTrip.ElementsNext | src-tauri/src/decoder.rs:138-150 | a field read back with a recognised tag is one turn of the array loop, which appends it |
| WireRoundTrip.LoopEnd | src-tauri/src/decoder.rs:139-140 | a `0x00` tag ends either loop, which returns what it has read, with the cursor past the tag |
| WireRoundTrip.MembersTurn | src-tauri/src/decoder.rs:160-172 | one written member is one turn of the object loop, which stores it under its name and goes on after it |
| WireRoundTrip.ElementsTurn | src-tauri/src/decoder.rs:138-150 | one written element is one turn of the array loop, which appends it and goes on after it |
| WireRoundTrip.MembersRoundTrip | src-tauri/src/decoder.rs:160-173 | the object loop reads back every written member, each under its name, and stops just past the `0x00` |
| WireRoundTrip.ElementsRoundTrip | src-tauri/src/decoder.rs:138-151 | the array loop reads back every written element in order, and stops just past the `0x00` |

## Left out

- Logging: the `println!` calls at src-tauri/src/decoder.rs:11, 17, 24, 146 and 168 only log. The log line at :17 computes `decoder.cursor - field_name.len()` in `usize`. In a debug build it can underflow and panic when a top-level name ends in an unknown field and holds many bytes of 0x80 or more (each becomes two UTF-8 bytes). That panic is not modelled.
- f64 values: a double is kept as its 64-bit pattern. `json!` turns a NaN or an infinity into `null`, and this is modelled through the exponent bits. No float arithmetic or number formatting is modelled.
- Machine integers: `usize` arithmetic on the cursor (`cursor + size`, `length as usize + 1`) is modelled with unbounded integers, so an overflow on a 32-bit target is not modelled. The u32, i32 and i64 conversions themselves are exact.
- Panics: every panic is an `Err` result. After an `Err` the caller stops, so the decoder's cursor is not specified after one.
- Decoding.Decoder.ReadArray, Decoding.Decoder.ReadObject: `Vec::push` and `HashMap::insert` are modelled as building a new sequence and map value in a local variable.
- Json.BuildJson: `build_json` mutates `data[field_index]` in place through `&mut`. The model builds the child object or array as a value and then stores it once. It does not capture aliasing of the `&mut` borrow.
- Json.BuildObject: the `HashMap` iteration order is unspecified, and the model picks each next key nondeterministically. The result is proved the same for every order, because the keys are distinct.
- serde_json objects are modelled as maps, so their key order is not modelled.
- Library calls: `general_purpose::STANDARD.encode` is specified by section 4 of RFC 4648, and `String::from_utf8` by section 3 of RFC 3629. Their implementations are not modelled.
- Binary payload: the code reads `L + 1` bytes after the u32 length and encodes only the first `L - 1`. A description of the format as "`L` bytes, last one trimmed" disagrees with this. The model follows the code.
- Length mismatch: `decode_contents` compares the cursor with the declared length only to decide whether to log. It never fails on a mismatch, and the model follows the code (`Contents.DeclaredLengthIgnored`).
- The encoder has no counterpart in the Rust code. It exists so that the round trip can be stated. It writes object and array headers as zero, because the decoder ignores them (`WireFrames.HeaderIgnored`).
- WireRoundTrip.ValueRoundTrip: the round trip covers the values `WireEncoder.Encodable` admits. It excludes `Unknown`, which has no tag. It excludes string and binary lengths of 2^32 or more, which `len as u32` would wrap. It excludes binary text that is not the base64 of any bytes. It excludes object keys that are not names of one-byte, non-NUL characters, since `read_string_uknl` reads one character per byte up to a NUL.
- main.rs, modinfo.rs, gameinfo.rs, cli.rs and the UI are not part of this model. They are HTTP, filesystem, scraping and UI glue around `decode_contents`.
