/** What each reader of the `Decoder` in src-tauri/src/decoder.rs computes, as a
    function of the buffer and the cursor (and, for `get_value_from`, the
    `fields_decoded` counter). `Err` stands for the panic the Rust code raises.
    The `Decoder` class is proved to compute exactly these functions; the lemmas
    here state what they mean. */
module WireFormat {
  import opened LittleEndian
  import opened Outcomes
  import opened FieldValues
  import Utf8
  import Base64

  /** A value read at some offset and the offset just past it. */
  datatype Read<T> = Read(value: T, next: nat)

  /** A value `get_value_from` decoded, the cursor after it and the new count. */
  datatype Step<T> = Step(value: T, next: nat, fields: nat)

  /** `read_bytes`: the slice `data[pos..pos + size]`. */
  function BytesAt(data: seq<byte>, pos: nat, size: nat): (r: Result<Read<seq<byte>>>)
    ensures r.Ok? <==> pos + size <= |data|
    ensures r.Err? ==> r.error == OutOfBounds
    ensures r.Ok? ==> |r.value.value| == size && r.value.next == pos + size
  {
    if pos + size <= |data| then Ok(Read(data[pos..pos + size], pos + size)) else Err(OutOfBounds)
  }

  /** `read_u8`. */
  function U8At(data: seq<byte>, pos: nat): (r: Result<Read<byte>>)
    ensures r.Ok? <==> pos < |data|
    ensures r.Ok? ==> r.value.value == data[pos] && r.value.next == pos + 1
  {
    var b :- BytesAt(data, pos, 1);
    Ok(Read(b.value[0], b.next))
  }

  /** `read_u32`. */
  function U32At(data: seq<byte>, pos: nat): (r: Result<Read<nat>>)
    ensures r.Ok? <==> pos + 4 <= |data|
    ensures r.Ok? ==> r.value.next == pos + 4
  {
    var b :- BytesAt(data, pos, 4);
    Ok(Read(U32(b.value), b.next))
  }

  /** `read_i32`. */
  function I32At(data: seq<byte>, pos: nat): (r: Result<Read<i32>>)
    ensures r.Ok? <==> pos + 4 <= |data|
    ensures r.Ok? ==> r.value.next == pos + 4
  {
    var b :- BytesAt(data, pos, 4);
    Ok(Read(I32(b.value), b.next))
  }

  /** `read_i64`. */
  function I64At(data: seq<byte>, pos: nat): (r: Result<Read<i64>>)
    ensures r.Ok? <==> pos + 8 <= |data|
    ensures r.Ok? ==> r.value.next == pos + 8
  {
    var b :- BytesAt(data, pos, 8);
    Ok(Read(I64(b.value), b.next))
  }

  /** `read_double`, kept as the raw bit pattern. */
  function DoubleAt(data: seq<byte>, pos: nat): (r: Result<Read<Bits64>>)
    ensures r.Ok? <==> pos + 8 <= |data|
    ensures r.Ok? ==> r.value.next == pos + 8
  {
    var b :- BytesAt(data, pos, 8);
    Ok(Read(Bits64Of(b.value), b.next))
  }

  /** The numbers the fixed-width readers return are the little-endian values of
      the bytes they consume: writing each back with `to_le_bytes` gives exactly
      those bytes, so no two byte strings read alike; and a signed value is
      negative exactly when the top bit of its last byte is set. */
  lemma NumbersAt(data: seq<byte>, pos: nat)
    ensures U32At(data, pos).Ok? ==>
              U32At(data, pos).value.value < TWO32 && U32Bytes(U32At(data, pos).value.value) == data[pos..pos + 4]
    ensures I32At(data, pos).Ok? ==>
              I32Bytes(I32At(data, pos).value.value) == data[pos..pos + 4]
              && (I32At(data, pos).value.value < 0 <==> data[pos + 3] >= 0x80)
    ensures I64At(data, pos).Ok? ==>
              I64Bytes(I64At(data, pos).value.value) == data[pos..pos + 8]
              && (I64At(data, pos).value.value < 0 <==> data[pos + 7] >= 0x80)
    ensures DoubleAt(data, pos).Ok? ==> U64Bytes(DoubleAt(data, pos).value.value) == data[pos..pos + 8]
  {
    if pos + 4 <= |data| {
      U32BytesOfU32(data[pos..pos + 4]);
      I32BytesOfI32(data[pos..pos + 4]);
    }
    if pos + 8 <= |data| {
      U64BytesOfU64(data[pos..pos + 8]);
      I64BytesOfI64(data[pos..pos + 8]);
    }
  }

  /** `read_bool`: true exactly when the byte is 1. */
  function BoolAt(data: seq<byte>, pos: nat): (r: Result<Read<bool>>)
    ensures r.Ok? <==> pos < |data|
    ensures r.Ok? ==> (r.value.value <==> data[pos] == 1) && r.value.next == pos + 1
  {
    var b :- U8At(data, pos);
    Ok(Read(b.value == 1, b.next))
  }

  /** The offset of the first NUL at or after `pos`, or the end of the buffer. */
  function NulFrom(data: seq<byte>, pos: nat): (e: nat)
    requires pos <= |data|
    ensures pos <= e <= |data|
    ensures e < |data| ==> data[e] == 0
    decreases |data| - pos
  {
    if pos == |data| || data[pos] == 0 then pos else NulFrom(data, pos + 1)
  }

  /** `NulFrom` stops at the first NUL: no byte it passes over is one. */
  lemma {:induction false} NulFromFirst(data: seq<byte>, pos: nat)
    requires pos <= |data|
    ensures forall i :: pos <= i < NulFrom(data, pos) ==> data[i] != 0
    decreases |data| - pos
  {
    if pos < |data| && data[pos] != 0 {
      NulFromFirst(data, pos + 1);
    }
  }

  /** `char::from(u8)` on each byte: the character with the byte's code point. */
  function Latin1(b: seq<byte>): (s: string)
    ensures |s| == |b|
    ensures forall i :: 0 <= i < |b| ==> s[i] as int == b[i] as int
  {
    seq(|b|, i requires 0 <= i < |b| => b[i] as int as char)
  }

  /** `read_string_uknl`: the bytes up to the first NUL, which is consumed too;
      without a NUL, the rest of the buffer. It cannot fail. */
  function NameAt(data: seq<byte>, pos: nat): (r: Read<string>)
    requires pos <= |data|
    ensures var e := pos + |r.value|;
      && e <= |data|
      && (forall i :: 0 <= i < |r.value| ==> data[pos + i] != 0 && r.value[i] as int == data[pos + i] as int)
      && (e < |data| ==> data[e] == 0 && r.next == e + 1)
      && (e == |data| ==> r.next == e)
  {
    var e := NulFrom(data, pos);
    NulFromFirst(data, pos);
    Read(Latin1(data[pos..e]), if e < |data| then e + 1 else e)
  }

  /** `read_string`: a u32 length `L`, then `L` bytes of which the first `L - 1`
      must be UTF-8. */
  function StringAt(data: seq<byte>, pos: nat): (r: Result<Read<string>>) {
    var len :- U32At(data, pos);
    var payload :- BytesAt(data, len.next, len.value);
    if len.value == 0 then Err(LengthUnderflow)
    else
      match Utf8.Decode(payload.value[..len.value - 1])
      case None => Err(InvalidUtf8)
      case Some(text) => Ok(Read(text, payload.next))
  }

  /** `read_string` succeeds exactly when the length is readable and positive, the
      payload fits, and its first `L - 1` bytes are UTF-8; the text it returns
      encodes back to those bytes, and the cursor ends `4 + L` bytes on. An empty
      length is the `length - 1` underflow. */
  lemma StringAtMeaning(data: seq<byte>, pos: nat)
    ensures StringAt(data, pos).Ok? <==>
              pos + 4 <= |data| && 0 < Length(data, pos) && pos + 4 + Length(data, pos) <= |data|
              && Utf8.Valid(data[pos + 4..pos + 3 + Length(data, pos)])
    ensures StringAt(data, pos) == Err(LengthUnderflow) <==> pos + 4 <= |data| && Length(data, pos) == 0
  {
    if pos + 4 > |data| {
      assert StringAt(data, pos) == Err(OutOfBounds);
      return;
    }
    var len := Length(data, pos);
    if pos + 4 + len > |data| || len == 0 {
      StringShort(data, pos);
      return;
    }
    StringPayload(data, pos);
  }

  /** What a successful `read_string` returns: the text that encodes back to
      the first `L - 1` payload bytes, and the cursor `4 + L` bytes on. */
  lemma StringAtText(data: seq<byte>, pos: nat)
    requires StringAt(data, pos).Ok?
    ensures pos + 4 <= |data| && pos + 4 + Length(data, pos) <= |data| && 0 < Length(data, pos)
    ensures StringAt(data, pos).value.next == pos + 4 + Length(data, pos)
    ensures Utf8.Encode(StringAt(data, pos).value.value) == data[pos + 4..pos + 3 + Length(data, pos)]
  {
    StringAtMeaning(data, pos);
    StringPayload(data, pos);
    var text := data[pos + 4..pos + 3 + Length(data, pos)];
    Utf8.EncodeDecode(text);
  }

  /** A readable length that is zero or whose payload does not fit. */
  lemma StringShort(data: seq<byte>, pos: nat)
    requires pos + 4 <= |data| && (Length(data, pos) == 0 || pos + 4 + Length(data, pos) > |data|)
    ensures StringAt(data, pos) == if pos + 4 + Length(data, pos) > |data| then Err(OutOfBounds) else Err(LengthUnderflow)
  {
    assert U32At(data, pos) == Ok(Read(Length(data, pos), pos + 4));
  }

  /** A readable, positive length whose payload fits: the text is what the first
      `L - 1` payload bytes decode to. */
  lemma StringPayload(data: seq<byte>, pos: nat)
    requires pos + 4 <= |data| && 0 < Length(data, pos) && pos + 4 + Length(data, pos) <= |data|
    ensures var text := data[pos + 4..pos + 3 + Length(data, pos)];
      StringAt(data, pos) == if Utf8.Valid(text) then Ok(Read(Utf8.Decode(text).value, pos + 4 + Length(data, pos)))
                             else Err(InvalidUtf8)
  {
    var len := Length(data, pos);
    assert U32At(data, pos) == Ok(Read(len, pos + 4));
    assert data[pos + 4..pos + 4 + len][..len - 1] == data[pos + 4..pos + 3 + len];
  }

  /** The u32 length prefix at `pos`, read as `read_u32` reads it. */
  function Length(data: seq<byte>, pos: nat): (n: nat)
    requires pos + 4 <= |data|
  {
    U32(data[pos..pos + 4])
  }

  /** `read_binary`: a u32 length `L`, then `L + 1` bytes, of which the first
      `L - 1` are returned as base64 text. */
  function BinaryAt(data: seq<byte>, pos: nat): (r: Result<Read<string>>) {
    var len :- U32At(data, pos);
    var payload :- BytesAt(data, len.next, len.value + 1);
    if len.value == 0 then Err(LengthUnderflow)
    else Ok(Read(Base64.Encode(payload.value[..len.value - 1]), payload.next))
  }

  /** `read_binary` succeeds exactly when the length is readable and positive and
      `L + 1` bytes follow it. An empty length is the `length - 1` underflow, once
      the one byte is read. */
  lemma BinaryAtMeaning(data: seq<byte>, pos: nat)
    ensures BinaryAt(data, pos).Ok? <==> pos + 4 <= |data| && 0 < Length(data, pos) && pos + 5 + Length(data, pos) <= |data|
    ensures BinaryAt(data, pos) == Err(LengthUnderflow) <==> pos + 5 <= |data| && Length(data, pos) == 0
  {
    if pos + 4 > |data| {
      assert BinaryAt(data, pos) == Err(OutOfBounds);
      return;
    }
    assert U32At(data, pos) == Ok(Read(Length(data, pos), pos + 4));
  }

  /** What a successful `read_binary` returns: the base64 form of the first
      `L - 1` payload bytes, no more (which `Base64.DecodeEncode` shows determine
      it), with the cursor `4 + L + 1` bytes on. */
  lemma BinaryAtText(data: seq<byte>, pos: nat)
    requires BinaryAt(data, pos).Ok?
    ensures pos + 4 <= |data| && 0 < Length(data, pos) && pos + 5 + Length(data, pos) <= |data|
    ensures BinaryAt(data, pos).value.next == pos + 5 + Length(data, pos)
    ensures BinaryAt(data, pos).value.value == Base64.Encode(data[pos + 4..pos + 3 + Length(data, pos)])
  {
    BinaryAtMeaning(data, pos);
    var len := Length(data, pos);
    var payload := data[pos + 4..pos + 5 + len];
    assert payload[..len - 1] == data[pos + 4..pos + 3 + len];
    assert U32At(data, pos) == Ok(Read(len, pos + 4));
    assert BytesAt(data, pos + 4, len + 1) == Ok(Read(payload, pos + 5 + len));
  }

  /** `get_value_from`: count the field, then read the payload `tag` announces.
      The two tags whose payload holds further fields recurse; every other tag
      is read by `ScalarAt`. */
  function ValueAt(data: seq<byte>, tag: byte, pos: nat, fields: nat): (r: Result<Step<FieldValue>>)
    requires pos <= |data|
    ensures r.Ok? ==> pos <= r.value.next <= |data|
    decreases |data| - pos, 1
  {
    var count := fields + 1;
    if tag == TAG_OBJECT then
      var m :- ObjectAt(data, pos, count); Ok(Step(Object(m.value), m.next, m.fields))
    else if tag == TAG_ARRAY then
      var a :- ArrayAt(data, pos, count); Ok(Step(Array(a.value), a.next, a.fields))
    else
      var v :- ScalarAt(data, tag, pos); Ok(Step(v.value, v.next, count))
  }

  /** The arms of `get_value_from` for a tag other than object and array: each
      reads its own payload; `Null` and an unrecognised tag (`Unknown`) read
      nothing. */
  function ScalarAt(data: seq<byte>, tag: byte, pos: nat): (r: Result<Read<FieldValue>>)
    requires pos <= |data| && tag != TAG_OBJECT && tag != TAG_ARRAY
    ensures r.Ok? ==> pos <= r.value.next <= |data|
  {
    if tag == TAG_DOUBLE then
      var d :- DoubleAt(data, pos); Ok(Read(Double(d.value), d.next))
    else if tag == TAG_STRING then
      var s :- StringAt(data, pos); Ok(Read(String(s.value), s.next))
    else if tag == TAG_BINARY then
      var b :- BinaryAt(data, pos); Ok(Read(Binary(b.value), b.next))
    else if tag == TAG_BOOL then
      var b :- BoolAt(data, pos); Ok(Read(Bool(b.value), b.next))
    else if tag == TAG_NULL then
      Ok(Read(Null, pos))
    else if tag == TAG_INT then
      var i :- I32At(data, pos); Ok(Read(Int(i.value), i.next))
    else if tag == TAG_INT64 then
      var i :- I64At(data, pos); Ok(Read(Int64(i.value), i.next))
    else
      Ok(Read(Unknown, pos))
  }

  /** `read_array`: a u32 header that is ignored, then the elements. */
  function ArrayAt(data: seq<byte>, pos: nat, fields: nat): (r: Result<Step<seq<FieldValue>>>)
    requires pos <= |data|
    ensures r.Ok? ==> pos + 4 < r.value.next <= |data|
    decreases |data| - pos, 0
  {
    var header :- U32At(data, pos);
    ElementsAt(data, header.next, [], fields)
  }

  /** The loop of `read_array` from `pos` on, with the elements `acc` read so far:
      stop at a `0x00` tag, drop each element's name, abort on an unknown tag. */
  function ElementsAt(data: seq<byte>, pos: nat, acc: seq<FieldValue>, fields: nat)
    : (r: Result<Step<seq<FieldValue>>>)
    requires pos <= |data|
    ensures r.Ok? ==> pos < r.value.next <= |data|
    decreases |data| - pos, 0
  {
    var tag :- U8At(data, pos);
    if tag.value == TAG_END then Ok(Step(acc, tag.next, fields))
    else
      var name := NameAt(data, tag.next);
      var field :- ValueAt(data, tag.value, name.next, fields);
      if field.value.Unknown? then Err(UnknownField(tag.value))
      else ElementsAt(data, field.next, acc + [field.value], field.fields)
  }

  /** `read_object`: a u32 header that is ignored, then the members. */
  function ObjectAt(data: seq<byte>, pos: nat, fields: nat): (r: Result<Step<map<string, FieldValue>>>)
    requires pos <= |data|
    ensures r.Ok? ==> pos + 4 < r.value.next <= |data|
    decreases |data| - pos, 0
  {
    var header :- U32At(data, pos);
    MembersAt(data, header.next, map[], fields)
  }

  /** The loop of `read_object` from `pos` on, with the members `acc` read so far:
      stop at a `0x00` tag, let a later name replace an earlier one, abort on an
      unknown tag. */
  function MembersAt(data: seq<byte>, pos: nat, acc: map<string, FieldValue>, fields: nat)
    : (r: Result<Step<map<string, FieldValue>>>)
    requires pos <= |data|
    ensures r.Ok? ==> pos < r.value.next <= |data|
    decreases |data| - pos, 0
  {
    var tag :- U8At(data, pos);
    if tag.value == TAG_END then Ok(Step(acc, tag.next, fields))
    else
      var name := NameAt(data, tag.next);
      var field :- ValueAt(data, tag.value, name.next, fields);
      if field.value.Unknown? then Err(UnknownField(tag.value))
      else MembersAt(data, field.next, acc[name.value := field.value], field.fields)
  }

  /** `get_field`: a tag, a name, and the value the tag announces. */
  function FieldAt(data: seq<byte>, pos: nat, fields: nat): (r: Result<Step<(byte, string, FieldValue)>>)
    requires pos <= |data|
    ensures r.Ok? ==> pos < r.value.next <= |data|
  {
    var tag :- U8At(data, pos);
    var name := NameAt(data, tag.next);
    var v :- ValueAt(data, tag.value, name.next, fields);
    Ok(Step((tag.value, name.value, v.value), v.next, v.fields))
  }
}
