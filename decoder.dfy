/** The `Decoder` struct of src-tauri/src/decoder.rs: a read-only buffer, a cursor
    that every reader advances, and the count of fields `get_value_from` has been
    asked for. Each method is proved to return what the matching function of
    `WireFormat` computes from the cursor (and count) it started with, and to leave
    the cursor (and count) where that function says. A panic of the Rust code is
    an `Err` result; after one, the caller stops, so the cursor is left unspecified. */
module Decoding {
  import opened LittleEndian
  import opened Outcomes
  import opened FieldValues
  import opened WireFormat
  import Utf8
  import Base64

  /** A reader returned what `spec` says and left the cursor where it says. */
  ghost predicate ReadAgrees<T>(r: Result<T>, spec: Result<Read<T>>, cursor: nat) {
    match spec
    case Ok(rd) => r == Ok(rd.value) && cursor == rd.next
    case Err(e) => r == Err(e)
  }

  /** A decoding method returned what `spec` says and left the cursor and the
      field count where it says. */
  ghost predicate StepAgrees<T>(r: Result<T>, spec: Result<Step<T>>, cursor: nat, fields: nat) {
    match spec
    case Ok(st) => r == Ok(st.value) && cursor == st.next && fields == st.fields
    case Err(e) => r == Err(e)
  }

  class Decoder {
    const data: seq<byte>
    var cursor: nat
    var fieldsDecoded: nat

    /** The cursor never passes the end of the buffer. */
    ghost predicate Valid()
      reads this
    {
      cursor <= |data|
    }

    /** `Decoder::new`. */
    constructor (contents: seq<byte>)
      ensures Valid()
      ensures data == contents && cursor == 0 && fieldsDecoded == 0
    {
      data := contents;
      cursor := 0;
      fieldsDecoded := 0;
    }

    /** `read_bytes`. */
    method ReadBytes(size: nat) returns (r: Result<seq<byte>>)
      requires Valid()
      modifies this`cursor
      ensures Valid()
      ensures ReadAgrees(r, BytesAt(data, old(cursor), size), cursor)
    {
      if cursor + size > |data| {
        return Err(OutOfBounds);
      }
      r := Ok(data[cursor..cursor + size]);
      cursor := cursor + size;
    }

    /** `read_u8`. */
    method ReadU8() returns (r: Result<byte>)
      requires Valid()
      modifies this`cursor
      ensures Valid()
      ensures ReadAgrees(r, U8At(data, old(cursor)), cursor)
    {
      var bytes :- ReadBytes(1);
      return Ok(bytes[0]);
    }

    /** `read_u32`. */
    method ReadU32() returns (r: Result<nat>)
      requires Valid()
      modifies this`cursor
      ensures Valid()
      ensures ReadAgrees(r, U32At(data, old(cursor)), cursor)
    {
      var bytes :- ReadBytes(4);
      return Ok(U32(bytes));
    }

    /** `read_i32`. */
    method ReadI32() returns (r: Result<i32>)
      requires Valid()
      modifies this`cursor
      ensures Valid()
      ensures ReadAgrees(r, I32At(data, old(cursor)), cursor)
    {
      var bytes :- ReadBytes(4);
      return Ok(I32(bytes));
    }

    /** `read_i64`. */
    method ReadI64() returns (r: Result<i64>)
      requires Valid()
      modifies this`cursor
      ensures Valid()
      ensures ReadAgrees(r, I64At(data, old(cursor)), cursor)
    {
      var bytes :- ReadBytes(8);
      return Ok(I64(bytes));
    }

    /** `read_double`. */
    method ReadDouble() returns (r: Result<Bits64>)
      requires Valid()
      modifies this`cursor
      ensures Valid()
      ensures ReadAgrees(r, DoubleAt(data, old(cursor)), cursor)
    {
      var bytes :- ReadBytes(8);
      return Ok(Bits64Of(bytes));
    }

    /** `read_bool`. */
    method ReadBool() returns (r: Result<bool>)
      requires Valid()
      modifies this`cursor
      ensures Valid()
      ensures ReadAgrees(r, BoolAt(data, old(cursor)), cursor)
    {
      var b :- ReadU8();
      return Ok(b == 1);
    }

    /** `read_string_uknl`: walk the rest of the buffer, one byte at a time,
        until a NUL (which is consumed) or the end. */
    method ReadStringUknl() returns (name: string)
      requires Valid()
      modifies this`cursor
      ensures Valid()
      ensures NameAt(data, old(cursor)) == Read(name, cursor)
    {
      name := [];
      var rest := data[cursor..];
      var k := 0;
      while k < |rest|
        invariant 0 <= k <= |rest| && rest == data[old(cursor)..]
        invariant cursor == old(cursor) + k
        invariant NulFrom(data, old(cursor)) == NulFrom(data, cursor)
        invariant name == Latin1(data[old(cursor)..cursor])
      {
        var b := rest[k];
        assert b == data[cursor];
        cursor := cursor + 1;
        if b == 0 {
          break;
        }
        Latin1Snoc(data[old(cursor)..cursor - 1], b);
        assert data[old(cursor)..cursor] == data[old(cursor)..cursor - 1] + [b];
        name := name + [b as int as char];
        k := k + 1;
      }
    }

    /** `read_string`. */
    method ReadString() returns (r: Result<string>)
      requires Valid()
      modifies this`cursor
      ensures Valid()
      ensures ReadAgrees(r, StringAt(data, old(cursor)), cursor)
    {
      var length :- ReadU32();
      var bytes :- ReadBytes(length);
      if length == 0 {
        return Err(LengthUnderflow);
      }
      var text := Utf8.Decode(bytes[..length - 1]);
      if text.None? {
        return Err(InvalidUtf8);
      }
      return Ok(text.value);
    }

    /** `read_binary`: note the `length + 1` bytes consumed. */
    method ReadBinary() returns (r: Result<string>)
      requires Valid()
      modifies this`cursor
      ensures Valid()
      ensures ReadAgrees(r, BinaryAt(data, old(cursor)), cursor)
    {
      var length :- ReadU32();
      var bytes :- ReadBytes(length + 1);
      if length == 0 {
        return Err(LengthUnderflow);
      }
      return Ok(Base64.Encode(bytes[..length - 1]));
    }

    /** `get_field`. */
    method GetField() returns (r: Result<(byte, string, FieldValue)>)
      requires Valid()
      modifies this`cursor, this`fieldsDecoded
      ensures Valid()
      ensures StepAgrees(r, FieldAt(data, old(cursor), old(fieldsDecoded)), cursor, fieldsDecoded)
    {
      var fieldType :- ReadU8();
      var fieldName := ReadStringUknl();
      var value :- GetValueFrom(fieldType);
      return Ok((fieldType, fieldName, value));
    }

    /** `get_value_from`: count the field, then dispatch on the tag. */
    method GetValueFrom(fieldType: byte) returns (r: Result<FieldValue>)
      requires Valid()
      modifies this`cursor, this`fieldsDecoded
      ensures Valid()
      ensures StepAgrees(r, ValueAt(data, fieldType, old(cursor), old(fieldsDecoded)), cursor, fieldsDecoded)
      decreases |data| - cursor, 1
    {
      fieldsDecoded := fieldsDecoded + 1;
      if fieldType == TAG_DOUBLE {
        var d :- ReadDouble();
        return Ok(Double(d));
      } else if fieldType == TAG_STRING {
        var s :- ReadString();
        return Ok(String(s));
      } else if fieldType == TAG_OBJECT {
        var m :- ReadObject();
        return Ok(Object(m));
      } else if fieldType == TAG_ARRAY {
        var a :- ReadArray();
        return Ok(Array(a));
      } else if fieldType == TAG_BINARY {
        var b :- ReadBinary();
        return Ok(Binary(b));
      } else if fieldType == TAG_BOOL {
        var b :- ReadBool();
        return Ok(Bool(b));
      } else if fieldType == TAG_NULL {
        return Ok(Null);
      } else if fieldType == TAG_INT {
        var i :- ReadI32();
        return Ok(Int(i));
      } else if fieldType == TAG_INT64 {
        var i :- ReadI64();
        return Ok(Int64(i));
      } else {
        return Ok(Unknown);
      }
    }

    /** `read_array`. */
    method ReadArray() returns (r: Result<seq<FieldValue>>)
      requires Valid()
      modifies this`cursor, this`fieldsDecoded
      ensures Valid()
      ensures StepAgrees(r, ArrayAt(data, old(cursor), old(fieldsDecoded)), cursor, fieldsDecoded)
      decreases |data| - cursor, 0
    {
      var header :- ReadU32();
      var v: seq<FieldValue> := [];
      while true
        invariant Valid() && old(cursor) + 4 <= cursor
        invariant ArrayAt(data, old(cursor), old(fieldsDecoded)) == ElementsAt(data, cursor, v, fieldsDecoded)
        decreases |data| - cursor
      {
        var fieldType :- ReadU8();
        if fieldType == TAG_END {
          return Ok(v);
        }
        var fieldName := ReadStringUknl();
        var field :- GetValueFrom(fieldType);
        if field.Unknown? {
          return Err(UnknownField(fieldType));
        }
        v := v + [field];
      }
    }

    /** `read_object`. */
    method ReadObject() returns (r: Result<map<string, FieldValue>>)
      requires Valid()
      modifies this`cursor, this`fieldsDecoded
      ensures Valid()
      ensures StepAgrees(r, ObjectAt(data, old(cursor), old(fieldsDecoded)), cursor, fieldsDecoded)
      decreases |data| - cursor, 0
    {
      var header :- ReadU32();
      var m: map<string, FieldValue> := map[];
      while true
        invariant Valid() && old(cursor) + 4 <= cursor
        invariant ObjectAt(data, old(cursor), old(fieldsDecoded)) == MembersAt(data, cursor, m, fieldsDecoded)
        decreases |data| - cursor
      {
        var fieldType :- ReadU8();
        if fieldType == TAG_END {
          return Ok(m);
        }
        var fieldName := ReadStringUknl();
        var field :- GetValueFrom(fieldType);
        if field.Unknown? {
          return Err(UnknownField(fieldType));
        }
        m := m[fieldName := field];
      }
    }
  }

  lemma Latin1Snoc(b: seq<byte>, x: byte)
    ensures Latin1(b + [x]) == Latin1(b) + [x as int as char]
  {
    var l, r := Latin1(b + [x]), Latin1(b) + [x as int as char];
    assert |l| == |r|;
    forall i | 0 <= i < |l|
      ensures l[i] == r[i]
    {
      assert l[i] as int == (b + [x])[i] as int;
    }
  }
}
