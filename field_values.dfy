/** The decoded value tree: `FieldValue` of src-tauri/src/decoder.rs, and the type
    tags that select each variant on the wire. */
module FieldValues {
  import opened LittleEndian

  /** One decoded value. `Object` is a `HashMap`, so it is a map here, with no key
      order; `Unknown` is the end marker that an unrecognised tag produces. */
  datatype FieldValue =
    | Double(bits: Bits64)
    | String(text: string)
    | Object(members: map<string, FieldValue>)
    | Array(elements: seq<FieldValue>)
    | Bool(flag: bool)
    | Int(int32: i32)
    | Int64(int64: i64)
    | Binary(base64: string)
    | Unknown
    | Null

  const TAG_END: byte := 0x00
  const TAG_DOUBLE: byte := 0x01
  const TAG_STRING: byte := 0x02
  const TAG_OBJECT: byte := 0x03
  const TAG_ARRAY: byte := 0x04
  const TAG_BINARY: byte := 0x05
  const TAG_BOOL: byte := 0x08
  const TAG_NULL: byte := 0x0A
  const TAG_INT: byte := 0x10
  const TAG_INT64: byte := 0x12

  /** The tags `get_value_from` dispatches on; every other byte yields `Unknown`. */
  predicate KnownTag(tag: byte) {
    tag == TAG_DOUBLE || tag == TAG_STRING || tag == TAG_OBJECT || tag == TAG_ARRAY
    || tag == TAG_BINARY || tag == TAG_BOOL || tag == TAG_NULL || tag == TAG_INT
    || tag == TAG_INT64
  }

  /** The tag that announces a value of this variant. */
  function TagOf(v: FieldValue): (tag: byte)
    requires !v.Unknown?
    ensures KnownTag(tag)
  {
    match v
    case Double(_) => TAG_DOUBLE
    case String(_) => TAG_STRING
    case Object(_) => TAG_OBJECT
    case Array(_) => TAG_ARRAY
    case Binary(_) => TAG_BINARY
    case Bool(_) => TAG_BOOL
    case Null => TAG_NULL
    case Int(_) => TAG_INT
    case Int64(_) => TAG_INT64
  }

  /** A value the decoder can return from inside an array or an object: no
      `Unknown` anywhere in it. */
  predicate Decoded(v: FieldValue) {
    match v
    case Unknown => false
    case Object(m) => forall k :: k in m ==> Decoded(m[k])
    case Array(s) => forall i :: 0 <= i < |s| ==> Decoded(s[i])
    case _ => true
  }

  predicate DecodedAll(s: seq<FieldValue>) {
    forall i :: 0 <= i < |s| ==> Decoded(s[i])
  }

  predicate DecodedIn(m: map<string, FieldValue>) {
    forall k :: k in m ==> Decoded(m[k])
  }
}
