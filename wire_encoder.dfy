/** A companion encoder for the format `WireFormat` reads: a tag, a name and
    its NUL, then the payload the tag announces. Strings are written with their
    trailing byte and binary payloads with the two extra bytes that
    `read_binary` consumes; object and array headers are written as zero, since
    the decoder ignores them. `WireRoundTrip` proves that what it writes reads
    back. */
module WireEncoder {
  import opened LittleEndian
  import opened Outcomes
  import opened FieldValues
  import opened WireFormat
  import Utf8
  import Base64

  /** `b` lies in `data` at offset `pos`. */
  predicate At(data: seq<byte>, pos: nat, b: seq<byte>) {
    pos + |b| <= |data| && forall i :: 0 <= i < |b| ==> data[pos + i] == b[i]
  }

  /** `b` lies at `pos` exactly when it is the slice of `data` there. */
  lemma AtSlice(data: seq<byte>, pos: nat, b: seq<byte>)
    requires pos + |b| <= |data|
    ensures At(data, pos, b) <==> data[pos..pos + |b|] == b
  {
    var slice := data[pos..pos + |b|];
    assert forall i :: 0 <= i < |b| ==> slice[i] == data[pos + i];
  }

  /** The first byte of `b` is the byte at `pos`. */
  lemma AtFirst(data: seq<byte>, pos: nat, b: seq<byte>)
    requires At(data, pos, b) && |b| > 0
    ensures data[pos] == b[0]
  {
    assert data[pos + 0] == b[0];
  }

  lemma AtSplit(data: seq<byte>, pos: nat, a: seq<byte>, b: seq<byte>)
    requires At(data, pos, a + b)
    ensures At(data, pos, a) && At(data, pos + |a|, b)
  {
    forall i | 0 <= i < |a|
      ensures data[pos + i] == a[i]
    {
      assert (a + b)[i] == a[i];
    }
    forall i | 0 <= i < |b|
      ensures data[pos + |a| + i] == b[i]
    {
      assert (a + b)[|a| + i] == b[i];
      assert data[pos + (|a| + i)] == (a + b)[|a| + i];
    }
  }

  /** `r` is a successful read of `value` that stops at `next`. */
  predicate Back<T(==)>(r: Result<Step<T>>, value: T, next: nat) {
    r.Ok? && r.value.value == value && r.value.next == next
  }

  /** What the encoder writes for `v` lies in `data` at `pos`. */
  ghost predicate ValueLaid(data: seq<byte>, pos: nat, v: FieldValue) {
    Encodable(v) && At(data, pos, EncodeValue(v))
  }

  /** The field the encoder writes for `name` and `v` lies in `data` at `pos`. */
  ghost predicate FieldLaid(data: seq<byte>, pos: nat, name: string, v: FieldValue) {
    NameOk(name) && Encodable(v) && At(data, pos, EncodeField(name, v))
  }

  /** A name `read_string_uknl` reads back: one byte per character, no NUL. */
  predicate NameOk(name: string) {
    forall i :: 0 <= i < |name| ==> 0 < name[i] as int < 0x100
  }

  /** The bytes of a name, one per character (a character past one byte is
      written as `0x00`, which `NameOk` rules out). */
  function NameBytes(name: string): (b: seq<byte>)
    ensures |b| == |name|
  {
    seq(|name|, i requires 0 <= i < |name| => if name[i] as int < 0x100 then name[i] as int as byte else 0)
  }

  /** A `u32` length field as `len as u32` writes it: wrapped at 2^32. */
  function LengthBytes(n: nat): (b: seq<byte>)
    ensures |b| == 4
    ensures n < TWO32 ==> U32(b) == n
  {
    U32RoundTrip(n % TWO32);
    U32Bytes(n % TWO32)
  }

  /** A value the encoder can write so that it reads back: no `Unknown`; object
      keys are names; string and binary lengths fit the u32 length prefix; a
      binary value is the base64 text of some bytes. */
  ghost predicate Encodable(v: FieldValue)
    decreases v
  {
    match v
    case Unknown => false
    case String(t) => |Utf8.Encode(t)| + 1 < TWO32
    case Binary(s) => IsBase64(s) && |BinaryRaw(s)| + 1 < TWO32
    case Object(m) => forall k :: k in m ==> NameOk(k) && Encodable(m[k])
    case Array(s) => forall i :: 0 <= i < |s| ==> Encodable(s[i])
    case _ => true
  }

  /** `s` is the base64 text of some bytes. */
  ghost predicate IsBase64(s: string) {
    exists raw :: Base64.Encode(raw) == s
  }

  /** The bytes whose base64 text is `s`. */
  ghost function BinaryRaw(s: string): (raw: seq<byte>)
    requires IsBase64(s)
    ensures Base64.Encode(raw) == s
  {
    var raw :| Base64.Encode(raw) == s; raw
  }

  /** The names of a map in some order. */
  ghost function KeyList(keys: set<string>): (r: seq<string>)
    decreases keys
  {
    if keys == {} then []
    else
      var k :| k in keys;
      [k] + KeyList(keys - {k})
  }

  /** `KeyList` lists each name of the set, and no other. */
  lemma {:induction false} KeyListHas(keys: set<string>)
    ensures forall k :: k in KeyList(keys) <==> k in keys
    decreases keys
  {
    if keys != {} {
      var k :| k in keys && KeyList(keys) == [k] + KeyList(keys - {k});
      KeyListHas(keys - {k});
    }
  }

  /** The payload the encoder writes for a value without nested fields; an
      `Unknown` value has none. */
  ghost function EncodeScalar(v: FieldValue): (b: seq<byte>)
    requires !v.Object? && !v.Array?
  {
    match v
    case Double(bits) => U64Bytes(bits)
    case String(t) => var u := Utf8.Encode(t); LengthBytes(|u| + 1) + (u + [0])
    case Binary(s) =>
      if IsBase64(s) then var raw := BinaryRaw(s); LengthBytes(|raw| + 1) + (raw + [0, 0]) else []
    case Bool(flag) => [if flag then 1 else 0]
    case Null => []
    case Int(x) => I32Bytes(x)
    case Int64(x) => I64Bytes(x)
    case Unknown => []
  }

  /** The payload the encoder writes for `v`, after its tag and name: an object
      or an array is a header the decoder skips, then its fields. */
  ghost function EncodeValue(v: FieldValue): (b: seq<byte>)
    decreases v, 1, 0
  {
    match v
    case Object(m) => U32Bytes(0) + EncodeMembers(v, KeyList(m.Keys))
    case Array(s) => U32Bytes(0) + EncodeElements(v, 0)
    case _ => EncodeScalar(v)
  }

  /** One field: the tag, the name and its NUL, the payload; an `Unknown`
      value, which has no tag, writes nothing. */
  ghost function EncodeField(name: string, v: FieldValue): (b: seq<byte>)
    decreases v, 2, 0
  {
    if v.Unknown? then []
    else [TagOf(v)] + ((NameBytes(name) + [0]) + EncodeValue(v))
  }

  /** The members of object `v` named by `keys`, one field each, in that order,
      then the `0x00` that ends the object; a name `v` lacks writes nothing. */
  ghost function EncodeMembers(v: FieldValue, keys: seq<string>): (b: seq<byte>)
    requires v.Object?
    decreases v, 0, |keys|
  {
    if keys == [] then [TAG_END]
    else if keys[0] in v.members then EncodeField(keys[0], v.members[keys[0]]) + EncodeMembers(v, keys[1..])
    else EncodeMembers(v, keys[1..])
  }

  /** The elements of array `v` from index `i` on, each with an empty name, then
      the `0x00` that ends the array. */
  ghost function EncodeElements(v: FieldValue, i: nat): (b: seq<byte>)
    requires v.Array? && i <= |v.elements|
    decreases v, 0, |v.elements| - i
  {
    if i == |v.elements| then [TAG_END]
    else EncodeField("", v.elements[i]) + EncodeElements(v, i + 1)
  }
}
