/** The round trip of `WireEncoder`: what it writes for a value,
    `get_value_from` reads back as that value, with the cursor just past what
    was written; one field is one `get_field`, and the loops of `read_object`
    and `read_array` read back every member and element. */
module WireRoundTrip {
  import opened LittleEndian
  import opened Outcomes
  import opened FieldValues
  import opened WireFormat
  import opened WireEncoder
  import Utf8
  import Base64
  import WireFrames

  /** The first NUL at or after `pos` is the one at `e`. */
  lemma {:induction false} NulFromIs(data: seq<byte>, pos: nat, e: nat)
    requires pos <= e < |data| && data[e] == 0
    requires forall i :: pos <= i < e ==> data[i] != 0
    ensures NulFrom(data, pos) == e
    decreases e - pos
  {
    if pos < e {
      NulFromIs(data, pos + 1, e);
    }
  }

  /** A name written with its NUL reads back, the NUL consumed. */
  lemma NameRoundTrip(data: seq<byte>, pos: nat, name: string)
    requires NameOk(name) && At(data, pos, NameBytes(name) + [0])
    ensures NameAt(data, pos) == Read(name, pos + |name| + 1)
  {
    var e := pos + |name|;
    AtSplit(data, pos, NameBytes(name), [0]);
    forall i | pos <= i < e
      ensures data[i] == NameBytes(name)[i - pos]
    {
      assert data[pos + (i - pos)] == NameBytes(name)[i - pos];
    }
    AtFirst(data, e, [0]);
    NulFromIs(data, pos, e);
    assert Latin1(data[pos..e]) == name;
  }

  /** A string reads back: the length counts the trailing byte, and the text
      before it is the UTF-8 encoding of the string. */
  lemma StringRoundTrip(data: seq<byte>, pos: nat, t: string)
    requires Encodable(String(t)) && At(data, pos, EncodeScalar(String(t)))
    ensures StringAt(data, pos) == Ok(Read(t, pos + |EncodeScalar(String(t))|))
  {
    var u := Utf8.Encode(t);
    AtSplit(data, pos, LengthBytes(|u| + 1), u + [0]);
    AtSplit(data, pos + 4, u, [0]);
    LengthIs(data, pos, |u| + 1);
    assert data[pos + 4..pos + 3 + Length(data, pos)] == u;
    Utf8.DecodeEncode(t);
    StringPayload(data, pos);
  }

  /** What the encoder writes for a binary value: its length field, the bytes
      its base64 text stands for, two more bytes. */
  lemma BinaryLayout(v: FieldValue) returns (raw: seq<byte>)
    requires v.Binary? && Encodable(v)
    ensures Base64.Encode(raw) == v.base64 && U32(LengthBytes(|raw| + 1)) == |raw| + 1
    ensures EncodeScalar(v) == LengthBytes(|raw| + 1) + (raw + [0, 0])
  {
    raw := BinaryRaw(v.base64);
  }

  /** A binary payload reads back, whatever the four bytes of its length: the
      length is one more than the bytes before the two extra ones, and the
      value is their base64 text. */
  lemma BinaryBytes(data: seq<byte>, pos: nat, head: seq<byte>, raw: seq<byte>, s: string)
    requires |head| == 4 && U32(head) == |raw| + 1 && At(data, pos, head + (raw + [0, 0]))
    requires Base64.Encode(raw) == s
    ensures ScalarAt(data, TAG_BINARY, pos) == Ok(Read(Binary(s), pos + |head + (raw + [0, 0])|))
  {
    AtSplit(data, pos, head, raw + [0, 0]);
    AtSplit(data, pos + 4, raw, [0, 0]);
    assert Length(data, pos) == |raw| + 1;
    BinaryFromParts(data, pos, raw);
    ScalarBinary(data, pos, s, pos + |raw| + 6);
  }

  lemma BinaryFromParts(data: seq<byte>, pos: nat, raw: seq<byte>)
    requires pos + |raw| + 6 <= |data| && Length(data, pos) == |raw| + 1 && At(data, pos + 4, raw)
    ensures BinaryAt(data, pos) == Ok(Read(Base64.Encode(raw), pos + |raw| + 6))
  {
    BinaryAtMeaning(data, pos);
    BinaryAtText(data, pos);
    var r := BinaryAt(data, pos).value;
    var slice := data[pos + 4..pos + 3 + Length(data, pos)];
    assert slice == raw;
    assert r.value == Base64.Encode(slice);
    assert r.next == pos + |raw| + 6;
    assert r == Read(Base64.Encode(raw), pos + |raw| + 6);
  }

  /** A length prefix written as `to_le_bytes` reads back. */
  lemma LengthIs(data: seq<byte>, pos: nat, n: nat)
    requires n < TWO32 && At(data, pos, LengthBytes(n))
    ensures pos + 4 <= |data| && Length(data, pos) == n
  {
    assert data[pos..pos + 4] == LengthBytes(n);
  }

  /** A value without nested fields reads back. */
  lemma ScalarRoundTrip(data: seq<byte>, pos: nat, v: FieldValue)
    requires Encodable(v) && !v.Object? && !v.Array? && At(data, pos, EncodeScalar(v))
    ensures ScalarAt(data, TagOf(v), pos) == Ok(Read(v, pos + |EncodeScalar(v)|))
  {
    if v.String? {
      TextRoundTrip(data, pos, v);
    } else if v.Binary? {
      BytesRoundTrip(data, pos, v);
    } else {
      FixedRoundTrip(data, pos, v);
    }
  }

  /** A string value reads back. */
  lemma TextRoundTrip(data: seq<byte>, pos: nat, v: FieldValue)
    requires v.String? && Encodable(v) && At(data, pos, EncodeScalar(v))
    ensures ScalarAt(data, TagOf(v), pos) == Ok(Read(v, pos + |EncodeScalar(v)|))
  {
    StringRoundTrip(data, pos, v.text);
    ScalarString(data, pos, v.text, pos + |EncodeScalar(v)|);
  }

  /** A binary value reads back. */
  lemma BytesRoundTrip(data: seq<byte>, pos: nat, v: FieldValue)
    requires v.Binary? && Encodable(v) && At(data, pos, EncodeScalar(v))
    ensures ScalarAt(data, TagOf(v), pos) == Ok(Read(v, pos + |EncodeScalar(v)|))
  {
    var raw := BinaryLayout(v);
    BinaryBytes(data, pos, LengthBytes(|raw| + 1), raw, v.base64);
  }

  /** A value of fixed width reads back. */
  lemma FixedRoundTrip(data: seq<byte>, pos: nat, v: FieldValue)
    requires Encodable(v) && !v.Object? && !v.Array? && !v.String? && !v.Binary? && At(data, pos, EncodeScalar(v))
    ensures ScalarAt(data, TagOf(v), pos) == Ok(Read(v, pos + |EncodeScalar(v)|))
  {
    match v
    case Double(bits) => DoubleBack(data, pos, bits);
    case Bool(flag) => BoolBack(data, pos, flag);
    case Null =>
    case Int(x) => IntBack(data, pos, x);
    case Int64(x) => Int64Back(data, pos, x);
  }

  lemma ScalarString(data: seq<byte>, pos: nat, t: string, next: nat)
    requires StringAt(data, pos) == Ok(Read(t, next))
    ensures ScalarAt(data, TAG_STRING, pos) == Ok(Read(String(t), next))
  {
  }

  lemma ScalarBinary(data: seq<byte>, pos: nat, s: string, next: nat)
    requires BinaryAt(data, pos) == Ok(Read(s, next))
    ensures ScalarAt(data, TAG_BINARY, pos) == Ok(Read(Binary(s), next))
  {
  }

  lemma DoubleBack(data: seq<byte>, pos: nat, bits: Bits64)
    requires At(data, pos, U64Bytes(bits))
    ensures ScalarAt(data, TAG_DOUBLE, pos) == Ok(Read(Double(bits), pos + 8))
  {
    U64RoundTrip(bits);
    assert DoubleAt(data, pos) == Ok(Read(bits, pos + 8));
  }

  lemma BoolBack(data: seq<byte>, pos: nat, flag: bool)
    requires At(data, pos, [if flag then 1 else 0])
    ensures ScalarAt(data, TAG_BOOL, pos) == Ok(Read(Bool(flag), pos + 1))
  {
    AtFirst(data, pos, [if flag then 1 else 0]);
  }

  lemma IntBack(data: seq<byte>, pos: nat, x: i32)
    requires At(data, pos, I32Bytes(x))
    ensures ScalarAt(data, TAG_INT, pos) == Ok(Read(Int(x), pos + 4))
  {
    I32RoundTrip(x);
    assert I32At(data, pos) == Ok(Read(x, pos + 4));
  }

  lemma Int64Back(data: seq<byte>, pos: nat, x: i64)
    requires At(data, pos, I64Bytes(x))
    ensures ScalarAt(data, TAG_INT64, pos) == Ok(Read(Int64(x), pos + 8))
  {
    I64RoundTrip(x);
    assert I64At(data, pos) == Ok(Read(x, pos + 8));
  }

  /** `get_value_from` reads back every value the encoder writes, from the tag
      of its variant, and leaves the cursor just past it. */
  lemma {:induction false} ValueRoundTrip(data: seq<byte>, pos: nat, v: FieldValue, fields: nat)
    requires ValueLaid(data, pos, v)
    ensures Back(ValueAt(data, TagOf(v), pos, fields), v, pos + |EncodeValue(v)|)
    decreases v, 2, 0
  {
    if v.Object? {
      ObjectRoundTrip(data, pos, v, fields);
    } else if v.Array? {
      ArrayRoundTrip(data, pos, v, fields);
    } else {
      assert EncodeValue(v) == EncodeScalar(v);
      ScalarRoundTrip(data, pos, v);
      ScalarValueAt(data, TagOf(v), pos, fields);
    }
  }

  /** For a tag without nested fields, `get_value_from` is the scalar read and
      one more field counted. */
  lemma ScalarValueAt(data: seq<byte>, tag: byte, pos: nat, fields: nat)
    requires pos <= |data| && tag != TAG_OBJECT && tag != TAG_ARRAY && ScalarAt(data, tag, pos).Ok?
    ensures var s := ScalarAt(data, tag, pos).value;
      ValueAt(data, tag, pos, fields) == Ok(Step(s.value, s.next, fields + 1))
  {
  }

  /** An object reads back: the ignored header, then its members. */
  lemma {:induction false} ObjectRoundTrip(data: seq<byte>, pos: nat, v: FieldValue, fields: nat)
    requires v.Object? && Encodable(v) && At(data, pos, EncodeValue(v))
    ensures Back(ValueAt(data, TAG_OBJECT, pos, fields), v, pos + |EncodeValue(v)|)
    decreases v, 1, 0
  {
    var keys := KeyList(v.members.Keys);
    KeyListHas(v.members.Keys);
    var body := EncodeMembers(v, keys);
    assert EncodeValue(v) == U32Bytes(0) + body;
    AtSplit(data, pos, U32Bytes(0), body);
    MembersRoundTrip(data, pos + 4, v, keys, map[], fields + 1);
    PickAll(v.members, keys);
    ObjectValueAt(data, pos, fields);
  }

  /** An array reads back: the ignored header, then its elements. */
  lemma {:induction false} ArrayRoundTrip(data: seq<byte>, pos: nat, v: FieldValue, fields: nat)
    requires v.Array? && Encodable(v) && At(data, pos, EncodeValue(v))
    ensures Back(ValueAt(data, TAG_ARRAY, pos, fields), v, pos + |EncodeValue(v)|)
    decreases v, 1, 0
  {
    var body := EncodeElements(v, 0);
    assert EncodeValue(v) == U32Bytes(0) + body;
    AtSplit(data, pos, U32Bytes(0), body);
    ElementsRoundTrip(data, pos + 4, v, 0, [], fields + 1);
    assert [] + v.elements[0..] == v.elements;
    ArrayValueAt(data, pos, fields);
  }

  /** The `Object` arm of `get_value_from`: a header, then the member loop. */
  lemma ObjectValueAt(data: seq<byte>, pos: nat, fields: nat)
    requires pos + 4 <= |data| && MembersAt(data, pos + 4, map[], fields + 1).Ok?
    ensures var r := MembersAt(data, pos + 4, map[], fields + 1).value;
      ValueAt(data, TAG_OBJECT, pos, fields) == Ok(Step(Object(r.value), r.next, r.fields))
  {
    assert U32At(data, pos).Ok?;
  }

  /** The `Array` arm of `get_value_from`: a header, then the element loop. */
  lemma ArrayValueAt(data: seq<byte>, pos: nat, fields: nat)
    requires pos + 4 <= |data| && ElementsAt(data, pos + 4, [], fields + 1).Ok?
    ensures var r := ElementsAt(data, pos + 4, [], fields + 1).value;
      ValueAt(data, TAG_ARRAY, pos, fields) == Ok(Step(Array(r.value), r.next, r.fields))
  {
    assert U32At(data, pos).Ok?;
  }

  /** The members of `m` named in `keys`. */
  function Pick(m: map<string, FieldValue>, keys: seq<string>): (r: map<string, FieldValue>)
    requires forall k :: k in keys ==> k in m
    ensures r.Keys <= m.Keys
  {
    map k | k in keys :: m[k]
  }

  /** Storing the first named member and then the rest is storing them all. */
  lemma PickFirst(m: map<string, FieldValue>, keys: seq<string>, acc: map<string, FieldValue>)
    requires keys != [] && forall k :: k in keys ==> k in m
    ensures acc[keys[0] := m[keys[0]]] + Pick(m, keys[1..]) == acc + Pick(m, keys)
  {
    assert forall k :: k in keys <==> k == keys[0] || k in keys[1..];
  }

  /** Naming every member picks the whole map. */
  lemma PickAll(m: map<string, FieldValue>, keys: seq<string>)
    requires forall k :: k in keys <==> k in m
    ensures map[] + Pick(m, keys) == m
  {
  }

  /** One field the encoder writes is one `get_field` that reads it back. */
  lemma {:induction false} FieldRoundTrip(data: seq<byte>, pos: nat, name: string, v: FieldValue, fields: nat)
    requires FieldLaid(data, pos, name, v)
    ensures Back(FieldAt(data, pos, fields), (TagOf(v), name, v), pos + |EncodeField(name, v)|)
    decreases v, 3, 0
  {
    FieldFrom(data, pos, name, v);
    ValueRoundTrip(data, pos + 2 + |name|, v, fields);
    FieldAtOf(data, pos, fields, TagOf(v), name, pos + 2 + |name|, v, pos + |EncodeField(name, v)|);
  }

  /** An encoded field starts with the tag of its value and its name, which
      reads back; its payload follows. */
  lemma FieldFrom(data: seq<byte>, pos: nat, name: string, v: FieldValue)
    requires FieldLaid(data, pos, name, v)
    ensures !v.Unknown? && pos < |data| && data[pos] == TagOf(v)
    ensures NameAt(data, pos + 1) == Read(name, pos + 2 + |name|)
    ensures ValueLaid(data, pos + 2 + |name|, v) && pos + 2 + |name| <= |data|
    ensures |EncodeField(name, v)| == 2 + |name| + |EncodeValue(v)|
  {
    FieldSplit(data, pos, name, v);
    NameRoundTrip(data, pos + 1, name);
  }

  /** Where the tag, the name and the payload of an encoded field lie. */
  lemma FieldSplit(data: seq<byte>, pos: nat, name: string, v: FieldValue)
    requires NameOk(name) && Encodable(v) && At(data, pos, EncodeField(name, v))
    ensures pos < |data| && data[pos] == TagOf(v)
    ensures At(data, pos + 1, NameBytes(name) + [0])
    ensures At(data, pos + 2 + |name|, EncodeValue(v))
    ensures |EncodeField(name, v)| == 2 + |name| + |EncodeValue(v)|
  {
    var nb := NameBytes(name) + [0];
    AtSplit(data, pos, [TagOf(v)], nb + EncodeValue(v));
    AtSplit(data, pos + 1, nb, EncodeValue(v));
    AtFirst(data, pos, [TagOf(v)]);
  }

  /** `get_field` is its three reads in turn. */
  lemma FieldAtOf(data: seq<byte>, pos: nat, fields: nat, tag: byte, name: string, at: nat, x: FieldValue, next: nat)
    requires pos < |data| && data[pos] == tag && NameAt(data, pos + 1) == Read(name, at)
    requires at <= |data| && Back(ValueAt(data, tag, at, fields), x, next)
    ensures Back(FieldAt(data, pos, fields), (tag, name, x), next)
  {
    assert U8At(data, pos) == Ok(Read(tag, pos + 1));
  }

  /** A field read back with a recognised tag is one turn of the loop of
      `read_object`. */
  lemma MembersNext(data: seq<byte>, pos: nat, fields: nat, tag: byte, name: string, x: FieldValue, next: nat,
                    acc: map<string, FieldValue>)
    requires pos <= |data| && !x.Unknown? && Back(FieldAt(data, pos, fields), (tag, name, x), next)
    ensures MembersAt(data, pos, acc, fields)
            == MembersAt(data, next, acc[name := x], FieldAt(data, pos, fields).value.fields)
  {
    assert data[pos] != TAG_END;
    WireFrames.MembersStep(data, pos, acc, fields);
  }

  /** A field read back with a recognised tag is one turn of the loop of
      `read_array`. */
  lemma ElementsNext(data: seq<byte>, pos: nat, fields: nat, tag: byte, name: string, x: FieldValue, next: nat,
                     acc: seq<FieldValue>)
    requires pos <= |data| && !x.Unknown? && Back(FieldAt(data, pos, fields), (tag, name, x), next)
    ensures ElementsAt(data, pos, acc, fields)
            == ElementsAt(data, next, acc + [x], FieldAt(data, pos, fields).value.fields)
  {
    assert data[pos] != TAG_END;
    WireFrames.ElementsStep(data, pos, acc, fields);
  }

  /** The `0x00` tag ends either loop, which returns what it has read so far. */
  lemma LoopEnd(data: seq<byte>, pos: nat, fields: nat, members: map<string, FieldValue>, elements: seq<FieldValue>)
    requires At(data, pos, [TAG_END])
    ensures MembersAt(data, pos, members, fields) == Ok(Step(members, pos + 1, fields))
    ensures ElementsAt(data, pos, elements, fields) == Ok(Step(elements, pos + 1, fields))
  {
    AtFirst(data, pos, [TAG_END]);
  }

  /** Appending the element at `i` and then the elements after it appends the
      elements from `i` on. */
  lemma Rest(acc: seq<FieldValue>, s: seq<FieldValue>, i: nat)
    requires i <= |s|
    ensures i == |s| ==> acc + s[i..] == acc
    ensures i < |s| ==> acc + [s[i]] + s[i + 1..] == acc + s[i..]
  {
    if i < |s| {
      assert s[i..] == [s[i]] + s[i + 1..];
    }
  }

  /** An encoded member list that is not empty starts with a whole field: the
      first name `k` and its value `x`. */
  lemma MembersSplit(data: seq<byte>, pos: nat, v: FieldValue, keys: seq<string>) returns (k: string, x: FieldValue)
    requires v.Object? && Encodable(v) && keys != [] && (forall k :: k in keys ==> k in v.members)
    requires At(data, pos, EncodeMembers(v, keys))
    ensures k == keys[0] && k in v.members && x == v.members[k]
    ensures FieldLaid(data, pos, k, x)
    ensures At(data, pos + |EncodeField(k, x)|, EncodeMembers(v, keys[1..]))
    ensures |EncodeMembers(v, keys)| == |EncodeField(k, x)| + |EncodeMembers(v, keys[1..])|
  {
    k := keys[0];
    x := v.members[k];
    AtSplit(data, pos, EncodeField(k, x), EncodeMembers(v, keys[1..]));
  }

  /** An encoded element list that is not empty starts with a whole field. */
  lemma ElementsSplit(data: seq<byte>, pos: nat, v: FieldValue, i: nat)
    requires v.Array? && Encodable(v) && i < |v.elements|
    requires At(data, pos, EncodeElements(v, i))
    ensures var field := EncodeField("", v.elements[i]);
      && FieldLaid(data, pos, "", v.elements[i])
      && At(data, pos + |field|, EncodeElements(v, i + 1))
      && |EncodeElements(v, i)| == |field| + |EncodeElements(v, i + 1)|
  {
    AtSplit(data, pos, EncodeField("", v.elements[i]), EncodeElements(v, i + 1));
  }

  /** One turn of the `read_object` loop over an encoded member: the field is
      read back and the loop goes on at `next` with `f` fields counted. */
  lemma MembersTurn(data: seq<byte>, pos: nat, v: FieldValue, keys: seq<string>,
                    acc: map<string, FieldValue>, fields: nat) returns (next: nat, f: nat)
    requires v.Object? && Encodable(v) && keys != [] && (forall k :: k in keys ==> k in v.members)
    requires At(data, pos, EncodeMembers(v, keys))
    ensures At(data, next, EncodeMembers(v, keys[1..]))
    ensures pos + |EncodeMembers(v, keys)| == next + |EncodeMembers(v, keys[1..])|
    ensures MembersAt(data, pos, acc, fields) == MembersAt(data, next, acc[keys[0] := v.members[keys[0]]], f)
    decreases v, 0, |keys|, 0
  {
    var k, x := MembersSplit(data, pos, v, keys);
    next := pos + |EncodeField(k, x)|;
    FieldRoundTrip(data, pos, k, x, fields);
    f := FieldAt(data, pos, fields).value.fields;
    MembersNext(data, pos, fields, TagOf(x), k, x, next, acc);
  }

  /** One turn of the `read_array` loop over an encoded element. */
  lemma ElementsTurn(data: seq<byte>, pos: nat, v: FieldValue, i: nat, acc: seq<FieldValue>, fields: nat)
    returns (next: nat, f: nat)
    requires v.Array? && Encodable(v) && i < |v.elements|
    requires At(data, pos, EncodeElements(v, i))
    ensures At(data, next, EncodeElements(v, i + 1))
    ensures pos + |EncodeElements(v, i)| == next + |EncodeElements(v, i + 1)|
    ensures ElementsAt(data, pos, acc, fields) == ElementsAt(data, next, acc + [v.elements[i]], f)
    decreases v, 0, |v.elements| - i, 0
  {
    var x := v.elements[i];
    ElementsSplit(data, pos, v, i);
    next := pos + |EncodeField("", x)|;
    FieldRoundTrip(data, pos, "", x, fields);
    f := FieldAt(data, pos, fields).value.fields;
    ElementsNext(data, pos, fields, TagOf(x), "", x, next, acc);
  }

  /** The loop of `read_object` reads back the members named by `keys`, each
      stored under its name, and stops at the `0x00` after them. */
  lemma {:induction false} MembersRoundTrip(data: seq<byte>, pos: nat, v: FieldValue, keys: seq<string>,
                                            acc: map<string, FieldValue>, fields: nat)
    requires v.Object? && Encodable(v) && (forall k :: k in keys ==> k in v.members)
    requires At(data, pos, EncodeMembers(v, keys))
    ensures Back(MembersAt(data, pos, acc, fields), acc + Pick(v.members, keys), pos + |EncodeMembers(v, keys)|)
    decreases v, 0, |keys|, 1
  {
    if keys == [] {
      LoopEnd(data, pos, fields, acc, []);
      assert acc + Pick(v.members, keys) == acc;
    } else {
      var next, f := MembersTurn(data, pos, v, keys, acc, fields);
      MembersRoundTrip(data, next, v, keys[1..], acc[keys[0] := v.members[keys[0]]], f);
      PickFirst(v.members, keys, acc);
    }
  }

  /** The loop of `read_array` reads back the elements from index `i` on, in
      order, and stops at the `0x00` after them. */
  lemma {:induction false} ElementsRoundTrip(data: seq<byte>, pos: nat, v: FieldValue, i: nat,
                                             acc: seq<FieldValue>, fields: nat)
    requires v.Array? && Encodable(v) && i <= |v.elements|
    requires At(data, pos, EncodeElements(v, i))
    ensures Back(ElementsAt(data, pos, acc, fields), acc + v.elements[i..], pos + |EncodeElements(v, i)|)
    decreases v, 0, |v.elements| - i, 1
  {
    if i == |v.elements| {
      LoopEnd(data, pos, fields, map[], acc);
      Rest(acc, v.elements, i);
    } else {
      var next, f := ElementsTurn(data, pos, v, i, acc, fields);
      ElementsRoundTrip(data, next, v, i + 1, acc + [v.elements[i]], f);
      Rest(acc, v.elements, i);
    }
  }
}
