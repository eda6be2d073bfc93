/** What `get_value_from`, `read_array` and `read_object` promise about the values
    they return and the `fields_decoded` counter they advance. */
module WireFacts {
  import opened LittleEndian
  import opened Outcomes
  import opened FieldValues
  import opened WireFormat

  /** The tag table: every known tag reaches the reader of its own variant, `Null`
      and unrecognised tags read no payload, and every call counts one field, a
      scalar exactly one. */
  lemma Dispatch(data: seq<byte>, tag: byte, pos: nat, fields: nat)
    requires pos <= |data|
    ensures var r := ValueAt(data, tag, pos, fields);
      && (!KnownTag(tag) ==> r == Ok(Step(Unknown, pos, fields + 1)))
      && (r.Ok? ==> (r.value.value.Unknown? <==> !KnownTag(tag)))
      && (tag == TAG_NULL ==> r == Ok(Step(Null, pos, fields + 1)))
      && (r.Ok? && KnownTag(tag) ==> TagOf(r.value.value) == tag)
      && (r.Ok? && tag != TAG_OBJECT && tag != TAG_ARRAY ==> r.value.fields == fields + 1)
      && (tag == TAG_BOOL ==> (r.Ok? <==> pos < |data|)
                              && (r.Ok? ==> r.value.value == Bool(data[pos] == 1) && r.value.next == pos + 1))
      && (tag == TAG_INT ==> (r.Ok? <==> pos + 4 <= |data|) && (r.Ok? ==> r.value.next == pos + 4))
      && (tag == TAG_INT64 || tag == TAG_DOUBLE ==> (r.Ok? <==> pos + 8 <= |data|) && (r.Ok? ==> r.value.next == pos + 8))
  {
  }

  /** A value read from a known tag holds no `Unknown` anywhere, and reading it
      counted at least one field. */
  lemma {:induction false} ValueFacts(data: seq<byte>, tag: byte, pos: nat, fields: nat)
    requires pos <= |data|
    ensures var r := ValueAt(data, tag, pos, fields);
      r.Ok? ==> r.value.fields > fields && (KnownTag(tag) ==> Decoded(r.value.value))
    decreases |data| - pos, 1
  {
    var r := ValueAt(data, tag, pos, fields);
    if r.Ok? {
      if tag == TAG_OBJECT {
        var m := ObjectAt(data, pos, fields + 1);
        MembersFacts(data, pos + 4, map[], fields + 1);
        assert r.value.value == Object(m.value.value);
      } else if tag == TAG_ARRAY {
        var a := ArrayAt(data, pos, fields + 1);
        ElementsFacts(data, pos + 4, [], fields + 1);
        assert r.value.value == Array(a.value.value);
      }
    }
  }

  /** The loop of `read_array` keeps the elements read so far, in order, adds
      none with an `Unknown` in it, and never lowers the count. */
  lemma {:induction false} ElementsFacts(data: seq<byte>, pos: nat, acc: seq<FieldValue>, fields: nat)
    requires pos <= |data|
    ensures var r := ElementsAt(data, pos, acc, fields);
      r.Ok? ==> r.value.fields >= fields && acc <= r.value.value
                && (DecodedAll(acc) ==> DecodedAll(r.value.value))
    decreases |data| - pos, 0
  {
    if pos == |data| || data[pos] == TAG_END {
      return;
    }
    var name := NameAt(data, pos + 1);
    var field := ValueAt(data, data[pos], name.next, fields);
    if field.Err? || field.value.value.Unknown? {
      return;
    }
    ValueFacts(data, data[pos], name.next, fields);
    var acc' := acc + [field.value.value];
    ElementsFacts(data, field.value.next, acc', field.value.fields);
    assert ElementsAt(data, pos, acc, fields) == ElementsAt(data, field.value.next, acc', field.value.fields);
  }

  /** The loop of `read_object` keeps every name read so far, adds no value with
      an `Unknown` in it, and never lowers the count. */
  lemma {:induction false} MembersFacts(data: seq<byte>, pos: nat, acc: map<string, FieldValue>, fields: nat)
    requires pos <= |data|
    ensures var r := MembersAt(data, pos, acc, fields);
      r.Ok? ==> r.value.fields >= fields && acc.Keys <= r.value.value.Keys
                && (DecodedIn(acc) ==> DecodedIn(r.value.value))
    decreases |data| - pos, 0
  {
    if pos == |data| || data[pos] == TAG_END {
      return;
    }
    var name := NameAt(data, pos + 1);
    var field := ValueAt(data, data[pos], name.next, fields);
    if field.Err? || field.value.value.Unknown? {
      return;
    }
    ValueFacts(data, data[pos], name.next, fields);
    var acc' := acc[name.value := field.value.value];
    MembersFacts(data, field.value.next, acc', field.value.fields);
    assert MembersAt(data, pos, acc, fields) == MembersAt(data, field.value.next, acc', field.value.fields);
  }

  /** Inside an object or an array, a field with an unrecognised tag (other than
      the `0x00` terminator) aborts the whole decode, whatever came before. */
  lemma UnknownAborts(data: seq<byte>, pos: nat, elements: seq<FieldValue>,
                      members: map<string, FieldValue>, fields: nat)
    requires pos < |data| && data[pos] != TAG_END && !KnownTag(data[pos])
    ensures ElementsAt(data, pos, elements, fields) == Err(UnknownField(data[pos]))
    ensures MembersAt(data, pos, members, fields) == Err(UnknownField(data[pos]))
  {
    Dispatch(data, data[pos], NameAt(data, pos + 1).next, fields);
  }
}
