/** `decode_contents` of src-tauri/src/decoder.rs: read the leading u32 (which is
    only logged), then decode top-level fields and store each into one JSON object
    until a field with an unrecognised tag, whose name has already been read. */
module Contents {
  import opened LittleEndian
  import opened Outcomes
  import opened FieldValues
  import opened WireFormat
  import opened Json
  import opened Decoding
  import opened WireFacts
  import opened WireFrames

  /** Where the top-level loop ended: the document built, the offset `at` of the
      tag of the field that ended it, the cursor just past that field (the one
      compared with the declared length before logging) and the final count. */
  datatype Stop = Stop(doc: JValue, at: nat, cursor: nat, fields: nat)

  /** The top-level loop from `pos` on, with the fields counted so far and the
      document built so far. It ends only on a field whose tag is unrecognised:
      `get_field` at `at` reads that tag and the name after it, nothing more, and
      counts the field. */
  function TopLevelAt(data: seq<byte>, pos: nat, fields: nat, doc: JValue): (r: Result<Stop>)
    requires pos <= |data| && doc.JObject?
    ensures r.Ok? ==> r.value.doc.JObject?
    ensures r.Ok? ==> pos <= r.value.at < |data| && !KnownTag(data[r.value.at]) && fields < r.value.fields
    decreases |data| - pos
  {
    var field :- FieldAt(data, pos, fields);
    var (tag, name, value) := field.value;
    if value.Unknown? then
      Dispatch(data, tag, NameAt(data, pos + 1).next, fields);
      Ok(Stop(doc, pos, field.next, field.fields))
    else
      ValueFacts(data, tag, NameAt(data, pos + 1).next, fields);
      TopLevelAt(data, field.next, field.fields, Place(doc, Name(name), value))
  }

  /** `get_field` at `s.at`, with the count one short of `s.fields`, returns
      `Unknown` with the name after the tag and leaves the cursor at `s.cursor`. */
  predicate EndsOn(data: seq<byte>, s: Stop) {
    && s.at < |data| && 0 < s.fields
    && FieldAt(data, s.at, s.fields - 1)
       == Ok(Step((data[s.at], NameAt(data, s.at + 1).value, Unknown), s.cursor, s.fields))
  }

  /** The loop ends on the field at `at`: `get_field` there returns `Unknown`
      with the name after the tag, stops the cursor just past that name and brings
      the count to its final value. */
  lemma {:induction false} TopLevelStops(data: seq<byte>, pos: nat, fields: nat, doc: JValue)
    requires pos <= |data| && doc.JObject? && TopLevelAt(data, pos, fields, doc).Ok?
    ensures EndsOn(data, TopLevelAt(data, pos, fields, doc).value)
    decreases |data| - pos
  {
    var f := FieldAt(data, pos, fields).value;
    UnknownTag(data, pos, fields);
    if !KnownTag(data[pos]) {
      UnknownStop(data, pos, fields, doc);
      Dispatch(data, data[pos], NameAt(data, pos + 1).next, fields);
    } else {
      var doc' := Place(doc, Name(f.value.1), f.value.2);
      FieldStep(data, pos, fields, doc);
      TopLevelStops(data, f.next, f.fields, doc');
      assert TopLevelAt(data, pos, fields, doc) == TopLevelAt(data, f.next, f.fields, doc');
    }
  }

  /** What `decode_contents` returns; `Err` stands for the panic it raises when
      the buffer ends too early or a nested value is malformed. */
  function DecodeSpec(contents: seq<byte>): (r: Result<JValue>)
    ensures |contents| < 4 ==> r == Err(OutOfBounds)
    ensures r.Ok? ==> r.value.JObject?
  {
    var length :- U32At(contents, 0);
    var stop :- TopLevelAt(contents, 4, 0, JObject(map[]));
    Ok(stop.doc)
  }

  /** `decode_contents`. */
  method DecodeContents(contents: seq<byte>) returns (r: Result<JValue>)
    ensures r == DecodeSpec(contents)
  {
    var data := JObject(map[]);
    var decoder := new Decoder(contents);
    var length :- decoder.ReadU32();
    while true
      invariant decoder.Valid() && decoder.data == contents && data.JObject?
      invariant U32At(contents, 0).Ok?
      invariant TopLevelAt(contents, 4, 0, JObject(map[])) == TopLevelAt(contents, decoder.cursor, decoder.fieldsDecoded, data)
      decreases |contents| - decoder.cursor
    {
      var field :- decoder.GetField();
      var (fieldType, fieldName, fieldValue) := field;
      if fieldValue.Unknown? {
        break;
      }
      data := BuildJson(data, Name(fieldName), fieldValue);
    }
    return Ok(data);
  }

  /** The leading u32 is read and never used: buffers that differ only in their
      first four bytes decode alike. */
  lemma DeclaredLengthIgnored(c1: seq<byte>, c2: seq<byte>)
    requires |c1| == |c2| && |c1| >= 4 && c1[4..] == c2[4..]
    ensures DecodeSpec(c1) == DecodeSpec(c2)
  {
    TopLevelAgree(c1, c2, 4, 4, 0, JObject(map[]));
  }

  lemma {:induction false} TopLevelAgree(d1: seq<byte>, d2: seq<byte>, from: nat, pos: nat, fields: nat, doc: JValue)
    requires Agree(d1, d2, from) && from <= pos <= |d1| && doc.JObject?
    ensures TopLevelAt(d1, pos, fields, doc) == TopLevelAt(d2, pos, fields, doc)
    decreases |d1| - pos
  {
    FieldAtAgree(d1, d2, from, pos, fields);
    var field := FieldAt(d1, pos, fields);
    if field.Ok? && !field.value.value.2.Unknown? {
      var (_, name, value) := field.value.value;
      TopLevelAgree(d1, d2, from, field.value.next, field.value.fields, Place(doc, Name(name), value));
    }
  }

  /** Decoding stops at the first unrecognised top-level tag: once a buffer
      decodes, appending bytes does not change the result. (They can still be
      read: a terminating field's name without its NUL runs on into them, which
      moves the final cursor; see `TopLevelExt` and `CursorMayMove`.) */
  lemma TrailingBytesIgnored(d: seq<byte>, e: seq<byte>)
    requires DecodeSpec(d).Ok?
    ensures DecodeSpec(d + e) == DecodeSpec(d)
  {
    FixedExt(d, e, 0);
    TopLevelExt(d, e, 4, 0, JObject(map[]));
  }

  /** `s` ends with the same document, at the same field and with the same count
      as `r` did on `d`, and at the same cursor when the terminating name has its
      NUL inside `d`. */
  predicate EndsAlike(d: seq<byte>, r: Stop, s: Result<Stop>) {
    && s.Ok? && s.value.doc == r.doc && s.value.at == r.at && s.value.fields == r.fields
    && (r.at < |d| && NulFrom(d, r.at + 1) < |d| ==> s.value == r)
  }

  /** A top-level loop that succeeds on `d` ends on `d + e` with the same document,
      at the same field and with the same count; the cursor is the same too
      unless the terminating name has no NUL inside `d`. */
  lemma {:induction false} TopLevelExt(d: seq<byte>, e: seq<byte>, pos: nat, fields: nat, doc: JValue)
    requires pos <= |d| && doc.JObject? && TopLevelAt(d, pos, fields, doc).Ok?
    ensures EndsAlike(d, TopLevelAt(d, pos, fields, doc).value, TopLevelAt(d + e, pos, fields, doc))
    decreases |d| - pos
  {
    var f := FieldAt(d, pos, fields).value;
    UnknownTag(d, pos, fields);
    if !KnownTag(d[pos]) {
      UnknownExt(d, e, pos, fields, doc);
    } else {
      var doc' := Place(doc, Name(f.value.1), f.value.2);
      FieldStep(d, pos, fields, doc);
      FieldAtExt(d, e, pos, fields);
      FieldStep(d + e, pos, fields, doc);
      TopLevelExt(d, e, f.next, f.fields, doc');
      assert TopLevelAt(d, pos, fields, doc) == TopLevelAt(d, f.next, f.fields, doc');
    }
  }

  /** The terminating field reads alike on `d + e`, up to a name that runs to the
      end of `d`. */
  lemma UnknownExt(d: seq<byte>, e: seq<byte>, pos: nat, fields: nat, doc: JValue)
    requires pos < |d| && !KnownTag(d[pos]) && doc.JObject?
    ensures EndsAlike(d, TopLevelAt(d, pos, fields, doc).value, TopLevelAt(d + e, pos, fields, doc))
  {
    assert (d + e)[pos] == d[pos];
    UnknownStop(d, pos, fields, doc);
    UnknownStop(d + e, pos, fields, doc);
    if NulFrom(d, pos + 1) < |d| {
      NameExt(d, e, pos + 1);
    }
  }

  /** `get_field` returns `Unknown` exactly for an unrecognised tag. */
  lemma UnknownTag(data: seq<byte>, pos: nat, fields: nat)
    requires pos <= |data| && FieldAt(data, pos, fields).Ok?
    ensures FieldAt(data, pos, fields).value.value.2.Unknown? <==> !KnownTag(data[pos])
  {
    Dispatch(data, data[pos], NameAt(data, pos + 1).next, fields);
  }

  /** A field with a recognised tag is stored, and the loop goes on after it. */
  lemma FieldStep(data: seq<byte>, pos: nat, fields: nat, doc: JValue)
    requires pos <= |data| && doc.JObject? && FieldAt(data, pos, fields).Ok?
    requires !FieldAt(data, pos, fields).value.value.2.Unknown?
    ensures var f := FieldAt(data, pos, fields).value;
      TopLevelAt(data, pos, fields, doc) == TopLevelAt(data, f.next, f.fields, Place(doc, Name(f.value.1), f.value.2))
  {
  }

  /** A field with an unrecognised tag ends the loop right there. */
  lemma UnknownStop(data: seq<byte>, pos: nat, fields: nat, doc: JValue)
    requires pos < |data| && !KnownTag(data[pos]) && doc.JObject?
    ensures TopLevelAt(data, pos, fields, doc) == Ok(Stop(doc, pos, NameAt(data, pos + 1).next, fields + 1))
  {
    Dispatch(data, data[pos], NameAt(data, pos + 1).next, fields);
  }

  /** The buffer `[0, 0, 0, 0, 0xFF]` decodes, ending on a field whose name runs
      to the end of the buffer; appending `"A\0"` leaves the document as it is but
      lengthens that name, so the final cursor moves from 5 to 7. */
  lemma CursorMayMove()
    ensures var d, e := [0, 0, 0, 0, 0xFF], [0x41, 0];
      && TopLevelAt(d, 4, 0, JObject(map[])) == Ok(Stop(JObject(map[]), 4, 5, 1))
      && TopLevelAt(d + e, 4, 0, JObject(map[])) == Ok(Stop(JObject(map[]), 4, 7, 1))
  {
    var d: seq<byte>, e: seq<byte> := [0, 0, 0, 0, 0xFF], [0x41, 0];
    assert NulFrom(d, 5) == 5;
    assert NulFrom(d + e, 5) == 6 by {
      assert (d + e)[5] == 0x41 && (d + e)[6] == 0;
    }
    Dispatch(d, 0xFF, 5, 0);
    Dispatch(d + e, 0xFF, 7, 0);
  }
}
