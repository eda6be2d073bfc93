/** Which bytes the readers of `WireFormat` depend on. Two facts: a reader at
    offset `pos` or later looks at nothing before `from` when `from <= pos`; and a
    read that succeeds on a buffer succeeds with the same result on any extension
    of it, provided each field name it reads has its NUL (a name that runs to the
    end of the buffer grows with the buffer). */
module WireFrames {
  import opened LittleEndian
  import opened Outcomes
  import opened FieldValues
  import opened WireFormat

  /** Two buffers of the same length that agree from offset `from` on. */
  predicate Agree(d1: seq<byte>, d2: seq<byte>, from: nat) {
    |d1| == |d2| && from <= |d1| && d1[from..] == d2[from..]
  }

  lemma BytesAtAgree(d1: seq<byte>, d2: seq<byte>, from: nat, pos: nat, n: nat)
    requires Agree(d1, d2, from) && from <= pos
    ensures BytesAt(d1, pos, n) == BytesAt(d2, pos, n)
  {
    if pos + n <= |d1| {
      assert d1[pos..pos + n] == d1[from..][pos - from..pos - from + n];
      assert d2[pos..pos + n] == d2[from..][pos - from..pos - from + n];
    }
  }

  lemma {:induction false} NulFromAgree(d1: seq<byte>, d2: seq<byte>, from: nat, pos: nat)
    requires Agree(d1, d2, from) && from <= pos <= |d1|
    ensures NulFrom(d1, pos) == NulFrom(d2, pos)
    decreases |d1| - pos
  {
    if pos < |d1| {
      assert d1[pos] == d1[from..][pos - from];
      assert d2[pos] == d2[from..][pos - from];
      if d1[pos] != 0 {
        NulFromAgree(d1, d2, from, pos + 1);
      }
    }
  }

  lemma FixedAgree(d1: seq<byte>, d2: seq<byte>, from: nat, pos: nat)
    requires Agree(d1, d2, from) && from <= pos
    ensures U8At(d1, pos) == U8At(d2, pos) && BoolAt(d1, pos) == BoolAt(d2, pos)
    ensures U32At(d1, pos) == U32At(d2, pos) && I32At(d1, pos) == I32At(d2, pos)
    ensures I64At(d1, pos) == I64At(d2, pos) && DoubleAt(d1, pos) == DoubleAt(d2, pos)
  {
    BytesAtAgree(d1, d2, from, pos, 1);
    BytesAtAgree(d1, d2, from, pos, 4);
    BytesAtAgree(d1, d2, from, pos, 8);
  }

  lemma StringAgree(d1: seq<byte>, d2: seq<byte>, from: nat, pos: nat)
    requires Agree(d1, d2, from) && from <= pos
    ensures StringAt(d1, pos) == StringAt(d2, pos)
  {
    BytesAtAgree(d1, d2, from, pos, 4);
    if pos + 4 <= |d1| {
      BytesAtAgree(d1, d2, from, pos + 4, U32(d1[pos..pos + 4]));
    }
  }

  lemma BinaryAgree(d1: seq<byte>, d2: seq<byte>, from: nat, pos: nat)
    requires Agree(d1, d2, from) && from <= pos
    ensures BinaryAt(d1, pos) == BinaryAt(d2, pos)
  {
    BytesAtAgree(d1, d2, from, pos, 4);
    if pos + 4 <= |d1| {
      BytesAtAgree(d1, d2, from, pos + 4, U32(d1[pos..pos + 4]) + 1);
    }
  }

  lemma NameAgree(d1: seq<byte>, d2: seq<byte>, from: nat, pos: nat)
    requires Agree(d1, d2, from) && from <= pos <= |d1|
    ensures NameAt(d1, pos) == NameAt(d2, pos)
  {
    NulFromAgree(d1, d2, from, pos);
    BytesAtAgree(d1, d2, from, pos, NulFrom(d1, pos) - pos);
  }

  lemma {:induction false} ValueAtAgree(d1: seq<byte>, d2: seq<byte>, from: nat, tag: byte, pos: nat, fields: nat)
    requires Agree(d1, d2, from) && from <= pos <= |d1|
    ensures ValueAt(d1, tag, pos, fields) == ValueAt(d2, tag, pos, fields)
    decreases |d1| - pos, 1
  {
    if tag == TAG_OBJECT {
      ObjectAtAgree(d1, d2, from, pos, fields + 1);
    } else if tag == TAG_ARRAY {
      ArrayAtAgree(d1, d2, from, pos, fields + 1);
    } else {
      ScalarAgree(d1, d2, from, tag, pos);
    }
  }

  lemma ScalarAgree(d1: seq<byte>, d2: seq<byte>, from: nat, tag: byte, pos: nat)
    requires Agree(d1, d2, from) && from <= pos <= |d1| && tag != TAG_OBJECT && tag != TAG_ARRAY
    ensures ScalarAt(d1, tag, pos) == ScalarAt(d2, tag, pos)
  {
    if tag == TAG_STRING {
      StringAgree(d1, d2, from, pos);
    } else if tag == TAG_BINARY {
      BinaryAgree(d1, d2, from, pos);
    } else {
      FixedAgree(d1, d2, from, pos);
    }
  }

  lemma {:induction false} ObjectAtAgree(d1: seq<byte>, d2: seq<byte>, from: nat, pos: nat, fields: nat)
    requires Agree(d1, d2, from) && from <= pos <= |d1|
    ensures ObjectAt(d1, pos, fields) == ObjectAt(d2, pos, fields)
    decreases |d1| - pos, 0
  {
    FixedAgree(d1, d2, from, pos);
    if pos + 4 <= |d1| {
      MembersAtAgree(d1, d2, from, pos + 4, map[], fields);
    }
  }

  lemma {:induction false} ArrayAtAgree(d1: seq<byte>, d2: seq<byte>, from: nat, pos: nat, fields: nat)
    requires Agree(d1, d2, from) && from <= pos <= |d1|
    ensures ArrayAt(d1, pos, fields) == ArrayAt(d2, pos, fields)
    decreases |d1| - pos, 0
  {
    FixedAgree(d1, d2, from, pos);
    if pos + 4 <= |d1| {
      ElementsAtAgree(d1, d2, from, pos + 4, [], fields);
    }
  }

  lemma {:induction false} MembersAtAgree(d1: seq<byte>, d2: seq<byte>, from: nat, pos: nat,
                                          acc: map<string, FieldValue>, fields: nat)
    requires Agree(d1, d2, from) && from <= pos <= |d1|
    ensures MembersAt(d1, pos, acc, fields) == MembersAt(d2, pos, acc, fields)
    decreases |d1| - pos, 3
  {
    FixedAgree(d1, d2, from, pos);
    if pos == |d1| || d1[pos] == TAG_END {
      return;
    }
    assert d2[pos] == d1[pos];
    FieldAtAgree(d1, d2, from, pos, fields);
    MembersStep(d1, pos, acc, fields);
    MembersStep(d2, pos, acc, fields);
    var f := FieldAt(d1, pos, fields);
    if f.Ok? && !f.value.value.2.Unknown? {
      MembersAtAgree(d1, d2, from, f.value.next, acc[f.value.value.1 := f.value.value.2], f.value.fields);
    }
  }

  lemma {:induction false} ElementsAtAgree(d1: seq<byte>, d2: seq<byte>, from: nat, pos: nat,
                                           acc: seq<FieldValue>, fields: nat)
    requires Agree(d1, d2, from) && from <= pos <= |d1|
    ensures ElementsAt(d1, pos, acc, fields) == ElementsAt(d2, pos, acc, fields)
    decreases |d1| - pos, 3
  {
    FixedAgree(d1, d2, from, pos);
    if pos == |d1| || d1[pos] == TAG_END {
      return;
    }
    assert d2[pos] == d1[pos];
    FieldAtAgree(d1, d2, from, pos, fields);
    ElementsStep(d1, pos, acc, fields);
    ElementsStep(d2, pos, acc, fields);
    var f := FieldAt(d1, pos, fields);
    if f.Ok? && !f.value.value.2.Unknown? {
      ElementsAtAgree(d1, d2, from, f.value.next, acc + [f.value.value.2], f.value.fields);
    }
  }

  /** One turn of the `read_object` loop is one `get_field`. */
  lemma MembersStep(data: seq<byte>, pos: nat, acc: map<string, FieldValue>, fields: nat)
    requires pos < |data| && data[pos] != TAG_END
    ensures var f := FieldAt(data, pos, fields);
      && (f.Err? ==> MembersAt(data, pos, acc, fields) == Err(f.error))
      && (f.Ok? && f.value.value.2.Unknown? ==> MembersAt(data, pos, acc, fields) == Err(UnknownField(data[pos])))
      && (f.Ok? && !f.value.value.2.Unknown? ==>
            MembersAt(data, pos, acc, fields)
            == MembersAt(data, f.value.next, acc[f.value.value.1 := f.value.value.2], f.value.fields))
  {
  }

  /** One turn of the `read_array` loop is one `get_field`. */
  lemma ElementsStep(data: seq<byte>, pos: nat, acc: seq<FieldValue>, fields: nat)
    requires pos < |data| && data[pos] != TAG_END
    ensures var f := FieldAt(data, pos, fields);
      && (f.Err? ==> ElementsAt(data, pos, acc, fields) == Err(f.error))
      && (f.Ok? && f.value.value.2.Unknown? ==> ElementsAt(data, pos, acc, fields) == Err(UnknownField(data[pos])))
      && (f.Ok? && !f.value.value.2.Unknown? ==>
            ElementsAt(data, pos, acc, fields)
            == ElementsAt(data, f.value.next, acc + [f.value.value.2], f.value.fields))
  {
  }

  /** `get_field` at or after `from` gives the same result on both buffers. */
  lemma {:induction false} FieldAtAgree(d1: seq<byte>, d2: seq<byte>, from: nat, pos: nat, fields: nat)
    requires Agree(d1, d2, from) && from <= pos <= |d1|
    ensures FieldAt(d1, pos, fields) == FieldAt(d2, pos, fields)
    decreases |d1| - pos, 2
  {
    FixedAgree(d1, d2, from, pos);
    if pos < |d1| {
      NameAgree(d1, d2, from, pos + 1);
      ValueAtAgree(d1, d2, from, d1[pos], NameAt(d1, pos + 1).next, fields);
    }
  }

  lemma BytesAtExt(d: seq<byte>, e: seq<byte>, pos: nat, n: nat)
    requires BytesAt(d, pos, n).Ok?
    ensures BytesAt(d + e, pos, n) == BytesAt(d, pos, n)
  {
    assert (d + e)[pos..pos + n] == d[pos..pos + n];
  }

  lemma {:induction false} NulFromExt(d: seq<byte>, e: seq<byte>, pos: nat)
    requires pos <= |d| && NulFrom(d, pos) < |d|
    ensures NulFrom(d + e, pos) == NulFrom(d, pos)
    decreases |d| - pos
  {
    if d[pos] != 0 {
      NulFromExt(d, e, pos + 1);
    }
  }

  lemma FixedExt(d: seq<byte>, e: seq<byte>, pos: nat)
    ensures U8At(d, pos).Ok? ==> U8At(d + e, pos) == U8At(d, pos)
    ensures BoolAt(d, pos).Ok? ==> BoolAt(d + e, pos) == BoolAt(d, pos)
    ensures U32At(d, pos).Ok? ==> U32At(d + e, pos) == U32At(d, pos)
    ensures I32At(d, pos).Ok? ==> I32At(d + e, pos) == I32At(d, pos)
    ensures I64At(d, pos).Ok? ==> I64At(d + e, pos) == I64At(d, pos)
    ensures DoubleAt(d, pos).Ok? ==> DoubleAt(d + e, pos) == DoubleAt(d, pos)
  {
    if pos + 1 <= |d| {
      BytesAtExt(d, e, pos, 1);
    }
    if pos + 4 <= |d| {
      BytesAtExt(d, e, pos, 4);
    }
    if pos + 8 <= |d| {
      BytesAtExt(d, e, pos, 8);
    }
  }

  lemma StringExt(d: seq<byte>, e: seq<byte>, pos: nat)
    requires StringAt(d, pos).Ok?
    ensures StringAt(d + e, pos) == StringAt(d, pos)
  {
    BytesAtExt(d, e, pos, 4);
    BytesAtExt(d, e, pos + 4, Length(d, pos));
  }

  lemma BinaryExt(d: seq<byte>, e: seq<byte>, pos: nat)
    requires BinaryAt(d, pos).Ok?
    ensures BinaryAt(d + e, pos) == BinaryAt(d, pos)
  {
    BytesAtExt(d, e, pos, 4);
    BytesAtExt(d, e, pos + 4, Length(d, pos) + 1);
  }

  /** A field name whose NUL lies inside `d` reads the same on `d + e`. */
  lemma NameExt(d: seq<byte>, e: seq<byte>, pos: nat)
    requires pos <= |d| && NulFrom(d, pos) < |d|
    ensures NameAt(d + e, pos) == NameAt(d, pos)
  {
    NulFromExt(d, e, pos);
    BytesAtExt(d, e, pos, NulFrom(d, pos) - pos);
  }

  lemma {:induction false} ValueAtExt(d: seq<byte>, e: seq<byte>, tag: byte, pos: nat, fields: nat)
    requires pos <= |d| && ValueAt(d, tag, pos, fields).Ok?
    ensures ValueAt(d + e, tag, pos, fields) == ValueAt(d, tag, pos, fields)
    decreases |d| - pos, 1
  {
    if tag == TAG_OBJECT {
      ObjectAtExt(d, e, pos, fields + 1);
    } else if tag == TAG_ARRAY {
      ArrayAtExt(d, e, pos, fields + 1);
    } else {
      ScalarExt(d, e, tag, pos);
    }
  }

  lemma ScalarExt(d: seq<byte>, e: seq<byte>, tag: byte, pos: nat)
    requires pos <= |d| && tag != TAG_OBJECT && tag != TAG_ARRAY && ScalarAt(d, tag, pos).Ok?
    ensures ScalarAt(d + e, tag, pos) == ScalarAt(d, tag, pos)
  {
    if tag == TAG_STRING {
      StringExt(d, e, pos);
    } else if tag == TAG_BINARY {
      BinaryExt(d, e, pos);
    } else {
      FixedExt(d, e, pos);
    }
  }

  lemma {:induction false} ObjectAtExt(d: seq<byte>, e: seq<byte>, pos: nat, fields: nat)
    requires pos <= |d| && ObjectAt(d, pos, fields).Ok?
    ensures ObjectAt(d + e, pos, fields) == ObjectAt(d, pos, fields)
    decreases |d| - pos, 0
  {
    FixedExt(d, e, pos);
    MembersAtExt(d, e, pos + 4, map[], fields);
  }

  lemma {:induction false} ArrayAtExt(d: seq<byte>, e: seq<byte>, pos: nat, fields: nat)
    requires pos <= |d| && ArrayAt(d, pos, fields).Ok?
    ensures ArrayAt(d + e, pos, fields) == ArrayAt(d, pos, fields)
    decreases |d| - pos, 0
  {
    FixedExt(d, e, pos);
    ElementsAtExt(d, e, pos + 4, [], fields);
  }

  lemma {:induction false} MembersAtExt(d: seq<byte>, e: seq<byte>, pos: nat,
                                        acc: map<string, FieldValue>, fields: nat)
    requires pos <= |d| && MembersAt(d, pos, acc, fields).Ok?
    ensures MembersAt(d + e, pos, acc, fields) == MembersAt(d, pos, acc, fields)
    decreases |d| - pos, 0
  {
    FixedExt(d, e, pos);
    if d[pos] != TAG_END {
      var name := NameAt(d, pos + 1);
      var field := ValueAt(d, d[pos], name.next, fields).value;
      assert field.next < |d|;
      NameExt(d, e, pos + 1);
      ValueAtExt(d, e, d[pos], name.next, fields);
      MembersAtExt(d, e, field.next, acc[name.value := field.value], field.fields);
    }
  }

  lemma {:induction false} ElementsAtExt(d: seq<byte>, e: seq<byte>, pos: nat,
                                         acc: seq<FieldValue>, fields: nat)
    requires pos <= |d| && ElementsAt(d, pos, acc, fields).Ok?
    ensures ElementsAt(d + e, pos, acc, fields) == ElementsAt(d, pos, acc, fields)
    decreases |d| - pos, 0
  {
    FixedExt(d, e, pos);
    if d[pos] != TAG_END {
      var name := NameAt(d, pos + 1);
      var field := ValueAt(d, d[pos], name.next, fields).value;
      assert field.next < |d|;
      NameExt(d, e, pos + 1);
      ValueAtExt(d, e, d[pos], name.next, fields);
      ElementsAtExt(d, e, field.next, acc + [field.value], field.fields);
    }
  }

  /** A `get_field` that succeeds and ends inside `d` reads the same on `d + e`. */
  lemma FieldAtExt(d: seq<byte>, e: seq<byte>, pos: nat, fields: nat)
    requires pos <= |d| && FieldAt(d, pos, fields).Ok? && FieldAt(d, pos, fields).value.next < |d|
    ensures FieldAt(d + e, pos, fields) == FieldAt(d, pos, fields)
  {
    FixedExt(d, e, pos);
    var name := NameAt(d, pos + 1);
    NameExt(d, e, pos + 1);
    ValueAtExt(d, e, d[pos], name.next, fields);
  }

  /** The u32 header of an object or an array is read and ignored: buffers that
      differ only in those four bytes decode alike. */
  lemma HeaderIgnored(d1: seq<byte>, d2: seq<byte>, pos: nat, fields: nat)
    requires |d1| == |d2| && pos + 4 <= |d1| && d1[pos + 4..] == d2[pos + 4..]
    ensures ObjectAt(d1, pos, fields) == ObjectAt(d2, pos, fields)
    ensures ArrayAt(d1, pos, fields) == ArrayAt(d2, pos, fields)
  {
    MembersAtAgree(d1, d2, pos + 4, pos + 4, map[], fields);
    ElementsAtAgree(d1, d2, pos + 4, pos + 4, [], fields);
  }
}
