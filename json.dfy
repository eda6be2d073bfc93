/** The JSON side of src-tauri/src/decoder.rs: the `serde_json::Value` tree that
    `build_json` writes decoded fields into. `Project` says what one decoded value
    becomes; `BuildJson` is `build_json` itself, proved to store exactly that. */
module Json {
  import opened LittleEndian
  import opened Outcomes
  import opened FieldValues

  /** A JSON value. Objects are maps: `build_json` fills them from a `HashMap`,
      so no key order is promised. Integers of both widths are JSON numbers. */
  datatype JValue =
    | JNull
    | JBool(flag: bool)
    | JInt(number: int)
    | JDouble(bits: Bits64)
    | JString(text: string)
    | JArray(items: seq<JValue>)
    | JObject(members: map<string, JValue>)

  /** What `build_json` indexes with: a member name or an array slot. */
  datatype Key = Name(name: string) | Slot(index: nat)

  /** The IEEE 754 bit pattern is neither an infinity nor a NaN (the exponent
      field is not all ones). `json!` turns the other doubles into `null`. */
  predicate Finite(bits: Bits64) {
    bits / 0x10_0000_0000_0000 % 0x800 != 0x7FF
  }

  /** The placeholder an array slot keeps when its element produces nothing. */
  function Placeholder(j: Option<JValue>): (r: JValue) {
    if j.Some? then j.value else JInt(0)
  }

  /** The JSON a decoded value becomes, `None` when `build_json` writes nothing
      for it (`Null` and `Unknown`). An array gets one slot per element, the
      `0` placeholder staying where an element writes nothing; an object keeps
      the members that write something. */
  function Project(v: FieldValue): (r: Option<JValue>)
    ensures r.None? <==> v.Null? || v.Unknown?
    ensures v.Double? ==> r.Some? && (r.value == JNull <==> !Finite(v.bits))
    ensures v.Array? ==> r.Some? && r.value.JArray? && |r.value.items| == |v.elements|
    ensures v.Object? ==> r.Some? && r.value.JObject?
                          && r.value.members.Keys == set k | k in v.members && !v.members[k].Null? && !v.members[k].Unknown?
    decreases v
  {
    match v
    case Double(bits) => Some(if Finite(bits) then JDouble(bits) else JNull)
    case String(s) => Some(JString(s))
    case Object(m) => Some(JObject(map k | k in m && Project(m[k]).Some? :: Project(m[k]).value))
    case Array(s) => Some(JArray(seq(|s|, i requires 0 <= i < |s| => Placeholder(Project(s[i])))))
    case Bool(b) => Some(JBool(b))
    case Int(x) => Some(JInt(x as int))
    case Int64(x) => Some(JInt(x as int))
    case Binary(s) => Some(JString(s))
    case Unknown => None
    case Null => None
  }

  /** `data[index]` can be assigned: a name on an object (or on `null`, which
      `serde_json` turns into an empty object first), a slot inside an array. */
  predicate Indexable(doc: JValue, index: Key) {
    match index
    case Name(_) => doc.JObject? || doc.JNull?
    case Slot(i) => doc.JArray? && i < |doc.items|
  }

  /** `data[index] = v`. */
  function Set(doc: JValue, index: Key, v: JValue): (r: JValue)
    requires Indexable(doc, index)
    ensures Indexable(r, index)
    ensures index.Name? ==> r.JObject? && index.name in r.members && r.members[index.name] == v
                            && (forall k :: k != index.name ==> (k in r.members <==> doc.JObject? && k in doc.members))
                            && (forall k :: k != index.name && doc.JObject? && k in doc.members ==> r.members[k] == doc.members[k])
    ensures index.Slot? ==> r.JArray? && |r.items| == |doc.items| && r.items[index.index] == v
                            && forall j :: 0 <= j < |doc.items| && j != index.index ==> r.items[j] == doc.items[j]
  {
    match index
    case Name(k) => JObject((if doc.JObject? then doc.members else map[])[k := v])
    case Slot(i) => JArray(doc.items[i := v])
  }

  /** What `build_json(data, index, field)` leaves in `data`. */
  function Place(doc: JValue, index: Key, field: FieldValue): (r: JValue)
    requires Indexable(doc, index)
    ensures Indexable(r, index)
    ensures field.Null? || field.Unknown? ==> r == doc
    ensures index.Name? && doc.JObject? && !field.Null? && !field.Unknown? ==>
              r == JObject(doc.members[index.name := Project(field).value])
    ensures index.Slot? && !field.Null? && !field.Unknown? ==>
              r == JArray(doc.items[index.index := Project(field).value])
  {
    match Project(field)
    case None => doc
    case Some(j) => Set(doc, index, j)
  }

  /** The members of `Project(Object(m))` whose names are in `names`. */
  function Kept(m: map<string, FieldValue>, names: set<string>): (r: map<string, JValue>) {
    map k | k in names && k in m && Project(m[k]).Some? :: Project(m[k]).value
  }

  /** `build_json`: store the JSON for `field` at `index` in `doc`. */
  method BuildJson(doc: JValue, index: Key, field: FieldValue) returns (r: JValue)
    requires Indexable(doc, index)
    ensures r == Place(doc, index, field)
    decreases field, 1
  {
    match field {
      case Double(_) => r := Set(doc, index, Project(field).value);
      case Bool(b) => r := Set(doc, index, JBool(b));
      case String(s) => r := Set(doc, index, JString(s));
      case Int(x) => r := Set(doc, index, JInt(x as int));
      case Int64(x) => r := Set(doc, index, JInt(x as int));
      case Binary(s) => r := Set(doc, index, JString(s));
      case Object(_) =>
        var sub := BuildObject(field);
        r := Set(doc, index, sub);
      case Array(_) =>
        var sub := BuildArray(field);
        r := Set(doc, index, sub);
      case Null =>
        r := doc;
      case Unknown =>
        r := doc;
    }
  }

  /** The `Object` arm of `build_json`: the member is first set to `{}`, then each
      entry of the `HashMap` is stored into it, in the map's (unspecified)
      iteration order. */
  method BuildObject(field: FieldValue) returns (sub: JValue)
    requires field.Object?
    ensures Project(field) == Some(sub)
    decreases field, 0
  {
    var m := field.members;
    sub := JObject(map[]);
    var done: set<string> := {};
    var todo := m.Keys;
    while todo != {}
      invariant todo !! done && todo + done == m.Keys
      invariant sub == JObject(Kept(m, done))
      decreases |todo|
    {
      var name :| name in todo;
      sub := BuildJson(sub, Name(name), m[name]);
      KeptAdd(m, done, name);
      done := done + {name};
      todo := todo - {name};
    }
    KeptAll(m);
  }

  /** The `Array` arm of `build_json`: the member is first set to `v.len()` zeros,
      then element `i` is stored into slot `i`. */
  method BuildArray(field: FieldValue) returns (sub: JValue)
    requires field.Array?
    ensures Project(field) == Some(sub)
    decreases field, 0
  {
    var v := field.elements;
    var slots := seq(|v|, _ => JInt(0));
    for i := 0 to |v|
      invariant |slots| == |v|
      invariant forall j :: 0 <= j < |v| ==> slots[j] == (if j < i then Placeholder(Project(v[j])) else JInt(0))
    {
      var filled := BuildJson(JArray(slots), Slot(i), v[i]);
      slots := filled.items;
    }
    assert slots == Project(field).value.items;
    sub := JArray(slots);
  }

  lemma KeptAll(m: map<string, FieldValue>)
    ensures Project(Object(m)) == Some(JObject(Kept(m, m.Keys)))
  {
    assert Kept(m, m.Keys) == Project(Object(m)).value.members;
  }

  /** Adding one name to those already stored is one more `build_json` call. */
  lemma KeptAdd(m: map<string, FieldValue>, names: set<string>, name: string)
    requires name in m && name !in names
    ensures JObject(Kept(m, names + {name})) == Place(JObject(Kept(m, names)), Name(name), m[name])
  {
    var after := Place(JObject(Kept(m, names)), Name(name), m[name]);
    assert after.members == Kept(m, names + {name});
  }
}
