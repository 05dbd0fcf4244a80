/**
 The rendering both transports share (jsonrow.go:21-168): a row under a schema becomes an
 object tree, or is refused. Which of several errors a refused row reports depends on map
 order in the source, so a refusal is None here. What counts as JSON text is the parameter
 valid.
 */
module JsonRow {
  import opened Wrappers
  import opened Schema
  import opened Decimal
  import opened Values

  datatype Dialect = LoadJob | StorageWrite

  datatype Json =
    | JNull
    | JText(text: string)
    | JInt(i: int)
    | JRaw(text: string)          // JSON text embedded as it is
    | JScalar(value: Value)       // handed to encoding/json as it is
    | JArray(elements: seq<Json>)
    | JObject(members: map<string, Json>)

  type Validity = string -> bool

  /** The dynamic types a JSON column takes text from. */
  predicate HoldsText(value: Value) {
    value.RawJson? || value.Text? || value.Bytes?
  }

  /** jsonColumnValue. */
  function JsonColumn(value: Value, dialect: Dialect, valid: Validity): Option<Json> {
    if value.NilBytes? then Some(JNull)
    else if !HoldsText(value) then None
    else if value.text == "" then Some(JNull)
    else if dialect == StorageWrite then Some(JText(value.text))
    else if !valid(value.text) then None
    else Some(JRaw(value.text))
  }

  /** The last switch of jsonElement. */
  function JsonScalar(value: Value, field: Field, dialect: Dialect): Option<Json> {
    match value
    case Instant(t) => Some(if dialect == StorageWrite then JInt(t.micros) else JText(t.rfc3339))
    case CivilDate(text) => Some(JText(text))
    case CivilTime(text) => Some(JText(text))
    case CivilDateTime(text) => Some(JText(text))
    case Rat(r) => Some(JText(DecimalText(r, field)))
    case NilRat => None
    case _ => Some(JScalar(value))
  }

  function JsonElement(value: Value, field: Field, dialect: Dialect, valid: Validity): Option<Json>
    decreases field, 0
  {
    if value.Null? then Some(JNull)
    else if field.typ == RecordField then
      if !value.Record? then None
      else
        match JsonObject(value.columns, field.nested, dialect, valid)
        case None => None
        case Some(members) => Some(JObject(members))
    else if field.typ == JSONField then JsonColumn(value, dialect, valid)
    else JsonScalar(value, field, dialect)
  }

  function JsonValue(value: Value, field: Field, dialect: Dialect, valid: Validity): Option<Json>
    decreases field, 1
  {
    if value.Null? then
      if field.required then None else Some(JNull)
    else if field.repeated then
      if !value.List? then None
      else if forall i | 0 <= i < |value.elements| :: JsonElement(value.elements[i], field, dialect, valid).Some? then
        Some(JArray(seq(|value.elements|, i requires 0 <= i < |value.elements| =>
                          JsonElement(value.elements[i], field, dialect, valid).value)))
      else None
    else JsonElement(value, field, dialect, valid)
  }

  function JsonObject(row: map<string, Value>, schema: seq<Field>, dialect: Dialect, valid: Validity)
    : Option<map<string, Json>>
    decreases schema
  {
    if forall name | name in row ::
         && name in ByName(schema)
         && (ByNameMember(schema, name);
             JsonValue(row[name], ByName(schema)[name], dialect, valid).Some?)
    then Some(map name | name in row ::
                ByNameMember(schema, name);
                JsonValue(row[name], ByName(schema)[name], dialect, valid).value)
    else None
  }

  // ---- The walk as the code does it ----

  method RenderElement(value: Value, field: Field, dialect: Dialect, valid: Validity) returns (rendered: Option<Json>)
    ensures rendered == JsonElement(value, field, dialect, valid)
    decreases field, 0
  {
    if value.Null? {
      return Some(JNull);
    }
    if field.typ == RecordField {
      if !value.Record? {
        return None;
      }
      var members := RenderObject(value.columns, field.nested, dialect, valid);
      return if members.None? then None else Some(JObject(members.value));
    }
    if field.typ == JSONField {
      return JsonColumn(value, dialect, valid);
    }
    return JsonScalar(value, field, dialect);
  }

  method RenderValue(value: Value, field: Field, dialect: Dialect, valid: Validity) returns (rendered: Option<Json>)
    ensures rendered == JsonValue(value, field, dialect, valid)
    decreases field, 1
  {
    if value.Null? {
      return if field.required then None else Some(JNull);
    }
    if field.repeated {
      if !value.List? {
        return None;
      }
      var out := [];
      for i := 0 to |value.elements|
        invariant |out| == i
        invariant forall k | 0 <= k < i :: JsonElement(value.elements[k], field, dialect, valid) == Some(out[k])
      {
        var element := RenderElement(value.elements[i], field, dialect, valid);
        if element.None? {
          return None;
        }
        out := out + [element.value];
      }
      assert out == seq(|value.elements|, i requires 0 <= i < |value.elements| =>
                          JsonElement(value.elements[i], field, dialect, valid).value);
      return Some(JArray(out));
    }
    rendered := RenderElement(value, field, dialect, valid);
  }

  method RenderObject(row: map<string, Value>, schema: seq<Field>, dialect: Dialect, valid: Validity)
    returns (rendered: Option<map<string, Json>>)
    ensures rendered == JsonObject(row, schema, dialect, valid)
    decreases schema
  {
    var byName := IndexByName(schema);
    var members: map<string, Json> := map[];
    var left := row.Keys;
    while left != {}
      invariant left <= row.Keys && members.Keys == row.Keys - left
      invariant forall name | name in members ::
        name in ByName(schema) && JsonValue(row[name], ByName(schema)[name], dialect, valid) == Some(members[name])
      decreases left
    {
      var name :| name in left;
      if name !in byName {
        return None;
      }
      ByNameMember(schema, name);
      var value := RenderValue(row[name], byName[name], dialect, valid);
      if value.None? {
        return None;
      }
      members := members[name := value.value];
      left := left - {name};
    }
    assert members.Keys == row.Keys;
    assert members == JsonObject(row, schema, dialect, valid).value;
    return Some(members);
  }

  // ---- When a row renders ----

  /** The value has the dynamic type its column renders, NULLs aside. */
  predicate ElementShape(value: Value, field: Field)
    decreases field, 0
  {
    value.Null? ||
    (if field.typ == RecordField then value.Record? && RowShape(value.columns, field.nested)
     else if field.typ == JSONField then HoldsText(value) || value.NilBytes?
     else !value.NilRat?)
  }

  predicate ValueShape(value: Value, field: Field)
    decreases field, 1
  {
    value.Null? ||
    (if field.repeated
     then value.List? && forall i | 0 <= i < |value.elements| :: ElementShape(value.elements[i], field)
     else ElementShape(value, field))
  }

  /** The row has exactly the schema's columns, each of its column's shape, at every RECORD depth. */
  predicate RowShape(row: map<string, Value>, schema: seq<Field>)
    decreases schema
  {
    && row.Keys == Names(schema)
    && forall i | 0 <= i < |schema| :: ValueShape(row[schema[i].name], schema[i])
  }

  /**
   The dynamic type a column's value has, for every column type but RECORD. With far, a
   NUMERIC column may also hold a pointer to a *big.Rat, which is Foreign.
   */
  predicate ScalarTyped(value: Value, typ: FieldType, far: bool) {
    (far && typ == NumericField && value.Foreign?) ||
    match typ
    case StringField => value.Text?
    case GeographyField => value.Text?
    case BytesField => value.Bytes? || value.NilBytes?
    case IntegerField => value.Int?
    case FloatField => value.Float?
    case BooleanField => value.Bool?
    case NumericField => value.Rat?
    case BigNumericField => value.Rat?
    case TimestampField => value.Instant?
    case DateField => value.CivilDate?
    case TimeField => value.CivilTime?
    case DateTimeField => value.CivilDateTime?
    case JSONField => HoldsText(value)
    case _ => false
  }

  predicate ElementTyped(value: Value, field: Field, far: bool)
    decreases field, 0
  {
    value.Null? ||
    (if field.typ == RecordField then value.Record? && RowTyped(value.columns, field.nested, far)
     else ScalarTyped(value, field.typ, far))
  }

  predicate ValueTyped(value: Value, field: Field, far: bool)
    decreases field, 1
  {
    value.Null? ||
    (if field.repeated
     then value.List? && forall i | 0 <= i < |value.elements| :: ElementTyped(value.elements[i], field, far)
     else ElementTyped(value, field, far))
  }

  /** The row has exactly the schema's columns, each NULL or of its column's own type, at every RECORD depth. */
  predicate RowTyped(row: map<string, Value>, schema: seq<Field>, far: bool)
    decreases schema
  {
    && row.Keys == Names(schema)
    && forall i | 0 <= i < |schema| :: ValueTyped(row[schema[i].name], schema[i], far)
  }

  predicate ElementFilled(value: Value, field: Field)
    decreases field, 0
  {
    value.Record? && field.typ == RecordField ==> RowFilled(value.columns, field.nested)
  }

  predicate ValueFilled(value: Value, field: Field)
    decreases field, 1
  {
    && (field.required ==> !value.Null?)
    && (if field.repeated && value.List?
        then forall i | 0 <= i < |value.elements| :: ElementFilled(value.elements[i], field)
        else ElementFilled(value, field))
  }

  /** No REQUIRED column is NULL, at any RECORD depth. */
  predicate RowFilled(row: map<string, Value>, schema: seq<Field>)
    decreases schema
  {
    forall i | 0 <= i < |schema| :: schema[i].name in row ==> ValueFilled(row[schema[i].name], schema[i])
  }

  predicate ElementTexts(value: Value, field: Field, valid: Validity)
    decreases field, 0
  {
    if field.typ == RecordField then value.Record? ==> RowTexts(value.columns, field.nested, valid)
    else field.typ == JSONField && HoldsText(value) ==> value.text == "" || valid(value.text)
  }

  predicate ValueTexts(value: Value, field: Field, valid: Validity)
    decreases field, 1
  {
    if field.repeated && value.List?
    then forall i | 0 <= i < |value.elements| :: ElementTexts(value.elements[i], field, valid)
    else ElementTexts(value, field, valid)
  }

  /** Every JSON column holds no text or valid JSON text, at any RECORD depth. */
  predicate RowTexts(row: map<string, Value>, schema: seq<Field>, valid: Validity)
    decreases schema
  {
    forall i | 0 <= i < |schema| :: schema[i].name in row ==> ValueTexts(row[schema[i].name], schema[i], valid)
  }

  lemma {:induction false} ElementRenders(value: Value, field: Field, dialect: Dialect, valid: Validity)
    requires ElementShape(value, field) && (field.typ == RecordField ==> RecDistinct(field.nested))
    ensures JsonElement(value, field, dialect, valid).Some?
       <==> ElementFilled(value, field) && (dialect == LoadJob ==> ElementTexts(value, field, valid))
    decreases field, 0
  {
    if field.typ == RecordField && value.Record? {
      RendersExactlyWhen(value.columns, field.nested, dialect, valid);
    }
  }

  lemma {:induction false} ValueRenders(value: Value, field: Field, dialect: Dialect, valid: Validity)
    requires ValueShape(value, field) && (field.typ == RecordField ==> RecDistinct(field.nested))
    ensures JsonValue(value, field, dialect, valid).Some?
       <==> ValueFilled(value, field) && (dialect == LoadJob ==> ValueTexts(value, field, valid))
    decreases field, 1
  {
    if field.repeated && value.List? {
      forall i | 0 <= i < |value.elements|
        ensures JsonElement(value.elements[i], field, dialect, valid).Some?
           <==> ElementFilled(value.elements[i], field) && (dialect == LoadJob ==> ElementTexts(value.elements[i], field, valid))
      {
        ElementRenders(value.elements[i], field, dialect, valid);
      }
    } else {
      ElementRenders(value, field, dialect, valid);
    }
  }

  /**
   A row of its schema's shape renders exactly when no REQUIRED column is NULL and, for a
   load job, every JSON column's text is valid.
   */
  lemma {:induction false} RendersExactlyWhen(row: map<string, Value>, schema: seq<Field>, dialect: Dialect, valid: Validity)
    requires RecDistinct(schema) && RowShape(row, schema)
    ensures JsonObject(row, schema, dialect, valid).Some?
       <==> RowFilled(row, schema) && (dialect == LoadJob ==> RowTexts(row, schema, valid))
    decreases schema
  {
    forall i | 0 <= i < |schema|
      ensures schema[i].name in ByName(schema) && ByName(schema)[schema[i].name] == schema[i]
      ensures JsonValue(row[schema[i].name], schema[i], dialect, valid).Some?
         <==> ValueFilled(row[schema[i].name], schema[i])
              && (dialect == LoadJob ==> ValueTexts(row[schema[i].name], schema[i], valid))
    {
      ByNameAt(schema, i);
      ValueRenders(row[schema[i].name], schema[i], dialect, valid);
    }
    forall name | name in row ensures exists i :: 0 <= i < |schema| && schema[i].name == name {
      assert name in Names(schema);
    }
  }

  // ---- Two dialects ----

  predicate SameElement(value: Value, field: Field, a: Json, b: Json)
    decreases field, 0
  {
    if value.Null? then a == b
    else if field.typ == RecordField then
      value.Record? && a.JObject? && b.JObject? && SameObject(value.columns, field.nested, a.members, b.members)
    else if field.typ == JSONField then (a == b == JNull) || (a.JRaw? && b == JText(a.text))
    else if value.Instant? then a == JText(value.time.rfc3339) && b == JInt(value.time.micros)
    else a == b
  }

  predicate SameValue(value: Value, field: Field, a: Json, b: Json)
    decreases field, 1
  {
    if value.Null? then a == b
    else if field.repeated then
      && value.List? && a.JArray? && b.JArray?
      && |a.elements| == |b.elements| == |value.elements|
      && forall i | 0 <= i < |value.elements| :: SameElement(value.elements[i], field, a.elements[i], b.elements[i])
    else SameElement(value, field, a, b)
  }

  /** The load job's tree and Storage Write's differ only at instants and in JSON columns. */
  predicate SameObject(row: map<string, Value>, schema: seq<Field>, a: map<string, Json>, b: map<string, Json>)
    decreases schema
  {
    && a.Keys == b.Keys == row.Keys
    && forall name | name in row ::
         && name in ByName(schema)
         && (ByNameMember(schema, name);
             SameValue(row[name], ByName(schema)[name], a[name], b[name]))
  }

  lemma {:induction false} DialectsAgreeOnElement(value: Value, field: Field, valid: Validity)
    requires JsonElement(value, field, LoadJob, valid).Some?
    ensures JsonElement(value, field, StorageWrite, valid).Some?
    ensures SameElement(value, field, JsonElement(value, field, LoadJob, valid).value,
                        JsonElement(value, field, StorageWrite, valid).value)
    decreases field, 0
  {
    if !value.Null? && field.typ == RecordField {
      DialectsAgree(value.columns, field.nested, valid);
    }
  }

  lemma {:induction false} DialectsAgreeOnValue(value: Value, field: Field, valid: Validity)
    requires JsonValue(value, field, LoadJob, valid).Some?
    ensures JsonValue(value, field, StorageWrite, valid).Some?
    ensures SameValue(value, field, JsonValue(value, field, LoadJob, valid).value,
                      JsonValue(value, field, StorageWrite, valid).value)
    decreases field, 1
  {
    if !value.Null? {
      if field.repeated {
        forall i | 0 <= i < |value.elements|
          ensures JsonElement(value.elements[i], field, StorageWrite, valid).Some?
          ensures SameElement(value.elements[i], field, JsonElement(value.elements[i], field, LoadJob, valid).value,
                              JsonElement(value.elements[i], field, StorageWrite, valid).value)
        {
          DialectsAgreeOnElement(value.elements[i], field, valid);
        }
      } else {
        DialectsAgreeOnElement(value, field, valid);
      }
    }
  }

  /**
   Whatever row renders for a load job renders for Storage Write too, and the two trees are
   the same but for instants and JSON columns.
   */
  lemma {:induction false} DialectsAgree(row: map<string, Value>, schema: seq<Field>, valid: Validity)
    requires JsonObject(row, schema, LoadJob, valid).Some?
    ensures JsonObject(row, schema, StorageWrite, valid).Some?
    ensures SameObject(row, schema, JsonObject(row, schema, LoadJob, valid).value,
                       JsonObject(row, schema, StorageWrite, valid).value)
    decreases schema
  {
    forall name | name in row
      ensures name in ByName(schema)
      ensures JsonValue(row[name], ByName(schema)[name], StorageWrite, valid).Some?
      ensures SameValue(row[name], ByName(schema)[name], JsonValue(row[name], ByName(schema)[name], LoadJob, valid).value,
                        JsonValue(row[name], ByName(schema)[name], StorageWrite, valid).value)
    {
      ByNameMember(schema, name);
      DialectsAgreeOnValue(row[name], ByName(schema)[name], valid);
    }
  }
}
