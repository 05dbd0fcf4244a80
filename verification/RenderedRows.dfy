/**
 What the renderer makes of the values of a row (jsonrow.go:61-193), told from each column's
 type and the transport alone: nothing is left out, added or moved, and each value is written in
 the form the transport reads.
 */
module RenderedRows {
  import opened Wrappers
  import opened Schema
  import opened Decimal
  import opened Values
  import opened JsonRow

  /** An instant: RFC 3339 text for a load job, microseconds for Storage Write. */
  predicate IsInstant(j: Json, time: Time, dialect: Dialect) {
    match dialect
    case LoadJob => j == JText(time.rfc3339)
    case StorageWrite => j == JInt(time.micros)
  }

  /** A JSON column: nothing for no text, and else the text, embedded for a load job and as text for Storage Write. */
  predicate IsJsonColumn(j: Json, text: string, dialect: Dialect) {
    if text == "" then j.JNull?
    else
      match dialect
      case LoadJob => j == JRaw(text)
      case StorageWrite => j == JText(text)
  }

  /** j is what a column of this type makes of one value. */
  ghost predicate RendersElement(value: Value, field: Field, dialect: Dialect, j: Json)
    decreases field, 0
  {
    if value.Null? then j.JNull?
    else if field.typ == RecordField then
      value.Record? && j.JObject? && RendersRow(value.columns, field.nested, dialect, j.members)
    else if field.typ == JSONField then
      if value.NilBytes? then j.JNull? else HoldsText(value) && IsJsonColumn(j, value.text, dialect)
    else
      match value
      case Instant(time) => IsInstant(j, time, dialect)
      case CivilDate(text) => j == JText(text)
      case CivilTime(text) => j == JText(text)
      case CivilDateTime(text) => j == JText(text)
      case Rat(r) => j.JText? && IsDecimalFor(j.text, r, field)
      case NilRat => false
      case _ => j == JScalar(value)
  }

  ghost predicate RendersValue(value: Value, field: Field, dialect: Dialect, j: Json)
    decreases field, 1
  {
    if field.repeated && !value.Null? then
      && value.List? && j.JArray? && |j.elements| == |value.elements|
      && forall i | 0 <= i < |value.elements| :: RendersElement(value.elements[i], field, dialect, j.elements[i])
    else RendersElement(value, field, dialect, j) && (field.required ==> !value.Null?)
  }

  /** The same columns, each rendered by the schema's field of its name. */
  ghost predicate RendersRow(row: map<string, Value>, schema: seq<Field>, dialect: Dialect, members: map<string, Json>)
    decreases schema
  {
    && members.Keys == row.Keys <= Names(schema)
    && forall i | 0 <= i < |schema| ::
         schema[i].name in row ==> RendersValue(row[schema[i].name], schema[i], dialect, members[schema[i].name])
  }

  lemma ScalarRendered(value: Value, field: Field, dialect: Dialect, valid: Validity)
    requires field.typ != RecordField && JsonElement(value, field, dialect, valid).Some?
    ensures RendersElement(value, field, dialect, JsonElement(value, field, dialect, valid).value)
  {
    if value.Rat? {
      DecimalTextIs(value.r, field);
    }
  }

  lemma {:induction false} ElementRendered(value: Value, field: Field, dialect: Dialect, valid: Validity)
    requires field.typ == RecordField ==> RecDistinct(field.nested)
    requires JsonElement(value, field, dialect, valid).Some?
    ensures RendersElement(value, field, dialect, JsonElement(value, field, dialect, valid).value)
    decreases field, 0
  {
    if field.typ != RecordField {
      ScalarRendered(value, field, dialect, valid);
    } else if !value.Null? {
      RowRendered(value.columns, field.nested, dialect, valid);
    }
  }

  lemma {:induction false} ValueRendered(value: Value, field: Field, dialect: Dialect, valid: Validity)
    requires field.typ == RecordField ==> RecDistinct(field.nested)
    requires JsonValue(value, field, dialect, valid).Some?
    ensures RendersValue(value, field, dialect, JsonValue(value, field, dialect, valid).value)
    decreases field, 1
  {
    var j := JsonValue(value, field, dialect, valid).value;
    if field.repeated && !value.Null? {
      forall i | 0 <= i < |value.elements| ensures RendersElement(value.elements[i], field, dialect, j.elements[i]) {
        ElementRendered(value.elements[i], field, dialect, valid);
      }
    } else if !value.Null? {
      ElementRendered(value, field, dialect, valid);
    }
  }

  /** Whatever row the renderer accepts, it renders column by column and in full, at every RECORD depth. */
  lemma {:induction false} RowRendered(row: map<string, Value>, schema: seq<Field>, dialect: Dialect, valid: Validity)
    requires RecDistinct(schema) && JsonObject(row, schema, dialect, valid).Some?
    ensures RendersRow(row, schema, dialect, JsonObject(row, schema, dialect, valid).value)
    decreases schema
  {
    var members := JsonObject(row, schema, dialect, valid).value;
    ByNameKeys(schema);
    forall i | 0 <= i < |schema| && schema[i].name in row
      ensures RendersValue(row[schema[i].name], schema[i], dialect, members[schema[i].name])
    {
      ByNameAt(schema, i);
      ValueRendered(row[schema[i].name], schema[i], dialect, valid);
    }
  }
}
