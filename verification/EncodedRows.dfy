/**
 What becomes of a rendered row in the text its reader gets (jsonrow.go:47-168): when a row
 has a text at all, and which of its columns and array elements are null in it.
 */
module EncodedRows {
  import opened Wrappers
  import opened Schema
  import opened Decimal
  import opened Values
  import opened JsonRow
  import opened JsonText

  /** encoding/json refuses NaN and the infinities alone, and writes no leaf of a typed row as null. */
  ghost predicate Plain(e: Encoder) {
    && Sound(e)
    && forall v: Value | v.Float? || v.Bytes? || v.Foreign? ::
         (e.leaf(v).Some? <==> v.Float? ==> v.f.Finite?) && e.leaf(v) != Some("null")
  }

  // ---- When a row has a text ----

  predicate ElementFinite(value: Value, field: Field)
    decreases field, 0
  {
    && (value.Float? && field.typ != RecordField ==> value.f.Finite?)
    && (value.Record? && field.typ == RecordField ==> RowFinite(value.columns, field.nested))
  }

  predicate ValueFinite(value: Value, field: Field)
    decreases field, 1
  {
    if field.repeated && value.List?
    then forall i | 0 <= i < |value.elements| :: ElementFinite(value.elements[i], field)
    else ElementFinite(value, field)
  }

  /** No column holds NaN or an infinity, at any RECORD depth. */
  predicate RowFinite(row: map<string, Value>, schema: seq<Field>)
    decreases schema
  {
    forall i | 0 <= i < |schema| :: schema[i].name in row ==> ValueFinite(row[schema[i].name], schema[i])
  }

  lemma MembersEncode(members: map<string, Json>, e: Encoder)
    requires Sound(e)
    ensures Encode(JObject(members), e).Some? <==> forall name | name in members :: Encode(members[name], e).Some?
  {
    var keys := e.order(members.Keys);
    assert Lists(keys, members.Keys);
    if Encode(JObject(members), e).Some? {
      forall name | name in members ensures Encode(members[name], e).Some? {
        assert name in keys;
        var i :| 0 <= i < |keys| && keys[i] == name;
        assert EncodeMember(JObject(members), keys[i], e).Some?;
      }
    }
    if forall name | name in members :: Encode(members[name], e).Some? {
      forall i | 0 <= i < |keys| ensures keys[i] in members && EncodeMember(JObject(members), keys[i], e).Some? {
        assert keys[i] in keys;
      }
    }
  }

  lemma ScalarEncodes(value: Value, field: Field, dialect: Dialect, valid: Validity, e: Encoder, far: bool)
    requires Plain(e) && field.typ != RecordField && ElementTyped(value, field, far)
    requires JsonElement(value, field, dialect, valid).Some?
    ensures Encode(JsonElement(value, field, dialect, valid).value, e).Some? <==> ElementFinite(value, field)
  {
  }

  lemma {:induction false} ElementEncodes(value: Value, field: Field, dialect: Dialect, valid: Validity, e: Encoder, far: bool)
    requires Plain(e) && (field.typ == RecordField ==> RecDistinct(field.nested)) && ElementTyped(value, field, far)
    requires JsonElement(value, field, dialect, valid).Some?
    ensures Encode(JsonElement(value, field, dialect, valid).value, e).Some? <==> ElementFinite(value, field)
    decreases field, 0
  {
    if value.Null? {
    } else if field.typ == RecordField {
      ObjectEncodes(value.columns, field.nested, dialect, valid, e, far);
      assert JsonElement(value, field, dialect, valid).value
          == JObject(JsonObject(value.columns, field.nested, dialect, valid).value);
    } else {
      ScalarEncodes(value, field, dialect, valid, e, far);
    }
  }

  lemma ArrayEncodes(value: Value, field: Field, dialect: Dialect, valid: Validity, e: Encoder)
    requires !value.Null? && field.repeated && JsonValue(value, field, dialect, valid).Some?
    ensures Encode(JsonValue(value, field, dialect, valid).value, e).Some?
       <==> forall i | 0 <= i < |value.elements| :: Encode(JsonElement(value.elements[i], field, dialect, valid).value, e).Some?
  {
    var elements := JsonValue(value, field, dialect, valid).value.elements;
    assert |elements| == |value.elements|;
    assert forall i | 0 <= i < |elements| :: elements[i] == JsonElement(value.elements[i], field, dialect, valid).value;
  }

  lemma {:induction false} ValueEncodes(value: Value, field: Field, dialect: Dialect, valid: Validity, e: Encoder, far: bool)
    requires Plain(e) && (field.typ == RecordField ==> RecDistinct(field.nested)) && ValueTyped(value, field, far)
    requires JsonValue(value, field, dialect, valid).Some?
    ensures Encode(JsonValue(value, field, dialect, valid).value, e).Some? <==> ValueFinite(value, field)
    decreases field, 1
  {
    if value.Null? {
    } else if field.repeated {
      forall i | 0 <= i < |value.elements|
        ensures Encode(JsonElement(value.elements[i], field, dialect, valid).value, e).Some?
           <==> ElementFinite(value.elements[i], field)
      {
        ElementEncodes(value.elements[i], field, dialect, valid, e, far);
      }
      ArrayEncodes(value, field, dialect, valid, e);
    } else {
      ElementEncodes(value, field, dialect, valid, e, far);
    }
  }

  lemma {:induction false} ObjectEncodes(
      row: map<string, Value>, schema: seq<Field>, dialect: Dialect, valid: Validity, e: Encoder, far: bool)
    requires Plain(e) && RecDistinct(schema) && RowTyped(row, schema, far)
    requires JsonObject(row, schema, dialect, valid).Some?
    ensures Encode(JObject(JsonObject(row, schema, dialect, valid).value), e).Some? <==> RowFinite(row, schema)
    decreases schema
  {
    var members := JsonObject(row, schema, dialect, valid).value;
    forall i | 0 <= i < |schema|
      ensures schema[i].name in members
      ensures Encode(members[schema[i].name], e).Some? <==> ValueFinite(row[schema[i].name], schema[i])
    {
      ByNameAt(schema, i);
      ValueEncodes(row[schema[i].name], schema[i], dialect, valid, e, far);
    }
    forall name | name in members ensures exists i :: 0 <= i < |schema| && schema[i].name == name {
      assert name in Names(schema);
    }
    MembersEncode(members, e);
  }

  /**
   A typed row has a text exactly when no REQUIRED column is NULL, no number is NaN or
   infinite and, for a load job, every JSON column's text is valid.
   */
  lemma EncodesExactlyWhen(row: map<string, Value>, schema: seq<Field>, dialect: Dialect, valid: Validity, e: Encoder, far: bool)
    requires Plain(e) && RecDistinct(schema) && RowShape(row, schema) && RowTyped(row, schema, far)
    ensures EncodeRow(row, schema, dialect, valid, e).Some?
       <==> RowFilled(row, schema) && (dialect == LoadJob ==> RowTexts(row, schema, valid)) && RowFinite(row, schema)
  {
    RendersExactlyWhen(row, schema, dialect, valid);
    if JsonObject(row, schema, dialect, valid).Some? {
      ObjectEncodes(row, schema, dialect, valid, e, far);
    }
  }

  // ---- What is null in it ----

  /** JSON text that a reader finds to be null: none, or for a load job, which embeds it, null itself. */
  predicate NullText(text: string, dialect: Dialect) {
    text == "" || (dialect == LoadJob && Compact(text, Outside) == "null")
  }

  predicate NullElement(value: Value, field: Field, dialect: Dialect) {
    || value.Null? || value.NilBytes?
    || (field.typ == JSONField && HoldsText(value) && NullText(value.text, dialect))
  }

  predicate NullValue(value: Value, field: Field, dialect: Dialect) {
    value.Null? || (!field.repeated && NullElement(value, field, dialect))
  }

  lemma IntTextIsNotNull(i: int)
    ensures IntText(i) != "null"
  {
    DigitsRead(Abs(i));
    assert IntText(i)[0] != 'n';
  }

  lemma ScalarNull(value: Value, field: Field, dialect: Dialect, valid: Validity, e: Encoder, far: bool)
    requires Plain(e) && field.typ != RecordField && field.typ != JSONField && ElementTyped(value, field, far)
    requires JsonElement(value, field, dialect, valid).Some? && !value.Null?
    ensures Encode(JsonElement(value, field, dialect, valid).value, e) == Some("null") <==> value.NilBytes?
  {
    assert forall s: string :: Quote(s)[0] == '"';
    if value.Int? {
      IntTextIsNotNull(value.i);
    }
    if value.Instant? {
      IntTextIsNotNull(value.time.micros);
    }
  }

  lemma ObjectIsNotNull(j: Json, e: Encoder)
    requires j.JObject? || j.JArray?
    ensures Encode(j, e) != Some("null")
  {
    if Encode(j, e).Some? {
      assert Encode(j, e).value[0] == if j.JObject? then '{' else '[';
    }
  }

  lemma JsonTextNull(value: Value, dialect: Dialect, valid: Validity, e: Encoder)
    requires HoldsText(value) && JsonColumn(value, dialect, valid).Some?
    ensures Encode(JsonColumn(value, dialect, valid).value, e) == Some("null") <==> NullText(value.text, dialect)
  {
    assert Quote(value.text)[0] == '"';
  }

  lemma ElementNull(value: Value, field: Field, dialect: Dialect, valid: Validity, e: Encoder, far: bool)
    requires Plain(e) && ElementTyped(value, field, far)
    requires JsonElement(value, field, dialect, valid).Some?
    ensures Encode(JsonElement(value, field, dialect, valid).value, e) == Some("null") <==> NullElement(value, field, dialect)
  {
    if value.Null? {
    } else if field.typ == RecordField {
      ObjectIsNotNull(JsonElement(value, field, dialect, valid).value, e);
    } else if field.typ == JSONField {
      JsonTextNull(value, dialect, valid, e);
    } else {
      ScalarNull(value, field, dialect, valid, e, far);
    }
  }

  lemma ValueNull(value: Value, field: Field, dialect: Dialect, valid: Validity, e: Encoder, far: bool)
    requires Plain(e) && ValueTyped(value, field, far)
    requires JsonValue(value, field, dialect, valid).Some?
    ensures Encode(JsonValue(value, field, dialect, valid).value, e) == Some("null") <==> NullValue(value, field, dialect)
  {
    if !value.Null? {
      if field.repeated {
        ObjectIsNotNull(JsonValue(value, field, dialect, valid).value, e);
      } else {
        ElementNull(value, field, dialect, valid, e, far);
      }
    }
  }

  /** The text of one member of a rendered row: its name and its value. */
  function MemberText(row: map<string, Value>, schema: seq<Field>, dialect: Dialect, valid: Validity, e: Encoder, name: string)
    : Option<string>
    requires JsonObject(row, schema, dialect, valid).Some? && name in row
  {
    EncodeMember(JObject(JsonObject(row, schema, dialect, valid).value), name, e)
  }

  function NullMember(name: string): Option<string> {
    Some(Quote(name) + ":" + "null")
  }

  lemma SameAfterPrefix(prefix: string, a: string, b: string)
    ensures prefix + a == prefix + b <==> a == b
  {
    assert (prefix + a)[|prefix|..] == a && (prefix + b)[|prefix|..] == b;
  }

  /**
   A column of a typed row is null in the row's text exactly when it is NULL, holds a nil
   byte slice, or is a JSON column whose text is empty or, for a load job, null.
   */
  lemma MemberIsNullExactlyWhen(
      row: map<string, Value>, schema: seq<Field>, i: nat, dialect: Dialect, valid: Validity, e: Encoder, far: bool)
    requires Plain(e) && RecDistinct(schema) && i < |schema| && RowTyped(row, schema, far)
    requires JsonObject(row, schema, dialect, valid).Some?
    ensures schema[i].name in row
    ensures MemberText(row, schema, dialect, valid, e, schema[i].name) == NullMember(schema[i].name)
       <==> NullValue(row[schema[i].name], schema[i], dialect)
  {
    ByNameAt(schema, i);
    var name := schema[i].name;
    assert name in Names(schema);
    ValueNull(row[name], schema[i], dialect, valid, e, far);
    var text := Encode(JsonObject(row, schema, dialect, valid).value[name], e);
    if text.Some? {
      SameAfterPrefix(Quote(name) + ":", text.value, "null");
    }
  }

  /** The text of one array element of a rendered row. */
  function ElementText(
      row: map<string, Value>, schema: seq<Field>, dialect: Dialect, valid: Validity, e: Encoder, name: string, k: nat)
    : Option<string>
    requires JsonObject(row, schema, dialect, valid).Some? && name in row
    requires JsonObject(row, schema, dialect, valid).value[name].JArray?
    requires k < |JsonObject(row, schema, dialect, valid).value[name].elements|
  {
    Encode(JsonObject(row, schema, dialect, valid).value[name].elements[k], e)
  }

  /** The same of an element of a REPEATED column. */
  lemma ElementIsNullExactlyWhen(
      row: map<string, Value>, schema: seq<Field>, i: nat, k: nat, dialect: Dialect, valid: Validity, e: Encoder, far: bool)
    requires Plain(e) && RecDistinct(schema) && i < |schema| && RowTyped(row, schema, far) && schema[i].repeated
    requires JsonObject(row, schema, dialect, valid).Some?
    requires schema[i].name in row && row[schema[i].name].List? && k < |row[schema[i].name].elements|
    ensures var rendered := JsonObject(row, schema, dialect, valid).value[schema[i].name];
            rendered.JArray? && |rendered.elements| == |row[schema[i].name].elements|
    ensures ElementText(row, schema, dialect, valid, e, schema[i].name, k) == Some("null")
       <==> NullElement(row[schema[i].name].elements[k], schema[i], dialect)
  {
    ByNameAt(schema, i);
    var field, value := schema[i], row[schema[i].name];
    assert JsonObject(row, schema, dialect, valid).value[field.name] == JsonValue(value, field, dialect, valid).value;
    ElementNull(value.elements[k], field, dialect, valid, e, far);
  }

  /** The whole text of a row of one column. */
  lemma OneColumnText(row: map<string, Value>, schema: seq<Field>, dialect: Dialect, valid: Validity, e: Encoder, name: string)
    requires Sound(e) && JsonObject(row, schema, dialect, valid).Some? && row.Keys == {name}
    ensures MemberText(row, schema, dialect, valid, e, name).Some? ==>
              EncodeRow(row, schema, dialect, valid, e)
              == Some("{" + MemberText(row, schema, dialect, valid, e, name).value + "}")
  {
    var j := JObject(JsonObject(row, schema, dialect, valid).value);
    var keys := e.order(j.members.Keys);
    assert j.members.Keys == {name};
    assert Lists(keys, j.members.Keys) && keys[0] in keys;
    assert keys == [name];
    if EncodeMember(j, name, e).Some? {
      var member := EncodeMember(j, name, e).value;
      assert seq(|keys|, i requires 0 <= i < |keys| => EncodeMember(j, keys[i], e).value) == [member];
      var text := "{" + Join([member]) + "}";
      assert Encode(j, e) == Some(text);
      assert (text + "\n")[..|text|] == text;
    }
  }
}
