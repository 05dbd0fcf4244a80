/**
 Which map rows are accepted, stated by the accepted type table alone (maprow.go:167-247),
 and what their rendering may still refuse.
 */
module AcceptedRows {
  import opened Wrappers
  import opened Schema
  import opened Values
  import opened JsonRow
  import opened JsonText
  import opened EncodedRows
  import opened MapRow

  // ---- The accepted type table ----

  predicate IsInteger(v: real, i: Int64) {
    v == i as real
  }

  /** An integer of any kind that INT64 holds, or a float equal to one. */
  ghost predicate FitsInteger(value: Any) {
    match value
    case IntKind(_) => true
    case UintKind(n) => n < TWO_TO_THE_63
    case FloatKind(f) => f.Finite? && exists i: Int64 :: IsInteger(f.value, i)
    case _ => false
  }

  ghost predicate FitsElement(value: Any, field: Field)
    decreases field, 0
  {
    match field.typ
    case StringField => value.StringKind?
    case GeographyField => value.StringKind?
    case IntegerField => FitsInteger(value)
    case FloatField => value.FloatKind?
    case NumericField => value.BigRat?
    case BigNumericField => value.BigRat?
    case BooleanField => value.BoolKind?
    case TimestampField => value.TimeTime?
    case DateField => value.DateOf?
    case TimeField => value.TimeOf?
    case DateTimeField => value.DateTimeOf?
    case BytesField => value.ByteSlice? || value.NamedByteSlice? || value.RawMessage?
    case JSONField => value.RawMessage? || value.ByteSlice? || value.StringKind?
    case RecordField => value.AnyMap? && Fits(value.columns, field.nested)
    case _ => false
  }

  ghost predicate FitsField(row: map<string, Any>, field: Field)
    decreases field, 1
  {
    if field.name !in row || NilAny(row[field.name]) then !field.required
    else if field.repeated then
      && row[field.name].AnySlice?
      && forall i | 0 <= i < |row[field.name].elements| ::
           !NilAny(row[field.name].elements[i]) && FitsElement(row[field.name].elements[i], field)
    else FitsElement(row[field.name], field)
  }

  /**
   Only declared columns, every REQUIRED one filled, no NULL inside an array, and every
   value of a type its column takes, at every RECORD depth.
   */
  ghost predicate Fits(row: map<string, Any>, schema: seq<Field>)
    decreases schema
  {
    && row.Keys <= Names(schema)
    && forall i | 0 <= i < |schema| :: FitsField(row, schema[i])
  }

  lemma IntegerFitsExactlyWhen(value: Any)
    ensures MarshalInteger(value).Some? <==> FitsInteger(value)
    ensures MarshalInteger(value).Some? ==>
              MarshalInteger(value).value.Int? && -TWO_TO_THE_63 <= MarshalInteger(value).value.i < TWO_TO_THE_63
  {
    if value.FloatKind? && value.f.Finite? {
      var v := value.f.value;
      if MarshalInteger(value).Some? {
        var i: Int64 := v.Floor;
        assert IsInteger(v, i);
      }
      if i: Int64 :| IsInteger(v, i) {
        assert v.Floor == i;
      }
    }
  }

  lemma PlainFits(schema: seq<Field>, field: Field, value: Any)
    requires field.typ != RecordField && field.typ != IntegerField
    ensures MarshalAccepted(schema, field, value).Some? <==> FitsElement(value, field)
  {
  }

  lemma {:induction false} ElementFits(schema: seq<Field>, i: nat, value: Any)
    requires RecDistinct(schema) && i < |schema|
    ensures MarshalAccepted(schema, schema[i], value).Some? <==> FitsElement(value, schema[i])
    decreases schema, 0
  {
    if schema[i].typ == IntegerField {
      IntegerFitsExactlyWhen(value);
    } else if schema[i].typ == RecordField {
      NestingAt(schema, i);
      if value.AnyMap? {
        FitsExactlyWhen(schema[i].nested, value.columns);
      }
    } else {
      PlainFits(schema, schema[i], value);
    }
  }

  lemma {:induction false} FieldFits(schema: seq<Field>, i: nat, row: map<string, Any>)
    requires RecDistinct(schema) && i < |schema|
    ensures MarshalField(schema, schema[i], row).Some? <==> FitsField(row, schema[i])
    decreases schema, 1
  {
    if schema[i].name in row && !NilAny(row[schema[i].name]) {
      var value := row[schema[i].name];
      if !schema[i].repeated {
        ElementFits(schema, i, value);
      } else if value.AnySlice? {
        forall k | 0 <= k < |value.elements|
          ensures MarshalAccepted(schema, schema[i], value.elements[k]).Some? <==> FitsElement(value.elements[k], schema[i])
        {
          ElementFits(schema, i, value.elements[k]);
        }
      }
    }
  }

  /** A row is accepted exactly when it fits its schema. */
  lemma {:induction false} FitsExactlyWhen(schema: seq<Field>, row: map<string, Any>)
    requires RecDistinct(schema)
    ensures MarshalMap(schema, row).Some? <==> Fits(row, schema)
    decreases schema, 2
  {
    ByNameKeys(schema);
    forall i | 0 <= i < |schema|
      ensures MarshalField(schema, schema[i], row).Some? <==> FitsField(row, schema[i])
    {
      FieldFits(schema, i, row);
    }
  }

  // ---- What an accepted row becomes ----

  lemma MarshalledField(schema: seq<Field>, row: map<string, Any>, out: map<string, Value>, i: nat)
    requires RecDistinct(schema) && i < |schema| && MarshalMap(schema, row) == Some(out)
    ensures out.Keys == Names(schema)
    ensures MarshalField(schema, schema[i], row) == Some(out[schema[i].name])
  {
    ByNameKeys(schema);
    ByNameAt(schema, i);
  }

  lemma {:induction false} ElementShaped(schema: seq<Field>, i: nat, value: Any)
    requires RecDistinct(schema) && i < |schema| && MarshalAccepted(schema, schema[i], value).Some?
    ensures !MarshalAccepted(schema, schema[i], value).value.Null?
    ensures ElementShape(MarshalAccepted(schema, schema[i], value).value, schema[i])
    ensures ElementTyped(MarshalAccepted(schema, schema[i], value).value, schema[i], false)
    ensures ElementFilled(MarshalAccepted(schema, schema[i], value).value, schema[i])
    decreases schema, 0
  {
    if schema[i].typ == RecordField {
      NestingAt(schema, i);
      RowsMatchTheirSchema(schema[i].nested, value.columns, MarshalMap(schema[i].nested, value.columns).value);
    }
  }

  lemma {:induction false} FieldShaped(schema: seq<Field>, i: nat, row: map<string, Any>)
    requires RecDistinct(schema) && i < |schema| && MarshalField(schema, schema[i], row).Some?
    ensures ValueShape(MarshalField(schema, schema[i], row).value, schema[i])
    ensures ValueTyped(MarshalField(schema, schema[i], row).value, schema[i], false)
    ensures ValueFilled(MarshalField(schema, schema[i], row).value, schema[i])
    decreases schema, 1
  {
    if schema[i].name in row && !NilAny(row[schema[i].name]) {
      var value := row[schema[i].name];
      if schema[i].repeated {
        forall k | 0 <= k < |value.elements|
          ensures ElementShape(MarshalAccepted(schema, schema[i], value.elements[k]).value, schema[i])
          ensures ElementTyped(MarshalAccepted(schema, schema[i], value.elements[k]).value, schema[i], false)
          ensures ElementFilled(MarshalAccepted(schema, schema[i], value.elements[k]).value, schema[i])
        {
          ElementShaped(schema, i, value.elements[k]);
        }
      } else {
        ElementShaped(schema, i, value);
      }
    }
  }

  /** An accepted row has exactly its schema's columns, each of its column's own type and with no NULL in a REQUIRED one, at every depth. */
  lemma {:induction false} RowsMatchTheirSchema(schema: seq<Field>, row: map<string, Any>, out: map<string, Value>)
    requires RecDistinct(schema) && MarshalMap(schema, row) == Some(out)
    ensures RowTyped(out, schema, false) && RowShape(out, schema) && RowFilled(out, schema)
    decreases schema, 2
  {
    ByNameKeys(schema);
    forall i | 0 <= i < |schema|
      ensures ValueTyped(out[schema[i].name], schema[i], false)
      ensures ValueShape(out[schema[i].name], schema[i]) && ValueFilled(out[schema[i].name], schema[i])
    {
      MarshalledField(schema, row, out, i);
      FieldShaped(schema, i, row);
    }
  }

  /** Storage Write renders every accepted row; a load job all but those holding invalid JSON text. */
  lemma AcceptedRowsRender(schema: seq<Field>, row: map<string, Any>, out: map<string, Value>, valid: Validity)
    requires RecDistinct(schema) && MarshalMap(schema, row) == Some(out)
    ensures JsonObject(out, schema, StorageWrite, valid).Some?
    ensures JsonObject(out, schema, LoadJob, valid).Some? <==> RowTexts(out, schema, valid)
  {
    RowsMatchTheirSchema(schema, row, out);
    RendersExactlyWhen(out, schema, StorageWrite, valid);
    RendersExactlyWhen(out, schema, LoadJob, valid);
  }

  /** An accepted row has a text for its reader exactly when its numbers are finite and, for a load job, its JSON texts valid. */
  lemma AcceptedRowsEncode(
      schema: seq<Field>, row: map<string, Any>, out: map<string, Value>, dialect: Dialect, valid: Validity, e: Encoder)
    requires Plain(e) && RecDistinct(schema) && MarshalMap(schema, row) == Some(out)
    ensures EncodeRow(out, schema, dialect, valid, e).Some?
       <==> (dialect == LoadJob ==> RowTexts(out, schema, valid)) && RowFinite(out, schema)
  {
    RowsMatchTheirSchema(schema, row, out);
    EncodesExactlyWhen(out, schema, dialect, valid, e, false);
  }

  // ---- NULL in a REQUIRED column or an array, after all ----

  /** JSON text, given as any of the types a JSON column takes, that its reader finds to be null. */
  predicate GivesNull(value: Any, dialect: Dialect) {
    (value.RawMessage? || value.ByteSlice? || value.StringKind?) && NullText(value.text, dialect)
  }

  lemma AcceptedElementNull(schema: seq<Field>, i: nat, value: Any, dialect: Dialect)
    requires RecDistinct(schema) && i < |schema| && MarshalAccepted(schema, schema[i], value).Some?
    ensures NullElement(MarshalAccepted(schema, schema[i], value).value, schema[i], dialect)
       <==> schema[i].typ == JSONField && GivesNull(value, dialect)
  {
    ElementShaped(schema, i, value);
  }

  /**
   A REQUIRED column of an accepted row is null in the text of the row exactly when it is a
   JSON column given no text or, for a load job, the JSON text null: neither the conversion
   nor the renderer refuses those.
   */
  lemma RequiredIsNullExactlyWhen(
      schema: seq<Field>, row: map<string, Any>, out: map<string, Value>, i: nat, dialect: Dialect, valid: Validity, e: Encoder)
    requires Plain(e) && RecDistinct(schema) && i < |schema| && schema[i].required
    requires MarshalMap(schema, row) == Some(out) && JsonObject(out, schema, dialect, valid).Some?
    ensures schema[i].name in row && schema[i].name in out
    ensures MemberText(out, schema, dialect, valid, e, schema[i].name) == NullMember(schema[i].name)
       <==> schema[i].typ == JSONField && !schema[i].repeated && GivesNull(row[schema[i].name], dialect)
  {
    RowsMatchTheirSchema(schema, row, out);
    MarshalledField(schema, row, out, i);
    MemberIsNullExactlyWhen(out, schema, i, dialect, valid, e, false);
    if !schema[i].repeated {
      AcceptedElementNull(schema, i, row[schema[i].name], dialect);
    }
  }

  /** The same of an element of a REPEATED column, although nil elements are refused. */
  lemma ArrayElementIsNullExactlyWhen(
      schema: seq<Field>, row: map<string, Any>, out: map<string, Value>, i: nat, k: nat, dialect: Dialect, valid: Validity,
      e: Encoder)
    requires Plain(e) && RecDistinct(schema) && i < |schema| && schema[i].repeated
    requires MarshalMap(schema, row) == Some(out) && JsonObject(out, schema, dialect, valid).Some?
    requires schema[i].name in row && !NilAny(row[schema[i].name])
    requires row[schema[i].name].AnySlice? && k < |row[schema[i].name].elements|
    ensures schema[i].name in out
    ensures var rendered := JsonObject(out, schema, dialect, valid).value[schema[i].name];
            rendered.JArray? && |rendered.elements| == |row[schema[i].name].elements|
    ensures ElementText(out, schema, dialect, valid, e, schema[i].name, k) == Some("null")
       <==> schema[i].typ == JSONField && GivesNull(row[schema[i].name].elements[k], dialect)
  {
    RowsMatchTheirSchema(schema, row, out);
    MarshalledField(schema, row, out, i);
    ElementIsNullExactlyWhen(out, schema, i, k, dialect, valid, e, false);
    AcceptedElementNull(schema, i, row[schema[i].name].elements[k], dialect);
  }

  lemma OneTextAccepted(f: Field, text: string)
    requires f.typ == JSONField && f.required && !f.repeated
    ensures MarshalMap([f], map[f.name := StringKind(text)]) == Some(map[f.name := Text(text)])
  {
    var schema, row := [f], map[f.name := StringKind(text)];
    assert Names(schema) == {f.name} by {
      assert schema[0].name == f.name;
    }
    FitsExactlyWhen(schema, row);
    assert row.Keys == {f.name} && FitsField(row, schema[0]);
    var out := MarshalMap(schema, row).value;
    MarshalledField(schema, row, out, 0);
    assert out == map[f.name := Text(text)];
  }

  /** So each REQUIRED JSON column can be null in the line a load job reads: empty text and null give the same line. */
  lemma RequiredJsonColumnIsNull(f: Field, text: string, dialect: Dialect, valid: Validity, e: Encoder)
    requires Plain(e) && f.typ == JSONField && f.required && !f.repeated
    requires NullText(text, dialect) && (text == "" || valid(text))
    ensures var out := MarshalMap([f], map[f.name := StringKind(text)]);
            && out.Some?
            && EncodeRow(out.value, [f], dialect, valid, e) == Some("{" + (Quote(f.name) + ":" + "null") + "}")
  {
    var schema, row, out := [f], map[f.name := StringKind(text)], map[f.name := Text(text)];
    OneTextAccepted(f, text);
    assert RowTexts(out, schema, valid);
    AcceptedRowsRender(schema, row, out, valid);
    RequiredIsNullExactlyWhen(schema, row, out, 0, dialect, valid, e);
    OneColumnText(out, schema, dialect, valid, e, f.name);
  }

  // ---- Nothing is altered on the way in ----

  /** converted holds what value holds: the same text, number, instant, elements or columns. */
  ghost predicate Carries(value: Any, converted: Value)
    decreases value
  {
    match value
    case StringKind(text) => converted == Text(text)
    case BoolKind(b) => converted == Bool(b)
    case IntKind(i) => converted == Int(i)
    case UintKind(n) => converted == Int(n)
    case FloatKind(f) => converted == Value.Float(f) || (converted.Int? && f == Finite(converted.i as real))
    case BigRat(r) => converted == Rat(r)
    case TimeTime(time) => converted == Instant(time)
    case DateOf(text) => converted == CivilDate(text)
    case TimeOf(text) => converted == CivilTime(text)
    case DateTimeOf(text) => converted == CivilDateTime(text)
    case ByteSlice(text) => converted == Bytes(text)
    case NamedByteSlice(text) => converted == Bytes(text)
    case RawMessage(text) => converted == Bytes(text) || converted == RawJson(text)
    case AnySlice(elements) =>
      && converted.List? && |converted.elements| == |elements|
      && forall i | 0 <= i < |elements| :: Carries(elements[i], converted.elements[i])
    case AnyMap(columns) =>
      && converted.Record? && columns.Keys <= converted.columns.Keys
      && forall name | name in converted.columns ::
           if name in columns && !NilAny(columns[name]) then Carries(columns[name], converted.columns[name])
           else converted.columns[name].Null?
    case _ => false
  }

  lemma {:induction false} ElementCarried(schema: seq<Field>, i: nat, value: Any)
    requires RecDistinct(schema) && i < |schema| && MarshalAccepted(schema, schema[i], value).Some?
    ensures Carries(value, MarshalAccepted(schema, schema[i], value).value)
    decreases schema, 0
  {
    if schema[i].typ == RecordField {
      NestingAt(schema, i);
      NothingAltered(schema[i].nested, value.columns, MarshalMap(schema[i].nested, value.columns).value);
    }
  }

  lemma {:induction false} FieldCarried(schema: seq<Field>, i: nat, row: map<string, Any>)
    requires RecDistinct(schema) && i < |schema| && MarshalField(schema, schema[i], row).Some?
    requires schema[i].name in row && !NilAny(row[schema[i].name])
    ensures Carries(row[schema[i].name], MarshalField(schema, schema[i], row).value)
    decreases schema, 1
  {
    var value := row[schema[i].name];
    if schema[i].repeated {
      forall k | 0 <= k < |value.elements|
        ensures Carries(value.elements[k], MarshalAccepted(schema, schema[i], value.elements[k]).value)
      {
        ElementCarried(schema, i, value.elements[k]);
      }
    } else {
      ElementCarried(schema, i, value);
    }
  }

  /** Every value given arrives in its own column unaltered, and the columns not given are NULL. */
  lemma {:induction false} NothingAltered(schema: seq<Field>, row: map<string, Any>, out: map<string, Value>)
    requires RecDistinct(schema) && MarshalMap(schema, row) == Some(out)
    ensures Carries(AnyMap(row), Record(out))
    decreases schema, 2
  {
    ByNameKeys(schema);
    forall name | name in out
      ensures if name in row && !NilAny(row[name]) then Carries(row[name], out[name]) else out[name].Null?
    {
      assert name in Names(schema);
      var i :| 0 <= i < |schema| && schema[i].name == name;
      MarshalledField(schema, row, out, i);
      if name in row && !NilAny(row[name]) {
        FieldCarried(schema, i, row);
      }
    }
  }
}
