/**
 What becomes of a struct value in the text its reader gets (plan.go:479-620;
 jsonrow.go:47-168): when its row has a text, and which of its columns and array elements
 are null in it.
 */
module EncodedStructs {
  import opened Wrappers
  import opened Schema
  import opened Values
  import opened JsonRow
  import opened JsonText
  import opened EncodedRows
  import opened RowPlan
  import opened StructRows

  /**
   A struct's row has a text exactly when no REQUIRED column is NULL, no number is NaN or
   infinite and, for a load job, every JSON column's text is valid.
   */
  lemma StructRowsEncode(
      t: GoType, plan: Plan, rv: GoValue, row: map<string, Value>, dialect: Dialect, valid: Validity, e: Encoder)
    requires Plain(e) && DistinctColumns(t) && BuildRowPlan(t) == Ok(plan)
    requires HasType(DerefValue(rv), t) && MarshalRow(plan, rv) == Some(row)
    ensures EncodeRow(row, SchemaOf(plan), dialect, valid, e).Some?
       <==> && RowFilled(row, SchemaOf(plan)) && RowFinite(row, SchemaOf(plan))
            && (dialect == LoadJob ==> RowTexts(row, SchemaOf(plan), valid))
  {
    RowsMatchTheirSchema(t, plan, rv, row);
    SchemaDistinct(t, plan);
    EncodesExactlyWhen(row, SchemaOf(plan), dialect, valid, e, !NearRats(t));
  }

  /**
   The value ends in a nil pointer, map or interface, is a nil byte slice, or is or encodes to
   JSON text that its reader finds to be null.
   */
  predicate GivesNull(f: FieldPlan, fv: GoValue, dialect: Dialect) {
    var v := DerefValue(fv);
    || v.Nil? || v.NilByteSeq?
    || (v.RawValue? && NullText(v.text, dialect))
    || (f.convert == AsJson && EncodedJson(v).Some? && NullText(EncodedJson(v).value, dialect))
  }

  lemma JsonScalarNull(f: FieldPlan, fv: GoValue, dialect: Dialect)
    requires f.fieldType == JSONField && (f.convert == RawMessage || f.convert == AsJson) && MarshalScalar(f, fv).Some?
    ensures NullElement(MarshalScalar(f, fv).value, SchemaField(f), dialect) <==> GivesNull(f, fv, dialect)
  {
  }

  lemma KindScalarNull(f: FieldPlan, fv: GoValue, dialect: Dialect)
    requires f.fieldType != JSONField && f.convert != RawMessage && f.convert != AsJson && MarshalScalar(f, fv).Some?
    ensures NullElement(MarshalScalar(f, fv).value, SchemaField(f), dialect) <==> GivesNull(f, fv, dialect)
  {
  }

  lemma ScalarGivesNull(f: FieldPlan, et: GoType, tag: Tag, fv: GoValue, dialect: Dialect)
    requires PlannedFor(f, et, tag) && MarshalScalar(f, fv).Some?
    ensures NullElement(MarshalScalar(f, fv).value, SchemaField(f), dialect) <==> GivesNull(f, fv, dialect)
  {
    Resolves(f, et, tag);
    if f.fieldType == JSONField {
      JsonScalarNull(f, fv, dialect);
    } else {
      KindScalarNull(f, fv, dialect);
    }
  }

  /**
   A REQUIRED column of a rendered struct is null in the text of its row exactly when its
   field holds a nil byte slice or, for a load job, JSON text that is null: the renderer sees
   neither as NULL.
   */
  lemma RequiredIsNullExactlyWhen(
      t: GoType, plan: Plan, v: GoValue, row: map<string, Value>, i: nat, dialect: Dialect, valid: Validity, e: Encoder)
    requires Plain(e) && DistinctColumns(t) && BuildRowPlan(t) == Ok(plan)
    requires HasType(v, t) && !v.Pointer? && MarshalRow(plan, v) == Some(row)
    requires i < |plan| && plan[i].required && JsonObject(row, SchemaOf(plan), dialect, valid).Some?
    ensures v.StructValue? && i < |v.fields| && v.fields[i].Present? && plan[i].name in row
    ensures MemberText(row, SchemaOf(plan), dialect, valid, e, plan[i].name) == NullMember(plan[i].name)
       <==> GivesNull(plan[i], v.fields[i].value, dialect)
  {
    var f := plan[i];
    RowParts(t, plan, v, row);
    RowsMatchTheirSchema(t, plan, v, row);
    SchemaDistinct(t, plan);
    MemberIsNullExactlyWhen(row, SchemaOf(plan), i, dialect, valid, e, !NearRats(t));
    RequiredIsFilled(row, SchemaOf(plan), i, dialect, valid);
    PlannedField(t.columns[i], f);
    assert !f.repeated;
    ScalarGivesNull(f, ElementType(t.columns[i].typ), t.columns[i].tag, v.fields[i].value, dialect);
  }

  lemma RequiredIsFilled(row: map<string, Value>, schema: seq<Field>, i: nat, dialect: Dialect, valid: Validity)
    requires RecDistinct(schema) && i < |schema| && schema[i].required && schema[i].name in row
    requires JsonObject(row, schema, dialect, valid).Some?
    ensures !row[schema[i].name].Null?
  {
    ByNameAt(schema, i);
  }

  /**
   An element of a REPEATED column of a rendered struct is null in the text of its row exactly
   when it ends in nil, is a nil byte slice, or gives JSON text that its reader finds to be
   null; none of these is refused.
   */
  lemma ArrayElementIsNullExactlyWhen(
      t: GoType, plan: Plan, v: GoValue, row: map<string, Value>, i: nat, k: nat, dialect: Dialect, valid: Validity, e: Encoder)
    requires Plain(e) && DistinctColumns(t) && BuildRowPlan(t) == Ok(plan)
    requires HasType(v, t) && !v.Pointer? && MarshalRow(plan, v) == Some(row)
    requires i < |plan| && plan[i].repeated && JsonObject(row, SchemaOf(plan), dialect, valid).Some?
    requires plan[i].name in row && row[plan[i].name].List? && k < |row[plan[i].name].elements|
    ensures v.StructValue? && i < |v.fields| && v.fields[i].Present?
    ensures DerefValue(v.fields[i].value).SeqValue? && k < |DerefValue(v.fields[i].value).elements|
    ensures var rendered := JsonObject(row, SchemaOf(plan), dialect, valid).value[plan[i].name];
            rendered.JArray? && |rendered.elements| == |row[plan[i].name].elements|
    ensures ElementText(row, SchemaOf(plan), dialect, valid, e, plan[i].name, k) == Some("null")
       <==> GivesNull(plan[i], DerefValue(v.fields[i].value).elements[k], dialect)
  {
    var f := plan[i];
    RowParts(t, plan, v, row);
    RowsMatchTheirSchema(t, plan, v, row);
    SchemaDistinct(t, plan);
    ElementIsNullExactlyWhen(row, SchemaOf(plan), i, k, dialect, valid, e, !NearRats(t));
    RepeatedElement(f, v.fields[i], k);
    PlannedField(t.columns[i], f);
    ScalarGivesNull(f, ElementType(t.columns[i].typ), t.columns[i].tag,
                    DerefValue(v.fields[i].value).elements[k], dialect);
  }

  lemma RepeatedElement(f: FieldPlan, field: FieldValue, k: nat)
    requires f.repeated && MarshalValue(f, field).Some? && MarshalValue(f, field).value.List?
    requires k < |MarshalValue(f, field).value.elements|
    ensures field.Present? && DerefValue(field.value).SeqValue? && k < |DerefValue(field.value).elements|
    ensures MarshalScalar(f, DerefValue(field.value).elements[k]) == Some(MarshalValue(f, field).value.elements[k])
  {
  }

  // ---- Both happen ----

  const REQUIRED_TAG := Tag(true, false, false, NoTimeOption, "")
  const NO_TAG := Tag(false, false, false, NoTimeOption, "")

  function BytesColumn(name: string): Column {
    Column(name, REQUIRED_TAG, ByteSeqType)
  }

  function BytesPlan(name: string): FieldPlan {
    FieldPlan(name, true, false, false, "", BytesField, ByKind, NoPlan)
  }

  lemma BytesTyped(name: string)
    ensures HasType(StructValue([Present(NilByteSeq, true)], None), StructType([BytesColumn(name)]))
    ensures DistinctColumns(StructType([BytesColumn(name)]))
    ensures BuildRowPlan(StructType([BytesColumn(name)])) == Ok([BytesPlan(name)])
  {
    OneFieldPlanned(StructType([BytesColumn(name)]), BytesPlan(name));
  }

  /** A nil byte slice in a REQUIRED BYTES field is written as null, for both transports. */
  lemma NilBytesInRequired(name: string, dialect: Dialect, valid: Validity, e: Encoder)
    requires Plain(e)
    ensures
      var t := StructType([BytesColumn(name)]);
      var v := StructValue([Present(NilByteSeq, true)], None);
      && HasType(v, t) && BuildRowPlan(t) == Ok([BytesPlan(name)])
      && MarshalRow([BytesPlan(name)], v) == Some(map[name := NilBytes])
      && EncodeRow(map[name := NilBytes], SchemaOf([BytesPlan(name)]), dialect, valid, e)
         == Some("{" + (Quote(name) + ":" + "null") + "}")
  {
    var t := StructType([BytesColumn(name)]);
    var v := StructValue([Present(NilByteSeq, true)], None);
    BytesTyped(name);
    OneFieldMarshalled(BytesPlan(name), v, NilBytes);
    OneFieldNull(t, BytesPlan(name), v, NilBytes, dialect, valid, e);
  }

  function PointersColumn(name: string): Column {
    Column(name, NO_TAG, SeqType(PointerType(StringType)))
  }

  function PointersPlan(name: string): FieldPlan {
    FieldPlan(name, false, true, false, "", StringField, ByKind, NoPlan)
  }

  lemma PointersPlanned(name: string)
    ensures BuildFieldPlan(PointersColumn(name)) == Ok(PointersPlan(name))
  {
    assert ElementType(PointersColumn(name).typ) == PointerType(StringType);
    assert Deref(PointerType(StringType)) == StringType;
  }

  lemma PointersText(name: string, dialect: Dialect, valid: Validity, e: Encoder)
    requires Plain(e)
    ensures EncodeRow(map[name := List([Null])], SchemaOf([PointersPlan(name)]), dialect, valid, e)
         == Some("{" + (Quote(name) + ":" + "[null]") + "}")
  {
    var f := PointersPlan(name);
    OneNullRenders(f, dialect, valid);
    OneFieldRenders(f, List([Null]), dialect, valid);
    OneNullArray(e);
    OneColumnText(map[name := List([Null])], SchemaOf([f]), dialect, valid, e, name);
  }

  lemma OneNullRenders(f: FieldPlan, dialect: Dialect, valid: Validity)
    requires f.repeated
    ensures JsonValue(List([Null]), SchemaField(f), dialect, valid) == Some(JArray([JNull]))
  {
    assert JsonElement([Null][0], SchemaField(f), dialect, valid) == Some(JNull);
    var elements := JsonValue(List([Null]), SchemaField(f), dialect, valid).value.elements;
    assert elements == [JNull];
  }

  lemma PointersTyped(name: string)
    ensures HasType(StructValue([Present(SeqValue([Nil]), false)], None), StructType([PointersColumn(name)]))
    ensures BuildRowPlan(StructType([PointersColumn(name)])) == Ok([PointersPlan(name)])
  {
    PointersPlanned(name);
    OneFieldPlanned(StructType([PointersColumn(name)]), PointersPlan(name));
    assert HasType(SeqValue([Nil]), SeqType(PointerType(StringType)));
  }

  lemma PointersMarshalled(name: string)
    ensures MarshalRow([PointersPlan(name)], StructValue([Present(SeqValue([Nil]), false)], None))
         == Some(map[name := List([Null])])
  {
    OneNilMarshals(PointersPlan(name));
    OneFieldMarshalled(PointersPlan(name), StructValue([Present(SeqValue([Nil]), false)], None), List([Null]));
  }

  /** An array holding one nil pointer is written as an array holding null, for both transports. */
  lemma NilPointerInArray(name: string, dialect: Dialect, valid: Validity, e: Encoder)
    requires Plain(e)
    ensures
      var t := StructType([PointersColumn(name)]);
      var v := StructValue([Present(SeqValue([Nil]), false)], None);
      && HasType(v, t) && BuildRowPlan(t) == Ok([PointersPlan(name)])
      && MarshalRow([PointersPlan(name)], v) == Some(map[name := List([Null])])
      && EncodeRow(map[name := List([Null])], SchemaOf([PointersPlan(name)]), dialect, valid, e)
         == Some("{" + (Quote(name) + ":" + "[null]") + "}")
  {
    PointersTyped(name);
    PointersMarshalled(name);
    PointersText(name, dialect, valid, e);
  }

  lemma OneNilMarshals(f: FieldPlan)
    requires f.convert == ByKind
    ensures MarshalRepeated(f, SeqValue([Nil])) == Some(List([Null]))
  {
    assert MarshalScalar(f, [Nil][0]) == Some(Null);
    var elements := MarshalRepeated(f, SeqValue([Nil])).value.elements;
    assert elements == [Null];
  }

  lemma OneNullArray(e: Encoder)
    ensures Encode(JArray([JNull]), e) == Some("[null]")
  {
    var texts := seq(1, i requires 0 <= i < 1 => Encode([JNull][i], e).value);
    assert texts == ["null"];
    assert "[" + Join(["null"]) + "]" == "[null]";
  }

  lemma OneFieldPlanned(t: GoType, f: FieldPlan)
    requires t.StructType? && |t.columns| == 1 && BuildFieldPlan(t.columns[0]) == Ok(f)
    ensures BuildRowPlan(t) == Ok([f])
  {
    assert t.columns[1..] == [];
    assert BuildFields(t.columns[1..]) == Ok([]);
    assert [f] + [] == [f];
  }

  lemma OneFieldMarshalled(f: FieldPlan, v: GoValue, value: Value)
    requires v.StructValue? && |v.fields| == 1 && MarshalValue(f, v.fields[0]) == Some(value)
    ensures MarshalRow([f], v) == Some(map[f.name := value])
  {
    assert MarshalFields([f][..0], v.fields[..0]) == Some(map[]);
  }

  lemma OneFieldRenders(f: FieldPlan, value: Value, dialect: Dialect, valid: Validity)
    requires JsonValue(value, SchemaField(f), dialect, valid).Some?
    ensures JsonObject(map[f.name := value], SchemaOf([f]), dialect, valid)
         == Some(map[f.name := JsonValue(value, SchemaField(f), dialect, valid).value])
  {
    var schema := SchemaOf([f]);
    assert schema == [SchemaField(f)];
    ByNameAt(schema, 0);
    var rendered := JsonObject(map[f.name := value], schema, dialect, valid);
    assert rendered.Some? && rendered.value.Keys == {f.name};
    assert rendered.value == map[f.name := JsonValue(value, SchemaField(f), dialect, valid).value];
  }

  lemma OneFieldNull(t: GoType, f: FieldPlan, v: GoValue, value: Value, dialect: Dialect, valid: Validity, e: Encoder)
    requires Plain(e) && DistinctColumns(t) && BuildRowPlan(t) == Ok([f]) && f.required && HasType(v, t) && v.StructValue?
    requires |v.fields| == 1 && v.fields[0].Present? && GivesNull(f, v.fields[0].value, dialect)
    requires MarshalRow([f], v) == Some(map[f.name := value])
    requires JsonValue(value, SchemaField(f), dialect, valid).Some?
    ensures EncodeRow(map[f.name := value], SchemaOf([f]), dialect, valid, e)
         == Some("{" + (Quote(f.name) + ":" + "null") + "}")
  {
    OneFieldRenders(f, value, dialect, valid);
    RequiredIsNullExactlyWhen(t, [f], v, map[f.name := value], 0, dialect, valid, e);
    OneColumnText(map[f.name := value], SchemaOf([f]), dialect, valid, e, f.name);
  }
}
