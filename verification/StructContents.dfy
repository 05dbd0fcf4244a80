/**
 What a struct's schema says and what its rows hold, told from the Go type, the tags and the
 values alone (plan.go:295-467, 479-620): which types have a plan, the column each field
 becomes, and the value each column is given, at every RECORD depth.
 */
module StructContents {
  import opened Wrappers
  import opened Schema
  import opened Values
  import opened RowPlan
  import opened StructRows

  // ---- The column a field becomes ----

  /** The column type of a field that is a t once pointers and repetition are seen through. */
  predicate IsColumnType(typ: FieldType, t: GoType, tag: Tag) {
    match t
    case StringType => typ == StringField
    case BoolType => typ == BooleanField
    case IntType => typ == IntegerField
    case UintType => typ == NumericField
    case RatType => typ == NumericField
    case FloatType => typ == FloatField
    case ByteSeqType => typ == BytesField
    case CivilDateType => typ == DateField
    case CivilTimeType => typ == TimeField
    case CivilDateTimeType => typ == DateTimeField
    case TimeType =>
      (match tag.time
       case NoTimeOption => typ == TimestampField
       case DateOption => typ == DateField
       case DateTimeOption => typ == DateTimeField
       case TimeOfDayOption => typ == TimeField
       case UnknownOption => false)
    case StructType(_) => typ == if tag.record then RecordField else JSONField
    case _ => (t.RawMessageType? || t.StringMapType? || t.InterfaceType?) && typ == JSONField
  }

  /** f is the column c declares; a RECORD column declares the columns of its struct. */
  predicate Declares(c: Column, f: Field)
    decreases c
  {
    var t := Deref(ElementType(c.typ));
    && f.name == c.name && f.description == c.tag.description && f.scale == 0
    && (f.repeated <==> Deref(c.typ).SeqType?)
    && (f.required <==> c.tag.required && !Deref(c.typ).SeqType?)
    && IsColumnType(f.typ, t, c.tag)
    && (if f.typ == RecordField then t.StructType? && DeclaresAll(t.columns, f.nested) else f.nested == [])
  }

  predicate DeclaresAll(columns: seq<Column>, schema: seq<Field>)
    decreases columns
  {
    |schema| == |columns| && forall i | 0 <= i < |columns| :: Declares(columns[i], schema[i])
  }

  lemma ElementTypePlanned(c: Column, f: FieldPlan)
    requires BuildFieldPlan(c) == Ok(f)
    ensures IsColumnType(f.fieldType, Deref(ElementType(c.typ)), c.tag)
    ensures f.name == c.name && f.description == c.tag.description
    ensures f.repeated <==> Deref(c.typ).SeqType?
    ensures f.required <==> c.tag.required && !Deref(c.typ).SeqType?
  {
  }

  lemma {:induction false} ColumnDeclared(c: Column, f: FieldPlan)
    requires BuildFieldPlan(c) == Ok(f)
    ensures Declares(c, SchemaField(f))
    decreases c, 1
  {
    ElementTypePlanned(c, f);
    PlannedField(c, f);
    Resolves(f, ElementType(c.typ), c.tag);
    if f.fieldType == RecordField {
      SchemaIsDeclared(Deref(ElementType(c.typ)), f.nested.plan);
    }
  }

  /** A plan's schema is what its type declares, column by column and at every RECORD depth. */
  lemma {:induction false} SchemaIsDeclared(t: GoType, plan: Plan)
    requires BuildRowPlan(t) == Ok(plan)
    ensures t.StructType? && DeclaresAll(t.columns, SchemaOf(plan))
    decreases t, 0
  {
    PlannedColumns(t.columns, plan);
    forall i | 0 <= i < |plan| ensures Declares(t.columns[i], SchemaOf(plan)[i]) {
      ColumnDeclared(t.columns[i], plan[i]);
    }
  }

  // ---- Which types have a plan ----

  /** A struct with columns, each of a type that bqsink has a column for under its tag. */
  predicate CanPlan(t: GoType)
    decreases t
  {
    t.StructType? && t.columns != [] && forall i | 0 <= i < |t.columns| :: CanPlanColumn(t.columns[i])
  }

  predicate CanPlanColumn(c: Column)
    decreases c
  {
    var t := Deref(ElementType(c.typ));
    if c.tag.time != NoTimeOption then t == TimeType && c.tag.time != UnknownOption
    else if t in {TimeType, CivilDateType, CivilTimeType, CivilDateTimeType, RatType} then true
    else if c.tag.record then CanPlan(t)
    else !t.SeqType? && !t.UnsupportedType?
  }

  lemma {:induction false} ColumnPlansExactlyWhen(c: Column)
    ensures BuildFieldPlan(c).Ok? <==> CanPlanColumn(c)
    decreases c, 1
  {
    PlansExactlyWhen(Deref(ElementType(c.typ)));
  }

  lemma {:induction false} FieldsPlan(columns: seq<Column>)
    ensures BuildFields(columns).Ok? <==> forall i | 0 <= i < |columns| :: BuildFieldPlan(columns[i]).Ok?
  {
    if columns != [] {
      FieldsPlan(columns[1..]);
      assert forall i | 1 <= i < |columns| :: columns[i] == columns[1..][i - 1];
      assert forall i | 0 <= i < |columns| - 1 :: columns[1..][i] == columns[i + 1];
    }
  }

  /** A type has a plan exactly when it is a struct with columns, all of types BigQuery has a column for. */
  lemma {:induction false} PlansExactlyWhen(t: GoType)
    ensures BuildRowPlan(t).Ok? <==> CanPlan(t)
    decreases t, 0
  {
    if t.StructType? {
      FieldsPlan(t.columns);
      forall i | 0 <= i < |t.columns| ensures BuildFieldPlan(t.columns[i]).Ok? <==> CanPlanColumn(t.columns[i]) {
        ColumnPlansExactlyWhen(t.columns[i]);
      }
      if BuildFields(t.columns).Ok? {
        PlannedColumns(t.columns, BuildFields(t.columns).value);
      }
    }
  }

  // ---- The value a column is given ----

  /** The instant itself, or the part of it that the tag's option asks for. */
  predicate IsPartOf(value: Value, time: Time, option: TimeOption) {
    match option
    case NoTimeOption => value == Instant(time)
    case DateOption => value == CivilDate(time.date)
    case DateTimeOption => value == CivilDateTime(time.dateTime)
    case TimeOfDayOption => value == CivilTime(time.clock)
    case UnknownOption => false
  }

  predicate IsJson(value: Value, json: Option<string>) {
    json.Some? && value == Text(json.value)
  }

  /** What a single value of type t, seen through its pointers, is written as: itself. */
  predicate ElementHolds(t: GoType, tag: Tag, fv: GoValue, value: Value)
    decreases t
  {
    var v := DerefValue(fv);
    if v.Nil? then value.Null?
    else
      match Deref(t)
      case StringType => v.StringValue? && value == Text(v.text)
      case BoolType => v.BoolValue? && value == Bool(v.b)
      case IntType => v.IntValue? && value == Int(v.i)
      case UintType => v.UintValue? && value.Rat? && value.r.num == v.n * value.r.den
      case FloatType => v.FloatValue? && value == Value.Float(v.f)
      case ByteSeqType => if v.NilByteSeq? then value.NilBytes? else v.ByteSeqValue? && value == Bytes(v.text)
      case RawMessageType => v.RawValue? && value == if v.text == "" then Null else Text(v.text)
      case TimeType => v.TimeValue? && IsPartOf(value, v.time, tag.time)
      case CivilDateType => v.DateValue? && value == CivilDate(v.text)
      case CivilTimeType => v.CivilTimeValue? && value == CivilTime(v.text)
      case CivilDateTimeType => v.CivilDateTimeValue? && value == CivilDateTime(v.text)
      case RatType => v.RatValue? && value == if fv.Pointer? && fv.elem.Pointer? then Foreign else Rat(v.r)
      case StructType(columns) =>
        && v.StructValue?
        && (if tag.record then value.Record? && RowHolds(columns, v.fields, value.columns) else IsJson(value, v.json))
      case StringMapType => v.DynamicValue? && IsJson(value, v.json)
      case InterfaceType => v.DynamicValue? && IsJson(value, v.json)
      case _ => false
  }

  /** There is nothing to write: a nil embedded pointer on the way, nil itself, or zero under nullifzero. */
  predicate Absent(c: Column, field: FieldValue) {
    || field.Missing? || DerefValue(field.value).Nil?
    || (c.tag.nullIfZero
        && (if Deref(c.typ).SeqType? then DerefValue(field.value) == SeqValue([]) else field.zero))
  }

  predicate FieldHolds(c: Column, field: FieldValue, value: Value)
    decreases c
  {
    if Absent(c, field) then value.Null?
    else if Deref(c.typ).SeqType? then
      var v := DerefValue(field.value);
      && v.SeqValue? && value.List? && |value.elements| == |v.elements|
      && forall i | 0 <= i < |v.elements| :: ElementHolds(ElementType(c.typ), c.tag, v.elements[i], value.elements[i])
    else ElementHolds(ElementType(c.typ), c.tag, field.value, value)
  }

  /** The row has the struct's columns and no others, each with its own field's value. */
  predicate RowHolds(columns: seq<Column>, fields: seq<FieldValue>, row: map<string, Value>)
    decreases columns
  {
    && |fields| == |columns|
    && row.Keys == (set i | 0 <= i < |columns| :: columns[i].name)
    && forall i | 0 <= i < |columns| :: columns[i].name in row && FieldHolds(columns[i], fields[i], row[columns[i].name])
  }

  /** What a plan without a conversion of its own is for. */
  lemma KindPlan(f: FieldPlan, et: GoType, tag: Tag)
    requires PlannedFor(f, et, tag) && f.convert == ByKind && f.fieldType != RecordField
    ensures Scalar(Deref(et)) && tag.time == NoTimeOption && f.nested.NoPlan?
  {
    Resolves(f, et, tag);
  }

  lemma KindHolds(t: GoType, tag: Tag, fv: GoValue, value: Value)
    requires Scalar(Deref(t)) && tag.time == NoTimeOption && KindValue(fv) == Some(value)
    requires DerefValue(fv).Nil? || HasType(DerefValue(fv), Deref(t))
    ensures ElementHolds(t, tag, fv, value)
  {
  }

  lemma KindOrNull(f: FieldPlan, t: GoType, tag: Tag, fv: GoValue)
    requires f.convert == ByKind && f.nested.NoPlan? && MarshalScalar(f, fv).Some?
    requires Scalar(Deref(t)) && tag.time == NoTimeOption
    requires DerefValue(fv).Nil? || HasType(DerefValue(fv), Deref(t))
    ensures ElementHolds(t, tag, fv, MarshalScalar(f, fv).value)
  {
    if !fv.Nil? {
      KindHolds(t, tag, fv, MarshalScalar(f, fv).value);
    }
  }

  /** What a plan with a conversion is for. */
  lemma ConvertPlan(f: FieldPlan, et: GoType, tag: Tag)
    requires PlannedFor(f, et, tag) && f.convert != ByKind
    ensures
      var t := Deref(et);
      match f.convert
      case RawMessage => t == RawMessageType
      case AsJson => (t.StructType? && !tag.record) || t.StringMapType? || t.InterfaceType?
      case ToDate => t == TimeType && tag.time == DateOption
      case ToDateTime => t == TimeType && tag.time == DateTimeOption
      case _ => t == TimeType && tag.time == TimeOfDayOption
  {
  }

  lemma ConvertHolds(f: FieldPlan, et: GoType, tag: Tag, fv: GoValue)
    requires PlannedFor(f, et, tag) && f.convert != ByKind
    requires DerefValue(fv).Nil? || HasType(DerefValue(fv), Deref(et))
    requires MarshalScalar(f, fv).Some?
    ensures ElementHolds(et, tag, fv, MarshalScalar(f, fv).value)
  {
    ConvertPlan(f, et, tag);
  }

  lemma {:induction false} ScalarHolds(f: FieldPlan, et: GoType, tag: Tag, t: GoType, fv: GoValue)
    requires PlannedFor(f, et, tag) && Deref(t) == Deref(et) && DistinctColumns(Deref(et))
    requires HasType(fv, t) && MarshalScalar(f, fv).Some?
    ensures ElementHolds(et, tag, fv, MarshalScalar(f, fv).value)
    decreases Deref(et), 1
  {
    DerefTyped(fv, t);
    Resolves(f, et, tag);
    if f.fieldType == RecordField {
      if !DerefValue(fv).Nil? {
        RowHoldsValues(Deref(et), f.nested.plan, DerefValue(fv), MarshalRow(f.nested.plan, fv).value);
      }
    } else if f.convert == ByKind {
      KindPlan(f, et, tag);
      KindOrNull(f, et, tag, fv);
    } else {
      ConvertHolds(f, et, tag, fv);
    }
  }

  /** A nil behind pointers is written as NULL, or not at all. */
  lemma NilIsNull(f: FieldPlan, fv: GoValue)
    requires DerefValue(fv).Nil? && MarshalScalar(f, fv).Some?
    ensures MarshalScalar(f, fv).value.Null?
  {
  }

  lemma AbsentIsNull(c: Column, f: FieldPlan, field: FieldValue)
    requires f.repeated == Deref(c.typ).SeqType? && f.nullIfZero == c.tag.nullIfZero
    requires Absent(c, field) && MarshalValue(f, field).Some?
    ensures MarshalValue(f, field).value.Null?
  {
    if field.Present? && !f.repeated && DerefValue(field.value).Nil? && !field.value.Nil? {
      if !(f.nullIfZero && field.zero) {
        NilIsNull(f, field.value);
      }
    }
  }

  /** A field that is there is marshalled as its kind demands. */
  lemma PresentIsMarshalled(c: Column, f: FieldPlan, field: FieldValue)
    requires f.repeated == Deref(c.typ).SeqType? && f.nullIfZero == c.tag.nullIfZero && !Absent(c, field)
    ensures MarshalValue(f, field) == if f.repeated then MarshalRepeated(f, field.value) else MarshalScalar(f, field.value)
  {
  }

  lemma {:induction false} ElementsHold(f: FieldPlan, et: GoType, tag: Tag, fv: GoValue)
    requires PlannedFor(f, et, tag) && DistinctColumns(Deref(et)) && HasType(DerefValue(fv), SeqType(et))
    requires MarshalRepeated(f, fv).Some?
    ensures
      var v, value := DerefValue(fv), MarshalRepeated(f, fv).value;
      && v.SeqValue? && value.List? && |value.elements| == |v.elements|
      && forall i | 0 <= i < |v.elements| :: ElementHolds(et, tag, v.elements[i], value.elements[i])
    decreases Deref(et), 2
  {
    var v, value := DerefValue(fv), MarshalRepeated(f, fv).value;
    forall i | 0 <= i < |v.elements| ensures ElementHolds(et, tag, v.elements[i], value.elements[i]) {
      ScalarHolds(f, et, tag, et, v.elements[i]);
    }
  }

  lemma {:induction false} FieldHoldsValue(c: Column, f: FieldPlan, field: FieldValue)
    requires BuildFieldPlan(c) == Ok(f) && DistinctColumns(c.typ)
    requires field.Present? ==> HasType(field.value, c.typ)
    requires MarshalValue(f, field).Some?
    ensures FieldHolds(c, field, MarshalValue(f, field).value)
    decreases c.typ, 3
  {
    var et := ElementType(c.typ);
    PlannedField(c, f);
    TagPlanned(c, f);
    DerefDistinct(c.typ);
    DerefDistinct(et);
    if Absent(c, field) {
      AbsentIsNull(c, f, field);
    } else {
      DerefTyped(field.value, c.typ);
      PresentIsMarshalled(c, f, field);
      if f.repeated {
        ElementsHold(f, et, c.tag, field.value);
      } else {
        ScalarHolds(f, et, c.tag, c.typ, field.value);
      }
    }
  }

  lemma TagPlanned(c: Column, f: FieldPlan)
    requires BuildFieldPlan(c) == Ok(f)
    ensures f.nullIfZero == c.tag.nullIfZero
    ensures f.repeated ==> Deref(c.typ) == SeqType(ElementType(c.typ))
    ensures !f.repeated ==> Deref(ElementType(c.typ)) == Deref(c.typ)
  {
  }

  lemma PlanNamesAre(columns: seq<Column>, plan: Plan)
    requires |plan| == |columns| && forall i | 0 <= i < |plan| :: plan[i].name == columns[i].name
    ensures PlanNames(plan) == set i | 0 <= i < |columns| :: columns[i].name
  {
    forall x ensures x in PlanNames(plan) <==> x in (set i | 0 <= i < |columns| :: columns[i].name) {
      if x in PlanNames(plan) {
        var i :| 0 <= i < |plan| && plan[i].name == x;
        assert columns[i].name == x;
      }
      if i :| 0 <= i < |columns| && columns[i].name == x {
        assert plan[i].name == x;
      }
    }
  }

  /**
   Every field of a marshalled struct arrives in its own column as it is, seen through its
   pointers, at every RECORD depth and in every array element; a column is NULL only for a field
   with nothing to write or an empty raw message.
   */
  lemma {:induction false} RowHoldsValues(t: GoType, plan: Plan, rv: GoValue, row: map<string, Value>)
    requires DistinctColumns(t) && BuildRowPlan(t) == Ok(plan)
    requires HasType(DerefValue(rv), t) && MarshalRow(plan, rv) == Some(row)
    ensures DerefValue(rv).StructValue? && RowHolds(t.columns, DerefValue(rv).fields, row)
    decreases t, 0
  {
    var v := DerefValue(rv);
    RowParts(t, plan, v, row);
    PlannedColumns(t.columns, plan);
    PlanNamesAre(t.columns, plan);
    forall i | 0 <= i < |plan|
      ensures t.columns[i].name in row && FieldHolds(t.columns[i], v.fields[i], row[t.columns[i].name])
    {
      assert t.columns[i].typ < t;
      assert plan[i].name in PlanNames(plan);
      FieldHoldsValue(t.columns[i], plan[i], v.fields[i]);
    }
  }

  /** A column is NULL exactly when its field has nothing to write or is an empty raw message. */
  lemma NullExactlyWhen(t: GoType, plan: Plan, rv: GoValue, row: map<string, Value>, i: nat)
    requires DistinctColumns(t) && BuildRowPlan(t) == Ok(plan)
    requires HasType(DerefValue(rv), t) && MarshalRow(plan, rv) == Some(row) && i < |plan|
    ensures DerefValue(rv).StructValue? && i < |DerefValue(rv).fields| && i < |t.columns| && t.columns[i].name in row
    ensures
      var c, field := t.columns[i], DerefValue(rv).fields[i];
      row[c.name].Null? <==> Absent(c, field) || (!Deref(c.typ).SeqType? && DerefValue(field.value) == RawValue(""))
  {
    RowHoldsValues(t, plan, rv, row);
    PlannedColumns(t.columns, plan);
    HoldsNull(t.columns[i], DerefValue(rv).fields[i], row[t.columns[i].name]);
  }

  lemma HoldsNull(c: Column, field: FieldValue, value: Value)
    requires FieldHolds(c, field, value)
    ensures value.Null? <==> Absent(c, field) || (!Deref(c.typ).SeqType? && DerefValue(field.value) == RawValue(""))
  {
  }
}
