/**
 The columns a struct's schema declares and the columns its rows write cannot drift apart
 (plan.go:121-126): rows have their schema's shape at every depth, so the renderer can
 refuse them only for a NULL in a REQUIRED column or for raw text that is not JSON.
 */
module StructRows {
  import opened Wrappers
  import opened Schema
  import opened Values
  import opened JsonRow
  import opened RowPlan
  import Columns
  import EmbeddingPaths
  import Promotion

  // ---- Values of a type ----

  predicate HasType(v: GoValue, t: GoType)
    decreases v
  {
    match t
    case StringType => v.StringValue?
    case BoolType => v.BoolValue?
    case IntType => v.IntValue?
    case UintType => v.UintValue?
    case FloatType => v.FloatValue?
    case ByteSeqType => v.ByteSeqValue? || v.NilByteSeq?
    case RawMessageType => v.RawValue?
    case TimeType => v.TimeValue?
    case CivilDateType => v.DateValue?
    case CivilTimeType => v.CivilTimeValue?
    case CivilDateTimeType => v.CivilDateTimeValue?
    case RatType => v.RatValue?
    case PointerType(elem) => v.Nil? || (v.Pointer? && HasType(v.elem, elem))
    case SeqType(elem) => v.SeqValue? && forall i | 0 <= i < |v.elements| :: HasType(v.elements[i], elem)
    case StructType(columns) =>
      && v.StructValue? && |v.fields| == |columns|
      && forall i | 0 <= i < |columns| :: v.fields[i].Present? ==> HasType(v.fields[i].value, columns[i].typ)
    case StringMapType => v.Nil? || v.DynamicValue?
    case InterfaceType => v.Nil? || v.DynamicValue?
    case UnsupportedType => v.Nil? || v.DynamicValue?
  }

  /** Column names are distinct in every struct, as collectFields leaves them. */
  predicate DistinctColumns(t: GoType)
    decreases t
  {
    match t
    case PointerType(elem) => DistinctColumns(elem)
    case SeqType(elem) => DistinctColumns(elem)
    case StructType(columns) =>
      && (forall i, j | 0 <= i < j < |columns| :: columns[i].name != columns[j].name)
      && (forall i | 0 <= i < |columns| :: DistinctColumns(columns[i].typ))
    case _ => true
  }

  /** Every json.RawMessage in v is empty or valid JSON text. */
  predicate RawValid(v: GoValue, valid: Validity)
    decreases v
  {
    match v
    case RawValue(text) => text == "" || valid(text)
    case Pointer(elem) => RawValid(elem, valid)
    case SeqValue(elements) => forall i | 0 <= i < |elements| :: RawValid(elements[i], valid)
    case StructValue(fields, _) => forall i | 0 <= i < |fields| :: fields[i].Present? ==> RawValid(fields[i].value, valid)
    case _ => true
  }

  /** encoding/json writes valid JSON where it succeeds. */
  predicate EncoderSound(v: GoValue, valid: Validity)
    decreases v
  {
    && (EncodedJson(v).Some? ==> valid(EncodedJson(v).value))
    && match v
       case Pointer(elem) => EncoderSound(elem, valid)
       case SeqValue(elements) => forall i | 0 <= i < |elements| :: EncoderSound(elements[i], valid)
       case StructValue(fields, _) => forall i | 0 <= i < |fields| :: fields[i].Present? ==> EncoderSound(fields[i].value, valid)
       case _ => true
  }

  lemma {:induction false} DerefTyped(v: GoValue, t: GoType)
    requires HasType(v, t)
    ensures DerefValue(v).Nil? || HasType(DerefValue(v), Deref(t))
    decreases v
  {
    if t.PointerType? && v.Pointer? {
      DerefTyped(v.elem, t.elem);
    }
  }

  lemma {:induction false} DerefTexts(v: GoValue, valid: Validity)
    ensures RawValid(v, valid) ==> RawValid(DerefValue(v), valid)
    ensures EncoderSound(v, valid) ==> EncoderSound(DerefValue(v), valid)
    decreases v
  {
    if v.Pointer? {
      DerefTexts(v.elem, valid);
    }
  }

  lemma {:induction false} DerefDistinct(t: GoType)
    requires DistinctColumns(t)
    ensures DistinctColumns(Deref(t)) && DistinctColumns(ElementType(t))
    decreases t
  {
    if t.PointerType? {
      DerefDistinct(t.elem);
    }
  }

  // ---- The plan, column by column ----

  lemma {:induction false} PlannedColumns(columns: seq<Column>, plan: Plan)
    requires BuildFields(columns) == Ok(plan)
    ensures |plan| == |columns|
    ensures forall i | 0 <= i < |plan| :: BuildFieldPlan(columns[i]) == Ok(plan[i]) && plan[i].name == columns[i].name
  {
    if columns != [] {
      PlannedColumns(columns[1..], plan[1..]);
      forall i | 0 <= i < |plan|
        ensures BuildFieldPlan(columns[i]) == Ok(plan[i]) && plan[i].name == columns[i].name
      {
        if i > 0 {
          assert columns[i] == columns[1..][i - 1] && plan[i] == plan[1..][i - 1];
        }
      }
    }
  }

  /** f is planned for values of element type et: what buildFieldPlan and resolveType settle. */
  predicate PlannedFor(f: FieldPlan, et: GoType, tag: Tag) {
    ResolveType(et, tag) == Ok(Resolved(f.fieldType, f.convert, f.nested))
  }

  /** Which conversion a column type comes with. */
  lemma Resolves(f: FieldPlan, et: GoType, tag: Tag)
    requires PlannedFor(f, et, tag)
    ensures f.fieldType == RecordField <==> f.nested.Nested?
    ensures f.fieldType == RecordField ==>
              f.convert == ByKind && Deref(et).StructType? && BuildRowPlan(Deref(et)) == Ok(f.nested.plan)
    ensures f.fieldType == JSONField <==> f.convert == RawMessage || f.convert == AsJson
    ensures f.convert == RawMessage ==> Deref(et) == RawMessageType
    ensures f.convert == AsJson ==> Deref(et).StructType? || Deref(et).StringMapType? || Deref(et).InterfaceType?
    ensures f.convert == ToDate || f.convert == ToDateTime || f.convert == ToTimeOfDay ==> Deref(et) == TimeType
    ensures f.convert == ByKind && f.fieldType != RecordField ==> Scalar(Deref(et))
  {
  }

  /** The types marshalScalar converts without a plan or a marshaler of their own. */
  predicate Scalar(t: GoType) {
    t.StringType? || t.BoolType? || t.IntType? || t.UintType? || t.FloatType? || t.ByteSeqType?
    || t.TimeType? || t.CivilDateType? || t.CivilTimeType? || t.CivilDateTimeType? || t.RatType?
  }

  lemma PlannedField(c: Column, f: FieldPlan)
    requires BuildFieldPlan(c) == Ok(f)
    ensures PlannedFor(f, ElementType(c.typ), c.tag) && f.repeated == Deref(c.typ).SeqType?
  {
  }

  predicate DistinctPlan(plan: Plan) {
    forall i, j | 0 <= i < j < |plan| :: plan[i].name != plan[j].name
  }

  function PlanNames(plan: Plan): set<string> {
    set i | 0 <= i < |plan| :: plan[i].name
  }

  lemma PlanNamesGrow(plan: Plan)
    requires plan != []
    ensures PlanNames(plan) == PlanNames(plan[..|plan|-1]) + {plan[|plan|-1].name}
  {
    var n := |plan| - 1;
    forall x | x in PlanNames(plan[..n]) ensures x in PlanNames(plan) {
      var k :| 0 <= k < n && plan[..n][k].name == x;
      assert plan[k].name == x;
    }
    forall x | x in PlanNames(plan) ensures x in PlanNames(plan[..n]) + {plan[n].name} {
      var k :| 0 <= k < |plan| && plan[k].name == x;
      assert k < n ==> plan[..n][k].name == x;
    }
  }

  lemma MarshalLast(plan: Plan, fields: seq<FieldValue>, row: map<string, Value>)
    requires |plan| == |fields| && plan != [] && MarshalFields(plan, fields) == Some(row)
    ensures
      var n := |plan| - 1;
      && MarshalFields(plan[..n], fields[..n]).Some? && MarshalValue(plan[n], fields[n]).Some?
      && row == MarshalFields(plan[..n], fields[..n]).value[plan[n].name := MarshalValue(plan[n], fields[n]).value]
  {
  }

  /** The row has one entry per column, each the column's own value. */
  lemma {:induction false} MarshalledColumns(plan: Plan, fields: seq<FieldValue>, row: map<string, Value>)
    requires |plan| == |fields| && DistinctPlan(plan) && MarshalFields(plan, fields) == Some(row)
    ensures row.Keys == PlanNames(plan)
    ensures forall i | 0 <= i < |plan| :: MarshalValue(plan[i], fields[i]) == Some(row[plan[i].name])
  {
    if plan != [] {
      var n := |plan| - 1;
      var before := MarshalFields(plan[..n], fields[..n]).value;
      MarshalLast(plan, fields, row);
      PlanNamesGrow(plan);
      MarshalledColumns(plan[..n], fields[..n], before);
      forall i | 0 <= i < n ensures MarshalValue(plan[i], fields[i]) == Some(row[plan[i].name]) {
        assert plan[..n][i] == plan[i] && fields[..n][i] == fields[i] && plan[i].name != plan[n].name;
      }
    }
  }

  lemma SchemaNames(plan: Plan)
    ensures Names(SchemaOf(plan)) == PlanNames(plan)
  {
    forall x ensures x in Names(SchemaOf(plan)) <==> x in PlanNames(plan) {
      if x in PlanNames(plan) {
        var k :| 0 <= k < |plan| && plan[k].name == x;
        assert SchemaOf(plan)[k].name == x;
      }
      if x in Names(SchemaOf(plan)) {
        var k :| 0 <= k < |SchemaOf(plan)| && SchemaOf(plan)[k].name == x;
        assert plan[k].name == x;
      }
    }
  }

  // ---- The schema is duplicate-free ----

  lemma {:induction false} NestedDistinct(c: Column, f: FieldPlan)
    requires DistinctColumns(c.typ) && BuildFieldPlan(c) == Ok(f) && f.fieldType == RecordField
    ensures RecDistinct(SchemaField(f).nested)
    decreases c.typ, 1
  {
    DerefDistinct(c.typ);
    DerefDistinct(ElementType(c.typ));
    PlannedField(c, f);
    Resolves(f, ElementType(c.typ), c.tag);
    SchemaDistinct(Deref(ElementType(c.typ)), f.nested.plan);
  }

  lemma {:induction false} SchemaDistinct(t: GoType, plan: Plan)
    requires DistinctColumns(t) && BuildRowPlan(t) == Ok(plan)
    ensures RecDistinct(SchemaOf(plan))
    decreases t, 0
  {
    PlannedColumns(t.columns, plan);
    forall i | 0 <= i < |plan| && plan[i].fieldType == RecordField ensures RecDistinct(SchemaField(plan[i]).nested) {
      assert t.columns[i].typ < t;
      NestedDistinct(t.columns[i], plan[i]);
    }
  }

  // ---- Structs whose columns collectFields found ----

  ghost predicate Collects(g: EmbeddingPaths.Graph, root: nat, kept: seq<Promotion.Candidate>, columns: seq<Column>) {
    && root < |g| && Columns.AreColumns(g, root, kept)
    && |kept| == |columns| && forall i | 0 <= i < |kept| :: kept[i].name == columns[i].name
  }

  /** Every struct in t has the columns collectFields keeps of some declared type. */
  ghost predicate Derived(g: EmbeddingPaths.Graph, t: GoType)
    decreases t
  {
    match t
    case PointerType(elem) => Derived(g, elem)
    case SeqType(elem) => Derived(g, elem)
    case StructType(columns) =>
      && (exists root, kept :: Collects(g, root, kept, columns))
      && (forall i | 0 <= i < |columns| :: Derived(g, columns[i].typ))
    case _ => true
  }

  lemma {:induction false} DerivedIsDistinct(g: EmbeddingPaths.Graph, t: GoType)
    requires Derived(g, t)
    ensures DistinctColumns(t)
    decreases t
  {
    match t
    case PointerType(elem) => DerivedIsDistinct(g, elem);
    case SeqType(elem) => DerivedIsDistinct(g, elem);
    case StructType(columns) =>
      var root, kept :| Collects(g, root, kept, columns);
      Columns.ColumnNamesDistinct(g, root, kept);
      forall i | 0 <= i < |columns| ensures DistinctColumns(columns[i].typ) {
        DerivedIsDistinct(g, columns[i].typ);
      }
    case _ =>
  }

  /** A derived schema names no column twice, at any RECORD depth. */
  lemma DerivedSchemaDistinct(g: EmbeddingPaths.Graph, t: GoType, plan: Plan)
    requires Derived(g, t) && BuildRowPlan(t) == Ok(plan)
    ensures RecDistinct(SchemaOf(plan))
  {
    DerivedIsDistinct(g, t);
    SchemaDistinct(t, plan);
  }

  // ---- The row has the schema's shape ----

  predicate ElementGood(value: Value, field: Field, fv: GoValue, valid: Validity) {
    && ElementShape(value, field)
    && (RawValid(fv, valid) && EncoderSound(fv, valid) ==> ElementTexts(value, field, valid))
  }

  /** A column that is neither RECORD nor JSON holds anything but a nil *big.Rat. */
  lemma KindShape(f: FieldPlan, et: GoType, tag: Tag, fv: GoValue, valid: Validity)
    requires PlannedFor(f, et, tag) && f.fieldType != RecordField && f.fieldType != JSONField
    requires MarshalScalar(f, fv).Some?
    ensures ElementGood(MarshalScalar(f, fv).value, SchemaField(f), fv, valid)
  {
    Resolves(f, et, tag);
  }

  /** A JSON column holds text: the raw message's own, or what encoding/json wrote. */
  lemma JsonShape(f: FieldPlan, et: GoType, tag: Tag, fv: GoValue, valid: Validity)
    requires PlannedFor(f, et, tag) && f.fieldType == JSONField
    requires MarshalScalar(f, fv).Some?
    ensures ElementGood(MarshalScalar(f, fv).value, SchemaField(f), fv, valid)
  {
    Resolves(f, et, tag);
    if f.convert == RawMessage {
      RawShape(f, fv, valid);
    } else {
      EncodedShape(f, fv, valid);
    }
  }

  lemma RawShape(f: FieldPlan, fv: GoValue, valid: Validity)
    requires f.fieldType == JSONField && f.convert == RawMessage && MarshalScalar(f, fv).Some?
    ensures ElementGood(MarshalScalar(f, fv).value, SchemaField(f), fv, valid)
  {
    DerefTexts(fv, valid);
  }

  lemma EncodedShape(f: FieldPlan, fv: GoValue, valid: Validity)
    requires f.fieldType == JSONField && f.convert == AsJson && MarshalScalar(f, fv).Some?
    ensures ElementGood(MarshalScalar(f, fv).value, SchemaField(f), fv, valid)
  {
    DerefTexts(fv, valid);
  }

  lemma {:induction false} ScalarShape(f: FieldPlan, et: GoType, tag: Tag, t: GoType, fv: GoValue, valid: Validity)
    requires PlannedFor(f, et, tag) && Deref(t) == Deref(et) && DistinctColumns(Deref(et))
    requires HasType(fv, t) && MarshalScalar(f, fv).Some?
    ensures ElementGood(MarshalScalar(f, fv).value, SchemaField(f), fv, valid)
    decreases Deref(et), 2
  {
    if f.fieldType == JSONField {
      JsonShape(f, et, tag, fv, valid);
    } else if f.fieldType != RecordField {
      KindShape(f, et, tag, fv, valid);
    } else if !fv.Nil? {
      Resolves(f, et, tag);
      RecordShape(f, et, t, fv, valid);
    } else {
      Resolves(f, et, tag);
    }
  }

  lemma {:induction false} RecordShape(f: FieldPlan, et: GoType, t: GoType, fv: GoValue, valid: Validity)
    requires f.fieldType == RecordField && f.convert == ByKind && f.nested.Nested?
    requires BuildRowPlan(Deref(et)) == Ok(f.nested.plan)
    requires Deref(t) == Deref(et) && DistinctColumns(Deref(et))
    requires HasType(fv, t) && !fv.Nil? && MarshalScalar(f, fv).Some?
    ensures ElementGood(MarshalScalar(f, fv).value, SchemaField(f), fv, valid)
    decreases Deref(et), 1
  {
    DerefTyped(fv, t);
    DerefTexts(fv, valid);
    var row := MarshalRow(f.nested.plan, fv).value;
    RowShapeOf(Deref(et), f.nested.plan, DerefValue(fv), row, valid);
  }

  predicate FieldGood(value: Value, field: Field, fv: FieldValue, valid: Validity) {
    && ValueShape(value, field)
    && (fv.Missing? || (RawValid(fv.value, valid) && EncoderSound(fv.value, valid)) ==> ValueTexts(value, field, valid))
  }

  lemma {:induction false} ElementsShape(c: Column, f: FieldPlan, fv: GoValue, valid: Validity)
    requires BuildFieldPlan(c) == Ok(f) && DistinctColumns(c.typ) && f.repeated && HasType(fv, c.typ)
    requires MarshalRepeated(f, fv).Some? && !MarshalRepeated(f, fv).value.Null?
    ensures FieldGood(MarshalRepeated(f, fv).value, SchemaField(f), Present(fv, false), valid)
    decreases c.typ, 3
  {
    var et, v, value := ElementType(c.typ), DerefValue(fv), MarshalRepeated(f, fv).value;
    PlannedField(c, f);
    DerefTyped(fv, c.typ);
    DerefTexts(fv, valid);
    DerefDistinct(c.typ);
    DerefDistinct(et);
    forall i | 0 <= i < |v.elements|
      ensures ElementGood(value.elements[i], SchemaField(f), v.elements[i], valid)
    {
      ScalarShape(f, et, c.tag, et, v.elements[i], valid);
    }
  }

  lemma {:induction false} FieldShape(c: Column, f: FieldPlan, field: FieldValue, valid: Validity)
    requires BuildFieldPlan(c) == Ok(f) && DistinctColumns(c.typ)
    requires field.Present? ==> HasType(field.value, c.typ)
    requires MarshalValue(f, field).Some?
    ensures FieldGood(MarshalValue(f, field).value, SchemaField(f), field, valid)
    decreases c.typ, 4
  {
    if field.Present? && !MarshalValue(f, field).value.Null? {
      if f.repeated {
        ElementsShape(c, f, field.value, valid);
      } else {
        PlannedField(c, f);
        DerefDistinct(c.typ);
        DerefDistinct(ElementType(c.typ));
        ScalarShape(f, ElementType(c.typ), c.tag, c.typ, field.value, valid);
      }
    }
  }

  /** What a marshalled row is made of: one entry per column, each the column's own value. */
  lemma RowParts(t: GoType, plan: Plan, v: GoValue, row: map<string, Value>)
    requires DistinctColumns(t) && BuildRowPlan(t) == Ok(plan)
    requires HasType(v, t) && !v.Pointer? && MarshalRow(plan, v) == Some(row)
    ensures v.StructValue? && |v.fields| == |plan| == |t.columns|
    ensures row.Keys == PlanNames(plan) == Names(SchemaOf(plan))
    ensures forall i | 0 <= i < |plan| ::
              && BuildFieldPlan(t.columns[i]) == Ok(plan[i])
              && DistinctColumns(t.columns[i].typ)
              && (v.fields[i].Present? ==> HasType(v.fields[i].value, t.columns[i].typ))
              && MarshalValue(plan[i], v.fields[i]) == Some(row[plan[i].name])
  {
    PlannedColumns(t.columns, plan);
    assert DistinctPlan(plan);
    MarshalledColumns(plan, v.fields, row);
    SchemaNames(plan);
  }

  lemma {:induction false} RowShapeOf(t: GoType, plan: Plan, v: GoValue, row: map<string, Value>, valid: Validity)
    requires DistinctColumns(t) && BuildRowPlan(t) == Ok(plan)
    requires HasType(v, t) && !v.Pointer? && MarshalRow(plan, v) == Some(row)
    ensures RowShape(row, SchemaOf(plan))
    ensures RawValid(v, valid) && EncoderSound(v, valid) ==> RowTexts(row, SchemaOf(plan), valid)
    decreases t, 0
  {
    RowParts(t, plan, v, row);
    forall i | 0 <= i < |plan| ensures FieldGood(row[plan[i].name], SchemaField(plan[i]), v.fields[i], valid) {
      assert t.columns[i].typ < t;
      FieldShape(t.columns[i], plan[i], v.fields[i], valid);
    }
    ColumnsMakeRow(plan, v, row, valid);
  }

  lemma ColumnsMakeRow(plan: Plan, v: GoValue, row: map<string, Value>, valid: Validity)
    requires row.Keys == Names(SchemaOf(plan)) == PlanNames(plan) && v.StructValue? && |v.fields| == |plan|
    requires forall i | 0 <= i < |plan| :: FieldGood(row[plan[i].name], SchemaField(plan[i]), v.fields[i], valid)
    ensures RowShape(row, SchemaOf(plan))
    ensures RawValid(v, valid) && EncoderSound(v, valid) ==> RowTexts(row, SchemaOf(plan), valid)
  {
    var schema := SchemaOf(plan);
    forall i | 0 <= i < |schema| ensures ValueShape(row[schema[i].name], schema[i]) {
      assert FieldGood(row[plan[i].name], SchemaField(plan[i]), v.fields[i], valid);
    }
    if RawValid(v, valid) && EncoderSound(v, valid) {
      forall i | 0 <= i < |schema| ensures ValueTexts(row[schema[i].name], schema[i], valid) {
        assert FieldGood(row[plan[i].name], SchemaField(plan[i]), v.fields[i], valid);
      }
    }
  }

  // ---- The values have their columns' types ----

  /** No big.Rat is behind more than one pointer: such a one is written as the pointer it is. */
  predicate NearRats(t: GoType)
    decreases t
  {
    match t
    case PointerType(elem) => !(elem.PointerType? && Deref(elem) == RatType) && NearRats(elem)
    case SeqType(elem) => NearRats(elem)
    case StructType(columns) => forall i | 0 <= i < |columns| :: NearRats(columns[i].typ)
    case _ => true
  }

  lemma {:induction false} NearDeref(t: GoType, far: bool)
    requires far || NearRats(t)
    ensures far || (NearRats(Deref(t)) && NearRats(ElementType(t)))
    decreases t
  {
    if t.PointerType? {
      NearDeref(t.elem, far);
    }
  }

  /** The column type of a Go type converted by its kind. */
  function KindField(t: GoType): FieldType
    requires Scalar(t)
  {
    if WellKnown(t).Some? then WellKnown(t).value else ResolveKind(t).value.fieldType
  }

  lemma KindPlanned(f: FieldPlan, et: GoType, tag: Tag)
    requires PlannedFor(f, et, tag) && f.convert == ByKind && f.fieldType != RecordField
    ensures Scalar(Deref(et)) && f.fieldType == KindField(Deref(et)) && f.nested.NoPlan?
  {
    Resolves(f, et, tag);
  }

  lemma KindTyped(t: GoType, fv: GoValue, far: bool)
    requires Scalar(Deref(t)) && (far || NearRats(t)) && HasType(fv, t) && KindValue(fv).Some?
    ensures KindValue(fv).value.Null? || ScalarTyped(KindValue(fv).value, KindField(Deref(t)), far)
  {
    DerefTyped(fv, t);
  }

  lemma KindMarshals(f: FieldPlan, t: GoType, fv: GoValue, far: bool)
    requires f.convert == ByKind && f.nested.NoPlan? && MarshalScalar(f, fv).Some?
    requires Scalar(Deref(t)) && f.fieldType == KindField(Deref(t)) && (far || NearRats(t)) && HasType(fv, t)
    ensures ElementTyped(MarshalScalar(f, fv).value, SchemaField(f), far)
  {
    if !fv.Nil? {
      KindTyped(t, fv, far);
    }
  }

  /** The column type a conversion of its own comes with. */
  predicate ConvertFits(f: FieldPlan) {
    match f.convert
    case ByKind => false
    case ToDate => f.fieldType == DateField
    case ToDateTime => f.fieldType == DateTimeField
    case ToTimeOfDay => f.fieldType == TimeField
    case _ => f.fieldType == JSONField
  }

  lemma ConvertPlanned(f: FieldPlan, et: GoType, tag: Tag)
    requires PlannedFor(f, et, tag) && f.convert != ByKind
    ensures ConvertFits(f)
  {
  }

  lemma ConvertTyped(f: FieldPlan, fv: GoValue, far: bool)
    requires ConvertFits(f) && MarshalScalar(f, fv).Some?
    ensures ElementTyped(MarshalScalar(f, fv).value, SchemaField(f), far)
  {
  }

  lemma PlainTyped(f: FieldPlan, et: GoType, tag: Tag, t: GoType, fv: GoValue, far: bool)
    requires PlannedFor(f, et, tag) && f.fieldType != RecordField
    requires Deref(t) == Deref(et) && (far || NearRats(t)) && HasType(fv, t) && MarshalScalar(f, fv).Some?
    ensures ElementTyped(MarshalScalar(f, fv).value, SchemaField(f), far)
  {
    if f.convert == ByKind {
      KindPlanned(f, et, tag);
      KindMarshals(f, t, fv, far);
    } else {
      ConvertPlanned(f, et, tag);
      ConvertTyped(f, fv, far);
    }
  }

  lemma {:induction false} ScalarTypes(f: FieldPlan, et: GoType, tag: Tag, t: GoType, fv: GoValue, far: bool)
    requires PlannedFor(f, et, tag) && Deref(t) == Deref(et) && DistinctColumns(Deref(et))
    requires far || (NearRats(t) && NearRats(Deref(et)))
    requires HasType(fv, t) && MarshalScalar(f, fv).Some?
    ensures ElementTyped(MarshalScalar(f, fv).value, SchemaField(f), far)
    decreases Deref(et), 1
  {
    Resolves(f, et, tag);
    if f.fieldType != RecordField {
      PlainTyped(f, et, tag, t, fv, far);
    } else if !fv.Nil? {
      DerefTyped(fv, t);
      RowTypes(Deref(et), f.nested.plan, DerefValue(fv), MarshalRow(f.nested.plan, fv).value, far);
    }
  }

  lemma {:induction false} FieldTypes(c: Column, f: FieldPlan, field: FieldValue, far: bool)
    requires BuildFieldPlan(c) == Ok(f) && DistinctColumns(c.typ) && (far || NearRats(c.typ))
    requires field.Present? ==> HasType(field.value, c.typ)
    requires MarshalValue(f, field).Some?
    ensures ValueTyped(MarshalValue(f, field).value, SchemaField(f), far)
    decreases c.typ, 3
  {
    var value := MarshalValue(f, field).value;
    if field.Present? && !value.Null? {
      var et := ElementType(c.typ);
      PlannedField(c, f);
      DerefTyped(field.value, c.typ);
      DerefDistinct(c.typ);
      DerefDistinct(et);
      NearDeref(c.typ, far);
      NearDeref(et, far);
      if f.repeated {
        var v := DerefValue(field.value);
        forall i | 0 <= i < |v.elements| ensures ElementTyped(value.elements[i], SchemaField(f), far) {
          ScalarTypes(f, et, c.tag, et, v.elements[i], far);
        }
      } else {
        ScalarTypes(f, et, c.tag, c.typ, field.value, far);
      }
    }
  }

  lemma {:induction false} RowTypes(t: GoType, plan: Plan, v: GoValue, row: map<string, Value>, far: bool)
    requires DistinctColumns(t) && (far || NearRats(t)) && BuildRowPlan(t) == Ok(plan)
    requires HasType(v, t) && !v.Pointer? && MarshalRow(plan, v) == Some(row)
    ensures RowTyped(row, SchemaOf(plan), far)
    decreases t, 0
  {
    RowParts(t, plan, v, row);
    forall i | 0 <= i < |plan| ensures ValueTyped(row[plan[i].name], SchemaField(plan[i]), far) {
      assert t.columns[i].typ < t;
      FieldTypes(t.columns[i], plan[i], v.fields[i], far);
    }
  }

  /**
   Whatever marshalRow produces for a struct has exactly the columns its schema declares, at
   every RECORD depth, and each value is NULL or of its column's own type; only a big.Rat
   behind more than one pointer is written as the pointer it is.
   */
  lemma RowsMatchTheirSchema(t: GoType, plan: Plan, rv: GoValue, row: map<string, Value>)
    requires DistinctColumns(t) && BuildRowPlan(t) == Ok(plan)
    requires HasType(DerefValue(rv), t) && MarshalRow(plan, rv) == Some(row)
    ensures RowShape(row, SchemaOf(plan))
    ensures RowTyped(row, SchemaOf(plan), !NearRats(t))
  {
    RowShapeOf(t, plan, DerefValue(rv), row, _ => true);
    RowTypes(t, plan, DerefValue(rv), row, !NearRats(t));
  }

  /**
   Such a row renders for Storage Write exactly when no REQUIRED column is NULL, and for a
   load job also unless some json.RawMessage holds text that is not valid JSON.
   */
  lemma RowsRenderUnless(t: GoType, plan: Plan, rv: GoValue, row: map<string, Value>, valid: Validity)
    requires DistinctColumns(t) && BuildRowPlan(t) == Ok(plan)
    requires HasType(DerefValue(rv), t) && MarshalRow(plan, rv) == Some(row)
    requires EncoderSound(DerefValue(rv), valid)
    ensures JsonObject(row, SchemaOf(plan), StorageWrite, valid).Some? <==> RowFilled(row, SchemaOf(plan))
    ensures JsonObject(row, SchemaOf(plan), LoadJob, valid).Some?
       <==> RowFilled(row, SchemaOf(plan)) && RowTexts(row, SchemaOf(plan), valid)
    ensures RawValid(DerefValue(rv), valid) ==> RowTexts(row, SchemaOf(plan), valid)
  {
    RowShapeOf(t, plan, DerefValue(rv), row, valid);
    SchemaDistinct(t, plan);
    RendersExactlyWhen(row, SchemaOf(plan), StorageWrite, valid);
    RendersExactlyWhen(row, SchemaOf(plan), LoadJob, valid);
  }

  // ---- Marshalling itself ----

  /** Neither an encoding/json refusal in a JSON column nor, in a RECORD one, a nil pointer behind another. */
  predicate ElementMarshals(f: FieldPlan, fv: GoValue)
    decreases f, 0
  {
    && (f.nested.Nested? && !fv.Nil? ==> RowMarshals(f.nested.plan, DerefValue(fv)))
    && (f.convert == AsJson && !DerefValue(fv).Nil? ==> EncodedJson(DerefValue(fv)).Some?)
  }

  predicate ColumnMarshals(f: FieldPlan, field: FieldValue)
    decreases f, 1
  {
    || field.Missing? || field.value.Nil?
    || (f.nullIfZero && (if f.repeated then EmptySequence(field.value) else field.zero))
    || (if f.repeated
        then var v := DerefValue(field.value);
             v.SeqValue? ==> forall i | 0 <= i < |v.elements| :: ElementMarshals(f, v.elements[i])
        else ElementMarshals(f, field.value))
  }

  predicate RowMarshals(plan: Plan, v: GoValue)
    decreases plan
  {
    && v.StructValue? && |v.fields| == |plan|
    && forall i | 0 <= i < |plan| :: ColumnMarshals(plan[i], v.fields[i])
  }

  lemma KindSucceeds(fv: GoValue, t: GoType)
    requires HasType(fv, t) && Scalar(Deref(t))
    ensures KindValue(fv).Some?
  {
    DerefTyped(fv, t);
  }

  lemma EncodesOrFails(f: FieldPlan, fv: GoValue)
    requires f.convert == AsJson
    ensures MarshalScalar(f, fv).Some? <==> DerefValue(fv).Nil? || EncodedJson(DerefValue(fv)).Some?
  {
  }

  lemma PlainMarshals(f: FieldPlan, et: GoType, tag: Tag, t: GoType, fv: GoValue)
    requires PlannedFor(f, et, tag) && f.fieldType != RecordField && Deref(t) == Deref(et) && HasType(fv, t)
    ensures MarshalScalar(f, fv).Some? <==> ElementMarshals(f, fv)
  {
    Resolves(f, et, tag);
    if f.convert == ByKind {
      KindSucceeds(fv, t);
    } else if f.convert == AsJson {
      EncodesOrFails(f, fv);
    } else {
      DerefTyped(fv, t);
    }
  }

  lemma {:induction false} ScalarMarshals(f: FieldPlan, et: GoType, tag: Tag, t: GoType, fv: GoValue)
    requires PlannedFor(f, et, tag) && Deref(t) == Deref(et) && HasType(fv, t)
    ensures MarshalScalar(f, fv).Some? <==> ElementMarshals(f, fv)
    decreases Deref(et), 1
  {
    Resolves(f, et, tag);
    if f.fieldType != RecordField {
      PlainMarshals(f, et, tag, t, fv);
    } else if !fv.Nil? {
      DerefTyped(fv, t);
      if !DerefValue(fv).Nil? {
        MarshalsExactlyWhen(Deref(et), f.nested.plan, fv);
      }
    }
  }

  lemma {:induction false} ElementsMarshal(c: Column, f: FieldPlan, fv: GoValue)
    requires BuildFieldPlan(c) == Ok(f) && f.repeated && HasType(fv, c.typ)
    ensures MarshalRepeated(f, fv).Some?
       <==> (DerefValue(fv).SeqValue? ==>
               forall i | 0 <= i < |DerefValue(fv).elements| :: ElementMarshals(f, DerefValue(fv).elements[i]))
    decreases c.typ, 2
  {
    var et, v := ElementType(c.typ), DerefValue(fv);
    PlannedField(c, f);
    DerefTyped(fv, c.typ);
    if v.SeqValue? {
      forall i | 0 <= i < |v.elements|
        ensures MarshalScalar(f, v.elements[i]).Some? <==> ElementMarshals(f, v.elements[i])
      {
        ScalarMarshals(f, et, c.tag, et, v.elements[i]);
      }
    }
  }

  lemma {:induction false} FieldMarshals(c: Column, f: FieldPlan, field: FieldValue)
    requires BuildFieldPlan(c) == Ok(f)
    requires field.Present? ==> HasType(field.value, c.typ)
    ensures MarshalValue(f, field).Some? <==> ColumnMarshals(f, field)
    decreases c.typ, 3
  {
    if field.Present? {
      PlannedField(c, f);
      if f.repeated {
        ElementsMarshal(c, f, field.value);
      } else {
        ScalarMarshals(f, ElementType(c.typ), c.tag, c.typ, field.value);
      }
    }
  }

  lemma {:induction false} FieldsMarshal(plan: Plan, fields: seq<FieldValue>)
    requires |plan| == |fields|
    ensures MarshalFields(plan, fields).Some? <==> forall i | 0 <= i < |plan| :: MarshalValue(plan[i], fields[i]).Some?
  {
    if plan != [] {
      var n := |plan| - 1;
      FieldsMarshal(plan[..n], fields[..n]);
      if forall i | 0 <= i < n :: MarshalValue(plan[..n][i], fields[..n][i]).Some? {
        assert forall i | 0 <= i < n :: MarshalValue(plan[i], fields[i]).Some? by {
          forall i | 0 <= i < n ensures MarshalValue(plan[i], fields[i]).Some? {
            assert plan[..n][i] == plan[i] && fields[..n][i] == fields[i];
          }
        }
      } else {
        var i :| 0 <= i < n && MarshalValue(plan[..n][i], fields[..n][i]).None?;
        assert MarshalValue(plan[i], fields[i]).None?;
      }
    }
  }

  /**
   A struct value marshals exactly when encoding/json refuses nothing in a JSON column and no
   RECORD column holds a nil pointer behind another pointer, at every depth.
   */
  lemma {:induction false} MarshalsExactlyWhen(t: GoType, plan: Plan, rv: GoValue)
    requires BuildRowPlan(t) == Ok(plan) && HasType(DerefValue(rv), t)
    ensures MarshalRow(plan, rv).Some? <==> RowMarshals(plan, DerefValue(rv))
    decreases t, 0
  {
    var v := DerefValue(rv);
    PlannedColumns(t.columns, plan);
    FieldsMarshal(plan, v.fields);
    forall i | 0 <= i < |plan| ensures MarshalValue(plan[i], v.fields[i]).Some? <==> ColumnMarshals(plan[i], v.fields[i]) {
      assert t.columns[i].typ < t;
      FieldMarshals(t.columns[i], plan[i], v.fields[i]);
    }
  }
}
