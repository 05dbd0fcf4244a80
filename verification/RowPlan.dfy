/**
 The plan of a struct type (plan.go): one description from which both the schema and the
 row are made. Struct types are already reduced to their columns; registered marshalers and
 FieldMarshaler implementations are not part of this model.
 */
module RowPlan {
  import opened Wrappers
  import opened Schema
  import opened Decimal
  import opened Values

  datatype TimeOption = NoTimeOption | DateOption | DateTimeOption | TimeOfDayOption | UnknownOption

  datatype Tag = Tag(required: bool, nullIfZero: bool, record: bool, time: TimeOption, description: string)

  datatype GoType =
    | StringType | BoolType
    | IntType                          // int, int8 .. int64, uint8, uint16, uint32
    | UintType                         // uint, uint64
    | FloatType
    | ByteSeqType                      // a slice or array of bytes other than json.RawMessage
    | RawMessageType
    | TimeType | CivilDateType | CivilTimeType | CivilDateTimeType | RatType
    | PointerType(elem: GoType)
    | SeqType(elem: GoType)            // a slice or array of anything else
    | StructType(columns: seq<Column>)
    | StringMapType | InterfaceType
    | UnsupportedType                  // maps without string keys, channels, functions, complex numbers

  datatype Column = Column(name: string, tag: Tag, typ: GoType)

  /** json is what encoding/json makes of a struct, map or interface value, None when it fails. */
  datatype GoValue =
    | StringValue(text: string) | BoolValue(b: bool) | IntValue(i: int) | UintValue(n: nat) | FloatValue(f: Float)
    | ByteSeqValue(text: string) | NilByteSeq | RawValue(text: string)
    | TimeValue(time: Time) | DateValue(text: string) | CivilTimeValue(text: string) | CivilDateTimeValue(text: string)
    | RatValue(r: Rational)
    | Nil                              // a nil pointer, map or interface
    | Pointer(elem: GoValue)
    | SeqValue(elements: seq<GoValue>) // a nil slice has no elements
    | StructValue(fields: seq<FieldValue>, json: Option<string>)
    | DynamicValue(json: Option<string>)

  /** A field as FieldByIndex finds it; zero is what isZeroValue says of it. */
  datatype FieldValue = Missing | Present(value: GoValue, zero: bool)

  datatype Convert = ByKind | ToDate | ToDateTime | ToTimeOfDay | RawMessage | AsJson

  datatype FieldPlan = FieldPlan(
    name: string,
    required: bool,
    repeated: bool,
    nullIfZero: bool,
    description: string,
    fieldType: FieldType,
    convert: Convert,
    nested: NestedPlan)

  datatype NestedPlan = NoPlan | Nested(plan: seq<FieldPlan>)

  type Plan = seq<FieldPlan>

  datatype PlanError = NotAStruct | NoColumns | BadOption | Unsupported

  function Deref(t: GoType): (r: GoType)
    ensures !r.PointerType?
    ensures r == t || r < t
  {
    if t.PointerType? then Deref(t.elem) else t
  }

  // ---- Building the plan ----

  function WellKnown(t: GoType): Option<FieldType> {
    match t
    case TimeType => Some(TimestampField)
    case CivilDateType => Some(DateField)
    case CivilTimeType => Some(TimeField)
    case CivilDateTimeType => Some(DateTimeField)
    case RatType => Some(NumericField)
    case _ => None
  }

  datatype Resolved = Resolved(fieldType: FieldType, convert: Convert, nested: NestedPlan)

  /** resolveType's last part: the mapping from the Go type, plan.go:374-447. */
  function ResolveKind(t: GoType): Result<Resolved, PlanError> {
    match t
    case StringType => Ok(Resolved(StringField, ByKind, NoPlan))
    case BoolType => Ok(Resolved(BooleanField, ByKind, NoPlan))
    case IntType => Ok(Resolved(IntegerField, ByKind, NoPlan))
    case UintType => Ok(Resolved(NumericField, ByKind, NoPlan))
    case FloatType => Ok(Resolved(FloatField, ByKind, NoPlan))
    case ByteSeqType => Ok(Resolved(BytesField, ByKind, NoPlan))
    case RawMessageType => Ok(Resolved(JSONField, RawMessage, NoPlan))
    case StructType(_) => Ok(Resolved(JSONField, AsJson, NoPlan))
    case StringMapType => Ok(Resolved(JSONField, AsJson, NoPlan))
    case InterfaceType => Ok(Resolved(JSONField, AsJson, NoPlan))
    case _ => Err(Unsupported)
  }

  function ResolveTime(t: GoType, option: TimeOption): Result<Resolved, PlanError> {
    if option == UnknownOption || Deref(t) != TimeType then Err(BadOption)
    else
      match option
      case DateOption => Ok(Resolved(DateField, ToDate, NoPlan))
      case DateTimeOption => Ok(Resolved(DateTimeField, ToDateTime, NoPlan))
      case _ => Ok(Resolved(TimeField, ToTimeOfDay, NoPlan))
  }

  /** resolveType, plan.go:330-400. */
  function ResolveType(t: GoType, tag: Tag): Result<Resolved, PlanError>
    decreases t, 1
  {
    var dt := Deref(t);
    if tag.time != NoTimeOption then ResolveTime(t, tag.time)
    else if WellKnown(dt).Some? then Ok(Resolved(WellKnown(dt).value, ByKind, NoPlan))
    else if tag.record then
      if !dt.StructType? then Err(BadOption)
      else
        match BuildRowPlan(dt)
        case Err(e) => Err(e)
        case Ok(plan) => Ok(Resolved(RecordField, ByKind, Nested(plan)))
    else ResolveKind(dt)
  }

  /** The type a column's value has once pointers and one level of repetition are seen through. */
  function ElementType(t: GoType): (r: GoType)
    ensures r == t || r < t
  {
    var dt := Deref(t);
    if dt.SeqType? then dt.elem else dt
  }

  /** buildFieldPlan, plan.go:295-313. */
  function BuildFieldPlan(c: Column): Result<FieldPlan, PlanError>
    decreases c
  {
    var repeated := Deref(c.typ).SeqType?;
    match ResolveType(ElementType(c.typ), c.tag)
    case Err(e) => Err(e)
    case Ok(r) =>
      Ok(FieldPlan(c.name, c.tag.required && !repeated, repeated, c.tag.nullIfZero, c.tag.description,
                   r.fieldType, r.convert, r.nested))
  }

  function BuildFields(columns: seq<Column>): Result<Plan, PlanError>
    decreases columns
  {
    if columns == [] then Ok([])
    else
      match BuildFieldPlan(columns[0])
      case Err(e) => Err(e)
      case Ok(f) =>
        match BuildFields(columns[1..])
        case Err(e) => Err(e)
        case Ok(rest) => Ok([f] + rest)
  }

  /** buildRowPlanFor, plan.go:172-199, without the table's layout. */
  function BuildRowPlan(t: GoType): Result<Plan, PlanError>
    decreases t, 0
  {
    if !t.StructType? then Err(NotAStruct)
    else
      match BuildFields(t.columns)
      case Err(e) => Err(e)
      case Ok(plan) => if |plan| == 0 then Err(NoColumns) else Ok(plan)
  }

  // ---- The schema ----

  function SchemaField(f: FieldPlan): Field
    decreases f
  {
    Field(f.name, f.fieldType, f.required, f.repeated,
          match f.nested case NoPlan => [] case Nested(plan) => SchemaOf(plan), 0, f.description)
  }

  /** schema, plan.go:450-467. */
  function SchemaOf(plan: Plan): seq<Field>
    decreases plan
  {
    seq(|plan|, i requires 0 <= i < |plan| => SchemaField(plan[i]))
  }

  // ---- The row ----

  function DerefValue(v: GoValue): (r: GoValue)
    ensures !r.Pointer?
    ensures r == v || r < v
  {
    if v.Pointer? then DerefValue(v.elem) else v
  }

  function EncodedJson(v: GoValue): Option<string> {
    match v
    case StructValue(_, json) => json
    case DynamicValue(json) => json
    case _ => None
  }

  /** wellKnownValue and scalarValue, plan.go:573-620, on a value that is not a nil pointer. */
  function KindValue(fv: GoValue): Option<Value> {
    match DerefValue(fv)
    case StringValue(text) => Some(Text(text))
    case BoolValue(b) => Some(Bool(b))
    case IntValue(i) => Some(Int(i))
    case UintValue(n) => Some(Rat(Ratio(n, 1)))
    case FloatValue(f) => Some(Float(f))
    case ByteSeqValue(text) => Some(Bytes(text))
    case NilByteSeq => Some(NilBytes)
    case TimeValue(t) => Some(Instant(t))
    case DateValue(text) => Some(CivilDate(text))
    case CivilTimeValue(text) => Some(CivilTime(text))
    case CivilDateTimeValue(text) => Some(CivilDateTime(text))
    case RatValue(r) => Some(if fv.Pointer? && fv.elem.Pointer? then Foreign else Rat(r))
    case Nil => Some(Null)
    case _ => None
  }

  function CivilOf(t: Time, convert: Convert): Value {
    match convert
    case ToDate => CivilDate(t.date)
    case ToDateTime => CivilDateTime(t.dateTime)
    case _ => CivilTime(t.clock)
  }

  /** marshalScalar, plan.go:555-569; None is an error. */
  function MarshalScalar(f: FieldPlan, fv: GoValue): Option<Value>
    decreases f, 0
  {
    var v := DerefValue(fv);
    match f.convert
    case RawMessage => if v.Nil? then Some(Null) else if !v.RawValue? then None
                       else if v.text == "" then Some(Null) else Some(Text(v.text))
    case AsJson =>
      if v.Nil? then Some(Null)
      else (match EncodedJson(v) case None => None case Some(json) => Some(Text(json)))
    case ByKind =>
      if fv.Nil? then Some(Null)
      else if f.nested.Nested? then
        (match MarshalRow(f.nested.plan, fv)
         case None => None
         case Some(row) => Some(Record(row)))
      else KindValue(fv)
    case _ => if v.Nil? then Some(Null) else if !v.TimeValue? then None else Some(CivilOf(v.time, f.convert))
  }

  function MarshalRepeated(f: FieldPlan, fv: GoValue): Option<Value>
    decreases f, 1
  {
    var v := DerefValue(fv);
    if v.Nil? then Some(Null)
    else if !v.SeqValue? then None
    else if forall i | 0 <= i < |v.elements| :: MarshalScalar(f, v.elements[i]).Some? then
      Some(List(seq(|v.elements|, i requires 0 <= i < |v.elements| => MarshalScalar(f, v.elements[i]).value)))
    else None
  }

  predicate EmptySequence(fv: GoValue) {
    var v := DerefValue(fv);
    v.Nil? || (v.SeqValue? && |v.elements| == 0)
  }

  /** marshalValue, plan.go:503-524, after FieldByIndex. */
  function MarshalValue(f: FieldPlan, field: FieldValue): Option<Value>
    decreases f, 2
  {
    if field.Missing? then Some(Null)
    else if f.nullIfZero && (if f.repeated then EmptySequence(field.value) else field.zero) then Some(Null)
    else if field.value.Nil? then Some(Null)
    else if f.repeated then MarshalRepeated(f, field.value)
    else MarshalScalar(f, field.value)
  }

  function MarshalFields(plan: Plan, fields: seq<FieldValue>): Option<map<string, Value>>
    requires |plan| == |fields|
    decreases plan, 0
  {
    if plan == [] then Some(map[])
    else
      var n := |plan| - 1;
      match MarshalFields(plan[..n], fields[..n])
      case None => None
      case Some(row) =>
        match MarshalValue(plan[n], fields[n])
        case None => None
        case Some(value) => Some(row[plan[n].name := value])
  }

  /** marshalRow, plan.go:479-501. */
  function MarshalRow(plan: Plan, rv: GoValue): Option<map<string, Value>>
    decreases plan, 1
  {
    var v := DerefValue(rv);
    if v.StructValue? && |v.fields| == |plan| then MarshalFields(plan, v.fields) else None
  }

  // ---- The walks as the code does them ----

  method DescribeSchema(plan: Plan) returns (schema: seq<Field>)
    ensures schema == SchemaOf(plan)
    decreases plan
  {
    schema := [];
    for i := 0 to |plan|
      invariant |schema| == i
      invariant forall k | 0 <= k < i :: schema[k] == SchemaField(plan[k])
    {
      var f := plan[i];
      var field := Field(f.name, f.fieldType, f.required, f.repeated, [], 0, f.description);
      if f.nested.Nested? {
        var nested := DescribeSchema(f.nested.plan);
        field := field.(nested := nested);
      }
      schema := schema + [field];
    }
  }

  method WriteScalar(f: FieldPlan, fv: GoValue) returns (value: Option<Value>)
    ensures value == MarshalScalar(f, fv)
    decreases f, 0
  {
    var v := DerefValue(fv);
    match f.convert {
      case RawMessage =>
        if v.Nil? {
          return Some(Null);
        }
        if !v.RawValue? {
          return None;
        }
        return Some(if v.text == "" then Null else Text(v.text));
      case AsJson =>
        if v.Nil? {
          return Some(Null);
        }
        var json := EncodedJson(v);
        return if json.None? then None else Some(Text(json.value));
      case ByKind =>
        if fv.Nil? {
          return Some(Null);
        }
        if f.nested.Nested? {
          var row := WriteRow(f.nested.plan, fv);
          return if row.None? then None else Some(Record(row.value));
        }
        return KindValue(fv);
      case _ =>
        if v.Nil? {
          return Some(Null);
        }
        return if v.TimeValue? then Some(CivilOf(v.time, f.convert)) else None;
    }
  }

  method WriteRepeated(f: FieldPlan, fv: GoValue) returns (value: Option<Value>)
    ensures value == MarshalRepeated(f, fv)
    decreases f, 1
  {
    var v := DerefValue(fv);
    if v.Nil? {
      return Some(Null);
    }
    if !v.SeqValue? {
      return None;
    }
    var values := [];
    for i := 0 to |v.elements|
      invariant |values| == i
      invariant forall k | 0 <= k < i :: MarshalScalar(f, v.elements[k]) == Some(values[k])
    {
      var element := WriteScalar(f, v.elements[i]);
      if element.None? {
        return None;
      }
      values := values + [element.value];
    }
    assert values == seq(|v.elements|, i requires 0 <= i < |v.elements| => MarshalScalar(f, v.elements[i]).value);
    return Some(List(values));
  }

  method WriteValue(f: FieldPlan, field: FieldValue) returns (value: Option<Value>)
    ensures value == MarshalValue(f, field)
    decreases f, 2
  {
    if field.Missing? || (f.nullIfZero && (if f.repeated then EmptySequence(field.value) else field.zero)) || field.value.Nil? {
      return Some(Null);
    }
    if f.repeated {
      value := WriteRepeated(f, field.value);
    } else {
      value := WriteScalar(f, field.value);
    }
  }

  /** A column that cannot be marshalled fails the row, whatever follows it. */
  lemma {:induction false} FailsForGood(plan: Plan, fields: seq<FieldValue>, k: nat)
    requires |plan| == |fields| && k <= |plan|
    requires MarshalFields(plan[..k], fields[..k]).None?
    ensures MarshalFields(plan, fields).None?
  {
    if k == |plan| {
      assert plan[..k] == plan && fields[..k] == fields;
    } else {
      var n := |plan| - 1;
      assert plan[..n][..k] == plan[..k] && fields[..n][..k] == fields[..k];
      FailsForGood(plan[..n], fields[..n], k);
    }
  }

  method WriteRow(plan: Plan, rv: GoValue) returns (marshalled: Option<map<string, Value>>)
    ensures marshalled == MarshalRow(plan, rv)
    decreases plan, 1
  {
    var v := DerefValue(rv);
    if !v.StructValue? || |v.fields| != |plan| {
      return None;
    }
    var row: map<string, Value> := map[];
    for i := 0 to |plan|
      invariant MarshalFields(plan[..i], v.fields[..i]) == Some(row)
    {
      assert plan[..i + 1][..i] == plan[..i] && v.fields[..i + 1][..i] == v.fields[..i];
      var value := WriteValue(plan[i], v.fields[i]);
      if value.None? {
        FailsForGood(plan, v.fields, i + 1);
        return None;
      }
      row := row[plan[i].name := value.value];
    }
    assert plan[..|plan|] == plan && v.fields[..|plan|] == v.fields;
    return Some(row);
  }
}
