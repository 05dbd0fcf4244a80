/**
 Rows that arrive as map[string]any under a schema the caller spelled out
 (maprow.go:30-333): which rows are accepted, and what becomes of the accepted ones.
 Registered marshalers and FieldMarshaler implementations are not part of this model, so a
 value meets the accepted type table directly; which of several errors a refused row
 reports is not modelled, so a refusal is None.
 */
module MapRow {
  import opened Wrappers
  import opened Schema
  import opened Decimal
  import opened Values

  const TWO_TO_THE_63: int := 0x8000_0000_0000_0000

  type Int64 = i: int | -TWO_TO_THE_63 <= i < TWO_TO_THE_63
  type Uint64 = n: int | 0 <= n < 2 * TWO_TO_THE_63

  /** What an any holds, by the dynamic types and kinds the code asks about. */
  datatype Any =
    | NilInterface
    | TypedNil                       // a nil pointer, map, slice, channel or function
    | PointerTo(elem: Any)           // a non-nil pointer other than a *big.Rat
    | Boxed(value: Any)              // a non-nil interface, met behind a pointer
    | StringKind(text: string)
    | BoolKind(b: bool)
    | IntKind(i: Int64)
    | UintKind(n: Uint64)
    | FloatKind(f: Float)
    | BigRat(r: Rational)            // *big.Rat
    | TimeTime(time: Time)
    | DateOf(text: string)           // civil.Date, civil.Time and civil.DateTime, as they print
    | TimeOf(text: string)
    | DateTimeOf(text: string)
    | ByteSlice(text: string)        // []byte
    | NamedByteSlice(text: string)   // a named byte slice other than json.RawMessage
    | RawMessage(text: string)
    | AnySlice(elements: seq<Any>)   // []any
    | AnyMap(columns: map<string, Any>)
    | OtherKind

  // ---- The plan ----

  /** What the plan holds for each RECORD column: the nested schema it was built from. */
  function Nesting(schema: seq<Field>): map<string, seq<Field>> {
    if schema == [] then map[]
    else
      var last := schema[|schema| - 1];
      var before := Nesting(schema[..|schema| - 1]);
      if last.typ == RecordField then before[last.name := last.nested] else before
  }

  lemma {:induction false} NestingMember(schema: seq<Field>, name: string)
    requires name in Nesting(schema)
    ensures exists i :: 0 <= i < |schema| && schema[i].name == name && schema[i].typ == RecordField
                        && Nesting(schema)[name] == schema[i].nested
  {
    var n := |schema| - 1;
    if schema[n].typ == RecordField && schema[n].name == name {
      assert schema[n] in schema;
    } else {
      NestingMember(schema[..n], name);
      var i :| 0 <= i < n && schema[..n][i].name == name && schema[..n][i].typ == RecordField
               && Nesting(schema[..n])[name] == schema[..n][i].nested;
      assert schema[i] == schema[..n][i];
    }
  }

  lemma {:induction false} NestingAt(schema: seq<Field>, i: nat)
    requires Distinct(schema) && i < |schema| && schema[i].typ == RecordField
    ensures schema[i].name in Nesting(schema) && Nesting(schema)[schema[i].name] == schema[i].nested
  {
    var n := |schema| - 1;
    if i < n {
      assert Distinct(schema[..n]);
      NestingAt(schema[..n], i);
      assert schema[i] == schema[..n][i] && schema[n].name != schema[i].name;
    }
  }

  /** buildMapPlanFor's two indexes. */
  method BuildMapPlan(schema: seq<Field>) returns (byName: map<string, Field>, nested: map<string, seq<Field>>)
    ensures byName == ByName(schema) && nested == Nesting(schema)
  {
    byName, nested := map[], map[];
    for i := 0 to |schema|
      invariant byName == ByName(schema[..i]) && nested == Nesting(schema[..i])
    {
      assert schema[..i + 1][..i] == schema[..i];
      var f := schema[i];
      byName := byName[f.name := f];
      if f.typ == RecordField {
        nested := nested[f.name := f.nested];
      }
    }
    assert schema[..|schema|] == schema;
  }

  // ---- Nil ----

  /** No value to write: nil itself, a typed nil, or pointers that end in either. */
  predicate NilAny(value: Any) {
    match value
    case NilInterface => true
    case TypedNil => true
    case PointerTo(elem) => NilAny(elem)
    case _ => false
  }

  method IsNilAny(value: Any) returns (isNil: bool)
    ensures isNil == NilAny(value)
  {
    if value.NilInterface? {
      return true;
    }
    var cursor := value;
    while cursor.PointerTo?
      invariant NilAny(cursor) == NilAny(value)
      decreases cursor
    {
      cursor := cursor.elem;
    }
    return cursor.TypedNil? || cursor.NilInterface?;
  }

  /** A value behind so many pointers. */
  function Behind(pointers: nat, value: Any): Any {
    if pointers == 0 then value else PointerTo(Behind(pointers - 1, value))
  }

  lemma {:induction false} BehindIsNil(n: nat)
    ensures NilAny(Behind(n, NilInterface)) && NilAny(Behind(n, TypedNil))
  {
    if n > 0 {
      BehindIsNil(n - 1);
    }
  }

  lemma {:induction false} NilIsBehind(value: Any) returns (n: nat)
    requires NilAny(value)
    ensures value == Behind(n, NilInterface) || value == Behind(n, TypedNil)
  {
    n := 0;
    if value.PointerTo? {
      var m := NilIsBehind(value.elem);
      n := m + 1;
    }
  }

  /** There is nothing to write exactly when nil, or a typed nil, is behind any number of pointers. */
  lemma NilExactlyWhen(value: Any)
    ensures NilAny(value) <==> exists n: nat :: value == Behind(n, NilInterface) || value == Behind(n, TypedNil)
  {
    if NilAny(value) {
      var n := NilIsBehind(value);
    }
    if n: nat :| value == Behind(n, NilInterface) || value == Behind(n, TypedNil) {
      BehindIsNil(n);
    }
  }

  // ---- The conversion ----

  /** int64FromFloat. */
  function IntFromFloat(f: Float): Option<Value> {
    match f
    case NaN => None
    case Infinite => None
    case Finite(v) =>
      if v >= TWO_TO_THE_63 as real || v < -TWO_TO_THE_63 as real then None
      else if v != v.Floor as real then None
      else Some(Int(v.Floor))
  }

  /** marshalInteger. */
  function MarshalInteger(value: Any): Option<Value> {
    match value
    case IntKind(i) => Some(Int(i))
    case UintKind(n) => if n > TWO_TO_THE_63 - 1 then None else Some(Int(n))
    case FloatKind(f) => IntFromFloat(f)
    case _ => None
  }

  /** marshalScalar and marshalAccepted for a column of the schema. */
  function MarshalAccepted(schema: seq<Field>, field: Field, value: Any): Option<Value>
    decreases schema, 0
  {
    match field.typ
    case StringField => if value.StringKind? then Some(Text(value.text)) else None
    case GeographyField => if value.StringKind? then Some(Text(value.text)) else None
    case IntegerField => MarshalInteger(value)
    case FloatField => if value.FloatKind? then Some(Value.Float(value.f)) else None
    case NumericField => if value.BigRat? then Some(Rat(value.r)) else None
    case BigNumericField => if value.BigRat? then Some(Rat(value.r)) else None
    case BooleanField => if value.BoolKind? then Some(Bool(value.b)) else None
    case TimestampField => if value.TimeTime? then Some(Instant(value.time)) else None
    case DateField => if value.DateOf? then Some(CivilDate(value.text)) else None
    case TimeField => if value.TimeOf? then Some(CivilTime(value.text)) else None
    case DateTimeField => if value.DateTimeOf? then Some(CivilDateTime(value.text)) else None
    case BytesField =>
      if value.ByteSlice? || value.NamedByteSlice? || value.RawMessage? then Some(Bytes(value.text)) else None
    case JSONField =>
      (match value
       case RawMessage(text) => Some(RawJson(text))
       case ByteSlice(text) => Some(Bytes(text))
       case StringKind(text) => Some(Text(text))
       case _ => None)
    case RecordField =>
      if !value.AnyMap? || field.name !in Nesting(schema) then None
      else
        NestingMember(schema, field.name);
        (match MarshalMap(Nesting(schema)[field.name], value.columns)
         case None => None
         case Some(columns) => Some(Record(columns)))
    case _ => None
  }

  function MarshalRepeated(schema: seq<Field>, field: Field, value: Any): Option<Value>
    decreases schema, 1
  {
    if !value.AnySlice? then None
    else if forall i | 0 <= i < |value.elements| ::
         !NilAny(value.elements[i]) && MarshalAccepted(schema, field, value.elements[i]).Some?
    then Some(List(seq(|value.elements|, i requires 0 <= i < |value.elements| =>
                         MarshalAccepted(schema, field, value.elements[i]).value)))
    else None
  }

  function MarshalField(schema: seq<Field>, field: Field, row: map<string, Any>): Option<Value>
    decreases schema, 2
  {
    if field.name !in row || NilAny(row[field.name]) then
      if field.required then None else Some(Null)
    else if field.repeated then MarshalRepeated(schema, field, row[field.name])
    else MarshalAccepted(schema, field, row[field.name])
  }

  function MarshalMap(schema: seq<Field>, row: map<string, Any>): Option<map<string, Value>>
    decreases schema, 3
  {
    if !(row.Keys <= ByName(schema).Keys) then None
    else if forall i | 0 <= i < |schema| :: MarshalField(schema, schema[i], row).Some? then
      Some(map name | name in ByName(schema) ::
             ByNameMember(schema, name);
             MarshalField(schema, ByName(schema)[name], row).value)
    else None
  }

  // ---- The conversion as the code does it ----

  method ConvertScalar(schema: seq<Field>, field: Field, value: Any) returns (converted: Option<Value>)
    ensures converted == MarshalAccepted(schema, field, value)
    decreases schema, 0
  {
    match field.typ {
      case StringField =>
        return if value.StringKind? then Some(Text(value.text)) else None;
      case GeographyField =>
        return if value.StringKind? then Some(Text(value.text)) else None;
      case IntegerField =>
        return MarshalInteger(value);
      case FloatField =>
        return if value.FloatKind? then Some(Value.Float(value.f)) else None;
      case NumericField =>
        return if value.BigRat? then Some(Rat(value.r)) else None;
      case BigNumericField =>
        return if value.BigRat? then Some(Rat(value.r)) else None;
      case BooleanField =>
        return if value.BoolKind? then Some(Bool(value.b)) else None;
      case TimestampField =>
        return if value.TimeTime? then Some(Instant(value.time)) else None;
      case DateField =>
        return if value.DateOf? then Some(CivilDate(value.text)) else None;
      case TimeField =>
        return if value.TimeOf? then Some(CivilTime(value.text)) else None;
      case DateTimeField =>
        return if value.DateTimeOf? then Some(CivilDateTime(value.text)) else None;
      case BytesField =>
        return if value.ByteSlice? || value.NamedByteSlice? || value.RawMessage? then Some(Bytes(value.text)) else None;
      case JSONField =>
        if value.RawMessage? {
          return Some(RawJson(value.text));
        }
        if value.ByteSlice? {
          return Some(Bytes(value.text));
        }
        return if value.StringKind? then Some(Text(value.text)) else None;
      case RecordField =>
        if !value.AnyMap? {
          return None;
        }
        var byName, nested := BuildMapPlan(schema);
        if field.name !in nested {
          return None;
        }
        NestingMember(schema, field.name);
        var columns := ConvertMap(nested[field.name], value.columns);
        return if columns.None? then None else Some(Record(columns.value));
      case _ =>
        return None;
    }
  }

  method ConvertRepeated(schema: seq<Field>, field: Field, value: Any) returns (converted: Option<Value>)
    ensures converted == MarshalRepeated(schema, field, value)
    decreases schema, 1
  {
    if !value.AnySlice? {
      return None;
    }
    var out := [];
    for i := 0 to |value.elements|
      invariant |out| == i
      invariant forall k | 0 <= k < i ::
        !NilAny(value.elements[k]) && MarshalAccepted(schema, field, value.elements[k]) == Some(out[k])
    {
      var isNil := IsNilAny(value.elements[i]);
      if isNil {
        return None;
      }
      var element := ConvertScalar(schema, field, value.elements[i]);
      if element.None? {
        return None;
      }
      out := out + [element.value];
    }
    assert out == seq(|value.elements|, i requires 0 <= i < |value.elements| =>
                        MarshalAccepted(schema, field, value.elements[i]).value);
    return Some(List(out));
  }

  method ConvertField(schema: seq<Field>, field: Field, row: map<string, Any>) returns (converted: Option<Value>)
    ensures converted == MarshalField(schema, field, row)
    decreases schema, 2
  {
    var isNil := true;
    if field.name in row {
      isNil := IsNilAny(row[field.name]);
    }
    if isNil {
      return if field.required then None else Some(Null);
    }
    if field.repeated {
      converted := ConvertRepeated(schema, field, row[field.name]);
    } else {
      converted := ConvertScalar(schema, field, row[field.name]);
    }
  }

  /** The check that the row uses only columns the schema declares. */
  method AllDeclared(byName: map<string, Field>, row: map<string, Any>) returns (declared: bool)
    ensures declared <==> row.Keys <= byName.Keys
  {
    var left := row.Keys;
    while left != {}
      invariant left <= row.Keys && row.Keys - left <= byName.Keys
      decreases left
    {
      var name :| name in left;
      if name !in byName {
        return false;
      }
      left := left - {name};
    }
    return true;
  }

  method ConvertMap(schema: seq<Field>, row: map<string, Any>) returns (converted: Option<map<string, Value>>)
    ensures converted == MarshalMap(schema, row)
    decreases schema, 3
  {
    var byName := IndexByName(schema);
    var declared := AllDeclared(byName, row);
    if !declared {
      return None;
    }
    var out: map<string, Value> := map[];
    for i := 0 to |schema|
      invariant Filled(schema, row, out, i)
    {
      var value := ConvertField(schema, schema[i], row);
      if value.None? {
        return None;
      }
      FillOne(schema, row, out, i, value.value);
      out := out[schema[i].name := value.value];
    }
    FilledWhole(schema, row, out);
    return Some(out);
  }

  /** The first i columns are converted: out holds the last of each name. */
  ghost predicate Filled(schema: seq<Field>, row: map<string, Any>, out: map<string, Value>, i: nat)
    requires i <= |schema|
  {
    && out.Keys == ByName(schema[..i]).Keys
    && (forall k | 0 <= k < i :: MarshalField(schema, schema[k], row).Some?)
    && (forall name | name in out :: MarshalField(schema, ByName(schema[..i])[name], row) == Some(out[name]))
  }

  lemma FillOne(schema: seq<Field>, row: map<string, Any>, out: map<string, Value>, i: nat, value: Value)
    requires i < |schema| && Filled(schema, row, out, i) && MarshalField(schema, schema[i], row) == Some(value)
    ensures Filled(schema, row, out[schema[i].name := value], i + 1)
  {
    assert schema[..i + 1][..i] == schema[..i];
    assert ByName(schema[..i + 1]) == ByName(schema[..i])[schema[i].name := schema[i]];
  }

  lemma FilledWhole(schema: seq<Field>, row: map<string, Any>, out: map<string, Value>)
    requires Filled(schema, row, out, |schema|) && row.Keys <= ByName(schema).Keys
    ensures MarshalMap(schema, row) == Some(out)
  {
    assert schema[..|schema|] == schema;
    assert out == MarshalMap(schema, row).value;
  }
}
