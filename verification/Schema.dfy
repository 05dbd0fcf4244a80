/**
 BigQuery schemas as bqsink sees them, and sameNestedSchema (migration.go:241-264):
 the comparison of RECORD fields that ignores order.
 */
module Schema {

  datatype FieldType =
    | StringField | BytesField | IntegerField | FloatField | BooleanField
    | TimestampField | DateField | TimeField | DateTimeField
    | NumericField | BigNumericField | GeographyField | JSONField
    | IntervalField | RangeField | RecordField

  /** scale and description stand for what a column carries and no comparison reads. */
  datatype Field = Field(
    name: string,
    typ: FieldType,
    required: bool,
    repeated: bool,
    nested: seq<Field>,
    scale: int,
    description: string)

  /** The index the code builds over a schema: the last field of a name wins. */
  function ByName(schema: seq<Field>): map<string, Field> {
    if schema == [] then map[] else ByName(schema[..|schema|-1])[schema[|schema|-1].name := schema[|schema|-1]]
  }

  predicate Distinct(schema: seq<Field>) {
    forall i, j | 0 <= i < j < |schema| :: schema[i].name != schema[j].name
  }

  /** No two columns share a name, at any RECORD depth. */
  predicate RecDistinct(schema: seq<Field>)
    decreases schema
  {
    && Distinct(schema)
    && forall i | 0 <= i < |schema| :: schema[i].typ == RecordField ==> RecDistinct(schema[i].nested)
  }

  function Names(schema: seq<Field>): set<string> {
    set i | 0 <= i < |schema| :: schema[i].name
  }

  predicate SameShape(w: Field, g: Field) {
    w.typ == g.typ && w.repeated == g.repeated && w.required == g.required
  }

  /** What sameNestedSchema decides. */
  predicate SameNested(want: seq<Field>, got: seq<Field>)
    decreases want
  {
    && |want| == |got|
    && forall i | 0 <= i < |want| ::
         && want[i].name in ByName(got)
         && SameShape(want[i], ByName(got)[want[i].name])
         && (want[i].typ == RecordField ==> SameNested(want[i].nested, ByName(got)[want[i].name].nested))
  }

  method SameNestedSchema(want: seq<Field>, got: seq<Field>) returns (same: bool)
    ensures same == SameNested(want, got)
    decreases want
  {
    if |want| != |got| {
      return false;
    }
    var inGot := IndexByName(got);
    for i := 0 to |want|
      invariant forall k | 0 <= k < i ::
        && want[k].name in inGot
        && SameShape(want[k], inGot[want[k].name])
        && (want[k].typ == RecordField ==> SameNested(want[k].nested, inGot[want[k].name].nested))
    {
      var w := want[i];
      if w.name !in inGot {
        return false;
      }
      var g := inGot[w.name];
      if w.typ != g.typ || w.repeated != g.repeated || w.required != g.required {
        return false;
      }
      if w.typ == RecordField {
        var inner := SameNestedSchema(w.nested, g.nested);
        if !inner {
          return false;
        }
      }
    }
    return true;
  }

  method IndexByName(schema: seq<Field>) returns (index: map<string, Field>)
    ensures index == ByName(schema)
  {
    index := map[];
    for i := 0 to |schema|
      invariant index == ByName(schema[..i])
    {
      assert schema[..i + 1][..i] == schema[..i];
      index := index[schema[i].name := schema[i]];
    }
    assert schema[..|schema|] == schema;
  }

  // ---- The index ----

  lemma {:induction false} ByNameKeys(schema: seq<Field>)
    ensures ByName(schema).Keys == Names(schema)
  {
    if schema != [] {
      var n := |schema| - 1;
      ByNameKeys(schema[..n]);
      assert Names(schema) == Names(schema[..n]) + {schema[n].name} by {
        forall x | x in Names(schema) ensures x in Names(schema[..n]) + {schema[n].name} {
          var i :| 0 <= i < |schema| && schema[i].name == x;
          assert i < n ==> schema[..n][i].name == x;
        }
        forall x | x in Names(schema[..n]) ensures x in Names(schema) {
          var i :| 0 <= i < n && schema[..n][i].name == x;
          assert schema[i].name == x;
        }
      }
    }
  }

  lemma {:induction false} ByNameMember(schema: seq<Field>, name: string)
    requires name in ByName(schema)
    ensures ByName(schema)[name].name == name && ByName(schema)[name] in schema
  {
    var n := |schema| - 1;
    if schema[n].name != name {
      ByNameMember(schema[..n], name);
    }
  }

  lemma {:induction false} ByNameAt(schema: seq<Field>, i: nat)
    requires Distinct(schema) && i < |schema|
    ensures schema[i].name in ByName(schema) && ByName(schema)[schema[i].name] == schema[i]
  {
    if i < |schema| - 1 {
      ByNameAt(schema[..|schema| - 1], i);
    }
  }

  lemma NestedDistinct(schema: seq<Field>, f: Field)
    requires RecDistinct(schema) && f in schema && f.typ == RecordField
    ensures RecDistinct(f.nested)
  {
    var i :| 0 <= i < |schema| && schema[i] == f;
  }

  // ---- Pigeonhole ----

  lemma {:induction false} DistinctNamesCount(schema: seq<Field>)
    requires Distinct(schema)
    ensures |Names(schema)| == |schema|
  {
    if schema != [] {
      var n := |schema| - 1;
      DistinctNamesCount(schema[..n]);
      assert Names(schema) == Names(schema[..n]) + {schema[n].name} by {
        ByNameKeys(schema);
        ByNameKeys(schema[..n]);
      }
      assert schema[n].name !in Names(schema[..n]);
    }
  }

  lemma SubsetOfSameSize<T>(a: set<T>, b: set<T>)
    requires a <= b && |a| == |b|
    ensures a == b
  {
    assert b == a + (b - a);
    assert |b| == |a| + |b - a|;
    assert |b - a| == 0;
    assert b - a == {};
  }

  /** Equally many distinct names, all of them found: then none of the others is left over. */
  lemma NamesCoincide(want: seq<Field>, got: seq<Field>)
    requires Distinct(want) && Distinct(got) && |want| == |got|
    requires forall i | 0 <= i < |want| :: want[i].name in ByName(got)
    ensures Names(want) == Names(got)
  {
    DistinctNamesCount(want);
    DistinctNamesCount(got);
    ByNameKeys(got);
    SubsetOfSameSize(Names(want), Names(got));
  }

  // ---- An equivalence ----

  lemma {:induction false} SameNestedReflexive(s: seq<Field>)
    requires RecDistinct(s)
    ensures SameNested(s, s)
    decreases s
  {
    forall i | 0 <= i < |s|
      ensures s[i].name in ByName(s) && ByName(s)[s[i].name] == s[i]
      ensures s[i].typ == RecordField ==> SameNested(s[i].nested, s[i].nested)
    {
      ByNameAt(s, i);
      if s[i].typ == RecordField {
        SameNestedReflexive(s[i].nested);
      }
    }
  }

  lemma {:induction false} SameNestedSymmetric(a: seq<Field>, b: seq<Field>)
    requires RecDistinct(a) && RecDistinct(b) && SameNested(a, b)
    ensures SameNested(b, a)
    decreases a
  {
    NamesCoincide(a, b);
    forall j | 0 <= j < |b|
      ensures
        && b[j].name in ByName(a)
        && SameShape(b[j], ByName(a)[b[j].name])
        && (b[j].typ == RecordField ==> SameNested(b[j].nested, ByName(a)[b[j].name].nested))
    {
      assert b[j].name in Names(a);
      var i :| 0 <= i < |a| && a[i].name == b[j].name;
      ByNameAt(a, i);
      ByNameAt(b, j);
      if b[j].typ == RecordField {
        SameNestedSymmetric(a[i].nested, b[j].nested);
      }
    }
  }

  lemma {:induction false} SameNestedTransitive(a: seq<Field>, b: seq<Field>, c: seq<Field>)
    requires RecDistinct(b) && SameNested(a, b) && SameNested(b, c)
    ensures SameNested(a, c)
    decreases a
  {
    forall i | 0 <= i < |a|
      ensures
        && a[i].name in ByName(c)
        && SameShape(a[i], ByName(c)[a[i].name])
        && (a[i].typ == RecordField ==> SameNested(a[i].nested, ByName(c)[a[i].name].nested))
    {
      var g := ByName(b)[a[i].name];
      ByNameMember(b, a[i].name);
      var j :| 0 <= j < |b| && b[j] == g;
      assert b[j].name in ByName(c);
      if a[i].typ == RecordField {
        SameNestedTransitive(a[i].nested, b[j].nested, ByName(c)[b[j].name].nested);
      }
    }
  }

  // ---- Equality up to order ----

  /** Some reordering of got, and of every RECORD inside it, has want's names, types and modes. */
  ghost predicate SameUpToOrder(want: seq<Field>, got: seq<Field>)
    decreases want
  {
    exists ordered: seq<Field> ::
      && multiset(ordered) == multiset(got)
      && |ordered| == |want|
      && forall i | 0 <= i < |want| ::
           && want[i].name == ordered[i].name
           && SameShape(want[i], ordered[i])
           && (want[i].typ == RecordField ==> SameUpToOrder(want[i].nested, ordered[i].nested))
  }

  lemma {:induction false} CountInDistinct(schema: seq<Field>, f: Field)
    requires Distinct(schema)
    ensures multiset(schema)[f] == if f in schema then 1 else 0
  {
    if schema != [] {
      var n := |schema| - 1;
      CountInDistinct(schema[..n], f);
      assert schema == schema[..n] + [schema[n]];
      assert f in schema <==> f in schema[..n] || f == schema[n];
      if f == schema[n] {
        assert f !in schema[..n];
      }
    }
  }

  /** Distinct fields, equally many, all from got: a reordering of got. */
  lemma Reorders(ordered: seq<Field>, got: seq<Field>)
    requires Distinct(ordered) && Distinct(got) && |ordered| == |got|
    requires forall i | 0 <= i < |ordered| :: ordered[i] in got
    ensures multiset(ordered) == multiset(got)
  {
    forall i | 0 <= i < |ordered| ensures ordered[i].name in ByName(got) {
      var j :| 0 <= j < |got| && got[j] == ordered[i];
      ByNameAt(got, j);
    }
    NamesCoincide(ordered, got);
    forall f ensures f in got <==> f in ordered {
      if f in got {
        var j :| 0 <= j < |got| && got[j] == f;
        assert f.name in Names(ordered);
        var i :| 0 <= i < |ordered| && ordered[i].name == f.name;
        var k :| 0 <= k < |got| && got[k] == ordered[i];
        assert k == j;
      }
    }
    forall f ensures multiset(ordered)[f] == multiset(got)[f] {
      CountInDistinct(ordered, f);
      CountInDistinct(got, f);
    }
  }

  lemma {:induction false} SameNestedReorders(want: seq<Field>, got: seq<Field>)
    requires RecDistinct(want) && RecDistinct(got) && SameNested(want, got)
    ensures SameUpToOrder(want, got)
    decreases want
  {
    var ordered := seq(|want|, i requires 0 <= i < |want| => ByName(got)[want[i].name]);
    forall i | 0 <= i < |want|
      ensures ordered[i] in got && ordered[i].name == want[i].name
      ensures want[i].typ == RecordField ==> SameUpToOrder(want[i].nested, ordered[i].nested)
    {
      ByNameMember(got, want[i].name);
      if want[i].typ == RecordField {
        NestedDistinct(got, ordered[i]);
        SameNestedReorders(want[i].nested, ordered[i].nested);
      }
    }
    Reorders(ordered, got);
  }

  lemma {:induction false} ReorderedIsSameNested(want: seq<Field>, got: seq<Field>)
    requires RecDistinct(want) && RecDistinct(got) && SameUpToOrder(want, got)
    ensures SameNested(want, got)
    decreases want
  {
    var ordered: seq<Field> :|
      && multiset(ordered) == multiset(got)
      && |ordered| == |want|
      && forall i | 0 <= i < |want| ::
           && want[i].name == ordered[i].name
           && SameShape(want[i], ordered[i])
           && (want[i].typ == RecordField ==> SameUpToOrder(want[i].nested, ordered[i].nested));
    assert |multiset(ordered)| == |ordered| && |multiset(got)| == |got|;
    forall i | 0 <= i < |want|
      ensures
        && want[i].name in ByName(got)
        && SameShape(want[i], ByName(got)[want[i].name])
        && (want[i].typ == RecordField ==> SameNested(want[i].nested, ByName(got)[want[i].name].nested))
    {
      assert ordered[i] in multiset(ordered);
      assert ordered[i] in got;
      var j :| 0 <= j < |got| && got[j] == ordered[i];
      ByNameAt(got, j);
      if want[i].typ == RecordField {
        NestedDistinct(got, ordered[i]);
        ReorderedIsSameNested(want[i].nested, ordered[i].nested);
      }
    }
  }

  /** sameNestedSchema holds exactly when the two schemas agree up to order at every depth. */
  lemma SameNestedIsSameUpToOrder(want: seq<Field>, got: seq<Field>)
    requires RecDistinct(want) && RecDistinct(got)
    ensures SameNested(want, got) <==> SameUpToOrder(want, got)
  {
    if SameNested(want, got) {
      SameNestedReorders(want, got);
    }
    if SameUpToOrder(want, got) {
      ReorderedIsSameNested(want, got);
    }
  }
}
