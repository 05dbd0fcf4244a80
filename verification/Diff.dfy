/**
 The difference between a declared schema and a table's (migration.go:101-239): the
 methods walk the schemas as the code does, and the functions say what they compute.
 */
module Diff {
  import opened Wrappers
  import opened Schema

  datatype ConflictReason = ConflictType | ConflictRepeated | ConflictRequired | ConflictNested

  datatype SchemaConflict = SchemaConflict(name: string, reason: ConflictReason, want: Field, got: Field)

  datatype SchemaDiff = SchemaDiff(
    added: seq<Field>,
    removed: seq<string>,
    relaxed: seq<string>,
    conflicts: seq<SchemaConflict>)
  {
    predicate Empty() {
      |added| == 0 && |removed| == 0 && |relaxed| == 0 && |conflicts| == 0
    }
  }

  /** conflictBetween, migration.go:227-239. */
  function ConflictBetween(w: Field, g: Field): Option<ConflictReason> {
    if w.typ != g.typ then Some(ConflictType)
    else if w.repeated != g.repeated then Some(ConflictRepeated)
    else if w.required && !g.required then Some(ConflictRequired)
    else if w.typ == RecordField && !SameNested(w.nested, g.nested) then Some(ConflictNested)
    else None
  }

  /** The fields whose name is not among names, in order. */
  function FieldsOutside(fields: seq<Field>, names: set<string>): seq<Field> {
    if fields == [] then []
    else
      var last := fields[|fields|-1];
      FieldsOutside(fields[..|fields|-1], names) + (if last.name in names then [] else [last])
  }

  function NamesOutside(list: seq<string>, names: set<string>): seq<string> {
    if list == [] then []
    else
      var last := list[|list|-1];
      NamesOutside(list[..|list|-1], names) + (if last in names then [] else [last])
  }

  function NameList(fields: seq<Field>): seq<string> {
    seq(|fields|, i requires 0 <= i < |fields| => fields[i].name)
  }

  predicate NeedsRelaxing(w: Field, table: map<string, Field>) {
    w.name in table && ConflictBetween(w, table[w.name]).None? && !w.required && table[w.name].required
  }

  function Relaxed(want: seq<Field>, table: map<string, Field>): seq<string> {
    if want == [] then []
    else
      var w := want[|want|-1];
      Relaxed(want[..|want|-1], table) + (if NeedsRelaxing(w, table) then [w.name] else [])
  }

  function ConflictOf(w: Field, table: map<string, Field>): seq<SchemaConflict> {
    if w.name in table && ConflictBetween(w, table[w.name]).Some?
    then [SchemaConflict(w.name, ConflictBetween(w, table[w.name]).value, w, table[w.name])]
    else []
  }

  function Conflicts(want: seq<Field>, table: map<string, Field>): seq<SchemaConflict> {
    if want == [] then []
    else Conflicts(want[..|want|-1], table) + ConflictOf(want[|want|-1], table)
  }

  /** What DiffSchema computes. */
  function DiffOf(want: seq<Field>, got: seq<Field>): SchemaDiff {
    SchemaDiff(
      FieldsOutside(want, ByName(got).Keys),
      NamesOutside(NameList(got), Names(want)),
      Relaxed(want, ByName(got)),
      Conflicts(want, ByName(got)))
  }

  method DiffSchema(want: seq<Field>, got: seq<Field>) returns (diff: SchemaDiff)
    ensures diff == DiffOf(want, got)
  {
    var inTable := IndexByName(got);
    var declared: set<string> := {};
    diff := SchemaDiff([], [], [], []);
    for i := 0 to |want|
      invariant declared == Names(want[..i])
      invariant diff == SchemaDiff(FieldsOutside(want[..i], inTable.Keys), [],
                                   Relaxed(want[..i], inTable), Conflicts(want[..i], inTable))
    {
      var w := want[i];
      assert want[..i + 1][..i] == want[..i];
      NamesGrow(want, i);
      declared := declared + {w.name};
      if w.name !in inTable {
        diff := diff.(added := diff.added + [w]);
        continue;
      }
      var g := inTable[w.name];
      var conflict := ConflictBetween(w, g);
      if conflict.Some? {
        diff := diff.(conflicts := diff.conflicts + [SchemaConflict(w.name, conflict.value, w, g)]);
        continue;
      }
      if !w.required && g.required {
        diff := diff.(relaxed := diff.relaxed + [w.name]);
      }
    }
    assert want[..|want|] == want;
    for i := 0 to |got|
      invariant diff == DiffOf(want, got).(removed := NamesOutside(NameList(got)[..i], declared))
    {
      assert NameList(got)[..i + 1][..i] == NameList(got)[..i];
      if got[i].name !in declared {
        diff := diff.(removed := diff.removed + [got[i].name]);
      }
    }
    assert NameList(got)[..|got|] == NameList(got);
  }

  lemma NamesGrow(s: seq<Field>, i: nat)
    requires i < |s|
    ensures Names(s[..i + 1]) == Names(s[..i]) + {s[i].name}
  {
    ByNameKeys(s[..i + 1]);
    ByNameKeys(s[..i]);
    assert s[..i + 1][..i] == s[..i];
  }

  /** d with every mention of the ignored names dropped. */
  function WithoutNames(d: SchemaDiff, ignored: set<string>): SchemaDiff {
    SchemaDiff(
      FieldsOutside(d.added, ignored),
      NamesOutside(d.removed, ignored),
      NamesOutside(d.relaxed, ignored),
      ConflictsOutside(d.conflicts, ignored))
  }

  function ConflictsOutside(conflicts: seq<SchemaConflict>, names: set<string>): seq<SchemaConflict> {
    if conflicts == [] then []
    else
      var last := conflicts[|conflicts|-1];
      ConflictsOutside(conflicts[..|conflicts|-1], names) + (if last.name in names then [] else [last])
  }

  function ToSet(names: seq<string>): set<string> {
    set i | 0 <= i < |names| :: names[i]
  }

  method Without(d: SchemaDiff, names: seq<string>) returns (out: SchemaDiff)
    ensures out == WithoutNames(d, ToSet(names))
  {
    if |names| == 0 {
      NothingIgnored(d);
      assert ToSet(names) == {};
      return d;
    }
    var ignored := {};
    for i := 0 to |names|
      invariant ignored == ToSet(names[..i])
    {
      ignored := ignored + {names[i]};
      assert ToSet(names[..i + 1]) == ToSet(names[..i]) + {names[i]} by {
        forall x | x in ToSet(names[..i]) ensures x in ToSet(names[..i + 1]) {
          var k :| 0 <= k < i && names[..i][k] == x;
          assert names[..i + 1][k] == x;
        }
        assert names[..i + 1][i] == names[i];
      }
    }
    assert names[..|names|] == names;
    out := SchemaDiff([], [], [], []);
    for i := 0 to |d.added|
      invariant out == SchemaDiff(FieldsOutside(d.added[..i], ignored), [], [], [])
    {
      assert d.added[..i + 1][..i] == d.added[..i];
      if d.added[i].name !in ignored {
        out := out.(added := out.added + [d.added[i]]);
      }
    }
    assert d.added[..|d.added|] == d.added;
    for i := 0 to |d.removed|
      invariant out == SchemaDiff(FieldsOutside(d.added, ignored), NamesOutside(d.removed[..i], ignored), [], [])
    {
      assert d.removed[..i + 1][..i] == d.removed[..i];
      if d.removed[i] !in ignored {
        out := out.(removed := out.removed + [d.removed[i]]);
      }
    }
    assert d.removed[..|d.removed|] == d.removed;
    for i := 0 to |d.relaxed|
      invariant out == WithoutNames(d, ignored).(relaxed := NamesOutside(d.relaxed[..i], ignored), conflicts := [])
    {
      assert d.relaxed[..i + 1][..i] == d.relaxed[..i];
      if d.relaxed[i] !in ignored {
        out := out.(relaxed := out.relaxed + [d.relaxed[i]]);
      }
    }
    assert d.relaxed[..|d.relaxed|] == d.relaxed;
    for i := 0 to |d.conflicts|
      invariant out == WithoutNames(d, ignored).(conflicts := ConflictsOutside(d.conflicts[..i], ignored))
    {
      assert d.conflicts[..i + 1][..i] == d.conflicts[..i];
      if d.conflicts[i].name !in ignored {
        out := out.(conflicts := out.conflicts + [d.conflicts[i]]);
      }
    }
    assert d.conflicts[..|d.conflicts|] == d.conflicts;
  }

  lemma NothingIgnored(d: SchemaDiff)
    ensures WithoutNames(d, {}) == d
  {
    AllFieldsOutside(d.added);
    AllNamesOutside(d.removed);
    AllNamesOutside(d.relaxed);
    AllConflictsOutside(d.conflicts);
  }

  lemma {:induction false} AllFieldsOutside(fields: seq<Field>)
    ensures FieldsOutside(fields, {}) == fields
  {
    if fields != [] {
      AllFieldsOutside(fields[..|fields| - 1]);
    }
  }

  lemma {:induction false} AllNamesOutside(list: seq<string>)
    ensures NamesOutside(list, {}) == list
  {
    if list != [] {
      AllNamesOutside(list[..|list| - 1]);
    }
  }

  lemma {:induction false} AllConflictsOutside(conflicts: seq<SchemaConflict>)
    ensures ConflictsOutside(conflicts, {}) == conflicts
  {
    if conflicts != [] {
      AllConflictsOutside(conflicts[..|conflicts| - 1]);
    }
  }

  // ---- What the lists hold ----

  lemma {:induction false} MembersOutside(fields: seq<Field>, names: set<string>)
    ensures forall f :: f in FieldsOutside(fields, names) <==> f in fields && f.name !in names
  {
    if fields != [] {
      var n := |fields| - 1;
      MembersOutside(fields[..n], names);
      assert fields == fields[..n] + [fields[n]];
    }
  }

  lemma {:induction false} DistinctOutside(fields: seq<Field>, names: set<string>)
    requires Distinct(fields)
    ensures Distinct(FieldsOutside(fields, names))
  {
    if fields != [] {
      var n := |fields| - 1;
      var kept := FieldsOutside(fields[..n], names);
      DistinctOutside(fields[..n], names);
      MembersOutside(fields[..n], names);
      forall i | 0 <= i < |kept| ensures kept[i].name != fields[n].name {
        assert kept[i] in fields[..n];
      }
    }
  }

  lemma InFieldsOutside(fields: seq<Field>, names: set<string>)
    ensures forall f :: f in FieldsOutside(fields, names) <==> f in fields && f.name !in names
    ensures Distinct(fields) ==> Distinct(FieldsOutside(fields, names))
  {
    MembersOutside(fields, names);
    if Distinct(fields) {
      DistinctOutside(fields, names);
    }
  }

  lemma {:induction false} InNamesOutside(list: seq<string>, names: set<string>)
    ensures forall x :: x in NamesOutside(list, names) <==> x in list && x !in names
  {
    if list != [] {
      InNamesOutside(list[..|list| - 1], names);
      assert list == list[..|list| - 1] + [list[|list| - 1]];
    }
  }

  lemma {:induction false} InRelaxed(want: seq<Field>, table: map<string, Field>, name: string)
    ensures name in Relaxed(want, table) <==> exists w :: w in want && w.name == name && NeedsRelaxing(w, table)
  {
    if want != [] {
      InRelaxed(want[..|want| - 1], table, name);
      assert want == want[..|want| - 1] + [want[|want| - 1]];
    }
  }

  lemma {:induction false} InConflicts(want: seq<Field>, table: map<string, Field>, c: SchemaConflict)
    ensures c in Conflicts(want, table) <==> exists w :: w in want && ConflictOf(w, table) == [c]
  {
    if want != [] {
      InConflicts(want[..|want| - 1], table, c);
      assert want == want[..|want| - 1] + [want[|want| - 1]];
    }
  }

  lemma InNameList(fields: seq<Field>)
    ensures forall x :: x in NameList(fields) <==> x in Names(fields)
  {
    forall x ensures x in NameList(fields) <==> x in Names(fields) {
      if x in NameList(fields) {
        var i :| 0 <= i < |fields| && NameList(fields)[i] == x;
        assert fields[i].name == x;
      }
      if x in Names(fields) {
        var i :| 0 <= i < |fields| && fields[i].name == x;
        assert NameList(fields)[i] == x;
      }
    }
  }

  // ---- What an empty diff means, and where each declared name goes ----

  /** The table has the column as declared: name, type, modes and nested fields. */
  predicate Agrees(w: Field, table: map<string, Field>) {
    && w.name in table
    && SameShape(w, table[w.name])
    && (w.typ == RecordField ==> SameNested(w.nested, table[w.name].nested))
  }

  predicate InAdded(w: Field, d: SchemaDiff) {
    w in d.added
  }

  predicate InConflict(w: Field, d: SchemaDiff) {
    exists c :: c in d.conflicts && c.name == w.name
  }

  predicate InRelaxedList(w: Field, d: SchemaDiff) {
    w.name in d.relaxed
  }

  function One(b: bool): nat {
    if b then 1 else 0
  }

  lemma SameName(want: seq<Field>, v: Field, w: Field)
    requires Distinct(want) && v in want && w in want && v.name == w.name
    ensures v == w
  {
  }

  /** g, as it stands, is the column w declares: type, modes and nested fields. */
  predicate Meets(w: Field, g: Field) {
    SameShape(w, g) && (w.typ == RecordField ==> SameNested(w.nested, g.nested))
  }

  /** The first thing in which w and g cannot be reconciled. */
  predicate IsReason(reason: ConflictReason, w: Field, g: Field) {
    match reason
    case ConflictType => w.typ != g.typ
    case ConflictRepeated => w.typ == g.typ && w.repeated != g.repeated
    case ConflictRequired => w.typ == g.typ && w.repeated == g.repeated && w.required && !g.required
    case ConflictNested =>
      && w.typ == g.typ && w.repeated == g.repeated && (w.required ==> g.required)
      && w.typ == RecordField && !SameNested(w.nested, g.nested)
  }

  /** There is no conflict exactly when the column meets the declaration as it is or once relaxed. */
  lemma ConflictsExactlyWhen(w: Field, g: Field)
    ensures ConflictBetween(w, g).None? <==> Meets(w, g) || Meets(w, g.(required := false))
    ensures forall reason :: ConflictBetween(w, g) == Some(reason) <==> IsReason(reason, w, g)
  {
  }

  /**
   A declared column the table lacks is added; one the table has is in conflict when it meets
   the declaration neither as it is nor relaxed, with the first reason, and is to be relaxed when
   it does so only relaxed.
   */
  lemma WhereItGoes(want: seq<Field>, got: seq<Field>, w: Field)
    requires Distinct(want) && w in want
    ensures
      var d, t := DiffOf(want, got), ByName(got);
      && (InAdded(w, d) <==> w.name !in t)
      && (w.name in t ==>
            var g := t[w.name];
            && (InConflict(w, d) <==> !Meets(w, g) && !Meets(w, g.(required := false)))
            && (InRelaxedList(w, d) <==> !Meets(w, g) && Meets(w, g.(required := false)))
            && (forall c :: c in d.conflicts && c.name == w.name ==>
                  c.want == w && c.got == g && IsReason(c.reason, w, g)))
      && (w.name !in t ==> !InConflict(w, d) && !InRelaxedList(w, d))
  {
    var d, t := DiffOf(want, got), ByName(got);
    InFieldsOutside(want, t.Keys);
    InRelaxed(want, t, w.name);
    forall v | v in want && v.name == w.name ensures v == w {
      SameName(want, v, w);
    }
    if w.name in t {
      ConflictsExactlyWhen(w, t[w.name]);
    }
    forall c | c in d.conflicts && c.name == w.name ensures ConflictOf(w, t) == [c] {
      InConflicts(want, t, c);
      var v :| v in want && ConflictOf(v, t) == [c];
      assert v.name == c.name;
    }
    if w.name in t && ConflictBetween(w, t[w.name]).Some? {
      var c := ConflictOf(w, t)[0];
      InConflicts(want, t, c);
      assert c in d.conflicts;
    }
  }

  /**
   A declared column is in exactly one of Added, Conflicts, Relaxed or agreement with the
   table; a table column is in Removed exactly when it is not declared.
   */
  lemma EachNameOnce(want: seq<Field>, got: seq<Field>, w: Field)
    requires Distinct(want) && w in want
    ensures
      var d := DiffOf(want, got);
      One(InAdded(w, d)) + One(InConflict(w, d)) + One(InRelaxedList(w, d)) + One(Agrees(w, ByName(got))) == 1
    ensures forall name :: name in DiffOf(want, got).removed <==> name in Names(got) && name !in Names(want)
  {
    WhereItGoes(want, got, w);
    InNamesOutside(NameList(got), Names(want));
    InNameList(got);
  }

  lemma {:induction false} NoneRelaxed(want: seq<Field>, table: map<string, Field>)
    ensures Relaxed(want, table) == [] <==> forall w :: w in want ==> !NeedsRelaxing(w, table)
  {
    if want != [] {
      NoneRelaxed(want[..|want| - 1], table);
      assert want == want[..|want| - 1] + [want[|want| - 1]];
    }
  }

  lemma {:induction false} NoConflicts(want: seq<Field>, table: map<string, Field>)
    ensures Conflicts(want, table) == [] <==> forall w :: w in want ==> ConflictOf(w, table) == []
  {
    if want != [] {
      NoConflicts(want[..|want| - 1], table);
      assert want == want[..|want| - 1] + [want[|want| - 1]];
    }
  }

  lemma NoneOutside(fields: seq<Field>, names: set<string>)
    ensures FieldsOutside(fields, names) == [] <==> forall f :: f in fields ==> f.name in names
  {
    InFieldsOutside(fields, names);
    var out := FieldsOutside(fields, names);
    if out != [] {
      assert out[0] in out;
    }
  }

  lemma EmptyMeansAgreement(want: seq<Field>, got: seq<Field>)
    ensures DiffOf(want, got).Empty()
       <==> (forall w :: w in want ==> Agrees(w, ByName(got))) && Names(got) <= Names(want)
  {
    var t := ByName(got);
    NoneRelaxed(want, t);
    NoConflicts(want, t);
    NoneOutside(want, t.Keys);
    InNamesOutside(NameList(got), Names(want));
    InNameList(got);
    var removed := NamesOutside(NameList(got), Names(want));
    assert removed == [] <==> Names(got) <= Names(want) by {
      if removed != [] {
        assert removed[0] in removed;
      }
    }
    forall w | w in want
      ensures Agrees(w, t) <==> w.name in t && ConflictOf(w, t) == [] && !NeedsRelaxing(w, t)
    {
    }
  }

  lemma AgreementIsSame(want: seq<Field>, got: seq<Field>)
    requires Distinct(want) && Distinct(got)
    requires (forall w :: w in want ==> Agrees(w, ByName(got))) && Names(got) <= Names(want)
    ensures SameNested(want, got)
  {
    forall i | 0 <= i < |want| ensures Agrees(want[i], ByName(got)) {
      assert want[i] in want;
    }
    ByNameKeys(got);
    assert Names(want) <= Names(got);
    DistinctNamesCount(want);
    DistinctNamesCount(got);
    assert Names(want) == Names(got);
  }

  lemma SameIsAgreement(want: seq<Field>, got: seq<Field>)
    requires RecDistinct(want) && RecDistinct(got) && SameNested(want, got)
    ensures (forall w :: w in want ==> Agrees(w, ByName(got))) && Names(got) <= Names(want)
  {
    NamesCoincide(want, got);
    forall w | w in want ensures Agrees(w, ByName(got)) {
      var i :| 0 <= i < |want| && want[i] == w;
    }
  }

  /** The diff is empty exactly when declaration and table agree up to order at every depth. */
  lemma EmptyExactlyWhenSame(want: seq<Field>, got: seq<Field>)
    requires RecDistinct(want) && RecDistinct(got)
    ensures DiffOf(want, got).Empty() <==> SameUpToOrder(want, got)
  {
    SameNestedIsSameUpToOrder(want, got);
    EmptyMeansAgreement(want, got);
    if DiffOf(want, got).Empty() {
      AgreementIsSame(want, got);
    }
    if SameNested(want, got) {
      SameIsAgreement(want, got);
    }
  }
}
