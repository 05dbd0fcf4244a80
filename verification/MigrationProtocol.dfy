/**
 Many Sinkers with AppendNewColumns migrating one table at the same time
 (migration.go:493-538, 579-595; bqsink.go:474-485). Each reads the table, plans from
 what it read, and writes under the etag it read; a refused or failed attempt may start
 again at the read. A write that reached BigQuery may still be answered with an error.
 */
module MigrationProtocol {
  import opened Wrappers
  import opened Schema
  import opened Diff
  import opened Migration
  import opened Convergence

  datatype Version = Version(schema: seq<Field>, etag: nat)

  datatype Phase =
    | Reading
    | Holding(md: Option<Version>)   // metadata read; plan and write not done yet
    | Done                           // migrate returned nil
    | Failed                         // migrate returned an error and is not retried

  datatype Sinker = Sinker(decl: seq<Field>, createIfMissing: bool, phase: Phase, lostRaces: nat)

  datatype State = State(table: Option<Version>, sinkers: seq<Sinker>)

  /** What one attempt decides from the metadata it holds. */
  datatype Decision = Stop | Settle | CreateTable | Update(next: seq<Field>)

  function Decide(k: Sinker, md: Option<Version>): Decision {
    match md
    case None => if k.createIfMissing then CreateTable else Stop
    case Some(v) =>
      match Plan(AppendNewColumns(k.createIfMissing), Existing(k.decl, v.schema))
      case Err(_) => Stop
      case Ok(change) =>
        if change.Empty() then Settle
        else if RequiredNames(change.addColumns) != [] then Stop
        else Update(Merge(v.schema, change))
  }

  /** How an API write ended: applied or not, and what the caller was told. */
  datatype Reply =
    | Answered
    | LostReply(again: bool)    // applied, but answered with an error
    | Refused(again: bool)      // the etag or the table's absence no longer held
    | Faulted(again: bool)      // not applied, for any other reason

  datatype Step =
    | ReadOk(i: nat)
    | ReadFails(i: nat, again: bool)
    | Decided(i: nat)
    | Write(i: nat, reply: Reply)

  /** BigQuery applies a create only to a missing table and an update only under its etag. */
  predicate Applicable(s: State, i: nat)
    requires i < |s.sinkers| && s.sinkers[i].phase.Holding?
  {
    match Decide(s.sinkers[i], s.sinkers[i].phase.md)
    case CreateTable => s.table.None?
    case Update(_) => s.table.Some? && s.sinkers[i].phase.md.Some? && s.table.value.etag == s.sinkers[i].phase.md.value.etag
    case _ => false
  }

  predicate Enabled(s: State, step: Step) {
    match step
    case ReadOk(i) => i < |s.sinkers| && s.sinkers[i].phase.Reading?
    case ReadFails(i, _) => i < |s.sinkers| && s.sinkers[i].phase.Reading?
    case Decided(i) =>
      && i < |s.sinkers| && s.sinkers[i].phase.Holding?
      && var d := Decide(s.sinkers[i], s.sinkers[i].phase.md); d.Stop? || d.Settle?
    case Write(i, reply) =>
      && i < |s.sinkers| && s.sinkers[i].phase.Holding?
      && (var d := Decide(s.sinkers[i], s.sinkers[i].phase.md); d.CreateTable? || d.Update?)
      && (reply.Answered? || reply.LostReply? ==> Applicable(s, i))
      && (reply.Refused? ==> !Applicable(s, i))
  }

  function Clock(table: Option<Version>): nat {
    match table
    case None => 0
    case Some(v) => v.etag
  }

  function Goto(s: State, i: nat, phase: Phase): State
    requires i < |s.sinkers|
  {
    s.(sinkers := s.sinkers[i := s.sinkers[i].(phase := phase)])
  }

  function Again(again: bool): Phase {
    if again then Reading else Failed
  }

  /** The table after Sinker i's write is applied. */
  function Written(s: State, i: nat): Version
    requires i < |s.sinkers| && s.sinkers[i].phase.Holding?
  {
    match Decide(s.sinkers[i], s.sinkers[i].phase.md)
    case Update(next) => Version(next, Clock(s.table) + 1)
    case _ => Version(s.sinkers[i].decl, Clock(s.table) + 1)
  }

  function Next(s: State, step: Step): State
    requires Enabled(s, step)
  {
    match step
    case ReadOk(i) => Goto(s, i, Holding(s.table))
    case ReadFails(i, again) => Goto(s, i, Again(again))
    case Decided(i) => Goto(s, i, if Decide(s.sinkers[i], s.sinkers[i].phase.md).Settle? then Done else Failed)
    case Write(i, reply) =>
      match reply
      case Answered => Goto(s.(table := Some(Written(s, i))), i, Done)
      case LostReply(again) => Goto(s.(table := Some(Written(s, i))), i, Again(again))
      case Refused(again) =>
        s.(sinkers := s.sinkers[i := s.sinkers[i].(phase := Again(again), lostRaces := s.sinkers[i].lostRaces + 1)])
      case Faulted(again) => Goto(s, i, Again(again))
  }

  predicate Init(s: State) {
    && (s.table.Some? ==> Distinct(s.table.value.schema) && s.table.value.etag > 0)
    && forall i | 0 <= i < |s.sinkers| ::
         && RecDistinct(s.sinkers[i].decl)
         && s.sinkers[i].phase.Reading? && s.sinkers[i].lostRaces == 0
  }

  // ---- What the table keeps ----

  /** b is a with columns appended, none of them REQUIRED, and some REQUIRED marks taken away. */
  predicate Grows(a: seq<Field>, b: seq<Field>) {
    && |a| <= |b|
    && (forall i | 0 <= i < |a| :: b[i] == a[i] || b[i] == a[i].(required := false))
    && (forall i | |a| <= i < |b| :: !b[i].required)
  }

  predicate TableGrows(a: Option<Version>, b: Option<Version>) {
    a.None? || (b.Some? && Grows(a.value.schema, b.value.schema))
  }

  /** The table has every declared column, as declared, and REQUIRED only where declared so. */
  predicate Satisfied(decl: seq<Field>, schema: seq<Field>) {
    forall w | w in decl ::
      && w.name in ByName(schema)
      && var g := ByName(schema)[w.name];
         && g.typ == w.typ && g.repeated == w.repeated && (g.required ==> w.required)
         && (w.typ == RecordField ==> SameNested(w.nested, g.nested))
  }

  predicate SinkerOk(s: State, i: nat, base: nat)
    requires i < |s.sinkers|
  {
    var k := s.sinkers[i];
    && RecDistinct(k.decl)
    && base + k.lostRaces <= Clock(s.table)
    && (k.phase.Holding? ==>
          && Clock(k.phase.md) <= Clock(s.table)
          && base + k.lostRaces <= Clock(k.phase.md)
          && (k.phase.md.Some? ==>
                && k.phase.md.value.etag > 0 && Distinct(k.phase.md.value.schema)
                && s.table.Some? && Grows(k.phase.md.value.schema, s.table.value.schema))
          && (k.phase.md.Some? && k.phase.md.value.etag == Clock(s.table) ==> k.phase.md == s.table))
    && (k.phase.Done? ==> s.table.Some? && Satisfied(k.decl, s.table.value.schema))
  }

  predicate Inv(s: State, base: nat) {
    && (s.table.Some? ==> Distinct(s.table.value.schema) && s.table.value.etag > 0)
    && forall i | 0 <= i < |s.sinkers| :: SinkerOk(s, i, base)
  }

  lemma GrowsTransitive(a: seq<Field>, b: seq<Field>, c: seq<Field>)
    requires Grows(a, b) && Grows(b, c)
    ensures Grows(a, c)
  {
  }

  lemma GrowthKeepsSatisfied(decl: seq<Field>, a: seq<Field>, b: seq<Field>)
    requires Grows(a, b) && Distinct(b) && Satisfied(decl, a)
    ensures Satisfied(decl, b)
  {
    forall w | w in decl
      ensures
        && w.name in ByName(b)
        && var g := ByName(b)[w.name];
           && g.typ == w.typ && g.repeated == w.repeated && (g.required ==> w.required)
           && (w.typ == RecordField ==> SameNested(w.nested, g.nested))
    {
      ByNameMember(a, w.name);
      var i :| 0 <= i < |a| && a[i] == ByName(a)[w.name];
      ByNameAt(b, i);
    }
  }

  lemma AgreementSatisfies(decl: seq<Field>, schema: seq<Field>)
    requires forall w :: w in decl ==> Agrees(w, ByName(schema))
    ensures Satisfied(decl, schema)
  {
  }

  // ---- One update ----

  function ChangeFor(k: Sinker, schema: seq<Field>): SchemaChange {
    SchemaChange(false, DiffOf(k.decl, schema).added, DiffOf(k.decl, schema).relaxed, [])
  }

  lemma UpdatePlanned(k: Sinker, v: Version)
    requires var d := Decide(k, Some(v)); d.Update? || d.Settle?
    ensures PlannedFor(k.decl, v.schema, {}, ChangeFor(k, v.schema))
    ensures Decide(k, Some(v)).Update? ==>
      && Decide(k, Some(v)).next == Merge(v.schema, ChangeFor(k, v.schema))
      && RequiredNames(ChangeFor(k, v.schema).addColumns) == []
      && !ChangeFor(k, v.schema).Empty()
    ensures Decide(k, Some(v)).Settle? ==> ChangeFor(k, v.schema).Empty()
  {
    NothingIgnored(DiffOf(k.decl, v.schema));
  }

  lemma AddedAreNullable(got: seq<Field>, change: SchemaChange)
    requires RequiredNames(change.addColumns) == []
    ensures |got| <= |Merge(got, change)|
    ensures forall i | |got| <= i < |Merge(got, change)| :: !Merge(got, change)[i].required
  {
    var next := Merge(got, change);
    forall i | |got| <= i < |next| ensures !next[i].required {
      assert next[i] == change.addColumns[i - |got|];
      NotRequired(change.addColumns, next[i]);
    }
  }

  lemma UpdateGrows(k: Sinker, v: Version)
    requires RecDistinct(k.decl) && Distinct(v.schema) && Decide(k, Some(v)).Update?
    ensures
      var next := Decide(k, Some(v)).next;
      Grows(v.schema, next) && Distinct(next) && Satisfied(k.decl, next)
  {
    var change := ChangeFor(k, v.schema);
    UpdatePlanned(k, v);
    MergedDistinct(k.decl, v.schema, {}, change);
    MergedSatisfies(k.decl, v.schema, change);
    MergeGrows(v.schema, change);
  }

  lemma MergedSatisfies(decl: seq<Field>, got: seq<Field>, change: SchemaChange)
    requires RecDistinct(decl) && Distinct(got) && PlannedFor(decl, got, {}, change)
    requires RequiredNames(change.addColumns) == []
    ensures Satisfied(decl, Merge(got, change))
  {
    forall w | w in decl ensures Agrees(w, ByName(Merge(got, change))) {
      MergedAgrees(decl, got, {}, change, w);
    }
    AgreementSatisfies(decl, Merge(got, change));
  }

  lemma MergeGrows(got: seq<Field>, change: SchemaChange)
    requires RequiredNames(change.addColumns) == []
    ensures Grows(got, Merge(got, change))
  {
    AddedAreNullable(got, change);
  }

  lemma SettledSatisfies(k: Sinker, v: Version)
    requires RecDistinct(k.decl) && Distinct(v.schema) && Decide(k, Some(v)).Settle?
    ensures Satisfied(k.decl, v.schema)
  {
    var change := ChangeFor(k, v.schema);
    UpdatePlanned(k, v);
    MergeNothing(v.schema, change);
    forall w | w in k.decl ensures Agrees(w, ByName(v.schema)) {
      MergedAgrees(k.decl, v.schema, {}, change, w);
    }
    AgreementSatisfies(k.decl, v.schema);
  }

  lemma DeclarationSatisfies(decl: seq<Field>)
    requires RecDistinct(decl)
    ensures Satisfied(decl, decl)
  {
    forall w | w in decl ensures Agrees(w, ByName(decl)) {
      var i :| 0 <= i < |decl| && decl[i] == w;
      ByNameAt(decl, i);
      if w.typ == RecordField {
        SameNestedReflexive(w.nested);
      }
    }
    AgreementSatisfies(decl, decl);
  }

  /** An applied write: the table grows, stays duplicate-free, and satisfies its writer. */
  lemma WriteGrows(s: State, i: nat, base: nat)
    requires Inv(s, base) && i < |s.sinkers| && s.sinkers[i].phase.Holding? && Applicable(s, i)
    ensures
      var v := Written(s, i);
      && TableGrows(s.table, Some(v)) && Distinct(v.schema)
      && v.etag == Clock(s.table) + 1
      && Satisfied(s.sinkers[i].decl, v.schema)
  {
    assert SinkerOk(s, i, base);
    var k := s.sinkers[i];
    if Decide(k, k.phase.md).Update? {
      UpdateGrows(k, s.table.value);
    } else {
      DeclarationSatisfies(k.decl);
    }
  }

  /** Sinkers other than the one that moved stay good when the table grows. */
  lemma OthersKept(s: State, t: State, i: nat, base: nat)
    requires Inv(s, base) && i < |s.sinkers| == |t.sinkers|
    requires forall k | 0 <= k < |s.sinkers| && k != i :: t.sinkers[k] == s.sinkers[k]
    requires t.table == s.table || (t.table.Some? && Clock(t.table) > Clock(s.table)
                                    && TableGrows(s.table, t.table) && Distinct(t.table.value.schema))
    requires SinkerOk(t, i, base)
    ensures Inv(t, base)
  {
    forall k | 0 <= k < |t.sinkers| && k != i ensures SinkerOk(t, k, base) {
      assert SinkerOk(s, k, base);
      if s.sinkers[k].phase.Holding? && s.sinkers[k].phase.md.Some? && t.table != s.table {
        GrowsTransitive(s.sinkers[k].phase.md.value.schema, s.table.value.schema, t.table.value.schema);
      }
      if s.sinkers[k].phase.Done? && t.table != s.table {
        GrowthKeepsSatisfied(s.sinkers[k].decl, s.table.value.schema, t.table.value.schema);
      }
    }
  }

  /** A Sinker that settles on what it read, however old, is satisfied by the table as it is. */
  lemma StaleSettles(s: State, i: nat, base: nat)
    requires Inv(s, base) && i < |s.sinkers| && s.sinkers[i].phase.Holding?
    requires Decide(s.sinkers[i], s.sinkers[i].phase.md).Settle?
    ensures s.table.Some? && Satisfied(s.sinkers[i].decl, s.table.value.schema)
  {
    assert SinkerOk(s, i, base);
    var k := s.sinkers[i];
    SettledSatisfies(k, k.phase.md.value);
    GrowthKeepsSatisfied(k.decl, k.phase.md.value.schema, s.table.value.schema);
  }

  lemma StepKeeps(s: State, step: Step, base: nat)
    requires Inv(s, base) && Enabled(s, step)
    ensures Inv(Next(s, step), base)
    ensures TableGrows(s.table, Next(s, step).table)
    ensures Clock(s.table) <= Clock(Next(s, step).table)
  {
    var t := Next(s, step);
    var i := step.i;
    assert SinkerOk(s, i, base);
    match step
    case ReadOk(_) => OthersKept(s, t, i, base);
    case ReadFails(_, _) => OthersKept(s, t, i, base);
    case Decided(_) =>
      if t.sinkers[i].phase.Done? {
        StaleSettles(s, i, base);
      }
      OthersKept(s, t, i, base);
    case Write(_, reply) =>
      if Applicable(s, i) {
        WriteGrows(s, i, base);
      }
      OthersKept(s, t, i, base);
  }

  // ---- How far the table has to go ----

  function DeclaredNames(sinkers: seq<Sinker>): set<string> {
    set i, j | 0 <= i < |sinkers| && 0 <= j < |sinkers[i].decl| :: sinkers[i].decl[j].name
  }

  function RequiredCount(schema: seq<Field>): nat {
    if schema == [] then 0
    else RequiredCount(schema[..|schema|-1]) + (if schema[|schema|-1].required then 1 else 0)
  }

  /** Declared names the table lacks plus its REQUIRED columns; one more than all names while it is missing. */
  function Potential(table: Option<Version>, all: set<string>): nat {
    match table
    case None => |all| + 1
    case Some(v) => |all - Names(v.schema)| + RequiredCount(v.schema)
  }

  lemma {:induction false} RequiredBound(schema: seq<Field>)
    ensures RequiredCount(schema) <= |schema|
  {
    if schema != [] {
      RequiredBound(schema[..|schema| - 1]);
    }
  }

  lemma {:induction false} RequiredAppend(a: seq<Field>, b: seq<Field>)
    ensures RequiredCount(a + b) == RequiredCount(a) + RequiredCount(b)
  {
    if b == [] {
      assert a + b == a;
    } else {
      assert (a + b)[..|a + b| - 1] == a + b[..|b| - 1];
      RequiredAppend(a, b[..|b| - 1]);
    }
  }

  lemma {:induction false} NoneRequiredCount(schema: seq<Field>)
    requires RequiredNames(schema) == []
    ensures RequiredCount(schema) == 0
  {
    if schema != [] {
      NoneRequiredCount(schema[..|schema| - 1]);
    }
  }

  lemma {:induction false} RelaxingLowers(got: seq<Field>, relax: set<string>)
    ensures RequiredCount(RelaxFields(got, relax)) <= RequiredCount(got)
    ensures (exists i :: 0 <= i < |got| && got[i].required && got[i].name in relax) ==>
              RequiredCount(RelaxFields(got, relax)) < RequiredCount(got)
  {
    if got != [] {
      var n := |got| - 1;
      RelaxingLowers(got[..n], relax);
      assert RelaxFields(got, relax)[..n] == RelaxFields(got[..n], relax);
      if exists i :: 0 <= i < |got| && got[i].required && got[i].name in relax {
        var i :| 0 <= i < |got| && got[i].required && got[i].name in relax;
        assert i < n ==> got[..n][i] == got[i];
      }
    }
  }

  /** An applied update brings the table strictly closer. */
  lemma UpdateApproaches(k: Sinker, v: Version, all: set<string>)
    requires RecDistinct(k.decl) && Distinct(v.schema) && Decide(k, Some(v)).Update?
    requires Names(k.decl) <= all
    ensures Potential(Some(Version(Decide(k, Some(v)).next, v.etag + 1)), all) < Potential(Some(v), all)
  {
    var got, change := v.schema, ChangeFor(k, v.schema);
    var next := Merge(got, change);
    UpdatePlanned(k, v);
    RequiredAppend(RelaxFields(got, ToSet(change.relaxColumns)), change.addColumns);
    NoneRequiredCount(change.addColumns);
    RelaxingLowers(got, ToSet(change.relaxColumns));
    MergedNames(got, change);
    assert all - Names(next) <= all - Names(got);
    FewerMissing(all, got, next);
    if change.addColumns != [] {
      AddingLowers(k, v, all, change);
    } else {
      RelaxingHits(k, v, change);
    }
  }

  lemma FewerMissing(all: set<string>, got: seq<Field>, next: seq<Field>)
    requires Names(got) <= Names(next)
    ensures |all - Names(next)| <= |all - Names(got)|
  {
    SubsetCount(all - Names(next), all - Names(got));
  }

  lemma SubsetCount<T>(a: set<T>, b: set<T>)
    requires a <= b
    ensures |a| <= |b|
  {
    assert b == a + (b - a);
  }

  lemma FirstAdded(decl: seq<Field>, got: seq<Field>) returns (f: Field)
    requires DiffOf(decl, got).added != []
    ensures f == DiffOf(decl, got).added[0] && f.name in Names(decl) && f.name !in Names(got)
  {
    f := DiffOf(decl, got).added[0];
    assert f in DiffOf(decl, got).added;
    InFieldsOutside(decl, ByName(got).Keys);
    ByNameKeys(got);
    var i :| 0 <= i < |decl| && decl[i] == f;
  }

  lemma AddingLowers(k: Sinker, v: Version, all: set<string>, change: SchemaChange)
    requires Distinct(k.decl) && change.addColumns == DiffOf(k.decl, v.schema).added && change.addColumns != []
    requires Names(k.decl) <= all
    ensures |all - Names(Merge(v.schema, change))| < |all - Names(v.schema)|
  {
    var f := FirstAdded(k.decl, v.schema);
    MergedNames(v.schema, change);
    assert change.addColumns[0].name in Names(change.addColumns);
    SubsetCount(all - Names(Merge(v.schema, change)), (all - Names(v.schema)) - {f.name});
  }

  lemma RelaxingHits(k: Sinker, v: Version, change: SchemaChange)
    requires Distinct(k.decl) && change.relaxColumns == DiffOf(k.decl, v.schema).relaxed && change.relaxColumns != []
    ensures exists i :: 0 <= i < |v.schema| && v.schema[i].required && v.schema[i].name in ToSet(change.relaxColumns)
  {
    var name := change.relaxColumns[0];
    assert name in change.relaxColumns && name in ToSet(change.relaxColumns);
    InRelaxed(k.decl, ByName(v.schema), name);
    ByNameMember(v.schema, name);
    var i :| 0 <= i < |v.schema| && v.schema[i] == ByName(v.schema)[name];
  }

  lemma DeclIsDeclared(sinkers: seq<Sinker>, i: nat)
    requires i < |sinkers|
    ensures Names(sinkers[i].decl) <= DeclaredNames(sinkers)
  {
  }

  lemma CreateApproaches(decl: seq<Field>, all: set<string>)
    requires Distinct(decl) && Names(decl) <= all
    ensures |all - Names(decl)| + RequiredCount(decl) <= |all|
  {
    DistinctNamesCount(decl);
    RequiredBound(decl);
    assert all == Names(decl) + (all - Names(decl));
  }

  /** Every change of the table lowers the potential; nothing else touches it. */
  lemma StepApproaches(s: State, step: Step, base: nat)
    requires Inv(s, base) && Enabled(s, step)
    ensures
      var t, all := Next(s, step), DeclaredNames(s.sinkers);
      && DeclaredNames(t.sinkers) == all
      && (t.table == s.table
          || (Clock(t.table) == Clock(s.table) + 1 && Potential(t.table, all) < Potential(s.table, all)))
  {
    var t, all := Next(s, step), DeclaredNames(s.sinkers);
    var i := step.i;
    assert SinkerOk(s, i, base);
    assert forall k | 0 <= k < |s.sinkers| :: t.sinkers[k].decl == s.sinkers[k].decl;
    DeclIsDeclared(s.sinkers, i);
    if t.table != s.table {
      if Decide(s.sinkers[i], s.sinkers[i].phase.md).Update? {
        UpdateApproaches(s.sinkers[i], s.table.value, all);
      } else {
        CreateApproaches(s.sinkers[i].decl, all);
      }
    }
  }

  // ---- Whole runs ----

  predicate IsRun(states: seq<State>, steps: seq<Step>) {
    && |states| == |steps| + 1
    && Init(states[0])
    && forall k | 0 <= k < |steps| :: Enabled(states[k], steps[k]) && states[k + 1] == Next(states[k], steps[k])
  }

  lemma {:induction false} RunKeeps(states: seq<State>, steps: seq<Step>, k: nat)
    requires IsRun(states, steps) && k < |states|
    ensures Inv(states[k], Clock(states[0].table))
  {
    if k > 0 {
      RunKeeps(states, steps, k - 1);
      StepKeeps(states[k - 1], steps[k - 1], Clock(states[0].table));
    } else {
      forall i | 0 <= i < |states[0].sinkers| ensures SinkerOk(states[0], i, Clock(states[0].table)) {
      }
    }
  }

  lemma NamesStayDistinct(states: seq<State>, steps: seq<Step>, k: nat)
    requires IsRun(states, steps) && k < |states| && states[k].table.Some?
    ensures Distinct(states[k].table.value.schema)
  {
    RunKeeps(states, steps, k);
  }

  lemma GrowsOnce(states: seq<State>, steps: seq<Step>, k: nat)
    requires IsRun(states, steps) && k < |steps|
    ensures TableGrows(states[k].table, states[k + 1].table)
  {
    RunKeeps(states, steps, k);
    StepKeeps(states[k], steps[k], Clock(states[0].table));
  }

  /** The changes made to the table and those still possible. */
  function Budget(s: State): nat {
    Clock(s.table) + Potential(s.table, DeclaredNames(s.sinkers))
  }

  lemma ApproachesOnce(states: seq<State>, steps: seq<Step>, k: nat)
    requires IsRun(states, steps) && k < |steps|
    ensures Budget(states[k + 1]) <= Budget(states[k])
  {
    RunKeeps(states, steps, k);
    StepApproaches(states[k], steps[k], Clock(states[0].table));
  }

  /**
   Between any two moments of any run: no column of the table is removed, moved or retyped,
   none becomes REQUIRED, and names stay distinct.
   */
  lemma TableOnlyGrows(states: seq<State>, steps: seq<Step>, k: nat, m: nat)
    requires IsRun(states, steps) && k <= m < |states| && states[k].table.Some?
    ensures states[m].table.Some? && Grows(states[k].table.value.schema, states[m].table.value.schema)
    ensures Distinct(states[m].table.value.schema)
  {
    for j := k to m
      invariant states[j].table.Some? && Grows(states[k].table.value.schema, states[j].table.value.schema)
    {
      GrowsOnce(states, steps, j);
      GrowsTransitive(states[k].table.value.schema, states[j].table.value.schema, states[j + 1].table.value.schema);
    }
    NamesStayDistinct(states, steps, m);
  }

  lemma {:induction false} DoneStays(states: seq<State>, steps: seq<Step>, k: nat, m: nat, i: nat)
    requires IsRun(states, steps) && k <= m < |states| && i < |states[k].sinkers| && states[k].sinkers[i].phase.Done?
    ensures i < |states[m].sinkers| && states[m].sinkers[i] == states[k].sinkers[i]
  {
    if k < m {
      DoneStays(states, steps, k, m - 1, i);
    }
  }

  /**
   Once a Sinker's migrate returned nil, the table has every column it declares forever
   after, with its type, repeated flag and nested fields, REQUIRED only where it said so.
   */
  lemma NilMeansSatisfiedForever(states: seq<State>, steps: seq<Step>, k: nat, m: nat, i: nat)
    requires IsRun(states, steps) && k <= m < |states| && i < |states[k].sinkers| && states[k].sinkers[i].phase.Done?
    ensures states[m].table.Some? && Satisfied(states[k].sinkers[i].decl, states[m].table.value.schema)
  {
    DoneStays(states, steps, k, m, i);
    RunKeeps(states, steps, m);
    assert SinkerOk(states[m], i, Clock(states[0].table));
  }

  lemma BudgetFalls(states: seq<State>, steps: seq<Step>, k: nat)
    requires IsRun(states, steps) && k < |states|
    ensures Budget(states[k]) <= Budget(states[0])
  {
    for j := 0 to k
      invariant Budget(states[j]) <= Budget(states[0])
    {
      ApproachesOnce(states, steps, j);
    }
  }

  /** The number of times the table changes in a run is bounded by the potential it started with. */
  lemma ChangesAreBounded(states: seq<State>, steps: seq<Step>, k: nat)
    requires IsRun(states, steps) && k < |states|
    ensures Clock(states[k].table) + Potential(states[k].table, DeclaredNames(states[k].sinkers))
         <= Clock(states[0].table) + Potential(states[0].table, DeclaredNames(states[0].sinkers))
  {
    BudgetFalls(states, steps, k);
  }

  /**
   A Sinker loses a race only to a change another one made, so however the runs interleave
   it is refused at most as often as the starting potential allows.
   */
  lemma LostRacesAreBounded(states: seq<State>, steps: seq<Step>, k: nat, i: nat)
    requires IsRun(states, steps) && k < |states| && i < |states[k].sinkers|
    ensures states[k].sinkers[i].lostRaces <= Clock(states[k].table) - Clock(states[0].table)
    ensures states[k].sinkers[i].lostRaces <= Potential(states[0].table, DeclaredNames(states[0].sinkers))
  {
    RunKeeps(states, steps, k);
    ChangesAreBounded(states, steps, k);
    assert SinkerOk(states[k], i, Clock(states[0].table));
  }

  // ---- One attempt with nobody in the way ----

  function SchemaAt(table: Option<Version>): Option<seq<Field>> {
    match table
    case None => None
    case Some(v) => Some(v.schema)
  }

  /** The whole migration of Sinker i on the table as it is, and no API failure. */
  function AloneOn(k: Sinker, table: Option<Version>): Applied {
    MigrateOf(k.decl, AppendNewColumns(k.createIfMissing), SchemaAt(table), Faults(None, None, None, None))
  }

  /**
   An attempt that nothing comes between is the migration of Migration: after its read a Sinker
   either decides or writes, never both, and then it is done exactly when that migration returns
   nil, and the table has changed exactly as it changes it.
   */
  lemma AttemptAlone(s: State, i: nat)
    requires Enabled(s, ReadOk(i))
    ensures
      var t, done := Next(s, ReadOk(i)), AloneOn(s.sinkers[i], s.table);
      && t.table == s.table
      && (Enabled(t, Decided(i)) <==> done.states == [])
      && (Enabled(t, Write(i, Answered)) <==> done.states != [])
      && (done.states == [] ==>
            var u := Next(t, Decided(i));
            u.table == s.table && i < |u.sinkers| && u.sinkers[i].phase == if done.error.None? then Done else Failed)
      && (done.states != [] ==>
            var u := Next(t, Write(i, Answered));
            && done.error.None? && |done.states| == 1 && i < |u.sinkers| && u.sinkers[i].phase.Done?
            && u.table == Some(Version(done.states[0], Clock(s.table) + 1)))
  {
    var k, t := s.sinkers[i], Next(s, ReadOk(i));
    assert t.sinkers[i].phase.md == s.table;
    DecidesAsMigrate(t.sinkers[i], s.table);
    assert AloneOn(t.sinkers[i], s.table) == AloneOn(k, s.table);
  }

  lemma DecidesAsMigrate(k: Sinker, md: Option<Version>)
    ensures
      match Decide(k, md)
      case Stop => AloneOn(k, md).error.Some? && AloneOn(k, md).states == []
      case Settle => AloneOn(k, md) == Applied(None, [])
      case CreateTable => md.None? && AloneOn(k, md) == Applied(None, [k.decl])
      case Update(next) => md.Some? && AloneOn(k, md) == Applied(None, [next])
  {
  }

  // ---- Retries enough ----

  function OwnSteps(steps: seq<Step>, i: nat): nat {
    if steps == [] then 0
    else OwnSteps(steps[..|steps|-1], i) + (if steps[|steps|-1].i == i then 1 else 0)
  }

  /** How far into its attempt a Sinker is. */
  function Stage(k: Sinker): nat {
    match k.phase
    case Reading => 0
    case Holding(_) => 1
    case Done => 2
    case Failed => 0
  }

  /**
   Sinker i meets no fault, no conflict and no REQUIRED addition in this step, and an update
   refused for its etag is retried while it has retries left.
   */
  predicate Smooth(s: State, step: Step, i: nat, retries: nat)
    requires Enabled(s, step)
  {
    step.i == i ==>
      match step
      case ReadOk(_) => true
      case ReadFails(_, _) => false
      case Decided(_) => Decide(s.sinkers[i], s.sinkers[i].phase.md).Settle?
      case Write(_, Answered) => true
      case Write(_, Refused(again)) => again == (s.sinkers[i].lostRaces < retries)
      case Write(_, _) => false
  }

  /** The Sinker can only give up: a conflict, a REQUIRED addition, or no table and no leave to create one. */
  predicate Stuck(s: State, i: nat)
    requires i < |s.sinkers|
  {
    s.sinkers[i].phase.Holding? && Decide(s.sinkers[i], s.sinkers[i].phase.md).Stop?
  }

  lemma SameSinkers(s: State, step: Step)
    requires Enabled(s, step)
    ensures |Next(s, step).sinkers| == |s.sinkers|
  {
  }

  lemma SmoothStep(s: State, step: Step, i: nat, retries: nat)
    requires Enabled(s, step) && Smooth(s, step, i, retries) && i < |s.sinkers| && !s.sinkers[i].phase.Failed?
    requires Next(s, step).sinkers[i].lostRaces <= retries
    ensures !Next(s, step).sinkers[i].phase.Failed?
    ensures 2 * Next(s, step).sinkers[i].lostRaces + Stage(Next(s, step).sinkers[i])
         == 2 * s.sinkers[i].lostRaces + Stage(s.sinkers[i]) + (if step.i == i then 1 else 0)
  {
  }

  lemma NeverFails(states: seq<State>, steps: seq<Step>, i: nat, retries: nat)
    requires IsRun(states, steps) && i < |states[0].sinkers|
    requires forall j | 0 <= j < |steps| :: Smooth(states[j], steps[j], i, retries)
    requires Potential(states[0].table, DeclaredNames(states[0].sinkers)) <= retries
    ensures i < |states[|steps|].sinkers| && !states[|steps|].sinkers[i].phase.Failed?
    ensures OwnSteps(steps, i) == 2 * states[|steps|].sinkers[i].lostRaces + Stage(states[|steps|].sinkers[i])
  {
    for j := 0 to |steps|
      invariant i < |states[j].sinkers| && !states[j].sinkers[i].phase.Failed?
      invariant OwnSteps(steps[..j], i) == 2 * states[j].sinkers[i].lostRaces + Stage(states[j].sinkers[i])
    {
      assert steps[..j + 1][..j] == steps[..j];
      SameSinkers(states[j], steps[j]);
      LostRacesAreBounded(states, steps, j + 1, i);
      SmoothStep(states[j], steps[j], i, retries);
    }
    assert steps[..|steps|] == steps;
  }

  /**
   With as many retries as the starting potential, a Sinker that meets nothing worse than lost
   races never fails: two steps of its own for each race it can lose and two more see it done,
   and until then it can take another such step, unless what it read conflicts with what it
   declares.
   */
  lemma RetriesSuffice(states: seq<State>, steps: seq<Step>, i: nat, retries: nat)
    requires IsRun(states, steps) && i < |states[0].sinkers|
    requires forall j | 0 <= j < |steps| :: Smooth(states[j], steps[j], i, retries)
    requires Potential(states[0].table, DeclaredNames(states[0].sinkers)) <= retries
    ensures
      var last := states[|steps|];
      && i < |last.sinkers| && !last.sinkers[i].phase.Failed?
      && (last.sinkers[i].phase.Done? ||
          (&& OwnSteps(steps, i) < 2 * Potential(states[0].table, DeclaredNames(states[0].sinkers)) + 2
           && (Stuck(last, i) || exists step :: Enabled(last, step) && step.i == i && Smooth(last, step, i, retries))))
  {
    var last := states[|steps|];
    NeverFails(states, steps, i, retries);
    LostRacesAreBounded(states, steps, |steps|, i);
    if !last.sinkers[i].phase.Done? && !Stuck(last, i) {
      SmoothStepEnabled(last, i, retries);
    }
  }

  lemma SmoothStepEnabled(s: State, i: nat, retries: nat)
    requires i < |s.sinkers| && (s.sinkers[i].phase.Reading? || s.sinkers[i].phase.Holding?) && !Stuck(s, i)
    ensures exists step :: Enabled(s, step) && step.i == i && Smooth(s, step, i, retries)
  {
    var step :=
      if s.sinkers[i].phase.Reading? then ReadOk(i)
      else if Decide(s.sinkers[i], s.sinkers[i].phase.md).Settle? then Decided(i)
      else Write(i, if Applicable(s, i) then Answered else Refused(s.sinkers[i].lostRaces < retries));
    assert Enabled(s, step) && Smooth(s, step, i, retries);
  }
}
