/**
 Which of the candidates sharing a column name survives (fields.go:93-147): the
 shallowest, a tie broken by a single tag, otherwise none; then the survivors in index
 order.
 */
module Collisions {
  import opened Wrappers
  import opened Promotion

  // ---- winnerFor ----

  function Shallowest(cs: seq<Candidate>): nat
    requires cs != []
  {
    if |cs| == 1 then cs[0].depth
    else
      var before := Shallowest(cs[..|cs|-1]);
      if cs[|cs|-1].depth < before then cs[|cs|-1].depth else before
  }

  function AtDepthOf(cs: seq<Candidate>, d: nat): seq<Candidate> {
    if cs == [] then []
    else
      var before := AtDepthOf(cs[..|cs|-1], d);
      if cs[|cs|-1].depth == d then before + [cs[|cs|-1]] else before
  }

  function TaggedOf(cs: seq<Candidate>): seq<Candidate> {
    if cs == [] then []
    else
      var before := TaggedOf(cs[..|cs|-1]);
      if cs[|cs|-1].tagged then before + [cs[|cs|-1]] else before
  }

  /** What winnerFor returns. */
  function Winner(cs: seq<Candidate>): Option<Candidate>
    requires cs != []
  {
    if |cs| == 1 then Some(cs[0])
    else
      var atDepth := AtDepthOf(cs, Shallowest(cs));
      if |atDepth| == 1 then Some(atDepth[0])
      else
        var tagged := TaggedOf(atDepth);
        if |tagged| == 1 then Some(tagged[0]) else None
  }

  method WinnerFor(candidates: seq<Candidate>) returns (winner: Option<Candidate>)
    requires candidates != []
    ensures winner == Winner(candidates)
  {
    if |candidates| == 1 {
      return Some(candidates[0]);
    }
    var shallowest := candidates[0].depth;
    for i := 1 to |candidates|
      invariant shallowest == Shallowest(candidates[..i])
    {
      assert candidates[..i + 1][..i] == candidates[..i];
      if candidates[i].depth < shallowest {
        shallowest := candidates[i].depth;
      }
    }
    assert candidates[..|candidates|] == candidates;
    var atDepth := [];
    for i := 0 to |candidates|
      invariant atDepth == AtDepthOf(candidates[..i], shallowest)
    {
      assert candidates[..i + 1][..i] == candidates[..i];
      if candidates[i].depth == shallowest {
        atDepth := atDepth + [candidates[i]];
      }
    }
    if |atDepth| == 1 {
      return Some(atDepth[0]);
    }
    var tagged := [];
    for i := 0 to |atDepth|
      invariant tagged == TaggedOf(atDepth[..i])
    {
      assert atDepth[..i + 1][..i] == atDepth[..i];
      if atDepth[i].tagged {
        tagged := tagged + [atDepth[i]];
      }
    }
    assert atDepth[..|atDepth|] == atDepth;
    return if |tagged| == 1 then Some(tagged[0]) else None;
  }

  // ---- What a winner is ----

  predicate DistinctIndices(cs: seq<Candidate>) {
    forall i, j | 0 <= i < j < |cs| :: cs[i].index != cs[j].index
  }

  /** c beats cs: nothing is shallower, and at its depth it is alone, or alone in being tagged. */
  predicate Beats(c: Candidate, cs: seq<Candidate>) {
    && c in cs
    && (forall x | x in cs :: c.depth <= x.depth)
    && ((forall x | x in cs && x.depth == c.depth :: x == c)
        || (c.tagged && forall x | x in cs && x.depth == c.depth && x.tagged :: x == c))
  }

  lemma {:induction false} ShallowestIs(cs: seq<Candidate>)
    requires cs != []
    ensures forall x :: x in cs ==> Shallowest(cs) <= x.depth
    ensures exists x :: x in cs && x.depth == Shallowest(cs)
  {
    if |cs| > 1 {
      var n := |cs| - 1;
      ShallowestIs(cs[..n]);
      assert cs == cs[..n] + [cs[n]];
    } else {
      assert cs[0] in cs;
    }
  }

  lemma {:induction false} InAtDepth(cs: seq<Candidate>, d: nat)
    requires DistinctIndices(cs)
    ensures forall x :: x in AtDepthOf(cs, d) <==> x in cs && x.depth == d
    ensures DistinctIndices(AtDepthOf(cs, d))
  {
    if cs != [] {
      var n := |cs| - 1;
      InAtDepth(cs[..n], d);
      assert cs == cs[..n] + [cs[n]];
      var before := AtDepthOf(cs[..n], d);
      forall i | 0 <= i < |before| ensures before[i].index != cs[n].index {
        assert before[i] in cs[..n];
      }
    }
  }

  lemma {:induction false} InTagged(cs: seq<Candidate>)
    requires DistinctIndices(cs)
    ensures forall x :: x in TaggedOf(cs) <==> x in cs && x.tagged
    ensures DistinctIndices(TaggedOf(cs))
  {
    if cs != [] {
      var n := |cs| - 1;
      InTagged(cs[..n]);
      assert cs == cs[..n] + [cs[n]];
      var before := TaggedOf(cs[..n]);
      forall i | 0 <= i < |before| ensures before[i].index != cs[n].index {
        assert before[i] in cs[..n];
      }
    }
  }

  lemma OnlyMember(cs: seq<Candidate>, c: Candidate)
    requires DistinctIndices(cs) && c in cs
    ensures |cs| == 1 <==> forall x :: x in cs ==> x == c
    ensures |cs| == 1 ==> cs[0] == c
  {
    assert cs[0] in cs;
    assert |cs| > 1 ==> cs[1] in cs;
  }

  /** winnerFor has c as its winner exactly when c beats the candidates of its name. */
  lemma WinnerBeats(cs: seq<Candidate>, c: Candidate)
    requires cs != [] && DistinctIndices(cs)
    ensures Winner(cs) == Some(c) <==> Beats(c, cs)
  {
    ShallowestIs(cs);
    var d := Shallowest(cs);
    var atDepth := AtDepthOf(cs, d);
    InAtDepth(cs, d);
    InTagged(atDepth);
    var tagged := TaggedOf(atDepth);
    assert cs[0] in cs;
    assert |atDepth| > 0 ==> atDepth[0] in atDepth;
    assert |tagged| > 0 ==> tagged[0] in tagged;
    if |cs| == 1 {
      OnlyMember(cs, cs[0]);
    } else if |atDepth| == 1 {
      OnlyMember(atDepth, atDepth[0]);
    } else {
      TieNeedsTag(cs, c, d);
    }
  }

  lemma TieNeedsTag(cs: seq<Candidate>, c: Candidate, d: nat)
    requires DistinctIndices(cs) && |AtDepthOf(cs, d)| != 1
    requires (forall x :: x in cs ==> d <= x.depth) && (exists x :: x in cs && x.depth == d)
    ensures |TaggedOf(AtDepthOf(cs, d))| == 1 && TaggedOf(AtDepthOf(cs, d))[0] == c <==> Beats(c, cs)
  {
    var atDepth := AtDepthOf(cs, d);
    InAtDepth(cs, d);
    InTagged(atDepth);
    var tagged := TaggedOf(atDepth);
    if c in atDepth {
      OnlyMember(atDepth, c);
    }
    if c in tagged {
      OnlyMember(tagged, c);
    }
    assert |tagged| > 0 ==> tagged[0] in tagged;
  }

  // ---- resolveCollisions ----

  function Named(cs: seq<Candidate>, name: string): seq<Candidate> {
    if cs == [] then []
    else
      var before := Named(cs[..|cs|-1], name);
      if cs[|cs|-1].name == name then before + [cs[|cs|-1]] else before
  }

  /** f survives among the candidates: it is the winner of its own name. */
  predicate Survives(found: seq<Candidate>, f: Candidate) {
    var rivals := Named(found, f.name);
    rivals != [] && Winner(rivals).Some? && Winner(rivals).value.index == f.index
  }

  function Survivors(found: seq<Candidate>, cs: seq<Candidate>): seq<Candidate> {
    if cs == [] then []
    else
      var before := Survivors(found, cs[..|cs|-1]);
      if Survives(found, cs[|cs|-1]) then before + [cs[|cs|-1]] else before
  }

  /** slices.Compare on indices, as "comes before". */
  predicate Before(a: seq<nat>, b: seq<nat>) {
    if b == [] then false
    else if a == [] then true
    else a[0] < b[0] || (a[0] == b[0] && Before(a[1..], b[1..]))
  }

  predicate InIndexOrder(cs: seq<Candidate>) {
    forall i, j | 0 <= i < j < |cs| :: Before(cs[i].index, cs[j].index)
  }

  /** The candidates of each name, in the order they were found. */
  method GroupByName(found: seq<Candidate>) returns (byName: map<string, seq<Candidate>>)
    ensures forall c :: c in found ==> c.name in byName
    ensures forall name | name in byName :: byName[name] == Named(found, name)
  {
    byName := map[];
    for i := 0 to |found|
      invariant Grouped(found, byName, i)
    {
      var name := found[i].name;
      GroupOne(found, byName, i);
      byName := byName[name := (if name in byName then byName[name] else []) + [found[i]]];
    }
    assert found[..|found|] == found;
  }

  /** The first i candidates are grouped. */
  ghost predicate Grouped(found: seq<Candidate>, byName: map<string, seq<Candidate>>, i: nat)
    requires i <= |found|
  {
    && (forall k | 0 <= k < i :: found[k].name in byName)
    && (forall name | name in byName :: byName[name] == Named(found[..i], name))
  }

  lemma {:induction false} NoneNamed(cs: seq<Candidate>, name: string)
    requires forall k | 0 <= k < |cs| :: cs[k].name != name
    ensures Named(cs, name) == []
  {
    if cs != [] {
      NoneNamed(cs[..|cs|-1], name);
    }
  }

  lemma NamedGrows(found: seq<Candidate>, i: nat, name: string)
    requires i < |found|
    ensures Named(found[..i + 1], name) == Named(found[..i], name) + (if found[i].name == name then [found[i]] else [])
  {
    assert found[..i + 1][..i] == found[..i];
  }

  lemma GroupOne(found: seq<Candidate>, byName: map<string, seq<Candidate>>, i: nat)
    requires i < |found| && Grouped(found, byName, i)
    ensures var name := found[i].name;
            Grouped(found, byName[name := (if name in byName then byName[name] else []) + [found[i]]], i + 1)
  {
    var name := found[i].name;
    if name !in byName {
      NoneNamed(found[..i], name);
    }
    var next := byName[name := (if name in byName then byName[name] else []) + [found[i]]];
    forall other | other in next ensures next[other] == Named(found[..i + 1], other) {
      NamedGrows(found, i, other);
    }
  }

  method ResolveCollisions(found: seq<Candidate>) returns (kept: seq<Candidate>)
    requires DistinctIndices(found)
    ensures multiset(kept) == multiset(Survivors(found, found))
    ensures InIndexOrder(kept)
  {
    var byName := GroupByName(found);
    kept := [];
    for i := 0 to |found|
      invariant kept == Survivors(found, found[..i])
    {
      assert found[..i + 1][..i] == found[..i] && found[i] in found;
      NamedHas(found, i);
      var winner := WinnerFor(byName[found[i].name]);
      if winner.Some? && winner.value.index == found[i].index {
        kept := kept + [found[i]];
      }
    }
    assert found[..|found|] == found;
    SurvivorsAre(found, found);
    kept := SortByIndex(kept);
  }

  lemma {:induction false} NamedHas(cs: seq<Candidate>, i: nat)
    requires i < |cs|
    ensures cs[i] in Named(cs, cs[i].name)
  {
    if i < |cs| - 1 {
      NamedHas(cs[..|cs|-1], i);
    }
  }

  lemma {:induction false} InNamed(cs: seq<Candidate>, name: string)
    requires DistinctIndices(cs)
    ensures forall x :: x in Named(cs, name) <==> x in cs && x.name == name
    ensures DistinctIndices(Named(cs, name))
  {
    if cs != [] {
      var n := |cs| - 1;
      InNamed(cs[..n], name);
      assert cs == cs[..n] + [cs[n]];
      var before := Named(cs[..n], name);
      forall i | 0 <= i < |before| ensures before[i].index != cs[n].index {
        assert before[i] in cs[..n];
      }
    }
  }

  lemma {:induction false} SurvivorsAre(found: seq<Candidate>, cs: seq<Candidate>)
    requires DistinctIndices(cs)
    ensures forall x :: x in Survivors(found, cs) <==> x in cs && Survives(found, x)
    ensures DistinctIndices(Survivors(found, cs))
  {
    if cs != [] {
      var n := |cs| - 1;
      SurvivorsAre(found, cs[..n]);
      assert cs == cs[..n] + [cs[n]];
      var before := Survivors(found, cs[..n]);
      forall i | 0 <= i < |before| ensures before[i].index != cs[n].index {
        assert before[i] in cs[..n];
      }
    }
  }

  /** A candidate survives exactly when it beats the candidates of its name. */
  lemma SurvivesExactlyWhenBeats(found: seq<Candidate>, f: Candidate)
    requires DistinctIndices(found) && f in found
    ensures Survives(found, f) <==> Beats(f, Named(found, f.name))
  {
    var rivals := Named(found, f.name);
    InNamed(found, f.name);
    assert f in rivals;
    WinnerBeats(rivals, f);
    if Survives(found, f) {
      var w := Winner(rivals).value;
      WinnerBeats(rivals, w);
      SameIndex(rivals, w, f);
    }
  }

  lemma SameIndex(cs: seq<Candidate>, a: Candidate, b: Candidate)
    requires DistinctIndices(cs) && a in cs && b in cs && a.index == b.index
    ensures a == b
  {
  }

  /** At most one candidate of a name survives. */
  lemma OneSurvivorPerName(found: seq<Candidate>, a: Candidate, b: Candidate)
    requires DistinctIndices(found) && a in found && b in found
    requires Survives(found, a) && Survives(found, b)
    ensures a.name == b.name ==> a == b
  {
    if a.index == b.index {
      SameIndex(found, a, b);
    }
  }

  /** A name survives exactly when its candidates have a winner. */
  lemma NameSurvivesExactlyWhen(found: seq<Candidate>, name: string)
    requires DistinctIndices(found)
    ensures (exists c :: c in found && c.name == name && Survives(found, c))
       <==> Named(found, name) != [] && Winner(Named(found, name)).Some?
  {
    var rivals := Named(found, name);
    InNamed(found, name);
    if rivals != [] && Winner(rivals).Some? {
      var w := Winner(rivals).value;
      WinnerBeats(rivals, w);
      assert w in found && w.name == name && Survives(found, w);
    }
  }

  // ---- The sort ----

  lemma {:induction false} BeforeTotal(a: seq<nat>, b: seq<nat>)
    ensures a != b ==> Before(a, b) || Before(b, a)
    ensures !(Before(a, b) && Before(b, a))
    ensures !Before(a, a)
    decreases |a|
  {
    if a != [] && b != [] {
      BeforeTotal(a[1..], b[1..]);
      BeforeTotal(a[1..], a[1..]);
      assert a == [a[0]] + a[1..] && b == [b[0]] + b[1..];
    } else if a != [] {
      BeforeTotal(a[1..], []);
      BeforeTotal(a[1..], a[1..]);
    }
  }

  lemma {:induction false} BeforeTransitive(a: seq<nat>, b: seq<nat>, c: seq<nat>)
    requires Before(a, b) && Before(b, c)
    ensures Before(a, c)
    decreases |a|
  {
    if a != [] && a[0] == b[0] == c[0] {
      BeforeTransitive(a[1..], b[1..], c[1..]);
    }
  }

  /** slices.SortFunc with the index order; distinct indices leave only one sorted result. */
  method SortByIndex(cs: seq<Candidate>) returns (sorted: seq<Candidate>)
    requires DistinctIndices(cs)
    ensures multiset(sorted) == multiset(cs) && InIndexOrder(sorted)
  {
    sorted := [];
    for i := 0 to |cs|
      invariant multiset(sorted) == multiset(cs[..i]) && InIndexOrder(sorted)
    {
      assert cs[..i + 1] == cs[..i] + [cs[i]];
      forall k | 0 <= k < |sorted| ensures sorted[k].index != cs[i].index {
        assert sorted[k] in multiset(cs[..i]);
      }
      sorted := InsertByIndex(sorted, cs[i]);
    }
    assert cs[..|cs|] == cs;
  }

  method InsertByIndex(sorted: seq<Candidate>, c: Candidate) returns (out: seq<Candidate>)
    requires InIndexOrder(sorted) && forall k | 0 <= k < |sorted| :: sorted[k].index != c.index
    ensures multiset(out) == multiset(sorted) + multiset{c} && InIndexOrder(out)
  {
    var k := |sorted|;
    while k > 0 && Before(c.index, sorted[k - 1].index)
      invariant 0 <= k <= |sorted|
      invariant forall j | k <= j < |sorted| :: Before(c.index, sorted[j].index)
    {
      k := k - 1;
    }
    InsertedInOrder(sorted, c, k);
    assert sorted == sorted[..k] + sorted[k..];
    out := sorted[..k] + [c] + sorted[k..];
  }

  lemma InsertedInOrder(sorted: seq<Candidate>, c: Candidate, k: nat)
    requires InIndexOrder(sorted) && k <= |sorted|
    requires forall j | k <= j < |sorted| :: Before(c.index, sorted[j].index)
    requires k > 0 ==> sorted[k - 1].index != c.index && !Before(c.index, sorted[k - 1].index)
    ensures InIndexOrder(sorted[..k] + [c] + sorted[k..])
  {
    forall j | 0 <= j < k ensures Before(sorted[j].index, c.index) {
      BeforeTotal(sorted[k - 1].index, c.index);
      if j < k - 1 {
        BeforeTransitive(sorted[j].index, sorted[k - 1].index, c.index);
      }
    }
  }

  /** Two arrangements of the same candidates in index order are the same arrangement. */
  lemma {:induction false} OneOrder(a: seq<Candidate>, b: seq<Candidate>)
    requires multiset(a) == multiset(b) && InIndexOrder(a) && InIndexOrder(b)
    ensures a == b
  {
    if a == [] {
      assert |multiset(b)| == |b|;
    } else {
      var n := |a| - 1;
      assert |multiset(a)| == |a| && |multiset(b)| == |b|;
      LastIsLast(a, b);
      WithoutLast(a);
      WithoutLast(b);
      assert InIndexOrder(a[..n]) && InIndexOrder(b[..n]);
      OneOrder(a[..n], b[..n]);
      SameFrontAndLast(a, b);
    }
  }

  lemma SameFrontAndLast(a: seq<Candidate>, b: seq<Candidate>)
    requires |a| == |b| > 0 && a[..|a|-1] == b[..|b|-1] && a[|a|-1] == b[|b|-1]
    ensures a == b
  {
    assert a == a[..|a|-1] + [a[|a|-1]] && b == b[..|b|-1] + [b[|b|-1]];
  }

  lemma WithoutLast(a: seq<Candidate>)
    requires a != []
    ensures multiset(a[..|a|-1]) == multiset(a) - multiset{a[|a|-1]}
  {
    assert a == a[..|a|-1] + [a[|a|-1]];
  }

  lemma LastIsLast(a: seq<Candidate>, b: seq<Candidate>)
    requires multiset(a) == multiset(b) && InIndexOrder(a) && InIndexOrder(b) && |a| == |b| > 0
    ensures a[|a|-1] == b[|b|-1]
  {
    var n := |a| - 1;
    assert a[n] in multiset(b) && b[n] in multiset(a);
    var i :| 0 <= i < |b| && b[i] == a[n];
    var j :| 0 <= j < |a| && a[j] == b[n];
    if i < n && j < n {
      BeforeTotal(a[n].index, b[n].index);
      assert false;
    }
  }
}
