/**
 collectFields as a whole (fields.go:31-116): the pruned walk followed by the collision
 rule, against the columns one gets by enumerating every embedding path.
 */
module Columns {
  import opened Wrappers
  import opened Promotion
  import opened EmbeddingPaths
  import opened Collisions

  /** The survivors among all candidates of the type, in index order. */
  ghost predicate AreColumns(g: Graph, root: nat, kept: seq<Candidate>)
    requires root < |g|
  {
    && Collected(g, root).Some? && InIndexOrder(kept)
    && forall c :: c in kept <==> c in Collected(g, root).value && Survives(Collected(g, root).value, c)
  }

  /** collectFields; None is a tag that does not parse. */
  method CollectFields(g: Graph, root: nat) returns (kept: Option<seq<Candidate>>)
    requires root < |g|
    ensures kept.Some? == Collected(g, root).Some?
    ensures kept.Some? ==> AreColumns(g, root, kept.value)
    ensures kept.Some? ==> forall i, j | 0 <= i < j < |kept.value| :: kept.value[i].name != kept.value[j].name
  {
    var found := FindCandidates(g, root);
    if found.None? {
      return None;
    }
    RootSeparate(g, root);
    SurvivorsAre(found.value, found.value);
    var sorted := ResolveCollisions(found.value);
    assert forall c :: c in sorted <==> c in multiset(sorted);
    ColumnNamesDistinct(g, root, sorted);
    return Some(sorted);
  }

  lemma ColumnNamesDistinct(g: Graph, root: nat, kept: seq<Candidate>)
    requires root < |g| && AreColumns(g, root, kept)
    ensures forall i, j | 0 <= i < j < |kept| :: kept[i].name != kept[j].name
  {
    RootSeparate(g, root);
    NamesDistinct(Collected(g, root).value, kept);
  }

  lemma NamesDistinct(found: seq<Candidate>, kept: seq<Candidate>)
    requires DistinctIndices(found) && InIndexOrder(kept)
    requires forall c :: c in kept ==> c in found && Survives(found, c)
    ensures forall i, j | 0 <= i < j < |kept| :: kept[i].name != kept[j].name
  {
    forall i, j | 0 <= i < j < |kept| ensures kept[i].name != kept[j].name {
      assert kept[i] in kept && kept[j] in kept;
      BeforeTotal(kept[i].index, kept[j].index);
      OneSurvivorPerName(found, kept[i], kept[j]);
    }
  }

  // ---- The walk from the root ----

  function FoundFrom(g: Graph, root: nat): seq<Candidate>
    requires root < |g|
  {
    Walk(g, [Node(root, [])], {root})
  }

  lemma RootSeparate(g: Graph, root: nat)
    requires root < |g|
    ensures Separate(g, root, FoundFrom(g, root)) && DistinctIndices(FoundFrom(g, root))
  {
    RootAtDepth(g, root);
    WalkSeparate(g, root, [Node(root, [])], {root}, 0);
  }

  lemma RootFinds(g: Graph, root: nat, c: Candidate)
    requires root < |g| && c in FoundFrom(g, root)
    ensures Found(g, root, c)
  {
    RootAtDepth(g, root);
    WalkFinds(g, root, [Node(root, [])], {root}, 0, c);
  }

  lemma RootFindsAll(g: Graph, root: nat, p: seq<nat>) returns (c: Candidate)
    requires root < |g| && IsColumn(g, root, p)
    ensures c in FoundFrom(g, root) && Found(g, root, c)
    ensures Owner(g, root, c) == Reach(g, root, p[..|p|-1]) && c.index[|c.index|-1] == p[|p|-1]
    ensures |c.index| <= |p|
    ensures c.name == ColumnAt(g, root, p).name && c.tagged == ColumnAt(g, root, p).tagged
  {
    RootAtDepth(g, root);
    assert p[..|p|-1] + [p[|p|-1]] == p;
    c := WalkFindsAll(g, root, [Node(root, [])], {root}, 0, p[..|p|-1], p[|p|-1]);
    RootFinds(g, root, c);
    assert IsPath(g, root, p[..|p|-1]);
  }

  // ---- Enumerating every path ----

  /**
   p wins its name among all columns of all embedding paths: the selector rule that encoding/json
   documents, and doc.go:65-71 after it.
   */
  ghost predicate Wins(g: Graph, root: nat, p: seq<nat>)
    requires root < |g|
  {
    && IsColumn(g, root, p)
    && (forall q | IsColumn(g, root, q) && Rivals(g, root, p, q) :: |p| <= |q|)
    && ((forall q | IsColumn(g, root, q) && Rivals(g, root, p, q) && |q| == |p| :: q == p)
        || (ColumnAt(g, root, p).tagged
            && forall q | IsColumn(g, root, q) && Rivals(g, root, p, q) && |q| == |p| && ColumnAt(g, root, q).tagged :: q == p))
  }

  predicate Rivals(g: Graph, root: nat, p: seq<nat>, q: seq<nat>)
    requires root < |g| && IsColumn(g, root, p) && IsColumn(g, root, q)
  {
    ColumnAt(g, root, p).name == ColumnAt(g, root, q).name
  }

  /** The path is the only shortest one to its type. */
  ghost predicate OnlyShortest(g: Graph, root: nat, p: seq<nat>)
    requires root < |g|
  {
    && Reach(g, root, p).Some?
    && forall q {:trigger IsPath(g, root, q)} ::
         IsPath(g, root, q) && Reach(g, root, q) == Reach(g, root, p) && |q| <= |p| ==> q == p
  }

  ghost predicate Kept(g: Graph, root: nat, p: seq<nat>)
    requires root < |g|
  {
    && IsColumn(g, root, p)
    && ColumnAt(g, root, p) in FoundFrom(g, root)
    && Survives(FoundFrom(g, root), ColumnAt(g, root, p))
  }

  lemma RivalsAreNamed(g: Graph, root: nat, p: seq<nat>, x: Candidate)
    requires root < |g| && IsColumn(g, root, p)
    requires x in Named(FoundFrom(g, root), ColumnAt(g, root, p).name)
    ensures Found(g, root, x) && Rivals(g, root, p, x.index) && x in FoundFrom(g, root)
    ensures x.depth == |x.index| - 1
  {
    RootSeparate(g, root);
    InNamed(FoundFrom(g, root), ColumnAt(g, root, p).name);
    RootFinds(g, root, x);
  }

  /** A winner of the enumeration sits on the only shortest path to its type, so the walk found it. */
  lemma WinnerFound(g: Graph, root: nat, p: seq<nat>)
    requires root < |g| && Wins(g, root, p)
    ensures OnlyShortest(g, root, p[..|p|-1])
    ensures ColumnAt(g, root, p) in FoundFrom(g, root)
  {
    var i, q := p[|p|-1], p[..|p|-1];
    forall r | Reach(g, root, r) == Reach(g, root, q) && |r| <= |q| ensures r == q {
      assert (r + [i])[..|r|] == r;
      assert IsColumn(g, root, r + [i]) && Rivals(g, root, p, r + [i]);
      assert r + [i] == p;
    }
    var c := RootFindsAll(g, root, p);
    assert c.index[..|c.index|-1] == q;
    assert c.index == c.index[..|c.index|-1] + [i] && p == q + [i];
  }

  lemma WinnerBeatsFound(g: Graph, root: nat, p: seq<nat>)
    requires root < |g| && Wins(g, root, p) && ColumnAt(g, root, p) in Named(FoundFrom(g, root), ColumnAt(g, root, p).name)
    ensures Beats(ColumnAt(g, root, p), Named(FoundFrom(g, root), ColumnAt(g, root, p).name))
  {
    var c := ColumnAt(g, root, p);
    var rivals := Named(FoundFrom(g, root), c.name);
    forall x | x in rivals
      ensures IsColumn(g, root, x.index) && Rivals(g, root, p, x.index) && x == ColumnAt(g, root, x.index)
      ensures x.depth == |x.index| - 1
    {
      RivalsAreNamed(g, root, p, x);
    }
    assert forall x | x in rivals :: c.depth <= x.depth;
    if forall q | IsColumn(g, root, q) && Rivals(g, root, p, q) && |q| == |p| :: q == p {
      assert forall x | x in rivals && x.depth == c.depth :: x.index == p;
    } else {
      assert forall x | x in rivals && x.depth == c.depth && x.tagged :: x.index == p;
    }
  }

  lemma WinnerKept(g: Graph, root: nat, p: seq<nat>)
    requires root < |g| && Wins(g, root, p)
    ensures Kept(g, root, p) && OnlyShortest(g, root, p[..|p|-1])
  {
    var c := ColumnAt(g, root, p);
    WinnerFound(g, root, p);
    RootSeparate(g, root);
    InNamed(FoundFrom(g, root), c.name);
    WinnerBeatsFound(g, root, p);
    SurvivesExactlyWhenBeats(FoundFrom(g, root), c);
  }

  /** For any rival column the walk found one no deeper; if that one is p's own, the rival is p. */
  lemma RivalFound(g: Graph, root: nat, p: seq<nat>, q: seq<nat>) returns (x: Candidate)
    requires root < |g| && IsColumn(g, root, p) && IsColumn(g, root, q) && Rivals(g, root, p, q)
    requires OnlyShortest(g, root, p[..|p|-1])
    ensures x in Named(FoundFrom(g, root), ColumnAt(g, root, p).name)
    ensures x.depth < |q| && x.tagged == ColumnAt(g, root, q).tagged
    ensures x == ColumnAt(g, root, p) && |q| == |p| ==> q == p
  {
    x := RivalSeen(g, root, p, q);
    ColumnDescribed(g, root, p);
    if x == ColumnAt(g, root, p) && |q| == |p| {
      SamePath(g, root, p, q);
    }
  }

  lemma SamePath(g: Graph, root: nat, p: seq<nat>, q: seq<nat>)
    requires root < |g| && p != [] && |q| == |p| && p[|p|-1] == q[|q|-1]
    requires OnlyShortest(g, root, p[..|p|-1]) && Reach(g, root, q[..|q|-1]) == Reach(g, root, p[..|p|-1])
    ensures q == p
  {
    assert IsPath(g, root, q[..|q|-1]);
    assert q == q[..|q|-1] + [q[|q|-1]] && p == p[..|p|-1] + [p[|p|-1]];
  }

  lemma KeptWins(g: Graph, root: nat, p: seq<nat>)
    requires root < |g| && Kept(g, root, p) && OnlyShortest(g, root, p[..|p|-1])
    ensures Wins(g, root, p)
  {
    var c := ColumnAt(g, root, p);
    var rivals := Named(FoundFrom(g, root), c.name);
    RootSeparate(g, root);
    SurvivesExactlyWhenBeats(FoundFrom(g, root), c);
    forall q | IsColumn(g, root, q) && Rivals(g, root, p, q) ensures |p| <= |q| {
      var x := RivalFound(g, root, p, q);
    }
    if forall x | x in rivals && x.depth == c.depth :: x == c {
      forall q | IsColumn(g, root, q) && Rivals(g, root, p, q) && |q| == |p| ensures q == p {
        var x := RivalFound(g, root, p, q);
      }
    } else {
      forall q | IsColumn(g, root, q) && Rivals(g, root, p, q) && |q| == |p| && ColumnAt(g, root, q).tagged ensures q == p {
        var x := RivalFound(g, root, p, q);
      }
    }
  }

  /**
   The walk keeps a column the enumeration of all paths would keep exactly when the path to
   its type is the only shortest one; it never misses one.
   */
  lemma EnumerationExactly(g: Graph, root: nat, p: seq<nat>)
    requires root < |g|
    ensures Wins(g, root, p) <==> Kept(g, root, p) && OnlyShortest(g, root, p[..|p|-1])
  {
    if Wins(g, root, p) {
      WinnerKept(g, root, p);
    }
    if Kept(g, root, p) && OnlyShortest(g, root, p[..|p|-1]) {
      KeptWins(g, root, p);
    }
  }

  /** The walk and the enumeration keep the same columns. */
  ghost predicate SameColumns(g: Graph, root: nat)
    requires root < |g|
  {
    forall p :: Wins(g, root, p) <==> Kept(g, root, p)
  }

  lemma SameColumnsWhenKept(g: Graph, root: nat)
    requires root < |g|
    ensures SameColumns(g, root) <==> forall p :: Kept(g, root, p) ==> OnlyShortest(g, root, p[..|p|-1])
  {
    forall p ensures Wins(g, root, p) <==> Kept(g, root, p) && OnlyShortest(g, root, p[..|p|-1]) {
      EnumerationExactly(g, root, p);
    }
  }

  // ---- The rule the walk does follow ----

  /** Two paths to one field of one type. */
  predicate SameField(g: Graph, root: nat, p: seq<nat>, q: seq<nat>)
    requires root < |g| && p != [] && q != []
  {
    Reach(g, root, p[..|p|-1]) == Reach(g, root, q[..|q|-1]) && p[|p|-1] == q[|q|-1]
  }

  /** The same rule with every field of a type counted once, however many shortest paths lead to it. */
  ghost predicate FieldWins(g: Graph, root: nat, p: seq<nat>)
    requires root < |g|
  {
    && IsColumn(g, root, p)
    && (forall q | IsColumn(g, root, q) && Rivals(g, root, p, q) :: |p| <= |q|)
    && ((forall q | IsColumn(g, root, q) && Rivals(g, root, p, q) && |q| == |p| :: SameField(g, root, p, q))
        || (ColumnAt(g, root, p).tagged
            && forall q | IsColumn(g, root, q) && Rivals(g, root, p, q) && |q| == |p| && ColumnAt(g, root, q).tagged ::
                 SameField(g, root, p, q)))
  }

  /** The walk's own column for a rival's field: no deeper, with the rival's tag, and in the running for the name. */
  lemma RivalSeen(g: Graph, root: nat, p: seq<nat>, q: seq<nat>) returns (x: Candidate)
    requires root < |g| && IsColumn(g, root, p) && IsColumn(g, root, q) && Rivals(g, root, p, q)
    ensures x in Named(FoundFrom(g, root), ColumnAt(g, root, p).name)
    ensures x.index != [] && SameField(g, root, x.index, q)
    ensures x.depth < |q| && x.tagged == ColumnAt(g, root, q).tagged
  {
    x := RootFindsAll(g, root, q);
    RootSeparate(g, root);
    InNamed(FoundFrom(g, root), ColumnAt(g, root, p).name);
  }

  lemma KeptBeats(g: Graph, root: nat, p: seq<nat>)
    requires root < |g| && Kept(g, root, p)
    ensures Beats(ColumnAt(g, root, p), Named(FoundFrom(g, root), ColumnAt(g, root, p).name))
    ensures ColumnAt(g, root, p).index == p && ColumnAt(g, root, p).depth == |p| - 1
  {
    RootSeparate(g, root);
    RootFinds(g, root, ColumnAt(g, root, p));
    SurvivesExactlyWhenBeats(FoundFrom(g, root), ColumnAt(g, root, p));
  }

  lemma KeptFieldWins(g: Graph, root: nat, p: seq<nat>)
    requires root < |g| && Kept(g, root, p)
    ensures FieldWins(g, root, p)
  {
    var c := ColumnAt(g, root, p);
    KeptBeats(g, root, p);
    forall q | IsColumn(g, root, q) && Rivals(g, root, p, q) ensures |p| <= |q| {
      var x := RivalSeen(g, root, p, q);
    }
    if forall x | x in Named(FoundFrom(g, root), c.name) && x.depth == c.depth :: x == c {
      forall q | IsColumn(g, root, q) && Rivals(g, root, p, q) && |q| == |p| ensures SameField(g, root, p, q) {
        var x := RivalSeen(g, root, p, q);
        assert c.depth <= x.depth;
      }
    } else {
      forall q | IsColumn(g, root, q) && Rivals(g, root, p, q) && |q| == |p| && ColumnAt(g, root, q).tagged
        ensures SameField(g, root, p, q)
      {
        var x := RivalSeen(g, root, p, q);
        assert c.depth <= x.depth;
      }
    }
  }

  lemma SeenRival(g: Graph, root: nat, p: seq<nat>, c: Candidate, x: Candidate)
    requires root < |g| && IsColumn(g, root, p)
    requires c in FoundFrom(g, root) && c.index != [] && SameField(g, root, c.index, p)
    requires x in Named(FoundFrom(g, root), ColumnAt(g, root, p).name)
    ensures IsColumn(g, root, x.index) && Rivals(g, root, p, x.index) && |x.index| == x.depth + 1
    ensures ColumnAt(g, root, x.index) == x
    ensures SameField(g, root, p, x.index) ==> x == c
  {
    RivalsAreNamed(g, root, p, x);
    RootSeparate(g, root);
    if SameField(g, root, p, x.index) {
      SeparateMembers(g, root, FoundFrom(g, root), x, c);
    }
  }

  /** Of a winning field the walk's own column is as shallow, and beats what the walk found of its name. */
  lemma WinnerBeatsSeen(g: Graph, root: nat, p: seq<nat>, c: Candidate)
    requires root < |g| && FieldWins(g, root, p)
    requires c in Named(FoundFrom(g, root), ColumnAt(g, root, p).name) && c in FoundFrom(g, root)
    requires c.index != [] && SameField(g, root, c.index, p) && c.depth == |p| - 1
    requires c.tagged == ColumnAt(g, root, p).tagged
    ensures Beats(c, Named(FoundFrom(g, root), ColumnAt(g, root, p).name))
  {
    var rivals := Named(FoundFrom(g, root), ColumnAt(g, root, p).name);
    forall x | x in rivals
      ensures c.depth <= x.depth
    {
      SeenRival(g, root, p, c, x);
    }
    if forall q | IsColumn(g, root, q) && Rivals(g, root, p, q) && |q| == |p| :: SameField(g, root, p, q) {
      forall x | x in rivals && x.depth == c.depth ensures x == c {
        SeenRival(g, root, p, c, x);
      }
    } else {
      forall x | x in rivals && x.depth == c.depth && x.tagged ensures x == c {
        SeenRival(g, root, p, c, x);
      }
    }
  }

  lemma WinnerSeen(g: Graph, root: nat, p: seq<nat>) returns (q: seq<nat>)
    requires root < |g| && FieldWins(g, root, p)
    ensures Kept(g, root, q) && |q| == |p| && SameField(g, root, q, p)
  {
    var c := RootFindsAll(g, root, p);
    q := c.index;
    assert Rivals(g, root, p, q);
    RootSeparate(g, root);
    InNamed(FoundFrom(g, root), c.name);
    WinnerBeatsSeen(g, root, p, c);
    SurvivesExactlyWhenBeats(FoundFrom(g, root), c);
  }

  /** Winning is a matter of the field and the length of the path, not of the path. */
  lemma SameFieldWins(g: Graph, root: nat, p: seq<nat>, q: seq<nat>)
    requires root < |g| && IsColumn(g, root, p) && FieldWins(g, root, q) && |q| == |p| && SameField(g, root, q, p)
    ensures FieldWins(g, root, p)
  {
    assert ColumnAt(g, root, q).name == ColumnAt(g, root, p).name;
    assert ColumnAt(g, root, q).tagged == ColumnAt(g, root, p).tagged;
  }

  /** A field is kept exactly when it wins: by one of its paths, as short as any. */
  lemma FieldKeptExactlyWhen(g: Graph, root: nat, p: seq<nat>)
    requires root < |g| && IsColumn(g, root, p)
    ensures FieldWins(g, root, p) <==> exists q :: Kept(g, root, q) && |q| == |p| && SameField(g, root, q, p)
  {
    if FieldWins(g, root, p) {
      var q := WinnerSeen(g, root, p);
    }
    if q :| Kept(g, root, q) && |q| == |p| && SameField(g, root, q, p) {
      KeptFieldWins(g, root, q);
      SameFieldWins(g, root, p, q);
    }
  }

  /**
   The walk and the enumeration keep the same columns exactly when every field that wins
   belongs to a type with only one shortest embedding path.
   */
  lemma SameColumnsExactlyWhen(g: Graph, root: nat)
    requires root < |g|
    ensures SameColumns(g, root) <==> forall p :: FieldWins(g, root, p) ==> OnlyShortest(g, root, p[..|p|-1])
  {
    SameColumnsWhenKept(g, root);
    if forall p :: FieldWins(g, root, p) ==> OnlyShortest(g, root, p[..|p|-1]) {
      forall p | Kept(g, root, p) ensures OnlyShortest(g, root, p[..|p|-1]) {
        KeptFieldWins(g, root, p);
      }
    }
    if forall p :: Kept(g, root, p) ==> OnlyShortest(g, root, p[..|p|-1]) {
      forall p | FieldWins(g, root, p) ensures OnlyShortest(g, root, p[..|p|-1]) {
        var q := WinnerSeen(g, root, p);
        SamePath(g, root, q, p);
      }
    }
  }

  lemma FieldWinsIsShortest(g: Graph, root: nat, p: seq<nat>)
    requires root < |g| && FieldWins(g, root, p)
    ensures Shortest(g, root, p[..|p|-1])
  {
    var i, q := p[|p|-1], p[..|p|-1];
    forall r | Reach(g, root, r) == Reach(g, root, q) ensures |q| <= |r| {
      assert (r + [i])[..|r|] == r;
      assert IsColumn(g, root, r + [i]) && Rivals(g, root, p, r + [i]);
    }
  }

  /** Enough for that: each reachable type has only one shortest path. */
  lemma UniquePathsSuffice(g: Graph, root: nat)
    requires root < |g|
    requires forall p :: Shortest(g, root, p) ==> OnlyShortest(g, root, p)
    ensures SameColumns(g, root)
  {
    SameColumnsExactlyWhen(g, root);
    forall p | FieldWins(g, root, p) ensures OnlyShortest(g, root, p[..|p|-1]) {
      FieldWinsIsShortest(g, root, p);
    }
  }

  // ---- What the result says of the declarations ----

  /** c is the column of a field that contributes one, on a type that embedding leads to. */
  ghost predicate IsDeclared(g: Graph, root: nat, c: Candidate)
    requires root < |g|
  {
    && c.index != [] && Owner(g, root, c).Some?
    && var t, i := Owner(g, root, c).value, c.index[|c.index|-1];
       i < |g[t]| && Contributes(g[t][i]) && Describes(c, g[t][i], c.index[..|c.index|-1], i)
  }

  /** Field i of the type that path p leads to is among the candidates, under the name it is to have. */
  ghost predicate IsCandidate(g: Graph, root: nat, found: seq<Candidate>, p: seq<nat>, i: nat)
    requires root < |g| && Reach(g, root, p).Some? && i < |g[Reach(g, root, p).value]|
  {
    exists c :: c in found && IsDeclared(g, root, c) && |c.index| <= |p| + 1
                && Owner(g, root, c) == Reach(g, root, p) && c.index[|c.index|-1] == i
  }

  /**
   Every column returned is described by the declaration its index leads to: a field that is
   not skipped and is exported or an embedded struct its tag names, with the tag's name where
   there is one. Every such field of every reachable type is in the running, and what is kept
   is what FieldKeptExactlyWhen says of the walk.
   */
  lemma ColumnsAreDeclared(g: Graph, root: nat, kept: seq<Candidate>)
    requires root < |g| && AreColumns(g, root, kept)
    ensures forall c :: c in kept ==> IsDeclared(g, root, c)
    ensures
      forall p, i: nat | Reach(g, root, p).Some? && i < |g[Reach(g, root, p).value]| ::
        Contributes(g[Reach(g, root, p).value][i]) ==> IsCandidate(g, root, Collected(g, root).value, p, i)
    ensures forall p :: Kept(g, root, p) <==> exists c :: c in kept && c.index == p
  {
    forall c | c in kept ensures IsDeclared(g, root, c) && Kept(g, root, c.index) {
      RootFinds(g, root, c);
      ColumnDescribed(g, root, c.index);
    }
    forall p, i: nat | Reach(g, root, p).Some? && i < |g[Reach(g, root, p).value]|
      ensures Contributes(g[Reach(g, root, p).value][i]) ==> IsCandidate(g, root, Collected(g, root).value, p, i)
    {
      if Contributes(g[Reach(g, root, p).value][i]) {
        assert (p + [i])[..|p|] == p;
        var c := RootFindsAll(g, root, p + [i]);
        ColumnDescribed(g, root, c.index);
      }
    }
    forall p | Kept(g, root, p) ensures exists c :: c in kept && c.index == p {
      ColumnDescribed(g, root, p);
      assert ColumnAt(g, root, p) in kept;
    }
  }

  // ---- Two embeddings of one type on one level ----

  function Embedded(typ: nat): FieldDecl {
    FieldDecl("", "", false, false, true, true, true, typ)
  }

  /** struct{A; B}, A and B both embedding C, and C with the one column X. */
  const DIAMOND: seq<seq<FieldDecl>> := [
    [Embedded(1), Embedded(2)],
    [Embedded(3)],
    [Embedded(3)],
    [FieldDecl("X", "", false, false, false, true, false, 0)]]

  lemma DiamondReach()
    ensures WellFormed(DIAMOND)
    ensures Reach(DIAMOND, 0, [0, 0]) == Some(3) && Reach(DIAMOND, 0, [1, 0]) == Some(3)
  {
    ReachStep(DIAMOND, 0, [], 0);
    ReachStep(DIAMOND, 0, [], 1);
    assert [] + [0] == [0] && [] + [1] == [1];
    ReachStep(DIAMOND, 0, [0], 0);
    ReachStep(DIAMOND, 0, [1], 0);
    assert [0] + [0] == [0, 0] && [1] + [0] == [1, 0];
  }

  lemma DiamondKeepsX() returns (c: Candidate)
    ensures WellFormed(DIAMOND)
    ensures Kept(DIAMOND, 0, c.index) && Found(DIAMOND, 0, c)
  {
    DiamondReach();
    var g: Graph := DIAMOND;
    assert [0, 0, 0][..2] == [0, 0];
    c := RootFindsAll(g, 0, [0, 0, 0]);
    OnlyColumn(c);
    RootSeparate(g, 0);
    InNamed(FoundFrom(g, 0), c.name);
    forall y | y in Named(FoundFrom(g, 0), c.name) ensures y == c {
      OneDiamondColumn(y, c);
    }
    SurvivesExactlyWhenBeats(FoundFrom(g, 0), c);
  }

  lemma OneDiamondColumn(y: Candidate, c: Candidate)
    requires WellFormed(DIAMOND) && y in FoundFrom(DIAMOND, 0) && c in FoundFrom(DIAMOND, 0)
    ensures y == c
  {
    var g: Graph := DIAMOND;
    RootFinds(g, 0, y);
    OnlyColumn(y);
    RootFinds(g, 0, c);
    OnlyColumn(c);
    RootSeparate(g, 0);
    SeparateMembers(g, 0, FoundFrom(g, 0), y, c);
  }

  /**
   The walk does not follow that rule here: X is ambiguous over all paths and so no
   path wins it, but C is descended into only once and the walk keeps X.
   */
  lemma DiamondDiffers()
    ensures WellFormed(DIAMOND)
    ensures !SameColumns(DIAMOND, 0)
  {
    var c := DiamondKeepsX();
    OnlyColumn(c);
    DiamondReach();
    var p := c.index[..|c.index|-1];
    var q := if p == [0, 0] then [1, 0] else [0, 0];
    assert IsPath(DIAMOND, 0, q) && Reach(DIAMOND, 0, q) == Reach(DIAMOND, 0, p) && |q| <= |p| && q != p;
    assert !OnlyShortest(DIAMOND, 0, p);
    SameColumnsWhenKept(DIAMOND, 0);
  }

  lemma SeparateMembers(g: Graph, root: nat, cs: seq<Candidate>, a: Candidate, b: Candidate)
    requires root < |g| && Separate(g, root, cs) && a in cs && b in cs
    requires Owner(g, root, a) == Owner(g, root, b) && a.index[|a.index|-1] == b.index[|b.index|-1]
    ensures a == b
  {
  }

  /** In the diamond every column is X of C, at depth two. */
  lemma OnlyColumn(c: Candidate)
    requires WellFormed(DIAMOND) && Found(DIAMOND, 0, c)
    ensures Owner(DIAMOND, 0, c) == Some(3) && c.index[|c.index|-1] == 0 && |c.index| == 3 && !c.tagged
  {
    var p, i := c.index[..|c.index|-1], c.index[|c.index|-1];
    OnlyXContributes(Reach(DIAMOND, 0, p).value, i);
    DiamondReach();
    assert IsPath(DIAMOND, 0, [0, 0]);
    if |p| < 2 {
      ShortPaths(p);
    }
  }

  lemma OnlyXContributes(t: nat, i: nat)
    requires t < |DIAMOND| && i < |DIAMOND[t]| && Contributes(DIAMOND[t][i])
    ensures t == 3 && i == 0 && DIAMOND[t][i].tagName == ""
  {
  }

  lemma ShortPaths(p: seq<nat>)
    requires WellFormed(DIAMOND) && |p| < 2 && Reach(DIAMOND, 0, p).Some?
    ensures Reach(DIAMOND, 0, p) != Some(3)
  {
    if |p| == 1 {
      assert p[..0] == [];
    }
  }
}
