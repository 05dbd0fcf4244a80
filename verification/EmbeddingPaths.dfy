/**
 The embedding paths of a struct type, of which recursive types have infinitely many, and
 what the pruned walk of fields.go:31-91 finds among them: one shortest path for every
 reachable type, and every column of it.
 */
module EmbeddingPaths {
  import opened Wrappers
  import opened Promotion

  type Graph = g: seq<seq<FieldDecl>> | WellFormed(g) witness []

  // ---- The rules, on the declarations as they stand ----

  /** An embedded struct, through pointers or not, whose tag names no column: its fields are promoted. */
  predicate Promotes(f: FieldDecl) {
    f.embedded && f.isStruct && f.tagName == "" && !f.skip
  }

  /** A field that is a column itself: exported, or an embedded struct that its tag names, and not skipped. */
  predicate Contributes(f: FieldDecl) {
    !f.skip && !Promotes(f) && (f.exported || (f.embedded && f.isStruct && f.tagName != ""))
  }

  /** The name in the tag, where there is one, and the field's own otherwise. */
  predicate IsNamed(f: FieldDecl, name: string) {
    if f.tagName == "" then name == f.name else name == f.tagName
  }

  /** c is the column of field i of a struct at index path front. */
  predicate Describes(c: Candidate, f: FieldDecl, front: seq<nat>, i: nat) {
    && c.field == f && IsNamed(f, c.name) && (c.tagged <==> f.tagName != "")
    && c.index == front + [i] && c.depth == |front|
  }

  /** The type an index path of embedded structs leads to, if it is such a path. */
  function Reach(g: Graph, root: nat, p: seq<nat>): (t: Option<nat>)
    requires root < |g|
    ensures t.Some? ==> t.value < |g|
  {
    if p == [] then Some(root)
    else
      match Reach(g, root, p[..|p|-1])
      case None => None
      case Some(t) =>
        var i := p[|p|-1];
        if i < |g[t]| && Promotes(g[t][i]) then Some(g[t][i].typ) else None
  }

  /** A column: an embedding path followed by a field that is a column of its type. */
  predicate IsColumn(g: Graph, root: nat, p: seq<nat>)
    requires root < |g|
  {
    && p != []
    && var t := Reach(g, root, p[..|p|-1]);
       t.Some? && p[|p|-1] < |g[t.value]| && Contributes(g[t.value][p[|p|-1]])
  }

  function ColumnAt(g: Graph, root: nat, p: seq<nat>): Candidate
    requires root < |g| && IsColumn(g, root, p)
  {
    CandidateAt(g[Reach(g, root, p[..|p|-1]).value][p[|p|-1]], p[..|p|-1], p[|p|-1])
  }

  /** A column is described by the declaration it comes from. */
  lemma ColumnDescribed(g: Graph, root: nat, p: seq<nat>)
    requires root < |g| && IsColumn(g, root, p)
    ensures
      var t, i := Reach(g, root, p[..|p|-1]).value, p[|p|-1];
      Describes(ColumnAt(g, root, p), g[t][i], p[..|p|-1], i) && ColumnAt(g, root, p).index == p
  {
    assert p == p[..|p|-1] + [p[|p|-1]];
  }

  ghost predicate Shortest(g: Graph, root: nat, p: seq<nat>)
    requires root < |g|
  {
    && Reach(g, root, p).Some?
    && forall q {:trigger IsPath(g, root, q)} ::
         IsPath(g, root, q) && Reach(g, root, q) == Reach(g, root, p) ==> |p| <= |q|
  }

  /** A candidate of the walk: a column reached by a shortest path to its type. */
  ghost predicate Found(g: Graph, root: nat, c: Candidate)
    requires root < |g|
  {
    IsColumn(g, root, c.index) && c == ColumnAt(g, root, c.index) && Shortest(g, root, c.index[..|c.index|-1])
  }

  function Owner(g: Graph, root: nat, c: Candidate): Option<nat>
    requires root < |g| && c.index != []
  {
    Reach(g, root, c.index[..|c.index|-1])
  }

  predicate IsPath(g: Graph, root: nat, p: seq<nat>)
    requires root < |g|
  {
    Reach(g, root, p).Some?
  }

  /** The level of depth d: shortest paths of length d, everything nearer already visited. */
  ghost predicate AtDepth(g: Graph, root: nat, level: seq<Node>, visited: set<nat>, d: nat)
    requires root < |g|
  {
    && InGraph(g, level)
    && root in visited
    && TypesOf(level) <= visited
    && Placed(g, root, level, d)
    && Covers(g, root, visited, d)
    && Farther(g, root, level, d)
    && Expanded(g, root, level, visited, d)
  }

  /** Each node sits on a path of length d to its own type. */
  predicate Placed(g: Graph, root: nat, level: seq<Node>, d: nat)
    requires root < |g|
  {
    && (forall k | 0 <= k < |level| :: |level[k].index| == d && Reach(g, root, level[k].index) == Some(level[k].typ))
    && (forall k, l | 0 <= k < l < |level| :: level[k].typ != level[l].typ)
  }

  ghost predicate Covers(g: Graph, root: nat, visited: set<nat>, d: nat)
    requires root < |g|
  {
    forall p {:trigger IsPath(g, root, p)} :: IsPath(g, root, p) && |p| <= d ==> Reach(g, root, p).value in visited
  }

  ghost predicate Farther(g: Graph, root: nat, level: seq<Node>, d: nat)
    requires root < |g|
  {
    forall p {:trigger IsPath(g, root, p)} ::
      IsPath(g, root, p) && Reach(g, root, p).value in TypesOf(level) ==> d <= |p|
  }

  /** What was visited before the level is nearer, and all it embeds has been visited. */
  ghost predicate Expanded(g: Graph, root: nat, level: seq<Node>, visited: set<nat>, d: nat)
    requires root < |g|
  {
    && (forall t | t in visited && t !in TypesOf(level) :: Nearer(g, root, t, d))
    && (forall t | t in visited && t !in TypesOf(level) :: t < |g| && ChildrenIn(g, t, visited))
  }

  ghost predicate Nearer(g: Graph, root: nat, t: nat, d: nat)
    requires root < |g|
  {
    exists p :: Reach(g, root, p) == Some(t) && |p| < d
  }

  predicate ChildrenIn(g: Graph, t: nat, visited: set<nat>)
    requires t < |g|
  {
    forall i | 0 <= i < |g[t]| :: Promotes(g[t][i]) ==> g[t][i].typ in visited
  }

  // ---- One node and one level ----

  /** Where a node of the next level comes from. */
  ghost predicate Child(g: Graph, parent: Node, n: nat, node: Node)
    requires parent.typ < |g|
  {
    exists i: nat | i < n && i < |g[parent.typ]| && Promotes(g[parent.typ][i]) ::
      node == Node(g[parent.typ][i].typ, parent.index + [i])
  }

  predicate DistinctTypes(nodes: seq<Node>) {
    forall k, l | 0 <= k < l < |nodes| :: nodes[k].typ != nodes[l].typ
  }

  lemma OneMoreType(before: seq<Node>, added: Node)
    requires DistinctTypes(before) && added.typ !in TypesOf(before)
    ensures DistinctTypes(before + [added]) && TypesOf(before + [added]) == TypesOf(before) + {added.typ}
  {
    TypesOfAppend(before, [added]);
    TypesOfOne(added);
    forall k | 0 <= k < |before| ensures before[k].typ != added.typ {
      assert before[k].typ in TypesOf(before);
    }
  }

  lemma {:induction false} NewNodesAre(g: Graph, parent: Node, n: nat, seen: set<nat>)
    requires parent.typ < |g| && n <= |g[parent.typ]|
    ensures
      var nodes := NewNodes(g, parent, n, seen);
      && (forall k | 0 <= k < |nodes| :: Child(g, parent, n, nodes[k]) && nodes[k].typ !in seen)
      && DistinctTypes(nodes)
      && (forall i | 0 <= i < n :: Promotes(g[parent.typ][i]) ==> g[parent.typ][i].typ in seen + TypesOf(nodes))
  {
    if n > 0 {
      NewNodesAre(g, parent, n - 1, seen);
      var before, nodes := NewNodes(g, parent, n - 1, seen), NewNodes(g, parent, n, seen);
      forall k | 0 <= k < |before| ensures Child(g, parent, n, before[k]) {
        assert Child(g, parent, n - 1, before[k]);
      }
      var f := g[parent.typ][n-1];
      if Promotes(f) && f.typ !in seen && f.typ !in TypesOf(before) {
        var added := Node(f.typ, parent.index + [n - 1]);
        assert nodes == before + [added] && Child(g, parent, n, added);
        OneMoreType(before, added);
      }
    }
  }

  ghost predicate ChildOfLevel(g: Graph, level: seq<Node>, node: Node)
    requires InGraph(g, level)
  {
    exists k | 0 <= k < |level| :: Child(g, level[k], |g[level[k].typ]|, node)
  }

  lemma {:induction false} NextLevelIs(g: Graph, level: seq<Node>, visited: set<nat>)
    requires InGraph(g, level)
    ensures
      var nodes := NextLevel(g, level, visited);
      && (forall k | 0 <= k < |nodes| :: ChildOfLevel(g, level, nodes[k]) && nodes[k].typ !in visited)
      && DistinctTypes(nodes)
      && (forall k | 0 <= k < |level| :: ChildrenIn(g, level[k].typ, visited + TypesOf(nodes)))
  {
    if level != [] {
      var n := |level| - 1;
      NextLevelIs(g, level[..n], visited);
      var before := NextLevel(g, level[..n], visited);
      NewNodesAre(g, level[n], |g[level[n].typ]|, visited + TypesOf(before));
      forall k | 0 <= k < n ensures ChildrenIn(g, level[k].typ, visited + TypesOf(before)) {
        assert level[..n][k] == level[k];
      }
      LevelGrows(g, level, visited, before, NewNodes(g, level[n], |g[level[n].typ]|, visited + TypesOf(before)));
    }
  }

  lemma LevelGrows(g: Graph, level: seq<Node>, visited: set<nat>, before: seq<Node>, added: seq<Node>)
    requires InGraph(g, level) && level != []
    requires forall k | 0 <= k < |before| :: ChildOfLevel(g, level[..|level|-1], before[k]) && before[k].typ !in visited
    requires forall k | 0 <= k < |level| - 1 :: ChildrenIn(g, level[k].typ, visited + TypesOf(before))
    requires DistinctTypes(before) && DistinctTypes(added)
    requires
      var last := level[|level|-1];
      && (forall k | 0 <= k < |added| :: Child(g, last, |g[last.typ]|, added[k])
                                         && added[k].typ !in visited && added[k].typ !in TypesOf(before))
      && ChildrenIn(g, last.typ, visited + TypesOf(before) + TypesOf(added))
    ensures
      var nodes := before + added;
      && (forall k | 0 <= k < |nodes| :: ChildOfLevel(g, level, nodes[k]) && nodes[k].typ !in visited)
      && DistinctTypes(nodes)
      && (forall k | 0 <= k < |level| :: ChildrenIn(g, level[k].typ, visited + TypesOf(nodes)))
  {
    var n := |level| - 1;
    var nodes := before + added;
    TypesOfAppend(before, added);
    forall k | 0 <= k < |nodes| ensures ChildOfLevel(g, level, nodes[k]) {
      if k < |before| {
        StillChild(g, level, before[k]);
      } else {
        assert Child(g, level[n], |g[level[n].typ]|, added[k - |before|]);
      }
    }
    forall k, l | 0 <= k < l < |nodes| ensures nodes[k].typ != nodes[l].typ {
      if k < |before| <= l {
        assert before[k].typ in TypesOf(before);
      }
    }
    forall k | 0 <= k < |level| ensures ChildrenIn(g, level[k].typ, visited + TypesOf(nodes)) {
      if k < n {
        assert ChildrenIn(g, level[k].typ, visited + TypesOf(before));
      }
    }
  }

  lemma StillChild(g: Graph, level: seq<Node>, node: Node)
    requires InGraph(g, level) && level != [] && ChildOfLevel(g, level[..|level|-1], node)
    ensures ChildOfLevel(g, level, node)
  {
    var front := level[..|level|-1];
    var m :| 0 <= m < |front| && Child(g, front[m], |g[front[m].typ]|, node);
    assert level[m] == front[m];
  }

  // ---- The levels are the depths ----

  lemma ReachStep(g: Graph, root: nat, p: seq<nat>, i: nat)
    requires root < |g|
    ensures Reach(g, root, p + [i])
         == (match Reach(g, root, p)
             case None => None
             case Some(t) => if i < |g[t]| && Promotes(g[t][i]) then Some(g[t][i].typ) else None)
  {
    assert (p + [i])[..|p|] == p;
  }

  lemma RootAtDepth(g: Graph, root: nat)
    requires root < |g|
    ensures AtDepth(g, root, [Node(root, [])], {root}, 0)
  {
    TypesOfOne(Node(root, []));
  }

  ghost predicate AtLeast(g: Graph, root: nat, t: nat, d: nat)
    requires root < |g|
  {
    forall p {:trigger IsPath(g, root, p)} :: IsPath(g, root, p) && Reach(g, root, p).value == t ==> d <= |p|
  }

  lemma NextReached(g: Graph, root: nat, level: seq<Node>, visited: set<nat>, d: nat, k: nat)
    requires root < |g| && AtDepth(g, root, level, visited, d) && k < |NextLevel(g, level, visited)|
    ensures
      var node := NextLevel(g, level, visited)[k];
      && node.typ < |g| && |node.index| == d + 1 && Reach(g, root, node.index) == Some(node.typ)
      && AtLeast(g, root, node.typ, d + 1)
  {
    NextLevelIs(g, level, visited);
    var node := NextLevel(g, level, visited)[k];
    assert ChildOfLevel(g, level, node);
    var m :| 0 <= m < |level| && Child(g, level[m], |g[level[m].typ]|, node);
    var i: nat :| i < |g[level[m].typ]| && Promotes(g[level[m].typ][i])
               && node == Node(g[level[m].typ][i].typ, level[m].index + [i]);
    ReachStep(g, root, level[m].index, i);
  }

  /** Everything within d + 1 is visited once the level of depth d has been expanded. */
  lemma NextCovers(g: Graph, root: nat, level: seq<Node>, visited: set<nat>, d: nat, p: seq<nat>)
    requires root < |g| && AtDepth(g, root, level, visited, d)
    requires Reach(g, root, p).Some? && |p| <= d + 1
    ensures Reach(g, root, p).value in visited + TypesOf(NextLevel(g, level, visited))
  {
    NextLevelIs(g, level, visited);
    assert IsPath(g, root, p);
    if |p| == d + 1 {
      var u := Reach(g, root, p[..d]);
      assert IsPath(g, root, p[..d]);
      if u.value in TypesOf(level) {
        var k :| 0 <= k < |level| && level[k].typ == u.value;
        assert ChildrenIn(g, level[k].typ, visited + TypesOf(NextLevel(g, level, visited)));
      } else {
        assert ChildrenIn(g, u.value, visited);
      }
    }
  }

  lemma NextSettles(g: Graph, root: nat, level: seq<Node>, visited: set<nat>, d: nat, t: nat)
    requires root < |g| && AtDepth(g, root, level, visited, d) && t in visited
    ensures t < |g| && Nearer(g, root, t, d + 1)
    ensures ChildrenIn(g, t, visited + TypesOf(NextLevel(g, level, visited)))
  {
    NextLevelIs(g, level, visited);
    if t in TypesOf(level) {
      var k :| 0 <= k < |level| && level[k].typ == t;
      assert Reach(g, root, level[k].index) == Some(t);
    } else {
      assert Nearer(g, root, t, d) && ChildrenIn(g, t, visited);
      var p :| Reach(g, root, p) == Some(t) && |p| < d;
    }
  }

  lemma NextAtDepth(g: Graph, root: nat, level: seq<Node>, visited: set<nat>, d: nat)
    requires root < |g| && AtDepth(g, root, level, visited, d)
    ensures AtDepth(g, root, NextLevel(g, level, visited), visited + TypesOf(NextLevel(g, level, visited)), d + 1)
  {
    NextLevelIs(g, level, visited);
    NextPlaced(g, root, level, visited, d);
    NextFarther(g, root, level, visited, d);
    NextExpanded(g, root, level, visited, d);
    forall p | IsPath(g, root, p) && |p| <= d + 1
      ensures Reach(g, root, p).value in visited + TypesOf(NextLevel(g, level, visited))
    {
      NextCovers(g, root, level, visited, d, p);
    }
  }

  lemma NextPlaced(g: Graph, root: nat, level: seq<Node>, visited: set<nat>, d: nat)
    requires root < |g| && AtDepth(g, root, level, visited, d)
    ensures InGraph(g, NextLevel(g, level, visited)) && Placed(g, root, NextLevel(g, level, visited), d + 1)
  {
    var next := NextLevel(g, level, visited);
    NextLevelIs(g, level, visited);
    forall k | 0 <= k < |next|
      ensures next[k].typ < |g| && |next[k].index| == d + 1 && Reach(g, root, next[k].index) == Some(next[k].typ)
    {
      NextReached(g, root, level, visited, d, k);
    }
  }

  lemma NextFarther(g: Graph, root: nat, level: seq<Node>, visited: set<nat>, d: nat)
    requires root < |g| && AtDepth(g, root, level, visited, d)
    ensures Farther(g, root, NextLevel(g, level, visited), d + 1)
  {
    var next := NextLevel(g, level, visited);
    forall p | IsPath(g, root, p) && Reach(g, root, p).value in TypesOf(next) ensures d + 1 <= |p| {
      var k :| 0 <= k < |next| && next[k].typ == Reach(g, root, p).value;
      NextReached(g, root, level, visited, d, k);
    }
  }

  lemma NextExpanded(g: Graph, root: nat, level: seq<Node>, visited: set<nat>, d: nat)
    requires root < |g| && AtDepth(g, root, level, visited, d)
    ensures var next := NextLevel(g, level, visited);
            Expanded(g, root, next, visited + TypesOf(next), d + 1)
  {
    var next := NextLevel(g, level, visited);
    forall t | t in visited + TypesOf(next) && t !in TypesOf(next)
      ensures Nearer(g, root, t, d + 1) && t < |g| && ChildrenIn(g, t, visited + TypesOf(next))
    {
      NextSettles(g, root, level, visited, d, t);
    }
  }

  // ---- What the walk finds ----

  lemma {:induction false} InColumnsOf(g: Graph, node: Node, n: nat, c: Candidate)
    requires node.typ < |g| && n <= |g[node.typ]|
    ensures c in ColumnsOf(g, node, n)
       <==> exists i: nat :: i < n && Contributes(g[node.typ][i]) && c == CandidateAt(g[node.typ][i], node.index, i)
  {
    if n > 0 {
      InColumnsOf(g, node, n - 1, c);
    }
  }

  lemma {:induction false} InLevelColumns(g: Graph, level: seq<Node>, c: Candidate)
    requires InGraph(g, level)
    ensures c in LevelColumns(g, level)
       <==> exists k :: 0 <= k < |level| && c in ColumnsOf(g, level[k], |g[level[k].typ]|)
  {
    if level != [] {
      var n := |level| - 1;
      InLevelColumns(g, level[..n], c);
      forall k | 0 <= k < n ensures level[..n][k] == level[k] {
      }
    }
  }

  /** A column of a level: found, and owned by one of the level's types. */
  lemma LevelColumnFound(g: Graph, root: nat, level: seq<Node>, visited: set<nat>, d: nat, c: Candidate)
    requires root < |g| && AtDepth(g, root, level, visited, d) && c in LevelColumns(g, level)
    ensures Found(g, root, c) && Owner(g, root, c).value in TypesOf(level)
  {
    InLevelColumns(g, level, c);
    var k :| 0 <= k < |level| && c in ColumnsOf(g, level[k], |g[level[k].typ]|);
    InColumnsOf(g, level[k], |g[level[k].typ]|, c);
    var i: nat :| i < |g[level[k].typ]| && Contributes(g[level[k].typ][i])
               && c == CandidateAt(g[level[k].typ][i], level[k].index, i);
    assert c.index[..|c.index|-1] == level[k].index;
    assert level[k].typ in TypesOf(level);
    forall q | Reach(g, root, q) == Some(level[k].typ) ensures d <= |q| {
      assert IsPath(g, root, q);
    }
  }

  /** Everything the walk finds from a level on is a column by a shortest path, of a type not passed before. */
  lemma {:induction false} WalkFinds(g: Graph, root: nat, level: seq<Node>, visited: set<nat>, d: nat, c: Candidate)
    requires root < |g| && AtDepth(g, root, level, visited, d) && c in Walk(g, level, visited)
    ensures Found(g, root, c)
    ensures Owner(g, root, c).value in TypesOf(level) || Owner(g, root, c).value !in visited
    decreases AllTypes(g) - visited, |level|
  {
    if level != [] {
      var next := NextLevel(g, level, visited);
      NextSeen(g, level, visited);
      NextLevelIs(g, level, visited);
      if c in LevelColumns(g, level) {
        LevelColumnFound(g, root, level, visited, d, c);
      } else {
        NextAtDepth(g, root, level, visited, d);
        WalkFinds(g, root, next, visited + TypesOf(next), d + 1, c);
      }
    }
  }

  /** With nothing left to expand, every reachable type has been visited. */
  lemma {:induction false} AllVisited(g: Graph, root: nat, level: seq<Node>, visited: set<nat>, d: nat, p: seq<nat>)
    requires root < |g| && AtDepth(g, root, level, visited, d) && NextLevel(g, level, visited) == []
    requires Reach(g, root, p).Some?
    ensures Reach(g, root, p).value in visited
  {
    if p != [] {
      var q := p[..|p|-1];
      AllVisited(g, root, level, visited, d, q);
      NextSettles(g, root, level, visited, d, Reach(g, root, q).value);
      assert visited + TypesOf([]) == visited;
    }
  }

  /** A level holds every column of its types. */
  lemma LevelHasColumn(g: Graph, root: nat, level: seq<Node>, visited: set<nat>, d: nat, t: nat, i: nat) returns (c: Candidate)
    requires root < |g| && AtDepth(g, root, level, visited, d)
    requires t in TypesOf(level) && t < |g| && i < |g[t]| && Contributes(g[t][i])
    ensures c in LevelColumns(g, level) && c.index != []
    ensures Owner(g, root, c) == Some(t) && c.index[|c.index|-1] == i
  {
    var k :| 0 <= k < |level| && level[k].typ == t;
    c := CandidateAt(g[t][i], level[k].index, i);
    InColumnsOf(g, level[k], |g[t]|, c);
    InLevelColumns(g, level, c);
    assert c.index[..|c.index|-1] == level[k].index;
  }

  /** A reachable type at distance d or more that is not on the level is met on a later one. */
  lemma FurtherOn(g: Graph, root: nat, level: seq<Node>, visited: set<nat>, d: nat, t: nat, p: seq<nat>)
    requires root < |g| && AtDepth(g, root, level, visited, d)
    requires AtLeast(g, root, t, d) && t !in TypesOf(level) && Reach(g, root, p) == Some(t)
    requires InGraph(g, NextLevel(g, level, visited))
    ensures
      var next := NextLevel(g, level, visited);
      && next != [] && AtLeast(g, root, t, d + 1)
      && AtDepth(g, root, next, visited + TypesOf(next), d + 1)
  {
    NotNearer(g, root, level, visited, d, t, p);
    if NextLevel(g, level, visited) == [] {
      AllVisited(g, root, level, visited, d, p);
      assert false;
    }
    NextAtDepth(g, root, level, visited, d);
  }

  /** Of a type at distance d or more, the walk from depth d finds every column. */
  lemma {:induction false} WalkFindsAll(g: Graph, root: nat, level: seq<Node>, visited: set<nat>, d: nat, p: seq<nat>, i: nat)
    returns (c: Candidate)
    requires root < |g| && AtDepth(g, root, level, visited, d)
    requires Reach(g, root, p).Some? && AtLeast(g, root, Reach(g, root, p).value, d)
    requires IsColumn(g, root, p + [i])
    ensures c in Walk(g, level, visited) && c.index != []
    ensures Owner(g, root, c) == Reach(g, root, p) && c.index[|c.index|-1] == i
    decreases AllTypes(g) - visited, |level|
  {
    var t := Reach(g, root, p).value;
    assert (p + [i])[..|p|] == p;
    var next := NextLevel(g, level, visited);
    NextSeen(g, level, visited);
    if t in TypesOf(level) {
      c := LevelHasColumn(g, root, level, visited, d, t, i);
    } else {
      FurtherOn(g, root, level, visited, d, t, p);
      c := WalkFindsAll(g, root, next, visited + TypesOf(next), d + 1, p, i);
    }
  }

  /** A type at distance d or more that is not on the level of depth d is farther, and not yet visited. */
  lemma NotNearer(g: Graph, root: nat, level: seq<Node>, visited: set<nat>, d: nat, t: nat, p: seq<nat>)
    requires root < |g| && AtDepth(g, root, level, visited, d)
    requires AtLeast(g, root, t, d) && t !in TypesOf(level) && Reach(g, root, p) == Some(t)
    ensures t !in visited && AtLeast(g, root, t, d + 1)
  {
    forall q | Reach(g, root, q) == Some(t) ensures d <= |q| {
      assert IsPath(g, root, q);
    }
    assert t in visited ==> Nearer(g, root, t, d);
  }

  // ---- Tags that do not parse ----

  predicate CleanType(g: Graph, t: nat)
    requires t < |g|
  {
    forall i | 0 <= i < |g[t]| :: !g[t][i].badTag
  }

  /** A type at distance d or more is on the level, which is clean, or is met further on. */
  lemma CleanHere(g: Graph, root: nat, level: seq<Node>, visited: set<nat>, d: nat, p: seq<nat>)
    requires root < |g| && AtDepth(g, root, level, visited, d) && CleanWalk(g, level, visited)
    requires Reach(g, root, p).Some? && AtLeast(g, root, Reach(g, root, p).value, d)
    requires InGraph(g, NextLevel(g, level, visited))
    requires
      var next := NextLevel(g, level, visited);
      next == [] || forall q :: Reach(g, root, q).Some? && AtLeast(g, root, Reach(g, root, q).value, d + 1)
                                ==> CleanType(g, Reach(g, root, q).value)
    ensures CleanType(g, Reach(g, root, p).value)
  {
    var t := Reach(g, root, p).value;
    if t in TypesOf(level) {
      var k :| 0 <= k < |level| && level[k].typ == t;
      assert CleanNode(g, level[k]);
    } else {
      NotNearer(g, root, level, visited, d, t, p);
      if NextLevel(g, level, visited) == [] {
        AllVisited(g, root, level, visited, d, p);
        assert false;
      }
    }
  }

  /** The walk from depth d meets only tags that parse exactly when the types from there on have no other. */
  lemma {:induction false} CleanFrom(g: Graph, root: nat, level: seq<Node>, visited: set<nat>, d: nat)
    requires root < |g| && AtDepth(g, root, level, visited, d)
    ensures CleanWalk(g, level, visited)
       <==> forall p :: Reach(g, root, p).Some? && AtLeast(g, root, Reach(g, root, p).value, d) ==> CleanType(g, Reach(g, root, p).value)
    decreases AllTypes(g) - visited, |level|
  {
    var next := NextLevel(g, level, visited);
    var seen := visited + TypesOf(next);
    NextSeen(g, level, visited);
    NextAtDepth(g, root, level, visited, d);
    if level != [] {
      if next != [] {
        CleanFrom(g, root, next, seen, d + 1);
      }
    }
    if CleanWalk(g, level, visited) {
      forall p | Reach(g, root, p).Some? && AtLeast(g, root, Reach(g, root, p).value, d)
        ensures CleanType(g, Reach(g, root, p).value)
      {
        CleanHere(g, root, level, visited, d, p);
      }
    } else {
      DirtySomewhere(g, root, level, visited, d);
    }
  }

  lemma DirtySomewhere(g: Graph, root: nat, level: seq<Node>, visited: set<nat>, d: nat)
    requires root < |g| && AtDepth(g, root, level, visited, d) && !CleanWalk(g, level, visited)
    requires
      var next := NextLevel(g, level, visited);
      next == [] || (InGraph(g, next) && AtDepth(g, root, next, visited + TypesOf(next), d + 1)
        && (CleanWalk(g, next, visited + TypesOf(next))
            || exists p :: Reach(g, root, p).Some? && AtLeast(g, root, Reach(g, root, p).value, d + 1)
                           && !CleanType(g, Reach(g, root, p).value)))
    ensures exists p :: Reach(g, root, p).Some? && AtLeast(g, root, Reach(g, root, p).value, d)
                        && !CleanType(g, Reach(g, root, p).value)
  {
    if !CleanLevel(g, level) {
      var k :| 0 <= k < |level| && !CleanNode(g, level[k]);
      assert level[k].typ in TypesOf(level);
      assert Reach(g, root, level[k].index) == Some(level[k].typ);
      assert AtLeast(g, root, level[k].typ, d);
    } else {
      var p :| Reach(g, root, p).Some? && AtLeast(g, root, Reach(g, root, p).value, d + 1)
               && !CleanType(g, Reach(g, root, p).value);
      assert AtLeast(g, root, Reach(g, root, p).value, d);
    }
  }

  /** collectFields fails exactly when some type reachable by embedding has a tag that does not parse. */
  lemma FailsExactlyWhen(g: Graph, root: nat)
    requires root < |g|
    ensures Collected(g, root).None? <==> exists p :: Reach(g, root, p).Some? && !CleanType(g, Reach(g, root, p).value)
  {
    RootAtDepth(g, root);
    CleanFrom(g, root, [Node(root, [])], {root}, 0);
    assert forall t :: AtLeast(g, root, t, 0);
  }

  // ---- One candidate per type and field ----

  predicate Separate(g: Graph, root: nat, cs: seq<Candidate>)
    requires root < |g|
  {
    && (forall a | 0 <= a < |cs| :: cs[a].index != [])
    && (forall a, b | 0 <= a < b < |cs| ::
          Owner(g, root, cs[a]) != Owner(g, root, cs[b])
          || cs[a].index[|cs[a].index|-1] != cs[b].index[|cs[b].index|-1])
  }

  lemma {:induction false} ColumnsOfSeparate(g: Graph, root: nat, node: Node, n: nat)
    requires root < |g| && node.typ < |g| && n <= |g[node.typ]|
    ensures Separate(g, root, ColumnsOf(g, node, n))
  {
    if n > 0 {
      ColumnsOfSeparate(g, root, node, n - 1);
      var before := ColumnsOf(g, node, n - 1);
      forall a | 0 <= a < |before| ensures before[a].index != [] && before[a].index[|before[a].index|-1] < n - 1 {
        InColumnsOf(g, node, n - 1, before[a]);
      }
    }
  }

  lemma SeparateAppend(g: Graph, root: nat, a: seq<Candidate>, b: seq<Candidate>)
    requires root < |g| && Separate(g, root, a) && Separate(g, root, b)
    requires forall x, y | x in a && y in b :: Owner(g, root, x) != Owner(g, root, y)
    ensures Separate(g, root, a + b)
  {
    var both := a + b;
    forall i, j | 0 <= i < j < |both|
      ensures Owner(g, root, both[i]) != Owner(g, root, both[j])
           || both[i].index[|both[i].index|-1] != both[j].index[|both[j].index|-1]
    {
      if i < |a| <= j {
        assert both[i] in a && both[j] in b;
      }
    }
  }

  lemma {:induction false} LevelColumnsSeparate(g: Graph, root: nat, level: seq<Node>)
    requires root < |g| && InGraph(g, level) && DistinctTypes(level)
    requires forall k | 0 <= k < |level| :: Reach(g, root, level[k].index) == Some(level[k].typ)
    ensures Separate(g, root, LevelColumns(g, level))
    ensures forall c | c in LevelColumns(g, level) :: Owner(g, root, c).Some? && Owner(g, root, c).value in TypesOf(level)
  {
    if level != [] {
      var n := |level| - 1;
      LevelColumnsSeparate(g, root, level[..n]);
      var before, last := LevelColumns(g, level[..n]), ColumnsOf(g, level[n], |g[level[n].typ]|);
      ColumnsOfSeparate(g, root, level[n], |g[level[n].typ]|);
      forall c | c in last ensures Owner(g, root, c) == Some(level[n].typ) {
        InColumnsOf(g, level[n], |g[level[n].typ]|, c);
        assert c.index[..|c.index|-1] == level[n].index;
      }
      assert level == level[..n] + [level[n]];
      TypesOfAppend(level[..n], [level[n]]);
      TypesOfOne(level[n]);
      SeparateAppend(g, root, before, last);
    }
  }

  lemma {:induction false} WalkSeparate(g: Graph, root: nat, level: seq<Node>, visited: set<nat>, d: nat)
    requires root < |g| && AtDepth(g, root, level, visited, d)
    ensures Separate(g, root, Walk(g, level, visited))
    decreases AllTypes(g) - visited, |level|
  {
    if level != [] {
      var next := NextLevel(g, level, visited);
      NextSeen(g, level, visited);
      LevelColumnsSeparate(g, root, level);
      if next != [] {
        var seen := visited + TypesOf(next);
        NextAtDepth(g, root, level, visited, d);
        WalkSeparate(g, root, next, seen, d + 1);
        forall x, y | x in LevelColumns(g, level) && y in Walk(g, next, seen)
          ensures Owner(g, root, x) != Owner(g, root, y)
        {
          WalkFinds(g, root, next, seen, d + 1, y);
          NextLevelIn(g, level, visited);
        }
        SeparateAppend(g, root, LevelColumns(g, level), Walk(g, next, seen));
      }
    }
  }
}
