/**
 Which columns a struct type contributes (fields.go): a breadth-first walk over embedded
 structs, then the collision rule, then a sort by field index. A type is a number; its
 declared fields are types[t]. Pointers are already seen through and tags already parsed.
 */
module Promotion {
  import opened Wrappers

  datatype FieldDecl = FieldDecl(
    name: string,
    tagName: string,     // the column name the tag gives, or ""
    badTag: bool,        // the tag does not parse
    skip: bool,          // the tag is "-"
    embedded: bool,
    exported: bool,
    isStruct: bool,
    typ: nat)            // the struct type, when isStruct

  datatype Role = Skipped | Descend | Column

  /** What the walk does with a field whose tag parses, fields.go:48-71. */
  function RoleOf(f: FieldDecl): Role {
    if f.skip then Skipped
    else if f.embedded then
      if !f.exported && !f.isStruct then Skipped
      else if f.isStruct && f.tagName == "" then Descend
      else Column
    else if !f.exported then Skipped
    else Column
  }

  datatype Candidate = Candidate(field: FieldDecl, name: string, index: seq<nat>, depth: nat, tagged: bool)

  datatype Node = Node(typ: nat, index: seq<nat>)

  predicate WellFormed(types: seq<seq<FieldDecl>>) {
    forall t, i | 0 <= t < |types| && 0 <= i < |types[t]| :: types[t][i].isStruct ==> types[t][i].typ < |types|
  }

  function CandidateAt(f: FieldDecl, parent: seq<nat>, i: nat): Candidate {
    Candidate(f, if f.tagName == "" then f.name else f.tagName, parent + [i], |parent|, f.tagName != "")
  }

  // ---- The walk as functions ----

  function TypesOf(nodes: seq<Node>): set<nat> {
    set i | 0 <= i < |nodes| :: nodes[i].typ
  }

  /** The columns among the first n fields of a node. */
  function ColumnsOf(types: seq<seq<FieldDecl>>, node: Node, n: nat): seq<Candidate>
    requires node.typ < |types| && n <= |types[node.typ]|
  {
    if n == 0 then []
    else
      var f := types[node.typ][n-1];
      var before := ColumnsOf(types, node, n - 1);
      if RoleOf(f).Column? then before + [CandidateAt(f, node.index, n - 1)] else before
  }

  /** The nodes the first n fields of a node add to the next level, given the types already seen. */
  function NewNodes(types: seq<seq<FieldDecl>>, node: Node, n: nat, seen: set<nat>): seq<Node>
    requires node.typ < |types| && n <= |types[node.typ]|
  {
    if n == 0 then []
    else
      var f := types[node.typ][n-1];
      var before := NewNodes(types, node, n - 1, seen);
      if RoleOf(f).Descend? && f.typ !in seen && f.typ !in TypesOf(before)
      then before + [Node(f.typ, node.index + [n - 1])] else before
  }

  predicate InGraph(types: seq<seq<FieldDecl>>, level: seq<Node>) {
    forall k | 0 <= k < |level| :: level[k].typ < |types|
  }

  function LevelColumns(types: seq<seq<FieldDecl>>, level: seq<Node>): seq<Candidate>
    requires InGraph(types, level)
  {
    if level == [] then []
    else
      var last := level[|level|-1];
      LevelColumns(types, level[..|level|-1]) + ColumnsOf(types, last, |types[last.typ]|)
  }

  function NextLevel(types: seq<seq<FieldDecl>>, level: seq<Node>, visited: set<nat>): seq<Node>
    requires InGraph(types, level)
  {
    if level == [] then []
    else
      var last := level[|level|-1];
      var before := NextLevel(types, level[..|level|-1], visited);
      before + NewNodes(types, last, |types[last.typ]|, visited + TypesOf(before))
  }

  function Below(n: nat): (s: set<nat>)
    ensures forall t: nat :: t in s <==> t < n
  {
    if n == 0 then {} else Below(n - 1) + {n - 1}
  }

  function AllTypes(types: seq<seq<FieldDecl>>): set<nat> {
    Below(|types|)
  }

  /** The candidates found from a level on. */
  function Walk(types: seq<seq<FieldDecl>>, level: seq<Node>, visited: set<nat>): seq<Candidate>
    requires WellFormed(types) && InGraph(types, level)
    decreases AllTypes(types) - visited, |level|
  {
    if level == [] then []
    else
      NextLevelIn(types, level, visited);
      var next := NextLevel(types, level, visited);
      if next == [] then LevelColumns(types, level)
      else
        NextLevelGrows(types, level, visited);
        LevelColumns(types, level) + Walk(types, next, visited + TypesOf(next))
  }

  lemma {:induction false} NewNodesIn(types: seq<seq<FieldDecl>>, node: Node, n: nat, seen: set<nat>)
    requires WellFormed(types) && node.typ < |types| && n <= |types[node.typ]|
    ensures InGraph(types, NewNodes(types, node, n, seen))
    ensures TypesOf(NewNodes(types, node, n, seen)) !! seen
  {
    if n > 0 {
      NewNodesIn(types, node, n - 1, seen);
    }
  }

  lemma {:induction false} NextLevelIn(types: seq<seq<FieldDecl>>, level: seq<Node>, visited: set<nat>)
    requires WellFormed(types) && InGraph(types, level)
    ensures InGraph(types, NextLevel(types, level, visited))
    ensures TypesOf(NextLevel(types, level, visited)) !! visited
  {
    if level != [] {
      var last := level[|level|-1];
      NextLevelIn(types, level[..|level|-1], visited);
      var before := NextLevel(types, level[..|level|-1], visited);
      NewNodesIn(types, last, |types[last.typ]|, visited + TypesOf(before));
      var added := NewNodes(types, last, |types[last.typ]|, visited + TypesOf(before));
      var both: seq<Node> := before + added;
      forall k | 0 <= k < |both| ensures both[k].typ < |types| && both[k].typ !in visited {
        if k < |before| {
          assert before[k].typ in TypesOf(before);
        } else {
          assert added[k - |before|].typ in TypesOf(added);
        }
      }
    }
  }

  /** A level that is not empty visits a type that was not visited before: the walk ends. */
  lemma NextLevelGrows(types: seq<seq<FieldDecl>>, level: seq<Node>, visited: set<nat>)
    requires WellFormed(types) && InGraph(types, level) && NextLevel(types, level, visited) != []
    ensures AllTypes(types) - (visited + TypesOf(NextLevel(types, level, visited))) < AllTypes(types) - visited
  {
    NextLevelIn(types, level, visited);
    var next := NextLevel(types, level, visited);
    assert next[0].typ in TypesOf(next) && next[0].typ in AllTypes(types);
  }

  predicate CleanNode(types: seq<seq<FieldDecl>>, node: Node)
    requires node.typ < |types|
  {
    forall i | 0 <= i < |types[node.typ]| :: !types[node.typ][i].badTag
  }

  predicate CleanLevel(types: seq<seq<FieldDecl>>, level: seq<Node>)
    requires InGraph(types, level)
  {
    forall k | 0 <= k < |level| :: CleanNode(types, level[k])
  }

  /** No level from here on holds a tag that does not parse. */
  predicate CleanWalk(types: seq<seq<FieldDecl>>, level: seq<Node>, visited: set<nat>)
    requires WellFormed(types) && InGraph(types, level)
    decreases AllTypes(types) - visited, |level|
  {
    level == [] ||
    (CleanLevel(types, level) &&
     (NextLevelIn(types, level, visited);
      var next := NextLevel(types, level, visited);
      next == [] ||
      (NextLevelGrows(types, level, visited);
       CleanWalk(types, next, visited + TypesOf(next)))))
  }

  // ---- The walk as the code does it ----

  /** The fields of one parent, fields.go:41-84; clean is false once a tag does not parse. */
  method ScanFields(types: seq<seq<FieldDecl>>, parent: Node, visited: set<nat>, queued: seq<Node>, columns: seq<Candidate>)
    returns (clean: bool, queue: seq<Node>, found: seq<Candidate>)
    requires WellFormed(types) && parent.typ < |types|
    ensures clean == CleanNode(types, parent)
    ensures clean ==> queue == queued + NewNodes(types, parent, |types[parent.typ]|, visited + TypesOf(queued))
    ensures clean ==> found == columns + ColumnsOf(types, parent, |types[parent.typ]|)
  {
    var fields := types[parent.typ];
    var next := TypesOf(queued);
    ghost var seen := visited + next;
    queue, found := queued, columns;
    for i := 0 to |fields|
      invariant forall j | 0 <= j < i :: !fields[j].badTag
      invariant queue == queued + NewNodes(types, parent, i, seen)
      invariant next == TypesOf(queued) + TypesOf(NewNodes(types, parent, i, seen))
      invariant found == columns + ColumnsOf(types, parent, i)
    {
      var f := fields[i];
      if f.badTag {
        return false, queue, found;
      }
      match RoleOf(f) {
        case Skipped =>
        case Descend =>
          if f.typ !in visited && f.typ !in next {
            var added := Node(f.typ, parent.index + [i]);
            TypesOfAppend(NewNodes(types, parent, i, seen), [added]);
            TypesOfOne(added);
            assert NewNodes(types, parent, i + 1, seen) == NewNodes(types, parent, i, seen) + [added];
            next := next + {f.typ};
            queue := queue + [added];
          }
        case Column =>
          found := found + [CandidateAt(f, parent.index, i)];
      }
    }
    clean := true;
  }

  /** One level of the walk, fields.go:40-88. */
  method ScanLevel(types: seq<seq<FieldDecl>>, level: seq<Node>, visited: set<nat>, columns: seq<Candidate>)
    returns (clean: bool, queue: seq<Node>, found: seq<Candidate>)
    requires WellFormed(types) && InGraph(types, level)
    ensures clean == CleanLevel(types, level)
    ensures clean ==> queue == NextLevel(types, level, visited)
    ensures clean ==> found == columns + LevelColumns(types, level)
  {
    queue, found := [], columns;
    for k := 0 to |level|
      invariant CleanLevel(types, level[..k])
      invariant queue == NextLevel(types, level[..k], visited)
      invariant found == columns + LevelColumns(types, level[..k])
    {
      assert level[..k + 1][..k] == level[..k];
      clean, queue, found := ScanFields(types, level[k], visited, queue, found);
      if !clean {
        return;
      }
    }
    assert level[..|level|] == level;
    clean := true;
  }

  lemma NextSeen(types: seq<seq<FieldDecl>>, level: seq<Node>, visited: set<nat>)
    requires WellFormed(types) && InGraph(types, level)
    ensures
      var next := NextLevel(types, level, visited);
      var seen := visited + TypesOf(next);
      && InGraph(types, next)
      && (if next == [] then seen == visited else AllTypes(types) - seen < AllTypes(types) - visited)
  {
    NextLevelIn(types, level, visited);
    if NextLevel(types, level, visited) != [] {
      NextLevelGrows(types, level, visited);
    }
  }

  lemma CleanStep(types: seq<seq<FieldDecl>>, level: seq<Node>, visited: set<nat>)
    requires WellFormed(types) && InGraph(types, level) && level != []
    requires InGraph(types, NextLevel(types, level, visited))
    ensures
      var next := NextLevel(types, level, visited);
      CleanWalk(types, level, visited)
      <==> CleanLevel(types, level) && CleanWalk(types, next, visited + TypesOf(next))
  {
  }

  lemma WalkUnfolds(types: seq<seq<FieldDecl>>, level: seq<Node>, visited: set<nat>)
    requires WellFormed(types) && InGraph(types, level) && level != []
    requires InGraph(types, NextLevel(types, level, visited))
    ensures
      var next := NextLevel(types, level, visited);
      Walk(types, level, visited) == LevelColumns(types, level) + Walk(types, next, visited + TypesOf(next))
  {
  }

  lemma Associates<T>(a: seq<T>, b: seq<T>, c: seq<T>)
    ensures a + (b + c) == (a + b) + c
  {
  }

  lemma WalkStep(types: seq<seq<FieldDecl>>, level: seq<Node>, visited: set<nat>, found: seq<Candidate>)
    requires WellFormed(types) && InGraph(types, level) && level != []
    requires InGraph(types, NextLevel(types, level, visited))
    ensures
      var next := NextLevel(types, level, visited);
      var seen := visited + TypesOf(next);
      && found + Walk(types, level, visited) == (found + LevelColumns(types, level)) + Walk(types, next, seen)
      && (CleanWalk(types, level, visited) <==> CleanLevel(types, level) && CleanWalk(types, next, seen))
  {
    CleanStep(types, level, visited);
    WalkUnfolds(types, level, visited);
    var next := NextLevel(types, level, visited);
    Associates(found, LevelColumns(types, level), Walk(types, next, visited + TypesOf(next)));
  }

  /** All candidates of a type, or None when a reachable tag does not parse. */
  function Collected(types: seq<seq<FieldDecl>>, root: nat): Option<seq<Candidate>>
    requires WellFormed(types) && root < |types|
  {
    if CleanWalk(types, [Node(root, [])], {root}) then Some(Walk(types, [Node(root, [])], {root})) else None
  }

  /** The walk of collectFields, fields.go:31-89; None is a tag that does not parse. */
  method FindCandidates(types: seq<seq<FieldDecl>>, root: nat) returns (result: Option<seq<Candidate>>)
    requires WellFormed(types) && root < |types|
    ensures result == Collected(types, root)
  {
    var found: seq<Candidate> := [];
    var visited := {root};
    var queue := [Node(root, [])];
    ghost var total, parses := Walk(types, queue, visited), CleanWalk(types, queue, visited);
    while |queue| > 0
      invariant InGraph(types, queue)
      invariant parses <==> CleanWalk(types, queue, visited)
      invariant total == found + Walk(types, queue, visited)
      decreases AllTypes(types) - visited, |queue|
    {
      ghost var level, before, columns := queue, visited, found;
      var clean;
      clean, queue, found := ScanLevel(types, queue, visited, found);
      if !clean {
        NextSeen(types, level, before);
        WalkStep(types, level, before, columns);
        return None;
      }
      visited := visited + TypesOf(queue);
      NextSeen(types, level, before);
      WalkStep(types, level, before, columns);
    }
    assert total == found;
    return Some(found);
  }

  lemma TypesOfOne(node: Node)
    ensures TypesOf([node]) == {node.typ}
  {
    assert [node][0] == node;
  }

  lemma TypesOfAppend(a: seq<Node>, b: seq<Node>)
    ensures TypesOf(a + b) == TypesOf(a) + TypesOf(b)
  {
    forall t ensures t in TypesOf(a + b) <==> t in TypesOf(a) + TypesOf(b) {
      if t in TypesOf(a) {
        var i :| 0 <= i < |a| && a[i].typ == t;
        assert (a + b)[i].typ == t;
      }
      if t in TypesOf(b) {
        var i :| 0 <= i < |b| && b[i].typ == t;
        assert (a + b)[|a| + i].typ == t;
      }
    }
  }
}
