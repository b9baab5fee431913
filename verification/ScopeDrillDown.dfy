/**
 Selecting a row of the breakdown shows that row's own figures, and exactly when the rows and the counts
 of a scope add up over its children: nodes of one level may lie below each other, since the hierarchy
 only restricts where institutions go.
*/
module ScopeDrillDown {
  import opened Common
  import opened TreePaths
  import opened ScopeAnalytics

  // ---------------------------------------------------------------- selecting a child

  /** Nodes are keyed by identifier, and every path starts at the root. */
  ghost predicate WellFormed(tree: Tree) {
    && (forall i, j :: 0 <= i < j < |tree.nodes| ==> tree.nodes[i].id != tree.nodes[j].id)
    && (forall i :: 0 <= i < |tree.nodes| ==> Rooted(tree.nodes[i].path))
  }

  /** The same request with the next level down chosen. */
  function Narrow(r: Request, level: Level, id: NodeId): Request {
    match level
    case University => r.(university := Wanted(id))
    case Specialty => r.(specialty := Wanted(id))
    case Year => r.(year := Wanted(id))
  }

  lemma {:induction false} ChildrenComeFromTheTree(nodes: seq<Node>, tree: Tree, parent: Option<Node>, level: Level, node: Node)
    ensures node in ChildrenIn(nodes, tree, parent, level) <==> node in nodes && IsChild(tree, parent, level, node)
  {
    if nodes != [] { ChildrenComeFromTheTree(nodes[1..], tree, parent, level, node); }
  }

  lemma {:induction false} FoundByIdentifier(nodes: seq<Node>, node: Node)
    requires node in nodes && forall other :: other in nodes && other.id == node.id ==> other == node
    ensures FindNode(nodes, node.id) == Some(node)
  {
    if nodes[0] != node {
      assert nodes[0] in nodes;
      assert forall other :: other in nodes[1..] ==> other in nodes;
      FoundByIdentifier(nodes[1..], node);
    }
  }

  lemma {:induction false} FoundNodeIsListed(nodes: seq<Node>, id: NodeId)
    ensures FindNode(nodes, id).Some? ==> FindNode(nodes, id).value in nodes && FindNode(nodes, id).value.id == id
  {
    if nodes != [] && nodes[0].id != id { FoundNodeIsListed(nodes[1..], id); }
  }

  lemma {:induction false} PickedNodeIsAChild(tree: Tree, parent: Option<Node>, level: Level, raw: Raw)
    ensures Pick(tree, parent, level, raw).Ok? && Pick(tree, parent, level, raw).value.Some? ==>
              var node := Pick(tree, parent, level, raw).value.value;
              IsChild(tree, parent, level, node) && node in tree.nodes
  {
    if raw.Wanted? {
      FoundNodeIsListed(Children(tree, parent, level), raw.id);
      if FindNode(Children(tree, parent, level), raw.id).Some? {
        ChildrenComeFromTheTree(tree.nodes, tree, parent, level, FindNode(Children(tree, parent, level), raw.id).value);
      }
    }
  }

  /** Every child shown can be selected, and selecting it finds it. */
  lemma {:induction false} ChildCanBePicked(tree: Tree, parent: Option<Node>, level: Level, node: Node)
    requires WellFormed(tree) && node in Children(tree, parent, level)
    ensures Pick(tree, parent, level, Wanted(node.id)) == Ok(Some(node))
  {
    var children := Children(tree, parent, level);
    forall other | other in children && other.id == node.id ensures other == node {
      ChildrenComeFromTheTree(tree.nodes, tree, parent, level, other);
      ChildrenComeFromTheTree(tree.nodes, tree, parent, level, node);
    }
    FoundByIdentifier(children, node);
  }

  /** A node outside the selected parent, or of another level, is refused. */
  lemma {:induction false} OnlyChildrenCanBePicked(tree: Tree, parent: Option<Node>, level: Level, id: NodeId)
    requires WellFormed(tree)
    ensures Pick(tree, parent, level, Wanted(id)).Ok?
            <==> exists node :: node in tree.nodes && node.id == id && IsChild(tree, parent, level, node)
  {
    PickedNodeIsAChild(tree, parent, level, Wanted(id));
    FoundNodeIsListed(Children(tree, parent, level), id);
    forall node | node in tree.nodes && node.id == id && IsChild(tree, parent, level, node)
      ensures Pick(tree, parent, level, Wanted(id)).Ok?
    {
      ChildrenComeFromTheTree(tree.nodes, tree, parent, level, node);
      ChildCanBePicked(tree, parent, level, node);
    }
  }

  function ChooseChild(chosen: Chosen, level: Level, node: Node): Chosen {
    match level
    case University => chosen.(university := Some(node))
    case Specialty => chosen.(specialty := Some(node))
    case Year => chosen.(year := Some(node))
  }

  /** The level of a scope says how far down the request went. */
  lemma {:induction false} ChosenDownTo(tree: Tree, r: Request)
    requires Choose(tree, r).Ok?
    ensures var c := Choose(tree, r).value;
            && (c.university.Some? <==> r.university != Absent)
            && (c.specialty.Some? <==> r.specialty != Absent)
            && (c.year.Some? <==> r.year != Absent)
            && ChildLevel(ScopeOf(c)) == if c.year.Some? then None else if c.specialty.Some? then Some(Year)
                                         else if c.university.Some? then Some(Specialty) else Some(University)
  {
    var c := Choose(tree, r).value;
    PickedNodeIsAChild(tree, None, University, r.university);
    PickedNodeIsAChild(tree, c.university, Specialty, r.specialty);
    PickedNodeIsAChild(tree, c.specialty, Year, r.year);
  }

  lemma {:induction false} NarrowedRequest(tree: Tree, r: Request, node: Node)
    requires WellFormed(tree) && Choose(tree, r).Ok?
    requires ChildLevel(ScopeOf(Choose(tree, r).value)).Some?
    requires var c := Choose(tree, r).value; node in Children(tree, ScopeOf(c), ChildLevel(ScopeOf(c)).value)
    ensures var c := Choose(tree, r).value; var level := ChildLevel(ScopeOf(c)).value;
            Choose(tree, Narrow(r, level, node.id)) == Ok(ChooseChild(c, level, node))
            && ScopeOf(ChooseChild(c, level, node)) == Some(node)
  {
    var c := Choose(tree, r).value;
    ChosenDownTo(tree, r);
    ChildCanBePicked(tree, ScopeOf(c), ChildLevel(ScopeOf(c)).value, node);
  }

  lemma {:induction false} RowAt(tree: Tree, records: Records, path: Option<string>, nodes: seq<Node>, i: nat)
    requires i < |nodes|
    ensures |RowsFor(tree, records, path, nodes)| == |nodes|
    ensures RowsFor(tree, records, path, nodes)[i] == RowFor(tree, records, path, nodes[i])
  {
    var front := nodes[..|nodes| - 1];
    RowCount(tree, records, path, front);
    if i < |front| { RowAt(tree, records, path, front, i); }
  }

  lemma {:induction false} RowCount(tree: Tree, records: Records, path: Option<string>, nodes: seq<Node>)
    ensures |RowsFor(tree, records, path, nodes)| == |nodes|
  {
    if nodes != [] { RowCount(tree, records, path, nodes[..|nodes| - 1]); }
  }

  /**
   Drill-down: at any scope that can be selected, every row of the breakdown can be selected in turn,
   and the metrics then returned are the row's own, for content grouped by path and for people
   grouped by cohort alike.
  */
  lemma {:induction false} DrillDown(tree: Tree, records: Records, r: Request, i: nat)
    requires WellFormed(tree) && Choose(tree, r).Ok?
    requires i < |Breakdown(tree, records, ScopeOf(Choose(tree, r).value))|
    ensures var c := Choose(tree, r).value;
            var level := ChildLevel(ScopeOf(c));
            && level.Some? && i < |Children(tree, ScopeOf(c), level.value)|
            && var node := Children(tree, ScopeOf(c), level.value)[i];
               var next := Choose(tree, Narrow(r, level.value, node.id));
               && next.Ok? && ScopeOf(next.value) == Some(node)
               && Breakdown(tree, records, ScopeOf(c))[i] == RowFromMetrics(node, MetricsOf(tree, records, next.value))
  {
    var c := Choose(tree, r).value;
    var scope := ScopeOf(c);
    var level := ChildLevel(scope).value;
    var path := if scope.Some? then Some(scope.value.path) else None;
    var children := Children(tree, scope, level);
    RowCount(tree, records, path, children);
    RowAt(tree, records, path, children, i);
    var node := children[i];
    assert node in children;
    ChildrenComeFromTheTree(tree.nodes, tree, scope, level, node);
    NarrowedRequest(tree, r, node);
    RowIsTheScopesMetrics(tree, records, path, ChooseChild(c, level, node));
  }

  // ---------------------------------------------------------------- counts of distinct nodes

  predicate NoRepeats(nodes: seq<Node>) {
    forall i, j :: 0 <= i < j < |nodes| ==> nodes[i] != nodes[j]
  }

  ghost predicate BelowBoth(tree: Tree, parents: seq<Node>, level: Level, i: int, j: int, node: Node) {
    0 <= i < j < |parents| && node in Children(tree, Some(parents[i]), level) && node in Children(tree, Some(parents[j]), level)
  }

  /** Some node of the level is listed below two of the parents. */
  ghost predicate Shared(tree: Tree, parents: seq<Node>, level: Level) {
    exists i, j, node :: BelowBoth(tree, parents, level, i, j, node)
  }

  lemma {:induction false} ChildrenDoNotRepeat(nodes: seq<Node>, tree: Tree, parent: Option<Node>, level: Level)
    requires NoRepeats(nodes)
    ensures NoRepeats(ChildrenIn(nodes, tree, parent, level))
  {
    if nodes != [] {
      var rest := ChildrenIn(nodes[1..], tree, parent, level);
      ChildrenDoNotRepeat(nodes[1..], tree, parent, level);
      ChildrenComeFromTheTree(nodes[1..], tree, parent, level, nodes[0]);
      forall i | 0 <= i < |rest| ensures rest[i] != nodes[0] { assert rest[i] in rest; }
    }
  }

  lemma {:induction false} InAllChildren(tree: Tree, parents: seq<Node>, level: Level, node: Node)
    ensures node in AllChildren(tree, parents, level)
            <==> exists i :: 0 <= i < |parents| && node in Children(tree, Some(parents[i]), level)
  {
    if parents != [] {
      InAllChildren(tree, parents[1..], level, node);
      if i :| 0 <= i < |parents| && node in Children(tree, Some(parents[i]), level) {
        assert i > 0 ==> parents[1..][i - 1] == parents[i];
      }
      if i :| 0 <= i < |parents[1..]| && node in Children(tree, Some(parents[1..][i]), level) {
        assert parents[i + 1] == parents[1..][i];
      }
    }
  }

  lemma {:induction false} JoinedRepeats(a: seq<Node>, b: seq<Node>)
    requires NoRepeats(a)
    ensures NoRepeats(a + b) <==> NoRepeats(b) && forall node :: node in a ==> node !in b
  {
    var all := a + b;
    if NoRepeats(all) {
      forall i, j | 0 <= i < j < |b| ensures b[i] != b[j] { assert all[|a| + i] == b[i] && all[|a| + j] == b[j]; }
      forall node | node in a ensures node !in b {
        var i :| 0 <= i < |a| && a[i] == node;
        forall j | 0 <= j < |b| ensures b[j] != node { assert all[i] == node && all[|a| + j] == b[j]; }
      }
    } else {
      var i, j :| 0 <= i < j < |all| && all[i] == all[j];
      if i < |a| && j >= |a| { assert a[i] in a && b[j - |a|] in b; }
    }
  }

  lemma {:induction false} SharedSplits(tree: Tree, parents: seq<Node>, level: Level)
    requires parents != []
    ensures Shared(tree, parents, level)
            <==> Shared(tree, parents[1..], level)
                 || exists node :: node in Children(tree, Some(parents[0]), level) && node in AllChildren(tree, parents[1..], level)
  {
    var rest := parents[1..];
    if i, j, node :| BelowBoth(tree, parents, level, i, j, node) {
      assert rest[j - 1] == parents[j];
      if i == 0 {
        InAllChildren(tree, rest, level, node);
      } else {
        assert rest[i - 1] == parents[i];
        assert BelowBoth(tree, rest, level, i - 1, j - 1, node);
      }
    }
    if i, j, node :| BelowBoth(tree, rest, level, i, j, node) {
      assert parents[i + 1] == rest[i] && parents[j + 1] == rest[j];
      assert BelowBoth(tree, parents, level, i + 1, j + 1, node);
    }
    if node :| node in Children(tree, Some(parents[0]), level) && node in AllChildren(tree, rest, level) {
      InAllChildren(tree, rest, level, node);
      var j :| 0 <= j < |rest| && node in Children(tree, Some(rest[j]), level);
      assert parents[j + 1] == rest[j];
      assert BelowBoth(tree, parents, level, 0, j + 1, node);
    }
  }

  lemma {:induction false} AllChildrenRepeatIff(tree: Tree, parents: seq<Node>, level: Level)
    requires NoRepeats(tree.nodes)
    ensures NoRepeats(AllChildren(tree, parents, level)) <==> !Shared(tree, parents, level)
  {
    if parents != [] {
      AllChildrenRepeatIff(tree, parents[1..], level);
      ChildrenDoNotRepeat(tree.nodes, tree, Some(parents[0]), level);
      JoinedRepeats(Children(tree, Some(parents[0]), level), AllChildren(tree, parents[1..], level));
      SharedSplits(tree, parents, level);
    }
  }

  function Distinct(nodes: seq<Node>): set<Node> {
    set node | node in nodes
  }

  lemma {:induction false} DistinctGrows(node: Node, rest: seq<Node>)
    ensures |Distinct([node] + rest)| == |Distinct(rest)| + if node in rest then 0 else 1
  {
    var all := [node] + rest;
    if node in rest {
      assert Distinct(all) == Distinct(rest);
    } else {
      assert Distinct(all) == {node} + Distinct(rest);
    }
  }

  lemma {:induction false} LengthIsSizeIff(nodes: seq<Node>)
    ensures |Distinct(nodes)| <= |nodes|
    ensures |nodes| == |Distinct(nodes)| <==> NoRepeats(nodes)
  {
    if nodes != [] {
      var rest := nodes[1..];
      assert nodes == [nodes[0]] + rest;
      LengthIsSizeIff(rest);
      DistinctGrows(nodes[0], rest);
      JoinedRepeats([nodes[0]], rest);
    }
  }

  /** The figure for specialties or years counts distinct nodes exactly when no node of the level lies
      below two of the listed parents: one below a college within a college is counted for both. */
  lemma {:induction false} CountsAreOfDistinctNodesIff(tree: Tree, parents: seq<Node>, level: Level)
    requires WellFormed(tree)
    ensures var all := AllChildren(tree, parents, level);
            |all| == |Distinct(all)| <==> !Shared(tree, parents, level)
  {
    assert NoRepeats(tree.nodes);
    AllChildrenRepeatIff(tree, parents, level);
    LengthIsSizeIff(AllChildren(tree, parents, level));
  }

  /** Parents of which none lies below another share no node. */
  lemma {:induction false} UnrelatedParentsShareNothing(tree: Tree, parents: seq<Node>, level: Level)
    requires Unrelated(parents)
    ensures !Shared(tree, parents, level)
  {
    if i, j, node :| BelowBoth(tree, parents, level, i, j, node) {
      ChildrenComeFromTheTree(tree.nodes, tree, Some(parents[i]), level, node);
      ChildrenComeFromTheTree(tree.nodes, tree, Some(parents[j]), level, node);
      PrefixesCompare(parents[i].path, parents[j].path, node.path);
    }
  }

  lemma PrefixesCompare(a: string, b: string, whole: string)
    requires a <= whole && b <= whole
    ensures a <= b || b <= a
  {
  }

  // ---------------------------------------------------------------- content rows

  ghost predicate Unrelated(nodes: seq<Node>) {
    forall i, j :: 0 <= i < j < |nodes| ==> !(nodes[i].path <= nodes[j].path) && !(nodes[j].path <= nodes[i].path)
  }

  predicate UnderAny(nodes: seq<Node>, key: Path) {
    exists i :: 0 <= i < |nodes| && Under(nodes[i].path, key)
  }

  function SumOver(rows: seq<Row<Path>>, second: bool, nodes: seq<Node>): int {
    if nodes == [] then 0
    else SumOver(rows, second, nodes[1..]) + Sum(rows, second, key => Under(nodes[0].path, key))
  }

  lemma {:induction false} SumOfEither<K>(rows: seq<Row<K>>, second: bool, p: K -> bool, q: K -> bool, either: K -> bool)
    requires forall i :: 0 <= i < |rows| ==> !(p(rows[i].key) && q(rows[i].key))
    requires forall i :: 0 <= i < |rows| ==> (either(rows[i].key) <==> p(rows[i].key) || q(rows[i].key))
    ensures Sum(rows, second, either) == Sum(rows, second, p) + Sum(rows, second, q)
  {
    if rows != [] { SumOfEither(rows[1..], second, p, q, either); }
  }

  lemma {:induction false} SumOfNothing<K>(rows: seq<Row<K>>, second: bool, p: K -> bool)
    requires forall i :: 0 <= i < |rows| ==> !p(rows[i].key)
    ensures Sum(rows, second, p) == 0
  {
    if rows != [] { SumOfNothing(rows[1..], second, p); }
  }

  /** Rows of unrelated nodes add up to exactly the records under one of them: none is counted twice. */
  lemma {:induction false} RowsNeverOverlap(rows: seq<Row<Path>>, second: bool, nodes: seq<Node>)
    requires Unrelated(nodes)
    ensures SumOver(rows, second, nodes) == Sum(rows, second, key => UnderAny(nodes, key))
  {
    if nodes == [] {
      SumOfNothing(rows, second, key => UnderAny(nodes, key));
    } else {
      var first, rest := nodes[0], nodes[1..];
      RowsNeverOverlap(rows, second, rest);
      forall key: Path
        ensures !(Under(first.path, key) && UnderAny(rest, key))
        ensures UnderAny(nodes, key) <==> Under(first.path, key) || UnderAny(rest, key)
      {
        if UnderAny(rest, key) {
          var i :| 0 <= i < |rest| && Under(rest[i].path, key);
          assert nodes[i + 1] == rest[i];
        }
        if UnderAny(nodes, key) && !Under(first.path, key) {
          var i :| 0 <= i < |nodes| && Under(nodes[i].path, key);
          assert rest[i - 1] == nodes[i];
        }
      }
      SumOfEither(rows, second, key => Under(first.path, key), key => UnderAny(rest, key), key => UnderAny(nodes, key));
    }
  }

  /** One record under a node adds one to every row whose node it is under. */
  lemma {:induction false} OneRecordStep(path: string, nodes: seq<Node>)
    requires nodes != []
    ensures SumOver([Row(Some(path), 1, 0)], false, nodes)
         == SumOver([Row(Some(path), 1, 0)], false, nodes[1..]) + if nodes[0].path <= path then 1 else 0
  {
    var rows: seq<Row<Path>> := [Row(Some(path), 1, 0)];
    assert rows[1..] == [];
    assert Sum(rows, false, key => Under(nodes[0].path, key)) == if nodes[0].path <= path then 1 else 0;
  }

  lemma {:induction false} OneRecordsRows(path: string, nodes: seq<Node>, i: nat)
    requires i < |nodes| && nodes[i].path <= path
    ensures SumOver([Row(Some(path), 1, 0)], false, nodes) >= 1
    ensures forall j :: i < j < |nodes| && nodes[j].path <= path ==> SumOver([Row(Some(path), 1, 0)], false, nodes) >= 2
  {
    var rest := nodes[1..];
    OneRecordIsNonNegative(path, rest);
    OneRecordStep(path, nodes);
    if i > 0 {
      assert rest[i - 1] == nodes[i];
      OneRecordsRows(path, rest, i - 1);
      assert forall j :: i < j < |nodes| ==> nodes[j] == rest[j - 1];
    } else {
      forall j | 0 < j < |nodes| && nodes[j].path <= path ensures SumOver([Row(Some(path), 1, 0)], false, nodes) >= 2 {
        assert rest[j - 1] == nodes[j];
        OneRecordsRows(path, rest, j - 1);
      }
    }
  }

  lemma {:induction false} OneRecordIsNonNegative(path: string, nodes: seq<Node>)
    ensures SumOver([Row(Some(path), 1, 0)], false, nodes) >= 0
  {
    if nodes != [] {
      OneRecordStep(path, nodes);
      OneRecordIsNonNegative(path, nodes[1..]);
    }
  }

  lemma {:induction false} RelatedRowsCountTwice(nodes: seq<Node>, i: nat, j: nat)
    requires i < |nodes| && j < |nodes| && i != j && nodes[i].path <= nodes[j].path
    ensures var rows: seq<Row<Path>> := [Row(Some(nodes[j].path), 1, 0)];
            SumOver(rows, false, nodes) >= 2 && Sum(rows, false, key => UnderAny(nodes, key)) <= 1
  {
    OneRecordsRows(nodes[j].path, nodes, if i < j then i else j);
    var rows: seq<Row<Path>> := [Row(Some(nodes[j].path), 1, 0)];
    assert rows[1..] == [];
  }

  /** The rows of some nodes add up to the records under them, whatever the records, if and only if no
      node's path starts with another's. */
  lemma {:induction false} ContentAddsUpIff(nodes: seq<Node>)
    ensures Unrelated(nodes)
            <==> forall rows, second :: SumOver(rows, second, nodes) == Sum(rows, second, key => UnderAny(nodes, key))
  {
    if Unrelated(nodes) {
      forall rows, second ensures SumOver(rows, second, nodes) == Sum(rows, second, key => UnderAny(nodes, key)) {
        RowsNeverOverlap(rows, second, nodes);
      }
    } else {
      var i, j :| 0 <= i < j < |nodes| && (nodes[i].path <= nodes[j].path || nodes[j].path <= nodes[i].path);
      var low, high := if nodes[i].path <= nodes[j].path then i else j, if nodes[i].path <= nodes[j].path then j else i;
      RelatedRowsCountTwice(nodes, low, high);
      var rows: seq<Row<Path>> := [Row(Some(nodes[high].path), 1, 0)];
      assert SumOver(rows, false, nodes) != Sum(rows, false, key => UnderAny(nodes, key));
    }
  }

  // ---------------------------------------------------------------- the breakdown itself

  function SubjectsShown(rows: seq<BreakdownRow>): int {
    if rows == [] then 0 else SubjectsShown(rows[..|rows| - 1]) + rows[|rows| - 1].subjects
  }

  lemma {:induction false} SumOverAppended(rows: seq<Row<Path>>, second: bool, nodes: seq<Node>, node: Node)
    ensures SumOver(rows, second, nodes + [node]) == SumOver(rows, second, nodes) + SumOver(rows, second, [node])
  {
    if nodes == [] {
      assert nodes + [node] == [node];
    } else {
      assert (nodes + [node])[1..] == nodes[1..] + [node];
      SumOverAppended(rows, second, nodes[1..], node);
    }
  }

  lemma {:induction false} RowSubjects(tree: Tree, records: Records, path: Option<string>, node: Node)
    requires Rooted(node.path) && (path.Some? ==> path.value <= node.path)
    ensures RowFor(tree, records, path, node).subjects == SumOver(records.subjects, false, [node])
  {
    var rows := records.subjects;
    var under := (key: Path) => Under(node.path, key);
    forall key ensures Selected(path, key) && under(key) <==> under(key) {
      UnderIsSelected(path, node.path, key);
    }
    GroupSum(Filter(rows, key => Selected(path, key)), false, under);
    FilterSum(rows, false, key => Selected(path, key), under, under);
    assert [node][1..] == [];
    SumsAgree(rows, false, under, key => Under([node][0].path, key));
  }

  lemma {:induction false} SumsAgree<K>(rows: seq<Row<K>>, second: bool, p: K -> bool, q: K -> bool)
    requires forall key :: p(key) <==> q(key)
    ensures Sum(rows, second, p) == Sum(rows, second, q)
  {
    if rows != [] { SumsAgree(rows[1..], second, p, q); }
  }

  lemma {:induction false} SubjectsOfRows(tree: Tree, records: Records, path: Option<string>, nodes: seq<Node>)
    requires forall i :: 0 <= i < |nodes| ==> Rooted(nodes[i].path) && (path.Some? ==> path.value <= nodes[i].path)
    ensures SubjectsShown(RowsFor(tree, records, path, nodes)) == SumOver(records.subjects, false, nodes)
  {
    if nodes != [] {
      var front, last := nodes[..|nodes| - 1], nodes[|nodes| - 1];
      SubjectsOfRows(tree, records, path, front);
      RowSubjects(tree, records, path, last);
      SumOverAppended(records.subjects, false, front, last);
      assert nodes == front + [last];
      var rows := RowsFor(tree, records, path, nodes);
      assert rows[..|rows| - 1] == RowsFor(tree, records, path, front);
    }
  }

  lemma {:induction false} BreakdownSubjects(tree: Tree, records: Records, scope: Option<Node>, level: Level)
    requires WellFormed(tree) && ChildLevel(scope) == Some(level)
    ensures SubjectsShown(Breakdown(tree, records, scope)) == SumOver(records.subjects, false, Children(tree, scope, level))
  {
    var nodes := Children(tree, scope, level);
    var path := if scope.Some? then Some(scope.value.path) else None;
    forall i | 0 <= i < |nodes| ensures Rooted(nodes[i].path) && (path.Some? ==> path.value <= nodes[i].path) {
      assert nodes[i] in nodes;
      ChildrenComeFromTheTree(tree.nodes, tree, scope, level, nodes[i]);
    }
    SubjectsOfRows(tree, records, path, nodes);
  }

  function OneSubject(path: string): Records {
    Records([], [], [], [Row(Some(path), 1, 0)], [], [], [])
  }

  /** The subjects shown in the rows of a breakdown add up to the subjects under its nodes, for all
      records, if and only if no listed child's path starts with another listed child's. */
  lemma {:induction false} BreakdownAddsUpIff(tree: Tree, scope: Option<Node>, level: Level)
    requires WellFormed(tree) && ChildLevel(scope) == Some(level)
    ensures var nodes := Children(tree, scope, level);
            Unrelated(nodes)
            <==> forall records :: SubjectsShown(Breakdown(tree, records, scope))
                                   == Sum(records.subjects, false, key => UnderAny(nodes, key))
  {
    var nodes := Children(tree, scope, level);
    forall records ensures SubjectsShown(Breakdown(tree, records, scope)) == SumOver(records.subjects, false, nodes) {
      BreakdownSubjects(tree, records, scope, level);
    }
    if Unrelated(nodes) {
      forall records: Records
        ensures SubjectsShown(Breakdown(tree, records, scope)) == Sum(records.subjects, false, key => UnderAny(nodes, key))
      {
        RowsNeverOverlap(records.subjects, false, nodes);
      }
    } else {
      var i, j :| 0 <= i < j < |nodes| && (nodes[i].path <= nodes[j].path || nodes[j].path <= nodes[i].path);
      var low, high := if nodes[i].path <= nodes[j].path then i else j, if nodes[i].path <= nodes[j].path then j else i;
      RelatedRowsCountTwice(nodes, low, high);
      var records := OneSubject(nodes[high].path);
      assert SubjectsShown(Breakdown(tree, records, scope)) != Sum(records.subjects, false, key => UnderAny(nodes, key));
    }
  }

  /** For example a college within a college: its one subject appears in both rows, while the platform
      has one subject. */
  lemma {:induction false} NestedCollegesCountTwice(outer: Node, inner: Node, cohort: CohortId)
    requires outer.kind == College && inner.kind == College && outer.id != inner.id
    requires Rooted(outer.path) && outer.path <= inner.path
    ensures var tree := Tree([outer, inner], map[cohort := [inner.path]]);
            var records := OneSubject(inner.path);
            var rows := Breakdown(tree, records, None);
            && WellFormed(tree) && |rows| == 2 && rows[0].subjects == 1 && rows[1].subjects == 1
            && MetricsOf(tree, records, Chosen(None, None, None)).subjects == 1
  {
    var tree := Tree([outer, inner], map[cohort := [inner.path]]);
    var records := OneSubject(inner.path);
    var nodes := [outer, inner];
    assert tree.cohortPaths[cohort][0] == inner.path;
    assert cohort in CohortsUnder(tree, outer.path) && cohort in CohortsUnder(tree, inner.path);
    assert nodes[1..] == [inner] && [inner][1..] == [];
    assert ChildrenIn([], tree, None, University) == [];
    assert ChildrenIn([inner], tree, None, University) == [inner];
    assert Children(tree, None, University) == nodes;
    RowCount(tree, records, None, nodes);
    RowAt(tree, records, None, nodes, 0);
    RowAt(tree, records, None, nodes, 1);
    RowSubjects(tree, records, None, outer);
    RowSubjects(tree, records, None, inner);
    OneRecordStep(inner.path, [outer]);
    OneRecordStep(inner.path, [inner]);
    assert [outer][1..] == [];
    var subjects := records.subjects;
    assert subjects[1..] == [];
    GroupSum(Filter(subjects, key => Selected(None, key)), false, key => true);
    FilterSum(subjects, false, key => Selected(None, key), key => true, key => true);
  }

  // ---------------------------------------------------------------- in the hierarchy

  /** Each node's path is written from its lineage: its ancestors' identifiers and its own. */
  ghost predicate Placed(nodes: seq<Node>, lineage: NodeId -> seq<NodeId>) {
    forall i :: 0 <= i < |nodes| ==> nodes[i].path == PathOf(lineage(nodes[i].id))
  }

  predicate IsAbove(lineage: NodeId -> seq<NodeId>, a: Node, b: Node) {
    lineage(a.id) <= lineage(b.id)
  }

  /** In the hierarchy the breakdown of a scope adds up, whatever the subjects, if and only if no listed
      child is an ancestor of another. */
  lemma {:induction false} BreakdownAddsUpIffNoneIsAbove(
      tree: Tree, lineage: NodeId -> seq<NodeId>, scope: Option<Node>, level: Level)
    requires WellFormed(tree) && Placed(tree.nodes, lineage) && ChildLevel(scope) == Some(level)
    ensures var nodes := Children(tree, scope, level);
            (forall i, j :: 0 <= i < |nodes| && 0 <= j < |nodes| && i != j ==> !IsAbove(lineage, nodes[i], nodes[j]))
            <==> forall records :: SubjectsShown(Breakdown(tree, records, scope))
                                   == Sum(records.subjects, false, key => UnderAny(nodes, key))
  {
    var nodes := Children(tree, scope, level);
    BreakdownAddsUpIff(tree, scope, level);
    forall i, j | 0 <= i < |nodes| && 0 <= j < |nodes|
      ensures nodes[i].path <= nodes[j].path <==> IsAbove(lineage, nodes[i], nodes[j])
    {
      assert nodes[i] in nodes && nodes[j] in nodes;
      ChildrenComeFromTheTree(tree.nodes, tree, scope, level, nodes[i]);
      ChildrenComeFromTheTree(tree.nodes, tree, scope, level, nodes[j]);
      PrefixIsAncestry(lineage(nodes[i].id), lineage(nodes[j].id));
    }
  }

  /** Paths the hierarchy writes start at the root, so drilling down only needs distinct identifiers. */
  lemma {:induction false} PlacedTreesAreWellFormed(tree: Tree, lineage: NodeId -> seq<NodeId>)
    requires Placed(tree.nodes, lineage)
    requires forall i, j :: 0 <= i < j < |tree.nodes| ==> tree.nodes[i].id != tree.nodes[j].id
    ensures WellFormed(tree)
  {
    forall i | 0 <= i < |tree.nodes| ensures Rooted(tree.nodes[i].path) {
      PrefixIsAncestry(lineage(tree.nodes[i].id), []);
    }
  }

  // ---------------------------------------------------------------- people may appear twice

  predicate InAny(tree: Tree, nodes: seq<Node>, key: Cohort) {
    exists i :: 0 <= i < |nodes| && InCohorts(Some(CohortsUnder(tree, nodes[i].path)), key)
  }

  function PeopleOver(tree: Tree, rows: seq<Row<Cohort>>, second: bool, nodes: seq<Node>): int {
    if nodes == [] then 0
    else
      var cohorts := CohortsUnder(tree, nodes[0].path);
      PeopleOver(tree, rows, second, nodes[1..]) + Sum(rows, second, key => InCohorts(Some(cohorts), key))
  }

  /** No cohort has content under two of the nodes. */
  ghost predicate CohortsApart(tree: Tree, nodes: seq<Node>) {
    forall i, j :: 0 <= i < j < |nodes| ==> CohortsUnder(tree, nodes[i].path) !! CohortsUnder(tree, nodes[j].path)
  }

  lemma {:induction false} PeopleRowsApart(tree: Tree, rows: seq<Row<Cohort>>, second: bool, nodes: seq<Node>)
    requires CohortsApart(tree, nodes)
    ensures PeopleOver(tree, rows, second, nodes) == Sum(rows, second, key => InAny(tree, nodes, key))
  {
    if nodes == [] {
      SumOfNothing(rows, second, key => InAny(tree, nodes, key));
    } else {
      var first, rest := CohortsUnder(tree, nodes[0].path), nodes[1..];
      PeopleRowsApart(tree, rows, second, rest);
      forall key: Cohort
        ensures !(InCohorts(Some(first), key) && InAny(tree, rest, key))
        ensures InAny(tree, nodes, key) <==> InCohorts(Some(first), key) || InAny(tree, rest, key)
      {
        if InAny(tree, rest, key) {
          var i :| 0 <= i < |rest| && InCohorts(Some(CohortsUnder(tree, rest[i].path)), key);
          assert nodes[i + 1] == rest[i];
        }
        if InAny(tree, nodes, key) && !InCohorts(Some(first), key) {
          var i :| 0 <= i < |nodes| && InCohorts(Some(CohortsUnder(tree, nodes[i].path)), key);
          assert rest[i - 1] == nodes[i];
        }
      }
      SumOfEither(rows, second, key => InCohorts(Some(first), key), key => InAny(tree, rest, key), key => InAny(tree, nodes, key));
    }
  }

  lemma {:induction false} OnePersonStep(tree: Tree, c: CohortId, nodes: seq<Node>)
    requires nodes != []
    ensures PeopleOver(tree, [Row(Some(c), 1, 0)], false, nodes)
         == PeopleOver(tree, [Row(Some(c), 1, 0)], false, nodes[1..]) + if c in CohortsUnder(tree, nodes[0].path) then 1 else 0
  {
    var rows: seq<Row<Cohort>> := [Row(Some(c), 1, 0)];
    var cohorts := CohortsUnder(tree, nodes[0].path);
    assert rows[1..] == [];
    assert Sum(rows, false, key => InCohorts(Some(cohorts), key)) == if c in cohorts then 1 else 0;
  }

  /** One person's cohort adds one to each row it is under. */
  lemma {:induction false} OnePersonsRows(tree: Tree, c: CohortId, nodes: seq<Node>, i: nat)
    requires i < |nodes| && c in CohortsUnder(tree, nodes[i].path)
    ensures PeopleOver(tree, [Row(Some(c), 1, 0)], false, nodes) >= 1
    ensures forall j :: i < j < |nodes| && c in CohortsUnder(tree, nodes[j].path) ==>
              PeopleOver(tree, [Row(Some(c), 1, 0)], false, nodes) >= 2
  {
    var rest := nodes[1..];
    PeopleIsNonNegative(tree, c, rest);
    OnePersonStep(tree, c, nodes);
    if i > 0 {
      assert rest[i - 1] == nodes[i];
      OnePersonsRows(tree, c, rest, i - 1);
      assert forall j :: i < j < |nodes| ==> nodes[j] == rest[j - 1];
    } else {
      forall j | 0 < j < |nodes| && c in CohortsUnder(tree, nodes[j].path)
        ensures PeopleOver(tree, [Row(Some(c), 1, 0)], false, nodes) >= 2
      {
        assert rest[j - 1] == nodes[j];
        OnePersonsRows(tree, c, rest, j - 1);
      }
    }
  }

  lemma {:induction false} PeopleIsNonNegative(tree: Tree, c: CohortId, nodes: seq<Node>)
    ensures PeopleOver(tree, [Row(Some(c), 1, 0)], false, nodes) >= 0
  {
    if nodes != [] {
      OnePersonStep(tree, c, nodes);
      PeopleIsNonNegative(tree, c, nodes[1..]);
    }
  }

  /** The people in the rows of a breakdown add up to the people under its nodes, whoever they are, if
      and only if no cohort has content under two of the nodes; otherwise its students count twice. */
  lemma {:induction false} PeopleAddUpIff(tree: Tree, nodes: seq<Node>)
    ensures CohortsApart(tree, nodes) <==>
            forall rows, second :: PeopleOver(tree, rows, second, nodes) == Sum(rows, second, key => InAny(tree, nodes, key))
  {
    if CohortsApart(tree, nodes) {
      forall rows, second
        ensures PeopleOver(tree, rows, second, nodes) == Sum(rows, second, key => InAny(tree, nodes, key))
      {
        PeopleRowsApart(tree, rows, second, nodes);
      }
    } else {
      var i, j :| 0 <= i < j < |nodes| && !(CohortsUnder(tree, nodes[i].path) !! CohortsUnder(tree, nodes[j].path));
      var c :| c in CohortsUnder(tree, nodes[i].path) && c in CohortsUnder(tree, nodes[j].path);
      OnePersonsRows(tree, c, nodes, i);
      var rows := [Row(Some(c), 1, 0)];
      assert Sum(rows, false, key => InAny(tree, nodes, key)) <= 1;
      assert PeopleOver(tree, rows, false, nodes) != Sum(rows, false, key => InAny(tree, nodes, key));
    }
  }

  // ---------------------------------------------------------------- as it runs

  function PathsOf(links: seq<(CohortId, string)>, c: CohortId): seq<string> {
    if links == [] then []
    else
      var front := PathsOf(links[..|links| - 1], c);
      if links[|links| - 1].0 == c then front + [links[|links| - 1].1] else front
  }

  method BuildTree(nodes: seq<Node>, links: seq<(CohortId, string)>) returns (tree: Tree)
    ensures tree.nodes == nodes
    ensures forall c :: c in tree.cohortPaths <==> PathsOf(links, c) != []
    ensures forall c :: c in tree.cohortPaths ==> tree.cohortPaths[c] == PathsOf(links, c)
  {
    var roots: map<CohortId, seq<string>> := map[];
    for i := 0 to |links|
      invariant forall c :: c in roots <==> PathsOf(links[..i], c) != []
      invariant forall c :: c in roots ==> roots[c] == PathsOf(links[..i], c)
    {
      var (cohort, path) := links[i];
      assert links[..i + 1][..i] == links[..i];
      roots := roots[cohort := (if cohort in roots then roots[cohort] else []) + [path]];
    }
    assert links[..|links|] == links;
    tree := Tree(nodes, roots);
  }

  /** The breakdown is appended row by row from the scope's own grouped rows. */
  method ScopedAnalytics(tree: Tree, records: Records, r: Request)
      returns (reply: Result<(Metrics, seq<BreakdownRow>), Error>)
    ensures reply == match Choose(tree, r)
                     case Err(e) => Err(e)
                     case Ok(c) => Ok((MetricsOf(tree, records, c), Breakdown(tree, records, ScopeOf(c))))
  {
    var choice := Choose(tree, r);
    if choice.Err? { return Err(choice.error); }
    var chosen := choice.value;
    var scope := ScopeOf(chosen);
    var level := ChildLevel(scope);
    var path := if scope.Some? then Some(scope.value.path) else None;
    var rows: seq<BreakdownRow> := [];
    if level.Some? {
      var nodes := Children(tree, scope, level.value);
      for i := 0 to |nodes|
        invariant rows == RowsFor(tree, records, path, nodes[..i])
      {
        assert nodes[..i + 1][..i] == nodes[..i];
        rows := rows + [RowFor(tree, records, path, nodes[i])];
      }
      assert nodes[..|nodes|] == nodes;
    }
    reply := Ok((MetricsOf(tree, records, chosen), rows));
  }
}
