/**
 What scoped analytics accepts and shows, told from the tree and the records alone.
*/
module ScopeOutcomes {
  import opened Common
  import opened TreePaths
  import opened ScopeAnalytics
  import opened ScopeDrillDown

  // ---------------------------------------------------------------- which nodes can be chosen

  /** Some cohort has content at the path or below it. */
  predicate IsStudied(tree: Tree, path: string) {
    exists c :: c in tree.cohortPaths && HasPathBelow(tree.cohortPaths[c], path)
  }

  predicate HasPathBelow(paths: seq<string>, path: string) {
    exists i :: 0 <= i < |paths| && |path| <= |paths[i]| && paths[i][..|path|] == path
  }

  /** A node of the level, at or below the parent, that some cohort studies in. */
  predicate IsOffered(tree: Tree, parent: Option<Node>, level: Level, node: Node) {
    && (level == University ==> node.kind == College)
    && (level == Specialty ==> node.kind == Department)
    && (level == Year ==> node.kind == AcademicYear)
    && (parent.Some? ==> |parent.value.path| <= |node.path| && node.path[..|parent.value.path|] == parent.value.path)
    && IsStudied(tree, node.path)
  }

  lemma {:induction false} StudiedMeans(tree: Tree, path: string)
    ensures CohortsUnder(tree, path) != {} <==> IsStudied(tree, path)
    ensures forall c :: c in CohortsUnder(tree, path) <==> c in tree.cohortPaths && HasPathBelow(tree.cohortPaths[c], path)
  {
    forall c | c in tree.cohortPaths ensures AnyUnder(tree.cohortPaths[c], path) <==> HasPathBelow(tree.cohortPaths[c], path) {
      var paths := tree.cohortPaths[c];
      if i :| 0 <= i < |paths| && path <= paths[i] { assert paths[i][..|path|] == path; }
    }
    if IsStudied(tree, path) {
      var c :| c in tree.cohortPaths && HasPathBelow(tree.cohortPaths[c], path);
      assert c in CohortsUnder(tree, path);
    }
  }

  lemma {:induction false} OfferedMeans(tree: Tree, parent: Option<Node>, level: Level, node: Node)
    ensures IsChild(tree, parent, level, node) <==> IsOffered(tree, parent, level, node)
  {
    StudiedMeans(tree, node.path);
    if parent.Some? && parent.value.path <= node.path { assert node.path[..|parent.value.path|] == parent.value.path; }
  }

  /** The nodes listed for a level are those on offer, in the tree's own order. */
  lemma {:induction false} ListedNodes(nodes: seq<Node>, node: Node, tree: Tree, parent: Option<Node>, level: Level)
    ensures ChildrenIn([], tree, parent, level) == []
    ensures ChildrenIn(nodes + [node], tree, parent, level)
         == ChildrenIn(nodes, tree, parent, level) + if IsOffered(tree, parent, level, node) then [node] else []
  {
    OfferedMeans(tree, parent, level, node);
    if nodes == [] {
      assert nodes + [node] == [node] && [node][1..] == [];
    } else {
      assert (nodes + [node])[1..] == nodes[1..] + [node];
      ListedNodes(nodes[1..], node, tree, parent, level);
    }
  }

  /** The filter is absent and nothing is chosen, or it is the identifier of the chosen node, which is on offer. */
  predicate Answers(tree: Tree, parent: Option<Node>, level: Level, raw: Raw, chosen: Option<Node>) {
    match raw
    case Absent => chosen == None
    case Malformed => false
    case Wanted(id) => chosen.Some? && chosen.value.id == id && chosen.value in tree.nodes && IsOffered(tree, parent, level, chosen.value)
  }

  lemma {:induction false} PickMeans(tree: Tree, parent: Option<Node>, level: Level, raw: Raw, chosen: Option<Node>)
    requires WellFormed(tree)
    ensures Pick(tree, parent, level, raw) == Ok(chosen) <==> Answers(tree, parent, level, raw, chosen)
  {
    if raw.Wanted? {
      PickedNodeIsAChild(tree, parent, level, raw);
      FoundNodeIsListed(Children(tree, parent, level), raw.id);
      if chosen.Some? {
        OfferedMeans(tree, parent, level, chosen.value);
        ChildrenComeFromTheTree(tree.nodes, tree, parent, level, chosen.value);
        if Answers(tree, parent, level, raw, chosen) { ChildCanBePicked(tree, parent, level, chosen.value); }
      }
    }
  }

  /** A request is answered with a choice exactly when no level is asked for without the one above, and each
      filter is answered inside the choice above it. */
  lemma {:induction false} ChoiceOutcome(tree: Tree, r: Request, c: Chosen)
    requires WellFormed(tree)
    ensures Choose(tree, r) == Ok(c) <==>
      && (r.specialty.Absent? || !r.university.Absent?) && (r.year.Absent? || !r.specialty.Absent?)
      && Answers(tree, None, University, r.university, c.university)
      && Answers(tree, c.university, Specialty, r.specialty, c.specialty)
      && Answers(tree, c.specialty, Year, r.year, c.year)
  {
    PickMeans(tree, None, University, r.university, c.university);
    PickMeans(tree, c.university, Specialty, r.specialty, c.specialty);
    PickMeans(tree, c.specialty, Year, r.year, c.year);
    if Choose(tree, r).Ok? {
      var d := Choose(tree, r).value;
      PickMeans(tree, None, University, r.university, d.university);
      PickMeans(tree, d.university, Specialty, r.specialty, d.specialty);
      PickMeans(tree, d.specialty, Year, r.year, d.year);
    }
  }

  // ---------------------------------------------------------------- the figures

  /** One measure of the records whose key satisfies a condition, added up. */
  function Add<K>(rows: seq<Row<K>>, first: bool, keep: K -> bool): int {
    if rows == [] then 0
    else (if !keep(rows[0].key) then 0 else if first then rows[0].first else rows[0].second) + Add(rows[1..], first, keep)
  }

  /** The deepest node chosen. */
  function Deepest(c: Chosen): Option<Node> {
    if c.year.Some? then c.year else if c.specialty.Some? then c.specialty else c.university
  }

  /** Content counts when its path is at or below the scope's. */
  predicate ContentCounts(scope: Option<Node>, key: Path) {
    scope.Some? ==> key.Some? && |scope.value.path| <= |key.value| && key.value[..|scope.value.path|] == scope.value.path
  }

  /** People count when their cohort has content at or below the scope. */
  predicate PersonCounts(tree: Tree, scope: Option<Node>, key: Cohort) {
    scope.Some? ==> key.Some? && key.value in tree.cohortPaths && HasPathBelow(tree.cohortPaths[key.value], scope.value.path)
  }

  lemma {:induction false} AddMeans<K>(rows: seq<Row<K>>, second: bool, wide: K -> bool, keep: K -> bool)
    requires forall key :: keep(key) <==> wide(key)
    ensures Every(Group(Filter(rows, wide)), second) == Add(rows, !second, keep)
  {
    GroupSum(Filter(rows, wide), second, key => true);
    FilterSum(rows, second, wide, key => true, wide);
    SumMeans(rows, second, wide, keep);
  }

  lemma {:induction false} SumMeans<K>(rows: seq<Row<K>>, second: bool, wide: K -> bool, keep: K -> bool)
    requires forall key :: keep(key) <==> wide(key)
    ensures Sum(rows, second, wide) == Add(rows, !second, keep)
  {
    if rows != [] { SumMeans(rows[1..], second, wide, keep); }
  }

  lemma {:induction false} ContentMeans(rows: seq<Row<Path>>, second: bool, scope: Option<Node>)
    requires scope.Some? ==> Rooted(scope.value.path)
    ensures Every(ByPath(rows, if scope.Some? then Some(scope.value.path) else None), second)
         == Add(rows, !second, key => ContentCounts(scope, key))
  {
    var path := if scope.Some? then Some(scope.value.path) else None;
    forall key ensures ContentCounts(scope, key) <==> Selected(path, key) {
      if scope.Some? && key.Some? && scope.value.path <= key.value { assert key.value[..|scope.value.path|] == scope.value.path; }
    }
    AddMeans(rows, second, key => Selected(path, key), key => ContentCounts(scope, key));
  }

  lemma {:induction false} PeopleMean(tree: Tree, rows: seq<Row<Cohort>>, second: bool, scope: Option<Node>)
    requires scope.Some? ==> Rooted(scope.value.path)
    ensures var cohorts := ScopeCohorts(tree, if scope.Some? then Some(scope.value.path) else None);
            Every(ByCohort(rows, cohorts), second) == Add(rows, !second, key => PersonCounts(tree, scope, key))
  {
    var cohorts := ScopeCohorts(tree, if scope.Some? then Some(scope.value.path) else None);
    if scope.Some? { StudiedMeans(tree, scope.value.path); }
    forall key ensures PersonCounts(tree, scope, key) <==> InCohorts(cohorts, key) {}
    AddMeans(rows, second, key => InCohorts(cohorts, key), key => PersonCounts(tree, scope, key));
  }

  /** Every figure of a scope is the sum of the records that count for it: people by cohort, content by path. */
  lemma {:induction false} FiguresAreSums(tree: Tree, records: Records, c: Chosen)
    requires Deepest(c).Some? ==> Rooted(Deepest(c).value.path)
    ensures var m := MetricsOf(tree, records, c); var scope := Deepest(c);
            var people := (key: Cohort) => PersonCounts(tree, scope, key);
            var content := (key: Path) => ContentCounts(scope, key);
            && m.students == Add(records.students, true, people) && m.activeStudents == Add(records.students, false, people)
            && m.paid == Add(records.subscriptions, true, people) && m.trial == Add(records.subscriptions, false, people)
            && m.xp == Add(records.xp, true, people)
            && m.subjects == Add(records.subjects, true, content)
            && m.sheets == Add(records.sheets, true, content)
            && m.questions == Add(records.questions, true, content)
            && m.answers == Add(records.answers, true, content) && m.correct == Add(records.answers, false, content)
            && m.incorrect == m.answers - m.correct
            && m.accuracy == (if m.answers == 0 then NoAnswers else Percentage(m.correct, m.answers))
  {
    var scope := Deepest(c);
    PeopleMean(tree, records.students, false, scope);
    PeopleMean(tree, records.students, true, scope);
    PeopleMean(tree, records.subscriptions, false, scope);
    PeopleMean(tree, records.subscriptions, true, scope);
    PeopleMean(tree, records.xp, false, scope);
    ContentMeans(records.subjects, false, scope);
    ContentMeans(records.sheets, false, scope);
    ContentMeans(records.questions, false, scope);
    ContentMeans(records.answers, false, scope);
    ContentMeans(records.answers, true, scope);
  }

  /** The three counts: one for a level that is chosen, and otherwise all nodes on offer below those above. */
  lemma {:induction false} CountsOfNodes(tree: Tree, records: Records, c: Chosen)
    ensures var m := MetricsOf(tree, records, c);
            var universities := if c.university.Some? then [c.university.value] else Children(tree, None, University);
            var specialties := if c.specialty.Some? then [c.specialty.value] else AllChildren(tree, universities, Specialty);
            var years := if c.year.Some? then [c.year.value] else AllChildren(tree, specialties, Year);
            m.universities == |universities| && m.specialties == |specialties| && m.years == |years|
  {
  }

  /** Listed parent by parent. */
  lemma {:induction false} AllChildrenAppended(tree: Tree, parents: seq<Node>, parent: Node, level: Level)
    ensures AllChildren(tree, parents + [parent], level) == AllChildren(tree, parents, level) + Children(tree, Some(parent), level)
  {
    if parents == [] {
      assert parents + [parent] == [parent] && [parent][1..] == [];
    } else {
      assert (parents + [parent])[1..] == parents[1..] + [parent];
      AllChildrenAppended(tree, parents[1..], parent, level);
    }
  }

  // ---------------------------------------------------------------- the breakdown

  /** The rows stand for the nodes on offer one level down, in order, and there are none below a year. Each
      shows its node's identifier and title and the figures of the scope in which that node is chosen. */
  lemma {:induction false} RowsShowTheirScopes(tree: Tree, records: Records, r: Request, i: nat)
    requires WellFormed(tree) && Choose(tree, r).Ok?
    ensures var c := Choose(tree, r).value; var rows := Breakdown(tree, records, Deepest(c));
            && (c.year.Some? ==> rows == [])
            && (c.year.None? ==>
                  var nodes := if c.specialty.Some? then Children(tree, c.specialty, Year)
                               else if c.university.Some? then Children(tree, c.university, Specialty)
                               else Children(tree, None, University);
                  && |rows| == |nodes|
                  && (i < |nodes| ==>
                        var chosen := if c.specialty.Some? then c.(year := Some(nodes[i]))
                                      else if c.university.Some? then c.(specialty := Some(nodes[i]))
                                      else c.(university := Some(nodes[i]));
                        var m := MetricsOf(tree, records, chosen);
                        && rows[i].id == nodes[i].id && rows[i].title == nodes[i].title
                        && rows[i].students == m.students && rows[i].subjects == m.subjects && rows[i].sheets == m.sheets
                        && rows[i].questions == m.questions && rows[i].answers == m.answers && rows[i].accuracy == m.accuracy))
  {
    var c := Choose(tree, r).value;
    ChosenDownTo(tree, r);
    var scope := ScopeOf(c);
    assert scope == Deepest(c);
    if c.year.None? {
      var level := ChildLevel(scope).value;
      var nodes := Children(tree, scope, level);
      RowCount(tree, records, if scope.Some? then Some(scope.value.path) else None, nodes);
      if i < |nodes| {
        DrillDown(tree, records, r, i);
        NarrowedRequest(tree, r, nodes[i]);
      }
    }
  }
}
