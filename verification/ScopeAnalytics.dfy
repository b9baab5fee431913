/**
 Platform analytics scoped by university, specialty and year. Every figure of a scope is one grouped
 query, and the breakdown into child scopes adds up rows of the same grouped queries.
*/
module ScopeAnalytics {
  import opened Common
  import opened TreePaths

  type CohortId = nat

  datatype Kind = College | Department | AcademicYear

  datatype Level = University | Specialty | Year

  datatype Node = Node(id: NodeId, kind: Kind, title: string, path: string)

  /** `nodes` holds each node once, by position, title and identifier: filtering keeps that order.
      A cohort is listed with the paths of the nodes its content hangs from. */
  datatype Tree = Tree(nodes: seq<Node>, cohortPaths: map<CohortId, seq<string>>)

  /** A grouping key with two measures: a stored record's own, or a group's sums. */
  datatype Row<K> = Row(key: K, first: int, second: int)

  type Path = Option<string>
  type Cohort = Option<CohortId>

  /** Records as counted: students (1, active?), subscriptions (paid?, trial?), XP (points, 0),
      subjects, sheets and questions (1, 0), answers (1, correct?). */
  datatype Records = Records(
    students: seq<Row<Cohort>>,
    subscriptions: seq<Row<Cohort>>,
    xp: seq<Row<Cohort>>,
    subjects: seq<Row<Path>>,
    sheets: seq<Row<Path>>,
    questions: seq<Row<Path>>,
    answers: seq<Row<Path>>)

  // ---------------------------------------------------------------- grouped queries

  function Filter<K>(rows: seq<Row<K>>, keep: K -> bool): seq<Row<K>> {
    if rows == [] then []
    else if keep(rows[0].key) then [rows[0]] + Filter(rows[1..], keep)
    else Filter(rows[1..], keep)
  }

  function Merge<K(==)>(groups: seq<Row<K>>, row: Row<K>): seq<Row<K>> {
    if groups == [] then [row]
    else if groups[0].key == row.key
    then [Row(row.key, groups[0].first + row.first, groups[0].second + row.second)] + groups[1..]
    else [groups[0]] + Merge(groups[1..], row)
  }

  /** One row per key, with the sums of its records. */
  function Group<K(==)>(rows: seq<Row<K>>): seq<Row<K>> {
    if rows == [] then [] else Merge(Group(rows[1..]), rows[0])
  }

  function Sum<K>(rows: seq<Row<K>>, second: bool, keep: K -> bool): int {
    if rows == [] then 0
    else (if !keep(rows[0].key) then 0 else if second then rows[0].second else rows[0].first) + Sum(rows[1..], second, keep)
  }

  // ---------------------------------------------------------------- scopes

  function KindOf(level: Level): Kind {
    match level
    case University => College
    case Specialty => Department
    case Year => AcademicYear
  }

  predicate AnyUnder(paths: seq<string>, prefix: string) {
    exists i :: 0 <= i < |paths| && prefix <= paths[i]
  }

  function CohortsUnder(tree: Tree, path: string): set<CohortId> {
    set c | c in tree.cohortPaths && AnyUnder(tree.cohortPaths[c], path)
  }

  /** Below the parent, of the wanted kind, and studied in by some cohort. */
  predicate IsChild(tree: Tree, parent: Option<Node>, level: Level, node: Node) {
    && node.kind == KindOf(level)
    && (parent.Some? ==> parent.value.path <= node.path)
    && CohortsUnder(tree, node.path) != {}
  }

  function ChildrenIn(nodes: seq<Node>, tree: Tree, parent: Option<Node>, level: Level): seq<Node> {
    if nodes == [] then []
    else
      var rest := ChildrenIn(nodes[1..], tree, parent, level);
      if IsChild(tree, parent, level, nodes[0]) then [nodes[0]] + rest else rest
  }

  function Children(tree: Tree, parent: Option<Node>, level: Level): seq<Node> {
    ChildrenIn(tree.nodes, tree, parent, level)
  }

  function AllChildren(tree: Tree, parents: seq<Node>, level: Level): seq<Node> {
    if parents == [] then [] else Children(tree, Some(parents[0]), level) + AllChildren(tree, parents[1..], level)
  }

  /** A filter as it arrives: absent, not an identifier, or one. */
  datatype Raw = Absent | Malformed | Wanted(id: NodeId)

  datatype Request = Request(university: Raw, specialty: Raw, year: Raw)

  datatype Error = ScopeRejected

  function FindNode(nodes: seq<Node>, id: NodeId): Option<Node> {
    if nodes == [] then None else if nodes[0].id == id then Some(nodes[0]) else FindNode(nodes[1..], id)
  }

  function Pick(tree: Tree, parent: Option<Node>, level: Level, raw: Raw): Result<Option<Node>, Error> {
    match raw
    case Absent => Ok(None)
    case Malformed => Err(ScopeRejected)
    case Wanted(id) =>
      match FindNode(Children(tree, parent, level), id)
      case None => Err(ScopeRejected)
      case Some(node) => Ok(Some(node))
  }

  datatype Chosen = Chosen(university: Option<Node>, specialty: Option<Node>, year: Option<Node>)

  function Choose(tree: Tree, r: Request): Result<Chosen, Error> {
    if r.specialty != Absent && r.university == Absent then Err(ScopeRejected)
    else if r.year != Absent && r.specialty == Absent then Err(ScopeRejected)
    else
      match Pick(tree, None, University, r.university)
      case Err(e) => Err(e)
      case Ok(university) =>
        match Pick(tree, university, Specialty, r.specialty)
        case Err(e) => Err(e)
        case Ok(specialty) =>
          match Pick(tree, specialty, Year, r.year)
          case Err(e) => Err(e)
          case Ok(year) => Ok(Chosen(university, specialty, year))
  }

  function ScopeOf(c: Chosen): Option<Node> {
    if c.year.Some? then c.year else if c.specialty.Some? then c.specialty else c.university
  }

  function ChildLevel(scope: Option<Node>): Option<Level> {
    match scope
    case None => Some(University)
    case Some(node) =>
      match node.kind
      case College => Some(Specialty)
      case Department => Some(Year)
      case AcademicYear => None
  }

  // ---------------------------------------------------------------- figures

  /** The query's own filter. A path that is missing, or empty, selects everything. */
  predicate Selected(path: Option<string>, key: Path) {
    path.None? || path.value == "" || (key.Some? && path.value <= key.value)
  }

  /** The breakdown's filter, on the key's text. */
  predicate Under(prefix: string, key: Path) {
    prefix <= match key case None => "None" case Some(p) => p
  }

  predicate InCohorts(cohorts: Option<set<CohortId>>, key: Cohort) {
    cohorts.None? || (key.Some? && key.value in cohorts.value)
  }

  function ScopeCohorts(tree: Tree, path: Option<string>): Option<set<CohortId>> {
    if path.None? || path.value == "" then None else Some(CohortsUnder(tree, path.value))
  }

  function ByPath(rows: seq<Row<Path>>, path: Option<string>): seq<Row<Path>> {
    Group(Filter(rows, key => Selected(path, key)))
  }

  function ByCohort(rows: seq<Row<Cohort>>, cohorts: Option<set<CohortId>>): seq<Row<Cohort>> {
    Group(Filter(rows, key => InCohorts(cohorts, key)))
  }

  function Every<K>(rows: seq<Row<K>>, second: bool): int {
    Sum(rows, second, key => true)
  }

  /** The accuracy is the two counts, of which the program shows the rounded percentage. */
  datatype Accuracy = NoAnswers | Percentage(correct: int, total: int)

  function AccuracyOf(correct: int, total: int): Accuracy {
    if total == 0 then NoAnswers else Percentage(correct, total)
  }

  datatype Metrics = Metrics(
    students: int, activeStudents: int,
    universities: nat, specialties: nat, years: nat,
    subjects: int, sheets: int, questions: int,
    answers: int, correct: int, incorrect: int, accuracy: Accuracy,
    xp: int, paid: int, trial: int)

  function MetricsOf(tree: Tree, records: Records, chosen: Chosen): Metrics {
    var scope := ScopeOf(chosen);
    var path := if scope.Some? then Some(scope.value.path) else None;
    var cohorts := ScopeCohorts(tree, path);
    var students := ByCohort(records.students, cohorts);
    var subscriptions := ByCohort(records.subscriptions, cohorts);
    var answers := ByPath(records.answers, path);
    var universities := if chosen.university.Some? then [chosen.university.value] else Children(tree, None, University);
    var specialties := if chosen.specialty.Some? then [chosen.specialty.value] else AllChildren(tree, universities, Specialty);
    var years := if chosen.year.Some? then [chosen.year.value] else AllChildren(tree, specialties, Year);
    Metrics(
      Every(students, false), Every(students, true),
      |universities|, |specialties|, |years|,
      Every(ByPath(records.subjects, path), false),
      Every(ByPath(records.sheets, path), false),
      Every(ByPath(records.questions, path), false),
      Every(answers, false), Every(answers, true), Every(answers, false) - Every(answers, true),
      AccuracyOf(Every(answers, true), Every(answers, false)),
      Every(ByCohort(records.xp, cohorts), false),
      Every(subscriptions, false), Every(subscriptions, true))
  }

  datatype BreakdownRow = BreakdownRow(
    id: NodeId, title: string, students: int, subjects: int, sheets: int, questions: int, answers: int, accuracy: Accuracy)

  /** A child's row, added up from the parent scope's groups. */
  function RowFor(tree: Tree, records: Records, path: Option<string>, node: Node): BreakdownRow {
    var under := (key: Path) => Under(node.path, key);
    var cohorts := CohortsUnder(tree, node.path);
    var mine := (key: Cohort) => InCohorts(Some(cohorts), key);
    var answers := ByPath(records.answers, path);
    BreakdownRow(
      node.id, node.title,
      Sum(ByCohort(records.students, ScopeCohorts(tree, path)), false, mine),
      Sum(ByPath(records.subjects, path), false, under),
      Sum(ByPath(records.sheets, path), false, under),
      Sum(ByPath(records.questions, path), false, under),
      Sum(answers, false, under),
      AccuracyOf(Sum(answers, true, under), Sum(answers, false, under)))
  }

  function RowsFor(tree: Tree, records: Records, path: Option<string>, nodes: seq<Node>): seq<BreakdownRow> {
    if nodes == [] then []
    else RowsFor(tree, records, path, nodes[..|nodes| - 1]) + [RowFor(tree, records, path, nodes[|nodes| - 1])]
  }

  function Breakdown(tree: Tree, records: Records, scope: Option<Node>): seq<BreakdownRow> {
    match ChildLevel(scope)
    case None => []
    case Some(level) =>
      RowsFor(tree, records, if scope.Some? then Some(scope.value.path) else None, Children(tree, scope, level))
  }

  // ---------------------------------------------------------------- grouping loses nothing

  lemma {:induction false} MergeSum<K>(groups: seq<Row<K>>, row: Row<K>, second: bool, keep: K -> bool)
    ensures Sum(Merge(groups, row), second, keep) == Sum([row], second, keep) + Sum(groups, second, keep)
  {
    if groups != [] && groups[0].key != row.key { MergeSum(groups[1..], row, second, keep); }
  }

  /** Adding up groups chosen by key is adding up the records with those keys. */
  lemma {:induction false} GroupSum<K>(rows: seq<Row<K>>, second: bool, keep: K -> bool)
    ensures Sum(Group(rows), second, keep) == Sum(rows, second, keep)
  {
    if rows != [] {
      MergeSum(Group(rows[1..]), rows[0], second, keep);
      GroupSum(rows[1..], second, keep);
    }
  }

  predicate HasKey<K(==)>(groups: seq<Row<K>>, key: K) {
    exists i :: 0 <= i < |groups| && groups[i].key == key
  }

  predicate KeysDiffer<K(==)>(groups: seq<Row<K>>) {
    forall i, j :: 0 <= i < j < |groups| ==> groups[i].key != groups[j].key
  }

  lemma {:induction false} MergeKeys<K>(groups: seq<Row<K>>, row: Row<K>)
    requires KeysDiffer(groups)
    ensures KeysDiffer(Merge(groups, row))
    ensures forall key :: HasKey(Merge(groups, row), key) <==> HasKey(groups, key) || key == row.key
  {
    var merged := Merge(groups, row);
    if groups == [] {
      assert merged[0].key == row.key;
    } else if groups[0].key == row.key {
      assert forall i :: 0 <= i < |groups| ==> merged[i].key == groups[i].key;
    } else {
      var rest := groups[1..];
      MergeKeys(rest, row);
      assert !HasKey(rest, groups[0].key);
      forall key ensures HasKey(merged, key) <==> key == groups[0].key || HasKey(Merge(rest, row), key) {
        HasKeyCons(groups[0], Merge(rest, row), key);
      }
      forall key ensures HasKey(groups, key) <==> key == groups[0].key || HasKey(rest, key) {
        assert groups == [groups[0]] + rest;
        HasKeyCons(groups[0], rest, key);
      }
      assert !HasKey(Merge(rest, row), groups[0].key);
    }
  }

  lemma HasKeyCons<K>(first: Row<K>, rest: seq<Row<K>>, key: K)
    ensures HasKey([first] + rest, key) <==> key == first.key || HasKey(rest, key)
  {
    var all := [first] + rest;
    assert all[0] == first;
    if HasKey(rest, key) {
      var i :| 0 <= i < |rest| && rest[i].key == key;
      assert all[i + 1].key == key;
    }
  }

  /** A grouped query answers with each key of its records exactly once. */
  lemma {:induction false} GroupKeys<K>(rows: seq<Row<K>>)
    ensures KeysDiffer(Group(rows))
    ensures forall key :: HasKey(Group(rows), key) <==> HasKey(rows, key)
  {
    if rows != [] {
      GroupKeys(rows[1..]);
      MergeKeys(Group(rows[1..]), rows[0]);
      forall key ensures HasKey(rows, key) <==> key == rows[0].key || HasKey(rows[1..], key) {
        assert rows == [rows[0]] + rows[1..];
        HasKeyCons(rows[0], rows[1..], key);
      }
    }
  }

  lemma {:induction false} FilterSum<K>(rows: seq<Row<K>>, second: bool, outer: K -> bool, inner: K -> bool, both: K -> bool)
    requires forall i :: 0 <= i < |rows| ==> (both(rows[i].key) <==> outer(rows[i].key) && inner(rows[i].key))
    ensures Sum(Filter(rows, outer), second, inner) == Sum(rows, second, both)
  {
    if rows != [] { FilterSum(rows[1..], second, outer, inner, both); }
  }

  /** Groups of a wide selection, added up over a narrower one, are what the narrower query finds. */
  lemma {:induction false} NarrowerQuery<K>(rows: seq<Row<K>>, second: bool, wide: K -> bool, narrow: K -> bool, part: K -> bool)
    requires forall key :: narrow(key) <==> wide(key) && part(key)
    ensures Sum(Group(Filter(rows, wide)), second, part) == Every(Group(Filter(rows, narrow)), second)
  {
    GroupSum(Filter(rows, wide), second, part);
    FilterSum(rows, second, wide, part, narrow);
    GroupSum(Filter(rows, narrow), second, key => true);
    FilterSum(rows, second, narrow, key => true, narrow);
  }

  // ---------------------------------------------------------------- drilling down

  lemma {:induction false} UnderIsSelected(parent: Option<string>, path: string, key: Path)
    requires Rooted(path) && (parent.Some? ==> parent.value <= path)
    ensures Selected(Some(path), key) <==> Selected(parent, key) && Under(path, key)
  {
    var none := "None";
    assert none[0] == 'N';
  }

  lemma {:induction false} MineIsSelected(tree: Tree, parent: Option<string>, path: string, key: Cohort)
    requires Rooted(path) && (parent.Some? ==> parent.value <= path)
    ensures InCohorts(ScopeCohorts(tree, Some(path)), key)
            <==> InCohorts(ScopeCohorts(tree, parent), key) && InCohorts(Some(CohortsUnder(tree, path)), key)
  {
    if parent.Some? {
      forall c | c in CohortsUnder(tree, path) ensures c in CohortsUnder(tree, parent.value) {
        var paths := tree.cohortPaths[c];
        var i :| 0 <= i < |paths| && path <= paths[i];
        assert parent.value <= paths[i];
      }
    }
  }

  lemma {:induction false} PathRow(rows: seq<Row<Path>>, second: bool, parent: Option<string>, path: string)
    requires Rooted(path) && (parent.Some? ==> parent.value <= path)
    ensures Sum(ByPath(rows, parent), second, key => Under(path, key)) == Every(ByPath(rows, Some(path)), second)
  {
    forall key ensures Selected(Some(path), key) <==> Selected(parent, key) && Under(path, key) {
      UnderIsSelected(parent, path, key);
    }
    NarrowerQuery(rows, second, key => Selected(parent, key), key => Selected(Some(path), key), key => Under(path, key));
  }

  lemma {:induction false} CohortRow(tree: Tree, rows: seq<Row<Cohort>>, second: bool, parent: Option<string>, path: string)
    requires Rooted(path) && (parent.Some? ==> parent.value <= path)
    ensures var cohorts := CohortsUnder(tree, path);
            Sum(ByCohort(rows, ScopeCohorts(tree, parent)), second, key => InCohorts(Some(cohorts), key))
            == Every(ByCohort(rows, ScopeCohorts(tree, Some(path))), second)
  {
    var cohorts := CohortsUnder(tree, path);
    var outer, inner := ScopeCohorts(tree, parent), ScopeCohorts(tree, Some(path));
    forall key ensures InCohorts(inner, key) <==> InCohorts(outer, key) && InCohorts(Some(cohorts), key) {
      MineIsSelected(tree, parent, path, key);
    }
    NarrowerQuery(rows, second, key => InCohorts(outer, key), key => InCohorts(inner, key), key => InCohorts(Some(cohorts), key));
  }

  /** What a row shows, read off the metrics of the scope it stands for. */
  function RowFromMetrics(node: Node, m: Metrics): BreakdownRow {
    BreakdownRow(node.id, node.title, m.students, m.subjects, m.sheets, m.questions, m.answers, m.accuracy)
  }

  lemma {:induction false} RowIsTheScopesMetrics(tree: Tree, records: Records, parent: Option<string>, chosen: Chosen)
    requires var scope := ScopeOf(chosen);
             scope.Some? && Rooted(scope.value.path) && (parent.Some? ==> parent.value <= scope.value.path)
    ensures RowFor(tree, records, parent, ScopeOf(chosen).value)
         == RowFromMetrics(ScopeOf(chosen).value, MetricsOf(tree, records, chosen))
  {
    var path := ScopeOf(chosen).value.path;
    CohortRow(tree, records.students, false, parent, path);
    PathRow(records.subjects, false, parent, path);
    PathRow(records.sheets, false, parent, path);
    PathRow(records.questions, false, parent, path);
    PathRow(records.answers, false, parent, path);
    PathRow(records.answers, true, parent, path);
  }
}
