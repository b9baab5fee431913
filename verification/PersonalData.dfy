/**
 The personal-data boundary: which models are swept up for export and erasure, and by which
 query. Eligible models owned by the user come first; then, round by round, eligible models
 with a foreign key into what has been found.
*/
module PersonalData {
  import opened Common

  type Label = string

  const USER: Label := "accounts.User"

  const PERSONAL_APPS := {"focus", "progress", "review", "study_plans", "class_schedule", "biweekly", "xp",
                          "streaks", "achievements", "rankings", "offline"}

  const PERSONAL_MODELS := {"content.PersonalSheet", "content.CatalogWorkspaceSnapshot", "content.PracticeSlideProgress",
                            "questions.QuestionAnswer", "assessments.Attempt", "assessments.AttemptQuestion",
                            "assessments.AttemptAnswer", "assessments.AttemptResult",
                            "assessments.AttemptSubmissionReceipt", "assessments.AttemptActivity"}

  const OWNER_FIELDS := {"user", "owner", "author", "requested_by"}

  datatype Field = Field(name: string, target: Option<Label>)

  datatype Model = Model(app: string, fields: seq<Field>)

  /** Which rows of a model are personal: those naming the user, or those linked to personal parents. */
  datatype Query = Owned(fields: set<string>) | Children(links: set<(string, Label)>)

  type Registry = map<Label, Model>
  type Queries = map<Label, Query>

  function Eligible(registry: Registry): Registry {
    map l | l in registry && (registry[l].app in PERSONAL_APPS || l in PERSONAL_MODELS) :: registry[l]
  }

  function OwnFields(m: Model): set<string> {
    set f | f in m.fields && f.target == Some(USER) && f.name in OWNER_FIELDS :: f.name
  }

  function LinksInto(m: Model, labels: set<Label>): set<(string, Label)> {
    set f | f in m.fields && f.target.Some? && f.target.value in labels :: (f.name, f.target.value)
  }

  predicate PointsInto(m: Model, labels: set<Label>) {
    exists f :: f in m.fields && f.target.Some? && f.target.value in labels
  }

  lemma LinksExistIff(m: Model, labels: set<Label>)
    ensures LinksInto(m, labels) != {} <==> PointsInto(m, labels)
  {
    if PointsInto(m, labels) {
      var f :| f in m.fields && f.target.Some? && f.target.value in labels;
      assert (f.name, f.target.value) in LinksInto(m, labels);
    }
    if LinksInto(m, labels) != {} {
      var x :| x in LinksInto(m, labels);
    }
  }

  // ---------------------------------------------------------------- the rounds

  function Direct(models: Registry): Queries {
    map l | l in models && OwnFields(models[l]) != {} :: Owned(OwnFields(models[l]))
  }

  function Additions(models: Registry, found: Queries): Queries {
    map l | l in models && l !in found && LinksInto(models[l], found.Keys) != {} :: Children(LinksInto(models[l], found.Keys))
  }

  function Rounds(models: Registry, k: nat): Queries {
    if k == 0 then Direct(models)
    else
      var found := Rounds(models, k - 1);
      found + Additions(models, found)
  }

  /** A set of models that holds the owned ones and every model with a foreign key into the set. */
  ghost predicate Closed(models: Registry, labels: set<Label>) {
    && (forall l :: l in models && OwnFields(models[l]) != {} ==> l in labels)
    && (forall l :: l in models && PointsInto(models[l], labels) ==> l in labels)
  }

  lemma {:induction false} RoundsStayEligible(models: Registry, k: nat)
    ensures Rounds(models, k).Keys <= models.Keys
    ensures Direct(models).Keys <= Rounds(models, k).Keys
  {
    if k > 0 { RoundsStayEligible(models, k - 1); }
  }

  /** Nothing is found that any closed set could do without. */
  lemma {:induction false} RoundsStayWithinClosed(models: Registry, k: nat, labels: set<Label>)
    requires Closed(models, labels)
    ensures Rounds(models, k).Keys <= labels
  {
    if k > 0 {
      RoundsStayWithinClosed(models, k - 1, labels);
      var found := Rounds(models, k - 1);
      forall l | l in Additions(models, found) ensures l in labels {
        LinksExistIff(models[l], found.Keys);
        var f :| f in models[l].fields && f.target.Some? && f.target.value in found.Keys;
        assert PointsInto(models[l], labels);
      }
    }
  }

  lemma {:induction false} SubsetSize(a: set<Label>, b: set<Label>)
    requires a <= b
    ensures |a| <= |b|
  {
    if a != {} {
      var x :| x in a;
      SubsetSize(a - {x}, b - {x});
    }
  }

  function Reach(models: Registry, labels: set<Label>): set<Label> {
    labels + set l | l in models && PointsInto(models[l], labels)
  }

  lemma RoundReaches(models: Registry, found: Queries)
    ensures (found + Additions(models, found)).Keys == Reach(models, found.Keys)
    ensures Additions(models, found) == map[] <==> Reach(models, found.Keys) == found.Keys
  {
    forall l | l in models ensures LinksInto(models[l], found.Keys) != {} <==> PointsInto(models[l], found.Keys) {
      LinksExistIff(models[l], found.Keys);
    }
    forall l ensures l in Additions(models, found) <==> l in Reach(models, found.Keys) && l !in found {
    }
    if Reach(models, found.Keys) == found.Keys {
      assert Additions(models, found).Keys == {};
    }
  }

  ghost function ReachIn(models: Registry, k: nat): set<Label>
    decreases k
  {
    if k == 0 then Direct(models).Keys else Reach(models, ReachIn(models, k - 1))
  }

  lemma {:induction false} RoundsReach(models: Registry, k: nat)
    ensures Rounds(models, k).Keys == ReachIn(models, k)
  {
    if k > 0 {
      RoundsReach(models, k - 1);
      RoundReaches(models, Rounds(models, k - 1));
    }
  }

  /** Each round either finds nothing new, or every round so far has found at least one model. */
  lemma {:induction false} ReachGrowsOrStops(models: Registry, k: nat)
    ensures Reach(models, ReachIn(models, k)) == ReachIn(models, k) || |ReachIn(models, k)| >= k
    decreases k
  {
    if k > 0 {
      ReachGrowsOrStops(models, k - 1);
      var before, after := ReachIn(models, k - 1), ReachIn(models, k);
      if after != before {
        var l :| l in after && l !in before;
        SubsetSize(before + {l}, after);
      }
    }
  }

  lemma EnoughReach(models: Registry, n: nat)
    requires n == |models.Keys| && ReachIn(models, n) <= models.Keys
    ensures Reach(models, ReachIn(models, n)) == ReachIn(models, n)
  {
    ReachGrowsOrStops(models, n);
    var found := ReachIn(models, n);
    if l :| l in Reach(models, found) && l !in found {
      SubsetSize(found + {l}, models.Keys);
    }
  }

  /** As many rounds as there are models always reach the end. */
  lemma {:induction false} EnoughRounds(models: Registry)
    ensures Additions(models, Rounds(models, |models|)) == map[]
  {
    RoundsReach(models, |models|);
    RoundsStayEligible(models, |models|);
    RoundReaches(models, Rounds(models, |models|));
    EnoughReach(models, |models|);
  }

  lemma {:induction false} StoppedMeansClosed(models: Registry, k: nat)
    requires Additions(models, Rounds(models, k)) == map[]
    ensures Closed(models, Rounds(models, k).Keys)
  {
    RoundsStayEligible(models, k);
    var found := Rounds(models, k);
    forall l | l in models && PointsInto(models[l], found.Keys) ensures l in found {
      LinksExistIff(models[l], found.Keys);
      assert l !in Additions(models, found);
    }
  }

  lemma {:induction false} RoundsAreStable(models: Registry, k: nat, n: nat)
    requires k <= n && Additions(models, Rounds(models, k)) == map[]
    ensures Rounds(models, n) == Rounds(models, k)
  {
    if n > k {
      RoundsAreStable(models, k, n - 1);
      assert Rounds(models, n - 1) + map[] == Rounds(models, n - 1);
    }
  }

  /** Main result: the models swept up are exactly the least closed set of eligible models. */
  lemma {:induction false} BoundaryIsTheLeastClosedSet(models: Registry)
    ensures Closed(models, Rounds(models, |models|).Keys)
    ensures Rounds(models, |models|).Keys <= models.Keys
    ensures forall labels: set<Label> :: Closed(models, labels) ==> Rounds(models, |models|).Keys <= labels
  {
    EnoughRounds(models);
    StoppedMeansClosed(models, |models|);
    RoundsStayEligible(models, |models|);
    forall labels: set<Label> | Closed(models, labels) ensures Rounds(models, |models|).Keys <= labels {
      RoundsStayWithinClosed(models, |models|, labels);
    }
  }

  // ---------------------------------------------------------------- the rows behind the queries

  type RowId = nat

  datatype Ref = ToUser(user: nat) | ToRow(row: RowId)

  datatype Row = Row(model: Label, refs: map<string, Ref>)

  type Database = map<RowId, Row>

  predicate NamesUser(row: Row, fields: set<string>, user: nat) {
    exists f :: f in fields && f in row.refs && row.refs[f] == ToUser(user)
  }

  /** What the query of a row's model, as found within `k` rounds, selects. A child's parents are
      rows of models found in an earlier round, so the nesting of queries is finite. */
  ghost predicate Selects(models: Registry, db: Database, user: nat, k: nat, x: RowId) {
    x in db && db[x].model in Rounds(models, k) &&
    if k > 0 && db[x].model in Rounds(models, k - 1) then Selects(models, db, user, k - 1, x)
    else
      match Rounds(models, k)[db[x].model]
      case Owned(fields) => NamesUser(db[x], fields, user)
      case Children(links) =>
        k > 0 && exists f, y :: f in db[x].refs && db[x].refs[f] == ToRow(y) && y in db
                                && (f, db[y].model) in links && Selects(models, db, user, k - 1, y)
  }

  /** The row names the user in an ownership field, or leads to such a row in `n` foreign keys. */
  ghost predicate BelongsTo(db: Database, user: nat, x: RowId, n: nat)
    decreases n
  {
    x in db &&
    if n == 0 then NamesUser(db[x], OWNER_FIELDS, user)
    else exists f, y :: f in db[x].refs && db[x].refs[f] == ToRow(y) && BelongsTo(db, user, y, n - 1)
  }

  lemma {:induction false} QueryShapes(models: Registry, k: nat, l: Label)
    requires l in Rounds(models, k)
    ensures Rounds(models, k)[l].Owned? <==> l in Direct(models)
    ensures l in Direct(models) ==> l in models && Rounds(models, k)[l] == Owned(OwnFields(models[l]))
    ensures k == 0 ==> l in Direct(models)
  {
    if k > 0 {
      RoundsStayEligible(models, k - 1);
      if l in Rounds(models, k - 1) { QueryShapes(models, k - 1, l); }
    }
  }

  lemma LinkExtends(db: Database, user: nat, x: RowId, f: string, y: RowId, n: nat)
    requires x in db && f in db[x].refs && db[x].refs[f] == ToRow(y) && BelongsTo(db, user, y, n)
    ensures BelongsTo(db, user, x, n + 1)
  {
  }

  /** Nothing of anyone else's is swept up by accident: every selected row names the user itself, or
      leads through foreign keys to a row that does. */
  lemma {:induction false} SelectedRowsBelongToTheUser(models: Registry, db: Database, user: nat, k: nat, x: RowId)
    requires Selects(models, db, user, k, x)
    ensures exists n: nat :: n <= k && BelongsTo(db, user, x, n)
  {
    var l := db[x].model;
    QueryShapes(models, k, l);
    if k > 0 && l in Rounds(models, k - 1) {
      SelectedRowsBelongToTheUser(models, db, user, k - 1, x);
    } else if Rounds(models, k)[l].Owned? {
      var fields := Rounds(models, k)[l].fields;
      assert fields <= OWNER_FIELDS;
      assert BelongsTo(db, user, x, 0);
    } else {
      var links := Rounds(models, k)[l].links;
      var f, y :| f in db[x].refs && db[x].refs[f] == ToRow(y) && y in db
                  && (f, db[y].model) in links && Selects(models, db, user, k - 1, y);
      SelectedRowsBelongToTheUser(models, db, user, k - 1, y);
      var m: nat :| m <= k - 1 && BelongsTo(db, user, y, m);
      LinkExtends(db, user, x, f, y, m);
    }
  }

  /** Rows of a directly owned model are selected by their ownership fields alone. A row that only
      hangs off a personal parent is left out, although it leads to the user. */
  lemma {:induction false} OwnedModelsSelectByOwnershipOnly(models: Registry, db: Database, user: nat, k: nat, x: RowId)
    requires x in db && db[x].model in Direct(models)
    ensures db[x].model in models
    ensures Selects(models, db, user, k, x) <==> NamesUser(db[x], OwnFields(models[db[x].model]), user)
  {
    RoundsStayEligible(models, k);
    QueryShapes(models, k, db[x].model);
    if k > 0 {
      RoundsStayEligible(models, k - 1);
      OwnedModelsSelectByOwnershipOnly(models, db, user, k - 1, x);
    }
  }

  // ---------------------------------------------------------------- exactly which rows are selected

  /** The round that finds a model; its query is fixed then. */
  ghost predicate FoundIn(models: Registry, l: Label, round: nat) {
    l in Rounds(models, round) && (round > 0 ==> l !in Rounds(models, round - 1))
  }

  ghost predicate FoundBefore(models: Registry, parent: Label, child: Label) {
    exists i: nat, j: nat :: i < j && FoundIn(models, parent, i) && FoundIn(models, child, j)
  }

  /** A foreign key of the row's model that leads to the parent. */
  predicate Links(models: Registry, db: Database, x: RowId, y: RowId) {
    x in db && y in db && db[x].model in models
    && exists f :: f in models[db[x].model].fields && f.target == Some(db[y].model)
                   && f.name in db[x].refs && db[x].refs[f.name] == ToRow(y)
  }

  ghost predicate IsOwned(models: Registry, db: Database, user: nat, x: RowId) {
    x in db && db[x].model in models && OwnFields(models[db[x].model]) != {}
    && NamesUser(db[x], OwnFields(models[db[x].model]), user)
  }

  /** From `x` to a row that names the user, each parent's model found before its child's. */
  ghost predicate IsChain(models: Registry, db: Database, user: nat, rows: seq<RowId>)
    decreases |rows|
  {
    rows != [] &&
    if |rows| == 1 then IsOwned(models, db, user, rows[0])
    else Links(models, db, rows[0], rows[1]) && FoundBefore(models, db[rows[1]].model, db[rows[0]].model)
         && IsChain(models, db, user, rows[1..])
  }

  lemma {:induction false} RoundsOnlyAdd(models: Registry, j: nat, k: nat)
    requires j <= k
    ensures forall l :: l in Rounds(models, j) ==> l in Rounds(models, k) && Rounds(models, k)[l] == Rounds(models, j)[l]
  {
    if j < k { RoundsOnlyAdd(models, j, k - 1); }
  }

  lemma {:induction false} FoundOnce(models: Registry, l: Label, i: nat, j: nat)
    requires FoundIn(models, l, i) && FoundIn(models, l, j)
    ensures i == j
  {
    if i < j { RoundsOnlyAdd(models, i, j - 1); }
    if j < i { RoundsOnlyAdd(models, j, i - 1); }
  }

  lemma {:induction false} SomeRoundFinds(models: Registry, l: Label, k: nat) returns (j: nat)
    requires l in Rounds(models, k)
    ensures j <= k && FoundIn(models, l, j)
  {
    if k > 0 && l in Rounds(models, k - 1) { j := SomeRoundFinds(models, l, k - 1); } else { j := k; }
  }

  /** A model's query never changes after the round that found it. */
  lemma {:induction false} SelectsSinceFound(models: Registry, db: Database, user: nat, j: nat, k: nat, x: RowId)
    requires x in db && j <= k && FoundIn(models, db[x].model, j)
    ensures Selects(models, db, user, k, x) <==> Selects(models, db, user, j, x)
  {
    if j < k {
      RoundsOnlyAdd(models, j, k - 1);
      RoundsOnlyAdd(models, j, k);
      SelectsSinceFound(models, db, user, j, k - 1, x);
    }
  }

  lemma {:induction false} OwnedMeansFoundFirst(models: Registry, l: Label, j: nat)
    requires FoundIn(models, l, j)
    ensures j == 0 <==> l in Direct(models)
    ensures l in models
    ensures j > 0 ==> Rounds(models, j)[l] == Children(LinksInto(models[l], Rounds(models, j - 1).Keys))
  {
    RoundsOnlyAdd(models, 0, j);
    RoundsStayEligible(models, j);
    if j > 0 { RoundsOnlyAdd(models, 0, j - 1); }
  }

  lemma {:induction false} SelectedInFirstRound(models: Registry, db: Database, user: nat, x: RowId)
    requires x in db && db[x].model in Rounds(models, 0)
    ensures Selects(models, db, user, 0, x) <==> IsOwned(models, db, user, x)
  {
  }

  lemma {:induction false} LinkSelects(models: Registry, db: Database, user: nat, j: nat, x: RowId, y: RowId)
    requires j > 0 && Links(models, db, x, y) && FoundIn(models, db[x].model, j)
    requires db[y].model in Rounds(models, j - 1) && Selects(models, db, user, j - 1, y)
    ensures Selects(models, db, user, j, x)
  {
    var l := db[x].model;
    OwnedMeansFoundFirst(models, l, j);
    var f :| f in models[l].fields && f.target == Some(db[y].model) && f.name in db[x].refs && db[x].refs[f.name] == ToRow(y);
    assert (f.name, db[y].model) in LinksInto(models[l], Rounds(models, j - 1).Keys);
  }

  lemma {:induction false} SelectedHasALink(models: Registry, db: Database, user: nat, j: nat, x: RowId) returns (y: RowId)
    requires j > 0 && x in db && FoundIn(models, db[x].model, j) && Selects(models, db, user, j, x)
    ensures Links(models, db, x, y) && db[y].model in Rounds(models, j - 1) && Selects(models, db, user, j - 1, y)
  {
    var l := db[x].model;
    OwnedMeansFoundFirst(models, l, j);
    var links := LinksInto(models[l], Rounds(models, j - 1).Keys);
    var f: string;
    f, y :| f in db[x].refs && db[x].refs[f] == ToRow(y) && y in db
            && (f, db[y].model) in links && Selects(models, db, user, j - 1, y);
    var field :| field in models[l].fields && field.target.Some? && field.target.value in Rounds(models, j - 1).Keys
                 && (field.name, field.target.value) == (f, db[y].model);
  }

  lemma {:induction false} SelectedHasAChain(models: Registry, db: Database, user: nat, k: nat, x: RowId) returns (rows: seq<RowId>)
    requires Selects(models, db, user, k, x)
    ensures rows != [] && rows[0] == x && IsChain(models, db, user, rows)
    decreases k
  {
    var j := SomeRoundFinds(models, db[x].model, k);
    SelectsSinceFound(models, db, user, j, k, x);
    if j == 0 {
      SelectedInFirstRound(models, db, user, x);
      rows := [x];
    } else {
      var y := SelectedHasALink(models, db, user, j, x);
      var i := SomeRoundFinds(models, db[y].model, j - 1);
      assert FoundBefore(models, db[y].model, db[x].model);
      var rest := SelectedHasAChain(models, db, user, j - 1, y);
      rows := [x] + rest;
      assert rows[1..] == rest;
    }
  }

  lemma {:induction false} OwnedIsSelected(models: Registry, db: Database, user: nat, k: nat, x: RowId)
    requires IsOwned(models, db, user, x)
    ensures Selects(models, db, user, k, x)
  {
    OwnedIsDirect(models, db, user, x);
    RoundsOnlyAdd(models, 0, k);
    SelectedInFirstRound(models, db, user, x);
    SelectsSinceFound(models, db, user, 0, k, x);
  }

  lemma {:induction false} LinkIsSelected(models: Registry, db: Database, user: nat, k: nat, x: RowId, y: RowId, i: nat, j: nat)
    requires Links(models, db, x, y) && db[x].model in Rounds(models, k)
    requires i < j && FoundIn(models, db[y].model, i) && FoundIn(models, db[x].model, j)
    requires Selects(models, db, user, i, y)
    ensures Selects(models, db, user, k, x)
  {
    var found := SomeRoundFinds(models, db[x].model, k);
    FoundOnce(models, db[x].model, found, j);
    RoundsOnlyAdd(models, i, j - 1);
    SelectsSinceFound(models, db, user, i, j - 1, y);
    LinkSelects(models, db, user, j, x, y);
    SelectsSinceFound(models, db, user, j, k, x);
  }

  lemma {:induction false} ChainIsSelected(models: Registry, db: Database, user: nat, k: nat, rows: seq<RowId>)
    requires IsChain(models, db, user, rows) && db[rows[0]].model in Rounds(models, k)
    ensures Selects(models, db, user, k, rows[0])
    decreases |rows|
  {
    if |rows| == 1 {
      OwnedIsSelected(models, db, user, k, rows[0]);
    } else {
      var i: nat, j: nat :| i < j && FoundIn(models, db[rows[1]].model, i) && FoundIn(models, db[rows[0]].model, j);
      ChainIsSelected(models, db, user, i, rows[1..]);
      LinkIsSelected(models, db, user, k, rows[0], rows[1], i, j);
    }
  }

  /** Main result on rows: a row is selected if and only if it leads to a row that names the user by
      foreign keys of which each parent's model was found in a strictly earlier round than the child's. */
  lemma {:induction false} SelectedIff(models: Registry, db: Database, user: nat, x: RowId)
    requires x in db && db[x].model in Rounds(models, |models|)
    ensures Selects(models, db, user, |models|, x)
            <==> exists rows :: rows != [] && rows[0] == x && IsChain(models, db, user, rows)
  {
    if Selects(models, db, user, |models|, x) {
      var rows := SelectedHasAChain(models, db, user, |models|, x);
    }
    forall rows | rows != [] && rows[0] == x && IsChain(models, db, user, rows) ensures Selects(models, db, user, |models|, x) {
      ChainIsSelected(models, db, user, |models|, rows);
    }
  }

  lemma OwnedIsDirect(models: Registry, db: Database, user: nat, x: RowId)
    ensures IsOwned(models, db, user, x) ==> db[x].model in Direct(models)
  {
  }

  /** So a row of a child model whose parents are all of models found later, or in the same round, is missed. */
  lemma {:induction false} LaterParentsAreMissed(models: Registry, db: Database, user: nat, x: RowId)
    requires x in db && db[x].model in Rounds(models, |models|) && db[x].model !in Direct(models)
    requires forall y :: Links(models, db, x, y) ==> !FoundBefore(models, db[y].model, db[x].model)
    ensures !Selects(models, db, user, |models|, x)
  {
    if Selects(models, db, user, |models|, x) {
      var rows := SelectedHasAChain(models, db, user, |models|, x);
      OwnedIsDirect(models, db, user, rows[0]);
    }
  }

  // ---------------------------------------------------------------- rows that name the user at all

  /** The row names the user by some foreign key of its model to the user table, whatever its name. */
  predicate MentionsUser(models: Registry, db: Database, user: nat, x: RowId) {
    x in db && db[x].model in models
    && exists f :: f in models[db[x].model].fields && f.target == Some(USER)
                   && f.name in db[x].refs && db[x].refs[f.name] == ToUser(user)
  }

  ghost predicate SelectsEveryMention(models: Registry) {
    forall db: Database, user: nat, x: RowId :: MentionsUser(models, db, user, x) ==> Selects(models, db, user, |models|, x)
  }

  /** Every foreign key to the user table has one of the ownership names. */
  predicate OnlyOwnershipNames(models: Registry) {
    forall l :: l in models ==> forall f :: f in models[l].fields && f.target == Some(USER) ==> f.name in OWNER_FIELDS
  }

  /** A row that names a user only by a field of another name. */
  function LoneRow(l: Label, name: string): Database {
    map[0 := Row(l, map[name := ToUser(0)])]
  }

  lemma {:induction false} LoneRowBelongsToNobody(l: Label, name: string, n: nat)
    requires name !in OWNER_FIELDS
    ensures !BelongsTo(LoneRow(l, name), 0, 0, n)
  {
  }

  lemma {:induction false} LoneRowIsMissed(models: Registry, l: Label, name: string, k: nat)
    requires name !in OWNER_FIELDS
    ensures !Selects(models, LoneRow(l, name), 0, k, 0)
  {
    if Selects(models, LoneRow(l, name), 0, k, 0) {
      SelectedRowsBelongToTheUser(models, LoneRow(l, name), 0, k, 0);
      var n: nat :| n <= k && BelongsTo(LoneRow(l, name), 0, 0, n);
      LoneRowBelongsToNobody(l, name, n);
    }
  }

  /** Every row of an eligible model that names the user is selected, in every database, if and only if
      every eligible model's foreign keys to the user table have ownership names. */
  lemma {:induction false} EveryMentionIsSelectedIff(models: Registry)
    ensures SelectsEveryMention(models) <==> OnlyOwnershipNames(models)
  {
    if OnlyOwnershipNames(models) {
      forall db: Database, user: nat, x: RowId | MentionsUser(models, db, user, x) ensures Selects(models, db, user, |models|, x) {
        var l := db[x].model;
        var f :| f in models[l].fields && f.target == Some(USER) && f.name in db[x].refs && db[x].refs[f.name] == ToUser(user);
        assert f.name in OwnFields(models[l]);
        OwnedIsSelected(models, db, user, |models|, x);
      }
    } else {
      var l :| l in models && exists f :: f in models[l].fields && f.target == Some(USER) && f.name !in OWNER_FIELDS;
      var f :| f in models[l].fields && f.target == Some(USER) && f.name !in OWNER_FIELDS;
      LoneRowIsMissed(models, l, f.name, |models|);
      assert MentionsUser(models, LoneRow(l, f.name), 0, 0);
    }
  }

  /** A model with no ownership field and no foreign key into the registry is found in no round. */
  lemma {:induction false} DetachedModelsAreNeverFound(models: Registry, l: Label, k: nat)
    requires l in models && OwnFields(models[l]) == {}
    requires forall f :: f in models[l].fields ==> f.target.None? || f.target.value !in models
    ensures l !in Rounds(models, k)
  {
    if k > 0 {
      DetachedModelsAreNeverFound(models, l, k - 1);
      RoundsStayEligible(models, k - 1);
      LinksExistIff(models[l], Rounds(models, k - 1).Keys);
    }
  }

  predicate IsLearningApp(app: string) {
    || app == "focus" || app == "progress" || app == "review" || app == "study_plans" || app == "class_schedule"
    || app == "biweekly" || app == "xp" || app == "streaks" || app == "achievements" || app == "rankings" || app == "offline"
  }

  predicate IsLearningModel(l: Label) {
    || l == "content.PersonalSheet" || l == "content.CatalogWorkspaceSnapshot" || l == "content.PracticeSlideProgress"
    || l == "questions.QuestionAnswer" || l == "assessments.Attempt" || l == "assessments.AttemptQuestion"
    || l == "assessments.AttemptAnswer" || l == "assessments.AttemptResult"
    || l == "assessments.AttemptSubmissionReceipt" || l == "assessments.AttemptActivity"
  }

  /** The eligible models: those of the learning apps, and ten more by name. */
  lemma {:induction false} EligibleModels(registry: Registry, l: Label)
    ensures l in Eligible(registry) <==> l in registry && (IsLearningApp(registry[l].app) || IsLearningModel(l))
    ensures l in Eligible(registry) ==> Eligible(registry)[l] == registry[l]
  {
  }

  /** A foreign key to the user table under one of the four ownership names. */
  predicate IsOwnership(f: Field) {
    f.target == Some(USER) && (f.name == "user" || f.name == "owner" || f.name == "author" || f.name == "requested_by")
  }

  /** A row of a model with such keys is selected exactly when one of them names the user. */
  lemma {:induction false} OwnedRowsAreSelectedIff(models: Registry, db: Database, user: nat, x: RowId)
    requires x in db && db[x].model in models && exists f :: f in models[db[x].model].fields && IsOwnership(f)
    ensures Selects(models, db, user, |models|, x) <==>
      exists f :: f in models[db[x].model].fields && IsOwnership(f) && f.name in db[x].refs && db[x].refs[f.name] == ToUser(user)
  {
    var m := models[db[x].model];
    forall f | f in m.fields ensures IsOwnership(f) ==> f.name in OwnFields(m) {}
    var g :| g in m.fields && IsOwnership(g);
    assert g.name in OwnFields(m);
    OwnedModelsSelectByOwnershipOnly(models, db, user, |models|, x);
    if f :| f in m.fields && IsOwnership(f) && f.name in db[x].refs && db[x].refs[f.name] == ToUser(user) {
      assert f.name in OwnFields(m);
    }
    if NamesUser(db[x], OwnFields(m), user) {
      var name :| name in OwnFields(m) && name in db[x].refs && db[x].refs[name] == ToUser(user);
      var f :| f in m.fields && f.target == Some(USER) && f.name in OWNER_FIELDS && f.name == name;
      assert IsOwnership(f);
    }
  }

  // ---------------------------------------------------------------- rescue sessions and their receipts

  const RECEIPT: Label := "focus.RescueMutationReceipt"
  const RESCUE: Label := "focus.RescueSession"
  const FOCUS: Label := "focus.FocusSession"

  function ForeignKeys(m: Model): set<Field> {
    set f | f in m.fields && f.target.Some?
  }

  const RECEIPT_KEYS := {Field("account", Some(USER))}

  const RESCUE_KEYS := {
    Field("account", Some(USER)),
    Field("catalog_document", Some("content.CatalogDocument")),
    Field("learning_object_version", Some("content.LearningObjectVersion")),
    Field("managed_file", Some("files.ManagedFile")),
    Field("continued_into_study_session", Some(FOCUS))}

  /** A registry with the rescue models, which name their user by `account`, and in which the user, the
      documents and the files are not personal. */
  predicate HasRescueModels(registry: Registry) {
    && RECEIPT in registry && registry[RECEIPT].app == "focus" && ForeignKeys(registry[RECEIPT]) == RECEIPT_KEYS
    && RESCUE in registry && registry[RESCUE].app == "focus" && ForeignKeys(registry[RESCUE]) == RESCUE_KEYS
    && USER !in Eligible(registry)
    && "content.CatalogDocument" !in Eligible(registry)
    && "content.LearningObjectVersion" !in Eligible(registry)
    && "files.ManagedFile" !in Eligible(registry)
  }

  lemma {:induction false} KeysDecide(m: Model)
    ensures forall f :: f in m.fields && f.target.Some? ==> f in ForeignKeys(m)
    ensures (forall f :: f in ForeignKeys(m) && f.target == Some(USER) ==> f.name == "account") ==> OwnFields(m) == {}
  {
    assert "account" !in OWNER_FIELDS;
  }

  /** Receipts are personal, but no round finds them. */
  lemma {:induction false} ReceiptsAreNeverFound(registry: Registry, k: nat)
    requires HasRescueModels(registry)
    ensures RECEIPT in Eligible(registry) && RECEIPT !in Rounds(Eligible(registry), k)
  {
    KeysDecide(registry[RECEIPT]);
    DetachedModelsAreNeverFound(Eligible(registry), RECEIPT, k);
  }

  lemma {:induction false} LinksLeadOutside(models: Registry, db: Database, user: nat, k: nat, x: RowId)
    requires x in db && db[x].model !in Direct(models)
    requires forall y :: Links(models, db, x, y) ==> db[y].model !in models
    ensures !Selects(models, db, user, k, x)
  {
    if Selects(models, db, user, k, x) {
      var rows := SelectedHasAChain(models, db, user, k, x);
      OwnedIsDirect(models, db, user, x);
      ChainStaysInside(models, db, user, rows);
    }
  }

  lemma {:induction false} ChainStaysInside(models: Registry, db: Database, user: nat, rows: seq<RowId>)
    requires IsChain(models, db, user, rows) && |rows| > 1
    ensures Links(models, db, rows[0], rows[1]) && db[rows[1]].model in models
  {
    var i: nat, j: nat :| i < j && FoundIn(models, db[rows[1]].model, i) && FoundIn(models, db[rows[0]].model, j);
    RoundsStayEligible(models, i);
  }

  lemma {:induction false} UncontinuedLinksLeadOutside(registry: Registry, db: Database, x: RowId, y: RowId)
    requires HasRescueModels(registry) && x in db && db[x].model == RESCUE && "continued_into_study_session" !in db[x].refs
    requires Links(Eligible(registry), db, x, y)
    ensures db[y].model !in Eligible(registry)
  {
    var m := registry[RESCUE];
    var f :| f in m.fields && f.target == Some(db[y].model) && f.name in db[x].refs && db[x].refs[f.name] == ToRow(y);
    KeysDecide(m);
    assert f in RESCUE_KEYS;
  }

  /** A rescue session that did not continue into a focus session is missed, whoever it names. */
  lemma {:induction false} UncontinuedSessionsAreMissed(registry: Registry, db: Database, user: nat, k: nat, x: RowId)
    requires HasRescueModels(registry) && x in db && db[x].model == RESCUE && "continued_into_study_session" !in db[x].refs
    ensures !Selects(Eligible(registry), db, user, k, x)
  {
    KeysDecide(registry[RESCUE]);
    forall y | Links(Eligible(registry), db, x, y) ensures db[y].model !in Eligible(registry) {
      UncontinuedLinksLeadOutside(registry, db, x, y);
    }
    LinksLeadOutside(Eligible(registry), db, user, k, x);
  }

  /** A registry with just these models, in which both results apply. */
  const FOCUS_APP: Registry := map[
    FOCUS := Model("focus", [Field("user", Some(USER))]),
    RECEIPT := Model("focus", [Field("account", Some(USER))]),
    RESCUE := Model("focus", [
      Field("account", Some(USER)),
      Field("catalog_document", Some("content.CatalogDocument")),
      Field("learning_object_version", Some("content.LearningObjectVersion")),
      Field("managed_file", Some("files.ManagedFile")),
      Field("continued_into_study_session", Some(FOCUS))])]

  lemma {:induction false} KeysAreFields(m: Model)
    requires forall f :: f in m.fields ==> f.target.Some?
    ensures forall f :: f in ForeignKeys(m) <==> f in m.fields
  {
  }

  lemma {:induction false} RescueKeysAreThere()
    ensures ForeignKeys(FOCUS_APP[RECEIPT]) == RECEIPT_KEYS && ForeignKeys(FOCUS_APP[RESCUE]) == RESCUE_KEYS
  {
    KeysAreFields(FOCUS_APP[RECEIPT]);
    KeysAreFields(FOCUS_APP[RESCUE]);
    var fields := FOCUS_APP[RESCUE].fields;
    assert fields == [fields[0], fields[1], fields[2], fields[3], fields[4]];
    assert FOCUS_APP[RECEIPT].fields == [Field("account", Some(USER))];
  }

  lemma {:induction false} FocusAppHasRescueModels()
    ensures HasRescueModels(FOCUS_APP)
  {
    RescueKeysAreThere();
  }

  /** So a receipt and an uncontinued session that name the user are not selected. */
  lemma {:induction false} RescueRowsAreMissed(user: nat, k: nat)
    ensures var db := map[1 := Row(RECEIPT, map["account" := ToUser(user)]), 2 := Row(RESCUE, map["account" := ToUser(user)])];
            && MentionsUser(Eligible(FOCUS_APP), db, user, 1) && !Selects(Eligible(FOCUS_APP), db, user, k, 1)
            && MentionsUser(Eligible(FOCUS_APP), db, user, 2) && !Selects(Eligible(FOCUS_APP), db, user, k, 2)
  {
    var db := map[1 := Row(RECEIPT, map["account" := ToUser(user)]), 2 := Row(RESCUE, map["account" := ToUser(user)])];
    FocusAppHasRescueModels();
    ReceiptsAreNeverFound(FOCUS_APP, k);
    UncontinuedSessionsAreMissed(FOCUS_APP, db, user, k, 2);
    var account: Field := Field("account", Some(USER));
    assert FOCUS_APP[RECEIPT].fields[0] == account && FOCUS_APP[RESCUE].fields[0] == account;
  }

  // ---------------------------------------------------------------- the loops

  method OwnedQueries(models: Registry) returns (result: Queries)
    ensures result == Direct(models)
  {
    result := map[];
    var left := models.Keys;
    while left != {}
      invariant left <= models.Keys
      invariant forall l :: l in result <==> l in Direct(models) && l !in left
      invariant forall l :: l in result ==> result[l] == Direct(models)[l]
      decreases left
    {
      var l :| l in left;
      var own: set<string> := {};
      var found := false;
      for i := 0 to |models[l].fields|
        invariant own == set f | f in models[l].fields[..i] && f.target == Some(USER) && f.name in OWNER_FIELDS :: f.name
        invariant found <==> own != {}
      {
        var f := models[l].fields[i];
        assert models[l].fields[..i + 1] == models[l].fields[..i] + [f];
        if f.target == Some(USER) && f.name in OWNER_FIELDS {
          own := own + {f.name};
          found := true;
        }
      }
      assert models[l].fields[..|models[l].fields|] == models[l].fields;
      if found { result := result[l := Owned(own)]; }
      left := left - {l};
    }
  }

  method OneRound(models: Registry, result: Queries) returns (additions: Queries)
    ensures additions == Additions(models, result)
  {
    additions := map[];
    var left := models.Keys;
    while left != {}
      invariant left <= models.Keys
      invariant forall l :: l in additions <==> l in Additions(models, result) && l !in left
      invariant forall l :: l in additions ==> additions[l] == Additions(models, result)[l]
      decreases left
    {
      var l :| l in left;
      left := left - {l};
      if l in result { continue; }
      var scopes: set<(string, Label)> := {};
      var found := false;
      for i := 0 to |models[l].fields|
        invariant scopes == set f | f in models[l].fields[..i] && f.target.Some? && f.target.value in result.Keys
                                :: (f.name, f.target.value)
        invariant found <==> scopes != {}
      {
        var f := models[l].fields[i];
        assert models[l].fields[..i + 1] == models[l].fields[..i] + [f];
        if f.target.Some? && f.target.value in result {
          scopes := scopes + {(f.name, f.target.value)};
          found := true;
        }
      }
      assert models[l].fields[..|models[l].fields|] == models[l].fields;
      if found { additions := additions[l := Children(scopes)]; }
    }
  }

  /** Rounds until nothing is added, at most one per eligible model. */
  method PersonalQueries(registry: Registry) returns (result: Queries)
    ensures result == Rounds(Eligible(registry), |Eligible(registry)|)
    ensures Closed(Eligible(registry), result.Keys)
    ensures forall labels: set<Label> :: Closed(Eligible(registry), labels) ==> result.Keys <= labels
  {
    var models := Eligible(registry);
    result := OwnedQueries(models);
    ghost var n := |models|;
    for r := 0 to |models|
      invariant result == Rounds(models, r)
    {
      var additions := OneRound(models, result);
      if additions == map[] {
        n := r;
        break;
      }
      result := result + additions;
    }
    if n < |models| { RoundsAreStable(models, n, |models|); }
    BoundaryIsTheLeastClosedSet(models);
  }
}
