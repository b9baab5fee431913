/**
 The review workflow of one quiz: drafting, submitting, rejecting, publishing and retiring, each
 under the quiz's row lock and guarded by the revision the caller last saw, together with the quiz's
 entry in the search index. A raising operation changes nothing.
*/
module QuizWorkflow {
  import opened Common

  type QuestionId = nat
  type QuestionVersionId = nat

  datatype Link = Link(question: QuestionId, version: QuestionVersionId)

  datatype Input = Input(
    path: string,
    title: string,
    instructions: string,
    mode: string,
    selectionMode: string,
    questionCount: int,
    links: seq<Link>,
    duration: Option<int>,
    maximumAttempts: int,
    availableFrom: Option<int>,
    availableUntil: Option<int>,
    resultRelease: string,
    passPercent: real,
    rankingEligible: bool,
    difficulties: seq<string>,
    language: string,
    metadataLength: nat)

  datatype Version = Version(number: nat, data: Input)

  datatype Status = Draft | InReview | Published | Rejected | Retired

  datatype SearchEntry = SearchEntry(title: string, summary: string, path: string, language: string, contentType: string, publishedAt: int)

  /** `current` and `published` point into `versions`, which holds the rows in order of creation. */
  datatype Quiz = Quiz(
    status: Status,
    versions: seq<Version>,
    current: nat,
    published: Option<nat>,
    revision: nat,
    note: string,
    publishedAt: Option<int>,
    retiredAt: Option<int>,
    search: Option<SearchEntry>)

  datatype Error = RuleError | ConflictError

  // ---------------------------------------------------------------- the rules for a version

  predicate IsSpace(c: char) {
    c == ' ' || c == '\t' || c == '\n' || c == '\r' || c == 11 as char || c == 12 as char
  }

  function Strip(s: string): string {
    if s == "" then ""
    else if IsSpace(s[0]) then Strip(s[1..])
    else if IsSpace(s[|s| - 1]) then Strip(s[..|s| - 1])
    else s
  }

  const MODES := {"quiz", "practice", "mastery"}
  const SELECTION_MODES := {"fixed", "pool"}
  const RELEASES := {"immediate", "after_close"}
  const DIFFICULTIES := {"easy", "medium", "hard"}

  predicate Distinct<T(==)>(items: seq<T>) {
    forall i, j :: 0 <= i < j < |items| ==> items[i] != items[j]
  }

  /** The last moment of availability is set, and for a quiz that opens, after it does. */
  predicate TimesOk(d: Input) {
    && (d.duration.Some? ==> 60 <= d.duration.value <= 14400)
    && (d.mode in {"quiz", "mastery"} ==> d.duration.Some?)
    && (d.availableFrom.Some? && d.availableUntil.Some? ==> d.availableFrom.value < d.availableUntil.value)
    && (d.resultRelease == "after_close" ==> d.availableUntil.Some?)
  }

  /** A fixed quiz lists as many question versions as it declares, none of them twice. */
  predicate QuestionsOk(d: Input) {
    if d.selectionMode == "fixed"
    then |d.links| == d.questionCount && forall i, j :: 0 <= i < j < |d.links| ==> d.links[i].version != d.links[j].version
    else d.links == []
  }

  predicate RankingOk(d: Input) {
    d.rankingEligible ==> d.mode != "practice" && d.selectionMode == "fixed" && d.duration.Some? && d.maximumAttempts > 0
  }

  predicate ValidInput(d: Input) {
    && d.mode in MODES
    && d.selectionMode in SELECTION_MODES
    && d.resultRelease in RELEASES
    && Strip(d.title) != ""
    && 1 <= d.questionCount <= 100
    && 0 <= d.maximumAttempts <= 100
    && 0.0 <= d.passPercent <= 100.0
    && (forall i :: 0 <= i < |d.difficulties| ==> d.difficulties[i] in DIFFICULTIES)
    && Distinct(d.difficulties)
    && TimesOk(d) && QuestionsOk(d) && RankingOk(d)
    && d.metadataLength <= 4096
  }

  function VersionFrom(number: nat, d: Input): Version {
    Version(number, d.(title := Strip(d.title), instructions := Strip(d.instructions), language := Lower(Strip(d.language))))
  }

  // ---------------------------------------------------------------- the actions

  /** The rest of the catalog when a quiz is published: whether its path is discoverable, the published
      version of every question that is not retired, and how many questions its pool would offer. */
  datatype Catalog = Catalog(discoverable: bool, questions: map<QuestionId, QuestionVersionId>, poolSize: nat)

  predicate LinkPublished(catalog: Catalog, link: Link) {
    link.question in catalog.questions && catalog.questions[link.question] == link.version
  }

  predicate Publishable(v: Version, catalog: Catalog) {
    && catalog.discoverable
    && (if v.data.selectionMode == "fixed"
        then |v.data.links| == v.data.questionCount
             && forall i :: 0 <= i < |v.data.links| ==> LinkPublished(catalog, v.data.links[i])
        else v.data.questionCount <= catalog.poolSize)
  }

  function EntryFor(v: Version, now: int): SearchEntry {
    SearchEntry(v.data.title, v.data.instructions, v.data.path, v.data.language, v.data.mode, now)
  }

  function Create(allowed: bool, data: Input): Result<Quiz, Error> {
    if !allowed || !ValidInput(data) then Err(RuleError)
    else Ok(Quiz(Draft, [VersionFrom(1, data)], 0, None, 1, "", None, None, None))
  }

  /** `allowed` is the policy's answer for the caller. */
  datatype Action =
    | Revise(allowed: bool, mayCreate: bool, expected: nat, data: Input)
    | Submit(allowed: bool, expected: nat)
    | Reject(allowed: bool, expected: nat, note: string)
    | Publish(allowed: bool, expected: nat, catalog: Catalog, now: int)
    | Retire(allowed: bool, expected: nat, now: int)

  predicate HasCurrent(q: Quiz) {
    q.current < |q.versions|
  }

  function Act(q: Quiz, a: Action): Result<Quiz, Error>
    requires HasCurrent(q)
  {
    if !a.allowed then Err(RuleError)
    else if q.revision != a.expected then Err(ConflictError)
    else
      match a
      case Revise(_, mayCreate, _, data) =>
        if q.status == InReview || q.status == Retired || !mayCreate || !ValidInput(data) then Err(RuleError)
        else Ok(q.(versions := q.versions + [VersionFrom(q.versions[q.current].number + 1, data)], current := |q.versions|,
                   status := Draft, note := "", revision := q.revision + 1))
      case Submit(_, _) =>
        if q.status != Draft && q.status != Rejected then Err(RuleError)
        else Ok(q.(status := InReview, note := "", revision := q.revision + 1))
      case Reject(_, _, note) =>
        if q.status != InReview || Strip(note) == "" then Err(RuleError)
        else Ok(q.(status := Rejected, note := Strip(note), revision := q.revision + 1))
      case Publish(_, _, catalog, now) =>
        if q.status != InReview || !Publishable(q.versions[q.current], catalog) then Err(RuleError)
        else Ok(q.(published := Some(q.current), status := Published, publishedAt := Some(now), retiredAt := None,
                   note := "", revision := q.revision + 1, search := Some(EntryFor(q.versions[q.current], now))))
      case Retire(_, _, now) =>
        Ok(q.(status := Retired, retiredAt := Some(now), revision := q.revision + 1, search := None))
  }

  // ---------------------------------------------------------------- the workflow as it runs

  class Desk {
    var status: Status
    var versions: seq<Version>
    var current: nat
    var published: Option<nat>
    var revision: nat
    var note: string
    var publishedAt: Option<int>
    var retiredAt: Option<int>
    var search: Option<SearchEntry>

    ghost function State(): Quiz
      reads this
    {
      Quiz(status, versions, current, published, revision, note, publishedAt, retiredAt, search)
    }

    constructor (data: Input)
      requires ValidInput(data)
      ensures Create(true, data) == Ok(State())
    {
      status, versions, current, published, revision := Draft, [VersionFrom(1, data)], 0, None, 1;
      note, publishedAt, retiredAt, search := "", None, None, None;
    }

    method ReviseQuiz(allowed: bool, mayCreate: bool, expected: nat, data: Input) returns (error: Option<Error>)
      requires HasCurrent(State())
      modifies this`versions, this`current, this`status, this`note, this`revision
      ensures match Act(old(State()), Revise(allowed, mayCreate, expected, data))
              case Ok(q) => error == None && State() == q
              case Err(e) => error == Some(e) && State() == old(State())
    {
      if !allowed { return Some(RuleError); }
      if revision != expected { return Some(ConflictError); }
      if status == InReview || status == Retired { return Some(RuleError); }
      if !mayCreate || !ValidInput(data) { return Some(RuleError); }
      versions := versions + [VersionFrom(versions[current].number + 1, data)];
      current := |versions| - 1;
      status, note, revision := Draft, "", revision + 1;
      error := None;
    }

    method SubmitForReview(allowed: bool, expected: nat) returns (error: Option<Error>)
      requires HasCurrent(State())
      modifies this`status, this`note, this`revision
      ensures match Act(old(State()), Submit(allowed, expected))
              case Ok(q) => error == None && State() == q
              case Err(e) => error == Some(e) && State() == old(State())
    {
      if !allowed { return Some(RuleError); }
      if revision != expected { return Some(ConflictError); }
      if status != Draft && status != Rejected { return Some(RuleError); }
      status, note, revision := InReview, "", revision + 1;
      error := None;
    }

    method RejectQuiz(allowed: bool, expected: nat, feedback: string) returns (error: Option<Error>)
      requires HasCurrent(State())
      modifies this`status, this`note, this`revision
      ensures match Act(old(State()), Reject(allowed, expected, feedback))
              case Ok(q) => error == None && State() == q
              case Err(e) => error == Some(e) && State() == old(State())
    {
      if !allowed { return Some(RuleError); }
      if revision != expected { return Some(ConflictError); }
      if status != InReview { return Some(RuleError); }
      if Strip(feedback) == "" { return Some(RuleError); }
      status, note, revision := Rejected, Strip(feedback), revision + 1;
      error := None;
    }

    method ValidatePublishable(v: Version, catalog: Catalog) returns (ok: bool)
      ensures ok == Publishable(v, catalog)
    {
      if !catalog.discoverable { return false; }
      if v.data.selectionMode != "fixed" { return v.data.questionCount <= catalog.poolSize; }
      if |v.data.links| != v.data.questionCount { return false; }
      for i := 0 to |v.data.links|
        invariant forall j :: 0 <= j < i ==> LinkPublished(catalog, v.data.links[j])
      {
        var link := v.data.links[i];
        if link.question !in catalog.questions || catalog.questions[link.question] != link.version { return false; }
      }
      ok := true;
    }

    method PublishQuiz(allowed: bool, expected: nat, catalog: Catalog, now: int) returns (error: Option<Error>)
      requires HasCurrent(State())
      modifies this`published, this`status, this`publishedAt, this`retiredAt, this`note, this`revision, this`search
      ensures match Act(old(State()), Publish(allowed, expected, catalog, now))
              case Ok(q) => error == None && State() == q
              case Err(e) => error == Some(e) && State() == old(State())
    {
      var version := versions[current];
      if !allowed { return Some(RuleError); }
      if revision != expected { return Some(ConflictError); }
      if status != InReview { return Some(RuleError); }
      var ok := ValidatePublishable(version, catalog);
      if !ok { return Some(RuleError); }
      published, status, publishedAt, retiredAt := Some(current), Published, Some(now), None;
      note, revision := "", revision + 1;
      search := Some(SearchEntry(version.data.title, version.data.instructions, version.data.path, version.data.language,
                                 version.data.mode, now));
      error := None;
    }

    method RetireQuiz(allowed: bool, expected: nat, now: int) returns (error: Option<Error>)
      requires HasCurrent(State())
      modifies this`status, this`retiredAt, this`revision, this`search
      ensures match Act(old(State()), Retire(allowed, expected, now))
              case Ok(q) => error == None && State() == q
              case Err(e) => error == Some(e) && State() == old(State())
    {
      if !allowed { return Some(RuleError); }
      if revision != expected { return Some(ConflictError); }
      status, retiredAt, revision := Retired, Some(now), revision + 1;
      search := None;
      error := None;
    }
  }
}
