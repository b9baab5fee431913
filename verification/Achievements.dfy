/**
 Achievements: evidence is recorded once per source key, every matching active definition's progress
 is set to an aggregate over the stored evidence, and an award is created the first time the
 aggregate reaches the target. Each recording is one atomic step.
*/
module Achievements {
  import opened Common

  type UserId = nat

  datatype Criteria = Criteria(evidenceType: string, target: int, aggregation: string)

  datatype Version = Version(number: nat, titleEn: string, titleAr: string, criteria: Criteria)

  datatype Definition = Definition(code: string, isActive: bool, current: Option<Version>)

  datatype Evidence = Evidence(user: UserId, sourceKey: string, evidenceType: string, value: int, occurredAt: int)

  /** A user's row for one definition, named by its position in the list of definitions. */
  datatype Slot = Slot(user: UserId, definition: nat)

  datatype Progress = Progress(version: Version, current: int, target: int, revision: nat)

  datatype Award = Award(version: Version, evidenceType: string, value: int, target: int, sourceKey: string, earnedAt: int)

  datatype Event = AchievementEarned(slot: Slot, code: string, title: string, earnedAt: int)

  datatype Store = Store(evidence: seq<Evidence>, progress: map<Slot, Progress>, earned: map<Slot, Award>, published: seq<Event>)

  datatype Error = RuleError | NoSuchUser

  datatype Outcome<+T> = Outcome(store: Store, reply: Result<T, Error>)

  // ---------------------------------------------------------------- aggregates

  predicate Matches(e: Evidence, user: UserId, kind: string) {
    e.user == user && e.evidenceType == kind
  }

  function Selected(log: seq<Evidence>, user: UserId, kind: string): seq<Evidence> {
    if log == [] then []
    else
      var rest := Selected(log[..|log| - 1], user, kind);
      if Matches(log[|log| - 1], user, kind) then rest + [log[|log| - 1]] else rest
  }

  function Total(log: seq<Evidence>): int {
    if log == [] then 0 else Total(log[..|log| - 1]) + log[|log| - 1].value
  }

  function Largest(log: seq<Evidence>): int {
    if log == [] then 0
    else
      var rest := Largest(log[..|log| - 1]);
      if rest < log[|log| - 1].value then log[|log| - 1].value else rest
  }

  predicate ValidCriteria(c: Criteria) {
    c.evidenceType != "" && c.target > 0 && c.aggregation in {"count", "sum", "max"}
  }

  function Aggregate(log: seq<Evidence>, user: UserId, c: Criteria): int {
    var evidence := Selected(log, user, c.evidenceType);
    if c.aggregation == "count" then |evidence|
    else if c.aggregation == "sum" then Total(evidence)
    else Largest(evidence)
  }

  // ---------------------------------------------------------------- recording

  predicate Offered(d: Definition) {
    d.isActive && d.current.Some?
  }

  predicate Concerns(d: Definition, kind: string) {
    Offered(d) && d.current.value.criteria.evidenceType == kind
  }

  predicate Known(log: seq<Evidence>, user: UserId, sourceKey: string) {
    exists i :: 0 <= i < |log| && log[i].user == user && log[i].sourceKey == sourceKey
  }

  /** Sets one definition's progress to the aggregate, and awards it when newly reached. */
  function Advance(s: Store, defs: seq<Definition>, i: nat, e: Evidence): Store
    requires i < |defs| && Offered(defs[i])
  {
    var version := defs[i].current.value;
    var current := Aggregate(s.evidence, e.user, version.criteria);
    var target := version.criteria.target;
    var slot := Slot(e.user, i);
    var revision := if slot in s.progress then s.progress[slot].revision + 1 else 1;
    var moved := s.(progress := s.progress[slot := Progress(version, current, target, revision)]);
    if current < target || slot in s.earned then moved
    else moved.(earned := s.earned[slot := Award(version, e.evidenceType, current, target, e.sourceKey, e.occurredAt)],
                published := s.published + [AchievementEarned(slot, defs[i].code, version.titleEn, e.occurredAt)])
  }

  /** The first `k` definitions visited in turn; an invalid one stops the visit. */
  function Visit(s: Store, defs: seq<Definition>, e: Evidence, k: nat): Option<Store>
    requires k <= |defs|
  {
    if k == 0 then Some(s)
    else
      var before := Visit(s, defs, e, k - 1);
      if before.None? || !Concerns(defs[k - 1], e.evidenceType) then before
      else if !ValidCriteria(defs[k - 1].current.value.criteria) then None
      else Some(Advance(before.value, defs, k - 1, e))
  }

  /** The reply says whether the evidence is new. A raised error leaves nothing behind. */
  function RecordEvidence(s: Store, defs: seq<Definition>, active: bool, e: Evidence): Outcome<bool> {
    if e.value <= 0 then Outcome(s, Err(RuleError))
    else if !active then Outcome(s, Err(NoSuchUser))
    else if Known(s.evidence, e.user, e.sourceKey) then Outcome(s, Ok(false))
    else
      match Visit(s.(evidence := s.evidence + [e]), defs, e, |defs|)
      case None => Outcome(s, Err(RuleError))
      case Some(t) => Outcome(t, Ok(true))
  }

  // ---------------------------------------------------------------- rebuilding

  function Refreshed(s: Store, defs: seq<Definition>, user: UserId, i: nat): Progress
    requires i < |defs| && Offered(defs[i])
  {
    var version := defs[i].current.value;
    var slot := Slot(user, i);
    Progress(version, Aggregate(s.evidence, user, version.criteria), version.criteria.target,
             if slot in s.progress then s.progress[slot].revision else 0)
  }

  /** The first `k` definitions rebuilt. There is no transaction: an invalid definition stops the
      rebuild, and what was written before it stays. */
  function RebuildFirst(s: Store, defs: seq<Definition>, user: UserId, k: nat): Outcome<()>
    requires k <= |defs|
  {
    if k == 0 then Outcome(s, Ok(()))
    else
      var before := RebuildFirst(s, defs, user, k - 1);
      if before.reply.Err? || !Offered(defs[k - 1]) then before
      else if !ValidCriteria(defs[k - 1].current.value.criteria) then Outcome(before.store, Err(RuleError))
      else
        var t := before.store;
        Outcome(t.(progress := t.progress[Slot(user, k - 1) := Refreshed(t, defs, user, k - 1)]), Ok(()))
  }

  function Rebuild(s: Store, defs: seq<Definition>, user: UserId): Outcome<()> {
    RebuildFirst(s, defs, user, |defs|)
  }

  // ---------------------------------------------------------------- the catalog

  datatype Entry = Entry(code: string, title: string, current: int, target: int, earnedAt: Option<int>)

  function EntryOf(s: Store, defs: seq<Definition>, user: UserId, language: string, i: nat): Entry
    requires i < |defs| && Offered(defs[i])
  {
    var version := defs[i].current.value;
    var slot := Slot(user, i);
    Entry(defs[i].code,
          if language == "ar" then version.titleAr else version.titleEn,
          if slot in s.progress then s.progress[slot].current else 0,
          if slot in s.progress then s.progress[slot].target else version.criteria.target,
          if slot in s.earned then Some(s.earned[slot].earnedAt) else None)
  }

  function CatalogOf(s: Store, defs: seq<Definition>, user: UserId, language: string, k: nat): seq<Entry>
    requires k <= |defs|
  {
    if k == 0 then []
    else if Offered(defs[k - 1])
    then CatalogOf(s, defs, user, language, k - 1) + [EntryOf(s, defs, user, language, k - 1)]
    else CatalogOf(s, defs, user, language, k - 1)
  }

  function Catalog(s: Store, defs: seq<Definition>, user: UserId, language: string): seq<Entry> {
    CatalogOf(s, defs, user, language, |defs|)
  }

  // ---------------------------------------------------------------- runs

  datatype Step =
    | Record(active: bool, evidence: Evidence)
    | RebuildFor(user: UserId)

  function Next(s: Store, defs: seq<Definition>, step: Step): Store {
    match step
    case Record(active, e) => RecordEvidence(s, defs, active, e).store
    case RebuildFor(user) => Rebuild(s, defs, user).store
  }

  function Execute(s: Store, defs: seq<Definition>, steps: seq<Step>): Store {
    if steps == [] then s else Next(Execute(s, defs, steps[..|steps| - 1]), defs, steps[|steps| - 1])
  }

  const EMPTY := Store([], map[], map[], [])

  // ---------------------------------------------------------------- the invariant

  /** The position of the evidence that first brought the aggregate to its target. */
  predicate FirstReached(log: seq<Evidence>, user: UserId, c: Criteria, k: nat) {
    && k < |log|
    && Aggregate(log[..k], user, c) < c.target <= Aggregate(log[..k + 1], user, c)
  }

  ghost predicate AwardOk(log: seq<Evidence>, user: UserId, version: Version, award: Award) {
    exists k: nat :: FirstReached(log, user, version.criteria, k)
      && award == Award(version, version.criteria.evidenceType, Aggregate(log[..k + 1], user, version.criteria),
                        version.criteria.target, log[k].sourceKey, log[k].occurredAt)
  }

  ghost predicate ProgressOk(log: seq<Evidence>, user: UserId, version: Version, p: Progress) {
    && p.version == version
    && p.current == Aggregate(log, user, version.criteria)
    && p.target == version.criteria.target
    && p.revision == |Selected(log, user, version.criteria.evidenceType)|
  }

  function Published(published: seq<Event>, slot: Slot): nat {
    if published == [] then 0
    else Published(published[..|published| - 1], slot) + if published[|published| - 1].slot == slot then 1 else 0
  }

  ghost predicate SlotOk(s: Store, defs: seq<Definition>, slot: Slot) {
    var i := slot.definition;
    && Published(s.published, slot) == (if slot in s.earned then 1 else 0)
    && (i >= |defs| || !Offered(defs[i]) || !ValidCriteria(defs[i].current.value.criteria) ==>
          slot !in s.progress && slot !in s.earned)
    && (i < |defs| && Offered(defs[i]) ==>
          var version := defs[i].current.value;
          && (slot in s.progress ==> ProgressOk(s.evidence, slot.user, version, s.progress[slot]))
          && (slot !in s.progress ==> Selected(s.evidence, slot.user, version.criteria.evidenceType) == [])
          && (slot in s.earned <==> slot in s.progress && s.progress[slot].current >= version.criteria.target)
          && (slot in s.earned ==> AwardOk(s.evidence, slot.user, version, s.earned[slot])))
  }

  ghost predicate EvidenceOk(log: seq<Evidence>) {
    && (forall i :: 0 <= i < |log| ==> log[i].value > 0)
    && (forall i, j :: 0 <= i < j < |log| ==> log[i].user != log[j].user || log[i].sourceKey != log[j].sourceKey)
  }

  ghost predicate Inv(s: Store, defs: seq<Definition>) {
    EvidenceOk(s.evidence) && forall slot :: SlotOk(s, defs, slot)
  }
}
