/** The achievement services as they run: rows changed definition by definition, undone on an error. */
module AchievementDesk {
  import opened Common
  import opened Achievements
  import opened AchievementRuns

  class Desk {
    const definitions: seq<Definition>
    var evidence: seq<Evidence>
    var progress: map<Slot, Progress>
    var earned: map<Slot, Award>
    var published: seq<Event>

    constructor (definitions: seq<Definition>)
      ensures this.definitions == definitions && State() == EMPTY && Inv(State(), definitions)
    {
      this.definitions := definitions;
      evidence, progress, earned, published := [], map[], map[], [];
    }

    ghost function State(): Store
      reads this
    {
      Store(evidence, progress, earned, published)
    }

    method CriterionValue(user: UserId, version: Version) returns (value: Option<(int, int)>)
      ensures value == if ValidCriteria(version.criteria)
                       then Some((Aggregate(evidence, user, version.criteria), version.criteria.target)) else None
    {
      var c := version.criteria;
      if c.evidenceType == "" || c.target <= 0 || c.aggregation !in {"count", "sum", "max"} { return None; }
      var chosen := Selected(evidence, user, c.evidenceType);
      var total := 0;
      if c.aggregation == "count" {
        total := |chosen|;
      } else if c.aggregation == "sum" {
        total := Total(chosen);
      } else {
        total := Largest(chosen);
      }
      value := Some((total, c.target));
    }

    method AdvanceOne(i: nat, e: Evidence, current: int, target: int)
      requires i < |definitions| && Offered(definitions[i])
      requires current == Aggregate(evidence, e.user, definitions[i].current.value.criteria)
      requires target == definitions[i].current.value.criteria.target
      modifies this`progress, this`earned, this`published
      ensures State() == Advance(old(State()), definitions, i, e)
    {
      var definition := definitions[i];
      var version := definition.current.value;
      var slot := Slot(e.user, i);
      var row := if slot in progress then progress[slot] else Progress(version, 0, target, 0);
      progress := progress[slot := Progress(version, current, target, row.revision + 1)];
      if current < target { return; }
      if slot !in earned {
        earned := earned[slot := Award(version, e.evidenceType, current, target, e.sourceKey, e.occurredAt)];
        published := published + [AchievementEarned(slot, definition.code, version.titleEn, e.occurredAt)];
      }
    }

    method Record(active: bool, e: Evidence) returns (reply: Result<bool, Error>)
      modifies this`evidence, this`progress, this`earned, this`published
      ensures Outcome(State(), reply) == RecordEvidence(old(State()), definitions, active, e)
      ensures old(Inv(State(), definitions)) ==> Inv(State(), definitions)
    {
      if Inv(State(), definitions) { RecordKeepsInv(State(), definitions, active, e); }
      if e.value <= 0 { return Err(RuleError); }
      if !active { return Err(NoSuchUser); }
      if exists i :: 0 <= i < |evidence| && evidence[i].user == e.user && evidence[i].sourceKey == e.sourceKey {
        return Ok(false);
      }
      var savepoint := (evidence, progress, earned, published);
      evidence := evidence + [e];
      ghost var s0 := State();
      for i := 0 to |definitions|
        invariant Visit(s0, definitions, e, i) == Some(State())
        invariant evidence == s0.evidence
      {
        var definition := definitions[i];
        if definition.isActive && definition.current.Some? && definition.current.value.criteria.evidenceType == e.evidenceType {
          var value := CriterionValue(e.user, definition.current.value);
          if value.None? {
            VisitFailsIff(s0, definitions, e, |definitions|);
            assert Concerns(definitions[i], e.evidenceType);
            evidence, progress, earned, published := savepoint.0, savepoint.1, savepoint.2, savepoint.3;
            return Err(RuleError);
          }
          AdvanceOne(i, e, value.value.0, value.value.1);
        }
      }
      reply := Ok(true);
    }

    method RebuildProgress(user: UserId) returns (reply: Result<(), Error>)
      modifies this`progress
      ensures Outcome(State(), reply) == Rebuild(old(State()), definitions, user)
    {
      ghost var s0 := State();
      for i := 0 to |definitions|
        invariant RebuildFirst(s0, definitions, user, i) == Outcome(State(), Ok(()))
        invariant evidence == s0.evidence
      {
        if definitions[i].isActive && definitions[i].current.Some? {
          var version := definitions[i].current.value;
          var value := CriterionValue(user, version);
          if value.None? {
            RebuildStops(s0, user, i, |definitions|);
            return Err(RuleError);
          }
          var slot := Slot(user, i);
          var revision := if slot in progress then progress[slot].revision else 0;
          progress := progress[slot := Progress(version, value.value.0, value.value.1, revision)];
        }
      }
      reply := Ok(());
    }

    lemma {:induction false} RebuildStops(s: Store, user: UserId, i: nat, k: nat)
      requires i < k <= |definitions|
      requires RebuildFirst(s, definitions, user, i).reply.Ok?
      requires Offered(definitions[i]) && !ValidCriteria(definitions[i].current.value.criteria)
      ensures RebuildFirst(s, definitions, user, k) == Outcome(RebuildFirst(s, definitions, user, i).store, Err(RuleError))
      decreases k
    {
      if i + 1 < k { RebuildStops(s, user, i, k - 1); }
    }

    method CatalogForUser(user: UserId, language: string) returns (entries: seq<Entry>)
      ensures entries == Catalog(State(), definitions, user, language)
    {
      entries := [];
      for i := 0 to |definitions|
        invariant entries == CatalogOf(State(), definitions, user, language, i)
      {
        var definition := definitions[i];
        if definition.isActive && definition.current.Some? {
          var version := definition.current.value;
          var slot := Slot(user, i);
          entries := entries + [Entry(
            definition.code,
            if language == "ar" then version.titleAr else version.titleEn,
            if slot in progress then progress[slot].current else 0,
            if slot in progress then progress[slot].target else version.criteria.target,
            if slot in earned then Some(earned[slot].earnedAt) else None)];
        }
      }
    }
  }
}
