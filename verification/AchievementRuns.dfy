/**
 What holds of the achievement records over every run, with any definitions, valid or not, as long
 as they stay the same: progress is the aggregate, an award and its event come exactly once and
 exactly at the first crossing, and a rebuild is invisible in the catalog.
*/
module AchievementRuns {
  import opened Common
  import opened Achievements

  // ---------------------------------------------------------------- aggregates

  lemma SelectedAppended(log: seq<Evidence>, e: Evidence, user: UserId, kind: string)
    ensures Selected(log + [e], user, kind)
         == if Matches(e, user, kind) then Selected(log, user, kind) + [e] else Selected(log, user, kind)
  {
    assert (log + [e])[..|log|] == log;
  }

  lemma {:induction false} AggregateGrows(log: seq<Evidence>, e: Evidence, user: UserId, c: Criteria)
    requires e.value > 0
    ensures Aggregate(log, user, c) <= Aggregate(log + [e], user, c)
  {
    SelectedAppended(log, e, user, c.evidenceType);
    var chosen := Selected(log, user, c.evidenceType);
    assert (chosen + [e])[..|chosen|] == chosen;
  }

  lemma {:induction false} AggregateOnlyGrows(log: seq<Evidence>, user: UserId, c: Criteria, k: nat)
    requires k <= |log| && forall i :: 0 <= i < |log| ==> log[i].value > 0
    ensures Aggregate(log[..k], user, c) <= Aggregate(log, user, c)
    decreases |log| - k
  {
    if k < |log| {
      assert log[..k + 1] == log[..k] + [log[k]];
      AggregateGrows(log[..k], log[k], user, c);
      AggregateOnlyGrows(log, user, c, k + 1);
    } else {
      assert log[..k] == log;
    }
  }

  /** What the maximum means: nothing selected exceeds it, and some selected value is it. */
  lemma {:induction false} LargestIsTheMaximum(log: seq<Evidence>)
    requires forall i :: 0 <= i < |log| ==> log[i].value > 0
    ensures forall i :: 0 <= i < |log| ==> log[i].value <= Largest(log)
    ensures log == [] ==> Largest(log) == 0
    ensures log != [] ==> exists i :: 0 <= i < |log| && log[i].value == Largest(log)
  {
    if log != [] {
      var n := |log| - 1;
      var front := log[..n];
      LargestIsTheMaximum(front);
      if Largest(front) < log[n].value {
        assert log[n].value == Largest(log);
      } else if n > 0 {
        var i :| 0 <= i < |front| && front[i].value == Largest(front);
        assert log[i].value == Largest(log);
      }
      forall i | 0 <= i < |log| ensures log[i].value <= Largest(log) {
        if i < n { assert log[i] == front[i]; }
      }
    }
  }

  lemma {:induction false} FirstReachedIsUnique(log: seq<Evidence>, user: UserId, c: Criteria, j: nat, k: nat)
    requires forall i :: 0 <= i < |log| ==> log[i].value > 0
    requires FirstReached(log, user, c, j) && FirstReached(log, user, c, k)
    ensures j == k
  {
    if j < k {
      assert log[..k][..j + 1] == log[..j + 1];
      AggregateOnlyGrows(log[..k], user, c, j + 1);
    } else if k < j {
      assert log[..j][..k + 1] == log[..k + 1];
      AggregateOnlyGrows(log[..j], user, c, k + 1);
    }
  }

  // ---------------------------------------------------------------- one slot at a time

  predicate SameSlot(s: Store, t: Store, slot: Slot) {
    && (slot in s.progress <==> slot in t.progress)
    && (slot in s.progress ==> s.progress[slot] == t.progress[slot])
    && (slot in s.earned <==> slot in t.earned)
    && (slot in s.earned ==> s.earned[slot] == t.earned[slot])
    && Published(s.published, slot) == Published(t.published, slot)
  }

  lemma PublishedAppended(published: seq<Event>, e: Event, slot: Slot)
    ensures Published(published + [e], slot) == Published(published, slot) + if e.slot == slot then 1 else 0
  {
    assert (published + [e])[..|published|] == published;
  }

  lemma {:induction false} AdvanceIsLocal(s: Store, t: Store, defs: seq<Definition>, i: nat, e: Evidence, slot: Slot)
    requires i < |defs| && Offered(defs[i]) && s.evidence == t.evidence && SameSlot(s, t, slot)
    ensures slot == Slot(e.user, i) ==> SameSlot(Advance(s, defs, i, e), Advance(t, defs, i, e), slot)
    ensures slot != Slot(e.user, i) ==> SameSlot(s, Advance(t, defs, i, e), slot)
  {
    var event := AchievementEarned(Slot(e.user, i), defs[i].code, defs[i].current.value.titleEn, e.occurredAt);
    PublishedAppended(s.published, event, slot);
    PublishedAppended(t.published, event, slot);
  }

  /** A visit of the first `k` definitions moves exactly the slots it concerns, each once. */
  lemma {:induction false} VisitAt(s: Store, defs: seq<Definition>, e: Evidence, k: nat, slot: Slot)
    requires k <= |defs| && Visit(s, defs, e, k).Some?
    ensures Visit(s, defs, e, k).value.evidence == s.evidence
    ensures var t := Visit(s, defs, e, k).value; var i := slot.definition;
            if slot.user == e.user && i < k && Concerns(defs[i], e.evidenceType)
            then ValidCriteria(defs[i].current.value.criteria) && SameSlot(Advance(s, defs, i, e), t, slot)
            else SameSlot(s, t, slot)
  {
    if k > 0 {
      VisitAt(s, defs, e, k - 1, slot);
      if Concerns(defs[k - 1], e.evidenceType) {
        var t := Visit(s, defs, e, k - 1).value;
        if slot == Slot(e.user, k - 1) {
          AdvanceIsLocal(s, t, defs, k - 1, e, slot);
        } else {
          AdvanceIsLocal(t, t, defs, k - 1, e, slot);
        }
      }
    }
  }

  /** Recording succeeds exactly when every definition it concerns is valid. */
  lemma {:induction false} VisitFailsIff(s: Store, defs: seq<Definition>, e: Evidence, k: nat)
    requires k <= |defs|
    ensures Visit(s, defs, e, k).None? <==>
            exists i :: 0 <= i < k && Concerns(defs[i], e.evidenceType) && !ValidCriteria(defs[i].current.value.criteria)
  {
    if k > 0 { VisitFailsIff(s, defs, e, k - 1); }
  }

  lemma {:induction false} AwardStays(log: seq<Evidence>, e: Evidence, user: UserId, version: Version, award: Award)
    requires AwardOk(log, user, version, award)
    ensures AwardOk(log + [e], user, version, award)
  {
    var k: nat :| FirstReached(log, user, version.criteria, k)
      && award == Award(version, version.criteria.evidenceType, Aggregate(log[..k + 1], user, version.criteria),
                        version.criteria.target, log[k].sourceKey, log[k].occurredAt);
    assert (log + [e])[..k] == log[..k] && (log + [e])[..k + 1] == log[..k + 1];
    assert FirstReached(log + [e], user, version.criteria, k);
  }

  lemma {:induction false} NewAward(log: seq<Evidence>, e: Evidence, user: UserId, version: Version)
    requires Aggregate(log, user, version.criteria) < version.criteria.target <= Aggregate(log + [e], user, version.criteria)
    ensures AwardOk(log + [e], user, version,
                    Award(version, version.criteria.evidenceType, Aggregate(log + [e], user, version.criteria),
                          version.criteria.target, e.sourceKey, e.occurredAt))
  {
    var all := log + [e];
    assert all[..|log|] == log && all[..|log| + 1] == all;
    assert FirstReached(all, user, version.criteria, |log|);
  }

  /** Evidence that concerns the slot's definition. */
  lemma {:induction false} AdvanceKeepsSlot(s: Store, defs: seq<Definition>, e: Evidence, slot: Slot)
    requires SlotOk(s, defs, slot) && slot.user == e.user && e.value > 0
    requires slot.definition < |defs| && Concerns(defs[slot.definition], e.evidenceType)
    requires ValidCriteria(defs[slot.definition].current.value.criteria)
    ensures SlotOk(Advance(s.(evidence := s.evidence + [e]), defs, slot.definition, e), defs, slot)
  {
    var i := slot.definition;
    var version := defs[i].current.value;
    var log := s.evidence + [e];
    var t := Advance(s.(evidence := log), defs, i, e);
    SelectedAppended(s.evidence, e, e.user, version.criteria.evidenceType);
    AggregateGrows(s.evidence, e, e.user, version.criteria);
    PublishedAppended(s.published, AchievementEarned(slot, defs[i].code, version.titleEn, e.occurredAt), slot);
    assert ProgressOk(log, e.user, version, t.progress[slot]);
    if slot in s.earned {
      AwardStays(s.evidence, e, e.user, version, s.earned[slot]);
    } else {
      NoneReachedYet(s, defs, slot);
      if slot in t.earned { NewAward(s.evidence, e, e.user, version); }
    }
  }

  lemma {:induction false} NoneReachedYet(s: Store, defs: seq<Definition>, slot: Slot)
    requires SlotOk(s, defs, slot) && slot !in s.earned && slot.definition < |defs| && Offered(defs[slot.definition])
    requires ValidCriteria(defs[slot.definition].current.value.criteria)
    ensures var c := defs[slot.definition].current.value.criteria; Aggregate(s.evidence, slot.user, c) < c.target
  {
  }

  /** Evidence that does not. */
  lemma {:induction false} OtherEvidenceKeepsSlot(s: Store, t: Store, defs: seq<Definition>, e: Evidence, slot: Slot)
    requires SlotOk(s, defs, slot) && SameSlot(s, t, slot) && t.evidence == s.evidence + [e]
    requires slot.definition < |defs| && Concerns(defs[slot.definition], e.evidenceType) ==> slot.user != e.user
    ensures SlotOk(t, defs, slot)
  {
    var i := slot.definition;
    if i < |defs| && Offered(defs[i]) {
      var version := defs[i].current.value;
      SelectedAppended(s.evidence, e, slot.user, version.criteria.evidenceType);
      if slot in s.earned { AwardStays(s.evidence, e, slot.user, version, s.earned[slot]); }
    }
  }

  lemma {:induction false} SlotOkDependsOnSlot(s: Store, t: Store, defs: seq<Definition>, slot: Slot)
    requires SlotOk(s, defs, slot) && SameSlot(s, t, slot) && t.evidence == s.evidence
    ensures SlotOk(t, defs, slot)
  {
  }

  lemma {:induction false} RecordKeepsInv(s: Store, defs: seq<Definition>, active: bool, e: Evidence)
    requires Inv(s, defs)
    ensures Inv(RecordEvidence(s, defs, active, e).store, defs)
  {
    var t := RecordEvidence(s, defs, active, e).store;
    if RecordEvidence(s, defs, active, e).reply == Ok(true) {
      var s0 := s.(evidence := s.evidence + [e]);
      VisitAt(s0, defs, e, |defs|, Slot(0, 0));
      assert t.evidence == s.evidence + [e];
      forall slot ensures SlotOk(t, defs, slot) {
        var i := slot.definition;
        assert SlotOk(s, defs, slot);
        VisitAt(s0, defs, e, |defs|, slot);
        if slot.user == e.user && i < |defs| && Concerns(defs[i], e.evidenceType) {
          AdvanceKeepsSlot(s, defs, e, slot);
          SlotOkDependsOnSlot(Advance(s0, defs, i, e), t, defs, slot);
        } else {
          assert SameSlot(s, s0, slot);
          OtherEvidenceKeepsSlot(s, t, defs, e, slot);
        }
      }
    }
  }

  // ---------------------------------------------------------------- rebuilding

  /** How far a rebuild gets: up to the first invalid definition on offer. */
  predicate Reached(defs: seq<Definition>, k: nat) {
    k <= |defs| && forall i :: 0 <= i < k && Offered(defs[i]) ==> ValidCriteria(defs[i].current.value.criteria)
  }

  predicate RebuiltSlot(s: Store, t: Store, defs: seq<Definition>, user: UserId, k: nat, slot: Slot) {
    var i := slot.definition;
    if slot.user == user && i < k <= |defs| && Offered(defs[i]) && Reached(defs, i + 1)
    then slot in t.progress && t.progress[slot] == Refreshed(s, defs, user, i)
    else (slot in s.progress <==> slot in t.progress) && (slot in s.progress ==> s.progress[slot] == t.progress[slot])
  }

  /** From any records whatever, a rebuild sets the user's progress on each definition it reaches and
      nothing else. It raises exactly when a definition on offer is invalid. */
  lemma {:induction false} RebuildAt(s: Store, defs: seq<Definition>, user: UserId, k: nat, slot: Slot)
    requires k <= |defs|
    ensures var r := RebuildFirst(s, defs, user, k);
            && r.store == s.(progress := r.store.progress)
            && (r.reply.Ok? <==> Reached(defs, k))
            && RebuiltSlot(s, r.store, defs, user, k, slot)
  {
    if k > 0 {
      RebuildAt(s, defs, user, k - 1, slot);
      RebuildAt(s, defs, user, k - 1, Slot(user, k - 1));
    }
  }

  lemma {:induction false} RebuildIsExact(s: Store, defs: seq<Definition>, user: UserId, slot: Slot)
    ensures var r := Rebuild(s, defs, user);
            && r.store == s.(progress := r.store.progress)
            && (r.reply.Ok? <==> Reached(defs, |defs|))
            && RebuiltSlot(s, r.store, defs, user, |defs|, slot)
  {
    RebuildAt(s, defs, user, |defs|, slot);
  }

  lemma {:induction false} RebuildKeepsInv(s: Store, defs: seq<Definition>, user: UserId)
    requires Inv(s, defs)
    ensures Inv(Rebuild(s, defs, user).store, defs)
  {
    var t := Rebuild(s, defs, user).store;
    RebuildIsExact(s, defs, user, Slot(0, 0));
    forall slot ensures SlotOk(t, defs, slot) {
      assert SlotOk(s, defs, slot);
      RebuildIsExact(s, defs, user, slot);
    }
  }

  /** Rebuilding a sound store never changes what any user's catalog shows, even when it raises. */
  lemma {:induction false} RebuildKeepsCatalog(s: Store, defs: seq<Definition>, user: UserId, viewer: UserId, language: string)
    requires Inv(s, defs)
    ensures Catalog(Rebuild(s, defs, user).store, defs, viewer, language) == Catalog(s, defs, viewer, language)
  {
    RebuildKeepsEntries(s, defs, user, viewer, language, |defs|);
  }

  lemma {:induction false} RebuildKeepsEntries(s: Store, defs: seq<Definition>, user: UserId, viewer: UserId, language: string, k: nat)
    requires Inv(s, defs) && k <= |defs|
    ensures CatalogOf(Rebuild(s, defs, user).store, defs, viewer, language, k) == CatalogOf(s, defs, viewer, language, k)
  {
    if k > 0 {
      RebuildKeepsEntries(s, defs, user, viewer, language, k - 1);
      assert SlotOk(s, defs, Slot(viewer, k - 1));
      RebuildIsExact(s, defs, user, Slot(viewer, k - 1));
    }
  }

  /** With valid definitions, rebuilding repairs arbitrarily damaged progress: the store that had
      every value right and the damaged one show the same catalog afterwards. */
  lemma {:induction false} RebuildRepairs(s: Store, damaged: map<Slot, Progress>, defs: seq<Definition>, user: UserId, language: string)
    requires Inv(s, defs) && Reached(defs, |defs|)
    ensures Catalog(Rebuild(s.(progress := damaged), defs, user).store, defs, user, language) == Catalog(s, defs, user, language)
  {
    RepairsEntries(s, damaged, defs, user, language, |defs|);
  }

  lemma {:induction false} RepairsEntries(s: Store, damaged: map<Slot, Progress>, defs: seq<Definition>, user: UserId, language: string, k: nat)
    requires Inv(s, defs) && Reached(defs, |defs|) && k <= |defs|
    ensures CatalogOf(Rebuild(s.(progress := damaged), defs, user).store, defs, user, language, k)
         == CatalogOf(s, defs, user, language, k)
  {
    if k > 0 {
      RepairsEntries(s, damaged, defs, user, language, k - 1);
      assert SlotOk(s, defs, Slot(user, k - 1));
      RebuildIsExact(s.(progress := damaged), defs, user, Slot(user, k - 1));
    }
  }

  // ---------------------------------------------------------------- runs

  lemma {:induction false} NextKeepsInv(s: Store, defs: seq<Definition>, step: Step)
    requires Inv(s, defs)
    ensures Inv(Next(s, defs, step), defs)
  {
    match step
    case Record(active, e) => RecordKeepsInv(s, defs, active, e);
    case RebuildFor(user) => RebuildKeepsInv(s, defs, user);
  }

  lemma {:induction false} RunsKeepInv(s: Store, defs: seq<Definition>, steps: seq<Step>)
    requires Inv(s, defs)
    ensures Inv(Execute(s, defs, steps), defs)
  {
    if steps != [] {
      RunsKeepInv(s, defs, steps[..|steps| - 1]);
      NextKeepsInv(Execute(s, defs, steps[..|steps| - 1]), defs, steps[|steps| - 1]);
    }
  }

  /** In every run: an award exists exactly when the aggregate has reached the target, was made by the
      very evidence that first reached it, and was published exactly once. Progress, where there is
      any, is the aggregate, and its revision counts the matching evidence. */
  lemma {:induction false} AwardsAreExact(defs: seq<Definition>, steps: seq<Step>, user: UserId, i: nat)
    requires i < |defs| && Offered(defs[i])
    ensures var s := Execute(EMPTY, defs, steps);
            var slot := Slot(user, i);
            var version := defs[i].current.value;
            && (ValidCriteria(version.criteria) ==>
                  (slot in s.earned <==> Aggregate(s.evidence, user, version.criteria) >= version.criteria.target))
            && (slot in s.earned ==> AwardOk(s.evidence, user, version, s.earned[slot]))
            && Published(s.published, slot) == (if slot in s.earned then 1 else 0)
            && (slot in s.progress ==> ProgressOk(s.evidence, user, version, s.progress[slot]))
            && (slot !in s.progress ==> Aggregate(s.evidence, user, version.criteria) == 0)
  {
    RunsKeepInv(EMPTY, defs, steps);
    assert SlotOk(Execute(EMPTY, defs, steps), defs, Slot(user, i));
  }

  /** The catalog is a function of the evidence: it shows the aggregate, the target, and the time of
      the evidence that first reached it. */
  lemma {:induction false} CatalogShowsTheAggregate(defs: seq<Definition>, steps: seq<Step>, user: UserId, language: string, i: nat)
    requires i < |defs| && Offered(defs[i])
    ensures var s := Execute(EMPTY, defs, steps);
            var c := defs[i].current.value.criteria;
            var entry := EntryOf(s, defs, user, language, i);
            && entry.current == Aggregate(s.evidence, user, c) && entry.target == c.target
            && (ValidCriteria(c) ==> forall k: nat :: FirstReached(s.evidence, user, c, k) ==>
                  entry.earnedAt == Some(s.evidence[k].occurredAt))
            && (entry.earnedAt.Some? ==> exists k: nat :: FirstReached(s.evidence, user, c, k))
  {
    var s := Execute(EMPTY, defs, steps);
    var c := defs[i].current.value.criteria;
    AwardsAreExact(defs, steps, user, i);
    RunsKeepInv(EMPTY, defs, steps);
    forall k: nat | ValidCriteria(c) && FirstReached(s.evidence, user, c, k)
      ensures EntryOf(s, defs, user, language, i).earnedAt == Some(s.evidence[k].occurredAt)
    {
      AggregateOnlyGrows(s.evidence, user, c, k + 1);
      var award := s.earned[Slot(user, i)];
      var j: nat :| FirstReached(s.evidence, user, c, j) && award.earnedAt == s.evidence[j].occurredAt;
      FirstReachedIsUnique(s.evidence, user, c, j, k);
    }
  }

  lemma {:induction false} RecordKeepsAward(s: Store, defs: seq<Definition>, active: bool, e: Evidence, slot: Slot)
    requires slot in s.earned
    ensures var t := RecordEvidence(s, defs, active, e).store; slot in t.earned && t.earned[slot] == s.earned[slot]
  {
    if RecordEvidence(s, defs, active, e).reply == Ok(true) {
      VisitAt(s.(evidence := s.evidence + [e]), defs, e, |defs|, slot);
    }
  }

  /** An award, once made, is never changed or taken back. */
  lemma {:induction false} AwardsAreForever(s: Store, defs: seq<Definition>, steps: seq<Step>, slot: Slot)
    requires slot in s.earned
    ensures slot in Execute(s, defs, steps).earned && Execute(s, defs, steps).earned[slot] == s.earned[slot]
  {
    if steps != [] {
      AwardsAreForever(s, defs, steps[..|steps| - 1], slot);
      var before := Execute(s, defs, steps[..|steps| - 1]);
      match steps[|steps| - 1]
      case Record(active, e) => RecordKeepsAward(before, defs, active, e, slot);
      case RebuildFor(user) => RebuildIsExact(before, defs, user, slot);
    }
  }

  /** Evidence is refused, with nothing changed, exactly in these cases. */
  lemma {:induction false} RecordingIsAllOrNothing(s: Store, defs: seq<Definition>, active: bool, e: Evidence)
    ensures var r := RecordEvidence(s, defs, active, e);
            var bad := exists i :: 0 <= i < |defs| && Concerns(defs[i], e.evidenceType)
                                   && !ValidCriteria(defs[i].current.value.criteria);
            && (r.reply == Ok(true) <==> e.value > 0 && active && !Known(s.evidence, e.user, e.sourceKey) && !bad)
            && (r.reply == Ok(true) ==> r.store.evidence == s.evidence + [e])
            && (r.reply != Ok(true) ==> r.store == s)
  {
    var s0 := s.(evidence := s.evidence + [e]);
    VisitFailsIff(s0, defs, e, |defs|);
    if Visit(s0, defs, e, |defs|).Some? { VisitAt(s0, defs, e, |defs|, Slot(0, 0)); }
  }
}
