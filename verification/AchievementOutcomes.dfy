/**
 What the achievement services accept, store, publish and show, told from the evidence and the definitions
 alone.
*/
module AchievementOutcomes {
  import opened Common
  import opened Achievements
  import opened AchievementRuns

  // ---------------------------------------------------------------- the three aggregations

  predicate Counts(e: Evidence, user: UserId, c: Criteria) {
    e.user == user && e.evidenceType == c.evidenceType
  }

  /** Counting counts the user's evidence of the criteria's type. */
  lemma {:induction false} CountingCountsPositions(log: seq<Evidence>, user: UserId, c: Criteria)
    requires c.aggregation == "count"
    ensures Aggregate(log, user, c) == |set i | 0 <= i < |log| && Counts(log[i], user, c)|
  {
    if log != [] {
      var n := |log| - 1;
      var front := log[..n];
      CountingCountsPositions(front, user, c);
      var before := set i | 0 <= i < |front| && Counts(front[i], user, c);
      var after := set i | 0 <= i < |log| && Counts(log[i], user, c);
      assert forall i :: 0 <= i < n ==> front[i] == log[i];
      var more := Counts(log[n], user, c);
      assert after == if more then before + {n} else before;
    }
  }

  /** Adding adds up its values, one piece of evidence after another. */
  lemma {:induction false} AddingAddsValues(log: seq<Evidence>, e: Evidence, user: UserId, c: Criteria)
    requires c.aggregation == "sum"
    ensures Aggregate([], user, c) == 0
    ensures Aggregate(log + [e], user, c) == Aggregate(log, user, c) + if Counts(e, user, c) then e.value else 0
  {
    SelectedAppended(log, e, user, c.evidenceType);
    var chosen := Selected(log, user, c.evidenceType);
    assert (chosen + [e])[..|chosen|] == chosen;
  }

  lemma {:induction false} SelectedMeans(log: seq<Evidence>, user: UserId, kind: string, e: Evidence)
    ensures e in Selected(log, user, kind) <==> e in log && e.user == user && e.evidenceType == kind
  {
    if log != [] {
      var n := |log| - 1;
      SelectedMeans(log[..n], user, kind, e);
      assert log == log[..n] + [log[n]];
    }
  }

  /** The maximum is the largest of its values, and zero without any. */
  lemma {:induction false} MaximumIsTheLargestValue(log: seq<Evidence>, user: UserId, c: Criteria)
    requires c.aggregation == "max" && forall i :: 0 <= i < |log| ==> log[i].value > 0
    ensures forall e :: e in log && Counts(e, user, c) ==> e.value <= Aggregate(log, user, c)
    ensures (exists e :: e in log && Counts(e, user, c) && e.value == Aggregate(log, user, c))
            || (Aggregate(log, user, c) == 0 && forall e :: e in log ==> !Counts(e, user, c))
  {
    var chosen := Selected(log, user, c.evidenceType);
    forall e ensures e in chosen <==> e in log && Counts(e, user, c) { SelectedMeans(log, user, c.evidenceType, e); }
    forall i | 0 <= i < |chosen| ensures chosen[i].value > 0 { assert chosen[i] in chosen; }
    LargestIsTheMaximum(chosen);
    if chosen != [] {
      var i :| 0 <= i < |chosen| && chosen[i].value == Largest(chosen);
      assert chosen[i] in chosen;
    }
    forall e | e in log && Counts(e, user, c) ensures e.value <= Aggregate(log, user, c) {
      var i :| 0 <= i < |chosen| && chosen[i] == e;
    }
  }

  // ---------------------------------------------------------------- accepting evidence

  /** A definition the evidence is for: active, with a version that asks for its type. */
  predicate AsksFor(d: Definition, kind: string) {
    d.isActive && d.current.Some? && d.current.value.criteria.evidenceType == kind
  }

  /** The version's criteria name a type, a positive target and one of the three aggregations. */
  predicate IsWellFormed(c: Criteria) {
    c.evidenceType != "" && c.target >= 1 && (c.aggregation == "count" || c.aggregation == "sum" || c.aggregation == "max")
  }

  /** Evidence is stored, as it came and at the end, exactly when its value is positive, its user active, its
      source key new for the user and every definition that asks for it well formed. A repeated key is
      answered as known; everything else is refused; in neither case does anything change. */
  lemma {:induction false} EvidenceIsStoredIff(s: Store, defs: seq<Definition>, active: bool, e: Evidence)
    ensures var r := RecordEvidence(s, defs, active, e);
            var known := exists i :: 0 <= i < |s.evidence| && s.evidence[i].user == e.user && s.evidence[i].sourceKey == e.sourceKey;
            var bad := exists i :: 0 <= i < |defs| && AsksFor(defs[i], e.evidenceType) && !IsWellFormed(defs[i].current.value.criteria);
            if e.value > 0 && active && !known && !bad
            then r.reply == Ok(true) && r.store.evidence == s.evidence + [e]
            else r.store == s && (r.reply == Ok(false) <==> e.value > 0 && active && known) && r.reply != Ok(true)
  {
    RecordingIsAllOrNothing(s, defs, active, e);
    forall d: Definition ensures AsksFor(d, e.evidenceType) <==> Concerns(d, e.evidenceType) {}
    forall c: Criteria ensures IsWellFormed(c) <==> ValidCriteria(c) {}
  }

  // ---------------------------------------------------------------- publishing

  /** The event of an award carries the definition's code, its version's English title and the award's time. */
  ghost predicate IsAnnounced(s: Store, defs: seq<Definition>, slot: Slot) {
    slot in s.earned && slot.definition < |defs| && defs[slot.definition].current.Some?
    && exists j :: 0 <= j < |s.published|
         && s.published[j] == AchievementEarned(slot, defs[slot.definition].code, defs[slot.definition].current.value.titleEn,
                                                s.earned[slot].earnedAt)
  }

  ghost predicate AllAnnounced(s: Store, defs: seq<Definition>) {
    forall slot :: slot in s.earned ==> IsAnnounced(s, defs, slot)
  }

  lemma {:induction false} AdvanceAnnounces(s: Store, defs: seq<Definition>, i: nat, e: Evidence)
    requires i < |defs| && Offered(defs[i]) && AllAnnounced(s, defs)
    ensures AllAnnounced(Advance(s, defs, i, e), defs)
  {
    var t := Advance(s, defs, i, e);
    assert s.published <= t.published;
    forall slot | slot in t.earned ensures IsAnnounced(t, defs, slot) {
      if slot in s.earned {
        assert IsAnnounced(s, defs, slot);
        var j :| 0 <= j < |s.published|
          && s.published[j] == AchievementEarned(slot, defs[slot.definition].code, defs[slot.definition].current.value.titleEn,
                                                 s.earned[slot].earnedAt);
        assert t.published[j] == s.published[j];
      } else {
        assert t.published[|s.published|].slot == slot;
      }
    }
  }

  lemma {:induction false} VisitAnnounces(s: Store, defs: seq<Definition>, e: Evidence, k: nat)
    requires k <= |defs| && AllAnnounced(s, defs) && Visit(s, defs, e, k).Some?
    ensures AllAnnounced(Visit(s, defs, e, k).value, defs)
  {
    if k > 0 {
      VisitAnnounces(s, defs, e, k - 1);
      if Concerns(defs[k - 1], e.evidenceType) { AdvanceAnnounces(Visit(s, defs, e, k - 1).value, defs, k - 1, e); }
    }
  }

  /** In every run each award was announced once, with its own code, title and time. */
  lemma {:induction false} AwardsAreAnnounced(defs: seq<Definition>, steps: seq<Step>)
    ensures AllAnnounced(Execute(EMPTY, defs, steps), defs)
  {
    if steps != [] {
      var front := steps[..|steps| - 1];
      AwardsAreAnnounced(defs, front);
      var s := Execute(EMPTY, defs, front);
      match steps[|steps| - 1]
      case Record(active, e) =>
        if RecordEvidence(s, defs, active, e).reply == Ok(true) {
          var s0 := s.(evidence := s.evidence + [e]);
          forall slot | slot in s0.earned ensures IsAnnounced(s0, defs, slot) { assert IsAnnounced(s, defs, slot); }
          VisitAnnounces(s0, defs, e, |defs|);
        }
      case RebuildFor(user) =>
        RebuildIsExact(s, defs, user, Slot(user, 0));
        var t := Rebuild(s, defs, user).store;
        forall slot | slot in t.earned ensures IsAnnounced(t, defs, slot) { assert IsAnnounced(s, defs, slot); }
    }
  }

  // ---------------------------------------------------------------- showing

  lemma {:induction false} CatalogOfPrefix(s: Store, defs: seq<Definition>, d: Definition, user: UserId, language: string, k: nat)
    requires k <= |defs|
    ensures CatalogOf(s, defs + [d], user, language, k) == CatalogOf(s, defs, user, language, k)
  {
    if k > 0 {
      assert (defs + [d])[k - 1] == defs[k - 1];
      CatalogOfPrefix(s, defs, d, user, language, k - 1);
    }
  }

  /** The catalog lists the active definitions that have a version, in order: the code, the title in Arabic or
      English, the progress or zero, its target or the version's, and when it was earned. */
  lemma {:induction false} CatalogEntry(s: Store, defs: seq<Definition>, d: Definition, user: UserId, language: string)
    ensures Catalog(s, [], user, language) == []
    ensures var slot := Slot(user, |defs|);
            Catalog(s, defs + [d], user, language) == Catalog(s, defs, user, language) +
            if !d.isActive || d.current.None? then []
            else [Entry(d.code,
                        if language == "ar" then d.current.value.titleAr else d.current.value.titleEn,
                        if slot in s.progress then s.progress[slot].current else 0,
                        if slot in s.progress then s.progress[slot].target else d.current.value.criteria.target,
                        if slot in s.earned then Some(s.earned[slot].earnedAt) else None)]
  {
    var all := defs + [d];
    assert all[|defs|] == d;
    CatalogOfPrefix(s, defs, d, user, language, |defs|);
  }

  /** A rebuild writes the version, the aggregate and the target of every well formed active definition before
      the first that is not, for its user alone, and keeps revisions, awards, events and evidence. */
  lemma {:induction false} RebuildWrites(s: Store, defs: seq<Definition>, user: UserId, slot: Slot)
    ensures var r := Rebuild(s, defs, user); var i := slot.definition;
            var stops := exists j :: 0 <= j <= i && j < |defs| && defs[j].isActive && defs[j].current.Some?
                                     && !IsWellFormed(defs[j].current.value.criteria);
            && r.store.evidence == s.evidence && r.store.earned == s.earned && r.store.published == s.published
            && if slot.user == user && i < |defs| && defs[i].isActive && defs[i].current.Some? && !stops
               then
                 var v := defs[i].current.value;
                 && slot in r.store.progress
                 && r.store.progress[slot] == Progress(v, Aggregate(s.evidence, user, v.criteria), v.criteria.target,
                                                       if slot in s.progress then s.progress[slot].revision else 0)
               else
                 && (slot in r.store.progress <==> slot in s.progress)
                 && (slot in s.progress ==> r.store.progress[slot] == s.progress[slot])
  {
    RebuildIsExact(s, defs, user, slot);
    var i := slot.definition;
    forall c: Criteria ensures IsWellFormed(c) <==> ValidCriteria(c) {}
    if i < |defs| {
      assert Reached(defs, i + 1) <==> !exists j :: 0 <= j <= i && j < |defs| && defs[j].isActive && defs[j].current.Some?
                                                   && !IsWellFormed(defs[j].current.value.criteria);
    }
  }
}
