/**
 What the daily tables hold, told from the recorded facts alone: for each day, metric and dimensions the
 sum of exactly the facts of that day, metric and dimensions, and for each day its distinct learners.
*/
module AnalyticsOutcomes {
  import opened Common
  import opened Analytics
  import opened AnalyticsRebuild

  /** The values of the facts that satisfy a condition. */
  function Sum(facts: seq<Fact>, keep: Fact -> bool): int {
    if facts == [] then 0 else (if keep(facts[0]) then facts[0].value else 0) + Sum(facts[1..], keep)
  }

  predicate OfRow(f: Fact, day: int, metric: Metric, dimensions: Dimensions) {
    86400 * day <= f.occurredAt < 86400 * (day + 1) && f.metric == metric && f.dimensions == dimensions
  }

  /** The learner did something on that day that counts as learning. */
  predicate LearnedOn(facts: seq<Fact>, day: int, learner: ActorId) {
    exists i :: 0 <= i < |facts| && 86400 * day <= facts[i].occurredAt < 86400 * (day + 1) && facts[i].actor == Some(learner)
      && (facts[i].metric == LessonCompletions || facts[i].metric == FocusSessions
          || facts[i].metric == QuizSubmissions || facts[i].metric == CommunityContributions)
  }

  ghost predicate RowIsExact(facts: seq<Fact>, daily: DailyTable, day: int, metric: Metric, dimensions: Dimensions) {
    var key := DayKey(day, metric, dimensions);
    var learners := if metric == DailyActiveLearners && dimensions == map[] then LearnersOf(facts, day) else {};
    && (key in daily <==> learners != {} || exists i :: 0 <= i < |facts| && OfRow(facts[i], day, metric, dimensions))
    && (key in daily ==> daily[key] == Sum(facts, (f: Fact) => OfRow(f, day, metric, dimensions)) + |learners|)
  }

  /** The distinct learners of a day. */
  ghost function LearnersOf(facts: seq<Fact>, day: int): (learners: set<ActorId>)
    ensures forall learner :: learner in learners <==> LearnedOn(facts, day, learner)
  {
    var learners := set i | 0 <= i < |facts| && facts[i].actor.Some? && LearnedOn(facts, day, facts[i].actor.value) :: facts[i].actor.value;
    learners
  }

  // ---------------------------------------------------------------- the same, as the projection counts it

  lemma {:induction false} SumAppended(facts: seq<Fact>, f: Fact, keep: Fact -> bool)
    ensures Sum(facts + [f], keep) == Sum(facts, keep) + if keep(f) then f.value else 0
  {
    if facts == [] {
      assert facts + [f] == [f];
    } else {
      assert (facts + [f])[1..] == facts[1..] + [f];
      SumAppended(facts[1..], f, keep);
    }
  }

  lemma DayBounds(at: int, day: int)
    ensures DayOf(at) == day <==> 86400 * day <= at < 86400 * (day + 1)
  {
  }

  lemma KeyMeans(f: Fact, day: int, metric: Metric, dimensions: Dimensions)
    ensures KeyOf(f) == DayKey(day, metric, dimensions) <==> OfRow(f, day, metric, dimensions)
  {
    DayBounds(f.occurredAt, day);
  }

  lemma {:induction false} SumsAgree(facts: seq<Fact>, day: int, metric: Metric, dimensions: Dimensions)
    ensures SumOf(facts, DayKey(day, metric, dimensions)) == Sum(facts, (f: Fact) => OfRow(f, day, metric, dimensions))
  {
    if facts != [] {
      var n := |facts| - 1;
      SumsAgree(facts[..n], day, metric, dimensions);
      KeyMeans(facts[n], day, metric, dimensions);
      SumAppended(facts[..n], facts[n], (f: Fact) => OfRow(f, day, metric, dimensions));
      assert facts == facts[..n] + [facts[n]];
    }
  }

  lemma {:induction false} MentionMeans(facts: seq<Fact>, day: int, metric: Metric, dimensions: Dimensions)
    ensures Mentioned(facts, DayKey(day, metric, dimensions))
            <==> exists i :: 0 <= i < |facts| && OfRow(facts[i], day, metric, dimensions)
  {
    if Mentioned(facts, DayKey(day, metric, dimensions)) {
      var f :| f in facts && KeyOf(f) == DayKey(day, metric, dimensions);
      KeyMeans(f, day, metric, dimensions);
      var i :| 0 <= i < |facts| && facts[i] == f;
    }
    if i :| 0 <= i < |facts| && OfRow(facts[i], day, metric, dimensions) {
      KeyMeans(facts[i], day, metric, dimensions);
      assert facts[i] in facts;
    }
  }

  lemma {:induction false} PairMeans(facts: seq<Fact>, day: int, learner: ActorId)
    ensures (day, learner) in Pairs(facts) <==> LearnedOn(facts, day, learner)
  {
    if facts != [] {
      var n := |facts| - 1;
      var front := facts[..n];
      PairMeans(front, day, learner);
      DayBounds(facts[n].occurredAt, day);
      assert forall i :: 0 <= i < n ==> front[i] == facts[i];
    }
  }

  lemma {:induction false} LearnersAreThePairs(facts: seq<Fact>, day: int)
    ensures ActiveOn(Pairs(facts), day) == |LearnersOf(facts, day)|
  {
    var pairs := set q | q in Pairs(facts) && q.0 == day;
    forall learner ensures (day, learner) in pairs <==> learner in LearnersOf(facts, day) {
      PairMeans(facts, day, learner);
    }
    SameSize(pairs, LearnersOf(facts, day), day);
  }

  lemma {:induction false} SameSize(pairs: set<Pair>, learners: set<ActorId>, day: int)
    requires forall q :: q in pairs ==> q.0 == day
    requires forall learner: ActorId :: (day, learner) in pairs <==> learner in learners
    ensures |pairs| == |learners|
    decreases |learners|
  {
    if learners == {} {
      assert pairs == {};
    } else {
      var learner :| learner in learners;
      SameSize(pairs - {(day, learner)}, learners - {learner}, day);
    }
  }

  lemma {:induction false} RowMeans(facts: seq<Fact>, daily: DailyTable, day: int, metric: Metric, dimensions: Dimensions)
    requires RowOk(facts, daily, DayKey(day, metric, dimensions))
    ensures RowIsExact(facts, daily, day, metric, dimensions)
  {
    SumsAgree(facts, day, metric, dimensions);
    MentionMeans(facts, day, metric, dimensions);
    LearnersAreThePairs(facts, day);
  }

  // ---------------------------------------------------------------- after any calls, after any rebuild

  predicate SameKey(f: Fact, g: Fact) {
    f.eventId == g.eventId && f.metric == g.metric
  }

  /** The call was the first with its event and metric, and the metric is known. */
  predicate IsRecorded(calls: seq<Fact>, i: nat) {
    i < |calls| && !calls[i].metric.Unknown? && forall j :: 0 <= j < i ==> !SameKey(calls[j], calls[i])
  }

  lemma {:induction false} RecordedMeans(calls: seq<Fact>, event: EventId, metric: Metric)
    ensures Recorded(RecordAll(EMPTY, calls).facts, event, metric)
            <==> !metric.Unknown? && exists i :: 0 <= i < |calls| && calls[i].eventId == event && calls[i].metric == metric
  {
    if calls != [] {
      var n := |calls| - 1;
      var front := calls[..n];
      RecordedMeans(front, event, metric);
      RecordedMeans(front, calls[n].eventId, calls[n].metric);
      var before, after := RecordAll(EMPTY, front).facts, RecordAll(EMPTY, calls).facts;
      assert forall i :: 0 <= i < n ==> front[i] == calls[i];
      assert after == before || after == before + [calls[n]];
      assert after != before ==> after[|before|] == calls[n];
      assert forall i :: 0 <= i < |before| ==> after[i] == before[i];
    }
  }

  /** The facts stored are exactly the calls that were the first with their event and a known metric, as made. */
  lemma {:induction false} RecordedFactsAreTheFirstCalls(calls: seq<Fact>, f: Fact)
    ensures f in RecordAll(EMPTY, calls).facts <==> exists i: nat :: IsRecorded(calls, i) && calls[i] == f
  {
    if calls != [] {
      var n := |calls| - 1;
      var front := calls[..n];
      RecordedFactsAreTheFirstCalls(front, f);
      RecordedMeans(front, calls[n].eventId, calls[n].metric);
      assert forall i :: 0 <= i < n ==> front[i] == calls[i];
      forall i: nat | i < n ensures IsRecorded(front, i) <==> IsRecorded(calls, i) {}
      var before, after := RecordAll(EMPTY, front).facts, RecordAll(EMPTY, calls).facts;
      assert IsRecorded(calls, n) <==> after == before + [calls[n]] && after != before;
      if i: nat :| IsRecorded(calls, i) && calls[i] == f { assert i < n ==> IsRecorded(front, i); }
      if i: nat :| IsRecorded(front, i) && front[i] == f { assert IsRecorded(calls, i); }
    }
  }

  /** After any calls every row is exact, and a day's learners are exactly those with some learning activity. */
  lemma {:induction false} DailyTableIsExact(calls: seq<Fact>, day: int, metric: Metric, dimensions: Dimensions, learner: ActorId)
    ensures var s := RecordAll(EMPTY, calls);
            && RowIsExact(s.facts, s.projection.daily, day, metric, dimensions)
            && ((day, learner) in s.projection.active <==> LearnedOn(s.facts, day, learner))
  {
    RecordingStaysConsistent(calls);
    var s := RecordAll(EMPTY, calls);
    assert RowOk(s.facts, s.projection.daily, DayKey(day, metric, dimensions));
    RowMeans(s.facts, s.projection.daily, day, metric, dimensions);
    assert PairOk(s.facts, s.projection.active, (day, learner));
    PairMeans(s.facts, day, learner);
  }

  /** From any tables whatever, a rebuild makes every row and learner of its range exact and leaves every
      other row and learner as it was. */
  lemma {:induction false} RebuildIsExact(s: Ledger, from: int, to: int, day: int, metric: Metric, dimensions: Dimensions, learner: ActorId)
    ensures var r := Rebuild(s, from, to); var key := DayKey(day, metric, dimensions);
            && r.facts == s.facts
            && (from <= day <= to ==>
                  && RowIsExact(s.facts, r.projection.daily, day, metric, dimensions)
                  && ((day, learner) in r.projection.active <==> LearnedOn(s.facts, day, learner)))
            && (!(from <= day <= to) ==>
                  && (key in r.projection.daily <==> key in s.projection.daily)
                  && (key in s.projection.daily ==> r.projection.daily[key] == s.projection.daily[key])
                  && ((day, learner) in r.projection.active <==> (day, learner) in s.projection.active)
                  && ((day, learner) in s.projection.active ==>
                        r.projection.active[(day, learner)] == s.projection.active[(day, learner)]))
  {
    RebuildRestoresTheRange(s, from, to);
    var r := Rebuild(s, from, to);
    var key := DayKey(day, metric, dimensions);
    if from <= day <= to {
      assert RowOk(s.facts, r.projection.daily, key);
      RowMeans(s.facts, r.projection.daily, day, metric, dimensions);
      assert PairOk(s.facts, r.projection.active, (day, learner));
      PairMeans(s.facts, day, learner);
    } else {
      OutsideKeeps(s.projection, from, to, key, (day, learner));
      OutsideKeeps(r.projection, from, to, key, (day, learner));
    }
  }

  lemma {:induction false} OutsideKeeps(p: Projection, from: int, to: int, key: DayKey, q: Pair)
    requires !(from <= key.day <= to) && q.0 == key.day
    ensures var o := Outside(p, from, to);
            && (key in o.daily <==> key in p.daily) && (key in p.daily ==> o.daily[key] == p.daily[key])
            && (q in o.active <==> q in p.active) && (q in p.active ==> o.active[q] == p.active[q])
  {
  }
}
