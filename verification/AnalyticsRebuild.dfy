/** Rebuilding a range of days from the facts, against the tables kept incrementally. */
module AnalyticsRebuild {
  import opened Common
  import opened Analytics

  // ---------------------------------------------------------------- the ordered facts of a range

  function InRange(facts: seq<Fact>, from: int, to: int): seq<Fact> {
    if facts == [] then []
    else InRange(facts[..|facts| - 1], from, to)
         + (if OnDays(facts[|facts| - 1], from, to) then [facts[|facts| - 1]] else [])
  }

  ghost predicate Ordered(facts: seq<Fact>) {
    forall i, j :: 0 <= i < j < |facts| ==> Before(facts[i], facts[j])
  }

  lemma {:induction false} InsertFactCorrect(f: Fact, sorted: seq<Fact>)
    requires Ordered(sorted)
    ensures multiset(InsertFact(f, sorted)) == multiset(sorted) + multiset{f}
    ensures Ordered(InsertFact(f, sorted))
  {
    if sorted != [] && !Before(f, sorted[0]) {
      InsertFactCorrect(f, sorted[1..]);
      assert sorted == [sorted[0]] + sorted[1..];
      var rest := InsertFact(f, sorted[1..]);
      forall j | 0 <= j < |rest| ensures Before(sorted[0], rest[j]) {
        assert rest[j] in multiset(rest);
        assert rest[j] == f || rest[j] in sorted[1..];
      }
    }
  }

  lemma {:induction false} OrderedFactsCorrect(facts: seq<Fact>, from: int, to: int)
    ensures Ordered(OrderedFacts(facts, from, to))
    ensures multiset(OrderedFacts(facts, from, to)) == multiset(InRange(facts, from, to))
  {
    if facts != [] {
      var k := |facts| - 1;
      OrderedFactsCorrect(facts[..k], from, to);
      if OnDays(facts[k], from, to) {
        InsertFactCorrect(facts[k], OrderedFacts(facts[..k], from, to));
      }
    }
  }

  lemma {:induction false} RangeSaysTheSame(facts: seq<Fact>, from: int, to: int, key: DayKey)
    requires from <= key.day <= to
    ensures SumOf(InRange(facts, from, to), key) == SumOf(facts, key)
    ensures Mentioned(InRange(facts, from, to), key) == Mentioned(facts, key)
  {
    if facts != [] {
      var k := |facts| - 1;
      RangeSaysTheSame(facts[..k], from, to, key);
      FactsAppended(facts[..k], facts[k], key);
      assert facts == facts[..k] + [facts[k]];
      if OnDays(facts[k], from, to) {
        FactsAppended(InRange(facts[..k], from, to), facts[k], key);
      } else {
        assert InRange(facts, from, to) == InRange(facts[..k], from, to);
      }
    }
  }

  lemma {:induction false} RangePairs(facts: seq<Fact>, from: int, to: int)
    ensures forall q :: q in Pairs(InRange(facts, from, to)) <==> q in Pairs(facts) && from <= q.0 <= to
    ensures forall f :: f in InRange(facts, from, to) <==> f in facts && OnDays(f, from, to)
  {
    if facts != [] {
      var k := |facts| - 1;
      RangePairs(facts[..k], from, to);
      assert facts == facts[..k] + [facts[k]];
      if OnDays(facts[k], from, to) {
        FactsAppended(InRange(facts[..k], from, to), facts[k], KeyOf(facts[k]));
      } else {
        assert InRange(facts, from, to) == InRange(facts[..k], from, to);
      }
    }
  }

  /** In the range, the ordered facts say of every row and pair what all the facts say. */
  lemma {:induction false} OrderedSaysTheSame(facts: seq<Fact>, from: int, to: int, key: DayKey)
    requires from <= key.day <= to
    ensures var o := OrderedFacts(facts, from, to);
            SumOf(o, key) == SumOf(facts, key) && Mentioned(o, key) == Mentioned(facts, key)
            && ActiveOn(Pairs(o), key.day) == ActiveOn(Pairs(facts), key.day)
            && (forall q :: q in Pairs(o) <==> q in Pairs(facts) && from <= q.0 <= to)
            && (forall f :: f in o <==> f in facts && OnDays(f, from, to))
  {
    var o := OrderedFacts(facts, from, to);
    var r := InRange(facts, from, to);
    OrderedFactsCorrect(facts, from, to);
    ExpectedIgnoresOrder(o, r, key);
    MentionedIgnoresOrder(o, r, key);
    RangeSaysTheSame(facts, from, to, key);
    RangePairs(facts, from, to);
    assert (set q | q in Pairs(o) && q.0 == key.day) == (set q | q in Pairs(facts) && q.0 == key.day);
    forall f ensures f in o <==> f in r {
      assert f in o <==> f in multiset(o);
      assert f in r <==> f in multiset(r);
    }
  }

  // ---------------------------------------------------------------- projecting a range afresh

  ghost predicate NothingIn(p: Projection, from: int, to: int) {
    (forall k :: k in p.daily ==> !(from <= k.day <= to)) && (forall q :: q in p.active ==> !(from <= q.0 <= to))
  }

  ghost predicate SameOutside(p: Projection, r: Projection, from: int, to: int) {
    Outside(p, from, to) == Outside(r, from, to)
  }

  lemma {:induction false} ProjectAllInRange(p: Projection, facts: seq<Fact>, from: int, to: int)
    requires NothingIn(p, from, to) && forall f :: f in facts ==> OnDays(f, from, to)
    ensures var r := ProjectAll(p, facts);
            && (forall key: DayKey :: from <= key.day <= to ==> RowOk(facts, r.daily, key))
            && (forall q: Pair :: from <= q.0 <= to ==> PairOk(facts, r.active, q))
            && SameOutside(p, r, from, to)
  {
    if facts != [] {
      var k := |facts| - 1;
      var f := facts[k];
      assert facts == facts[..k] + [f];
      ProjectAllInRange(p, facts[..k], from, to);
      var before := ProjectAll(p, facts[..k]);
      var r := ProjectAll(p, facts);
      assert OnDays(f, from, to);
      if MarksActive(f) { assert PairOk(facts[..k], before.active, PairOf(f)); }
      forall key: DayKey | from <= key.day <= to ensures RowOk(facts, r.daily, key) {
        ProjectKeepsRow(facts[..k], before, f, key);
      }
      FactsAppended(facts[..k], f, KeyOf(f));
      forall q: Pair | from <= q.0 <= to ensures PairOk(facts, r.active, q) {
        assert PairOk(facts[..k], before.active, q);
      }
      OneFactStaysInRange(before, f, from, to);
    }
  }

  lemma OneFactStaysInRange(p: Projection, f: Fact, from: int, to: int)
    requires OnDays(f, from, to)
    ensures SameOutside(p, Project(p, f), from, to)
  {
  }

  // ---------------------------------------------------------------- the rebuild

  /** Main result: from any tables whatever, a rebuild makes every row and pair of the range what the
      facts say, and touches nothing outside it. */
  lemma {:induction false} RebuildRestoresTheRange(s: Ledger, from: int, to: int)
    ensures var r := Rebuild(s, from, to);
            && r.facts == s.facts
            && (forall key: DayKey :: from <= key.day <= to ==> RowOk(s.facts, r.projection.daily, key))
            && (forall q: Pair :: from <= q.0 <= to ==> PairOk(s.facts, r.projection.active, q))
            && SameOutside(s.projection, r.projection, from, to)
  {
    var o := OrderedFacts(s.facts, from, to);
    var r := Rebuild(s, from, to);
    OrderedFactsCorrect(s.facts, from, to);
    RangePairs(s.facts, from, to);
    forall f | f in o ensures OnDays(f, from, to) {
      assert f in multiset(o);
      assert f in InRange(s.facts, from, to);
    }
    var base := Outside(s.projection, from, to);
    ProjectAllInRange(base, o, from, to);
    forall key: DayKey | from <= key.day <= to ensures RowOk(s.facts, r.projection.daily, key) {
      OrderedSaysTheSame(s.facts, from, to, key);
      assert RowOk(o, r.projection.daily, key);
    }
    forall q: Pair | from <= q.0 <= to ensures PairOk(s.facts, r.projection.active, q) {
      OrderedSaysTheSame(s.facts, from, to, ActiveKey(q.0));
      assert PairOk(o, r.projection.active, q);
    }
    OutsideTwice(s.projection, from, to);
  }

  lemma OutsideTwice(p: Projection, from: int, to: int)
    ensures Outside(Outside(p, from, to), from, to) == Outside(p, from, to)
  {
  }

  /** On tables kept by recording, a rebuild of any range changes no value and no active pair. */
  lemma {:induction false} RebuildChangesNothing(calls: seq<Fact>, from: int, to: int)
    ensures var s := RecordAll(EMPTY, calls);
            var r := Rebuild(s, from, to);
            r.projection.daily == s.projection.daily && r.projection.active.Keys == s.projection.active.Keys
            && Consistent(s.facts, r.projection)
  {
    var s := RecordAll(EMPTY, calls);
    RecordingStaysConsistent(calls);
    RebuildRestoresTheRange(s, from, to);
    var p, r := s.projection, Rebuild(s, from, to).projection;
    var op, or := Outside(p, from, to), Outside(r, from, to);
    forall key ensures RowOk(s.facts, r.daily, key) {
      assert RowOk(s.facts, p.daily, key);
      if !(from <= key.day <= to) {
        assert key in p.daily <==> key in op.daily;
        assert key in r.daily <==> key in or.daily;
        assert key in op.daily ==> p.daily[key] == op.daily[key] == or.daily[key] == r.daily[key];
      }
    }
    forall q ensures PairOk(s.facts, r.active, q) {
      assert PairOk(s.facts, p.active, q);
      if !(from <= q.0 <= to) {
        assert q in p.active <==> q in op.active;
        assert q in r.active <==> q in or.active;
      }
    }
    ConsistentTablesAgree(s.facts, p, s.facts, r);
  }

  /** Rebuilding twice is rebuilding once, first events included. */
  lemma {:induction false} RebuildIsIdempotent(s: Ledger, from: int, to: int)
    ensures Rebuild(Rebuild(s, from, to), from, to) == Rebuild(s, from, to)
  {
    RebuildRestoresTheRange(s, from, to);
  }

  // ---------------------------------------------------------------- first events

  /** `f` is the pair's first qualifying fact by time and row key. */
  ghost predicate IsEarliest(facts: seq<Fact>, q: Pair, f: Fact) {
    && f in facts && MarksActive(f) && PairOf(f) == q
    && forall g :: g in facts && MarksActive(g) && PairOf(g) == q ==> Before(f, g)
  }

  lemma {:induction false} FirstProjectedIsFirstInOrder(p: Projection, facts: seq<Fact>, q: Pair) returns (i: nat)
    requires q !in p.active && q in ProjectAll(p, facts).active
    ensures i < |facts| && MarksActive(facts[i]) && PairOf(facts[i]) == q
    ensures ProjectAll(p, facts).active[q] == facts[i].eventId
    ensures forall j :: 0 <= j < i ==> !MarksActive(facts[j]) || PairOf(facts[j]) != q
  {
    var k := |facts| - 1;
    var before := ProjectAll(p, facts[..k]);
    if q in before.active {
      i := FirstProjectedIsFirstInOrder(p, facts[..k], q);
    } else {
      i := k;
      ActiveContainsAll(p, facts[..k]);
    }
  }

  lemma {:induction false} ActiveContainsAll(p: Projection, facts: seq<Fact>)
    ensures forall j :: 0 <= j < |facts| && MarksActive(facts[j]) ==> PairOf(facts[j]) in ProjectAll(p, facts).active
    ensures forall q :: q in p.active ==> q in ProjectAll(p, facts).active
  {
    if facts != [] { ActiveContainsAll(p, facts[..|facts| - 1]); }
  }

  /** After a rebuild, a pair's first event is that of its earliest fact, not of the first recorded one. */
  lemma {:induction false} RebuildKeepsTheEarliestEvent(s: Ledger, from: int, to: int, q: Pair) returns (f: Fact)
    requires from <= q.0 <= to && q in Pairs(s.facts)
    ensures IsEarliest(s.facts, q, f)
    ensures q in Rebuild(s, from, to).projection.active && Rebuild(s, from, to).projection.active[q] == f.eventId
  {
    var o := OrderedFacts(s.facts, from, to);
    RebuildRestoresTheRange(s, from, to);
    assert PairOk(s.facts, Rebuild(s, from, to).projection.active, q);
    var i := FirstProjectedIsFirstInOrder(Outside(s.projection, from, to), o, q);
    f := o[i];
    FirstInOrderIsEarliest(s.facts, from, to, q, i);
  }

  lemma {:induction false} FirstInOrderIsEarliest(facts: seq<Fact>, from: int, to: int, q: Pair, i: nat)
    requires from <= q.0 <= to
    requires var o := OrderedFacts(facts, from, to);
             i < |o| && MarksActive(o[i]) && PairOf(o[i]) == q
             && forall j :: 0 <= j < i ==> !MarksActive(o[j]) || PairOf(o[j]) != q
    ensures IsEarliest(facts, q, OrderedFacts(facts, from, to)[i])
  {
    var o := OrderedFacts(facts, from, to);
    OrderedFactsCorrect(facts, from, to);
    OrderedSaysTheSame(facts, from, to, ActiveKey(q.0));
    assert o[i] in o;
    forall g | g in facts && MarksActive(g) && PairOf(g) == q ensures Before(o[i], g) {
      assert OnDays(g, from, to);
      var j :| 0 <= j < |o| && o[j] == g;
      if j > i { assert Before(o[i], o[j]); }
    }
  }

  /** The first recorded fact that marks the pair active. */
  ghost predicate IsFirstRecorded(facts: seq<Fact>, q: Pair, i: nat) {
    && i < |facts| && MarksActive(facts[i]) && PairOf(facts[i]) == q
    && forall j :: 0 <= j < i ==> !MarksActive(facts[j]) || PairOf(facts[j]) != q
  }

  /** Row keys are never shared. */
  ghost predicate KeysDiffer(facts: seq<Fact>) {
    forall i, j :: 0 <= i < j < |facts| ==> facts[i].id != facts[j].id
  }

  lemma {:induction false} RecordingProjectsTheFacts(calls: seq<Fact>)
    ensures var s := RecordAll(EMPTY, calls); s.projection == ProjectAll(EMPTY.projection, s.facts)
  {
    if calls != [] {
      var s := RecordAll(EMPTY, calls[..|calls| - 1]);
      var f := calls[|calls| - 1];
      RecordingProjectsTheFacts(calls[..|calls| - 1]);
      assert (s.facts + [f])[..|s.facts|] == s.facts;
    }
  }

  /** Exactly when a rebuild keeps a pair's first event, for every history, range and pair: when the first
      recorded fact of the pair has the event of its earliest fact by time and row key. */
  lemma {:induction false} FirstEventIsKeptIff(calls: seq<Fact>, from: int, to: int, q: Pair, i: nat, f: Fact)
    requires var facts := RecordAll(EMPTY, calls).facts;
             KeysDiffer(facts) && IsFirstRecorded(facts, q, i) && IsEarliest(facts, q, f)
    requires from <= q.0 <= to
    ensures var s := RecordAll(EMPTY, calls); var r := Rebuild(s, from, to);
            && q in s.projection.active && q in r.projection.active
            && (r.projection.active[q] == s.projection.active[q] <==> s.facts[i].eventId == f.eventId)
  {
    var s := RecordAll(EMPTY, calls);
    RecordingProjectsTheFacts(calls);
    ActiveContainsAll(EMPTY.projection, s.facts);
    var first := FirstProjectedIsFirstInOrder(EMPTY.projection, s.facts, q);
    assert first == i;
    RecordingStaysConsistent(calls);
    assert PairOk(s.facts, s.projection.active, q);
    var e := RebuildKeepsTheEarliestEvent(s, from, to, q);
    var x :| 0 <= x < |s.facts| && s.facts[x] == e;
    var y :| 0 <= y < |s.facts| && s.facts[y] == f;
    assert Before(e, f) && Before(f, e);
    assert x == y;
  }

  /** Every pair that is active has such a first and such an earliest fact. */
  lemma {:induction false} ActivePairsHaveThem(calls: seq<Fact>, q: Pair) returns (i: nat, f: Fact)
    requires q in RecordAll(EMPTY, calls).projection.active
    ensures var facts := RecordAll(EMPTY, calls).facts; IsFirstRecorded(facts, q, i) && IsEarliest(facts, q, f)
  {
    var s := RecordAll(EMPTY, calls);
    RecordingProjectsTheFacts(calls);
    i := FirstProjectedIsFirstInOrder(EMPTY.projection, s.facts, q);
    RecordingStaysConsistent(calls);
    assert PairOk(s.facts, s.projection.active, q);
    f := RebuildKeepsTheEarliestEvent(s, q.0, q.0, q);
  }

  /** So the first rebuild may change that one field: a late-arriving earlier event takes it over. */
  lemma {:induction false} FirstRebuildMayChangeTheFirstEvent()
    ensures exists calls, q ::
              var s := RecordAll(EMPTY, calls);
              q in s.projection.active && q in Rebuild(s, 0, 0).projection.active
              && Rebuild(s, 0, 0).projection.active[q] != s.projection.active[q]
  {
    var late := Fact(1, 10, FocusSessions, Some(7), 1, map[], 200);
    var early := Fact(2, 20, QuizSubmissions, Some(7), 1, map[], 100);
    var calls := [late, early];
    var q: Pair := (0, 7);
    assert calls[..1] == [late] && [late][..0] == [];
    var one := RecordAll(EMPTY, [late]);
    assert one == Record(RecordAll(EMPTY, []), late);
    assert one.facts == [late];
    var s := RecordAll(EMPTY, calls);
    assert s == Record(one, early);
    assert s.facts == [late, early] by { assert [late] + [early] == [late, early]; }
    assert s.projection.active[q] == 10;
    assert q in Pairs(s.facts) by {
      assert s.facts[..1] == [late];
      assert Pairs(s.facts) == Pairs([late]) + {q};
    }
    var f := RebuildKeepsTheEarliestEvent(s, 0, 0, q);
    assert early in s.facts && MarksActive(early) && PairOf(early) == q;
    assert f == early;
  }

  // ---------------------------------------------------------------- the reported totals

  ghost function Total(daily: DailyTable): int {
    if daily == map[] then 0
    else
      var k :| k in daily;
      daily[k] + Total(daily - {k})
  }

  lemma {:induction false} TotalWithout(daily: DailyTable, k: DayKey)
    requires k in daily
    ensures Total(daily) == daily[k] + Total(daily - {k})
  {
    var j :| j in daily && Total(daily) == daily[j] + Total(daily - {j});
    if j != k {
      TotalWithout(daily - {j}, k);
      TotalWithout(daily - {k}, j);
      assert daily - {j} - {k} == daily - {k} - {j};
    }
  }

  lemma TotalIncrement(daily: DailyTable, key: DayKey, value: int)
    ensures Total(Increment(daily, key, value)) == Total(daily) + value
  {
    var after := Increment(daily, key, value);
    TotalWithout(after, key);
    assert after - {key} == daily - {key};
    if key in daily { TotalWithout(daily, key); } else { assert daily - {key} == daily; }
  }

  function SumOfValues(facts: seq<Fact>): int {
    if facts == [] then 0 else SumOfValues(facts[..|facts| - 1]) + facts[|facts| - 1].value
  }

  /** Conservation: every projected unit is a fact's value or an active learner, counted once. */
  lemma {:induction false} ProjectionConserves(p: Projection, facts: seq<Fact>)
    ensures var r := ProjectAll(p, facts);
            Total(r.daily) - |r.active| == Total(p.daily) - |p.active| + SumOfValues(facts)
  {
    if facts != [] {
      var k := |facts| - 1;
      ProjectionConserves(p, facts[..k]);
      var before := ProjectAll(p, facts[..k]);
      TotalIncrement(before.daily, KeyOf(facts[k]), facts[k].value);
      TotalIncrement(Increment(before.daily, KeyOf(facts[k]), facts[k].value), ActiveKey(DayOf(facts[k].occurredAt)), 1);
    }
  }

  lemma RebuildLeavesOutside(s: Ledger, from: int, to: int)
    ensures var r := Rebuild(s, from, to).projection;
            Outside(Projection(r.daily, map[]), from, to).daily == Outside(s.projection, from, to).daily
  {
    RebuildRestoresTheRange(s, from, to);
    var r := Rebuild(s, from, to).projection;
    assert Outside(Projection(r.daily, map[]), from, to).daily == Outside(r, from, to).daily;
  }

  // ---------------------------------------------------------------- the tables, updated in place

  datatype Summary = Summary(facts: nat, activeLearners: nat, projectedValue: int)

  class MetricStore {
    var facts: seq<Fact>
    var daily: DailyTable
    var active: ActiveTable

    constructor ()
      ensures State() == EMPTY
    {
      facts, daily, active := [], map[], map[];
    }

    ghost function State(): Ledger
      reads this
    {
      Ledger(facts, Projection(daily, active))
    }

    method IncrementDaily(key: DayKey, value: int)
      modifies this`daily
      ensures daily == Increment(old(daily), key, value)
    {
      if key !in daily {
        daily := daily[key := value];
      } else {
        daily := daily[key := daily[key] + value];
      }
    }

    method FindFact(eventId: EventId, metric: Metric) returns (found: bool)
      ensures found <==> Recorded(facts, eventId, metric)
    {
      found := false;
      for i := 0 to |facts|
        invariant found <==> exists k :: 0 <= k < i && facts[k].eventId == eventId && facts[k].metric == metric
      {
        if facts[i].eventId == eventId && facts[i].metric == metric { found := true; }
      }
    }

    method RecordMetric(f: Fact) returns (reply: Result<bool, AnalyticsError>)
      modifies this
      ensures State() == Record(old(State()), f)
      ensures reply == if f.metric.Unknown? then Err(UnknownMetric)
                       else Ok(!Recorded(old(facts), f.eventId, f.metric))
    {
      if f.metric.Unknown? { return Err(UnknownMetric); }
      var found := FindFact(f.eventId, f.metric);
      if found { return Ok(false); }
      facts := facts + [f];
      IncrementDaily(KeyOf(f), f.value);
      if f.actor.Some? && IsLearningActivity(f.metric) {
        var pair := (DayOf(f.occurredAt), f.actor.value);
        if pair !in active {
          active := active[pair := f.eventId];
          IncrementDaily(ActiveKey(DayOf(f.occurredAt)), 1);
        }
      }
      reply := Ok(true);
    }

    /** Projects one fact, deciding by the pairs seen so far instead of the active table. */
    method ProjectFact(f: Fact, seen: set<Pair>, from: int, to: int) returns (activePairs: set<Pair>)
      requires OnDays(f, from, to)
      requires forall q :: q in seen <==> q in active && from <= q.0 <= to
      modifies this`daily, this`active
      ensures Projection(daily, active) == Project(Projection(old(daily), old(active)), f)
      ensures forall q :: q in activePairs <==> q in active && from <= q.0 <= to
      ensures |active| - |activePairs| == |old(active)| - |seen|
    {
      activePairs := seen;
      IncrementDaily(KeyOf(f), f.value);
      if f.actor.Some? && IsLearningActivity(f.metric) {
        var pair := (DayOf(f.occurredAt), f.actor.value);
        if pair !in activePairs {
          activePairs := activePairs + {pair};
          active := active[pair := f.eventId];
          IncrementDaily(ActiveKey(DayOf(f.occurredAt)), 1);
        }
      }
    }

    /** The rebuild loop keeps its own set of the pairs it has seen, as the tables were cleared. */
    method ProjectOrdered(ordered: seq<Fact>, from: int, to: int) returns (activePairs: set<Pair>)
      requires NothingIn(Projection(daily, active), from, to)
      requires forall f :: f in ordered ==> OnDays(f, from, to)
      modifies this`daily, this`active
      ensures Projection(daily, active) == ProjectAll(Projection(old(daily), old(active)), ordered)
      ensures activePairs == set q | q in active && from <= q.0 <= to
      ensures |active| == |old(active)| + |activePairs|
    {
      activePairs := {};
      for i := 0 to |ordered|
        invariant Projection(daily, active) == ProjectAll(Projection(old(daily), old(active)), ordered[..i])
        invariant forall q :: q in activePairs <==> q in active && from <= q.0 <= to
        invariant |active| == |old(active)| + |activePairs|
      {
        assert ordered[..i + 1][..i] == ordered[..i];
        activePairs := ProjectFact(ordered[i], activePairs, from, to);
      }
      assert ordered[..|ordered|] == ordered;
    }

    method RebuildDailyProjections(from: int, to: int) returns (reply: Result<Summary, AnalyticsError>)
      modifies this
      ensures !ValidRange(from, to) ==> reply == Err(BadRange) && State() == old(State())
      ensures ValidRange(from, to) ==> State() == Rebuild(old(State()), from, to)
      ensures ValidRange(from, to) ==>
                reply.Ok?
                && reply.value.facts == |OrderedFacts(facts, from, to)|
                && reply.value.activeLearners == |set q | q in active && from <= q.0 <= to|
                && reply.value.projectedValue == SumOfValues(OrderedFacts(facts, from, to)) + reply.value.activeLearners
    {
      if to < from || to - from > MAX_REBUILD_SPAN { return Err(BadRange); }
      daily := map k | k in daily && !(from <= k.day <= to) :: daily[k];
      active := map q | q in active && !(from <= q.0 <= to) :: active[q];
      ghost var base := Projection(daily, active);
      var ordered := OrderedFacts(facts, from, to);
      OrderedSaysTheSame(facts, from, to, ActiveKey(from));
      var activePairs := ProjectOrdered(ordered, from, to);
      var projected := SumRange(from, to);
      ProjectionConserves(base, ordered);
      RebuildLeavesOutside(old(State()), from, to);
      TotalSplits(daily, from, to);
      reply := Ok(Summary(|ordered|, |activePairs|, projected));
    }

    method SumRange(from: int, to: int) returns (total: int)
      ensures total == Total(RowsOf(daily, from, to))
    {
      total := 0;
      var left := map k | k in daily && from <= k.day <= to :: daily[k];
      assert left == RowsOf(daily, from, to);
      while left != map[]
        invariant total + Total(left) == Total(RowsOf(daily, from, to))
        decreases |left|
      {
        var k :| k in left;
        TotalWithout(left, k);
        total := total + left[k];
        left := left - {k};
      }
    }
  }

  ghost function RowsOf(daily: DailyTable, from: int, to: int): DailyTable {
    map k | k in daily && from <= k.day <= to :: daily[k]
  }

  function RowsOutside(daily: DailyTable, from: int, to: int): DailyTable {
    Outside(Projection(daily, map[]), from, to).daily
  }

  lemma {:induction false} OneRowSplits(daily: DailyTable, from: int, to: int, k: DayKey)
    requires k in daily
    ensures if from <= k.day <= to
            then k in RowsOf(daily, from, to) && RowsOf(daily - {k}, from, to) == RowsOf(daily, from, to) - {k}
                 && RowsOutside(daily - {k}, from, to) == RowsOutside(daily, from, to)
            else k in RowsOutside(daily, from, to) && RowsOutside(daily - {k}, from, to) == RowsOutside(daily, from, to) - {k}
                 && RowsOf(daily - {k}, from, to) == RowsOf(daily, from, to)
  {
  }

  lemma {:induction false} TotalSplits(daily: DailyTable, from: int, to: int)
    ensures Total(daily) == Total(RowsOf(daily, from, to)) + Total(RowsOutside(daily, from, to))
    decreases |daily|
  {
    if daily == map[] {
      assert RowsOf(daily, from, to) == map[] && RowsOutside(daily, from, to) == map[];
    } else {
      var k :| k in daily;
      TotalWithout(daily, k);
      OneRowSplits(daily, from, to, k);
      TotalSplits(daily - {k}, from, to);
      if from <= k.day <= to { TotalWithout(RowsOf(daily, from, to), k); } else { TotalWithout(RowsOutside(daily, from, to), k); }
    }
  }
}
