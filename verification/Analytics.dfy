/**
 Daily analytics: facts are recorded once and projected at once into per-day rows and active
 learners; a rebuild throws a range of days away and projects it again from the facts.
 Timestamps are UTC seconds, so a day is the floor of a timestamp divided by 86400.
*/
module Analytics {
  import opened Common

  datatype Metric =
    | Registrations
    | DailyActiveLearners
    | LessonCompletions
    | FocusSessions
    | FocusMinutes
    | QuizSubmissions
    | MasteryPasses
    | CommunityContributions
    | SubscriptionsStarted
    | PaymentSucceededCount
    | GrossRevenueMinor
    | Unknown(name: string)

  predicate IsLearningActivity(m: Metric) {
    m == LessonCompletions || m == FocusSessions || m == QuizSubmissions || m == CommunityContributions
  }

  type Dimensions = map<string, string>
  type EventId = nat
  type ActorId = nat

  const SECONDS_PER_DAY := 86400
  const MAX_REBUILD_SPAN := 366

  function DayOf(at: int): int {
    at / SECONDS_PER_DAY
  }

  /** `id` is the row's key, which orders facts of the same instant. */
  datatype Fact = Fact(
    id: nat,
    eventId: EventId,
    metric: Metric,
    actor: Option<ActorId>,
    value: int,
    dimensions: Dimensions,
    occurredAt: int)

  datatype DayKey = DayKey(day: int, metric: Metric, dimensions: Dimensions)

  type DailyTable = map<DayKey, int>
  type Pair = (int, ActorId)
  type ActiveTable = map<Pair, EventId>

  datatype Projection = Projection(daily: DailyTable, active: ActiveTable)

  datatype Ledger = Ledger(facts: seq<Fact>, projection: Projection)

  const EMPTY := Ledger([], Projection(map[], map[]))

  datatype AnalyticsError = UnknownMetric | BadRange

  // ---------------------------------------------------------------- projecting one fact

  function KeyOf(f: Fact): DayKey {
    DayKey(DayOf(f.occurredAt), f.metric, f.dimensions)
  }

  function ActiveKey(day: int): DayKey {
    DayKey(day, DailyActiveLearners, map[])
  }

  predicate MarksActive(f: Fact) {
    f.actor.Some? && IsLearningActivity(f.metric)
  }

  function PairOf(f: Fact): Pair
    requires MarksActive(f)
  {
    (DayOf(f.occurredAt), f.actor.value)
  }

  function Increment(daily: DailyTable, key: DayKey, value: int): DailyTable {
    daily[key := (if key in daily then daily[key] else 0) + value]
  }

  function Project(p: Projection, f: Fact): Projection {
    var daily := Increment(p.daily, KeyOf(f), f.value);
    if MarksActive(f) && PairOf(f) !in p.active
    then Projection(Increment(daily, ActiveKey(DayOf(f.occurredAt)), 1), p.active[PairOf(f) := f.eventId])
    else Projection(daily, p.active)
  }

  function ProjectAll(p: Projection, facts: seq<Fact>): Projection {
    if facts == [] then p else Project(ProjectAll(p, facts[..|facts| - 1]), facts[|facts| - 1])
  }

  // ---------------------------------------------------------------- recording and rebuilding

  predicate Recorded(facts: seq<Fact>, eventId: EventId, metric: Metric) {
    exists i :: 0 <= i < |facts| && facts[i].eventId == eventId && facts[i].metric == metric
  }

  function Record(s: Ledger, f: Fact): Ledger {
    if f.metric.Unknown? || Recorded(s.facts, f.eventId, f.metric) then s
    else Ledger(s.facts + [f], Project(s.projection, f))
  }

  function RecordAll(s: Ledger, calls: seq<Fact>): Ledger {
    if calls == [] then s else Record(RecordAll(s, calls[..|calls| - 1]), calls[|calls| - 1])
  }

  predicate Before(f: Fact, g: Fact) {
    f.occurredAt < g.occurredAt || (f.occurredAt == g.occurredAt && f.id <= g.id)
  }

  function InsertFact(f: Fact, sorted: seq<Fact>): seq<Fact> {
    if sorted == [] || Before(f, sorted[0]) then [f] + sorted
    else [sorted[0]] + InsertFact(f, sorted[1..])
  }

  predicate OnDays(f: Fact, from: int, to: int) {
    from <= DayOf(f.occurredAt) <= to
  }

  /** The facts of a range of days, ordered by time and then by row key. */
  function OrderedFacts(facts: seq<Fact>, from: int, to: int): seq<Fact> {
    if facts == [] then []
    else
      var rest := OrderedFacts(facts[..|facts| - 1], from, to);
      if OnDays(facts[|facts| - 1], from, to) then InsertFact(facts[|facts| - 1], rest) else rest
  }

  function Outside(p: Projection, from: int, to: int): Projection {
    Projection(map k | k in p.daily && !(from <= k.day <= to) :: p.daily[k],
               map q | q in p.active && !(from <= q.0 <= to) :: p.active[q])
  }

  predicate ValidRange(from: int, to: int) {
    from <= to && to - from <= MAX_REBUILD_SPAN
  }

  function Rebuild(s: Ledger, from: int, to: int): Ledger {
    s.(projection := ProjectAll(Outside(s.projection, from, to), OrderedFacts(s.facts, from, to)))
  }

  // ---------------------------------------------------------------- what the tables should say

  function SumOf(facts: seq<Fact>, key: DayKey): int {
    if facts == [] then 0
    else SumOf(facts[..|facts| - 1], key) + (if KeyOf(facts[|facts| - 1]) == key then facts[|facts| - 1].value else 0)
  }

  ghost predicate Mentioned(facts: seq<Fact>, key: DayKey) {
    exists f :: f in facts && KeyOf(f) == key
  }

  /** The distinct (day, actor) pairs with some learning activity. */
  function Pairs(facts: seq<Fact>): set<Pair> {
    if facts == [] then {}
    else Pairs(facts[..|facts| - 1]) + (if MarksActive(facts[|facts| - 1]) then {PairOf(facts[|facts| - 1])} else {})
  }

  function ActiveOn(pairs: set<Pair>, day: int): nat {
    |set q | q in pairs && q.0 == day|
  }

  /** A row holds the day's sum of facts, plus one per distinct active learner in the one row that counts them. */
  function Expected(facts: seq<Fact>, key: DayKey): int {
    SumOf(facts, key) + (if key == ActiveKey(key.day) then ActiveOn(Pairs(facts), key.day) else 0)
  }

  ghost predicate RowOk(facts: seq<Fact>, daily: DailyTable, key: DayKey) {
    && (key in daily <==> Mentioned(facts, key) || (key == ActiveKey(key.day) && ActiveOn(Pairs(facts), key.day) > 0))
    && (key in daily ==> daily[key] == Expected(facts, key))
  }

  ghost predicate PairOk(facts: seq<Fact>, active: ActiveTable, q: Pair) {
    q in active <==> q in Pairs(facts)
  }

  ghost predicate Consistent(facts: seq<Fact>, p: Projection) {
    (forall key :: RowOk(facts, p.daily, key)) && (forall q :: PairOk(facts, p.active, q))
  }

  // ---------------------------------------------------------------- incremental projection

  lemma ActiveOnGrows(pairs: set<Pair>, q: Pair, day: int)
    ensures ActiveOn(pairs + {q}, day) == ActiveOn(pairs, day) + (if q !in pairs && q.0 == day then 1 else 0)
  {
    var old' := set x | x in pairs && x.0 == day;
    var new' := set x | x in pairs + {q} && x.0 == day;
    if q.0 == day && q !in pairs {
      assert new' == old' + {q};
    } else {
      assert new' == old';
    }
  }

  lemma FactsAppended(facts: seq<Fact>, f: Fact, key: DayKey)
    ensures SumOf(facts + [f], key) == SumOf(facts, key) + (if KeyOf(f) == key then f.value else 0)
    ensures Mentioned(facts + [f], key) <==> Mentioned(facts, key) || KeyOf(f) == key
    ensures Pairs(facts + [f]) == Pairs(facts) + (if MarksActive(f) then {PairOf(f)} else {})
  {
    assert (facts + [f])[..|facts + [f]| - 1] == facts;
    if Mentioned(facts, key) {
      var g :| g in facts && KeyOf(g) == key;
      assert g in facts + [f];
    }
    assert f in facts + [f];
  }

  lemma {:induction false} UnmentionedSumsToZero(facts: seq<Fact>, key: DayKey)
    requires !Mentioned(facts, key)
    ensures SumOf(facts, key) == 0
  {
    if facts != [] {
      assert facts[|facts| - 1] in facts;
      assert forall f :: f in facts[..|facts| - 1] ==> f in facts;
      UnmentionedSumsToZero(facts[..|facts| - 1], key);
    }
  }

  lemma {:induction false} ProjectKeepsRow(facts: seq<Fact>, p: Projection, f: Fact, key: DayKey)
    requires RowOk(facts, p.daily, key) && RowOk(facts, p.daily, KeyOf(f))
    requires MarksActive(f) ==> PairOk(facts, p.active, PairOf(f))
    ensures RowOk(facts + [f], Project(p, f).daily, key)
  {
    FactsAppended(facts, f, key);
    if !Mentioned(facts, key) { UnmentionedSumsToZero(facts, key); }
    if MarksActive(f) {
      ActiveOnGrows(Pairs(facts), PairOf(f), key.day);
    } else {
      assert Pairs(facts + [f]) == Pairs(facts);
    }
  }

  /** Recording a fact keeps the tables equal to what the facts say. */
  lemma {:induction false} ProjectKeepsConsistent(facts: seq<Fact>, p: Projection, f: Fact)
    requires Consistent(facts, p)
    ensures Consistent(facts + [f], Project(p, f))
  {
    if MarksActive(f) { assert PairOk(facts, p.active, PairOf(f)); }
    forall key ensures RowOk(facts + [f], Project(p, f).daily, key) {
      assert RowOk(facts, p.daily, key) && RowOk(facts, p.daily, KeyOf(f));
      ProjectKeepsRow(facts, p, f, key);
    }
    FactsAppended(facts, f, KeyOf(f));
    forall q ensures PairOk(facts + [f], Project(p, f).active, q) {
      assert PairOk(facts, p.active, q);
    }
  }

  ghost predicate DistinctFacts(facts: seq<Fact>) {
    forall i, j :: 0 <= i < j < |facts| ==> facts[i].eventId != facts[j].eventId || facts[i].metric != facts[j].metric
  }

  /** Main result on recording: after any sequence of calls, duplicates and rejected metrics included,
      the tables are exactly per-day sums of the recorded facts plus one active-learner count per
      distinct pair, and no (event, metric) is recorded twice. */
  lemma {:induction false} RecordingStaysConsistent(calls: seq<Fact>)
    ensures var s := RecordAll(EMPTY, calls); Consistent(s.facts, s.projection) && DistinctFacts(s.facts)
    ensures forall f :: f in calls && !f.metric.Unknown? ==> Recorded(RecordAll(EMPTY, calls).facts, f.eventId, f.metric)
  {
    if calls != [] {
      var k := |calls| - 1;
      RecordingStaysConsistent(calls[..k]);
      var s := RecordAll(EMPTY, calls[..k]);
      var t := RecordAll(EMPTY, calls);
      if t != s {
        ProjectKeepsConsistent(s.facts, s.projection, calls[k]);
      }
      forall f | f in calls && !f.metric.Unknown? ensures Recorded(t.facts, f.eventId, f.metric) {
        if f in calls[..k] {
          var i :| 0 <= i < |s.facts| && s.facts[i].eventId == f.eventId && s.facts[i].metric == f.metric;
          assert t.facts[i] == s.facts[i];
        } else {
          assert f == calls[k];
          if t != s { assert t.facts[|s.facts|] == f; }
        }
      }
    }
  }

  // ---------------------------------------------------------------- order does not matter

  lemma {:induction false} SumOfSplit(a: seq<Fact>, b: seq<Fact>, key: DayKey)
    ensures SumOf(a + b, key) == SumOf(a, key) + SumOf(b, key)
    ensures Pairs(a + b) == Pairs(a) + Pairs(b)
  {
    if b == [] {
      assert a + b == a;
    } else {
      assert (a + b)[..|a + b| - 1] == a + b[..|b| - 1];
      SumOfSplit(a, b[..|b| - 1], key);
    }
  }

  lemma {:induction false} TakeOut(b: seq<Fact>, i: nat, key: DayKey) returns (rest: seq<Fact>)
    requires i < |b|
    ensures |rest| == |b| - 1 && multiset(rest) == multiset(b) - multiset{b[i]}
    ensures SumOf(b, key) == SumOf(rest, key) + (if KeyOf(b[i]) == key then b[i].value else 0)
    ensures Pairs(b) == Pairs(rest) + (if MarksActive(b[i]) then {PairOf(b[i])} else {})
  {
    rest := b[..i] + b[i + 1..];
    assert b == (b[..i] + [b[i]]) + b[i + 1..];
    SumOfSplit(b[..i] + [b[i]], b[i + 1..], key);
    FactsAppended(b[..i], b[i], key);
    SumOfSplit(b[..i], b[i + 1..], key);
  }

  /** What a row should say depends only on which facts there are. */
  lemma {:induction false} ExpectedIgnoresOrder(a: seq<Fact>, b: seq<Fact>, key: DayKey)
    requires multiset(a) == multiset(b)
    ensures SumOf(a, key) == SumOf(b, key)
    ensures Pairs(a) == Pairs(b)
  {
    assert |a| == |multiset(a)| == |multiset(b)| == |b|;
    if a != [] {
      var k := |a| - 1;
      assert a == a[..k] + [a[k]];
      assert a[k] in multiset(b);
      var i :| 0 <= i < |b| && b[i] == a[k];
      var rest := TakeOut(b, i, key);
      ExpectedIgnoresOrder(a[..k], rest, key);
    }
  }

  lemma MentionedIgnoresOrder(a: seq<Fact>, b: seq<Fact>, key: DayKey)
    requires multiset(a) == multiset(b)
    ensures Mentioned(a, key) == Mentioned(b, key)
  {
    forall f ensures f in a <==> f in b {
      assert f in a <==> f in multiset(a);
      assert f in b <==> f in multiset(b);
    }
  }

  /** Two histories that recorded the same facts, in whatever order, show the same rows and the
      same active learners. */
  lemma {:induction false} TablesDependOnFactsOnly(xs: seq<Fact>, ys: seq<Fact>)
    requires multiset(RecordAll(EMPTY, xs).facts) == multiset(RecordAll(EMPTY, ys).facts)
    ensures RecordAll(EMPTY, xs).projection.daily == RecordAll(EMPTY, ys).projection.daily
    ensures RecordAll(EMPTY, xs).projection.active.Keys == RecordAll(EMPTY, ys).projection.active.Keys
  {
    RecordingStaysConsistent(xs);
    RecordingStaysConsistent(ys);
    var s, t := RecordAll(EMPTY, xs), RecordAll(EMPTY, ys);
    ConsistentTablesAgree(s.facts, s.projection, t.facts, t.projection);
  }

  lemma {:induction false} ConsistentTablesAgree(a: seq<Fact>, p: Projection, b: seq<Fact>, q: Projection)
    requires multiset(a) == multiset(b) && Consistent(a, p) && Consistent(b, q)
    ensures p.daily == q.daily && p.active.Keys == q.active.Keys
  {
    forall key ensures key in p.daily <==> key in q.daily
               ensures key in p.daily ==> p.daily[key] == q.daily[key]
    {
      ExpectedIgnoresOrder(a, b, key);
      MentionedIgnoresOrder(a, b, key);
      assert RowOk(a, p.daily, key) && RowOk(b, q.daily, key);
    }
    forall x ensures x in p.active <==> x in q.active {
      ExpectedIgnoresOrder(a, b, ActiveKey(0));
      assert PairOk(a, p.active, x) && PairOk(b, q.active, x);
    }
  }
}
