/** Scoring of a finished attempt. Points and percentages are kept in hundredths, as stored. */
module AttemptScoring {
  import opened Common

  type OptionId = string

  datatype Answer = Answer(selected: seq<OptionId>, clientRevision: nat, serverRevision: nat, savedAt: int)

  datatype Question = Question(
    multipleSelect: bool,
    options: set<OptionId>,
    correct: set<OptionId>,
    maxPoints: nat,
    answer: Option<Answer>)

  datatype AttemptResult = AttemptResult(
    score: nat,
    maximum: nat,
    percentage: nat,
    passed: bool,
    answered: nat,
    unanswered: nat,
    submittedAt: int)

  function Selected(q: Question): seq<OptionId> {
    match q.answer
    case None => []
    case Some(a) => a.selected
  }

  /** Compared as sets, so an unanswered question with no correct option counts as correct. */
  predicate IsCorrect(q: Question) {
    (set x | x in Selected(q)) == q.correct
  }

  function ScoreOf(qs: seq<Question>): nat {
    if qs == [] then 0
    else ScoreOf(qs[..|qs| - 1]) + (if IsCorrect(qs[|qs| - 1]) then qs[|qs| - 1].maxPoints else 0)
  }

  function MaximumOf(qs: seq<Question>): nat {
    if qs == [] then 0 else MaximumOf(qs[..|qs| - 1]) + qs[|qs| - 1].maxPoints
  }

  function AnsweredOf(qs: seq<Question>): (n: nat)
    ensures n <= |qs|
  {
    if qs == [] then 0 else AnsweredOf(qs[..|qs| - 1]) + (if Selected(qs[|qs| - 1]) != [] then 1 else 0)
  }

  /** `score * 100 / maximum` to two decimals, halves up, as hundredths of a percent. */
  function Percentage(score: nat, maximum: nat): nat {
    if maximum == 0 then 0 else (2 * 10000 * score + maximum) / (2 * maximum)
  }

  function Rescore(qs: seq<Question>, passPercent: nat, submittedAt: int): AttemptResult {
    var percentage := Percentage(ScoreOf(qs), MaximumOf(qs));
    AttemptResult(ScoreOf(qs), MaximumOf(qs), percentage, percentage >= passPercent,
                  AnsweredOf(qs), |qs| - AnsweredOf(qs), submittedAt)
  }

  lemma {:induction false} ScoreAtMostMaximum(qs: seq<Question>)
    ensures ScoreOf(qs) <= MaximumOf(qs)
    ensures ScoreOf(qs) == MaximumOf(qs) <==>
            forall i :: 0 <= i < |qs| ==> IsCorrect(qs[i]) || qs[i].maxPoints == 0
  {
    if qs != [] {
      var k := |qs| - 1;
      ScoreAtMostMaximum(qs[..k]);
      assert forall i :: 0 <= i < k ==> qs[..k][i] == qs[i];
    }
  }

  lemma ProductSign(d: int, k: int)
    requires d > 0
    ensures k >= 1 ==> d * k >= d
    ensures k <= -1 ==> d * k <= -d
  {
  }

  lemma RoundedQuotient(n: int, d: int)
    requires n >= 0 && d > 0
    ensures -d < 2 * (d * ((2 * n + d) / (2 * d)) - n) <= d
  {
    var q := (2 * n + d) / (2 * d);
    assert 2 * n + d == (2 * d) * q + (2 * n + d) % (2 * d);
    assert (2 * d) * q == 2 * (d * q);
  }

  /** At most one integer is the nearest one, halves up. */
  lemma UniqueRounding(n: int, d: int, p: int, q: int)
    requires d > 0 && -d < 2 * (d * p - n) <= d && -d < 2 * (d * q - n) <= d
    ensures p == q
  {
    ProductSign(d, p - q);
    assert d * (p - q) == d * p - d * q;
  }

  /** The percentage is the closest hundredth to the exact ratio, an exact half going up. */
  lemma {:induction false} PercentageIsNearest(score: int, maximum: int)
    requires 0 < maximum && 0 <= score <= maximum
    ensures Percentage(score, maximum) <= 10000
    ensures -maximum < 2 * (maximum * Percentage(score, maximum) - 10000 * score) <= maximum
    ensures Percentage(maximum, maximum) == 10000 && Percentage(0, maximum) == 0
  {
    RoundedQuotient(10000 * score, maximum);
    RoundedQuotient(10000 * maximum, maximum);
    RoundedQuotient(0, maximum);
    var p: int := Percentage(score, maximum);
    ProductSign(maximum, p - 10000);
    assert maximum * (p - 10000) == maximum * p - maximum * 10000;
    UniqueRounding(10000 * maximum, maximum, Percentage(maximum, maximum), 10000);
    UniqueRounding(0, maximum, Percentage(0, maximum), 0);
  }

  /** Every result is consistent: the percentage is between 0 and 100, the counts add up to the
      number of questions, and full marks mean every question that carries points was right. */
  lemma {:induction false} ResultsAreConsistent(qs: seq<Question>, passPercent: nat, at: int)
    ensures var r := Rescore(qs, passPercent, at);
            r.score <= r.maximum && r.percentage <= 10000 && r.answered + r.unanswered == |qs|
            && (r.passed <==> r.percentage >= passPercent)
            && (r.maximum == 0 ==> r.percentage == 0)
            && ((forall i :: 0 <= i < |qs| ==> IsCorrect(qs[i])) && r.maximum > 0 ==> r.percentage == 10000)
  {
    ScoreAtMostMaximum(qs);
    if MaximumOf(qs) > 0 { PercentageIsNearest(ScoreOf(qs), MaximumOf(qs)); }
  }

  /** Scoring looks at which options were chosen, never at their order or at revisions. */
  lemma {:induction false} ScoringIgnoresOrder(a: seq<Question>, b: seq<Question>, passPercent: nat, at: int)
    requires |a| == |b|
    requires forall i :: 0 <= i < |a| ==>
               a[i].correct == b[i].correct && a[i].maxPoints == b[i].maxPoints
               && (set x | x in Selected(a[i])) == (set x | x in Selected(b[i]))
    ensures Rescore(a, passPercent, at) == Rescore(b, passPercent, at)
  {
    SumsAgree(a, b);
  }

  lemma {:induction false} SumsAgree(a: seq<Question>, b: seq<Question>)
    requires |a| == |b|
    requires forall i :: 0 <= i < |a| ==>
               a[i].correct == b[i].correct && a[i].maxPoints == b[i].maxPoints
               && (set x | x in Selected(a[i])) == (set x | x in Selected(b[i]))
    ensures ScoreOf(a) == ScoreOf(b) && MaximumOf(a) == MaximumOf(b) && AnsweredOf(a) == AnsweredOf(b)
  {
    if a != [] {
      var k := |a| - 1;
      SumsAgree(a[..k], b[..k]);
      SameEmptiness(Selected(a[k]), Selected(b[k]));
    }
  }

  lemma SameEmptiness(x: seq<OptionId>, y: seq<OptionId>)
    requires (set o | o in x) == (set o | o in y)
    ensures x == [] <==> y == []
  {
    var xs, ys := (set o | o in x), (set o | o in y);
    if x != [] { assert x[0] in xs && x[0] in ys; }
    if y != [] { assert y[0] in ys && y[0] in xs; }
  }

  // ---------------------------------------------------------------- question by question

  /** What a question adds: its points exactly when the chosen options are the correct ones, all of them and
      no other, and one answered question when anything is chosen. */
  lemma {:induction false} OneQuestionMore(qs: seq<Question>, q: Question, passPercent: nat, at: int)
    ensures var before, after := Rescore(qs, passPercent, at), Rescore(qs + [q], passPercent, at);
            var chosen := if q.answer.Some? then q.answer.value.selected else [];
            && after.score == before.score + (if forall o :: o in chosen <==> o in q.correct then q.maxPoints else 0)
            && after.maximum == before.maximum + q.maxPoints
            && after.answered == before.answered + (if chosen != [] then 1 else 0)
            && after.unanswered == before.unanswered + (if chosen == [] then 1 else 0)
            && after.submittedAt == at
  {
    assert (qs + [q])[..|qs|] == qs;
    var chosen := if q.answer.Some? then q.answer.value.selected else [];
    assert (set x | x in chosen) == q.correct <==> forall o :: o in chosen <==> o in q.correct;
  }

  /** An attempt without questions. */
  lemma {:induction false} NoQuestions(passPercent: nat, at: int)
    ensures Rescore([], passPercent, at) == AttemptResult(0, 0, 0, passPercent == 0, 0, 0, at)
  {
  }

  /** The answered questions are those with a selection that is not empty. */
  lemma {:induction false} AnsweredAreThePositions(qs: seq<Question>, passPercent: nat, at: int)
    ensures Rescore(qs, passPercent, at).answered
         == |set i | 0 <= i < |qs| && qs[i].answer.Some? && qs[i].answer.value.selected != []|
  {
    if qs != [] {
      var n := |qs| - 1;
      var front := qs[..n];
      AnsweredAreThePositions(front, passPercent, at);
      var before := set i | 0 <= i < |front| && front[i].answer.Some? && front[i].answer.value.selected != [];
      var after := set i | 0 <= i < |qs| && qs[i].answer.Some? && qs[i].answer.value.selected != [];
      assert forall i :: 0 <= i < n ==> front[i] == qs[i];
      var more := qs[n].answer.Some? && qs[n].answer.value.selected != [];
      assert after == if more then before + {n} else before;
    }
  }

  /** The percentage of a result is that of its own score, to the nearest hundredth, and decides the verdict. */
  lemma {:induction false} PercentageIsOfTheScore(qs: seq<Question>, passPercent: nat, at: int)
    ensures var r := Rescore(qs, passPercent, at); var maximum: int := r.maximum;
            && (maximum > 0 ==> -maximum < 2 * (maximum * r.percentage - 10000 * r.score) <= maximum)
            && (r.maximum == 0 ==> r.percentage == 0)
            && (r.passed <==> r.percentage >= passPercent)
  {
    ScoreAtMostMaximum(qs);
    if MaximumOf(qs) > 0 { PercentageIsNearest(ScoreOf(qs), MaximumOf(qs)); }
  }

  /** The accumulation loop of finalisation. */
  method ScoreAttempt(qs: seq<Question>, passPercent: nat, submittedAt: int) returns (r: AttemptResult)
    ensures r == Rescore(qs, passPercent, submittedAt)
  {
    var score, maximum, answered := 0, 0, 0;
    for i := 0 to |qs|
      invariant maximum == MaximumOf(qs[..i])
    {
      assert qs[..i + 1][..i] == qs[..i];
      maximum := maximum + qs[i].maxPoints;
    }
    for i := 0 to |qs|
      invariant score == ScoreOf(qs[..i]) && answered == AnsweredOf(qs[..i])
    {
      assert qs[..i + 1][..i] == qs[..i];
      if Selected(qs[i]) != [] { answered := answered + 1; }
      var chosen := set x | x in Selected(qs[i]);
      if chosen == qs[i].correct { score := score + qs[i].maxPoints; }
    }
    assert qs[..|qs|] == qs;
    var percentage := if maximum == 0 then 0 else (2 * 10000 * score + maximum) / (2 * maximum);
    r := AttemptResult(score, maximum, percentage, percentage >= passPercent, answered, |qs| - answered, submittedAt);
  }
}
