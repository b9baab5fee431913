/**
 A start that finds the user's attempt late finalises it without taking the attempt's row lock, which
 every save takes. Here the start is split where other transactions can commit: it reads the attempt,
 reads and scores the answers, and writes the attempt and its result. A save whose clock was read
 before the deadline may commit at any point before the write.
*/
module OverlappingStart {
  import opened Common
  import opened AttemptScoring
  import opened AssessmentAttempts
  import opened Autosave
  import AttemptRuns

  /** `read` is the attempt as the start saw it; `answers` are the questions as it scored them. */
  datatype Phase =
    | Idle
    | Read(read: Attempt, now: int)
    | Scored(read: Attempt, now: int, answers: seq<Question>)
    | Written(answers: seq<Question>)

  datatype Race = Race(attempt: Attempt, result: Option<AttemptResult>, phase: Phase)

  datatype Step =
    | SaveCommits(call: Call)
    | ResumeCommits(position: int, revision: nat, now: int)
    | StartReads(now: int)
    | StartScores
    | StartWrites

  predicate MaySave(r: Race, now: int) {
    r.attempt.status == Active && !IsLate(r.attempt, now)
  }

  function Next(r: Race, step: Step): Race {
    match step
    case SaveCommits(call) =>
      if MaySave(r, call.now) then r.(attempt := Apply(r.attempt, call)) else r
    case ResumeCommits(position, revision, now) =>
      if MaySave(r, now) && ResumeInto(r.attempt, position, revision).Ok?
      then r.(attempt := ResumeInto(r.attempt, position, revision).value) else r
    case StartReads(now) =>
      if r.phase.Idle? && r.attempt.status == Active && IsLate(r.attempt, now)
      then r.(phase := Read(r.attempt, now)) else r
    case StartScores =>
      if r.phase.Read? then r.(phase := Scored(r.phase.read, r.phase.now, r.attempt.questions)) else r
    case StartWrites =>
      if !r.phase.Scored? then r
      else
        var now := r.phase.now;
        Race(r.attempt.(status := Expired, completedAt := Some(now), serverRevision := r.phase.read.serverRevision + 1),
             Some(Rescore(r.phase.answers, r.attempt.version.passPercent, now)),
             Written(r.phase.answers))
  }

  function Execute(r: Race, steps: seq<Step>): Race {
    if steps == [] then r else Next(Execute(r, steps[..|steps| - 1]), steps[|steps| - 1])
  }

  /** Step number `i` commits a changed answer after the answers were scored and before the write. */
  predicate Overlaps(r: Race, steps: seq<Step>, i: nat)
    requires i < |steps|
  {
    var before := Execute(r, steps[..i]);
    steps[i].SaveCommits? && before.phase.Scored? && Next(before, steps[i]).attempt != before.attempt
  }

  ghost predicate SomeOverlap(r: Race, steps: seq<Step>) {
    exists i :: 0 <= i < |steps| && Overlaps(r, steps, i)
  }

  function Fresh(a: Attempt): Race {
    Race(a, None, Idle)
  }

  // ---------------------------------------------------------------- the invariant

  /** No stored answer is stamped above the given revision. */
  predicate StampedUpTo(questions: seq<Question>, revision: int) {
    forall i :: 0 <= i < |questions| && questions[i].answer.Some? ==> questions[i].answer.value.serverRevision <= revision
  }

  /** Some stored answer is stamped above every answer that was scored. */
  predicate NewerThan(questions: seq<Question>, answers: seq<Question>) {
    exists i :: 0 <= i < |questions| && questions[i].answer.Some?
                && StampedUpTo(answers, questions[i].answer.value.serverRevision - 1)
  }

  /** The same questions but for their answers. */
  predicate SameFrame(a: seq<Question>, b: seq<Question>) {
    |a| == |b| && forall i :: 0 <= i < |a| ==> a[i].(answer := None) == b[i].(answer := None)
  }

  ghost predicate Inv(r: Race, overlap: bool) {
    match r.phase
    case Idle => StampedUpTo(r.attempt.questions, r.attempt.serverRevision) && r.result.None? && !overlap
    case Read(_, _) => StampedUpTo(r.attempt.questions, r.attempt.serverRevision) && r.result.None? && !overlap
    case Scored(_, _, answers) =>
      && StampedUpTo(r.attempt.questions, r.attempt.serverRevision) && r.result.None?
      && StampedUpTo(answers, r.attempt.serverRevision) && SameFrame(answers, r.attempt.questions)
      && (if overlap then NewerThan(r.attempt.questions, answers) else r.attempt.questions == answers)
    case Written(answers) =>
      && r.attempt.status == Expired && r.attempt.completedAt.Some? && SameFrame(answers, r.attempt.questions)
      && r.result == Some(Rescore(answers, r.attempt.version.passPercent, r.attempt.completedAt.value))
      && (if overlap then NewerThan(r.attempt.questions, answers) else r.attempt.questions == answers)
  }

  lemma {:induction false} SaveKeepsStamps(a: Attempt, c: Call)
    requires StampedUpTo(a.questions, a.serverRevision)
    ensures StampedUpTo(Apply(a, c).questions, Apply(a, c).serverRevision)
    ensures Apply(a, c).serverRevision >= a.serverRevision
    ensures Apply(a, c) == a || Apply(a, c).questions != a.questions
  {
    if Apply(a, c) != a { WrittenSaveIsStamped(a, c); }
  }

  lemma {:induction false} OverlappingSaveIsNewer(a: Attempt, c: Call, answers: seq<Question>)
    requires StampedUpTo(a.questions, a.serverRevision) && StampedUpTo(answers, a.serverRevision)
    requires a.questions == answers || NewerThan(a.questions, answers)
    requires Apply(a, c) != a
    ensures NewerThan(Apply(a, c).questions, answers)
  {
    WrittenSaveIsStamped(a, c);
    var i := c.position - 1;
    assert Apply(a, c).questions[i].answer.Some?;
  }

  lemma {:induction false} SaveKeepsFrame(a: Attempt, c: Call, answers: seq<Question>)
    requires SameFrame(answers, a.questions)
    ensures SameFrame(answers, Apply(a, c).questions)
  {
  }

  lemma {:induction false} StepKeepsInv(r: Race, overlap: bool, step: Step)
    requires Inv(r, overlap)
    ensures Inv(Next(r, step), overlap || (step.SaveCommits? && r.phase.Scored? && Next(r, step).attempt != r.attempt))
  {
    match step
    case SaveCommits(call) =>
      if MaySave(r, call.now) && Apply(r.attempt, call) != r.attempt && !r.phase.Written? {
        SaveKeepsStamps(r.attempt, call);
        if r.phase.Scored? {
          SaveKeepsFrame(r.attempt, call, r.phase.answers);
          OverlappingSaveIsNewer(r.attempt, call, r.phase.answers);
        }
      }
    case _ =>
  }

  lemma {:induction false} OverlapSplits(r: Race, steps: seq<Step>)
    requires steps != []
    ensures var k := |steps| - 1; SomeOverlap(r, steps) <==> SomeOverlap(r, steps[..k]) || Overlaps(r, steps, k)
  {
    var k := |steps| - 1;
    var front := steps[..k];
    forall i | 0 <= i < k ensures Overlaps(r, steps, i) <==> Overlaps(r, front, i) {
      assert steps[..i] == front[..i] && steps[i] == front[i];
    }
  }

  lemma {:induction false} RunsKeepInv(r: Race, steps: seq<Step>)
    requires Inv(r, false)
    ensures Inv(Execute(r, steps), SomeOverlap(r, steps))
  {
    if steps != [] {
      var k := |steps| - 1;
      var front := steps[..k];
      RunsKeepInv(r, front);
      StepKeepsInv(Execute(r, front), SomeOverlap(r, front), steps[k]);
      OverlapSplits(r, steps);
    }
  }

  // ---------------------------------------------------------------- what the result is worth

  /** In every run: the answers that were scored are the answers that stay stored if and only if no save
      of the attempt committed a change between the scoring and the write. */
  lemma {:induction false} ScoredAnswersAreStoredIff(a: Attempt, steps: seq<Step>)
    requires a.status == Active && StampedUpTo(a.questions, a.serverRevision)
    requires Execute(Fresh(a), steps).phase.Written?
    ensures var r := Execute(Fresh(a), steps);
            && r.attempt.status == Expired && r.attempt.completedAt.Some?
            && r.result == Some(Rescore(r.phase.answers, r.attempt.version.passPercent, r.attempt.completedAt.value))
            && (r.phase.answers == r.attempt.questions <==> !SomeOverlap(Fresh(a), steps))
  {
    RunsKeepInv(Fresh(a), steps);
    var r := Execute(Fresh(a), steps);
    if SomeOverlap(Fresh(a), steps) { NewerIsDifferent(r.attempt.questions, r.phase.answers); }
  }

  lemma {:induction false} NewerIsDifferent(questions: seq<Question>, answers: seq<Question>)
    requires NewerThan(questions, answers)
    ensures questions != answers
  {
    var i :| 0 <= i < |questions| && questions[i].answer.Some?
             && StampedUpTo(answers, questions[i].answer.value.serverRevision - 1);
    if i < |answers| {
      assert answers[i].answer.Some? ==> answers[i].answer.value.serverRevision < questions[i].answer.value.serverRevision;
    }
  }

  /** Every active attempt that calls one at a time can produce is a possible beginning. */
  lemma {:induction false} ReachableAttemptsAreStamped(steps: seq<AssessmentAttempts.Step>, id: AttemptId)
    requires id in AssessmentAttempts.Execute(EMPTY, steps).attempts
    ensures var a := AssessmentAttempts.Execute(EMPTY, steps).attempts[id]; StampedUpTo(a.questions, a.serverRevision)
  {
    AttemptRuns.EmptyInv();
    AttemptRuns.RunsKeepInv(EMPTY, steps);
    assert AttemptOk(AssessmentAttempts.Execute(EMPTY, steps), id);
  }

  /** So without such a save the result is a rescoring of the stored answers. */
  lemma {:induction false} ResultIsARescoringWithoutOverlap(a: Attempt, steps: seq<Step>)
    requires a.status == Active && StampedUpTo(a.questions, a.serverRevision)
    requires Execute(Fresh(a), steps).phase.Written? && !SomeOverlap(Fresh(a), steps)
    ensures var r := Execute(Fresh(a), steps);
            r.attempt.completedAt.Some?
            && r.result == Some(Rescore(r.attempt.questions, r.attempt.version.passPercent, r.attempt.completedAt.value))
  {
    ScoredAnswersAreStoredIff(a, steps);
  }

  lemma {:induction false} SameMaximum(a: seq<Question>, b: seq<Question>)
    requires SameFrame(a, b)
    ensures MaximumOf(a) == MaximumOf(b)
  {
    if a != [] {
      var n := |a| - 1;
      assert a[n].(answer := None).maxPoints == b[n].(answer := None).maxPoints;
      SameMaximum(a[..n], b[..n]);
    }
  }

  /** In every run the result is a rescoring of the stored answers if and only if the answers that were
      scored and those that stayed have the same score and are equally many: an overlapping save may be
      harmless. */
  lemma {:induction false} ResultIsARescoringIff(a: Attempt, steps: seq<Step>)
    requires a.status == Active && StampedUpTo(a.questions, a.serverRevision)
    requires Execute(Fresh(a), steps).phase.Written?
    ensures var r := Execute(Fresh(a), steps);
            && r.attempt.completedAt.Some?
            && (r.result == Some(Rescore(r.attempt.questions, r.attempt.version.passPercent, r.attempt.completedAt.value))
                <==> ScoreOf(r.phase.answers) == ScoreOf(r.attempt.questions)
                     && AnsweredOf(r.phase.answers) == AnsweredOf(r.attempt.questions))
  {
    RunsKeepInv(Fresh(a), steps);
    var r := Execute(Fresh(a), steps);
    SameMaximum(r.phase.answers, r.attempt.questions);
  }

  // ---------------------------------------------------------------- the revision that is written back

  /** Step number `i` stores an answer while the start is under way, and not as the first write since the
      start read the attempt. */
  predicate StampsLate(r: Race, steps: seq<Step>, i: nat)
    requires i < |steps|
  {
    var before := Execute(r, steps[..i]);
    && steps[i].SaveCommits? && Next(before, steps[i]).attempt != before.attempt
    && (before.phase.Read? || before.phase.Scored?)
    && before.attempt.serverRevision > before.phase.read.serverRevision
  }

  ghost predicate SomeLateStamp(r: Race, steps: seq<Step>) {
    exists i :: 0 <= i < |steps| && StampsLate(r, steps, i)
  }

  ghost predicate StampsInv(r: Race, late: bool) {
    match r.phase
    case Idle => StampedUpTo(r.attempt.questions, r.attempt.serverRevision) && !late
    case Written(_) => r.attempt.status == Expired && (StampedUpTo(r.attempt.questions, r.attempt.serverRevision) <==> !late)
    case _ =>
      && StampedUpTo(r.attempt.questions, r.attempt.serverRevision)
      && r.phase.read.serverRevision <= r.attempt.serverRevision
      && (StampedUpTo(r.attempt.questions, r.phase.read.serverRevision + 1) <==> !late)
  }

  lemma {:induction false} SaveStamps(a: Attempt, c: Call, bound: int)
    requires StampedUpTo(a.questions, a.serverRevision) && Apply(a, c) != a && bound <= a.serverRevision
    ensures Apply(a, c).serverRevision == a.serverRevision + 1
    ensures StampedUpTo(Apply(a, c).questions, bound + 1) <==> a.serverRevision == bound
  {
    WrittenSaveIsStamped(a, c);
    var b := Apply(a, c);
    assert b.questions[c.position - 1].answer.value.serverRevision == a.serverRevision + 1;
  }

  lemma {:induction false} StepKeepsStamps(r: Race, late: bool, step: Step)
    requires StampsInv(r, late)
    ensures StampsInv(Next(r, step), late || (step.SaveCommits? && Next(r, step).attempt != r.attempt
                                              && (r.phase.Read? || r.phase.Scored?)
                                              && r.attempt.serverRevision > r.phase.read.serverRevision))
  {
    match step
    case SaveCommits(call) =>
      if MaySave(r, call.now) && Apply(r.attempt, call) != r.attempt && !r.phase.Written? {
        SaveKeepsStamps(r.attempt, call);
        if !r.phase.Idle? {
          SaveStamps(r.attempt, call, r.phase.read.serverRevision);
          assert r.attempt.serverRevision == r.phase.read.serverRevision ==> !late;
        }
      }
    case _ =>
  }

  lemma {:induction false} LateStampSplits(r: Race, steps: seq<Step>)
    requires steps != []
    ensures var k := |steps| - 1; SomeLateStamp(r, steps) <==> SomeLateStamp(r, steps[..k]) || StampsLate(r, steps, k)
  {
    var k := |steps| - 1;
    var front := steps[..k];
    forall i | 0 <= i < k ensures StampsLate(r, steps, i) <==> StampsLate(r, front, i) {
      assert steps[..i] == front[..i] && steps[i] == front[i];
    }
  }

  lemma {:induction false} RunsKeepStamps(r: Race, steps: seq<Step>)
    requires StampsInv(r, false)
    ensures StampsInv(Execute(r, steps), SomeLateStamp(r, steps))
  {
    if steps != [] {
      var k := |steps| - 1;
      var front := steps[..k];
      RunsKeepStamps(r, front);
      StepKeepsStamps(Execute(r, front), SomeLateStamp(r, front), steps[k]);
      LateStampSplits(r, steps);
    }
  }

  /** The start writes back the revision it read, plus one. So the attempt's revision stays at or above the
      stamps of all its answers if and only if no answer was stored since that read other than as the first
      write: two writes in between, the second an answer, leave an answer stamped above its attempt. */
  lemma {:induction false} RevisionCoversStampsIff(a: Attempt, steps: seq<Step>)
    requires a.status == Active && StampedUpTo(a.questions, a.serverRevision)
    requires Execute(Fresh(a), steps).phase.Written?
    ensures var r := Execute(Fresh(a), steps);
            StampedUpTo(r.attempt.questions, r.attempt.serverRevision) <==> !SomeLateStamp(Fresh(a), steps)
  {
    RunsKeepStamps(Fresh(a), steps);
  }

  /** An attempt with one unanswered single-choice question and a deadline. */
  function OneQuestion(v: Version): Attempt {
    Attempt(0, 0, v, 0, Active, [Question(false, {"a"}, {"a"}, POINTS, None)], 1, 1, 0, 0, Some(100), None)
  }

  const LATE_RUN := [StartReads(100), StartScores, SaveCommits(Call(1, ["a"], 1, 99)), StartWrites]

  /** The run that goes wrong: a correct answer, saved a second before the deadline, is stored but scored
      as missing. */
  lemma {:induction false} AnOverlappingSaveIsNotScored(v: Version)
    ensures var r := Execute(Fresh(OneQuestion(v)), LATE_RUN);
            && r.phase.Written? && r.result.Some? && |r.attempt.questions| == 1
            && Selected(r.attempt.questions[0]) == ["a"]
            && r.result.value.score == 0 && r.result.value.answered == 0
            && Rescore(r.attempt.questions, v.passPercent, 100).score == POINTS
            && SomeOverlap(Fresh(OneQuestion(v)), LATE_RUN)
  {
    var a := OneQuestion(v);
    var r0 := Fresh(a);
    var steps := LATE_RUN;
    assert steps[..0] == [] && steps[..1] == [steps[0]] && steps[..2] == [steps[0], steps[1]];
    assert steps[..1][..0] == [] && steps[..2][..1] == steps[..1];
    assert steps[..3][..2] == steps[..2] && steps[..4] == steps && steps[..4][..3] == steps[..3];
    assert Execute(r0, steps[..0]) == r0 && steps[0] == StartReads(100) && IsLate(a, 100);
    var r1 := Execute(r0, steps[..1]);
    assert r1 == Next(r0, StartReads(100)) && r1.phase == Read(a, 100);
    var r2 := Execute(r0, steps[..2]);
    assert r2 == Next(r1, StartScores) && r2.phase == Scored(a, 100, a.questions);
    var r3 := Execute(r0, steps[..3]);
    assert r3 == Next(r2, steps[2]);
    assert Choosable(a.questions[0], ["a"]);
    assert r3.attempt.questions == [a.questions[0].(answer := Some(Answer(["a"], 1, 2, 99)))];
    assert Overlaps(r0, steps, 2);
    var r4 := Execute(r0, steps);
    assert r4 == Next(r3, StartWrites);
    var q := a.questions;
    assert q[..0] == [] && Selected(q[0]) == [] && !IsCorrect(q[0]) by { assert "a" in q[0].correct; }
    assert ScoreOf(q) == 0 && AnsweredOf(q) == 0;
    var w := r4.attempt.questions;
    assert w[..0] == [] && Selected(w[0]) == ["a"];
    assert (set x | x in ["a"]) == {"a"};
    assert ScoreOf(w) == POINTS;
  }
}
