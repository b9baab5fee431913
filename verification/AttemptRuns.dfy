/** What every run of attempt calls keeps and guarantees. */
module AttemptRuns {
  import opened Common
  import opened AttemptScoring
  import opened AssessmentAttempts

  lemma EmptyInv()
    ensures Inv(EMPTY)
  {
  }

  // ---------------------------------------------------------------- each call keeps the invariant

  lemma {:induction false} FinalizeKeepsInv(s: Store, id: AttemptId, now: int, expired: bool)
    requires Inv(s) && id in s.attempts && expired == IsLate(s.attempts[id], now)
    ensures Inv(Finalize(s, id, now, expired))
    ensures var t := Finalize(s, id, now, expired);
            t.attempts.Keys == s.attempts.Keys && t.attempts[id].status != Active && t.nextId == s.nextId
            && id in t.results && t.starts == s.starts
    ensures forall x :: x in s.attempts && x != id ==> Finalize(s, id, now, expired).attempts[x] == s.attempts[x]
  {
    assert AttemptOk(s, id);
    var t := Finalize(s, id, now, expired);
    forall x ensures AttemptOk(t, x) {
      assert AttemptOk(s, x);
    }
    forall a, b, u, q | IsActiveFor(t, a, u, q) && IsActiveFor(t, b, u, q) ensures a == b {
      assert IsActiveFor(s, a, u, q) && IsActiveFor(s, b, u, q);
    }
  }

  lemma {:induction false} CreateKeepsInv(s: Store, req: StartRequest, v: Version, selected: Option<seq<QuestionVersion>>, now: int)
    requires Inv(s) && (req.user, req.key) !in s.starts
    requires forall id :: !IsActiveFor(s, id, req.user, req.quiz)
    ensures var c := Create(s, req, v, selected, now); c.Ok? ==> Inv(c.value)
  {
    var c := Create(s, req, v, selected, now);
    if c.Ok? {
      var t := c.value;
      assert AttemptOk(s, s.nextId);
      forall id | id in s.attempts ensures id < s.nextId { assert AttemptOk(s, id); }
      forall x ensures AttemptOk(t, x) {
        assert AttemptOk(s, x);
      }
      forall a, b, u, q | IsActiveFor(t, a, u, q) && IsActiveFor(t, b, u, q) ensures a == b {
        if a != s.nextId { assert IsActiveFor(s, a, u, q); }
        if b != s.nextId { assert IsActiveFor(s, b, u, q); }
      }
    }
  }

  lemma {:induction false} StartKeepsInv(
      s: Store, req: StartRequest, published: Option<Version>, selected: Option<seq<QuestionVersion>>, now: int)
    requires Inv(s)
    ensures Inv(Start(s, req, published, selected, now).store)
  {
    if (req.user, req.key) in s.starts {
      var id := s.starts[(req.user, req.key)];
      if IsLate(s.attempts[id], now) { FinalizeKeepsInv(s, id, now, true); }
    } else if published.Some? && IsOpen(published.value, now) {
      var active := ActiveFor(s, req.user, req.quiz);
      if active.Some? {
        var id := active.value;
        if IsLate(s.attempts[id], now) {
          FinalizeKeepsInv(s, id, now, true);
          var t := Finalize(s, id, now, true);
          forall x ensures !IsActiveFor(t, x, req.user, req.quiz) {
            if IsActiveFor(t, x, req.user, req.quiz) { assert IsActiveFor(s, x, req.user, req.quiz); }
          }
          CreateKeepsInv(t, req, published.value, selected, now);
        }
      } else {
        CreateKeepsInv(s, req, published.value, selected, now);
      }
    }
  }

  lemma {:induction false} SaveIntoKeepsAnswers(a: Attempt, position: int, selected: seq<OptionId>, revision: nat, now: int)
    requires AnswersOk(a) && !IsLate(a, now) && a.serverRevision >= 1
    ensures var r := SaveInto(a, position, selected, revision, now);
            r.Ok? ==> AnswersOk(r.value) && r.value.serverRevision >= a.serverRevision
  {
  }

  lemma {:induction false} WriteKeepsInv(s: Store, id: AttemptId, a: Attempt)
    requires Inv(s) && id in s.attempts && s.attempts[id].status == Active
    requires AnswersOk(a) && a.serverRevision >= 1
    requires a == s.attempts[id].(questions := a.questions, serverRevision := a.serverRevision,
                                  resumePosition := a.resumePosition, resumeRevision := a.resumeRevision)
    ensures Inv(s.(attempts := s.attempts[id := a]))
  {
    var t := s.(attempts := s.attempts[id := a]);
    assert AttemptOk(s, id);
    forall x ensures AttemptOk(t, x) {
      assert AttemptOk(s, x);
    }
    forall x, y, u, q | IsActiveFor(t, x, u, q) && IsActiveFor(t, y, u, q) ensures x == y {
      assert IsActiveFor(s, x, u, q) && IsActiveFor(s, y, u, q);
    }
  }

  lemma {:induction false} SubmitKeepsInv(s: Store, user: UserId, id: AttemptId, key: Key, now: int)
    requires Inv(s)
    ensures Inv(Submit(s, user, id, key, now).store)
  {
    if (user, key) !in s.receipts && id in s.attempts && s.attempts[id].user == user {
      FinalizeKeepsInv(s, id, now, IsLate(s.attempts[id], now));
      var t := Finalize(s, id, now, IsLate(s.attempts[id], now));
      var r := t.(receipts := t.receipts[(user, key) := id]);
      forall x ensures AttemptOk(r, x) { assert AttemptOk(t, x); }
      forall a, b, u, q | IsActiveFor(r, a, u, q) && IsActiveFor(r, b, u, q) ensures a == b {
        assert IsActiveFor(t, a, u, q) && IsActiveFor(t, b, u, q);
      }
    }
  }

  lemma {:induction false} NextKeepsInv(s: Store, step: Step)
    requires Inv(s)
    ensures Inv(Next(s, step))
  {
    match step
    case DoStart(req, published, selected, now) => StartKeepsInv(s, req, published, selected, now);
    case DoSave(user, id, position, selected, revision, now) =>
      if Refusal(s, user, id, now).None? {
        assert AttemptOk(s, id);
        SaveIntoKeepsAnswers(s.attempts[id], position, selected, revision, now);
        var r := SaveInto(s.attempts[id], position, selected, revision, now);
        if r.Ok? { WriteKeepsInv(s, id, r.value); }
      }
    case DoResume(user, id, position, revision, now) =>
      if Refusal(s, user, id, now).None? {
        assert AttemptOk(s, id);
        var r := ResumeInto(s.attempts[id], position, revision);
        if r.Ok? { WriteKeepsInv(s, id, r.value); }
      }
    case DoSubmit(user, id, key, now) => SubmitKeepsInv(s, user, id, key, now);
    case DoRefresh(user, id, now) =>
      if id in s.attempts && IsLate(s.attempts[id], now) { FinalizeKeepsInv(s, id, now, true); }
  }

  lemma {:induction false} RunsKeepInv(s: Store, steps: seq<Step>)
    requires Inv(s)
    ensures Inv(Execute(s, steps))
  {
    if steps != [] {
      RunsKeepInv(s, steps[..|steps| - 1]);
      NextKeepsInv(Execute(s, steps[..|steps| - 1]), steps[|steps| - 1]);
    }
  }

  // ---------------------------------------------------------------- what the invariant says

  /** Main result over every run: one active attempt per user and quiz; an attempt is active exactly
      while it has no result; the stored result is always a rescoring of the stored answers, with
      its percentage within 0 to 100 and its counts adding up; and it is marked expired exactly
      when it was completed at or after its deadline. */
  lemma {:induction false} EveryRunIsSound(steps: seq<Step>, id: AttemptId)
    requires id in Execute(EMPTY, steps).attempts
    ensures var s := Execute(EMPTY, steps);
            var a := s.attempts[id];
            && (forall other :: IsActiveFor(s, other, a.user, a.quiz) && a.status == Active ==> other == id)
            && (a.status == Active <==> id !in s.results)
            && (id in s.results ==>
                  a.completedAt.Some?
                  && s.results[id] == Rescore(a.questions, a.version.passPercent, a.completedAt.value)
                  && s.results[id].percentage <= 10000
                  && s.results[id].answered + s.results[id].unanswered == |a.questions|
                  && (a.status == Expired <==> IsLate(a, a.completedAt.value)))
  {
    EmptyInv();
    RunsKeepInv(EMPTY, steps);
    var s := Execute(EMPTY, steps);
    assert AttemptOk(s, id);
    var a := s.attempts[id];
    if a.status == Active { assert IsActiveFor(s, id, a.user, a.quiz); }
    if id in s.results { ResultsAreConsistent(a.questions, a.version.passPercent, a.completedAt.value); }
  }

  // ---------------------------------------------------------------- the retry limit

  ghost predicate FixedLimit(steps: seq<Step>, q: QuizId, limit: nat) {
    forall i :: 0 <= i < |steps| && steps[i].DoStart? && steps[i].request.quiz == q && steps[i].published.Some? ==>
      steps[i].published.value.maximumAttempts == limit
  }

  /** A start either adds no attempt, or adds its one new attempt to a store in which its user has
      nothing active on the quiz. */
  lemma {:induction false} StartAddsAtMostOne(
      s: Store, req: StartRequest, published: Option<Version>, selected: Option<seq<QuestionVersion>>, now: int)
      returns (cleared: Store)
    requires Inv(s)
    ensures var t := Start(s, req, published, selected, now).store;
            || (t.attempts.Keys == s.attempts.Keys
                && forall id :: id in s.attempts ==>
                     t.attempts[id].user == s.attempts[id].user && t.attempts[id].quiz == s.attempts[id].quiz)
            || (published.Some? && Inv(cleared) && cleared.attempts.Keys == s.attempts.Keys
                && (forall id :: id in s.attempts ==>
                      cleared.attempts[id].user == s.attempts[id].user && cleared.attempts[id].quiz == s.attempts[id].quiz)
                && (forall id :: !IsActiveFor(cleared, id, req.user, req.quiz))
                && Create(cleared, req, published.value, selected, now) == Ok(t))
  {
    cleared := s;
    if (req.user, req.key) !in s.starts && published.Some? {
      var active := ActiveFor(s, req.user, req.quiz);
      if active.Some? {
        FinalizeKeepsInv(s, active.value, now, IsLate(s.attempts[active.value], now));
        cleared := Finalize(s, active.value, now, IsLate(s.attempts[active.value], now));
        forall id ensures !IsActiveFor(cleared, id, req.user, req.quiz) {
          if IsActiveFor(cleared, id, req.user, req.quiz) { assert IsActiveFor(s, id, req.user, req.quiz); }
        }
      }
    }
  }

  lemma {:induction false} CreateGrowsAttempts(
      s: Store, req: StartRequest, v: Version, selected: Option<seq<QuestionVersion>>, now: int, u: UserId, q: QuizId)
    requires Inv(s) && Create(s, req, v, selected, now).Ok?
    requires forall id :: !IsActiveFor(s, id, req.user, req.quiz)
    ensures var t := Create(s, req, v, selected, now).value;
            if req.quiz == q && req.user == u
            then AttemptsOf(t, u, q) == AttemptsOf(s, u, q) + {s.nextId}
                 && (v.maximumAttempts > 0 ==> |AttemptsOf(s, u, q)| < v.maximumAttempts)
            else AttemptsOf(t, u, q) == AttemptsOf(s, u, q)
  {
    var t := Create(s, req, v, selected, now).value;
    assert AttemptOk(s, s.nextId);
    if req.quiz == q && req.user == u {
      forall x | x in AttemptsOf(s, u, q) ensures x in CompletedOf(s, u, q) {
        assert !IsActiveFor(s, x, u, q);
      }
      assert CompletedOf(s, u, q) == AttemptsOf(s, u, q);
      assert AttemptsOf(t, u, q) == AttemptsOf(s, u, q) + {s.nextId};
    } else {
      assert AttemptsOf(t, u, q) == AttemptsOf(s, u, q);
    }
  }

  ghost predicate SameOwners(s: Store, t: Store) {
    t.attempts.Keys == s.attempts.Keys
    && forall id :: id in s.attempts ==>
         t.attempts[id].user == s.attempts[id].user && t.attempts[id].quiz == s.attempts[id].quiz
  }

  lemma {:induction false} OtherCallsKeepOwners(s: Store, step: Step)
    requires Inv(s) && !step.DoStart?
    ensures SameOwners(s, Next(s, step))
  {
    match step
    case DoSave(_, _, _, _, _, _) =>
    case DoResume(_, _, _, _, _) =>
    case DoSubmit(_, _, _, _) =>
    case DoRefresh(_, _, _) =>
  }

  lemma {:induction false} OtherCallsAddNoAttempt(s: Store, step: Step, u: UserId, q: QuizId)
    requires Inv(s) && !step.DoStart?
    ensures AttemptsOf(Next(s, step), u, q) == AttemptsOf(s, u, q)
  {
    OtherCallsKeepOwners(s, step);
  }

  lemma {:induction false} StartKeepsLimit(
      s: Store, req: StartRequest, published: Option<Version>, selected: Option<seq<QuestionVersion>>, now: int,
      u: UserId, q: QuizId, limit: nat)
    requires Inv(s) && |AttemptsOf(s, u, q)| <= limit && limit > 0
    requires req.quiz == q && published.Some? ==> published.value.maximumAttempts == limit
    ensures |AttemptsOf(Start(s, req, published, selected, now).store, u, q)| <= limit
  {
    var t := Start(s, req, published, selected, now).store;
    var cleared := StartAddsAtMostOne(s, req, published, selected, now);
    assert Inv(cleared) ==> AttemptOk(cleared, cleared.nextId);
    if t.attempts.Keys == s.attempts.Keys {
      assert AttemptsOf(t, u, q) == AttemptsOf(s, u, q);
    } else {
      assert AttemptsOf(cleared, u, q) == AttemptsOf(s, u, q);
      CreateGrowsAttempts(cleared, req, published.value, selected, now, u, q);
    }
  }

  /** A fixed positive retry limit bounds every user's attempts at a quiz, active one included. */
  lemma {:induction false} RetryLimitBoundsAttempts(steps: seq<Step>, u: UserId, q: QuizId, limit: nat)
    requires limit > 0 && FixedLimit(steps, q, limit)
    ensures |AttemptsOf(Execute(EMPTY, steps), u, q)| <= limit
  {
    if steps != [] {
      var front := steps[..|steps| - 1];
      var step := steps[|steps| - 1];
      RetryLimitBoundsAttempts(front, u, q, limit);
      EmptyInv();
      RunsKeepInv(EMPTY, front);
      var s := Execute(EMPTY, front);
      if step.DoStart? {
        StartKeepsLimit(s, step.request, step.published, step.selection, step.now, u, q, limit);
      } else {
        OtherCallsAddNoAttempt(s, step, u, q);
      }
    }
  }

  // ---------------------------------------------------------------- results and receipts

  /** A result, once stored, never changes, and neither do the answers it was scored from. */
  lemma {:induction false} ResultsAreForever(s: Store, steps: seq<Step>, id: AttemptId)
    requires Inv(s) && id in s.results
    ensures var t := Execute(s, steps);
            id in t.results && t.results[id] == s.results[id] && id in s.attempts && id in t.attempts
            && t.attempts[id].questions == s.attempts[id].questions
  {
    if steps != [] {
      var before := Execute(s, steps[..|steps| - 1]);
      ResultsAreForever(s, steps[..|steps| - 1], id);
      RunsKeepInv(s, steps[..|steps| - 1]);
      assert AttemptOk(before, id);
      var step := steps[|steps| - 1];
      if step.DoStart? { ResultSurvivesStart(before, step.request, step.published, step.selection, step.now, id); }
    }
  }

  lemma {:induction false} ResultSurvivesStart(
      s: Store, req: StartRequest, published: Option<Version>, selected: Option<seq<QuestionVersion>>, now: int, id: AttemptId)
    requires Inv(s) && id in s.results
    ensures var t := Start(s, req, published, selected, now).store;
            id in t.results && t.results[id] == s.results[id] && id in t.attempts && t.attempts[id] == s.attempts[id]
  {
    assert AttemptOk(s, id);
  }

  /** Whatever key a submission uses, now or later in the run, an attempt has one and the same result. */
  lemma {:induction false} EverySubmissionGetsTheSameResult(
      before: seq<Step>, u1: UserId, id: AttemptId, k1: Key, now1: int, between: seq<Step>, u2: UserId, k2: Key, now2: int)
    requires var s := Execute(EMPTY, before);
             Submit(s, u1, id, k1, now1).reply.Ok?
             && Submit(Execute(Submit(s, u1, id, k1, now1).store, between), u2, id, k2, now2).reply.Ok?
    ensures var first := Submit(Execute(EMPTY, before), u1, id, k1, now1);
            Submit(Execute(first.store, between), u2, id, k2, now2).reply == first.reply
  {
    EmptyInv();
    RunsKeepInv(EMPTY, before);
    var s := Execute(EMPTY, before);
    var first := Submit(s, u1, id, k1, now1);
    SubmitKeepsInv(s, u1, id, k1, now1);
    ResultsAreForever(first.store, between, id);
  }

  lemma {:induction false} ReceiptsStay(s: Store, steps: seq<Step>, k: (UserId, Key))
    requires k in s.receipts
    ensures k in Execute(s, steps).receipts && Execute(s, steps).receipts[k] == s.receipts[k]
  {
    if steps != [] {
      ReceiptsStay(s, steps[..|steps| - 1], k);
      StepKeepsReceipts(Execute(s, steps[..|steps| - 1]), steps[|steps| - 1], k);
    }
  }

  lemma {:induction false} StepKeepsReceipts(s: Store, step: Step, k: (UserId, Key))
    requires k in s.receipts
    ensures k in Next(s, step).receipts && Next(s, step).receipts[k] == s.receipts[k]
  {
    match step
    case DoStart(_, _, _, _) =>
    case DoSave(_, _, _, _, _, _) =>
    case DoResume(_, _, _, _, _) =>
    case DoSubmit(_, _, _, _) =>
    case DoRefresh(_, _, _) =>
  }

  /** Repeating a submission with its own key, after anything else, is a replay: the same reply and
      nothing written. */
  lemma {:induction false} SubmissionReplays(
      steps: seq<Step>, u: UserId, id: AttemptId, k: Key, now: int, between: seq<Step>, later: int)
    requires Submit(Execute(EMPTY, steps), u, id, k, now).reply.Ok?
    ensures var first := Submit(Execute(EMPTY, steps), u, id, k, now);
            var s := Execute(first.store, between);
            Submit(s, u, id, k, later) == Outcome(s, first.reply)
  {
    EmptyInv();
    RunsKeepInv(EMPTY, steps);
    var first := Submit(Execute(EMPTY, steps), u, id, k, now);
    SubmitKeepsInv(Execute(EMPTY, steps), u, id, k, now);
    ReceiptsStay(first.store, between, (u, k));
    ResultsAreForever(first.store, between, id);
  }

  /** Repeating a start with its own key always answers with the attempt it created. */
  lemma {:induction false} StartReplays(
      steps: seq<Step>, req: StartRequest, published: Option<Version>, selected: Option<seq<QuestionVersion>>, now: int,
      between: seq<Step>, again: Option<Version>, reselected: Option<seq<QuestionVersion>>, later: int)
    requires var r := Start(Execute(EMPTY, steps), req, published, selected, now).reply; r.Ok? && !r.value.resumed
    ensures var first := Start(Execute(EMPTY, steps), req, published, selected, now);
            Start(Execute(first.store, between), req, again, reselected, later).reply
            == Ok(StartReply(first.reply.value.attempt, true))
  {
    EmptyInv();
    RunsKeepInv(EMPTY, steps);
    var s := Execute(EMPTY, steps);
    var first := Start(s, req, published, selected, now);
    StartKeepsInv(s, req, published, selected, now);
    StartKeysStay(first.store, between, (req.user, req.key));
    RunsKeepInv(first.store, between);
    AttemptsKeepIdentity(first.store, between, first.reply.value.attempt);
  }

  lemma {:induction false} StartKeysStay(s: Store, steps: seq<Step>, k: (UserId, Key))
    requires Inv(s) && k in s.starts
    ensures k in Execute(s, steps).starts && Execute(s, steps).starts[k] == s.starts[k]
  {
    if steps != [] {
      StartKeysStay(s, steps[..|steps| - 1], k);
      RunsKeepInv(s, steps[..|steps| - 1]);
      StepKeepsStartKeys(Execute(s, steps[..|steps| - 1]), steps[|steps| - 1], k);
    }
  }

  lemma {:induction false} StepKeepsStartKeys(s: Store, step: Step, k: (UserId, Key))
    requires KeysOk(s) && k in s.starts
    ensures k in Next(s, step).starts && Next(s, step).starts[k] == s.starts[k]
  {
    match step
    case DoStart(_, _, _, _) =>
    case DoSave(_, _, _, _, _, _) =>
    case DoResume(_, _, _, _, _) =>
    case DoSubmit(_, _, _, _) =>
    case DoRefresh(_, _, _) =>
  }

  predicate SameAttempt(a: Attempt, b: Attempt) {
    a.quiz == b.quiz && a.user == b.user && a.deadline == b.deadline && a.version == b.version && a.startKey == b.startKey
  }

  lemma {:induction false} StartKeepsIdentity(
      s: Store, req: StartRequest, published: Option<Version>, selected: Option<seq<QuestionVersion>>, now: int, id: AttemptId)
    requires Inv(s) && id in s.attempts
    ensures var t := Start(s, req, published, selected, now).store;
            id in t.attempts && SameAttempt(s.attempts[id], t.attempts[id])
  {
    assert AttemptOk(s, id);
  }

  lemma {:induction false} AttemptsKeepIdentity(s: Store, steps: seq<Step>, id: AttemptId)
    requires Inv(s) && id in s.attempts
    ensures var t := Execute(s, steps); id in t.attempts && SameAttempt(s.attempts[id], t.attempts[id])
  {
    if steps != [] {
      var before := Execute(s, steps[..|steps| - 1]);
      var step := steps[|steps| - 1];
      AttemptsKeepIdentity(s, steps[..|steps| - 1], id);
      RunsKeepInv(s, steps[..|steps| - 1]);
      if step.DoStart? { StartKeepsIdentity(before, step.request, step.published, step.selection, step.now, id); }
    }
  }

  // ---------------------------------------------------------------- answers and time

  /** The only way a stored answer changes: its owner saves it, while the attempt is active and
      before its deadline. */
  lemma {:induction false} AnswersChangeOnlyInTime(steps: seq<Step>, step: Step, id: AttemptId)
    requires var s := Execute(EMPTY, steps);
             id in s.attempts && id in Next(s, step).attempts
             && Next(s, step).attempts[id].questions != s.attempts[id].questions
    ensures var a := Execute(EMPTY, steps).attempts[id];
            step.DoSave? && step.id == id && step.user == a.user && a.status == Active && !IsLate(a, step.now)
  {
    EmptyInv();
    RunsKeepInv(EMPTY, steps);
    var s := Execute(EMPTY, steps);
    assert AttemptOk(s, id);
    match step
    case DoStart(_, _, _, _) => StartKeepsQuestions(s, step, id);
    case DoSave(_, _, _, _, _, _) =>
    case DoResume(_, _, _, _, _) =>
    case DoSubmit(_, _, _, _) =>
    case DoRefresh(_, _, _) =>
  }

  lemma {:induction false} StartKeepsQuestions(s: Store, step: Step, id: AttemptId)
    requires step.DoStart? && id in s.attempts && id < s.nextId
    ensures id in Next(s, step).attempts && Next(s, step).attempts[id].questions == s.attempts[id].questions
  {
  }

  /** A late save or resume leaves everything as it was; the next refresh, submission or start with the
      attempt's own key finalises the attempt as expired. */
  lemma {:induction false} LateCallsAreFinalisedLater(steps: seq<Step>, id: AttemptId, now: int)
    requires var s := Execute(EMPTY, steps);
             id in s.attempts && s.attempts[id].status == Active && IsLate(s.attempts[id], now)
    ensures var s := Execute(EMPTY, steps);
            var u := s.attempts[id].user;
            && (forall position, selected, revision :: Save(s, u, id, position, selected, revision, now) == Outcome(s, Err(Closed)))
            && (forall position, revision :: SaveResume(s, u, id, position, revision, now) == Outcome(s, Err(Closed)))
            && Refresh(s, u, id, now).store == Finalize(s, id, now, true)
            && (forall key: Key :: (u, key) !in s.receipts ==>
                  Submit(s, u, id, key, now).store == Finalize(s, id, now, true).(receipts := s.receipts[(u, key) := id]))
            && (forall published, selected, count, difficulties, review ::
                  Start(s, StartRequest(u, s.attempts[id].quiz, s.attempts[id].startKey, count, difficulties, review),
                        published, selected, now).store == Finalize(s, id, now, true))
    ensures var s := Execute(EMPTY, steps);
            Finalize(s, id, now, true).attempts[id].status == Expired && id in Finalize(s, id, now, true).results
  {
    EmptyInv();
    RunsKeepInv(EMPTY, steps);
    assert AttemptOk(Execute(EMPTY, steps), id);
  }

  ghost predicate IsExpired(s: Store, id: AttemptId) {
    id in s.attempts && s.attempts[id].status == Expired && id in s.results
  }

  /** What a caller can check before a start that finds the attempt late: its key is new or the attempt's
      own, and with a new key nothing refuses another attempt once this one counts as completed. */
  ghost predicate LateStartPasses(
      s: Store, id: AttemptId, req: StartRequest, published: Option<Version>, selected: Option<seq<QuestionVersion>>, now: int)
  {
    if (req.user, req.key) in s.starts then s.starts[(req.user, req.key)] == id
    else
      && published.Some? && IsOpen(published.value, now)
      && !(published.value.maximumAttempts > 0
           && |CompletedOf(s, req.user, req.quiz)| + 1 >= published.value.maximumAttempts)
      && RequestAllowed(req, published.value) && selected.Some?
  }

  lemma {:induction false} FinalisingCompletesOne(s: Store, id: AttemptId, now: int)
    requires id in s.attempts && s.attempts[id].status == Active && id !in s.results
    ensures var a := s.attempts[id];
            |CompletedOf(Finalize(s, id, now, true), a.user, a.quiz)| == |CompletedOf(s, a.user, a.quiz)| + 1
  {
    var a := s.attempts[id];
    var before, after := CompletedOf(s, a.user, a.quiz), CompletedOf(Finalize(s, id, now, true), a.user, a.quiz);
    FinalisingCompletes(s, id, now, id);
    forall x ensures x in after <==> x in before || x == id { FinalisingCompletes(s, id, now, x); }
    OneMoreElement(before, id);
    assert after == before + {id};
  }

  lemma {:induction false} FinalisingCompletes(s: Store, id: AttemptId, now: int, x: AttemptId)
    requires id in s.attempts && s.attempts[id].status == Active && id !in s.results
    ensures var a := s.attempts[id];
            && id !in CompletedOf(s, a.user, a.quiz)
            && (x in CompletedOf(Finalize(s, id, now, true), a.user, a.quiz) <==> x in CompletedOf(s, a.user, a.quiz) || x == id)
  {
  }

  lemma OneMoreElement(ids: set<AttemptId>, id: AttemptId)
    requires id !in ids
    ensures |ids + {id}| == |ids| + 1
  {
  }

  /** Every start by the owner on the quiz, with any key and filters, while the attempt is late but still
      active: it finalises the attempt as expired exactly when it passes those checks, and otherwise, refused
      or replaying another attempt's key, it changes nothing and the attempt stays active. */
  lemma {:induction false} LateStartFinalisesIff(
      steps: seq<Step>, id: AttemptId, req: StartRequest, published: Option<Version>,
      selected: Option<seq<QuestionVersion>>, now: int)
    requires var s := Execute(EMPTY, steps);
             id in s.attempts && s.attempts[id].status == Active && IsLate(s.attempts[id], now)
             && req.user == s.attempts[id].user && req.quiz == s.attempts[id].quiz
    ensures var s := Execute(EMPTY, steps);
            var r := Start(s, req, published, selected, now);
            && (IsExpired(r.store, id) <==> LateStartPasses(s, id, req, published, selected, now))
            && (IsExpired(r.store, id) ==> r.reply.Ok?)
            && (!IsExpired(r.store, id) ==> r.store == s)
            && (!IsExpired(r.store, id) && r.reply.Ok? ==> (req.user, req.key) in s.starts)
  {
    EmptyInv();
    RunsKeepInv(EMPTY, steps);
    var s := Execute(EMPTY, steps);
    assert AttemptOk(s, id);
    assert IsActiveFor(s, id, req.user, req.quiz);
    if (req.user, req.key) in s.starts {
      var other := s.starts[(req.user, req.key)];
      assert AttemptOk(s, other);
      assert other != id && s.attempts[other].quiz == req.quiz ==> !IsActiveFor(s, other, req.user, req.quiz);
    } else {
      assert ActiveFor(s, req.user, req.quiz) == Some(id);
      FinalisingCompletesOne(s, id, now);
    }
  }
}
