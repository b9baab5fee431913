/**
 What each call on an assessment attempt decides and writes, told from the stored attempt alone: which
 starts, saves and positions are accepted, what they store, and what a finished attempt looks like.
*/
module AttemptOutcomes {
  import opened Common
  import opened AttemptScoring
  import opened AssessmentAttempts
  import opened AttemptRuns

  // ---------------------------------------------------------------- saving

  /** A save is accepted exactly for the owner of an active attempt before its deadline, for a question it
      has, with distinct options of that question, one at most unless several may be chosen, and with a
      revision above the stored one or a repetition of it. */
  lemma {:induction false} SaveIsAcceptedIff(s: Store, u: UserId, id: AttemptId, position: int, selected: seq<OptionId>, revision: nat, now: int)
    ensures Save(s, u, id, position, selected, revision, now).reply.Ok? <==>
      && id in s.attempts && s.attempts[id].user == u && s.attempts[id].status == Active
      && (s.attempts[id].deadline.Some? ==> now < s.attempts[id].deadline.value)
      && 1 <= position <= |s.attempts[id].questions|
      && var q := s.attempts[id].questions[position - 1];
         && (forall i, j :: 0 <= i < j < |selected| ==> selected[i] != selected[j])
         && (!q.multipleSelect ==> |selected| <= 1)
         && (forall o :: o in selected ==> o in q.options)
         && (q.answer.Some? ==>
               || revision > q.answer.value.clientRevision
               || (revision == q.answer.value.clientRevision && selected == q.answer.value.selected))
  {
  }

  /** An accepted save that is no repetition stores its selection with both revisions and its time, and
      changes nothing else of the attempt or of any other; a refused one or a repetition changes nothing. */
  lemma {:induction false} SaveWrites(s: Store, u: UserId, id: AttemptId, position: int, selected: seq<OptionId>, revision: nat, now: int)
    ensures var r := Save(s, u, id, position, selected, revision, now);
            if r.reply.Err? then r.store == s
            else
              && id in s.attempts && 1 <= position <= |s.attempts[id].questions|
              && var a := s.attempts[id]; var q := a.questions[position - 1];
                 if q.answer.Some? && q.answer.value.clientRevision == revision then r.store == s
                 else
                   && r.store.results == s.results && r.store.starts == s.starts && r.store.receipts == s.receipts
                   && r.store.attempts == s.attempts[id := a.(
                        serverRevision := a.serverRevision + 1,
                        questions := a.questions[position - 1 := Question(q.multipleSelect, q.options, q.correct, q.maxPoints,
                                                                          Some(Answer(selected, revision, a.serverRevision + 1, now)))])]
  {
    if id in s.attempts && 1 <= position <= |s.attempts[id].questions| {
      var a := s.attempts[id];
      assert s.attempts[id := a] == s.attempts;
    }
  }

  // ---------------------------------------------------------------- the resume position

  datatype Move = Move(position: int, revision: nat)

  function Moved(a: Attempt, m: Move): Attempt {
    match ResumeInto(a, m.position, m.revision)
    case Ok(b) => b
    case Err(_) => a
  }

  function MovedAll(a: Attempt, moves: seq<Move>): Attempt {
    if moves == [] then a else Moved(MovedAll(a, moves[..|moves| - 1]), moves[|moves| - 1])
  }

  /** The stored position is the one sent under the stored revision, if any was. */
  ghost predicate FromMove(a: Attempt, moves: seq<Move>, b: Attempt) {
    || (b.resumePosition == a.resumePosition && b.resumeRevision == a.resumeRevision)
    || (b.resumeRevision > a.resumeRevision && Move(b.resumePosition, b.resumeRevision) in moves)
  }

  /** After any positions, in any order and with any repetition, the stored one carries the highest revision
      that was sent for a question of the attempt, if that is above the one stored before. */
  lemma {:induction false} HighestPositionWins(a: Attempt, moves: seq<Move>)
    ensures var b := MovedAll(a, moves);
            && b.questions == a.questions && FromMove(a, moves, b)
            && (forall m :: m in moves && 1 <= m.position <= |a.questions| ==> m.revision <= b.resumeRevision)
            && (b.resumeRevision != a.resumeRevision ==> 1 <= b.resumePosition <= |a.questions|)
  {
    if moves != [] {
      HighestPositionWins(a, moves[..|moves| - 1]);
      assert moves == moves[..|moves| - 1] + [moves[|moves| - 1]];
    }
  }

  /** A position is accepted for the owner of an active attempt in time, and then stored as in `HighestPositionWins`. */
  lemma {:induction false} ResumeWrites(s: Store, u: UserId, id: AttemptId, position: int, revision: nat, now: int)
    ensures var r := SaveResume(s, u, id, position, revision, now);
            var open := id in s.attempts && s.attempts[id].user == u && s.attempts[id].status == Active
                        && (s.attempts[id].deadline.Some? ==> now < s.attempts[id].deadline.value);
            && (open ==> r.store == s.(attempts := s.attempts[id := Moved(s.attempts[id], Move(position, revision))]))
            && (!open ==> r.store == s && r.reply.Err?)
            && (r.reply.Ok? <==> open && 1 <= position <= |s.attempts[id].questions|
                                 && (revision > s.attempts[id].resumeRevision
                                     || (revision == s.attempts[id].resumeRevision && position == s.attempts[id].resumePosition)))
  {
    if id in s.attempts { assert s.attempts[id := s.attempts[id]] == s.attempts; }
  }

  // ---------------------------------------------------------------- finishing

  /** Finishing writes the result once: the status says whether the time had run out, the revision goes up
      by one, the answers stay, and the receipt names the attempt. */
  lemma {:induction false} SubmissionFinishes(steps: seq<Step>, u: UserId, id: AttemptId, key: Key, now: int)
    requires var s := Execute(EMPTY, steps);
             id in s.attempts && s.attempts[id].user == u && s.attempts[id].status == Active && (u, key) !in s.receipts
    ensures var s := Execute(EMPTY, steps); var r := Submit(s, u, id, key, now); var a := s.attempts[id];
            && id !in s.results && r.reply.Ok?
            && r.store.results == s.results[id := r.reply.value] && r.store.receipts == s.receipts[(u, key) := id]
            && r.store.attempts == s.attempts[id := a.(
                 status := if a.deadline.Some? && a.deadline.value <= now then Expired else Submitted,
                 completedAt := Some(now), serverRevision := a.serverRevision + 1)]
            && r.reply.value == Rescore(a.questions, a.version.passPercent, now)
  {
    EmptyInv();
    RunsKeepInv(EMPTY, steps);
    assert AttemptOk(Execute(EMPTY, steps), id);
  }

  /** A refresh finishes an active attempt exactly when its time has run out. */
  lemma {:induction false} RefreshFinishesIff(steps: seq<Step>, u: UserId, id: AttemptId, now: int)
    requires var s := Execute(EMPTY, steps); id in s.attempts && s.attempts[id].user == u && s.attempts[id].status == Active
    ensures var s := Execute(EMPTY, steps); var r := Refresh(s, u, id, now); var a := s.attempts[id];
            if a.deadline.Some? && a.deadline.value <= now then
              && r.store.results == s.results[id := Rescore(a.questions, a.version.passPercent, now)]
              && r.store.attempts == s.attempts[id := a.(status := Expired, completedAt := Some(now), serverRevision := a.serverRevision + 1)]
            else r.store == s
  {
    EmptyInv();
    RunsKeepInv(EMPTY, steps);
    assert AttemptOk(Execute(EMPTY, steps), id);
  }

  // ---------------------------------------------------------------- starting

  /** With nothing active and a new key, a start is accepted exactly when the quiz is published and open,
      finished attempts are below a positive limit, only practice narrows the questions and within what the
      version allows, and questions could be selected. */
  lemma {:induction false} FreshStartIsAcceptedIff(
      s: Store, req: StartRequest, published: Option<Version>, selected: Option<seq<QuestionVersion>>, now: int)
    requires (req.user, req.key) !in s.starts && forall id :: !IsActiveFor(s, id, req.user, req.quiz)
    ensures Start(s, req, published, selected, now).reply.Ok? <==>
      && published.Some? && selected.Some?
      && var v := published.value;
         && (v.availableFrom.Some? ==> v.availableFrom.value <= now)
         && (v.availableUntil.Some? ==> now < v.availableUntil.value)
         && (v.maximumAttempts == 0
             || |set id | id in s.attempts && s.attempts[id].user == req.user && s.attempts[id].quiz == req.quiz
                          && s.attempts[id].status != Active| < v.maximumAttempts)
         && (v.mode != Practice ==> req.count.None? && req.difficulties == {} && !req.reviewOnly)
         && (v.mode == Practice ==>
               && (if req.count.None? || req.count.value == 0 then v.questionCount >= 1 else 1 <= req.count.value <= v.questionCount)
               && (v.allowed != {} ==> req.difficulties <= v.allowed)
               && (req.reviewOnly ==> !v.fixedSelection))
  {
    var finished := set id | id in s.attempts && s.attempts[id].user == req.user && s.attempts[id].quiz == req.quiz
                             && s.attempts[id].status != Active;
    assert finished == CompletedOf(s, req.user, req.quiz);
    assert req.difficulties <= {Easy, Medium, Hard} by {
      forall d | d in req.difficulties ensures d in {Easy, Medium, Hard} { ThreeDifficulties(d); }
    }
  }

  lemma ThreeDifficulties(d: Difficulty)
    ensures d in {Easy, Medium, Hard}
  {
    match d
    case Easy =>
    case Medium =>
    case Hard =>
  }

  /** An accepted one stores a new active attempt: the selected questions unanswered and worth one point each,
      the deadline the version's duration from now, and the key leading to it. */
  lemma {:induction false} FreshStartStores(
      s: Store, req: StartRequest, published: Option<Version>, selected: Option<seq<QuestionVersion>>, now: int)
    requires (req.user, req.key) !in s.starts && forall id :: !IsActiveFor(s, id, req.user, req.quiz)
    requires Start(s, req, published, selected, now).reply.Ok?
    ensures var r := Start(s, req, published, selected, now);
            && published.Some? && selected.Some?
            && r.reply == Ok(StartReply(s.nextId, false)) && r.store.starts == s.starts[(req.user, req.key) := s.nextId]
            && r.store.results == s.results && s.nextId in r.store.attempts
            && r.store.attempts == s.attempts[s.nextId := r.store.attempts[s.nextId]]
            && var a := r.store.attempts[s.nextId];
               && a.user == req.user && a.quiz == req.quiz && a.version == published.value && a.status == Active
               && a.startedAt == now && a.completedAt == None
               && a.deadline == (if published.value.duration == 0 then None else Some(now + published.value.duration))
               && |a.questions| == |selected.value|
               && forall i :: 0 <= i < |a.questions| ==>
                    a.questions[i] == Question(selected.value[i].multipleSelect, selected.value[i].options, selected.value[i].correct, 100, None)
  {
  }

  /** A start that finds the user's attempt in time answers with it and changes nothing. */
  lemma {:induction false} StartResumes(
      steps: seq<Step>, id: AttemptId, req: StartRequest, published: Option<Version>,
      selected: Option<seq<QuestionVersion>>, now: int)
    requires var s := Execute(EMPTY, steps);
             id in s.attempts && s.attempts[id].status == Active && s.attempts[id].user == req.user && s.attempts[id].quiz == req.quiz
             && (s.attempts[id].deadline.Some? ==> now < s.attempts[id].deadline.value) && (req.user, req.key) !in s.starts
             && published.Some? && (published.value.availableFrom.Some? ==> published.value.availableFrom.value <= now)
             && (published.value.availableUntil.Some? ==> now < published.value.availableUntil.value)
    ensures var s := Execute(EMPTY, steps); Start(s, req, published, selected, now) == Outcome(s, Ok(StartReply(id, true)))
  {
    EmptyInv();
    RunsKeepInv(EMPTY, steps);
    var s := Execute(EMPTY, steps);
    assert IsActiveFor(s, id, req.user, req.quiz);
    assert ActiveFor(s, req.user, req.quiz) == Some(id);
  }
}
