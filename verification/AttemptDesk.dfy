/**
 The attempt services as they run: rows updated in place, finalisation by its accumulation
 loop. Each method is proved to do exactly what the state machine says.
*/
module AttemptDesk {
  import opened Common
  import opened AttemptScoring
  import opened AssessmentAttempts
  import opened AttemptRuns

  class Desk {
    var attempts: map<AttemptId, Attempt>
    var starts: map<(UserId, Key), AttemptId>
    var results: map<AttemptId, AttemptResult>
    var receipts: map<(UserId, Key), AttemptId>
    var nextId: AttemptId

    constructor ()
      ensures State() == EMPTY && Inv(State())
    {
      attempts, starts, results, receipts, nextId := map[], map[], map[], map[], 0;
    }

    ghost function State(): Store
      reads this
    {
      Store(attempts, starts, results, receipts, nextId)
    }

    method FinalizeAttempt(id: AttemptId, submittedAt: int, expired: bool) returns (result: AttemptResult)
      requires id in attempts
      modifies this
      ensures State() == Finalize(old(State()), id, submittedAt, expired)
      ensures id in results && result == results[id]
    {
      if id in results { return results[id]; }
      var a := attempts[id];
      result := ScoreAttempt(a.questions, a.version.passPercent, submittedAt);
      attempts := attempts[id := a.(status := if expired then Expired else Submitted,
                                    completedAt := Some(submittedAt),
                                    serverRevision := a.serverRevision + 1)];
      results := results[id := result];
    }

    /** The user's active attempt at a quiz, found by looking at every attempt. */
    method FindActive(u: UserId, q: QuizId) returns (found: Option<AttemptId>)
      requires Inv(State())
      ensures found == ActiveFor(State(), u, q)
    {
      found := None;
      var left := attempts.Keys;
      while left != {}
        invariant left <= attempts.Keys
        invariant found.Some? ==> IsActiveFor(State(), found.value, u, q)
        invariant found.None? ==> forall id :: IsActiveFor(State(), id, u, q) ==> id in left
        decreases left
      {
        var id :| id in left;
        if attempts[id].user == u && attempts[id].quiz == q && attempts[id].status == Active {
          found := Some(id);
        }
        left := left - {id};
      }
    }

    method CountCompleted(u: UserId, q: QuizId) returns (n: nat)
      ensures n == |CompletedOf(State(), u, q)|
    {
      var done := set id | id in attempts && attempts[id].user == u && attempts[id].quiz == q && attempts[id].status != Active;
      assert done == CompletedOf(State(), u, q);
      n := |done|;
    }

    method CreateAttempt(req: StartRequest, v: Version, selected: Option<seq<QuestionVersion>>, startedAt: int)
        returns (created: Result<AttemptId, Error>)
      modifies this
      ensures match Create(old(State()), req, v, selected, startedAt)
              case Ok(t) => State() == t && created == Ok(old(nextId))
              case Err(e) => State() == old(State()) && created == Err(e)
    {
      var completed := CountCompleted(req.user, req.quiz);
      if v.maximumAttempts > 0 && completed >= v.maximumAttempts { return Err(RetryLimit); }
      if !RequestAllowed(req, v) || selected.None? { return Err(Invalid); }
      var id := nextId;
      attempts := attempts[id := NewAttempt(req, v, selected.value, startedAt)];
      starts := starts[(req.user, req.key) := id];
      nextId := nextId + 1;
      created := Ok(id);
    }

    /** The reply to a start key seen before. */
    method ReplayStart(req: StartRequest, startedAt: int) returns (reply: Result<StartReply, Error>)
      requires (req.user, req.key) in starts && starts[(req.user, req.key)] in attempts
      modifies this
      ensures forall published, selected ::
                Outcome(State(), reply) == Start(old(State()), req, published, selected, startedAt)
    {
      var id := starts[(req.user, req.key)];
      if attempts[id].quiz != req.quiz { return Err(Conflict); }
      if attempts[id].status == Active && IsLate(attempts[id], startedAt) {
        var _ := FinalizeAttempt(id, startedAt, true);
      }
      reply := Ok(StartReply(id, true));
    }

    /** A rule that refuses after the late active attempt was finalised undoes that too. */
    method StartAttempt(
        req: StartRequest, published: Option<Version>, selected: Option<seq<QuestionVersion>>, startedAt: int)
        returns (reply: Result<StartReply, Error>)
      requires Inv(State())
      modifies this
      ensures Outcome(State(), reply) == Start(old(State()), req, published, selected, startedAt)
      ensures Inv(State())
    {
      StartKeepsInv(State(), req, published, selected, startedAt);
      if (req.user, req.key) in starts {
        reply := ReplayStart(req, startedAt);
        return;
      }
      if published.None? { return Err(NotFound); }
      if !IsOpen(published.value, startedAt) { return Err(NotOpen); }
      var active := FindActive(req.user, req.quiz);
      if active.Some? && !IsLate(attempts[active.value], startedAt) {
        return Ok(StartReply(active.value, true));
      }
      var savedAttempts, savedResults := attempts, results;
      if active.Some? {
        var _ := FinalizeAttempt(active.value, startedAt, true);
      }
      var created := CreateAttempt(req, published.value, selected, startedAt);
      match created
      case Ok(id) => reply := Ok(StartReply(id, false));
      case Err(e) =>
        attempts, results := savedAttempts, savedResults;
        reply := Err(e);
    }

    method SaveAnswer(
        user: UserId, id: AttemptId, position: int, selected: seq<OptionId>, clientRevision: nat, savedAt: int)
        returns (reply: Result<Attempt, Error>)
      modifies this
      ensures Outcome(State(), reply) == Save(old(State()), user, id, position, selected, clientRevision, savedAt)
    {
      if id !in attempts || attempts[id].user != user { return Err(NotFound); }
      if attempts[id].status != Active { return Err(Closed); }
      if IsLate(attempts[id], savedAt) { return Err(Closed); }
      var a := attempts[id];
      if !(1 <= position <= |a.questions|) { return Err(NotFound); }
      var q := a.questions[position - 1];
      if !Choosable(q, selected) { return Err(Invalid); }
      if q.answer.Some? && clientRevision <= q.answer.value.clientRevision {
        if clientRevision == q.answer.value.clientRevision && q.answer.value.selected == selected {
          assert attempts[id := a] == attempts;
          return Ok(a);
        }
        return Err(Conflict);
      }
      a := a.(serverRevision := a.serverRevision + 1);
      q := q.(answer := Some(Answer(selected, clientRevision, a.serverRevision, savedAt)));
      a := a.(questions := a.questions[position - 1 := q]);
      attempts := attempts[id := a];
      reply := Ok(a);
    }

    method SaveAttemptResume(user: UserId, id: AttemptId, position: int, clientRevision: nat, savedAt: int)
        returns (reply: Result<Attempt, Error>)
      modifies this
      ensures Outcome(State(), reply) == SaveResume(old(State()), user, id, position, clientRevision, savedAt)
    {
      if id !in attempts || attempts[id].user != user { return Err(NotFound); }
      if attempts[id].status != Active { return Err(Closed); }
      if IsLate(attempts[id], savedAt) { return Err(Closed); }
      var a := attempts[id];
      if !(1 <= position <= |a.questions|) { return Err(NotFound); }
      if clientRevision <= a.resumeRevision {
        if clientRevision == a.resumeRevision && position == a.resumePosition {
          assert attempts[id := a] == attempts;
          return Ok(a);
        }
        return Err(Conflict);
      }
      a := a.(resumePosition := position);
      a := a.(resumeRevision := clientRevision);
      a := a.(serverRevision := a.serverRevision + 1);
      attempts := attempts[id := a];
      reply := Ok(a);
    }

    method SubmitAttempt(user: UserId, id: AttemptId, key: Key, submittedAt: int)
        returns (reply: Result<AttemptResult, Error>)
      requires Inv(State())
      modifies this
      ensures Outcome(State(), reply) == Submit(old(State()), user, id, key, submittedAt)
      ensures Inv(State())
    {
      SubmitKeepsInv(State(), user, id, key, submittedAt);
      if (user, key) in receipts {
        if receipts[(user, key)] != id { return Err(Conflict); }
        return Ok(results[id]);
      }
      if id !in attempts || attempts[id].user != user { return Err(NotFound); }
      var result;
      if id in results {
        result := results[id];
      } else {
        result := FinalizeAttempt(id, submittedAt, IsLate(attempts[id], submittedAt));
      }
      receipts := receipts[(user, key) := id];
      reply := Ok(result);
    }

    method RefreshAttemptState(user: UserId, id: AttemptId, checkedAt: int) returns (reply: Result<Attempt, Error>)
      modifies this
      ensures Outcome(State(), reply) == Refresh(old(State()), user, id, checkedAt)
    {
      if id !in attempts || attempts[id].user != user { return Err(NotFound); }
      if attempts[id].status == Active && IsLate(attempts[id], checkedAt) {
        var _ := FinalizeAttempt(id, checkedAt, true);
      }
      reply := Ok(attempts[id]);
    }
  }
}
