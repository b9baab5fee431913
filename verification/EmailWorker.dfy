/**
 The worker loop itself, over a table it updates in place, interrupted between its
 transactions by anything the other workers and account services do. Its whole execution
 is proved to be one run of the step model, so every result about runs holds of it.
*/
module EmailWorker {
  import opened Common
  import opened EmailDelivery

  ghost predicate BelongsTo(step: Step, w: WorkerId) {
    (step.Claim? || step.Fail? || step.Succeed? || step.Crash?) && step.worker == w
  }

  ghost predicate OthersOnly(steps: seq<Step>, w: WorkerId) {
    forall i :: 0 <= i < |steps| ==> !BelongsTo(steps[i], w)
  }

  ghost function AcceptedBy(log: seq<Event>, w: WorkerId): nat {
    if log == [] then 0
    else AcceptedBy(log[..|log| - 1], w)
         + (if log[|log| - 1].Accepted? && log[|log| - 1].worker == w then 1 else 0)
  }

  ghost function ClaimedBy(log: seq<Event>, w: WorkerId): nat {
    if log == [] then 0
    else ClaimedBy(log[..|log| - 1], w)
         + (if log[|log| - 1].Claimed? && log[|log| - 1].worker == w then 1 else 0)
  }

  lemma CountsAppended(log: seq<Event>, e: Event, w: WorkerId)
    ensures AcceptedBy(log + [e], w) == AcceptedBy(log, w) + (if e.Accepted? && e.worker == w then 1 else 0)
    ensures ClaimedBy(log + [e], w) == ClaimedBy(log, w) + (if e.Claimed? && e.worker == w then 1 else 0)
  {
    assert (log + [e])[..|log + [e]| - 1] == log;
  }

  lemma OtherStepLeavesTheWorkerAlone(s: System, step: Step, w: WorkerId)
    requires !BelongsTo(step, w)
    ensures var t := Next(s, step);
            && (w in t.flights <==> w in s.flights) && (w in s.flights ==> t.flights[w] == s.flights[w])
            && AcceptedBy(t.log, w) == AcceptedBy(s.log, w) && ClaimedBy(t.log, w) == ClaimedBy(s.log, w)
  {
    var t := Next(s, step);
    if t.log != s.log {
      assert t.log == s.log + [t.log[|s.log|]];
      CountsAppended(s.log, t.log[|s.log|], w);
    }
  }

  /** The state is what the trace so far leads to from where the call started. */
  ghost predicate Explained(start: System, trace: seq<Step>, s: System) {
    s == Execute(start, trace) && Inv(s)
  }

  /** What others do never touches a worker's message in flight, nor its tallies. */
  lemma {:induction false} OthersLeaveTheWorkerAlone(s: System, steps: seq<Step>, w: WorkerId)
    requires OthersOnly(steps, w)
    ensures var t := Execute(s, steps);
            && (w in t.flights <==> w in s.flights) && (w in s.flights ==> t.flights[w] == s.flights[w])
            && AcceptedBy(t.log, w) == AcceptedBy(s.log, w) && ClaimedBy(t.log, w) == ClaimedBy(s.log, w)
  {
    if steps != [] {
      OthersLeaveTheWorkerAlone(s, steps[..|steps| - 1], w);
      OtherStepLeavesTheWorkerAlone(Execute(s, steps[..|steps| - 1]), steps[|steps| - 1], w);
    }
  }

  lemma BlockExplained(start: System, trace: seq<Step>, mid: System, more: seq<Step>, end: System)
    requires Explained(start, trace, mid) && end == Execute(mid, more)
    ensures Explained(start, trace + more, end)
  {
    RunsKeepInv(mid, more);
    ExecuteSplits(start, trace, more);
  }

  lemma OwnStepExplained(start: System, trace: seq<Step>, mid: System, step: Step, end: System, w: WorkerId)
    requires Explained(start, trace, mid) && BelongsTo(step, w) && end == Next(mid, step)
    ensures Explained(start, trace + [step], end)
    ensures ClaimedBy(end.log, w) <= ClaimedBy(mid.log, w) + (if step.Claim? then 1 else 0)
    ensures AcceptedBy(end.log, w) ==
            AcceptedBy(mid.log, w) + (if step.Succeed? && end.log != mid.log then 1 else 0)
  {
    assert [step][..0] == [] && Execute(mid, []) == mid;
    assert end == Execute(mid, [step]);
    BlockExplained(start, trace, mid, [step], end);
    if end.log != mid.log {
      assert end.log == mid.log + [end.log[|mid.log|]];
      CountsAppended(mid.log, end.log[|mid.log|], w);
    }
  }

  // ---------------------------------------------------------------- what a worker does, step by step

  /** The candidates of a call: of the unfinished rows that are due, the `limit` longest waiting, in order. */
  ghost predicate DueList(s: System, now: int, limit: nat, ids: seq<DeliveryId>) {
    && |ids| <= limit
    && (forall i, j :: 0 <= i < j < |ids| ==> ids[i] != ids[j])
    && (forall i :: 0 <= i < |ids| ==> ids[i] in s.rows && s.rows[ids[i]].nextAttemptAt <= now)
    && (forall i :: 0 <= i < |ids| ==> s.rows[ids[i]].status != Sent && s.rows[ids[i]].status != Failed)
    && (forall i, j :: 0 <= i < j < |ids| ==> s.rows[ids[i]].nextAttemptAt <= s.rows[ids[j]].nextAttemptAt)
    && (forall d :: d in s.rows && s.rows[d].status != Sent && s.rows[d].status != Failed
                    && s.rows[d].nextAttemptAt <= now && d !in ids ==>
          |ids| == limit && forall i :: 0 <= i < |ids| ==> s.rows[ids[i]].nextAttemptAt <= s.rows[d].nextAttemptAt)
  }

  /** What the worker made of one candidate: skipped because another worker has its row locked, tried but
      not claimed, or claimed and brought to an outcome. */
  datatype Turn =
    | Locked(others: seq<Step>)
    | NotClaimed(others: seq<Step>, claimedAt: int)
    | Handled(others: seq<Step>, claimedAt: int, meanwhile: seq<Step>, outcome: Step)

  function StepsOf(t: Turn, w: WorkerId, d: DeliveryId): seq<Step> {
    match t
    case Locked(others) => others
    case NotClaimed(others, at) => others + [Claim(w, d, at)]
    case Handled(others, at, meanwhile, outcome) => others + [Claim(w, d, at)] + meanwhile + [outcome]
  }

  /** A turn is honest when only others act around the worker's own steps, when it is handled exactly if the
      claim was won, and when the outcome is a recorded send or the end of a call whose row is gone. */
  ghost predicate HonestTurn(start: System, t: Turn, w: WorkerId, d: DeliveryId) {
    && OthersOnly(t.others, w)
    && (!t.Locked? ==> (t.Handled? <==> w in Next(Execute(start, t.others), Claim(w, d, t.claimedAt)).flights))
    && (t.Handled? ==>
          && OthersOnly(t.meanwhile, w)
          && BelongsTo(t.outcome, w) && !t.outcome.Claim?
          && (t.outcome.Crash? <==>
                d !in Execute(start, t.others + [Claim(w, d, t.claimedAt)] + t.meanwhile).rows))
  }

  function Trace(turns: seq<Turn>, w: WorkerId, ids: seq<DeliveryId>): seq<Step>
    requires |turns| <= |ids|
  {
    if turns == [] then []
    else Trace(turns[..|turns| - 1], w, ids) + StepsOf(turns[|turns| - 1], w, ids[|turns| - 1])
  }

  ghost predicate HonestTurns(start: System, turns: seq<Turn>, w: WorkerId, ids: seq<DeliveryId>) {
    && |turns| <= |ids|
    && forall i :: 0 <= i < |turns| ==> HonestTurn(Execute(start, Trace(turns[..i], w, ids)), turns[i], w, ids[i])
  }

  ghost predicate EndsTheCall(t: Turn) {
    t.Handled? && t.outcome.Crash?
  }

  class EmailQueue {
    var rows: map<DeliveryId, Row>
    var tokens: map<DeliveryId, Token>
    ghost var flights: map<WorkerId, Flight>
    ghost var log: seq<Event>

    constructor ()
      ensures State() == EMPTY
    {
      rows, tokens, flights, log := map[], map[], map[], [];
    }

    ghost function State(): System
      reads this
    {
      System(rows, tokens, flights, log)
    }

    predicate IsDue(d: DeliveryId, now: int)
      reads this
    {
      d in rows && (rows[d].status == Pending || rows[d].status == Sending) && rows[d].nextAttemptAt <= now
    }

    method Earliest(candidates: set<DeliveryId>) returns (d: DeliveryId)
      requires candidates != {} && candidates <= rows.Keys
      ensures d in candidates && forall x :: x in candidates ==> rows[d].nextAttemptAt <= rows[x].nextAttemptAt
    {
      d :| d in candidates;
      var left := candidates - {d};
      while left != {}
        invariant left <= candidates && d in candidates
        invariant forall x :: x in candidates - left ==> rows[d].nextAttemptAt <= rows[x].nextAttemptAt
        decreases left
      {
        var x :| x in left;
        if rows[x].nextAttemptAt < rows[d].nextAttemptAt { d := x; }
        left := left - {x};
      }
    }

    /** The candidate query: the `limit` rows that have been due longest, soonest first. */
    method SelectDue(now: int, limit: nat) returns (ids: seq<DeliveryId>)
      ensures |ids| <= limit
      ensures forall i :: 0 <= i < |ids| ==> ids[i] in rows && IsDue(ids[i], now)
      ensures DueList(State(), now, limit, ids)
      ensures forall i, j :: 0 <= i < j < |ids| ==> ids[i] != ids[j] && rows[ids[i]].nextAttemptAt <= rows[ids[j]].nextAttemptAt
      ensures forall d :: IsDue(d, now) && d !in ids ==>
                |ids| == limit && forall i :: 0 <= i < |ids| ==> rows[ids[i]].nextAttemptAt <= rows[d].nextAttemptAt
    {
      ids := [];
      var left := set d | d in rows && IsDue(d, now);
      while |ids| < limit && left != {}
        invariant |ids| <= limit && left <= rows.Keys
        invariant forall d :: d in left ==> IsDue(d, now)
        invariant forall i :: 0 <= i < |ids| ==> IsDue(ids[i], now) && ids[i] !in left
        invariant forall i, j :: 0 <= i < j < |ids| ==> ids[i] != ids[j] && rows[ids[i]].nextAttemptAt <= rows[ids[j]].nextAttemptAt
        invariant forall d :: IsDue(d, now) && d !in left ==> d in ids
        invariant forall i, d :: 0 <= i < |ids| && d in left ==> rows[ids[i]].nextAttemptAt <= rows[d].nextAttemptAt
        decreases left
      {
        var d := Earliest(left);
        ids := ids + [d];
        left := left - {d};
      }
    }

    /** Anything the rest of the system may do between two transactions of worker `w`. */
    method Interfere(w: WorkerId) returns (ghost others: seq<Step>)
      modifies this
      ensures OthersOnly(others, w)
      ensures State() == Execute(old(State()), others)
    {
      others := [];
      assert Execute(State(), []) == State();
    }

    method ClaimTransaction(w: WorkerId, d: DeliveryId, now: int) returns (won: bool, attempt: nat)
      requires w !in flights
      requires d in rows ==> d in tokens
      modifies this
      ensures State() == Next(old(State()), Claim(w, d, now))
      ensures won <==> w in flights
      ensures won ==> flights[w] == Flight(d, attempt)
    {
      won, attempt := false, 0;
      if d !in rows || Terminal(rows[d]) { return; }
      if rows[d].nextAttemptAt > now { return; }
      if !Usable(tokens[d], now) {
        rows := rows[d := rows[d].(status := Failed, failedAt := Some(now), lastError := StaleLink)];
        log := log + [SkippedStale(d, now)];
        return;
      }
      log := log + [Claimed(d, w, rows[d].attempts + 1, now, rows[d].status == Sending)];
      rows := rows[d := rows[d].(status := Sending, attempts := rows[d].attempts + 1)];
      attempt := rows[d].attempts;
      rows := rows[d := rows[d].(nextAttemptAt := now + CLAIM_SECONDS)];
      flights := flights[w := Flight(d, attempt)];
      won := true;
    }

    method FailTransaction(w: WorkerId, d: DeliveryId, attempt: nat, e: SendError, now: int)
      requires w in flights && flights[w] == Flight(d, attempt) && d in rows
      modifies this
      ensures State() == Next(old(State()), Fail(w, e, now))
    {
      flights := flights - {w};
      if rows[d].attempts != attempt || rows[d].status != Sending { return; }
      var terminal := rows[d].attempts >= MAX_ATTEMPTS || IsPermanentFailure(e);
      rows := rows[d := rows[d].(status := if terminal then Failed else Pending,
                                 nextAttemptAt := now + Delay(rows[d].attempts),
                                 failedAt := if terminal then Some(now) else None,
                                 lastError := SendFailure(e))];
      log := log + [if terminal then GaveUp(d, w, attempt, now, e) else RetryScheduled(d, w, attempt, now, e)];
    }

    method SucceedTransaction(w: WorkerId, d: DeliveryId, attempt: nat, now: int) returns (recorded: bool)
      requires w in flights && flights[w] == Flight(d, attempt) && d in rows
      modifies this
      ensures State() == Next(old(State()), Succeed(w, now))
      ensures recorded <==> log == old(log) + [Accepted(d, w, attempt, now)]
      ensures !recorded ==> log == old(log)
    {
      flights := flights - {w};
      if rows[d].attempts != attempt || rows[d].status != Sending { return false; }
      rows := rows[d := rows[d].(status := Sent, sentAt := Some(now), lastError := NoError)];
      log := log + [Accepted(d, w, attempt, now)];
      return true;
    }

    /** One claim, one send outside any transaction, one recorded outcome. `alive` is false when
        the row was erased meanwhile, which ends the worker's whole call with an exception. */
    method DispatchOne(w: WorkerId, d: DeliveryId) returns (accepted: nat, alive: bool, ghost turn: Turn)
      requires w !in flights && Inv(State())
      modifies this
      ensures Explained(old(State()), StepsOf(turn, w, d), State()) && w !in flights
      ensures HonestTurn(old(State()), turn, w, d) && alive == !EndsTheCall(turn)
      ensures accepted == AcceptedBy(log, w) - AcceptedBy(old(log), w)
      ensures ClaimedBy(log, w) <= ClaimedBy(old(log), w) + 1
    {
      accepted, alive := 0, true;
      ghost var start := State();
      assert Execute(start, []) == start;

      ghost var others := Interfere(w);
      OthersLeaveTheWorkerAlone(start, others, w);
      BlockExplained(start, [], start, others, State());
      assert [] + others == others;
      turn := Locked(others);
      var lockedByAnother: bool := *;
      if lockedByAnother { return; }

      ghost var before := State();
      assert DeliveryOk(before, d);
      var claimedAt: int := *;
      var won, attempt := ClaimTransaction(w, d, claimedAt);
      OwnStepExplained(start, others, before, Claim(w, d, claimedAt), State(), w);
      turn := NotClaimed(others, claimedAt);
      if !won { return; }

      before := State();
      ghost var meanwhile := Interfere(w);
      OthersLeaveTheWorkerAlone(before, meanwhile, w);
      ghost var soFar := others + [Claim(w, d, claimedAt)];
      BlockExplained(start, soFar, before, meanwhile, State());
      ghost var outcome;
      accepted, alive, outcome := Record(w, d, attempt, start, soFar + meanwhile);
      turn := Handled(others, claimedAt, meanwhile, outcome);
    }

    method Record(w: WorkerId, d: DeliveryId, attempt: nat, ghost start: System, ghost trace: seq<Step>)
      returns (accepted: nat, alive: bool, ghost step: Step)
      requires w in flights && flights[w] == Flight(d, attempt) && Explained(start, trace, State())
      modifies this
      ensures Explained(start, trace + [step], State()) && w !in flights
      ensures BelongsTo(step, w) && !step.Claim? && (step.Crash? <==> d !in old(rows)) && alive == !step.Crash?
      ensures accepted == AcceptedBy(log, w) - AcceptedBy(old(log), w)
      ensures ClaimedBy(log, w) <= ClaimedBy(old(log), w)
    {
      accepted, alive := 0, true;
      var failure: Option<SendError> := *;
      var recordedAt: int := *;
      if d !in rows {
        flights := flights - {w};
        alive, step := false, Crash(w);
      } else if failure.Some? {
        FailTransaction(w, d, attempt, failure.value, recordedAt);
        step := Fail(w, failure.value, recordedAt);
      } else {
        var recorded := SucceedTransaction(w, d, attempt, recordedAt);
        accepted, step := if recorded then 1 else 0, Succeed(w, recordedAt);
      }
      OwnStepExplained(start, trace, old(State()), step, State(), w);
    }

    /** The worker's call: it takes the longest waiting due rows, gives every one of them its turn unless a
        row vanishes under it, is a run of the step model made of these turns, counts exactly the messages
        it got accepted, claims no more than `limit` deliveries, and leaves nothing in flight. */
    method DispatchDue(w: WorkerId, limit: nat) returns (delivered: nat, ghost now: int, ghost ids: seq<DeliveryId>, ghost turns: seq<Turn>)
      requires w !in flights && Inv(State())
      modifies this
      ensures DueList(old(State()), now, limit, ids) && HonestTurns(old(State()), turns, w, ids)
      ensures |turns| < |ids| ==> |turns| > 0 && EndsTheCall(turns[|turns| - 1])
      ensures State() == Execute(old(State()), Trace(turns, w, ids)) && Inv(State()) && w !in flights
      ensures delivered == AcceptedBy(log, w) - AcceptedBy(old(log), w)
      ensures ClaimedBy(log, w) <= ClaimedBy(old(log), w) + limit
    {
      delivered, turns := 0, [];
      assert Execute(State(), []) == State();
      var readAt: int := *;
      var candidates := SelectDue(readAt, limit);
      now, ids := readAt, candidates;
      for i := 0 to |candidates|
        invariant |turns| == i && ids == candidates && HonestTurns(old(State()), turns, w, ids)
        invariant Explained(old(State()), Trace(turns, w, ids), State()) && w !in flights
        invariant delivered == AcceptedBy(log, w) - AcceptedBy(old(log), w)
        invariant ClaimedBy(log, w) <= ClaimedBy(old(log), w) + i
      {
        ghost var before := State();
        var accepted, alive;
        ghost var turn;
        accepted, alive, turn := DispatchOne(w, candidates[i]);
        BlockExplained(old(State()), Trace(turns, w, ids), before, StepsOf(turn, w, ids[i]), State());
        TurnAdded(old(State()), turns, turn, w, ids);
        turns := turns + [turn];
        delivered := delivered + accepted;
        if !alive { return; }
      }
    }
  }

  lemma {:induction false} TurnAdded(start: System, turns: seq<Turn>, turn: Turn, w: WorkerId, ids: seq<DeliveryId>)
    requires HonestTurns(start, turns, w, ids) && |turns| < |ids|
    requires HonestTurn(Execute(start, Trace(turns, w, ids)), turn, w, ids[|turns|])
    ensures HonestTurns(start, turns + [turn], w, ids)
    ensures Trace(turns + [turn], w, ids) == Trace(turns, w, ids) + StepsOf(turn, w, ids[|turns|])
  {
    var all := turns + [turn];
    assert all[..|turns|] == turns;
    forall i | 0 <= i < |all| ensures HonestTurn(Execute(start, Trace(all[..i], w, ids)), all[i], w, ids[i]) {
      if i < |turns| { assert all[..i] == turns[..i]; }
    }
  }
}
