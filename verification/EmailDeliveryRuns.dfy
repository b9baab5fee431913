/** What every interleaving of email workers guarantees, read off the legal histories. */
module EmailDeliveryRuns {
  import opened Common
  import opened EmailDelivery

  lemma EmptyInv()
    ensures Inv(EMPTY)
  {
  }

  /** Main result: rows, leases and fencing numbers refine the reference automaton. Whatever the
      workers, crashes and slow sends, each delivery's history is one the automaton accepts, and
      its row is exactly what that history says. */
  lemma {:induction false} RunsRefineTheAutomaton(steps: seq<Step>, d: DeliveryId)
    ensures var s := Execute(EMPTY, steps);
            Legal(s.log, d)
            && (d in s.rows ==> Matches(s.rows[d], PhaseOf(s.log, d)) && s.rows[d].attempts == Claims(s.log, d))
  {
    EmptyInv();
    RunsKeepInv(EMPTY, steps);
    assert DeliveryOk(Execute(EMPTY, steps), d);
  }

  // ---------------------------------------------------------------- facts about legal histories

  lemma {:induction false} LegalPrefix(log: seq<Event>, d: DeliveryId, k: nat)
    requires Legal(log, d) && k <= |log|
    ensures Legal(log[..k], d)
    ensures Claims(log[..k], d) <= Claims(log, d)
  {
    if k == |log| {
      assert log[..k] == log;
    } else {
      LegalPrefix(log[..|log| - 1], d, k);
      assert log[..|log| - 1][..k] == log[..k];
    }
  }

  lemma {:induction false} PhaseCounts(log: seq<Event>, d: DeliveryId)
    requires Legal(log, d)
    ensures var p := PhaseOf(log, d);
            (p.Fresh? ==> Claims(log, d) == 0) && (p.InFlight? || p.Waiting? ==> Attempts(p) == Claims(log, d))
    ensures PhaseOf(log, d).Waiting? ==> Attempts(PhaseOf(log, d)) < MAX_ATTEMPTS
  {
    if log != [] { PhaseCounts(log[..|log| - 1], d); }
  }

  ghost predicate IsClaim(log: seq<Event>, d: DeliveryId, i: int) {
    0 <= i < |log| && log[i].Claimed? && log[i].delivery == d
  }

  lemma {:induction false} ClaimIsNumbered(log: seq<Event>, d: DeliveryId, i: nat)
    requires Legal(log, d) && IsClaim(log, d, i)
    ensures log[i].attempt == Claims(log[..i], d) + 1 == Claims(log[..i + 1], d) <= Claims(log, d)
  {
    LegalPrefix(log, d, i + 1);
    assert log[..i + 1][..i] == log[..i];
    PhaseCounts(log[..i], d);
  }

  /** Fencing numbers never repeat: a later claim always carries a larger one. */
  lemma {:induction false} ClaimsIncrease(log: seq<Event>, d: DeliveryId, i: nat, j: nat)
    requires Legal(log, d) && i < j && IsClaim(log, d, i) && IsClaim(log, d, j)
    ensures log[i].attempt < log[j].attempt
  {
    ClaimIsNumbered(log, d, i);
    ClaimIsNumbered(log, d, j);
    LegalPrefix(log, d, j);
    LegalPrefix(log[..j], d, i + 1);
    assert log[..j][..i + 1] == log[..i + 1];
  }

  lemma {:induction false} EveryNumberIsClaimed(log: seq<Event>, d: DeliveryId, n: nat) returns (i: nat)
    requires Legal(log, d) && 1 <= n <= Claims(log, d)
    ensures IsClaim(log, d, i) && log[i].attempt == n
  {
    var k := |log| - 1;
    if Claims(log[..k], d) >= n {
      i := EveryNumberIsClaimed(log[..k], d, n);
    } else {
      i := k;
      ClaimIsNumbered(log, d, k);
    }
  }

  /** Each attempt number of a delivery is claimed once, by one worker: for every number up to the
      stored `attempts` there is a claim, and any two claims of one number are the same event. */
  lemma {:induction false} EachAttemptHasExactlyOneClaim(steps: seq<Step>, d: DeliveryId, n: nat)
    requires d in Execute(EMPTY, steps).rows
    ensures var s := Execute(EMPTY, steps);
            1 <= n <= s.rows[d].attempts <==> exists i :: IsClaim(s.log, d, i) && s.log[i].attempt == n
    ensures var log := Execute(EMPTY, steps).log;
            forall i, j :: IsClaim(log, d, i) && IsClaim(log, d, j) && log[i].attempt == log[j].attempt ==> i == j
  {
    RunsRefineTheAutomaton(steps, d);
    var log := Execute(EMPTY, steps).log;
    if 1 <= n <= Claims(log, d) {
      var i := EveryNumberIsClaimed(log, d, n);
    }
    forall i | IsClaim(log, d, i) ensures 1 <= log[i].attempt <= Claims(log, d) {
      ClaimIsNumbered(log, d, i);
    }
    forall i, j | IsClaim(log, d, i) && IsClaim(log, d, j) && log[i].attempt == log[j].attempt ensures i == j {
      if i < j { ClaimsIncrease(log, d, i, j); }
      if j < i { ClaimsIncrease(log, d, j, i); }
    }
  }

  // ---------------------------------------------------------------- fencing

  /** At most one worker holds the current fencing number of a delivery that is being sent. */
  lemma {:induction false} CurrentHolderIsUnique(steps: seq<Step>, d: DeliveryId, w1: WorkerId, w2: WorkerId)
    requires var s := Execute(EMPTY, steps);
             d in s.rows && s.rows[d].status == Sending && w1 in s.flights && w2 in s.flights
             && s.flights[w1] == Flight(d, s.rows[d].attempts) && s.flights[w2] == Flight(d, s.rows[d].attempts)
    ensures w1 == w2
  {
    EmptyInv();
    RunsKeepInv(EMPTY, steps);
    var s := Execute(EMPTY, steps);
    assert DeliveryOk(s, d) && FlightOk(s, w1) && FlightOk(s, w2);
  }

  /** A row that is being sent changes only when its lease has run out and someone claims it, or
      when the holder of its current attempt records an outcome: any slower worker is ignored. */
  lemma {:induction false} OnlyTheHolderDecides(steps: seq<Step>, step: Step, d: DeliveryId)
    requires var s := Execute(EMPTY, steps);
             d in s.rows && s.rows[d].status == Sending
             && d in Next(s, step).rows && Next(s, step).rows[d] != s.rows[d]
    ensures var s := Execute(EMPTY, steps);
            || (step.Claim? && step.delivery == d && s.rows[d].nextAttemptAt <= step.now)
            || ((step.Fail? || step.Succeed?) && step.worker in s.flights
                && s.flights[step.worker] == Flight(d, s.rows[d].attempts)
                && PhaseOf(s.log, d) == InFlight(s.rows[d].attempts, step.worker, s.rows[d].nextAttemptAt - CLAIM_SECONDS))
  {
    EmptyInv();
    RunsKeepInv(EMPTY, steps);
    var s := Execute(EMPTY, steps);
    assert DeliveryOk(s, d);
    if step.Fail? || step.Succeed? { assert FlightOk(s, step.worker); }
    assert d in s.tokens;
  }

  /** SENT and FAILED are never left, in any continuation of any run. */
  lemma {:induction false} TerminalRowsStay(s: System, steps: seq<Step>, d: DeliveryId)
    requires Inv(s) && d in s.rows && Terminal(s.rows[d])
    ensures d in Execute(s, steps).tokens
    ensures d in Execute(s, steps).rows ==> Execute(s, steps).rows[d] == s.rows[d]
  {
    if steps == [] {
      assert DeliveryOk(s, d);
    } else {
      TerminalRowsStay(s, steps[..|steps| - 1], d);
    }
  }

  /** A delivery marked SENT has one acceptance in its history, by the worker that claimed the
      attempt stored in the row, and nothing happened to the delivery afterwards. */
  lemma {:induction false} SentHasAReceipt(log: seq<Event>, d: DeliveryId) returns (i: nat)
    requires Legal(log, d) && PhaseOf(log, d) == Delivered
    ensures i < |log| && log[i].Accepted? && log[i].delivery == d && log[i].attempt == Claims(log, d)
    ensures PhaseOf(log[..i], d).InFlight? && PhaseOf(log[..i], d).worker == log[i].worker
    ensures forall j :: i < j < |log| ==> log[j].delivery != d
  {
    var k := |log| - 1;
    if log[k].delivery == d {
      i := k;
      PhaseCounts(log[..k], d);
    } else {
      i := SentHasAReceipt(log[..k], d);
      assert log[..k][..i] == log[..i];
    }
  }

  // ---------------------------------------------------------------- how often and how soon

  lemma {:induction false} LegalHistoriesAreBounded(log: seq<Event>, d: DeliveryId)
    requires Legal(log, d)
    ensures Claims(log, d) <= MAX_ATTEMPTS + Takeovers(log, d)
    ensures RecordedFailures(log, d) <= Claims(log, d)
    ensures PhaseOf(log, d).InFlight? ==> RecordedFailures(log, d) + 1 <= Claims(log, d)
    ensures RecordedFailures(log, d) <= if PhaseOf(log, d).Abandoned? then MAX_ATTEMPTS else MAX_ATTEMPTS - 1
    ensures PhaseOf(log, d).Fresh? ==> RecordedFailures(log, d) == 0
  {
    if log != [] {
      LegalHistoriesAreBounded(log[..|log| - 1], d);
      PhaseCounts(log[..|log| - 1], d);
    }
  }

  /** Retry bound: `attempts` is at most five plus the number of lease takeovers, at most five
      failures are ever recorded, and with no takeover a delivery that was claimed five times is
      either still with its last worker or terminal. */
  lemma {:induction false} RetriesAreBounded(steps: seq<Step>, d: DeliveryId)
    requires d in Execute(EMPTY, steps).rows
    ensures var s := Execute(EMPTY, steps);
            s.rows[d].attempts <= MAX_ATTEMPTS + Takeovers(s.log, d) && RecordedFailures(s.log, d) <= MAX_ATTEMPTS
    ensures var s := Execute(EMPTY, steps);
            Takeovers(s.log, d) == 0 ==>
              s.rows[d].attempts <= MAX_ATTEMPTS
              && (s.rows[d].attempts == MAX_ATTEMPTS ==> s.rows[d].status == Sending || Terminal(s.rows[d]))
    ensures var s := Execute(EMPTY, steps); s.rows[d].status == Pending ==> s.rows[d].attempts < MAX_ATTEMPTS
  {
    RunsRefineTheAutomaton(steps, d);
    LegalHistoriesAreBounded(Execute(EMPTY, steps).log, d);
  }

  lemma {:induction false} PhaseAcrossSilence(log: seq<Event>, d: DeliveryId, k: nat, j: nat)
    requires k < j <= |log| && log[k].delivery == d
    requires forall x :: k < x < j ==> log[x].delivery != d
    ensures PhaseOf(log[..j], d) == Advance(PhaseOf(log[..k], d), log[k])
  {
    assert log[..j][..j - 1] == log[..j - 1];
    if j > k + 1 { PhaseAcrossSilence(log, d, k, j - 1); }
  }

  /** Two consecutive entries of a delivery's history, the later one a claim: a claim is followed
      by a takeover no sooner than the lease, a recorded failure by a retry no sooner than its
      backoff, and an acceptance or a final failure by nothing. */
  lemma {:induction false} ClaimsAreSpaced(steps: seq<Step>, d: DeliveryId, k: nat, j: nat)
    requires var log := Execute(EMPTY, steps).log;
             k < j < |log| && log[k].delivery == d && IsClaim(log, d, j)
             && forall x :: k < x < j ==> log[x].delivery != d
    ensures var log := Execute(EMPTY, steps).log;
            match log[k]
            case Claimed(_, _, n, at, _) =>
              log[j].at >= at + CLAIM_SECONDS && log[j].takeover && log[j].attempt == n + 1
            case RetryScheduled(_, _, n, at, _) =>
              log[j].at >= at + Delay(n) && !log[j].takeover && log[j].attempt == n + 1
            case _ => false
  {
    var log := Execute(EMPTY, steps).log;
    RunsRefineTheAutomaton(steps, d);
    LegalPrefix(log, d, j + 1);
    assert log[..j + 1][..j] == log[..j];
    PhaseAcrossSilence(log, d, k, j);
  }

  // ---------------------------------------------------------------- dead codes and lost workers

  lemma {:induction false} TokensKeepTheirExpiry(s: System, steps: seq<Step>, d: DeliveryId)
    requires d in s.tokens
    ensures d in Execute(s, steps).tokens
    ensures Execute(s, steps).tokens[d].expiresAt == s.tokens[d].expiresAt
    ensures s.tokens[d].usedAt.Some? ==> Execute(s, steps).tokens[d].usedAt == s.tokens[d].usedAt
  {
    if steps != [] { TokensKeepTheirExpiry(s, steps[..|steps| - 1], d); }
  }

  /** A spent code is never sent again: no continuation of the run claims its delivery. */
  lemma {:induction false} SpentCodesAreNeverSent(s: System, steps: seq<Step>, d: DeliveryId)
    requires d in s.tokens && s.tokens[d].usedAt.Some?
    ensures Claims(Execute(s, steps).log, d) == Claims(s.log, d)
  {
    if steps != [] {
      var before := Execute(s, steps[..|steps| - 1]);
      SpentCodesAreNeverSent(s, steps[..|steps| - 1], d);
      TokensKeepTheirExpiry(s, steps[..|steps| - 1], d);
      SpentCodeIsNotClaimed(before, steps[|steps| - 1], d);
    }
  }

  lemma {:induction false} SpentCodeIsNotClaimed(s: System, step: Step, d: DeliveryId)
    requires d in s.tokens && s.tokens[d].usedAt.Some?
    ensures Claims(Next(s, step).log, d) == Claims(s.log, d)
  {
    var after := Next(s, step);
    match step
    case Enqueue(_, _, _) =>
    case Spend(_, _) =>
    case Drop(_) =>
    case Crash(_) =>
    case Claim(_, _, _) => if after.log != s.log { Appended(s.log, after.log[|s.log|], d); }
    case Fail(_, _, _) => if after.log != s.log { Appended(s.log, after.log[|s.log|], d); }
    case Succeed(_, _) => if after.log != s.log { Appended(s.log, after.log[|s.log|], d); }
  }

  /** No claim is made at or after the moment its code expires. */
  lemma {:induction false} ExpiredCodesAreNeverSent(steps: seq<Step>, d: DeliveryId, i: nat)
    requires IsClaim(Execute(EMPTY, steps).log, d, i)
    ensures d in Execute(EMPTY, steps).tokens
    ensures Execute(EMPTY, steps).log[i].at < Execute(EMPTY, steps).tokens[d].expiresAt
  {
    var k := |steps| - 1;
    if steps != [] {
      var before := Execute(EMPTY, steps[..k]);
      if i < |before.log| {
        assert Next(before, steps[k]).log[i] == before.log[i];
        ExpiredCodesAreNeverSent(steps[..k], d, i);
        assert Execute(EMPTY, steps) == Next(before, steps[k]);
      }
    }
  }

  /** A crash strands nothing: an unfinished delivery is due again within an hour of its last
      event, and from then on any idle worker's claim either takes it over under the next fencing
      number or closes it because its code is dead. */
  lemma {:induction false} UnfinishedDeliveriesAreRecoverable(
      steps: seq<Step>, d: DeliveryId, w: WorkerId, now: int)
    requires var s := Execute(EMPTY, steps);
             d in s.rows && !Terminal(s.rows[d]) && w !in s.flights && now >= s.rows[d].nextAttemptAt
    ensures var s := Execute(EMPTY, steps);
            match PhaseOf(s.log, d)
            case InFlight(_, _, since) => s.rows[d].nextAttemptAt <= since + 3600
            case Waiting(_, since) => s.rows[d].nextAttemptAt <= since + 3600
            case _ => PhaseOf(s.log, d) == Fresh
    ensures var s := Execute(EMPTY, steps);
            var t := Next(s, Claim(w, d, now));
            d in s.tokens && d in t.rows
            && if Usable(s.tokens[d], now)
               then t.rows[d].status == Sending && t.rows[d].attempts == s.rows[d].attempts + 1
                    && t.rows[d].nextAttemptAt == now + CLAIM_SECONDS
                    && w in t.flights && t.flights[w] == Flight(d, t.rows[d].attempts)
               else t.rows[d].status == Failed && t.rows[d].attempts == s.rows[d].attempts
                    && t.rows[d].lastError == StaleLink && w !in t.flights
  {
    EmptyInv();
    RunsKeepInv(EMPTY, steps);
    assert DeliveryOk(Execute(EMPTY, steps), d);
  }

  // ---------------------------------------------------------------- what each transaction leaves behind

  /** The first five backoffs. */
  lemma {:induction false} Backoffs()
    ensures Delay(1) == 30 && Delay(2) == 60 && Delay(3) == 120 && Delay(4) == 240 && Delay(5) == 480
  {
    assert PowerOfTwo(1) == 2 && PowerOfTwo(2) == 4 && PowerOfTwo(3) == 8 && PowerOfTwo(4) == 16;
  }

  /** A failure recorded by the holder is final exactly at the fifth attempt or later, or when the recipient
      or the message was refused with a reply in the five hundreds; any other is retried after its backoff. */
  lemma {:induction false} FailureIsFinalIff(steps: seq<Step>, w: WorkerId, d: DeliveryId, e: SendError, now: int)
    requires var s := Execute(EMPTY, steps);
             d in s.rows && s.rows[d].status == Sending && w in s.flights && s.flights[w] == Flight(d, s.rows[d].attempts)
    ensures var s := Execute(EMPTY, steps); var t := Next(s, Fail(w, e, now)); var n := s.rows[d].attempts;
            && d in t.rows && t.rows == s.rows[d := t.rows[d]] && w !in t.flights
            && t.rows[d].attempts == n && t.rows[d].lastError == SendFailure(e) && t.rows[d].sentAt == s.rows[d].sentAt
            && (t.rows[d].status == Failed <==>
                  || n >= 5
                  || (e.RecipientsRefused? && |e.replies| > 0 && 500 <= e.replies[0] < 600)
                  || (e.ResponseRefused? && 500 <= e.code < 600))
            && (t.rows[d].status != Failed ==>
                  t.rows[d].status == Pending && t.rows[d].failedAt == None && 1 <= n <= 4
                  && t.rows[d].nextAttemptAt == now + [30, 60, 120, 240][n - 1]
                  && t.log == s.log + [RetryScheduled(d, w, n, now, e)])
            && (t.rows[d].status == Failed ==> t.rows[d].failedAt == Some(now) && t.log == s.log + [GaveUp(d, w, n, now, e)])
  {
    EmptyInv();
    RunsKeepInv(EMPTY, steps);
    assert FlightOk(Execute(EMPTY, steps), w) && DeliveryOk(Execute(EMPTY, steps), d);
    Backoffs();
  }

  /** What a claim does to any stored delivery: nothing to one that is finished or not due, an end to one
      whose code was used or has expired, and otherwise the next attempt with a lease of five minutes. */
  lemma {:induction false} ClaimOutcome(steps: seq<Step>, w: WorkerId, d: DeliveryId, now: int)
    requires var s := Execute(EMPTY, steps); d in s.rows && w !in s.flights
    ensures var s := Execute(EMPTY, steps); var t := Next(s, Claim(w, d, now)); var r := s.rows[d];
            && d in s.tokens && t.tokens == s.tokens
            && if r.status == Sent || r.status == Failed || now < r.nextAttemptAt then t == s
               else if s.tokens[d].usedAt.Some? || s.tokens[d].expiresAt <= now then
                 && t.rows == s.rows[d := Row(Failed, r.attempts, r.nextAttemptAt, r.sentAt, Some(now), StaleLink)]
                 && t.flights == s.flights && t.log == s.log + [SkippedStale(d, now)]
               else
                 && t.rows == s.rows[d := Row(Sending, r.attempts + 1, now + 300, r.sentAt, r.failedAt, r.lastError)]
                 && t.flights == s.flights[w := Flight(d, r.attempts + 1)]
                 && t.log == s.log + [Claimed(d, w, r.attempts + 1, now, r.status == Sending)]
  {
    EmptyInv();
    RunsKeepInv(EMPTY, steps);
    assert DeliveryOk(Execute(EMPTY, steps), d);
  }

  /** A send that was accepted is recorded by the holder alone; anyone else's outcome leaves all rows alone. */
  lemma {:induction false} OutcomeOfASend(steps: seq<Step>, w: WorkerId, e: SendError, now: int)
    requires w in Execute(EMPTY, steps).flights
    ensures var s := Execute(EMPTY, steps); var t := Next(s, Succeed(w, now)); var u := Next(s, Fail(w, e, now));
            var Flight(d, n) := s.flights[w];
            if d in s.rows && s.rows[d].status == Sending && s.rows[d].attempts == n
            then t.rows == s.rows[d := Row(Sent, n, s.rows[d].nextAttemptAt, Some(now), s.rows[d].failedAt, NoError)]
                 && t.log == s.log + [Accepted(d, w, n, now)]
            else t.rows == s.rows && t.log == s.log && u.rows == s.rows && u.log == s.log
  {
  }

  /** A new code is queued at once, unclaimed, and lives as long as its token. */
  lemma {:induction false} EnqueuedDelivery(steps: seq<Step>, d: DeliveryId, expiresAt: int, now: int)
    requires d !in Execute(EMPTY, steps).tokens
    ensures var s := Execute(EMPTY, steps + [Enqueue(d, expiresAt, now)]);
            && d in s.rows && s.rows[d] == Row(Pending, 0, now, None, None, NoError)
            && d in s.tokens && s.tokens[d] == Token(None, expiresAt)
  {
    assert (steps + [Enqueue(d, expiresAt, now)])[..|steps|] == steps;
  }
}
