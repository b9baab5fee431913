/**
 The account-email worker: many workers claim queued deliveries under a time lease,
 use `attempts` as a fencing number, send outside any transaction, and record an
 outcome only while they still own the attempt.

 A run is any list of steps: the transactions of any number of workers, crashes,
 sends that outlive their lease, codes that get spent, and rows that are erased.
 No clock discipline is needed: every step carries the time it read.
*/
module EmailDelivery {
  import opened Common

  const MAX_ATTEMPTS: nat := 5
  const CLAIM_SECONDS: nat := 300

  type DeliveryId = nat
  type WorkerId = nat

  // ---------------------------------------------------------------- send errors and backoff

  datatype SendError =
    | AuthenticationRefused(code: int)
    | RecipientsRefused(replies: seq<int>)
    | ResponseRefused(code: int)
    | TransportFailed

  function ReplyCode(e: SendError): Option<int> {
    match e
    case AuthenticationRefused(code) => Some(code)
    case RecipientsRefused(replies) => if replies == [] then None else Some(replies[0])
    case ResponseRefused(code) => Some(code)
    case TransportFailed => None
  }

  predicate IsPermanentFailure(e: SendError) {
    !e.AuthenticationRefused? && ReplyCode(e).Some? && 500 <= ReplyCode(e).value < 600
  }

  function PowerOfTwo(n: nat): (p: nat)
    ensures p >= 1
  {
    if n == 0 then 1 else 2 * PowerOfTwo(n - 1)
  }

  function Delay(attempt: int): int {
    var exponent: nat := if attempt - 1 > 0 then attempt - 1 else 0;
    var grown := 30 * PowerOfTwo(exponent);
    if grown < 3600 then grown else 3600
  }

  /** The backoff doubles from half a minute and never passes an hour. */
  lemma {:induction false} DelayDoublesUpToAnHour(attempt: nat)
    requires attempt >= 1
    ensures 30 <= Delay(attempt) <= Delay(attempt + 1) <= 3600
    ensures Delay(attempt + 1) == if 2 * Delay(attempt) < 3600 then 2 * Delay(attempt) else 3600
  {
    assert PowerOfTwo(attempt) == 2 * PowerOfTwo(attempt - 1);
  }

  // ---------------------------------------------------------------- rows

  datatype Status = Pending | Sending | Sent | Failed

  datatype LastError = NoError | StaleLink | SendFailure(error: SendError)

  datatype Row = Row(
    status: Status,
    attempts: nat,
    nextAttemptAt: int,
    sentAt: Option<int>,
    failedAt: Option<int>,
    lastError: LastError)

  datatype Token = Token(usedAt: Option<int>, expiresAt: int)

  predicate Usable(t: Token, now: int) {
    t.usedAt.None? && t.expiresAt > now
  }

  predicate Terminal(r: Row) {
    r.status == Sent || r.status == Failed
  }

  datatype ClaimResult = Skip | Stale(row: Row) | Won(row: Row)

  function ClaimRow(r: Row, usable: bool, now: int): ClaimResult {
    if Terminal(r) || r.nextAttemptAt > now then Skip
    else if !usable then Stale(r.(status := Failed, failedAt := Some(now), lastError := StaleLink))
    else Won(r.(status := Sending, attempts := r.attempts + 1, nextAttemptAt := now + CLAIM_SECONDS))
  }

  predicate Owns(r: Row, attempt: nat) {
    r.attempts == attempt && r.status == Sending
  }

  function FailRow(r: Row, e: SendError, now: int): Row {
    var terminal := r.attempts >= MAX_ATTEMPTS || IsPermanentFailure(e);
    r.(status := if terminal then Failed else Pending,
       nextAttemptAt := now + Delay(r.attempts),
       failedAt := if terminal then Some(now) else None,
       lastError := SendFailure(e))
  }

  function AcceptRow(r: Row, now: int): Row {
    r.(status := Sent, sentAt := Some(now), lastError := NoError)
  }

  // ---------------------------------------------------------------- the system and its steps

  datatype Flight = Flight(delivery: DeliveryId, attempt: nat)

  datatype Event =
    | Claimed(delivery: DeliveryId, worker: WorkerId, attempt: nat, at: int, takeover: bool)
    | RetryScheduled(delivery: DeliveryId, worker: WorkerId, attempt: nat, at: int, error: SendError)
    | GaveUp(delivery: DeliveryId, worker: WorkerId, attempt: nat, at: int, error: SendError)
    | Accepted(delivery: DeliveryId, worker: WorkerId, attempt: nat, at: int)
    | SkippedStale(delivery: DeliveryId, at: int)

  datatype System = System(
    rows: map<DeliveryId, Row>,
    tokens: map<DeliveryId, Token>,
    flights: map<WorkerId, Flight>,
    log: seq<Event>)

  const EMPTY := System(map[], map[], map[], [])

  /** `Enqueue` is a fresh token with its one delivery; `Spend` uses or revokes a token;
      `Drop` erases a delivery row; `Crash` is a worker that dies with a message in flight. */
  datatype Step =
    | Enqueue(delivery: DeliveryId, expiresAt: int, now: int)
    | Spend(delivery: DeliveryId, now: int)
    | Drop(delivery: DeliveryId)
    | Claim(worker: WorkerId, delivery: DeliveryId, now: int)
    | Fail(worker: WorkerId, error: SendError, now: int)
    | Succeed(worker: WorkerId, now: int)
    | Crash(worker: WorkerId)

  function NextClaim(s: System, w: WorkerId, d: DeliveryId, now: int): System {
    if w in s.flights || d !in s.rows || d !in s.tokens then s else
    match ClaimRow(s.rows[d], Usable(s.tokens[d], now), now)
    case Skip => s
    case Stale(row) => s.(rows := s.rows[d := row], log := s.log + [SkippedStale(d, now)])
    case Won(row) =>
      s.(rows := s.rows[d := row],
         flights := s.flights[w := Flight(d, row.attempts)],
         log := s.log + [Claimed(d, w, row.attempts, now, s.rows[d].status == Sending)])
  }

  function NextFail(s: System, w: WorkerId, e: SendError, now: int): System {
    if w !in s.flights then s else
    var Flight(d, attempt) := s.flights[w];
    var landed := s.(flights := s.flights - {w});
    if d !in s.rows || !Owns(s.rows[d], attempt) then landed else
    var row := FailRow(s.rows[d], e, now);
    var event := if row.status == Failed then GaveUp(d, w, attempt, now, e)
                 else RetryScheduled(d, w, attempt, now, e);
    landed.(rows := s.rows[d := row], log := s.log + [event])
  }

  function NextSucceed(s: System, w: WorkerId, now: int): System {
    if w !in s.flights then s else
    var Flight(d, attempt) := s.flights[w];
    var landed := s.(flights := s.flights - {w});
    if d !in s.rows || !Owns(s.rows[d], attempt) then landed else
    landed.(rows := s.rows[d := AcceptRow(s.rows[d], now)],
            log := s.log + [Accepted(d, w, attempt, now)])
  }

  function Next(s: System, step: Step): System {
    match step
    case Enqueue(d, expiresAt, now) =>
      if d in s.tokens then s
      else s.(tokens := s.tokens[d := Token(None, expiresAt)],
              rows := s.rows[d := Row(Pending, 0, now, None, None, NoError)])
    case Spend(d, now) =>
      if d in s.tokens && s.tokens[d].usedAt.None?
      then s.(tokens := s.tokens[d := s.tokens[d].(usedAt := Some(now))]) else s
    case Drop(d) => s.(rows := s.rows - {d})
    case Claim(w, d, now) => NextClaim(s, w, d, now)
    case Fail(w, e, now) => NextFail(s, w, e, now)
    case Succeed(w, now) => NextSucceed(s, w, now)
    case Crash(w) => s.(flights := s.flights - {w})
  }

  function Execute(s: System, steps: seq<Step>): System {
    if steps == [] then s else Next(Execute(s, steps[..|steps| - 1]), steps[|steps| - 1])
  }

  lemma {:induction false} ExecuteSplits(s: System, first: seq<Step>, second: seq<Step>)
    ensures Execute(s, first + second) == Execute(Execute(s, first), second)
  {
    if second == [] {
      assert first + second == first;
    } else {
      var k := |second| - 1;
      assert (first + second)[..|first + second| - 1] == first + second[..k];
      ExecuteSplits(s, first, second[..k]);
    }
  }

  // ---------------------------------------------------------------- the reference automaton
  //
  // What the history of one delivery may look like, told without rows, leases or workers'
  // local state. Every run is proved to produce only histories this automaton accepts.

  /** The message itself was refused, by a reply in the five hundreds. What the server says about the
      sender's own login, or a lost connection, is about the server. */
  predicate RefusedForGood(e: SendError) {
    match e
    case AuthenticationRefused(_) => false
    case RecipientsRefused(replies) => |replies| > 0 && 500 <= replies[0] <= 599
    case ResponseRefused(code) => 500 <= code <= 599
    case TransportFailed => false
  }

  datatype Phase =
    | Fresh
    | InFlight(attempt: nat, worker: WorkerId, since: int)
    | Waiting(attempt: nat, since: int)
    | Delivered
    | Abandoned

  function Attempts(p: Phase): nat {
    match p
    case InFlight(attempt, _, _) => attempt
    case Waiting(attempt, _) => attempt
    case _ => 0
  }

  /** The earliest time the delivery may be picked up again. */
  predicate Due(p: Phase, at: int) {
    match p
    case Fresh => true
    case InFlight(_, _, since) => at >= since + CLAIM_SECONDS
    case Waiting(attempt, since) => at >= since + Delay(attempt)
    case Delivered => false
    case Abandoned => false
  }

  predicate Accepts(p: Phase, e: Event) {
    match e
    case Claimed(_, _, attempt, at, takeover) =>
      Due(p, at) && attempt == Attempts(p) + 1 && takeover == p.InFlight?
    case SkippedStale(_, at) => Due(p, at)
    case RetryScheduled(_, worker, attempt, _, error) =>
      p.InFlight? && p.attempt == attempt && p.worker == worker && attempt < 5 && !RefusedForGood(error)
    case GaveUp(_, worker, attempt, _, error) =>
      p.InFlight? && p.attempt == attempt && p.worker == worker && (attempt >= 5 || RefusedForGood(error))
    case Accepted(_, worker, attempt, _) =>
      p.InFlight? && p.attempt == attempt && p.worker == worker
  }

  function Advance(p: Phase, e: Event): Phase {
    match e
    case Claimed(_, worker, attempt, at, _) => InFlight(attempt, worker, at)
    case RetryScheduled(_, _, attempt, at, _) => Waiting(attempt, at)
    case GaveUp(_, _, _, _, _) => Abandoned
    case SkippedStale(_, _) => Abandoned
    case Accepted(_, _, _, _) => Delivered
  }

  function PhaseOf(log: seq<Event>, d: DeliveryId): Phase {
    if log == [] then Fresh
    else
      var before := PhaseOf(log[..|log| - 1], d);
      if log[|log| - 1].delivery == d then Advance(before, log[|log| - 1]) else before
  }

  predicate Legal(log: seq<Event>, d: DeliveryId) {
    log == [] ||
    (Legal(log[..|log| - 1], d)
     && (log[|log| - 1].delivery == d ==> Accepts(PhaseOf(log[..|log| - 1], d), log[|log| - 1])))
  }

  predicate Matches(r: Row, p: Phase) {
    match p
    case Fresh => r.status == Pending && r.attempts == 0
    case InFlight(attempt, _, since) =>
      r.status == Sending && r.attempts == attempt && attempt >= 1
      && r.nextAttemptAt == since + CLAIM_SECONDS
    case Waiting(attempt, since) =>
      r.status == Pending && r.attempts == attempt && 1 <= attempt < MAX_ATTEMPTS
      && r.nextAttemptAt == since + Delay(attempt)
    case Delivered => r.status == Sent
    case Abandoned => r.status == Failed
  }

  /** How many claims the history of `d` holds: the attempt number of the last claim. */
  function Claims(log: seq<Event>, d: DeliveryId): nat {
    if log == [] then 0
    else Claims(log[..|log| - 1], d)
         + (if log[|log| - 1].delivery == d && log[|log| - 1].Claimed? then 1 else 0)
  }

  function Takeovers(log: seq<Event>, d: DeliveryId): nat {
    if log == [] then 0
    else Takeovers(log[..|log| - 1], d)
         + (if log[|log| - 1].delivery == d && log[|log| - 1].Claimed? && log[|log| - 1].takeover
            then 1 else 0)
  }

  /** Failed sends that were recorded, whether they were retried or given up. */
  function RecordedFailures(log: seq<Event>, d: DeliveryId): nat {
    if log == [] then 0
    else RecordedFailures(log[..|log| - 1], d)
         + (if log[|log| - 1].delivery == d && (log[|log| - 1].RetryScheduled? || log[|log| - 1].GaveUp?)
            then 1 else 0)
  }

  // ---------------------------------------------------------------- the invariant of every run

  ghost predicate DeliveryOk(s: System, d: DeliveryId) {
    && Legal(s.log, d)
    && (d in s.rows ==> d in s.tokens && Matches(s.rows[d], PhaseOf(s.log, d))
                        && s.rows[d].attempts == Claims(s.log, d))
    && (d !in s.tokens ==> PhaseOf(s.log, d) == Fresh && Claims(s.log, d) == 0)
  }

  /** A message in flight carries a fencing number that was handed out, and the number that
      is current belongs to the worker that made the last claim. */
  ghost predicate FlightOk(s: System, w: WorkerId) {
    w in s.flights ==>
      var p := PhaseOf(s.log, s.flights[w].delivery);
      && 1 <= s.flights[w].attempt <= Claims(s.log, s.flights[w].delivery)
      && (p.InFlight? && p.attempt == s.flights[w].attempt ==> p.worker == w)
  }

  ghost predicate Inv(s: System) {
    (forall d: DeliveryId :: DeliveryOk(s, d)) && (forall w: WorkerId :: FlightOk(s, w))
  }

  lemma Appended(log: seq<Event>, e: Event, d: DeliveryId)
    ensures PhaseOf(log + [e], d) == if e.delivery == d then Advance(PhaseOf(log, d), e) else PhaseOf(log, d)
    ensures Legal(log + [e], d) == (Legal(log, d) && (e.delivery == d ==> Accepts(PhaseOf(log, d), e)))
    ensures Claims(log + [e], d) == Claims(log, d) + (if e.delivery == d && e.Claimed? then 1 else 0)
    ensures Takeovers(log + [e], d) ==
            Takeovers(log, d) + (if e.delivery == d && e.Claimed? && e.takeover then 1 else 0)
    ensures RecordedFailures(log + [e], d) ==
            RecordedFailures(log, d) + (if e.delivery == d && (e.RetryScheduled? || e.GaveUp?) then 1 else 0)
  {
    assert (log + [e])[..|log + [e]| - 1] == log;
  }

  /** A logged change of one row that the automaton accepts keeps every delivery in order. */
  lemma LoggedChangeKeepsDelivery(s: System, t: System, e: Event, row: Row, x: DeliveryId)
    requires DeliveryOk(s, x) && DeliveryOk(s, e.delivery) && e.delivery in s.rows
    requires t.log == s.log + [e] && t.tokens == s.tokens && t.rows == s.rows[e.delivery := row]
    requires Accepts(PhaseOf(s.log, e.delivery), e) && Matches(row, Advance(PhaseOf(s.log, e.delivery), e))
    requires row.attempts == s.rows[e.delivery].attempts + (if e.Claimed? then 1 else 0)
    ensures DeliveryOk(t, x)
  {
    Appended(s.log, e, x);
  }

  lemma ClaimKeepsDelivery(s: System, w: WorkerId, d: DeliveryId, now: int, x: DeliveryId)
    requires Inv(s)
    ensures DeliveryOk(NextClaim(s, w, d, now), x)
  {
    assert DeliveryOk(s, x) && DeliveryOk(s, d);
    var t := NextClaim(s, w, d, now);
    if t != s {
      LoggedChangeKeepsDelivery(s, t, t.log[|s.log|], t.rows[d], x);
    }
  }

  lemma FailKeepsDelivery(s: System, w: WorkerId, e: SendError, now: int, x: DeliveryId)
    requires Inv(s)
    ensures DeliveryOk(NextFail(s, w, e, now), x)
  {
    assert DeliveryOk(s, x);
    if w in s.flights {
      var t := NextFail(s, w, e, now);
      var d := s.flights[w].delivery;
      assert FlightOk(s, w) && DeliveryOk(s, d);
      if t.log != s.log {
        LoggedChangeKeepsDelivery(s, t, t.log[|s.log|], t.rows[d], x);
      }
    }
  }

  lemma SucceedKeepsDelivery(s: System, w: WorkerId, now: int, x: DeliveryId)
    requires Inv(s)
    ensures DeliveryOk(NextSucceed(s, w, now), x)
  {
    assert DeliveryOk(s, x);
    if w in s.flights {
      var t := NextSucceed(s, w, now);
      var d := s.flights[w].delivery;
      assert FlightOk(s, w) && DeliveryOk(s, d);
      if t.log != s.log {
        LoggedChangeKeepsDelivery(s, t, t.log[|s.log|], t.rows[d], x);
      }
    }
  }

  lemma NextKeepsDelivery(s: System, step: Step, x: DeliveryId)
    requires Inv(s)
    ensures DeliveryOk(Next(s, step), x)
  {
    assert DeliveryOk(s, x);
    match step
    case Claim(w, d, now) => ClaimKeepsDelivery(s, w, d, now, x);
    case Fail(w, e, now) => FailKeepsDelivery(s, w, e, now, x);
    case Succeed(w, now) => SucceedKeepsDelivery(s, w, now, x);
    case Enqueue(_, _, _) =>
    case Spend(_, _) =>
    case Drop(_) =>
    case Crash(_) =>
  }

  lemma NextKeepsFlight(s: System, step: Step, x: WorkerId)
    requires Inv(s)
    ensures FlightOk(Next(s, step), x)
  {
    assert FlightOk(s, x);
    var t := Next(s, step);
    if x in t.flights {
      var d := t.flights[x].delivery;
      if step.Claim? { assert DeliveryOk(s, step.delivery); }
      if |t.log| > |s.log| { Appended(s.log, t.log[|s.log|], d); }
    }
  }

  /** Every reachable state satisfies the invariant, whatever the interleaving. */
  lemma {:induction false} RunsKeepInv(s: System, steps: seq<Step>)
    requires Inv(s)
    ensures Inv(Execute(s, steps))
  {
    if steps != [] {
      var before := Execute(s, steps[..|steps| - 1]);
      var last := steps[|steps| - 1];
      RunsKeepInv(s, steps[..|steps| - 1]);
      forall d: DeliveryId ensures DeliveryOk(Next(before, last), d) { NextKeepsDelivery(before, last, d); }
      forall w: WorkerId ensures FlightOk(Next(before, last), w) { NextKeepsFlight(before, last, w); }
    }
  }
}
