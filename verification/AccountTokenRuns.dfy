/** What every history of an account's tokens and deletion requests keeps and guarantees. */
module AccountTokenRuns {
  import opened Common
  import opened AccountTokens
  import EmailDelivery

  // ---------------------------------------------------------------- tokens only get spent

  /** The same tokens, some of them marked used. */
  ghost predicate OnlySpends(before: Tokens, after: Tokens) {
    && after.Keys == before.Keys
    && forall id :: id in before ==>
         after[id] == before[id].(usedAt := after[id].usedAt) && (before[id].usedAt.Some? ==> after[id] == before[id])
  }

  lemma {:induction false} SpendingKeepsTokens(before: Tokens, after: Tokens, log: seq<Event>, next: TokenId)
    requires TokensInv(before, log, next) && OnlySpends(before, after)
    ensures TokensInv(after, log, next)
  {
    forall id ensures TokenOk(after, log, next, id) { assert TokenOk(before, log, next, id); }
    forall i, j, kind | Unused(after, i, kind) && Unused(after, j, kind) ensures i == j {
      assert Unused(before, i, kind) && Unused(before, j, kind);
    }
  }

  lemma {:induction false} SpendingKeepsRequests(before: Tokens, after: Tokens, requests: seq<DeletionRequest>)
    requires RequestsInv(before, requests) && OnlySpends(before, after)
    ensures RequestsInv(after, requests)
  {
    forall id | Unused(after, id, AccountDeletion) ensures PendingFor(requests, id) {
      assert Unused(before, id, AccountDeletion);
    }
  }

  lemma SpendAllOnlySpends(tokens: Tokens, now: int)
    ensures OnlySpends(tokens, SpendAll(tokens, now))
    ensures forall id :: id in tokens ==> SpendAll(tokens, now)[id].usedAt.Some?
  {
  }

  // ---------------------------------------------------------------- issuing

  lemma {:induction false} IssueKeepsTokens(a: Account, kind: Kind, lifetime: int, digest: Digest, newEmail: string, now: int)
    requires TokensInv(a.tokens, a.log, a.nextToken) && (kind == EmailVerification ==> digest.CodeDigest?)
    ensures var b := Issue(a, kind, lifetime, digest, newEmail, now).account;
            TokensInv(b.tokens, b.log, b.nextToken)
  {
    if !DigestTaken(a, digest) {
      var b := Issue(a, kind, lifetime, digest, newEmail, now).account;
      var new' := a.nextToken;
      forall id ensures TokenOk(b.tokens, b.log, b.nextToken, id) { assert TokenOk(a.tokens, a.log, a.nextToken, id); }
      forall i, j, k | Unused(b.tokens, i, k) && Unused(b.tokens, j, k) ensures i == j {
        assert i == new' || Unused(a.tokens, i, k);
        assert j == new' || Unused(a.tokens, j, k);
      }
      forall i, j | i in b.tokens && j in b.tokens && b.tokens[i].digest == b.tokens[j].digest ensures i == j {
        assert i == new' || a.tokens[i].digest == b.tokens[i].digest;
        assert j == new' || a.tokens[j].digest == b.tokens[j].digest;
      }
    }
  }

  lemma {:induction false} IssueKeepsRequests(a: Account, kind: Kind, lifetime: int, digest: Digest, newEmail: string, now: int)
    requires Inv(a) && kind != AccountDeletion
    ensures RequestsInv(Issue(a, kind, lifetime, digest, newEmail, now).account.tokens, a.requests)
  {
    if !DigestTaken(a, digest) {
      var b := Issue(a, kind, lifetime, digest, newEmail, now).account;
      forall i | 0 <= i < |a.requests| ensures a.requests[i].token != a.nextToken {
        assert TokenOk(a.tokens, a.log, a.nextToken, a.requests[i].token);
      }
      forall id | Unused(b.tokens, id, AccountDeletion) ensures PendingFor(a.requests, id) {
        assert Unused(a.tokens, id, AccountDeletion);
      }
    }
  }

  lemma {:induction false} IssueKeepsInv(a: Account, kind: Kind, lifetime: int, digest: Digest, newEmail: string, now: int)
    requires Inv(a) && kind != AccountDeletion && (kind == EmailVerification ==> digest.CodeDigest?)
    ensures Inv(Issue(a, kind, lifetime, digest, newEmail, now).account)
  {
    IssueKeepsTokens(a, kind, lifetime, digest, newEmail, now);
    IssueKeepsRequests(a, kind, lifetime, digest, newEmail, now);
  }

  // ---------------------------------------------------------------- verification

  lemma Logged(log: seq<Event>, e: Event, id: TokenId)
    ensures Successes(log + [e], id) == Successes(log, id) + (if e.Verified? && e.token == id then 1 else 0)
    ensures Guesses(log + [e], id) == Guesses(log, id) + (if e.WrongGuess? && e.token == id then 1 else 0)
  {
    assert (log + [e])[..|log + [e]| - 1] == log;
  }

  /** One use of the unused verification token, right or wrong. */
  lemma {:induction false} CodeUseKeepsInv(tokens: Tokens, log: seq<Event>, next: TokenId, t: Token, e: Event)
    requires TokensInv(tokens, log, next) && Unused(tokens, e.token, EmailVerification)
    requires var old' := tokens[e.token];
             if e.Verified? then t == old'.(usedAt := Some(e.at)) else t == Missed(old', e.at)
    ensures TokensInv(tokens[e.token := t], log + [e], next)
  {
    var after := tokens[e.token := t];
    assert TokenOk(tokens, log, next, e.token);
    forall x ensures TokenOk(after, log + [e], next, x) {
      assert TokenOk(tokens, log, next, x);
      Logged(log, e, x);
    }
    forall i, j, k | Unused(after, i, k) && Unused(after, j, k) ensures i == j {
      assert Unused(tokens, i, k) && Unused(tokens, j, k);
    }
  }

  lemma {:induction false} VerifyKeepsInv(a: Account, code: string, now: int)
    requires Inv(a)
    ensures Inv(Verify(a, code, now).account)
  {
    var active := UnusedToken(a, EmailVerification);
    if active.Some? && IsUsable(a.tokens[active.value], now) {
      var id := active.value;
      var b := Verify(a, code, now).account;
      CodeUseKeepsInv(a.tokens, a.log, a.nextToken, b.tokens[id], b.log[|a.log|]);
      forall x | Unused(b.tokens, x, AccountDeletion) ensures PendingFor(b.requests, x) {
        assert Unused(a.tokens, x, AccountDeletion);
      }
    }
  }

  // ---------------------------------------------------------------- deletion requests

  lemma {:induction false} LatestCorrect(requests: seq<DeletionRequest>, wanted: set<RequestStatus>)
    ensures var r := LatestWith(requests, wanted);
            if r.Some? then r.value < |requests| && requests[r.value].status in wanted
                            && forall j :: r.value < j < |requests| ==> requests[j].status !in wanted
            else forall j :: 0 <= j < |requests| ==> requests[j].status !in wanted
  {
    if requests != [] { LatestCorrect(requests[..|requests| - 1], wanted); }
  }

  /** When a request for deletion is accepted, nothing of the account's is confirmed or in progress. */
  lemma {:induction false} OnlyPendingRemain(a: Account)
    requires Inv(a)
    requires var existing := LatestWith(a.requests, NOT_CANCELLED);
             !(existing.Some? && existing.value < |a.requests| && a.requests[existing.value].status in {Confirmed, Processing})
    ensures forall i :: 0 <= i < |a.requests| ==> Live(a.requests[i]) ==> a.requests[i].status == PendingConfirmation
  {
    LatestCorrect(a.requests, NOT_CANCELLED);
    var existing := LatestWith(a.requests, NOT_CANCELLED);
    forall i | 0 <= i < |a.requests| && Live(a.requests[i]) ensures a.requests[i].status == PendingConfirmation {
    }
  }

  lemma {:induction false} RequestDeletionKeepsInv(a: Account, seen: Snapshot, raw: string, now: int)
    requires Inv(a)
    ensures Inv(RequestDeletion(a, seen, raw, now).account)
  {
    if RequestDeletion(a, seen, raw, now).reply.Ok? {
      OnlyPendingRemain(a);
      IssueKeepsTokens(a, AccountDeletion, DELETION_TTL, LinkDigest(raw), "", now);
      var c := RequestDeletion(a, seen, raw, now).account;
      NewRequestKeepsRequests(a, c, now);
    }
  }

  lemma {:induction false} NewRequestKeepsRequests(a: Account, c: Account, now: int)
    requires Inv(a) && TokensInv(c.tokens, c.log, c.nextToken)
    requires forall i :: 0 <= i < |a.requests| ==> Live(a.requests[i]) ==> a.requests[i].status == PendingConfirmation
    requires a.nextToken in c.tokens && c.tokens == SpendKind(a.tokens, AccountDeletion, now)[a.nextToken := c.tokens[a.nextToken]]
    requires Unused(c.tokens, a.nextToken, AccountDeletion)
    requires c.requests == CancelPending(a.requests) + [DeletionRequest(a.nextToken, PendingConfirmation)]
    ensures RequestsInv(c.tokens, c.requests)
  {
    var n := |a.requests|;
    forall i | 0 <= i < n ensures c.requests[i].token == a.requests[i].token && !Live(c.requests[i])
                                  && a.requests[i].token != a.nextToken && a.requests[i].token in c.tokens
                                  && c.tokens[a.requests[i].token].usedAt.Some?
                                  && c.tokens[a.requests[i].token].kind == AccountDeletion
    {
      assert TokenOk(a.tokens, a.log, a.nextToken, a.requests[i].token);
    }
    forall id | Unused(c.tokens, id, AccountDeletion) ensures PendingFor(c.requests, id) {
      assert id == a.nextToken;
      assert c.requests[n] == DeletionRequest(id, PendingConfirmation);
    }
  }

  /** Moving one live request on to a status for which its token must be spent. */
  lemma {:induction false} RequestMovesOn(tokens: Tokens, requests: seq<DeletionRequest>, i: nat, status: RequestStatus)
    requires RequestsInv(tokens, requests)
    requires i < |requests| && Live(requests[i]) && status != PendingConfirmation
    requires tokens[requests[i].token].usedAt.Some?
    ensures RequestsInv(tokens, requests[i := requests[i].(status := status)])
  {
    var after := requests[i := requests[i].(status := status)];
    forall x, y | 0 <= x < |after| && 0 <= y < |after| && Live(after[x]) && Live(after[y]) ensures x == y {
      assert Live(requests[x]) && Live(requests[y]);
    }
    forall id ensures !Unused(tokens, id, AccountDeletion) {
      if PendingFor(requests, id) {
        var j :| 0 <= j < |requests| && requests[j] == DeletionRequest(id, PendingConfirmation);
        assert Live(requests[j]);
      }
    }
  }

  lemma {:induction false} ConfirmDeletionKeepsInv(a: Account, raw: string, now: int)
    requires Inv(a)
    ensures Inv(ConfirmDeletion(a, raw, now).account)
  {
    if ConfirmDeletion(a, raw, now).reply.Ok? {
      var id := GetUsable(a, raw, AccountDeletion, now).value;
      var i := RequestFor(a, id, PendingConfirmation).value;
      var tokens := a.tokens[id := a.tokens[id].(usedAt := Some(now))];
      SpendingKeepsTokens(a.tokens, tokens, a.log, a.nextToken);
      SpendingKeepsRequests(a.tokens, tokens, a.requests);
      assert Live(a.requests[i]);
      RequestMovesOn(tokens, a.requests, i, Confirmed);
    }
  }

  lemma {:induction false} CancelDeletionKeepsInv(a: Account, seen: Snapshot, now: int)
    requires Inv(a)
    ensures Inv(CancelDeletion(a, seen, now).account)
  {
    if CancelDeletion(a, seen, now).reply.Ok? {
      LatestCorrect(a.requests, {PendingConfirmation, Confirmed});
      var i := LatestWith(a.requests, {PendingConfirmation, Confirmed}).value;
      var id := a.requests[i].token;
      var tokens := a.tokens[id := Spend(a.tokens[id], now)];
      SpendingKeepsTokens(a.tokens, tokens, a.log, a.nextToken);
      SpendingKeepsRequests(a.tokens, tokens, a.requests);
      RequestMovesOn(tokens, a.requests, i, Cancelled);
    }
  }

  lemma {:induction false} BeginDeletionKeepsInv(a: Account, request: nat, approved: bool, blocked: bool, now: int)
    requires Inv(a)
    ensures Inv(BeginDeletion(a, request, approved, blocked, now).account)
  {
    if BeginDeletion(a, request, approved, blocked, now).account != a {
      SpendAllOnlySpends(a.tokens, now);
      SpendingKeepsTokens(a.tokens, SpendAll(a.tokens, now), a.log, a.nextToken);
      SpendingKeepsRequests(a.tokens, SpendAll(a.tokens, now), a.requests);
      RequestMovesOn(SpendAll(a.tokens, now), a.requests, request, Processing);
      assert Live(a.requests[request]);
    }
  }

  lemma {:induction false} EraseKeepsInv(a: Account, request: nat, approved: bool, erased: bool, substitute: Substitute)
    requires Inv(a)
    ensures Inv(Erase(a, request, approved, erased, substitute).account)
  {
    var b := Erase(a, request, approved, erased, substitute).account;
    if b != a {
      RequestMovesOn(a.tokens, a.requests, request, Completed);
      forall i | 0 <= i < |b.requests| ensures b.requests[i].token in b.tokens
                 && b.tokens[b.requests[i].token].kind == AccountDeletion
                 && b.tokens[b.requests[i].token].usedAt == a.tokens[b.requests[i].token].usedAt
      {
        assert b.requests[i].token == a.requests[i].token;
        assert HasRequest(a.requests, b.requests[i].token);
      }
      forall id ensures TokenOk(b.tokens, b.log, b.nextToken, id) {
        assert TokenOk(a.tokens, a.log, a.nextToken, id);
        if id in b.tokens { var i :| 0 <= i < |a.requests| && a.requests[i].token == id; }
      }
      forall i, j, k | Unused(b.tokens, i, k) && Unused(b.tokens, j, k) ensures i == j {
        assert Unused(a.tokens, i, k) && Unused(a.tokens, j, k);
      }
      forall id | Unused(b.tokens, id, AccountDeletion) ensures PendingFor(b.requests, id) {
        assert Unused(a.tokens, id, AccountDeletion);
      }
    }
  }

  // ---------------------------------------------------------------- every step, every run

  lemma {:induction false} SpendAllKeepsInv(a: Account, now: int)
    requires Inv(a)
    ensures Inv(a.(tokens := SpendAll(a.tokens, now)))
  {
    SpendAllOnlySpends(a.tokens, now);
    SpendingKeepsTokens(a.tokens, SpendAll(a.tokens, now), a.log, a.nextToken);
    SpendingKeepsRequests(a.tokens, SpendAll(a.tokens, now), a.requests);
  }

  lemma {:induction false} NextKeepsInv(a: Account, step: Step)
    requires Inv(a)
    ensures Inv(Next(a, step))
  {
    match step
    case DoRegister(code, now) => IssueKeepsInv(a, EmailVerification, VERIFICATION_TTL, CodeDigest(code), "", now);
    case DoResend(code, now) => IssueKeepsInv(a, EmailVerification, VERIFICATION_TTL, CodeDigest(code), "", now);
    case DoVerify(code, now) => VerifyKeepsInv(a, code, now);
    case DoRequestReset(raw, now) => IssueKeepsInv(a, PasswordReset, RESET_TTL, LinkDigest(raw), "", now);
    case DoConfirmReset(raw, newPassword, now) => SpendAllKeepsInv(a, now);
    case DoRequestEmailChange(seen, newEmail, taken, raw, now) =>
      IssueKeepsInv(a, EmailChange, EMAIL_CHANGE_TTL, LinkDigest(raw), newEmail, now);
    case DoConfirmEmailChange(raw, taken, now) => SpendAllKeepsInv(a, now);
    case DoChangePassword(seen, newPassword, now) => SpendAllKeepsInv(a, now);
    case DoSetStatus(status, _) =>
    case DoForceStatus(allowed, status, _) =>
    case DoRequestDeletion(seen, raw, now) => RequestDeletionKeepsInv(a, seen, raw, now);
    case DoConfirmDeletion(raw, now) => ConfirmDeletionKeepsInv(a, raw, now);
    case DoCancelDeletion(seen, now) => CancelDeletionKeepsInv(a, seen, now);
    case DoBeginDeletion(request, approved, blocked, now) => BeginDeletionKeepsInv(a, request, approved, blocked, now);
    case DoErase(request, approved, erased, substitute, _) => EraseKeepsInv(a, request, approved, erased, substitute);
  }

  lemma {:induction false} RunsKeepInv(a: Account, steps: seq<Step>)
    requires Inv(a)
    ensures Inv(Execute(a, steps))
  {
    if steps != [] {
      RunsKeepInv(a, steps[..|steps| - 1]);
      NextKeepsInv(Execute(a, steps[..|steps| - 1]), steps[|steps| - 1]);
    }
  }

  lemma {:induction false} EraseKeepsStatusAgrees(a: Account, request: nat, approved: bool, erased: bool, substitute: Substitute)
    requires RequestsInv(a.tokens, a.requests) && StatusAgrees(a.status, a.requests)
    ensures var b := Erase(a, request, approved, erased, substitute).account; StatusAgrees(b.status, b.requests)
  {
    var b := Erase(a, request, approved, erased, substitute).account;
    if b != a {
      assert Live(a.requests[request]);
      forall i | 0 <= i < |b.requests| ensures !Live(b.requests[i]) {
        assert i != request && Live(a.requests[i]) ==> i == request;
      }
    }
  }

  lemma {:induction false} RequestsKeepStatusAgrees(a: Account, step: Step)
    requires StatusAgrees(a.status, a.requests)
    requires step.DoRequestDeletion? || step.DoConfirmDeletion? || step.DoCancelDeletion? || step.DoBeginDeletion?
    ensures StatusAgrees(Next(a, step).status, Next(a, step).requests)
  {
    match step
    case DoRequestDeletion(_, _, _) =>
    case DoConfirmDeletion(_, _) =>
    case DoCancelDeletion(_, _) => LatestCorrect(a.requests, {PendingConfirmation, Confirmed});
    case DoBeginDeletion(_, _, _, _) =>
  }

  lemma {:induction false} NextKeepsStatusAgrees(a: Account, step: Step)
    requires Inv(a) && StatusAgrees(a.status, a.requests) && !step.DoForceStatus?
    ensures StatusAgrees(Next(a, step).status, Next(a, step).requests)
  {
    match step
    case DoErase(request, approved, erased, substitute, _) => EraseKeepsStatusAgrees(a, request, approved, erased, substitute);
    case DoRequestDeletion(_, _, _) => RequestsKeepStatusAgrees(a, step);
    case DoConfirmDeletion(_, _) => RequestsKeepStatusAgrees(a, step);
    case DoCancelDeletion(_, _) => RequestsKeepStatusAgrees(a, step);
    case DoBeginDeletion(_, _, _, _) => RequestsKeepStatusAgrees(a, step);
    case _ =>
  }

  ghost predicate SomeLive(requests: seq<DeletionRequest>) {
    exists i :: 0 <= i < |requests| && Live(requests[i])
  }

  ghost predicate SomeCompleted(requests: seq<DeletionRequest>) {
    exists i :: 0 <= i < |requests| && requests[i].status == Completed
  }

  /** An accepted form that deletes an account whose deletion is under way, or gives an erased account
      any other status. */
  ghost predicate Harmful(a: Account, step: Step) {
    step.DoForceStatus? && step.allowed && if step.status == Deleted then SomeLive(a.requests) else SomeCompleted(a.requests)
  }

  /** Exactly the harmful forms, and no other step, part an account's status from its requests. */
  lemma {:induction false} StatusDisagreesIff(a: Account, step: Step)
    requires Inv(a) && StatusAgrees(a.status, a.requests)
    ensures !StatusAgrees(Next(a, step).status, Next(a, step).requests) <==> Harmful(a, step)
  {
    if !step.DoForceStatus? { NextKeepsStatusAgrees(a, step); }
  }

  ghost predicate HarmlessRun(a: Account, steps: seq<Step>) {
    forall i :: 0 <= i < |steps| ==> !Harmful(Execute(a, steps[..i]), steps[i])
  }

  ghost predicate AgreesThroughout(a: Account, steps: seq<Step>) {
    forall i :: 0 <= i <= |steps| ==> StatusAgrees(Execute(a, steps[..i]).status, Execute(a, steps[..i]).requests)
  }

  lemma {:induction false} HarmlessPrefix(a: Account, steps: seq<Step>, n: nat)
    requires n <= |steps|
    ensures HarmlessRun(a, steps) ==> HarmlessRun(a, steps[..n])
    ensures AgreesThroughout(a, steps) ==> AgreesThroughout(a, steps[..n])
  {
    assert forall i :: 0 <= i <= n ==> steps[..n][..i] == steps[..i];
  }

  /** A status never parts from the requests during a run if and only if no form in it is harmful. */
  lemma {:induction false} StatusAgreesThroughoutIff(a: Account, steps: seq<Step>)
    requires Inv(a) && StatusAgrees(a.status, a.requests)
    ensures AgreesThroughout(a, steps) <==> HarmlessRun(a, steps)
  {
    if steps != [] {
      var n := |steps| - 1;
      var front := steps[..n];
      assert steps[..|steps|] == steps;
      assert forall i :: 0 <= i <= n ==> front[..i] == steps[..i];
      StatusAgreesThroughoutIff(a, front);
      HarmlessPrefix(a, steps, n);
      RunsKeepInv(a, front);
      assert front[..n] == front;
      if AgreesThroughout(a, front) { StatusDisagreesIff(Execute(a, front), steps[n]); }
    }
  }

  lemma NewAccountInv(email: string, password: string)
    ensures Inv(NewAccount(email, password))
  {
  }

  // ---------------------------------------------------------------- what the histories guarantee

  /** Main result: in every history an account has at most one unused token per kind, at most one live
      deletion request, and every unused deletion token belongs to a pending request. Unless an
      administrator forces a status harmfully, a completed request means a deleted account. */
  lemma {:induction false} EveryHistoryIsSound(email: string, password: string, steps: seq<Step>)
    ensures var a := Execute(NewAccount(email, password), steps);
            && (forall i, j, kind :: Unused(a.tokens, i, kind) && Unused(a.tokens, j, kind) ==> i == j)
            && (forall i, j :: 0 <= i < j < |a.requests| ==> !(Live(a.requests[i]) && Live(a.requests[j])))
            && (forall id :: Unused(a.tokens, id, AccountDeletion) ==> PendingFor(a.requests, id))
            && (HarmlessRun(NewAccount(email, password), steps) ==>
                  forall i :: 0 <= i < |a.requests| && a.requests[i].status == Completed ==> a.status == Deleted)
  {
    NewAccountInv(email, password);
    RunsKeepInv(NewAccount(email, password), steps);
    StatusAgreesThroughoutIff(NewAccount(email, password), steps);
    assert steps[..|steps|] == steps;
  }

  // ---------------------------------------------------------------- forced statuses, in runs that happen

  const NOBODY := Substitute("deleted@deleted.invalid", "!")

  /** A user asks for deletion and confirms it, the request is processed to its end, and then an
      administrator makes the account active again. */
  function RevivalRun(seen: Snapshot): seq<Step> {
    [DoRequestDeletion(seen, "link", 0), DoConfirmDeletion("link", 1), DoBeginDeletion(0, true, false, 2),
     DoErase(0, true, true, NOBODY, 3), DoForceStatus(true, Active, 4)]
  }

  /** The account once its deletion has been asked for with the link, and its token used at some time. */
  function Asked(seen: Snapshot, request: RequestStatus, usedAt: Option<int>, status: UserStatus): Account {
    Account(status, seen.email, seen.password, false,
            map[0 := Token(AccountDeletion, LinkDigest("link"), 0, "", usedAt, DELETION_TTL, 0)],
            [DeletionRequest(0, request)], 1, [])
  }

  lemma {:induction false} AskingForDeletion(seen: Snapshot)
    ensures Next(NewAccount(seen.email, seen.password), DoRequestDeletion(seen, "link", 0))
         == Asked(seen, PendingConfirmation, None, Active)
  {
  }

  lemma {:induction false} ConfirmingDeletion(seen: Snapshot)
    ensures Next(Asked(seen, PendingConfirmation, None, Active), DoConfirmDeletion("link", 1))
         == Asked(seen, Confirmed, Some(1), Active)
  {
    var a := Asked(seen, PendingConfirmation, None, Active);
    assert a.tokens[0].digest == LinkDigest("link") && a.tokens[0].kind == AccountDeletion;
    assert TokenOf(a, LinkDigest("link"), AccountDeletion) == Some(0);
    assert a.requests[0] == DeletionRequest(0, PendingConfirmation);
    assert RequestFor(a, 0, PendingConfirmation) == Some(0);
  }

  lemma {:induction false} BeginningErasure(seen: Snapshot)
    ensures Next(Asked(seen, Confirmed, Some(1), Active), DoBeginDeletion(0, true, false, 2))
         == Asked(seen, Processing, Some(1), Suspended)
  {
  }

  lemma {:induction false} RunOfTwo(a: Account, s: Step, t: Step)
    ensures Execute(a, [s, t]) == Next(Next(a, s), t)
  {
    assert [s, t][..1] == [s] && [s][..0] == [];
    assert Execute(a, [s]) == Next(Execute(a, []), s);
  }

  lemma {:induction false} RunAppended(a: Account, steps: seq<Step>, step: Step)
    ensures Execute(a, steps + [step]) == Next(Execute(a, steps), step)
  {
    assert (steps + [step])[..|steps|] == steps;
  }

  lemma {:induction false} RevivalReachesProcessing(seen: Snapshot)
    ensures Execute(NewAccount(seen.email, seen.password), RevivalRun(seen)[..3]) == Asked(seen, Processing, Some(1), Suspended)
  {
    var a0, steps := NewAccount(seen.email, seen.password), RevivalRun(seen);
    AskingForDeletion(seen);
    ConfirmingDeletion(seen);
    BeginningErasure(seen);
    RunOfTwo(a0, steps[0], steps[1]);
    RunAppended(a0, [steps[0], steps[1]], steps[2]);
    assert steps[..3] == [steps[0], steps[1]] + [steps[2]];
  }

  lemma {:induction false} RevivalErases(seen: Snapshot)
    ensures var a := Execute(NewAccount(seen.email, seen.password), RevivalRun(seen)[..4]);
            a.status == Deleted && a.requests == [DeletionRequest(0, Completed)]
  {
    var a0, steps := NewAccount(seen.email, seen.password), RevivalRun(seen);
    RevivalReachesProcessing(seen);
    RunAppended(a0, steps[..3], steps[3]);
    assert steps[..4] == steps[..3] + [steps[3]];
  }

  /** So an erased account can come back, with its completed request: from registration in five steps. */
  lemma {:induction false} ErasedAccountsCanBeRevived(seen: Snapshot)
    ensures var a := Execute(NewAccount(seen.email, seen.password), RevivalRun(seen));
            a.status == Active && a.requests == [DeletionRequest(0, Completed)]
    ensures !HarmlessRun(NewAccount(seen.email, seen.password), RevivalRun(seen))
  {
    var a0, steps := NewAccount(seen.email, seen.password), RevivalRun(seen);
    RevivalErases(seen);
    RunAppended(a0, steps[..4], steps[4]);
    assert steps == steps[..4] + [steps[4]];
    var erased := Execute(a0, steps[..4]);
    assert erased.requests[0].status == Completed;
    assert Harmful(erased, steps[4]);
  }

  /** And an account can be marked deleted while its deletion is still waiting to be confirmed. */
  lemma {:induction false} DeletionCanBeForcedEarly(seen: Snapshot)
    ensures var a := Execute(NewAccount(seen.email, seen.password),
                             [DoRequestDeletion(seen, "link", 0), DoForceStatus(true, Deleted, 1)]);
            a.status == Deleted && |a.requests| == 1 && a.requests[0].status == PendingConfirmation
  {
    AskingForDeletion(seen);
    RunOfTwo(NewAccount(seen.email, seen.password), DoRequestDeletion(seen, "link", 0), DoForceStatus(true, Deleted, 1));
  }

  /** Each code takes at most one success and at most five counted wrong guesses, and a code burned by
      five wrong guesses never succeeds. */
  lemma {:induction false} CodesAreBounded(email: string, password: string, steps: seq<Step>, id: TokenId)
    ensures var a := Execute(NewAccount(email, password), steps);
            && Successes(a.log, id) <= 1
            && Guesses(a.log, id) <= VERIFICATION_ATTEMPT_LIMIT
            && !(Successes(a.log, id) == 1 && Guesses(a.log, id) == VERIFICATION_ATTEMPT_LIMIT)
            && (Successes(a.log, id) == 1 ==> !Unused(a.tokens, id, EmailVerification))
            && (Guesses(a.log, id) == VERIFICATION_ATTEMPT_LIMIT ==> !Unused(a.tokens, id, EmailVerification))
  {
    NewAccountInv(email, password);
    RunsKeepInv(NewAccount(email, password), steps);
    var a := Execute(NewAccount(email, password), steps);
    assert TokenOk(a.tokens, a.log, a.nextToken, id);
  }

  ghost predicate Dead(a: Account, id: TokenId) {
    id < a.nextToken && (id in a.tokens ==> a.tokens[id].usedAt.Some?)
  }

  /** A token's expiry never changes, a used token is never unused again, and keys are never reused. */
  lemma {:induction false} TokenStepsOn(a: Account, step: Step, id: TokenId)
    requires id < a.nextToken
    ensures var b := Next(a, step);
            id < b.nextToken
            && (id in b.tokens ==>
                  id in a.tokens && b.tokens[id].expiresAt == a.tokens[id].expiresAt
                  && (a.tokens[id].usedAt.Some? ==> b.tokens[id].usedAt == a.tokens[id].usedAt))
  {
  }

  /** Events concern only a token that is unused and in time. */
  lemma {:induction false} EventsNeedALiveToken(a: Account, step: Step, id: TokenId)
    requires id in a.tokens ==> !IsUsable(a.tokens[id], step.now)
    ensures Successes(Next(a, step).log, id) == Successes(a.log, id)
    ensures Guesses(Next(a, step).log, id) == Guesses(a.log, id)
  {
    if step.DoVerify? {
      var b := Next(a, step);
      if b.log != a.log { Logged(a.log, b.log[|a.log|], id); }
    } else {
      OnlyVerifyLogs(a, step);
    }
  }

  lemma {:induction false} OnlyVerifyLogs(a: Account, step: Step)
    requires !step.DoVerify?
    ensures Next(a, step).log == a.log
  {
  }

  /** A token that was used, burned or replaced is dead for good: no later history counts a success
      or a guess against it. */
  lemma {:induction false} DeadTokensStayDead(a: Account, steps: seq<Step>, id: TokenId)
    requires Dead(a, id)
    ensures var b := Execute(a, steps);
            Dead(b, id) && Successes(b.log, id) == Successes(a.log, id) && Guesses(b.log, id) == Guesses(a.log, id)
  {
    if steps != [] {
      DeadTokensStayDead(a, steps[..|steps| - 1], id);
      TokenStepsOn(Execute(a, steps[..|steps| - 1]), steps[|steps| - 1], id);
      EventsNeedALiveToken(Execute(a, steps[..|steps| - 1]), steps[|steps| - 1], id);
    }
  }

  ghost predicate ExpiresBy(a: Account, id: TokenId, at: int) {
    id < a.nextToken && (id in a.tokens ==> a.tokens[id].expiresAt <= at)
  }

  /** After its expiry a code neither succeeds nor takes another guess. */
  lemma {:induction false} ExpiredTokensStayDead(a: Account, steps: seq<Step>, id: TokenId, at: int)
    requires ExpiresBy(a, id, at) && forall i :: 0 <= i < |steps| ==> steps[i].now >= at
    ensures var b := Execute(a, steps);
            ExpiresBy(b, id, at) && Successes(b.log, id) == Successes(a.log, id) && Guesses(b.log, id) == Guesses(a.log, id)
  {
    if steps != [] {
      ExpiredTokensStayDead(a, steps[..|steps| - 1], id, at);
      TokenStepsOn(Execute(a, steps[..|steps| - 1]), steps[|steps| - 1], id);
      EventsNeedALiveToken(Execute(a, steps[..|steps| - 1]), steps[|steps| - 1], id);
    }
  }

  /** The one live code of the account at a moment. */
  ghost predicate IsLiveCode(a: Account, code: string, now: int) {
    exists id :: Unused(a.tokens, id, EmailVerification) && a.tokens[id].digest == CodeDigest(code) && a.tokens[id].expiresAt > now
  }

  /** A submitted code verifies the address exactly when it is the account's live code, and otherwise
      a wrong guess is counted exactly when there is a live code to guess at. */
  lemma {:induction false} VerifiesExactlyTheLiveCode(email: string, password: string, steps: seq<Step>, code: string, now: int)
    ensures var a := Execute(NewAccount(email, password), steps);
            var r := Verify(a, code, now);
            && (r.reply.Ok? <==> IsLiveCode(a, code, now))
            && (r.reply.Ok? ==> r.account.verified && !IsLiveCode(r.account, code, now))
            && (r.reply.Err? ==>
                  r.account.verified == a.verified
                  && (r.account.log != a.log <==> exists id :: Unused(a.tokens, id, EmailVerification) && a.tokens[id].expiresAt > now))
  {
    NewAccountInv(email, password);
    RunsKeepInv(NewAccount(email, password), steps);
    var a := Execute(NewAccount(email, password), steps);
    VerifyKeepsInv(a, code, now);
    var r := Verify(a, code, now);
    if r.reply.Ok? {
      var id := UnusedToken(a, EmailVerification).value;
      assert Unused(a.tokens, id, EmailVerification);
      forall x ensures !Unused(r.account.tokens, x, EmailVerification) {
        if Unused(r.account.tokens, x, EmailVerification) { assert Unused(a.tokens, x, EmailVerification); }
      }
    }
  }

  /** Why a code failed, told exactly: "invalid" when the account holds no such code, and otherwise that
      code's own fate: burned by five wrong guesses, used or replaced, or expired. */
  lemma {:induction false} FailureReasonIsExact(email: string, password: string, steps: seq<Step>, code: string, now: int)
    requires Verify(Execute(NewAccount(email, password), steps), code, now).reply.Err?
    ensures var r := Verify(Execute(NewAccount(email, password), steps), code, now);
            r.reply == Err(TokenError(WhyCodeFailed(r.account, code, now)))
            && match TokenOf(r.account, CodeDigest(code), EmailVerification)
               case None => WhyCodeFailed(r.account, code, now) == Invalid
               case Some(id) =>
                 id in r.account.tokens
                 && WhyCodeFailed(r.account, code, now) ==
                    if Guesses(r.account.log, id) == VERIFICATION_ATTEMPT_LIMIT then AttemptsExceeded
                    else if r.account.tokens[id].usedAt.Some? then UsedUp
                    else Expired
  {
    NewAccountInv(email, password);
    RunsKeepInv(NewAccount(email, password), steps);
    var a := Execute(NewAccount(email, password), steps);
    var r := Verify(a, code, now);
    VerifyKeepsInv(a, code, now);
    VerifiesExactlyTheLiveCode(email, password, steps, code, now);
    var found := TokenOf(r.account, CodeDigest(code), EmailVerification);
    if found.Some? {
      var id := found.value;
      assert TokenOk(r.account.tokens, r.account.log, r.account.nextToken, id);
      if r.account.tokens[id].usedAt.None? {
        assert Unused(r.account.tokens, id, EmailVerification);
        assert Unused(a.tokens, id, EmailVerification);
        assert !IsLiveCode(a, code, now);
      }
    }
  }

  /** Of all the emails queued for an account and kind, at most one can pass the email worker's
      usability check at any instant: each delivery belongs to its own token. */
  lemma {:induction false} OneQueuedEmailIsUsable(email: string, password: string, steps: seq<Step>, i: TokenId, j: TokenId, now: int)
    requires var a := Execute(NewAccount(email, password), steps);
             i in a.tokens && j in a.tokens && a.tokens[i].kind == a.tokens[j].kind
             && EmailDelivery.Usable(EmailDelivery.Token(a.tokens[i].usedAt, a.tokens[i].expiresAt), now)
             && EmailDelivery.Usable(EmailDelivery.Token(a.tokens[j].usedAt, a.tokens[j].expiresAt), now)
    ensures i == j
  {
    NewAccountInv(email, password);
    RunsKeepInv(NewAccount(email, password), steps);
    var a := Execute(NewAccount(email, password), steps);
    assert Unused(a.tokens, i, a.tokens[i].kind) && Unused(a.tokens, j, a.tokens[i].kind);
  }

  /** A usable deletion link always confirms: its request is pending, and it is the account's only live one. */
  lemma {:induction false} UsableDeletionLinksConfirm(email: string, password: string, steps: seq<Step>, raw: string, now: int)
    ensures var a := Execute(NewAccount(email, password), steps);
            ConfirmDeletion(a, raw, now).reply.Ok? <==> GetUsable(a, raw, AccountDeletion, now).Ok?
  {
    NewAccountInv(email, password);
    RunsKeepInv(NewAccount(email, password), steps);
    var a := Execute(NewAccount(email, password), steps);
    var g := GetUsable(a, raw, AccountDeletion, now);
    if g.Ok? {
      assert Unused(a.tokens, g.value, AccountDeletion);
      assert PendingFor(a.requests, g.value);
    }
  }

  predicate Final(r: DeletionRequest) {
    r.status == Cancelled || r.status == Completed
  }

  lemma {:induction false} FinalStepsOn(a: Account, step: Step)
    ensures var b := Next(a, step);
            |a.requests| <= |b.requests|
            && forall i :: 0 <= i < |a.requests| ==>
                 b.requests[i].token == a.requests[i].token && (Final(a.requests[i]) ==> b.requests[i] == a.requests[i])
  {
    match step
    case DoCancelDeletion(seen, now) => LatestCorrect(a.requests, {PendingConfirmation, Confirmed});
    case _ =>
  }

  /** CANCELLED and COMPLETED are never left. */
  lemma {:induction false} FinalRequestsStay(a: Account, steps: seq<Step>, i: nat)
    requires i < |a.requests| && Final(a.requests[i])
    ensures i < |Execute(a, steps).requests| && Execute(a, steps).requests[i] == a.requests[i]
  {
    if steps != [] {
      FinalRequestsStay(a, steps[..|steps| - 1], i);
      FinalStepsOn(Execute(a, steps[..|steps| - 1]), steps[|steps| - 1]);
    }
  }

  /** A reset, an email change, a password change and the start of an erasure leave no token of any
      kind that could be used at any later time. */
  lemma {:induction false} CredentialChangesRevokeEverything(
      a: Account, raw: string, seen: Snapshot, text: string, taken: bool, request: nat, approved: bool, blocked: bool, now: int)
    ensures var reset := ConfirmReset(a, raw, text, now);
            reset.reply.Ok? ==> forall id, at :: id in reset.account.tokens ==> !IsUsable(reset.account.tokens[id], at)
    ensures var moved := ConfirmEmailChange(a, raw, taken, now);
            moved.reply.Ok? ==> forall id, at :: id in moved.account.tokens ==> !IsUsable(moved.account.tokens[id], at)
    ensures var changed := ChangePassword(a, seen, text, now);
            changed.reply.Ok? ==> forall id, at :: id in changed.account.tokens ==> !IsUsable(changed.account.tokens[id], at)
    ensures var begun := BeginDeletion(a, request, approved, blocked, now);
            begun.account != a ==> forall id, at :: id in begun.account.tokens ==> !IsUsable(begun.account.tokens[id], at)
  {
    SpendAllOnlySpends(a.tokens, now);
  }
}
