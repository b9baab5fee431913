/**
 What each account operation accepts and what it stores, told from the stored account alone: tokens with
 their lifetimes, addresses and passwords, deletion requests, and what an erasure leaves behind.
*/
module AccountOutcomes {
  import opened Common
  import opened AccountTokens
  import opened AccountTokenRuns

  // ---------------------------------------------------------------- issuing

  /** One new unused token, and the kind's older ones spent. */
  ghost predicate IssuesOne(a: Account, b: Account, kind: Kind, digest: Digest, newEmail: string, expiresAt: int, now: int) {
    && b.nextToken == a.nextToken + 1
    && (forall id :: id in b.tokens <==> id in a.tokens || id == a.nextToken)
    && b.tokens[a.nextToken] == Token(kind, digest, 0, newEmail, None, expiresAt, now)
    && forall id :: id in a.tokens && id != a.nextToken ==>
         b.tokens[id] == if a.tokens[id].kind == kind && a.tokens[id].usedAt.None?
                         then a.tokens[id].(usedAt := Some(now)) else a.tokens[id]
  }

  /** Nothing but tokens differs. */
  ghost predicate OnlyTokensDiffer(a: Account, b: Account) {
    b == a.(tokens := b.tokens, nextToken := b.nextToken)
  }

  ghost predicate Fresh(a: Account, digest: Digest) {
    forall id :: id in a.tokens ==> a.tokens[id].digest != digest
  }

  /** A code is sent again to an active, unverified account a minute after the last one, and lives ten
      minutes; otherwise nothing changes. */
  lemma {:induction false} ResendOutcome(a: Account, code: string, now: int)
    ensures var b := Next(a, DoResend(code, now));
            if a.status == Active && !a.verified && Fresh(a, CodeDigest(code))
               && forall id :: id in a.tokens && a.tokens[id].kind == EmailVerification ==> a.tokens[id].createdAt + 60 <= now
            then IssuesOne(a, b, EmailVerification, CodeDigest(code), "", now + 600, now) && OnlyTokensDiffer(a, b)
            else b == a
  {
  }

  /** A reset link goes to an active, verified account and lives an hour. */
  lemma {:induction false} ResetRequestOutcome(a: Account, raw: string, now: int)
    ensures var b := Next(a, DoRequestReset(raw, now));
            if a.status == Active && a.verified && Fresh(a, LinkDigest(raw))
            then IssuesOne(a, b, PasswordReset, LinkDigest(raw), "", now + 3600, now) && OnlyTokensDiffer(a, b)
            else b == a
  {
  }

  /** A link for a new address carries that address and lives an hour. */
  lemma {:induction false} EmailChangeRequestOutcome(a: Account, seen: Snapshot, newEmail: string, taken: bool, raw: string, now: int)
    ensures var b := Next(a, DoRequestEmailChange(seen, newEmail, taken, raw, now));
            if a.status == Active && a.password == seen.password && a.email == seen.email && !taken && Fresh(a, LinkDigest(raw))
            then IssuesOne(a, b, EmailChange, LinkDigest(raw), newEmail, now + 3600, now) && OnlyTokensDiffer(a, b)
            else b == a
  {
  }

  // ---------------------------------------------------------------- codes

  /** A wrong code is counted on the live one, which the fifth wrong guess burns. */
  lemma {:induction false} WrongCodeOutcome(a: Account, id: TokenId, code: string, now: int)
    requires Inv(a) && Unused(a.tokens, id, EmailVerification) && now < a.tokens[id].expiresAt && a.tokens[id].digest != CodeDigest(code)
    ensures var b := Next(a, DoVerify(code, now)); var n := a.tokens[id].attempts + 1;
            && b.verified == a.verified && b.email == a.email && b.password == a.password && b.status == a.status
            && b.tokens == a.tokens[id := a.tokens[id].(attempts := n, usedAt := if n >= 5 then Some(now) else None)]
  {
    assert UnusedToken(a, EmailVerification) == Some(id);
  }

  /** The right one verifies the address and is spent. */
  lemma {:induction false} RightCodeOutcome(a: Account, id: TokenId, code: string, now: int)
    requires Inv(a) && Unused(a.tokens, id, EmailVerification) && now < a.tokens[id].expiresAt && a.tokens[id].digest == CodeDigest(code)
    ensures var b := Next(a, DoVerify(code, now));
            && b.verified && b.email == a.email && b.password == a.password && b.status == a.status
            && b.tokens == a.tokens[id := a.tokens[id].(usedAt := Some(now))]
  {
    assert UnusedToken(a, EmailVerification) == Some(id);
  }

  // ---------------------------------------------------------------- passwords and addresses

  /** The account has an unused link of the kind for the text, still in time. */
  ghost predicate LinkWorks(a: Account, id: TokenId, raw: string, kind: Kind, now: int) {
    id in a.tokens && a.tokens[id].kind == kind && a.tokens[id].digest == LinkDigest(raw)
    && a.tokens[id].usedAt == None && now < a.tokens[id].expiresAt
  }

  /** The same tokens, all of them used, those used before as they were. */
  ghost predicate AllSpent(a: Account, b: Account, now: int) {
    && b.nextToken == a.nextToken && b.requests == a.requests && b.log == a.log && b.status == a.status
    && (forall id :: id in b.tokens <==> id in a.tokens)
    && forall id :: id in a.tokens ==>
         b.tokens[id] == if a.tokens[id].usedAt.Some? then a.tokens[id] else a.tokens[id].(usedAt := Some(now))
  }

  lemma {:induction false} LinkIsUnique(a: Account, raw: string, kind: Kind, now: int)
    requires Inv(a)
    ensures GetUsable(a, raw, kind, now).Ok? <==> exists id :: LinkWorks(a, id, raw, kind, now)
    ensures forall id: TokenId :: LinkWorks(a, id, raw, kind, now) ==> GetUsable(a, raw, kind, now) == Ok(id)
  {
    forall id: TokenId | LinkWorks(a, id, raw, kind, now) ensures GetUsable(a, raw, kind, now) == Ok(id) {
      assert TokenOf(a, LinkDigest(raw), kind) == Some(id);
    }
    if GetUsable(a, raw, kind, now).Ok? { assert LinkWorks(a, GetUsable(a, raw, kind, now).value, raw, kind, now); }
  }

  /** A reset stores the new password exactly when its link works, and otherwise changes nothing. */
  lemma {:induction false} ResetOutcome(a: Account, raw: string, newPassword: string, now: int)
    requires Inv(a)
    ensures var b := Next(a, DoConfirmReset(raw, newPassword, now));
            if exists id :: LinkWorks(a, id, raw, PasswordReset, now)
            then b.password == newPassword && b.email == a.email && b.verified == a.verified && AllSpent(a, b, now)
            else b == a
  {
    LinkIsUnique(a, raw, PasswordReset, now);
  }

  /** An address change stores and verifies the address its link carries, unless it is empty or taken. */
  lemma {:induction false} EmailChangeOutcome(a: Account, raw: string, taken: bool, now: int)
    requires Inv(a)
    ensures var b := Next(a, DoConfirmEmailChange(raw, taken, now));
            && (forall id :: LinkWorks(a, id, raw, EmailChange, now) && a.tokens[id].newEmail != "" && !taken ==>
                  b.email == a.tokens[id].newEmail && b.verified && b.password == a.password && AllSpent(a, b, now))
            && (!(exists id :: LinkWorks(a, id, raw, EmailChange, now) && a.tokens[id].newEmail != "" && !taken) ==> b == a)
  {
    LinkIsUnique(a, raw, EmailChange, now);
  }

  /** A password change stores the new password for the active account the caller saw. */
  lemma {:induction false} PasswordChangeOutcome(a: Account, seen: Snapshot, newPassword: string, now: int)
    ensures var b := Next(a, DoChangePassword(seen, newPassword, now));
            if a.status == Active && a.password == seen.password && a.email == seen.email
            then b.password == newPassword && b.email == a.email && b.verified == a.verified && AllSpent(a, b, now)
            else b == a
  {
  }

  /** The operator's form knows two states, and leaves a deleted account alone. */
  lemma {:induction false} StatusChangeOutcome(a: Account, status: UserStatus, now: int)
    ensures Next(a, DoSetStatus(status, now)) == if status == Deleted || a.status == Deleted then a else a.(status := status)
  {
  }

  // ---------------------------------------------------------------- deletion requests

  /** A deletion is requested for the active account the caller saw, unless one is confirmed or in progress:
      a pending request with its own link of a day's life is added, and older pending ones are cancelled. */
  lemma {:induction false} DeletionRequestOutcome(a: Account, seen: Snapshot, raw: string, now: int)
    requires Inv(a)
    ensures var b := Next(a, DoRequestDeletion(seen, raw, now)); var n := |a.requests|;
            if a.status == Active && a.password == seen.password && a.email == seen.email && Fresh(a, LinkDigest(raw))
               && forall i :: 0 <= i < n ==> a.requests[i].status != Confirmed && a.requests[i].status != Processing
            then
              && IssuesOne(a, b, AccountDeletion, LinkDigest(raw), "", now + 86400, now)
              && b == a.(tokens := b.tokens, nextToken := b.nextToken, requests := b.requests)
              && |b.requests| == n + 1 && b.requests[n] == DeletionRequest(a.nextToken, PendingConfirmation)
              && forall i :: 0 <= i < n ==>
                   b.requests[i] == if a.requests[i].status == PendingConfirmation
                                    then DeletionRequest(a.requests[i].token, Cancelled) else a.requests[i]
            else b == a
  {
    LatestCorrect(a.requests, NOT_CANCELLED);
    var existing := LatestWith(a.requests, NOT_CANCELLED);
    forall i | 0 <= i < |a.requests| && (a.requests[i].status == Confirmed || a.requests[i].status == Processing)
      ensures existing == Some(i)
    {
      assert Live(a.requests[i]);
    }
  }

  /** A confirmation confirms the link's own request and spends the link, exactly when the link works. */
  lemma {:induction false} ConfirmationOutcome(email: string, password: string, steps: seq<Step>, raw: string, now: int)
    ensures var a := Execute(NewAccount(email, password), steps); var b := Next(a, DoConfirmDeletion(raw, now));
            && (forall id :: LinkWorks(a, id, raw, AccountDeletion, now) ==>
                  exists i :: 0 <= i < |a.requests| && a.requests[i] == DeletionRequest(id, PendingConfirmation)
                    && b == a.(requests := a.requests[i := DeletionRequest(id, Confirmed)],
                               tokens := a.tokens[id := a.tokens[id].(usedAt := Some(now))]))
            && (!(exists id :: LinkWorks(a, id, raw, AccountDeletion, now)) ==> b == a)
  {
    EveryHistoryIsSound(email, password, steps);
    NewAccountInv(email, password);
    RunsKeepInv(NewAccount(email, password), steps);
    UsableDeletionLinksConfirm(email, password, steps, raw, now);
    LinkIsUnique(Execute(NewAccount(email, password), steps), raw, AccountDeletion, now);
  }

  /** A cancellation takes back the account's one pending or confirmed request, with its link. */
  lemma {:induction false} CancellationOutcome(a: Account, seen: Snapshot, now: int, i: nat)
    requires Inv(a) && i < |a.requests| && (a.requests[i].status == PendingConfirmation || a.requests[i].status == Confirmed)
    ensures var b := Next(a, DoCancelDeletion(seen, now)); var id := a.requests[i].token;
            if a.status == Active && a.password == seen.password && a.email == seen.email
            then b == a.(requests := a.requests[i := DeletionRequest(id, Cancelled)], tokens := b.tokens)
                 && id in a.tokens
                 && b.tokens == a.tokens[id := a.tokens[id].(usedAt := if a.tokens[id].usedAt.Some? then a.tokens[id].usedAt else Some(now))]
            else b == a
  {
    LatestCorrect(a.requests, {PendingConfirmation, Confirmed});
    assert Live(a.requests[i]);
    var found := LatestWith(a.requests, {PendingConfirmation, Confirmed});
    assert Live(a.requests[found.value]);
  }

  /** Processing begins for a confirmed request, or again for one in progress, when it is approved and nothing
      shared remains: the account is suspended and all its tokens are spent. */
  lemma {:induction false} ProcessingOutcome(a: Account, request: nat, approved: bool, blocked: bool, now: int)
    ensures var b := Next(a, DoBeginDeletion(request, approved, blocked, now));
            if approved && !blocked && request < |a.requests|
               && (a.requests[request].status == Confirmed || a.requests[request].status == Processing)
            then
              && b.requests == a.requests[request := DeletionRequest(a.requests[request].token, Processing)]
              && b.status == Suspended && b.email == a.email && b.password == a.password && b.verified == a.verified
              && (forall id :: id in b.tokens <==> id in a.tokens)
              && (forall id :: id in b.tokens ==> b.tokens[id].usedAt.Some?)
            else b == a
  {
  }

  // ---------------------------------------------------------------- erasure

  /** An erasure completes exactly an approved request in progress whose records could all be removed. Then
      the account is deleted under the substitute address and password, unverified, and of its tokens only
      those of its requests stay, without guesses and addresses. Otherwise nothing changes. */
  lemma {:induction false} ErasureOutcome(a: Account, request: nat, approved: bool, erased: bool, substitute: Substitute, now: int)
    ensures var b := Next(a, DoErase(request, approved, erased, substitute, now));
            if approved && erased && request < |a.requests| && a.requests[request].status == Processing
            then
              && b.requests == a.requests[request := DeletionRequest(a.requests[request].token, Completed)]
              && b.status == Deleted && b.email == substitute.email && b.password == substitute.password && !b.verified
              && (forall id :: id in b.tokens <==> id in a.tokens && exists i :: 0 <= i < |a.requests| && a.requests[i].token == id)
              && (forall id :: id in b.tokens ==> b.tokens[id] == a.tokens[id].(attempts := 0, newEmail := ""))
            else b == a
  {
    var b := Next(a, DoErase(request, approved, erased, substitute, now));
    if b != a {
      forall id ensures id in b.tokens <==> id in a.tokens && exists i :: 0 <= i < |a.requests| && a.requests[i].token == id {
        assert HasRequest(a.requests, id) <==> exists i :: 0 <= i < |a.requests| && a.requests[i].token == id;
      }
    }
  }

  /** What is left of an account after its erasure. */
  ghost predicate IsErased(a: Account, substitute: Substitute) {
    && a.status == Deleted && a.email == substitute.email && a.password == substitute.password && !a.verified
    && (forall id :: id in a.tokens ==> a.tokens[id].usedAt.Some?)
    && (forall i :: 0 <= i < |a.requests| ==> !Live(a.requests[i]))
  }

  /** Nobody registers the account anew or forces a status. */
  ghost predicate LeftAlone(steps: seq<Step>) {
    forall i :: 0 <= i < |steps| ==> !steps[i].DoRegister? && !steps[i].DoForceStatus?
  }

  lemma {:induction false} ErasedStepsOn(a: Account, step: Step, substitute: Substitute)
    requires IsErased(a, substitute) && !step.DoRegister? && !step.DoForceStatus?
    ensures Next(a, step) == a
  {
    match step
    case DoResend(_, _) =>
    case DoVerify(_, _) => assert forall id :: !Unused(a.tokens, id, EmailVerification);
    case DoRequestReset(_, _) =>
    case DoConfirmReset(_, _, _) =>
    case DoRequestEmailChange(_, _, _, _, _) =>
    case DoConfirmEmailChange(_, _, _) =>
    case DoChangePassword(_, _, _) =>
    case DoSetStatus(_, _) =>
    case DoRequestDeletion(_, _, _) =>
    case DoConfirmDeletion(_, _) =>
    case DoCancelDeletion(_, _) => LatestCorrect(a.requests, {PendingConfirmation, Confirmed});
    case DoBeginDeletion(request, _, _, _) => assert request < |a.requests| ==> !Live(a.requests[request]);
    case DoErase(request, _, _, _, _) => assert request < |a.requests| ==> !Live(a.requests[request]);
  }

  lemma {:induction false} ErasedStays(a: Account, steps: seq<Step>, substitute: Substitute)
    requires IsErased(a, substitute) && LeftAlone(steps)
    ensures Execute(a, steps) == a
  {
    if steps != [] {
      ErasedStays(a, steps[..|steps| - 1], substitute);
      ErasedStepsOn(a, steps[|steps| - 1], substitute);
    }
  }

  /** In every history: once an erasure has completed a request, the account keeps the substitutes, stays
      deleted and unverified, and no other operation changes anything of it, unless it is registered anew or
      an administrator forces a status. */
  lemma {:induction false} ErasureIsLasting(
      email: string, password: string, before: seq<Step>, request: nat, erased: bool, substitute: Substitute, now: int, after: seq<Step>)
    requires var a := Execute(NewAccount(email, password), before);
             erased && request < |a.requests| && a.requests[request].status == Processing
    requires LeftAlone(after)
    ensures var a := Execute(NewAccount(email, password), before);
            var b := Next(a, DoErase(request, true, erased, substitute, now));
            && IsErased(b, substitute) && Execute(b, after) == b
            && b.requests[request].status == Completed
  {
    NewAccountInv(email, password);
    RunsKeepInv(NewAccount(email, password), before);
    var a := Execute(NewAccount(email, password), before);
    ErasureOutcome(a, request, true, erased, substitute, now);
    var b := Next(a, DoErase(request, true, erased, substitute, now));
    assert Live(a.requests[request]);
    forall i | 0 <= i < |b.requests| ensures !Live(b.requests[i]) {
      assert i != request && Live(a.requests[i]) ==> i == request;
    }
    forall id | id in b.tokens ensures b.tokens[id].usedAt.Some? {
      var i :| 0 <= i < |a.requests| && a.requests[i].token == id;
      assert Live(a.requests[i]) ==> i == request;
    }
    ErasedStays(b, after, substitute);
  }
}
