/**
 The account services as they run: token, request and profile fields updated in place under the
 account lock. Each method is proved to do exactly what the step model says, so every result about
 histories holds of any sequence of calls.
*/
module AccountDesk {
  import opened Common
  import opened AccountTokens
  import opened AccountTokenRuns

  class Desk {
    var status: UserStatus
    var email: string
    var password: string
    var verified: bool
    var tokens: Tokens
    var requests: seq<DeletionRequest>
    var nextToken: TokenId
    ghost var log: seq<Event>

    constructor (email: string, password: string)
      ensures State() == NewAccount(email, password) && Inv(State())
    {
      this.email, this.password, status, verified := email, password, Active, false;
      tokens, requests, nextToken, log := map[], [], 0, [];
    }

    ghost function State(): Account
      reads this
    {
      Account(status, email, password, verified, tokens, requests, nextToken, log)
    }

    method RevokeKind(kind: Kind, now: int)
      modifies this`tokens
      ensures tokens == SpendKind(old(tokens), kind, now)
    {
      tokens := map x | x in tokens :: if tokens[x].kind == kind && tokens[x].usedAt.None?
                                       then tokens[x].(usedAt := Some(now)) else tokens[x];
    }

    method IssueToken(kind: Kind, lifetime: int, digest: Digest, newEmail: string, now: int)
        returns (reply: Result<TokenId, Error>)
      modifies this`tokens, this`nextToken
      ensures Outcome(State(), reply) == Issue(old(State()), kind, lifetime, digest, newEmail, now)
    {
      if exists id :: id in tokens && tokens[id].digest == digest { return Err(DuplicateDigest); }
      var id := nextToken;
      RevokeKind(kind, now);
      tokens := tokens[id := Token(kind, digest, 0, newEmail, None, now + lifetime, now)];
      nextToken := nextToken + 1;
      reply := Ok(id);
    }

    method ResendVerification(code: string, now: int) returns (reply: Result<Option<TokenId>, Error>)
      modifies this`tokens, this`nextToken
      ensures Outcome(State(), reply) == Resend(old(State()), code, now)
    {
      if status != Active || verified { return Ok(None); }
      if exists id :: id in tokens && tokens[id].kind == EmailVerification
                      && now - tokens[id].createdAt < RESEND_COOLDOWN_SECONDS { return Ok(None); }
      var issued := IssueToken(EmailVerification, VERIFICATION_TTL, CodeDigest(code), "", now);
      match issued
      case Ok(id) => reply := Ok(Some(id));
      case Err(e) => reply := Err(e);
    }

    /** The kind's unused token, of which there is at most one. */
    method FindUnused(kind: Kind) returns (found: Option<TokenId>)
      requires Inv(State())
      ensures found == UnusedToken(State(), kind)
    {
      found := None;
      var left := tokens.Keys;
      while left != {}
        invariant left <= tokens.Keys
        invariant found.Some? ==> Unused(tokens, found.value, kind)
        invariant found.None? ==> forall id :: Unused(tokens, id, kind) ==> id in left
        decreases left
      {
        var id :| id in left;
        if Unused(tokens, id, kind) { found := Some(id); }
        left := left - {id};
      }
    }

    method FindToken(digest: Digest, kind: Kind) returns (found: Option<TokenId>)
      requires Inv(State())
      ensures found == TokenOf(State(), digest, kind)
    {
      found := None;
      var left := tokens.Keys;
      while left != {}
        invariant left <= tokens.Keys
        invariant found.Some? ==> found.value in tokens && tokens[found.value].digest == digest && tokens[found.value].kind == kind
        invariant found.None? ==> forall id :: id in tokens && tokens[id].digest == digest && tokens[id].kind == kind ==> id in left
        decreases left
      {
        var id :| id in left;
        if tokens[id].digest == digest && tokens[id].kind == kind { found := Some(id); }
        left := left - {id};
      }
    }

    method GetUsableToken(raw: string, kind: Kind, now: int) returns (reply: Result<TokenId, Error>)
      requires Inv(State())
      ensures reply == GetUsable(State(), raw, kind, now)
    {
      var found := FindToken(LinkDigest(raw), kind);
      if found.None? { return Err(TokenError(Invalid)); }
      if IsUsable(tokens[found.value], now) { return Ok(found.value); }
      reply := Err(TokenError(if tokens[found.value].usedAt.Some? then UsedUp else Expired));
    }

    method FailureReasonOf(code: string, now: int) returns (reason: FailureReason)
      requires Inv(State())
      ensures reason == WhyCodeFailed(State(), code, now)
    {
      var issued := FindToken(CodeDigest(code), EmailVerification);
      if issued.None? { return Invalid; }
      var t := tokens[issued.value];
      if t.usedAt.Some? {
        if t.attempts >= VERIFICATION_ATTEMPT_LIMIT { return AttemptsExceeded; }
        return UsedUp;
      }
      if t.expiresAt <= now { return Expired; }
      return Invalid;
    }

    /** A wrong guess is committed before the failure is raised, so it stays counted. */
    method VerifyEmailCode(code: string, now: int) returns (reply: Result<(), Error>)
      requires Inv(State())
      modifies this`tokens, this`verified, this`log
      ensures Outcome(State(), reply) == Verify(old(State()), code, now)
      ensures Inv(State())
    {
      VerifyKeepsInv(State(), code, now);
      var active := FindUnused(EmailVerification);
      var usable := active.Some? && IsUsable(tokens[active.value], now);
      if usable && tokens[active.value].digest == CodeDigest(code) {
        verified := true;
        tokens := tokens[active.value := tokens[active.value].(usedAt := Some(now))];
        log := log + [Verified(active.value, now)];
        return Ok(());
      }
      if usable {
        var attempts := tokens[active.value].attempts + 1;
        var token := tokens[active.value].(attempts := attempts);
        if attempts >= VERIFICATION_ATTEMPT_LIMIT { token := token.(usedAt := Some(now)); }
        tokens := tokens[active.value := token];
        log := log + [WrongGuess(active.value, now)];
      }
      var reason := FailureReasonOf(code, now);
      reply := Err(TokenError(reason));
    }

    method RevokeAllTokens(now: int)
      modifies this`tokens
      ensures tokens == SpendAll(old(tokens), now)
    {
      tokens := map x | x in tokens :: if tokens[x].usedAt.None? then tokens[x].(usedAt := Some(now)) else tokens[x];
    }

    /** The confirmed token is spent first and then every other unused one. */
    method ConfirmPasswordReset(raw: string, newPassword: string, now: int) returns (reply: Result<(), Error>)
      requires Inv(State())
      modifies this`tokens, this`password
      ensures Outcome(State(), reply) == ConfirmReset(old(State()), raw, newPassword, now)
    {
      var token := GetUsableToken(raw, PasswordReset, now);
      if token.Err? { return Err(token.error); }
      password := newPassword;
      tokens := tokens[token.value := tokens[token.value].(usedAt := Some(now))];
      RevokeAllTokens(now);
      reply := Ok(());
    }

    method ConfirmNewEmail(raw: string, taken: bool, now: int) returns (reply: Result<(), Error>)
      requires Inv(State())
      modifies this`tokens, this`email, this`verified
      ensures Outcome(State(), reply) == ConfirmEmailChange(old(State()), raw, taken, now)
    {
      var token := GetUsableToken(raw, EmailChange, now);
      if token.Err? { return Err(token.error); }
      var newEmail := tokens[token.value].newEmail;
      if newEmail == "" { return Err(TokenError(Invalid)); }
      if taken { return Err(StateError); }
      email := newEmail;
      verified := true;
      tokens := tokens[token.value := tokens[token.value].(usedAt := Some(now))];
      RevokeAllTokens(now);
      reply := Ok(());
    }

    method ChangeOwnPassword(seen: Snapshot, newPassword: string, now: int) returns (reply: Result<(), Error>)
      modifies this`tokens, this`password
      ensures Outcome(State(), reply) == ChangePassword(old(State()), seen, newPassword, now)
    {
      if status != Active || password != seen.password || email != seen.email { return Err(StateError); }
      password := newPassword;
      RevokeAllTokens(now);
      reply := Ok(());
    }

    method ChangeUserStatus(allowed: bool, wanted: UserStatus) returns (reply: Result<(), Error>)
      modifies this`status
      ensures Outcome(State(), reply) == ForceStatus(old(State()), allowed, wanted)
      ensures old(Inv(State())) ==> Inv(State())
    {
      if !allowed { return Err(StateError); }
      status := wanted;
      reply := Ok(());
    }

    /** The newest request in one of the wanted states. */
    method FindLatest(wanted: set<RequestStatus>) returns (found: Option<nat>)
      ensures found == LatestWith(requests, wanted)
    {
      assert requests[..|requests|] == requests;
      for i := |requests| downto 0
        invariant LatestWith(requests, wanted) == LatestWith(requests[..i], wanted)
      {
        assert requests[..i + 1][..i] == requests[..i];
        if requests[i].status in wanted { return Some(i); }
      }
      found := None;
    }

    method CancelPendingRequests()
      modifies this`requests
      ensures requests == CancelPending(old(requests))
    {
      for i := 0 to |requests|
        invariant |requests| == |old(requests)|
        invariant forall j :: 0 <= j < i ==> requests[j] == CancelPending(old(requests))[j]
        invariant forall j :: i <= j < |requests| ==> requests[j] == old(requests)[j]
      {
        if requests[i].status == PendingConfirmation {
          requests := requests[i := requests[i].(status := Cancelled)];
        }
      }
    }

    method RequestAccountDeletion(seen: Snapshot, raw: string, now: int) returns (reply: Result<TokenId, Error>)
      requires Inv(State())
      modifies this`tokens, this`requests, this`nextToken
      ensures Outcome(State(), reply) == RequestDeletion(old(State()), seen, raw, now)
      ensures Inv(State())
    {
      RequestDeletionKeepsInv(State(), seen, raw, now);
      if status != Active || password != seen.password || email != seen.email { return Err(StateError); }
      var existing := FindLatest(NOT_CANCELLED);
      LatestCorrect(requests, NOT_CANCELLED);
      if existing.Some? && requests[existing.value].status in {Confirmed, Processing} { return Err(StateError); }
      reply := IssueToken(AccountDeletion, DELETION_TTL, LinkDigest(raw), "", now);
      if reply.Err? { return; }
      CancelPendingRequests();
      requests := requests + [DeletionRequest(reply.value, PendingConfirmation)];
    }

    method ConfirmAccountDeletion(raw: string, now: int) returns (reply: Result<(), Error>)
      requires Inv(State())
      modifies this`tokens, this`requests
      ensures Outcome(State(), reply) == ConfirmDeletion(old(State()), raw, now)
      ensures Inv(State())
    {
      ConfirmDeletionKeepsInv(State(), raw, now);
      var token := GetUsableToken(raw, AccountDeletion, now);
      if token.Err? { return Err(token.error); }
      var id := token.value;
      for i := 0 to |requests|
        invariant forall j :: 0 <= j < i ==> requests[j] != DeletionRequest(id, PendingConfirmation)
      {
        if requests[i] == DeletionRequest(id, PendingConfirmation) {
          assert RequestFor(State(), id, PendingConfirmation) == Some(i);
          requests := requests[i := requests[i].(status := Confirmed)];
          tokens := tokens[id := tokens[id].(usedAt := Some(now))];
          return Ok(());
        }
      }
      reply := Err(TokenError(Invalid));
    }

    method CancelAccountDeletion(seen: Snapshot, now: int) returns (reply: Result<(), Error>)
      requires Inv(State())
      modifies this`tokens, this`requests
      ensures Outcome(State(), reply) == CancelDeletion(old(State()), seen, now)
      ensures Inv(State())
    {
      CancelDeletionKeepsInv(State(), seen, now);
      if status != Active || password != seen.password || email != seen.email { return Err(StateError); }
      var found := FindLatest({PendingConfirmation, Confirmed});
      LatestCorrect(requests, {PendingConfirmation, Confirmed});
      if found.None? { return Err(StateError); }
      var id := requests[found.value].token;
      requests := requests[found.value := requests[found.value].(status := Cancelled)];
      if id in tokens && tokens[id].usedAt.None? {
        tokens := tokens[id := tokens[id].(usedAt := Some(now))];
      } else {
        assert tokens[id := tokens[id]] == tokens;
      }
      reply := Ok(());
    }

    method BeginErasure(request: nat, approved: bool, blocked: bool, now: int) returns (reply: Result<(), Error>)
      requires Inv(State())
      modifies this`tokens, this`requests, this`status
      ensures Outcome(State(), reply) == BeginDeletion(old(State()), request, approved, blocked, now)
      ensures Inv(State())
    {
      BeginDeletionKeepsInv(State(), request, approved, blocked, now);
      if !approved || request >= |requests| { return Err(StateError); }
      if requests[request].status == Completed { return Ok(()); }
      if requests[request].status !in {Confirmed, Processing} { return Err(StateError); }
      if blocked { return Err(StateError); }
      requests := requests[request := requests[request].(status := Processing)];
      status := Suspended;
      RevokeAllTokens(now);
      reply := Ok(());
    }

    /** Deletes every token no request refers to, then empties the payload of the rest. */
    method KeepEvidenceTokens()
      modifies this`tokens
      ensures tokens == Evidence(old(tokens), requests)
    {
      tokens := map x | x in tokens && exists i :: 0 <= i < |requests| && requests[i].token == x :: tokens[x];
      tokens := map x | x in tokens :: tokens[x].(attempts := 0, newEmail := "");
    }

    method CompleteErasure(request: nat, approved: bool, erased: bool, substitute: Substitute) returns (reply: Result<(), Error>)
      requires Inv(State())
      modifies this`tokens, this`requests, this`status, this`email, this`password, this`verified
      ensures Outcome(State(), reply) == Erase(old(State()), request, approved, erased, substitute)
      ensures Inv(State())
    {
      EraseKeepsInv(State(), request, approved, erased, substitute);
      if !approved || request >= |requests| { return Err(StateError); }
      if requests[request].status == Completed { return Ok(()); }
      if requests[request].status != Processing || !erased { return Err(StateError); }
      KeepEvidenceTokens();
      email := substitute.email;
      password := substitute.password;
      verified := false;
      status := Deleted;
      requests := requests[request := requests[request].(status := Completed)];
      reply := Ok(());
    }
  }
}
