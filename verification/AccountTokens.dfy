/**
 One account's one-time tokens and deletion requests. A history of the account is a sequence of these
 steps: each is one transaction that locks the rows it changes. The order in which it locks them is not
 modelled: processing a deletion locks the request before the account, cancelling it the other way round.
 A raising operation changes nothing, except a wrong verification code, which is counted.
*/
module AccountTokens {
  import opened Common

  type TokenId = nat

  const VERIFICATION_ATTEMPT_LIMIT: nat := 5
  const RESEND_COOLDOWN_SECONDS := 60
  const VERIFICATION_TTL := 600
  const RESET_TTL := 3600
  const EMAIL_CHANGE_TTL := 3600
  const DELETION_TTL := 86400

  datatype Kind = EmailVerification | PasswordReset | EmailChange | AccountDeletion

  /** A code is digested together with its account, a link token on its own. Digests never collide here. */
  datatype Digest = CodeDigest(code: string) | LinkDigest(raw: string)

  datatype Token = Token(
    kind: Kind,
    digest: Digest,
    attempts: nat,
    newEmail: string,
    usedAt: Option<int>,
    expiresAt: int,
    createdAt: int)

  datatype RequestStatus = PendingConfirmation | Confirmed | Processing | Completed | Cancelled

  datatype DeletionRequest = DeletionRequest(token: TokenId, status: RequestStatus)

  datatype UserStatus = Active | Suspended | Deleted

  datatype Event =
    | Verified(token: TokenId, at: int)
    | WrongGuess(token: TokenId, at: int)

  /** `requests` is ordered by the time of the request. */
  datatype Account = Account(
    status: UserStatus,
    email: string,
    password: string,
    verified: bool,
    tokens: Tokens,
    requests: seq<DeletionRequest>,
    nextToken: TokenId,
    log: seq<Event>)

  datatype Snapshot = Snapshot(email: string, password: string)

  datatype FailureReason = Invalid | UsedUp | Expired | AttemptsExceeded

  datatype Error = TokenError(reason: FailureReason) | StateError | DuplicateDigest

  datatype Outcome<+T> = Outcome(account: Account, reply: Result<T, Error>)

  // ---------------------------------------------------------------- tokens

  predicate IsUsable(t: Token, now: int) {
    t.usedAt.None? && t.expiresAt > now
  }

  type Tokens = map<TokenId, Token>

  predicate Unused(tokens: Tokens, id: TokenId, kind: Kind) {
    id in tokens && tokens[id].kind == kind && tokens[id].usedAt.None?
  }

  function Spend(t: Token, now: int): Token {
    if t.usedAt.None? then t.(usedAt := Some(now)) else t
  }

  function SpendKind(tokens: Tokens, kind: Kind, now: int): Tokens {
    map id | id in tokens :: if tokens[id].kind == kind then Spend(tokens[id], now) else tokens[id]
  }

  function SpendAll(tokens: Tokens, now: int): Tokens {
    map id | id in tokens :: Spend(tokens[id], now)
  }

  predicate DigestTaken(a: Account, digest: Digest) {
    exists id :: id in a.tokens && a.tokens[id].digest == digest
  }

  /** Revokes the kind's unused tokens and creates a fresh one; the digest column is unique. */
  function Issue(a: Account, kind: Kind, lifetime: int, digest: Digest, newEmail: string, now: int): Outcome<TokenId> {
    if DigestTaken(a, digest) then Outcome(a, Err(DuplicateDigest))
    else
      var token := Token(kind, digest, 0, newEmail, None, now + lifetime, now);
      Outcome(a.(tokens := SpendKind(a.tokens, kind, now)[a.nextToken := token], nextToken := a.nextToken + 1),
              Ok(a.nextToken))
  }

  ghost function UnusedToken(a: Account, kind: Kind): Option<TokenId> {
    if exists id :: Unused(a.tokens, id, kind)
    then
      var id :| Unused(a.tokens, id, kind);
      Some(id)
    else None
  }

  ghost function TokenOf(a: Account, digest: Digest, kind: Kind): Option<TokenId> {
    if exists id :: id in a.tokens && a.tokens[id].digest == digest && a.tokens[id].kind == kind
    then
      var id :| id in a.tokens && a.tokens[id].digest == digest && a.tokens[id].kind == kind;
      Some(id)
    else None
  }

  ghost function GetUsable(a: Account, raw: string, kind: Kind, now: int): Result<TokenId, Error> {
    match TokenOf(a, LinkDigest(raw), kind)
    case None => Err(TokenError(Invalid))
    case Some(id) =>
      if IsUsable(a.tokens[id], now) then Ok(id)
      else Err(TokenError(if a.tokens[id].usedAt.Some? then UsedUp else Expired))
  }

  // ---------------------------------------------------------------- verification codes

  predicate OnCooldown(a: Account, now: int) {
    exists id :: id in a.tokens && a.tokens[id].kind == EmailVerification
                 && now - a.tokens[id].createdAt < RESEND_COOLDOWN_SECONDS
  }

  function Resend(a: Account, code: string, now: int): Outcome<Option<TokenId>> {
    if a.status != Active || a.verified || OnCooldown(a, now) then Outcome(a, Ok(None))
    else
      var issued := Issue(a, EmailVerification, VERIFICATION_TTL, CodeDigest(code), "", now);
      match issued.reply
      case Ok(id) => Outcome(issued.account, Ok(Some(id)))
      case Err(e) => Outcome(a, Err(e))
  }

  ghost function WhyCodeFailed(a: Account, code: string, now: int): FailureReason {
    match TokenOf(a, CodeDigest(code), EmailVerification)
    case None => Invalid
    case Some(id) =>
      var t := a.tokens[id];
      if t.usedAt.Some? then (if t.attempts >= VERIFICATION_ATTEMPT_LIMIT then AttemptsExceeded else UsedUp)
      else if t.expiresAt <= now then Expired
      else Invalid
  }

  function Missed(t: Token, now: int): Token {
    t.(attempts := t.attempts + 1,
       usedAt := if t.attempts + 1 >= VERIFICATION_ATTEMPT_LIMIT then Some(now) else t.usedAt)
  }

  ghost function Verify(a: Account, code: string, now: int): Outcome<()> {
    var active := UnusedToken(a, EmailVerification);
    if active.None? || !IsUsable(a.tokens[active.value], now) then
      Outcome(a, Err(TokenError(WhyCodeFailed(a, code, now))))
    else
      var id := active.value;
      if a.tokens[id].digest == CodeDigest(code) then
        Outcome(a.(verified := true,
                   tokens := a.tokens[id := a.tokens[id].(usedAt := Some(now))],
                   log := a.log + [Verified(id, now)]),
                Ok(()))
      else
        var counted := a.(tokens := a.tokens[id := Missed(a.tokens[id], now)], log := a.log + [WrongGuess(id, now)]);
        Outcome(counted, Err(TokenError(WhyCodeFailed(counted, code, now))))
  }

  // ---------------------------------------------------------------- passwords and email addresses

  predicate IsCurrent(a: Account, seen: Snapshot) {
    a.status == Active && a.password == seen.password && a.email == seen.email
  }

  function RequestReset(a: Account, raw: string, now: int): Outcome<Option<TokenId>> {
    if a.status != Active || !a.verified then Outcome(a, Ok(None))
    else
      var issued := Issue(a, PasswordReset, RESET_TTL, LinkDigest(raw), "", now);
      match issued.reply
      case Ok(id) => Outcome(issued.account, Ok(Some(id)))
      case Err(e) => Outcome(a, Err(e))
  }

  ghost function ConfirmReset(a: Account, raw: string, newPassword: string, now: int): Outcome<()> {
    match GetUsable(a, raw, PasswordReset, now)
    case Err(e) => Outcome(a, Err(e))
    case Ok(id) => Outcome(a.(password := newPassword, tokens := SpendAll(a.tokens, now)), Ok(()))
  }

  /** `taken`: another account already has the address. */
  function RequestEmailChange(a: Account, seen: Snapshot, newEmail: string, taken: bool, raw: string, now: int): Outcome<TokenId> {
    if !IsCurrent(a, seen) || taken then Outcome(a, Err(StateError))
    else Issue(a, EmailChange, EMAIL_CHANGE_TTL, LinkDigest(raw), newEmail, now)
  }

  ghost function ConfirmEmailChange(a: Account, raw: string, taken: bool, now: int): Outcome<()> {
    match GetUsable(a, raw, EmailChange, now)
    case Err(e) => Outcome(a, Err(e))
    case Ok(id) =>
      if a.tokens[id].newEmail == "" then Outcome(a, Err(TokenError(Invalid)))
      else if taken then Outcome(a, Err(StateError))
      else Outcome(a.(email := a.tokens[id].newEmail, verified := true, tokens := SpendAll(a.tokens, now)), Ok(()))
  }

  function ChangePassword(a: Account, seen: Snapshot, newPassword: string, now: int): Outcome<()> {
    if !IsCurrent(a, seen) then Outcome(a, Err(StateError))
    else Outcome(a.(password := newPassword, tokens := SpendAll(a.tokens, now)), Ok(()))
  }

  function SetStatus(a: Account, status: UserStatus): Outcome<()> {
    if status == Deleted || a.status == Deleted then Outcome(a, Err(StateError))
    else Outcome(a.(status := status), Ok(()))
  }

  /** The administrator's own form sets any status whatever. */
  function ForceStatus(a: Account, allowed: bool, status: UserStatus): Outcome<()> {
    if !allowed then Outcome(a, Err(StateError)) else Outcome(a.(status := status), Ok(()))
  }

  // ---------------------------------------------------------------- deletion requests

  function LatestWith(requests: seq<DeletionRequest>, wanted: set<RequestStatus>): Option<nat> {
    if requests == [] then None
    else if requests[|requests| - 1].status in wanted then Some(|requests| - 1)
    else LatestWith(requests[..|requests| - 1], wanted)
  }

  const NOT_CANCELLED := {PendingConfirmation, Confirmed, Processing, Completed}

  function CancelPending(requests: seq<DeletionRequest>): (r: seq<DeletionRequest>)
    ensures |r| == |requests|
    ensures forall i :: 0 <= i < |r| ==>
              r[i] == if requests[i].status == PendingConfirmation then requests[i].(status := Cancelled) else requests[i]
  {
    seq(|requests|, i requires 0 <= i < |requests| =>
      if requests[i].status == PendingConfirmation then requests[i].(status := Cancelled) else requests[i])
  }

  function RequestDeletion(a: Account, seen: Snapshot, raw: string, now: int): Outcome<TokenId> {
    if !IsCurrent(a, seen) then Outcome(a, Err(StateError))
    else
      var existing := LatestWith(a.requests, NOT_CANCELLED);
      if existing.Some? && existing.value < |a.requests| && a.requests[existing.value].status in {Confirmed, Processing}
      then Outcome(a, Err(StateError))
      else
        var issued := Issue(a, AccountDeletion, DELETION_TTL, LinkDigest(raw), "", now);
        match issued.reply
        case Err(e) => Outcome(a, Err(e))
        case Ok(id) =>
          var b := issued.account;
          Outcome(b.(requests := CancelPending(b.requests) + [DeletionRequest(id, PendingConfirmation)]), Ok(id))
  }

  ghost function RequestFor(a: Account, id: TokenId, status: RequestStatus): Option<nat> {
    if exists i :: 0 <= i < |a.requests| && a.requests[i] == DeletionRequest(id, status)
    then
      var i: nat :| 0 <= i < |a.requests| && a.requests[i] == DeletionRequest(id, status);
      Some(i)
    else None
  }

  ghost function ConfirmDeletion(a: Account, raw: string, now: int): Outcome<()> {
    match GetUsable(a, raw, AccountDeletion, now)
    case Err(e) => Outcome(a, Err(e))
    case Ok(id) =>
      var found := RequestFor(a, id, PendingConfirmation);
      if found.None? then Outcome(a, Err(TokenError(Invalid)))
      else Outcome(a.(requests := a.requests[found.value := DeletionRequest(id, Confirmed)],
                      tokens := a.tokens[id := a.tokens[id].(usedAt := Some(now))]),
                   Ok(()))
  }

  function CancelDeletion(a: Account, seen: Snapshot, now: int): Outcome<()> {
    if !IsCurrent(a, seen) then Outcome(a, Err(StateError))
    else
      var found := LatestWith(a.requests, {PendingConfirmation, Confirmed});
      if found.None? || found.value >= |a.requests| then Outcome(a, Err(StateError))
      else
        var id := a.requests[found.value].token;
        Outcome(a.(requests := a.requests[found.value := DeletionRequest(id, Cancelled)],
                   tokens := if id in a.tokens then a.tokens[id := Spend(a.tokens[id], now)] else a.tokens),
                Ok(()))
  }

  /** `approved`: an active administrator, a policy, a reason and an expiry. `blocked`: shared content
      or administrator responsibilities remain. */
  function BeginDeletion(a: Account, request: nat, approved: bool, blocked: bool, now: int): Outcome<()> {
    if !approved || request >= |a.requests| then Outcome(a, Err(StateError))
    else if a.requests[request].status == Completed then Outcome(a, Ok(()))
    else if a.requests[request].status !in {Confirmed, Processing} || blocked then Outcome(a, Err(StateError))
    else Outcome(a.(requests := a.requests[request := a.requests[request].(status := Processing)],
                    status := Suspended,
                    tokens := SpendAll(a.tokens, now)),
                 Ok(()))
  }

  predicate HasRequest(requests: seq<DeletionRequest>, id: TokenId) {
    exists i :: 0 <= i < |requests| && requests[i].token == id
  }

  function Evidence(tokens: Tokens, requests: seq<DeletionRequest>): Tokens {
    map id | id in tokens && HasRequest(requests, id) :: tokens[id].(attempts := 0, newEmail := "")
  }

  /** What is stored in place of the identity: an address that cannot be reached, and a password no text matches. */
  datatype Substitute = Substitute(email: string, password: string)

  /** `erased`: every selected record and file could be removed. Only confirmation tokens stay, as evidence. */
  function Erase(a: Account, request: nat, approved: bool, erased: bool, substitute: Substitute): Outcome<()> {
    if !approved || request >= |a.requests| then Outcome(a, Err(StateError))
    else if a.requests[request].status == Completed then Outcome(a, Ok(()))
    else if a.requests[request].status != Processing || !erased then Outcome(a, Err(StateError))
    else Outcome(a.(requests := a.requests[request := a.requests[request].(status := Completed)],
                    status := Deleted,
                    email := substitute.email,
                    password := substitute.password,
                    verified := false,
                    tokens := Evidence(a.tokens, a.requests)),
                 Ok(()))
  }

  // ---------------------------------------------------------------- histories

  datatype Step =
    | DoRegister(code: string, now: int)
    | DoResend(code: string, now: int)
    | DoVerify(code: string, now: int)
    | DoRequestReset(raw: string, now: int)
    | DoConfirmReset(raw: string, newPassword: string, now: int)
    | DoRequestEmailChange(seen: Snapshot, newEmail: string, taken: bool, raw: string, now: int)
    | DoConfirmEmailChange(raw: string, taken: bool, now: int)
    | DoChangePassword(seen: Snapshot, newPassword: string, now: int)
    | DoSetStatus(status: UserStatus, now: int)
    | DoForceStatus(allowed: bool, status: UserStatus, now: int)
    | DoRequestDeletion(seen: Snapshot, raw: string, now: int)
    | DoConfirmDeletion(raw: string, now: int)
    | DoCancelDeletion(seen: Snapshot, now: int)
    | DoBeginDeletion(request: nat, approved: bool, blocked: bool, now: int)
    | DoErase(request: nat, approved: bool, erased: bool, substitute: Substitute, now: int)

  ghost function Next(a: Account, step: Step): Account {
    match step
    case DoRegister(code, now) => Issue(a, EmailVerification, VERIFICATION_TTL, CodeDigest(code), "", now).account
    case DoResend(code, now) => Resend(a, code, now).account
    case DoVerify(code, now) => Verify(a, code, now).account
    case DoRequestReset(raw, now) => RequestReset(a, raw, now).account
    case DoConfirmReset(raw, newPassword, now) => ConfirmReset(a, raw, newPassword, now).account
    case DoRequestEmailChange(seen, newEmail, taken, raw, now) => RequestEmailChange(a, seen, newEmail, taken, raw, now).account
    case DoConfirmEmailChange(raw, taken, now) => ConfirmEmailChange(a, raw, taken, now).account
    case DoChangePassword(seen, newPassword, now) => ChangePassword(a, seen, newPassword, now).account
    case DoSetStatus(status, _) => SetStatus(a, status).account
    case DoForceStatus(allowed, status, _) => ForceStatus(a, allowed, status).account
    case DoRequestDeletion(seen, raw, now) => RequestDeletion(a, seen, raw, now).account
    case DoConfirmDeletion(raw, now) => ConfirmDeletion(a, raw, now).account
    case DoCancelDeletion(seen, now) => CancelDeletion(a, seen, now).account
    case DoBeginDeletion(request, approved, blocked, now) => BeginDeletion(a, request, approved, blocked, now).account
    case DoErase(request, approved, erased, substitute, _) => Erase(a, request, approved, erased, substitute).account
  }

  ghost function Execute(a: Account, steps: seq<Step>): Account {
    if steps == [] then a else Next(Execute(a, steps[..|steps| - 1]), steps[|steps| - 1])
  }

  /** A newly created account, before its first code is issued. */
  function NewAccount(email: string, password: string): Account {
    Account(Active, email, password, false, map[], [], 0, [])
  }

  // ---------------------------------------------------------------- the invariant

  function Successes(log: seq<Event>, id: TokenId): nat {
    if log == [] then 0
    else Successes(log[..|log| - 1], id) + (if log[|log| - 1].Verified? && log[|log| - 1].token == id then 1 else 0)
  }

  function Guesses(log: seq<Event>, id: TokenId): nat {
    if log == [] then 0
    else Guesses(log[..|log| - 1], id) + (if log[|log| - 1].WrongGuess? && log[|log| - 1].token == id then 1 else 0)
  }

  ghost predicate TokenOk(tokens: Tokens, log: seq<Event>, nextToken: TokenId, id: TokenId) {
    && (id in tokens ==> id < nextToken)
    && (Unused(tokens, id, EmailVerification) ==>
          Guesses(log, id) < VERIFICATION_ATTEMPT_LIMIT && Successes(log, id) == 0)
    && (id in tokens && tokens[id].kind == EmailVerification ==>
          tokens[id].attempts == Guesses(log, id) && tokens[id].digest.CodeDigest?)
    && Guesses(log, id) <= VERIFICATION_ATTEMPT_LIMIT
    && Successes(log, id) <= 1
    && (Successes(log, id) == 1 ==> Guesses(log, id) < VERIFICATION_ATTEMPT_LIMIT)
    && (id >= nextToken ==> Guesses(log, id) == 0 && Successes(log, id) == 0)
  }

  ghost predicate DigestsUnique(tokens: Tokens) {
    forall i, j :: i in tokens && j in tokens && tokens[i].digest == tokens[j].digest ==> i == j
  }

  ghost predicate OneUnusedPerKind(tokens: Tokens) {
    forall i, j, kind :: Unused(tokens, i, kind) && Unused(tokens, j, kind) ==> i == j
  }

  ghost predicate TokensInv(tokens: Tokens, log: seq<Event>, nextToken: TokenId) {
    (forall id :: TokenOk(tokens, log, nextToken, id)) && DigestsUnique(tokens) && OneUnusedPerKind(tokens)
  }

  predicate Live(r: DeletionRequest) {
    r.status == PendingConfirmation || r.status == Confirmed || r.status == Processing
  }

  ghost predicate OneLiveRequest(requests: seq<DeletionRequest>) {
    forall i, j :: 0 <= i < |requests| && 0 <= j < |requests| && Live(requests[i]) && Live(requests[j]) ==> i == j
  }

  /** Each request has a confirmation token of its own, spent once the request has left its pending state. */
  ghost predicate RequestsBacked(tokens: Tokens, requests: seq<DeletionRequest>) {
    && (forall i :: 0 <= i < |requests| ==>
          requests[i].token in tokens && tokens[requests[i].token].kind == AccountDeletion)
    && (forall i, j :: 0 <= i < j < |requests| ==> requests[i].token != requests[j].token)
    && (forall i :: 0 <= i < |requests| && requests[i].status != PendingConfirmation ==>
          tokens[requests[i].token].usedAt.Some?)
  }

  ghost predicate PendingFor(requests: seq<DeletionRequest>, id: TokenId) {
    exists i :: 0 <= i < |requests| && requests[i] == DeletionRequest(id, PendingConfirmation)
  }

  /** Every unused deletion token confirms a pending request. */
  ghost predicate DeletionTokensBacked(tokens: Tokens, requests: seq<DeletionRequest>) {
    forall id :: Unused(tokens, id, AccountDeletion) ==> PendingFor(requests, id)
  }

  /** After a live request come only cancelled ones. */
  ghost predicate LiveIsLatest(requests: seq<DeletionRequest>) {
    forall i, j :: 0 <= i < j < |requests| && Live(requests[i]) ==> requests[j].status == Cancelled
  }

  /** A completed request means a deleted account, and a deleted account has nothing live: true as long
      as no administrator forces a status. */
  ghost predicate StatusAgrees(status: UserStatus, requests: seq<DeletionRequest>) {
    forall i :: 0 <= i < |requests| ==>
      (requests[i].status == Completed ==> status == Deleted) && (status == Deleted ==> !Live(requests[i]))
  }

  ghost predicate RequestsInv(tokens: Tokens, requests: seq<DeletionRequest>) {
    && OneLiveRequest(requests) && LiveIsLatest(requests)
    && RequestsBacked(tokens, requests) && DeletionTokensBacked(tokens, requests)
  }

  ghost predicate Inv(a: Account) {
    TokensInv(a.tokens, a.log, a.nextToken) && RequestsInv(a.tokens, a.requests)
  }
}
