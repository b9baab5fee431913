/**
 The assessment attempt state machine: start, autosave, resume position, submit and refresh,
 each one atomic transaction. A call that raises leaves the store as it was, also when it had
 finalised a late attempt before raising.
*/
module AssessmentAttempts {
  import opened Common
  import opened AttemptScoring

  type AttemptId = nat
  type UserId = nat
  type QuizId = nat
  type Key = nat

  datatype Difficulty = Easy | Medium | Hard

  datatype Mode = QuizMode | Practice | Mastery

  datatype Version = Version(
    mode: Mode,
    fixedSelection: bool,
    questionCount: nat,
    duration: nat,
    maximumAttempts: nat,
    availableFrom: Option<int>,
    availableUntil: Option<int>,
    passPercent: nat,
    allowed: set<Difficulty>)

  /** A published question as it is copied into an attempt. */
  datatype QuestionVersion = QuestionVersion(multipleSelect: bool, options: set<OptionId>, correct: set<OptionId>)

  datatype Status = Active | Submitted | Expired

  datatype Attempt = Attempt(
    user: UserId,
    quiz: QuizId,
    version: Version,
    startKey: Key,
    status: Status,
    questions: seq<Question>,
    serverRevision: nat,
    resumePosition: int,
    resumeRevision: nat,
    startedAt: int,
    deadline: Option<int>,
    completedAt: Option<int>)

  datatype Store = Store(
    attempts: map<AttemptId, Attempt>,
    starts: map<(UserId, Key), AttemptId>,
    results: map<AttemptId, AttemptResult>,
    receipts: map<(UserId, Key), AttemptId>,
    nextId: AttemptId)

  const EMPTY := Store(map[], map[], map[], map[], 0)

  /** One question is worth one point, stored in hundredths. */
  const POINTS: nat := 100

  datatype Error = NotFound | Closed | Conflict | NotOpen | RetryLimit | Invalid

  datatype StartRequest = StartRequest(
    user: UserId,
    quiz: QuizId,
    key: Key,
    count: Option<int>,
    difficulties: set<Difficulty>,
    reviewOnly: bool)

  datatype StartReply = StartReply(attempt: AttemptId, resumed: bool)

  datatype Outcome<+T> = Outcome(store: Store, reply: Result<T, Error>)

  predicate IsLate(a: Attempt, now: int) {
    a.deadline.Some? && now >= a.deadline.value
  }

  // ---------------------------------------------------------------- finalisation

  function Finalize(s: Store, id: AttemptId, now: int, expired: bool): Store
    requires id in s.attempts
  {
    if id in s.results then s
    else
      var a := s.attempts[id];
      s.(attempts := s.attempts[id := a.(status := if expired then Expired else Submitted,
                                         completedAt := Some(now),
                                         serverRevision := a.serverRevision + 1)],
         results := s.results[id := Rescore(a.questions, a.version.passPercent, now)])
  }

  // ---------------------------------------------------------------- starting

  predicate IsActiveFor(s: Store, id: AttemptId, u: UserId, q: QuizId) {
    id in s.attempts && s.attempts[id].user == u && s.attempts[id].quiz == q && s.attempts[id].status == Active
  }

  ghost function ActiveFor(s: Store, u: UserId, q: QuizId): Option<AttemptId> {
    if exists id :: IsActiveFor(s, id, u, q)
    then
      var id :| IsActiveFor(s, id, u, q);
      Some(id)
    else None
  }

  function AttemptsOf(s: Store, u: UserId, q: QuizId): set<AttemptId> {
    set id | id in s.attempts && s.attempts[id].user == u && s.attempts[id].quiz == q
  }

  function CompletedOf(s: Store, u: UserId, q: QuizId): set<AttemptId> {
    set id | id in AttemptsOf(s, u, q) && s.attempts[id].status != Active
  }

  predicate IsOpen(v: Version, now: int) {
    && !(v.availableFrom.Some? && now < v.availableFrom.value)
    && !(v.availableUntil.Some? && now >= v.availableUntil.value)
  }

  function Allowed(v: Version): set<Difficulty> {
    if v.allowed == {} then {Easy, Medium, Hard} else v.allowed
  }

  /** The attempt-level filters that the published version permits. */
  predicate RequestAllowed(req: StartRequest, v: Version) {
    if v.mode != Practice then
      req.count.None? && req.difficulties == {} && !req.reviewOnly
    else
      var count := if req.count.None? || req.count.value == 0 then v.questionCount else req.count.value;
      && 1 <= count <= v.questionCount
      && req.difficulties <= Allowed(v)
      && (req.reviewOnly ==> !v.fixedSelection)
  }

  function Snapshot(selected: seq<QuestionVersion>): (qs: seq<Question>)
    ensures |qs| == |selected|
    ensures forall i :: 0 <= i < |qs| ==>
              qs[i] == Question(selected[i].multipleSelect, selected[i].options, selected[i].correct, POINTS, None)
  {
    seq(|selected|, i requires 0 <= i < |selected| =>
      Question(selected[i].multipleSelect, selected[i].options, selected[i].correct, POINTS, None))
  }

  function NewAttempt(req: StartRequest, v: Version, selected: seq<QuestionVersion>, now: int): Attempt {
    Attempt(req.user, req.quiz, v, req.key, Active, Snapshot(selected), 1, 1, 0, now,
            if v.duration > 0 then Some(now + v.duration) else None, None)
  }

  /** `selected` is what question selection produced, or None when it raised. */
  function Create(s: Store, req: StartRequest, v: Version, selected: Option<seq<QuestionVersion>>, now: int): Result<Store, Error> {
    if v.maximumAttempts > 0 && |CompletedOf(s, req.user, req.quiz)| >= v.maximumAttempts then Err(RetryLimit)
    else if !RequestAllowed(req, v) then Err(Invalid)
    else if selected.None? then Err(Invalid)
    else Ok(s.(attempts := s.attempts[s.nextId := NewAttempt(req, v, selected.value, now)],
               starts := s.starts[(req.user, req.key) := s.nextId],
               nextId := s.nextId + 1))
  }

  ghost function Start(
      s: Store, req: StartRequest, published: Option<Version>, selected: Option<seq<QuestionVersion>>, now: int)
    : Outcome<StartReply>
  {
    if (req.user, req.key) in s.starts && s.starts[(req.user, req.key)] in s.attempts then
      var id := s.starts[(req.user, req.key)];
      var a := s.attempts[id];
      if a.quiz != req.quiz then Outcome(s, Err(Conflict))
      else if a.status == Active && IsLate(a, now)
      then Outcome(Finalize(s, id, now, true), Ok(StartReply(id, true)))
      else Outcome(s, Ok(StartReply(id, true)))
    else if published.None? then Outcome(s, Err(NotFound))
    else if !IsOpen(published.value, now) then Outcome(s, Err(NotOpen))
    else
      var active := ActiveFor(s, req.user, req.quiz);
      if active.Some? && !IsLate(s.attempts[active.value], now)
      then Outcome(s, Ok(StartReply(active.value, true)))
      else
        var cleared := if active.Some? then Finalize(s, active.value, now, true) else s;
        match Create(cleared, req, published.value, selected, now)
        case Ok(t) => Outcome(t, Ok(StartReply(s.nextId, false)))
        case Err(e) => Outcome(s, Err(e))
  }

  // ---------------------------------------------------------------- saving

  predicate Unique(xs: seq<OptionId>) {
    forall i, j :: 0 <= i < j < |xs| ==> xs[i] != xs[j]
  }

  predicate Choosable(q: Question, selected: seq<OptionId>) {
    && Unique(selected)
    && (!q.multipleSelect ==> |selected| <= 1)
    && (forall x :: x in selected ==> x in q.options)
  }

  /** Saving into an attempt that is active and in time. */
  function SaveInto(a: Attempt, position: int, selected: seq<OptionId>, revision: nat, now: int): Result<Attempt, Error> {
    if !(1 <= position <= |a.questions|) then Err(NotFound)
    else
      var q := a.questions[position - 1];
      if !Choosable(q, selected) then Err(Invalid)
      else if q.answer.Some? && revision <= q.answer.value.clientRevision then
        if revision == q.answer.value.clientRevision && q.answer.value.selected == selected then Ok(a) else Err(Conflict)
      else
        var answer := Answer(selected, revision, a.serverRevision + 1, now);
        Ok(a.(serverRevision := a.serverRevision + 1,
              questions := a.questions[position - 1 := q.(answer := Some(answer))]))
  }

  /** The checks every save shares; None when the attempt may be written. */
  function Refusal(s: Store, user: UserId, id: AttemptId, now: int): Option<Error> {
    if id !in s.attempts || s.attempts[id].user != user then Some(NotFound)
    else if s.attempts[id].status != Active || IsLate(s.attempts[id], now) then Some(Closed)
    else None
  }

  function Written(s: Store, id: AttemptId, saved: Result<Attempt, Error>): Outcome<Attempt> {
    match saved
    case Ok(a) => Outcome(s.(attempts := s.attempts[id := a]), Ok(a))
    case Err(e) => Outcome(s, Err(e))
  }

  function Save(s: Store, user: UserId, id: AttemptId, position: int, selected: seq<OptionId>, revision: nat, now: int)
    : Outcome<Attempt>
  {
    match Refusal(s, user, id, now)
    case Some(e) => Outcome(s, Err(e))
    case None => Written(s, id, SaveInto(s.attempts[id], position, selected, revision, now))
  }

  function ResumeInto(a: Attempt, position: int, revision: nat): Result<Attempt, Error> {
    if !(1 <= position <= |a.questions|) then Err(NotFound)
    else if revision <= a.resumeRevision then
      if revision == a.resumeRevision && position == a.resumePosition then Ok(a) else Err(Conflict)
    else Ok(a.(resumePosition := position, resumeRevision := revision, serverRevision := a.serverRevision + 1))
  }

  function SaveResume(s: Store, user: UserId, id: AttemptId, position: int, revision: nat, now: int): Outcome<Attempt> {
    match Refusal(s, user, id, now)
    case Some(e) => Outcome(s, Err(e))
    case None => Written(s, id, ResumeInto(s.attempts[id], position, revision))
  }

  // ---------------------------------------------------------------- finishing

  function Submit(s: Store, user: UserId, id: AttemptId, key: Key, now: int): Outcome<AttemptResult> {
    if (user, key) in s.receipts then
      if s.receipts[(user, key)] != id || id !in s.results then Outcome(s, Err(Conflict))
      else Outcome(s, Ok(s.results[id]))
    else if id !in s.attempts || s.attempts[id].user != user then Outcome(s, Err(NotFound))
    else
      var t := if id in s.results then s else Finalize(s, id, now, IsLate(s.attempts[id], now));
      Outcome(t.(receipts := t.receipts[(user, key) := id]), Ok(t.results[id]))
  }

  function Refresh(s: Store, user: UserId, id: AttemptId, now: int): Outcome<Attempt> {
    if id !in s.attempts || s.attempts[id].user != user then Outcome(s, Err(NotFound))
    else if s.attempts[id].status == Active && IsLate(s.attempts[id], now)
    then
      var t := Finalize(s, id, now, true);
      Outcome(t, Ok(t.attempts[id]))
    else Outcome(s, Ok(s.attempts[id]))
  }

  // ---------------------------------------------------------------- runs

  datatype Step =
    | DoStart(request: StartRequest, published: Option<Version>, selection: Option<seq<QuestionVersion>>, now: int)
    | DoSave(user: UserId, id: AttemptId, position: int, selected: seq<OptionId>, revision: nat, now: int)
    | DoResume(user: UserId, id: AttemptId, position: int, revision: nat, now: int)
    | DoSubmit(user: UserId, id: AttemptId, key: Key, now: int)
    | DoRefresh(user: UserId, id: AttemptId, now: int)

  ghost function Next(s: Store, step: Step): Store {
    match step
    case DoStart(req, published, selected, now) => Start(s, req, published, selected, now).store
    case DoSave(user, id, position, selected, revision, now) => Save(s, user, id, position, selected, revision, now).store
    case DoResume(user, id, position, revision, now) => SaveResume(s, user, id, position, revision, now).store
    case DoSubmit(user, id, key, now) => Submit(s, user, id, key, now).store
    case DoRefresh(user, id, now) => Refresh(s, user, id, now).store
  }

  ghost function Execute(s: Store, steps: seq<Step>): Store {
    if steps == [] then s else Next(Execute(s, steps[..|steps| - 1]), steps[|steps| - 1])
  }

  // ---------------------------------------------------------------- the invariant

  ghost predicate AnswersOk(a: Attempt) {
    && (forall i :: 0 <= i < |a.questions| && a.questions[i].answer.Some? ==>
          Choosable(a.questions[i], a.questions[i].answer.value.selected)
          && 1 < a.questions[i].answer.value.serverRevision <= a.serverRevision
          && !IsLate(a, a.questions[i].answer.value.savedAt))
    && (forall i, j :: 0 <= i < j < |a.questions| && a.questions[i].answer.Some? && a.questions[j].answer.Some? ==>
          a.questions[i].answer.value.serverRevision != a.questions[j].answer.value.serverRevision)
  }

  ghost predicate AttemptOk(s: Store, id: AttemptId) {
    id in s.attempts ==>
      var a := s.attempts[id];
      && id < s.nextId
      && (a.status == Active <==> id !in s.results)
      && (a.status == Active <==> a.completedAt.None?)
      && (id in s.results ==> s.results[id] == Rescore(a.questions, a.version.passPercent, a.completedAt.value))
      && (a.completedAt.Some? ==> (a.status == Expired <==> IsLate(a, a.completedAt.value)))
      && a.serverRevision >= 1
      && AnswersOk(a)
      && (a.user, a.startKey) in s.starts && s.starts[(a.user, a.startKey)] == id
  }

  ghost predicate OneActive(s: Store) {
    forall a, b, u, q :: IsActiveFor(s, a, u, q) && IsActiveFor(s, b, u, q) ==> a == b
  }

  ghost predicate KeysOk(s: Store) {
    && s.results.Keys <= s.attempts.Keys
    && (forall k :: k in s.starts ==>
          s.starts[k] in s.attempts && s.attempts[s.starts[k]].user == k.0 && s.attempts[s.starts[k]].startKey == k.1)
    && (forall k :: k in s.receipts ==> s.receipts[k] in s.results && s.attempts[s.receipts[k]].user == k.0)
  }

  ghost predicate Inv(s: Store) {
    (forall id :: AttemptOk(s, id)) && OneActive(s) && KeysOk(s)
  }
}
