/**
 Autosave converges. Clients retry, duplicate and reorder saves; each client revision of a
 question carries one selection. Whatever order the server sees them in, it ends up storing
 the highest revision of every question.
*/
module Autosave {
  import opened Common
  import opened AttemptScoring
  import opened AssessmentAttempts

  datatype Call = Call(position: int, selected: seq<OptionId>, revision: nat, now: int)

  function Apply(a: Attempt, c: Call): Attempt {
    match SaveInto(a, c.position, c.selected, c.revision, c.now)
    case Ok(b) => b
    case Err(_) => a
  }

  function ApplyAll(a: Attempt, calls: seq<Call>): Attempt {
    if calls == [] then a else Apply(ApplyAll(a, calls[..|calls| - 1]), calls[|calls| - 1])
  }

  /** What a reader of the stored answer sees: the selection and its client revision. */
  function Stored(a: Attempt, position: int): Option<(seq<OptionId>, nat)>
    requires 1 <= position <= |a.questions|
  {
    match a.questions[position - 1].answer
    case None => None
    case Some(answer) => Some((answer.selected, answer.clientRevision))
  }

  ghost predicate ValidCall(a: Attempt, c: Call) {
    1 <= c.position <= |a.questions| && Choosable(a.questions[c.position - 1], c.selected)
  }

  ghost predicate ValidCalls(a: Attempt, calls: seq<Call>) {
    forall i :: 0 <= i < |calls| ==> ValidCall(a, calls[i])
  }

  /** One selection per revision of a question. */
  type Payload = (int, nat) -> seq<OptionId>

  ghost predicate Carries(calls: seq<Call>, payload: Payload) {
    forall i :: 0 <= i < |calls| ==> calls[i].selected == payload(calls[i].position, calls[i].revision)
  }

  predicate SameQuestions(a: Attempt, b: Attempt) {
    |a.questions| == |b.questions|
    && forall i :: 0 <= i < |a.questions| ==> a.questions[i].(answer := None) == b.questions[i].(answer := None)
  }

  lemma {:induction false} SavesKeepQuestions(a: Attempt, calls: seq<Call>)
    ensures SameQuestions(a, ApplyAll(a, calls))
    ensures var b := ApplyAll(a, calls); b.status == a.status && b.deadline == a.deadline && b.user == a.user
  {
    if calls != [] { SavesKeepQuestions(a, calls[..|calls| - 1]); }
  }

  function Highest(calls: seq<Call>, position: int): Option<nat> {
    if calls == [] then None
    else
      var before := Highest(calls[..|calls| - 1], position);
      var c := calls[|calls| - 1];
      if c.position == position && (before.None? || c.revision > before.value) then Some(c.revision) else before
  }

  ghost predicate Mentions(calls: seq<Call>, position: int, revision: nat) {
    exists i :: 0 <= i < |calls| && calls[i].position == position && calls[i].revision == revision
  }

  lemma {:induction false} HighestIsTheMaximum(calls: seq<Call>, position: int)
    ensures Highest(calls, position).None? ==> forall r: nat :: !Mentions(calls, position, r)
    ensures Highest(calls, position).Some? ==> Mentions(calls, position, Highest(calls, position).value)
    ensures forall r: nat :: Mentions(calls, position, r) ==> Highest(calls, position).Some? && r <= Highest(calls, position).value
  {
    if calls != [] {
      var k := |calls| - 1;
      HighestIsTheMaximum(calls[..k], position);
      forall r: nat ensures Mentions(calls, position, r) <==>
                       Mentions(calls[..k], position, r) || (calls[k].position == position && calls[k].revision == r)
      {
        if i :| 0 <= i < |calls| && calls[i].position == position && calls[i].revision == r {
          if i < k { assert calls[..k][i] == calls[i]; }
        }
        if i :| 0 <= i < k && calls[..k][i].position == position && calls[..k][i].revision == r {
          assert calls[i].position == position;
        }
      }
    }
  }

  /** What is stored after any list of saves: the highest revision sent, unless the attempt already
      held one at least as high. */
  lemma {:induction false} HighestRevisionWins(a: Attempt, calls: seq<Call>, payload: Payload, position: int)
    requires ValidCalls(a, calls) && Carries(calls, payload) && 1 <= position <= |a.questions|
    ensures |ApplyAll(a, calls).questions| == |a.questions|
    ensures var h := Highest(calls, position);
            Stored(ApplyAll(a, calls), position) ==
            if h.Some? && (Stored(a, position).None? || h.value > Stored(a, position).value.1)
            then Some((payload(position, h.value), h.value))
            else Stored(a, position)
  {
    SavesKeepQuestions(a, calls);
    if calls != [] {
      var k := |calls| - 1;
      HighestRevisionWins(a, calls[..k], payload, position);
      SavesKeepQuestions(a, calls[..k]);
      assert ValidCall(a, calls[k]);
    }
  }

  ghost predicate SameSaves(xs: seq<Call>, ys: seq<Call>) {
    forall position, r: nat :: Mentions(xs, position, r) <==> Mentions(ys, position, r)
  }

  /** Main result: any two orders and duplications of one set of valid saves store the same
      selection and client revision for every question. */
  lemma {:induction false} AutosaveConverges(a: Attempt, xs: seq<Call>, ys: seq<Call>, payload: Payload, position: int)
    requires ValidCalls(a, xs) && ValidCalls(a, ys) && Carries(xs, payload) && Carries(ys, payload)
    requires SameSaves(xs, ys) && 1 <= position <= |a.questions|
    ensures |ApplyAll(a, xs).questions| == |ApplyAll(a, ys).questions| == |a.questions|
    ensures Stored(ApplyAll(a, xs), position) == Stored(ApplyAll(a, ys), position)
  {
    HighestRevisionWins(a, xs, payload, position);
    HighestRevisionWins(a, ys, payload, position);
    HighestIsTheMaximum(xs, position);
    HighestIsTheMaximum(ys, position);
    if Highest(xs, position).Some? { assert Mentions(ys, position, Highest(xs, position).value); }
    if Highest(ys, position).Some? { assert Mentions(xs, position, Highest(ys, position).value); }
  }

  // ---------------------------------------------------------------- exactly when order does not matter

  /** The selection of the first call that carries a revision of a question. */
  function FirstAt(calls: seq<Call>, position: int, revision: nat): Option<seq<OptionId>> {
    if calls == [] then None
    else
      var before := FirstAt(calls[..|calls| - 1], position, revision);
      var c := calls[|calls| - 1];
      if before.None? && c.position == position && c.revision == revision then Some(c.selected) else before
  }

  /** The highest revision sent is above what the attempt holds. */
  predicate Rises(a: Attempt, calls: seq<Call>, position: int)
    requires 1 <= position <= |a.questions|
  {
    var h := Highest(calls, position);
    h.Some? && (Stored(a, position).None? || h.value > Stored(a, position).value.1)
  }

  ghost function StoredAfter(a: Attempt, calls: seq<Call>, position: int): Option<(seq<OptionId>, nat)>
    requires 1 <= position <= |a.questions|
  {
    SavesKeepQuestions(a, calls);
    Stored(ApplyAll(a, calls), position)
  }

  lemma {:induction false} FirstAtIsCarried(calls: seq<Call>, position: int, revision: nat)
    ensures FirstAt(calls, position, revision).Some? <==> Mentions(calls, position, revision)
    ensures FirstAt(calls, position, revision).Some? ==>
              exists i :: 0 <= i < |calls| && calls[i].position == position && calls[i].revision == revision
                          && calls[i].selected == FirstAt(calls, position, revision).value
  {
    if calls != [] {
      var k := |calls| - 1;
      var front := calls[..k];
      FirstAtIsCarried(front, position, revision);
      assert forall i :: 0 <= i < k ==> calls[i] == front[i];
      if FirstAt(front, position, revision).Some? {
        var i :| 0 <= i < k && front[i].position == position && front[i].revision == revision
                 && front[i].selected == FirstAt(front, position, revision).value;
        assert calls[i] == front[i];
      } else if Mentions(calls, position, revision) {
        var i :| 0 <= i < |calls| && calls[i].position == position && calls[i].revision == revision;
      }
    }
  }

  lemma {:induction false} ApplyStores(b: Attempt, c: Call, position: int)
    requires ValidCall(b, c) && 1 <= position <= |b.questions|
    ensures |Apply(b, c).questions| == |b.questions|
    ensures Stored(Apply(b, c), position)
         == if c.position == position && (Stored(b, position).None? || c.revision > Stored(b, position).value.1)
            then Some((c.selected, c.revision)) else Stored(b, position)
  {
  }

  lemma {:induction false} StillValid(a: Attempt, calls: seq<Call>, c: Call)
    requires ValidCall(a, c)
    ensures ValidCall(ApplyAll(a, calls), c)
  {
    SavesKeepQuestions(a, calls);
    var b := ApplyAll(a, calls);
    assert a.questions[c.position - 1].(answer := None) == b.questions[c.position - 1].(answer := None);
  }

  /** How one more call moves the highest revision and the first selection that carries it. */
  lemma {:induction false} HighestMoves(calls: seq<Call>, c: Call, position: int)
    ensures var h, all := Highest(calls, position), calls + [c];
            if c.position == position && (h.None? || c.revision > h.value)
            then Highest(all, position) == Some(c.revision) && FirstAt(all, position, c.revision) == Some(c.selected)
            else Highest(all, position) == h
                 && (h.Some? ==> FirstAt(all, position, h.value) == FirstAt(calls, position, h.value))
  {
    assert (calls + [c])[..|calls|] == calls;
    HighestIsTheMaximum(calls, position);
    FirstAtIsCarried(calls, position, c.revision);
    if Highest(calls, position).Some? { FirstAtIsCarried(calls, position, Highest(calls, position).value); }
  }

  /** Whatever selections the calls carry: of the calls with the highest revision the first one stays. */
  lemma {:induction false} FirstOfTheHighestWins(a: Attempt, calls: seq<Call>, position: int)
    requires ValidCalls(a, calls) && 1 <= position <= |a.questions|
    ensures var h := Highest(calls, position);
            if Rises(a, calls, position)
            then FirstAt(calls, position, h.value).Some?
                 && StoredAfter(a, calls, position) == Some((FirstAt(calls, position, h.value).value, h.value))
            else StoredAfter(a, calls, position) == Stored(a, position)
  {
    if calls != [] {
      var k := |calls| - 1;
      var front, c := calls[..k], calls[k];
      FirstOfTheHighestWins(a, front, position);
      assert ValidCall(a, c);
      StillValid(a, front, c);
      SavesKeepQuestions(a, front);
      ApplyStores(ApplyAll(a, front), c, position);
      assert calls == front + [c];
      HighestMoves(front, c, position);
    }
  }

  ghost predicate OneSelection(calls: seq<Call>, position: int, revision: nat) {
    forall i, j :: 0 <= i < |calls| && 0 <= j < |calls|
      && calls[i].position == position == calls[j].position && calls[i].revision == revision == calls[j].revision
      ==> calls[i].selected == calls[j].selected
  }

  /** The calls send nothing above what is stored, or agree on the selection of their highest revision. */
  ghost predicate Unambiguous(a: Attempt, calls: seq<Call>, position: int)
    requires 1 <= position <= |a.questions|
  {
    Rises(a, calls, position) ==> OneSelection(calls, position, Highest(calls, position).value)
  }

  ghost predicate SameCalls(xs: seq<Call>, ys: seq<Call>) {
    forall c :: c in xs <==> c in ys
  }

  lemma {:induction false} SameCallsSameHighest(xs: seq<Call>, ys: seq<Call>, position: int)
    requires SameCalls(xs, ys)
    ensures Highest(xs, position) == Highest(ys, position)
  {
    HighestIsTheMaximum(xs, position);
    HighestIsTheMaximum(ys, position);
    forall r: nat ensures Mentions(xs, position, r) <==> Mentions(ys, position, r) {
      if i :| 0 <= i < |xs| && xs[i].position == position && xs[i].revision == r {
        assert xs[i] in ys;
      }
      if i :| 0 <= i < |ys| && ys[i].position == position && ys[i].revision == r {
        assert ys[i] in xs;
      }
    }
  }

  lemma {:induction false} UnambiguousCallsConverge(a: Attempt, xs: seq<Call>, ys: seq<Call>, position: int)
    requires ValidCalls(a, xs) && 1 <= position <= |a.questions| && Unambiguous(a, xs, position) && SameCalls(xs, ys)
    ensures StoredAfter(a, ys, position) == StoredAfter(a, xs, position)
  {
    assert ValidCalls(a, ys) by {
      forall i | 0 <= i < |ys| ensures ValidCall(a, ys[i]) { assert ys[i] in xs; }
    }
    SameCallsSameHighest(xs, ys, position);
    FirstOfTheHighestWins(a, xs, position);
    FirstOfTheHighestWins(a, ys, position);
    if Rises(a, xs, position) {
      var h := Highest(xs, position).value;
      FirstAtIsCarried(xs, position, h);
      FirstAtIsCarried(ys, position, h);
      var i :| 0 <= i < |xs| && xs[i].position == position && xs[i].revision == h && xs[i].selected == FirstAt(xs, position, h).value;
      var j :| 0 <= j < |ys| && ys[j].position == position && ys[j].revision == h && ys[j].selected == FirstAt(ys, position, h).value;
      assert ys[j] in xs;
    }
  }

  /** The same calls with number `i` moved to the front. */
  function Promote(calls: seq<Call>, i: nat): seq<Call>
    requires i < |calls|
  {
    [calls[i]] + calls[..i] + calls[i + 1..]
  }

  lemma {:induction false} PromoteReorders(calls: seq<Call>, i: nat)
    requires i < |calls|
    ensures multiset(Promote(calls, i)) == multiset(calls) && SameCalls(calls, Promote(calls, i))
  {
    assert calls == calls[..i] + [calls[i]] + calls[i + 1..];
    forall c ensures c in calls <==> c in Promote(calls, i) {
      assert c in calls <==> c in multiset(calls);
      assert c in Promote(calls, i) <==> c in multiset(Promote(calls, i));
    }
  }

  lemma {:induction false} FirstAtHead(c: Call, rest: seq<Call>)
    ensures FirstAt([c] + rest, c.position, c.revision) == Some(c.selected)
  {
    var all := [c] + rest;
    if rest == [] {
      assert all[..0] == [];
    } else {
      assert all[..|all| - 1] == [c] + rest[..|rest| - 1];
      FirstAtHead(c, rest[..|rest| - 1]);
    }
  }

  lemma {:induction false} PromotedCallWins(a: Attempt, calls: seq<Call>, i: nat, position: int)
    requires ValidCalls(a, calls) && 1 <= position <= |a.questions| && Rises(a, calls, position)
    requires i < |calls| && calls[i].position == position && calls[i].revision == Highest(calls, position).value
    ensures StoredAfter(a, Promote(calls, i), position) == Some((calls[i].selected, calls[i].revision))
  {
    var ys := Promote(calls, i);
    PromoteReorders(calls, i);
    SameCallsSameHighest(calls, ys, position);
    assert ValidCalls(a, ys) by {
      forall j | 0 <= j < |ys| ensures ValidCall(a, ys[j]) { assert ys[j] in calls; }
    }
    FirstOfTheHighestWins(a, ys, position);
    assert ys == [calls[i]] + (calls[..i] + calls[i + 1..]);
    FirstAtHead(calls[i], calls[..i] + calls[i + 1..]);
  }

  /** Exactly when valid saves converge without the promise that a revision carries one selection: every
      reordering stores the same for a question if and only if nothing sent is above what is stored, or
      all calls with the highest revision carry one selection. Then duplication changes nothing either. */
  lemma {:induction false} ConvergesIff(a: Attempt, xs: seq<Call>, position: int)
    requires ValidCalls(a, xs) && 1 <= position <= |a.questions|
    ensures (forall ys :: multiset(ys) == multiset(xs) ==> StoredAfter(a, ys, position) == StoredAfter(a, xs, position))
            <==> Unambiguous(a, xs, position)
    ensures Unambiguous(a, xs, position) ==>
              forall ys :: SameCalls(xs, ys) ==> StoredAfter(a, ys, position) == StoredAfter(a, xs, position)
  {
    if Unambiguous(a, xs, position) {
      forall ys | SameCalls(xs, ys) ensures StoredAfter(a, ys, position) == StoredAfter(a, xs, position) {
        UnambiguousCallsConverge(a, xs, ys, position);
      }
      forall ys | multiset(ys) == multiset(xs) ensures SameCalls(xs, ys) {
        forall c ensures c in xs <==> c in ys {
          assert c in xs <==> c in multiset(xs);
          assert c in ys <==> c in multiset(ys);
        }
      }
    } else {
      var h := Highest(xs, position).value;
      var i, j :| 0 <= i < |xs| && 0 <= j < |xs| && xs[i].position == position == xs[j].position
                  && xs[i].revision == h == xs[j].revision && xs[i].selected != xs[j].selected;
      PromoteReorders(xs, i);
      PromoteReorders(xs, j);
      PromotedCallWins(a, xs, i, position);
      PromotedCallWins(a, xs, j, position);
      assert StoredAfter(a, Promote(xs, i), position) != StoredAfter(a, Promote(xs, j), position);
    }
  }

  /** The smallest run that diverges: two selections under one revision of an unanswered question. */
  lemma {:induction false} OneRevisionTwoSelectionsDiverge(a: Attempt, c: Call, d: Call)
    requires ValidCall(a, c) && ValidCall(a, d) && c.position == d.position && c.revision == d.revision
    requires c.selected != d.selected && Stored(a, c.position).None?
    ensures |ApplyAll(a, [c, d]).questions| == |ApplyAll(a, [d, c]).questions| == |a.questions|
    ensures Stored(ApplyAll(a, [c, d]), c.position) != Stored(ApplyAll(a, [d, c]), c.position)
  {
    assert [c, d][..1] == [c] && [d, c][..1] == [d] && [c][..0] == [] && [d][..0] == [];
    assert ApplyAll(a, [c]) == Apply(ApplyAll(a, []), c) && ApplyAll(a, [d]) == Apply(ApplyAll(a, []), d);
    assert ApplyAll(a, [c, d]) == Apply(Apply(a, c), d) && ApplyAll(a, [d, c]) == Apply(Apply(a, d), c);
  }

  // ---------------------------------------------------------------- replays

  /** The attempt already holds what the call carries, or something newer. */
  predicate Outdated(a: Attempt, c: Call) {
    && 1 <= c.position <= |a.questions|
    && a.questions[c.position - 1].answer.Some?
    && var stored := a.questions[c.position - 1].answer.value;
       c.revision < stored.clientRevision || (c.revision == stored.clientRevision && c.selected == stored.selected)
  }

  lemma {:induction false} OutdatedStays(a: Attempt, c: Call, calls: seq<Call>)
    requires Outdated(a, c)
    ensures Outdated(ApplyAll(a, calls), c)
  {
    if calls != [] { OutdatedStays(a, c, calls[..|calls| - 1]); }
  }

  /** Sending an accepted save again, at any later time and after any further saves, changes nothing. It
      is accepted as a replay exactly while its own revision is still the stored one, and refused once a
      newer save has been stored. */
  lemma {:induction false} ReplaysChangeNothing(a: Attempt, c: Call, calls: seq<Call>, later: int)
    requires SaveInto(a, c.position, c.selected, c.revision, c.now).Ok?
    ensures var b := ApplyAll(Apply(a, c), calls);
            && Apply(b, c.(now := later)) == b
            && 1 <= c.position <= |b.questions| && b.questions[c.position - 1].answer.Some?
            && (SaveInto(b, c.position, c.selected, c.revision, later).Ok?
                <==> b.questions[c.position - 1].answer.value.clientRevision == c.revision)
  {
    OutdatedStays(Apply(a, c), c, calls);
    SavesKeepQuestions(Apply(a, c), calls);
    var b := ApplyAll(Apply(a, c), calls);
    assert b.questions[c.position - 1].(answer := None) == Apply(a, c).questions[c.position - 1].(answer := None);
  }

  // ---------------------------------------------------------------- server revisions

  /** Server revisions handed out by the saves that were written, in order. */
  function Handed(a: Attempt, calls: seq<Call>): seq<nat> {
    if calls == [] then []
    else
      var before := ApplyAll(a, calls[..|calls| - 1]);
      var after := ApplyAll(a, calls);
      Handed(a, calls[..|calls| - 1]) + (if after == before then [] else [after.serverRevision])
  }

  /** Every written save gets a server revision above all earlier ones, across all questions, and
      stamps exactly its own answer with it. */
  lemma {:induction false} ServerRevisionsIncrease(a: Attempt, calls: seq<Call>)
    ensures var h := Handed(a, calls);
            && (forall i, j :: 0 <= i < j < |h| ==> h[i] < h[j])
            && (forall i :: 0 <= i < |h| ==> a.serverRevision < h[i] <= ApplyAll(a, calls).serverRevision)
            && ApplyAll(a, calls).serverRevision == a.serverRevision + |h|
  {
    if calls != [] { ServerRevisionsIncrease(a, calls[..|calls| - 1]); }
  }

  lemma {:induction false} WrittenSaveIsStamped(a: Attempt, c: Call)
    requires Apply(a, c) != a
    ensures var b := Apply(a, c);
            && 1 <= c.position <= |a.questions| == |b.questions|
            && b.serverRevision == a.serverRevision + 1
            && b.questions[c.position - 1].answer == Some(Answer(c.selected, c.revision, b.serverRevision, c.now))
            && forall i :: 0 <= i < |a.questions| && i != c.position - 1 ==> b.questions[i] == a.questions[i]
  {
  }

  // ---------------------------------------------------------------- the same, on the store

  function StepsOf(user: UserId, id: AttemptId, calls: seq<Call>): (steps: seq<Step>)
    ensures |steps| == |calls|
  {
    if calls == [] then []
    else
      var c := calls[|calls| - 1];
      StepsOf(user, id, calls[..|calls| - 1]) + [DoSave(user, id, c.position, c.selected, c.revision, c.now)]
  }

  ghost predicate InTime(a: Attempt, calls: seq<Call>) {
    forall i :: 0 <= i < |calls| ==> !IsLate(a, calls[i].now)
  }

  lemma {:induction false} StoreAppliesSaves(s: Store, id: AttemptId, calls: seq<Call>)
    requires id in s.attempts && s.attempts[id].status == Active && InTime(s.attempts[id], calls)
    ensures Execute(s, StepsOf(s.attempts[id].user, id, calls)) ==
            s.(attempts := s.attempts[id := ApplyAll(s.attempts[id], calls)])
  {
    var a := s.attempts[id];
    var steps := StepsOf(a.user, id, calls);
    if calls == [] {
      assert s.attempts[id := a] == s.attempts;
    } else {
      var k := |calls| - 1;
      StoreAppliesSaves(s, id, calls[..k]);
      SavesKeepQuestions(a, calls[..k]);
      assert steps[..|steps| - 1] == StepsOf(a.user, id, calls[..k]);
      assert !IsLate(a, calls[k].now);
      var b := ApplyAll(a, calls[..k]);
      assert s.attempts[id := b][id := ApplyAll(a, calls)] == s.attempts[id := ApplyAll(a, calls)];
    }
  }

  /** Convergence of the stored attempt itself, and hence of the score a later finalisation gives. */
  lemma {:induction false} StoredAttemptsConverge(
      s: Store, id: AttemptId, xs: seq<Call>, ys: seq<Call>, payload: Payload, submittedAt: int)
    requires id in s.attempts && s.attempts[id].status == Active
    requires var a := s.attempts[id];
             InTime(a, xs) && InTime(a, ys) && ValidCalls(a, xs) && ValidCalls(a, ys)
             && Carries(xs, payload) && Carries(ys, payload) && SameSaves(xs, ys)
    ensures var user := s.attempts[id].user;
            var one := Execute(s, StepsOf(user, id, xs));
            var two := Execute(s, StepsOf(user, id, ys));
            && id in one.attempts && id in two.attempts
            && |one.attempts[id].questions| == |two.attempts[id].questions| == |s.attempts[id].questions|
            && (forall p :: 1 <= p <= |s.attempts[id].questions| ==> Stored(one.attempts[id], p) == Stored(two.attempts[id], p))
            && Rescore(one.attempts[id].questions, s.attempts[id].version.passPercent, submittedAt)
               == Rescore(two.attempts[id].questions, s.attempts[id].version.passPercent, submittedAt)
  {
    var a := s.attempts[id];
    StoreAppliesSaves(s, id, xs);
    StoreAppliesSaves(s, id, ys);
    SavesKeepQuestions(a, xs);
    SavesKeepQuestions(a, ys);
    var qx, qy := ApplyAll(a, xs).questions, ApplyAll(a, ys).questions;
    forall p | 1 <= p <= |a.questions| ensures Stored(ApplyAll(a, xs), p) == Stored(ApplyAll(a, ys), p) {
      AutosaveConverges(a, xs, ys, payload, p);
    }
    forall i | 0 <= i < |qx| ensures qx[i].correct == qy[i].correct && qx[i].maxPoints == qy[i].maxPoints
                                     && Selected(qx[i]) == Selected(qy[i])
    {
      assert Stored(ApplyAll(a, xs), i + 1) == Stored(ApplyAll(a, ys), i + 1);
      assert qx[i].(answer := None) == a.questions[i].(answer := None) == qy[i].(answer := None);
    }
    ScoringIgnoresOrder(qx, qy, a.version.passPercent, submittedAt);
  }
}
