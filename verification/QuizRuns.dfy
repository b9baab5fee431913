/** What holds of a quiz over every run of its workflow, by any number of callers. */
module QuizRuns {
  import opened Common
  import opened QuizWorkflow

  function Next(q: Quiz, a: Action): Quiz
    requires HasCurrent(q)
  {
    match Act(q, a)
    case Ok(r) => r
    case Err(_) => q
  }

  function Execute(q: Quiz, actions: seq<Action>): (r: Quiz)
    requires HasCurrent(q)
    ensures HasCurrent(r)
  {
    if actions == [] then q else Next(Execute(q, actions[..|actions| - 1]), actions[|actions| - 1])
  }

  /** The action numbered `i` was accepted when its turn came. */
  predicate Accepted(q: Quiz, actions: seq<Action>, i: nat)
    requires HasCurrent(q) && i < |actions|
  {
    Act(Execute(q, actions[..i]), actions[i]).Ok?
  }

  function AcceptedCount(q: Quiz, actions: seq<Action>): nat
    requires HasCurrent(q)
  {
    if actions == [] then 0
    else AcceptedCount(q, actions[..|actions| - 1]) + if Accepted(q, actions, |actions| - 1) then 1 else 0
  }

  /** The version that was current at the last submission for review that was accepted. */
  function LastSubmitted(q: Quiz, actions: seq<Action>): Option<Version>
    requires HasCurrent(q)
  {
    if actions == [] then None
    else
      var front := actions[..|actions| - 1];
      if actions[|actions| - 1].Submit? && Accepted(q, actions, |actions| - 1)
      then Some(Execute(q, front).versions[Execute(q, front).current])
      else LastSubmitted(q, front)
  }

  /** The version submitted last when the last publication was accepted, and its time. */
  function LastPublication(q: Quiz, actions: seq<Action>): Option<(Option<Version>, int)>
    requires HasCurrent(q)
  {
    if actions == [] then None
    else
      var front := actions[..|actions| - 1];
      var last := actions[|actions| - 1];
      if last.Publish? && Accepted(q, actions, |actions| - 1)
      then Some((LastSubmitted(q, front), last.now))
      else LastPublication(q, front)
  }

  // ---------------------------------------------------------------- the invariant

  ghost predicate VersionsOk(versions: seq<Version>, current: nat) {
    && current + 1 == |versions|
    && forall i :: 0 <= i < |versions| ==> versions[i].number == i + 1
  }

  ghost predicate PublicationOk(q: Quiz) {
    && (q.published.Some? ==> q.published.value < |q.versions| && q.publishedAt.Some?)
    && (q.status == Published ==> q.published == Some(q.current))
    && (q.status == Retired <==> q.retiredAt.Some?)
    && q.search == if q.published.Some? && q.retiredAt.None?
                   then Some(EntryFor(q.versions[q.published.value], q.publishedAt.value)) else None
  }

  ghost predicate Inv(q: Quiz) {
    VersionsOk(q.versions, q.current) && PublicationOk(q)
  }

  lemma {:induction false} NextKeepsInv(q: Quiz, a: Action)
    requires Inv(q)
    ensures Inv(Next(q, a))
  {
  }

  lemma {:induction false} RunsKeepInv(q: Quiz, actions: seq<Action>)
    requires Inv(q)
    ensures Inv(Execute(q, actions))
  {
    if actions != [] { RunsKeepInv(q, actions[..|actions| - 1]); }
  }

  /** In every run of a new quiz: versions are numbered 1 to n and the current one is the last, and the
      quiz is found by search exactly while it is published and not retired, under the published
      version's own fields. */
  lemma {:induction false} EveryHistoryIsSound(allowed: bool, data: Input, actions: seq<Action>)
    requires Create(allowed, data).Ok?
    ensures var q := Execute(Create(allowed, data).value, actions);
            && VersionsOk(q.versions, q.current) && PublicationOk(q)
            && (q.search.Some? <==> q.published.Some? && q.retiredAt.None?)
  {
    RunsKeepInv(Create(allowed, data).value, actions);
  }

  // ---------------------------------------------------------------- what is published

  /** While a quiz is in review its current version is the one that was submitted. */
  lemma {:induction false} InReviewIsWhatWasSubmitted(allowed: bool, data: Input, actions: seq<Action>)
    requires Create(allowed, data).Ok?
    ensures var q0 := Create(allowed, data).value; var q := Execute(q0, actions);
            q.status == InReview ==> LastSubmitted(q0, actions) == Some(q.versions[q.current])
  {
    if actions != [] {
      InReviewIsWhatWasSubmitted(allowed, data, actions[..|actions| - 1]);
    }
  }

  /** Action number `j` is an accepted submission, and nothing was accepted between it and number `i`. */
  ghost predicate SubmittedJustBefore(q: Quiz, actions: seq<Action>, j: nat, i: nat)
    requires HasCurrent(q) && i <= |actions|
  {
    j < i && actions[j].Submit? && Accepted(q, actions, j) && forall k :: j < k < i ==> !Accepted(q, actions, k)
  }

  lemma {:induction false} AcceptedInPrefix(q: Quiz, actions: seq<Action>, n: nat, k: nat)
    requires HasCurrent(q) && k < n <= |actions|
    ensures Accepted(q, actions[..n], k) <==> Accepted(q, actions, k)
  {
    assert actions[..n][..k] == actions[..k];
  }

  lemma {:induction false} InReviewWasJustSubmitted(q: Quiz, actions: seq<Action>) returns (j: nat)
    requires HasCurrent(q) && q.status != InReview && Execute(q, actions).status == InReview
    ensures SubmittedJustBefore(q, actions, j, |actions|)
  {
    var n := |actions| - 1;
    var front := actions[..n];
    forall k | 0 <= k < n ensures Accepted(q, front, k) <==> Accepted(q, actions, k) { AcceptedInPrefix(q, actions, n, k); }
    if Accepted(q, actions, n) {
      j := n;
    } else {
      j := InReviewWasJustSubmitted(q, front);
    }
  }

  /** A rejection or publication decides the submission that is the accepted action right before it: a
      quiz never changes between what was submitted and what is decided. */
  lemma {:induction false} DecisionsFollowSubmission(allowed: bool, data: Input, actions: seq<Action>, i: nat) returns (j: nat)
    requires Create(allowed, data).Ok? && i < |actions| && (actions[i].Publish? || actions[i].Reject?)
    requires Accepted(Create(allowed, data).value, actions, i)
    ensures SubmittedJustBefore(Create(allowed, data).value, actions, j, i)
  {
    var q := Create(allowed, data).value;
    j := InReviewWasJustSubmitted(q, actions[..i]);
    forall k | 0 <= k < i ensures Accepted(q, actions[..i], k) <==> Accepted(q, actions, k) { AcceptedInPrefix(q, actions, i, k); }
  }

  /** The version a quiz shows the public is the very one that was current at the last accepted
      submission before its last accepted publication, as that version was written. */
  lemma {:induction false} PublishedIsWhatWasSubmitted(allowed: bool, data: Input, actions: seq<Action>)
    requires Create(allowed, data).Ok?
    ensures var q0 := Create(allowed, data).value; var q := Execute(q0, actions);
            LastPublication(q0, actions)
            == if q.published.Some? && q.published.value < |q.versions| && q.publishedAt.Some?
               then Some((Some(q.versions[q.published.value]), q.publishedAt.value)) else None
  {
    var q0 := Create(allowed, data).value;
    if actions != [] {
      var front := actions[..|actions| - 1];
      PublishedIsWhatWasSubmitted(allowed, data, front);
      InReviewIsWhatWasSubmitted(allowed, data, front);
      RunsKeepInv(q0, front);
    }
  }

  /** A stored version is never changed or removed. */
  lemma {:induction false} VersionsAreImmutable(q: Quiz, actions: seq<Action>)
    requires HasCurrent(q)
    ensures q.versions <= Execute(q, actions).versions
  {
    if actions != [] { VersionsAreImmutable(q, actions[..|actions| - 1]); }
  }

  // ---------------------------------------------------------------- every version follows the rules

  lemma {:induction false} StripIsStripped(s: string)
    ensures Strip(s) != "" ==> !IsSpace(Strip(s)[0]) && !IsSpace(Strip(s)[|Strip(s)| - 1])
    ensures Strip(Strip(s)) == Strip(s)
  {
    if s != "" {
      if IsSpace(s[0]) { StripIsStripped(s[1..]); }
      else if IsSpace(s[|s| - 1]) { StripIsStripped(s[..|s| - 1]); }
    }
  }

  ghost predicate AllValid(versions: seq<Version>) {
    forall i :: 0 <= i < |versions| ==> ValidInput(versions[i].data)
  }

  lemma {:induction false} StoredVersionsAreValid(allowed: bool, data: Input, actions: seq<Action>)
    requires Create(allowed, data).Ok?
    ensures AllValid(Execute(Create(allowed, data).value, actions).versions)
  {
    if actions == [] {
      StripIsStripped(data.title);
    } else {
      var last := actions[|actions| - 1];
      StoredVersionsAreValid(allowed, data, actions[..|actions| - 1]);
      if last.Revise? { StripIsStripped(last.data.title); }
    }
  }

  /** At the moment of publication every fixed question is published in exactly the linked version, there
      are as many as declared and no question appears twice, not even in two versions, and a pool offers
      enough questions. */
  lemma {:induction false} PublicationIsComplete(allowed: bool, data: Input, actions: seq<Action>, i: nat)
    requires Create(allowed, data).Ok? && i < |actions|
    requires actions[i].Publish? && Accepted(Create(allowed, data).value, actions, i)
    ensures var q := Execute(Create(allowed, data).value, actions[..i]);
            var d := q.versions[q.current].data;
            && q.status == InReview
            && (d.selectionMode == "fixed" ==> |d.links| == d.questionCount)
            && (d.selectionMode == "fixed" ==> forall j, k :: 0 <= j < k < |d.links| ==> d.links[j].question != d.links[k].question)
            && (d.selectionMode == "fixed" ==> forall j :: 0 <= j < |d.links| ==> LinkPublished(actions[i].catalog, d.links[j]))
            && (d.selectionMode == "pool" ==> d.links == [] && d.questionCount <= actions[i].catalog.poolSize)
  {
    StoredVersionsAreValid(allowed, data, actions[..i]);
    var q := Execute(Create(allowed, data).value, actions[..i]);
    var links := q.versions[q.current].data.links;
    assert forall j :: 0 <= j < |links| && q.versions[q.current].data.selectionMode == "fixed" ==>
        LinkPublished(actions[i].catalog, links[j]);
  }

  // ---------------------------------------------------------------- revisions

  lemma {:induction false} RevisionsOnlyGrow(q: Quiz, actions: seq<Action>, i: nat)
    requires HasCurrent(q) && i <= |actions|
    ensures Execute(q, actions[..i]).revision <= Execute(q, actions).revision
    decreases |actions|
  {
    if i < |actions| {
      var front := actions[..|actions| - 1];
      assert front[..i] == actions[..i];
      RevisionsOnlyGrow(q, front, i);
    } else {
      assert actions[..i] == actions;
    }
  }

  /** The revision counts the accepted actions. */
  lemma {:induction false} RevisionCountsAcceptedActions(q: Quiz, actions: seq<Action>)
    requires HasCurrent(q)
    ensures Execute(q, actions).revision == q.revision + AcceptedCount(q, actions)
  {
    if actions != [] { RevisionCountsAcceptedActions(q, actions[..|actions| - 1]); }
  }

  /** Of two actions that saw the same revision at most one is accepted: an accepted action always
      expects a later revision than every action accepted before it. */
  lemma {:induction false} NoRevisionIsSpentTwice(q: Quiz, actions: seq<Action>, i: nat, j: nat)
    requires HasCurrent(q) && i < j < |actions|
    requires Accepted(q, actions, i) && Accepted(q, actions, j)
    ensures actions[i].expected < actions[j].expected
  {
    var front := actions[..j];
    assert front[..i] == actions[..i] && front[..i + 1][..i] == actions[..i] && front[..i + 1][i] == actions[i];
    assert Execute(q, front[..i + 1]).revision == actions[i].expected + 1;
    RevisionsOnlyGrow(q, front, i + 1);
  }

  // ---------------------------------------------------------------- retirement

  /** A retired quiz stays retired, cannot be found, and keeps its published version. */
  lemma {:induction false} RetiredIsForever(q: Quiz, actions: seq<Action>)
    requires HasCurrent(q) && q.status == Retired && q.search.None?
    ensures var r := Execute(q, actions);
            r.status == Retired && r.search.None? && r.versions == q.versions && r.published == q.published
  {
    if actions != [] { RetiredIsForever(q, actions[..|actions| - 1]); }
  }
}
