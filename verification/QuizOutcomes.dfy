/**
 What each quiz action accepts and stores, told from the request, the quiz and the catalog alone.
*/
module QuizOutcomes {
  import opened Common
  import opened QuizWorkflow
  import opened QuizRuns

  // ---------------------------------------------------------------- the rules, one by one

  predicate IsBlank(c: char) {
    c == ' ' || c == '\t' || c == '\n' || c == '\r' || c as int == 11 || c as int == 12
  }

  predicate HasText(s: string) {
    exists i :: 0 <= i < |s| && !IsBlank(s[i])
  }

  /** No item occurs twice. */
  predicate AllDifferent(items: seq<string>) {
    forall i, j :: 0 <= i < j < |items| ==> items[i] != items[j]
  }

  /** A title, a known mode, selection and release, 1 to 100 questions, up to 100 attempts, a pass mark in
      percent, known and distinct difficulties, and small metadata. */
  predicate FieldsOk(d: Input) {
    && HasText(d.title)
    && (d.mode == "quiz" || d.mode == "practice" || d.mode == "mastery")
    && (d.selectionMode == "fixed" || d.selectionMode == "pool")
    && (d.resultRelease == "immediate" || d.resultRelease == "after_close")
    && 1 <= d.questionCount <= 100 && 0 <= d.maximumAttempts <= 100 && 0.0 <= d.passPercent <= 100.0
    && (forall i :: 0 <= i < |d.difficulties| ==>
          d.difficulties[i] == "easy" || d.difficulties[i] == "medium" || d.difficulties[i] == "hard")
    && AllDifferent(d.difficulties)
    && d.metadataLength <= 4096
  }

  /** A duration of one minute to four hours, needed outside practice; availability that ends after it begins,
      and ends at all when results wait for that. */
  predicate TimingOk(d: Input) {
    && (d.duration.Some? ==> 60 <= d.duration.value <= 4 * 3600)
    && (d.mode != "practice" ==> d.duration.Some?)
    && (d.availableFrom.Some? && d.availableUntil.Some? ==> d.availableUntil.value > d.availableFrom.value)
    && (d.resultRelease == "after_close" ==> d.availableUntil.Some?)
  }

  /** A fixed quiz lists its questions, all different; a pool lists none. Ranked quizzes are fixed, timed,
      finite and no practice. */
  predicate QuestionsFit(d: Input) {
    && (d.selectionMode == "fixed" ==> |d.links| == d.questionCount)
    && (d.selectionMode == "fixed" ==> forall i, j :: 0 <= i < j < |d.links| ==> d.links[i].version != d.links[j].version)
    && (d.selectionMode == "pool" ==> |d.links| == 0)
    && (d.rankingEligible ==> d.selectionMode == "fixed" && d.duration.Some? && d.maximumAttempts >= 1 && d.mode != "practice")
  }

  predicate FollowsTheRules(d: Input) {
    FieldsOk(d) && TimingOk(d) && QuestionsFit(d)
  }

  /** The text with its blanks at both ends gone, and nothing else. */
  ghost predicate IsTrimmed(s: string, t: string) {
    exists i, j :: 0 <= i <= j <= |s| && t == s[i..j]
      && (forall k :: 0 <= k < i || j <= k < |s| ==> IsBlank(s[k]))
      && (t != "" ==> !IsBlank(t[0]) && !IsBlank(t[|t| - 1]))
  }

  lemma {:induction false} StripTrims(s: string) returns (i: nat, j: nat)
    ensures i <= j <= |s| && Strip(s) == s[i..j]
    ensures forall k :: 0 <= k < i || j <= k < |s| ==> IsBlank(s[k])
    ensures Strip(s) != "" ==> !IsBlank(Strip(s)[0]) && !IsBlank(Strip(s)[|Strip(s)| - 1])
    ensures Strip(s) != "" <==> HasText(s)
  {
    if s == "" {
      i, j := 0, 0;
    } else if IsSpace(s[0]) {
      i, j := StripTrims(s[1..]);
      i, j := i + 1, j + 1;
      assert forall k :: 1 <= k < |s| ==> s[k] == s[1..][k - 1];
      assert HasText(s) <==> HasText(s[1..]) by {
        if k :| 0 <= k < |s| && !IsBlank(s[k]) { assert !IsBlank(s[1..][k - 1]); }
      }
    } else if IsSpace(s[|s| - 1]) {
      var n := |s| - 1;
      i, j := StripTrims(s[..n]);
      assert forall k :: 0 <= k < n ==> s[k] == s[..n][k];
      assert !IsBlank(s[..n][0]);
    } else {
      i, j := 0, |s|;
    }
  }

  lemma {:induction false} TitleMeans(s: string)
    ensures IsTrimmed(s, Strip(s)) && (Strip(s) != "" <==> HasText(s))
  {
    var i, j := StripTrims(s);
  }

  lemma {:induction false} RulesMean(d: Input)
    ensures ValidInput(d) <==> FollowsTheRules(d)
  {
    TitleMeans(d.title);
  }

  // ---------------------------------------------------------------- creating and revising

  /** The row of a version: its number, and the data as given but for trimmed texts and a language in lower case. */
  ghost predicate IsVersionOf(v: Version, number: nat, d: Input) {
    && v.number == number
    && v.data == d.(title := v.data.title, instructions := v.data.instructions, language := v.data.language)
    && IsTrimmed(d.title, v.data.title) && IsTrimmed(d.instructions, v.data.instructions)
    && exists t :: IsTrimmed(d.language, t) && |v.data.language| == |t|
         && forall i :: 0 <= i < |t| ==>
              v.data.language[i] == if 'A' <= t[i] <= 'Z' then t[i] - 'A' + 'a' else t[i]
  }

  lemma {:induction false} LowerPerLetter(s: string)
    ensures |Lower(s)| == |s|
    ensures forall i :: 0 <= i < |s| ==> Lower(s)[i] == if 'A' <= s[i] <= 'Z' then s[i] - 'A' + 'a' else s[i]
  {
    if s != "" { LowerPerLetter(s[1..]); }
  }

  lemma {:induction false} VersionMeans(number: nat, d: Input)
    ensures IsVersionOf(VersionFrom(number, d), number, d)
  {
    TitleMeans(d.title);
    TitleMeans(d.instructions);
    TitleMeans(d.language);
    LowerPerLetter(Strip(d.language));
  }

  /** A quiz is created exactly when the caller may and the data follows the rules: a draft with version 1. */
  lemma {:induction false} CreationOutcome(allowed: bool, data: Input)
    ensures var r := Create(allowed, data);
            if allowed && FollowsTheRules(data)
            then r.Ok? && |r.value.versions| == 1 && IsVersionOf(r.value.versions[0], 1, data)
                 && r.value == Quiz(Draft, r.value.versions, 0, None, 1, "", None, None, None)
            else r == Err(RuleError)
  {
    RulesMean(data);
    VersionMeans(1, data);
  }

  /** Anyone is refused who may not act, and then anyone who saw another revision. */
  lemma {:induction false} AccessOutcome(q: Quiz, a: Action)
    requires HasCurrent(q)
    ensures !a.allowed ==> Act(q, a) == Err(RuleError)
    ensures a.allowed && a.expected != q.revision ==> Act(q, a) == Err(ConflictError)
  {
  }

  /** A revision is refused for a quiz in review or retired and for data against the rules. */
  lemma {:induction false} RevisionIsAcceptedIff(q: Quiz, mayCreate: bool, data: Input)
    requires HasCurrent(q)
    ensures var r := Act(q, Revise(true, mayCreate, q.revision, data));
            if (q.status == Draft || q.status == Rejected || q.status == Published) && mayCreate && FollowsTheRules(data)
            then r.Ok? else r == Err(RuleError)
  {
    RulesMean(data);
  }

  /** An accepted one adds a version after the current one, and the quiz is a draft again, with its publication
      as it was. */
  lemma {:induction false} RevisionOutcome(q: Quiz, mayCreate: bool, data: Input)
    requires HasCurrent(q) && Act(q, Revise(true, mayCreate, q.revision, data)).Ok?
    ensures var r := Act(q, Revise(true, mayCreate, q.revision, data)).value; var n := |q.versions|;
            && |r.versions| == n + 1 && q.versions <= r.versions
            && IsVersionOf(r.versions[n], q.versions[q.current].number + 1, data)
            && r == Quiz(Draft, r.versions, n, q.published, q.revision + 1, "", q.publishedAt, q.retiredAt, q.search)
  {
    VersionMeans(q.versions[q.current].number + 1, data);
  }

  // ---------------------------------------------------------------- reviewing

  /** Drafts and rejected quizzes can be submitted. */
  lemma {:induction false} SubmissionOutcome(q: Quiz)
    requires HasCurrent(q)
    ensures Act(q, Submit(true, q.revision)) ==
      if q.status == Draft || q.status == Rejected
      then Ok(Quiz(InReview, q.versions, q.current, q.published, q.revision + 1, "", q.publishedAt, q.retiredAt, q.search))
      else Err(RuleError)
  {
  }

  /** A rejection needs a reason, which is kept without blanks around it. */
  lemma {:induction false} RejectionOutcome(q: Quiz, note: string)
    requires HasCurrent(q)
    ensures var r := Act(q, Reject(true, q.revision, note));
            if q.status == InReview && HasText(note)
            then r.Ok? && IsTrimmed(note, r.value.note)
                 && r.value == Quiz(Rejected, q.versions, q.current, q.published, q.revision + 1, r.value.note,
                                    q.publishedAt, q.retiredAt, q.search)
            else r == Err(RuleError)
  {
    TitleMeans(note);
  }

  /** The path can be discovered, and every fixed question is published in its linked version, or the pool has
      enough questions. */
  predicate CanBePublished(v: Version, catalog: Catalog) {
    && catalog.discoverable
    && (v.data.selectionMode != "fixed" ==> catalog.poolSize >= v.data.questionCount)
    && (v.data.selectionMode == "fixed" ==> |v.data.links| == v.data.questionCount)
    && (v.data.selectionMode == "fixed" ==> forall i :: 0 <= i < |v.data.links| ==>
          v.data.links[i].question in catalog.questions && catalog.questions[v.data.links[i].question] == v.data.links[i].version)
  }

  /** A publication makes the current version the published one and indexes it under its own title, text,
      path, language and mode. */
  lemma {:induction false} PublicationOutcome(q: Quiz, catalog: Catalog, now: int)
    requires HasCurrent(q)
    ensures var v := q.versions[q.current];
            Act(q, Publish(true, q.revision, catalog, now)) ==
            if q.status == InReview && CanBePublished(v, catalog)
            then Ok(Quiz(Published, q.versions, q.current, Some(q.current), q.revision + 1, "", Some(now), None,
                         Some(SearchEntry(v.data.title, v.data.instructions, v.data.path, v.data.language, v.data.mode, now))))
            else Err(RuleError)
  {
    var v := q.versions[q.current];
    assert Publishable(v, catalog) <==> CanBePublished(v, catalog) by {
      assert forall i :: 0 <= i < |v.data.links| ==>
        (LinkPublished(catalog, v.data.links[i]) <==>
         v.data.links[i].question in catalog.questions && catalog.questions[v.data.links[i].question] == v.data.links[i].version);
    }
  }

  /** Any quiz can be retired, which takes it out of the index. */
  lemma {:induction false} RetirementOutcome(q: Quiz, now: int)
    requires HasCurrent(q)
    ensures Act(q, Retire(true, q.revision, now))
         == Ok(Quiz(Retired, q.versions, q.current, q.published, q.revision + 1, q.note, q.publishedAt, Some(now), None))
  {
  }

  /** In every run the index holds the published version's own fields, and only while it is published and the
      quiz is not retired. */
  lemma {:induction false} IndexedFields(allowed: bool, data: Input, actions: seq<Action>)
    requires Create(allowed, data).Ok?
    ensures var q := QuizRuns.Execute(Create(allowed, data).value, actions);
            && (q.search.Some? <==> q.published.Some? && q.retiredAt.None?)
            && (q.search.Some? ==>
                  && q.published.value < |q.versions| && q.publishedAt.Some?
                  && var d := q.versions[q.published.value].data;
                     && q.search.value.title == d.title && q.search.value.summary == d.instructions
                     && q.search.value.path == d.path && q.search.value.language == d.language
                     && q.search.value.contentType == d.mode && q.search.value.publishedAt == q.publishedAt.value)
  {
    EveryHistoryIsSound(allowed, data, actions);
  }
}
