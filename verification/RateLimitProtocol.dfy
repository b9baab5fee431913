/**
 Many reservations at once. Each transaction takes its advisory locks one by one in ascending
 key order, reads the clock, checks its budgets, inserts its rows, and commits. Uncommitted rows
 are invisible to others; any transaction may die at any point, and other code may delete rows.

 `key` is the advisory key of a bucket: the first eight bytes of a digest, so two buckets may
 share one. Nothing below assumes they do not.
*/
module RateLimitProtocol {
  import opened Common
  import opened RateLimits

  type TxId = nat
  type KeyOf = Bucket -> int

  // ---------------------------------------------------------------- sorted, deduplicated keys

  function InsertKey(k: int, keys: seq<int>): seq<int> {
    if keys == [] || k < keys[0] then [k] + keys
    else if k == keys[0] then keys
    else [keys[0]] + InsertKey(k, keys[1..])
  }

  function SortedKeys(key: KeyOf, budgets: seq<Budget>): seq<int> {
    if budgets == [] then [] else InsertKey(key(budgets[0].bucket), SortedKeys(key, budgets[1..]))
  }

  ghost predicate Ascending(keys: seq<int>) {
    forall i, j :: 0 <= i < j < |keys| ==> keys[i] < keys[j]
  }

  lemma {:induction false} InsertKeyCorrect(k: int, keys: seq<int>)
    requires Ascending(keys)
    ensures Ascending(InsertKey(k, keys))
    ensures forall x :: x in InsertKey(k, keys) <==> x == k || x in keys
  {
    if keys != [] && k > keys[0] {
      InsertKeyCorrect(k, keys[1..]);
      var rest := InsertKey(k, keys[1..]);
      forall j | 0 <= j < |rest| ensures keys[0] < rest[j] {
        assert rest[j] in rest;
      }
      assert forall x :: x in keys <==> x == keys[0] || x in keys[1..];
    }
  }

  /** The advisory keys are deduplicated and strictly ascending, and are exactly the listed buckets' keys. */
  lemma {:induction false} KeysAreSortedAndComplete(key: KeyOf, budgets: seq<Budget>)
    ensures Ascending(SortedKeys(key, budgets))
    ensures forall x :: x in SortedKeys(key, budgets) <==> exists i :: 0 <= i < |budgets| && key(budgets[i].bucket) == x
  {
    if budgets != [] {
      KeysAreSortedAndComplete(key, budgets[1..]);
      InsertKeyCorrect(key(budgets[0].bucket), SortedKeys(key, budgets[1..]));
      forall x ensures x in SortedKeys(key, budgets) <==> exists i :: 0 <= i < |budgets| && key(budgets[i].bucket) == x {
        if x in SortedKeys(key, budgets[1..]) {
          var i :| 0 <= i < |budgets[1..]| && key(budgets[1..][i].bucket) == x;
          assert key(budgets[i + 1].bucket) == x;
        }
        if i :| 0 <= i < |budgets| && key(budgets[i].bucket) == x {
          if i > 0 { assert key(budgets[1..][i - 1].bucket) == x; }
        }
      }
    }
  }

  lemma KeyIsListed(key: KeyOf, budgets: seq<Budget>, i: nat)
    requires i < |budgets|
    ensures key(budgets[i].bucket) in SortedKeys(key, budgets)
  {
    KeysAreSortedAndComplete(key, budgets);
    var x := key(budgets[i].bucket);
    assert exists j :: 0 <= j < |budgets| && key(budgets[j].bucket) == x;
  }

  // ---------------------------------------------------------------- the step model

  datatype Phase =
    | Locking(held: nat)
    | Checking(now: int, passed: nat)
    | Inserting(now: int)
    | Granted
    | Refused
    | Aborted

  datatype Tx = Tx(budgets: seq<Budget>, keys: seq<int>, phase: Phase, pending: seq<Row>)

  datatype System = System(rows: seq<Row>, nextPk: nat, txs: map<TxId, Tx>)

  const EMPTY := System([], 0, map[])

  datatype Step =
    | Begin(id: TxId, budgets: seq<Budget>)
    | Lock(id: TxId)
    | ReadClock(id: TxId, now: int)
    | Check(id: TxId)
    | Insert(id: TxId)
    | Commit(id: TxId)
    | Abort(id: TxId)
    | Purge(pks: set<nat>)

  predicate Finished(tx: Tx) {
    tx.phase.Granted? || tx.phase.Refused? || tx.phase.Aborted?
  }

  function HeldCount(tx: Tx): nat {
    match tx.phase
    case Locking(held) => if held <= |tx.keys| then held else |tx.keys|
    case Checking(_, _) => |tx.keys|
    case Inserting(_) => |tx.keys|
    case _ => 0
  }

  predicate Holds(tx: Tx, k: int) {
    k in tx.keys[..HeldCount(tx)]
  }

  predicate HeldByAnother(s: System, id: TxId, k: int) {
    exists u :: u in s.txs && u != id && Holds(s.txs[u], k)
  }

  function Without(rows: seq<Row>, pks: set<nat>): seq<Row> {
    if rows == [] then []
    else Without(rows[..|rows| - 1], pks) + (if rows[|rows| - 1].pk in pks then [] else [rows[|rows| - 1]])
  }

  function SetPhase(s: System, id: TxId, phase: Phase): System
    requires id in s.txs
  {
    s.(txs := s.txs[id := s.txs[id].(phase := phase)])
  }

  function Advance(s: System, step: Step): System
    requires !step.Begin? && !step.Purge? && step.id in s.txs
  {
    var tx := s.txs[step.id];
    match step
    case Lock(id) =>
      if tx.phase.Locking? && tx.phase.held < |tx.keys| && !HeldByAnother(s, id, tx.keys[tx.phase.held])
      then SetPhase(s, id, Locking(tx.phase.held + 1)) else s
    case ReadClock(id, now) =>
      if tx.phase.Locking? && tx.phase.held >= |tx.keys| then SetPhase(s, id, Checking(now, 0)) else s
    case Check(id) =>
      if !tx.phase.Checking? then s
      else if tx.phase.passed >= |tx.budgets| then SetPhase(s, id, Inserting(tx.phase.now))
      else if Refuses(s.rows, tx.budgets[tx.phase.passed], tx.phase.now) then SetPhase(s, id, Refused)
      else SetPhase(s, id, Checking(tx.phase.now, tx.phase.passed + 1))
    case Insert(id) =>
      if tx.phase.Inserting? && |tx.pending| < |tx.budgets|
      then s.(nextPk := s.nextPk + 1,
              txs := s.txs[id := tx.(pending := tx.pending
                                                + [Row(s.nextPk, tx.budgets[|tx.pending|].bucket, tx.phase.now)])])
      else s
    case Commit(id) =>
      if tx.phase.Inserting? && |tx.pending| >= |tx.budgets|
      then SetPhase(s.(rows := s.rows + tx.pending), id, Granted) else s
    case Abort(id) => if Finished(tx) then s else SetPhase(s, id, Aborted)
  }

  function Next(key: KeyOf, s: System, step: Step): System {
    match step
    case Begin(id, budgets) =>
      if id in s.txs then s
      else s.(txs := s.txs[id := Tx(budgets, SortedKeys(key, budgets), Locking(0), [])])
    case Purge(pks) => s.(rows := Without(s.rows, pks))
    case _ => if step.id in s.txs then Advance(s, step) else s
  }

  function Execute(key: KeyOf, s: System, steps: seq<Step>): System {
    if steps == [] then s
    else Next(key, Execute(key, s, steps[..|steps| - 1]), steps[|steps| - 1])
  }

  lemma {:induction false} ExecuteSplits(key: KeyOf, s: System, first: seq<Step>, second: seq<Step>)
    ensures Execute(key, s, first + second) == Execute(key, Execute(key, s, first), second)
  {
    if second == [] {
      assert first + second == first;
    } else {
      assert (first + second)[..|first + second| - 1] == first + second[..|second| - 1];
      ExecuteSplits(key, s, first, second[..|second| - 1]);
    }
  }

  // ---------------------------------------------------------------- the invariant

  /** `tx` has passed its check of budget `i`, so that check must still hold. */
  predicate Passed(tx: Tx, i: int) {
    0 <= i < |tx.budgets| && ((tx.phase.Checking? && i < tx.phase.passed) || tx.phase.Inserting?)
  }

  function CheckedAt(tx: Tx): int {
    match tx.phase
    case Checking(now, _) => now
    case Inserting(now) => now
    case _ => 0
  }

  ghost predicate TxOk(key: KeyOf, rows: seq<Row>, tx: Tx) {
    && tx.keys == SortedKeys(key, tx.budgets)
    && (tx.phase.Locking? ==> tx.phase.held <= |tx.keys|)
    && (tx.phase.Checking? ==> tx.phase.passed <= |tx.budgets|)
    && (forall i :: Passed(tx, i) ==> !Refuses(rows, tx.budgets[i], CheckedAt(tx)))
    && (tx.phase.Locking? || tx.phase.Checking? ==> tx.pending == [])
    && (tx.phase.Inserting? ==>
          |tx.pending| <= |tx.budgets|
          && forall i :: 0 <= i < |tx.pending| ==>
               tx.pending[i].bucket == tx.budgets[i].bucket && tx.pending[i].attemptedAt == tx.phase.now)
  }

  ghost predicate Exclusive(s: System) {
    forall t, u, k :: t in s.txs && u in s.txs && t != u && Holds(s.txs[t], k) ==> !Holds(s.txs[u], k)
  }

  ghost predicate Inv(key: KeyOf, s: System) {
    Exclusive(s) && forall t :: t in s.txs ==> TxOk(key, s.rows, s.txs[t])
  }

  lemma {:induction false} HoldsGrows(tx: Tx, k: int)
    requires tx.phase.Locking? && tx.phase.held < |tx.keys|
    ensures Holds(tx.(phase := Locking(tx.phase.held + 1)), k) <==> Holds(tx, k) || k == tx.keys[tx.phase.held]
  {
    var h := tx.phase.held;
    assert tx.keys[..h + 1] == tx.keys[..h] + [tx.keys[h]];
  }

  /** A lock is only ever gained while nobody else holds it. */
  lemma {:induction false} LocksAreGainedFree(key: KeyOf, s: System, step: Step, t: TxId, k: int)
    requires Inv(key, s) && t in Next(key, s, step).txs && Holds(Next(key, s, step).txs[t], k)
    ensures (t in s.txs && Holds(s.txs[t], k)) || !HeldByAnother(s, t, k)
  {
    var n := Next(key, s, step);
    if t in s.txs && n.txs[t] != s.txs[t] {
      assert TxOk(key, s.rows, s.txs[t]);
      if step.Lock? { HoldsGrows(s.txs[t], k); }
    }
  }

  lemma {:induction false} StepKeepsExclusive(key: KeyOf, s: System, step: Step)
    requires Inv(key, s)
    ensures Exclusive(Next(key, s, step))
  {
    var n := Next(key, s, step);
    forall t, u, k | t in n.txs && u in n.txs && t != u && Holds(n.txs[t], k) ensures !Holds(n.txs[u], k) {
      LocksAreGainedFree(key, s, step, t, k);
      if Holds(n.txs[u], k) {
        LocksAreGainedFree(key, s, step, u, k);
        OneMoverPerStep(key, s, step, t, u);
      }
    }
  }

  lemma OneMoverPerStep(key: KeyOf, s: System, step: Step, t: TxId, u: TxId)
    requires t != u && t in Next(key, s, step).txs && u in Next(key, s, step).txs
    ensures (t in s.txs && s.txs[t] == Next(key, s, step).txs[t]) || (u in s.txs && s.txs[u] == Next(key, s, step).txs[u])
  {
  }

  lemma {:induction false} PurgeLowersCounts(rows: seq<Row>, pks: set<nat>, b: Bucket, from: int, to: int)
    ensures CountSince(Without(rows, pks), b, from) <= CountSince(rows, b, from)
    ensures CountBetween(Without(rows, pks), b, from, to) <= CountBetween(rows, b, from, to)
  {
    if rows != [] {
      var rest := rows[..|rows| - 1];
      PurgeLowersCounts(rest, pks, b, from, to);
      var tail := if rows[|rows| - 1].pk in pks then [] else [rows[|rows| - 1]];
      CountsConcat(Without(rest, pks), tail, b, from, to);
      if tail != [] { assert tail[..0] == []; }
    }
  }

  lemma {:induction false} NoRowsNoCount(rows: seq<Row>, b: Bucket, since: int)
    requires forall i :: 0 <= i < |rows| ==> rows[i].bucket != b
    ensures CountSince(rows, b, since) == 0
  {
    if rows != [] { NoRowsNoCount(rows[..|rows| - 1], b, since); }
  }

  /** Two transactions that hold all their keys name no bucket in common. */
  lemma {:induction false} HoldersShareNoBucket(key: KeyOf, s: System, t: TxId, u: TxId, i: nat, j: nat)
    requires Inv(key, s) && t in s.txs && u in s.txs && t != u
    requires HeldCount(s.txs[t]) == |s.txs[t].keys| && HeldCount(s.txs[u]) == |s.txs[u].keys|
    requires i < |s.txs[t].budgets| && j < |s.txs[u].budgets|
    ensures s.txs[t].budgets[i].bucket != s.txs[u].budgets[j].bucket
  {
    KeysAreSortedAndComplete(key, s.txs[t].budgets);
    KeysAreSortedAndComplete(key, s.txs[u].budgets);
    assert TxOk(key, s.rows, s.txs[t]) && TxOk(key, s.rows, s.txs[u]);
    var k := key(s.txs[t].budgets[i].bucket);
    assert s.txs[t].keys[..|s.txs[t].keys|] == s.txs[t].keys;
    assert s.txs[u].keys[..|s.txs[u].keys|] == s.txs[u].keys;
    KeyIsListed(key, s.txs[t].budgets, i);
    KeyIsListed(key, s.txs[u].budgets, j);
    assert Holds(s.txs[t], k);
    assert Holds(s.txs[u], key(s.txs[u].budgets[j].bucket));
  }

  /** While a transaction holds its locks, nobody else's commit can undo a check it has passed. */
  lemma {:induction false} ChecksSurviveCommits(key: KeyOf, s: System, t: TxId, u: TxId)
    requires Inv(key, s) && t in s.txs && u in s.txs && t != u
    requires s.txs[t].phase.Inserting? && |s.txs[t].pending| == |s.txs[t].budgets|
    ensures TxOk(key, s.rows + s.txs[t].pending, s.txs[u])
  {
    var rows' := s.rows + s.txs[t].pending;
    var tx := s.txs[u];
    assert TxOk(key, s.rows, tx) && TxOk(key, s.rows, s.txs[t]);
    forall i | Passed(tx, i) ensures !Refuses(rows', tx.budgets[i], CheckedAt(tx)) {
      var b := tx.budgets[i].bucket;
      var since := CheckedAt(tx) - tx.budgets[i].windowSeconds;
      CountsConcat(s.rows, s.txs[t].pending, b, since, since);
      forall j | 0 <= j < |s.txs[t].pending| ensures s.txs[t].pending[j].bucket != b {
        HoldersShareNoBucket(key, s, t, u, j, i);
      }
      NoRowsNoCount(s.txs[t].pending, b, since);
      assert !Refuses(s.rows, tx.budgets[i], CheckedAt(tx));
    }
  }

  lemma {:induction false} PurgeKeepsTx(key: KeyOf, rows: seq<Row>, pks: set<nat>, tx: Tx)
    requires TxOk(key, rows, tx)
    ensures TxOk(key, Without(rows, pks), tx)
  {
    forall i | Passed(tx, i) ensures !Refuses(Without(rows, pks), tx.budgets[i], CheckedAt(tx)) {
      PurgeLowersCounts(rows, pks, tx.budgets[i].bucket, CheckedAt(tx) - tx.budgets[i].windowSeconds, 0);
      assert !Refuses(rows, tx.budgets[i], CheckedAt(tx));
    }
  }

  lemma {:induction false} StepKeepsTx(key: KeyOf, s: System, step: Step, t: TxId)
    requires Inv(key, s) && t in Next(key, s, step).txs
    ensures TxOk(key, Next(key, s, step).rows, Next(key, s, step).txs[t])
  {
    var n := Next(key, s, step);
    if t in s.txs { assert TxOk(key, s.rows, s.txs[t]); }
    match step
    case Purge(pks) => PurgeKeepsTx(key, s.rows, pks, s.txs[t]);
    case Commit(id) =>
      if id in s.txs && t != id && n != s {
        assert TxOk(key, s.rows, s.txs[id]);
        ChecksSurviveCommits(key, s, id, t);
      }
    case Check(id) =>
      if id == t && n != s {
        forall i | Passed(n.txs[t], i) ensures !Refuses(s.rows, n.txs[t].budgets[i], CheckedAt(n.txs[t])) {
          if Passed(s.txs[t], i) { assert !Refuses(s.rows, s.txs[t].budgets[i], CheckedAt(s.txs[t])); }
        }
      }
    case _ =>
  }

  lemma {:induction false} RunsKeepInv(key: KeyOf, s: System, steps: seq<Step>)
    requires Inv(key, s)
    ensures Inv(key, Execute(key, s, steps))
  {
    if steps != [] {
      var before := Execute(key, s, steps[..|steps| - 1]);
      var last := steps[|steps| - 1];
      RunsKeepInv(key, s, steps[..|steps| - 1]);
      StepKeepsExclusive(key, before, last);
      forall t | t in Next(key, before, last).txs ensures TxOk(key, Next(key, before, last).rows, Next(key, before, last).txs[t]) {
        StepKeepsTx(key, before, last, t);
      }
    }
  }

  // ---------------------------------------------------------------- serializability

  function Pks(rows: seq<Row>): seq<nat> {
    seq(|rows|, i requires 0 <= i < |rows| => rows[i].pk)
  }

  /** Main result: interleaved reservations are a sequence of atomic ones. In any reachable state,
      the step that grants a reservation changes the committed table exactly as one whole
      reservation run alone at that moment, a refusal happens only where such a reservation would
      refuse, and no other step of any reservation changes the table. */
  lemma {:induction false} ReservationsAreAtomic(key: KeyOf, steps: seq<Step>, step: Step)
    requires !step.Purge?
    ensures var s := Execute(key, EMPTY, steps);
            var n := Next(key, s, step);
            if step.Commit? && step.id in s.txs && n != s then
              var tx := s.txs[step.id];
              |tx.pending| == |tx.budgets| && Admits(s.rows, tx.budgets, tx.phase.now)
              && n.rows == Reserved(s.rows, tx.budgets, tx.phase.now, Pks(tx.pending))
            else n.rows == s.rows
    ensures var s := Execute(key, EMPTY, steps);
            var n := Next(key, s, step);
            !step.Begin? && step.id in s.txs && !s.txs[step.id].phase.Refused? && n.txs[step.id].phase.Refused? ==>
              !Admits(s.rows, s.txs[step.id].budgets, s.txs[step.id].phase.now)
  {
    RunsKeepInv(key, EMPTY, steps);
    var s := Execute(key, EMPTY, steps);
    var n := Next(key, s, step);
    if step.Commit? && step.id in s.txs && n != s {
      var tx := s.txs[step.id];
      assert TxOk(key, s.rows, tx);
      forall i | 0 <= i < |tx.budgets| ensures !Refuses(s.rows, tx.budgets[i], tx.phase.now) {
        assert Passed(tx, i);
      }
      assert tx.pending == Inserted(tx.budgets, tx.phase.now, Pks(tx.pending));
    }
  }

  // ---------------------------------------------------------------- the bound, over every run

  /** Every reservation of the run carries the bucket's own window and limit, and names it at most once. */
  ghost predicate AsksProperly(steps: seq<Step>, b: Bucket, rule: Rule) {
    forall i :: 0 <= i < |steps| && steps[i].Begin? ==>
      Follows(steps[i].budgets, b, rule) && Mentions(steps[i].budgets, b) <= 1
  }

  lemma {:induction false} BudgetsComeFromBegin(key: KeyOf, steps: seq<Step>, b: Bucket, rule: Rule, t: TxId)
    requires AsksProperly(steps, b, rule) && t in Execute(key, EMPTY, steps).txs
    ensures var tx := Execute(key, EMPTY, steps).txs[t];
            Follows(tx.budgets, b, rule) && Mentions(tx.budgets, b) <= 1
  {
    if steps != [] {
      var before := Execute(key, EMPTY, steps[..|steps| - 1]);
      if t in before.txs { BudgetsComeFromBegin(key, steps[..|steps| - 1], b, rule, t); }
    }
  }

  /** In every interleaving, no interval of a bucket's window ever holds more stored attempts than
      its limit. Clocks may even run backwards between transactions. */
  lemma {:induction false} LimitHoldsInEveryRun(key: KeyOf, steps: seq<Step>, b: Bucket, rule: Rule)
    requires AsksProperly(steps, b, rule)
    ensures WithinLimit(Execute(key, EMPTY, steps).rows, b, rule)
  {
    if steps != [] {
      var front := steps[..|steps| - 1];
      var step := steps[|steps| - 1];
      LimitHoldsInEveryRun(key, front, b, rule);
      var s := Execute(key, EMPTY, front);
      var n := Next(key, s, step);
      if step.Purge? {
        forall from, to | to - from <= rule.windowSeconds ensures CountBetween(n.rows, b, from, to) <= Cap(rule) {
          PurgeLowersCounts(s.rows, step.pks, b, from, to);
        }
      } else {
        ReservationsAreAtomic(key, front, step);
        if step.Commit? && step.id in s.txs && n != s {
          var tx := s.txs[step.id];
          BudgetsComeFromBegin(key, front, b, rule, step.id);
          ReservationKeepsLimit(s.rows, tx.budgets, tx.phase.now, Pks(tx.pending), b, rule);
        }
      }
    }
  }

  /** The same bound, counted by row positions. */
  lemma {:induction false} NoWindowHoldsMore(key: KeyOf, steps: seq<Step>, b: Bucket, rule: Rule, from: int, to: int)
    requires AsksProperly(steps, b, rule) && to - from <= rule.windowSeconds
    ensures var rows := Execute(key, EMPTY, steps).rows;
            |set k | 0 <= k < |rows| && rows[k].bucket == b && from <= rows[k].attemptedAt <= to|
            <= if rule.limit > 0 then rule.limit else 0
  {
    LimitHoldsInEveryRun(key, steps, b, rule);
    BetweenArePositions(Execute(key, EMPTY, steps).rows, b, from, to);
  }

  // ---------------------------------------------------------------- what a check decides

  /** In any reachable state a transaction that checks its next budget is refused exactly when the bucket has
      at least its limit of committed rows since its window began, and otherwise goes on to the next one. */
  lemma {:induction false} CheckRefusesIff(key: KeyOf, steps: seq<Step>, t: TxId)
    requires var s := Execute(key, EMPTY, steps);
             t in s.txs && s.txs[t].phase.Checking? && s.txs[t].phase.passed < |s.txs[t].budgets|
    ensures var s := Execute(key, EMPTY, steps); var n := Next(key, s, Check(t));
            var phase := s.txs[t].phase; var budget := s.txs[t].budgets[phase.passed];
            var used := |set k | 0 <= k < |s.rows| && s.rows[k].bucket == budget.bucket
                                 && s.rows[k].attemptedAt >= phase.now - budget.windowSeconds|;
            && n.rows == s.rows && n.txs.Keys == s.txs.Keys
            && n.txs[t].phase == if used >= budget.limit then Refused else Checking(phase.now, phase.passed + 1)
  {
    var s := Execute(key, EMPTY, steps);
    var phase := s.txs[t].phase;
    var budget := s.txs[t].budgets[phase.passed];
    SinceArePositions(s.rows, budget.bucket, phase.now - budget.windowSeconds);
  }

  /** A commit appends one row for each listed budget, in order, at the time the reservation checked. */
  lemma {:induction false} CommitAppends(key: KeyOf, steps: seq<Step>, t: TxId)
    requires var s := Execute(key, EMPTY, steps); t in s.txs && Next(key, s, Commit(t)) != s
    ensures var s := Execute(key, EMPTY, steps); var n := Next(key, s, Commit(t)); var tx := s.txs[t];
            && tx.phase.Inserting? && |n.rows| == |s.rows| + |tx.budgets| && s.rows <= n.rows
            && forall i :: 0 <= i < |tx.budgets| ==>
                 n.rows[|s.rows| + i].bucket == tx.budgets[i].bucket && n.rows[|s.rows| + i].attemptedAt == tx.phase.now
  {
    RunsKeepInv(key, EMPTY, steps);
    var s := Execute(key, EMPTY, steps);
    assert TxOk(key, s.rows, s.txs[t]);
  }

  /** And it happens only while every listed bucket has fewer committed rows than its limit since its window
      began. */
  lemma {:induction false} CommitHasRoom(key: KeyOf, steps: seq<Step>, t: TxId, i: nat)
    requires var s := Execute(key, EMPTY, steps);
             t in s.txs && Next(key, s, Commit(t)) != s && i < |s.txs[t].budgets|
    ensures var s := Execute(key, EMPTY, steps); var tx := s.txs[t];
            tx.phase.Inserting?
            && |set k | 0 <= k < |s.rows| && s.rows[k].bucket == tx.budgets[i].bucket
                        && s.rows[k].attemptedAt >= tx.phase.now - tx.budgets[i].windowSeconds| < tx.budgets[i].limit
  {
    RunsKeepInv(key, EMPTY, steps);
    var s := Execute(key, EMPTY, steps);
    var tx := s.txs[t];
    assert TxOk(key, s.rows, tx) && Passed(tx, i);
    SinceArePositions(s.rows, tx.budgets[i].bucket, tx.phase.now - tx.budgets[i].windowSeconds);
  }

  // ---------------------------------------------------------------- no deadlock, always an end

  predicate Waiting(tx: Tx) {
    tx.phase.Locking? && tx.phase.held < |tx.keys|
  }

  predicate Blocked(s: System, t: TxId) {
    t in s.txs && Waiting(s.txs[t]) && HeldByAnother(s, t, s.txs[t].keys[s.txs[t].phase.held])
  }

  ghost function WaitingAbove(s: System, k: int): set<TxId> {
    set t | t in s.txs && Waiting(s.txs[t]) && s.txs[t].keys[s.txs[t].phase.held] > k
  }

  /** Following who-waits-for-whom climbs strictly through the keys, so it ends at someone who can run. */
  lemma {:induction false} SomeoneCanRun(key: KeyOf, s: System, t: TxId) returns (r: TxId)
    requires Inv(key, s) && t in s.txs && !Finished(s.txs[t])
    ensures r in s.txs && !Finished(s.txs[r]) && !Blocked(s, r)
    decreases if Waiting(s.txs[t]) then WaitingAbove(s, s.txs[t].keys[s.txs[t].phase.held]) else {}, Waiting(s.txs[t])
  {
    if !Blocked(s, t) {
      r := t;
    } else {
      var k := s.txs[t].keys[s.txs[t].phase.held];
      var u :| u in s.txs && u != t && Holds(s.txs[u], k);
      if !Waiting(s.txs[u]) {
        r := u;
      } else {
        assert TxOk(key, s.rows, s.txs[u]);
        KeysAreSortedAndComplete(key, s.txs[u].budgets);
        var h := s.txs[u].phase.held;
        var j :| 0 <= j < h && s.txs[u].keys[j] == k;
        assert k < s.txs[u].keys[h];
        assert u in WaitingAbove(s, k) && u !in WaitingAbove(s, s.txs[u].keys[h]);
        r := SomeoneCanRun(key, s, u);
      }
    }
  }

  /** Steps a transaction still needs, its own commit included. */
  function Remaining(tx: Tx): nat {
    match tx.phase
    case Locking(held) => (if held <= |tx.keys| then |tx.keys| - held else 0) + 2 * |tx.budgets| + 3
    case Checking(_, passed) => (if passed <= |tx.budgets| then |tx.budgets| - passed else 0) + |tx.budgets| + 2
    case Inserting(_) => (if |tx.pending| <= |tx.budgets| then |tx.budgets| - |tx.pending| else 0) + 1
    case _ => 0
  }

  ghost function Work(txs: map<TxId, Tx>, ids: set<TxId>): nat
    requires ids <= txs.Keys
  {
    if ids == {} then 0
    else
      var t :| t in ids;
      Remaining(txs[t]) + Work(txs, ids - {t})
  }

  lemma {:induction false} WorkWithout(txs: map<TxId, Tx>, ids: set<TxId>, t: TxId)
    requires ids <= txs.Keys && t in ids
    ensures Work(txs, ids) == Remaining(txs[t]) + Work(txs, ids - {t})
  {
    var u :| u in ids && Work(txs, ids) == Remaining(txs[u]) + Work(txs, ids - {u});
    if u != t {
      WorkWithout(txs, ids - {u}, t);
      WorkWithout(txs, ids - {t}, u);
      assert ids - {u} - {t} == ids - {t} - {u};
    }
  }

  lemma {:induction false} WorkAgrees(a: map<TxId, Tx>, b: map<TxId, Tx>, ids: set<TxId>)
    requires ids <= a.Keys && ids <= b.Keys
    requires forall t :: t in ids ==> a[t] == b[t]
    ensures Work(a, ids) == Work(b, ids)
  {
    if ids != {} {
      var t :| t in ids;
      WorkWithout(a, ids, t);
      WorkWithout(b, ids, t);
      WorkAgrees(a, b, ids - {t});
    }
  }

  ghost function TotalWork(s: System): nat {
    Work(s.txs, s.txs.Keys)
  }

  /** The step a transaction takes next of its own accord, reading `now` when it reads a clock. */
  function OwnStep(s: System, t: TxId, now: int): Step
    requires t in s.txs
  {
    var tx := s.txs[t];
    if Waiting(tx) then Lock(t)
    else if tx.phase.Locking? then ReadClock(t, now)
    else if tx.phase.Checking? then Check(t)
    else if tx.phase.Inserting? && |tx.pending| < |tx.budgets| then Insert(t)
    else Commit(t)
  }

  /** Every effective step a transaction takes for itself brings the whole system closer to the end. */
  lemma {:induction false} OwnStepsShrinkWork(key: KeyOf, s: System, t: TxId, now: int)
    requires Inv(key, s) && t in s.txs && !Finished(s.txs[t]) && !Blocked(s, t)
    ensures TotalWork(Next(key, s, OwnStep(s, t, now))) < TotalWork(s)
    ensures Next(key, s, OwnStep(s, t, now)).txs.Keys == s.txs.Keys
  {
    var n := Next(key, s, OwnStep(s, t, now));
    assert TxOk(key, s.rows, s.txs[t]);
    assert Remaining(n.txs[t]) < Remaining(s.txs[t]);
    assert n.txs.Keys == s.txs.Keys;
    WorkWithout(s.txs, s.txs.Keys, t);
    WorkWithout(n.txs, n.txs.Keys, t);
    WorkAgrees(s.txs, n.txs, s.txs.Keys - {t});
  }

  ghost predicate AllFinished(s: System) {
    forall t :: t in s.txs ==> Finished(s.txs[t])
  }

  /** Main result: no reachable state is a deadlock. While any reservation is unfinished some
      unfinished one can take its own next step, and letting such steps happen finishes all of
      them within `TotalWork` steps, whatever the clock reads. */
  lemma {:induction false} EveryRunCanFinish(key: KeyOf, s: System, now: int) returns (steps: seq<Step>)
    requires Inv(key, s)
    ensures AllFinished(Execute(key, s, steps)) && |steps| <= TotalWork(s)
    ensures forall i :: 0 <= i < |steps| ==> !steps[i].Abort? && !steps[i].Purge? && !steps[i].Begin?
    decreases TotalWork(s)
  {
    if t :| t in s.txs && !Finished(s.txs[t]) {
      var r := SomeoneCanRun(key, s, t);
      var step := OwnStep(s, r, now);
      OwnStepsShrinkWork(key, s, r, now);
      assert [step][..0] == [] && Execute(key, s, []) == s;
      assert Execute(key, s, [step]) == Next(key, s, step);
      RunsKeepInv(key, s, [step]);
      var rest := EveryRunCanFinish(key, Next(key, s, step), now);
      ExecuteSplits(key, s, [step], rest);
      steps := [step] + rest;
    } else {
      steps := [];
    }
  }

  /** Deadlock freedom of reachable states, said without schedules. */
  lemma {:induction false} NoReachableDeadlock(key: KeyOf, steps: seq<Step>)
    ensures var s := Execute(key, EMPTY, steps);
            AllFinished(s) || exists t :: t in s.txs && !Finished(s.txs[t]) && !Blocked(s, t)
  {
    RunsKeepInv(key, EMPTY, steps);
    var s := Execute(key, EMPTY, steps);
    if t :| t in s.txs && !Finished(s.txs[t]) {
      var r := SomeoneCanRun(key, s, t);
    }
  }
}
