/**
 Attempt budgets as one atomic step on the attempt table: what a single reservation does,
 and the sliding-window bound it keeps. RateLimitProtocol shows that interleaved
 transactions under advisory locks behave as a sequence of these steps.
*/
module RateLimits {
  import opened Common

  datatype Bucket = Bucket(scope: string, keyHash: string)

  datatype Budget = Budget(bucket: Bucket, windowSeconds: int, limit: int)

  datatype Row = Row(pk: nat, bucket: Bucket, attemptedAt: int)

  /** The window and limit a bucket is configured with. */
  datatype Rule = Rule(windowSeconds: int, limit: int)

  // ---------------------------------------------------------------- counting

  predicate InWindow(r: Row, b: Bucket, since: int) {
    r.bucket == b && r.attemptedAt >= since
  }

  function CountSince(rows: seq<Row>, b: Bucket, since: int): nat {
    if rows == [] then 0
    else CountSince(rows[..|rows| - 1], b, since) + (if InWindow(rows[|rows| - 1], b, since) then 1 else 0)
  }

  /** Attempts of a bucket in the closed interval [from, to]. */
  function CountBetween(rows: seq<Row>, b: Bucket, from: int, to: int): nat {
    if rows == [] then 0
    else CountBetween(rows[..|rows| - 1], b, from, to)
         + (if InWindow(rows[|rows| - 1], b, from) && rows[|rows| - 1].attemptedAt <= to then 1 else 0)
  }

  lemma {:induction false} CountsConcat(a: seq<Row>, c: seq<Row>, b: Bucket, from: int, to: int)
    ensures CountSince(a + c, b, from) == CountSince(a, b, from) + CountSince(c, b, from)
    ensures CountBetween(a + c, b, from, to) == CountBetween(a, b, from, to) + CountBetween(c, b, from, to)
  {
    if c == [] {
      assert a + c == a;
    } else {
      assert (a + c)[..|a + c| - 1] == a + c[..|c| - 1];
      CountsConcat(a, c[..|c| - 1], b, from, to);
    }
  }

  lemma {:induction false} BetweenIsPartOfSince(rows: seq<Row>, b: Bucket, from: int, to: int, since: int)
    requires since <= from
    ensures CountBetween(rows, b, from, to) <= CountSince(rows, b, since)
  {
    if rows != [] { BetweenIsPartOfSince(rows[..|rows| - 1], b, from, to, since); }
  }

  /** How many positions satisfy a condition grows by the last one. */
  lemma {:induction false} PositionsGrow(front: seq<Row>, last: Row, keep: Row -> bool)
    ensures var rows := front + [last];
            |set k | 0 <= k < |rows| && keep(rows[k])| == |set k | 0 <= k < |front| && keep(front[k])| + if keep(last) then 1 else 0
  {
    var rows := front + [last];
    var n := |front|;
    var before := set k | 0 <= k < |front| && keep(front[k]);
    var after := set k | 0 <= k < |rows| && keep(rows[k]);
    assert after == if keep(last) then before + {n} else before;
  }

  /** Both counts are the sizes of sets of row positions. */
  lemma {:induction false} SinceArePositions(rows: seq<Row>, b: Bucket, from: int)
    ensures CountSince(rows, b, from) == |set k | 0 <= k < |rows| && rows[k].bucket == b && rows[k].attemptedAt >= from|
  {
    var keep := (r: Row) => r.bucket == b && r.attemptedAt >= from;
    assert (set k | 0 <= k < |rows| && rows[k].bucket == b && rows[k].attemptedAt >= from)
        == (set k | 0 <= k < |rows| && keep(rows[k]));
    if rows != [] {
      var front, last := rows[..|rows| - 1], rows[|rows| - 1];
      SinceArePositions(front, b, from);
      PositionsGrow(front, last, keep);
      assert rows == front + [last];
      assert (set k | 0 <= k < |front| && front[k].bucket == b && front[k].attemptedAt >= from)
          == (set k | 0 <= k < |front| && keep(front[k]));
    }
  }

  lemma {:induction false} BetweenArePositions(rows: seq<Row>, b: Bucket, from: int, to: int)
    ensures CountBetween(rows, b, from, to)
         == |set k | 0 <= k < |rows| && rows[k].bucket == b && from <= rows[k].attemptedAt <= to|
  {
    var keep := (r: Row) => r.bucket == b && from <= r.attemptedAt <= to;
    assert (set k | 0 <= k < |rows| && rows[k].bucket == b && from <= rows[k].attemptedAt <= to)
        == (set k | 0 <= k < |rows| && keep(rows[k]));
    if rows != [] {
      var front, last := rows[..|rows| - 1], rows[|rows| - 1];
      BetweenArePositions(front, b, from, to);
      PositionsGrow(front, last, keep);
      assert rows == front + [last];
      assert (set k | 0 <= k < |front| && front[k].bucket == b && from <= front[k].attemptedAt <= to)
          == (set k | 0 <= k < |front| && keep(front[k]));
    }
  }

  // ---------------------------------------------------------------- one reservation

  predicate Refuses(rows: seq<Row>, budget: Budget, now: int) {
    CountSince(rows, budget.bucket, now - budget.windowSeconds) >= budget.limit
  }

  predicate Admits(rows: seq<Row>, budgets: seq<Budget>, now: int) {
    forall i :: 0 <= i < |budgets| ==> !Refuses(rows, budgets[i], now)
  }

  /** A reservation is admitted exactly when, for every listed budget, the stored attempts of its bucket
      since its window began are fewer than its limit. */
  lemma {:induction false} AdmissionIsByPositions(rows: seq<Row>, budgets: seq<Budget>, now: int)
    ensures Admits(rows, budgets, now) <==> forall i :: 0 <= i < |budgets| ==>
      |set k | 0 <= k < |rows| && rows[k].bucket == budgets[i].bucket
               && rows[k].attemptedAt >= now - budgets[i].windowSeconds| < budgets[i].limit
  {
    forall i | 0 <= i < |budgets|
      ensures Refuses(rows, budgets[i], now)
              <==> |set k | 0 <= k < |rows| && rows[k].bucket == budgets[i].bucket
                            && rows[k].attemptedAt >= now - budgets[i].windowSeconds| >= budgets[i].limit
    {
      SinceArePositions(rows, budgets[i].bucket, now - budgets[i].windowSeconds);
    }
  }

  /** The rows one grant inserts: one per listed budget, in order, all at the checked time. */
  function Inserted(budgets: seq<Budget>, now: int, pks: seq<nat>): (rows: seq<Row>)
    requires |pks| == |budgets|
    ensures |rows| == |budgets|
    ensures forall i :: 0 <= i < |budgets| ==> rows[i] == Row(pks[i], budgets[i].bucket, now)
  {
    seq(|budgets|, i requires 0 <= i < |budgets| => Row(pks[i], budgets[i].bucket, now))
  }

  function Reserved(rows: seq<Row>, budgets: seq<Budget>, now: int, pks: seq<nat>): seq<Row>
    requires |pks| == |budgets|
  {
    if Admits(rows, budgets, now) then rows + Inserted(budgets, now, pks) else rows
  }

  /** How often a list names a bucket. */
  function Mentions(budgets: seq<Budget>, b: Bucket): nat {
    if budgets == [] then 0
    else Mentions(budgets[..|budgets| - 1], b) + (if budgets[|budgets| - 1].bucket == b then 1 else 0)
  }

  ghost predicate Distinct(budgets: seq<Budget>) {
    forall i, j :: 0 <= i < j < |budgets| ==> budgets[i].bucket != budgets[j].bucket
  }

  lemma {:induction false} MentionsOfDistinct(budgets: seq<Budget>, b: Bucket)
    ensures Mentions(budgets, b) == 0 <==> forall i :: 0 <= i < |budgets| ==> budgets[i].bucket != b
    ensures Distinct(budgets) ==> Mentions(budgets, b) <= 1
  {
    if budgets != [] {
      var rest := budgets[..|budgets| - 1];
      MentionsOfDistinct(rest, b);
      assert forall i :: 0 <= i < |rest| ==> rest[i] == budgets[i];
    }
  }

  lemma {:induction false} InsertedCounts(budgets: seq<Budget>, now: int, pks: seq<nat>, b: Bucket, from: int, to: int)
    requires |pks| == |budgets|
    ensures CountBetween(Inserted(budgets, now, pks), b, from, to) == if from <= now <= to then Mentions(budgets, b) else 0
    ensures CountSince(Inserted(budgets, now, pks), b, from) == if from <= now then Mentions(budgets, b) else 0
  {
    if budgets != [] {
      var k := |budgets| - 1;
      InsertedCounts(budgets[..k], now, pks[..k], b, from, to);
      assert Inserted(budgets, now, pks)[..k] == Inserted(budgets[..k], now, pks[..k]);
    }
  }

  // ---------------------------------------------------------------- the sliding-window bound

  function Cap(rule: Rule): nat {
    if rule.limit > 0 then rule.limit else 0
  }

  /** No interval of the bucket's length holds more than its limit of stored attempts. */
  ghost predicate WithinLimit(rows: seq<Row>, b: Bucket, rule: Rule) {
    forall from, to :: to - from <= rule.windowSeconds ==> CountBetween(rows, b, from, to) <= Cap(rule)
  }

  /** The bucket's own configuration is the one each listed budget of it carries. */
  ghost predicate Follows(budgets: seq<Budget>, b: Bucket, rule: Rule) {
    forall i :: 0 <= i < |budgets| && budgets[i].bucket == b ==>
      budgets[i].windowSeconds == rule.windowSeconds && budgets[i].limit == rule.limit
  }

  /** A reservation that names each bucket at most once keeps the bound, whatever its clock read. */
  lemma {:induction false} ReservationKeepsLimit(rows: seq<Row>, budgets: seq<Budget>, now: int, pks: seq<nat>, b: Bucket, rule: Rule)
    requires |pks| == |budgets|
    requires WithinLimit(rows, b, rule) && Follows(budgets, b, rule) && Mentions(budgets, b) <= 1
    ensures WithinLimit(Reserved(rows, budgets, now, pks), b, rule)
  {
    if Admits(rows, budgets, now) {
      forall from, to | to - from <= rule.windowSeconds
        ensures CountBetween(Reserved(rows, budgets, now, pks), b, from, to) <= Cap(rule)
      {
        CountsConcat(rows, Inserted(budgets, now, pks), b, from, to);
        InsertedCounts(budgets, now, pks, b, from, to);
        MentionsOfDistinct(budgets, b);
        if Mentions(budgets, b) == 1 && from <= now <= to {
          var i :| 0 <= i < |budgets| && budgets[i].bucket == b;
          assert !Refuses(rows, budgets[i], now);
          BetweenIsPartOfSince(rows, b, from, to, now - rule.windowSeconds);
        }
      }
    }
  }

  /** A table at the edge: `limit - 1` attempts of one bucket, all at one instant. */
  function Filled(b: Bucket, at: int, n: nat): (rows: seq<Row>)
    ensures |rows| == n
  {
    if n == 0 then [] else Filled(b, at, n - 1) + [Row(n, b, at)]
  }

  lemma {:induction false} FilledCounts(b: Bucket, at: int, n: nat, x: Bucket, from: int, to: int)
    ensures CountBetween(Filled(b, at, n), x, from, to) == if x == b && from <= at <= to then n else 0
    ensures CountSince(Filled(b, at, n), x, from) == if x == b && from <= at then n else 0
  {
    if n > 0 {
      FilledCounts(b, at, n - 1, x, from, to);
      var last := [Row(n, b, at)];
      CountsConcat(Filled(b, at, n - 1), last, x, from, to);
      assert last[..0] == [];
      assert CountSince(last, x, from) == if x == b && from <= at then 1 else 0;
      assert CountBetween(last, x, from, to) == if x == b && from <= at <= to then 1 else 0;
    }
  }

  /** Naming a bucket twice breaks the bound on some admissible table: with one attempt left,
      both rows are inserted after the same check. */
  lemma {:induction false} NamingABucketTwiceBreaksLimit(budgets: seq<Budget>, b: Bucket, rule: Rule, now: int)
      returns (rows: seq<Row>)
    requires Follows(budgets, b, rule) && Mentions(budgets, b) >= 2
    requires rule.limit > 0 && rule.windowSeconds >= 0
    requires forall i :: 0 <= i < |budgets| ==> budgets[i].limit > 0
    ensures WithinLimit(rows, b, rule) && Admits(rows, budgets, now)
    ensures forall pks: seq<nat> :: |pks| == |budgets| ==> !WithinLimit(Reserved(rows, budgets, now, pks), b, rule)
  {
    rows := Filled(b, now, rule.limit - 1);
    forall from, to | to - from <= rule.windowSeconds ensures CountBetween(rows, b, from, to) <= Cap(rule) {
      FilledCounts(b, now, rule.limit - 1, b, from, to);
    }
    forall i | 0 <= i < |budgets| ensures !Refuses(rows, budgets[i], now) {
      FilledCounts(b, now, rule.limit - 1, budgets[i].bucket, now - budgets[i].windowSeconds, now);
    }
    forall pks: seq<nat> | |pks| == |budgets| ensures !WithinLimit(Reserved(rows, budgets, now, pks), b, rule) {
      CountsConcat(rows, Inserted(budgets, now, pks), b, now, now + rule.windowSeconds);
      InsertedCounts(budgets, now, pks, b, now, now + rule.windowSeconds);
      FilledCounts(b, now, rule.limit - 1, b, now, now + rule.windowSeconds);
      assert CountBetween(Reserved(rows, budgets, now, pks), b, now, now + rule.windowSeconds) > Cap(rule);
    }
  }

  /** Exactly when a request keeps a bucket's bound on every table and at every time: when the
      list of budgets, which the caller builds, names the bucket at most once. */
  lemma {:induction false} LimitHoldsIffBucketNamedOnce(budgets: seq<Budget>, b: Bucket, rule: Rule)
    requires Follows(budgets, b, rule) && rule.limit > 0 && rule.windowSeconds >= 0
    requires forall i :: 0 <= i < |budgets| ==> budgets[i].limit > 0
    ensures (forall rows, now, pks: seq<nat> :: |pks| == |budgets| && WithinLimit(rows, b, rule) ==>
               WithinLimit(Reserved(rows, budgets, now, pks), b, rule))
            <==> Mentions(budgets, b) <= 1
  {
    if Mentions(budgets, b) <= 1 {
      forall rows, now, pks: seq<nat> | |pks| == |budgets| && WithinLimit(rows, b, rule)
        ensures WithinLimit(Reserved(rows, budgets, now, pks), b, rule)
      {
        ReservationKeepsLimit(rows, budgets, now, pks, b, rule);
      }
    } else {
      var rows := NamingABucketTwiceBreaksLimit(budgets, b, rule, 0);
      var pks: seq<nat> := seq(|budgets|, i => 0);
      assert !WithinLimit(Reserved(rows, budgets, 0, pks), b, rule);
    }
  }

  /** A refusal adds nothing; a grant adds to every bucket exactly as many rows as the request
      names it, all stamped with the time the check used. */
  lemma {:induction false} GrantAddsExactlyWhatWasAsked(rows: seq<Row>, budgets: seq<Budget>, now: int, pks: seq<nat>, b: Bucket)
    requires |pks| == |budgets|
    ensures !Admits(rows, budgets, now) ==> Reserved(rows, budgets, now, pks) == rows
    ensures forall from, to :: Admits(rows, budgets, now) ==>
              CountBetween(Reserved(rows, budgets, now, pks), b, from, to)
              == CountBetween(rows, b, from, to) + if from <= now <= to then Mentions(budgets, b) else 0
  {
    forall from, to | Admits(rows, budgets, now)
      ensures CountBetween(Reserved(rows, budgets, now, pks), b, from, to)
              == CountBetween(rows, b, from, to) + if from <= now <= to then Mentions(budgets, b) else 0
    {
      CountsConcat(rows, Inserted(budgets, now, pks), b, from, to);
      InsertedCounts(budgets, now, pks, b, from, to);
    }
  }

  // ---------------------------------------------------------------- the table, updated in place

  class AttemptTable {
    var rows: seq<Row>
    var nextPk: nat

    constructor ()
      ensures rows == [] && nextPk == 0
    {
      rows, nextPk := [], 0;
    }

    method CountAttempts(b: Bucket, since: int) returns (n: nat)
      ensures n == CountSince(rows, b, since)
    {
      n := 0;
      for i := 0 to |rows|
        invariant n == CountSince(rows[..i], b, since)
      {
        assert rows[..i + 1][..i] == rows[..i];
        if InWindow(rows[i], b, since) { n := n + 1; }
      }
      assert rows[..|rows|] == rows;
    }

    /** Checks every budget against the table as it stands, then inserts one row per budget: granted
        exactly when each listed bucket has fewer stored attempts than its limit since its window began. */
    method Reserve(budgets: seq<Budget>, now: int) returns (granted: Option<seq<nat>>)
      modifies this
      ensures granted.Some? <==> forall i :: 0 <= i < |budgets| ==>
        |set k | 0 <= k < |old(rows)| && old(rows)[k].bucket == budgets[i].bucket
                 && old(rows)[k].attemptedAt >= now - budgets[i].windowSeconds| < budgets[i].limit
      ensures granted.Some? ==> |rows| == |old(rows)| + |budgets| && old(rows) <= rows
      ensures granted.Some? ==> forall i :: 0 <= i < |budgets| ==>
        rows[|old(rows)| + i] == Row(old(nextPk) + i, budgets[i].bucket, now)
      ensures granted.Some? <==> Admits(old(rows), budgets, now)
      ensures granted.None? ==> rows == old(rows) && nextPk == old(nextPk)
      ensures granted.Some? ==> |granted.value| == |budgets| && nextPk == old(nextPk) + |budgets|
      ensures granted.Some? ==> rows == Reserved(old(rows), budgets, now, granted.value)
      ensures granted.Some? ==> forall i :: 0 <= i < |budgets| ==> granted.value[i] == old(nextPk) + i
    {
      AdmissionIsByPositions(rows, budgets, now);
      for i := 0 to |budgets|
        invariant forall k :: 0 <= k < i ==> !Refuses(rows, budgets[k], now)
        invariant rows == old(rows) && nextPk == old(nextPk)
      {
        var used := CountAttempts(budgets[i].bucket, now - budgets[i].windowSeconds);
        if used >= budgets[i].limit {
          assert Refuses(rows, budgets[i], now);
          return None;
        }
      }
      var pks: seq<nat> := [];
      for i := 0 to |budgets|
        invariant |pks| == i && nextPk == old(nextPk) + i
        invariant rows == old(rows) + seq(i, k requires 0 <= k < i => Row(old(nextPk) + k, budgets[k].bucket, now))
        invariant forall k :: 0 <= k < i ==> pks[k] == old(nextPk) + k
      {
        rows := rows + [Row(nextPk, budgets[i].bucket, now)];
        pks := pks + [nextPk];
        nextPk := nextPk + 1;
      }
      assert rows == old(rows) + Inserted(budgets, now, pks);
      return Some(pks);
    }
  }
}
