/**
 The dependency-ordered erasure loop. Rows reference each other; deleting a batch takes with it
 everything that cascades from it, and is refused while any row still protects a row of that
 closure. The loop retries the refused labels until nothing is left or nothing moves.
*/
module Erasure {
  import opened Common

  type RowId = nat
  type Label = string

  /** `child` holds a foreign key to `parent`. */
  datatype Edge = Edge(child: RowId, parent: RowId)

  /** `selected` are the labels that select at least one row, with the row keys frozen beforehand.
      `cleared[l]` are the nullable self-references that trying label `l` sets to null first.
      `foreign` are the rows whose ownership fields name somebody else. */
  datatype Problem = Problem(
    rows: set<RowId>,
    cascade: set<Edge>,
    protect: set<Edge>,
    selected: map<Label, set<RowId>>,
    cleared: map<Label, set<Edge>>,
    foreign: set<RowId>)

  /** Only references held by a label's own rows are cleared when it is tried. */
  ghost predicate WellFormed(p: Problem) {
    && p.cleared.Keys == p.selected.Keys
    && (forall l, e :: l in p.cleared && e in p.cleared[l] ==> e.child in p.selected[l])
  }

  // ---------------------------------------------------------------- cascades

  function Dependents(p: Problem, db: set<RowId>, batch: set<RowId>): set<RowId> {
    set e | e in p.cascade && e.child in db && e.parent in batch :: e.child
  }

  function Closure(p: Problem, db: set<RowId>, batch: set<RowId>): set<RowId>
    requires batch <= db
    decreases db - batch
  {
    if Dependents(p, db, batch) <= batch then batch
    else
      var grown := batch + Dependents(p, db, batch);
      assert db - grown < db - batch;
      Closure(p, db, grown)
  }

  ghost predicate CascadeClosed(p: Problem, db: set<RowId>, batch: set<RowId>) {
    forall e :: e in p.cascade && e.child in db && e.parent in batch ==> e.child in batch
  }

  lemma {:induction false} ClosureIsLeast(p: Problem, db: set<RowId>, batch: set<RowId>)
    requires batch <= db
    ensures batch <= Closure(p, db, batch) <= db
    ensures CascadeClosed(p, db, Closure(p, db, batch))
    ensures forall t: set<RowId> :: batch <= t && CascadeClosed(p, db, t) ==> Closure(p, db, batch) <= t
    decreases db - batch
  {
    if Dependents(p, db, batch) <= batch {
      forall e | e in p.cascade && e.child in db && e.parent in batch ensures e.child in batch {
        assert e.child in Dependents(p, db, batch);
      }
    } else {
      var grown := batch + Dependents(p, db, batch);
      assert db - grown < db - batch;
      ClosureIsLeast(p, db, grown);
      forall t: set<RowId> | batch <= t && CascadeClosed(p, db, t) ensures Closure(p, db, batch) <= t {
        assert grown <= t;
      }
    }
  }

  lemma {:induction false} ClosureGrows(p: Problem, db: set<RowId>, small: set<RowId>, large: set<RowId>)
    requires small <= large <= db
    ensures Closure(p, db, small) <= Closure(p, db, large)
  {
    ClosureIsLeast(p, db, small);
    ClosureIsLeast(p, db, large);
  }

  // ---------------------------------------------------------------- what is left after some labels

  function RowsOf(p: Problem, done: set<Label>): set<RowId> {
    set l, x | l in done && l in p.selected && x in p.selected[l] && x in p.rows :: x
  }

  /** The rows that remain once the labels in `done` are deleted, in whatever order. */
  function Left(p: Problem, done: set<Label>): set<RowId> {
    p.rows - Closure(p, p.rows, RowsOf(p, done))
  }

  /** What trying a label would delete, given the rows still there. */
  function Doomed(p: Problem, db: set<RowId>, l: Label): set<RowId>
    requires l in p.selected
  {
    Closure(p, db, p.selected[l] * db)
  }

  predicate Protected(p: Problem, db: set<RowId>, l: Label)
    requires l in p.selected && l in p.cleared
  {
    exists e :: e in p.protect && e.child in db && e.parent in Doomed(p, db, l) && e !in p.cleared[l]
  }

  lemma {:induction false} LeftShrinks(p: Problem, small: set<Label>, large: set<Label>)
    requires small <= large
    ensures Left(p, large) <= Left(p, small)
  {
    assert RowsOf(p, small) <= RowsOf(p, large);
    ClosureGrows(p, p.rows, RowsOf(p, small), RowsOf(p, large));
  }

  /** Deleting one more label from what is left is the same as having deleted it with the others. */
  lemma {:induction false} DeletingOneMore(p: Problem, done: set<Label>, l: Label)
    requires l in p.selected
    ensures Left(p, done + {l}) == Left(p, done) - Doomed(p, Left(p, done), l)
  {
    var gone := Closure(p, p.rows, RowsOf(p, done));
    var db := Left(p, done);
    var both := Closure(p, p.rows, RowsOf(p, done + {l}));
    var doomed := Doomed(p, db, l);
    ClosureIsLeast(p, p.rows, RowsOf(p, done));
    ClosureIsLeast(p, p.rows, RowsOf(p, done + {l}));
    ClosureIsLeast(p, db, p.selected[l] * db);
    assert CascadeClosed(p, p.rows, gone + doomed);
    assert RowsOf(p, done + {l}) <= gone + doomed;
    assert both <= gone + doomed;
    assert CascadeClosed(p, db, both * db);
    assert p.selected[l] * db <= both * db;
    assert RowsOf(p, done) <= both;
    assert gone + doomed <= both;
  }

  /** With fewer rows left a label can only become easier to delete. */
  lemma {:induction false} ProtectionOnlyFades(p: Problem, small: set<RowId>, large: set<RowId>, l: Label)
    requires l in p.selected && l in p.cleared && small <= large && Protected(p, small, l)
    ensures Protected(p, large, l)
  {
    ClosureIsLeast(p, large, p.selected[l] * large);
    ClosureIsLeast(p, small, p.selected[l] * small);
    var outer := Doomed(p, large, l);
    assert CascadeClosed(p, small, outer);
    assert Doomed(p, small, l) <= outer;
    var e :| e in p.protect && e.child in small && e.parent in Doomed(p, small, l) && e !in p.cleared[l];
    assert e.child in large && e.parent in outer;
  }

  // ---------------------------------------------------------------- the stuck set

  /** Every member is protected even after all other labels are gone: by a member or by an outside record. */
  ghost predicate MutuallyStuck(p: Problem, stuck: set<Label>)
    requires WellFormed(p)
  {
    stuck <= p.selected.Keys && forall l :: l in stuck ==> Protected(p, Left(p, p.selected.Keys - stuck), l)
  }

  /** Delete whatever can be deleted until nothing more can. */
  ghost function Drain(p: Problem, done: set<Label>): set<Label>
    requires WellFormed(p) && done <= p.selected.Keys
    decreases p.selected.Keys - done
  {
    if exists l :: l in p.selected.Keys - done && !Protected(p, Left(p, done), l)
    then
      var l :| l in p.selected.Keys - done && !Protected(p, Left(p, done), l);
      Drain(p, done + {l})
    else done
  }

  ghost function StuckSet(p: Problem): set<Label>
    requires WellFormed(p)
  {
    p.selected.Keys - Drain(p, {})
  }

  /** A label that could be deleted belongs to no set that blocks itself. */
  lemma {:induction false} DeletableIsNeverStuck(p: Problem, done: set<Label>, l: Label, stuck: set<Label>)
    requires WellFormed(p) && MutuallyStuck(p, stuck) && done <= p.selected.Keys && done !! stuck
    requires l in p.selected && !Protected(p, Left(p, done), l)
    ensures l !in stuck
  {
    if l in stuck {
      LeftShrinks(p, done, p.selected.Keys - stuck);
      ProtectionOnlyFades(p, Left(p, p.selected.Keys - stuck), Left(p, done), l);
    }
  }

  lemma {:induction false} DrainAvoidsStuck(p: Problem, done: set<Label>)
    requires WellFormed(p) && done <= p.selected.Keys
    ensures done <= Drain(p, done) <= p.selected.Keys
    ensures forall l :: l in p.selected.Keys - Drain(p, done) ==> Protected(p, Left(p, Drain(p, done)), l)
    ensures forall stuck :: MutuallyStuck(p, stuck) && done !! stuck ==> Drain(p, done) !! stuck
    decreases p.selected.Keys - done
  {
    if exists l :: l in p.selected.Keys - done && !Protected(p, Left(p, done), l) {
      var l :| l in p.selected.Keys - done && !Protected(p, Left(p, done), l) && Drain(p, done) == Drain(p, done + {l});
      DrainAvoidsStuck(p, done + {l});
      forall stuck | MutuallyStuck(p, stuck) && done !! stuck ensures Drain(p, done) !! stuck {
        DeletableIsNeverStuck(p, done, l, stuck);
      }
    }
  }

  /** Main result: there is a largest set of labels that block each other or are blocked from outside,
      and every such set is part of it. */
  lemma {:induction false} StuckSetIsTheLargest(p: Problem)
    requires WellFormed(p)
    ensures MutuallyStuck(p, StuckSet(p))
    ensures forall stuck :: MutuallyStuck(p, stuck) ==> stuck <= StuckSet(p)
  {
    DrainAvoidsStuck(p, {});
    assert p.selected.Keys - StuckSet(p) == Drain(p, {});
  }

  /** Any maximal sequence of successful deletions, however ordered, leaves exactly the stuck set. */
  lemma {:induction false} AnyMaximalDrainIsTheSame(p: Problem, done: set<Label>)
    requires WellFormed(p) && done <= p.selected.Keys
    requires forall stuck :: MutuallyStuck(p, stuck) ==> done !! stuck
    requires forall l :: l in p.selected.Keys - done ==> Protected(p, Left(p, done), l)
    ensures p.selected.Keys - done == StuckSet(p)
  {
    StuckSetIsTheLargest(p);
    assert p.selected.Keys - (p.selected.Keys - done) == done;
    assert MutuallyStuck(p, p.selected.Keys - done);
  }

  /** Everything can be erased exactly when no set of labels blocks itself. */
  lemma {:induction false} ErasesEverythingIff(p: Problem)
    requires WellFormed(p)
    ensures StuckSet(p) == {} <==> forall stuck :: MutuallyStuck(p, stuck) ==> stuck == {}
  {
    StuckSetIsTheLargest(p);
  }

  /** Acyclic protection with no outside protector: each label ranks above whoever protects it. */
  ghost predicate Ranked(p: Problem, rank: Label -> nat) {
    forall l, e :: l in p.selected && l in p.cleared && e in p.protect && e.child in p.rows
                   && e.parent in Doomed(p, p.rows, l) && e !in p.cleared[l] ==>
      exists m :: m in p.selected && rank(m) < rank(l) && e.child in p.selected[m]
  }

  lemma {:induction false} LowestIsFree(p: Problem, rank: Label -> nat, stuck: set<Label>, l: Label)
    requires WellFormed(p) && Ranked(p, rank) && l in stuck && stuck <= p.selected.Keys
    requires forall m :: m in stuck ==> rank(l) <= rank(m)
    ensures !Protected(p, Left(p, p.selected.Keys - stuck), l)
  {
    var done := p.selected.Keys - stuck;
    var db := Left(p, done);
    ClosureIsLeast(p, p.rows, p.selected[l] * p.rows);
    ClosureIsLeast(p, db, p.selected[l] * db);
    ClosureIsLeast(p, p.rows, RowsOf(p, done));
    assert CascadeClosed(p, db, Doomed(p, p.rows, l));
    forall e | e in p.protect && e.child in p.rows && e.parent in Doomed(p, db, l) && e !in p.cleared[l]
      ensures e.child !in db
    {
      var m :| m in p.selected && rank(m) < rank(l) && e.child in p.selected[m];
      assert m in done;
      assert e.child in RowsOf(p, done);
    }
  }

  lemma {:induction false} LowestOf(stuck: set<Label>, rank: Label -> nat) returns (l: Label)
    requires stuck != {}
    ensures l in stuck && forall m :: m in stuck ==> rank(l) <= rank(m)
  {
    l :| l in stuck;
    if stuck != {l} {
      var rest := LowestOf(stuck - {l}, rank);
      if rank(rest) < rank(l) { l := rest; }
    }
  }

  /** Children protect their parents in ranks and nothing outside protects: everything goes. */
  lemma {:induction false} AcyclicProtectionErasesEverything(p: Problem, rank: Label -> nat)
    requires WellFormed(p) && Ranked(p, rank)
    ensures StuckSet(p) == {}
  {
    StuckSetIsTheLargest(p);
    if StuckSet(p) != {} {
      var l := LowestOf(StuckSet(p), rank);
      LowestIsFree(p, rank, StuckSet(p), l);
    }
  }

  // ---------------------------------------------------------------- the loop

  datatype Outcome =
    | Erased(left: set<RowId>)
    | NeedsReview(stuck: set<Label>)
    | SharedData

  /** Rows of somebody else are met exactly when what can be deleted takes one along. */
  ghost predicate MeetsForeign(p: Problem)
    requires WellFormed(p)
  {
    (p.rows - Left(p, Drain(p, {}))) * p.foreign != {}
  }

  ghost function Expected(p: Problem): Outcome
    requires WellFormed(p)
  {
    if MeetsForeign(p) then SharedData
    else if StuckSet(p) != {} then NeedsReview(StuckSet(p))
    else Erased(Left(p, p.selected.Keys))
  }

  ghost predicate Lists(order: seq<Label>, labels: set<Label>) {
    (forall i, j :: 0 <= i < j < |order| ==> order[i] != order[j]) && (forall l :: l in order <==> l in labels)
  }

  function Remove(order: seq<Label>, l: Label): seq<Label> {
    if order == [] then []
    else if order[0] == l then order[1..]
    else [order[0]] + Remove(order[1..], l)
  }

  lemma {:induction false} RemoveCorrect(order: seq<Label>, l: Label, labels: set<Label>)
    requires Lists(order, labels) && l in labels
    ensures Lists(Remove(order, l), labels - {l}) && |Remove(order, l)| == |order| - 1
  {
    assert order[0] in order;
    if order[0] == l {
      assert forall x :: x in order <==> x == l || x in order[1..];
    } else {
      assert forall x :: x in order <==> x == order[0] || x in order[1..];
      RemoveCorrect(order[1..], l, labels - {order[0]});
      var rest := Remove(order[1..], l);
      assert forall j :: 0 <= j < |rest| ==> rest[j] in rest;
    }
  }

  /** What the loop has achieved: rows left are those of the labels done, none of which was ever stuck,
      and nobody else's row has gone. */
  ghost predicate Progressed(p: Problem, done: set<Label>, db: set<RowId>)
    requires WellFormed(p)
  {
    && done <= p.selected.Keys
    && db == Left(p, done)
    && (forall stuck :: MutuallyStuck(p, stuck) ==> done !! stuck)
    && (p.rows - db) * p.foreign == {}
  }

  /** What one attempt takes: the least set of rows that holds the label's own and everything that cascades
      from it. It is refused exactly when a row that is left, inside that set or not, protects a row of it. */
  lemma {:induction false} OneDeletionTakesTheLeast(p: Problem, db: set<RowId>, l: Label, t: set<RowId>)
    requires l in p.selected && l in p.cleared
    requires p.selected[l] * db <= t <= db && CascadeClosed(p, db, t)
    requires forall u: set<RowId> :: p.selected[l] * db <= u && CascadeClosed(p, db, u) ==> t <= u
    ensures Doomed(p, db, l) == t
    ensures Protected(p, db, l) <==> exists e :: e in p.protect && e !in p.cleared[l] && e.child in db && e.parent in t
  {
    ClosureIsLeast(p, db, p.selected[l] * db);
    assert t <= Doomed(p, db, l);
  }

  /** One attempt: refused while protected, an abort when it would take somebody else's row. */
  method TryLabel(p: Problem, db: set<RowId>, l: Label) returns (deleted: Option<set<RowId>>, shared: bool)
    requires l in p.selected && l in p.cleared
    ensures deleted.None? && !shared <==> Protected(p, db, l)
    ensures shared ==> !Protected(p, db, l) && Doomed(p, db, l) * p.foreign != {}
    ensures deleted.Some? ==> !shared && deleted.value == Doomed(p, db, l) && deleted.value * p.foreign == {}
  {
    var doomed := Closure(p, db, p.selected[l] * db);
    if Protected(p, db, l) { return None, false; }
    if doomed * p.foreign != {} { return None, true; }
    return Some(doomed), false;
  }

  /** The outcome is the same for every order in which the labels are kept: the order only decides
      how many passes it takes. */
  method EraseSelected(p: Problem, order: seq<Label>) returns (outcome: Outcome)
    requires WellFormed(p) && Lists(order, p.selected.Keys)
    ensures outcome == Expected(p)
  {
    var remaining := order;
    var db := p.rows;
    ghost var done: set<Label> := {};
    StartsProgressed(p);
    while remaining != []
      invariant Progressed(p, done, db) && Lists(remaining, p.selected.Keys - done)
      decreases |remaining|
    {
      var snapshot := remaining;
      var progress := false;
      ghost var doneBefore := done;
      for i := 0 to |snapshot|
        invariant Progressed(p, done, db) && Lists(remaining, p.selected.Keys - done) && doneBefore <= done
        invariant forall j :: i <= j < |snapshot| ==> snapshot[j] !in done
        invariant |remaining| <= |snapshot| && (progress ==> |remaining| < |snapshot|)
        invariant !progress ==> done == doneBefore && remaining == snapshot
        invariant !progress ==> forall j :: 0 <= j < i ==> snapshot[j] in p.selected && Protected(p, db, snapshot[j])
      {
        var l := snapshot[i];
        assert l in snapshot && l in p.selected.Keys - doneBefore;
        var deleted, shared := TryLabel(p, db, l);
        if shared {
          SharedIsExpected(p, done, db, l);
          return SharedData;
        }
        if deleted.Some? {
          LabelDone(p, done, db, l);
          RemoveCorrect(remaining, l, p.selected.Keys - done);
          db := db - deleted.value;
          remaining := Remove(remaining, l);
          done := done + {l};
          assert p.selected.Keys - done == p.selected.Keys - (done - {l}) - {l};
          progress := true;
        }
      }
      if !progress {
        forall l | l in p.selected.Keys - done ensures Protected(p, db, l) {
          assert l in snapshot;
        }
        AnyMaximalDrainIsTheSame(p, done);
        StuckIsExpected(p, done, db);
        var names := set l | l in remaining;
        assert names == p.selected.Keys - done && remaining[0] in names;
        return NeedsReview(names);
      }
    }
    forall l | l in p.selected.Keys ensures l in done {
      assert l in remaining <==> l in p.selected.Keys - done;
    }
    AnyMaximalDrainIsTheSame(p, done);
    StuckIsExpected(p, done, db);
    outcome := Erased(db);
  }

  lemma {:induction false} StartsProgressed(p: Problem)
    requires WellFormed(p)
    ensures Progressed(p, {}, p.rows)
  {
    assert RowsOf(p, {}) == {};
    ClosureIsLeast(p, p.rows, {});
    assert CascadeClosed(p, p.rows, {});
  }

  lemma {:induction false} LabelDone(p: Problem, done: set<Label>, db: set<RowId>, l: Label)
    requires WellFormed(p) && Progressed(p, done, db) && l in p.selected && !Protected(p, db, l)
    requires Doomed(p, db, l) * p.foreign == {}
    ensures Progressed(p, done + {l}, db - Doomed(p, db, l))
  {
    DeletingOneMore(p, done, l);
    ClosureIsLeast(p, db, p.selected[l] * db);
    forall stuck | MutuallyStuck(p, stuck) ensures done + {l} !! stuck {
      DeletableIsNeverStuck(p, done, l, stuck);
    }
    assert p.rows - (db - Doomed(p, db, l)) <= (p.rows - db) + Doomed(p, db, l);
  }

  lemma {:induction false} StuckIsExpected(p: Problem, done: set<Label>, db: set<RowId>)
    requires WellFormed(p) && Progressed(p, done, db) && p.selected.Keys - done == StuckSet(p)
    ensures !MeetsForeign(p)
    ensures done == p.selected.Keys ==> Expected(p) == Erased(db)
    ensures done != p.selected.Keys ==> Expected(p) == NeedsReview(p.selected.Keys - done)
  {
    DrainAvoidsStuck(p, {});
    assert done == Drain(p, {}) by {
      assert done == p.selected.Keys - (p.selected.Keys - done);
      assert Drain(p, {}) == p.selected.Keys - StuckSet(p);
    }
    if done != p.selected.Keys {
      var l :| l in p.selected.Keys && l !in done;
      assert l in StuckSet(p);
    }
  }

  lemma {:induction false} SharedIsExpected(p: Problem, done: set<Label>, db: set<RowId>, l: Label)
    requires WellFormed(p) && Progressed(p, done, db) && l in p.selected && !Protected(p, db, l)
    requires Doomed(p, db, l) * p.foreign != {}
    ensures Expected(p) == SharedData
  {
    var x :| x in Doomed(p, db, l) && x in p.foreign;
    DeletingOneMore(p, done, l);
    ClosureIsLeast(p, db, p.selected[l] * db);
    StuckSetIsTheLargest(p);
    DrainAvoidsStuck(p, {});
    DeletableIsNeverStuck(p, done, l, StuckSet(p));
    assert done + {l} <= Drain(p, {});
    LeftShrinks(p, done + {l}, Drain(p, {}));
    assert x in p.rows && x !in Left(p, Drain(p, {}));
  }

  // ---------------------------------------------------------------- nothing is left dangling

  ghost predicate NothingDangles(p: Problem, db: set<RowId>) {
    && (forall e :: e in p.cascade && e.child in db && e.parent in p.rows ==> e.parent in db)
    && (forall e :: e in p.protect && e.child in db && e.parent in p.rows ==> e.parent in db)
  }

  lemma {:induction false} ProtectorIsDoomedToo(p: Problem, db: set<RowId>, l: Label, e: Edge)
    requires WellFormed(p) && l in p.selected && !Protected(p, db, l)
    requires e in p.protect && e.child in db && e.parent in Doomed(p, db, l)
    ensures e.child in Doomed(p, db, l)
  {
    ClosureIsLeast(p, db, p.selected[l] * db);
    assert e in p.cleared[l];
  }

  lemma {:induction false} DeletionLeavesNothingDangling(p: Problem, done: set<Label>, l: Label)
    requires WellFormed(p) && NothingDangles(p, Left(p, done)) && l in p.selected && !Protected(p, Left(p, done), l)
    ensures NothingDangles(p, Left(p, done + {l}))
  {
    var db := Left(p, done);
    DeletingOneMore(p, done, l);
    ClosureIsLeast(p, db, p.selected[l] * db);
    var after := Left(p, done + {l});
    forall e | e in p.protect && e.child in after && e.parent in p.rows ensures e.parent in after {
      if e.parent in Doomed(p, db, l) { ProtectorIsDoomedToo(p, db, l, e); }
    }
  }

  lemma {:induction false} DrainLeavesNothingDangling(p: Problem, done: set<Label>)
    requires WellFormed(p) && done <= p.selected.Keys && NothingDangles(p, Left(p, done))
    ensures NothingDangles(p, Left(p, Drain(p, done)))
    decreases p.selected.Keys - done
  {
    if exists l :: l in p.selected.Keys - done && !Protected(p, Left(p, done), l) {
      var l :| l in p.selected.Keys - done && !Protected(p, Left(p, done), l) && Drain(p, done) == Drain(p, done + {l});
      DeletionLeavesNothingDangling(p, done, l);
      DrainLeavesNothingDangling(p, done + {l});
    }
  }

  /** A completed erasure removes every selected row, and no surviving record refers to a removed one
      through a protecting or cascading key. */
  lemma {:induction false} ErasureIsCompleteAndClean(p: Problem)
    requires WellFormed(p) && Expected(p).Erased?
    ensures NothingDangles(p, Expected(p).left)
    ensures forall l :: l in p.selected ==> p.selected[l] * Expected(p).left == {}
    ensures Expected(p).left * p.foreign == p.rows * p.foreign
  {
    StartsProgressed(p);
    DrainAvoidsStuck(p, {});
    assert Drain(p, {}) == p.selected.Keys;
    assert Left(p, {}) == p.rows;
    DrainLeavesNothingDangling(p, {});
    ClosureIsLeast(p, p.rows, RowsOf(p, p.selected.Keys));
    forall l | l in p.selected ensures p.selected[l] * Expected(p).left == {} {
      forall x | x in p.selected[l] && x in p.rows ensures x in RowsOf(p, p.selected.Keys) {
      }
    }
    forall x | x in p.rows && x in p.foreign ensures x in Expected(p).left {
      assert x !in (p.rows - Left(p, Drain(p, {}))) * p.foreign;
    }
    assert Expected(p).left * p.foreign == p.rows * p.foreign;
  }

  // ---------------------------------------------------------------- the outcome, from the records alone

  /** The least set of present rows that holds the batch and every row that cascades from a member. */
  ghost predicate IsCascade(p: Problem, db: set<RowId>, batch: set<RowId>, t: set<RowId>) {
    && batch <= t <= db
    && (forall e :: e in p.cascade && e.child in db && e.parent in t ==> e.child in t)
    && forall u: set<RowId> :: batch <= u && (forall e :: e in p.cascade && e.child in db && e.parent in u ==> e.child in u) ==> t <= u
  }

  predicate RowOfSome(p: Problem, labels: set<Label>, x: RowId) {
    exists l :: l in labels && l in p.selected && x in p.selected[l]
  }

  /** The rows that the deletion of these labels takes. */
  ghost predicate Takes(p: Problem, labels: set<Label>, gone: set<RowId>) {
    IsCascade(p, p.rows, (set x | x in p.rows && RowOfSome(p, labels, x)), gone)
  }

  /** Some row that is there protects one the label's deletion would take, by a reference it does not clear. */
  ghost predicate MeetsProtector(p: Problem, db: set<RowId>, l: Label)
    requires l in p.selected && l in p.cleared
  {
    exists reach, e :: IsCascade(p, db, p.selected[l] * db, reach) && IsProtector(p, db, l, reach, e)
  }

  predicate IsProtector(p: Problem, db: set<RowId>, l: Label, reach: set<RowId>, e: Edge)
    requires l in p.cleared
  {
    e in p.protect && e !in p.cleared[l] && e.child in db && e.parent in reach
  }

  /** With the other labels deleted, each of these still meets a protecting row that is left. */
  ghost predicate BlocksItself(p: Problem, labels: set<Label>) {
    && (forall l :: l in labels ==> l in p.selected && l in p.cleared)
    && exists gone :: Takes(p, p.selected.Keys - labels, gone) && forall l :: l in labels ==> MeetsProtector(p, p.rows - gone, l)
  }

  lemma {:induction false} CascadeIsTheClosure(p: Problem, db: set<RowId>, batch: set<RowId>, t: set<RowId>)
    requires batch <= db
    ensures IsCascade(p, db, batch, t) <==> t == Closure(p, db, batch)
  {
    ClosureIsLeast(p, db, batch);
    var c := Closure(p, db, batch);
    forall u: set<RowId>
      ensures CascadeClosed(p, db, u) <==> forall e :: e in p.cascade && e.child in db && e.parent in u ==> e.child in u
    {}
    if IsCascade(p, db, batch, t) { assert c <= t && t <= c; }
    forall u: set<RowId> | batch <= u && CascadeClosed(p, db, u) ensures c <= u {
      assert CascadeClosed(p, db, u * db) && batch <= u * db;
    }
  }

  lemma {:induction false} TakenRows(p: Problem, labels: set<Label>, gone: set<RowId>)
    ensures Takes(p, labels, gone) <==> gone == p.rows - Left(p, labels)
  {
    var batch := set x | x in p.rows && RowOfSome(p, labels, x);
    assert batch == RowsOf(p, labels);
    ClosureIsLeast(p, p.rows, batch);
    CascadeIsTheClosure(p, p.rows, batch, gone);
    assert p.rows - Left(p, labels) == Closure(p, p.rows, batch);
  }

  lemma {:induction false} ProtectionMeans(p: Problem, db: set<RowId>, l: Label)
    requires l in p.selected && l in p.cleared
    ensures Protected(p, db, l) <==> MeetsProtector(p, db, l)
  {
    var batch := p.selected[l] * db;
    CascadeIsTheClosure(p, db, batch, Doomed(p, db, l));
    if Protected(p, db, l) {
      var e :| e in p.protect && e.child in db && e.parent in Doomed(p, db, l) && e !in p.cleared[l];
      assert IsProtector(p, db, l, Doomed(p, db, l), e);
    }
    if MeetsProtector(p, db, l) {
      var reach, e :| IsCascade(p, db, batch, reach) && IsProtector(p, db, l, reach, e);
      CascadeIsTheClosure(p, db, batch, reach);
    }
  }

  lemma {:induction false} BlockingMeans(p: Problem, labels: set<Label>)
    requires WellFormed(p)
    ensures BlocksItself(p, labels) <==> MutuallyStuck(p, labels)
  {
    var rest := p.selected.Keys - labels;
    var taken := p.rows - Left(p, rest);
    TakenRows(p, rest, taken);
    ClosureIsLeast(p, p.rows, RowsOf(p, rest));
    assert p.rows - taken == Left(p, rest);
    forall l | l in labels && l in p.selected ensures Protected(p, Left(p, rest), l) <==> MeetsProtector(p, Left(p, rest), l) {
      ProtectionMeans(p, Left(p, rest), l);
    }
    if BlocksItself(p, labels) {
      var gone :| Takes(p, rest, gone) && forall l :: l in labels ==> MeetsProtector(p, p.rows - gone, l);
      TakenRows(p, rest, gone);
    }
  }

  lemma {:induction false} StuckSetIsTheLargestBlocking(p: Problem)
    requires WellFormed(p)
    ensures BlocksItself(p, StuckSet(p))
    ensures forall labels :: BlocksItself(p, labels) ==> labels <= StuckSet(p)
  {
    StuckSetIsTheLargest(p);
    BlockingMeans(p, StuckSet(p));
    forall labels | BlocksItself(p, labels) ensures labels <= StuckSet(p) { BlockingMeans(p, labels); }
  }

  lemma {:induction false} ExpectedMeans(p: Problem)
    requires WellFormed(p)
    ensures var gone := p.rows - Left(p, p.selected.Keys - StuckSet(p));
            Expected(p) == if gone * p.foreign != {} then SharedData
                           else if StuckSet(p) != {} then NeedsReview(StuckSet(p))
                           else Erased(p.rows - gone)
  {
    DrainAvoidsStuck(p, {});
    assert p.selected.Keys - StuckSet(p) == Drain(p, {});
    ClosureIsLeast(p, p.rows, RowsOf(p, p.selected.Keys));
    if StuckSet(p) == {} {
      assert p.selected.Keys - StuckSet(p) == p.selected.Keys;
      assert p.rows - (p.rows - Left(p, p.selected.Keys)) == Left(p, p.selected.Keys);
    }
  }

  /** What the loop ends with, for every order of its dictionary. Some set of labels is the largest that
      blocks itself. If deleting the others takes a row of somebody else, the erasure is aborted; otherwise,
      if that set has members, just they are reported for review; otherwise just the rows that the deletion of
      all labels takes are gone. */
  lemma {:induction false} OutcomeIsExact(p: Problem) returns (stuck: set<Label>, gone: set<RowId>)
    requires WellFormed(p)
    ensures BlocksItself(p, stuck) && (forall labels :: BlocksItself(p, labels) ==> labels <= stuck)
    ensures Takes(p, p.selected.Keys - stuck, gone)
    ensures Expected(p) == if gone * p.foreign != {} then SharedData
                           else if stuck != {} then NeedsReview(stuck)
                           else Erased(p.rows - gone)
  {
    StuckSetIsTheLargestBlocking(p);
    ExpectedMeans(p);
    stuck := StuckSet(p);
    gone := p.rows - Left(p, p.selected.Keys - stuck);
    TakenRows(p, p.selected.Keys - stuck, gone);
  }
}
