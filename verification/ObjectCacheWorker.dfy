/** The cache operations as they run, with their loops over directory entries and pieces. */
module ObjectCacheWorker {
  import opened Common
  import opened ObjectCache
  import opened ObjectCacheRuns

  class Store {
    const limit: nat
    const digest: Digest
    var files: Files
    var inFlight: map<Name, Task>
    var placed: Files
    var unwritable: bool

    constructor (limit: nat, digest: Digest)
      ensures this.limit == limit && this.digest == digest && State() == EMPTY
    {
      this.limit, this.digest, files, inFlight, placed, unwritable := limit, digest, map[], map[], map[], false;
    }

    ghost function State(): Cache
      reads this
    {
      Cache(files, inFlight, placed, unwritable)
    }

    method ScheduleFill(n: Name, size: int, checksum: string) returns (submitted: bool)
      modifies this`inFlight
      ensures State() == Schedule(old(State()), limit, n, Task(size, checksum))
      ensures submitted <==> State() != old(State())
    {
      if unwritable || limit == 0 || checksum == "" || size <= 0 || size > limit / 4 { return false; }
      if n in files || n in inFlight { return false; }
      inFlight := inFlight[n := Task(size, checksum)];
      submitted := true;
    }

    /** Lists the directory in any order and sorts the entries. */
    method Scan() returns (entries: seq<Entry>, total: nat)
      ensures entries == Listing(files) && total == Stored(files)
    {
      entries, total := [], 0;
      var left := files;
      ghost var done: Files := map[];
      while left.Keys != {}
        invariant forall m :: m in files <==> m in left || m in done
        invariant forall m :: m in left ==> m !in done && left[m] == files[m]
        invariant forall m :: m in done ==> done[m] == files[m]
        invariant IsListing(entries, done)
        invariant total == SizeOf(entries)
        decreases |left|
      {
        var m :| m in left;
        var before := entries;
        ghost var more := done[m := files[m]];
        assert more - {m} == done;
        InsertLists(entries, more, m);
        ListingCountsBytes(entries, done);
        entries := Insert(entries, Entry(left[m].mtime, |left[m].data|, m));
        total := total + |left[m].data|;
        StoredWithout(more, m);
        ListingCountsBytes(entries, more);
        left := left - {m};
        done := more;
      }
      assert done == files;
      ListingIsUnique(entries, Listing(files), files);
      ListingCountsBytes(entries, files);
    }

    /** Deletes from the oldest on until the running total is at the target. */
    method DeleteOldest(entries: seq<Entry>, total: nat, target: nat, fate: Name -> Fate)
      modifies this`files
      ensures files == Deleted(old(files), entries, |entries|, total, target, fate).0
    {
      var running: int := total;
      var i := 0;
      while i < |entries| && running > target
        invariant i <= |entries|
        invariant (files, running) == Deleted(old(files), entries, i, total, target, fate)
      {
        files := FilesAfter(files, entries[i], fate);
        running := RunningAfter(running, entries[i], fate);
        i := i + 1;
      }
      DeletedStops(old(files), entries, i, |entries|, total, target, fate);
    }

    method EvictCopies(fate: Name -> Fate)
      modifies this`files
      ensures files == Evict(old(files), limit, fate)
    {
      var entries, total := Scan();
      ListingCountsBytes(entries, files);
      if total <= limit { return; }
      DeletedIsSwept(files, entries, total, limit * 9 / 10, fate);
      DeleteOldest(entries, total, limit * 9 / 10, fate);
    }

    method Leave(n: Name)
      modifies this`inFlight, this`placed
      ensures State() == Done(old(State()), n)
    {
      inFlight := inFlight - {n};
      placed := placed - {n};
    }

    /** Reads the object piece by piece, verifies what came, and puts the copy in place. */
    method CopyObject(n: Name, writable: bool, claimed: bool, got: Download, now: int) returns (reply: Result<bool, ()>)
      requires n in inFlight
      modifies this`files, this`placed, this`inFlight, this`unwritable
      ensures (State(), reply) == CopyIn(old(State()), digest, n, writable, claimed, got, now)
    {
      var task := inFlight[n];
      if !writable {
        unwritable := true;
        Leave(n);
        return Ok(false);
      }
      if n in files || !claimed {
        Leave(n);
        return Ok(false);
      }
      var written, target: Bytes := 0, [];
      for i := 0 to |got.pieces|
        invariant target == Joined(got.pieces[..i]) && written == |target|
        invariant State() == old(State())
      {
        assert got.pieces[..i + 1] == got.pieces[..i] + [got.pieces[i]];
        JoinedAppend(got.pieces[..i], got.pieces[i]);
        written := written + |got.pieces[i]|;
        target := target + got.pieces[i];
      }
      assert got.pieces[..|got.pieces|] == got.pieces;
      assert target == Joined(got.pieces);
      if got.failed {
        Leave(n);
        return Err(());
      }
      if written != task.size || digest(target) != Lower(task.checksum) {
        Leave(n);
        return Ok(false);
      }
      files := files[n := Copy(target, now)];
      placed := placed[n := Copy(target, now)];
      reply := Ok(true);
    }

    method EvictAndLeave(n: Name, scanned: bool, fate: Name -> Fate)
      requires n in placed
      modifies this`files, this`placed, this`inFlight
      ensures State() == EvictAfter(old(State()), limit, n, scanned, fate)
    {
      if scanned { EvictCopies(fate); }
      Leave(n);
    }

    /** One worker's job: a copy and, when it was stored, the eviction after it. */
    method FillGuarded(n: Name, writable: bool, claimed: bool, got: Download, now: int, scanned: bool, fate: Name -> Fate)
        returns (stored: bool)
      requires MayCopy(State(), n)
      modifies this
      ensures State() == Next(Next(old(State()), limit, digest, DoCopy(n, writable, claimed, got, now)),
                              limit, digest, DoEvict(n, scanned, fate))
      ensures stored <==> writable && claimed && n !in old(files) && !got.failed
                          && Verified(digest, Joined(got.pieces), old(inFlight)[n])
    {
      var reply := CopyObject(n, writable, claimed, got, now);
      stored := reply == Ok(true);
      if stored { EvictAndLeave(n, scanned, fate); }
    }

    method OpenCached(n: Name, now: int) returns (found: Option<Bytes>)
      modifies this`files
      ensures State() == Open(old(State()), limit, n, now)
      ensures found == if limit > 0 && n in old(files) then Some(old(files)[n].data) else None
    {
      if limit == 0 || n !in files { return None; }
      found := Some(files[n].data);
      if now - files[n].mtime > TOUCH_INTERVAL_SECONDS { files := files[n := files[n].(mtime := now)]; }
    }

    method ForgetCopy(n: Name)
      modifies this`files
      ensures State() == Forget(old(State()), n)
    {
      files := files - {n};
    }
  }

  /** After `i` entries: `kept` were refused, and what is still listed is still there. */
  ghost predicate Evicting(before: Files, files: Files, entries: seq<Entry>, kept: seq<Entry>, i: nat,
                           total: int, running: int, target: nat, fate: Name -> Fate)
  {
    && i <= |entries|
    && Sweep(entries, total, target, fate).left == kept + Sweep(entries[i..], running, target, fate).left
    && files == Restrict(before, kept + entries[i..])
    && forall e :: e in kept ==> e in entries[..i]
  }

  function FilesAfter(files: Files, e: Entry, fate: Name -> Fate): Files {
    if fate(e.path) == Refused then files else files - {e.path}
  }

  /** Only a deletion that did not raise counts. */
  function RunningAfter(running: int, e: Entry, fate: Name -> Fate): int {
    if fate(e.path) == Removed then running - e.size else running
  }

  /** The files and the running total once the first `i` entries have had their turn. */
  function Deleted(before: Files, entries: seq<Entry>, i: nat, total: int, target: nat, fate: Name -> Fate): (Files, int)
    requires i <= |entries|
  {
    if i == 0 then (before, total)
    else
      var (files, running) := Deleted(before, entries, i - 1, total, target, fate);
      if running <= target then (files, running)
      else (FilesAfter(files, entries[i - 1], fate), RunningAfter(running, entries[i - 1], fate))
  }

  lemma {:induction false} DeletedStops(before: Files, entries: seq<Entry>, i: nat, n: nat, total: int, target: nat, fate: Name -> Fate)
    requires i <= n <= |entries| && (i == n || Deleted(before, entries, i, total, target, fate).1 <= target)
    ensures Deleted(before, entries, n, total, target, fate) == Deleted(before, entries, i, total, target, fate)
  {
    if i < n { DeletedStops(before, entries, i, n - 1, total, target, fate); }
  }

  /** Either all entries so far had their turn, or the deletions have stopped. */
  lemma {:induction false} DeletedIsEvicting(before: Files, entries: seq<Entry>, i: nat, total: int, target: nat, fate: Name -> Fate)
      returns (j: nat, kept: seq<Entry>)
    requires IsListing(entries, before) && i <= |entries|
    ensures var (files, running) := Deleted(before, entries, i, total, target, fate);
            && j <= i && Evicting(before, files, entries, kept, j, total, running, target, fate)
            && (j == i || running <= target)
  {
    if i == 0 {
      EvictionStarts(before, entries, total, target, fate);
      j, kept := 0, [];
    } else {
      j, kept := DeletedIsEvicting(before, entries, i - 1, total, target, fate);
      var (files, running) := Deleted(before, entries, i - 1, total, target, fate);
      if running > target {
        ListingPathsDiffer(entries, before);
        DeletionKeepsGoing(before, files, entries, kept, j, total, running, target, fate);
        kept := KeptAfter(kept, entries[j], fate);
        j := j + 1;
      }
    }
  }

  lemma {:induction false} DeletedIsSwept(before: Files, entries: seq<Entry>, total: int, target: nat, fate: Name -> Fate)
    requires IsListing(entries, before)
    ensures Deleted(before, entries, |entries|, total, target, fate).0 == Restrict(before, Sweep(entries, total, target, fate).left)
  {
    var j, kept := DeletedIsEvicting(before, entries, |entries|, total, target, fate);
    var (files, running) := Deleted(before, entries, |entries|, total, target, fate);
    EvictionEnds(before, files, entries, kept, j, total, running, target, fate);
  }

  ghost function KeptAfter(kept: seq<Entry>, e: Entry, fate: Name -> Fate): seq<Entry> {
    if fate(e.path) == Refused then kept + [e] else kept
  }

  lemma {:induction false} EvictionStarts(files: Files, entries: seq<Entry>, total: int, target: nat, fate: Name -> Fate)
    requires IsListing(entries, files)
    ensures Evicting(files, files, entries, [], 0, total, total, target, fate)
  {
    assert entries[0..] == entries && [] + entries == entries;
    ListedFilesStay(files, entries);
  }

  lemma {:induction false} EvictionEnds(before: Files, files: Files, entries: seq<Entry>, kept: seq<Entry>, i: nat,
                                        total: int, running: int, target: nat, fate: Name -> Fate)
    requires Evicting(before, files, entries, kept, i, total, running, target, fate) && (i == |entries| || running <= target)
    ensures files == Restrict(before, Sweep(entries, total, target, fate).left)
  {
    assert Sweep(entries[i..], running, target, fate).left == entries[i..];
  }

  lemma {:induction false} DeletionKeepsGoing(before: Files, files: Files, entries: seq<Entry>, kept: seq<Entry>, i: nat,
                                              total: int, running: int, target: nat, fate: Name -> Fate)
    requires Evicting(before, files, entries, kept, i, total, running, target, fate) && i < |entries| && running > target
    requires PathsDiffer(entries)
    ensures var e := entries[i];
            Evicting(before, FilesAfter(files, e, fate), entries, KeptAfter(kept, e, fate), i + 1, total,
                     RunningAfter(running, e, fate), target, fate)
  {
    var e, later := entries[i], entries[i + 1..];
    assert entries[i..] == [e] + later;
    assert entries[i..][1..] == later;
    assert entries[..i + 1] == entries[..i] + [e];
    assert kept + entries[i..] == kept + [e] + later;
    if fate(e.path) != Refused {
      PathGone(entries, kept, i);
      RestrictWithout(before, kept, e, later);
    } else {
      var rest := Sweep(later, running, target, fate).left;
      assert kept + ([e] + rest) == kept + [e] + rest;
    }
  }

  lemma {:induction false} ListedFilesStay(files: Files, es: seq<Entry>)
    requires IsListing(es, files)
    ensures Restrict(files, es) == files
  {
  }

  lemma {:induction false} PathGone(entries: seq<Entry>, kept: seq<Entry>, i: nat)
    requires i < |entries| && PathsDiffer(entries)
    requires forall e :: e in kept ==> e in entries[..i]
    ensures !Lists(kept, entries[i].path) && !Lists(entries[i + 1..], entries[i].path)
  {
    forall j | 0 <= j < |kept| ensures kept[j].path != entries[i].path {
      assert kept[j] in kept;
    }
  }

  lemma {:induction false} RestrictWithout(files: Files, a: seq<Entry>, e: Entry, b: seq<Entry>)
    requires !Lists(a, e.path) && !Lists(b, e.path)
    ensures Restrict(files, a + [e] + b) - {e.path} == Restrict(files, a + b)
  {
    forall n | n != e.path ensures Lists(a + [e] + b, n) <==> Lists(a + b, n) {
      ListsJoined(a + [e], b, n);
      ListsJoined(a, [e], n);
      ListsJoined(a, b, n);
    }
    ListsJoined(a, b, e.path);
  }

  lemma {:induction false} ListsJoined(a: seq<Entry>, b: seq<Entry>, n: Name)
    ensures Lists(a + b, n) <==> Lists(a, n) || Lists(b, n)
  {
    if Lists(a, n) {
      var i :| 0 <= i < |a| && a[i].path == n;
      assert (a + b)[i].path == n;
    }
    if Lists(b, n) {
      var i :| 0 <= i < |b| && b[i].path == n;
      assert (a + b)[|a| + i].path == n;
    }
  }
}
