/**
 The cache over whole runs: admission, background copies, evictions, reads and removals in any order, by
 any number of workers, with any deletion failing. An object is copied by one of them at a time; between
 putting a copy in place and the eviction that follows, anything else may happen, other copies included.
*/
module ObjectCacheRuns {
  import opened Common
  import opened ObjectCache

  /** A stored object's checksum and declared size, as asked for. */
  datatype Task = Task(size: int, checksum: string)

  /** `placed` are the copies put in place whose eviction has not run yet. */
  datatype Cache = Cache(files: Files, inFlight: map<Name, Task>, placed: Files, unwritable: bool)

  /** What reading the object brought, and whether reading it ended in an error. */
  datatype Download = Download(pieces: seq<Bytes>, failed: bool)

  /** The hash of the copied bytes, in lower-case hexadecimal digits. */
  type Digest = Bytes -> string

  predicate Admissible(limit: nat, task: Task) {
    limit > 0 && task.checksum != "" && 0 < task.size <= limit / 4
  }

  function Schedule(c: Cache, limit: nat, n: Name, task: Task): Cache {
    if c.unwritable || !Admissible(limit, task) || n in c.files || n in c.inFlight then c
    else c.(inFlight := c.inFlight[n := task])
  }

  predicate Verified(digest: Digest, data: Bytes, task: Task) {
    |data| == task.size && digest(data) == Lower(task.checksum)
  }

  function Done(c: Cache, n: Name): Cache {
    c.(inFlight := c.inFlight - {n}, placed := c.placed - {n})
  }

  /** Copying up to the moment the copy is in place. `writable`: the directory could be made. `claimed`:
      no other process holds the partial file. A copy that is not stored ends the object's flight. */
  function CopyIn(c: Cache, digest: Digest, n: Name, writable: bool, claimed: bool, got: Download, now: int): (Cache, Result<bool, ()>)
    requires n in c.inFlight
  {
    var copy := Copy(Joined(got.pieces), now);
    if !writable then (Done(c, n).(unwritable := true), Ok(false))
    else if n in c.files || !claimed then (Done(c, n), Ok(false))
    else if got.failed then (Done(c, n), Err(()))
    else if !Verified(digest, copy.data, c.inFlight[n]) then (Done(c, n), Ok(false))
    else (c.(files := c.files[n := copy], placed := c.placed[n := copy]), Ok(true))
  }

  predicate MayCopy(c: Cache, n: Name) {
    n in c.inFlight && n !in c.placed
  }

  /** The eviction after a copy; it gives up when the directory cannot be scanned. */
  ghost function EvictAfter(c: Cache, limit: nat, n: Name, scanned: bool, fate: Name -> Fate): Cache {
    if n !in c.placed then c
    else Done(if scanned then c.(files := Evict(c.files, limit, fate)) else c, n)
  }

  function Open(c: Cache, limit: nat, n: Name, now: int): Cache {
    if limit == 0 || n !in c.files || now - c.files[n].mtime <= TOUCH_INTERVAL_SECONDS then c
    else c.(files := c.files[n := c.files[n].(mtime := now)])
  }

  function Forget(c: Cache, n: Name): Cache {
    c.(files := c.files - {n})
  }

  datatype Step =
    | DoSchedule(name: Name, task: Task)
    | DoCopy(name: Name, writable: bool, claimed: bool, got: Download, now: int)
    | DoEvict(name: Name, scanned: bool, fate: Name -> Fate)
    | DoOpen(name: Name, now: int)
    | DoForget(name: Name)

  ghost function Next(c: Cache, limit: nat, digest: Digest, step: Step): Cache {
    match step
    case DoSchedule(n, task) => Schedule(c, limit, n, task)
    case DoCopy(n, writable, claimed, got, now) =>
      if MayCopy(c, n) then CopyIn(c, digest, n, writable, claimed, got, now).0 else c
    case DoEvict(n, scanned, fate) => EvictAfter(c, limit, n, scanned, fate)
    case DoOpen(n, now) => Open(c, limit, n, now)
    case DoForget(n) => Forget(c, n)
  }

  const EMPTY := Cache(map[], map[], map[], false)

  ghost function Execute(limit: nat, digest: Digest, steps: seq<Step>): Cache {
    if steps == [] then EMPTY
    else Next(Execute(limit, digest, steps[..|steps| - 1]), limit, digest, steps[|steps| - 1])
  }

  // ---------------------------------------------------------------- only verified copies

  ghost predicate Asked(steps: seq<Step>, n: Name, task: Task) {
    exists i :: 0 <= i < |steps| && steps[i] == DoSchedule(n, task)
  }

  /** The copy is byte for byte what some admitted request asked for, as far as its digest can tell. */
  ghost predicate Genuine(limit: nat, digest: Digest, steps: seq<Step>, n: Name, data: Bytes) {
    exists task :: Asked(steps, n, task) && Admissible(limit, task) && Verified(digest, data, task)
  }

  ghost predicate FilesOk(limit: nat, digest: Digest, steps: seq<Step>, files: Files) {
    forall n :: n in files ==> Genuine(limit, digest, steps, n, files[n].data)
  }

  ghost predicate FlightsOk(limit: nat, steps: seq<Step>, inFlight: map<Name, Task>) {
    forall n :: n in inFlight ==> Asked(steps, n, inFlight[n]) && Admissible(limit, inFlight[n])
  }

  predicate PlacedOk(limit: nat, placed: Files) {
    forall n :: n in placed ==> |placed[n].data| <= limit / 4
  }

  ghost predicate Inv(limit: nat, digest: Digest, steps: seq<Step>, c: Cache) {
    FilesOk(limit, digest, steps, c.files) && FlightsOk(limit, steps, c.inFlight) && PlacedOk(limit, c.placed)
  }

  lemma {:induction false} AskedLater(steps: seq<Step>, s: Step, n: Name, task: Task)
    requires Asked(steps, n, task)
    ensures Asked(steps + [s], n, task)
  {
    var i :| 0 <= i < |steps| && steps[i] == DoSchedule(n, task);
    assert (steps + [s])[i] == DoSchedule(n, task);
  }

  lemma {:induction false} InvLater(limit: nat, digest: Digest, steps: seq<Step>, s: Step, c: Cache)
    requires Inv(limit, digest, steps, c)
    ensures Inv(limit, digest, steps + [s], c)
  {
    forall n | n in c.files ensures Genuine(limit, digest, steps + [s], n, c.files[n].data) {
      var task :| Asked(steps, n, task) && Admissible(limit, task) && Verified(digest, c.files[n].data, task);
      AskedLater(steps, s, n, task);
    }
    forall n | n in c.inFlight ensures Asked(steps + [s], n, c.inFlight[n]) {
      AskedLater(steps, s, n, c.inFlight[n]);
    }
  }

  lemma {:induction false} EvictOnlyRemoves(files: Files, limit: nat, fate: Name -> Fate)
    ensures forall n :: n in Evict(files, limit, fate) ==> n in files && Evict(files, limit, fate)[n] == files[n]
  {
  }

  lemma {:induction false} DoneKeepsInv(limit: nat, digest: Digest, steps: seq<Step>, c: Cache, n: Name)
    requires Inv(limit, digest, steps, c)
    ensures Inv(limit, digest, steps, Done(c, n))
  {
  }

  lemma {:induction false} FilesOneMore(limit: nat, digest: Digest, steps: seq<Step>, files: Files, n: Name, copy: Copy, task: Task)
    requires FilesOk(limit, digest, steps, files)
    requires Asked(steps, n, task) && Admissible(limit, task) && Verified(digest, copy.data, task)
    ensures FilesOk(limit, digest, steps, files[n := copy])
  {
    assert Genuine(limit, digest, steps, n, copy.data);
  }

  lemma {:induction false} CopyKeepsInv(limit: nat, digest: Digest, steps: seq<Step>, c: Cache, n: Name, writable: bool, claimed: bool,
                                        got: Download, now: int)
    requires Inv(limit, digest, steps, c) && MayCopy(c, n)
    ensures Inv(limit, digest, steps, CopyIn(c, digest, n, writable, claimed, got, now).0)
  {
    DoneKeepsInv(limit, digest, steps, c, n);
    if CopyIn(c, digest, n, writable, claimed, got, now).1 == Ok(true) {
      var copy := Copy(Joined(got.pieces), now);
      FilesOneMore(limit, digest, steps, c.files, n, copy, c.inFlight[n]);
    }
  }

  lemma {:induction false} FewerFilesOk(limit: nat, digest: Digest, steps: seq<Step>, files: Files, fate: Name -> Fate)
    requires FilesOk(limit, digest, steps, files)
    ensures FilesOk(limit, digest, steps, Evict(files, limit, fate))
  {
    EvictOnlyRemoves(files, limit, fate);
  }

  lemma {:induction false} EvictKeepsInv(limit: nat, digest: Digest, steps: seq<Step>, c: Cache, n: Name, scanned: bool, fate: Name -> Fate)
    requires Inv(limit, digest, steps, c)
    ensures Inv(limit, digest, steps, EvictAfter(c, limit, n, scanned, fate))
  {
    FewerFilesOk(limit, digest, steps, c.files, fate);
    DoneKeepsInv(limit, digest, steps, c, n);
  }

  lemma {:induction false} NextKeepsInv(limit: nat, digest: Digest, steps: seq<Step>, c: Cache, s: Step)
    requires Inv(limit, digest, steps, c)
    ensures Inv(limit, digest, steps + [s], Next(c, limit, digest, s))
  {
    var all := steps + [s];
    InvLater(limit, digest, steps, s, c);
    match s
    case DoSchedule(n, task) => assert all[|steps|] == s;
    case DoCopy(n, writable, claimed, got, now) =>
      if MayCopy(c, n) { CopyKeepsInv(limit, digest, all, c, n, writable, claimed, got, now); }
    case DoEvict(n, scanned, fate) => EvictKeepsInv(limit, digest, all, c, n, scanned, fate);
    case DoOpen(n, now) =>
    case DoForget(n) =>
  }

  /** In every run, every copy that can be opened was asked for within the admission rule, has the
      declared size and matches the declared checksum; so has every copy still being made. */
  lemma {:induction false} OnlyVerifiedCopiesAreStored(limit: nat, digest: Digest, steps: seq<Step>)
    ensures Inv(limit, digest, steps, Execute(limit, digest, steps))
  {
    if steps != [] {
      var front, s := steps[..|steps| - 1], steps[|steps| - 1];
      OnlyVerifiedCopiesAreStored(limit, digest, front);
      NextKeepsInv(limit, digest, front, Execute(limit, digest, front), s);
      assert front + [s] == steps;
    }
  }

  // ---------------------------------------------------------------- the size of the cache

  lemma {:induction false} OpenKeepsBytes(c: Cache, limit: nat, n: Name, now: int)
    ensures Stored(Open(c, limit, n, now).files) == Stored(c.files)
  {
    if n in c.files {
      var after := c.files[n := c.files[n].(mtime := now)];
      StoredWithout(c.files, n);
      StoredWithout(after, n);
      assert after - {n} == c.files - {n};
    }
  }

  lemma {:induction false} ForgetFreesBytes(c: Cache, n: Name)
    ensures Stored(Forget(c, n).files) <= Stored(c.files)
  {
    if n in c.files { StoredWithout(c.files, n); } else { assert c.files - {n} == c.files; }
  }

  lemma NothingStored(files: Files)
    ensures (forall n :: n !in files) ==> Stored(files) == 0
  {
  }

  lemma {:induction false} StoredOneMore(files: Files, n: Name, copy: Copy)
    requires n !in files
    ensures Stored(files[n := copy]) == Stored(files) + |copy.data|
  {
    var after := files[n := copy];
    StoredWithout(after, n);
    assert after - {n} == files;
  }

  lemma {:induction false} StoredPerFile(files: Files, size: nat)
    requires forall n :: n in files ==> |files[n].data| <= size
    ensures Stored(files) <= |files| * size
    decreases |files|
  {
    if files != map[] {
      var n :| n in files;
      StoredWithout(files, n);
      SmallerWithout(files, n);
      StoredPerFile(files - {n}, size);
      OneTimesMore(|files - {n}|, size);
    }
  }

  lemma OneTimesMore(k: nat, size: nat)
    ensures (k + 1) * size == k * size + size
  {
  }

  lemma SmallerWithout(files: Files, n: Name)
    requires n in files
    ensures |files| == |files - {n}| + 1
  {
    assert files == (files - {n})[n := files[n]];
  }

  predicate MayBeDeleted(fate: Fate) {
    fate != Refused
  }

  /** The scan works and no deletion is refused. */
  ghost predicate EvictionWorks(s: Step) {
    s.DoEvict? ==> s.scanned && forall n :: MayBeDeleted(s.fate(n))
  }

  ghost predicate EvictionsWork(steps: seq<Step>) {
    forall i :: 0 <= i < |steps| ==> EvictionWorks(steps[i])
  }

  lemma {:induction false} CopyKeepsTheLimit(limit: nat, digest: Digest, c: Cache, n: Name, writable: bool, claimed: bool,
                                             got: Download, now: int)
    requires Stored(c.files) <= limit + Stored(c.placed) && MayCopy(c, n)
    ensures var after := CopyIn(c, digest, n, writable, claimed, got, now).0; Stored(after.files) <= limit + Stored(after.placed)
  {
    assert c.placed - {n} == c.placed;
    if CopyIn(c, digest, n, writable, claimed, got, now).1 == Ok(true) {
      var copy := Copy(Joined(got.pieces), now);
      StoredOneMore(c.files, n, copy);
      StoredOneMore(c.placed, n, copy);
    }
  }

  lemma {:induction false} WorkingEvictionFits(files: Files, limit: nat, fate: Name -> Fate)
    requires forall n :: MayBeDeleted(fate(n))
    ensures Stored(Evict(files, limit, fate)) <= limit
  {
    EvictionBringsItUnderTheLimit(files, limit, fate);
    NothingStored(Evict(files, limit, fate));
    assert forall n :: MayBeDeleted(fate(n));
  }

  lemma {:induction false} StepKeepsTheLimit(limit: nat, digest: Digest, c: Cache, s: Step)
    requires Stored(c.files) <= limit + Stored(c.placed) && EvictionWorks(s)
    ensures var after := Next(c, limit, digest, s); Stored(after.files) <= limit + Stored(after.placed)
  {
    match s
    case DoSchedule(_, _) =>
    case DoCopy(n, writable, claimed, got, now) =>
      if MayCopy(c, n) { CopyKeepsTheLimit(limit, digest, c, n, writable, claimed, got, now); }
    case DoEvict(n, scanned, fate) => WorkingEvictionFits(c.files, limit, fate);
    case DoOpen(n, now) => OpenKeepsBytes(c, limit, n, now);
    case DoForget(n) => ForgetFreesBytes(c, n);
  }

  lemma {:induction false} LimitWithPlaced(limit: nat, digest: Digest, steps: seq<Step>)
    requires EvictionsWork(steps)
    ensures var c := Execute(limit, digest, steps); Stored(c.files) <= limit + Stored(c.placed)
  {
    if steps != [] {
      var front := steps[..|steps| - 1];
      LimitWithPlaced(limit, digest, front);
      StepKeepsTheLimit(limit, digest, Execute(limit, digest, front), steps[|steps| - 1]);
    }
  }

  /** As long as scans work and no deletion is refused, the cache is over its limit by no more than the
      copies whose eviction is still to come, each at most a quarter of the limit, however many workers and
      processes share the directory. Once the evictions have run it is within its limit. */
  lemma {:induction false} TheLimitHolds(limit: nat, digest: Digest, steps: seq<Step>)
    requires EvictionsWork(steps)
    ensures var c := Execute(limit, digest, steps);
            && Stored(c.files) <= limit + Stored(c.placed)
            && Stored(c.placed) <= |c.placed| * (limit / 4)
            && (c.placed == map[] ==> Stored(c.files) <= limit)
  {
    LimitWithPlaced(limit, digest, steps);
    OnlyVerifiedCopiesAreStored(limit, digest, steps);
    StoredPerFile(Execute(limit, digest, steps).placed, limit / 4);
  }

  /** In every run, a finished copy newer than all others is there to be opened after its eviction, unless
      other files could not be deleted. */
  lemma {:induction false} AFilledCopyCanBeOpened(limit: nat, digest: Digest, steps: seq<Step>, n: Name, got: Download, now: int,
                                                  scanned: bool, fate: Name -> Fate)
    requires var c := Execute(limit, digest, steps);
             && MayCopy(c, n) && n !in c.files && !got.failed
             && Verified(digest, Joined(got.pieces), c.inFlight[n])
             && (forall m :: m in c.files ==> c.files[m].mtime < now && fate(m) == Removed)
    ensures var after := Execute(limit, digest, steps + [DoCopy(n, true, true, got, now)] + [DoEvict(n, scanned, fate)]);
            n in after.files && after.files[n].data == Joined(got.pieces)
  {
    var c := Execute(limit, digest, steps);
    var copying, evicting := DoCopy(n, true, true, got, now), DoEvict(n, scanned, fate);
    assert (steps + [copying])[..|steps|] == steps;
    assert (steps + [copying] + [evicting])[..|steps + [copying]|] == steps + [copying];
    OnlyVerifiedCopiesAreStored(limit, digest, steps);
    var files := c.files[n := Copy(Joined(got.pieces), now)];
    AdmittedCopySurvives(files, limit, fate, n);
    EvictOnlyRemoves(files, limit, fate);
  }
}
