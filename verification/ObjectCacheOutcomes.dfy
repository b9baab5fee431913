/**
 What the cache admits, verifies, stores, refreshes and evicts, told from the files, sizes, times and
 checksums alone.
*/
module ObjectCacheOutcomes {
  import opened Common
  import opened ObjectCache
  import opened ObjectCacheRuns

  // ---------------------------------------------------------------- admission

  /** A copy is scheduled exactly when the directory can be written, the cache is on, the checksum is known,
      the object takes at most a quarter of the limit, and no copy is there or on its way. */
  lemma {:induction false} SchedulesIff(c: Cache, limit: nat, n: Name, size: int, checksum: string)
    ensures var after := Schedule(c, limit, n, Task(size, checksum));
            if !c.unwritable && limit > 0 && |checksum| > 0 && size >= 1 && 4 * size <= limit && n !in c.files && n !in c.inFlight
            then after == c.(inFlight := c.inFlight[n := Task(size, checksum)])
            else after == c
  {
  }

  // ---------------------------------------------------------------- verification

  /** The checksum is the hash up to the case of its letters. */
  predicate SameHash(hash: string, checksum: string) {
    |hash| == |checksum|
    && forall i :: 0 <= i < |checksum| ==>
         if 'A' <= checksum[i] <= 'Z' then hash[i] == checksum[i] - 'A' + 'a' else hash[i] == checksum[i]
  }

  lemma {:induction false} LowerIsPerLetter(s: string)
    ensures |Lower(s)| == |s|
    ensures forall i :: 0 <= i < |s| ==>
              Lower(s)[i] == if 'A' <= s[i] <= 'Z' then s[i] - 'A' + 'a' else s[i]
  {
    if s != "" { LowerIsPerLetter(s[1..]); }
  }

  lemma {:induction false} LowerIsSameHash(hash: string, checksum: string)
    ensures hash == Lower(checksum) <==> SameHash(hash, checksum)
  {
    LowerIsPerLetter(checksum);
  }

  /** What comes of a copy: it is stored, as read and at the time of reading, exactly when the directory could
      be made, no copy is there, the partial file was free, the object could be read to its end, and what was
      read has the declared size and hash. Otherwise no file changes. */
  lemma {:induction false} CopyOutcome(c: Cache, digest: Digest, n: Name, writable: bool, claimed: bool, got: Download, now: int)
    requires n in c.inFlight
    ensures var (after, reply) := CopyIn(c, digest, n, writable, claimed, got, now);
            var data := Joined(got.pieces); var task := c.inFlight[n];
            if writable && n !in c.files && claimed && !got.failed && |data| == task.size && SameHash(digest(data), task.checksum)
            then reply == Ok(true) && after.files == c.files[n := Copy(data, now)] && after.inFlight == c.inFlight
                 && after.unwritable == c.unwritable && after.placed == c.placed[n := Copy(data, now)]
            else
              && after.files == c.files && after.inFlight == c.inFlight - {n} && after.placed == c.placed - {n}
              && (after.unwritable <==> c.unwritable || !writable)
              && (reply.Err? <==> writable && n !in c.files && claimed && got.failed) && reply != Ok(true)
  {
    LowerIsSameHash(digest(Joined(got.pieces)), c.inFlight[n].checksum);
  }

  /** In every run each stored copy was asked for by some request whose size and checksum it has, of at most a
      quarter of the limit. */
  lemma {:induction false} StoredCopiesMatchARequest(limit: nat, digest: Digest, steps: seq<Step>, n: Name)
    requires n in Execute(limit, digest, steps).files
    ensures var data := Execute(limit, digest, steps).files[n].data;
            exists i :: 0 <= i < |steps| && steps[i].DoSchedule? && steps[i].name == n
              && |data| == steps[i].task.size && |data| >= 1 && 4 * |data| <= limit && SameHash(digest(data), steps[i].task.checksum)
  {
    OnlyVerifiedCopiesAreStored(limit, digest, steps);
    var data := Execute(limit, digest, steps).files[n].data;
    var task :| Asked(steps, n, task) && Admissible(limit, task) && Verified(digest, data, task);
    LowerIsSameHash(digest(data), task.checksum);
    var i :| 0 <= i < |steps| && steps[i] == DoSchedule(n, task);
  }

  // ---------------------------------------------------------------- reading

  /** A read leaves the copy's bytes alone and refreshes its time exactly when it is more than an hour old. */
  lemma {:induction false} OpenOutcome(c: Cache, limit: nat, n: Name, now: int)
    ensures var after := Open(c, limit, n, now);
            if limit > 0 && n in c.files && now > c.files[n].mtime + 3600
            then after == c.(files := c.files[n := Copy(c.files[n].data, now)])
            else after == c
  {
  }

  // ---------------------------------------------------------------- eviction

  /** The listing goes from the least recently used to the most, smaller files first among equals. */
  lemma {:induction false} ListingIsOldestFirst(files: Files, i: nat, j: nat)
    requires i < j < |Listing(files)|
    ensures var a, b := Listing(files)[i], Listing(files)[j];
            && a.path in files && b.path in files && a.path != b.path
            && a.mtime == files[a.path].mtime && a.size == |files[a.path].data|
            && a.mtime <= b.mtime && (a.mtime == b.mtime ==> a.size <= b.size)
  {
    var es := Listing(files);
    ListingPathsDiffer(es, files);
    assert Before(es[i], es[j]);
  }

  /** The bytes stored are those of one file and those of the rest. */
  lemma {:induction false} StoredBytes(files: Files, n: Name)
    ensures Stored(map[]) == 0
    ensures n in files ==> Stored(files) == |files[n].data| + Stored(files - {n})
  {
    if n in files { StoredWithout(files, n); }
  }

  /** Deletions free the sizes of the files that were removed, one entry after another. */
  lemma {:induction false} FreedBytes(es: seq<Entry>, e: Entry, fate: Name -> Fate)
    ensures Freed([], fate) == 0
    ensures Freed(es + [e], fate) == Freed(es, fate) + if fate(e.path) == Removed then e.size else 0
  {
    if es == [] {
      assert [] + [e] == [e] && [e][1..] == [];
    } else {
      assert (es + [e])[1..] == es[1..] + [e];
      FreedBytes(es[1..], e, fate);
    }
  }

  /** An eviction touches nothing while the stored bytes are within the limit. Otherwise a file goes exactly
      when its deletion is not refused and the older files that were removed have not brought the bytes down
      to nine tenths of the limit. */
  lemma {:induction false} EvictionOutcome(files: Files, limit: nat, fate: Name -> Fate, i: nat)
    requires i < |Listing(files)|
    ensures var e := Listing(files)[i]; var after := Evict(files, limit, fate);
            && (e.path !in after <==>
                  && Stored(files) > limit
                  && 10 * (Stored(files) - Freed(Listing(files)[..i], fate)) > 9 * limit
                  && fate(e.path) != Refused)
            && forall n :: n in after ==> n in files && after[n] == files[n]
  {
    SurvivesIff(files, limit, fate, i);
  }
}
