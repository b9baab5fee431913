/**
 The local cache of stored objects: which copies are admitted, how a copy is verified before it
 becomes visible, and which copies an eviction removes when some deletions fail.
*/
module ObjectCache {
  import opened Common

  /** An object's name, standing for its path in the cache directory; paths are ordered. */
  type Name = nat

  datatype Copy = Copy(data: Bytes, mtime: int)

  type Files = map<Name, Copy>

  datatype Entry = Entry(mtime: int, size: nat, path: Name)

  /** What comes of one deletion. A refused file stays; a vanished one was removed by somebody else. */
  datatype Fate = Removed | Refused | Vanished

  const TOUCH_INTERVAL_SECONDS := 3600

  function Target(limit: nat): nat {
    limit * 9 / 10
  }

  // ---------------------------------------------------------------- listings

  predicate Before(a: Entry, b: Entry) {
    || a.mtime < b.mtime
    || (a.mtime == b.mtime && (a.size < b.size || (a.size == b.size && a.path < b.path)))
  }

  predicate Ordered(es: seq<Entry>) {
    forall i, j :: 0 <= i < j < |es| ==> Before(es[i], es[j])
  }

  function EntryOf(files: Files, n: Name): Entry
    requires n in files
  {
    Entry(files[n].mtime, |files[n].data|, n)
  }

  predicate Lists(es: seq<Entry>, n: Name) {
    exists i :: 0 <= i < |es| && es[i].path == n
  }

  /** Every file once, oldest first. */
  ghost predicate IsListing(es: seq<Entry>, files: Files) {
    && Ordered(es)
    && (forall i :: 0 <= i < |es| ==> es[i].path in files && es[i] == EntryOf(files, es[i].path))
    && (forall n :: n in files ==> Lists(es, n))
  }

  function SizeOf(es: seq<Entry>): nat {
    if es == [] then 0 else es[0].size + SizeOf(es[1..])
  }

  lemma {:induction false} BytesSplit(a: seq<Entry>, b: seq<Entry>)
    ensures SizeOf(a + b) == SizeOf(a) + SizeOf(b)
  {
    if a == [] {
      assert a + b == b;
    } else {
      assert (a + b)[1..] == a[1..] + b;
      BytesSplit(a[1..], b);
    }
  }

  /** The bytes stored, counted file by file in any order. */
  ghost function Stored(files: Files): nat {
    if files == map[] then 0
    else
      var n :| n in files;
      |files[n].data| + Stored(files - {n})
  }

  lemma {:induction false} StoredWithout(files: Files, n: Name)
    requires n in files
    ensures Stored(files) == |files[n].data| + Stored(files - {n})
    decreases |files|
  {
    var m :| m in files && Stored(files) == |files[m].data| + Stored(files - {m});
    if m != n {
      StoredWithout(files - {m}, n);
      StoredWithout(files - {n}, m);
      assert files - {m} - {n} == files - {n} - {m};
    }
  }

  lemma {:induction false} ListingCountsBytes(es: seq<Entry>, files: Files)
    requires IsListing(es, files)
    ensures SizeOf(es) == Stored(files)
    decreases |es|
  {
    if es == [] {
      assert files == map[];
    } else {
      var n := es[0].path;
      ListingTail(es, files);
      ListingCountsBytes(es[1..], files - {n});
      StoredWithout(files, n);
    }
  }

  lemma {:induction false} ListingTail(es: seq<Entry>, files: Files)
    requires IsListing(es, files) && es != []
    ensures IsListing(es[1..], files - {es[0].path})
  {
    var n := es[0].path;
    forall i | 1 <= i < |es| ensures es[i].path != n {
      assert Before(es[0], es[i]);
    }
    forall m | m in files - {n} ensures Lists(es[1..], m) {
      var i :| 0 <= i < |es| && es[i].path == m;
      assert es[1..][i - 1].path == m;
    }
  }

  lemma {:induction false} FirstIsLeast(es: seq<Entry>, files: Files, n: Name)
    requires IsListing(es, files) && n in files
    ensures es != [] && (es[0] == EntryOf(files, n) || Before(es[0], EntryOf(files, n)))
  {
    assert Lists(es, n);
    var i :| 0 <= i < |es| && es[i].path == n;
    assert i > 0 ==> Before(es[0], es[i]);
  }

  /** There is only one way to list the files oldest first. */
  lemma {:induction false} ListingIsUnique(es: seq<Entry>, fs: seq<Entry>, files: Files)
    requires IsListing(es, files) && IsListing(fs, files)
    ensures es == fs
    decreases |es|
  {
    if files != map[] {
      var n :| n in files;
      FirstIsLeast(es, files, n);
      FirstIsLeast(fs, files, n);
      FirstIsLeast(es, files, fs[0].path);
      FirstIsLeast(fs, files, es[0].path);
      assert es[0] == fs[0];
      ListingTail(es, files);
      ListingTail(fs, files);
      ListingIsUnique(es[1..], fs[1..], files - {es[0].path});
    } else {
      if es != [] { ListedFilesExist(es, files); }
      if fs != [] { ListedFilesExist(fs, files); }
    }
  }

  lemma ListedFilesExist(es: seq<Entry>, files: Files)
    requires IsListing(es, files) && es != []
    ensures files != map[]
  {
    assert es[0].path in files;
  }

  function Insert(es: seq<Entry>, e: Entry): (r: seq<Entry>)
    requires Ordered(es) && forall i :: 0 <= i < |es| ==> es[i].path != e.path
    ensures Ordered(r) && forall x :: x in r <==> x in es || x == e
  {
    if es == [] || Before(e, es[0]) then [e] + es
    else
      assert forall x :: x in es <==> x == es[0] || x in es[1..];
      var rest := Insert(es[1..], e);
      assert forall j :: 0 <= j < |rest| ==> Before(es[0], rest[j]) by {
        forall j | 0 <= j < |rest| ensures Before(es[0], rest[j]) { assert rest[j] in rest; }
      }
      [es[0]] + rest
  }

  lemma {:induction false} InsertLists(es: seq<Entry>, files: Files, n: Name)
    requires n in files && IsListing(es, files - {n})
    ensures IsListing(Insert(es, EntryOf(files, n)), files)
  {
    var r := Insert(es, EntryOf(files, n));
    forall i | 0 <= i < |r| ensures r[i].path in files && r[i] == EntryOf(files, r[i].path) {
      assert r[i] in r;
    }
    forall m | m in files ensures Lists(r, m) {
      if m == n {
        assert EntryOf(files, n) in r;
      } else {
        assert Lists(es, m);
        var i :| 0 <= i < |es| && es[i].path == m;
        assert es[i] in r;
      }
    }
  }

  ghost function Listing(files: Files): (es: seq<Entry>)
    ensures IsListing(es, files)
  {
    if files == map[] then []
    else
      var n :| n in files;
      InsertLists(Listing(files - {n}), files, n);
      Insert(Listing(files - {n}), EntryOf(files, n))
  }

  // ---------------------------------------------------------------- eviction

  datatype Swept = Swept(left: seq<Entry>, total: int)

  /** Deletes from the oldest on until the running total is at the target. A deletion that raises,
      whether the file was refused or already gone, leaves the running total alone. */
  function Sweep(es: seq<Entry>, total: int, target: nat, fate: Name -> Fate): Swept {
    if es == [] || total <= target then Swept(es, total)
    else
      match fate(es[0].path)
      case Removed => Sweep(es[1..], total - es[0].size, target, fate)
      case Vanished => Sweep(es[1..], total, target, fate)
      case Refused =>
        var rest := Sweep(es[1..], total, target, fate);
        Swept([es[0]] + rest.left, rest.total)
  }

  function Restrict(files: Files, es: seq<Entry>): Files {
    map n | n in files && Lists(es, n) :: files[n]
  }

  function EvictListed(files: Files, es: seq<Entry>, limit: nat, fate: Name -> Fate): Files {
    if SizeOf(es) <= limit then files
    else Restrict(files, Sweep(es, SizeOf(es), Target(limit), fate).left)
  }

  ghost function Evict(files: Files, limit: nat, fate: Name -> Fate): Files {
    EvictListed(files, Listing(files), limit, fate)
  }

  // ---------------------------------------------------------------- what an eviction does

  /** The bytes that deletions of these files, all attempted, would free. */
  function Freed(es: seq<Entry>, fate: Name -> Fate): nat {
    if es == [] then 0
    else (if fate(es[0].path) == Removed then es[0].size else 0) + Freed(es[1..], fate)
  }

  /** Deletion number `i` is attempted exactly when the older ones have not freed enough. */
  predicate Attempted(es: seq<Entry>, total: int, target: nat, fate: Name -> Fate, i: nat)
    requires i < |es|
  {
    total - Freed(es[..i], fate) > target
  }

  lemma {:induction false} FreedGrows(es: seq<Entry>, fate: Name -> Fate, i: nat)
    requires i < |es|
    ensures Freed(es[..i], fate) <= Freed(es[..i + 1], fate)
    ensures 0 < i ==> es[..i][1..] == es[1..][..i - 1] && es[..i + 1][1..] == es[1..][..i]
    ensures 0 < i ==> Freed(es[..i], fate) == (if fate(es[0].path) == Removed then es[0].size else 0) + Freed(es[1..][..i - 1], fate)
  {
    if i > 0 {
      assert es[..i][1..] == es[1..][..i - 1] && es[..i + 1][1..] == es[1..][..i];
      FreedGrows(es[1..], fate, i - 1);
    }
  }

  /** The exact fate of every file: it goes if and only if its deletion was attempted and not refused. */
  lemma {:induction false} StaysIff(es: seq<Entry>, total: int, target: nat, fate: Name -> Fate, i: nat)
    requires i < |es| && PathsDiffer(es)
    ensures es[i] in Sweep(es, total, target, fate).left
            <==> !Attempted(es, total, target, fate, i) || fate(es[i].path) == Refused
  {
    var first := es[0];
    if total <= target {
      assert Freed(es[..i], fate) >= 0;
    } else if i == 0 {
      OnlyListedAreLeft(es[1..], if fate(first.path) == Removed then total - first.size else total, target, fate);
      forall e | e in es[1..] ensures e != first {}
    } else {
      FreedGrows(es, fate, i);
      assert es[1..][i - 1] == es[i];
      StaysIff(es[1..], if fate(first.path) == Removed then total - first.size else total, target, fate, i - 1);
    }
  }

  lemma {:induction false} OnlyListedAreLeft(es: seq<Entry>, total: int, target: nat, fate: Name -> Fate)
    ensures forall e :: e in Sweep(es, total, target, fate).left ==> e in es
  {
    if es != [] && total > target {
      OnlyListedAreLeft(es[1..], if fate(es[0].path) == Removed then total - es[0].size else total, target, fate);
    }
  }

  /** Files that had already gone when their turn came, out of the deletions attempted. */
  function LostBytes(es: seq<Entry>, total: int, target: nat, fate: Name -> Fate): nat {
    if es == [] || total <= target then 0
    else
      var rest := LostBytes(es[1..], if fate(es[0].path) == Removed then total - es[0].size else total, target, fate);
      if fate(es[0].path) == Vanished then es[0].size + rest else rest
  }

  /** Under any pattern of failed deletions the running total is the bytes really left plus exactly
      the bytes of files that somebody else removed meanwhile. */
  lemma {:induction false} RunningTotalIsExact(es: seq<Entry>, total: int, target: nat, fate: Name -> Fate)
    ensures var r := Sweep(es, total, target, fate);
            r.total - SizeOf(r.left) == total - SizeOf(es) + LostBytes(es, total, target, fate)
  {
    if es != [] && total > target {
      RunningTotalIsExact(es[1..], if fate(es[0].path) == Removed then total - es[0].size else total, target, fate);
    }
  }

  /** When deletions succeed, the shortest oldest-first prefix that reaches the target goes. */
  lemma {:induction false} RemovesTheShortestPrefix(es: seq<Entry>, target: nat, fate: Name -> Fate) returns (k: nat)
    requires forall n :: fate(n) == Removed
    ensures k <= |es| && Sweep(es, SizeOf(es), target, fate).left == es[k..]
    ensures SizeOf(es[k..]) <= target
    ensures forall j :: 0 <= j < k ==> SizeOf(es[j..]) > target
  {
    if es == [] || SizeOf(es) <= target {
      k := 0;
    } else {
      var m := RemovesTheShortestPrefix(es[1..], target, fate);
      k := m + 1;
      assert es[k..] == es[1..][m..];
      forall j | 0 <= j < k ensures SizeOf(es[j..]) > target {
        if j > 0 { assert es[j..] == es[1..][j - 1..]; } else { assert es[j..] == es; }
      }
    }
  }

  /** Either the bytes come down to the limit, or nothing that could be deleted is left. */
  lemma {:induction false} StuckOnlyOnRefusals(es: seq<Entry>, total: int, target: nat, fate: Name -> Fate)
    ensures var r := Sweep(es, total, target, fate);
            r.total <= target || forall e :: e in r.left ==> fate(e.path) == Refused
  {
    if es != [] && total > target {
      StuckOnlyOnRefusals(es[1..], if fate(es[0].path) == Removed then total - es[0].size else total, target, fate);
    }
  }

  // ---------------------------------------------------------------- the same, about the files

  predicate PathsDiffer(es: seq<Entry>) {
    forall j, k :: 0 <= j < k < |es| ==> es[j].path != es[k].path
  }

  lemma {:induction false} ListingPathsDiffer(es: seq<Entry>, files: Files)
    requires IsListing(es, files)
    ensures PathsDiffer(es)
  {
    forall j, k | 0 <= j < k < |es| ensures es[j].path != es[k].path {
      assert Before(es[j], es[k]);
    }
  }

  lemma {:induction false} LeftIsOrdered(es: seq<Entry>, total: int, target: nat, fate: Name -> Fate)
    requires Ordered(es)
    ensures Ordered(Sweep(es, total, target, fate).left)
  {
    if es != [] && total > target {
      var next := if fate(es[0].path) == Removed then total - es[0].size else total;
      LeftIsOrdered(es[1..], next, target, fate);
      OnlyListedAreLeft(es[1..], next, target, fate);
      var rest := Sweep(es[1..], next, target, fate).left;
      forall j | 0 <= j < |rest| ensures Before(es[0], rest[j]) {
        assert rest[j] in es[1..];
        var k :| 0 <= k < |es[1..]| && es[1..][k] == rest[j];
        assert es[k + 1] == rest[j];
      }
    }
  }

  /** What the sweep has left over is the listing of the files that remain. */
  lemma {:induction false} LeftIsTheListing(files: Files, limit: nat, fate: Name -> Fate)
    requires Stored(files) > limit
    ensures Listing(Evict(files, limit, fate)) == Sweep(Listing(files), Stored(files), Target(limit), fate).left
  {
    var es := Listing(files);
    ListingCountsBytes(es, files);
    var left := Sweep(es, SizeOf(es), Target(limit), fate).left;
    var after := Evict(files, limit, fate);
    LeftIsOrdered(es, SizeOf(es), Target(limit), fate);
    OnlyListedAreLeft(es, SizeOf(es), Target(limit), fate);
    forall i | 0 <= i < |left| ensures left[i].path in after && left[i] == EntryOf(after, left[i].path) {
      assert left[i] in es;
      assert Lists(left, left[i].path);
    }
    ListingIsUnique(left, Listing(after), after);
  }

  /** A file survives an eviction exactly when the stored bytes were within the limit, or deleting
      older files had freed enough, or its deletion was refused. Survivors are unchanged. */
  lemma {:induction false} SurvivesIff(files: Files, limit: nat, fate: Name -> Fate, i: nat)
    requires i < |Listing(files)|
    ensures var es := Listing(files); var after := Evict(files, limit, fate);
            && (es[i].path in after <==>
                  || Stored(files) <= limit
                  || Stored(files) - Freed(es[..i], fate) <= Target(limit)
                  || fate(es[i].path) == Refused)
            && forall n :: n in after ==> n in files && after[n] == files[n]
  {
    var es := Listing(files);
    ListingCountsBytes(es, files);
    if Stored(files) > limit {
      ListingPathsDiffer(es, files);
      StaysIff(es, SizeOf(es), Target(limit), fate, i);
      LeftIsTheListing(files, limit, fate);
      var after := Evict(files, limit, fate);
      if es[i].path in after {
        assert Lists(Listing(after), es[i].path);
        var j :| 0 <= j < |Listing(after)| && Listing(after)[j].path == es[i].path;
        assert Listing(after)[j] == es[i];
      }
    }
  }

  /** After an eviction the stored bytes fit the limit, unless every file still there was refused. */
  lemma {:induction false} EvictionBringsItUnderTheLimit(files: Files, limit: nat, fate: Name -> Fate)
    ensures var after := Evict(files, limit, fate);
            Stored(after) <= limit || forall n :: n in after ==> fate(n) == Refused
    ensures Stored(Evict(files, limit, fate)) <= Stored(files)
  {
    var es := Listing(files);
    var after := Evict(files, limit, fate);
    ListingCountsBytes(es, files);
    if Stored(files) > limit {
      LeftIsTheListing(files, limit, fate);
      var left := Listing(after);
      ListingCountsBytes(left, after);
      RunningTotalIsExact(es, SizeOf(es), Target(limit), fate);
      StuckOnlyOnRefusals(es, SizeOf(es), Target(limit), fate);
      SweepOnlyLowers(es, SizeOf(es), Target(limit), fate);
      forall n | n in after && Stored(after) > limit ensures fate(n) == Refused {
        assert Lists(left, n);
        var j :| 0 <= j < |left| && left[j].path == n;
        assert left[j] in left;
      }
    }
  }

  lemma {:induction false} SweepOnlyLowers(es: seq<Entry>, total: int, target: nat, fate: Name -> Fate)
    ensures SizeOf(Sweep(es, total, target, fate).left) <= SizeOf(es)
  {
    if es != [] && total > target {
      SweepOnlyLowers(es[1..], if fate(es[0].path) == Removed then total - es[0].size else total, target, fate);
    }
  }

  /** The bytes of the other files that cannot be deleted. */
  ghost function Undeletable(files: Files, fate: Name -> Fate): nat {
    var es := Listing(files);
    FreedAtMost(es, fate);
    SizeOf(es) - Freed(es, fate)
  }

  lemma {:induction false} FreedAtMost(es: seq<Entry>, fate: Name -> Fate)
    ensures Freed(es, fate) <= SizeOf(es)
  {
    if es != [] { FreedAtMost(es[1..], fate); }
  }

  predicate StrictlyNewest(files: Files, n: Name) {
    n in files && forall m :: m in files && m != n ==> files[m].mtime < files[n].mtime
  }

  /** The newest copy falls to an eviction exactly when the limit is exceeded, its own deletion goes
      through, and it does not fit the target beside the files that cannot be deleted. */
  lemma {:induction false} NewestSurvivesIff(files: Files, limit: nat, fate: Name -> Fate, n: Name)
    requires StrictlyNewest(files, n)
    ensures n in Evict(files, limit, fate) <==>
            || Stored(files) <= limit
            || fate(n) == Refused
            || |files[n].data| + Undeletable(files - {n}, fate) <= Target(limit)
  {
    var front := NewestSplits(files, n);
    NewestBytes(files, fate, front, EntryOf(files, n));
    LastSurvivesIff(files, limit, fate, front, EntryOf(files, n));
  }

  lemma {:induction false} NewestSplits(files: Files, n: Name) returns (front: seq<Entry>)
    requires StrictlyNewest(files, n)
    ensures Listing(files) == front + [EntryOf(files, n)] && Listing(files - {n}) == front
  {
    var es := Listing(files);
    NewestIsLast(es, files, n);
    LastEntry(es, files);
    NewestLeaves(es, files, n);
    front := es[..|es| - 1];
  }

  lemma LastEntry(es: seq<Entry>, files: Files)
    requires IsListing(es, files) && es != []
    ensures es[|es| - 1].path in files && es == es[..|es| - 1] + [EntryOf(files, es[|es| - 1].path)]
  {
  }

  lemma {:induction false} LastSurvivesIff(files: Files, limit: nat, fate: Name -> Fate, front: seq<Entry>, e: Entry)
    requires Listing(files) == front + [e]
    ensures e.path in Evict(files, limit, fate)
            <==> Stored(files) <= limit || Stored(files) - Freed(front, fate) <= Target(limit) || fate(e.path) == Refused
  {
    var es := front + [e];
    SurvivesIff(files, limit, fate, |front|);
    assert es[..|front|] == front && es[|front|] == e;
  }

  lemma {:induction false} NewestBytes(files: Files, fate: Name -> Fate, front: seq<Entry>, e: Entry)
    requires Listing(files) == front + [e] && Listing(files - {e.path}) == front
    ensures Stored(files) - Freed(front, fate) == e.size + Undeletable(files - {e.path}, fate)
  {
    ListingCountsBytes(Listing(files), files);
    BytesSplit(front, [e]);
    assert SizeOf([e]) == e.size;
  }

  lemma {:induction false} NewestIsLast(es: seq<Entry>, files: Files, n: Name)
    requires IsListing(es, files) && StrictlyNewest(files, n)
    ensures es != [] && es[|es| - 1].path == n
  {
    assert Lists(es, n);
    var i :| 0 <= i < |es| && es[i].path == n;
    var last := |es| - 1;
    assert i < last ==> Before(es[i], es[last]);
    assert es[last].path in files;
  }

  lemma {:induction false} NewestLeaves(es: seq<Entry>, files: Files, n: Name)
    requires IsListing(es, files) && es != [] && es[|es| - 1].path == n
    ensures Listing(files - {n}) == es[..|es| - 1]
  {
    var front := es[..|es| - 1];
    ListingPathsDiffer(es, files);
    forall m | m in files - {n} ensures Lists(front, m) {
      assert Lists(es, m);
      var i :| 0 <= i < |es| && es[i].path == m;
      assert front[i].path == m;
    }
    ListingIsUnique(Listing(files - {n}), front, files - {n});
  }

  /** A copy admitted by the quarter rule survives the eviction that follows its own fill whenever
      the other files can be deleted. */
  lemma {:induction false} AdmittedCopySurvives(files: Files, limit: nat, fate: Name -> Fate, n: Name)
    requires StrictlyNewest(files, n) && |files[n].data| <= limit / 4
    requires forall m :: m in files && m != n ==> fate(m) == Removed
    ensures n in Evict(files, limit, fate)
  {
    NewestSurvivesIff(files, limit, fate, n);
    var es := Listing(files - {n});
    AllFreed(es, fate);
  }

  lemma {:induction false} AllFreed(es: seq<Entry>, fate: Name -> Fate)
    requires forall i :: 0 <= i < |es| ==> fate(es[i].path) == Removed
    ensures Freed(es, fate) == SizeOf(es)
  {
    if es != [] { AllFreed(es[1..], fate); }
  }

  // ---------------------------------------------------------------- a file that somebody else removes

  /** The same fates for an eviction that notices which files have gone. */
  function Noticed(fate: Name -> Fate): Name -> Fate {
    (n: Name) => if fate(n) == Vanished then Removed else fate(n)
  }

  /** The eviction deletes just the copies that one noticing vanished files would delete if and only if
      there is no copy before which its own deletions have not freed enough, but together with the bytes
      that vanished they have. */
  lemma {:induction false} DeletesOnlyWhatItMustIff(es: seq<Entry>, target: nat, fate: Name -> Fate)
    requires PathsDiffer(es)
    ensures var total := SizeOf(es);
            (forall i :: 0 <= i < |es| && fate(es[i].path) == Removed ==>
               (es[i] in Sweep(es, total, target, fate).left <==> es[i] in Sweep(es, total, target, Noticed(fate)).left))
            <==> !exists i :: 0 <= i < |es| && fate(es[i].path) == Removed
                   && total - Freed(es[..i], fate) > target >= total - Freed(es[..i], Noticed(fate))
  {
    var total := SizeOf(es);
    forall i | 0 <= i < |es| && fate(es[i].path) == Removed
      ensures (es[i] in Sweep(es, total, target, fate).left <==> es[i] in Sweep(es, total, target, Noticed(fate)).left)
              <==> !(total - Freed(es[..i], fate) > target >= total - Freed(es[..i], Noticed(fate)))
    {
      StaysIff(es, total, target, fate, i);
      StaysIff(es, total, target, Noticed(fate), i);
      NoticingFreesMore(es[..i], fate);
    }
  }

  lemma {:induction false} NoticingFreesMore(es: seq<Entry>, fate: Name -> Fate)
    ensures Freed(es, fate) <= Freed(es, Noticed(fate))
  {
    if es != [] { NoticingFreesMore(es[1..], fate); }
  }

  const THREE := [Entry(1, 5, 1), Entry(2, 5, 2), Entry(3, 5, 3)]

  function FirstVanishes(n: Name): Fate {
    if n == 1 then Vanished else Removed
  }

  /** A vanished file can cost another copy: of three copies of five bytes under a limit of ten the first
      has gone by itself, and deleting the second leaves five bytes, but the running total still says
      ten and the third goes too. */
  lemma {:induction false} VanishedFileCostsAnother()
    ensures SizeOf(THREE) > 10
    ensures SizeOf(THREE[2..]) <= Target(10)
    ensures Sweep(THREE, SizeOf(THREE), Target(10), FirstVanishes) == Swept([], 5)
    ensures LostBytes(THREE, SizeOf(THREE), Target(10), FirstVanishes) == 5
  {
    var one, two := THREE[1..], THREE[2..];
    assert one[1..] == two && two[1..] == [];
    assert SizeOf(two) == 5 && SizeOf(one) == 10 && SizeOf(THREE) == 15;
    assert Sweep(two, 10, 9, FirstVanishes) == Swept([], 5);
    assert Sweep(one, 15, 9, FirstVanishes) == Swept([], 5);
    assert LostBytes(two, 10, 9, FirstVanishes) == 0;
    assert LostBytes(one, 15, 9, FirstVanishes) == 0;
  }
}
