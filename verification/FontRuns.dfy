/** What a run over the engine's fonts accepts, told from the bytes, the lock and the digest alone. */
module FontRuns {
  import opened Wrappers
  import opened Utf8
  import opened Ordering
  import opened FontLock

  /** The data a run judges a path by: what is cached, else what is fetched. */
  function Data(world: World, cache: Cache, p: string): Option<seq<Byte>> {
    if p in cache then Some(cache[p]) else world.fetch(p)
  }

  /** The bytes begin with the WOFF2 signature `wOF2`. */
  predicate BeginsAsFont(data: seq<Byte>) {
    |data| >= 4 && data[0] == 119 && data[1] == 79 && data[2] == 70 && data[3] == 50
  }

  /** There is a font for the path; a fetched one has at most eight mebibytes. */
  predicate Usable(world: World, cache: Cache, p: string) {
    var data := Data(world, cache, p);
    data.Some? && BeginsAsFont(data.value) && (p !in cache ==> |data.value| <= 8 * 1024 * 1024)
  }

  /** The font for the entry's path has the entry's length and digest. */
  predicate Agrees(world: World, cache: Cache, e: Entry) {
    && Usable(world, cache, e.path)
    && |Data(world, cache, e.path).value| == e.bytes && world.digest(Data(world, cache, e.path).value) == e.sha256
  }

  lemma OutcomeUnlocked(world: World, cache: Cache, p: string)
    ensures var outcome := Outcome(world, cache, NoLock, p);
      && (outcome.Ok? <==> Usable(world, cache, p))
      && (outcome.Ok? ==> outcome.value.path == p && Agrees(world, cache, outcome.value))
  {}

  lemma OutcomeLocked(world: World, cache: Cache, expected: Expectation, e: Entry)
    requires expected(e.path) == Some(e)
    ensures var outcome := Outcome(world, cache, expected, e.path);
      && (outcome.Ok? <==> Agrees(world, cache, e))
      && (outcome.Ok? ==> outcome.value == e)
  {}

  lemma {:induction false} NoErrorsExactly(world: World, cache: Cache, expected: Expectation, order: seq<string>)
    ensures Errors(world, cache, expected, order) == [] <==> forall p :: p in order ==> Outcome(world, cache, expected, p).Ok?
  {
    if order != [] {
      var last := |order| - 1;
      NoErrorsExactly(world, cache, expected, order[..last]);
      assert order == order[..last] + [order[last]];
    }
  }

  lemma LockDistinct(lock: seq<Entry>, paths: seq<string>)
    requires Paths(lock) == paths && Sorted(paths)
    ensures SortedByPath(lock) && DistinctPaths(lock)
  {
    forall i, j | 0 <= i < j < |lock| ensures Less(lock[i].path, lock[j].path) {
      assert Paths(lock)[i] == lock[i].path && Paths(lock)[j] == lock[j].path;
    }
    SortedDistinct(lock);
  }

  lemma LockedOutcomes(world: World, cache: Cache, lock: seq<Entry>, paths: seq<string>, order: seq<string>)
    requires Covers(order, paths) && Paths(lock) == paths
    ensures forall i :: 0 <= i < |lock| ==> lock[i].path in order && Expected(lock)(lock[i].path) == Some(lock[i])
    ensures (forall p :: p in order ==> Outcome(world, cache, Expected(lock), p).Ok?)
      <==> forall i :: 0 <= i < |lock| ==> Agrees(world, cache, lock[i])
  {
    LockDistinct(lock, paths);
    forall i | 0 <= i < |lock|
      ensures lock[i].path in order && Expected(lock)(lock[i].path) == Some(lock[i])
      ensures Outcome(world, cache, Expected(lock), lock[i].path).Ok? <==> Agrees(world, cache, lock[i])
    {
      assert Paths(lock)[i] in paths;
      LockEntryAt(lock, i);
      OutcomeLocked(world, cache, Expected(lock), lock[i]);
    }
    forall p | p in order ensures exists i :: 0 <= i < |lock| && lock[i].path == p {
      var i :| 0 <= i < |paths| && paths[i] == p;
      assert Paths(lock)[i] == lock[i].path;
    }
  }

  /** Sorting the entries of a locked run that verified gives back the lock. */
  lemma LockedEntries(world: World, cache: Cache, lock: seq<Entry>, paths: seq<string>, order: seq<string>)
    requires Covers(order, paths) && Paths(lock) == paths
    requires forall i :: 0 <= i < |lock| ==> Agrees(world, cache, lock[i])
    ensures SortEntries(Entries(world, cache, Expected(lock), order)) == lock
  {
    var found := Entries(world, cache, Expected(lock), order);
    LockDistinct(lock, paths);
    LockedOutcomes(world, cache, lock, paths, order);
    forall i | 0 <= i < |lock| ensures lock[i] in found {
      OutcomeLocked(world, cache, Expected(lock), lock[i]);
      EntriesListed(world, cache, Expected(lock), order, lock[i]);
    }
    forall e | e in found ensures e in lock {
      EntriesListed(world, cache, Expected(lock), order, e);
      var i :| 0 <= i < |paths| && paths[i] == e.path;
      assert Paths(lock)[i] == lock[i].path;
      OutcomeLocked(world, cache, Expected(lock), lock[i]);
      assert e == lock[i];
    }
    EntriesDistinct(world, cache, Expected(lock), order);
    SortEntriesSorted(found);
    SortedByPathUnique(SortEntries(found), lock);
  }

  /** Main result on locked runs: one verifies exactly when the lock lists the engine's paths and the font
      of every entry has the entry's length and digest, and then it reports the lock's own entries. */
  lemma LockedExactly(world: World, cache: Cache, lock: seq<Entry>, paths: seq<string>, order: seq<string>)
    requires Covers(order, paths)
    ensures var report := Prepared(world, cache, Some(lock), paths, order).report;
      && (report.InventoryDiffers? <==> Paths(lock) != paths)
      && (report.Verified? <==> Paths(lock) == paths && forall i :: 0 <= i < |lock| ==> Agrees(world, cache, lock[i]))
      && (report.Verified? ==> report.entries == lock)
  {
    if Paths(lock) == paths {
      NoErrorsExactly(world, cache, Expected(lock), order);
      LockedOutcomes(world, cache, lock, paths, order);
      if forall i :: 0 <= i < |lock| ==> Agrees(world, cache, lock[i]) {
        LockedEntries(world, cache, lock, paths, order);
      }
    }
  }

  /** Main result on runs that write the lock: one verifies exactly when there is a font for every path,
      and then its entries are the engine's paths in order, with each font's length and digest. */
  lemma UnlockedExactly(world: World, cache: Cache, paths: seq<string>, order: seq<string>)
    requires Covers(order, paths)
    ensures var report := Prepared(world, cache, None, paths, order).report;
      && (report.Verified? <==> forall p :: p in paths ==> Usable(world, cache, p))
      && (report.Verified? ==> Paths(report.entries) == paths)
      && (report.Verified? ==> forall i :: 0 <= i < |report.entries| ==> Agrees(world, cache, report.entries[i]))
  {
    NoErrorsExactly(world, cache, NoLock, order);
    forall p | p in order ensures Outcome(world, cache, NoLock, p).Ok? <==> Usable(world, cache, p) {
      OutcomeUnlocked(world, cache, p);
    }
    if Errors(world, cache, NoLock, order) == [] {
      WrittenLock(world, cache, paths, order);
      var found := Entries(world, cache, NoLock, order);
      EntriesDistinct(world, cache, NoLock, order);
      SortEntriesSorted(found);
      forall e | e in SortEntries(found) ensures Agrees(world, cache, e) {
        EntriesListed(world, cache, NoLock, order, e);
        OutcomeUnlocked(world, cache, e.path);
      }
    }
  }

  /** Why a path fails: nothing could be fetched, what was fetched is no font of allowed size, or the font
      at hand is not the expected one. */
  lemma FailureExactly(world: World, cache: Cache, expected: Expectation, p: string)
    ensures var outcome, data := Outcome(world, cache, expected, p), Data(world, cache, p);
      outcome.Err? ==>
        outcome.error ==
          if data.None? then FetchFailed(p)
          else if p !in cache && !(BeginsAsFont(data.value) && |data.value| <= 8 * 1024 * 1024) then InvalidFont(p)
          else DiffersFromLock(p)
  {}

  /** A fetched font may enter the cache: it is a font of allowed size and agrees with what is expected. */
  predicate MayEnter(world: World, data: seq<Byte>, expected: Option<Entry>) {
    && BeginsAsFont(data) && |data| <= 8 * 1024 * 1024
    && (expected.Some? ==> |data| == expected.value.bytes && world.digest(data) == expected.value.sha256)
  }

  /** Main result on the cache: a run keeps what is cached, and adds exactly those fetched fonts of its
      paths that may enter. A font that fails its check never enters. */
  lemma CacheExactly(world: World, cache: Cache, expected: Expectation, order: seq<string>, p: string)
    requires Distinct(order)
    ensures var after := Filled(world, cache, expected, order);
      && (p in cache ==> p in after && after[p] == cache[p])
      && (p !in cache ==> (p in after <==>
            p in order && world.fetch(p).Some? && MayEnter(world, world.fetch(p).value, expected(p))))
      && (p !in cache && p in after ==> after[p] == world.fetch(p).value)
  {
    FilledAt(world, cache, expected, order, p);
  }
}
