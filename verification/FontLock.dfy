/** The font lock: verification of every locked font by a pool of workers, in any completion order. */
module FontLock {
  import opened Wrappers
  import opened Utf8
  import opened Ordering

  const MAX_FONT_BYTES := 8 * 1024 * 1024
  const MAGIC: seq<Byte> := [119, 79, 70, 50]

  datatype Entry = Entry(path: string, bytes: nat, sha256: string)

  datatype FontError = FetchFailed(path: string) | InvalidFont(path: string) | DiffersFromLock(path: string)

  /** The outside world of a run: what fetching a path gives, and the content digest. */
  datatype World = World(fetch: string -> Option<seq<Byte>>, digest: seq<Byte> -> string)

  type Cache = map<string, seq<Byte>>

  function Identity(world: World, path: string, data: seq<Byte>): Entry {
    Entry(path, |data|, world.digest(data))
  }

  predicate IsFont(data: seq<Byte>) {
    MAGIC <= data
  }

  /** Checks before a fetched font enters the cache. */
  function CheckFetched(world: World, path: string, expected: Option<Entry>, data: seq<Byte>): Option<FontError> {
    if data == [] || |data| > MAX_FONT_BYTES || !IsFont(data) then Some(InvalidFont(path))
    else if expected.Some? && (|data| != expected.value.bytes || world.digest(data) != expected.value.sha256)
    then Some(DiffersFromLock(path)) else None
  }

  /** The check on every font, cached or just fetched. */
  function CheckEntry(world: World, path: string, expected: Option<Entry>, data: seq<Byte>): Result<Entry, FontError> {
    var actual := Identity(world, path, data);
    if !IsFont(data) || (expected.Some? && actual != expected.value) then Err(DiffersFromLock(path)) else Ok(actual)
  }

  /** What materializing one path does: the data it leaves in the path's cache file, and its result. */
  datatype Cell = Cell(data: Option<seq<Byte>>, result: Result<Entry, FontError>)

  function FillCell(world: World, cached: Option<seq<Byte>>, path: string, expected: Option<Entry>): Cell {
    match cached
    case Some(data) => Cell(cached, CheckEntry(world, path, expected, data))
    case None =>
      match world.fetch(path)
      case None => Cell(None, Err(FetchFailed(path)))
      case Some(data) =>
        match CheckFetched(world, path, expected, data)
        case Some(error) => Cell(None, Err(error))
        case None => Cell(Some(data), CheckEntry(world, path, expected, data))
  }

  function At(cache: Cache, path: string): Option<seq<Byte>> {
    if path in cache then Some(cache[path]) else None
  }

  function Stored(cache: Cache, path: string, data: Option<seq<Byte>>): (after: Cache)
    ensures forall p :: p != path ==> At(after, p) == At(cache, p)
    ensures data.Some? ==> At(after, path) == data
    ensures data.None? ==> after == cache
  {
    if data.Some? then cache[path := data.value] else cache
  }

  /** The lock entry a path is checked against; None everywhere when the lock is being written. */
  type Expectation = string -> Option<Entry>

  function Outcome(world: World, cache: Cache, expected: Expectation, path: string): Result<Entry, FontError> {
    FillCell(world, At(cache, path), path, expected(path)).result
  }

  // ----- The pool -----

  /** The cache after the paths of `order` were materialized one after the other. */
  function Filled(world: World, cache: Cache, expected: Expectation, order: seq<string>): Cache {
    if order == [] then cache
    else
      var last := |order| - 1;
      var before := Filled(world, cache, expected, order[..last]);
      Stored(before, order[last], FillCell(world, At(before, order[last]), order[last], expected(order[last])).data)
  }

  ghost predicate Distinct(paths: seq<string>) {
    forall i, j :: 0 <= i < j < |paths| ==> paths[i] != paths[j]
  }

  /** Workers on different paths do not see each other's work. */
  lemma {:induction false} FilledAt(world: World, cache: Cache, expected: Expectation, order: seq<string>, path: string)
    requires Distinct(order)
    ensures At(Filled(world, cache, expected, order), path) ==
      if path in order then FillCell(world, At(cache, path), path, expected(path)).data else At(cache, path)
  {
    if order != [] {
      var last := |order| - 1;
      var front := order[..last];
      assert order == front + [order[last]];
      FilledAt(world, cache, expected, front, path);
      if path == order[last] {
        assert path !in front;
      }
    }
  }

  /** The entries of the paths that verify, and the errors of those that do not. */
  function Entries(world: World, cache: Cache, expected: Expectation, order: seq<string>): seq<Entry> {
    if order == [] then []
    else
      var last := |order| - 1;
      var outcome := Outcome(world, cache, expected, order[last]);
      Entries(world, cache, expected, order[..last]) + if outcome.Ok? then [outcome.value] else []
  }

  function Errors(world: World, cache: Cache, expected: Expectation, order: seq<string>): seq<FontError> {
    if order == [] then []
    else
      var last := |order| - 1;
      var outcome := Outcome(world, cache, expected, order[last]);
      Errors(world, cache, expected, order[..last]) + if outcome.Err? then [outcome.error] else []
  }

  lemma {:induction false} EntriesListed(world: World, cache: Cache, expected: Expectation, order: seq<string>, e: Entry)
    ensures e in Entries(world, cache, expected, order) <==> e.path in order && Outcome(world, cache, expected, e.path) == Ok(e)
  {
    if order != [] {
      var last := |order| - 1;
      EntriesListed(world, cache, expected, order[..last], e);
      assert order == order[..last] + [order[last]];
    }
  }

  lemma {:induction false} ErrorsListed(world: World, cache: Cache, expected: Expectation, order: seq<string>, e: FontError)
    ensures e in Errors(world, cache, expected, order) <==> e.path in order && Outcome(world, cache, expected, e.path) == Err(e)
  {
    if order != [] {
      var last := |order| - 1;
      ErrorsListed(world, cache, expected, order[..last], e);
      assert order == order[..last] + [order[last]];
    }
  }

  ghost predicate DistinctPaths(entries: seq<Entry>) {
    forall i, j :: 0 <= i < j < |entries| ==> entries[i].path != entries[j].path
  }

  lemma {:induction false} EntriesDistinct(world: World, cache: Cache, expected: Expectation, order: seq<string>)
    requires Distinct(order)
    ensures DistinctPaths(Entries(world, cache, expected, order))
  {
    if order != [] {
      var last := |order| - 1;
      var front := Entries(world, cache, expected, order[..last]);
      EntriesDistinct(world, cache, expected, order[..last]);
      forall i | 0 <= i < |front| ensures front[i].path != order[last] {
        EntriesListed(world, cache, expected, order[..last], front[i]);
        assert front[i] in front;
      }
    }
  }

  ghost predicate SortedByPath(entries: seq<Entry>) {
    forall i, j :: 0 <= i < j < |entries| ==> Less(entries[i].path, entries[j].path)
  }

  /** Sorting by path, one insertion at a time. */
  function InsertEntry(entries: seq<Entry>, e: Entry): seq<Entry> {
    if entries == [] then [e]
    else if Less(e.path, entries[0].path) then [e] + entries
    else [entries[0]] + InsertEntry(entries[1..], e)
  }

  function SortEntries(entries: seq<Entry>): seq<Entry> {
    if entries == [] then [] else InsertEntry(SortEntries(entries[1..]), entries[0])
  }

  lemma {:induction false} InsertEntrySorted(entries: seq<Entry>, e: Entry)
    requires SortedByPath(entries) && forall i :: 0 <= i < |entries| ==> entries[i].path != e.path
    ensures SortedByPath(InsertEntry(entries, e))
    ensures forall x :: x in InsertEntry(entries, e) <==> x == e || x in entries
  {
    if entries != [] {
      if Less(e.path, entries[0].path) {
        forall i | 0 < i < |entries| ensures Less(e.path, entries[i].path) {
          LessTransitive(e.path, entries[0].path, entries[i].path);
        }
      } else {
        LessTotal(e.path, entries[0].path);
        InsertEntrySorted(entries[1..], e);
        var rest := InsertEntry(entries[1..], e);
        forall i | 0 <= i < |rest| ensures Less(entries[0].path, rest[i].path) {
          assert rest[i] in rest;
        }
      }
    }
  }

  lemma {:induction false} SortEntriesSorted(entries: seq<Entry>)
    requires DistinctPaths(entries)
    ensures SortedByPath(SortEntries(entries))
    ensures forall x :: x in SortEntries(entries) <==> x in entries
  {
    if entries != [] {
      SortEntriesSorted(entries[1..]);
      var rest := SortEntries(entries[1..]);
      forall i | 0 <= i < |rest| ensures rest[i].path != entries[0].path {
        assert rest[i] in entries[1..];
      }
      InsertEntrySorted(rest, entries[0]);
    }
  }

  /** Lists sorted by path with the same entries are equal. */
  lemma {:induction false} SortedByPathUnique(s: seq<Entry>, t: seq<Entry>)
    requires SortedByPath(s) && SortedByPath(t)
    requires forall x :: x in s <==> x in t
    ensures s == t
  {
    assert t == [] || t[0] in t;
    if s != [] {
      assert s[0] in t && t[0] in s;
      HeadLeast(s, t[0]);
      HeadLeast(t, s[0]);
      LessIrreflexive(s[0].path);
      if s[0] != t[0] {
        LessTransitive(s[0].path, t[0].path, s[0].path);
      }
      forall x ensures x in s[1..] <==> x in t[1..] {
        assert x in s <==> x == s[0] || x in s[1..];
        assert x in t <==> x == t[0] || x in t[1..];
        HeadApart(s, x);
        HeadApart(t, x);
      }
      SortedByPathUnique(s[1..], t[1..]);
    }
  }

  lemma HeadLeast(s: seq<Entry>, x: Entry)
    requires SortedByPath(s) && x in s
    ensures x == s[0] || Less(s[0].path, x.path)
  {}

  lemma HeadApart(s: seq<Entry>, x: Entry)
    requires SortedByPath(s) && s != []
    ensures x in s[1..] ==> x != s[0]
  {
    LessIrreflexive(s[0].path);
  }

  /** What a run reports: the entries in path order, the failures in the order in which the workers
      completed, or that the engine's fonts are not the locked ones. */
  datatype Report = Verified(entries: seq<Entry>) | Failures(errors: seq<FontError>) | InventoryDiffers

  function NoLock(path: string): Option<Entry> {
    None
  }

  /** The lock's entry for a path: of several, the last. */
  function LockEntry(lock: seq<Entry>, path: string): Option<Entry> {
    if lock == [] then None
    else if lock[|lock| - 1].path == path then Some(lock[|lock| - 1])
    else LockEntry(lock[..|lock| - 1], path)
  }

  function Expected(lock: seq<Entry>): Expectation {
    path => LockEntry(lock, path)
  }

  function Paths(lock: seq<Entry>): seq<string> {
    seq(|lock|, i requires 0 <= i < |lock| => lock[i].path)
  }

  /** The cache and the report of a run. */
  datatype RunResult = RunResult(cache: Cache, report: Report)

  function Checked(world: World, cache: Cache, expected: Expectation, order: seq<string>): RunResult {
    var errors := Errors(world, cache, expected, order);
    RunResult(Filled(world, cache, expected, order),
              if errors == [] then Verified(SortEntries(Entries(world, cache, expected, order))) else Failures(errors))
  }

  /** One run over the engine's `paths`, against the lock or, without one, to write it. */
  function Prepared(world: World, cache: Cache, lock: Option<seq<Entry>>, paths: seq<string>, order: seq<string>): RunResult {
    match lock
    case None => Checked(world, cache, NoLock, order)
    case Some(entries) =>
      if Paths(entries) != paths then RunResult(cache, InventoryDiffers) else Checked(world, cache, Expected(entries), order)
  }

  class FontCache {
    var files: Cache

    constructor (files: Cache)
      ensures this.files == files
    {
      this.files := files;
    }

    method MaterializeFont(world: World, path: string, expected: Option<Entry>) returns (result: Result<Entry, FontError>)
      modifies this
      ensures var cell := FillCell(world, At(old(files), path), path, expected);
        files == Stored(old(files), path, cell.data) && result == cell.result
    {
      var data: seq<Byte>;
      if path in files {
        data := files[path];
        assert files == files[path := data];
      } else {
        var fetched := world.fetch(path);
        if fetched.None? {
          return Err(FetchFailed(path));
        }
        data := fetched.value;
        if data == [] || |data| > MAX_FONT_BYTES || !IsFont(data) {
          return Err(InvalidFont(path));
        }
        if expected.Some? && (|data| != expected.value.bytes || world.digest(data) != expected.value.sha256) {
          return Err(DiffersFromLock(path));
        }
        files := files[path := data];
      }
      var actual := Identity(world, path, data);
      if !IsFont(data) || (expected.Some? && actual != expected.value) {
        return Err(DiffersFromLock(path));
      }
      return Ok(actual);
    }

    /** Collects the results in the order in which the workers happen to complete. */
    method VerifyFonts(world: World, expected: Expectation, order: seq<string>) returns (report: Report)
      requires Distinct(order)
      modifies this
      ensures RunResult(files, report) == Checked(world, old(files), expected, order)
    {
      var actual: seq<Entry>, failures: seq<FontError> := [], [];
      for i := 0 to |order|
        invariant files == Filled(world, old(files), expected, order[..i])
        invariant actual == Entries(world, old(files), expected, order[..i])
        invariant failures == Errors(world, old(files), expected, order[..i])
      {
        assert order[..i + 1][..i] == order[..i];
        FilledAt(world, old(files), expected, order[..i], order[i]);
        var result := MaterializeFont(world, order[i], expected(order[i]));
        match result {
          case Ok(entry) => actual := actual + [entry];
          case Err(error) => failures := failures + [error];
        }
      }
      assert order[..|order|] == order;
      return if failures == [] then Verified(SortEntries(actual)) else Failures(failures);
    }

    method PrepareFonts(world: World, lock: Option<seq<Entry>>, paths: seq<string>, order: seq<string>) returns (report: Report)
      requires Distinct(order)
      modifies this
      ensures RunResult(files, report) == Prepared(world, old(files), lock, paths, order)
    {
      match lock {
        case None =>
          report := VerifyFonts(world, NoLock, order);
        case Some(entries) =>
          if Paths(entries) != paths {
            return InventoryDiffers;
          }
          report := VerifyFonts(world, Expected(entries), order);
      }
    }
  }

  lemma SortedAlike(x: seq<Entry>, y: seq<Entry>)
    requires DistinctPaths(x) && DistinctPaths(y) && forall e :: e in x <==> e in y
    ensures SortEntries(x) == SortEntries(y)
  {
    SortEntriesSorted(x);
    SortEntriesSorted(y);
    SortedByPathUnique(SortEntries(x), SortEntries(y));
  }

  /** The paths that fail, in completion order. */
  function Failing(world: World, cache: Cache, expected: Expectation, order: seq<string>): seq<string> {
    if order == [] then []
    else
      var last := |order| - 1;
      Failing(world, cache, expected, order[..last]) + if Outcome(world, cache, expected, order[last]).Err? then [order[last]] else []
  }

  lemma {:induction false} ErrorsFail(world: World, cache: Cache, expected: Expectation, order: seq<string>)
    ensures var errors, failing := Errors(world, cache, expected, order), Failing(world, cache, expected, order);
      |errors| == |failing| && forall i :: 0 <= i < |errors| ==>
        errors[i].path == failing[i] && Outcome(world, cache, expected, failing[i]) == Err(errors[i])
  {
    if order != [] {
      ErrorsFail(world, cache, expected, order[..|order| - 1]);
    }
  }

  ghost predicate DistinctErrors(errors: seq<FontError>) {
    forall i, j :: 0 <= i < j < |errors| ==> errors[i] != errors[j]
  }

  lemma {:induction false} CountedOnce(errors: seq<FontError>, e: FontError)
    requires DistinctErrors(errors)
    ensures multiset(errors)[e] == if e in errors then 1 else 0
  {
    if errors != [] {
      var front, last := errors[..|errors| - 1], errors[|errors| - 1];
      CountedOnce(front, e);
      assert errors == front + [last];
    }
  }

  lemma {:induction false} FailingDistinct(world: World, cache: Cache, expected: Expectation, order: seq<string>)
    requires Distinct(order)
    ensures Distinct(Failing(world, cache, expected, order))
    ensures forall p :: p in Failing(world, cache, expected, order) ==> p in order
  {
    if order != [] {
      var front := order[..|order| - 1];
      FailingDistinct(world, cache, expected, front);
      assert order == front + [order[|order| - 1]] && order[|order| - 1] !in front;
    }
  }

  /** Each failing path is reported once. */
  lemma ErrorsDistinct(world: World, cache: Cache, expected: Expectation, order: seq<string>)
    requires Distinct(order)
    ensures DistinctErrors(Errors(world, cache, expected, order))
  {
    ErrorsFail(world, cache, expected, order);
    FailingDistinct(world, cache, expected, order);
  }

  lemma SameCounts(a: seq<FontError>, b: seq<FontError>)
    requires DistinctErrors(a) && DistinctErrors(b) && forall e :: e in a <==> e in b
    ensures multiset(a) == multiset(b)
  {
    forall e ensures multiset(a)[e] == multiset(b)[e] {
      CountedOnce(a, e);
      CountedOnce(b, e);
    }
  }

  lemma ErrorsAlike(world: World, cache: Cache, expected: Expectation, a: seq<string>, b: seq<string>)
    requires Distinct(a) && Distinct(b) && forall p :: p in a <==> p in b
    ensures multiset(Errors(world, cache, expected, a)) == multiset(Errors(world, cache, expected, b))
  {
    var failed, others := Errors(world, cache, expected, a), Errors(world, cache, expected, b);
    forall e ensures e in failed <==> e in others {
      ErrorsListed(world, cache, expected, a, e);
      ErrorsListed(world, cache, expected, b, e);
    }
    ErrorsDistinct(world, cache, expected, a);
    ErrorsDistinct(world, cache, expected, b);
    SameCounts(failed, others);
  }

  lemma ErrorsOrdered(world: World, cache: Cache, expected: Expectation, a: seq<string>, b: seq<string>)
    ensures Errors(world, cache, expected, a) == Errors(world, cache, expected, b)
      <==> Failing(world, cache, expected, a) == Failing(world, cache, expected, b)
  {
    ErrorsFail(world, cache, expected, a);
    ErrorsFail(world, cache, expected, b);
  }

  lemma NoneFailing(world: World, cache: Cache, expected: Expectation, a: seq<string>, b: seq<string>)
    requires multiset(Errors(world, cache, expected, a)) == multiset(Errors(world, cache, expected, b))
    ensures Errors(world, cache, expected, a) == [] <==> Errors(world, cache, expected, b) == []
  {
    var failed, others := Errors(world, cache, expected, a), Errors(world, cache, expected, b);
    assert |failed| == |multiset(failed)| && |others| == |multiset(others)|;
  }

  lemma CachesAlike(world: World, cache: Cache, expected: Expectation, a: seq<string>, b: seq<string>)
    requires Distinct(a) && Distinct(b) && forall p :: p in a <==> p in b
    ensures Filled(world, cache, expected, a) == Filled(world, cache, expected, b)
  {
    forall p ensures At(Filled(world, cache, expected, a), p) == At(Filled(world, cache, expected, b), p) {
      FilledAt(world, cache, expected, a, p);
      FilledAt(world, cache, expected, b, p);
    }
    CachesEqual(Filled(world, cache, expected, a), Filled(world, cache, expected, b));
  }

  lemma EntriesAlike(world: World, cache: Cache, expected: Expectation, a: seq<string>, b: seq<string>)
    requires Distinct(a) && Distinct(b) && forall p :: p in a <==> p in b
    ensures SortEntries(Entries(world, cache, expected, a)) == SortEntries(Entries(world, cache, expected, b))
  {
    var x, y := Entries(world, cache, expected, a), Entries(world, cache, expected, b);
    forall e ensures e in x <==> e in y {
      EntriesListed(world, cache, expected, a, e);
      EntriesListed(world, cache, expected, b, e);
    }
    EntriesDistinct(world, cache, expected, a);
    EntriesDistinct(world, cache, expected, b);
    SortedAlike(x, y);
  }

  /** Main result: the completion order changes neither the cache nor which failures are reported nor,
      where there are none, the entries. It changes only the order in which failures are reported. */
  lemma OrderIrrelevant(world: World, cache: Cache, expected: Expectation, a: seq<string>, b: seq<string>)
    requires Distinct(a) && Distinct(b) && forall p :: p in a <==> p in b
    ensures Filled(world, cache, expected, a) == Filled(world, cache, expected, b)
    ensures multiset(Errors(world, cache, expected, a)) == multiset(Errors(world, cache, expected, b))
    ensures Checked(world, cache, expected, a) == Checked(world, cache, expected, b)
      <==> Failing(world, cache, expected, a) == Failing(world, cache, expected, b)
  {
    CachesAlike(world, cache, expected, a, b);
    ErrorsAlike(world, cache, expected, a, b);
    EntriesAlike(world, cache, expected, a, b);
    ErrorsOrdered(world, cache, expected, a, b);
    NoneFailing(world, cache, expected, a, b);
  }

  lemma CachesEqual(a: Cache, b: Cache)
    requires forall p :: At(a, p) == At(b, p)
    ensures a == b
  {
    forall p ensures p in a <==> p in b {
      assert At(a, p) == At(b, p);
    }
    forall p | p in a ensures a[p] == b[p] {
      assert At(a, p) == At(b, p);
    }
  }

  // ----- Writing a lock and verifying it -----

  /** `order` lists exactly the engine's paths, which come sorted. */
  ghost predicate Covers(order: seq<string>, paths: seq<string>) {
    Distinct(order) && Sorted(paths) && forall p :: p in order <==> p in paths
  }

  /** Every path of `order` verified, and `lock` expects what was found. */
  ghost predicate LocksAll(world: World, cache: Cache, order: seq<string>, lock: Expectation) {
    forall p :: p in order ==>
      Outcome(world, cache, NoLock, p).Ok? && lock(p) == Some(Outcome(world, cache, NoLock, p).value)
  }

  lemma NoErrors(world: World, cache: Cache, expected: Expectation, order: seq<string>, p: string)
    requires Errors(world, cache, expected, order) == [] && p in order
    ensures Outcome(world, cache, expected, p).Ok?
  {
    match Outcome(world, cache, expected, p)
    case Ok(_) =>
    case Err(e) => ErrorsListed(world, cache, expected, order, e);
  }

  /** What the later run finds for a path is what the earlier run found, and is in the cache. */
  lemma LockedOutcome(world: World, later: World, cache: Cache, order: seq<string>, lock: Expectation, p: string)
    requires Distinct(order) && p in order && LocksAll(world, cache, order, lock) && later.digest == world.digest
    ensures var filled := Filled(world, cache, NoLock, order);
      FillCell(later, At(filled, p), p, lock(p)) == Cell(At(filled, p), Outcome(world, cache, NoLock, p))
  {
    FilledAt(world, cache, NoLock, order, p);
  }

  lemma NoMember(errors: seq<FontError>)
    ensures errors == [] || exists e :: e in errors
  {
    if errors != [] {
      assert errors[0] in errors;
    }
  }

  lemma LockedChecks(world: World, later: World, cache: Cache, order: seq<string>, again: seq<string>, lock: Expectation)
    requires Distinct(order) && Distinct(again) && (forall p :: p in order <==> p in again) && later.digest == world.digest
    requires Errors(world, cache, NoLock, order) == [] && LocksAll(world, cache, order, lock)
    ensures Checked(later, Filled(world, cache, NoLock, order), lock, again) == Checked(world, cache, NoLock, order)
  {
    var filled := Filled(world, cache, NoLock, order);
    forall p | p in order
      ensures FillCell(later, At(filled, p), p, lock(p)) == Cell(At(filled, p), Outcome(world, cache, NoLock, p))
    {
      LockedOutcome(world, later, cache, order, lock, p);
    }
    forall e ensures e !in Errors(later, filled, lock, again) {
      ErrorsListed(later, filled, lock, again, e);
    }
    NoMember(Errors(later, filled, lock, again));
    forall p ensures At(Filled(later, filled, lock, again), p) == At(filled, p) {
      FilledAt(later, filled, lock, again, p);
    }
    CachesEqual(Filled(later, filled, lock, again), filled);
    forall e ensures e in Entries(later, filled, lock, again) <==> e in Entries(world, cache, NoLock, order) {
      EntriesListed(later, filled, lock, again, e);
      EntriesListed(world, cache, NoLock, order, e);
    }
    EntriesDistinct(later, filled, lock, again);
    EntriesDistinct(world, cache, NoLock, order);
    SortedAlike(Entries(later, filled, lock, again), Entries(world, cache, NoLock, order));
  }

  lemma {:induction false} LockEntryAt(lock: seq<Entry>, k: nat)
    requires k < |lock| && DistinctPaths(lock)
    ensures LockEntry(lock, lock[k].path) == Some(lock[k])
  {
    if k < |lock| - 1 {
      LockEntryAt(lock[..|lock| - 1], k);
    }
  }

  lemma SortedDistinct(lock: seq<Entry>)
    requires SortedByPath(lock)
    ensures DistinctPaths(lock)
  {
    forall i, j | 0 <= i < j < |lock| ensures lock[i].path != lock[j].path {
      LessIrreflexive(lock[i].path);
    }
  }

  /** The lock just written expects what was found for each path, and lists the engine's paths. */
  lemma WrittenLock(world: World, cache: Cache, paths: seq<string>, order: seq<string>)
    requires Covers(order, paths) && Errors(world, cache, NoLock, order) == []
    ensures var lock := SortEntries(Entries(world, cache, NoLock, order));
      LocksAll(world, cache, order, Expected(lock)) && Paths(lock) == paths
  {
    var found := Entries(world, cache, NoLock, order);
    var lock := SortEntries(found);
    EntriesDistinct(world, cache, NoLock, order);
    SortEntriesSorted(found);
    SortedDistinct(lock);
    forall p | p in order
      ensures Outcome(world, cache, NoLock, p).Ok? && LockEntry(lock, p) == Some(Outcome(world, cache, NoLock, p).value)
      ensures p in Paths(lock)
    {
      NoErrors(world, cache, NoLock, order, p);
      var e := Outcome(world, cache, NoLock, p).value;
      EntriesListed(world, cache, NoLock, order, e);
      assert e in lock;
      var k :| 0 <= k < |lock| && lock[k] == e;
      LockEntryAt(lock, k);
      assert Paths(lock)[k] == p;
    }
    forall i | 0 <= i < |lock| ensures Paths(lock)[i] in order {
      assert lock[i] in lock;
      EntriesListed(world, cache, NoLock, order, lock[i]);
    }
    SortedUnique(Paths(lock), paths);
  }

  /** Main result: a lock just written passes the inventory check and verifies, in any order and
      whatever the network then gives, with the same entries and no change to the cache. */
  lemma WrittenLockVerifies(
      world: World, later: World, cache: Cache, paths: seq<string>, order: seq<string>, again: seq<string>,
      filled: Cache, lock: seq<Entry>)
    requires Covers(order, paths) && Covers(again, paths) && later.digest == world.digest
    requires Prepared(world, cache, None, paths, order) == RunResult(filled, Verified(lock))
    ensures Prepared(later, filled, Some(lock), paths, again) == RunResult(filled, Verified(lock))
  {
    WrittenLock(world, cache, paths, order);
    LockedChecks(world, later, cache, order, again, Expected(lock));
  }
}
