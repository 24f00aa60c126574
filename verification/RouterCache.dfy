/** lib/router_cache.py, as hooks/router.py drives it: skip on an unchanged hash, otherwise
    run, record and save. */
module RouterCache {
  import opened Findings
  import opened Options
  import opened OrderedDict
  import opened Sorting

  const MAX_ENTRIES: nat := 1000
  const EVICT_TARGET: nat := 800

  type Path = string
  type Hash = string
  type Cache = Dict<Path, Hash>

  predicate ShouldSkip(cache: Cache, path: Path, current: Option<Hash>) {
    current.Some? && Lookup(cache, path) == current
  }

  function Recorded(cache: Cache, path: Path, current: Option<Hash>): Cache {
    match current
    case None => cache
    case Some(h) => Remove(cache, path) + [(path, h)]
  }

  function Evicted(cache: Cache): Cache {
    if |cache| > MAX_ENTRIES then Suffix(cache, EVICT_TARGET) else cache
  }

  /** One router invocation on a file with matching validators. */
  function Step(cache: Cache, path: Path, current: Option<Hash>): Cache {
    if ShouldSkip(cache, path, current) then cache else Evicted(Recorded(cache, path, current))
  }

  /** A router invocation on a file some validators match: the path, the digest of its bytes (none
      when unreadable), what running the validators would now report, whether the cache file was
      lost or corrupted since the previous one, and whether the new one can be written. */
  datatype Edit = Edit(path: Path, current: Option<Hash>, found: seq<Finding>, lost: bool, written: bool)

  /** `load_cache` */
  function Loaded(disk: Cache, e: Edit): Cache {
    if e.lost then [] else disk
  }

  function Skips(disk: Cache, e: Edit): bool {
    ShouldSkip(Loaded(disk, e), e.path, e.current)
  }

  /** The cache file afterwards. */
  function Advance(disk: Cache, e: Edit): Cache {
    if e.written then Step(Loaded(disk, e), e.path, e.current) else Loaded(disk, e)
  }

  class Router {
    var disk: Cache
    var cache: Cache

    constructor ()
      ensures disk == []
    {
      disk, cache := [], [];
    }

    method RecordHit(path: Path, current: Option<Hash>)
      requires UniqueKeys(cache)
      modifies this`cache
      ensures UniqueKeys(cache) && cache == Recorded(old(cache), path, current)
      ensures current.None? ==> cache == old(cache)
      ensures current.Some? ==> Keys(cache) == Without(Keys(old(cache)), path) + [path]
      ensures current.Some? ==> forall p :: Lookup(cache, p) == if p == path then current else Lookup(old(cache), p)
    {
      if current.Some? { RecordedLookups(cache, path, current.value); }
      if current.None? { return; }
      RemoveKeys(cache, path);
      WithoutElems(Keys(cache), path, path);
      cache := Remove(cache, path);
      PutFresh(cache, path, current.value);
      PutUnique(cache, path, current.value);
      cache := Put(cache, path, current.value);
    }

    method SaveCache(written: bool)
      requires UniqueKeys(cache)
      modifies this
      ensures UniqueKeys(cache) && cache == Evicted(old(cache))
      ensures |old(cache)| <= 1000 ==> cache == old(cache)
      ensures |old(cache)| > 1000 ==> cache == old(cache)[|old(cache)| - 800..]
      ensures disk == if written then cache else old(disk)
    {
      if |cache| > MAX_ENTRIES {
        var keysToDrop := Keys(cache)[..|cache| - EVICT_TARGET];
        ghost var all := cache;
        for n := 0 to |keysToDrop|
          invariant cache == all[n..] && disk == old(disk)
        {
          assert cache[0].0 == keysToDrop[n];
          cache := Remove(cache, keysToDrop[n]);
        }
        DropLookup(all, |keysToDrop|, "");
      }
      if written { disk := cache; }
    }

    /** The cache-relevant part of the router's `main`: load, skip and report nothing, or run,
        record whatever was found, and save. */
    method Handle(e: Edit) returns (reported: seq<Finding>)
      requires UniqueKeys(disk)
      modifies this
      ensures UniqueKeys(disk) && disk == Advance(old(disk), e)
      ensures reported == if Skips(old(disk), e) then [] else e.found
      ensures !e.lost && e.current.Some? && Lookup(old(disk), e.path) == e.current ==> reported == []
      ensures e.lost || e.current.None? || Lookup(old(disk), e.path) != e.current ==> reported == e.found
    {
      if e.lost { disk := []; }
      cache := disk;
      if ShouldSkip(cache, e.path, e.current) { return []; }
      reported := e.found;
      RecordHit(e.path, e.current);
      SaveCache(e.written);
    }
  }

  // ---- runs ---------------------------------------------------------------------------

  function Run(trace: seq<Edit>): Cache {
    if trace == [] then [] else Advance(Run(trace[..|trace| - 1]), trace[|trace| - 1])
  }

  /** Whether invocation `n` skipped. */
  predicate Skipped(trace: seq<Edit>, n: nat)
    requires n < |trace|
  {
    Skips(Run(trace[..n]), trace[n])
  }

  /** Whether invocation `n` ran the validators on a readable file and wrote that down. */
  predicate Records(trace: seq<Edit>, n: nat)
    requires n < |trace|
  {
    trace[n].current.Some? && trace[n].written && !Skipped(trace, n)
  }

  /** The paths recorded since the cache file was last lost. */
  function RecordedPaths(trace: seq<Edit>): seq<Path> {
    if trace == [] then [] else
      var n := |trace| - 1;
      (if trace[n].lost then [] else RecordedPaths(trace[..n])) + if Records(trace, n) then [trace[n].path] else []
  }

  /** The last recorded run on `path` since then. */
  function LastRun(trace: seq<Edit>, path: Path): (r: Option<nat>)
    ensures r.Some? ==> r.value < |trace| && Records(trace, r.value) && trace[r.value].path == path
  {
    if trace == [] then None else
      var n := |trace| - 1;
      if Records(trace, n) && trace[n].path == path then Some(n)
      else if trace[n].lost then None
      else
        assert forall k :: 0 <= k < n ==> trace[..n][..k] == trace[..k];
        LastRun(trace[..n], path)
  }

  /** ... and the digest it recorded. */
  function LastRecorded(trace: seq<Edit>, path: Path): Option<Hash> {
    match LastRun(trace, path)
    case None => None
    case Some(k) => trace[k].current
  }

  lemma RecordUnique(cache: Cache, path: Path, h: Hash)
    requires UniqueKeys(cache)
    ensures UniqueKeys(Recorded(cache, path, Some(h)))
    ensures Keys(Recorded(cache, path, Some(h))) == Without(Keys(cache), path) + [path]
    ensures path !in Keys(Remove(cache, path))
  {
    RemoveKeys(cache, path);
    WithoutElems(Keys(cache), path, path);
    var kept := Remove(cache, path);
    assert Keys(kept + [(path, h)]) == Keys(kept) + [path];
  }

  lemma RecordedLookups(cache: Cache, path: Path, h: Hash)
    requires UniqueKeys(cache)
    ensures Keys(Recorded(cache, path, Some(h))) == Without(Keys(cache), path) + [path]
    ensures forall p :: Lookup(Recorded(cache, path, Some(h)), p) == if p == path then Some(h) else Lookup(cache, p)
  {
    RecordUnique(cache, path, h);
    forall p ensures Lookup(Recorded(cache, path, Some(h)), p) == if p == path then Some(h) else Lookup(cache, p) {
      AppendLookup(Remove(cache, path), path, h, p);
      if p != path { RemoveLookup(cache, path, p); }
    }
  }

  lemma EvictedUnique(cache: Cache)
    requires UniqueKeys(cache)
    ensures UniqueKeys(Evicted(cache)) && |Evicted(cache)| <= MAX_ENTRIES
  {
    hide UniqueKeys;
    if |cache| > MAX_ENTRIES { DropLookup(cache, |cache| - EVICT_TARGET, ""); }
  }

  lemma LoadedUnique(disk: Cache, e: Edit)
    requires UniqueKeys(disk) && |disk| <= MAX_ENTRIES
    ensures UniqueKeys(Loaded(disk, e)) && |Loaded(disk, e)| <= MAX_ENTRIES
  {
  }

  lemma {:induction false} RunUnique(trace: seq<Edit>)
    ensures UniqueKeys(Run(trace)) && |Run(trace)| <= MAX_ENTRIES
  {
    if trace == [] {
    } else {
      hide UniqueKeys, Evicted, Recorded, ShouldSkip, Loaded;
      var n := |trace| - 1;
      var e := trace[n];
      var before := Loaded(Run(trace[..n]), e);
      RunUnique(trace[..n]);
      LoadedUnique(Run(trace[..n]), e);
      if e.current.Some? {
        RecordUnique(before, e.path, e.current.value);
      } else {
        UnreadableKeeps(before, e.path);
      }
      EvictedUnique(Recorded(before, e.path, e.current));
    }
  }

  lemma UnreadableKeeps(cache: Cache, path: Path)
    ensures Recorded(cache, path, None) == cache
  {
  }

  /** `r` ends with the cached keys: all of `r` while it has at most 1000, and at least 800 after that. */
  ghost predicate HoldsRecent(cache: Cache, r: seq<Path>) {
    && |cache| <= |r| && Keys(cache) == r[|r| - |cache|..]
    && (|cache| == |r| || (|cache| >= EVICT_TARGET && |r| > MAX_ENTRIES))
  }

  lemma RecordHoldsRecent(cache: Cache, r: seq<Path>, path: Path, h: Hash)
    requires UniqueKeys(cache) && Distinct(r) && HoldsRecent(cache, r)
    ensures HoldsRecent(Recorded(cache, path, Some(h)), Without(r, path) + [path])
  {
    var older, recent := r[..|r| - |cache|], Keys(cache);
    var all := Recorded(cache, path, Some(h));
    assert r == older + recent && |recent| == |cache|;
    RecordUnique(cache, path, h);
    assert |Keys(all)| == |all|;
    if path in recent {
      TouchHit(older, recent, path);
    } else {
      TouchMiss(older, recent, path);
      WithoutNone(recent, path);
      OlderShrinks(older, recent, path);
    }
  }

  lemma OlderShrinks(older: seq<Path>, recent: seq<Path>, path: Path)
    requires Distinct(older + recent)
    ensures |Without(older, path)| >= |older| - 1
    ensures older == [] ==> Without(older, path) == []
  {
    assert forall i :: 0 <= i < |older| ==> (older + recent)[i] == older[i];
    WithoutDistinct(older, path);
    if path !in older { WithoutNone(older, path); }
  }

  lemma EvictHoldsRecent(cache: Cache, r: seq<Path>)
    requires UniqueKeys(cache) && HoldsRecent(cache, r)
    ensures HoldsRecent(Evicted(cache), r)
  {
  }

  /** One recorded run, at the level of the recency order. */
  lemma RecordKeepsRecent(before: Cache, used: seq<Path>, path: Path, h: Hash)
    requires UniqueKeys(before) && HoldsRecent(before, Recency(used))
    ensures HoldsRecent(Evicted(Recorded(before, path, Some(h))), Recency(used + [path]))
  {
    hide HoldsRecent, Recency, Recorded, Evicted, UniqueKeys;
    RecencyDistinct(used);
    RecencyTouch(used, path);
    RecordHoldsRecent(before, Recency(used), path, h);
    RecordUnique(before, path, h);
    EvictHoldsRecent(Recorded(before, path, Some(h)), Recency(used + [path]));
  }

  lemma AdvanceRecords(disk: Cache, e: Edit)
    requires e.current.Some? && e.written && !Skips(disk, e)
    ensures Advance(disk, e) == Evicted(Recorded(Loaded(disk, e), e.path, e.current))
  {
  }

  lemma LoadedHoldsRecent(disk: Cache, e: Edit, used: seq<Path>)
    requires HoldsRecent(disk, Recency(used))
    ensures HoldsRecent(Loaded(disk, e), Recency(if e.lost then [] else used))
  {
    NothingHeld();
  }

  /** After any run, lost and unwritten files included: the cached paths are the tail of the
      recorded paths' recency order, never more than 1000, all of them up to the 1000th distinct
      path and at least 800 from then on. */
  lemma {:induction false} KeepsRecentPaths(trace: seq<Edit>)
    ensures HoldsRecent(Run(trace), Recency(RecordedPaths(trace)))
    ensures |Run(trace)| <= MAX_ENTRIES
  {
    hide HoldsRecent, Recency, Recorded, Evicted, UniqueKeys, Skips, Loaded, Advance;
    RunUnique(trace);
    if trace == [] {
      NothingHeld();
    } else {
      var n := |trace| - 1;
      var e, disk := trace[n], Run(trace[..n]);
      var used := if e.lost then [] else RecordedPaths(trace[..n]);
      KeepsRecentPaths(trace[..n]);
      RunUnique(trace[..n]);
      LoadedUnique(disk, e);
      LoadedHoldsRecent(disk, e, RecordedPaths(trace[..n]));
      if Records(trace, n) {
        AdvanceRecords(disk, e);
        RecordKeepsRecent(Loaded(disk, e), used, e.path, e.current.value);
      } else {
        assert used + [] == used;
        UnrecordedKeeps(disk, e);
      }
    }
  }

  lemma NothingHeld()
    ensures HoldsRecent([], Recency<Path>([])) && UniqueKeys<Path, Hash>([])
  {
  }

  lemma UnrecordedKeeps(disk: Cache, e: Edit)
    requires |disk| <= MAX_ENTRIES && (e.current.None? || !e.written || Skips(disk, e))
    ensures Advance(disk, e) == Loaded(disk, e)
  {
  }

  /** Every entry is the digest of its path's last recorded run. */
  lemma {:induction false} EntryIsLastRecorded(trace: seq<Edit>, path: Path)
    requires Lookup(Run(trace), path).Some?
    ensures LastRecorded(trace, path) == Lookup(Run(trace), path)
  {
    var n := |trace| - 1;
    var e := trace[n];
    var before := Loaded(Run(trace[..n]), e);
    RunUnique(trace[..n]);
    if Records(trace, n) {
      EntryAfterRecord(before, e.path, e.current.value, path);
    } else {
      UnrecordedKeeps(Run(trace[..n]), e);
    }
    if !(Records(trace, n) && path == e.path) {
      EntryIsLastRecorded(trace[..n], path);
    }
  }

  lemma EntryAfterRecord(before: Cache, path: Path, h: Hash, k: Path)
    requires UniqueKeys(before) && Lookup(Evicted(Recorded(before, path, Some(h))), k).Some?
    ensures Lookup(Evicted(Recorded(before, path, Some(h))), k) == if k == path then Some(h) else Lookup(before, k)
  {
    var all := Recorded(before, path, Some(h));
    RecordUnique(before, path, h);
    if |all| > MAX_ENTRIES { DropLookup(all, |all| - EVICT_TARGET, k); }
    AppendLookup(Remove(before, path), path, h, k);
    if k != path { RemoveLookup(before, path, k); }
  }

  /** A skip repeats the digest of the path's last recorded run. */
  lemma SkipsOnlyUnchanged(trace: seq<Edit>, path: Path, current: Option<Hash>)
    requires ShouldSkip(Run(trace), path, current)
    ensures current.Some? && LastRecorded(trace, path) == current
  {
    EntryIsLastRecorded(trace, path);
  }

  /** Up to 1000 distinct recorded paths none is forgotten: the skip test is then exactly
      "same digest as at the last recorded run". */
  lemma SkipsExactlyUnchanged(trace: seq<Edit>, path: Path, current: Option<Hash>)
    requires |Elems(RecordedPaths(trace))| <= MAX_ENTRIES
    ensures ShouldSkip(Run(trace), path, current) <==> current.Some? && LastRecorded(trace, path) == current
  {
    KeepsRecentPaths(trace);
    RecencyLength(RecordedPaths(trace));
    var r := Recency(RecordedPaths(trace));
    assert |Run(trace)| == |r| && r[0..] == r;
    assert Keys(Run(trace)) == r;
    LookupIff(Run(trace), path);
    if Lookup(Run(trace), path).Some? {
      EntryIsLastRecorded(trace, path);
    } else {
      RecencyElems(RecordedPaths(trace), path);
      NeverRecorded(trace, path);
    }
  }

  lemma {:induction false} NeverRecorded(trace: seq<Edit>, path: Path)
    requires path !in RecordedPaths(trace)
    ensures LastRun(trace, path) == None
  {
    if trace == [] || trace[|trace| - 1].lost {
    } else {
      NeverRecorded(trace[..|trace| - 1], path);
    }
  }

  // ---- what a skip hides --------------------------------------------------------------

  /** What invocation `n` reports: a skip reports nothing, whatever a run would find. */
  function Reported(trace: seq<Edit>, n: nat): seq<Finding>
    requires n < |trace|
  {
    if Skipped(trace, n) then [] else trace[n].found
  }

  /** What a skip loses, the current findings, was reported by the path's last recorded run. */
  ghost predicate RepeatsReport(trace: seq<Edit>, n: nat)
    requires n < |trace|
  {
    Skipped(trace, n) ==>
      var last := LastRun(trace[..n], trace[n].path);
      last.Some? && Reported(trace, last.value) == trace[n].found
  }

  /** What running reports on a readable file: determined by path, digest and context.  The
      context is everything else: which validators are active, the other files, the tools. */
  ghost predicate Behaves<C>(trace: seq<Edit>, contexts: seq<C>, run: (Path, Hash, C) -> seq<Finding>) {
    && |contexts| == |trace|
    && forall n :: 0 <= n < |trace| ==> BehavesAt(trace[n], contexts[n], run)
  }

  ghost predicate BehavesAt<C>(e: Edit, context: C, run: (Path, Hash, C) -> seq<Finding>) {
    e.current.Some? ==> e.found == run(e.path, e.current.value, context)
  }

  /** Every skip goes back to a run on the same path and digest, which reported what it found. */
  lemma SkipHasRun(trace: seq<Edit>, n: nat)
    requires n < |trace| && Skipped(trace, n)
    ensures var last := LastRun(trace[..n], trace[n].path);
      && last.Some? && last.value < n && trace[last.value].path == trace[n].path
      && trace[n].current.Some? && trace[last.value].current == trace[n].current
      && Reported(trace, last.value) == trace[last.value].found
  {
    hide Run, LastRun, Lookup;
    NoSkipOnLost(Run(trace[..n]), trace[n]);
    SkipsOnlyUnchanged(trace[..n], trace[n].path, trace[n].current);
    var k := LastRun(trace[..n], trace[n].path).value;
    assert trace[..n][..k] == trace[..k];
  }

  lemma NoSkipOnLost(disk: Cache, e: Edit)
    ensures Skips(disk, e) ==> !e.lost
  {
  }

  /** When the context is the same as at that run, what is hidden has been reported. */
  lemma SameContextRepeats<C>(trace: seq<Edit>, contexts: seq<C>, run: (Path, Hash, C) -> seq<Finding>, n: nat)
    requires Behaves(trace, contexts, run) && n < |trace| && Skipped(trace, n)
    ensures LastRun(trace[..n], trace[n].path).Some?
    ensures contexts[LastRun(trace[..n], trace[n].path).value] == contexts[n] ==> RepeatsReport(trace, n)
  {
    hide Run, LastRun, Skipped;
    SkipHasRun(trace, n);
    var k := LastRun(trace[..n], trace[n].path).value;
    assert BehavesAt(trace[n], contexts[n], run) && BehavesAt(trace[k], contexts[k], run);
  }

  /** Two invocations on the same bytes, whatever the context of each. */
  function Twice<C>(path: Path, h: Hash, c: C, d: C, run: (Path, Hash, C) -> seq<Finding>): seq<Edit> {
    [Edit(path, Some(h), run(path, h, c), false, true), Edit(path, Some(h), run(path, h, d), false, true)]
  }

  lemma TwiceSkips<C>(path: Path, h: Hash, c: C, d: C, run: (Path, Hash, C) -> seq<Finding>)
    ensures var trace := Twice(path, h, c, d, run);
      && Behaves(trace, [c, d], run) && Skipped(trace, 1)
      && LastRun(trace[..1], path) == Some(0) && Reported(trace, 0) == run(path, h, c)
  {
    var trace := Twice(path, h, c, d, run);
    assert trace[..1][..0] == [] && trace[..0] == [];
    assert Records(trace[..1], 0);
    assert [] + [(path, h)] == [(path, h)];
    assert Run(trace[..1]) == [(path, h)];
  }

  /** Every skip of every history hides only what was already reported if and only if what the
      validators report depends on nothing but the path and the bytes. */
  lemma SkipsRepeatIffContextFree<C(!new)>(run: (Path, Hash, C) -> seq<Finding>)
    ensures (forall trace: seq<Edit>, contexts: seq<C>, n: nat ::
               Behaves(trace, contexts, run) && n < |trace| ==> RepeatsReport(trace, n))
      <==> forall path, h, c, d :: run(path, h, c) == run(path, h, d)
  {
    hide RepeatsReport, Skipped, LastRun;
    if forall path, h, c, d :: run(path, h, c) == run(path, h, d) {
      forall trace: seq<Edit>, contexts: seq<C>, n: nat | Behaves(trace, contexts, run) && n < |trace|
        ensures RepeatsReport(trace, n)
      {
        ContextFreeRepeats(trace, contexts, run, n);
      }
    } else {
      var path, h, c, d :| run(path, h, c) != run(path, h, d);
      TwiceSkips(path, h, c, d, run);
      NotRepeated(path, h, c, d, run);
    }
  }

  lemma NotRepeated<C>(path: Path, h: Hash, c: C, d: C, run: (Path, Hash, C) -> seq<Finding>)
    requires run(path, h, c) != run(path, h, d)
    ensures !RepeatsReport(Twice(path, h, c, d, run), 1)
  {
    hide Skipped, LastRun, Reported;
    TwiceSkips(path, h, c, d, run);
  }

  lemma ContextFreeRepeats<C(!new)>(trace: seq<Edit>, contexts: seq<C>, run: (Path, Hash, C) -> seq<Finding>, n: nat)
    requires Behaves(trace, contexts, run) && n < |trace|
    requires forall path, h, c, d :: run(path, h, c) == run(path, h, d)
    ensures RepeatsReport(trace, n)
  {
    hide Run, LastRun, Skipped;
    if Skipped(trace, n) {
      SkipHasRun(trace, n);
      var k := LastRun(trace[..n], trace[n].path).value;
      assert BehavesAt(trace[n], contexts[n], run) && BehavesAt(trace[k], contexts[k], run);
    }
  }

  /** And no skip hides a finding at all if and only if there is never one to hide: a file is
      recorded whether or not its run found errors. */
  lemma SkipsHideNothingIffSilent<C(!new)>(run: (Path, Hash, C) -> seq<Finding>)
    ensures (forall trace: seq<Edit>, contexts: seq<C>, n: nat ::
               Behaves(trace, contexts, run) && n < |trace| ==> Reported(trace, n) == trace[n].found)
      <==> forall path, h, c :: run(path, h, c) == []
  {
    hide LastRun, Skipped;
    if forall path, h, c :: run(path, h, c) == [] {
      forall trace: seq<Edit>, contexts: seq<C>, n: nat | Behaves(trace, contexts, run) && n < |trace|
        ensures Reported(trace, n) == trace[n].found
      {
        if Skipped(trace, n) {
          SkipHasRun(trace, n);
          assert BehavesAt(trace[n], contexts[n], run);
        }
      }
    } else {
      var path, h, c :| run(path, h, c) != [];
      TwiceSkips(path, h, c, c, run);
      var trace := Twice(path, h, c, c, run);
      assert Behaves(trace, [c, c], run) && Reported(trace, 1) != trace[1].found;
    }
  }
}
