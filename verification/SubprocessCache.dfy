/** lib/subprocess_cache.py: `cached_run` over one label's cache file. */
module SubprocessCache {
  import opened Framing
  import opened HashInput
  import opened Options
  import opened OrderedDict
  import opened Sorting

  const MAX_ENTRIES: nat := 32

  type Key = string
  datatype CachedResult = CachedResult(stdout: string, stderr: string, returncode: int)

  /** What running the command does: a result, or a timeout / missing-tool exception. */
  datatype Outcome = Completed(result: CachedResult) | Raised(error: string)

  type Entries = Dict<Key, CachedResult>

  /** One call: the new entries and what the caller sees.  `actual` is what the command would do now. */
  function Step(entries: Entries, capacity: nat, key: Key, actual: Outcome): (Entries, Outcome) {
    match Lookup(entries, key)
    case Some(hit) => (Remove(entries, key) + [(key, hit)], Completed(hit))
    case None =>
      match actual
      case Raised(_) => (entries, actual)
      case Completed(r) => (Suffix(entries + [(key, r)], capacity), actual)
  }

  /** The JSON file of one label. */
  class LabelCache {
    var entries: Entries

    constructor ()
      ensures entries == []
    {
      entries := [];
    }

    /** `cached_run`, after the key is computed.  `lost`: the purge removed this file, or it was
        wiped as corrupt; `written`: whether the new content reaches the disk. */
    method CachedRun(key: Key, actual: Outcome, disabled: bool, lost: bool, written: bool) returns (seen: Outcome)
      requires UniqueKeys(entries)
      modifies this
      ensures UniqueKeys(entries)
      ensures |old(entries)| <= 32 ==> |entries| <= 32
      ensures !disabled && written && actual.Completed? && (lost || key !in Keys(old(entries))) ==>
        |entries| == (if lost then 1 else if |old(entries)| < 32 then |old(entries)| + 1 else 32)
      ensures disabled ==> entries == old(entries) && seen == actual
      ensures !disabled ==>
        var found := if lost then [] else old(entries);
        seen == Step(found, MAX_ENTRIES, key, actual).1
        && entries == Advance(found, MAX_ENTRIES, Call(key, actual, written))
    {
      hide UniqueKeys, Lookup, Remove, Put, Suffix, Keys;
      if disabled { return actual; }
      if lost { entries := []; }
      ghost var found := entries;
      NothingCached();
      StepUnique(found, MAX_ENTRIES, key, actual);
      var loaded := entries;
      var hit := Lookup(loaded, key);
      LookupIff(loaded, key);
      KeysLength(loaded);
      if hit.Some? {
        HitMoves(loaded, key);
        loaded := Remove(loaded, key);
        loaded := Put(loaded, key, hit.value);
        if written { entries := loaded; }
        return Completed(hit.value);
      }
      match actual
      case Raised(_) => return actual;
      case Completed(r) =>
        MissAppends(loaded, key, r);
        loaded := Put(loaded, key, r);
        loaded := DropOldest(loaded);
        if written { entries := loaded; }
        return actual;
    }
  }

  /** The eviction loop. */
  method DropOldest(all: Entries) returns (kept: Entries)
    ensures kept == Suffix(all, MAX_ENTRIES) && |kept| == if |all| < 32 then |all| else 32
  {
    kept := all;
    while |kept| > MAX_ENTRIES
      invariant |kept| <= |all| && kept == all[|all| - |kept|..]
      invariant if |all| > MAX_ENTRIES then |kept| >= MAX_ENTRIES else kept == all
      decreases |kept|
    {
      kept := kept[1..];
    }
  }

  lemma NothingCached()
    ensures UniqueKeys<Key, CachedResult>([])
  {
  }

  /** `del entries[key]; entries[key] = hit` */
  lemma HitMoves(entries: Entries, key: Key)
    requires UniqueKeys(entries) && Lookup(entries, key).Some?
    ensures Put(Remove(entries, key), key, Lookup(entries, key).value)
      == Remove(entries, key) + [(key, Lookup(entries, key).value)]
    ensures |Remove(entries, key)| == |entries| - 1
  {
    hide Lookup, Remove, Put;
    RemoveKeys(entries, key);
    LookupIff(entries, key);
    WithoutDistinct(Keys(entries), key);
    KeysLength(entries);
    KeysLength(Remove(entries, key));
    WithoutElems(Keys(entries), key, key);
    PutFresh(Remove(entries, key), key, Lookup(entries, key).value);
  }

  lemma MissAppends(entries: Entries, key: Key, r: CachedResult)
    requires Lookup(entries, key).None?
    ensures Put(entries, key, r) == entries + [(key, r)]
  {
    LookupIff(entries, key);
    PutFresh(entries, key, r);
  }

  // ---- runs -------------------------------------------------------------------------

  /** What can happen to a label file: a call, whose write may fail, or the file being lost
      (purged after seven days, or wiped as corrupt). */
  datatype Event = Call(key: Key, actual: Outcome, written: bool) | Lost

  function Advance(entries: Entries, capacity: nat, e: Event): Entries {
    match e
    case Lost => []
    case Call(key, actual, written) => if written then Step(entries, capacity, key, actual).0 else entries
  }

  function Run(trace: seq<Event>, capacity: nat): Entries {
    if trace == [] then [] else Advance(Run(trace[..|trace| - 1], capacity), capacity, trace[|trace| - 1])
  }

  /** What the caller of event `n` saw. */
  function Seen(trace: seq<Event>, capacity: nat, n: nat): Outcome
    requires n < |trace| && trace[n].Call?
  {
    Step(Run(trace[..n], capacity), capacity, trace[n].key, trace[n].actual).1
  }

  lemma StepUnique(entries: Entries, capacity: nat, key: Key, actual: Outcome)
    requires UniqueKeys(entries)
    ensures UniqueKeys(Step(entries, capacity, key, actual).0)
  {
    LookupIff(entries, key);
    if Lookup(entries, key).Some? {
      var kept := Remove(entries, key);
      RemoveKeys(entries, key);
      WithoutElems(Keys(entries), key, key);
      PutFresh(kept, key, Lookup(entries, key).value);
      PutUnique(kept, key, Lookup(entries, key).value);
    } else if actual.Completed? {
      PutFresh(entries, key, actual.result);
      PutUnique(entries, key, actual.result);
      var all := entries + [(key, actual.result)];
      if |all| > capacity { DropLookup(all, |all| - capacity, key); }
    }
  }

  lemma {:induction false} RunUnique(trace: seq<Event>, capacity: nat)
    ensures UniqueKeys(Run(trace, capacity))
  {
    if trace == [] {
    } else {
      var n := |trace| - 1;
      RunUnique(trace[..n], capacity);
      if trace[n].Call? {
        StepUnique(Run(trace[..n], capacity), capacity, trace[n].key, trace[n].actual);
      }
    }
  }

  // ---- least recently used ---------------------------------------------------------

  /** The keys used since the file was last lost: those of the calls that saw a result and could
      write it down.  A call that raised, or whose write failed, uses nothing. */
  function UsedKeys(trace: seq<Event>, capacity: nat): seq<Key> {
    if trace == [] then []
    else
      var n := |trace| - 1;
      match trace[n]
      case Lost => []
      case Call(key, _, written) =>
        UsedKeys(trace[..n], capacity)
          + if written && Seen(trace, capacity, n).Completed? then [key] else []
  }

  lemma StepKeys(entries: Entries, older: seq<Key>, capacity: nat, key: Key, actual: Outcome)
    requires UniqueKeys(entries) && Distinct(older + Keys(entries))
    requires |entries| <= capacity && (older == [] || |entries| == capacity)
    requires Step(entries, capacity, key, actual).1.Completed?
    ensures Keys(Step(entries, capacity, key, actual).0)
      == Suffix(Without(older + Keys(entries), key) + [key], capacity)
  {
    hide Suffix, Without, Lookup, Remove, Keys, UniqueKeys;
    var recent := Keys(entries);
    KeysLength(entries);
    LookupIff(entries, key);
    if Lookup(entries, key).Some? {
      var kept := Remove(entries, key);
      RemoveKeys(entries, key);
      TouchHit(older, recent, key);
      SuffixConcat(older, Without(recent, key) + [key], capacity);
      KeysSnoc(kept, key, Lookup(entries, key).value);
      SuffixWhole(Without(recent, key) + [key], capacity);
    } else {
      TouchMiss(older, recent, key);
      if older == [] { WithoutNone(older, key); }
      SuffixConcat(Without(older, key), recent + [key], capacity);
      KeysSnoc(entries, key, actual.result);
      KeysOfSuffix(entries + [(key, actual.result)], capacity);
    }
  }

  lemma KeysLength(entries: Entries)
    ensures |Keys(entries)| == |entries|
  {
  }

  lemma KeysSnoc(entries: Entries, key: Key, result: CachedResult)
    ensures Keys(entries + [(key, result)]) == Keys(entries) + [key]
  {
  }

  lemma KeysOfSuffix(entries: Entries, capacity: nat)
    ensures Keys(Suffix(entries, capacity)) == Suffix(Keys(entries), capacity)
  {
  }

  lemma SuffixWhole<T>(s: seq<T>, n: nat)
    requires |s| <= n
    ensures Suffix(s, n) == s
  {
  }

  /** Over every history of hits, misses, exceptions, failed writes and lost files, the cache
      holds exactly the most recently used keys, least recent first. */
  lemma {:induction false} HoldsMostRecent(trace: seq<Event>, capacity: nat)
    ensures Keys(Run(trace, capacity)) == Suffix(Recency(UsedKeys(trace, capacity)), capacity)
  {
    hide Step, UniqueKeys, Recency;
    if trace == [] || trace[|trace| - 1].Lost? {
      NoRecency();
    } else {
      var n := |trace| - 1;
      var e, used := trace[n], UsedKeys(trace[..n], capacity);
      HoldsMostRecent(trace[..n], capacity);
      assert used + [] == used;
      if e.written {
        if Seen(trace, capacity, n).Completed? {
          CallKeys(Run(trace[..n], capacity), used, capacity, e.key, e.actual);
        } else {
          RaisedKeepsEntries(Run(trace[..n], capacity), capacity, e.key, e.actual);
        }
      }
    }
  }

  lemma NoRecency()
    ensures Keys<Key, CachedResult>([]) == [] == Recency<Key>([])
  {
  }

  lemma RaisedKeepsEntries(entries: Entries, capacity: nat, key: Key, actual: Outcome)
    requires Step(entries, capacity, key, actual).1.Raised?
    ensures Step(entries, capacity, key, actual).0 == entries
  {
  }

  lemma CallKeys(entries: Entries, used: seq<Key>, capacity: nat, key: Key, actual: Outcome)
    requires Keys(entries) == Suffix(Recency(used), capacity)
    requires Step(entries, capacity, key, actual).1.Completed?
    ensures Keys(Step(entries, capacity, key, actual).0) == Suffix(Recency(used + [key]), capacity)
  {
    hide Step, Recency;
    var r := Recency(used);
    assert |Keys(entries)| == |entries|;
    assert r == r[..|r| - |entries|] + Keys(entries);
    RecencyDistinct(used);
    DistinctSuffix(r[..|r| - |entries|], Keys(entries));
    RecencyTouch(used, key);
    StepKeys(entries, r[..|r| - |entries|], capacity, key, actual);
  }

  // ---- smaller caches -----------------------------------------------------------------

  /** A smaller cache holds a suffix of what a larger one holds, as long as the same calls see
      a result. */
  lemma SmallerCacheIsSuffix(trace: seq<Event>, small: nat, large: nat)
    requires UsedKeys(trace, small) == UsedKeys(trace, large) && small <= large
    ensures Keys(Run(trace, small)) == Suffix(Keys(Run(trace, large)), small)
  {
    hide Run, Recency, UsedKeys, Keys, Suffix;
    HoldsMostRecent(trace, small);
    HoldsMostRecent(trace, large);
    SuffixOfSuffix(Recency(UsedKeys(trace, large)), small, large);
  }

  lemma SuffixOfSuffix<T>(s: seq<T>, small: nat, large: nat)
    requires small <= large
    ensures Suffix(Suffix(s, large), small) == Suffix(s, small)
  {
  }

  /** What each key's command may do, over time. */
  type Behaviour = (Key, Outcome) -> bool

  ghost predicate Drawn(trace: seq<Event>, may: Behaviour) {
    forall i :: 0 <= i < |trace| && trace[i].Call? ==> may(trace[i].key, trace[i].actual)
  }

  ghost predicate MayComplete(may: Behaviour, key: Key) {
    exists r :: may(key, Completed(r))
  }

  ghost predicate MayRaise(may: Behaviour, key: Key) {
    exists error :: may(key, Raised(error))
  }

  /** At most one key may complete, or no key may both complete and raise. */
  ghost predicate Steady(may: Behaviour) {
    forall a, b :: MayComplete(may, a) && MayRaise(may, a) && a != b ==> !MayComplete(may, b)
  }

  lemma {:induction false} HeldMayComplete(trace: seq<Event>, may: Behaviour, capacity: nat, key: Key)
    requires Drawn(trace, may) && Lookup(Run(trace, capacity), key).Some?
    ensures MayComplete(may, key)
  {
    var n := |trace| - 1;
    RunUnique(trace[..n], capacity);
    var before, e := Run(trace[..n], capacity), trace[n];
    if e.Call? && e.written {
      StepLookup(before, capacity, e.key, e.actual, key);
      if e.key == key && Lookup(before, key).None? {
        assert may(key, e.actual);
      } else {
        HeldMayComplete(trace[..n], may, capacity, key);
      }
    } else {
      HeldMayComplete(trace[..n], may, capacity, key);
    }
  }

  /** When no key may do both, a call sees a result exactly when its command completes. */
  lemma SeenAsActual(trace: seq<Event>, may: Behaviour, capacity: nat, n: nat)
    requires Drawn(trace, may) && n < |trace| && trace[n].Call?
    requires !(MayComplete(may, trace[n].key) && MayRaise(may, trace[n].key))
    ensures Seen(trace, capacity, n).Completed? <==> trace[n].actual.Completed?
  {
    hide Run;
    var key := trace[n].key;
    assert may(key, trace[n].actual);
    if Lookup(Run(trace[..n], capacity), key).Some? {
      HeldMayComplete(trace[..n], may, capacity, key);
      assert trace[n].actual.Raised? ==> MayRaise(may, key);
    }
  }

  lemma {:induction false} SameUse(trace: seq<Event>, may: Behaviour, small: nat, large: nat)
    requires Drawn(trace, may) && forall key :: !(MayComplete(may, key) && MayRaise(may, key))
    ensures UsedKeys(trace, small) == UsedKeys(trace, large)
  {
    hide Seen, MayComplete, MayRaise;
    if trace == [] {
    } else {
      var n := |trace| - 1;
      SameUse(trace[..n], may, small, large);
      if trace[n].Call? {
        SeenAsActual(trace, may, small, n);
        SeenAsActual(trace, may, large, n);
      }
    }
  }

  /** When only one key may complete, every cache with room for an entry holds the same. */
  lemma {:induction false} OneKeyRuns(trace: seq<Event>, may: Behaviour, a: Key, capacity: nat)
    requires Drawn(trace, may) && capacity >= 1
    requires forall b :: a != b ==> !MayComplete(may, b)
    ensures Run(trace, capacity) == Run(trace, 1) && |Run(trace, 1)| <= 1
    ensures Run(trace, 1) != [] ==> Run(trace, 1)[0].0 == a
  {
    hide MayComplete;
    if trace == [] {
    } else {
      var n := |trace| - 1;
      OneKeyRuns(trace[..n], may, a, capacity);
      if trace[n].Call? {
        OneKeyStep(Run(trace[..n], 1), may, a, capacity, trace[n].key, trace[n].actual);
      }
    }
  }

  lemma OneKeyStep(entries: Entries, may: Behaviour, a: Key, capacity: nat, key: Key, actual: Outcome)
    requires |entries| <= 1 && (entries != [] ==> entries[0].0 == a) && capacity >= 1 && may(key, actual)
    requires forall b :: a != b ==> !MayComplete(may, b)
    ensures Step(entries, capacity, key, actual) == Step(entries, 1, key, actual)
    ensures var after := Step(entries, 1, key, actual).0; |after| <= 1 && (after != [] ==> after[0].0 == a)
  {
    if actual.Completed? { assert MayComplete(may, key); }
    if entries != [] {
      assert entries == [(a, entries[0].1)];
      assert Lookup(entries[1..], key).None?;
    }
  }

  /** A completes, B completes, A raises: the larger cache answers A from its entry and moves
      it to the end, the smaller one has dropped it. */
  function LateRaise(a: Key, b: Key, ra: CachedResult, rb: CachedResult, error: string): seq<Event> {
    [Call(a, Completed(ra), true), Call(b, Completed(rb), true), Call(a, Raised(error), true)]
  }

  lemma LateRaiseBreaksSuffix(a: Key, b: Key, ra: CachedResult, rb: CachedResult, error: string)
    requires a != b
    ensures var trace := LateRaise(a, b, ra, rb, error);
      Keys(Run(trace, 2)) == [b, a] && Keys(Run(trace, 1)) == [b]
  {
    hide Run, Advance, Step, Suffix, Keys;
    var first, second := Call(a, Completed(ra), true), Call(b, Completed(rb), true);
    var third := Call(a, Raised(error), true);
    assert LateRaise(a, b, ra, rb, error) == [first] + [second] + [third];
    assert [] + [first] == [first];
    forall capacity: nat | 1 <= capacity <= 2
      ensures Run(LateRaise(a, b, ra, rb, error), capacity) == if capacity == 1 then [(b, rb)] else [(b, rb), (a, ra)]
    {
      NothingRun(capacity);
      RunSnoc([], first, capacity);
      RunSnoc([first], second, capacity);
      RunSnoc([first] + [second], third, capacity);
      LateRaiseSteps(a, b, ra, rb, error, capacity);
    }
    KeysOfTwo((b, rb), (a, ra));
  }

  lemma NothingRun(capacity: nat)
    ensures Run([], capacity) == []
  {
  }

  lemma RunSnoc(trace: seq<Event>, e: Event, capacity: nat)
    ensures Run(trace + [e], capacity) == Advance(Run(trace, capacity), capacity, e)
  {
  }

  lemma LateRaiseSteps(a: Key, b: Key, ra: CachedResult, rb: CachedResult, error: string, capacity: nat)
    requires a != b && 1 <= capacity <= 2
    ensures Advance([], capacity, Call(a, Completed(ra), true)) == [(a, ra)]
    ensures Advance([(a, ra)], capacity, Call(b, Completed(rb), true))
      == if capacity == 1 then [(b, rb)] else [(a, ra), (b, rb)]
    ensures Advance([(b, rb)], capacity, Call(a, Raised(error), true)) == [(b, rb)]
    ensures Advance([(a, ra), (b, rb)], capacity, Call(a, Raised(error), true)) == [(b, rb), (a, ra)]
  {
    assert [(a, ra)][1..] == [] && [(b, rb)][1..] == [] && [(a, ra), (b, rb)][1..] == [(b, rb)];
    assert [(a, ra)] + [(b, rb)] == [(a, ra), (b, rb)] && [] + [(a, ra)] == [(a, ra)];
    assert Remove([(a, ra), (b, rb)], a) == [(b, rb)];
    assert Lookup([(a, ra)], b) == None;
    assert Suffix([(a, ra), (b, rb)], capacity) == if capacity == 1 then [(b, rb)] else [(a, ra), (b, rb)];
    assert [(b, rb)] + [(a, ra)] == [(b, rb), (a, ra)];
  }

  lemma KeysOfTwo(x: (Key, CachedResult), y: (Key, CachedResult))
    ensures Keys([x]) == [x.0] && Keys([x, y]) == [x.0, y.0]
  {
  }

  /** Shrinking the cache always leaves a suffix exactly when the commands are steady. */
  lemma SuffixIffSteady(may: Behaviour)
    ensures (forall trace, small, large :: Drawn(trace, may) && small <= large ==>
               Keys(Run(trace, small)) == Suffix(Keys(Run(trace, large)), small))
      <==> Steady(may)
  {
    hide Run, Keys, Suffix, UsedKeys;
    if Steady(may) {
      forall trace, small, large | Drawn(trace, may) && small <= large
        ensures Keys(Run(trace, small)) == Suffix(Keys(Run(trace, large)), small)
      {
        SteadySuffix(trace, may, small, large);
      }
    } else {
      var a, b :| MayComplete(may, a) && MayRaise(may, a) && a != b && MayComplete(may, b);
      var ra, rb, error :| may(a, Completed(ra)) && may(b, Completed(rb)) && may(a, Raised(error));
      var trace := LateRaise(a, b, ra, rb, error);
      LateRaiseBreaksSuffix(a, b, ra, rb, error);
      assert Drawn(trace, may);
      LastOfTwo(b, a);
      assert Keys(Run(trace, 1)) != Suffix(Keys(Run(trace, 2)), 1);
    }
  }

  lemma LastOfTwo(b: Key, a: Key)
    ensures Suffix([b, a], 1) == [a]
  {
  }

  lemma SteadySuffix(trace: seq<Event>, may: Behaviour, small: nat, large: nat)
    requires Steady(may) && Drawn(trace, may) && small <= large
    ensures Keys(Run(trace, small)) == Suffix(Keys(Run(trace, large)), small)
  {
    hide Run, UsedKeys, MayComplete, MayRaise;
    if a :| MayComplete(may, a) && MayRaise(may, a) {
      if small == 0 {
        HoldsMostRecent(trace, small);
      } else {
        OneKeyRuns(trace, may, a, small);
        OneKeyRuns(trace, may, a, large);
        assert |Keys(Run(trace, large))| <= 1;
      }
    } else {
      SameUse(trace, may, small, large);
      SmallerCacheIsSuffix(trace, small, large);
    }
  }

  // ---- what a hit returns -----------------------------------------------------------

  /** What the most recent call with this key saw. */
  function LastSeen(trace: seq<Event>, capacity: nat, key: Key): Option<Outcome> {
    if trace == [] then None
    else
      var n := |trace| - 1;
      if trace[n].Call? && trace[n].key == key then Some(Seen(trace, capacity, n))
      else LastSeen(trace[..n], capacity, key)
  }

  lemma StepLookup(entries: Entries, capacity: nat, key: Key, actual: Outcome, k: Key)
    requires UniqueKeys(entries) && Lookup(Step(entries, capacity, key, actual).0, k).Some?
    ensures var (after, seen) := Step(entries, capacity, key, actual);
      if k == key then seen == Completed(Lookup(after, k).value) else Lookup(after, k) == Lookup(entries, k)
  {
    LookupIff(entries, key);
    if Lookup(entries, key).Some? {
      var hit := Lookup(entries, key).value;
      RemoveKeys(entries, key);
      WithoutElems(Keys(entries), key, key);
      AppendLookup(Remove(entries, key), key, hit, k);
      if k != key { RemoveLookup(entries, key, k); }
    } else if actual.Completed? {
      var all := entries + [(key, actual.result)];
      AppendLookup(entries, key, actual.result, k);
      PutFresh(entries, key, actual.result);
      PutUnique(entries, key, actual.result);
      if |all| > capacity { DropLookup(all, |all| - capacity, k); }
    }
  }

  /** Whatever fails in between, an entry is what the last call of its key saw; so a hit
      repeats the previous answer for that key. */
  lemma {:induction false} EntryIsLastSeen(trace: seq<Event>, capacity: nat, key: Key)
    requires Lookup(Run(trace, capacity), key).Some?
    ensures LastSeen(trace, capacity, key) == Some(Completed(Lookup(Run(trace, capacity), key).value))
  {
    var n := |trace| - 1;
    var before, e := Run(trace[..n], capacity), trace[n];
    RunUnique(trace[..n], capacity);
    if e.Call? {
      if e.written { StepLookup(before, capacity, e.key, e.actual, key); }
      if e.key != key { EntryIsLastSeen(trace[..n], capacity, key); }
    }
  }

  // ---- transparency ------------------------------------------------------------------

  ghost predicate Injective(digest: Bytes -> Key) {
    forall x, y :: digest(x) == digest(y) ==> x == y
  }

  /** Calls on these inputs to a command whose behaviour depends only on what is to be hashed:
      version, arguments, and for each file its bytes or that it cannot be read. */
  ghost predicate FaithfulTrace(trace: seq<Event>, inputs: seq<Input>, used: Input -> bool,
      digest: Bytes -> Key, command: Input -> Outcome) {
    && |inputs| == |trace|
    && forall n :: 0 <= n < |trace| ==> FaithfulCall(trace[n], inputs[n], used, digest, command)
  }

  ghost predicate FaithfulCall(e: Event, i: Input, used: Input -> bool,
      digest: Bytes -> Key, command: Input -> Outcome) {
    e.Call? ==> used(i) && e.key == digest(Encode(i)) && e.actual == command(i)
  }

  /** Different inputs hash different bytes. */
  ghost predicate ToldApart(used: Input -> bool) {
    forall i, j :: used(i) && used(j) && Encode(i) == Encode(j) ==> i == j
  }

  ghost predicate EntriesFaithful(entries: Entries, used: Input -> bool,
      digest: Bytes -> Key, command: Input -> Outcome) {
    forall i :: used(i) && Lookup(entries, digest(Encode(i))).Some? ==>
      command(i) == Completed(Lookup(entries, digest(Encode(i))).value)
  }

  lemma {:induction false} RunFaithful(trace: seq<Event>, inputs: seq<Input>, used: Input -> bool, capacity: nat,
      digest: Bytes -> Key, command: Input -> Outcome)
    requires Injective(digest) && ToldApart(used) && FaithfulTrace(trace, inputs, used, digest, command)
    ensures EntriesFaithful(Run(trace, capacity), used, digest, command)
  {
    hide Encode, Step;
    if trace == [] {
    } else {
      var n := |trace| - 1;
      var before, e := Run(trace[..n], capacity), trace[n];
      RunFaithful(trace[..n], inputs[..n], used, capacity, digest, command);
      RunUnique(trace[..n], capacity);
      assert FaithfulCall(e, inputs[n], used, digest, command);
      forall i | used(i) && Lookup(Run(trace, capacity), digest(Encode(i))).Some?
        ensures command(i) == Completed(Lookup(Run(trace, capacity), digest(Encode(i))).value)
      {
        if e.Call? && e.written {
          StepLookup(before, capacity, e.key, e.actual, digest(Encode(i)));
          if digest(Encode(i)) != e.key {
            assert Lookup(before, digest(Encode(i))).Some?;
          } else {
            StepSeen(before, capacity, e.key, e.actual);
            assert Encode(i) == Encode(inputs[n]);
          }
        }
      }
    }
  }

  lemma StepSeen(entries: Entries, capacity: nat, key: Key, actual: Outcome)
    ensures Step(entries, capacity, key, actual).1
      == if Lookup(entries, key).Some? then Completed(Lookup(entries, key).value) else actual
  {
  }

  /** Inputs that are told apart: with a collision-free digest every call sees exactly what
      running the command would have given, over every history of hits, misses, evictions, lost
      files and failed writes. */
  lemma TransparentWhenToldApart(trace: seq<Event>, inputs: seq<Input>, used: Input -> bool, capacity: nat,
      digest: Bytes -> Key, command: Input -> Outcome, n: nat)
    requires Injective(digest) && ToldApart(used) && FaithfulTrace(trace, inputs, used, digest, command)
    requires n < |trace| && trace[n].Call?
    ensures Seen(trace, capacity, n) == trace[n].actual
  {
    RunFaithful(trace[..n], inputs[..n], used, capacity, digest, command);
    assert FaithfulCall(trace[n], inputs[n], used, digest, command);
  }

  /** Exact inputs are told apart. */
  lemma CachedRunIsTransparent(trace: seq<Event>, inputs: seq<Input>, capacity: nat,
      digest: Bytes -> Key, command: Input -> Outcome, n: nat)
    requires Injective(digest) && FaithfulTrace(trace, inputs, Exact, digest, command)
    requires n < |trace| && trace[n].Call?
    ensures Seen(trace, capacity, n) == trace[n].actual
  {
    forall i, j | Exact(i) && Exact(j) && Encode(i) == Encode(j) ensures i == j {
      RecoverableIffExact(i);
      RecoverableIffExact(j);
    }
    TransparentWhenToldApart(trace, inputs, Exact, capacity, digest, command, n);
  }

  /** A command that answers this input in its own way. */
  function Telling(i: Input): Input -> Outcome {
    x => Completed(CachedResult(if x == i then "this" else "other", "", 0))
  }

  lemma SecondCallSeesFirst(key: Key, first: CachedResult, second: CachedResult, capacity: nat)
    requires capacity >= 1
    ensures var trace := [Call(key, Completed(first), true), Call(key, Completed(second), true)];
      Seen(trace, capacity, 1) == Completed(first)
  {
    hide Run;
    var e, f := Call(key, Completed(first), true), Call(key, Completed(second), true);
    NothingRun(capacity);
    RunSnoc([], e, capacity);
    assert [e, f][..1] == [] + [e];
    assert [] + [(key, first)] == [(key, first)];
    assert Run([e, f][..1], capacity) == [(key, first)];
  }

  /** Among them: a command that answers differently when a file is unreadable gets the answer
      for the empty file. */
  lemma UnreadableServedAsEmpty(version: Bytes, cmd: seq<Bytes>, pre: seq<InputFile>, path: Bytes, post: seq<InputFile>,
      digest: Bytes -> Key, empty: CachedResult, missing: CachedResult, capacity: nat)
    requires capacity >= 1
    ensures var i := Input(version, cmd, pre + [InputFile(path, Some([]))] + post);
      var j := Input(version, cmd, pre + [InputFile(path, None)] + post);
      var trace := [Call(digest(Encode(i)), Completed(empty), true), Call(digest(Encode(j)), Completed(missing), true)];
      i != j && Seen(trace, capacity, 1) == Completed(empty)
  {
    hide Encode, Seen;
    var e, f := InputFile(path, Some([])), InputFile(path, None);
    UnreadableLooksEmpty(version, cmd, pre, path, post);
    assert (pre + [e] + post)[|pre|] == e && (pre + [f] + post)[|pre|] == f;
    SecondCallSeesFirst(digest(Encode(Input(version, cmd, pre + [e] + post))), empty, missing, capacity);
  }

  /** For any set of inputs: the cache is invisible to every command over every history if and
      only if the hashed bytes tell its inputs apart. */
  lemma TransparentIffToldApart(used: Input -> bool, digest: Bytes -> Key, capacity: nat)
    requires Injective(digest) && capacity >= 1
    ensures (forall trace: seq<Event>, inputs, command, n: nat ::
               FaithfulTrace(trace, inputs, used, digest, command) && n < |trace| && trace[n].Call? ==>
                 Seen(trace, capacity, n) == trace[n].actual)
      <==> ToldApart(used)
  {
    hide Encode, Seen, Injective;
    if ToldApart(used) {
      forall trace: seq<Event>, inputs, command, n: nat
        | FaithfulTrace(trace, inputs, used, digest, command) && n < |trace| && trace[n].Call?
        ensures Seen(trace, capacity, n) == trace[n].actual
      {
        TransparentWhenToldApart(trace, inputs, used, capacity, digest, command, n);
      }
    } else {
      var i, j :| used(i) && used(j) && Encode(i) == Encode(j) && i != j;
      var key, command := digest(Encode(i)), Telling(i);
      var trace := [Call(key, command(i), true), Call(key, command(j), true)];
      SecondCallSeesFirst(key, command(i).result, command(j).result, capacity);
      assert FaithfulTrace(trace, [i, j], used, digest, command);
      assert "this"[0] != "other"[0];
      assert Seen(trace, capacity, 1) != trace[1].actual;
    }
  }
}
