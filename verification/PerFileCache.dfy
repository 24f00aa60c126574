/** lib/per_file_cache.py and its use in hooks/validators/complexity_guard.py: findings per
    file, keyed by path and mtime, wiped when the configuration fingerprint changes. */
module PerFileCache {
  import opened Findings
  import opened Framing
  import opened Options
  import opened OrderedDict
  import opened Sorting

  const CACHE_VERSION := 1
  const MAX_ENTRIES: nat := 10_000

  type Path = string

  // ---- findings as JSON objects ------------------------------------------------

  datatype Value = Str(s: string) | Num(n: int) | Null
  type FindingDict = map<string, Value>

  /** `asdict(f)` */
  function FindingToDict(f: Finding): FindingDict {
    map["severity" := Str(f.severity), "file" := Str(f.file), "rule" := Str(f.rule),
        "message" := Str(f.message), "fix" := Str(f.fix),
        "line" := (if f.line.Some? then Num(f.line.value) else Null), "kind" := Str(f.kind)]
  }

  function Text(digits: Bytes): string {
    seq(|digits|, i requires 0 <= i < |digits| => digits[i] as char)
  }

  /** `str(v)` */
  function PyStr(v: Value): string {
    match v
    case Str(s) => s
    case Num(n) => Text(SignedDecimal(n))
    case Null => "None"
  }

  function GetOr(d: FindingDict, key: string, default: string): Value {
    if key in d then d[key] else Str(default)
  }

  predicate Truthy(v: Value) {
    match v
    case Str(s) => s != ""
    case Num(n) => n != 0
    case Null => false
  }

  /** The reader tolerates missing and mistyped fields, and gives up only on a line that is
      not a number. */
  function FindingFromDict(d: FindingDict): Option<Finding> {
    var kind := GetOr(d, "kind", "");
    var line := if "line" in d then d["line"] else Null;
    if line.Str? then None
    else Some(Finding(
      PyStr(GetOr(d, "severity", "warning")), PyStr(GetOr(d, "file", "")), PyStr(GetOr(d, "rule", "")),
      PyStr(GetOr(d, "message", "")), PyStr(GetOr(d, "fix", "")),
      if line.Num? then Some(line.n) else None,
      if Truthy(kind) then PyStr(kind) else ""))
  }

  lemma FindingRoundTrip(f: Finding)
    ensures FindingFromDict(FindingToDict(f)) == Some(f)
  {
  }

  /** A record with any of its text fields missing is read with the defaults. */
  lemma MissingFieldsDefault(d: FindingDict)
    requires "line" in d ==> !d["line"].Str?
    ensures var f := FindingFromDict(d);
      && f.Some?
      && ("severity" !in d ==> f.value.severity == "warning")
      && ("file" !in d ==> f.value.file == "") && ("rule" !in d ==> f.value.rule == "")
      && ("message" !in d ==> f.value.message == "") && ("fix" !in d ==> f.value.fix == "")
      && ("kind" !in d ==> f.value.kind == "") && ("line" !in d ==> f.value.line == None)
  {
  }

  function Stored(findings: seq<Finding>): seq<FindingDict> {
    if findings == [] then [] else [FindingToDict(findings[0])] + Stored(findings[1..])
  }

  /** The loop of `get`: unreadable records are dropped. */
  function Restored(raw: seq<FindingDict>): seq<Finding> {
    if raw == [] then [] else
      var f := FindingFromDict(raw[0]);
      (if f.Some? then [f.value] else []) + Restored(raw[1..])
  }

  lemma {:induction false} StoredRoundTrip(findings: seq<Finding>)
    ensures Restored(Stored(findings)) == findings
  {
    if findings == [] {
    } else {
      FindingRoundTrip(findings[0]);
      StoredRoundTrip(findings[1..]);
    }
  }

  // ---- one validator run's cache --------------------------------------------------

  datatype Entry = Entry(mtime: int, findings: seq<FindingDict>, recordedAt: int)
  type Entries = Dict<Path, Entry>

  /** What is on disk, when it is readable JSON. */
  datatype DiskFile = DiskFile(version: int, fingerprint: string, files: Entries)

  /** The value of a cache object; `disabled` is the environment's escape hatch. */
  datatype View = View(fingerprint: string, disabled: bool, entries: Entries, dirty: bool)

  function Load(disk: Option<DiskFile>, fingerprint: string, disabled: bool): View {
    View(fingerprint, disabled,
      if disabled || disk.None? || disk.value.version != CACHE_VERSION || disk.value.fingerprint != fingerprint then []
      else disk.value.files, false)
  }

  function Get(c: View, path: Path, mtime: int): Option<seq<Finding>> {
    if c.disabled then None else
    match Lookup(c.entries, path)
    case None => None
    case Some(e) => if e.mtime != mtime then None else Some(Restored(e.findings))
  }

  function PutFindings(c: View, path: Path, mtime: int, findings: seq<Finding>, now: int): View {
    if c.disabled then c
    else c.(entries := Put(c.entries, path, Entry(mtime, Stored(findings), now)), dirty := true)
  }

  /** Item `i` is an entry for this path and mtime. */
  predicate Holds(entries: Entries, i: int, path: Path, mtime: int) {
    0 <= i < |entries| && entries[i].0 == path && entries[i].1.mtime == mtime
  }

  lemma GetIffHolds(c: View, path: Path, mtime: int)
    ensures UniqueKeys(c.entries) ==>
      (Get(c, path, mtime).Some? <==> !c.disabled && exists i :: Holds(c.entries, i, path, mtime))
    ensures Get(c, path, mtime).Some? ==>
      exists i :: Holds(c.entries, i, path, mtime) && Get(c, path, mtime).value == Restored(c.entries[i].1.findings)
  {
    if Get(c, path, mtime).Some? {
      LookupMember(c.entries, path);
      var i :| 0 <= i < |c.entries| && c.entries[i] == (path, Lookup(c.entries, path).value);
      assert Holds(c.entries, i, path, mtime);
    }
    if i :| UniqueKeys(c.entries) && Holds(c.entries, i, path, mtime) { LookupAt(c.entries, i); }
  }

  /** What was put is got back, under its mtime alone, and other paths answer as before. */
  lemma PutThenGet(c: View, path: Path, mtime: int, findings: seq<Finding>, now: int, p: Path, m: int)
    ensures Get(PutFindings(c, path, mtime, findings, now), p, m) ==
      if c.disabled then None
      else if p != path then Get(c, p, m)
      else if m == mtime then Some(findings) else None
  {
    StoredRoundTrip(findings);
    PutLookup(c.entries, path, Entry(mtime, Stored(findings), now), p);
  }

  predicate RecordedBefore(a: (Path, Entry), b: (Path, Entry)) {
    a.1.recordedAt <= b.1.recordedAt
  }

  /** `dict(sorted(items, key=recorded_at)[-MAX_ENTRIES:])`, when over the cap. */
  function Evicted(entries: Entries): Entries {
    if |entries| > MAX_ENTRIES then Suffix(Sort(entries, RecordedBefore), MAX_ENTRIES) else entries
  }

  function Saved(c: View): View {
    if c.disabled || !c.dirty then c else c.(entries := Evicted(c.entries))
  }

  function DiskAfterSave(c: View, disk: Option<DiskFile>): Option<DiskFile> {
    if c.disabled || !c.dirty then disk
    else Some(DiskFile(CACHE_VERSION, c.fingerprint, Evicted(c.entries)))
  }

  /** The real analyser, as a function of path, mtime and configuration; a file that cannot be
      stat'ed has no mtime. */
  type Analysis = (Path, Option<int>, string) -> seq<Finding>

  /** `_analyze_file_cached`: a failing stat bypasses the cache. */
  function Analyze(c: View, analysis: Analysis, path: Path, mtime: Option<int>, now: int): (View, seq<Finding>) {
    var found := analysis(path, mtime, c.fingerprint);
    if mtime.None? then (c, found) else
    match Get(c, path, mtime.value)
    case Some(cached) => (c, cached)
    case None => (PutFindings(c, path, mtime.value, found, now), found)
  }

  /** The tests of the scan loop: the language directory exists, a file lies below it, is
      excluded, is skipped. */
  datatype Scope = Scope(
    present: bool, inside: Path -> bool, excluded: Path -> bool, skipped: Path -> bool)

  predicate Visits(scope: Scope, path: Path) {
    scope.present && scope.inside(path) && !scope.excluded(path) && !scope.skipped(path)
  }

  /** The loop of `get`. */
  method Restore(raw: seq<FindingDict>) returns (out: seq<Finding>)
    ensures out == Restored(raw)
  {
    hide FindingFromDict;
    out := [];
    for n := 0 to |raw|
      invariant out + Restored(raw[n..]) == Restored(raw)
    {
      assert raw[n..][1..] == raw[n + 1..];
      var f := FindingFromDict(raw[n]);
      if f.Some? { out := out + [f.value]; }
    }
    assert Restored(raw[|raw|..]) == [];
  }

  class Cache {
    const fingerprint: string
    const disabled: bool
    var entries: Entries
    var dirty: bool

    function Contents(): View
      reads this
    {
      View(fingerprint, disabled, entries, dirty)
    }

    /** `load`: the stored entries, if the cache is enabled and the file readable, of this version
        and made under the same fingerprint. */
    constructor (disk: Option<DiskFile>, fingerprint: string, disabled: bool)
      ensures Contents() == Load(disk, fingerprint, disabled)
      ensures this.fingerprint == fingerprint && this.disabled == disabled && !dirty
      ensures !disabled && disk.Some? && disk.value.version == 1 && disk.value.fingerprint == fingerprint ==>
        entries == disk.value.files
      ensures disabled || disk.None? || disk.value.version != 1 || disk.value.fingerprint != fingerprint ==>
        entries == []
    {
      this.fingerprint, this.disabled, dirty := fingerprint, disabled, false;
      if disabled {
        entries := [];
      } else if disk.None? {
        entries := [];
      } else if disk.value.version != CACHE_VERSION {
        entries := [];
      } else if disk.value.fingerprint != fingerprint {
        entries := [];
      } else {
        entries := disk.value.files;
      }
    }

    /** `get`: an enabled cache answers exactly when it holds the path with this mtime, with the
        findings stored there. */
    method Find(path: Path, mtime: int) returns (found: Option<seq<Finding>>)
      ensures found == Get(Contents(), path, mtime)
      ensures UniqueKeys(entries) ==>
        (found.Some? <==> !disabled && exists i :: Holds(entries, i, path, mtime))
      ensures found.Some? ==> exists i ::
        Holds(entries, i, path, mtime) && found.value == Restored(entries[i].1.findings)
    {
      GetIffHolds(Contents(), path, mtime);
      if disabled { return None; }
      var entry := Lookup(entries, path);
      if entry.None? || entry.value.mtime != mtime { return None; }
      var out := Restore(entry.value.findings);
      return Some(out);
    }

    /** `put`: afterwards an enabled cache holds these findings for the path, under this mtime and
        no other; every other path is as before, and a disabled cache is untouched. */
    method Record(path: Path, mtime: int, findings: seq<Finding>, now: int)
      modifies this
      ensures Contents() == PutFindings(old(Contents()), path, mtime, findings, now)
      ensures disabled ==> entries == old(entries) && dirty == old(dirty)
      ensures !disabled ==>
        && dirty && Lookup(entries, path).Some?
        && Lookup(entries, path).value.mtime == mtime && Lookup(entries, path).value.recordedAt == now
        && Restored(Lookup(entries, path).value.findings) == findings
      ensures forall p :: p != path ==> Lookup(entries, p) == Lookup(old(entries), p)
    {
      StoredRoundTrip(findings);
      forall p ensures Lookup(Put(entries, path, Entry(mtime, Stored(findings), now)), p)
        == if p == path then Some(Entry(mtime, Stored(findings), now)) else Lookup(entries, p)
      {
        PutLookup(entries, path, Entry(mtime, Stored(findings), now), p);
      }
      if disabled { return; }
      entries := Put(entries, path, Entry(mtime, Stored(findings), now));
      dirty := true;
    }

    method Save(disk: Option<DiskFile>) returns (after: Option<DiskFile>)
      modifies this
      ensures Contents() == Saved(old(Contents())) && after == DiskAfterSave(old(Contents()), disk)
      ensures disabled || !dirty ==> after == disk && entries == old(entries)
      ensures !disabled && dirty ==> after == Some(DiskFile(1, fingerprint, entries))
      ensures |old(entries)| <= 10_000 ==> entries == old(entries)
      ensures !disabled && dirty && |old(entries)| > 10_000 ==> |entries| == 10_000
    {
      if disabled || !dirty { return disk; }
      if |entries| > MAX_ENTRIES {
        var sorted := Sort(entries, RecordedBefore);
        SortPermutes(entries, RecordedBefore);
        entries := sorted[|sorted| - MAX_ENTRIES..];
      }
      return Some(DiskFile(CACHE_VERSION, fingerprint, entries));
    }

    method AnalyzeFile(analysis: Analysis, path: Path, mtime: Option<int>, now: int) returns (findings: seq<Finding>)
      modifies this
      ensures (Contents(), findings) == Analyze(old(Contents()), analysis, path, mtime, now)
    {
      if mtime.None? { return analysis(path, None, fingerprint); }
      var cached := Find(path, mtime.value);
      if cached.Some? { return cached.value; }
      findings := analysis(path, mtime, fingerprint);
      Record(path, mtime.value, findings, now);
    }

    /** The scan loop over the indexed files, narrowed to a language directory. */
    method Scan(analysis: Analysis, scope: Scope, files: seq<(Path, Option<int>)>, now: int)
      returns (findings: seq<Finding>)
      requires Truthful(entries, fingerprint, analysis)
      modifies this
      ensures findings == UncachedScan(analysis, fingerprint, scope, files)
      ensures forall f :: f in findings <==>
        exists n :: 0 <= n < |files| && ScannedIn(analysis, fingerprint, scope, files[n], f)
      ensures Truthful(entries, fingerprint, analysis)
    {
      forall f ensures f in UncachedScan(analysis, fingerprint, scope, files) <==>
        exists n :: 0 <= n < |files| && ScannedIn(analysis, fingerprint, scope, files[n], f)
      {
        ScanIff(analysis, fingerprint, scope, files, f);
      }
      findings := [];
      if !scope.present {
        NothingVisited(analysis, fingerprint, scope, files);
        return;
      }
      for n := 0 to |files|
        invariant Truthful(entries, fingerprint, analysis)
        invariant findings == UncachedScan(analysis, fingerprint, scope, files[..n])
      {
        assert files[..n + 1][..n] == files[..n];
        if !scope.inside(files[n].0) { continue; }
        if scope.excluded(files[n].0) { continue; }
        if scope.skipped(files[n].0) { continue; }
        AnalyzeTruthful(Contents(), analysis, files[n].0, files[n].1, now);
        var more := AnalyzeFile(analysis, files[n].0, files[n].1, now);
        findings := findings + more;
      }
      assert files[..|files|] == files;
    }
  }

  function UncachedScan(
    analysis: Analysis, fingerprint: string, scope: Scope, files: seq<(Path, Option<int>)>): seq<Finding>
  {
    if files == [] then [] else
      var (path, mtime) := files[|files| - 1];
      UncachedScan(analysis, fingerprint, scope, files[..|files| - 1])
        + if Visits(scope, path) then analysis(path, mtime, fingerprint) else []
  }

  /** The analyser reports `f` for this file, which lies below the existing language directory and is
      neither excluded nor skipped. */
  predicate ScannedIn(analysis: Analysis, fingerprint: string, scope: Scope, file: (Path, Option<int>), f: Finding) {
    && scope.present && scope.inside(file.0) && !scope.excluded(file.0) && !scope.skipped(file.0)
    && f in analysis(file.0, file.1, fingerprint)
  }

  lemma {:induction false} ScanIff(
    analysis: Analysis, fingerprint: string, scope: Scope, files: seq<(Path, Option<int>)>, f: Finding)
    ensures f in UncachedScan(analysis, fingerprint, scope, files) <==>
      exists n :: 0 <= n < |files| && ScannedIn(analysis, fingerprint, scope, files[n], f)
  {
    if files == [] {
    } else {
      var last := |files| - 1;
      ScanIff(analysis, fingerprint, scope, files[..last], f);
      assert f in UncachedScan(analysis, fingerprint, scope, files) <==>
        || f in UncachedScan(analysis, fingerprint, scope, files[..last])
        || ScannedIn(analysis, fingerprint, scope, files[last], f);
      if n :| 0 <= n < |files| && ScannedIn(analysis, fingerprint, scope, files[n], f) {
        if n < last { assert files[..last][n] == files[n]; }
      }
    }
  }

  lemma {:induction false} NothingVisited(
    analysis: Analysis, fingerprint: string, scope: Scope, files: seq<(Path, Option<int>)>)
    requires !scope.present
    ensures UncachedScan(analysis, fingerprint, scope, files) == []
  {
    if files == [] {
    } else {
      NothingVisited(analysis, fingerprint, scope, files[..|files| - 1]);
    }
  }

  // ---- eviction ----------------------------------------------------------------------

  lemma RecordedPreorder()
    ensures TotalPreorder(RecordedBefore)
  {
  }

  /** Over the cap, the kept entries are 10,000 of the old ones and no dropped one is newer. */
  lemma EvictionKeepsNewest(entries: Entries) returns (dropped: Entries)
    ensures multiset(entries) == multiset(dropped) + multiset(Evicted(entries))
    ensures |Evicted(entries)| == if |entries| > MAX_ENTRIES then MAX_ENTRIES else |entries|
    ensures forall i, j :: 0 <= i < |dropped| && 0 <= j < |Evicted(entries)| ==>
              dropped[i].1.recordedAt <= Evicted(entries)[j].1.recordedAt
  {
    dropped := [];
    if |entries| > MAX_ENTRIES {
      var sorted := Sort(entries, RecordedBefore);
      var cut := |entries| - MAX_ENTRIES;
      SortPermutes(entries, RecordedBefore);
      RecordedPreorder();
      SortOrdered(entries, RecordedBefore);
      dropped := sorted[..cut];
      assert sorted == dropped + sorted[cut..];
      forall i, j | 0 <= i < cut && 0 <= j < MAX_ENTRIES
        ensures dropped[i].1.recordedAt <= Evicted(entries)[j].1.recordedAt
      {
        assert RecordedBefore(sorted[i], sorted[cut + j]);
      }
    }
  }

  /** ... and the kept items are still a dict. */
  lemma EvictionKeepsDict(entries: Entries)
    requires UniqueKeys(entries)
    ensures UniqueKeys(Evicted(entries))
  {
    if |entries| > MAX_ENTRIES {
      var sorted := Sort(entries, RecordedBefore);
      SortPermutes(entries, RecordedBefore);
      PermutedKeys(entries, sorted);
      DropLookup(sorted, |sorted| - MAX_ENTRIES, "");
    }
  }

  lemma PermutedKeys<K, V>(s: Dict<K, V>, t: Dict<K, V>)
    requires multiset(s) == multiset(t) && UniqueKeys(s)
    ensures UniqueKeys(t)
  {
    forall i, j | 0 <= i < j < |s| ensures s[i] != s[j] { assert Keys(s)[i] != Keys(s)[j]; }
    DistinctIffCounted(s);
    DistinctIffCounted(t);
    forall i, j | 0 <= i < j < |t| ensures Keys(t)[i] != Keys(t)[j] {
      assert t[i] in multiset(s) && t[j] in multiset(s);
      var a :| 0 <= a < |s| && s[a] == t[i];
      var b :| 0 <= b < |s| && s[b] == t[j];
      assert Keys(s)[a] == t[i].0 && Keys(s)[b] == t[j].0;
    }
  }

  lemma EvictedMember(entries: Entries, j: nat)
    requires j < |Evicted(entries)|
    ensures Evicted(entries)[j] in entries
  {
    var dropped := EvictionKeepsNewest(entries);
    assert Evicted(entries)[j] in multiset(entries);
  }

  // ---- what a later run still answers ---------------------------------------------------

  /** An answer outlives the run that saved it: a later enabled run with the same fingerprint gives
      it unless its entry was evicted, and nothing is evicted up to 10,000 entries. */
  lemma SavedIsLoaded(c: View, disk: Option<DiskFile>, path: Path, mtime: int)
    requires UniqueKeys(c.entries) && !c.disabled && c.dirty
    ensures var later := Load(DiskAfterSave(c, disk), c.fingerprint, false);
      && (forall i :: Holds(c.entries, i, path, mtime) && c.entries[i] in Evicted(c.entries) ==>
            Get(later, path, mtime) == Some(Restored(c.entries[i].1.findings)))
      && (Get(later, path, mtime).Some? ==> Get(later, path, mtime) == Get(c, path, mtime))
      && (|c.entries| <= 10_000 ==> Get(later, path, mtime) == Get(c, path, mtime))
  {
    hide Evicted;
    var kept := Evicted(c.entries);
    EvictionKeepsDict(c.entries);
    if |c.entries| <= 10_000 { NothingEvicted(c.entries); }
    forall i | Holds(c.entries, i, path, mtime) && c.entries[i] in kept
      ensures Lookup(kept, path) == Some(c.entries[i].1)
    {
      var j :| 0 <= j < |kept| && kept[j] == c.entries[i];
      LookupAt(kept, j);
    }
    if Lookup(kept, path).Some? {
      LookupMember(kept, path);
      var j :| 0 <= j < |kept| && kept[j] == (path, Lookup(kept, path).value);
      EvictedMember(c.entries, j);
      var i :| 0 <= i < |c.entries| && c.entries[i] == kept[j];
      LookupAt(c.entries, i);
    }
  }

  lemma NothingEvicted(entries: Entries)
    requires |entries| <= 10_000
    ensures Evicted(entries) == entries
  {
  }

  /** A run that has saved nothing leaves the file alone, and another version or fingerprint is not
      loaded. */
  lemma OtherFilesIgnored(disk: DiskFile, fingerprint: string, path: Path, mtime: int)
    requires disk.version != 1 || disk.fingerprint != fingerprint
    ensures Get(Load(Some(disk), fingerprint, false), path, mtime) == None
  {
  }

  /** An enabled run answers this path and mtime with these findings. */
  ghost predicate Knows(w: World, run: nat, path: Path, mtime: int, findings: seq<Finding>) {
    run in w.runs && !w.runs[run].disabled && Get(w.runs[run], path, mtime) == Some(findings)
  }

  /** So would a run that starts now, with this fingerprint. */
  ghost predicate DiskKnows(w: World, fingerprint: string, path: Path, mtime: int, findings: seq<Finding>) {
    Get(Load(w.disk, fingerprint, false), path, mtime) == Some(findings)
  }

  /** Events that do not touch the answer of `run`: other runs', other files', a restart of nothing,
      and a save that evicts nothing. */
  ghost predicate Spares(w: World, e: Event, run: nat, path: Path, mtime: int) {
    match e
    case Start(r, _, _) => r != run
    case Visit(r, p, m, _) => r == run && p == path ==> m == Some(mtime) || m == None
    case Finish(r, _) => r == run && run in w.runs ==> |w.runs[run].entries| <= 10_000
    case Wiped => true
    case Foreign(_) => true
  }

  lemma VisitTeaches(w: World, analysis: Analysis, e: Event)
    requires e.Visit? && e.run in w.runs && !w.runs[e.run].disabled && e.mtime.Some?
    ensures Knows(Advance(w, analysis, e), e.run, e.path, e.mtime.value,
                  Analyze(w.runs[e.run], analysis, e.path, e.mtime, e.now).1)
  {
    PutThenGet(w.runs[e.run], e.path, e.mtime.value, analysis(e.path, e.mtime, w.runs[e.run].fingerprint), e.now,
               e.path, e.mtime.value);
  }

  lemma SparedIsKnown(w: World, analysis: Analysis, e: Event, run: nat, path: Path, mtime: int, findings: seq<Finding>)
    requires Knows(w, run, path, mtime, findings) && Spares(w, e, run, path, mtime)
    ensures Knows(Advance(w, analysis, e), run, path, mtime, findings)
  {
    if e.Visit? && e.run == run && e.mtime.Some? {
      var c := w.runs[run];
      PutThenGet(c, e.path, e.mtime.value, analysis(e.path, e.mtime, c.fingerprint), e.now, path, mtime);
    }
    if e.Finish? && e.run == run { NothingEvicted(w.runs[run].entries); }
  }

  lemma {:induction false} KnownStays(analysis: Analysis, trace: seq<Event>, k: nat, n: nat,
      run: nat, path: Path, mtime: int, findings: seq<Finding>)
    requires k <= n <= |trace| && Knows(History(analysis, trace[..k]), run, path, mtime, findings)
    requires forall i :: k <= i < n ==> Spares(History(analysis, trace[..i]), trace[i], run, path, mtime)
    ensures Knows(History(analysis, trace[..n]), run, path, mtime, findings)
  {
    hide Knows, Spares, Advance;
    if n == k {
    } else {
      KnownStays(analysis, trace, k, n - 1, run, path, mtime, findings);
      SparedIsKnown(History(analysis, trace[..n - 1]), analysis, trace[n - 1], run, path, mtime, findings);
      HistoryNext(analysis, trace, n - 1);
    }
  }

  lemma HistoryNext(analysis: Analysis, trace: seq<Event>, n: nat)
    requires n < |trace|
    ensures History(analysis, trace[..n + 1]) == Advance(History(analysis, trace[..n]), analysis, trace[n])
  {
    assert trace[..n + 1][..n] == trace[..n];
  }

  /** What visit `k` of an enabled run returned. */
  ghost predicate Answered(analysis: Analysis, trace: seq<Event>, k: nat, findings: seq<Finding>)
    requires k < |trace|
  {
    && trace[k].Visit? && trace[k].mtime.Some?
    && var w := History(analysis, trace[..k]);
      && trace[k].run in w.runs && !w.runs[trace[k].run].disabled
      && findings == Analyze(w.runs[trace[k].run], analysis, trace[k].path, trace[k].mtime, trace[k].now).1
  }

  /** Between two visits of a run to the same file with the same mtime, whatever else happens, the
      first answer stays: the second visit does not depend on the analyser. */
  lemma RepeatedVisitIsCached(analysis: Analysis, other: Analysis, trace: seq<Event>, k: nat, n: nat,
      findings: seq<Finding>)
    requires k < n < |trace| && Answered(analysis, trace, k, findings)
    requires trace[n].Visit? && trace[n].path == trace[k].path && trace[n].mtime == trace[k].mtime
    requires trace[n].run == trace[k].run
    requires forall i :: k < i < n ==>
      Spares(History(analysis, trace[..i]), trace[i], trace[k].run, trace[k].path, trace[k].mtime.value)
    ensures var w := History(analysis, trace[..n]);
      && trace[n].run in w.runs
      && Analyze(w.runs[trace[n].run], other, trace[n].path, trace[n].mtime, trace[n].now).1 == findings
  {
    hide Spares, History, Get, Advance;
    VisitTeaches(History(analysis, trace[..k]), analysis, trace[k]);
    HistoryNext(analysis, trace, k);
    KnownStays(analysis, trace, k + 1, n, trace[k].run, trace[k].path, trace[k].mtime.value, findings);
  }

  /** Across runs: a run that knows an answer and saves it, evicting nothing, teaches every later
      run with its fingerprint until another file is saved or lost. */
  lemma SaveTeaches(w: World, analysis: Analysis, e: Event, path: Path, mtime: int, findings: seq<Finding>)
    requires e.Finish? && e.written && Knows(w, e.run, path, mtime, findings)
    requires var c := w.runs[e.run]; c.dirty && UniqueKeys(c.entries) && |c.entries| <= 10_000
    ensures DiskKnows(Advance(w, analysis, e), w.runs[e.run].fingerprint, path, mtime, findings)
  {
    SavedIsLoaded(w.runs[e.run], w.disk, path, mtime);
  }

  lemma StartLearns(w: World, analysis: Analysis, run: nat, fingerprint: string, path: Path, mtime: int,
      findings: seq<Finding>)
    requires DiskKnows(w, fingerprint, path, mtime, findings)
    ensures Knows(Advance(w, analysis, Start(run, fingerprint, false)), run, path, mtime, findings)
  {
  }

  /** Only a save, a loss or an overwriting changes the file. */
  predicate SparesDisk(e: Event) {
    e.Start? || e.Visit? || (e.Finish? && !e.written)
  }

  lemma {:induction false} DiskStays(analysis: Analysis, trace: seq<Event>, k: nat, n: nat)
    requires k <= n <= |trace| && forall i :: k <= i < n ==> SparesDisk(trace[i])
    ensures History(analysis, trace[..n]).disk == History(analysis, trace[..k]).disk
  {
    hide Analyze, Load, Saved, DiskAfterSave;
    if n == k {
    } else {
      DiskStays(analysis, trace, k, n - 1);
      HistoryNext(analysis, trace, n - 1);
      assert SparesDisk(trace[n - 1]);
    }
  }

  ghost predicate WorldUnique(w: World) {
    && (w.disk.Some? && w.disk.value.version == CACHE_VERSION ==> UniqueKeys(w.disk.value.files))
    && (forall run :: run in w.runs ==> UniqueKeys(w.runs[run].entries))
  }

  /** Every cache of every history is a dict. */
  lemma {:induction false} HistoryUnique(analysis: Analysis, trace: seq<Event>)
    requires forall i :: 0 <= i < |trace| ==> Admissible(trace[i])
    ensures WorldUnique(History(analysis, trace))
  {
    hide UniqueKeys, Evicted, Get;
    NoKeys();
    if trace == [] {
    } else {
      var n := |trace| - 1;
      var w, e := History(analysis, trace[..n]), trace[n];
      HistoryUnique(analysis, trace[..n]);
      assert Admissible(e);
      if e.Visit? && e.run in w.runs {
        var c := w.runs[e.run];
        if e.mtime.Some? {
          PutUnique(c.entries, e.path,
                    Entry(e.mtime.value, Stored(analysis(e.path, e.mtime, c.fingerprint)), e.now));
        }
      }
      if e.Finish? && e.run in w.runs { EvictionKeepsDict(w.runs[e.run].entries); }
    }
  }

  lemma NoKeys()
    ensures UniqueKeys<Path, Entry>([])
  {
  }

  /** The cache works across runs: a visit (at `k`), a save by that run (at `f`), a later start with
      the same fingerprint (at `s`), and a visit by that run (at `n`) to the same file with the same
      mtime: the answer is the first one, whatever the analyser would say by then. */
  lemma LaterRunIsCached(analysis: Analysis, other: Analysis, trace: seq<Event>, k: nat, f: nat, s: nat, n: nat,
      findings: seq<Finding>)
    requires forall i :: 0 <= i < |trace| ==> Admissible(trace[i])
    requires k < f < s < n < |trace| && Answered(analysis, trace, k, findings)
    requires forall i :: k < i < f ==>
      Spares(History(analysis, trace[..i]), trace[i], trace[k].run, trace[k].path, trace[k].mtime.value)
    requires trace[n].Visit? && trace[n].path == trace[k].path && trace[n].mtime == trace[k].mtime
    requires trace[f].Finish? && trace[f].run == trace[k].run && trace[f].written
    requires var w := History(analysis, trace[..f]);
      && trace[f].run in w.runs && w.runs[trace[f].run].dirty && |w.runs[trace[f].run].entries| <= 10_000
      && trace[s] == Start(trace[n].run, w.runs[trace[f].run].fingerprint, false)
    requires forall i :: f < i < s ==> SparesDisk(trace[i])
    requires forall i :: s < i < n ==>
      Spares(History(analysis, trace[..i]), trace[i], trace[n].run, trace[k].path, trace[k].mtime.value)
    ensures var w := History(analysis, trace[..n]);
      && trace[n].run in w.runs
      && Analyze(w.runs[trace[n].run], other, trace[n].path, trace[n].mtime, trace[n].now).1 == findings
  {
    hide Spares, SparesDisk, History, Get, Advance, Load, UniqueKeys;
    var path, mtime := trace[k].path, trace[k].mtime.value;
    VisitTeaches(History(analysis, trace[..k]), analysis, trace[k]);
    HistoryNext(analysis, trace, k);
    KnownStays(analysis, trace, k + 1, f, trace[k].run, path, mtime, findings);
    HistoryUnique(analysis, trace[..f]);
    SaveTeaches(History(analysis, trace[..f]), analysis, trace[f], path, mtime, findings);
    HistoryNext(analysis, trace, f);
    DiskStays(analysis, trace, f + 1, s);
    StartLearns(History(analysis, trace[..s]), analysis, trace[n].run, trace[s].fingerprint, path, mtime, findings);
    HistoryNext(analysis, trace, s);
    KnownStays(analysis, trace, s + 1, n, trace[n].run, path, mtime, findings);
  }

  // ---- transparency ------------------------------------------------------------------

  /** Every entry holds what the analyser says for its path and mtime under this fingerprint. */
  ghost predicate Truthful(entries: Entries, fingerprint: string, analysis: Analysis) {
    forall i :: 0 <= i < |entries| ==> TruthfulEntry(entries[i], fingerprint, analysis)
  }

  ghost predicate TruthfulEntry(item: (Path, Entry), fingerprint: string, analysis: Analysis) {
    Restored(item.1.findings) == analysis(item.0, Some(item.1.mtime), fingerprint)
  }

  lemma {:induction false} LookupMember<K, V>(d: Dict<K, V>, k: K)
    requires Lookup(d, k).Some?
    ensures (k, Lookup(d, k).value) in d
  {
    if d[0].0 == k {
    } else {
      LookupMember(d[1..], k);
    }
  }

  lemma {:induction false} PutMember<K, V>(d: Dict<K, V>, k: K, v: V, item: (K, V))
    requires item in Put(d, k, v)
    ensures item == (k, v) || item in d
  {
    if d == [] || d[0].0 == k || item == d[0] {
    } else {
      PutMember(d[1..], k, v, item);
    }
  }

  /** Cached or not, the answer is the analyser's, and the cache stays truthful. */
  lemma AnalyzeTruthful(c: View, analysis: Analysis, path: Path, mtime: Option<int>, now: int)
    requires Truthful(c.entries, c.fingerprint, analysis)
    ensures var (c', findings) := Analyze(c, analysis, path, mtime, now);
      findings == analysis(path, mtime, c.fingerprint)
      && c'.fingerprint == c.fingerprint && Truthful(c'.entries, c.fingerprint, analysis)
  {
    if mtime.None? {
    } else if Get(c, path, mtime.value).Some? {
      LookupMember(c.entries, path);
      assert TruthfulEntry((path, Lookup(c.entries, path).value), c.fingerprint, analysis);
    } else if !c.disabled {
      var found := analysis(path, mtime, c.fingerprint);
      var e := Entry(mtime.value, Stored(found), now);
      StoredRoundTrip(found);
      assert TruthfulEntry((path, e), c.fingerprint, analysis);
      var after := Put(c.entries, path, e);
      forall i | 0 <= i < |after| ensures TruthfulEntry(after[i], c.fingerprint, analysis) {
        PutMember(c.entries, path, e, after[i]);
      }
    }
  }

  lemma EvictedTruthful(entries: Entries, fingerprint: string, analysis: Analysis)
    requires Truthful(entries, fingerprint, analysis)
    ensures Truthful(Evicted(entries), fingerprint, analysis)
  {
    hide Evicted;
    forall j | 0 <= j < |Evicted(entries)| ensures TruthfulEntry(Evicted(entries)[j], fingerprint, analysis) {
      EvictedMember(entries, j);
    }
  }

  /** Several validator runs sharing one cache file, interleaved at will. */
  datatype World = World(disk: Option<DiskFile>, runs: map<nat, View>)

  datatype Event =
    | Start(run: nat, fingerprint: string, disabled: bool)
    | Visit(run: nat, path: Path, mtime: Option<int>, now: int)
    | Finish(run: nat, written: bool)
    | Wiped
    | Foreign(file: DiskFile)

  /** A file of another schema version may appear; one of this version is only ever written by `Finish`. */
  ghost predicate Admissible(e: Event) {
    e.Foreign? ==> e.file.version != CACHE_VERSION
  }

  function Advance(w: World, analysis: Analysis, e: Event): World {
    match e
    case Start(run, fingerprint, disabled) => w.(runs := w.runs[run := Load(w.disk, fingerprint, disabled)])
    case Visit(run, path, mtime, now) =>
      if run in w.runs then w.(runs := w.runs[run := Analyze(w.runs[run], analysis, path, mtime, now).0]) else w
    case Finish(run, written) =>
      if run in w.runs then
        World(if written then DiskAfterSave(w.runs[run], w.disk) else w.disk, w.runs[run := Saved(w.runs[run])])
      else w
    case Wiped => w.(disk := None)
    case Foreign(file) => w.(disk := Some(file))
  }

  function History(analysis: Analysis, trace: seq<Event>): World {
    if trace == [] then World(None, map[])
    else Advance(History(analysis, trace[..|trace| - 1]), analysis, trace[|trace| - 1])
  }

  ghost predicate WorldTruthful(w: World, analysis: Analysis) {
    && (w.disk.Some? && w.disk.value.version == CACHE_VERSION ==>
          Truthful(w.disk.value.files, w.disk.value.fingerprint, analysis))
    && (forall run :: run in w.runs ==> Truthful(w.runs[run].entries, w.runs[run].fingerprint, analysis))
  }

  lemma {:induction false} HistoryTruthful(analysis: Analysis, trace: seq<Event>)
    requires forall i :: 0 <= i < |trace| ==> Admissible(trace[i])
    ensures WorldTruthful(History(analysis, trace), analysis)
  {
    if trace == [] {
    } else {
      var n := |trace| - 1;
      var w, e := History(analysis, trace[..n]), trace[n];
      HistoryTruthful(analysis, trace[..n]);
      assert Admissible(e);
      if e.Visit? && e.run in w.runs {
        AnalyzeTruthful(w.runs[e.run], analysis, e.path, e.mtime, e.now);
      }
      if e.Finish? && e.run in w.runs {
        EvictedTruthful(w.runs[e.run].entries, w.runs[e.run].fingerprint, analysis);
      }
    }
  }

  /** Over every interleaving of runs, configuration changes, evictions, overwrites, lost files
      and failed writes, a visit returns what the analyser returns uncached. */
  lemma VisitIsTransparent(analysis: Analysis, trace: seq<Event>, n: nat)
    requires forall i :: 0 <= i < |trace| ==> Admissible(trace[i])
    requires n < |trace| && trace[n].Visit? && trace[n].run in History(analysis, trace[..n]).runs
    ensures var c := History(analysis, trace[..n]).runs[trace[n].run];
      Analyze(c, analysis, trace[n].path, trace[n].mtime, trace[n].now).1
        == analysis(trace[n].path, trace[n].mtime, c.fingerprint)
  {
    HistoryTruthful(analysis, trace[..n]);
    var c := History(analysis, trace[..n]).runs[trace[n].run];
    AnalyzeTruthful(c, analysis, trace[n].path, trace[n].mtime, trace[n].now);
  }
}
