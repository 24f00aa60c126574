/** hooks/stop_validator.py with lib/tier_cache.py: skip validators that recently passed on the
    same inputs, run the rest, remember the clean ones, filter, decide. */
module StopHook {
  import opened Findings
  import opened HookOutput
  import opened Options
  import opened ParallelRunner
  import opened Registry
  import opened Schedules
  import opened Selection

  // ---- the tier cache ---------------------------------------------------------------

  const TIER_CACHE_INELIGIBLE: set<string> := {"V06", "V09", "V10", "V11", "V12", "V21", "V37"}

  predicate IsCacheable(id: string) {
    VidPrefix(id) !in TIER_CACHE_INELIGIBLE
  }

  /** One validator's cache file: a recorded pass, or something unreadable. */
  datatype Slot = Pass(ts: real, inputHash: string) | Corrupt

  type Files = map<string, Slot>

  predicate IsFresh(ts: real, now: real, maxAge: int) {
    now - ts <= maxAge as real
  }

  predicate RecentPass(files: Files, id: string, inputHash: string, now: real, maxAge: int, disabled: bool) {
    var p := VidPrefix(id);
    && !disabled && IsCacheable(id)
    && p in files && files[p].Pass? && IsFresh(files[p].ts, now, maxAge) && files[p].inputHash == inputHash
  }

  /** The readable part of the cache directory. */
  function Passes(files: Files): Files {
    map p | p in files && files[p].Pass? :: files[p]
  }

  function Recorded(passes: Files, id: string, inputHash: string, now: real, disabled: bool, written: bool): Files {
    if disabled || !IsCacheable(id) || !written then passes else passes[VidPrefix(id) := Pass(now, inputHash)]
  }

  // ---- one Stop call ------------------------------------------------------------------

  /** Everything one Stop call meets: configuration, clock, active validators, the digest of each
      one's inputs, how each one would end if run, the order in which workers complete, the
      prefixes whose file was lost or corrupted since the previous call, and the prefixes whose
      file cannot be written. */
  datatype StopCall = StopCall(
    enabled: bool, disabled: bool, maxAge: int, lookupTime: real, recordTime: real,
    active: seq<Validator>, inputHash: Validator -> string, outcome: Validator -> Outcome,
    root: string, parallel: bool, order: seq<nat>, lost: set<string>, unwritten: set<string>)

  function Skips(passes: Files, call: StopCall, v: Validator): bool {
    call.enabled && RecentPass(passes, v.id, call.inputHash(v), call.lookupTime, call.maxAge, call.disabled)
  }

  function Misses(passes: Files, call: StopCall): Validator -> bool {
    v => !Skips(passes, call, v)
  }

  function Runnable(passes: Files, call: StopCall): seq<Validator> {
    Filter(call.active, Misses(passes, call))
  }

  function Tasks(call: StopCall, validators: seq<Validator>): seq<Task> {
    if validators == [] then []
    else [Task(validators[0], call.outcome(validators[0]))] + Tasks(call, validators[1..])
  }

  lemma {:induction false} TasksLength(call: StopCall, validators: seq<Validator>)
    ensures |Tasks(call, validators)| == |validators|
    ensures forall i :: 0 <= i < |validators| ==>
      Tasks(call, validators)[i] == Task(validators[i], call.outcome(validators[i]))
  {
    if validators == [] {
    } else {
      TasksLength(call, validators[1..]);
    }
  }

  /** The schedule lists every validator that runs. */
  ghost predicate Scheduled(passes: Files, call: StopCall) {
    IsCompletionOrder(call.order, |Tasks(call, Runnable(passes, call))|)
  }

  function RawFindings(passes: Files, call: StopCall): seq<Finding> {
    var tasks := Tasks(call, Runnable(passes, call));
    if call.parallel && InRange(call.order, |tasks|) then Gathered(tasks, call.order, call.root)
    else Sequential(tasks, call.root)
  }

  /** `f` keeps the validator it names out of the cache. */
  predicate Marks(f: Finding, prefix: string) {
    (f.kind == "sentinel" || f.rule != "") && VidPrefix(f.rule) == prefix
  }

  ghost predicate Clean(findings: seq<Finding>, prefix: string) {
    forall i :: 0 <= i < |findings| ==> !Marks(findings[i], prefix)
  }

  /** The passes after the recording loop over `ran`. */
  ghost function RecordClean(passes: Files, call: StopCall, ran: seq<Validator>, findings: seq<Finding>): Files {
    if ran == [] then passes else
      var v := ran[|ran| - 1];
      var before := RecordClean(passes, call, ran[..|ran| - 1], findings);
      if Clean(findings, VidPrefix(v.id)) then
        Recorded(before, v.id, call.inputHash(v), call.recordTime, call.disabled, VidPrefix(v.id) !in call.unwritten)
      else before
  }

  ghost function PassesAfterCall(passes: Files, call: StopCall): Files {
    if call.enabled then RecordClean(passes, call, Runnable(passes, call), RawFindings(passes, call)) else passes
  }

  /** The validators whose results are never cached are run in every call, whatever the files say,
      and what they return is reported. */
  lemma IneligibleAlwaysReported(passes: Files, call: StopCall, v: Validator)
    requires Scheduled(passes, call) && v in call.active
    requires VidPrefix(v.id) in {"V06", "V09", "V10", "V11", "V12", "V21", "V37"}
    ensures multiset(ResultOf(Task(v, call.outcome(v)), call.root)) <= multiset(RawFindings(passes, call))
  {
    hide ResultOf, RawFindings, Report, Scheduled, VidPrefix;
    assert !Skips(passes, call, v);
    FilterMember(call.active, Misses(passes, call), v);
    RawIsSequential(passes, call);
    ReportHolds(call, Runnable(passes, call), v);
  }

  class TierCache {
    var files: Files

    method LookupRecentPass(id: string, inputHash: string, now: real, maxAge: int, disabled: bool) returns (hit: bool)
      modifies this
      ensures hit <==> RecentPass(Passes(old(files)), id, inputHash, now, maxAge, disabled)
      ensures hit <==>
        && !disabled && VidPrefix(id) !in {"V06", "V09", "V10", "V11", "V12", "V21", "V37"}
        && VidPrefix(id) in old(files)
        && match old(files)[VidPrefix(id)]
           case Corrupt => false
           case Pass(ts, stored) => now - ts <= maxAge as real && stored == inputHash
      ensures files == if !disabled && IsCacheable(id) && VidPrefix(id) in old(files)
                          && old(files)[VidPrefix(id)].Corrupt? then old(files) - {VidPrefix(id)} else old(files)
      ensures Passes(files) == Passes(old(files))
    {
      if disabled { return false; }
      if !IsCacheable(id) { return false; }
      var p := VidPrefix(id);
      if p !in files { return false; }
      match files[p]
      case Corrupt =>
        files := files - {p};
        return false;
      case Pass(ts, stored) =>
        if !IsFresh(ts, now, maxAge) { return false; }
        return stored == inputHash;
    }

    /** `record_pass`; a failed write leaves the old file in place. */
    method RecordPass(id: string, inputHash: string, now: real, disabled: bool, written: bool)
      modifies this
      ensures Passes(files) == Recorded(Passes(old(files)), id, inputHash, now, disabled, written)
      ensures files ==
        if disabled || !written || VidPrefix(id) in {"V06", "V09", "V10", "V11", "V12", "V21", "V37"} then old(files)
        else old(files)[VidPrefix(id) := Pass(now, inputHash)]
    {
      if disabled { return; }
      if !IsCacheable(id) { return; }
      if !written { return; }
      files := files[VidPrefix(id) := Pass(now, inputHash)];
    }

    /** The lookup loop of `main`, run when the cache is enabled. */
    method SelectRunnable(call: StopCall) returns (runnable: seq<Validator>, hashes: map<string, string>)
      requires UniquePrefixes(call.active) && call.enabled
      modifies this
      ensures Passes(files) == Passes(old(files))
      ensures runnable == Runnable(Passes(old(files)), call)
      ensures forall v :: v in call.active && IsCacheable(v.id) ==> v.id in hashes && hashes[v.id] == call.inputHash(v)
    {
      runnable, hashes := [], map[];
      ghost var passes := Passes(files);
      var keep := Misses(passes, call);
      for n := 0 to |call.active|
        invariant Passes(files) == passes
        invariant runnable == Filter(call.active[..n], keep)
        invariant forall i :: 0 <= i < n && IsCacheable(call.active[i].id) ==>
          call.active[i].id in hashes && hashes[call.active[i].id] == call.inputHash(call.active[i])
      {
        var v := call.active[n];
        assert call.active[..n + 1] == call.active[..n] + [v];
        FilterConcat(call.active[..n], [v], keep);
        assert Filter([v][1..], keep) == [];
        if !IsCacheable(v.id) {
          runnable := runnable + [v];
          continue;
        }
        var inputHash := call.inputHash(v);
        assert forall i :: 0 <= i < n ==> VidPrefix(call.active[i].id) != VidPrefix(call.active[n].id);
        hashes := hashes[v.id := inputHash];
        var hit := LookupRecentPass(v.id, inputHash, call.lookupTime, call.maxAge, call.disabled);
        if !hit { runnable := runnable + [v]; }
      }
      assert call.active[..|call.active|] == call.active;
    }

    /** The record loop of `main`. */
    method RecordRan(call: StopCall, ran: seq<Validator>, findings: seq<Finding>, hashes: map<string, string>)
      requires forall v :: v in ran && IsCacheable(v.id) ==> v.id in hashes && hashes[v.id] == call.inputHash(v)
      modifies this
      ensures Passes(files) == RecordClean(Passes(old(files)), call, ran, findings)
    {
      var ranWithFindings: set<string> := {};
      for n := 0 to |findings|
        invariant files == old(files)
        invariant forall p :: p in ranWithFindings <==> exists i :: 0 <= i < n && Marks(findings[i], p)
      {
        var f := findings[n];
        if f.kind == "sentinel" {
          ranWithFindings := ranWithFindings + {VidPrefix(f.rule)};
          continue;
        }
        if f.rule != "" {
          ranWithFindings := ranWithFindings + {VidPrefix(f.rule)};
        }
      }
      for n := 0 to |ran|
        invariant Passes(files) == RecordClean(Passes(old(files)), call, ran[..n], findings)
      {
        var v := ran[n];
        assert ran[..n + 1][..n] == ran[..n];
        if !IsCacheable(v.id) { continue; }
        assert VidPrefix(v.id) in ranWithFindings <==> !Clean(findings, VidPrefix(v.id));
        if VidPrefix(v.id) in ranWithFindings { continue; }
        RecordPass(v.id, hashes[v.id], call.recordTime, call.disabled, VidPrefix(v.id) !in call.unwritten);
      }
      assert ran[..|ran|] == ran;
    }

    /** Skip, run, record: the cache-related part of `main`. */
    method RunStop(call: StopCall) returns (findings: seq<Finding>)
      requires UniquePrefixes(call.active) && Scheduled(Passes(files), call)
      modifies this
      ensures findings == RawFindings(Passes(old(files)), call)
      ensures Passes(files) == PassesAfterCall(Passes(old(files)), call)
      ensures forall v :: v in call.active && VidPrefix(v.id) in {"V06", "V09", "V10", "V11", "V12", "V21", "V37"} ==>
        multiset(ResultOf(Task(v, call.outcome(v)), call.root)) <= multiset(findings)
    {
      ghost var passes := Passes(files);
      var toRun, hashes := call.active, map[];
      if call.enabled {
        toRun, hashes := SelectRunnable(call);
      } else {
        FilterAll(call.active, Misses(passes, call));
      }
      findings := RunAll(Tasks(call, toRun), call.order, call.root, call.parallel);
      if call.enabled && toRun != [] {
        forall v | v in toRun ensures v in call.active { FilterMember(call.active, Misses(passes, call), v); }
        RecordRan(call, toRun, findings, hashes);
      }
      forall v | v in call.active && VidPrefix(v.id) in {"V06", "V09", "V10", "V11", "V12", "V21", "V37"}
        ensures multiset(ResultOf(Task(v, call.outcome(v)), call.root)) <= multiset(findings)
      {
        IneligibleAlwaysReported(passes, call, v);
      }
    }
  }

  // ---- soundness over every run ---------------------------------------------------------

  /** The readable cache after a sequence of Stop calls on a project that had none. */
  ghost function History(calls: seq<StopCall>): Files {
    if calls == [] then map[]
    else
      var call := calls[|calls| - 1];
      PassesAfterCall(History(calls[..|calls| - 1]) - call.lost, call)
  }

  /** The passes `call` finds after these calls. */
  ghost function Found(calls: seq<StopCall>, call: StopCall): Files {
    History(calls) - call.lost
  }

  /** At call `j`, `v` ran on these inputs and nothing it or its crash could report was seen. */
  ghost predicate RanClean(calls: seq<StopCall>, j: int, v: Validator, inputHash: string) {
    && 0 <= j < |calls| && calls[j].enabled
    && v in Runnable(Found(calls[..j], calls[j]), calls[j])
    && IsCacheable(v.id) && calls[j].inputHash(v) == inputHash
    && Clean(RawFindings(Found(calls[..j], calls[j]), calls[j]), VidPrefix(v.id))
  }

  ghost predicate Justified(calls: seq<StopCall>, prefix: string, slot: Slot) {
    && slot.Pass?
    && exists j, v ::
         RanClean(calls, j, v, slot.inputHash) && VidPrefix(v.id) == prefix && slot.ts == calls[j].recordTime
  }

  lemma {:induction false} RecordCleanSource(
    passes: Files, call: StopCall, ran: seq<Validator>, findings: seq<Finding>, p: string)
    requires p in RecordClean(passes, call, ran, findings)
    ensures var slot := RecordClean(passes, call, ran, findings)[p];
      || (p in passes && passes[p] == slot)
      || exists v :: v in ran && VidPrefix(v.id) == p && IsCacheable(v.id) && Clean(findings, p)
           && slot == Pass(call.recordTime, call.inputHash(v))
  {
    if ran == [] {
    } else {
      var last := |ran| - 1;
      var v := ran[last];
      if VidPrefix(v.id) == p && Clean(findings, p) && !call.disabled && IsCacheable(v.id) && p !in call.unwritten {
        assert v in ran;
      } else {
        RecordCleanSource(passes, call, ran[..last], findings, p);
      }
    }
  }

  lemma JustifiedLater(calls: seq<StopCall>, call: StopCall, p: string, slot: Slot)
    requires Justified(calls, p, slot)
    ensures Justified(calls + [call], p, slot)
  {
    hide Runnable, RawFindings, Found, VidPrefix, IsCacheable;
    var all := calls + [call];
    var j, v :| RanClean(calls, j, v, slot.inputHash) && VidPrefix(v.id) == p && slot.ts == calls[j].recordTime;
    assert all[..j] == calls[..j] && all[j] == calls[j];
    assert RanClean(all, j, v, slot.inputHash);
  }

  lemma JustifiedNow(calls: seq<StopCall>, call: StopCall, p: string, slot: Slot, v: Validator)
    requires call.enabled && v in Runnable(Found(calls, call), call) && VidPrefix(v.id) == p && IsCacheable(v.id)
    requires Clean(RawFindings(Found(calls, call), call), p) && slot == Pass(call.recordTime, call.inputHash(v))
    ensures Justified(calls + [call], p, slot)
  {
    hide Runnable, RawFindings, Found, VidPrefix, IsCacheable;
    var all := calls + [call];
    assert all[..|calls|] == calls && all[|calls|] == call;
    assert RanClean(all, |calls|, v, slot.inputHash);
  }

  /** Every stored pass goes back to a clean run. */
  lemma {:induction false} HistoryJustified(calls: seq<StopCall>, p: string)
    requires p in History(calls)
    ensures Justified(calls, p, History(calls)[p])
  {
    hide Runnable, RawFindings, VidPrefix, IsCacheable, Justified, RecordClean;
    var last := |calls| - 1;
    var init, call := calls[..last], calls[last];
    var before, slot := Found(init, call), History(calls)[p];
    assert calls == init + [call];
    if call.enabled {
      RecordCleanSource(before, call, Runnable(before, call), RawFindings(before, call), p);
    }
    if p in before && before[p] == slot {
      HistoryJustified(init, p);
      JustifiedLater(init, call, p, slot);
    } else {
      var v :| v in Runnable(before, call) && VidPrefix(v.id) == p && IsCacheable(v.id)
               && Clean(RawFindings(before, call), p) && slot == Pass(call.recordTime, call.inputHash(v));
      JustifiedNow(init, call, p, slot, v);
    }
  }

  /** Call `j` ran `w` clean on these inputs, recently enough for `call`. */
  ghost predicate RecentCleanRun(calls: seq<StopCall>, call: StopCall, j: int, w: Validator, inputHash: string) {
    RanClean(calls, j, w, inputHash) && call.lookupTime - calls[j].recordTime <= call.maxAge as real
  }

  /** A validator is skipped only if it is cacheable and an earlier call ran its prefix on the
      same inputs, within the allowed age, with nothing reported under that prefix. */
  lemma SkippedOnlyAfterCleanRun(calls: seq<StopCall>, call: StopCall, v: Validator)
    requires Skips(Found(calls, call), call, v)
    ensures call.enabled && !call.disabled
    ensures VidPrefix(v.id) !in {"V06", "V09", "V10", "V11", "V12", "V21", "V37"}
    ensures exists j, w ::
      RecentCleanRun(calls, call, j, w, call.inputHash(v)) && VidPrefix(w.id) == VidPrefix(v.id)
  {
    hide RanClean, History, VidPrefix;
    var p := VidPrefix(v.id);
    HistoryJustified(calls, p);
    var slot := History(calls)[p];
    IndexOfClean(calls, slot.inputHash);
    var j, w :| RanClean(calls, j, w, slot.inputHash) && VidPrefix(w.id) == p
                && 0 <= j < |calls| && slot.ts == calls[j].recordTime;
    assert RecentCleanRun(calls, call, j, w, call.inputHash(v));
  }

  lemma IndexOfClean(calls: seq<StopCall>, inputHash: string)
    ensures forall j, v :: RanClean(calls, j, v, inputHash) ==> 0 <= j < |calls|
  {
  }

  // ---- the cached Stop agrees with the full Stop -------------------------------------------

  /** Validators report under their own prefix. */
  ghost predicate OwnRules(call: StopCall) {
    forall v :: v in call.active && call.outcome(v).Returned? ==> RulesOf(call.outcome(v).findings, v)
  }

  ghost predicate RulesOf(findings: seq<Finding>, v: Validator) {
    forall i :: 0 <= i < |findings| ==> findings[i].rule != "" && VidPrefix(findings[i].rule) == VidPrefix(v.id)
  }

  /** The assumptions the cache rests on: one validator per prefix throughout, every validator
      reports under its own prefix, a cacheable one that is clean on an input digest is clean
      whenever it has that digest, and every schedule is complete. */
  ghost predicate WellBehaved(calls: seq<StopCall>) {
    && (forall i :: 0 <= i < |calls| ==>
          UniquePrefixes(calls[i].active) && OwnRules(calls[i]) && Scheduled(Found(calls[..i], calls[i]), calls[i]))
    && (forall i, j, v, w :: 0 <= i < |calls| && 0 <= j < |calls| && v in calls[i].active && w in calls[j].active ==>
          Consistent(calls[i], calls[j], v, w))
  }

  ghost predicate Consistent(a: StopCall, b: StopCall, v: Validator, w: Validator) {
    && (VidPrefix(v.id) == VidPrefix(w.id) ==> v == w)
    && (v == w && IsCacheable(v.id) && a.inputHash(v) == b.inputHash(v) && a.outcome(v) == Returned([]) ==>
          b.outcome(v) == Returned([]))
  }

  lemma ResultUnderPrefix(call: StopCall, v: Validator, i: nat)
    requires OwnRules(call) && v in call.active && i < |ResultOf(Task(v, call.outcome(v)), call.root)|
    ensures Marks(ResultOf(Task(v, call.outcome(v)), call.root)[i], VidPrefix(v.id))
  {
    if call.outcome(v).Crashed? {
      PrefixHasNoDash(v.id);
      PrefixBeforeDash(VidPrefix(v.id), "CRASHED");
      assert VidPrefix(v.id) + "-" + "CRASHED" == VidPrefix(v.id) + "-CRASHED";
    } else {
      assert RulesOf(call.outcome(v).findings, v);
    }
  }

  /** What running these validators would report. */
  function Report(call: StopCall, validators: seq<Validator>): seq<Finding> {
    Sequential(Tasks(call, validators), call.root)
  }

  lemma RawIsSequential(passes: Files, call: StopCall)
    requires Scheduled(passes, call)
    ensures multiset(RawFindings(passes, call)) == multiset(Report(call, Runnable(passes, call)))
  {
    GatheredIsSequential(Tasks(call, Runnable(passes, call)), call.order, call.root);
  }

  /** What a validator returns is among the findings of the call that ran it. */
  lemma ReportIsSeen(passes: Files, call: StopCall, v: Validator)
    requires Scheduled(passes, call) && OwnRules(call) && v in call.active && v in Runnable(passes, call)
    requires ResultOf(Task(v, call.outcome(v)), call.root) != []
    ensures !Clean(RawFindings(passes, call), VidPrefix(v.id))
  {
    hide VidPrefix, Runnable, OwnRules, Sequential, RawFindings, ResultOf, Clean, Marks;
    var ran := Runnable(passes, call);
    var k :| 0 <= k < |ran| && ran[k] == v;
    TasksLength(call, ran);
    SequentialContains(Tasks(call, ran), call.root, k);
    RawIsSequential(passes, call);
    var result, raw := ResultOf(Task(v, call.outcome(v)), call.root), RawFindings(passes, call);
    ResultUnderPrefix(call, v, 0);
    assert result[0] in multiset(result);
    assert result[0] in multiset(raw);
    var i :| 0 <= i < |raw| && raw[i] == result[0];
    NotClean(raw, i, VidPrefix(v.id));
  }

  lemma NotClean(findings: seq<Finding>, i: nat, prefix: string)
    requires i < |findings| && Marks(findings[i], prefix)
    ensures !Clean(findings, prefix)
  {
  }

  /** A validator that ran clean returned nothing. */
  lemma CleanRunIsEmpty(calls: seq<StopCall>, j: nat, v: Validator, inputHash: string)
    requires WellBehaved(calls) && RanClean(calls, j, v, inputHash)
    ensures v in calls[j].active && ResultOf(Task(v, calls[j].outcome(v)), calls[j].root) == []
  {
    hide Clean, RawFindings, VidPrefix, OwnRules, Consistent, Scheduled;
    var passes := Found(calls[..j], calls[j]);
    FilterMember(calls[j].active, Misses(passes, calls[j]), v);
    if ResultOf(Task(v, calls[j].outcome(v)), calls[j].root) != [] {
      ReportIsSeen(passes, calls[j], v);
    }
  }

  lemma RanCleanEarlier(calls: seq<StopCall>, n: nat, j: int, w: Validator, inputHash: string)
    requires n <= |calls| && RanClean(calls[..n], j, w, inputHash)
    ensures 0 <= j < n && RanClean(calls, j, w, inputHash)
  {
    hide Clean, RawFindings, VidPrefix, Found, Runnable;
    assert calls[..n][..j] == calls[..j];
  }

  /** So a skipped validator would have returned nothing now. */
  lemma SkippedWouldBeEmpty(calls: seq<StopCall>, n: nat, v: Validator)
    requires WellBehaved(calls) && n < |calls| && v in calls[n].active
    requires Skips(Found(calls[..n], calls[n]), calls[n], v)
    ensures ResultOf(Task(v, calls[n].outcome(v)), calls[n].root) == []
  {
    hide RanClean, Found, VidPrefix, OwnRules, Scheduled, RecentPass;
    SkippedOnlyAfterCleanRun(calls[..n], calls[n], v);
    var h := calls[n].inputHash(v);
    var j, w :| RecentCleanRun(calls[..n], calls[n], j, w, h) && VidPrefix(w.id) == VidPrefix(v.id);
    RanCleanEarlier(calls, n, j, w, h);
    CleanRunIsEmpty(calls, j, w, h);
    SameInputsAtRun(calls, j, w, h);
    EmptyIsReturned(calls[j].outcome(w), w, calls[j].root);
    assert Consistent(calls[j], calls[n], w, v) && Consistent(calls[j], calls[n], w, w);
  }

  lemma SameInputsAtRun(calls: seq<StopCall>, j: int, w: Validator, inputHash: string)
    requires RanClean(calls, j, w, inputHash)
    ensures 0 <= j < |calls| && calls[j].inputHash(w) == inputHash
  {
  }

  lemma EmptyIsReturned(outcome: Outcome, v: Validator, root: string)
    requires ResultOf(Task(v, outcome), root) == []
    ensures outcome == Returned([])
  {
  }

  /** The findings split between the validators kept and the ones dropped. */
  lemma {:induction false} ReportSplit(call: StopCall, validators: seq<Validator>, keep: Validator -> bool)
    ensures multiset(Report(call, validators))
      == multiset(Report(call, Filter(validators, keep))) + multiset(Report(call, Filter(validators, Not(keep))))
  {
    if validators == [] {
    } else {
      hide Report, ResultOf;
      var v, rest := validators[0], validators[1..];
      assert validators == [v] + rest;
      ReportSplit(call, rest, keep);
      ReportTail(call, v, rest);
      if keep(v) {
        ReportTail(call, v, Filter(rest, keep));
      } else {
        ReportTail(call, v, Filter(rest, Not(keep)));
      }
    }
  }

  lemma ReportTail(call: StopCall, v: Validator, rest: seq<Validator>)
    ensures Report(call, [v] + rest) == ResultOf(Task(v, call.outcome(v)), call.root) + Report(call, rest)
  {
  }

  function Skipped(passes: Files, call: StopCall): seq<Validator> {
    Filter(call.active, Not(Misses(passes, call)))
  }

  /** What a Stop call loses by skipping is exactly what the skipped validators would report. */
  lemma SkippingLosesExactly(passes: Files, call: StopCall)
    requires Scheduled(passes, call)
    ensures multiset(Report(call, call.active))
      == multiset(RawFindings(passes, call)) + multiset(Report(call, Skipped(passes, call)))
  {
    RawIsSequential(passes, call);
    ReportSplit(call, call.active, Misses(passes, call));
  }

  /** So nothing is lost exactly when every skipped validator would return nothing. */
  lemma NothingLostIffSkippedEmpty(passes: Files, call: StopCall)
    requires Scheduled(passes, call)
    ensures multiset(RawFindings(passes, call)) == multiset(Report(call, call.active))
      <==> forall v :: v in call.active && Skips(passes, call, v) ==> call.outcome(v) == Returned([])
  {
    hide Skips, RawFindings, Report;
    var skipped := Skipped(passes, call);
    SkippingLosesExactly(passes, call);
    forall v ensures v in skipped <==> v in call.active && Skips(passes, call, v) {
      FilterMember(call.active, Not(Misses(passes, call)), v);
    }
    if forall v :: v in skipped ==> call.outcome(v) == Returned([]) {
      AllEmpty(call, skipped);
    } else {
      var v :| v in skipped && call.outcome(v) != Returned([]);
      ReportHolds(call, skipped, v);
      if ResultOf(Task(v, call.outcome(v)), call.root) == [] {
        EmptyIsReturned(call.outcome(v), v, call.root);
      }
      assert |multiset(Report(call, skipped))| > 0;
    }
  }

  lemma ReportHolds(call: StopCall, validators: seq<Validator>, v: Validator)
    requires v in validators
    ensures multiset(ResultOf(Task(v, call.outcome(v)), call.root)) <= multiset(Report(call, validators))
    ensures ResultOf(Task(v, call.outcome(v)), call.root) != [] ==> Report(call, validators) != []
  {
    hide Sequential, ResultOf;
    var k :| 0 <= k < |validators| && validators[k] == v;
    TasksLength(call, validators);
    SequentialContains(Tasks(call, validators), call.root, k);
    var result, report := ResultOf(Task(v, call.outcome(v)), call.root), Report(call, validators);
    if result != [] {
      assert result[0] in multiset(result);
      assert result[0] in multiset(report);
    }
  }

  lemma {:induction false} AllEmpty(call: StopCall, validators: seq<Validator>)
    requires forall v :: v in validators ==> ResultOf(Task(v, call.outcome(v)), call.root) == []
    ensures Report(call, validators) == []
  {
    if validators == [] {
    } else {
      AllEmpty(call, validators[1..]);
      ReportTail(call, validators[0], validators[1..]);
      assert validators == [validators[0]] + validators[1..];
    }
  }

  /** Call `n` reports what running every active validator would. */
  ghost predicate LosesNothing(calls: seq<StopCall>, n: nat)
    requires n < |calls|
  {
    multiset(RawFindings(Found(calls[..n], calls[n]), calls[n])) == multiset(Report(calls[n], calls[n].active))
  }

  /** Over every sequence of Stop calls, whatever cache files are lost or cannot be written,
      skipping loses nothing: the findings are those of running every active validator. */
  lemma CachedStopFindsTheSame(calls: seq<StopCall>, n: nat)
    requires WellBehaved(calls) && n < |calls|
    ensures LosesNothing(calls, n)
  {
    hide Skips, RawFindings, Report, Found;
    var passes, call := Found(calls[..n], calls[n]), calls[n];
    forall v | v in call.active && Skips(passes, call, v) ensures call.outcome(v) == Returned([]) {
      SkippedWouldBeEmpty(calls, n, v);
      EmptyIsReturned(call.outcome(v), v, call.root);
    }
    NothingLostIffSkippedEmpty(passes, call);
  }

  // ---- the assumption on input digests is needed --------------------------------------------

  lemma {:induction false} RecordCleanHolds(
    passes: Files, call: StopCall, ran: seq<Validator>, findings: seq<Finding>, v: Validator)
    requires v in ran && IsCacheable(v.id) && !call.disabled && Clean(findings, VidPrefix(v.id))
    requires VidPrefix(v.id) !in call.unwritten
    requires forall w :: w in ran && VidPrefix(w.id) == VidPrefix(v.id) ==> w == v
    ensures VidPrefix(v.id) in RecordClean(passes, call, ran, findings)
    ensures RecordClean(passes, call, ran, findings)[VidPrefix(v.id)] == Pass(call.recordTime, call.inputHash(v))
  {
    hide Clean;
    var last := |ran| - 1;
    assert ran[last] in ran;
    if ran[last] != v {
      var k :| 0 <= k < |ran| && ran[k] == v;
      assert ran[..last][k] == v;
      forall w | w in ran[..last] && VidPrefix(w.id) == VidPrefix(v.id) ensures w == v { assert w in ran; }
      RecordCleanHolds(passes, call, ran[..last], findings, v);
    }
  }

  /** A clean run whose pass is written and not lost is remembered: the next call within the
      allowed age skips the validator whenever the input digest is unchanged, whatever running it
      would now report.  Clean: the validator ran and returned nothing, and the others report under
      their own prefixes. */
  lemma CleanRunIsRemembered(calls: seq<StopCall>, last: StopCall, call: StopCall, v: Validator)
    requires UniquePrefixes(last.active) && OwnRules(last) && Scheduled(Found(calls, last), last)
    requires last.enabled && !last.disabled && call.enabled && !call.disabled
    requires v in last.active && !Skips(Found(calls, last), last, v) && last.outcome(v) == Returned([])
    requires VidPrefix(v.id) !in {"V06", "V09", "V10", "V11", "V12", "V21", "V37"}
    requires VidPrefix(v.id) !in last.unwritten && VidPrefix(v.id) !in call.lost
    requires call.inputHash(v) == last.inputHash(v) && call.lookupTime - last.recordTime <= call.maxAge as real
    ensures Skips(Found(calls + [last], call), call, v)
  {
    hide Clean, RawFindings, VidPrefix, OwnRules, UniquePrefixes, Scheduled;
    var before := Found(calls, last);
    var ran := Runnable(before, last);
    assert (calls + [last])[..|calls|] == calls;
    FilterMember(last.active, Misses(before, last), v);
    forall w | w in ran && VidPrefix(w.id) == VidPrefix(v.id) ensures w == v {
      FilterMember(last.active, Misses(before, last), w);
      SamePrefixSame(last.active, v, w);
    }
    NothingReportedIsClean(before, last, v);
    RecordCleanHolds(before, last, ran, RawFindings(before, last), v);
  }

  lemma NothingReportedIsClean(passes: Files, call: StopCall, v: Validator)
    requires UniquePrefixes(call.active) && OwnRules(call) && Scheduled(passes, call)
    requires v in call.active && call.outcome(v) == Returned([])
    ensures Clean(RawFindings(passes, call), VidPrefix(v.id))
  {
    hide VidPrefix, OwnRules, UniquePrefixes, Scheduled, RawFindings;
    var raw, ran := RawFindings(passes, call), Runnable(passes, call);
    RawIsSequential(passes, call);
    forall i | 0 <= i < |raw| ensures !Marks(raw[i], VidPrefix(v.id)) {
      assert raw[i] in multiset(raw) && raw[i] in multiset(Report(call, ran));
      var w := ReporterOf(call, ran, raw[i]);
      FilterMember(call.active, Misses(passes, call), w);
      var k :| 0 <= k < |ResultOf(Task(w, call.outcome(w)), call.root)|
               && ResultOf(Task(w, call.outcome(w)), call.root)[k] == raw[i];
      FindingPrefix(call, w, k);
      if VidPrefix(w.id) == VidPrefix(v.id) { SamePrefixSame(call.active, v, w); }
    }
  }

  /** Every reported finding comes from one of the validators. */
  lemma {:induction false} ReporterOf(call: StopCall, validators: seq<Validator>, f: Finding) returns (w: Validator)
    requires f in Report(call, validators)
    ensures w in validators && f in ResultOf(Task(w, call.outcome(w)), call.root)
  {
    hide ResultOf;
    w := validators[0];
    if f !in ResultOf(Task(w, call.outcome(w)), call.root) {
      w := ReporterOf(call, validators[1..], f);
    }
  }

  lemma FindingPrefix(call: StopCall, v: Validator, i: nat)
    requires OwnRules(call) && v in call.active && i < |ResultOf(Task(v, call.outcome(v)), call.root)|
    ensures VidPrefix(ResultOf(Task(v, call.outcome(v)), call.root)[i].rule) == VidPrefix(v.id)
  {
    hide VidPrefix, OwnRules, ResultOf;
    ResultUnderPrefix(call, v, i);
  }

  lemma SamePrefixSame(validators: seq<Validator>, v: Validator, w: Validator)
    requires UniquePrefixes(validators) && v in validators && w in validators && VidPrefix(v.id) == VidPrefix(w.id)
    ensures v == w
  {
    var i :| 0 <= i < |validators| && validators[i] == v;
    var j :| 0 <= j < |validators| && validators[j] == w;
  }

  /** A Stop call with one active validator. */
  function SoleStop(v: Validator, inputHash: string, outcome: Outcome, time: real, order: seq<nat>): StopCall {
    StopCall(true, false, 300, time, time, [v], _ => inputHash, _ => outcome, "/p", true, order, {}, {})
  }

  lemma FilterOne(v: Validator, keep: Validator -> bool)
    ensures Filter([v], keep) == if keep(v) then [v] else []
  {
    assert [v][1..] == [];
  }

  /** When it misses, it runs, alone. */
  lemma OneRuns(passes: Files, v: Validator, inputHash: string, outcome: Outcome, time: real)
    requires VidPrefix(v.id) !in passes
    ensures var call := SoleStop(v, inputHash, outcome, time, [0]);
      Scheduled(passes, call) && Runnable(passes, call) == [v]
  {
    var call := SoleStop(v, inputHash, outcome, time, [0]);
    FilterOne(v, Misses(passes, call));
    TasksLength(call, call.active);
    assert Iota(1) == [0];
  }

  /** When it hits, nothing runs. */
  lemma NoneRuns(passes: Files, call: StopCall, v: Validator)
    requires call.active == [v] && call.order == [] && Skips(passes, call, v)
    ensures Scheduled(passes, call) && RawFindings(passes, call) == []
  {
    FilterOne(v, Misses(passes, call));
    assert Iota(0) == [];
  }

  lemma ReportOfOne(call: StopCall, v: Validator)
    requires call.active == [v]
    ensures Report(call, call.active) == ResultOf(Task(v, call.outcome(v)), call.root)
  {
    assert call.active == [v] + [];
    ReportTail(call, v, []);
  }

  /** Two Stop calls on one validator that is clean at first and has the same digest later. */
  function TwoStops(v: Validator, inputHash: string, later: Outcome): seq<StopCall> {
    [SoleStop(v, inputHash, Returned([]), 0.0, [0]), SoleStop(v, inputHash, later, 1.0, [])]
  }

  /** The second skips it, whatever running it would report. */
  lemma SecondStopSkips(v: Validator, inputHash: string, later: Outcome)
    requires IsCacheable(v.id)
    ensures var calls := TwoStops(v, inputHash, later);
      && Scheduled(Found([], calls[0]), calls[0]) && Scheduled(Found([calls[0]], calls[1]), calls[1])
      && Skips(Found([calls[0]], calls[1]), calls[1], v)
      && RawFindings(Found([calls[0]], calls[1]), calls[1]) == []
  {
    hide Report, RawFindings, Scheduled, VidPrefix, Skips;
    var calls := TwoStops(v, inputHash, later);
    var first, second := calls[0], calls[1];
    OneRuns(Found([], first), v, inputHash, Returned([]), 0.0);
    assert v in first.active;
    FilterMember(first.active, Misses(Found([], first), first), v);
    CleanRunIsRemembered([], first, second, v);
    assert [] + [first] == [first];
    NoneRuns(Found([first], second), second, v);
  }

  // ---- which registries never lose a finding -------------------------------------------------

  /** A Stop call on this project: the active validators are registered, and their digests and
      outcomes are what the project makes them. */
  ghost predicate StopOn<P>(call: StopCall, project: P, registry: seq<Validator>,
      digest: (Validator, P) -> string, behaves: (Validator, P) -> Outcome) {
    && UniquePrefixes(call.active)
    && forall v :: v in call.active ==>
         v in registry && call.inputHash(v) == digest(v, project) && call.outcome(v) == behaves(v, project)
  }

  ghost predicate StopsOn<P>(calls: seq<StopCall>, projects: seq<P>, registry: seq<Validator>,
      digest: (Validator, P) -> string, behaves: (Validator, P) -> Outcome) {
    && |projects| == |calls|
    && forall i :: 0 <= i < |calls| ==>
         StopOn(calls[i], projects[i], registry, digest, behaves) && Scheduled(Found(calls[..i], calls[i]), calls[i])
  }

  ghost predicate OwnRulesAlways<P(!new)>(registry: seq<Validator>, behaves: (Validator, P) -> Outcome) {
    forall v, p :: v in registry && behaves(v, p).Returned? ==> RulesOf(behaves(v, p).findings, v)
  }

  /** A cacheable validator that is clean on one project is clean on every project with the same
      digest. */
  ghost predicate CleanCarries<P(!new)>(registry: seq<Validator>,
      digest: (Validator, P) -> string, behaves: (Validator, P) -> Outcome) {
    forall v, p, q ::
      v in registry && IsCacheable(v.id) && digest(v, p) == digest(v, q) && behaves(v, p) == Returned([]) ==>
        behaves(v, q) == Returned([])
  }

  lemma StopsAreWellBehaved<P(!new)>(calls: seq<StopCall>, projects: seq<P>, registry: seq<Validator>,
      digest: (Validator, P) -> string, behaves: (Validator, P) -> Outcome)
    requires UniquePrefixes(registry) && OwnRulesAlways(registry, behaves) && CleanCarries(registry, digest, behaves)
    requires StopsOn(calls, projects, registry, digest, behaves)
    ensures WellBehaved(calls)
  {
    hide Scheduled, Found, VidPrefix, IsCacheable, UniquePrefixes, RulesOf;
    forall i | 0 <= i < |calls| ensures OwnRules(calls[i]) {
      assert StopOn(calls[i], projects[i], registry, digest, behaves);
    }
    forall i, j, v, w | 0 <= i < |calls| && 0 <= j < |calls| && v in calls[i].active && w in calls[j].active
      ensures Consistent(calls[i], calls[j], v, w)
    {
      assert StopOn(calls[i], projects[i], registry, digest, behaves);
      assert StopOn(calls[j], projects[j], registry, digest, behaves);
      if VidPrefix(v.id) == VidPrefix(w.id) { SamePrefixSame(registry, v, w); }
    }
  }

  /** For validators with unique prefixes that report under them: no history of Stop calls on any
      projects loses a finding if and only if equal digests carry a clean result over. */
  lemma NeverLosesIffCleanCarries<P(!new)>(registry: seq<Validator>,
      digest: (Validator, P) -> string, behaves: (Validator, P) -> Outcome)
    requires UniquePrefixes(registry) && OwnRulesAlways(registry, behaves)
    ensures (forall calls, projects: seq<P>, n: nat ::
               StopsOn(calls, projects, registry, digest, behaves) && n < |calls| ==> LosesNothing(calls, n))
      <==> CleanCarries(registry, digest, behaves)
  {
    hide StopsOn, LosesNothing, UniquePrefixes, IsCacheable;
    if CleanCarries(registry, digest, behaves) {
      forall calls, projects: seq<P>, n: nat | StopsOn(calls, projects, registry, digest, behaves) && n < |calls|
        ensures LosesNothing(calls, n)
      {
        StopsAreWellBehaved(calls, projects, registry, digest, behaves);
        CachedStopFindsTheSame(calls, n);
      }
    } else {
      var v, p, q :| v in registry && IsCacheable(v.id) && digest(v, p) == digest(v, q)
                     && behaves(v, p) == Returned([]) && behaves(v, q) != Returned([]);
      TwoStopsLose(v, p, q, registry, digest, behaves);
      var calls := TwoStops(v, digest(v, p), behaves(v, q));
      assert StopsOn(calls, [p, q], registry, digest, behaves) && !LosesNothing(calls, 1);
    }
  }

  /** One clean result that does not carry over is lost within two calls. */
  lemma TwoStopsLose<P(!new)>(v: Validator, p: P, q: P, registry: seq<Validator>,
      digest: (Validator, P) -> string, behaves: (Validator, P) -> Outcome)
    requires v in registry && IsCacheable(v.id) && digest(v, p) == digest(v, q)
    requires behaves(v, p) == Returned([]) && behaves(v, q) != Returned([])
    ensures var calls := TwoStops(v, digest(v, p), behaves(v, q));
      StopsOn(calls, [p, q], registry, digest, behaves) && !LosesNothing(calls, 1)
  {
    hide Scheduled, Found, IsCacheable, RawFindings, Skips, Report;
    var calls := TwoStops(v, digest(v, p), behaves(v, q));
    SecondStopSkips(v, digest(v, p), behaves(v, q));
    assert calls[..0] == [] && calls[..1] == [calls[0]];
    NothingLostIffSkippedEmpty(Found([calls[0]], calls[1]), calls[1]);
    assert v in calls[1].active;
  }

  // ---- exclusion and decision -----------------------------------------------------------------

  /** `exclude.paths` and `exclude.per_validator`, with their glob tests as functions. */
  datatype Exclusion = Exclusion(
    hasPaths: bool, excluded: string -> bool,
    hasPerValidator: bool, excludedFor: (string, string) -> bool)

  predicate KeepsFinding(x: Exclusion, f: Finding) {
    || f.kind == "sentinel"
    || f.file == ""
    || (!(x.hasPaths && x.excluded(f.file))
        && !(x.hasPerValidator && VidPrefix(f.rule) != "" && x.excludedFor(f.file, VidPrefix(f.rule))))
  }

  function Keeps(x: Exclusion): Finding -> bool { f => KeepsFinding(x, f) }

  method ApplyExcludeFilters(findings: seq<Finding>, x: Exclusion) returns (out: seq<Finding>)
    ensures out == Filter(findings, Keeps(x))
    ensures forall f | f in findings :: f in out <==>
      || f.kind == "sentinel" || f.file == ""
      || ((x.hasPaths ==> !x.excluded(f.file))
          && (x.hasPerValidator && f.rule != "" && f.rule[0] != '-' ==> !x.excludedFor(f.file, VidPrefix(f.rule))))
    ensures forall f :: f in out ==> f in findings
  {
    forall f ensures f in Filter(findings, Keeps(x)) <==> f in findings && KeepsFinding(x, f) {
      FilterMember(findings, Keeps(x), f);
    }
    if !x.hasPaths && !x.hasPerValidator {
      FilterAll(findings, Keeps(x));
      return findings;
    }
    out := [];
    for n := 0 to |findings|
      invariant out == Filter(findings[..n], Keeps(x))
    {
      var f := findings[n];
      assert findings[..n + 1] == findings[..n] + [f];
      FilterConcat(findings[..n], [f], Keeps(x));
      assert Filter([f][1..], Keeps(x)) == [];
      if f.kind == "sentinel" {
        out := out + [f];
        continue;
      }
      if f.file == "" {
        out := out + [f];
        continue;
      }
      if x.hasPaths && x.excluded(f.file) { continue; }
      if x.hasPerValidator {
        var prefix := VidPrefix(f.rule);
        if prefix != "" && x.excludedFor(f.file, prefix) { continue; }
      }
      out := out + [f];
    }
    assert findings[..|findings|] == findings;
  }

  lemma {:induction false} FilterUniquePrefixes(validators: seq<Validator>, keep: Validator -> bool)
    requires UniquePrefixes(validators)
    ensures UniquePrefixes(Filter(validators, keep))
  {
    hide VidPrefix;
    if validators == [] {
    } else {
      var rest, kept := validators[1..], Filter(validators[1..], keep);
      FilterUniquePrefixes(rest, keep);
      forall j | 0 <= j < |kept| ensures VidPrefix(kept[j].id) != VidPrefix(validators[0].id) {
        FilterMember(rest, keep, kept[j]);
        var k :| 0 <= k < |rest| && rest[k] == kept[j];
        assert validators[k + 1] == kept[j];
      }
    }
  }

  lemma TasksAreApart(call: StopCall, validators: seq<Validator>)
    requires OwnRules(call) && UniquePrefixes(validators) && forall v :: v in validators ==> v in call.active
    ensures TasksApart(Tasks(call, validators), call.root)
  {
    hide VidPrefix, OwnRules, ResultOf;
    var tasks := Tasks(call, validators);
    TasksLength(call, validators);
    forall i, f | 0 <= i < |tasks| && f in ResultOf(tasks[i], call.root)
      ensures VidPrefix(f.rule) == VidPrefix(validators[i].id)
    {
      var k :| 0 <= k < |ResultOf(tasks[i], call.root)| && ResultOf(tasks[i], call.root)[k] == f;
      ResultUnderPrefix(call, validators[i], k);
    }
    forall i, j | 0 <= i < |tasks| && 0 <= j < |tasks| && i != j
      ensures Apart(ResultOf(tasks[i], call.root), ResultOf(tasks[j], call.root))
    {
      assert VidPrefix(validators[i].id) != VidPrefix(validators[j].id);
    }
  }

  /** Some validator's own kept results block. */
  ghost predicate SomeBlocks(call: StopCall, validators: seq<Validator>, keep: Finding -> bool) {
    exists v :: v in validators && Blocks(Filter(ResultOf(Task(v, call.outcome(v)), call.root), keep))
  }

  lemma SomeTaskIsSomeValidator(call: StopCall, validators: seq<Validator>, keep: Finding -> bool)
    ensures SomeBlocks(call, validators, keep) <==> exists i ::
      0 <= i < |Tasks(call, validators)| && Blocks(Filter(ResultOf(Tasks(call, validators)[i], call.root), keep))
  {
    hide Blocks, Filter, ResultOf, Tasks;
    TasksLength(call, validators);
    var tasks := Tasks(call, validators);
    if v :| v in validators && Blocks(Filter(ResultOf(Task(v, call.outcome(v)), call.root), keep)) {
      var i :| 0 <= i < |validators| && validators[i] == v;
      assert tasks[i] == Task(v, call.outcome(v));
    }
  }

  lemma RawBlocks(passes: Files, call: StopCall, keep: Finding -> bool)
    requires UniquePrefixes(call.active) && OwnRules(call) && Scheduled(passes, call)
    ensures Blocks(Filter(RawFindings(passes, call), keep)) <==> SomeBlocks(call, Runnable(passes, call), keep)
    ensures Blocks(Filter(Report(call, call.active), keep)) <==> SomeBlocks(call, call.active, keep)
  {
    hide Blocks, Filter, ResultOf, Gathered, Sequential, Misses, UniquePrefixes, OwnRules;
    hide Tasks, SomeBlocks, TasksApart;
    var ran := Runnable(passes, call);
    FilterUniquePrefixes(call.active, Misses(passes, call));
    forall v | v in ran ensures v in call.active { FilterMember(call.active, Misses(passes, call), v); }
    TasksAreApart(call, ran);
    TasksAreApart(call, call.active);
    CompletionBlocks(Tasks(call, ran), call.order, call.root, keep);
    SequentialBlocks(Tasks(call, ran), call.root, keep);
    SequentialBlocks(Tasks(call, call.active), call.root, keep);
    SomeTaskIsSomeValidator(call, ran, keep);
    SomeTaskIsSomeValidator(call, call.active, keep);
  }

  /** End to end: over every sequence of Stop calls, the cached, parallel, filtered Stop blocks
      exactly when running every active validator in sequence would. */
  lemma CachedStopDecidesTheSame(calls: seq<StopCall>, n: nat, x: Exclusion)
    requires WellBehaved(calls) && n < |calls|
    ensures Blocks(Filter(RawFindings(Found(calls[..n], calls[n]), calls[n]), Keeps(x)))
      == Blocks(Filter(Report(calls[n], calls[n].active), Keeps(x)))
  {
    hide Blocks, RawFindings, Report, Skips, ResultOf, Found, UniquePrefixes, OwnRules, Scheduled, Keeps, Consistent;
    var passes, call := Found(calls[..n], calls[n]), calls[n];
    RawBlocks(passes, call, Keeps(x));
    NothingBlocks(Keeps(x));
    forall v ensures v in Runnable(passes, call) <==> v in call.active && !Skips(passes, call, v) {
      FilterMember(call.active, Misses(passes, call), v);
    }
    forall v | v in call.active && Skips(passes, call, v)
      ensures ResultOf(Task(v, call.outcome(v)), call.root) == []
    {
      SkippedWouldBeEmpty(calls, n, v);
    }
  }
}
