/** lib/parallel_runner.py: one worker per validator, findings collected in completion order. */
module ParallelRunner {
  import opened Findings
  import opened Options
  import opened Registry
  import opened Selection

  /** How `validator.run` ends. */
  datatype Outcome = Returned(findings: seq<Finding>) | Crashed(error: string)

  datatype Task = Task(validator: Validator, outcome: Outcome)

  const CRASH_FIX := "Check logs/_errors.jsonl for the traceback. "
    + "Set VERIFIERS_PARALLEL=0 to rule out a parallelization issue."

  function CrashFinding(id: string, projectRoot: string, error: string): Finding {
    Finding("warning", projectRoot, VidPrefix(id) + "-CRASHED",
            "Validator " + id + " crashed: " + error, CRASH_FIX, None, "sentinel")
  }

  /** `_run_one_validator` */
  function ResultOf(t: Task, root: string): seq<Finding> {
    match t.outcome
    case Returned(findings) => findings
    case Crashed(error) => [CrashFinding(t.validator.id, root, error)]
  }

  function Sequential(tasks: seq<Task>, root: string): seq<Finding> {
    if tasks == [] then [] else ResultOf(tasks[0], root) + Sequential(tasks[1..], root)
  }

  /** A worker that dies leaves a warning, not an error, under its validator's prefix and on the
      project root, marked as a sentinel, that names the validator and the exception. */
  predicate ReportsCrash(f: Finding, id: string, root: string, error: string) {
    && f.severity == "warning" && f.kind == "sentinel" && f.file == root && f.line == None
    && f.rule == VidPrefix(id) + "-CRASHED"
    && f.message == "Validator " + id + " crashed: " + error && f.fix == CRASH_FIX
  }

  predicate ComesFrom(f: Finding, t: Task, root: string) {
    match t.outcome
    case Returned(findings) => f in findings
    case Crashed(error) => ReportsCrash(f, t.validator.id, root, error)
  }

  lemma {:induction false} SequentialContains(tasks: seq<Task>, root: string, k: nat)
    requires k < |tasks|
    ensures multiset(ResultOf(tasks[k], root)) <= multiset(Sequential(tasks, root))
  {
    hide ResultOf;
    if k == 0 {
    } else {
      SequentialContains(tasks[1..], root, k - 1);
    }
    assert Sequential(tasks, root) == ResultOf(tasks[0], root) + Sequential(tasks[1..], root);
  }

  lemma {:induction false} SequentialSource(tasks: seq<Task>, root: string, f: Finding)
    requires f in Sequential(tasks, root)
    ensures exists i :: 0 <= i < |tasks| && ComesFrom(f, tasks[i], root)
  {
    hide ComesFrom;
    if f in ResultOf(tasks[0], root) {
      OwnResult(f, tasks[0], root);
    } else {
      SequentialSource(tasks[1..], root, f);
      var i :| 0 <= i < |tasks[1..]| && ComesFrom(f, tasks[1..][i], root);
      assert ComesFrom(f, tasks[i + 1], root);
    }
  }

  lemma OwnResult(f: Finding, t: Task, root: string)
    ensures f in ResultOf(t, root) <==> f in ResultOf(t, root) && ComesFrom(f, t, root)
  {
  }

  /** The sequential findings: what every worker returned, a report of every crash, nothing else. */
  lemma SequentialIs(tasks: seq<Task>, root: string)
    ensures forall i :: 0 <= i < |tasks| && tasks[i].outcome.Returned? ==>
      multiset(tasks[i].outcome.findings) <= multiset(Sequential(tasks, root))
    ensures forall i :: 0 <= i < |tasks| && tasks[i].outcome.Crashed? ==>
      exists f :: f in Sequential(tasks, root) && ReportsCrash(f, tasks[i].validator.id, root, tasks[i].outcome.error)
    ensures forall f :: f in Sequential(tasks, root) ==> exists i :: 0 <= i < |tasks| && ComesFrom(f, tasks[i], root)
  {
    hide Sequential;
    var all := Sequential(tasks, root);
    forall i | 0 <= i < |tasks| && tasks[i].outcome.Returned?
      ensures multiset(tasks[i].outcome.findings) <= multiset(all)
    {
      SequentialContains(tasks, root, i);
    }
    forall i | 0 <= i < |tasks| && tasks[i].outcome.Crashed?
      ensures exists f :: f in all && ReportsCrash(f, tasks[i].validator.id, root, tasks[i].outcome.error)
    {
      SequentialContains(tasks, root, i);
      var f := CrashFinding(tasks[i].validator.id, root, tasks[i].outcome.error);
      assert ResultOf(tasks[i], root) == [f];
      assert f in multiset(ResultOf(tasks[i], root));
      assert f in multiset(all);
      assert ReportsCrash(f, tasks[i].validator.id, root, tasks[i].outcome.error);
    }
    forall f | f in all ensures exists i :: 0 <= i < |tasks| && ComesFrom(f, tasks[i], root) {
      SequentialSource(tasks, root, f);
    }
  }

  lemma SamePermutation(a: seq<Finding>, b: seq<Finding>)
    requires multiset(a) == multiset(b)
    ensures forall f :: f in a <==> f in b
  {
    assert forall f :: f in a <==> f in multiset(a);
    assert forall f :: f in b <==> f in multiset(b);
  }

  predicate InRange(order: seq<nat>, n: nat) {
    forall k :: 0 <= k < |order| ==> order[k] < n
  }

  /** The findings when the workers complete in this order. */
  function Gathered(tasks: seq<Task>, order: seq<nat>, root: string): seq<Finding>
    requires InRange(order, |tasks|)
  {
    if order == [] then []
    else
      assert InRange(order[..|order| - 1], |tasks|);
      Gathered(tasks, order[..|order| - 1], root) + ResultOf(tasks[order[|order| - 1]], root)
  }

  function Iota(n: nat): seq<nat> {
    seq(n, i => i)
  }

  /** Every worker completes once. */
  ghost predicate IsCompletionOrder(order: seq<nat>, n: nat) {
    multiset(order) == multiset(Iota(n))
  }

  method RunSequential(tasks: seq<Task>, root: string) returns (findings: seq<Finding>)
    ensures findings == Sequential(tasks, root)
  {
    findings := [];
    for n := 0 to |tasks|
      invariant findings + Sequential(tasks[n..], root) == Sequential(tasks, root)
    {
      assert tasks[n..][1..] == tasks[n + 1..];
      findings := findings + ResultOf(tasks[n], root);
    }
    assert Sequential(tasks[|tasks|..], root) == [];
  }

  /** `run_all`: whatever order the workers complete in, the findings are the sequential
      ones, reordered. */
  method RunAll(tasks: seq<Task>, order: seq<nat>, root: string, parallel: bool) returns (findings: seq<Finding>)
    requires IsCompletionOrder(order, |tasks|)
    ensures forall i :: 0 <= i < |tasks| && tasks[i].outcome.Returned? ==>
      multiset(tasks[i].outcome.findings) <= multiset(findings)
    ensures forall i :: 0 <= i < |tasks| && tasks[i].outcome.Crashed? ==>
      exists f :: f in findings && ReportsCrash(f, tasks[i].validator.id, root, tasks[i].outcome.error)
    ensures forall f :: f in findings ==> exists i :: 0 <= i < |tasks| && ComesFrom(f, tasks[i], root)
    ensures multiset(findings) == multiset(Sequential(tasks, root))
    ensures InRange(order, |tasks|)
    ensures findings == if parallel then Gathered(tasks, order, root) else Sequential(tasks, root)
  {
    hide ResultOf, ReportsCrash, ComesFrom;
    OrderInRange(order, |tasks|);
    GatheredIsSequential(tasks, order, root);
    SequentialIs(tasks, root);
    SamePermutation(Gathered(tasks, order, root), Sequential(tasks, root));
    if tasks == [] {
      assert |multiset(order)| == 0;
      assert order == [];
      return [];
    }
    if !parallel {
      findings := RunSequential(tasks, root);
      return;
    }
    findings := [];
    for n := 0 to |order|
      invariant InRange(order[..n], |tasks|)
      invariant findings == Gathered(tasks, order[..n], root)
    {
      assert order[..n + 1][..n] == order[..n];
      findings := findings + ResultOf(tasks[order[n]], root);
    }
    assert order[..|order|] == order;
  }

  // ---- schedule independence ----------------------------------------------------

  lemma OrderInRange(order: seq<nat>, n: nat)
    requires IsCompletionOrder(order, n)
    ensures InRange(order, n)
  {
    forall k | 0 <= k < |order| ensures order[k] < n {
      assert order[k] in multiset(order);
      assert order[k] in Iota(n);
    }
  }

  function WithoutAt(order: seq<nat>, k: nat): seq<nat>
    requires k < |order|
  {
    order[..k] + order[k + 1..]
  }

  lemma WithoutAtMultiset(order: seq<nat>, k: nat)
    requires k < |order|
    ensures multiset(WithoutAt(order, k)) == multiset(order) - multiset{order[k]}
  {
    assert order == order[..k] + [order[k]] + order[k + 1..];
  }

  lemma WithoutAtInit(order: seq<nat>, k: nat)
    requires k < |order| - 1
    ensures WithoutAt(order, k) == WithoutAt(order[..|order| - 1], k) + [order[|order| - 1]]
  {
  }

  lemma GatheredSnoc(tasks: seq<Task>, order: seq<nat>, x: nat, root: string)
    requires InRange(order, |tasks|) && x < |tasks|
    ensures InRange(order + [x], |tasks|)
    ensures Gathered(tasks, order + [x], root) == Gathered(tasks, order, root) + ResultOf(tasks[x], root)
  {
  }

  /** Taking one completion out of the order takes its findings out of the multiset. */
  lemma {:induction false} GatheredRemove(tasks: seq<Task>, order: seq<nat>, root: string, k: nat)
    requires InRange(order, |tasks|) && k < |order|
    ensures InRange(WithoutAt(order, k), |tasks|)
    ensures multiset(Gathered(tasks, order, root))
      == multiset(Gathered(tasks, WithoutAt(order, k), root)) + multiset(ResultOf(tasks[order[k]], root))
  {
    hide ResultOf, Gathered;
    var last := |order| - 1;
    assert order == order[..last] + [order[last]];
    GatheredSnoc(tasks, order[..last], order[last], root);
    if k == last {
      assert WithoutAt(order, k) == order[..last];
    } else {
      GatheredRemove(tasks, order[..last], root, k);
      WithoutAtInit(order, k);
      GatheredSnoc(tasks, WithoutAt(order[..last], k), order[last], root);
    }
  }

  lemma {:induction false} GatheredPermuted(tasks: seq<Task>, a: seq<nat>, b: seq<nat>, root: string)
    requires InRange(a, |tasks|) && InRange(b, |tasks|) && multiset(a) == multiset(b)
    ensures multiset(Gathered(tasks, a, root)) == multiset(Gathered(tasks, b, root))
    decreases |a|
  {
    hide ResultOf, Gathered;
    if a == [] {
      assert |multiset(b)| == |b|;
      assert b == [];
    } else {
      var last := |a| - 1;
      var x := a[last];
      assert x in multiset(b);
      var k :| 0 <= k < |b| && b[k] == x;
      GatheredRemove(tasks, a, root, last);
      GatheredRemove(tasks, b, root, k);
      WithoutAtMultiset(a, last);
      WithoutAtMultiset(b, k);
      assert multiset(WithoutAt(a, last)) == multiset(WithoutAt(b, k));
      GatheredPermuted(tasks, WithoutAt(a, last), WithoutAt(b, k), root);
    }
  }

  lemma SequentialSnoc(tasks: seq<Task>, t: Task, root: string)
    ensures Sequential(tasks + [t], root) == Sequential(tasks, root) + ResultOf(t, root)
  {
    if tasks == [] {
      assert Sequential([t][1..], root) == [];
    } else {
      SequentialSnoc(tasks[1..], t, root);
      assert (tasks + [t])[1..] == tasks[1..] + [t];
    }
  }

  lemma {:induction false} InOrderIsSequential(tasks: seq<Task>, root: string, n: nat)
    requires n <= |tasks|
    ensures InRange(Iota(n), |tasks|) && Gathered(tasks, Iota(n), root) == Sequential(tasks[..n], root)
  {
    if n == 0 {
    } else {
      InOrderIsSequential(tasks, root, n - 1);
      SequentialSnoc(tasks[..n - 1], tasks[n - 1], root);
      assert tasks[..n] == tasks[..n - 1] + [tasks[n - 1]];
      assert Iota(n)[..n - 1] == Iota(n - 1);
    }
  }

  /** Any two schedules, crashes included, yield the same multiset of findings. */
  lemma GatheredIsSequential(tasks: seq<Task>, order: seq<nat>, root: string)
    requires IsCompletionOrder(order, |tasks|)
    ensures InRange(order, |tasks|)
    ensures multiset(Gathered(tasks, order, root)) == multiset(Sequential(tasks, root))
  {
    OrderInRange(order, |tasks|);
    InOrderIsSequential(tasks, root, |tasks|);
    GatheredPermuted(tasks, order, Iota(|tasks|), root);
    assert tasks[..|tasks|] == tasks;
  }

  // ---- crashes -----------------------------------------------------------------------

  function IsSentinel(f: Finding): bool { f.kind == "sentinel" }

  function Crashes(tasks: seq<Task>): nat {
    if tasks == [] then 0 else (if tasks[0].outcome.Crashed? then 1 else 0) + Crashes(tasks[1..])
  }

  ghost predicate OrdinaryResults(tasks: seq<Task>) {
    forall i :: 0 <= i < |tasks| && tasks[i].outcome.Returned? ==> Filter(tasks[i].outcome.findings, IsSentinel) == []
  }

  lemma {:induction false} SequentialSentinels(tasks: seq<Task>, root: string)
    requires OrdinaryResults(tasks)
    ensures |Filter(Sequential(tasks, root), IsSentinel)| == Crashes(tasks)
  {
    if tasks == [] {
    } else {
      SequentialSentinels(tasks[1..], root);
      FilterConcat(ResultOf(tasks[0], root), Sequential(tasks[1..], root), IsSentinel);
      if tasks[0].outcome.Crashed? {
        var c := CrashFinding(tasks[0].validator.id, root, tasks[0].outcome.error);
        assert Filter([c][1..], IsSentinel) == [];
        assert Filter([c], IsSentinel) == [c];
      }
    }
  }

  /** Validators that emit no sentinels of their own: in any completion order there is exactly
      one sentinel per crashed worker. */
  lemma OneSentinelPerCrash(tasks: seq<Task>, order: seq<nat>, root: string)
    requires IsCompletionOrder(order, |tasks|) && OrdinaryResults(tasks)
    ensures InRange(order, |tasks|)
    ensures |Filter(Gathered(tasks, order, root), IsSentinel)| == Crashes(tasks)
  {
    GatheredIsSequential(tasks, order, root);
    SequentialSentinels(tasks, root);
    FilterPermuted(Gathered(tasks, order, root), Sequential(tasks, root), IsSentinel);
  }

  /** No worker's findings are lost. */
  lemma NothingLost(tasks: seq<Task>, order: seq<nat>, root: string, i: nat)
    requires IsCompletionOrder(order, |tasks|) && i < |tasks|
    ensures InRange(order, |tasks|)
    ensures multiset(ResultOf(tasks[i], root)) <= multiset(Gathered(tasks, order, root))
  {
    OrderInRange(order, |tasks|);
    assert Iota(|tasks|)[i] == i;
    assert i in multiset(order);
    var k :| 0 <= k < |order| && order[k] == i;
    GatheredRemove(tasks, order, root, k);
  }

  // ---- the pool ------------------------------------------------------------------------

  /** The executor: queued tasks in submission order, running ones, and completions so far. */
  datatype Pool = Pool(queued: seq<nat>, running: set<nat>, finished: seq<nat>)

  datatype Step = Launch | Complete(task: nat)

  predicate Enabled(p: Pool, workers: nat, s: Step) {
    match s
    case Launch => p.queued != [] && |p.running| < workers
    case Complete(t) => t in p.running
  }

  function Next(p: Pool, workers: nat, s: Step): Pool
    requires Enabled(p, workers, s)
  {
    match s
    case Launch => Pool(p.queued[1..], p.running + {p.queued[0]}, p.finished)
    case Complete(t) => Pool(p.queued, p.running - {t}, p.finished + [t])
  }

  /** The pool after these steps, none when one of them was not possible. */
  function After(n: nat, workers: nat, steps: seq<Step>): Option<Pool> {
    if steps == [] then Some(Pool(Iota(n), {}, []))
    else
      match After(n, workers, steps[..|steps| - 1])
      case None => None
      case Some(q) =>
        if Enabled(q, workers, steps[|steps| - 1]) then Some(Next(q, workers, steps[|steps| - 1])) else None
  }

  ghost predicate PoolInv(p: Pool, n: nat, workers: nat) {
    && multiset(p.queued) + multiset(p.running) + multiset(p.finished) == multiset(Iota(n))
    && |p.running| <= workers
  }

  lemma IotaDistinct(n: nat, x: nat)
    ensures multiset(Iota(n))[x] <= 1
  {
    if n == 0 {
    } else {
      IotaDistinct(n - 1, x);
      assert Iota(n) == Iota(n - 1) + [n - 1];
      assert (n - 1) !in Iota(n - 1);
    }
  }

  lemma QueuedIsNotRunning(p: Pool, n: nat, workers: nat)
    requires PoolInv(p, n, workers) && p.queued != []
    ensures p.queued[0] !in p.running
  {
    var x := p.queued[0];
    IotaDistinct(n, x);
    assert x in multiset(p.queued);
    assert multiset(p.running)[x] == 0;
  }

  /** Tasks are conserved and the worker bound holds in every reachable pool state. */
  lemma {:induction false} RunKeepsPool(n: nat, workers: nat, steps: seq<Step>)
    requires After(n, workers, steps).Some?
    ensures PoolInv(After(n, workers, steps).value, n, workers)
  {
    if steps == [] {
    } else {
      var s, init := steps[|steps| - 1], steps[..|steps| - 1];
      RunKeepsPool(n, workers, init);
      StepKeepsPool(After(n, workers, init).value, n, workers, s);
    }
  }

  lemma StepKeepsPool(q: Pool, n: nat, workers: nat, s: Step)
    requires PoolInv(q, n, workers) && Enabled(q, workers, s)
    ensures PoolInv(Next(q, workers, s), n, workers)
    ensures |Next(q, workers, s).running| + 2 * |Next(q, workers, s).queued| == |q.running| + 2 * |q.queued| - 1
  {
    if s.Launch? {
      QueuedIsNotRunning(q, n, workers);
      assert q.queued == [q.queued[0]] + q.queued[1..];
    }
  }

  /** A drained pool has completed every task exactly once ... */
  lemma DrainedIsComplete(n: nat, workers: nat, steps: seq<Step>)
    requires After(n, workers, steps).Some?
    requires var p := After(n, workers, steps).value; p.queued == [] && p.running == {}
    ensures IsCompletionOrder(After(n, workers, steps).value.finished, n)
  {
    RunKeepsPool(n, workers, steps);
  }

  /** ... a pool with at least one worker is never stuck before that ... */
  lemma NeverStuck(p: Pool, workers: nat)
    requires workers > 0 && (p.queued != [] || p.running != {})
    ensures exists s :: Enabled(p, workers, s)
  {
    if p.running != {} {
      var t :| t in p.running;
      assert Enabled(p, workers, Complete(t));
    } else {
      assert Enabled(p, workers, Launch);
    }
  }

  /** ... and gets there after exactly two steps per task. */
  lemma {:induction false} RunLength(n: nat, workers: nat, steps: seq<Step>)
    requires After(n, workers, steps).Some?
    ensures var p := After(n, workers, steps).value; |steps| + 2 * |p.queued| + |p.running| == 2 * n
  {
    if steps == [] {
    } else {
      var init := steps[..|steps| - 1];
      RunLength(n, workers, init);
      RunKeepsPool(n, workers, init);
      StepKeepsPool(After(n, workers, init).value, n, workers, steps[|steps| - 1]);
    }
  }

  /** Safety of the whole run: any drained pool, any interleaving, any worker count, reports
      the sequential findings. */
  lemma EveryScheduleAgrees(tasks: seq<Task>, workers: nat, steps: seq<Step>, root: string)
    requires After(|tasks|, workers, steps).Some?
    requires var p := After(|tasks|, workers, steps).value; p.queued == [] && p.running == {}
    ensures var order := After(|tasks|, workers, steps).value.finished;
      InRange(order, |tasks|) && multiset(Gathered(tasks, order, root)) == multiset(Sequential(tasks, root))
  {
    DrainedIsComplete(|tasks|, workers, steps);
    GatheredIsSequential(tasks, After(|tasks|, workers, steps).value.finished, root);
  }
}
