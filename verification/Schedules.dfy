/** The decision over every schedule of lib/parallel_runner.py: which registries make
    hooks/validators/base.py approve or block whatever order the workers complete in. */
module Schedules {
  import opened Findings
  import opened HookOutput
  import opened Options
  import opened ParallelRunner
  import opened Registry
  import opened Selection
  import opened Sorting

  // ---- results that share no identity --------------------------------------------------

  ghost predicate Apart(a: seq<Finding>, b: seq<Finding>) {
    forall f, h :: f in a && h in b ==> IdentityOf(f) != IdentityOf(h)
  }

  ghost predicate TasksApart(tasks: seq<Task>, root: string) {
    forall i, j :: 0 <= i < |tasks| && 0 <= j < |tasks| && i != j ==>
      Apart(ResultOf(tasks[i], root), ResultOf(tasks[j], root))
  }

  lemma FirstOfConcat(a: seq<Finding>, b: seq<Finding>, i: int)
    requires Apart(a, b)
    ensures i < |a| ==> (IsFirst(a + b, i) <==> IsFirst(a, i))
    ensures i >= |a| ==> (IsFirst(a + b, i) <==> IsFirst(b, i - |a|))
  {
    var c := a + b;
    assert forall j :: 0 <= j < |a| ==> c[j] == a[j];
    assert forall j :: 0 <= j < |b| ==> c[|a| + j] == b[j];
    if i >= |a| && IsFirst(b, i - |a|) {
      forall j | 0 <= j < i ensures IdentityOf(c[j]) != IdentityOf(c[i]) {
        if j >= |a| { assert IdentityOf(b[j - |a|]) != IdentityOf(b[i - |a|]); }
      }
    }
    if i >= |a| && IsFirst(c, i) {
      forall j | 0 <= j < i - |a| ensures IdentityOf(b[j]) != IdentityOf(b[i - |a|]) {
        assert IdentityOf(c[|a| + j]) != IdentityOf(c[i]);
      }
    }
  }

  /** Lists that share no identity block when either does. */
  lemma BlocksConcat(a: seq<Finding>, b: seq<Finding>)
    requires Apart(a, b)
    ensures Blocks(a + b) <==> Blocks(a) || Blocks(b)
  {
    hide Blocks, Apart, IsFirst;
    var c := a + b;
    BlocksIffFirstError(a);
    BlocksIffFirstError(b);
    BlocksIffFirstError(c);
    forall i ensures i < |a| ==> (IsFirst(c, i) <==> IsFirst(a, i))
             ensures i >= |a| ==> (IsFirst(c, i) <==> IsFirst(b, i - |a|))
    {
      FirstOfConcat(a, b, i);
    }
    FirstInRange();
    if i :| IsFirst(a, i) && IsError(a[i]) { assert IsFirst(c, i) && c[i] == a[i]; }
    if i :| IsFirst(b, i) && IsError(b[i]) { assert IsFirst(c, |a| + i) && c[|a| + i] == b[i]; }
    if i :| IsFirst(c, i) && IsError(c[i]) {
      assert i < |a| ==> IsFirst(a, i) && a[i] == c[i];
      assert i >= |a| ==> IsFirst(b, i - |a|) && b[i - |a|] == c[i];
    }
  }

  lemma FirstInRange()
    ensures forall s, i :: IsFirst(s, i) ==> 0 <= i < |s|
  {
  }

  // ---- the decision does not depend on the schedule --------------------------------------

  lemma {:induction false} GatheredMember(tasks: seq<Task>, order: seq<nat>, root: string, f: Finding)
    requires InRange(order, |tasks|)
    ensures f in Gathered(tasks, order, root) <==>
      exists k :: 0 <= k < |order| && f in ResultOf(tasks[order[k]], root)
  {
    hide ResultOf;
    if order == [] {
    } else {
      var last := |order| - 1;
      GatheredMember(tasks, order[..last], root, f);
      assert forall k :: 0 <= k < last ==> order[..last][k] == order[k];
      if k :| 0 <= k < |order| && f in ResultOf(tasks[order[k]], root) {
        if k < last { assert f in ResultOf(tasks[order[..last][k]], root); }
      }
    }
  }

  /** The results kept by a filter block exactly when some worker's own kept results do. */
  ghost predicate SomeTaskBlocks(tasks: seq<Task>, order: seq<nat>, root: string, keep: Finding -> bool)
    requires InRange(order, |tasks|)
  {
    exists k :: 0 <= k < |order| && Blocks(Filter(ResultOf(tasks[order[k]], root), keep))
  }

  lemma {:induction false} GatheredBlocks(tasks: seq<Task>, order: seq<nat>, root: string, keep: Finding -> bool)
    requires InRange(order, |tasks|) && Distinct(order) && TasksApart(tasks, root)
    ensures Blocks(Filter(Gathered(tasks, order, root), keep)) <==> SomeTaskBlocks(tasks, order, root, keep)
  {
    hide ResultOf, Blocks, IdentityOf;
    if order == [] {
      NothingBlocks(keep);
    } else {
      var last := |order| - 1;
      var init, x := order[..last], order[last];
      assert order == init + [x];
      GatheredSnoc(tasks, init, x, root);
      GatheredBlocks(tasks, init, root, keep);
      var before, result := Gathered(tasks, init, root), ResultOf(tasks[x], root);
      FilterConcat(before, result, keep);
      forall f, h | f in Filter(before, keep) && h in Filter(result, keep) ensures IdentityOf(f) != IdentityOf(h) {
        FilterMember(before, keep, f);
        FilterMember(result, keep, h);
        GatheredMember(tasks, init, root, f);
        var k :| 0 <= k < |init| && f in ResultOf(tasks[init[k]], root);
        assert order[k] != order[last];
        assert Apart(ResultOf(tasks[init[k]], root), result);
      }
      BlocksConcat(Filter(before, keep), Filter(result, keep));
      SomeTaskSnoc(tasks, init, x, root, keep);
    }
  }

  lemma NothingBlocks(keep: Finding -> bool)
    ensures !Blocks(Filter([], keep))
  {
  }

  lemma SomeTaskSnoc(tasks: seq<Task>, order: seq<nat>, x: nat, root: string, keep: Finding -> bool)
    requires InRange(order, |tasks|) && x < |tasks|
    ensures InRange(order + [x], |tasks|)
    ensures SomeTaskBlocks(tasks, order + [x], root, keep)
      <==> SomeTaskBlocks(tasks, order, root, keep) || Blocks(Filter(ResultOf(tasks[x], root), keep))
  {
    hide ResultOf, Blocks;
    var all := order + [x];
    assert all[|order|] == x;
    assert forall k :: 0 <= k < |order| ==> all[k] == order[k];
    if k :| 0 <= k < |order| && Blocks(Filter(ResultOf(tasks[order[k]], root), keep)) {
      assert Blocks(Filter(ResultOf(tasks[all[k]], root), keep));
    }
  }

  lemma CompletionDistinct(order: seq<nat>, n: nat)
    requires IsCompletionOrder(order, n)
    ensures Distinct(order) && forall i: nat :: i in order <==> i < n
  {
    forall i: nat ensures i in order <==> i < n {
      assert i in order <==> i in multiset(order);
      assert i in Iota(n) <==> i in multiset(Iota(n));
      assert i < n ==> Iota(n)[i] == i;
    }
    forall x ensures multiset(order)[x] <= 1 {
      if x in multiset(order) { IotaDistinct(n, x); }
    }
    DistinctIffCounted(order);
  }

  /** Workers that share no identity: in every completion order the findings kept by a filter
      block exactly when some worker's own kept findings block. */
  lemma CompletionBlocks(tasks: seq<Task>, order: seq<nat>, root: string, keep: Finding -> bool)
    requires IsCompletionOrder(order, |tasks|) && TasksApart(tasks, root)
    ensures InRange(order, |tasks|)
    ensures Blocks(Filter(Gathered(tasks, order, root), keep))
      <==> exists i :: 0 <= i < |tasks| && Blocks(Filter(ResultOf(tasks[i], root), keep))
  {
    hide Blocks, Filter, ResultOf, Gathered;
    OrderInRange(order, |tasks|);
    CompletionDistinct(order, |tasks|);
    GatheredBlocks(tasks, order, root, keep);
    if i :| 0 <= i < |tasks| && Blocks(Filter(ResultOf(tasks[i], root), keep)) {
      assert (i as nat) in order;
      var k :| 0 <= k < |order| && order[k] == i;
      assert Blocks(Filter(ResultOf(tasks[order[k]], root), keep));
    }
  }

  lemma SequentialBlocks(tasks: seq<Task>, root: string, keep: Finding -> bool)
    requires TasksApart(tasks, root)
    ensures Blocks(Filter(Sequential(tasks, root), keep))
      <==> exists i :: 0 <= i < |tasks| && Blocks(Filter(ResultOf(tasks[i], root), keep))
  {
    hide Blocks, Filter, ResultOf, Gathered;
    CompletionBlocks(tasks, Iota(|tasks|), root, keep);
    InOrderIsSequential(tasks, root, |tasks|);
    assert tasks[..|tasks|] == tasks;
  }

  /** When no two workers share an identity, every schedule decides like the sequential run,
      whatever the severities and whatever is filtered out in between. */
  lemma DecisionIsScheduleFree(tasks: seq<Task>, order: seq<nat>, root: string, keep: Finding -> bool)
    requires IsCompletionOrder(order, |tasks|) && TasksApart(tasks, root)
    ensures InRange(order, |tasks|)
    ensures Blocks(Filter(Gathered(tasks, order, root), keep)) == Blocks(Filter(Sequential(tasks, root), keep))
    ensures Blocks(Gathered(tasks, order, root)) == Blocks(Sequential(tasks, root))
  {
    hide Blocks, Filter, ResultOf, Gathered, Sequential;
    CompletionBlocks(tasks, order, root, keep);
    SequentialBlocks(tasks, root, keep);
    CompletionBlocks(tasks, order, root, _ => true);
    SequentialBlocks(tasks, root, _ => true);
    FilterAll(Gathered(tasks, order, root), _ => true);
    FilterAll(Sequential(tasks, root), _ => true);
  }

  // ---- and otherwise it does ---------------------------------------------------------------

  lemma {:induction false} GatheredCons(tasks: seq<Task>, k: nat, order: seq<nat>, root: string)
    requires InRange(order, |tasks|) && k < |tasks|
    ensures InRange([k] + order, |tasks|)
    ensures Gathered(tasks, [k] + order, root) == ResultOf(tasks[k], root) + Gathered(tasks, order, root)
  {
    hide ResultOf, Gathered;
    NothingGathered(tasks, root);
    if order == [] {
      assert [k] + order == [] + [k];
      GatheredSnoc(tasks, [], k, root);
    } else {
      var last := |order| - 1;
      var init, x := order[..last], order[last];
      GatheredCons(tasks, k, init, root);
      GatheredSnoc(tasks, [k] + init, x, root);
      GatheredSnoc(tasks, init, x, root);
      assert [k] + order == ([k] + init) + [x] && order == init + [x];
    }
  }

  lemma NothingGathered(tasks: seq<Task>, root: string)
    ensures Gathered(tasks, [], root) == []
  {
  }

  /** The schedule in which worker `k` completes first and the rest in order. */
  function FirstDone(n: nat, k: nat): seq<nat>
    requires k < n
  {
    [k] + WithoutAt(Iota(n), k)
  }

  lemma FirstDoneCompletes(n: nat, k: nat)
    requires k < n
    ensures IsCompletionOrder(FirstDone(n, k), n)
  {
    WithoutAtMultiset(Iota(n), k);
    assert Iota(n)[k] == k;
    assert k in multiset(Iota(n));
  }

  /** Every completion order decides like the sequential run. */
  ghost predicate DecidesAlike(tasks: seq<Task>, root: string) {
    forall order :: IsCompletionOrder(order, |tasks|) && InRange(order, |tasks|) ==>
      Blocks(Gathered(tasks, order, root)) == Blocks(Sequential(tasks, root))
  }

  /** All findings share one identity: the one that arrives first decides. */
  lemma FirstDecides(findings: seq<Finding>)
    requires findings != [] && forall f :: f in findings ==> IdentityOf(f) == IdentityOf(findings[0])
    ensures Blocks(findings) <==> IsError(findings[0])
  {
    BlocksIffFirstError(findings);
    assert IsFirst(findings, 0);
    forall i | IsFirst(findings, i) ensures i == 0 {
      assert findings[i] in findings;
    }
  }

  /** A worker that reports a warning and another that reports an error of the same identity:
      the decision is that of the one that completes first. */
  lemma OneIdentityTwoDecisions(tasks: seq<Task>, root: string, i: nat, j: nat, warning: Finding, error: Finding)
    requires i < |tasks| && j < |tasks|
    requires tasks[i].outcome == Returned([warning]) && tasks[j].outcome == Returned([error])
    requires forall k :: 0 <= k < |tasks| && k != i && k != j ==> tasks[k].outcome == Returned([])
    requires IdentityOf(warning) == IdentityOf(error) && IsError(error) && !IsError(warning)
    ensures var a, b := FirstDone(|tasks|, i), FirstDone(|tasks|, j);
      && IsCompletionOrder(a, |tasks|) && IsCompletionOrder(b, |tasks|)
      && InRange(a, |tasks|) && InRange(b, |tasks|)
      && !Blocks(Gathered(tasks, a, root)) && Blocks(Gathered(tasks, b, root))
  {
    FirstDoneDecides(tasks, root, i, warning);
    FirstDoneDecides(tasks, root, j, error);
  }

  lemma FirstDoneDecides(tasks: seq<Task>, root: string, k: nat, f: Finding)
    requires k < |tasks| && tasks[k].outcome == Returned([f])
    requires forall i, h :: 0 <= i < |tasks| && h in ResultOf(tasks[i], root) ==> IdentityOf(h) == IdentityOf(f)
    ensures IsCompletionOrder(FirstDone(|tasks|, k), |tasks|) && InRange(FirstDone(|tasks|, k), |tasks|)
    ensures Blocks(Gathered(tasks, FirstDone(|tasks|, k), root)) <==> IsError(f)
  {
    hide Blocks, Gathered, IdentityOf;
    var order := FirstDone(|tasks|, k);
    var all := Gathered(tasks, order, root);
    FirstDoneCompletes(|tasks|, k);
    OrderInRange(order, |tasks|);
    GatheredCons(tasks, k, order[1..], root);
    assert order == [k] + order[1..];
    assert all[0] == f;
    forall h | h in all ensures IdentityOf(h) == IdentityOf(f) {
      GatheredMember(tasks, order, root, h);
    }
    FirstDecides(all);
  }

  // ---- registries -----------------------------------------------------------------------------

  /** The results each worker returned, or the sentinel of its crash, use only its identities. */
  ghost predicate Drawn(tasks: seq<Task>, validators: seq<Validator>, identities: seq<iset<Identity>>, root: string)
    requires |identities| == |validators|
  {
    && |tasks| == |validators|
    && forall i :: 0 <= i < |tasks| ==> tasks[i].validator == validators[i] && Uses(tasks[i], identities[i], root)
  }

  ghost predicate Uses(t: Task, identities: iset<Identity>, root: string) {
    forall f :: f in ResultOf(t, root) ==> IdentityOf(f) in identities
  }

  ghost predicate PairwiseDisjoint(identities: seq<iset<Identity>>) {
    forall i, j :: 0 <= i < j < |identities| ==> identities[i] !! identities[j]
  }

  function OneFinding(severity: string, id: Identity): Finding {
    Finding(severity, id.file, id.rule, id.message, "", id.line, "finding")
  }

  /** Worker `i` warns and worker `j` errs, on one identity; the others find nothing. */
  function Clash(validators: seq<Validator>, i: nat, j: nat, id: Identity): seq<Task> {
    seq(|validators|, k requires 0 <= k < |validators| =>
      Task(validators[k], Returned(
        if k == i then [OneFinding("warning", id)] else if k == j then [OneFinding("error", id)] else [])))
  }

  lemma ClashDecidesTwice(validators: seq<Validator>, root: string, i: nat, j: nat, id: Identity)
    requires i < j < |validators|
    ensures !DecidesAlike(Clash(validators, i, j, id), root)
  {
    hide Blocks, Gathered, Sequential, FirstDone;
    var tasks := Clash(validators, i, j, id);
    OneIdentityTwoDecisions(tasks, root, i, j, OneFinding("warning", id), OneFinding("error", id));
  }

  /** Every assignment of results decides alike in all schedules if and only if no two workers
      may use the same identity. */
  lemma AlikeIffDisjoint(validators: seq<Validator>, identities: seq<iset<Identity>>, root: string)
    requires |identities| == |validators|
    ensures (forall tasks :: Drawn(tasks, validators, identities, root) ==> DecidesAlike(tasks, root))
      <==> PairwiseDisjoint(identities)
  {
    hide DecidesAlike;
    if PairwiseDisjoint(identities) {
      forall tasks | Drawn(tasks, validators, identities, root) ensures DecidesAlike(tasks, root) {
        DisjointDecideAlike(tasks, validators, identities, root);
      }
    } else {
      var i, j :| 0 <= i < j < |identities| && !(identities[i] !! identities[j]);
      var id :| id in identities[i] && id in identities[j];
      ClashDecidesTwice(validators, root, i, j, id);
      var tasks := Clash(validators, i, j, id);
      assert forall severity :: IdentityOf(OneFinding(severity, id)) == id;
      forall k | 0 <= k < |tasks| ensures Uses(tasks[k], identities[k], root) {
      }
      assert Drawn(tasks, validators, identities, root);
    }
  }

  lemma DisjointDecideAlike(tasks: seq<Task>, validators: seq<Validator>, identities: seq<iset<Identity>>, root: string)
    requires |identities| == |validators| && PairwiseDisjoint(identities)
    requires Drawn(tasks, validators, identities, root)
    ensures DecidesAlike(tasks, root)
  {
    hide Blocks, Gathered, Sequential, ResultOf, IdentityOf;
    forall i, j | 0 <= i < |tasks| && 0 <= j < |tasks| && i != j
      ensures Apart(ResultOf(tasks[i], root), ResultOf(tasks[j], root))
    {
      assert Uses(tasks[i], identities[i], root) && Uses(tasks[j], identities[j], root);
      assert if i < j then identities[i] !! identities[j] else identities[j] !! identities[i];
    }
    forall order | IsCompletionOrder(order, |tasks|) && InRange(order, |tasks|)
      ensures Blocks(Gathered(tasks, order, root)) == Blocks(Sequential(tasks, root))
    {
      DecisionIsScheduleFree(tasks, order, root, _ => true);
    }
  }

  /** The identities whose rule carries the validator's prefix, as its crash sentinel does. */
  ghost function OwnIdentities(v: Validator): iset<Identity> {
    iset id: Identity | VidPrefix(id.rule) == VidPrefix(v.id)
  }

  ghost function AllOwn(validators: seq<Validator>): seq<iset<Identity>> {
    seq(|validators|, i requires 0 <= i < |validators| => OwnIdentities(validators[i]))
  }

  lemma CrashIsOwn(v: Validator, root: string, error: string)
    ensures Uses(Task(v, Crashed(error)), OwnIdentities(v), root)
  {
    PrefixHasNoDash(v.id);
    PrefixBeforeDash(VidPrefix(v.id), "CRASHED");
    assert VidPrefix(v.id) + "-" + "CRASHED" == VidPrefix(v.id) + "-CRASHED";
  }

  lemma {:induction false} PrefixOfPrefix(id: string)
    ensures VidPrefix(VidPrefix(id)) == VidPrefix(id)
  {
    if id == "" || id[0] == '-' {
    } else {
      PrefixOfPrefix(id[1..]);
      assert VidPrefix(id)[1..] == VidPrefix(id[1..]);
    }
  }

  /** What the validators return carries their own prefix; they may also crash. */
  ghost predicate OwnReports(tasks: seq<Task>, validators: seq<Validator>) {
    && |tasks| == |validators|
    && forall i :: 0 <= i < |tasks| ==> tasks[i].validator == validators[i] && ReturnsOwn(tasks[i])
  }

  ghost predicate ReturnsOwn(t: Task) {
    t.outcome.Returned? ==> forall f :: f in t.outcome.findings ==> VidPrefix(f.rule) == VidPrefix(t.validator.id)
  }

  /** The sentinel of a crash is the validator's own too. */
  lemma OwnReportsAreDrawn(tasks: seq<Task>, validators: seq<Validator>, root: string)
    ensures OwnReports(tasks, validators) <==> Drawn(tasks, validators, AllOwn(validators), root)
  {
    hide VidPrefix;
    if |tasks| == |validators| {
      forall i | 0 <= i < |tasks| && tasks[i].validator == validators[i]
        ensures ReturnsOwn(tasks[i]) <==> Uses(tasks[i], AllOwn(validators)[i], root)
      {
        match tasks[i].outcome
        case Crashed(error) => CrashIsOwn(validators[i], root, error);
        case Returned(findings) =>
          assert forall f :: f in findings ==>
            (IdentityOf(f) in OwnIdentities(validators[i]) <==> VidPrefix(f.rule) == VidPrefix(validators[i].id));
      }
    }
  }

  /** So, when validators report under their own prefix or crash, the registry's prefix check is
      exactly what makes the decision independent of the schedule. */
  lemma AlikeIffUniquePrefixes(validators: seq<Validator>, root: string)
    ensures (forall tasks :: OwnReports(tasks, validators) ==> DecidesAlike(tasks, root))
      <==> UniquePrefixes(validators)
  {
    hide DecidesAlike, VidPrefix, OwnReports, Drawn;
    var own := AllOwn(validators);
    AlikeIffDisjoint(validators, own, root);
    forall tasks ensures OwnReports(tasks, validators) <==> Drawn(tasks, validators, own, root) {
      OwnReportsAreDrawn(tasks, validators, root);
    }
    forall i, j | 0 <= i < j < |validators|
      ensures own[i] !! own[j] <==> VidPrefix(validators[i].id) != VidPrefix(validators[j].id)
    {
      if VidPrefix(validators[i].id) == VidPrefix(validators[j].id) {
        PrefixOfPrefix(validators[i].id);
        var id := Identity(VidPrefix(validators[i].id), "", None, "");
        assert id in own[i] && id in own[j];
      }
    }
  }
}
