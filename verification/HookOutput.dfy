/** hooks/validators/base.py: deduplication and the approve / block decision. */
module HookOutput {
  import opened Findings
  import opened Options
  import opened Selection
  import opened Sorting

  datatype Decision = Approve | Block

  /** The hook's JSON answer; an absent field is none. */
  datatype Output = Output(decision: Option<Decision>, reason: Option<string>, context: Option<string>)

  /** The fields `_dedup_findings` compares. */
  datatype Identity = Identity(rule: string, file: string, line: Option<int>, message: string)

  function IdentityOf(f: Finding): Identity {
    Identity(f.rule, f.file, f.line, f.message)
  }

  function DedupFrom(findings: seq<Finding>, seen: set<Identity>): seq<Finding> {
    if findings == [] then []
    else if IdentityOf(findings[0]) in seen then DedupFrom(findings[1..], seen)
    else [findings[0]] + DedupFrom(findings[1..], seen + {IdentityOf(findings[0])})
  }

  function Dedup(findings: seq<Finding>): seq<Finding> {
    DedupFrom(findings, {})
  }

  method DedupFindings(findings: seq<Finding>) returns (unique: seq<Finding>)
    ensures unique == Dedup(findings)
  {
    unique := [];
    var seen: set<Identity> := {};
    for n := 0 to |findings|
      invariant unique + DedupFrom(findings[n..], seen) == Dedup(findings)
    {
      assert findings[n..][1..] == findings[n + 1..];
      var key := IdentityOf(findings[n]);
      if key in seen { continue; }
      seen := seen + {key};
      unique := unique + [findings[n]];
    }
    assert DedupFrom(findings[|findings|..], seen) == [];
  }

  function IsError(f: Finding): bool { f.severity == "error" }

  predicate AnyError(findings: seq<Finding>) {
    exists i :: 0 <= i < |findings| && IsError(findings[i])
  }

  /** `format_output`, with the two text renderings as parameters. */
  /** `f` and `h` agree in everything deduplication compares. */
  predicate Duplicates(f: Finding, h: Finding) {
    f.rule == h.rule && f.file == h.file && f.line == h.line && f.message == h.message
  }

  /** The first of its duplicates, and an error. */
  ghost predicate FirstIsError(findings: seq<Finding>, i: int) {
    && 0 <= i < |findings| && findings[i].severity == "error"
    && forall j :: 0 <= j < i ==> !Duplicates(findings[j], findings[i])
  }

  method FormatOutput(
    findings: seq<Finding>, stop: bool, reason: seq<Finding> -> string, context: seq<Finding> -> string)
    returns (output: Output)
    ensures output.decision == Some(Block) <==> exists i :: FirstIsError(findings, i)
    ensures output.decision != Some(Block) ==> output.decision == if stop then Some(Approve) else None
    ensures output.context.None? <==> findings == []
    ensures output.decision == (if Dedup(findings) != [] && AnyError(Dedup(findings)) then Some(Block)
                                else if stop then Some(Approve) else None)
    ensures output.reason == if output.decision == Some(Block) then Some(reason(Dedup(findings))) else None
    ensures output.context == if Dedup(findings) == [] then None else Some(context(Dedup(findings)))
  {
    var unique := DedupFindings(findings);
    FirstErrors(findings);
    if unique == [] {
      return Output(if stop then Some(Approve) else None, None, None);
    }
    var hasErrors := false;
    for n := 0 to |unique|
      invariant hasErrors <==> exists i :: 0 <= i < n && IsError(unique[i])
    {
      if unique[n].severity == "error" { hasErrors := true; }
    }
    if hasErrors {
      return Output(Some(Block), Some(reason(unique)), Some(context(unique)));
    }
    return Output(if stop then Some(Approve) else None, None, Some(context(unique)));
  }

  // ---- what deduplication keeps ---------------------------------------------------

  /** The first finding with its identity. */
  ghost predicate IsFirst(findings: seq<Finding>, i: int) {
    0 <= i < |findings| && forall j :: 0 <= j < i ==> IdentityOf(findings[j]) != IdentityOf(findings[i])
  }

  lemma {:induction false} DedupMembers(findings: seq<Finding>, seen: set<Identity>, f: Finding)
    ensures f in DedupFrom(findings, seen) <==>
      exists i :: IsFirst(findings, i) && findings[i] == f && IdentityOf(f) !in seen
  {
    if findings == [] {
    } else {
      var rest := findings[1..];
      var seen' := if IdentityOf(findings[0]) in seen then seen else seen + {IdentityOf(findings[0])};
      DedupMembers(rest, seen', f);
      if i :| IsFirst(findings, i) && findings[i] == f && IdentityOf(f) !in seen {
        if i > 0 {
          assert IdentityOf(findings[0]) != IdentityOf(findings[i]);
          assert forall j :: 0 <= j < i - 1 ==> rest[j] == findings[j + 1];
          assert IsFirst(rest, i - 1) && rest[i - 1] == f;
        }
      }
      if i :| IsFirst(rest, i) && rest[i] == f && IdentityOf(f) !in seen' {
        forall j | 0 <= j < i + 1 ensures IdentityOf(findings[j]) != IdentityOf(findings[i + 1]) {
          if j > 0 { assert rest[j - 1] == findings[j]; }
        }
        assert IsFirst(findings, i + 1) && findings[i + 1] == f;
      }
      assert IsFirst(findings, 0);
    }
  }

  lemma {:induction false} DedupDistinct(findings: seq<Finding>, seen: set<Identity>)
    ensures forall i, j :: 0 <= i < j < |DedupFrom(findings, seen)| ==>
      IdentityOf(DedupFrom(findings, seen)[i]) != IdentityOf(DedupFrom(findings, seen)[j])
  {
    if findings == [] {
    } else {
      if IdentityOf(findings[0]) in seen {
        DedupDistinct(findings[1..], seen);
      } else {
        var seen' := seen + {IdentityOf(findings[0])};
        var rest := DedupFrom(findings[1..], seen');
        DedupDistinct(findings[1..], seen');
        forall j | 0 <= j < |rest| ensures IdentityOf(rest[j]) != IdentityOf(findings[0]) {
          DedupMembers(findings[1..], seen', rest[j]);
        }
      }
    }
  }

  // ---- reordering single findings -------------------------------------

  predicate Blocks(findings: seq<Finding>) {
    AnyError(Dedup(findings))
  }

  lemma BlocksIffFirstError(findings: seq<Finding>)
    ensures Blocks(findings) <==> exists i :: IsFirst(findings, i) && IsError(findings[i])
  {
    var d := Dedup(findings);
    if AnyError(d) {
      var k :| 0 <= k < |d| && IsError(d[k]);
      DedupMembers(findings, {}, d[k]);
    }
    if i :| IsFirst(findings, i) && IsError(findings[i]) {
      DedupMembers(findings, {}, findings[i]);
      var k :| 0 <= k < |d| && d[k] == findings[i];
    }
  }

  lemma FirstErrors(findings: seq<Finding>)
    ensures Blocks(findings) <==> exists i :: FirstIsError(findings, i)
    ensures Dedup(findings) == [] <==> findings == []
  {
    BlocksIffFirstError(findings);
    forall i ensures FirstIsError(findings, i) <==> IsFirst(findings, i) && IsError(findings[i]) {
    }
    if findings != [] { assert Dedup(findings)[0] == findings[0]; }
  }

  /** The kept findings stand in their old order, each at the place of its first duplicate. */
  lemma {:induction false} DedupKeepsOrder(findings: seq<Finding>, seen: set<Identity>, k: nat, m: nat)
    returns (i: nat, j: nat)
    requires k < m < |DedupFrom(findings, seen)|
    ensures i < j < |findings|
    ensures findings[i] == DedupFrom(findings, seen)[k] && findings[j] == DedupFrom(findings, seen)[m]
  {
    if IdentityOf(findings[0]) in seen {
      i, j := DedupKeepsOrder(findings[1..], seen, k, m);
      i, j := i + 1, j + 1;
    } else {
      var seen' := seen + {IdentityOf(findings[0])};
      var rest := DedupFrom(findings[1..], seen');
      if k > 0 {
        i, j := DedupKeepsOrder(findings[1..], seen', k - 1, m - 1);
        i, j := i + 1, j + 1;
      } else {
        DedupMembers(findings[1..], seen', rest[m - 1]);
        var n :| IsFirst(findings[1..], n) && findings[1..][n] == rest[m - 1];
        i, j := 0, n + 1;
      }
    }
  }

  /** Some identity of an error is shared by errors only. */
  ghost predicate HasPureError(findings: seq<Finding>) {
    exists i :: 0 <= i < |findings| && PureError(findings, findings[i])
  }

  ghost predicate PureError(findings: seq<Finding>, f: Finding) {
    IsError(f) && forall j :: 0 <= j < |findings| && IdentityOf(findings[j]) == IdentityOf(f) ==> IsError(findings[j])
  }

  lemma {:induction false} FirstWithIdentity(findings: seq<Finding>, i: nat) returns (k: nat)
    requires i < |findings|
    ensures k <= i && IsFirst(findings, k) && IdentityOf(findings[k]) == IdentityOf(findings[i])
  {
    if j :| 0 <= j < i && IdentityOf(findings[j]) == IdentityOf(findings[i]) {
      k := FirstWithIdentity(findings, j);
    } else {
      k := i;
    }
  }

  lemma PureErrorBlocks(findings: seq<Finding>)
    requires HasPureError(findings)
    ensures Blocks(findings)
  {
    var i :| 0 <= i < |findings| && PureError(findings, findings[i]);
    var k := FirstWithIdentity(findings, i);
    assert IsError(findings[k]);
    BlocksIffFirstError(findings);
  }

  lemma ReorderedProperties(a: seq<Finding>, b: seq<Finding>)
    requires multiset(a) == multiset(b)
    ensures AnyError(a) ==> AnyError(b)
    ensures HasPureError(a) ==> HasPureError(b)
  {
    forall f ensures f in a <==> f in b {
      assert f in a <==> f in multiset(a);
      assert f in b <==> f in multiset(b);
    }
    if AnyError(a) {
      var i :| 0 <= i < |a| && IsError(a[i]);
      assert a[i] in b;
      var k :| 0 <= k < |b| && b[k] == a[i];
    }
    if HasPureError(a) {
      var i :| 0 <= i < |a| && PureError(a, a[i]);
      assert a[i] in b;
      var k :| 0 <= k < |b| && b[k] == a[i];
      forall j | 0 <= j < |b| && IdentityOf(b[j]) == IdentityOf(a[i]) ensures IsError(b[j]) {
        assert b[j] in a;
        var m :| 0 <= m < |a| && a[m] == b[j];
      }
      assert PureError(b, b[k]);
    }
  }

  function ErrorsFirst(findings: seq<Finding>): seq<Finding> {
    Filter(findings, IsError) + Filter(findings, Not(IsError))
  }

  function ErrorsLast(findings: seq<Finding>): seq<Finding> {
    Filter(findings, Not(IsError)) + Filter(findings, IsError)
  }

  lemma ErrorsFirstBlocks(findings: seq<Finding>)
    requires AnyError(findings)
    ensures Blocks(ErrorsFirst(findings))
  {
    var i :| 0 <= i < |findings| && IsError(findings[i]);
    FilterMember(findings, IsError, findings[i]);
    var errors, all := Filter(findings, IsError), ErrorsFirst(findings);
    FilterMember(findings, IsError, errors[0]);
    assert all[0] == errors[0] && IsFirst(all, 0);
    BlocksIffFirstError(all);
  }

  /** An error that is not pure comes after a lesser finding of its identity. */
  lemma ErrorComesLate(findings: seq<Finding>, f: Finding) returns (k: nat)
    requires !HasPureError(findings) && f in findings && IsError(f)
    ensures k < |Filter(findings, Not(IsError))| && IdentityOf(Filter(findings, Not(IsError))[k]) == IdentityOf(f)
  {
    hide IdentityOf, Filter;
    var m :| 0 <= m < |findings| && findings[m] == f;
    assert !PureError(findings, findings[m]);
    var j :| 0 <= j < |findings| && IdentityOf(findings[j]) == IdentityOf(f) && !IsError(findings[j]);
    FilterMember(findings, Not(IsError), findings[j]);
    k :| 0 <= k < |Filter(findings, Not(IsError))| && Filter(findings, Not(IsError))[k] == findings[j];
  }

  lemma ErrorsLastApproves(findings: seq<Finding>)
    requires !HasPureError(findings)
    ensures !Blocks(ErrorsLast(findings))
  {
    hide IdentityOf, Filter, Blocks, HasPureError;
    var others, errors, all := Filter(findings, Not(IsError)), Filter(findings, IsError), ErrorsLast(findings);
    BlocksIffFirstError(all);
    forall i | 0 <= i < |all| && IsError(all[i]) ensures !IsFirst(all, i) {
      if i < |others| {
        FilterMember(findings, Not(IsError), others[i]);
      } else {
        assert all[i] == errors[i - |others|];
        FilterMember(findings, IsError, all[i]);
        var k := ErrorComesLate(findings, all[i]);
        assert all[k] == others[k];
      }
    }
  }

  lemma ReorderingIsReordering(findings: seq<Finding>)
    ensures multiset(ErrorsFirst(findings)) == multiset(findings) == multiset(ErrorsLast(findings))
  {
    FilterSplit(findings, IsError);
  }

  /** A fact about lists: the decision is the same for every reordering of the findings exactly
      when there is no error at all, or some error whose identity no lesser finding shares.
      Completion orders only move whole workers' results; `Schedules` is about those. */
  lemma DecisionOrderFree(findings: seq<Finding>)
    ensures (forall other :: multiset(other) == multiset(findings) ==> Blocks(other) == Blocks(findings))
      <==> !AnyError(findings) || HasPureError(findings)
  {
    if !AnyError(findings) || HasPureError(findings) {
      forall other | multiset(other) == multiset(findings) ensures Blocks(other) == Blocks(findings) {
        ReorderedProperties(findings, other);
        ReorderedProperties(other, findings);
        if HasPureError(findings) {
          PureErrorBlocks(findings);
          PureErrorBlocks(other);
        } else {
          BlocksIffFirstError(findings);
          BlocksIffFirstError(other);
        }
      }
    } else {
      ErrorsFirstBlocks(findings);
      ErrorsLastApproves(findings);
      ReorderingIsReordering(findings);
    }
  }

  /** In particular when identity determines severity: then the decision is simply whether
      any finding is an error. */
  lemma SeverityByIdentity(findings: seq<Finding>)
    requires forall f, h :: f in findings && h in findings && IdentityOf(f) == IdentityOf(h) ==>
      f.severity == h.severity
    ensures Blocks(findings) <==> AnyError(findings)
    ensures !AnyError(findings) || HasPureError(findings)
  {
    if AnyError(findings) {
      var i :| 0 <= i < |findings| && IsError(findings[i]);
      assert PureError(findings, findings[i]);
      PureErrorBlocks(findings);
    } else {
      BlocksIffFirstError(findings);
    }
  }
}
