/** hooks/validators/__init__.py with lib/validators_core.py: which validators an edited file
    goes to, by extension buckets instead of testing every validator. */
module Dispatch {
  import opened Glob
  import opened Options
  import opened Registry
  import opened Selection
  import opened Sorting

  /** `BaseValidator.should_run` */
  predicate ShouldRun(v: Validator, path: string) {
    v.patterns == [] || exists i :: 0 <= i < |v.patterns| && Matches(v.patterns[i], path)
  }

  lemma ShouldRunIff(path: string)
    ensures forall v :: ShouldRun(v, path) <==>
      v.patterns == [] || exists i :: 0 <= i < |v.patterns| && Matches(v.patterns[i], path)
  {
  }

  datatype Index = Index(byExt: map<string, seq<Validator>>, residual: seq<Validator>, wildcard: seq<Validator>)

  function Bucket(byExt: map<string, seq<Validator>>, ext: string): seq<Validator> {
    if ext in byExt then byExt[ext] else []
  }

  predicate HasExt(v: Validator, ext: string) {
    exists i :: 0 <= i < |v.patterns| && PureExt(v.patterns[i]) == Some(ext)
  }

  predicate HasOther(v: Validator) {
    exists i :: 0 <= i < |v.patterns| && PureExt(v.patterns[i]) == None
  }

  function WithExt(ext: string): Validator -> bool { v => HasExt(v, ext) }

  function WithoutPatterns(v: Validator): bool { v.patterns == [] }

  /** Buckets, residual and wildcard lists hold the validators they describe, in registry order. */
  ghost predicate Indexes(ix: Index, registry: seq<Validator>) {
    && (forall ext :: Bucket(ix.byExt, ext) == Filter(registry, WithExt(ext)))
    && ix.residual == Filter(registry, HasOther)
    && ix.wildcard == Filter(registry, WithoutPatterns)
  }

  /** `setdefault(ext, []).append(v)` */
  lemma BucketAppend(byExt: map<string, seq<Validator>>, ext: string, v: Validator)
    ensures forall e ::
      Bucket(byExt[ext := Bucket(byExt, ext) + [v]], e) == Bucket(byExt, e) + if e == ext then [v] else []
  {
    assert forall e :: Bucket(byExt, e) + [] == Bucket(byExt, e);
  }

  /** One validator's pass through the pattern loop. */
  method Classify(byExt0: map<string, seq<Validator>>, v: Validator)
    returns (byExt: map<string, seq<Validator>>, hasExt: bool, hasOther: bool)
    ensures forall ext :: Bucket(byExt, ext) == Bucket(byExt0, ext) + if HasExt(v, ext) then [v] else []
    ensures hasOther <==> HasOther(v)
    ensures v.patterns != [] ==> hasExt || hasOther
  {
    hide PureExt, Bucket;
    byExt, hasExt, hasOther := byExt0, false, false;
    var seen: set<string> := {};
    for n := 0 to |v.patterns|
      invariant forall ext :: ext in seen <==> exists i :: 0 <= i < n && PureExt(v.patterns[i]) == Some(ext)
      invariant forall ext :: Bucket(byExt, ext) == Bucket(byExt0, ext) + if ext in seen then [v] else []
      invariant hasOther <==> exists i :: 0 <= i < n && PureExt(v.patterns[i]) == None
      invariant n > 0 ==> hasExt || hasOther
    {
      var ext := PureExt(v.patterns[n]);
      if ext.Some? {
        hasExt := true;
        if ext.value !in seen {
          BucketAppend(byExt, ext.value, v);
          byExt := byExt[ext.value := Bucket(byExt, ext.value) + [v]];
          seen := seen + {ext.value};
        }
      } else {
        hasOther := true;
      }
    }
  }

  lemma FilterSnoc(s: seq<Validator>, v: Validator, keep: Validator -> bool)
    ensures Filter(s + [v], keep) == Filter(s, keep) + if keep(v) then [v] else []
  {
    FilterConcat(s, [v], keep);
    assert [v][1..] == [];
  }

  lemma NoExtWithoutPatterns(v: Validator)
    requires v.patterns == []
    ensures !HasOther(v) && forall ext :: !HasExt(v, ext)
  {
  }

  method BuildDispatchIndex(registry: seq<Validator>) returns (ix: Index)
    ensures Indexes(ix, registry)
  {
    hide HasExt, HasOther, Filter, PureExt;
    var byExt: map<string, seq<Validator>> := map[];
    var residual: seq<Validator>, wildcard: seq<Validator> := [], [];
    NothingIndexed();
    for n := 0 to |registry|
      invariant Indexes(Index(byExt, residual, wildcard), registry[..n])
    {
      var v := registry[n];
      assert registry[..n + 1] == registry[..n] + [v];
      forall keep: Validator -> bool
        ensures Filter(registry[..n + 1], keep) == Filter(registry[..n], keep) + if keep(v) then [v] else []
      {
        FilterSnoc(registry[..n], v, keep);
      }
      if v.patterns == [] {
        NoExtWithoutPatterns(v);
        wildcard := wildcard + [v];
        continue;
      }
      var hasExt, hasOther;
      byExt, hasExt, hasOther := Classify(byExt, v);
      if hasOther { residual := residual + [v]; }
      if !hasExt && !hasOther { residual := residual + [v]; }
    }
    assert registry[..|registry|] == registry;
    ix := Index(byExt, residual, wildcard);
  }

  lemma NothingIndexed()
    ensures Indexes(Index(map[], [], []), [])
  {
  }

  /** What the index offers for a path, before `should_run` confirms. */
  predicate Candidate(v: Validator, path: string) {
    HasExt(v, Lower(SuffixOf(Basename(path)))) || HasOther(v) || v.patterns == []
  }

  /** `out` and then what `more` adds to it, each once. */
  function Merged(out: seq<Validator>, more: seq<Validator>): seq<Validator>
    decreases |more|
  {
    if more == [] then out
    else Merged(if more[0] in out then out else out + [more[0]], more[1..])
  }

  lemma {:induction false} MergedElems(out: seq<Validator>, more: seq<Validator>)
    requires Distinct(out)
    ensures Distinct(Merged(out, more))
    ensures forall v :: v in Merged(out, more) <==> v in out || v in more
    decreases |more|
  {
    if more == [] {
    } else {
      MergedElems(if more[0] in out then out else out + [more[0]], more[1..]);
    }
  }

  method AppendUnseen(out0: seq<Validator>, more: seq<Validator>) returns (out: seq<Validator>)
    ensures out == Merged(out0, more)
  {
    out := out0;
    for n := 0 to |more|
      invariant Merged(out, more[n..]) == Merged(out0, more)
    {
      assert more[n..][1..] == more[n + 1..];
      if more[n] in out { continue; }
      out := out + [more[n]];
    }
  }

  /** The candidates for a path, in the order the index gives them. */
  function Candidates(registry: seq<Validator>, path: string): seq<Validator> {
    Merged(Merged(Merged([], Filter(registry, WithExt(Lower(SuffixOf(Basename(path)))))),
                  Filter(registry, HasOther)),
           Filter(registry, WithoutPatterns))
  }

  lemma CandidatesAre(registry: seq<Validator>, path: string)
    ensures Distinct(Candidates(registry, path))
    ensures forall v :: v in Candidates(registry, path) <==> v in registry && Candidate(v, path)
  {
    hide HasExt, HasOther, Filter, Merged;
    var bucket := Filter(registry, WithExt(Lower(SuffixOf(Basename(path)))));
    var residual, wildcard := Filter(registry, HasOther), Filter(registry, WithoutPatterns);
    MergedElems([], bucket);
    MergedElems(Merged([], bucket), residual);
    MergedElems(Merged(Merged([], bucket), residual), wildcard);
    forall v ensures v in bucket <==> v in registry && HasExt(v, Lower(SuffixOf(Basename(path))))
             ensures v in residual <==> v in registry && HasOther(v)
             ensures v in wildcard <==> v in registry && v.patterns == []
    {
      FilterMember(registry, WithExt(Lower(SuffixOf(Basename(path)))), v);
      FilterMember(registry, HasOther, v);
      FilterMember(registry, WithoutPatterns, v);
    }
  }

  /** Where the index finds a candidate first. */
  function Rank(v: Validator, path: string): nat {
    if HasExt(v, Lower(SuffixOf(Basename(path)))) then 0 else if HasOther(v) then 1 else 2
  }

  lemma {:induction false} MergedExtends(out: seq<Validator>, more: seq<Validator>)
    ensures |out| <= |Merged(out, more)| && Merged(out, more)[..|out|] == out
    ensures forall i :: |out| <= i < |Merged(out, more)| ==>
      Merged(out, more)[i] in more && Merged(out, more)[i] !in out
    decreases |more|
  {
    if more == [] {
    } else {
      var next := if more[0] in out then out else out + [more[0]];
      MergedExtends(next, more[1..]);
      assert next[..|out|] == out;
    }
  }

  /** Candidates with the file's extension come first, then those with a pattern that is not a plain
      extension, then those without patterns. */
  lemma CandidatesRanked(registry: seq<Validator>, path: string, i: nat, j: nat)
    requires i < j < |Candidates(registry, path)|
    ensures Rank(Candidates(registry, path)[i], path) <= Rank(Candidates(registry, path)[j], path)
  {
    hide HasExt, HasOther, Filter, Merged, WithExt;
    var ext := Lower(SuffixOf(Basename(path)));
    var bucket, residual := Filter(registry, WithExt(ext)), Filter(registry, HasOther);
    var a := Merged([], bucket);
    var b := Merged(a, residual);
    MergedElems([], bucket);
    MergedElems(a, residual);
    MergedExtends(a, residual);
    MergedExtends(b, Filter(registry, WithoutPatterns));
    var c := Candidates(registry, path);
    forall v | v in c ensures v in a <==> HasExt(v, ext)
                      ensures v in b <==> HasExt(v, ext) || HasOther(v)
    {
      CandidatesAre(registry, path);
      ExtIff(v, ext);
      FilterMember(registry, WithExt(ext), v);
      FilterMember(registry, HasOther, v);
    }
    assert c[..|b|] == b && b[..|a|] == a;
    assert c[i] in c && c[j] in c;
    if j < |a| { assert c[i] == a[i] && c[j] == a[j]; }
    if j < |b| { assert c[i] == b[i] && c[j] == b[j]; }
    if i < |a| { assert c[i] == a[i]; }
    if i < |b| { assert c[i] == b[i]; }
  }

  lemma ExtIff(v: Validator, ext: string)
    ensures WithExt(ext)(v) <==> HasExt(v, ext)
  {
  }

  function Wanted(path: string, active: seq<Validator>): Validator -> bool {
    v => v in active && ShouldRun(v, path)
  }

  /** What `get_matching_validators` returns. */
  function Matching(registry: seq<Validator>, path: string, active: seq<Validator>): seq<Validator> {
    Filter(Candidates(registry, path), Wanted(path, active))
  }

  /** The order of the active list plays no part, nor do repetitions in it: only which validators
      it holds. */
  lemma ActiveOrderIgnored(registry: seq<Validator>, path: string, a: seq<Validator>, b: seq<Validator>)
    requires forall v :: v in a <==> v in b
    ensures Matching(registry, path, a) == Matching(registry, path, b)
  {
    SameFilter(Candidates(registry, path), Wanted(path, a), Wanted(path, b));
  }

  lemma {:induction false} SameFilter(s: seq<Validator>, keep: Validator -> bool, other: Validator -> bool)
    requires forall v :: keep(v) == other(v)
    ensures Filter(s, keep) == Filter(s, other)
  {
    if s == [] {
    } else {
      SameFilter(s[1..], keep, other);
    }
  }

  /** `get_matching_validators`: no duplicates, and exactly the active registered candidates
      whose `should_run` holds, in the index's order.  With single-line patterns and a path whose
      name is not just an extension, that is what testing every active validator gives. */
  method GetMatchingValidators(registry: seq<Validator>, path: string, active: seq<Validator>)
    returns (matching: seq<Validator>)
    requires RegistryOk(registry)
    ensures matching == Matching(registry, path, active)
    ensures Distinct(matching)
    ensures forall v :: v in matching <==> v in active && v in registry && Candidate(v, path) && ShouldRun(v, path)
    ensures (forall v :: v in registry ==> OneLinePatterns(v)) && !IsDotName(Basename(path)) ==>
      forall v :: v in matching <==>
        v in active && v in registry
        && (v.patterns == [] || exists i :: 0 <= i < |v.patterns| && Matches(v.patterns[i], path))
  {
    ShouldRunIff(path);
    hide PureExt, IsDotName, Merged, Filter, Candidate, ShouldRun, RegistryOk, HasExt, HasOther, OneLinePatterns;
    var ix := BuildDispatchIndex(registry);
    var bucket := Bucket(ix.byExt, Lower(SuffixOf(Basename(path))));
    var candidates := AppendUnseen([], bucket);
    candidates := AppendUnseen(candidates, ix.residual);
    candidates := AppendUnseen(candidates, ix.wildcard);
    assert candidates == Candidates(registry, path);
    CandidatesAre(registry, path);
    matching := SelectWanted(candidates, path, active);
    if (forall v :: v in registry ==> OneLinePatterns(v)) && !IsDotName(Basename(path)) {
      forall v | v in registry && ShouldRun(v, path) ensures Candidate(v, path) {
        MatchIsCandidate(v, path);
      }
    }
  }

  /** The two final comprehensions. */
  method SelectWanted(candidates: seq<Validator>, path: string, active: seq<Validator>)
    returns (matching: seq<Validator>)
    requires Distinct(candidates)
    ensures matching == Filter(candidates, Wanted(path, active)) && Distinct(matching)
    ensures forall v :: v in matching <==> v in candidates && v in active && ShouldRun(v, path)
  {
    hide ShouldRun, Filter;
    matching := [];
    NothingSelected(Wanted(path, active));
    for n := 0 to |candidates|
      invariant Distinct(matching) && matching == Filter(candidates[..n], Wanted(path, active))
      invariant forall v :: v in matching <==> v in candidates[..n] && v in active && ShouldRun(v, path)
    {
      var v := candidates[n];
      assert candidates[..n + 1] == candidates[..n] + [v];
      FilterSnoc(candidates[..n], v, Wanted(path, active));
      assert v !in candidates[..n];
      if v in active && ShouldRun(v, path) { matching := matching + [v]; }
    }
    assert candidates[..|candidates|] == candidates;
  }

  lemma NothingSelected(keep: Validator -> bool)
    ensures Filter([], keep) == []
  {
  }

  // ---- the buckets lose nothing, with one family of exceptions ---------------------------

  ghost predicate OneLinePatterns(v: Validator) {
    forall i :: 0 <= i < |v.patterns| ==> OneLine(v.patterns[i])
  }

  lemma MatchIsCandidate(v: Validator, path: string)
    requires OneLinePatterns(v) && ShouldRun(v, path) && !IsDotName(Basename(path))
    ensures Candidate(v, path)
  {
    if v.patterns != [] {
      var i :| 0 <= i < |v.patterns| && Matches(v.patterns[i], path);
      if PureExt(v.patterns[i]).Some? { ExtOfMatch(v.patterns[i], path); }
    }
  }

  /** The exception is exact: the buckets reach every interested validator, whatever the
      patterns, if and only if the path's name is not "." followed by alphanumerics. */
  lemma CandidatesCompleteIff(path: string)
    ensures (forall v :: OneLinePatterns(v) && ShouldRun(v, path) ==> Candidate(v, path))
      <==> !IsDotName(Basename(path))
  {
    hide IsDotName, OneLinePatterns, ShouldRun, Candidate;
    if IsDotName(Basename(path)) {
      MissedOnDotName(path, Validator("V00-x", ["*" + Basename(path)]));
    } else {
      forall v | OneLinePatterns(v) && ShouldRun(v, path) ensures Candidate(v, path) {
        MatchIsCandidate(v, path);
      }
    }
  }

  lemma {:induction false} BasenameIsTail(path: string)
    ensures |Basename(path)| <= |path| && path == path[..|path| - |Basename(path)|] + Basename(path)
  {
    if '/' !in path {
    } else {
      BasenameIsTail(path[1..]);
    }
  }

  lemma DotNamePattern(name: string)
    requires IsDotName(name)
    ensures OneLine("*" + name) && PureExt("*" + name) == Some("." + Lower(name[1..]))
  {
    hide PureExt;
    var x, pattern := name[1..], "*" + name;
    assert name == "." + x && pattern == "" + "*." + x;
    assert pattern[|pattern| - 1] == x[|x| - 1];
    PureExtIff(pattern);
  }

  lemma DotNameFacts(name: string)
    requires IsDotName(name)
    ensures Literal(name) && SuffixOf(name) == ""
  {
  }

  lemma DotNameReached(path: string)
    requires IsDotName(Basename(path))
    ensures Matches("*" + Basename(path), path)
    ensures Lower(SuffixOf(Basename(path))) == ""
  {
    hide Matches, Basename, SuffixOf, IsDotName;
    DotNameFacts(Basename(path));
    BasenameIsTail(path);
    StarMatch(path[..|path| - |Basename(path)|], Basename(path));
  }

  /** A validator for "*.ext" alone is not offered the file named ".ext". */
  lemma MissedOnDotName(path: string, v: Validator)
    requires IsDotName(Basename(path)) && v.patterns == ["*" + Basename(path)]
    ensures OneLinePatterns(v) && ShouldRun(v, path) && !Candidate(v, path)
  {
    hide IsDotName, PureExt, OneLine, Matches, Lower, SuffixOf;
    DotNamePattern(Basename(path));
    DotNameReached(path);
    assert Matches(v.patterns[0], path);
  }
}
