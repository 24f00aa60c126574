/** The Stop call with the digests that lib/file_index.py computes: which registries never lose a
    finding to the tier cache, in terms of the files a validator's patterns find. */
module StopDigests {
  import opened Findings
  import opened Framing
  import opened Options
  import opened Registry
  import IndexQueries
  import ParallelRunner
  import StopHook

  type Index = IndexQueries.Index
  type Outcome = ParallelRunner.Outcome
  type StopCall = StopHook.StopCall

  /** How the index turns its answer to a validator's patterns into a digest: paths are encoded,
      lines hashed, and no pattern at all gives the empty string. */
  datatype Hashing = Hashing(encode: string -> Bytes, sha: Bytes -> string)

  ghost predicate CollisionFree(h: Hashing) {
    && (forall x, y :: h.sha(x) == h.sha(y) ==> x == y)
    && (forall x :: h.sha(x) != "")
  }

  /** `hash_for_patterns` */
  function Digest(ix: Index, patterns: seq<string>, h: Hashing): string {
    match IndexQueries.FedBytes(ix, patterns, h.encode)
    case None => ""
    case Some(fed) => h.sha(fed)
  }

  /** The rows the patterns find: path, size and mtime of each file, in query order. */
  function RowsFound(ix: Index, patterns: seq<string>, h: Hashing): seq<IndexQueries.Row> {
    IndexQueries.RowsOf(IndexQueries.Found(ix, patterns), h.encode)
  }

  lemma NoPatternsNoRows(ix: Index, h: Hashing)
    ensures RowsFound(ix, [], h) == [] && Digest(ix, [], h) == ""
  {
  }

  /** With one-line paths, equal digests are equal rows. */
  lemma SameDigestIffSameRows(ix: Index, jx: Index, patterns: seq<string>, h: Hashing)
    requires CollisionFree(h)
    requires IndexQueries.OneLinePaths(RowsFound(ix, patterns, h))
    requires IndexQueries.OneLinePaths(RowsFound(jx, patterns, h))
    ensures Digest(ix, patterns, h) == Digest(jx, patterns, h)
      <==> RowsFound(ix, patterns, h) == RowsFound(jx, patterns, h)
  {
    hide IndexQueries.Found, IndexQueries.Lines, IndexQueries.RowsOf;
    if patterns == [] {
      NoPatternsNoRows(ix, h);
      NoPatternsNoRows(jx, h);
    } else {
      IndexQueries.SameHashIffSameFiles(ix, jx, patterns, h.encode);
    }
  }

  // ---- a run that loses a finding ------------------------------------------------------------

  /** V80 declares no patterns. */
  function V80(): Validator { Validator("V80-go-circular-deps", []) }

  function CycleFinding(): Finding {
    Finding("warning", "/p", "V80-CIRCULAR-DEPS", "cycle", "", None, "finding")
  }

  lemma V80Prefix()
    ensures VidPrefix(V80().id) == "V80"
  {
  }

  /** So on any two projects it has one digest, and an import cycle that appears within the
      allowed age of a clean pass is not reported: the full Stop finds it, the cached one finds
      nothing. */
  lemma StalePassHidesCycle(before: Index, after: Index, h: Hashing)
    ensures var later := ParallelRunner.Returned([CycleFinding()]);
      var calls := StopHook.TwoStops(V80(), Digest(before, V80().patterns, h), later);
      && calls[1].inputHash(V80()) == Digest(after, V80().patterns, h)
      && StopHook.Scheduled(StopHook.Found([], calls[0]), calls[0])
      && StopHook.Scheduled(StopHook.Found([calls[0]], calls[1]), calls[1])
      && StopHook.RawFindings(StopHook.Found([calls[0]], calls[1]), calls[1]) == []
      && StopHook.Report(calls[1], calls[1].active) == [CycleFinding()]
  {
    V80Prefix();
    hide StopHook.Report, StopHook.RawFindings, StopHook.Scheduled, StopHook.Found, VidPrefix;
    var later := ParallelRunner.Returned([CycleFinding()]);
    NoPatternsNoRows(before, h);
    NoPatternsNoRows(after, h);
    StopHook.SecondStopSkips(V80(), "", later);
    StopHook.ReportOfOne(StopHook.TwoStops(V80(), "", later)[1], V80());
  }

  // ---- registries that never lose one ----------------------------------------------------------

  /** The digest of a validator on a project, through the project's index. */
  function DigestOn<P>(index: P -> Index, h: Hashing): (Validator, P) -> string {
    (v: Validator, p: P) => Digest(index(p), v.patterns, h)
  }

  ghost predicate OneLineProjects<P(!new)>(registry: seq<Validator>, index: P -> Index, h: Hashing) {
    forall v, p :: v in registry ==> IndexQueries.OneLinePaths(RowsFound(index(p), v.patterns, h))
  }

  /** Whether a cacheable validator is clean depends only on the rows its own patterns find. */
  ghost predicate RowsDecideCleanliness<P(!new)>(registry: seq<Validator>, index: P -> Index,
      behaves: (Validator, P) -> Outcome, h: Hashing) {
    forall v, p, q ::
      v in registry && StopHook.IsCacheable(v.id)
      && RowsFound(index(p), v.patterns, h) == RowsFound(index(q), v.patterns, h) ==>
        (Passes(behaves(v, p)) <==> Passes(behaves(v, q)))
  }

  predicate Passes(outcome: Outcome) { outcome == ParallelRunner.Returned([]) }

  /** For validators with unique prefixes that report under them, and one-line paths: no history
      of Stop calls on any projects loses a finding if and only if each cacheable validator's
      cleanliness depends only on what its own patterns find. */
  lemma NeverLosesIffRowsDecide<P(!new)>(registry: seq<Validator>, index: P -> Index,
      behaves: (Validator, P) -> Outcome, h: Hashing)
    requires UniquePrefixes(registry) && StopHook.OwnRulesAlways(registry, behaves)
    requires CollisionFree(h) && OneLineProjects(registry, index, h)
    ensures (forall calls: seq<StopCall>, projects: seq<P>, n: nat ::
               StopHook.StopsOn(calls, projects, registry, DigestOn(index, h), behaves) && n < |calls| ==>
                 StopHook.LosesNothing(calls, n))
      <==> RowsDecideCleanliness(registry, index, behaves, h)
  {
    hide StopHook.StopsOn, StopHook.LosesNothing, UniquePrefixes, StopHook.IsCacheable, RowsFound, Digest;
    StopHook.NeverLosesIffCleanCarries(registry, DigestOn(index, h), behaves);
    forall v, p, q | v in registry
      ensures DigestOn(index, h)(v, p) == DigestOn(index, h)(v, q)
        <==> RowsFound(index(p), v.patterns, h) == RowsFound(index(q), v.patterns, h)
    {
      SameDigestIffSameRows(index(p), index(q), v.patterns, h);
    }
  }

  /** Without patterns that means: clean on every project or on none. */
  lemma PatternlessNeverLosesIffConstant<P(!new)>(v: Validator, index: P -> Index,
      behaves: (Validator, P) -> Outcome, h: Hashing)
    requires v.patterns == [] && StopHook.IsCacheable(v.id) && CollisionFree(h)
    requires StopHook.OwnRulesAlways([v], behaves)
    ensures (forall calls: seq<StopCall>, projects: seq<P>, n: nat ::
               StopHook.StopsOn(calls, projects, [v], DigestOn(index, h), behaves) && n < |calls| ==>
                 StopHook.LosesNothing(calls, n))
      <==> forall p, q :: Passes(behaves(v, p)) <==> Passes(behaves(v, q))
  {
    hide StopHook.StopsOn, StopHook.LosesNothing, StopHook.IsCacheable, Digest;
    forall p ensures RowsFound(index(p), v.patterns, h) == [] { NoPatternsNoRows(index(p), h); }
    NeverLosesIffRowsDecide([v], index, behaves, h);
    assert v in [v];
  }
}
