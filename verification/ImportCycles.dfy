/** hooks/validators/go_circular_deps.py: what the reported components mean for the Go
    packages whose import graph is searched. */
module ImportCycles {
  import opened CircularDeps
  import opened Graphs
  import opened Options
  import opened Sorting
  import opened TarjanSteps
  import opened Text

  // ---- consequences of a component listing --------------------------------------

  lemma ReachedIsNode(g: Graph, u: Node, v: Node)
    requires Reach(g, u, v) && u != v
    ensures v in Nodes(g)
  {
    var p :| IsPath(g, p) && p[0] == u && p[|p| - 1] == v;
    assert Linked(g, p, |p| - 1);
    SuccessorIsNode(g, p[|p| - 2], v);
  }

  lemma MutualIsScc(g: Graph, u: Node, v: Node)
    requires Mutual(g, u, v) && u != v
    ensures exists c :: IsScc(g, c) && u in c && v in c && |c| > 1
  {
    hide Reach;
    var c := set w | w in Nodes(g) + {u} && Mutual(g, u, w);
    ReachRefl(g, u);
    forall w | Mutual(g, u, w) ensures w in c {
      if w != u { ReachedIsNode(g, u, w); }
    }
    assert {u, v} <= c;
    SubsetSize({u, v}, c);
    assert IsScc(g, c);
  }

  lemma SubsetSize<T>(a: set<T>, b: set<T>)
    requires a <= b
    ensures |a| <= |b|
  {
    assert b == a + (b - a);
  }

  ghost predicate ListedTogether(cycles: seq<seq<Node>>, u: Node, v: Node) {
    exists i :: 0 <= i < |cycles| && u in cycles[i] && v in cycles[i]
  }

  /** Two distinct nodes share a reported list exactly when each reaches the other. */
  lemma ListedTogetherIffMutual(g: Graph, cycles: seq<seq<Node>>, u: Node, v: Node)
    requires IsSccListing(g, cycles) && u != v
    ensures ListedTogether(cycles, u, v) <==> Mutual(g, u, v)
  {
    hide Reach;
    if i :| 0 <= i < |cycles| && u in cycles[i] && v in cycles[i] {
      assert GoodCycle(g, cycles[i]);
      var c := Elems(cycles[i]);
      var a :| a in c && forall w :: w in c <==> Mutual(g, a, w);
      assert u in c && v in c;
      MutualTrans(g, a, u, a);
      MutualTrans(g, u, a, v);
    }
    if Mutual(g, u, v) {
      MutualIsScc(g, u, v);
      var c :| IsScc(g, c) && u in c && v in c && |c| > 1;
      var i :| 0 <= i < |cycles| && Elems(cycles[i]) == c;
      assert u in cycles[i] && v in cycles[i];
    }
  }

  ghost predicate NoSelfEdges(g: Graph) {
    forall v :: v !in Succ(g, v)
  }

  /** Without self-edges, silence means acyclic: nothing is reported exactly when no node
      lies on a cycle. */
  lemma SilentIffAcyclic(g: Graph, cycles: seq<seq<Node>>)
    requires IsSccListing(g, cycles) && NoSelfEdges(g)
    ensures cycles == [] <==> forall v :: !OnCycle(g, v)
  {
    if cycles == [] {
      forall v ensures !OnCycle(g, v) {
        if OnCycle(g, v) {
          CycleHasPartner(g, v);
          var w :| w != v && Mutual(g, v, w);
          ListedTogetherIffMutual(g, cycles, v, w);
        }
      }
    } else {
      var c := cycles[0];
      assert GoodCycle(g, c) && c[0] != c[1];
      ListedTogetherIffMutual(g, cycles, c[0], c[1]);
      MutualMakesCycle(g, c[0], c[1]);
    }
  }

  lemma CycleHasPartner(g: Graph, v: Node)
    requires OnCycle(g, v) && NoSelfEdges(g)
    ensures exists w :: w != v && Mutual(g, v, w)
  {
    var p :| IsPath(g, p) && |p| > 1 && p[0] == v && p[|p| - 1] == v;
    assert Linked(g, p, 1);
    ReachEdge(g, v, p[1]);
    var q := p[1..];
    forall i | 0 < i < |q| ensures Linked(g, q, i) { assert Linked(g, p, i + 1); }
    assert IsPath(g, q) && q[0] == p[1] && q[|q| - 1] == v;
    assert p[1] != v && Mutual(g, v, p[1]);
  }

  lemma MutualMakesCycle(g: Graph, u: Node, v: Node)
    requires Mutual(g, u, v) && u != v
    ensures OnCycle(g, u)
  {
    var p :| IsPath(g, p) && p[0] == u && p[|p| - 1] == v;
    var q :| IsPath(g, q) && q[0] == v && q[|q| - 1] == u;
    var r := p + q[1..];
    forall i | 0 < i < |r| ensures Linked(g, r, i) {
      if i < |p| {
        assert Linked(g, p, i);
      } else {
        assert Linked(g, q, i - |p| + 1);
        assert r[i - 1] == q[i - |p|];
      }
    }
    assert IsPath(g, r) && |r| > 1 && r[0] == u && r[|r| - 1] == u;
  }

  // ---- the import graph -------------------------------------------------------------

  /** One `*.go` file of the index: its directory relative to the module when it lies in it,
      and its parsed imports when it could be read. */
  datatype GoFile = GoFile(path: string, relDir: Option<string>, imports: Option<seq<string>>)

  /** Files the walk does not skip. */
  predicate Counted(f: GoFile) {
    f.relDir.Some? && !EndsWith(f.path, "_test.go") && f.imports.Some?
  }

  function Package(moduleName: string, relDir: string): Node {
    if relDir == "" || relDir == "." then moduleName else moduleName + "/" + relDir
  }

  predicate Internal(moduleName: string, imp: string) {
    imp == moduleName || StartsWith(imp, moduleName + "/")
  }

  /** File `f` is a counted file of package `u`. */
  predicate FileOf(moduleName: string, f: GoFile, u: Node) {
    Counted(f) && Package(moduleName, f.relDir.value) == u
  }

  predicate FileImports(moduleName: string, f: GoFile, u: Node, v: Node) {
    FileOf(moduleName, f, u) && v in f.imports.value && v != u && Internal(moduleName, v)
  }

  ghost predicate Declared(moduleName: string, files: seq<GoFile>, u: Node) {
    exists k :: 0 <= k < |files| && FileOf(moduleName, files[k], u)
  }

  /** Package `u` imports another package `v` of the same module in some counted file. */
  ghost predicate Imports(moduleName: string, files: seq<GoFile>, u: Node, v: Node) {
    exists k :: 0 <= k < |files| && FileImports(moduleName, files[k], u, v)
  }

  ghost predicate IsImportGraph(moduleName: string, files: seq<GoFile>, g: Graph) {
    && (forall u :: u in g <==> Declared(moduleName, files, u))
    && (forall u, v :: v in Succ(g, u) <==> Imports(moduleName, files, u, v))
  }

  /** The edges a file of package `pkg` with these imports contributes. */
  ghost function NewEdges(moduleName: string, pkg: Node, imports: seq<string>): set<Node> {
    set v | v in imports && v != pkg && Internal(moduleName, v)
  }

  /** `edges = graph.setdefault(pkg, set())` and the loop that fills `edges`. */
  method AddImports(graph0: Graph, moduleName: string, pkg: Node, imports: seq<string>) returns (graph: Graph)
    ensures graph.Keys == graph0.Keys + {pkg}
    ensures Succ(graph, pkg) == Succ(graph0, pkg) + NewEdges(moduleName, pkg, imports)
    ensures forall u :: u != pkg ==> Succ(graph, u) == Succ(graph0, u)
  {
    graph := if pkg in graph0 then graph0 else graph0[pkg := {}];
    for k := 0 to |imports|
      invariant graph.Keys == graph0.Keys + {pkg}
      invariant forall u :: u != pkg ==> Succ(graph, u) == Succ(graph0, u)
      invariant graph[pkg] == Succ(graph0, pkg) + NewEdges(moduleName, pkg, imports[..k])
    {
      var imp := imports[k];
      assert imports[..k + 1] == imports[..k] + [imp];
      if imp == pkg { continue; }
      if imp == moduleName || StartsWith(imp, moduleName + "/") {
        graph := graph[pkg := graph[pkg] + {imp}];
      }
    }
    assert imports[..|imports|] == imports;
  }

  method BuildGraph(moduleName: string, files: seq<GoFile>) returns (graph: Graph)
    ensures IsImportGraph(moduleName, files, graph)
  {
    graph := map[];
    for n := 0 to |files|
      invariant IsImportGraph(moduleName, files[..n], graph)
    {
      var f := files[n];
      ghost var before := graph;
      assert files[..n + 1] == files[..n] + [f];
      if f.relDir.Some? && !EndsWith(f.path, "_test.go") && f.imports.Some? {
        graph := AddImports(graph, moduleName, Package(moduleName, f.relDir.value), f.imports.value);
      }
      GraphExtends(moduleName, files[..n], f, before, graph);
    }
    assert files[..|files|] == files;
  }

  lemma ImportsExtend(moduleName: string, files: seq<GoFile>, f: GoFile, u: Node, v: Node)
    ensures Imports(moduleName, files + [f], u, v)
      <==> Imports(moduleName, files, u, v) || FileImports(moduleName, f, u, v)
    ensures Declared(moduleName, files + [f], u) <==> Declared(moduleName, files, u) || FileOf(moduleName, f, u)
  {
    var all := files + [f];
    assert all[|files|] == f;
    if k :| 0 <= k < |files| && FileImports(moduleName, files[k], u, v) { assert all[k] == files[k]; }
    if k :| 0 <= k < |files| && FileOf(moduleName, files[k], u) { assert all[k] == files[k]; }
  }

  lemma GraphExtends(moduleName: string, files: seq<GoFile>, f: GoFile, before: Graph, graph: Graph)
    requires IsImportGraph(moduleName, files, before)
    requires !Counted(f) ==> graph == before
    requires Counted(f) ==>
      var pkg := Package(moduleName, f.relDir.value);
      && graph.Keys == before.Keys + {pkg}
      && Succ(graph, pkg) == Succ(before, pkg) + NewEdges(moduleName, pkg, f.imports.value)
      && forall u :: u != pkg ==> Succ(graph, u) == Succ(before, u)
    ensures IsImportGraph(moduleName, files + [f], graph)
  {
    forall u ensures u in graph <==> Declared(moduleName, files + [f], u) {
      ImportsExtend(moduleName, files, f, u, u);
    }
    forall u, v ensures v in Succ(graph, u) <==> Imports(moduleName, files + [f], u, v) {
      ImportsExtend(moduleName, files, f, u, v);
    }
  }

  // ---- directories ----------------------------------------------------------------------

  /** A counted file of this directory; the module's own directory is ".". */
  ghost predicate InDir(f: GoFile, d: string) {
    && f.relDir.Some? && !EndsWith(f.path, "_test.go") && f.imports.Some?
    && d == if f.relDir.value == "" then "." else f.relDir.value
  }

  /** The import path that refers to a directory. */
  ghost function ImportPath(moduleName: string, d: string): string {
    if d == "." then moduleName else moduleName + "/" + d
  }

  /** Some counted file of `d` imports the package of another directory `e`. */
  ghost predicate DirImports(moduleName: string, files: seq<GoFile>, d: string, e: string) {
    d != e && d != "" && e != "" &&
    exists k :: 0 <= k < |files| && ImportsFrom(files[k], d, ImportPath(moduleName, e))
  }

  ghost predicate ImportsFrom(f: GoFile, d: string, path: string) {
    InDir(f, d) && path in f.imports.value
  }

  /** Directories each of which imports the next. */
  ghost predicate DirChain(moduleName: string, files: seq<GoFile>, chain: seq<string>) {
    |chain| > 0 && chain[0] != "" && forall i :: 0 < i < |chain| ==> ChainLink(moduleName, files, chain, i)
  }

  ghost predicate ChainLink(moduleName: string, files: seq<GoFile>, chain: seq<string>, i: int)
    requires 0 < i < |chain|
  {
    DirImports(moduleName, files, chain[i - 1], chain[i])
  }

  ghost predicate DirReach(moduleName: string, files: seq<GoFile>, d: string, e: string) {
    exists chain :: DirChain(moduleName, files, chain) && chain[0] == d && chain[|chain| - 1] == e
  }

  lemma PathsDiffer(moduleName: string, d: string, e: string)
    requires d != "" && e != "" && ImportPath(moduleName, d) == ImportPath(moduleName, e)
    ensures d == e
  {
    var m := moduleName + "/";
    assert (m + d)[|m|..] == d && (m + e)[|m|..] == e;
    assert |m + d| > |moduleName| && |m + e| > |moduleName|;
  }

  lemma PathIsInternal(moduleName: string, d: string)
    ensures Internal(moduleName, ImportPath(moduleName, d))
  {
    if d != "." { assert (moduleName + "/" + d)[..|moduleName| + 1] == moduleName + "/"; }
  }

  lemma PackageOfDir(moduleName: string, f: GoFile, d: string)
    requires d != ""
    ensures InDir(f, d) <==> FileOf(moduleName, f, ImportPath(moduleName, d))
  {
    if Counted(f) {
      var own := if f.relDir.value == "" then "." else f.relDir.value;
      assert Package(moduleName, f.relDir.value) == ImportPath(moduleName, own);
      if ImportPath(moduleName, own) == ImportPath(moduleName, d) { PathsDiffer(moduleName, own, d); }
    }
  }

  lemma EdgeIffDirImports(moduleName: string, files: seq<GoFile>, g: Graph, d: string, e: string)
    requires IsImportGraph(moduleName, files, g) && d != "" && e != ""
    ensures ImportPath(moduleName, e) in Succ(g, ImportPath(moduleName, d)) <==> DirImports(moduleName, files, d, e)
  {
    hide ImportPath, FileOf, Internal, Package;
    var u, v := ImportPath(moduleName, d), ImportPath(moduleName, e);
    PathIsInternal(moduleName, e);
    forall k | 0 <= k < |files| ensures InDir(files[k], d) <==> FileOf(moduleName, files[k], u) {
      PackageOfDir(moduleName, files[k], d);
    }
    if u == v { PathsDiffer(moduleName, d, e); }
    if k :| 0 <= k < |files| && FileImports(moduleName, files[k], u, v) {
      assert ImportsFrom(files[k], d, v);
    }
    if DirImports(moduleName, files, d, e) {
      var k :| 0 <= k < |files| && ImportsFrom(files[k], d, v);
      assert FileImports(moduleName, files[k], u, v);
    }
  }

  /** Every key is the import path of a directory. */
  lemma KeyIsDir(moduleName: string, files: seq<GoFile>, g: Graph, u: Node) returns (d: string)
    requires IsImportGraph(moduleName, files, g) && u in g
    ensures d != "" && ImportPath(moduleName, d) == u
  {
    var k :| 0 <= k < |files| && FileOf(moduleName, files[k], u);
    d := if files[k].relDir.value == "" then "." else files[k].relDir.value;
  }

  lemma {:induction false} PathToChain(moduleName: string, files: seq<GoFile>, g: Graph, p: seq<Node>,
      d: string, e: string)
    returns (chain: seq<string>)
    requires IsImportGraph(moduleName, files, g) && IsPath(g, p) && d != "" && e != ""
    requires p[0] == ImportPath(moduleName, d) && p[|p| - 1] == ImportPath(moduleName, e)
    ensures DirChain(moduleName, files, chain) && chain[0] == d && chain[|chain| - 1] == e && |chain| == |p|
  {
    hide ImportPath, DirImports, IsImportGraph;
    if |p| == 1 {
      PathsDiffer(moduleName, d, e);
      chain := [d];
    } else {
      var q := p[1..];
      assert Linked(g, p, 1);
      forall i | 0 < i < |q| ensures Linked(g, q, i) { assert Linked(g, p, i + 1); }
      var next := e;
      if |q| > 1 {
        assert Linked(g, q, 1);
        next := KeyIsDir(moduleName, files, g, q[0]);
      }
      var rest := PathToChain(moduleName, files, g, q, next, e);
      EdgeIffDirImports(moduleName, files, g, d, next);
      chain := [d] + rest;
      forall i | 0 < i < |chain| ensures ChainLink(moduleName, files, chain, i) {
        if i > 1 { assert ChainLink(moduleName, files, rest, i - 1); }
      }
    }
  }

  lemma ChainToPath(moduleName: string, files: seq<GoFile>, g: Graph, chain: seq<string>) returns (p: seq<Node>)
    requires IsImportGraph(moduleName, files, g) && DirChain(moduleName, files, chain)
    ensures IsPath(g, p) && |p| == |chain|
    ensures p[0] == ImportPath(moduleName, chain[0]) && p[|p| - 1] == ImportPath(moduleName, chain[|chain| - 1])
  {
    hide ImportPath, IsImportGraph, InDir;
    p := seq(|chain|, i requires 0 <= i < |chain| => ImportPath(moduleName, chain[i]));
    forall i | 0 < i < |p| ensures Linked(g, p, i) {
      assert ChainLink(moduleName, files, chain, i);
      EdgeIffDirImports(moduleName, files, g, chain[i - 1], chain[i]);
    }
  }

  lemma ReachIffDirReach(moduleName: string, files: seq<GoFile>, g: Graph, d: string, e: string)
    requires IsImportGraph(moduleName, files, g) && d != "" && e != ""
    ensures Reach(g, ImportPath(moduleName, d), ImportPath(moduleName, e)) <==> DirReach(moduleName, files, d, e)
  {
    hide ImportPath, IsImportGraph, IsPath, DirChain;
    var u, v := ImportPath(moduleName, d), ImportPath(moduleName, e);
    PathLengths(g, moduleName, files);
    if Reach(g, u, v) {
      var p :| IsPath(g, p) && p[0] == u && p[|p| - 1] == v;
      var chain := PathToChain(moduleName, files, g, p, d, e);
    }
    if DirReach(moduleName, files, d, e) {
      var chain :| DirChain(moduleName, files, chain) && chain[0] == d && chain[|chain| - 1] == e;
      var p := ChainToPath(moduleName, files, g, chain);
    }
  }

  lemma PathLengths(g: Graph, moduleName: string, files: seq<GoFile>)
    ensures forall p :: IsPath(g, p) ==> |p| > 0
    ensures forall chain :: DirChain(moduleName, files, chain) ==> |chain| > 0
  {
  }

  /** Two directories' packages are listed together exactly when each imports the other, directly
      or through other directories. */
  lemma ListedTogetherIffDirsMutual(moduleName: string, files: seq<GoFile>, g: Graph, cycles: seq<seq<Node>>,
      d: string, e: string)
    requires IsImportGraph(moduleName, files, g) && IsSccListing(g, cycles) && d != "" && e != "" && d != e
    ensures ListedTogether(cycles, ImportPath(moduleName, d), ImportPath(moduleName, e))
      <==> DirReach(moduleName, files, d, e) && DirReach(moduleName, files, e, d)
  {
    hide ImportPath, IsImportGraph, IsSccListing, Reach, DirReach;
    if ImportPath(moduleName, d) == ImportPath(moduleName, e) { PathsDiffer(moduleName, d, e); }
    ListedTogetherIffMutual(g, cycles, ImportPath(moduleName, d), ImportPath(moduleName, e));
    ReachIffDirReach(moduleName, files, g, d, e);
    ReachIffDirReach(moduleName, files, g, e, d);
  }

  /** Directories each of which imports the next, back to the first. */
  ghost predicate DirCycle(moduleName: string, files: seq<GoFile>, chain: seq<string>) {
    DirChain(moduleName, files, chain) && |chain| > 1 && chain[0] == chain[|chain| - 1]
  }

  lemma AcyclicIffNoDirCycle(moduleName: string, files: seq<GoFile>, g: Graph)
    requires IsImportGraph(moduleName, files, g)
    ensures (forall v :: !OnCycle(g, v)) <==> forall chain :: !DirCycle(moduleName, files, chain)
  {
    hide ImportPath, IsImportGraph, IsPath, DirChain;
    PathLengths(g, moduleName, files);
    if v :| OnCycle(g, v) {
      var p :| IsPath(g, p) && |p| > 1 && p[0] == v && p[|p| - 1] == v;
      StartIsKey(g, p);
      var d := KeyIsDir(moduleName, files, g, v);
      var chain := PathToChain(moduleName, files, g, p, d, d);
      assert DirCycle(moduleName, files, chain);
    }
    if chain :| DirCycle(moduleName, files, chain) {
      var p := ChainToPath(moduleName, files, g, chain);
      assert OnCycle(g, p[0]);
    }
  }

  lemma StartIsKey(g: Graph, p: seq<Node>)
    requires IsPath(g, p) && |p| > 1
    ensures p[0] in g
  {
    assert Linked(g, p, 1);
  }

  lemma DirectMutual(moduleName: string, files: seq<GoFile>, d: string, e: string)
    requires DirImports(moduleName, files, d, e)
    ensures DirReach(moduleName, files, d, e)
  {
    var chain := [d, e];
    assert ChainLink(moduleName, files, chain, 1);
    assert DirChain(moduleName, files, chain);
  }

  /** The keys, spelled out. */
  lemma KeysAre(moduleName: string, files: seq<GoFile>, g: Graph, d: string)
    requires IsImportGraph(moduleName, files, g) && d != ""
    ensures ImportPath(moduleName, d) in g <==> exists k :: 0 <= k < |files| && InDir(files[k], d)
  {
    hide ImportPath, InDir, FileOf;
    forall k | 0 <= k < |files|
      ensures InDir(files[k], d) <==> FileOf(moduleName, files[k], ImportPath(moduleName, d))
    {
      PackageOfDir(moduleName, files[k], d);
    }
  }

  /** The edges, spelled out: a counted file of the directory imports the path, which is another
      package's and either the module's own or below it. */
  lemma EdgesAre(moduleName: string, files: seq<GoFile>, g: Graph, d: string, v: Node)
    requires IsImportGraph(moduleName, files, g) && d != ""
    ensures v in Succ(g, ImportPath(moduleName, d)) <==>
      && v != ImportPath(moduleName, d)
      && (v == moduleName || exists e :: v == moduleName + "/" + e)
      && exists k :: 0 <= k < |files| && ImportsFrom(files[k], d, v)
  {
    hide ImportPath, FileOf, Package;
    var u := ImportPath(moduleName, d);
    if StartsWith(v, moduleName + "/") { assert v == moduleName + "/" + v[|moduleName| + 1..]; }
    if e :| v == moduleName + "/" + e { assert v[..|moduleName| + 1] == moduleName + "/"; }
    forall k | 0 <= k < |files| ensures InDir(files[k], d) <==> FileOf(moduleName, files[k], u) {
      PackageOfDir(moduleName, files[k], d);
    }
    if k :| 0 <= k < |files| && FileImports(moduleName, files[k], u, v) { assert ImportsFrom(files[k], d, v); }
    if k :| 0 <= k < |files| && ImportsFrom(files[k], d, v) {
      if v != u && Internal(moduleName, v) { assert FileImports(moduleName, files[k], u, v); }
    }
  }

  /** The cycles V80 reports for a module.  The graph's keys are the module itself, when its own
      directory holds a counted file, and module, slash and directory for every other directory that
      does.  Directories that import each other by those names, directly or not, are listed together,
      and nothing is listed exactly when no chain of such imports returns to its start. */
  method FindImportCycles(moduleName: string, files: seq<GoFile>) returns (cycles: seq<seq<Node>>, graph: Graph)
    ensures IsImportGraph(moduleName, files, graph)
    ensures IsSccListing(graph, cycles) && ReverseTopological(graph, cycles)
    ensures cycles == [] <==> forall v :: !OnCycle(graph, v)
    ensures moduleName in graph <==> exists k :: 0 <= k < |files| && InDir(files[k], ".")
    ensures forall d :: d != "" && d != "." ==>
      (moduleName + "/" + d in graph <==> exists k :: 0 <= k < |files| && InDir(files[k], d))
    ensures forall u :: u in graph ==> u == moduleName || exists d :: d != "" && d != "." && u == moduleName + "/" + d
    ensures forall d, v :: d != "" && v in Succ(graph, ImportPath(moduleName, d)) ==>
      v == moduleName || exists e :: v == moduleName + "/" + e
    ensures forall d, e :: d != "" && e != "" && d != e ==>
      (ListedTogether(cycles, ImportPath(moduleName, d), ImportPath(moduleName, e))
       <==> DirReach(moduleName, files, d, e) && DirReach(moduleName, files, e, d))
    ensures forall d, e :: DirImports(moduleName, files, d, e) && DirImports(moduleName, files, e, d) ==>
      ListedTogether(cycles, ImportPath(moduleName, d), ImportPath(moduleName, e))
    ensures cycles == [] <==> forall chain :: !DirCycle(moduleName, files, chain)
  {
    hide IsSccListing, ReverseTopological, OnCycle, IsImportGraph, DirReach, DirCycle, DirImports, InDir, ImportPath;
    graph := BuildGraph(moduleName, files);
    EmptyGraphIs(moduleName, files, graph);
    if graph == map[] {
      NothingToList(graph);
      cycles := [];
    } else {
      ghost var steps, entered;
      cycles, steps, entered := TarjanScc(graph);
    }
    SilentIffAcyclic(graph, cycles);
    CyclesByDirectory(moduleName, files, graph, cycles);
    forall d, v | d != "" && v in Succ(graph, ImportPath(moduleName, d))
      ensures v == moduleName || exists e :: v == moduleName + "/" + e
    {
      EdgesAre(moduleName, files, graph, d, v);
    }
  }

  lemma EmptyGraphIs(moduleName: string, files: seq<GoFile>, g: Graph)
    requires IsImportGraph(moduleName, files, g)
    ensures NoSelfEdges(g)
  {
  }

  lemma CyclesByDirectory(moduleName: string, files: seq<GoFile>, g: Graph, cycles: seq<seq<Node>>)
    requires IsImportGraph(moduleName, files, g) && IsSccListing(g, cycles)
    requires cycles == [] <==> forall v :: !OnCycle(g, v)
    ensures moduleName in g <==> exists k :: 0 <= k < |files| && InDir(files[k], ".")
    ensures forall d :: d != "" && d != "." ==>
      (moduleName + "/" + d in g <==> exists k :: 0 <= k < |files| && InDir(files[k], d))
    ensures forall u :: u in g ==> u == moduleName || exists d :: d != "" && d != "." && u == moduleName + "/" + d
    ensures forall d, e :: d != "" && e != "" && d != e ==>
      (ListedTogether(cycles, ImportPath(moduleName, d), ImportPath(moduleName, e))
       <==> DirReach(moduleName, files, d, e) && DirReach(moduleName, files, e, d))
    ensures forall d, e :: DirImports(moduleName, files, d, e) && DirImports(moduleName, files, e, d) ==>
      ListedTogether(cycles, ImportPath(moduleName, d), ImportPath(moduleName, e))
    ensures cycles == [] <==> forall chain :: !DirCycle(moduleName, files, chain)
  {
    hide IsSccListing, OnCycle, IsImportGraph, DirReach, DirCycle, InDir;
    AcyclicIffNoDirCycle(moduleName, files, g);
    KeysAre(moduleName, files, g, ".");
    forall d | d != "" && d != "."
      ensures moduleName + "/" + d in g <==> exists k :: 0 <= k < |files| && InDir(files[k], d)
    {
      KeysAre(moduleName, files, g, d);
    }
    forall u | u in g ensures u == moduleName || exists d :: d != "" && d != "." && u == moduleName + "/" + d {
      var d := KeyIsDir(moduleName, files, g, u);
    }
    forall d, e | d != "" && e != "" && d != e
      ensures ListedTogether(cycles, ImportPath(moduleName, d), ImportPath(moduleName, e))
        <==> DirReach(moduleName, files, d, e) && DirReach(moduleName, files, e, d)
    {
      ListedTogetherIffDirsMutual(moduleName, files, g, cycles, d, e);
    }
    forall d, e | DirImports(moduleName, files, d, e) && DirImports(moduleName, files, e, d)
      ensures ListedTogether(cycles, ImportPath(moduleName, d), ImportPath(moduleName, e))
    {
      DirectMutual(moduleName, files, d, e);
      DirectMutual(moduleName, files, e, d);
      ListedTogetherIffDirsMutual(moduleName, files, g, cycles, d, e);
    }
  }

  lemma NothingToList(g: Graph)
    requires g == map[]
    ensures IsSccListing(g, []) && ReverseTopological(g, [])
  {
    forall c | IsScc(g, c) && |c| > 1 ensures false {
      var v :| v in c;
      SccInsideKeys(g, c, v);
    }
  }
}
