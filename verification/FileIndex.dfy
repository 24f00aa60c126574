/** lib/file_index.py: one pruned walk of the project, and the queries over it. */
module FileIndex {
  import opened Framing
  import opened Glob
  import opened Options
  import opened OrderedDict
  import opened Selection
  import opened Text

  // ---- exclude prefixes -------------------------------------------------------------

  const DEFAULT_PRUNE_NAMES: set<string> := {
    ".git", ".hg", ".svn", "node_modules", "vendor", "__pycache__", ".venv", ".tox",
    ".mypy_cache", ".pytest_cache", ".ruff_cache", ".next", ".turbo"}

  function Prepend(c: char, parts: seq<string>): seq<string>
    requires |parts| >= 1
  {
    if c == '/' then [""] + parts else [[c] + parts[0]] + parts[1..]
  }

  /** `s.split("/")` */
  function Components(s: string): (parts: seq<string>)
    ensures |parts| >= 1
  {
    if s == "" then [""] else Prepend(s[0], Components(s[1..]))
  }

  predicate MatchesPrefix(rel: string, pre: string) {
    if StartsWith(pre, "**/") then pre[3..] in Components(rel)
    else rel == pre || StartsWith(rel, pre + "/")
  }

  predicate MatchesAnyPrefix(rel: string, prefixes: seq<string>) {
    exists i :: 0 <= i < |prefixes| && MatchesPrefix(rel, prefixes[i])
  }

  lemma {:induction false} ComponentsJoin(a: string, b: string)
    ensures Components(a + "/" + b) == Components(a) + Components(b)
  {
    var s := a + "/" + b;
    if a == "" {
      assert s[1..] == b;
    } else {
      ComponentsJoin(a[1..], b);
      assert s[1..] == a[1..] + "/" + b;
      PrependConcat(a[0], Components(a[1..]), Components(b));
    }
  }

  lemma PrependConcat(c: char, p: seq<string>, q: seq<string>)
    requires |p| >= 1
    ensures Prepend(c, p + q) == Prepend(c, p) + q
  {
  }

  // ---- what the two forms of a prefix match ---------------------------------------------

  /** A plain prefix matches the directory itself and what is below it, and not a longer name. */
  lemma PlainPrefixIff(rel: string, pre: string)
    requires !StartsWith(pre, "**/")
    ensures MatchesPrefix(rel, pre) <==> rel == pre || exists below :: rel == pre + "/" + below
  {
    if StartsWith(rel, pre + "/") { assert rel == pre + "/" + rel[|pre| + 1..]; }
    if below :| rel == pre + "/" + below { assert rel[..|pre| + 1] == pre + "/"; }
  }

  /** `"/".join(parts)` */
  function Joined(parts: seq<string>): string {
    if parts == [] then "" else if |parts| == 1 then parts[0] else parts[0] + "/" + Joined(parts[1..])
  }

  lemma {:induction false} JoinedComponents(s: string)
    ensures Joined(Components(s)) == s
    ensures forall i :: 0 <= i < |Components(s)| ==> '/' !in Components(s)[i]
  {
    if s == "" {
    } else {
      var parts := Components(s[1..]);
      JoinedComponents(s[1..]);
      if s[0] == '/' {
        assert Components(s)[1..] == parts;
        assert Joined(Components(s)) == "" + "/" + Joined(parts);
      } else {
        assert Components(s)[1..] == parts[1..];
        assert |parts| > 1 ==>
          [s[0]] + parts[0] + "/" + Joined(parts[1..]) == [s[0]] + (parts[0] + "/" + Joined(parts[1..]));
      }
    }
  }

  lemma {:induction false} ComponentsOfName(name: string)
    requires '/' !in name
    ensures Components(name) == [name]
  {
    if name == "" {
    } else {
      ComponentsOfName(name[1..]);
      assert [name[0]] + name[1..] == name;
    }
  }

  lemma JoinedCons(part: string, rest: seq<string>)
    ensures Joined([part] + rest) == if rest == [] then part else part + "/" + Joined(rest)
  {
    assert ([part] + rest)[1..] == rest;
  }

  lemma {:induction false} JoinedSplit(parts: seq<string>, k: nat)
    requires k < |parts|
    ensures Joined(parts) == (if k == 0 then "" else Joined(parts[..k]) + "/") + parts[k]
      + (if k == |parts| - 1 then "" else "/" + Joined(parts[k + 1..]))
  {
    hide Joined;
    var first, rest := parts[0], parts[1..];
    assert parts == [first] + rest;
    JoinedCons(first, rest);
    if k == 0 {
      assert parts[1..] == rest;
    } else {
      JoinedSplit(rest, k - 1);
      assert rest[k - 1] == parts[k] && rest[k..] == parts[k + 1..];
      assert parts[..k] == [first] + rest[..k - 1];
      JoinedCons(first, rest[..k - 1]);
      var tail := if k == |parts| - 1 then "" else "/" + Joined(parts[k + 1..]);
      if k > 1 {
        var amid := Joined(rest[..k - 1]);
        assert first + "/" + (amid + "/" + parts[k] + tail) == first + "/" + amid + "/" + parts[k] + tail;
      } else {
        assert first + "/" + ("" + parts[k] + tail) == first + "/" + parts[k] + tail;
      }
    }
  }

  lemma ComponentSplits(rel: string, name: string)
    requires name in Components(rel)
    ensures
      || rel == name
      || (exists below :: rel == name + "/" + below)
      || (exists above :: rel == above + "/" + name)
      || (exists above, below :: rel == above + "/" + name + "/" + below)
  {
    hide Components, Joined;
    var parts := Components(rel);
    var k :| 0 <= k < |parts| && parts[k] == name;
    JoinedComponents(rel);
    JoinedSplit(parts, k);
    var above, below := Joined(parts[..k]), Joined(parts[k + 1..]);
    if k == 0 {
      assert |parts| > 1 ==> rel == name + "/" + below;
    } else if k == |parts| - 1 {
      assert rel == above + "/" + name;
    } else {
      assert rel == above + "/" + name + "/" + below;
    }
  }

  lemma ComponentAmid(above: string, name: string, below: string)
    requires '/' !in name
    ensures name in Components(name) && name in Components(name + "/" + below)
    ensures name in Components(above + "/" + name)
    ensures name in Components(above + "/" + name + "/" + below)
  {
    hide Components;
    ComponentsOfName(name);
    ComponentsJoin(name, below);
    ComponentsJoin(above, name);
    ComponentsJoin(above, name + "/" + below);
    assert above + "/" + name + "/" + below == above + "/" + (name + "/" + below);
  }

  /** A "**" prefix matches the paths with that name among their components. */
  lemma DepthPrefixIff(rel: string, name: string)
    requires '/' !in name
    ensures MatchesPrefix(rel, "**/" + name) <==>
      || rel == name
      || (exists below :: rel == name + "/" + below)
      || (exists above :: rel == above + "/" + name)
      || (exists above, below :: rel == above + "/" + name + "/" + below)
  {
    hide Components;
    assert ("**/" + name)[3..] == name && ("**/" + name)[..3] == "**/";
    if name in Components(rel) { ComponentSplits(rel, name); }
    if rel == name { ComponentAmid("", name, ""); }
    if below :| rel == name + "/" + below { ComponentAmid("", name, below); }
    if above :| rel == above + "/" + name { ComponentAmid(above, name, ""); }
    if above, below :| rel == above + "/" + name + "/" + below { ComponentAmid(above, name, below); }
  }

  /** An excluded directory excludes everything below it. */
  lemma ExclusionIsClosed(rel: string, below: string, prefixes: seq<string>)
    requires MatchesAnyPrefix(rel, prefixes)
    ensures MatchesAnyPrefix(rel + "/" + below, prefixes)
  {
    var i :| 0 <= i < |prefixes| && MatchesPrefix(rel, prefixes[i]);
    var pre, s := prefixes[i], rel + "/" + below;
    if StartsWith(pre, "**/") {
      ComponentsJoin(rel, below);
    } else if rel == pre {
      assert s[..|pre| + 1] == pre + "/";
    } else {
      assert s[..|pre| + 1] == rel[..|pre| + 1];
    }
    assert MatchesPrefix(s, prefixes[i]);
  }

  // ---- the tree and the walk -----------------------------------------------------------

  datatype Stat = Stat(size: nat, mtime: int)

  /** A file as the directory lists it, with its stat when that succeeds. */
  datatype FileNode = FileNode(name: string, stat: Option<Stat>)

  datatype Dir = Dir(files: seq<FileNode>, dirs: Dirs)
  datatype Dirs = NoDirs | Sub(name: string, dir: Dir, rest: Dirs)

  /** An indexed file; its path is relative to the root. */
  datatype Entry = Entry(path: string, name: string, size: nat, mtime: int)

  function Child(rel: string, name: string): string {
    if rel == "" then name else rel + "/" + name
  }

  predicate Pruned(rel: string, name: string, prefixes: seq<string>) {
    name in DEFAULT_PRUNE_NAMES || MatchesAnyPrefix(Child(rel, name), prefixes)
  }

  function EntriesOf(rel: string, files: seq<FileNode>): seq<Entry> {
    if files == [] then [] else
      var f := files[0];
      (if f.stat.Some? then [Entry(Child(rel, f.name), f.name, f.stat.value.size, f.stat.value.mtime)] else [])
        + EntriesOf(rel, files[1..])
  }

  function Walk(rel: string, d: Dir, prefixes: seq<string>): seq<Entry>
    decreases d
  {
    EntriesOf(rel, d.files) + WalkDirs(rel, d.dirs, prefixes)
  }

  function WalkDirs(rel: string, ds: Dirs, prefixes: seq<string>): seq<Entry>
    decreases ds
  {
    match ds
    case NoDirs => []
    case Sub(name, dir, rest) =>
      (if Pruned(rel, name, prefixes) then [] else Walk(Child(rel, name), dir, prefixes))
        + WalkDirs(rel, rest, prefixes)
  }

  // ---- the walk as a filter on every file ------------------------------------------------

  /** A directory below the root on the way to a file: its name and relative path. */
  datatype Step = Step(name: string, rel: string)

  datatype Located = Located(entry: Entry, trail: seq<Step>)

  function Locate(entries: seq<Entry>, trail: seq<Step>): seq<Located> {
    if entries == [] then [] else [Located(entries[0], trail)] + Locate(entries[1..], trail)
  }

  /** Every stat-able file of the tree, nothing pruned. */
  function AllFiles(rel: string, d: Dir, trail: seq<Step>): seq<Located>
    decreases d
  {
    Locate(EntriesOf(rel, d.files), trail) + AllFilesBelow(rel, d.dirs, trail)
  }

  function AllFilesBelow(rel: string, ds: Dirs, trail: seq<Step>): seq<Located>
    decreases ds
  {
    match ds
    case NoDirs => []
    case Sub(name, dir, rest) =>
      AllFiles(Child(rel, name), dir, trail + [Step(name, Child(rel, name))]) + AllFilesBelow(rel, rest, trail)
  }

  predicate StepPruned(s: Step, prefixes: seq<string>) {
    s.name in DEFAULT_PRUNE_NAMES || MatchesAnyPrefix(s.rel, prefixes)
  }

  predicate TrailKept(trail: seq<Step>, prefixes: seq<string>) {
    forall i :: 0 <= i < |trail| ==> !StepPruned(trail[i], prefixes)
  }

  function Kept(prefixes: seq<string>): Located -> bool {
    (l: Located) => TrailKept(l.trail, prefixes)
  }

  function EntriesOnly(ls: seq<Located>): seq<Entry> {
    if ls == [] then [] else [ls[0].entry] + EntriesOnly(ls[1..])
  }

  lemma EntriesOnlyCons(l: Located, ls: seq<Located>)
    ensures EntriesOnly([l] + ls) == [l.entry] + EntriesOnly(ls)
  {
    assert ([l] + ls)[1..] == ls;
  }

  lemma {:induction false} EntriesOnlyConcat(a: seq<Located>, b: seq<Located>)
    ensures EntriesOnly(a + b) == EntriesOnly(a) + EntriesOnly(b)
  {
    if a == [] {
      assert a + b == b;
    } else {
      hide EntriesOnly;
      EntriesOnlyConcat(a[1..], b);
      assert a == [a[0]] + a[1..] && a + b == [a[0]] + (a[1..] + b);
      EntriesOnlyCons(a[0], a[1..]);
      EntriesOnlyCons(a[0], a[1..] + b);
    }
  }

  lemma {:induction false} LocatedHere(entries: seq<Entry>, trail: seq<Step>, prefixes: seq<string>)
    ensures EntriesOnly(Filter(Locate(entries, trail), Kept(prefixes)))
      == if TrailKept(trail, prefixes) then entries else []
  {
    if entries == [] {
    } else {
      LocatedHere(entries[1..], trail, prefixes);
    }
  }

  lemma TrailExtend(trail: seq<Step>, s: Step, prefixes: seq<string>)
    ensures TrailKept(trail + [s], prefixes) <==> TrailKept(trail, prefixes) && !StepPruned(s, prefixes)
  {
    var t := trail + [s];
    assert t[|trail|] == s;
    assert forall i :: 0 <= i < |trail| ==> t[i] == trail[i];
  }

  lemma WalkIsFilter(rel: string, d: Dir, trail: seq<Step>, prefixes: seq<string>)
    ensures EntriesOnly(Filter(AllFiles(rel, d, trail), Kept(prefixes)))
      == if TrailKept(trail, prefixes) then Walk(rel, d, prefixes) else []
    decreases d
  {
    var here, below := Locate(EntriesOf(rel, d.files), trail), AllFilesBelow(rel, d.dirs, trail);
    LocatedHere(EntriesOf(rel, d.files), trail, prefixes);
    WalkDirsIsFilter(rel, d.dirs, trail, prefixes);
    FilterConcat(here, below, Kept(prefixes));
    EntriesOnlyConcat(Filter(here, Kept(prefixes)), Filter(below, Kept(prefixes)));
  }

  lemma WalkDirsIsFilter(rel: string, ds: Dirs, trail: seq<Step>, prefixes: seq<string>)
    ensures EntriesOnly(Filter(AllFilesBelow(rel, ds, trail), Kept(prefixes)))
      == if TrailKept(trail, prefixes) then WalkDirs(rel, ds, prefixes) else []
    decreases ds
  {
    match ds
    case NoDirs =>
    case Sub(name, dir, rest) =>
      var s := Step(name, Child(rel, name));
      var first, more := AllFiles(Child(rel, name), dir, trail + [s]), AllFilesBelow(rel, rest, trail);
      WalkIsFilter(Child(rel, name), dir, trail + [s], prefixes);
      WalkDirsIsFilter(rel, rest, trail, prefixes);
      TrailExtend(trail, s, prefixes);
      FilterConcat(first, more, Kept(prefixes));
      EntriesOnlyConcat(Filter(first, Kept(prefixes)), Filter(more, Kept(prefixes)));
  }

  /** The index holds, in walk order, exactly the stat-able files with no pruned directory
      above them. */
  lemma PrunedWalkIsFilter(root: Dir, prefixes: seq<string>)
    ensures Walk("", root, prefixes) == EntriesOnly(Filter(AllFiles("", root, []), Kept(prefixes)))
  {
    WalkIsFilter("", root, [], prefixes);
  }

  // ---- one test on the parent suffices -----------------------------------------------------

  /** Each directory of the trail is a child of the one before. */
  predicate Chained(trail: seq<Step>) {
    forall i :: 0 < i < |trail| ==> ChainedAt(trail, i)
  }

  predicate ChainedAt(trail: seq<Step>, i: int)
    requires 0 < i < |trail|
  {
    trail[i].rel == trail[i - 1].rel + "/" + trail[i].name
  }

  lemma {:induction false} ExclusionReachesParent(trail: seq<Step>, i: nat, prefixes: seq<string>)
    requires Chained(trail) && i < |trail| && MatchesAnyPrefix(trail[i].rel, prefixes)
    ensures MatchesAnyPrefix(trail[|trail| - 1].rel, prefixes)
    decreases |trail| - i
  {
    if i + 1 < |trail| {
      assert ChainedAt(trail, i + 1);
      ExclusionIsClosed(trail[i].rel, trail[i + 1].name, prefixes);
      ExclusionReachesParent(trail, i + 1, prefixes);
    }
  }

  /** A file is kept exactly when no directory above it has a default-pruned name and its
      parent's relative path matches no exclude prefix. */
  lemma KeptByParent(trail: seq<Step>, prefixes: seq<string>)
    requires Chained(trail)
    ensures TrailKept(trail, prefixes) <==>
      (forall i :: 0 <= i < |trail| ==> trail[i].name !in DEFAULT_PRUNE_NAMES)
      && (trail == [] || !MatchesAnyPrefix(trail[|trail| - 1].rel, prefixes))
  {
    if trail != [] {
      assert TrailKept(trail, prefixes) ==> !StepPruned(trail[|trail| - 1], prefixes);
      forall i | 0 <= i < |trail| && MatchesAnyPrefix(trail[i].rel, prefixes)
        ensures MatchesAnyPrefix(trail[|trail| - 1].rel, prefixes)
      {
        ExclusionReachesParent(trail, i, prefixes);
      }
    }
    if TrailKept(trail, prefixes) {
      forall i | 0 <= i < |trail| ensures trail[i].name !in DEFAULT_PRUNE_NAMES {
        assert !StepPruned(trail[i], prefixes);
      }
    }
  }

  ghost predicate NamedDirs(ds: Dirs) {
    ds.Sub? ==> ds.name != "" && NamedTree(ds.dir) && NamedDirs(ds.rest)
  }

  /** Directory names are not empty. */
  ghost predicate NamedTree(d: Dir) {
    NamedDirs(d.dirs)
  }

  lemma ChainExtend(trail: seq<Step>, name: string)
    requires Chained(trail) && name != ""
    ensures var rel := if trail == [] then "" else trail[|trail| - 1].rel;
      (trail != [] ==> rel != "") ==> Chained(trail + [Step(name, Child(rel, name))])
  {
    var rel := if trail == [] then "" else trail[|trail| - 1].rel;
    var t := trail + [Step(name, Child(rel, name))];
    if trail != [] ==> rel != "" {
      forall i | 0 < i < |t| ensures ChainedAt(t, i) {
        if i < |trail| { assert ChainedAt(trail, i); }
      }
    }
  }

  ghost predicate TrailAt(trail: seq<Step>, rel: string) {
    Chained(trail) && (if trail == [] then rel == "" else rel != "" && trail[|trail| - 1].rel == rel)
  }

  lemma AllChained(rel: string, d: Dir, trail: seq<Step>, l: Located)
    requires NamedTree(d) && TrailAt(trail, rel) && l in AllFiles(rel, d, trail)
    ensures Chained(l.trail)
    decreases d
  {
    LocatedTrail(EntriesOf(rel, d.files), trail, l);
    if l in AllFilesBelow(rel, d.dirs, trail) { AllChainedBelow(rel, d.dirs, trail, l); }
  }

  lemma AllChainedBelow(rel: string, ds: Dirs, trail: seq<Step>, l: Located)
    requires NamedDirs(ds) && TrailAt(trail, rel) && l in AllFilesBelow(rel, ds, trail)
    ensures Chained(l.trail)
    decreases ds
  {
    match ds
    case NoDirs =>
    case Sub(name, dir, rest) =>
      ChainExtend(trail, name);
      if l in AllFilesBelow(rel, rest, trail) {
        AllChainedBelow(rel, rest, trail, l);
      } else {
        AllChained(Child(rel, name), dir, trail + [Step(name, Child(rel, name))], l);
      }
  }

  lemma {:induction false} LocatedTrail(entries: seq<Entry>, trail: seq<Step>, l: Located)
    ensures l in Locate(entries, trail) ==> l.trail == trail
  {
    if entries == [] {
    } else {
      LocatedTrail(entries[1..], trail, l);
    }
  }

  // ---- the index, file by file ----------------------------------------------------------------

  predicate HasSub(ds: Dirs, name: string, dir: Dir) {
    ds.Sub? && ((ds.name == name && ds.dir == dir) || HasSub(ds.rest, name, dir))
  }

  /** The tree holds this file below the directories of these names. */
  ghost predicate HoldsFile(d: Dir, names: seq<string>, f: FileNode)
    decreases |names|
  {
    if names == [] then f in d.files
    else exists sub :: HasSub(d.dirs, names[0], sub) && HoldsFile(sub, names[1..], f)
  }

  /** Directory `k` of the way is pruned neither by name nor by its path from the root. */
  ghost predicate ClearAt(above: seq<string>, names: seq<string>, prefixes: seq<string>, k: int)
    requires 0 <= k < |names|
  {
    && names[k] !in {".git", ".hg", ".svn", "node_modules", "vendor", "__pycache__", ".venv", ".tox",
                     ".mypy_cache", ".pytest_cache", ".ruff_cache", ".next", ".turbo"}
    && !MatchesAnyPrefix(Joined(above + names[..k + 1]), prefixes)
  }

  ghost predicate ClearWay(above: seq<string>, names: seq<string>, prefixes: seq<string>) {
    forall k :: 0 <= k < |names| ==> ClearAt(above, names, prefixes, k)
  }

  lemma ClearFirst(above: seq<string>, names: seq<string>, prefixes: seq<string>)
    requires names != [] && NamedPath(above)
    ensures ClearAt(above, names, prefixes, 0) <==> !Pruned(Joined(above), names[0], prefixes)
  {
    hide Joined, MatchesAnyPrefix;
    JoinedSnoc(above, names[0]);
    assert above + names[..1] == above + [names[0]];
  }

  lemma ClearNext(above: seq<string>, names: seq<string>, prefixes: seq<string>, k: nat)
    requires k + 1 < |names|
    ensures ClearAt(above, names, prefixes, k + 1) <==> ClearAt(above + [names[0]], names[1..], prefixes, k)
  {
    hide Joined, MatchesAnyPrefix;
    assert above + names[..k + 2] == above + [names[0]] + names[1..][..k + 1];
  }

  lemma ClearCons(above: seq<string>, names: seq<string>, prefixes: seq<string>)
    requires names != [] && NamedPath(above)
    ensures ClearWay(above, names, prefixes) <==>
      !Pruned(Joined(above), names[0], prefixes) && ClearWay(above + [names[0]], names[1..], prefixes)
  {
    hide ClearAt, Pruned;
    ClearFirst(above, names, prefixes);
    forall k: nat | k + 1 < |names|
      ensures ClearAt(above, names, prefixes, k + 1) <==> ClearAt(above + [names[0]], names[1..], prefixes, k)
    {
      ClearNext(above, names, prefixes, k);
    }
    if !Pruned(Joined(above), names[0], prefixes) && ClearWay(above + [names[0]], names[1..], prefixes) {
      forall k | 0 <= k < |names| ensures ClearAt(above, names, prefixes, k) {
        if k > 0 { assert ClearAt(above + [names[0]], names[1..], prefixes, k - 1); }
      }
    }
  }

  /** `e` is a stat-able file of the tree on a clear way, under its path and with its stat. */
  ghost predicate FileAt(above: seq<string>, d: Dir, prefixes: seq<string>, e: Entry,
      names: seq<string>, f: FileNode) {
    && HoldsFile(d, names, f) && f.stat.Some? && ClearWay(above, names, prefixes)
    && e == Entry(Joined(above + names + [f.name]), f.name, f.stat.value.size, f.stat.value.mtime)
  }

  ghost predicate Indexed(above: seq<string>, d: Dir, prefixes: seq<string>, e: Entry) {
    exists names, f :: FileAt(above, d, prefixes, e, names, f)
  }

  ghost predicate NamedPath(names: seq<string>) {
    forall i :: 0 <= i < |names| ==> names[i] != ""
  }

  lemma {:induction false} JoinedSnoc(names: seq<string>, name: string)
    requires NamedPath(names)
    ensures Joined(names + [name]) == Child(Joined(names), name)
    ensures names != [] ==> Joined(names) != ""
  {
    if names == [] {
    } else {
      var rest := names[1..];
      assert (names + [name])[1..] == rest + [name];
      forall i | 0 <= i < |rest| ensures rest[i] != "" { assert names[i + 1] != ""; }
      JoinedSnoc(rest, name);
      assert names[0] != "";
      if rest != [] {
        assert names[0] + "/" + (Joined(rest) + "/" + name) == names[0] + "/" + Joined(rest) + "/" + name;
      }
    }
  }

  predicate IsEntryOf(e: Entry, rel: string, f: FileNode) {
    f.stat.Some? && e == Entry(Child(rel, f.name), f.name, f.stat.value.size, f.stat.value.mtime)
  }

  lemma {:induction false} EntriesOfIff(rel: string, files: seq<FileNode>, e: Entry)
    ensures e in EntriesOf(rel, files) <==> exists f :: f in files && IsEntryOf(e, rel, f)
  {
    if files == [] {
    } else {
      EntriesOfIff(rel, files[1..], e);
      if e in EntriesOf(rel, files) {
        if IsEntryOf(e, rel, files[0]) {
          assert files[0] in files;
        } else {
          assert e in EntriesOf(rel, files[1..]);
        }
      }
      if f :| f in files && IsEntryOf(e, rel, f) {
        if f != files[0] { assert f in files[1..]; }
      }
    }
  }

  lemma FilesHere(above: seq<string>, d: Dir, prefixes: seq<string>, e: Entry)
    requires NamedPath(above)
    ensures e in EntriesOf(Joined(above), d.files) <==> exists f :: FileAt(above, d, prefixes, e, [], f)
  {
    hide Joined;
    EntriesOfIff(Joined(above), d.files, e);
    assert above + [] == above;
    forall name ensures Joined(above + [name]) == Child(Joined(above), name) { JoinedSnoc(above, name); }
    if e in EntriesOf(Joined(above), d.files) {
      var f :| f in d.files && IsEntryOf(e, Joined(above), f);
      assert FileAt(above, d, prefixes, e, [], f);
    }
  }

  /** Below one subdirectory: what that subdirectory holds, unless it is pruned. */
  lemma FileBelow(above: seq<string>, d: Dir, prefixes: seq<string>, e: Entry, names: seq<string>, f: FileNode)
    requires names != [] && NamedPath(above)
    ensures FileAt(above, d, prefixes, e, names, f) <==>
      && !Pruned(Joined(above), names[0], prefixes)
      && exists sub :: HasSub(d.dirs, names[0], sub) && FileAt(above + [names[0]], sub, prefixes, e, names[1..], f)
  {
    hide Joined, Pruned, ClearWay;
    ClearCons(above, names, prefixes);
    assert above + names + [f.name] == above + [names[0]] + names[1..] + [f.name];
    if FileAt(above, d, prefixes, e, names, f) {
      var sub :| HasSub(d.dirs, names[0], sub) && HoldsFile(sub, names[1..], f);
      assert FileAt(above + [names[0]], sub, prefixes, e, names[1..], f);
    }
    if sub :| !Pruned(Joined(above), names[0], prefixes) && HasSub(d.dirs, names[0], sub)
              && FileAt(above + [names[0]], sub, prefixes, e, names[1..], f) {
      assert HoldsFile(d, names, f);
    }
  }

  lemma WalkIff(above: seq<string>, d: Dir, prefixes: seq<string>, e: Entry)
    requires NamedTree(d) && NamedPath(above)
    ensures e in Walk(Joined(above), d, prefixes) <==> Indexed(above, d, prefixes, e)
    decreases d
  {
    hide Joined, FileAt, EntriesOf, HasSub;
    FilesHere(above, d, prefixes, e);
    WalkDirsIff(above, d, d.dirs, prefixes, e);
    if Indexed(above, d, prefixes, e) {
      var names, f :| FileAt(above, d, prefixes, e, names, f);
      if names != [] {
        FileBelow(above, d, prefixes, e, names, f);
        var sub :| HasSub(d.dirs, names[0], sub) && FileAt(above + [names[0]], sub, prefixes, e, names[1..], f);
        assert BelowSub(above, d.dirs, prefixes, e, names[0], sub);
      } else {
        assert FileAt(above, d, prefixes, e, [], f);
      }
    }
    if name, sub :| BelowSub(above, d.dirs, prefixes, e, name, sub) {
      var names, f :| FileAt(above + [name], sub, prefixes, e, names, f);
      assert ([name] + names)[1..] == names;
      FileBelow(above, d, prefixes, e, [name] + names, f);
    }
  }

  ghost predicate BelowSub(above: seq<string>, ds: Dirs, prefixes: seq<string>, e: Entry, name: string, sub: Dir) {
    HasSub(ds, name, sub) && !Pruned(Joined(above), name, prefixes) && Indexed(above + [name], sub, prefixes, e)
  }

  lemma WalkDirsIff(above: seq<string>, d: Dir, ds: Dirs, prefixes: seq<string>, e: Entry)
    requires NamedDirs(ds) && NamedPath(above)
    ensures e in WalkDirs(Joined(above), ds, prefixes) <==>
      exists name, sub :: BelowSub(above, ds, prefixes, e, name, sub)
    decreases ds
  {
    hide Joined, Indexed, Pruned;
    match ds
    case NoDirs =>
    case Sub(name, dir, rest) =>
      JoinedSnoc(above, name);
      WalkIff(above + [name], dir, prefixes, e);
      WalkDirsIff(above, d, rest, prefixes, e);
      if n, sub :| BelowSub(above, rest, prefixes, e, n, sub) { assert BelowSub(above, ds, prefixes, e, n, sub); }
      if n, sub :| BelowSub(above, ds, prefixes, e, n, sub) {
        if !(n == name && sub == dir) { assert BelowSub(above, rest, prefixes, e, n, sub); }
      }
      if !Pruned(Joined(above), name, prefixes) && Indexed(above + [name], dir, prefixes, e) {
        assert BelowSub(above, ds, prefixes, e, name, dir);
      }
  }

  /** File by file: an entry is in the index exactly when the tree holds such a file and no directory
      on its way, by name or by path, is pruned. */
  lemma IndexedIff(root: Dir, prefixes: seq<string>, e: Entry)
    requires NamedTree(root)
    ensures e in Walk("", root, prefixes) <==> Indexed([], root, prefixes, e)
  {
    WalkIff([], root, prefixes, e);
  }

  /** The pruned walk, in terms of a test on each file's parent alone. */
  lemma IndexedByParentTest(root: Dir, prefixes: seq<string>, l: Located)
    requires NamedTree(root) && l in AllFiles("", root, [])
    ensures Kept(prefixes)(l) <==>
      (forall i :: 0 <= i < |l.trail| ==> l.trail[i].name !in DEFAULT_PRUNE_NAMES)
      && (l.trail == [] || !MatchesAnyPrefix(l.trail[|l.trail| - 1].rel, prefixes))
  {
    AllChained("", root, [], l);
    KeptByParent(l.trail, prefixes);
  }
}
