/** lib/file_index.py: building the index from the walk, and its two pattern queries. */
module IndexQueries {
  import opened FileIndex
  import opened Framing
  import opened Glob
  import opened Options
  import opened OrderedDict
  import opened Selection
  import opened Text

  // ---- exclude globs to directory prefixes ----------------------------------------------

  function StripSlashes(g: string): string {
    if g != "" && g[|g| - 1] == '/' then StripSlashes(g[..|g| - 1]) else g
  }

  function WithoutGlobTail(s: string): string {
    if EndsWith(s, "/**") then s[..|s| - 3] else if EndsWith(s, "/*") then s[..|s| - 2] else s
  }

  /** `_glob_prefixes` */
  method GlobPrefixes(globs: seq<string>) returns (prefixes: seq<string>)
    ensures forall p :: p in prefixes <==>
      exists i :: 0 <= i < |globs| && p == WithoutGlobTail(StripSlashes(globs[i])) && p != "" && '*' !in Basename(p)
  {
    prefixes := [];
    for n := 0 to |globs|
      invariant forall p :: p in prefixes <==>
        exists i :: 0 <= i < n && p == WithoutGlobTail(StripSlashes(globs[i])) && p != "" && '*' !in Basename(p)
    {
      var stripped := WithoutGlobTail(StripSlashes(globs[n]));
      if stripped == "" { continue; }
      if '*' in Basename(stripped) {
        NoStarBeyondLead(stripped);
        if StartsWith(stripped, "**/") && '*' !in stripped[3..] {
          prefixes := prefixes + [stripped];
        }
        continue;
      }
      prefixes := prefixes + [stripped];
    }
  }

  lemma {:induction false} BasenameChars(s: string, c: char)
    ensures c in Basename(s) ==> c in s
  {
    if '/' !in s {
    } else {
      BasenameChars(s[1..], c);
    }
  }

  /** The glob of a directory, with or without a final "/" and star or two and any slashes after it,
      gives back the directory. */
  lemma GlobOfDirectory(dir: string, tail: string, slashes: string)
    requires dir != "" && dir[|dir| - 1] != '/' && dir[|dir| - 1] != '*'
    requires tail in {"", "/*", "/**"} && forall i :: 0 <= i < |slashes| ==> slashes[i] == '/'
    ensures WithoutGlobTail(StripSlashes(dir + tail + slashes)) == dir
  {
    SlashesStripped(dir + tail, slashes);
    TailCut(dir, tail);
  }

  lemma TailCut(dir: string, tail: string)
    requires dir != "" && dir[|dir| - 1] != '/' && dir[|dir| - 1] != '*' && tail in {"", "/*", "/**"}
    ensures StripSlashes(dir + tail) == dir + tail && WithoutGlobTail(dir + tail) == dir
  {
    hide WithoutGlobTail;
    if tail == "" {
      assert dir + tail == dir;
      NoTail(dir);
    } else if tail == "/*" {
      StarTail(dir);
    } else {
      StarsTail(dir);
    }
  }

  lemma LastOfTail(s: string, tail: string)
    requires EndsWith(s, tail) && tail != ""
    ensures s != "" && s[|s| - 1] == tail[|tail| - 1] && s[|s| - |tail|] == tail[0]
  {
    var end := s[|s| - |tail|..];
    assert end[|tail| - 1] == s[|s| - 1] && end[0] == s[|s| - |tail|];
  }

  lemma NoTail(s: string)
    requires s != "" && s[|s| - 1] != '*'
    ensures WithoutGlobTail(s) == s
  {
    if EndsWith(s, "/**") { LastOfTail(s, "/**"); }
    if EndsWith(s, "/*") { LastOfTail(s, "/*"); }
  }

  lemma StarTail(dir: string)
    requires dir != "" && dir[|dir| - 1] != '/'
    ensures WithoutGlobTail(dir + "/*") == dir && StripSlashes(dir + "/*") == dir + "/*"
  {
    var s := dir + "/*";
    assert s[|dir| - 1] == dir[|dir| - 1] && s[..|dir|] == dir && s[|dir|..] == "/*";
    if EndsWith(s, "/**") { LastOfTail(s, "/**"); }
  }

  lemma StarsTail(dir: string)
    ensures WithoutGlobTail(dir + "/**") == dir && StripSlashes(dir + "/**") == dir + "/**"
  {
    var s := dir + "/**";
    assert s[..|dir|] == dir && s[|dir|..] == "/**";
  }

  lemma StripOne(s: string)
    ensures StripSlashes(s + "/") == StripSlashes(s)
  {
    assert (s + "/")[..|s|] == s;
  }

  lemma {:induction false} SlashesStripped(s: string, slashes: string)
    requires forall i :: 0 <= i < |slashes| ==> slashes[i] == '/'
    ensures StripSlashes(s + slashes) == StripSlashes(s)
  {
    hide StripSlashes;
    if slashes == "" {
      assert s + slashes == s;
    } else {
      var last := |slashes| - 1;
      SlashesStripped(s, slashes[..last]);
      assert s + slashes == (s + slashes[..last]) + "/";
      StripOne(s + slashes[..last]);
    }
  }

  /** The "**" allowance inside the wildcard test is never taken: a star in the last component
      is a star after the leading "**" and slash. */
  lemma NoStarBeyondLead(s: string)
    ensures '*' in Basename(s) && StartsWith(s, "**/") ==> '*' in s[3..]
  {
    if '*' in Basename(s) && StartsWith(s, "**/") {
      assert s == "**" + "/" + s[3..];
      BasenameAfterSlash("**", s[3..]);
      BasenameChars(s[3..], '*');
    }
  }

  // ---- the index ----------------------------------------------------------------------------

  datatype Index = Index(entries: seq<Entry>, byExt: map<string, seq<Entry>>, byName: Dict<string, seq<Entry>>)

  function ExtOf(e: Entry): string { Lower(SuffixOf(e.name)) }

  function HasExt(ext: string): Entry -> bool { (e: Entry) => ExtOf(e) == ext }

  function HasName(name: string): Entry -> bool { (e: Entry) => e.name == name }

  function ExtBucket(ix: Index, ext: string): seq<Entry> {
    if ext in ix.byExt then ix.byExt[ext] else []
  }

  function NameBucket(ix: Index, name: string): seq<Entry> {
    match Lookup(ix.byName, name)
    case None => []
    case Some(b) => b
  }

  /** The buckets partition the entries: by suffix (entries without one are in none) and by name. */
  ghost predicate Partitions(ix: Index) {
    && UniqueKeys(ix.byName)
    && (forall ext :: ExtBucket(ix, ext) == if ext == "" then [] else Filter(ix.entries, HasExt(ext)))
    && (forall name :: NameBucket(ix, name) == Filter(ix.entries, HasName(name)))
  }

  function AddEntry(ix: Index, e: Entry): Index {
    Index(ix.entries + [e],
      if ExtOf(e) == "" then ix.byExt else ix.byExt[ExtOf(e) := ExtBucket(ix, ExtOf(e)) + [e]],
      Put(ix.byName, e.name, NameBucket(ix, e.name) + [e]))
  }

  lemma AddKeepsPartition(ix: Index, e: Entry)
    requires Partitions(ix)
    ensures Partitions(AddEntry(ix, e))
  {
    hide ExtOf;
    var ix' := AddEntry(ix, e);
    PutUnique(ix.byName, e.name, NameBucket(ix, e.name) + [e]);
    forall ext ensures ExtBucket(ix', ext) == if ext == "" then [] else Filter(ix'.entries, HasExt(ext)) {
      FilterConcat(ix.entries, [e], HasExt(ext));
      FilterOne(e, HasExt(ext));
    }
    forall name ensures NameBucket(ix', name) == Filter(ix'.entries, HasName(name)) {
      PutLookup(ix.byName, e.name, NameBucket(ix, e.name) + [e], name);
      FilterConcat(ix.entries, [e], HasName(name));
      FilterOne(e, HasName(name));
    }
  }

  lemma FilterOne(e: Entry, keep: Entry -> bool)
    ensures Filter([e], keep) == if keep(e) then [e] else []
  {
  }

  /** Directories still to visit, next one first. */
  datatype Pending = Pending(rel: string, dir: Dir)

  function WalkAll(pending: seq<Pending>, prefixes: seq<string>): seq<Entry> {
    if pending == [] then []
    else Walk(pending[0].rel, pending[0].dir, prefixes) + WalkAll(pending[1..], prefixes)
  }

  function Size(d: Dir): nat
    decreases d
  {
    1 + SizeBelow(d.dirs)
  }

  function SizeBelow(ds: Dirs): nat
    decreases ds
  {
    match ds
    case NoDirs => 0
    case Sub(_, dir, rest) => Size(dir) + SizeBelow(rest)
  }

  function TotalSize(pending: seq<Pending>): nat {
    if pending == [] then 0 else Size(pending[0].dir) + TotalSize(pending[1..])
  }

  lemma {:induction false} WalkAllConcat(a: seq<Pending>, b: seq<Pending>, prefixes: seq<string>)
    ensures WalkAll(a + b, prefixes) == WalkAll(a, prefixes) + WalkAll(b, prefixes)
  {
    hide Walk;
    if a == [] {
      assert a + b == b;
    } else {
      WalkAllConcat(a[1..], b, prefixes);
      assert (a + b)[1..] == a[1..] + b;
      ConcatAssociative(Walk(a[0].rel, a[0].dir, prefixes), WalkAll(a[1..], prefixes), WalkAll(b, prefixes));
    }
  }

  lemma {:induction false} TotalSizeConcat(a: seq<Pending>, b: seq<Pending>)
    ensures TotalSize(a + b) == TotalSize(a) + TotalSize(b)
  {
    hide Size;
    if a == [] {
      assert a + b == b;
    } else {
      TotalSizeConcat(a[1..], b);
      assert (a + b)[1..] == a[1..] + b;
    }
  }

  /** The pruning loop: `dirnames[:] = kept`. */
  method KeepDirs(rel: string, dirs: Dirs, prefixes: seq<string>) returns (kept: seq<Pending>)
    ensures WalkAll(kept, prefixes) == WalkDirs(rel, dirs, prefixes)
    ensures TotalSize(kept) <= SizeBelow(dirs)
  {
    hide Walk, WalkAll, TotalSize, Size, MatchesAnyPrefix, Child;
    kept := [];
    WalkNone(prefixes);
    var left := dirs;
    while left.Sub?
      invariant WalkAll(kept, prefixes) + WalkDirs(rel, left, prefixes) == WalkDirs(rel, dirs, prefixes)
      invariant TotalSize(kept) + SizeBelow(left) <= SizeBelow(dirs)
      decreases left
    {
      var Sub(name, dir, rest) := left;
      left := rest;
      if name in DEFAULT_PRUNE_NAMES { continue; }
      var childRel := Child(rel, name);
      if MatchesAnyPrefix(childRel, prefixes) { continue; }
      WalkAllConcat(kept, [Pending(childRel, dir)], prefixes);
      TotalSizeConcat(kept, [Pending(childRel, dir)]);
      WalkOne(Pending(childRel, dir), prefixes);
      kept := kept + [Pending(childRel, dir)];
    }
  }

  lemma WalkOne(p: Pending, prefixes: seq<string>)
    ensures WalkAll([p], prefixes) == Walk(p.rel, p.dir, prefixes)
    ensures TotalSize([p]) == Size(p.dir)
  {
  }

  /** The file loop: stat, then bucket. */
  method IndexFiles(ix0: Index, rel: string, files: seq<FileNode>) returns (ix: Index)
    requires Partitions(ix0)
    ensures Partitions(ix) && ix.entries == ix0.entries + EntriesOf(rel, files)
  {
    hide Partitions, ExtOf;
    ix := ix0;
    for n := 0 to |files|
      invariant Partitions(ix)
      invariant ix.entries + EntriesOf(rel, files[n..]) == ix0.entries + EntriesOf(rel, files)
    {
      assert files[n..][1..] == files[n + 1..];
      var f := files[n];
      if f.stat.None? { continue; }
      var e := Entry(Child(rel, f.name), f.name, f.stat.value.size, f.stat.value.mtime);
      AddKeepsPartition(ix, e);
      ix := AddEntry(ix, e);
    }
    assert EntriesOf(rel, files[|files|..]) == [];
  }

  /** `ProjectFileIndex.build`: the entries are the pruned walk, and the buckets partition them. */
  method Build(root: Option<Dir>, prefixes: seq<string>) returns (ix: Index)
    ensures Partitions(ix)
    ensures ix.entries == if root.Some? then Walk("", root.value, prefixes) else []
    ensures root.Some? && NamedTree(root.value) ==>
      forall e :: e in ix.entries <==> Indexed([], root.value, prefixes, e)
  {
    hide Partitions, WalkAll, TotalSize, EntriesOf, WalkDirs, SizeBelow, Indexed, NamedTree;
    if root.Some? && NamedTree(root.value) {
      forall e ensures e in Walk("", root.value, prefixes) <==> Indexed([], root.value, prefixes, e) {
        IndexedIff(root.value, prefixes, e);
      }
    }
    ix := Index([], map[], []);
    EmptyPartitions();
    if root.None? { return; }
    var pending := [Pending("", root.value)];
    WalkOne(pending[0], prefixes);
    while pending != []
      invariant Partitions(ix)
      invariant ix.entries + WalkAll(pending, prefixes) == Walk("", root.value, prefixes)
      decreases TotalSize(pending)
    {
      var Pending(rel, dir) := pending[0];
      var kept := KeepDirs(rel, dir.dirs, prefixes);
      ix := IndexFiles(ix, rel, dir.files);
      WalkAllSplit(pending, prefixes);
      WalkAllConcat(kept, pending[1..], prefixes);
      TotalSizeConcat(kept, pending[1..]);
      pending := kept + pending[1..];
    }
    WalkNone(prefixes);
  }

  lemma WalkNone(prefixes: seq<string>)
    ensures WalkAll([], prefixes) == [] && TotalSize([]) == 0
  {
  }

  lemma WalkAllSplit(pending: seq<Pending>, prefixes: seq<string>)
    requires pending != []
    ensures WalkAll(pending, prefixes)
      == Walk(pending[0].rel, pending[0].dir, prefixes) + WalkAll(pending[1..], prefixes)
    ensures TotalSize(pending) == 1 + SizeBelow(pending[0].dir.dirs) + TotalSize(pending[1..])
  {
  }

  lemma EmptyPartitions()
    ensures Partitions(Index([], map[], []))
  {
  }

  // ---- queries ---------------------------------------------------------------------------------

  function SlowLookup(byName: Dict<string, seq<Entry>>, pattern: string): seq<Entry> {
    if byName == [] then []
    else (if Matches(pattern, byName[0].0) then byName[0].1 else []) + SlowLookup(byName[1..], pattern)
  }

  /** `_lookup`: one bucket for a "*.ext" pattern, a scan of the distinct names otherwise. */
  function LookupPattern(ix: Index, pattern: string): seq<Entry> {
    match PureExt(pattern)
    case Some(ext) => ExtBucket(ix, ext)
    case None => SlowLookup(ix.byName, pattern)
  }

  function LookupAll(ix: Index, patterns: seq<string>): seq<Entry> {
    if patterns == [] then [] else LookupPattern(ix, patterns[0]) + LookupAll(ix, patterns[1..])
  }

  function FirstByPath(entries: seq<Entry>, seen: set<string>): seq<Entry> {
    if entries == [] then []
    else if entries[0].path in seen then FirstByPath(entries[1..], seen)
    else [entries[0]] + FirstByPath(entries[1..], seen + {entries[0].path})
  }

  /** The entries a query is about, each path once, in query order. */
  function Found(ix: Index, patterns: seq<string>): seq<Entry> {
    FirstByPath(LookupAll(ix, patterns), {})
  }

  function PathsOf(entries: seq<Entry>): seq<string> {
    if entries == [] then [] else [entries[0].path] + PathsOf(entries[1..])
  }

  /** `f"{path}:{size}:{mtime_ns}\n"`, with the path's encoding as a parameter. */
  function Line(e: Entry, encode: string -> Bytes): Bytes {
    encode(e.path) + [COLON] + Decimal(e.size) + [COLON] + SignedDecimal(e.mtime) + [NEWLINE]
  }

  function Lines(entries: seq<Entry>, encode: string -> Bytes): Bytes {
    if entries == [] then [] else Line(entries[0], encode) + Lines(entries[1..], encode)
  }

  // ---- what a query is about ------------------------------------------------------------------

  /** A "*.ext" pattern wants the suffix, in any letter case; any other wants a matching name. */
  ghost predicate Wants(pattern: string, e: Entry) {
    match PureExt(pattern)
    case Some(ext) => Lower(SuffixOf(e.name)) == ext
    case None => Matches(pattern, e.name)
  }

  /** Pattern `k` wants some indexed file with this path. */
  ghost predicate WantsPath(ix: Index, patterns: seq<string>, k: int, path: string) {
    0 <= k < |patterns| && exists e :: e in ix.entries && e.path == path && Wants(patterns[k], e)
  }

  /** Some pattern wants this indexed file. */
  ghost predicate IsWanted(ix: Index, patterns: seq<string>, e: Entry) {
    e in ix.entries && exists k :: 0 <= k < |patterns| && Wants(patterns[k], e)
  }

  predicate HasPath(rows: seq<Entry>, path: string) {
    exists i :: 0 <= i < |rows| && rows[i].path == path
  }

  ghost predicate WantedUpTo(ix: Index, patterns: seq<string>, k: int, path: string) {
    exists m :: m <= k && WantsPath(ix, patterns, m, path)
  }

  /** The paths are ordered by the first pattern that wants them. */
  ghost predicate InQueryOrder(ix: Index, patterns: seq<string>, paths: seq<string>) {
    forall i, j, k :: 0 <= i < j < |paths| && WantsPath(ix, patterns, k, paths[j]) ==>
      WantedUpTo(ix, patterns, k, paths[i])
  }

  /** The answer to a query: every path that some pattern wants, once, as an entry that some
      pattern wants, and ordered by the first pattern that wants it. */
  ghost predicate IsAnswer(ix: Index, patterns: seq<string>, rows: seq<Entry>) {
    && (forall i :: 0 <= i < |rows| ==> IsWanted(ix, patterns, rows[i]))
    && (forall k, path :: WantsPath(ix, patterns, k, path) ==> HasPath(rows, path))
    && (forall i, j :: 0 <= i < j < |rows| ==> rows[i].path != rows[j].path)
    && InQueryOrder(ix, patterns, PathsOf(rows))
  }

  lemma LookupPatternExact(ix: Index, pattern: string, e: Entry)
    requires Partitions(ix)
    ensures e in LookupPattern(ix, pattern) <==> e in ix.entries && Wants(pattern, e)
  {
    hide Partitions, Matches, SuffixOf, PureExt, SlowLookup;
    if PureExt(pattern).Some? {
      FastLookupExact(ix, pattern, e);
    } else {
      SlowLookupExact(ix, pattern, e);
    }
  }

  function PathSet(entries: seq<Entry>): set<string> {
    set e | e in entries :: e.path
  }

  lemma PathSetCons(e: Entry, entries: seq<Entry>)
    ensures PathSet([e] + entries) == {e.path} + PathSet(entries)
  {
  }

  lemma FirstByPathCons(e: Entry, entries: seq<Entry>, seen: set<string>)
    ensures FirstByPath([e] + entries, seen)
      == if e.path in seen then FirstByPath(entries, seen) else [e] + FirstByPath(entries, seen + {e.path})
  {
    assert ([e] + entries)[1..] == entries;
  }

  lemma {:induction false} FirstByPathConcat(a: seq<Entry>, b: seq<Entry>, seen: set<string>)
    ensures FirstByPath(a + b, seen) == FirstByPath(a, seen) + FirstByPath(b, seen + PathSet(a))
  {
    hide FirstByPath;
    if a == [] {
      NothingFirst(seen);
      assert a + b == b && seen + PathSet(a) == seen;
    } else {
      hide PathSet;
      var e, rest := a[0], a[1..];
      var seen' := if e.path in seen then seen else seen + {e.path};
      assert a == [e] + rest && a + b == [e] + (rest + b);
      PathSetCons(e, rest);
      FirstByPathCons(e, rest, seen);
      FirstByPathCons(e, rest + b, seen);
      FirstByPathConcat(rest, b, seen');
      assert seen + PathSet(a) == seen' + PathSet(rest);
    }
  }

  lemma LookupAllIff(ix: Index, patterns: seq<string>, e: Entry)
    requires Partitions(ix)
    ensures e in LookupAll(ix, patterns) <==> IsWanted(ix, patterns, e)
  {
    hide Partitions, Wants, LookupPattern;
    if patterns == [] {
    } else {
      LookupPatternExact(ix, patterns[0], e);
      LookupAllIff(ix, patterns[1..], e);
      if k :| 0 <= k < |patterns| && Wants(patterns[k], e) {
        if k > 0 { assert patterns[1..][k - 1] == patterns[k]; }
      }
    }
  }

  lemma WantsLater(ix: Index, patterns: seq<string>, k: int, path: string)
    requires patterns != [] && k > 0
    ensures WantsPath(ix, patterns, k, path) <==> WantsPath(ix, patterns[1..], k - 1, path)
  {
    hide Wants;
    if k < |patterns| { assert patterns[1..][k - 1] == patterns[k]; }
  }

  lemma {:induction false} FoundInOrder(ix: Index, patterns: seq<string>, seen: set<string>)
    requires Partitions(ix)
    ensures InQueryOrder(ix, patterns, PathsOf(FirstByPath(LookupAll(ix, patterns), seen)))
  {
    hide Partitions, Wants, WantsPath, LookupPattern, FirstByPath, PathsOf;
    var rows := FirstByPath(LookupAll(ix, patterns), seen);
    PathsAt(rows);
    if patterns == [] {
      NothingFirst(seen);
    } else {
      var hits, later := LookupPattern(ix, patterns[0]), LookupAll(ix, patterns[1..]);
      var met := PathSet(hits);
      var a, b := FirstByPath(hits, seen), FirstByPath(later, seen + met);
      FirstByPathConcat(hits, later, seen);
      FirstByPathDistinct(later, seen + met);
      PathsAt(b);
      FoundInOrder(ix, patterns[1..], seen + met);
      forall i, j, k | 0 <= i < j < |rows| && WantsPath(ix, patterns, k, rows[j].path)
        ensures WantedUpTo(ix, patterns, k, rows[i].path)
      {
        WantsIndex(ix, patterns, k, rows[j].path);
        if i < |a| {
          assert rows[i] == a[i];
          FirstByPathCovers(hits, seen, a[i]);
          HitIsWanted(ix, patterns, a[i]);
        } else {
          assert rows[i] == b[i - |a|] && rows[j] == b[j - |a|];
          WantedByFirst(ix, patterns, rows[j].path);
          WantsLater(ix, patterns, k, rows[j].path);
          assert WantedUpTo(ix, patterns[1..], k - 1, PathsOf(b)[i - |a|]);
          var m :| m <= k - 1 && WantsPath(ix, patterns[1..], m, rows[i].path);
          WantsIndex(ix, patterns[1..], m, rows[i].path);
          WantsLater(ix, patterns, m + 1, rows[i].path);
        }
      }
    }
  }

  lemma WantsIndex(ix: Index, patterns: seq<string>, k: int, path: string)
    requires WantsPath(ix, patterns, k, path)
    ensures 0 <= k < |patterns|
  {
  }

  lemma HitIsWanted(ix: Index, patterns: seq<string>, e: Entry)
    requires Partitions(ix) && patterns != [] && e in LookupPattern(ix, patterns[0])
    ensures WantsPath(ix, patterns, 0, e.path)
  {
    hide Partitions, Wants, LookupPattern;
    LookupPatternExact(ix, patterns[0], e);
  }

  lemma WantedByFirst(ix: Index, patterns: seq<string>, path: string)
    requires Partitions(ix) && patterns != []
    ensures WantsPath(ix, patterns, 0, path) ==> exists e :: e in LookupPattern(ix, patterns[0]) && e.path == path
  {
    hide Partitions, Wants, LookupPattern;
    if WantsPath(ix, patterns, 0, path) {
      var e :| e in ix.entries && e.path == path && Wants(patterns[0], e);
      LookupPatternExact(ix, patterns[0], e);
    }
  }

  lemma NothingFirst(seen: set<string>)
    ensures FirstByPath([], seen) == []
  {
  }

  /** What both queries compute is the answer. */
  lemma FoundIsAnswer(ix: Index, patterns: seq<string>)
    requires Partitions(ix)
    ensures IsAnswer(ix, patterns, Found(ix, patterns))
  {
    hide Partitions, FirstByPath, LookupAll, InQueryOrder, PathsOf, IsWanted, WantsPath, HasPath;
    var all, rows := LookupAll(ix, patterns), Found(ix, patterns);
    FirstByPathDistinct(all, {});
    FoundInOrder(ix, patterns, {});
    forall i | 0 <= i < |rows| ensures IsWanted(ix, patterns, rows[i]) {
      FirstByPathCovers(all, {}, rows[i]);
      LookupAllIff(ix, patterns, rows[i]);
    }
    forall k, path | WantsPath(ix, patterns, k, path) ensures HasPath(rows, path) {
      WantedIsFound(ix, patterns, k, path);
    }
  }

  lemma WantedIsFound(ix: Index, patterns: seq<string>, k: int, path: string)
    requires Partitions(ix) && WantsPath(ix, patterns, k, path)
    ensures HasPath(Found(ix, patterns), path)
  {
    hide Partitions, Wants, FirstByPath, LookupAll;
    var e :| e in ix.entries && e.path == path && Wants(patterns[k], e);
    LookupAllIff(ix, patterns, e);
    FirstByPathCovers(LookupAll(ix, patterns), {}, e);
    var f :| f in Found(ix, patterns) && f.path == e.path;
  }

  lemma {:induction false} PathsAt(entries: seq<Entry>)
    ensures |PathsOf(entries)| == |entries|
    ensures forall i :: 0 <= i < |entries| ==> PathsOf(entries)[i] == entries[i].path
  {
    if entries == [] {
    } else {
      PathsAt(entries[1..]);
    }
  }

  /** `find_by_pattern`: the paths that some pattern wants, each once, ordered by the first pattern
      that wants them. */
  method FindByPattern(ix: Index, patterns: seq<string>) returns (paths: seq<string>)
    ensures paths == PathsOf(Found(ix, patterns))
    ensures Partitions(ix) ==> forall p :: p in paths <==> exists k :: WantsPath(ix, patterns, k, p)
    ensures forall i, j :: 0 <= i < j < |paths| ==> paths[i] != paths[j]
    ensures Partitions(ix) ==> InQueryOrder(ix, patterns, paths)
  {
    hide LookupPattern, Partitions, WantsPath, InQueryOrder, FirstByPath, PathsOf, LookupAll;
    FoundPaths(ix, patterns);
    paths := [];
    ghost var wanted := PathsOf(Found(ix, patterns));
    var seen: set<string> := {};
    for n := 0 to |patterns|
      invariant paths + PathsOf(FirstByPath(LookupAll(ix, patterns[n..]), seen)) == wanted
    {
      LookupSplits(ix, patterns, n);
      var hits := LookupPattern(ix, patterns[n]);
      ghost var later := LookupAll(ix, patterns[n + 1..]);
      assert hits[0..] == hits;
      for k := 0 to |hits|
        invariant paths + PathsOf(FirstByPath(hits[k..] + later, seen)) == wanted
      {
        assert hits[k..] + later == [hits[k]] + (hits[k + 1..] + later);
        NextPath(hits[k], hits[k + 1..] + later, seen);
        if hits[k].path in seen { continue; }
        seen := seen + {hits[k].path};
        paths := paths + [hits[k].path];
      }
      assert hits[|hits|..] + later == later;
    }
    NothingWanted(ix, seen);
    assert patterns[|patterns|..] == [];
  }

  lemma LookupSplits(ix: Index, patterns: seq<string>, n: nat)
    requires n < |patterns|
    ensures LookupAll(ix, patterns[n..]) == LookupPattern(ix, patterns[n]) + LookupAll(ix, patterns[n + 1..])
  {
    assert patterns[n..][1..] == patterns[n + 1..];
  }

  lemma NextPath(e: Entry, rest: seq<Entry>, seen: set<string>)
    ensures PathsOf(FirstByPath([e] + rest, seen))
      == if e.path in seen then PathsOf(FirstByPath(rest, seen))
         else [e.path] + PathsOf(FirstByPath(rest, seen + {e.path}))
  {
    hide FirstByPath;
    FirstByPathCons(e, rest, seen);
  }

  lemma NextLine(e: Entry, rest: seq<Entry>, seen: set<string>, encode: string -> Bytes)
    ensures Lines(FirstByPath([e] + rest, seen), encode)
      == if e.path in seen then Lines(FirstByPath(rest, seen), encode)
         else Line(e, encode) + Lines(FirstByPath(rest, seen + {e.path}), encode)
  {
    hide FirstByPath, Line;
    FirstByPathCons(e, rest, seen);
  }

  lemma NothingWanted(ix: Index, seen: set<string>)
    ensures LookupAll(ix, []) == [] && FirstByPath([], seen) == [] && PathsOf([]) == []
    ensures forall encode :: Lines([], encode) == []
  {
  }

  lemma RowIsWanted(ix: Index, patterns: seq<string>, k: int, e: Entry)
    requires e in ix.entries && 0 <= k < |patterns| && Wants(patterns[k], e)
    ensures WantsPath(ix, patterns, k, e.path)
  {
  }

  lemma FoundPaths(ix: Index, patterns: seq<string>)
    ensures var paths := PathsOf(Found(ix, patterns));
      && (forall i, j :: 0 <= i < j < |paths| ==> paths[i] != paths[j])
      && (Partitions(ix) ==> forall p :: p in paths <==> exists k :: WantsPath(ix, patterns, k, p))
      && (Partitions(ix) ==> InQueryOrder(ix, patterns, paths))
  {
    hide Partitions, Wants, WantsPath, FirstByPath, LookupAll, PathsOf, InQueryOrder;
    var rows, paths := Found(ix, patterns), PathsOf(Found(ix, patterns));
    PathsAt(rows);
    FirstByPathDistinct(LookupAll(ix, patterns), {});
    if Partitions(ix) {
      FoundIsAnswer(ix, patterns);
      forall p ensures p in paths <==> exists k :: WantsPath(ix, patterns, k, p) {
        if p in paths {
          var i :| 0 <= i < |paths| && paths[i] == p;
          assert IsWanted(ix, patterns, rows[i]);
          var k :| 0 <= k < |patterns| && Wants(patterns[k], rows[i]);
          RowIsWanted(ix, patterns, k, rows[i]);
        }
        if k :| WantsPath(ix, patterns, k, p) {
          var i :| 0 <= i < |rows| && rows[i].path == p;
          assert paths[i] == p;
        }
      }
    }
  }

  /** The bytes fed to SHA-256; no pattern at all means no hash. */
  function FedBytes(ix: Index, patterns: seq<string>, encode: string -> Bytes): Option<Bytes> {
    if patterns == [] then None else Some(Lines(Found(ix, patterns), encode))
  }

  /** `hash_for_patterns`: the lines of the answer to the query, none without patterns. */
  method HashForPatterns(ix: Index, patterns: seq<string>, encode: string -> Bytes) returns (fed: Option<Bytes>)
    ensures fed == FedBytes(ix, patterns, encode)
    ensures fed.None? <==> patterns == []
    ensures Partitions(ix) && patterns != [] ==>
      exists rows :: IsAnswer(ix, patterns, rows) && fed == Some(Lines(rows, encode))
  {
    hide LookupPattern, Line, Lines, Partitions, IsAnswer, FirstByPath, LookupAll;
    if Partitions(ix) { FoundIsAnswer(ix, patterns); }
    if patterns == [] { return None; }
    var buffer: Bytes := [];
    ghost var wanted := Lines(Found(ix, patterns), encode);
    var seen: set<string> := {};
    for n := 0 to |patterns|
      invariant buffer + Lines(FirstByPath(LookupAll(ix, patterns[n..]), seen), encode) == wanted
    {
      LookupSplits(ix, patterns, n);
      var hits := LookupPattern(ix, patterns[n]);
      ghost var later := LookupAll(ix, patterns[n + 1..]);
      assert hits[0..] == hits;
      for k := 0 to |hits|
        invariant buffer + Lines(FirstByPath(hits[k..] + later, seen), encode) == wanted
      {
        assert hits[k..] + later == [hits[k]] + (hits[k + 1..] + later);
        NextLine(hits[k], hits[k + 1..] + later, seen, encode);
        if hits[k].path in seen { continue; }
        seen := seen + {hits[k].path};
        buffer := buffer + Line(hits[k], encode);
      }
      assert hits[|hits|..] + later == later;
    }
    NothingWanted(ix, seen);
    assert patterns[|patterns|..] == [];
    assert buffer == wanted;
    return Some(buffer);
  }

  // ---- no duplicates, nothing missed ---------------------------------------------------------

  lemma {:induction false} FirstByPathDistinct(entries: seq<Entry>, seen: set<string>)
    ensures forall i, j :: 0 <= i < j < |FirstByPath(entries, seen)| ==>
      FirstByPath(entries, seen)[i].path != FirstByPath(entries, seen)[j].path
    ensures forall i :: 0 <= i < |FirstByPath(entries, seen)| ==> FirstByPath(entries, seen)[i].path !in seen
  {
    if entries == [] {
    } else {
      if entries[0].path in seen {
        FirstByPathDistinct(entries[1..], seen);
      } else {
        FirstByPathDistinct(entries[1..], seen + {entries[0].path});
      }
    }
  }

  lemma {:induction false} FirstByPathCovers(entries: seq<Entry>, seen: set<string>, e: Entry)
    ensures e in FirstByPath(entries, seen) ==> e in entries
    ensures e in entries && e.path !in seen ==> exists f :: f in FirstByPath(entries, seen) && f.path == e.path
  {
    if entries == [] {
    } else {
      var seen' := if entries[0].path in seen then seen else seen + {entries[0].path};
      FirstByPathCovers(entries[1..], seen', e);
      if e in entries && e.path !in seen {
        if e.path == entries[0].path {
          assert entries[0] in FirstByPath(entries, seen);
        } else {
          var f :| f in FirstByPath(entries[1..], seen') && f.path == e.path;
          assert f in FirstByPath(entries, seen);
        }
      }
    }
  }

  lemma {:induction false} SlowLookupIff(byName: Dict<string, seq<Entry>>, pattern: string, e: Entry)
    ensures e in SlowLookup(byName, pattern) <==>
      exists i :: 0 <= i < |byName| && Matches(pattern, byName[i].0) && e in byName[i].1
  {
    if byName == [] {
    } else {
      SlowLookupIff(byName[1..], pattern, e);
      if i :| 0 <= i < |byName| && Matches(pattern, byName[i].0) && e in byName[i].1 {
        if i > 0 { assert byName[1..][i - 1] == byName[i]; }
      }
      if i :| 0 <= i < |byName| - 1 && Matches(pattern, byName[1..][i].0) && e in byName[1..][i].1 {
        assert byName[i + 1] == byName[1..][i];
      }
    }
  }

  /** The scan finds exactly the entries whose name matches. */
  lemma SlowLookupExact(ix: Index, pattern: string, e: Entry)
    requires Partitions(ix)
    ensures e in SlowLookup(ix.byName, pattern) <==> e in ix.entries && Matches(pattern, e.name)
  {
    SlowLookupIff(ix.byName, pattern, e);
    if i :| 0 <= i < |ix.byName| && Matches(pattern, ix.byName[i].0) && e in ix.byName[i].1 {
      LookupAt(ix.byName, i);
      assert NameBucket(ix, ix.byName[i].0) == ix.byName[i].1;
      FilterMember(ix.entries, HasName(ix.byName[i].0), e);
    }
    if e in ix.entries && Matches(pattern, e.name) {
      FilterMember(ix.entries, HasName(e.name), e);
      assert e in NameBucket(ix, e.name);
      LookupIff(ix.byName, e.name);
      var i :| 0 <= i < |Keys(ix.byName)| && Keys(ix.byName)[i] == e.name;
      LookupAt(ix.byName, i);
    }
  }

  /** A "*.ext" pattern finds exactly the entries with that suffix, in any letter case. */
  lemma FastLookupExact(ix: Index, pattern: string, e: Entry)
    requires Partitions(ix) && PureExt(pattern).Some?
    ensures e in LookupPattern(ix, pattern) <==> e in ix.entries && ExtOf(e) == PureExt(pattern).value
  {
    FilterMember(ix.entries, HasExt(PureExt(pattern).value), e);
  }

  /** The extension fast path misses a matching entry if and only if its name is nothing but
      the extension. */
  lemma FastPathMissesOnlyDotNames(ix: Index, pattern: string, e: Entry)
    requires Partitions(ix) && OneLine(pattern) && PureExt(pattern).Some?
    requires e in ix.entries && '/' !in e.name && Matches(pattern, e.name)
    ensures e in LookupPattern(ix, pattern) <==> !IsDotName(e.name)
  {
    hide Matches, Partitions, SuffixOf, IsDotName, PureExt;
    FastLookupExact(ix, pattern, e);
    ExtOfMatch(pattern, e.name);
    assert Basename(e.name) == e.name;
    if IsDotName(e.name) { DotNameHasNoExt(pattern, e.name); }
  }

  lemma DotNameHasNoExt(pattern: string, name: string)
    requires IsDotName(name) && PureExt(pattern).Some?
    ensures Lower(SuffixOf(name)) != PureExt(pattern).value
  {
  }

  // ---- the hashed lines identify the found files -----------------------------------------------

  /** What one line says of a file. */
  datatype Row = Row(path: Bytes, size: nat, mtime: int)

  function RowsOf(entries: seq<Entry>, encode: string -> Bytes): seq<Row> {
    if entries == [] then []
    else [Row(encode(entries[0].path), entries[0].size, entries[0].mtime)] + RowsOf(entries[1..], encode)
  }

  function RowText(s: Row): Bytes {
    s.path + [COLON] + Decimal(s.size) + [COLON] + SignedDecimal(s.mtime)
  }

  function Listing(rows: seq<Row>): Bytes {
    if rows == [] then [] else RowText(rows[0]) + [NEWLINE] + Listing(rows[1..])
  }

  /** One line, byte for byte: file "p:" of 30 bytes at time -4. */
  lemma LineBytes(encode: string -> Bytes)
    requires encode("p:") == [112, 58]
    ensures Line(Entry("p:", "p:", 30, -4), encode) == [112, 58, 58, 51, 48, 58, 45, 52, 10]
  {
    assert Decimal(3) == [51] && Decimal(30) == [51, 48];
    assert SignedDecimal(-4) == [45, 52];
  }

  lemma {:induction false} LinesAreListing(entries: seq<Entry>, encode: string -> Bytes)
    ensures Lines(entries, encode) == Listing(RowsOf(entries, encode))
  {
    hide Decimal, SignedDecimal;
    if entries == [] {
    } else {
      LinesAreListing(entries[1..], encode);
    }
  }

  /** The parts of `s` around its last `sep`. */
  function CutLast(sep: byte, s: Bytes): Option<(Bytes, Bytes)> {
    if s == [] then None else
      var last := |s| - 1;
      if s[last] == sep then Some((s[..last], []))
      else match CutLast(sep, s[..last])
        case None => None
        case Some((a, b)) => Some((a, b + [s[last]]))
  }

  lemma {:induction false} CutLastAt(sep: byte, a: Bytes, b: Bytes)
    requires sep !in b
    ensures CutLast(sep, a + [sep] + b) == Some((a, b))
  {
    var s := a + [sep] + b;
    if b == [] {
      assert s[..|s| - 1] == a;
    } else {
      var last := |b| - 1;
      CutLastAt(sep, a, b[..last]);
      assert s[..|s| - 1] == a + [sep] + b[..last];
      assert b == b[..last] + [b[last]];
    }
  }

  lemma {:induction false} CutLastRejoins(sep: byte, s: Bytes)
    requires CutLast(sep, s).Some?
    ensures s == CutLast(sep, s).value.0 + [sep] + CutLast(sep, s).value.1
  {
    var last := |s| - 1;
    if s[last] == sep {
    } else {
      CutLastRejoins(sep, s[..last]);
    }
  }

  /** The reader of one line: the last two fields are numbers. */
  function ReadRow(s: Bytes): Option<Row> {
    match CutLast(COLON, s)
    case None => None
    case Some((front, mtime)) =>
      match CutLast(COLON, front)
      case None => None
      case Some((path, size)) =>
        var n, m := ReadDecimal(size), ReadSignedDecimal(mtime);
        if n.Some? && m.Some? && Decimal(n.value) == size && SignedDecimal(m.value) == mtime then
          Some(Row(path, n.value, m.value))
        else None
  }

  lemma ReadRowOf(s: Row)
    ensures ReadRow(RowText(s)) == Some(s)
  {
    hide Decimal, SignedDecimal, ReadDecimal, ReadSignedDecimal, CutLast;
    SignedDecimalReads(s.mtime);
    DecimalReads(s.size);
    DecimalDigits(s.size, COLON);
    CutLastAt(COLON, s.path + [COLON] + Decimal(s.size), SignedDecimal(s.mtime));
    CutLastAt(COLON, s.path, Decimal(s.size));
  }

  lemma ReadRowInverts(s: Bytes)
    requires ReadRow(s).Some?
    ensures RowText(ReadRow(s).value) == s
  {
    hide Decimal, SignedDecimal, ReadDecimal, ReadSignedDecimal, CutLast;
    CutLastRejoins(COLON, s);
    CutLastRejoins(COLON, CutLast(COLON, s).value.0);
  }

  function ReadListing(s: Bytes): Option<seq<Row>>
    decreases |s|
  {
    if s == [] then Some([]) else
    match Cut(NEWLINE, s)
    case None => None
    case Some((line, rest)) =>
      CutShrinks(NEWLINE, s);
      match ReadRow(line)
      case None => None
      case Some(row) =>
        match ReadListing(rest)
        case None => None
        case Some(rows) => Some([row] + rows)
  }

  ghost predicate OneLinePaths(rows: seq<Row>) {
    forall i :: 0 <= i < |rows| ==> NEWLINE !in rows[i].path
  }

  lemma {:induction false} ReadListingOf(rows: seq<Row>)
    requires OneLinePaths(rows)
    ensures ReadListing(Listing(rows)) == Some(rows)
  {
    hide ReadRow, ReadListing, RowText;
    NothingListed();
    if rows == [] {
    } else {
      ReadListingOf(rows[1..]);
      RowIsLine(rows[0]);
      ReadRowOf(rows[0]);
      ReadListingLine(RowText(rows[0]), Listing(rows[1..]));
      assert rows == [rows[0]] + rows[1..];
    }
  }

  lemma NothingListed()
    ensures Listing([]) == [] && ReadListing([]) == Some([])
  {
  }

  lemma ReadListingLine(line: Bytes, rest: Bytes)
    requires NEWLINE !in line && ReadRow(line).Some? && ReadListing(rest).Some?
    ensures ReadListing(line + [NEWLINE] + rest) == Some([ReadRow(line).value] + ReadListing(rest).value)
  {
    hide ReadRow, Cut;
    CutAt(NEWLINE, line, rest);
  }

  lemma RowIsLine(s: Row)
    ensures NEWLINE in RowText(s) <==> NEWLINE in s.path
  {
    hide Decimal, SignedDecimal;
    SignedDecimalReads(s.mtime);
    DecimalDigits(s.size, NEWLINE);
  }

  lemma {:induction false} ReadListingInverts(s: Bytes)
    requires ReadListing(s).Some?
    ensures OneLinePaths(ReadListing(s).value) && Listing(ReadListing(s).value) == s
    decreases |s|
  {
    hide ReadRow, Cut, RowText;
    if s == [] {
    } else {
      CutShrinks(NEWLINE, s);
      CutRejoins(NEWLINE, s);
      var (line, rest) := Cut(NEWLINE, s).value;
      ReadRowInverts(line);
      RowIsLine(ReadRow(line).value);
      ReadListingInverts(rest);
      var rows := ReadListing(s).value;
      assert rows == [ReadRow(line).value] + ReadListing(rest).value;
      assert rows[1..] == ReadListing(rest).value;
    }
  }

  /** The hashed bytes determine the found files, in order, with size and mtime, exactly when no
      path holds a newline. */
  lemma RecoverableIffOneLinePaths(rows: seq<Row>)
    ensures ReadListing(Listing(rows)) == Some(rows) <==> OneLinePaths(rows)
  {
    if OneLinePaths(rows) { ReadListingOf(rows); }
    if ReadListing(Listing(rows)) == Some(rows) { ReadListingInverts(Listing(rows)); }
  }

  /** Two snapshots with one-line paths hash alike exactly when the pattern query returns the
      same files, in the same order, unchanged in size and mtime. */
  lemma SameHashIffSameFiles(ix: Index, jx: Index, patterns: seq<string>, encode: string -> Bytes)
    requires OneLinePaths(RowsOf(Found(ix, patterns), encode)) && OneLinePaths(RowsOf(Found(jx, patterns), encode))
    ensures Lines(Found(ix, patterns), encode) == Lines(Found(jx, patterns), encode)
      <==> RowsOf(Found(ix, patterns), encode) == RowsOf(Found(jx, patterns), encode)
  {
    LinesAreListing(Found(ix, patterns), encode);
    LinesAreListing(Found(jx, patterns), encode);
    ReadListingOf(RowsOf(Found(ix, patterns), encode));
    ReadListingOf(RowsOf(Found(jx, patterns), encode));
  }

  lemma {:induction false} ListingConcat(a: seq<Row>, b: seq<Row>)
    ensures Listing(a + b) == Listing(a) + Listing(b)
  {
    hide RowText, Listing;
    NothingListed();
    if a == [] {
      assert a + b == b;
    } else {
      ListingConcat(a[1..], b);
      ListingCons(a[0], a[1..]);
      ListingCons(a[0], a[1..] + b);
      assert a == [a[0]] + a[1..] && a + b == [a[0]] + (a[1..] + b);
    }
  }

  lemma ListingCons(row: Row, rows: seq<Row>)
    ensures Listing([row] + rows) == RowText(row) + [NEWLINE] + Listing(rows)
  {
    assert ([row] + rows)[1..] == rows;
  }

  /** Otherwise it can go wrong: a path that is another file's line and then a path hashes like
      the two files. */
  lemma NewlinePathCollides(pre: seq<Row>, s: Row, t: Row, post: seq<Row>)
    ensures Listing(pre + [Row(RowText(s) + [NEWLINE] + t.path, t.size, t.mtime)] + post)
      == Listing(pre + [s, t] + post)
  {
    hide RowText, Decimal, SignedDecimal, Listing;
    var both := Row(RowText(s) + [NEWLINE] + t.path, t.size, t.mtime);
    ListingConcat(pre + [both], post);
    ListingConcat(pre, [both]);
    ListingConcat(pre + [s, t], post);
    ListingConcat(pre, [s, t]);
    ListingOfTwo(s, t);
    ListingOfOne(both);
    RowTextLonger(RowText(s) + [NEWLINE], t);
  }

  lemma RowTextLonger(lead: Bytes, t: Row)
    ensures RowText(t.(path := lead + t.path)) == lead + RowText(t)
  {
  }

  lemma ListingOfOne(s: Row)
    ensures Listing([s]) == RowText(s) + [NEWLINE]
  {
    assert [s][1..] == [];
  }

  lemma ListingOfTwo(s: Row, t: Row)
    ensures Listing([s, t]) == RowText(s) + [NEWLINE] + (RowText(t) + [NEWLINE])
  {
    ListingOfOne(t);
    assert [s, t][1..] == [t];
  }
}
