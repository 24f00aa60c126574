/** The globs of the registry and of the file index: `fnmatch` with `*`, `?` and literals,
    the "ends in *.ext" test both fast paths share, and pathlib's suffix. */
module Glob {
  import opened Options
  import opened Text

  /** The whole of `s` matches; `*` also crosses slashes. */
  predicate Matches(pattern: string, s: string)
    decreases |pattern| + |s|
  {
    if pattern == "" then s == ""
    else if pattern[0] == '*' then Matches(pattern[1..], s) || (s != "" && Matches(pattern, s[1..]))
    else s != "" && (pattern[0] == '?' || pattern[0] == s[0]) && Matches(pattern[1..], s[1..])
  }

  predicate IsAlnum(c: char) {
    'a' <= c <= 'z' || 'A' <= c <= 'Z' || '0' <= c <= '9'
  }

  predicate AllAlnum(s: string) {
    forall i :: 0 <= i < |s| ==> IsAlnum(s[i])
  }

  /** `s` lists the `n` characters from `first` on. */
  predicate Lists(s: string, first: char, n: nat) {
    |s| == n && forall i :: 0 <= i < n ==> s[i] as int == first as int + i
  }

  lemma ListedIff(s: string, first: char, n: nat, c: char)
    requires Lists(s, first, n)
    ensures c in s <==> first as int <= c as int < first as int + n
  {
    if first as int <= c as int < first as int + n { assert s[c as int - first as int] == c; }
  }

  lemma Alphabets()
    ensures Lists("ABCDEFGHIJKLMNOPQRSTUVWXYZ", 'A', 26)
    ensures Lists("abcdefghijklmnopqrstuvwxyz", 'a', 26)
    ensures Lists("0123456789", '0', 10)
  {
  }

  lemma AlnumIs(c: char)
    ensures IsAlnum(c) <==>
      c in "ABCDEFGHIJKLMNOPQRSTUVWXYZ" || c in "abcdefghijklmnopqrstuvwxyz" || c in "0123456789"
  {
    hide Lists;
    Alphabets();
    ListedIff("ABCDEFGHIJKLMNOPQRSTUVWXYZ", 'A', 26, c);
    ListedIff("abcdefghijklmnopqrstuvwxyz", 'a', 26, c);
    ListedIff("0123456789", '0', 10, c);
  }

  function LowerChar(c: char): char {
    if 'A' <= c <= 'Z' then (c as int + 32) as char else c
  }

  function Lower(s: string): string {
    seq(|s|, i requires 0 <= i < |s| => LowerChar(s[i]))
  }

  predicate Literal(s: string) {
    forall i :: 0 <= i < |s| ==> s[i] != '*' && s[i] != '?'
  }

  /** Where the run of alphanumerics at the end of `s` starts. */
  function AlnumStart(s: string): (i: nat)
    ensures i <= |s| && AllAlnum(s[i..]) && (i > 0 ==> !IsAlnum(s[i - 1]))
  {
    if s == "" then 0
    else if IsAlnum(s[|s| - 1]) then
      var i := AlnumStart(s[..|s| - 1]);
      assert s[i..] == s[..|s| - 1][i..] + [s[|s| - 1]];
      i
    else |s|
  }

  predicate OneLine(pattern: string) {
    pattern == "" || pattern[|pattern| - 1] != '\n'
  }

  /** `re.search(r"\*\.([A-Za-z0-9]+)$", pattern)`, lower-cased with its dot; `$` also stands
      before a final newline. */
  function PureExt(pattern: string): Option<string> {
    var body := if OneLine(pattern) then pattern else pattern[..|pattern| - 1];
    var i := AlnumStart(body);
    if i < |body| && i >= 2 && body[i - 1] == '.' && body[i - 2] == '*' then Some("." + Lower(body[i..])) else None
  }

  lemma {:induction false} AlnumStartOf(s: string, x: string)
    requires AllAlnum(x) && (s == "" || !IsAlnum(s[|s| - 1]))
    ensures AlnumStart(s + x) == |s|
  {
    if x == "" {
      assert s + x == s;
    } else {
      AlnumStartOf(s, x[..|x| - 1]);
      assert (s + x)[..|s + x| - 1] == s + x[..|x| - 1];
    }
  }

  /** The test recognises exactly the patterns that end in "*." and alphanumerics. */
  lemma PureExtIff(pattern: string)
    requires OneLine(pattern)
    ensures PureExt(pattern).Some? <==> exists q, x :: x != "" && AllAlnum(x) && pattern == q + "*." + x
    ensures forall q, x :: x != "" && AllAlnum(x) && pattern == q + "*." + x ==>
      PureExt(pattern) == Some("." + Lower(x))
  {
    if PureExt(pattern).Some? {
      var i := AlnumStart(pattern);
      assert pattern == pattern[..i - 2] + "*." + pattern[i..];
    }
    forall q, x | x != "" && AllAlnum(x) && pattern == q + "*." + x ensures PureExt(pattern) == Some("." + Lower(x)) {
      AlnumStartOf(q + "*.", x);
      assert pattern == (q + "*.") + x;
    }
  }

  /** One final newline is overlooked, as `$` overlooks it. */
  lemma PureExtBeforeNewline(pattern: string)
    requires pattern != "" && pattern[|pattern| - 1] != '\n'
    ensures PureExt(pattern + "\n") == PureExt(pattern)
  {
    assert (pattern + "\n")[..|pattern|] == pattern;
  }

  // ---- pathlib names and suffixes ---------------------------------------------------

  /** The part after the last slash. */
  function Basename(path: string): string {
    if '/' !in path then path else Basename(path[1..])
  }

  /** `s.rfind(c)` */
  function RFind(s: string, c: char): (i: int)
    ensures -1 <= i < |s| && (i >= 0 ==> s[i] == c)
  {
    if s == "" then -1 else if s[|s| - 1] == c then |s| - 1 else RFind(s[..|s| - 1], c)
  }

  /** `PurePath.suffix` of a final component. */
  function SuffixOf(name: string): string {
    var i := RFind(name, '.');
    if 0 < i < |name| - 1 then name[i..] else ""
  }

  /** A file named just "." and alphanumerics: pathlib gives it no suffix. */
  predicate IsDotName(name: string) {
    |name| >= 2 && name[0] == '.' && AllAlnum(name[1..])
  }

  lemma {:induction false} BasenameTail(d: string, t: string)
    requires '/' !in t
    ensures Basename(d + t) == Basename(d) + t
  {
    if '/' in d {
      BasenameTail(d[1..], t);
      assert (d + t)[1..] == d[1..] + t;
      assert d[0] in d + t;
      var i :| 0 <= i < |d| && d[i] == '/';
      assert (d + t)[i] == '/';
    }
  }

  lemma {:induction false} RFindLast(a: string, x: string, c: char)
    requires c !in x
    ensures RFind(a + [c] + x, c) == |a|
  {
    var s := a + [c] + x;
    if x == "" {
    } else {
      RFindLast(a, x[..|x| - 1], c);
      assert s[..|s| - 1] == a + [c] + x[..|x| - 1];
    }
  }

  /** A name that ends in "." and alphanumerics has that suffix, unless it is nothing else. */
  lemma SuffixOfTail(name: string, x: string)
    requires x != "" && AllAlnum(x) && EndsWith(name, "." + x)
    ensures name != "." + x ==> SuffixOf(name) == "." + x
    ensures name == "." + x ==> SuffixOf(name) == "" && IsDotName(name)
  {
    var a := name[..|name| - |x| - 1];
    assert name == a + "." + x;
    RFindLast(a, x, '.');
    if a == "" { assert name == "." + x; }
  }

  /** The name is what follows the last slash, or everything. */
  lemma {:induction false} BasenameIff(path: string, name: string)
    ensures Basename(path) == name <==> '/' !in name && (path == name || exists d :: path == d + "/" + name)
  {
    BasenameOf(path);
    if '/' !in name && path != name {
      if d :| path == d + "/" + name { BasenameAfterSlash(d, name); }
    }
  }

  lemma {:induction false} BasenameOf(path: string)
    ensures '/' !in Basename(path)
    ensures path == Basename(path) || exists d :: path == d + "/" + Basename(path)
  {
    if '/' !in path {
    } else {
      BasenameOf(path[1..]);
      if path[1..] == Basename(path) {
        assert path == "" + "/" + Basename(path);
      } else {
        var d :| path[1..] == d + "/" + Basename(path);
        assert path == ([path[0]] + d) + "/" + Basename(path);
      }
    }
  }

  lemma {:induction false} BasenameAfterSlash(a: string, b: string)
    ensures Basename(a + "/" + b) == Basename(b)
  {
    var s := a + "/" + b;
    assert s[|a|] == '/';
    if a == "" {
      assert s[1..] == b;
    } else {
      BasenameAfterSlash(a[1..], b);
      assert s[1..] == a[1..] + "/" + b;
    }
  }

  /** A suffix starts at the last dot, with something before and after it. */
  lemma SuffixIff(name: string, x: string)
    requires x != ""
    ensures SuffixOf(name) == "." + x <==> '.' !in x && exists a :: a != "" && name == a + "." + x
  {
    hide SuffixOf, RFind;
    if SuffixOf(name) == "." + x {
      var a := SuffixSplits(name, x);
    }
    if a :| '.' !in x && a != "" && name == a + "." + x { SuffixAfter(a, x); }
  }

  lemma SuffixSplits(name: string, x: string) returns (a: string)
    requires SuffixOf(name) == "." + x
    ensures '.' !in x && a != "" && name == a + "." + x
  {
    hide RFind;
    var i := RFind(name, '.');
    RFindLeavesNone(name, '.');
    a := name[..i];
    assert name == a + name[i..];
    forall k | 0 <= k < |x| ensures x[k] != '.' { assert name[i..][k + 1] == x[k]; }
  }

  lemma SuffixAfter(a: string, x: string)
    requires '.' !in x && a != "" && x != ""
    ensures SuffixOf(a + "." + x) == "." + x
  {
    hide RFind;
    RFindLast(a, x, '.');
    assert (a + "." + x)[|a|..] == "." + x;
  }

  lemma {:induction false} RFindLeavesNone(s: string, c: char)
    ensures forall k :: RFind(s, c) < k < |s| ==> s[k] != c
  {
    if s == "" || s[|s| - 1] == c {
    } else {
      var init := s[..|s| - 1];
      RFindLeavesNone(init, c);
      forall k | RFind(s, c) < k < |s| ensures s[k] != c {
        if k < |init| { assert init[k] == s[k]; }
      }
    }
  }

  /** Lower-casing goes letter by letter and touches nothing else. */
  lemma LowerLetters(a: string, b: string)
    ensures Lower("ABCDEFGHIJKLMNOPQRSTUVWXYZ") == "abcdefghijklmnopqrstuvwxyz"
    ensures Lower(a + b) == Lower(a) + Lower(b)
    ensures (forall i :: 0 <= i < |a| ==> !('A' <= a[i] <= 'Z')) ==> Lower(a) == a
  {
    Alphabets();
    LowerAlphabet("ABCDEFGHIJKLMNOPQRSTUVWXYZ", "abcdefghijklmnopqrstuvwxyz");
  }

  lemma LowerAlphabet(upper: string, lower: string)
    requires Lists(upper, 'A', 26) && Lists(lower, 'a', 26)
    ensures Lower(upper) == lower
  {
  }

  // ---- matching ------------------------------------------------------------------------

  /** What a pattern's literal tail matches is the tail of the string. */
  lemma {:induction false} MatchTail(q: string, tail: string, s: string)
    requires Literal(tail) && Matches(q + tail, s)
    ensures EndsWith(s, tail)
    decreases |q| + |tail| + |s|
  {
    var p := q + tail;
    if q == "" {
      assert p == tail;
      if tail != "" {
        assert tail[1..] == "" + tail[1..];
        MatchTail("", tail[1..], s[1..]);
        assert |s| == |tail| by { LiteralMatch(tail, s); }
        LiteralMatch(tail, s);
      }
    } else {
      assert p[1..] == q[1..] + tail;
      if q[0] == '*' {
        if Matches(p[1..], s) {
          MatchTail(q[1..], tail, s);
        } else {
          MatchTail(q, tail, s[1..]);
        }
      } else {
        MatchTail(q[1..], tail, s[1..]);
      }
    }
  }

  lemma {:induction false} LiteralMatch(lit: string, s: string)
    requires Literal(lit)
    ensures Matches(lit, s) <==> s == lit
  {
    if lit == "" || s == "" {
    } else {
      LiteralMatch(lit[1..], s[1..]);
    }
  }

  lemma {:induction false} StarMatch(d: string, lit: string)
    requires Literal(lit)
    ensures Matches("*" + lit, d + lit)
  {
    var p := "*" + lit;
    assert p[1..] == lit;
    if d == "" {
      LiteralMatch(lit, lit);
      assert d + lit == lit;
    } else {
      StarMatch(d[1..], lit);
      assert (d + lit)[1..] == d[1..] + lit;
    }
  }

  /** `sub` can stand for this pattern character. */
  predicate FillsAt(c: char, sub: string) {
    c == '*' || (if c == '?' then |sub| == 1 else sub == [c])
  }

  ghost predicate Fills(pattern: string, subs: seq<string>) {
    |subs| == |pattern| && forall i :: 0 <= i < |subs| ==> FillsAt(pattern[i], subs[i])
  }

  function Flatten(subs: seq<string>): string {
    if subs == [] then "" else subs[0] + Flatten(subs[1..])
  }

  /** A string matches exactly when it is the pattern with every star, wherever it stands, replaced
      by some string, slashes included, and every question mark by some character. */
  lemma MatchesIff(pattern: string, s: string)
    ensures Matches(pattern, s) <==> exists subs :: Fills(pattern, subs) && Flatten(subs) == s
  {
    hide Matches, Fills;
    if Matches(pattern, s) { var subs := MatchFills(pattern, s); }
    if subs :| Fills(pattern, subs) && Flatten(subs) == s { FilledMatches(pattern, subs); }
  }

  lemma {:induction false} MatchFills(pattern: string, s: string) returns (subs: seq<string>)
    requires Matches(pattern, s)
    ensures Fills(pattern, subs) && Flatten(subs) == s
    decreases |pattern| + |s|
  {
    if pattern == "" {
      subs := [];
    } else if pattern[0] == '*' && !Matches(pattern[1..], s) {
      var rest := MatchFills(pattern, s[1..]);
      subs := [[s[0]] + rest[0]] + rest[1..];
      assert Flatten(subs) == [s[0]] + (rest[0] + Flatten(rest[1..]));
    } else {
      var sub := if pattern[0] == '*' then "" else [s[0]];
      var rest := MatchFills(pattern[1..], s[|sub|..]);
      subs := [sub] + rest;
      assert subs[1..] == rest && s == sub + s[|sub|..];
      forall i | 0 <= i < |subs| ensures FillsAt(pattern[i], subs[i]) {
        if i > 0 { assert FillsAt(pattern[1..][i - 1], rest[i - 1]); }
      }
    }
  }

  lemma {:induction false} FilledMatches(pattern: string, subs: seq<string>)
    requires Fills(pattern, subs)
    ensures Matches(pattern, Flatten(subs))
    decreases |pattern|
  {
    if pattern == "" {
    } else {
      var rest := Flatten(subs[1..]);
      assert forall i :: 0 <= i < |subs| - 1 ==> FillsAt(pattern[1..][i], subs[1..][i]);
      FilledMatches(pattern[1..], subs[1..]);
      assert FillsAt(pattern[0], subs[0]);
      if pattern[0] == '*' {
        StarTakes(pattern, subs[0], rest);
      } else {
        assert (subs[0] + rest)[1..] == rest;
      }
    }
  }

  lemma {:induction false} StarTakes(pattern: string, sub: string, rest: string)
    requires pattern != "" && pattern[0] == '*' && Matches(pattern[1..], rest)
    ensures Matches(pattern, sub + rest)
  {
    if sub == "" {
      assert sub + rest == rest;
    } else {
      StarTakes(pattern, sub[1..], rest);
      assert (sub + rest)[1..] == sub[1..] + rest;
    }
  }

  lemma LowerEnds(x: string)
    requires AllAlnum(x)
    ensures Lower("." + x) == "." + Lower(x)
  {
  }

  lemma NameOfTail(s: string, x: string)
    requires x != "" && AllAlnum(x) && EndsWith(s, "." + x)
    ensures SuffixOf(Basename(s)) == "." + x || IsDotName(Basename(s))
  {
    var tail := "." + x;
    var d := s[..|s| - |tail|];
    assert s == d + tail;
    BasenameTail(d, tail);
    assert EndsWith(Basename(s), tail);
    SuffixOfTail(Basename(s), x);
  }

  /** A string matched by a "*.ext" pattern has that extension as its suffix, unless its name
      is nothing but the extension. */
  lemma ExtOfMatch(pattern: string, s: string)
    requires OneLine(pattern) && PureExt(pattern).Some? && Matches(pattern, s)
    ensures Lower(SuffixOf(Basename(s))) == PureExt(pattern).value || IsDotName(Basename(s))
  {
    hide Matches, SuffixOf, Basename, IsDotName, PureExt;
    PureExtIff(pattern);
    var q, x :| x != "" && AllAlnum(x) && pattern == q + "*." + x;
    assert pattern == (q + "*") + ("." + x);
    MatchTail(q + "*", "." + x, s);
    NameOfTail(s, x);
    LowerEnds(x);
  }
}
