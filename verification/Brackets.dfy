/** The bracket matchers of hooks/validators/connect_handler.py and
    hooks/validators/fk_index_discipline.py, against the grammar of balanced text. */
module Brackets {
  import opened Options

  // ---- balanced text -----------------------------------------------------------------

  datatype Brace = Brace(open: char, close: char)

  const CURLY := Brace('{', '}')
  const ROUND := Brace('(', ')')

  /** Plain characters and properly closed groups. */
  datatype Text = Empty | Plain(c: char, rest: Text) | Group(inner: Text, rest: Text)

  function Render(t: Text, b: Brace): string {
    match t
    case Empty => ""
    case Plain(c, rest) => [c] + Render(rest, b)
    case Group(inner, rest) => [b.open] + Render(inner, b) + [b.close] + Render(rest, b)
  }

  predicate WellFormed(t: Text, b: Brace) {
    match t
    case Empty => true
    case Plain(c, rest) => c != b.open && c != b.close && WellFormed(rest, b)
    case Group(inner, rest) => WellFormed(inner, b) && WellFormed(rest, b)
  }

  ghost predicate Balanced(s: string, b: Brace) {
    exists t :: WellFormed(t, b) && Render(t, b) == s
  }

  /** Opening minus closing brackets. */
  function Net(s: string, b: Brace): int {
    if s == "" then 0 else
      Net(s[..|s| - 1], b) + (if s[|s| - 1] == b.open then 1 else if s[|s| - 1] == b.close then -1 else 0)
  }

  /** No prefix closes more than it opens. */
  ghost predicate NeverNegative(s: string, b: Brace) {
    forall k :: 0 <= k <= |s| ==> Net(s[..k], b) >= 0
  }

  lemma {:induction false} NetConcat(s: string, t: string, b: Brace)
    ensures Net(s + t, b) == Net(s, b) + Net(t, b)
  {
    if t == "" {
      assert s + t == s;
    } else {
      NetConcat(s, t[..|t| - 1], b);
      assert (s + t)[..|s + t| - 1] == s + t[..|t| - 1];
    }
  }

  lemma NetChar(c: char, b: Brace)
    ensures Net([c], b) == if c == b.open then 1 else if c == b.close then -1 else 0
  {
  }

  lemma NeverNegativeConcat(s: string, t: string, b: Brace)
    requires NeverNegative(s, b) && Net(s, b) == 0 && NeverNegative(t, b)
    ensures NeverNegative(s + t, b)
  {
    forall k | 0 <= k <= |s + t| ensures Net((s + t)[..k], b) >= 0 {
      if k <= |s| {
        assert (s + t)[..k] == s[..k];
      } else {
        assert (s + t)[..k] == s + t[..k - |s|];
        NetConcat(s, t[..k - |s|], b);
      }
    }
  }

  lemma GroupNeverNegative(inner: string, b: Brace)
    requires b.open != b.close && NeverNegative(inner, b) && Net(inner, b) == 0
    ensures NeverNegative([b.open] + inner + [b.close], b) && Net([b.open] + inner + [b.close], b) == 0
  {
    var s := [b.open] + inner + [b.close];
    NetChar(b.open, b);
    NetChar(b.close, b);
    NetConcat([b.open], inner, b);
    NetConcat([b.open] + inner, [b.close], b);
    forall k | 0 <= k <= |s| ensures Net(s[..k], b) >= 0 {
      if k == 0 {
      } else if k <= |inner| + 1 {
        assert s[..k] == [b.open] + inner[..k - 1];
        NetConcat([b.open], inner[..k - 1], b);
      } else {
        assert s[..k] == s;
      }
    }
  }

  lemma {:induction false} RenderCounts(t: Text, b: Brace)
    requires b.open != b.close && WellFormed(t, b)
    ensures Net(Render(t, b), b) == 0 && NeverNegative(Render(t, b), b)
  {
    match t
    case Empty =>
    case Plain(c, rest) =>
      RenderCounts(rest, b);
      NetChar(c, b);
      NetConcat([c], Render(rest, b), b);
      assert NeverNegative([c], b) by { assert [c][..0] == "" && [c][..1] == [c]; }
      NeverNegativeConcat([c], Render(rest, b), b);
    case Group(inner, rest) =>
      RenderCounts(inner, b);
      RenderCounts(rest, b);
      var g := [b.open] + Render(inner, b) + [b.close];
      GroupNeverNegative(Render(inner, b), b);
      NetConcat(g, Render(rest, b), b);
      NeverNegativeConcat(g, Render(rest, b), b);
  }

  /** The length of the shortest prefix with net zero after the opening bracket. */
  lemma FirstReturn(s: string, b: Brace) returns (k: nat)
    requires b.open != b.close && s != "" && s[0] == b.open && Net(s, b) == 0
    ensures 2 <= k <= |s| && Net(s[..k], b) == 0 && s[k - 1] == b.close
    ensures forall m :: 0 < m < k ==> Net(s[..m], b) > 0
  {
    assert s[..1] == [b.open];
    NetChar(b.open, b);
    k := 1;
    while Net(s[..k], b) != 0
      invariant 1 <= k <= |s|
      invariant forall m :: 0 < m < k ==> Net(s[..m], b) > 0
      invariant Net(s[..k], b) >= 0
      invariant k == 1 ==> Net(s[..k], b) == 1
      invariant k > 1 && Net(s[..k], b) == 0 ==> s[k - 1] == b.close
      decreases |s| - k
    {
      assert k < |s| by { assert s[..|s|] == s; }
      assert s[..k + 1][..k] == s[..k];
      k := k + 1;
    }
  }

  lemma BalancedGroup(inner: string, rest: string, b: Brace)
    requires Balanced(inner, b) && Balanced(rest, b)
    ensures Balanced([b.open] + inner + [b.close] + rest, b)
  {
    var t :| WellFormed(t, b) && Render(t, b) == inner;
    var u :| WellFormed(u, b) && Render(u, b) == rest;
    assert WellFormed(Group(t, u), b) && Render(Group(t, u), b) == [b.open] + inner + [b.close] + rest;
  }

  lemma BalancedPlain(c: char, rest: string, b: Brace)
    requires c != b.open && c != b.close && Balanced(rest, b)
    ensures Balanced([c] + rest, b)
  {
    var u :| WellFormed(u, b) && Render(u, b) == rest;
    assert WellFormed(Plain(c, u), b) && Render(Plain(c, u), b) == [c] + rest;
  }

  lemma {:induction false} CountsRender(s: string, b: Brace)
    requires b.open != b.close && Net(s, b) == 0 && NeverNegative(s, b)
    ensures Balanced(s, b)
    decreases |s|
  {
    if s == "" {
      assert WellFormed(Empty, b) && Render(Empty, b) == s;
    } else {
      hide Balanced;
      assert s[..1] == [s[0]];
      NetChar(s[0], b);
      assert Net(s[..1], b) >= 0;
      if s[0] == b.open {
        var k := FirstReturn(s, b);
        GroupCounts(s, b, k);
        CountsRender(s[1..k - 1], b);
        CountsRender(s[k..], b);
        BalancedGroup(s[1..k - 1], s[k..], b);
        assert s == [b.open] + s[1..k - 1] + [b.close] + s[k..];
      } else {
        DropPrefix(s, b, 1);
        CountsRender(s[1..], b);
        BalancedPlain(s[0], s[1..], b);
        assert s == [s[0]] + s[1..];
      }
    }
  }

  lemma DropPrefix(s: string, b: Brace, k: nat)
    requires k <= |s| && Net(s[..k], b) == 0 && NeverNegative(s, b)
    ensures NeverNegative(s[k..], b) && Net(s[k..], b) == Net(s, b)
  {
    assert s == s[..k] + s[k..];
    NetConcat(s[..k], s[k..], b);
    forall m | 0 <= m <= |s| - k ensures Net(s[k..][..m], b) >= 0 {
      assert s[..k + m] == s[..k] + s[k..][..m];
      NetConcat(s[..k], s[k..][..m], b);
      assert Net(s[..k + m], b) >= 0;
    }
  }

  lemma NetInside(s: string, b: Brace, k: nat, m: nat)
    requires b.open != b.close && 2 <= k <= |s| && s[0] == b.open && m <= k - 2
    ensures Net(s[1..k - 1][..m], b) == Net(s[..m + 1], b) - 1
  {
    hide Net;
    assert s[..m + 1] == [b.open] + s[1..k - 1][..m];
    NetConcat([b.open], s[1..k - 1][..m], b);
    NetChar(b.open, b);
  }

  lemma GroupCounts(s: string, b: Brace, k: nat)
    requires b.open != b.close && s != "" && s[0] == b.open && NeverNegative(s, b) && Net(s, b) == 0
    requires 2 <= k <= |s| && Net(s[..k], b) == 0 && s[k - 1] == b.close
    requires forall m :: 0 < m < k ==> Net(s[..m], b) > 0
    ensures Net(s[1..k - 1], b) == 0 && NeverNegative(s[1..k - 1], b)
    ensures Net(s[k..], b) == 0 && NeverNegative(s[k..], b)
  {
    hide Net;
    DropPrefix(s, b, k);
    var inner := s[1..k - 1];
    forall m | 0 <= m <= |inner| ensures Net(inner[..m], b) >= 0 {
      NetInside(s, b, k, m);
      assert Net(s[..m + 1], b) > 0;
    }
    assert s[..k] == s[..k - 1] + [b.close];
    NetConcat(s[..k - 1], [b.close], b);
    NetChar(b.close, b);
    NetInside(s, b, k, |inner|);
    assert inner[..|inner|] == inner;
  }

  /** Counting decides the grammar. */
  lemma BalancedIff(s: string, b: Brace)
    requires b.open != b.close
    ensures Balanced(s, b) <==> Net(s, b) == 0 && NeverNegative(s, b)
  {
    if t :| WellFormed(t, b) && Render(t, b) == s { RenderCounts(t, b); }
    if Net(s, b) == 0 && NeverNegative(s, b) { CountsRender(s, b); }
  }

  // ---- matching a bracket --------------------------------------------------------------

  /** `j` is just past the bracket that matches the one at `i`. */
  ghost predicate Closes(src: string, i: int, j: int, b: Brace) {
    && 0 <= i && i + 2 <= j <= |src| && src[i] == b.open && src[j - 1] == b.close
    && Balanced(src[i + 1..j - 1], b)
  }

  /** The counter's view: one more than the net of what follows the bracket. */
  function DepthAt(src: string, i: int, m: int, b: Brace): int
    requires 0 <= i < m <= |src|
  {
    1 + Net(src[i + 1..m], b)
  }

  lemma DepthNext(src: string, i: int, m: int, b: Brace)
    requires 0 <= i < m < |src|
    ensures DepthAt(src, i, m + 1, b)
      == DepthAt(src, i, m, b) + (if src[m] == b.open then 1 else if src[m] == b.close then -1 else 0)
  {
    assert src[i + 1..m + 1][..m - i - 1] == src[i + 1..m];
  }

  /** Matching is the first return of the counter to zero. */
  lemma ClosesIff(src: string, i: int, j: int, b: Brace)
    requires b.open != b.close && 0 <= i < |src| && src[i] == b.open && i < j <= |src|
    ensures Closes(src, i, j, b) <==>
      DepthAt(src, i, j, b) == 0 && forall m :: i < m < j ==> DepthAt(src, i, m, b) > 0
  {
    if j > i + 1 {
      var body := src[i + 1..j - 1];
      BalancedIff(body, b);
      DepthNext(src, i, j - 1, b);
      forall m | i < m < j ensures DepthAt(src, i, m, b) == 1 + Net(body[..m - i - 1], b) {
        assert src[i + 1..m] == body[..m - i - 1];
      }
      assert body[..|body|] == body;
      if forall m :: i < m < j ==> DepthAt(src, i, m, b) > 0 {
        forall k | 0 <= k <= |body| ensures Net(body[..k], b) >= 0 {
          assert DepthAt(src, i, i + 1 + k, b) > 0;
        }
      }
      if Closes(src, i, j, b) {
        forall m | i < m < j ensures DepthAt(src, i, m, b) > 0 {
          assert Net(body[..m - i - 1], b) >= 0;
        }
      }
    }
  }

  /** There is at most one match. */
  lemma ClosesUnique(src: string, i: int, j: int, k: int, b: Brace)
    requires b.open != b.close && Closes(src, i, j, b) && Closes(src, i, k, b)
    ensures j == k
  {
    ClosesIff(src, i, j, b);
    ClosesIff(src, i, k, b);
  }

  ghost predicate FirstBraceFrom(src: string, after: int, i: int) {
    0 <= after <= i < |src| && src[i] == '{' && forall k :: after <= k < i ==> src[k] != '{'
  }

  /** `src.find("{", after)` */
  method FindOpen(src: string, after: nat) returns (i: int)
    ensures i >= 0 ==> FirstBraceFrom(src, after, i)
    ensures i < 0 ==> i == -1 && forall k :: after <= k < |src| ==> src[k] != '{'
  {
    i := after;
    while i < |src|
      invariant i >= after
      invariant forall k :: after <= k < i && k < |src| ==> src[k] != '{'
    {
      if src[i] == '{' { return; }
      i := i + 1;
    }
    return -1;
  }

  /** `_extract_body`: the text up to the brace matching the first one, or nothing exactly when
      there is no such brace or nothing matches it. */
  method ExtractBody(src: string, after: nat) returns (body: Option<string>, end: int)
    ensures body.Some? ==> exists i ::
      FirstBraceFrom(src, after, i) && Closes(src, i, end, CURLY) && body.value == src[i + 1..end - 1]
    ensures body.None? ==> end == -1 && forall i, j :: FirstBraceFrom(src, after, i) ==> !Closes(src, i, j, CURLY)
  {
    hide Balanced;
    var i := FindOpen(src, after);
    if i < 0 { return None, -1; }
    var depth := 1;
    var j := i + 1;
    while j < |src| && depth > 0
      invariant i < j <= |src|
      invariant depth == DepthAt(src, i, j, CURLY) >= 0
      invariant forall m :: i < m < j ==> DepthAt(src, i, m, CURLY) > 0
      decreases |src| - j
    {
      var ch := src[j];
      DepthNext(src, i, j, CURLY);
      if ch == '{' {
        depth := depth + 1;
      } else if ch == '}' {
        depth := depth - 1;
      }
      j := j + 1;
    }
    if depth != 0 {
      forall k, e | FirstBraceFrom(src, after, k) ensures !Closes(src, k, e, CURLY) {
        assert k == i;
        if i < e <= |src| { ClosesIff(src, i, e, CURLY); }
      }
      return None, -1;
    }
    ClosesIff(src, i, j, CURLY);
    return Some(src[i + 1..j - 1]), j;
  }

  /** Just past a closing bracket that brings the count from `from` back to zero. */
  predicate ReturnsAt(src: string, from: nat, p: nat, b: Brace) {
    from < p <= |src| && src[p - 1] == b.close && Net(src[from..p], b) == 0
  }

  lemma {:induction false} PositiveUntilReturn(src: string, i: nat, m: nat, b: Brace)
    requires b.open != b.close && i < m <= |src| && src[i] == b.open
    requires forall p: nat :: p <= m ==> !ReturnsAt(src, i, p, b)
    ensures DepthAt(src, i, m, b) > 0
  {
    if m > i + 1 {
      PositiveUntilReturn(src, i, m - 1, b);
      DepthNext(src, i, m - 1, b);
      DepthIsNet(src, i, m, b);
      assert !ReturnsAt(src, i, m, b);
    }
  }

  lemma DepthIsNet(src: string, i: nat, m: nat, b: Brace)
    requires i < m <= |src| && src[i] == b.open
    ensures DepthAt(src, i, m, b) == Net(src[i..m], b)
  {
    assert src[i..m] == [src[i]] + src[i + 1..m];
    NetChar(src[i], b);
    NetConcat([src[i]], src[i + 1..m], b);
  }

  /** From an opening bracket, the first such position is the match. */
  lemma ClosesIffFirstReturn(src: string, i: nat, j: nat, b: Brace)
    requires b.open != b.close && i < |src| && src[i] == b.open
    ensures Closes(src, i, j, b) <==> ReturnsAt(src, i, j, b) && forall p: nat :: p < j ==> !ReturnsAt(src, i, p, b)
  {
    hide Balanced;
    if i < j <= |src| {
      ClosesIff(src, i, j, b);
      DepthIsNet(src, i, j, b);
      if Closes(src, i, j, b) {
        forall p: nat | p < j ensures !ReturnsAt(src, i, p, b) {
          if i < p { DepthIsNet(src, i, p, b); }
        }
      }
      if ReturnsAt(src, i, j, b) && forall p: nat :: p < j ==> !ReturnsAt(src, i, p, b) {
        forall m | i < m < j ensures DepthAt(src, i, m, b) > 0 { PositiveUntilReturn(src, i, m, b); }
      }
    }
  }

  lemma FirstReturnIsMatch(src: string, i: nat, pos: nat)
    requires i < |src| && src[i] == '(' && pos <= |src|
    requires forall p: nat :: p < pos ==> !ReturnsAt(src, i, p, ROUND)
    requires ReturnsAt(src, i, pos, ROUND) || pos == |src|
    ensures forall j: nat :: Closes(src, i, j, ROUND) ==> pos == j
    ensures Closes(src, i, pos, ROUND) || (pos == |src| && forall j: nat :: !Closes(src, i, j, ROUND))
    ensures pos == |src| <==> Closes(src, i, |src|, ROUND) || forall j: nat :: !Closes(src, i, j, ROUND)
  {
    hide Closes;
    forall j: nat | Closes(src, i, j, ROUND) ensures ReturnsAt(src, i, pos, ROUND) && pos == j {
      ClosesIffFirstReturn(src, i, j, ROUND);
      assert j <= |src|;
    }
    if ReturnsAt(src, i, pos, ROUND) { ClosesIffFirstReturn(src, i, pos, ROUND); }
  }

  /** `_find_closing_paren`, from any position: the first place where a closing parenthesis
      brings the count back to zero, or the end of the text when there is none.  From an opening
      parenthesis that is just past its match; the end of the text is the answer both when there
      is no match and when the match is the last character. */
  method FindClosingParen(src: string, openPos: nat) returns (pos: nat)
    ensures forall p: nat :: p < pos ==> !ReturnsAt(src, openPos, p, ROUND)
    ensures ReturnsAt(src, openPos, pos, ROUND) || pos == |src|
    ensures openPos < |src| && src[openPos] == '(' ==>
      && (forall j: nat :: Closes(src, openPos, j, ROUND) ==> pos == j)
      && (Closes(src, openPos, pos, ROUND) || (pos == |src| && forall j: nat :: !Closes(src, openPos, j, ROUND)))
      && (pos == |src| <==>
            Closes(src, openPos, |src|, ROUND) || forall j: nat :: !Closes(src, openPos, j, ROUND))
  {
    hide Closes;
    pos := |src|;
    var depth, i := 0, openPos;
    while i < |src|
      invariant i >= openPos && pos == |src|
      invariant i <= |src| ==> depth == Net(src[openPos..i], ROUND)
      invariant forall p: nat :: p <= i ==> !ReturnsAt(src, openPos, p, ROUND)
    {
      assert src[openPos..i + 1][..i - openPos] == src[openPos..i];
      if src[i] == '(' {
        depth := depth + 1;
      } else if src[i] == ')' {
        depth := depth - 1;
        if depth == 0 {
          pos := i + 1;
          break;
        }
      }
      i := i + 1;
    }
    if openPos < |src| && src[openPos] == '(' { FirstReturnIsMatch(src, openPos, pos); }
  }

  /** So the answer does not tell the two apart: with any balanced text inside, "(...)" has its
      match at the end and "(..." has none. */
  lemma EndIsAmbiguous(inner: string)
    requires Balanced(inner, ROUND)
    ensures Closes("(" + inner + ")", 0, |inner| + 2, ROUND)
    ensures forall j :: !Closes("(" + inner, 0, j, ROUND)
  {
    var whole, cut := "(" + inner + ")", "(" + inner;
    assert whole[1..|inner| + 1] == inner;
    forall j | 0 < j <= |cut| ensures !Closes(cut, 0, j, ROUND) {
      BalancedIff(inner, ROUND);
      ClosesIff(cut, 0, j, ROUND);
      assert cut[1..j] == inner[..j - 1];
      assert Net(inner[..j - 1], ROUND) >= 0;
    }
  }

  /** The shortest such pair. */
  lemma EndIsAmbiguousShort()
    ensures Closes("()", 0, 2, ROUND) && forall j :: !Closes("(", 0, j, ROUND)
  {
    assert WellFormed(Empty, ROUND) && Render(Empty, ROUND) == "";
    assert Balanced("", ROUND);
    EndIsAmbiguous("");
    assert "(" + "" + ")" == "()" && "(" + "" == "(";
  }
}
