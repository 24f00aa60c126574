/** hooks/validators/complexity_guard.py: the three Python measures, over syntax trees. */
module TreeMetrics {
  /** The node kinds the measures tell apart, with the two counts they read off a node. */
  datatype Kind =
    | If | IfExp | For | AsyncFor | While | With | AsyncWith
    | Try | TryStar | ExceptHandler | Assert
    | BoolOp(values: nat) | Comprehension(ifs: nat)
    | Break | Continue | Other

  datatype Node = Node(kind: Kind, children: Nodes)
  datatype Nodes = Nil | Cons(head: Node, tail: Nodes)

  function Max(a: int, b: int): int { if a >= b then a else b }

  // ---- the measures ----------------------------------------------------------------

  function DecisionWeight(k: Kind): int {
    match k
    case If | IfExp | For | AsyncFor | While | ExceptHandler | With | AsyncWith | Assert => 1
    case BoolOp(values) => values - 1
    case Comprehension(ifs) => ifs
    case _ => 0
  }

  function Decisions(n: Node): int
    decreases n
  {
    DecisionWeight(n.kind) + DecisionsAll(n.children)
  }

  function DecisionsAll(ns: Nodes): int
    decreases ns
  {
    match ns
    case Nil => 0
    case Cons(n, rest) => Decisions(n) + DecisionsAll(rest)
  }

  predicate OpensBlock(k: Kind) {
    k.If? || k.For? || k.AsyncFor? || k.While? || k.With? || k.AsyncWith?
  }

  predicate Nests(k: Kind) {
    OpensBlock(k) || k.Try? || k.TryStar? || k.ExceptHandler?
  }

  /** `_walk_nesting` over a node's children. */
  function WalkNesting(ns: Nodes, depth: int): int {
    match ns
    case Nil => depth
    case Cons(n, rest) =>
      Max(WalkNesting(n.children, if Nests(n.kind) then depth + 1 else depth), WalkNesting(rest, depth))
  }

  /** `_python_max_nesting` */
  function MaxNesting(f: Node): int {
    WalkNesting(f.children, 0) - 1
  }

  /** `_walk_cognitive` over a node's children. */
  function WalkCognitive(ns: Nodes, nesting: int): int {
    match ns
    case Nil => 0
    case Cons(n, rest) =>
      (if OpensBlock(n.kind) || n.kind.ExceptHandler? then 1 + nesting + WalkCognitive(n.children, nesting + 1)
       else if n.kind.IfExp? then 1 + nesting + WalkCognitive(n.children, nesting)
       else if n.kind.BoolOp? then 1 + WalkCognitive(n.children, nesting)
       else if n.kind.Break? || n.kind.Continue? then 1
       else WalkCognitive(n.children, nesting))
      + WalkCognitive(rest, nesting)
  }

  function Cognitive(f: Node): int {
    WalkCognitive(f.children, 0)
  }

  function Append(a: Nodes, b: Nodes): Nodes {
    match a
    case Nil => b
    case Cons(n, rest) => Cons(n, Append(rest, b))
  }

  function Size(ns: Nodes): nat {
    match ns
    case Nil => 0
    case Cons(n, rest) => 1 + Size(n.children) + Size(rest)
  }

  lemma AppendTotals(a: Nodes, b: Nodes)
    ensures DecisionsAll(Append(a, b)) == DecisionsAll(a) + DecisionsAll(b)
    ensures Size(Append(a, b)) == Size(a) + Size(b)
  {
  }

  /** `_python_cyclomatic_complexity`: the breadth-first `ast.walk` loop counts one plus the
      decisions anywhere in the tree. */
  method CyclomaticComplexity(root: Node) returns (complexity: int)
    ensures complexity == 1 + Decisions(root)
  {
    complexity := 1;
    var todo := Cons(root, Nil);
    while todo.Cons?
      invariant complexity + DecisionsAll(todo) == 1 + Decisions(root)
      decreases Size(todo)
    {
      var child := todo.head;
      AppendTotals(todo.tail, child.children);
      todo := Append(todo.tail, child.children);
      if child.kind.If? || child.kind.IfExp? || child.kind.For? || child.kind.AsyncFor? || child.kind.While?
        || child.kind.ExceptHandler? || child.kind.With? || child.kind.AsyncWith? || child.kind.Assert?
      {
        complexity := complexity + 1;
      } else if child.kind.BoolOp? {
        complexity := complexity + (child.kind.values - 1);
      } else if child.kind.Comprehension? {
        complexity := complexity + child.kind.ifs;
      }
    }
  }

  /** What a single node adds, kind by kind, in a function that holds nothing else. */
  lemma OneNode(k: Kind)
    ensures var f := Node(Other, Cons(Node(k, Nil), Nil));
      && Decisions(f) == (match k
          case If | IfExp | For | AsyncFor | While | With | AsyncWith | ExceptHandler | Assert => 1
          case BoolOp(values) => values - 1
          case Comprehension(ifs) => ifs
          case Try | TryStar | Break | Continue | Other => 0)
      && MaxNesting(f) == (match k
          case If | For | AsyncFor | While | With | AsyncWith | Try | TryStar | ExceptHandler => 0
          case IfExp | Assert | BoolOp(_) | Comprehension(_) | Break | Continue | Other => -1)
      && Cognitive(f) == (match k
          case If | IfExp | For | AsyncFor | While | With | AsyncWith | ExceptHandler => 1
          case BoolOp(_) | Break | Continue => 1
          case Try | TryStar | Assert | Comprehension(_) | Other => 0)
  {
    hide Decisions, DecisionWeight, WalkNesting, WalkCognitive, MaxNesting, Cognitive, Nests, OpensBlock;
    OneDecision(k);
    OneLevel(k);
    OneCost(k);
  }

  lemma OneDecision(k: Kind)
    ensures Decisions(Node(Other, Cons(Node(k, Nil), Nil))) == (match k
      case If | IfExp | For | AsyncFor | While | With | AsyncWith | ExceptHandler | Assert => 1
      case BoolOp(values) => values - 1
      case Comprehension(ifs) => ifs
      case Try | TryStar | Break | Continue | Other => 0)
  {
    assert DecisionsAll(Cons(Node(k, Nil), Nil)) == DecisionWeight(k);
  }

  lemma OneLevel(k: Kind)
    ensures MaxNesting(Node(Other, Cons(Node(k, Nil), Nil))) == (match k
      case If | For | AsyncFor | While | With | AsyncWith | Try | TryStar | ExceptHandler => 0
      case IfExp | Assert | BoolOp(_) | Comprehension(_) | Break | Continue | Other => -1)
  {
    assert WalkNesting(Cons(Node(k, Nil), Nil), 0) == if Nests(k) then 1 else 0;
  }

  lemma OneCost(k: Kind)
    ensures Cognitive(Node(Other, Cons(Node(k, Nil), Nil))) == (match k
      case If | IfExp | For | AsyncFor | While | With | AsyncWith | ExceptHandler => 1
      case BoolOp(_) | Break | Continue => 1
      case Try | TryStar | Assert | Comprehension(_) | Other => 0)
  {
    assert WalkCognitive(Cons(Node(k, Nil), Nil), 0) == (
      if OpensBlock(k) || k.ExceptHandler? || k.IfExp? || k.BoolOp? || k.Break? || k.Continue? then 1 else 0);
  }

  // ---- nesting is the longest chain ---------------------------------------------------

  /** Some downward path meets exactly `k` nesting nodes. */
  predicate HasPath(ns: Nodes, k: int) {
    match ns
    case Nil => k == 0
    case Cons(n, rest) => HasPath(n.children, if Nests(n.kind) then k - 1 else k) || HasPath(rest, k)
  }

  lemma {:induction false} NestingShift(ns: Nodes, depth: int)
    ensures WalkNesting(ns, depth) == depth + WalkNesting(ns, 0)
    ensures WalkNesting(ns, 0) >= 0
  {
    match ns
    case Nil =>
    case Cons(n, rest) =>
      NestingShift(n.children, depth);
      NestingShift(n.children, depth + 1);
      NestingShift(n.children, 1);
      NestingShift(rest, depth);
  }

  lemma {:induction false} NestingIsLongestPath(ns: Nodes, k: int)
    ensures HasPath(ns, WalkNesting(ns, 0))
    ensures HasPath(ns, k) ==> 0 <= k <= WalkNesting(ns, 0)
  {
    match ns
    case Nil =>
    case Cons(n, rest) =>
      NestingShift(n.children, 1);
      NestingShift(n.children, 0);
      NestingShift(rest, 0);
      NestingIsLongestPath(n.children, if Nests(n.kind) then k - 1 else k);
      NestingIsLongestPath(rest, k);
  }

  predicate AnyNests(ns: Nodes) {
    match ns
    case Nil => false
    case Cons(n, rest) => Nests(n.kind) || AnyNests(n.children) || AnyNests(rest)
  }

  lemma {:induction false} NestingIffAny(ns: Nodes)
    ensures WalkNesting(ns, 0) > 0 <==> AnyNests(ns)
  {
    match ns
    case Nil =>
    case Cons(n, rest) =>
      NestingShift(n.children, 1);
      NestingShift(n.children, 0);
      NestingShift(rest, 0);
      NestingIffAny(n.children);
      NestingIffAny(rest);
  }

  /** The reported maximum is one less than the longest chain, and -1 exactly for a function
      without any nesting node, since the walk never counts the function itself. */
  lemma ReportedNestingIsOneShort(f: Node, k: int)
    ensures HasPath(f.children, MaxNesting(f) + 1)
    ensures HasPath(f.children, k) ==> k <= MaxNesting(f) + 1
    ensures MaxNesting(f) == -1 <==> !AnyNests(f.children)
  {
    NestingIsLongestPath(f.children, k);
    NestingIffAny(f.children);
    NestingShift(f.children, 0);
  }

  // ---- cognitive complexity ------------------------------------------------------------

  /** `break` and `continue` are leaves. */
  predicate JumpsAreLeaves(ns: Nodes) {
    match ns
    case Nil => true
    case Cons(n, rest) =>
      (n.kind.Break? || n.kind.Continue? ==> n.children.Nil?) && JumpsAreLeaves(n.children) && JumpsAreLeaves(rest)
  }

  predicate PaysForNesting(k: Kind) {
    OpensBlock(k) || k.ExceptHandler? || k.IfExp?
  }

  /** How many nodes the surrounding nesting is charged for. */
  function Charged(ns: Nodes): nat {
    match ns
    case Nil => 0
    case Cons(n, rest) =>
      (if PaysForNesting(n.kind) then 1 else 0)
      + (if n.kind.Break? || n.kind.Continue? then 0 else Charged(n.children)) + Charged(rest)
  }

  lemma {:induction false} CognitiveStep(ns: Nodes, nesting: int)
    ensures WalkCognitive(ns, nesting + 1) == WalkCognitive(ns, nesting) + Charged(ns)
  {
    match ns
    case Nil =>
    case Cons(n, rest) =>
      CognitiveStep(n.children, nesting);
      CognitiveStep(n.children, nesting + 1);
      CognitiveStep(rest, nesting);
  }

  /** Wrapping code in `nesting` more levels costs exactly that much per charged node. */
  lemma {:induction false} CognitiveIsAffine(ns: Nodes, nesting: nat)
    ensures WalkCognitive(ns, nesting) == WalkCognitive(ns, 0) + nesting * Charged(ns)
  {
    hide WalkCognitive, Charged;
    if nesting == 0 {
    } else {
      CognitiveIsAffine(ns, nesting - 1);
      CognitiveStep(ns, nesting - 1);
      assert nesting * Charged(ns) == (nesting - 1) * Charged(ns) + Charged(ns);
    }
  }

  /** Nesting levels that are also charged: all but `try`. */
  function ChargedDepth(ns: Nodes): nat {
    match ns
    case Nil => 0
    case Cons(n, rest) =>
      var below := ChargedDepth(n.children) + if OpensBlock(n.kind) || n.kind.ExceptHandler? then 1 else 0;
      if below >= ChargedDepth(rest) then below else ChargedDepth(rest)
  }

  /** (1 + n) + (2 + n) + ... with `m` terms. */
  function Staircase(n: int, m: nat): int
    decreases m
  {
    if m == 0 then 0 else 1 + n + Staircase(n + 1, m - 1)
  }

  lemma {:induction false} StaircaseSum(n: int, m: nat)
    ensures 2 * Staircase(n, m) == m * (m + 1) + 2 * n * m
    decreases m
  {
    if m == 0 {
    } else {
      StaircaseSum(n + 1, m - 1);
      assert 2 * (n + 1) * (m - 1) == 2 * n * m - 2 * n + 2 * m - 2;
      assert (m - 1) * m == m * m - m;
      assert m * (m + 1) == m * m + m;
    }
  }

  lemma {:induction false} CognitiveNonNegative(ns: Nodes, nesting: nat)
    ensures WalkCognitive(ns, nesting) >= 0
  {
    match ns
    case Nil =>
    case Cons(n, rest) =>
      CognitiveNonNegative(n.children, nesting);
      CognitiveNonNegative(n.children, nesting + 1);
      CognitiveNonNegative(rest, nesting);
  }

  lemma {:induction false} CognitiveClimbs(ns: Nodes, nesting: nat)
    requires JumpsAreLeaves(ns)
    ensures WalkCognitive(ns, nesting) >= Staircase(nesting, ChargedDepth(ns))
  {
    match ns
    case Nil =>
    case Cons(n, rest) =>
      CognitiveClimbs(n.children, nesting);
      CognitiveClimbs(n.children, nesting + 1);
      CognitiveClimbs(rest, nesting);
      CognitiveNonNegative(n.children, nesting);
      CognitiveNonNegative(n.children, nesting + 1);
      CognitiveNonNegative(rest, nesting);
  }

  predicate TryFree(ns: Nodes) {
    match ns
    case Nil => true
    case Cons(n, rest) => !n.kind.Try? && !n.kind.TryStar? && TryFree(n.children) && TryFree(rest)
  }

  lemma {:induction false} TryFreeDepth(ns: Nodes)
    requires TryFree(ns)
    ensures WalkNesting(ns, 0) == ChargedDepth(ns)
  {
    match ns
    case Nil =>
    case Cons(n, rest) =>
      NestingShift(n.children, 1);
      TryFreeDepth(n.children);
      TryFreeDepth(rest);
  }

  /** Deep nesting is quadratically expensive: with `m` charged levels at least m(m+1)/2, and
      without `try` the levels are exactly the nesting depth. */
  lemma NestingIsQuadratic(f: Node)
    requires JumpsAreLeaves(f.children)
    ensures 2 * Cognitive(f) >= ChargedDepth(f.children) * (ChargedDepth(f.children) + 1)
    ensures TryFree(f.children) ==> 2 * Cognitive(f) >= (MaxNesting(f) + 1) * (MaxNesting(f) + 2)
  {
    CognitiveClimbs(f.children, 0);
    StaircaseSum(0, ChargedDepth(f.children));
    if TryFree(f.children) { TryFreeDepth(f.children); }
  }

  // ---- cyclomatic against cognitive ---------------------------------------------------------

  /** What cyclomatic counts and cognitive does not: asserts, comprehension conditions, and
      operands of a boolean chain beyond the second. */
  function Uncharged(ns: Nodes): int {
    match ns
    case Nil => 0
    case Cons(n, rest) =>
      (match n.kind
       case Assert => 1
       case Comprehension(ifs) => ifs
       case BoolOp(values) => values - 2
       case _ => 0)
      + Uncharged(n.children) + Uncharged(rest)
  }

  function Jumps(ns: Nodes): nat {
    match ns
    case Nil => 0
    case Cons(n, rest) => (if n.kind.Break? || n.kind.Continue? then 1 else 0) + Jumps(n.children) + Jumps(rest)
  }

  /** The nesting surcharge: the current level at every charged node. */
  function Surcharge(ns: Nodes, nesting: nat): nat {
    match ns
    case Nil => 0
    case Cons(n, rest) =>
      (if PaysForNesting(n.kind) then nesting else 0)
      + Surcharge(n.children, if OpensBlock(n.kind) || n.kind.ExceptHandler? then nesting + 1 else nesting)
      + Surcharge(rest, nesting)
  }

  /** The exact balance between the two measures. */
  lemma {:induction false} MeasuresBalance(ns: Nodes, nesting: nat)
    requires JumpsAreLeaves(ns)
    ensures WalkCognitive(ns, nesting) + Uncharged(ns) == DecisionsAll(ns) + Jumps(ns) + Surcharge(ns, nesting)
  {
    hide WalkNesting, Charged;
    match ns
    case Nil =>
    case Cons(n, rest) =>
      MeasuresBalance(n.children, nesting);
      MeasuresBalance(n.children, nesting + 1);
      MeasuresBalance(rest, nesting);
  }

  /** On a function definition the cyclomatic excess over one is the cognitive measure, less the
      jumps and the surcharge, plus what cognitive leaves out; so with nothing left out it is
      never larger. */
  lemma CyclomaticAgainstCognitive(f: Node)
    requires f.kind.Other? && JumpsAreLeaves(f.children)
    ensures Decisions(f) == Cognitive(f) - Jumps(f.children) - Surcharge(f.children, 0) + Uncharged(f.children)
    ensures Uncharged(f.children) <= 0 ==> Decisions(f) <= Cognitive(f)
  {
    MeasuresBalance(f.children, 0);
  }
}
