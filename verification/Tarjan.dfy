/** hooks/validators/go_circular_deps.py: the recursion-free Tarjan loop, as steps over an
    explicit state, with the invariant every step keeps. */
module TarjanSteps {
  import opened Graphs
  import opened Options
  import opened Sorting

  datatype Frame = Frame(node: Node, neighbors: seq<Node>, idx: nat, parent: Option<Node>)

  /** The loop variables, plus `closedAt`: the finished nodes at the time each cycle was emitted. */
  datatype State = State(
    stack: seq<Node>, onStack: set<Node>,
    indices: map<Node, nat>, lowlinks: map<Node, nat>,
    work: seq<Frame>,
    cycles: seq<seq<Node>>, closedAt: seq<set<Node>>)
  {
    function Top(): Frame requires work != [] { work[|work| - 1] }
    ghost function Done(): set<Node> { indices.Keys - onStack }
  }

  // ---- the invariant -------------------------------------------------------

  ghost predicate StackInv(st: State) {
    && st.lowlinks.Keys == st.indices.Keys
    && (forall v :: v in st.onStack <==> v in st.stack)
    && st.onStack <= st.indices.Keys
    && (forall i :: 0 <= i < |st.stack| ==> st.stack[i] in st.indices)
    && (forall i, j :: 0 <= i < j < |st.stack| ==> st.indices[st.stack[i]] < st.indices[st.stack[j]])
    && (forall v :: v in st.indices ==> st.indices[v] < |st.indices|)
  }

  ghost predicate FrameInv(g: Graph, st: State, f: Frame) {
    && f.node in st.onStack && f.node in st.indices && f.node in st.lowlinks
    && f.idx <= |f.neighbors|
    && Elems(f.neighbors) == Succ(g, f.node) && |f.neighbors| == |Succ(g, f.node)|
    && (forall k :: 0 <= k < f.idx ==> f.neighbors[k] in st.indices)
  }

  ghost predicate FramesInv(g: Graph, st: State) {
    forall i :: 0 <= i < |st.work| ==> FrameInv(g, st, st.work[i])
  }

  /** The frames are a path of the graph, in index order, rooted at the bottom of the stack. */
  ghost predicate PathInv(g: Graph, st: State) {
    && (forall i :: 0 <= i < |st.work| ==> st.work[i].node in st.indices)
    && (forall i, j :: 0 <= i < j < |st.work| ==> st.indices[st.work[i].node] < st.indices[st.work[j].node])
    && (forall i :: 0 < i < |st.work| ==> ChildAt(g, st, i))
    && (if st.work == [] then st.stack == []
        else st.stack != [] && st.stack[0] == st.work[0].node && st.work[0].parent == None)
  }

  ghost predicate ChildAt(g: Graph, st: State, i: int)
    requires 0 < i < |st.work|
  {
    st.work[i].parent == Some(st.work[i - 1].node) && st.work[i].node in Succ(g, st.work[i - 1].node)
  }

  /** `v` lies in the stretch of the stack that frame `i` owns. */
  ghost predicate InSegment(st: State, i: int, v: Node) {
    && 0 <= i < |st.work| && v in st.onStack && v in st.indices
    && st.work[i].node in st.indices && st.indices[st.work[i].node] <= st.indices[v]
    && (i + 1 < |st.work| ==>
          st.work[i + 1].node in st.indices && st.indices[v] < st.indices[st.work[i + 1].node])
  }

  /** Each stretch is strongly connected, and its non-frame nodes are fully explored. */
  ghost predicate SegmentInv(g: Graph, st: State) {
    && (forall i, v :: InSegment(st, i, v) ==> Mutual(g, st.work[i].node, v))
    && (forall i, v :: InSegment(st, i, v) && v != st.work[i].node ==> Succ(g, v) <= st.indices.Keys)
  }

  ghost predicate LowWitness(g: Graph, st: State, n: Node) {
    && n in st.indices && n in st.lowlinks && st.lowlinks[n] <= st.indices[n]
    && exists w :: w in st.onStack && w in st.indices && st.indices[w] == st.lowlinks[n] && Reach(g, n, w)
  }

  ghost predicate Explored(st: State, i: int, v: Node, y: Node) {
    && 0 <= i < |st.work|
    && (v == st.work[i].node ==>
          exists k :: 0 <= k < st.work[i].idx && k < |st.work[i].neighbors| && st.work[i].neighbors[k] == y)
  }

  ghost predicate Bounded(st: State, n: Node, y: Node) {
    n in st.lowlinks && (y in st.onStack && y in st.indices ==> st.lowlinks[n] <= st.indices[y])
  }

  /** A lowlink is the index of a reachable stack node ... */
  ghost predicate WitnessInv(g: Graph, st: State) {
    forall i :: 0 <= i < |st.work| ==> LowWitness(g, st, st.work[i].node)
  }

  /** ... and bounds every explored edge from the frame's stretch into the stack. */
  ghost predicate BoundInv(g: Graph, st: State) {
    forall i, v, y :: InSegment(st, i, v) && y in Succ(g, v) && Explored(st, i, v, y) ==>
      Bounded(st, st.work[i].node, y)
  }

  ghost predicate Trivial(g: Graph, v: Node) {
    forall w :: Mutual(g, v, w) ==> w == v
  }

  ghost predicate InSome(cycles: seq<seq<Node>>, v: Node) {
    exists i :: 0 <= i < |cycles| && v in cycles[i]
  }

  ghost predicate GoodCycle(g: Graph, c: seq<Node>) {
    |c| > 1 && Distinct(c) && Ordered(c, LexLe) && IsScc(g, Elems(c))
  }

  /** What has been emitted: whole components, in an order that the closed prefixes witness. */
  ghost predicate DoneInv(g: Graph, done: set<Node>, cycles: seq<seq<Node>>, closedAt: seq<set<Node>>) {
    && Closed(g, done)
    && |closedAt| == |cycles|
    && (forall i :: 0 <= i < |cycles| ==> GoodCycle(g, cycles[i]) && Elems(cycles[i]) <= closedAt[i])
    && (forall i :: 0 <= i < |closedAt| ==> Closed(g, closedAt[i]) && closedAt[i] <= done)
    && (forall i, j :: 0 <= i < j < |cycles| ==> closedAt[i] <= closedAt[j] && Elems(cycles[j]) !! closedAt[i])
    && (forall v :: v in done ==> InSome(cycles, v) || Trivial(g, v))
  }

  ghost predicate Inv(g: Graph, st: State) {
    && StackInv(st) && FramesInv(g, st) && PathInv(g, st) && SegmentInv(g, st) && WitnessInv(g, st) && BoundInv(g, st)
    && DoneInv(g, st.Done(), st.cycles, st.closedAt)
  }

  // ---- the steps -----------------------------------------------------------

  /** Give `v` the next index, push it, and open a frame for it. */
  function Discover(st: State, v: Node, neighbors: seq<Node>, parent: Option<Node>): State {
    st.(indices := st.indices[v := |st.indices|],
        lowlinks := st.lowlinks[v := |st.indices|],
        stack := st.stack + [v],
        onStack := st.onStack + {v},
        work := st.work + [Frame(v, neighbors, 0, parent)])
  }

  /** Consume one neighbour of frame `k`. */
  function Advance(st: State, k: nat): State
    requires k < |st.work|
  {
    st.(work := st.work[k := st.work[k].(idx := st.work[k].idx + 1)])
  }

  function Min(a: nat, b: nat): nat { if a <= b then a else b }

  /** lowlinks[v] = min(lowlinks[v], bound) */
  function Lower(st: State, v: Node, bound: nat): State
    requires v in st.lowlinks
  {
    st.(lowlinks := st.lowlinks[v := Min(st.lowlinks[v], bound)])
  }

  function PopFrame(st: State): State
    requires st.work != []
  {
    st.(work := st.work[..|st.work| - 1])
  }

  /** Move the stack from position `p` up into a component, reporting it when it is not a singleton. */
  ghost function Emit(st: State, p: nat): State
    requires p < |st.stack| && st.work != []
  {
    var scc := Elems(st.stack[p..]);
    var s := PopFrame(st).(stack := st.stack[..p], onStack := st.onStack - scc);
    if |st.stack| - p > 1 then
      s.(cycles := st.cycles + [Sort(Reversed(st.stack[p..]), LexLe)], closedAt := st.closedAt + [st.Done() + scc])
    else s
  }

  function Reversed<T>(s: seq<T>): seq<T> {
    seq(|s|, i requires 0 <= i < |s| => s[|s| - 1 - i])
  }

  // ---- consuming a neighbour that is already indexed ------------------------

  lemma AdvanceFrames(g: Graph, st: State, k: nat)
    requires FramesInv(g, st) && k < |st.work| && st.work[k].idx < |st.work[k].neighbors|
    requires st.work[k].neighbors[st.work[k].idx] in st.indices
    ensures FramesInv(g, Advance(st, k))
  {
  }

  lemma AdvancePath(g: Graph, st: State, k: nat)
    requires PathInv(g, st) && k < |st.work|
    ensures PathInv(g, Advance(st, k))
  {
    var st' := Advance(st, k);
    assert forall i :: 0 <= i < |st.work| ==>
      st'.work[i].node == st.work[i].node && st'.work[i].parent == st.work[i].parent;
    forall i | 0 < i < |st'.work| ensures ChildAt(g, st', i) {
      assert ChildAt(g, st, i);
    }
  }

  lemma AdvanceSegments(g: Graph, st: State, k: nat)
    requires SegmentInv(g, st) && k < |st.work|
    ensures SegmentInv(g, Advance(st, k))
  {
    var st' := Advance(st, k);
    forall i, v | InSegment(st', i, v) ensures InSegment(st, i, v) && st'.work[i].node == st.work[i].node {
    }
  }

  lemma AdvanceWitness(g: Graph, st: State, k: nat)
    requires WitnessInv(g, st) && k < |st.work|
    ensures WitnessInv(g, Advance(st, k))
  {
  }

  lemma AdvanceBound(g: Graph, st: State, k: nat)
    requires BoundInv(g, st) && k < |st.work| && st.work[k].idx < |st.work[k].neighbors|
    requires Bounded(st, st.work[k].node, st.work[k].neighbors[st.work[k].idx])
    ensures BoundInv(g, Advance(st, k))
  {
  }

  lemma AdvanceKeeps(g: Graph, st: State, k: nat)
    requires Inv(g, st) && k < |st.work| && st.work[k].idx < |st.work[k].neighbors|
    requires st.work[k].neighbors[st.work[k].idx] in st.indices
    requires Bounded(st, st.work[k].node, st.work[k].neighbors[st.work[k].idx])
    ensures Inv(g, Advance(st, k))
  {
    hide FramesInv, PathInv, SegmentInv, WitnessInv, BoundInv, DoneInv, Reach;
    AdvanceFrames(g, st, k);
    AdvancePath(g, st, k);
    AdvanceSegments(g, st, k);
    AdvanceWitness(g, st, k);
    AdvanceBound(g, st, k);
  }

  // ---- lowering a lowlink to the index of a reachable stack node ------------

  lemma LowerFrames(g: Graph, st: State, v: Node, bound: nat)
    requires FramesInv(g, st) && v in st.lowlinks
    ensures FramesInv(g, Lower(st, v, bound))
  {
  }

  lemma LowerPath(g: Graph, st: State, v: Node, bound: nat)
    requires PathInv(g, st) && v in st.lowlinks
    ensures PathInv(g, Lower(st, v, bound))
  {
    forall i | 0 < i < |st.work| ensures ChildAt(g, Lower(st, v, bound), i) {
      assert ChildAt(g, st, i);
    }
  }

  lemma LowerSegments(g: Graph, st: State, v: Node, bound: nat)
    requires SegmentInv(g, st) && v in st.lowlinks
    ensures SegmentInv(g, Lower(st, v, bound))
  {
  }

  lemma LowerWitness(g: Graph, st: State, v: Node, w: Node)
    requires WitnessInv(g, st) && v in st.lowlinks && w in st.onStack && w in st.indices && Reach(g, v, w)
    ensures WitnessInv(g, Lower(st, v, st.indices[w]))
  {
  }

  lemma LowerBound(g: Graph, st: State, v: Node, bound: nat)
    requires BoundInv(g, st) && v in st.lowlinks
    ensures BoundInv(g, Lower(st, v, bound))
  {
  }

  lemma LowerKeeps(g: Graph, st: State, v: Node, w: Node)
    requires Inv(g, st) && v in st.lowlinks && w in st.onStack && w in st.indices && Reach(g, v, w)
    ensures Inv(g, Lower(st, v, st.indices[w]))
  {
    hide FramesInv, PathInv, SegmentInv, WitnessInv, BoundInv, DoneInv, Reach;
    LowerFrames(g, st, v, st.indices[w]);
    LowerPath(g, st, v, st.indices[w]);
    LowerSegments(g, st, v, st.indices[w]);
    LowerWitness(g, st, v, w);
    LowerBound(g, st, v, st.indices[w]);
  }

  // ---- discovering a node ---------------------------------------------------

  lemma DiscoverStack(st: State, v: Node, nbs: seq<Node>, parent: Option<Node>)
    requires StackInv(st) && v !in st.indices
    ensures StackInv(Discover(st, v, nbs, parent))
  {
  }

  lemma DiscoverFrames(g: Graph, st: State, v: Node, nbs: seq<Node>, parent: Option<Node>)
    requires FramesInv(g, st) && Elems(nbs) == Succ(g, v) && |nbs| == |Succ(g, v)|
    requires v !in st.indices
    ensures FramesInv(g, Discover(st, v, nbs, parent))
  {
  }

  lemma DiscoverPath(g: Graph, st: State, v: Node, nbs: seq<Node>, parent: Option<Node>)
    requires StackInv(st) && PathInv(g, st) && v !in st.indices
    requires if st.work == [] then parent == None else parent == Some(st.Top().node) && v in Succ(g, st.Top().node)
    ensures PathInv(g, Discover(st, v, nbs, parent))
  {
    var st' := Discover(st, v, nbs, parent);
    forall i | 0 < i < |st'.work| ensures ChildAt(g, st', i) {
      if i < |st.work| { assert ChildAt(g, st, i); }
    }
  }

  lemma DiscoverInSegment(g: Graph, st: State, v: Node, nbs: seq<Node>, parent: Option<Node>, i: int, u: Node)
    requires StackInv(st) && PathInv(g, st) && v !in st.indices
    requires InSegment(Discover(st, v, nbs, parent), i, u)
    ensures if i == |st.work| then u == v else u != v && InSegment(st, i, u)
  {
  }

  lemma DiscoverSegments(g: Graph, st: State, v: Node, nbs: seq<Node>, parent: Option<Node>)
    requires StackInv(st) && PathInv(g, st) && SegmentInv(g, st) && v !in st.indices
    ensures SegmentInv(g, Discover(st, v, nbs, parent))
  {
    var st' := Discover(st, v, nbs, parent);
    forall i, u | InSegment(st', i, u)
      ensures Mutual(g, st'.work[i].node, u)
      ensures u != st'.work[i].node ==> Succ(g, u) <= st'.indices.Keys
    {
      DiscoverInSegment(g, st, v, nbs, parent, i, u);
      ReachRefl(g, v);
    }
  }

  lemma DiscoverWitness(g: Graph, st: State, v: Node, nbs: seq<Node>, parent: Option<Node>)
    requires WitnessInv(g, st) && v !in st.indices
    ensures WitnessInv(g, Discover(st, v, nbs, parent))
  {
  }

  lemma DiscoverBound(g: Graph, st: State, v: Node, nbs: seq<Node>, parent: Option<Node>)
    requires StackInv(st) && FramesInv(g, st) && PathInv(g, st) && SegmentInv(g, st) && BoundInv(g, st)
    requires v !in st.indices
    ensures BoundInv(g, Discover(st, v, nbs, parent))
  {
    var st' := Discover(st, v, nbs, parent);
    forall i, u, y | InSegment(st', i, u) && y in Succ(g, u) && Explored(st', i, u, y)
      ensures Bounded(st', st'.work[i].node, y)
    {
      DiscoverInSegment(g, st, v, nbs, parent, i, u);
      if i < |st.work| {
        assert FrameInv(g, st, st.work[i]);
        assert Explored(st, i, u, y);
        assert y in st.indices;
        assert Bounded(st, st.work[i].node, y);
      }
    }
  }

  lemma DiscoverKeeps(g: Graph, st: State, v: Node, nbs: seq<Node>, parent: Option<Node>)
    requires Inv(g, st) && v !in st.indices && Elems(nbs) == Succ(g, v) && |nbs| == |Succ(g, v)|
    requires if st.work == [] then parent == None else parent == Some(st.Top().node) && v in Succ(g, st.Top().node)
    ensures Inv(g, Discover(st, v, nbs, parent))
  {
    hide FramesInv, PathInv, SegmentInv, WitnessInv, BoundInv, DoneInv, Reach;
    var st' := Discover(st, v, nbs, parent);
    DiscoverStack(st, v, nbs, parent);
    DiscoverFrames(g, st, v, nbs, parent);
    DiscoverPath(g, st, v, nbs, parent);
    DiscoverSegments(g, st, v, nbs, parent);
    DiscoverWitness(g, st, v, nbs, parent);
    DiscoverBound(g, st, v, nbs, parent);
    assert st'.Done() == st.Done();
  }

  // ---- popping a frame whose component is still open ------------------------

  lemma FindSegment(g: Graph, st: State, w: Node) returns (j: nat)
    requires StackInv(st) && PathInv(g, st) && w in st.onStack
    ensures InSegment(st, j, w)
  {
    j := |st.work| - 1;
    assert st.indices[st.stack[0]] <= st.indices[w];
    while st.indices[w] < st.indices[st.work[j].node]
      invariant 0 <= j < |st.work|
      invariant j + 1 < |st.work| ==> st.indices[w] < st.indices[st.work[j + 1].node]
      decreases j
    {
      j := j - 1;
    }
  }

  lemma FramesReach(g: Graph, st: State, i: nat, j: nat)
    requires PathInv(g, st) && i <= j < |st.work|
    ensures Reach(g, st.work[i].node, st.work[j].node)
  {
    if i == j {
      ReachRefl(g, st.work[i].node);
    } else {
      FramesReach(g, st, i, j - 1);
      assert ChildAt(g, st, j);
      ReachEdge(g, st.work[j - 1].node, st.work[j].node);
      ReachTrans(g, st.work[i].node, st.work[j - 1].node, st.work[j].node);
    }
  }

  /** The top frame is exhausted: all its successors are indexed. */
  lemma TopExplored(g: Graph, st: State, y: Node)
    requires FramesInv(g, st) && st.work != [] && st.Top().idx == |st.Top().neighbors| && y in Succ(g, st.Top().node)
    ensures y in st.indices && Explored(st, |st.work| - 1, st.Top().node, y)
  {
  }

  /** With a lowlink below its index, the top node is mutually reachable with its parent. */
  lemma OpenTopJoinsParent(g: Graph, st: State) returns (w: Node)
    requires StackInv(st) && FramesInv(g, st) && PathInv(g, st) && SegmentInv(g, st) && WitnessInv(g, st)
    requires st.work != [] && st.Top().node in st.lowlinks && st.Top().node in st.indices
    requires st.lowlinks[st.Top().node] < st.indices[st.Top().node]
    ensures |st.work| > 1 && Mutual(g, st.work[|st.work| - 2].node, st.Top().node)
    ensures w in st.onStack && w in st.indices && st.indices[w] == st.lowlinks[st.Top().node]
    ensures Reach(g, st.work[|st.work| - 2].node, w)
  {
    hide Reach;
    var k := |st.work| - 1;
    var n := st.work[k].node;
    assert LowWitness(g, st, n);
    w :| w in st.onStack && w in st.indices && st.indices[w] == st.lowlinks[n] && Reach(g, n, w);
    var j := FindSegment(g, st, w);
    assert j < k;
    SegmentJoins(g, st, j, w, n);
  }

  lemma SegmentJoins(g: Graph, st: State, j: nat, w: Node, n: Node)
    requires PathInv(g, st) && SegmentInv(g, st) && InSegment(st, j, w) && j < |st.work| - 1
    requires st.Top().node == n && Reach(g, n, w)
    ensures Mutual(g, st.work[|st.work| - 2].node, n) && Reach(g, st.work[|st.work| - 2].node, w)
  {
    hide Reach;
    var p := st.work[|st.work| - 2].node;
    assert Mutual(g, st.work[j].node, w);
    FramesReach(g, st, j, |st.work| - 2);
    ReachTrans(g, n, w, st.work[j].node);
    ReachTrans(g, n, st.work[j].node, p);
    FramesReach(g, st, |st.work| - 2, |st.work| - 1);
    ReachTrans(g, p, n, w);
  }

  /** Popping frame `k` gives its stretch to frame `k - 1`. */
  lemma MergeInSegment(g: Graph, st: State, i: int, v: Node)
    requires PathInv(g, st) && |st.work| > 1 && InSegment(PopFrame(st), i, v)
    ensures InSegment(st, i, v) || (i == |st.work| - 2 && InSegment(st, |st.work| - 1, v))
  {
  }

  lemma MergeFrames(g: Graph, st: State)
    requires FramesInv(g, st) && PathInv(g, st) && |st.work| > 1
    ensures FramesInv(g, PopFrame(st)) && PathInv(g, PopFrame(st))
  {
    var st' := PopFrame(st);
    forall i | 0 <= i < |st'.work| ensures FrameInv(g, st', st'.work[i]) {
      assert FrameInv(g, st, st.work[i]);
    }
    forall i | 0 < i < |st'.work| ensures ChildAt(g, st', i) {
      assert ChildAt(g, st, i);
    }
  }

  lemma MergeSegments(g: Graph, st: State)
    requires FramesInv(g, st) && PathInv(g, st) && SegmentInv(g, st) && |st.work| > 1
    requires st.Top().idx == |st.Top().neighbors|
    requires Mutual(g, st.work[|st.work| - 2].node, st.Top().node)
    ensures SegmentInv(g, PopFrame(st))
  {
    var st' := PopFrame(st);
    forall i, v | InSegment(st', i, v)
      ensures Mutual(g, st'.work[i].node, v)
      ensures v != st'.work[i].node ==> Succ(g, v) <= st'.indices.Keys
    {
      MergeInSegment(g, st, i, v);
      if !InSegment(st, i, v) {
        assert Mutual(g, st.Top().node, v);
        MutualTrans(g, st.work[i].node, st.Top().node, v);
        if v == st.Top().node {
          forall y | y in Succ(g, v) ensures y in st.indices { TopExplored(g, st, y); }
        }
      }
    }
  }

  lemma MergeWitness(g: Graph, st: State)
    requires WitnessInv(g, st) && st.work != []
    ensures WitnessInv(g, PopFrame(st))
  {
  }

  lemma MergeBound(g: Graph, st: State)
    requires FramesInv(g, st) && PathInv(g, st) && BoundInv(g, st) && |st.work| > 1
    requires st.Top().idx == |st.Top().neighbors|
    requires st.work[|st.work| - 2].node in st.lowlinks && st.Top().node in st.lowlinks
    requires st.lowlinks[st.work[|st.work| - 2].node] <= st.lowlinks[st.Top().node]
    ensures BoundInv(g, PopFrame(st))
  {
    var st' := PopFrame(st);
    forall i, v, y | InSegment(st', i, v) && y in Succ(g, v) && Explored(st', i, v, y)
      ensures Bounded(st', st'.work[i].node, y)
    {
      MergeInSegment(g, st, i, v);
      if InSegment(st, i, v) {
        assert Explored(st, i, v, y);
        assert Bounded(st, st.work[i].node, y);
      } else {
        var k := |st.work| - 1;
        if v == st.Top().node { TopExplored(g, st, y); }
        assert Explored(st, k, v, y);
        assert Bounded(st, st.work[k].node, y);
      }
    }
  }

  lemma PopFrameKeeps(g: Graph, st: State)
    requires Inv(g, st) && |st.work| > 1 && st.Top().idx == |st.Top().neighbors|
    requires Mutual(g, st.work[|st.work| - 2].node, st.Top().node)
    requires st.work[|st.work| - 2].node in st.lowlinks && st.Top().node in st.lowlinks
    requires st.lowlinks[st.work[|st.work| - 2].node] <= st.lowlinks[st.Top().node]
    ensures Inv(g, PopFrame(st))
  {
    hide FramesInv, PathInv, SegmentInv, WitnessInv, BoundInv, DoneInv, Reach;
    MergeFrames(g, st);
    MergeSegments(g, st);
    MergeWitness(g, st);
    MergeBound(g, st);
    assert PopFrame(st).Done() == st.Done();
  }

  /** Backtracking from a node whose component is still open: the parent takes over the
      stretch and the lowlink. */
  lemma MergeKeeps(g: Graph, st: State)
    requires Inv(g, st) && st.work != [] && st.Top().idx == |st.Top().neighbors|
    requires st.Top().node in st.lowlinks && st.Top().node in st.indices
    requires st.lowlinks[st.Top().node] < st.indices[st.Top().node]
    ensures |st.work| > 1 && st.Top().parent == Some(st.work[|st.work| - 2].node)
    ensures st.work[|st.work| - 2].node in st.lowlinks
    ensures Inv(g, PopFrame(Lower(st, st.work[|st.work| - 2].node, st.lowlinks[st.Top().node])))
  {
    hide SegmentInv, BoundInv, DoneInv, Reach;
    var w := OpenTopJoinsParent(g, st);
    var p := st.work[|st.work| - 2].node;
    var low := st.lowlinks[st.Top().node];
    ParentFrame(g, st);
    LowerKeeps(g, st, p, w);
    PopFrameKeeps(g, Lower(st, p, low));
  }

  lemma ParentFrame(g: Graph, st: State)
    requires StackInv(st) && FramesInv(g, st) && PathInv(g, st) && |st.work| > 1
    ensures st.Top().parent == Some(st.work[|st.work| - 2].node)
    ensures st.work[|st.work| - 2].node in st.lowlinks && st.work[|st.work| - 2].node != st.Top().node
  {
    var k := |st.work| - 1;
    assert ChildAt(g, st, k);
    assert FrameInv(g, st, st.work[k - 1]);
  }

  // ---- emitting a component -------------------------------------------------

  ghost predicate Ready(g: Graph, st: State, p: nat) {
    && st.work != [] && st.Top().idx == |st.Top().neighbors|
    && p < |st.stack| && st.stack[p] == st.Top().node
    && st.Top().node in st.lowlinks && st.Top().node in st.indices
    && st.lowlinks[st.Top().node] == st.indices[st.Top().node]
  }

  /** The popped part of the stack is exactly the top frame's stretch. */
  lemma PoppedIsSegment(g: Graph, st: State, p: nat, v: Node)
    requires StackInv(st) && Ready(g, st, p)
    ensures v in Elems(st.stack[p..]) <==> InSegment(st, |st.work| - 1, v)
    ensures v in st.stack[..p] <==> v in st.onStack && v !in Elems(st.stack[p..])
    ensures v in st.stack[..p] ==> v in st.indices && st.indices[v] < st.indices[st.Top().node]
  {
  }

  lemma EmittedClosed(g: Graph, st: State, p: nat)
    requires StackInv(st) && FramesInv(g, st) && SegmentInv(g, st) && BoundInv(g, st) && Ready(g, st, p)
    requires Closed(g, st.Done())
    ensures Closed(g, st.Done() + Elems(st.stack[p..]))
  {
    var k := |st.work| - 1;
    forall v, y | v in Elems(st.stack[p..]) && y in Succ(g, v)
      ensures y in st.Done() + Elems(st.stack[p..])
    {
      PoppedIsSegment(g, st, p, v);
      PoppedIsSegment(g, st, p, y);
      if v == st.Top().node { TopExplored(g, st, y); }
      assert y in st.indices && Explored(st, k, v, y);
      assert Bounded(st, st.work[k].node, y);
    }
  }

  lemma EmittedIsScc(g: Graph, st: State, p: nat)
    requires StackInv(st) && FramesInv(g, st) && SegmentInv(g, st) && BoundInv(g, st) && Ready(g, st, p)
    requires Closed(g, st.Done())
    ensures IsScc(g, Elems(st.stack[p..]))
  {
    var scc, n := Elems(st.stack[p..]), st.Top().node;
    EmittedClosed(g, st, p);
    PoppedIsSegment(g, st, p, n);
    assert FrameInv(g, st, st.work[|st.work| - 1]);
    assert n in scc;
    forall w ensures w in scc <==> Mutual(g, n, w) {
      PoppedIsSegment(g, st, p, w);
      if Mutual(g, n, w) {
        ClosedReach(g, st.Done() + scc, n, w);
        if w in st.Done() { ClosedReach(g, st.Done(), w, n); }
      }
    }
  }

  lemma EmitStack(st: State, p: nat)
    requires StackInv(st) && p < |st.stack| && st.work != []
    ensures StackInv(Emit(st, p))
  {
  }

  lemma EmitFrames(g: Graph, st: State, p: nat)
    requires StackInv(st) && FramesInv(g, st) && PathInv(g, st) && Ready(g, st, p)
    ensures FramesInv(g, Emit(st, p))
  {
  }

  lemma EmitPath(g: Graph, st: State, p: nat)
    requires StackInv(st) && PathInv(g, st) && Ready(g, st, p)
    ensures PathInv(g, Emit(st, p))
  {
    var st' := Emit(st, p);
    forall i | 0 < i < |st'.work| ensures ChildAt(g, st', i) {
      assert ChildAt(g, st, i);
    }
    if |st.work| > 1 {
      assert st.indices[st.work[0].node] < st.indices[st.Top().node];
      assert p > 0;
    }
  }

  lemma EmitInSegment(g: Graph, st: State, p: nat, i: int, v: Node)
    requires StackInv(st) && Ready(g, st, p) && InSegment(Emit(st, p), i, v)
    ensures InSegment(st, i, v) && i < |st.work| - 1
  {
  }

  lemma EmitSegments(g: Graph, st: State, p: nat)
    requires StackInv(st) && SegmentInv(g, st) && BoundInv(g, st) && Ready(g, st, p)
    ensures SegmentInv(g, Emit(st, p)) && BoundInv(g, Emit(st, p))
  {
    var st' := Emit(st, p);
    forall i, v | InSegment(st', i, v)
      ensures Mutual(g, st'.work[i].node, v)
      ensures v != st'.work[i].node ==> Succ(g, v) <= st'.indices.Keys
    {
      EmitInSegment(g, st, p, i, v);
    }
    forall i, v, y | InSegment(st', i, v) && y in Succ(g, v) && Explored(st', i, v, y)
      ensures Bounded(st', st'.work[i].node, y)
    {
      EmitInSegment(g, st, p, i, v);
      assert Explored(st, i, v, y);
      assert Bounded(st, st.work[i].node, y);
    }
  }

  lemma EmitWitness(g: Graph, st: State, p: nat)
    requires StackInv(st) && PathInv(g, st) && WitnessInv(g, st) && Ready(g, st, p)
    ensures WitnessInv(g, Emit(st, p))
  {
    var st' := Emit(st, p);
    forall i | 0 <= i < |st'.work| ensures LowWitness(g, st', st'.work[i].node) {
      assert LowWitness(g, st, st.work[i].node);
      var w :| w in st.onStack && w in st.indices && st.indices[w] == st.lowlinks[st.work[i].node]
               && Reach(g, st.work[i].node, w);
      PoppedIsSegment(g, st, p, w);
      assert st.indices[w] < st.indices[st.Top().node];
      assert w in st'.onStack;
    }
  }

  lemma ReversedElems<T>(s: seq<T>)
    ensures Elems(Reversed(s)) == Elems(s) && (Distinct(s) ==> Distinct(Reversed(s)))
  {
    forall x | x in Elems(s) ensures x in Elems(Reversed(s)) {
      var i :| 0 <= i < |s| && s[i] == x;
      assert Reversed(s)[|s| - 1 - i] == x;
    }
    forall x | x in Elems(Reversed(s)) ensures x in Elems(s) {
      var i :| 0 <= i < |s| && Reversed(s)[i] == x;
      assert s[|s| - 1 - i] == x;
    }
  }

  lemma EmittedCycle(g: Graph, st: State, p: nat)
    requires StackInv(st) && p < |st.stack| && IsScc(g, Elems(st.stack[p..])) && |st.stack| - p > 1
    ensures GoodCycle(g, Sort(Reversed(st.stack[p..]), LexLe))
    ensures Elems(Sort(Reversed(st.stack[p..]), LexLe)) == Elems(st.stack[p..])
  {
    hide IsScc;
    var t := st.stack[p..];
    forall i, j | 0 <= i < j < |t| ensures t[i] != t[j] {
      assert st.indices[st.stack[p + i]] < st.indices[st.stack[p + j]];
    }
    ReversedElems(t);
    SortDistinctStrings(Reversed(t));
  }

  lemma ExtendDone(
    g: Graph, done: set<Node>, cycles: seq<seq<Node>>, closedAt: seq<set<Node>>, scc: set<Node>, c: seq<Node>)
    requires DoneInv(g, done, cycles, closedAt) && scc !! done && Closed(g, done + scc)
    requires GoodCycle(g, c) && Elems(c) == scc
    ensures DoneInv(g, done + scc, cycles + [c], closedAt + [done + scc])
  {
    hide Closed, GoodCycle, Trivial;
    var cycles' := cycles + [c];
    forall v | v in done + scc ensures InSome(cycles', v) || Trivial(g, v) {
      if v in done && InSome(cycles, v) {
        var i :| 0 <= i < |cycles| && v in cycles[i];
        assert v in cycles'[i];
      } else if v in scc {
        assert v in cycles'[|cycles|];
      }
    }
  }

  lemma ExtendDoneTrivial(g: Graph, done: set<Node>, cycles: seq<seq<Node>>, closedAt: seq<set<Node>>, n: Node)
    requires DoneInv(g, done, cycles, closedAt) && Closed(g, done + {n}) && IsScc(g, {n})
    ensures DoneInv(g, done + {n}, cycles, closedAt)
  {
  }

  lemma EmitDone(g: Graph, st: State, p: nat)
    requires StackInv(st) && FramesInv(g, st) && SegmentInv(g, st) && BoundInv(g, st) && Ready(g, st, p)
    requires DoneInv(g, st.Done(), st.cycles, st.closedAt)
    ensures var st' := Emit(st, p); DoneInv(g, st'.Done(), st'.cycles, st'.closedAt)
  {
    hide SegmentInv, BoundInv, FramesInv, IsScc, GoodCycle, InSome, Trivial, Closed;
    var t := st.stack[p..];
    var scc := Elems(t);
    EmittedClosed(g, st, p);
    EmittedIsScc(g, st, p);
    assert scc <= st.onStack by {
      forall v | v in scc ensures v in st.onStack { PoppedIsSegment(g, st, p, v); }
    }
    assert Emit(st, p).Done() == st.Done() + scc;
    if |t| > 1 {
      EmittedCycle(g, st, p);
      ExtendDone(g, st.Done(), st.cycles, st.closedAt, scc, Sort(Reversed(t), LexLe));
    } else {
      assert scc == {t[0]};
      ExtendDoneTrivial(g, st.Done(), st.cycles, st.closedAt, t[0]);
    }
  }

  /** Backtracking from the root of a component emits that component. */
  lemma EmitKeeps(g: Graph, st: State, p: nat)
    requires Inv(g, st) && Ready(g, st, p)
    ensures Inv(g, Emit(st, p))
  {
    hide FramesInv, PathInv, SegmentInv, WitnessInv, BoundInv, DoneInv, StackInv, Emit;
    EmitStack(st, p);
    EmitFrames(g, st, p);
    EmitPath(g, st, p);
    EmitSegments(g, st, p);
    EmitWitness(g, st, p);
    EmitDone(g, st, p);
  }

  // ---- what the loop reads off the invariant --------------------------------

  lemma TopFacts(g: Graph, st: State)
    requires Inv(g, st) && st.work != []
    ensures var f := st.Top();
            && f.node in st.indices && f.node in st.lowlinks && f.node in st.onStack && f.node in st.stack
            && st.lowlinks[f.node] <= st.indices[f.node]
            && st.onStack <= st.indices.Keys
            && f.idx <= |f.neighbors| && |f.neighbors| == |Succ(g, f.node)|
            && (f.idx < |f.neighbors| ==> f.neighbors[f.idx] in Succ(g, f.node))
  {
    hide PathInv, SegmentInv, BoundInv, DoneInv, Reach;
    assert FrameInv(g, st, st.work[|st.work| - 1]);
    assert LowWitness(g, st, st.work[|st.work| - 1].node);
  }

  lemma ParentFacts(g: Graph, st: State)
    requires Inv(g, st) && st.work != []
    ensures st.Top().parent == if |st.work| == 1 then None else Some(st.work[|st.work| - 2].node)
    ensures |st.work| > 1 && st.Top().node in st.indices ==>
              && st.work[|st.work| - 2].node in st.lowlinks
              && st.lowlinks[st.work[|st.work| - 2].node] < st.indices[st.Top().node]
  {
    hide SegmentInv, BoundInv, DoneInv, Reach;
    if |st.work| > 1 {
      assert LowWitness(g, st, st.work[|st.work| - 2].node);
      ParentFrame(g, st);
    }
  }

  /** A neighbour already on the stack lowers the lowlink; one already finished changes nothing. */
  lemma RevisitKeeps(g: Graph, st: State, f: Frame, nb: Node)
    requires Inv(g, st) && st.work != [] && f == st.Top() && f.idx < |f.neighbors| && nb == f.neighbors[f.idx]
    requires f.node in st.lowlinks && nb in Succ(g, f.node) && nb in st.indices
    ensures nb in st.onStack ==> Inv(g, Advance(Lower(st, f.node, st.indices[nb]), |st.work| - 1))
    ensures nb !in st.onStack ==> Inv(g, Advance(st, |st.work| - 1))
  {
    hide Inv;
    if nb in st.onStack {
      ReachEdge(g, f.node, nb);
      LowerKeeps(g, st, f.node, nb);
      AdvanceKeeps(g, Lower(st, f.node, st.indices[nb]), |st.work| - 1);
    } else {
      AdvanceKeeps(g, st, |st.work| - 1);
    }
  }

  /** A new neighbour is indexed, pushed and given a frame. */
  lemma VisitKeeps(g: Graph, st: State, f: Frame, nb: Node, nbs: seq<Node>)
    requires Inv(g, st) && st.work != [] && f == st.Top() && f.idx < |f.neighbors| && nb == f.neighbors[f.idx]
    requires nb !in st.indices && nb in Succ(g, f.node) && Elems(nbs) == Succ(g, nb) && |nbs| == |Succ(g, nb)|
    ensures Inv(g, Discover(Advance(st, |st.work| - 1), nb, nbs, Some(f.node)))
  {
    hide Inv;
    var k := |st.work| - 1;
    TopFacts(g, st);
    DiscoverKeeps(g, st, nb, nbs, Some(f.node));
    var st1 := Discover(st, nb, nbs, Some(f.node));
    assert st1.work[k] == f;
    IndexBound(g, st, f.node);
    AdvanceKeeps(g, st1, k);
    assert Advance(st1, k) == Discover(Advance(st, k), nb, nbs, Some(f.node));
  }

  lemma IndexBound(g: Graph, st: State, v: Node)
    requires Inv(g, st) && v in st.indices
    ensures st.indices[v] < |st.indices|
  {
  }
}
