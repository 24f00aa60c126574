/** hooks/validators/go_circular_deps.py: `_tarjan_scc` and the import graph it runs on. */
module CircularDeps {
  import opened Graphs
  import opened Options
  import opened Sorting
  import opened TarjanSteps

  // ---- cost of the traversal --------------------------------------------------

  /** One inner iteration per node plus one per out-edge. */
  ghost function Cost(g: Graph, s: set<Node>): nat {
    if s == {} then 0 else
      var v :| v in s;
      1 + |Succ(g, v)| + Cost(g, s - {v})
  }

  lemma {:induction false} CostRemove(g: Graph, s: set<Node>, v: Node)
    requires v in s
    ensures Cost(g, s) == 1 + |Succ(g, v)| + Cost(g, s - {v})
    decreases s
  {
    var u :| u in s && Cost(g, s) == 1 + |Succ(g, u)| + Cost(g, s - {u});
    if u != v {
      CostRemove(g, s - {u}, v);
      CostRemove(g, s - {v}, u);
      assert s - {u} - {v} == s - {v} - {u};
    }
  }

  lemma {:induction false} CostMonotone(g: Graph, s: set<Node>, t: set<Node>)
    requires s <= t
    ensures Cost(g, s) <= Cost(g, t)
    decreases t
  {
    if s == {} {
    } else {
      var v :| v in s;
      CostRemove(g, s, v);
      CostRemove(g, t, v);
      CostMonotone(g, s - {v}, t - {v});
    }
  }

  /** Iterations the open frames still have coming. */
  ghost function Remaining(work: seq<Frame>): int {
    if work == [] then 0
    else var f := work[|work| - 1];
         |f.neighbors| - f.idx + 1 + Remaining(work[..|work| - 1])
  }

  /** Every name the graph mentions, as key or as successor. */
  ghost function Nodes(g: Graph): set<Node> {
    g.Keys + set v, w | v in g && w in g[v] :: w
  }

  // ---- the result -----------------------------------------------------------------

  ghost predicate IsSccListing(g: Graph, cycles: seq<seq<Node>>) {
    && (forall i :: 0 <= i < |cycles| ==> GoodCycle(g, cycles[i]))
    && (forall c :: IsScc(g, c) && |c| > 1 ==> exists i :: 0 <= i < |cycles| && Elems(cycles[i]) == c)
    && (forall i, j :: 0 <= i < j < |cycles| ==> Elems(cycles[i]) !! Elems(cycles[j]))
  }

  /** A reported component never reaches one that is reported after it. */
  ghost predicate ReverseTopological(g: Graph, cycles: seq<seq<Node>>) {
    forall i, j, u, v :: 0 <= i < j < |cycles| && u in cycles[i] && v in cycles[j] ==> !Reach(g, u, v)
  }

  lemma SccsOverlapOnlyIfEqual(g: Graph, c: set<Node>, d: set<Node>, v: Node)
    requires IsScc(g, c) && IsScc(g, d) && v in c && v in d
    ensures c == d
  {
    hide Reach;
    var a :| a in c && forall w :: w in c <==> Mutual(g, a, w);
    var b :| b in d && forall w :: w in d <==> Mutual(g, b, w);
    MutualTrans(g, a, v, a);
    MutualTrans(g, a, v, b);
    forall w ensures w in c <==> w in d {
      if w in c { MutualTrans(g, b, a, w); }
      if w in d { MutualTrans(g, a, b, w); }
    }
  }

  lemma SccInsideKeys(g: Graph, c: set<Node>, v: Node)
    requires IsScc(g, c) && |c| > 1 && v in c
    ensures v in g && !Trivial(g, v)
  {
    var a :| a in c && forall w :: w in c <==> Mutual(g, a, w);
    assert c != {v};
    assert c - {v} != {};
    var u :| u in c - {v};
    MutualTrans(g, a, v, a);
    MutualTrans(g, v, a, u);
    ReachFromKey(g, v, u);
  }

  lemma FinishListing(g: Graph, st: State)
    requires DoneInv(g, st.indices.Keys, st.cycles, st.closedAt) && g.Keys <= st.indices.Keys
    ensures IsSccListing(g, st.cycles)
  {
    hide Closed, Reach, Trivial;
    var cycles := st.cycles;
    forall c | IsScc(g, c) && |c| > 1 ensures exists i :: 0 <= i < |cycles| && Elems(cycles[i]) == c {
      var v :| v in c;
      SccInsideKeys(g, c, v);
      var i :| 0 <= i < |cycles| && v in cycles[i];
      assert GoodCycle(g, cycles[i]);
      SccsOverlapOnlyIfEqual(g, c, Elems(cycles[i]), v);
    }
    forall i, j | 0 <= i < j < |cycles| ensures Elems(cycles[i]) !! Elems(cycles[j]) {
      assert Elems(cycles[i]) <= st.closedAt[i] && Elems(cycles[j]) !! st.closedAt[i];
    }
  }

  lemma FinishOrder(g: Graph, done: set<Node>, cycles: seq<seq<Node>>, closedAt: seq<set<Node>>)
    requires DoneInv(g, done, cycles, closedAt)
    ensures ReverseTopological(g, cycles)
  {
    hide Closed, Reach, Trivial, InSome, GoodCycle;
    forall i, j, u, v | 0 <= i < j < |cycles| && u in cycles[i] && v in cycles[j] ensures !Reach(g, u, v) {
      assert u in Elems(cycles[i]) && v in Elems(cycles[j]);
      assert Closed(g, closedAt[i]) && Elems(cycles[j]) !! closedAt[i];
      if Reach(g, u, v) { ClosedReach(g, closedAt[i], u, v); }
    }
  }

  // ---- the loops --------------------------------------------------------------------

  /** Pop the stack down to `node`: `while True: w = stack.pop(); ...; if w == node: break`. */
  method PopComponent(stack0: seq<Node>, onStack0: set<Node>, node: Node)
    returns (stack: seq<Node>, onStack: set<Node>, scc: seq<Node>)
    requires node in stack0
    ensures |stack| < |stack0| && stack == stack0[..|stack|] && stack0[|stack|] == node
    ensures scc == Reversed(stack0[|stack|..])
    ensures onStack == onStack0 - Elems(stack0[|stack|..])
  {
    stack, onStack, scc := stack0, onStack0, [];
    while true
      invariant |stack| <= |stack0| && stack == stack0[..|stack|] && node in stack
      invariant scc == Reversed(stack0[|stack|..])
      invariant onStack == onStack0 - Elems(stack0[|stack|..])
      decreases |stack|
    {
      var w := stack[|stack| - 1];
      ghost var rest := stack0[|stack|..];
      stack := stack[..|stack| - 1];
      assert stack0[|stack|..] == [w] + rest;
      assert Elems([w] + rest) == {w} + Elems(rest) by {
        assert ([w] + rest)[0] == w;
        forall x | x in Elems(rest) ensures x in Elems([w] + rest) {
          var i :| 0 <= i < |rest| && rest[i] == x;
          assert ([w] + rest)[i + 1] == x;
        }
      }
      onStack := onStack - {w};
      scc := scc + [w];
      if w == node { break; }
      assert node in stack by {
        var i :| 0 <= i < |stack| + 1 && stack0[i] == node;
        assert stack[i] == node;
      }
    }
  }

  /** `sorted(graph.get(v, set()))` */
  method SortedNeighbors(graph: Graph, v: Node) returns (q: seq<Node>)
    ensures Elems(q) == Succ(graph, v) && |q| == |Succ(graph, v)|
    ensures Ordered(q, LexLe) && Distinct(q)
  {
    q := ListOf(Succ(graph, v));
    SortDistinctStrings(q);
    q := Sort(q, LexLe);
  }

  lemma RemainingPush(work: seq<Frame>, f: Frame)
    ensures Remaining(work + [f]) == Remaining(work) + |f.neighbors| - f.idx + 1
  {
  }

  lemma RemainingSingle(f: Frame)
    ensures Remaining([f]) == |f.neighbors| - f.idx + 1
  {
  }

  lemma RemainingAdvance(work: seq<Frame>)
    requires work != []
    ensures var f := work[|work| - 1];
            Remaining(work[|work| - 1 := f.(idx := f.idx + 1)]) == Remaining(work) - 1
  {
  }

  lemma CostDiscover(g: Graph, indices: map<Node, nat>, v: Node, k: nat)
    requires v !in indices
    ensures Cost(g, indices[v := k].Keys) == Cost(g, indices.Keys) + 1 + |Succ(g, v)|
  {
    CostRemove(g, indices[v := k].Keys, v);
    assert indices[v := k].Keys - {v} == indices.Keys;
  }

  lemma RemainingBound(g: Graph, st: State)
    requires Inv(g, st)
    ensures Remaining(st.work) >= |st.work|
  {
    hide PathInv, SegmentInv, BoundInv, WitnessInv, DoneInv;
    assert forall i :: 0 <= i < |st.work| ==> FrameInv(g, st, st.work[i]);
    RemainingAtLeast(st.work);
  }

  lemma {:induction false} RemainingAtLeast(work: seq<Frame>)
    requires forall i :: 0 <= i < |work| ==> work[i].idx <= |work[i].neighbors|
    ensures Remaining(work) >= |work|
  {
    if work == [] {
    } else {
      RemainingAtLeast(work[..|work| - 1]);
    }
  }

  lemma InitialInv(g: Graph)
    ensures Inv(g, State([], {}, map[], map[], [], [], []))
  {
    assert State([], {}, map[], map[], [], [], []).Done() == {};
  }

  lemma Idle(g: Graph, st: State)
    requires Inv(g, st) && st.work == []
    ensures st.stack == [] && st.onStack == {} && st.Done() == st.indices.Keys
    ensures DoneInv(g, st.indices.Keys, st.cycles, st.closedAt)
  {
  }

  /** The finished nodes are every node: they hold the keys and are closed. */
  lemma FinishNodes(g: Graph, done: set<Node>, cycles: seq<seq<Node>>, closedAt: seq<set<Node>>)
    requires DoneInv(g, done, cycles, closedAt) && g.Keys <= done <= Nodes(g)
    ensures done == Nodes(g)
  {
    forall w | w in Nodes(g) ensures w in done {
      if w !in g {
        var v :| v in g && w in g[v];
        assert w in Succ(g, v);
      }
    }
  }

  /** The exhausted top frame: emit its component if it is a root, then pass its lowlink up. */
  method Backtrack(graph: Graph, indices: map<Node, nat>, work: seq<Frame>,
    stack0: seq<Node>, onStack0: set<Node>, lowlinks0: map<Node, nat>,
    cycles0: seq<seq<Node>>, ghost closedAt0: seq<set<Node>>)
    returns (stack: seq<Node>, onStack: set<Node>, lowlinks: map<Node, nat>,
      cycles: seq<seq<Node>>, ghost closedAt: seq<set<Node>>)
    requires Inv(graph, State(stack0, onStack0, indices, lowlinks0, work, cycles0, closedAt0))
    requires work != [] && work[|work| - 1].idx == |work[|work| - 1].neighbors|
    ensures Inv(graph, State(stack, onStack, indices, lowlinks, work[..|work| - 1], cycles, closedAt))
  {
    hide Inv, Ordered, LexLe, Sort, Elems, Reversed;
    stack, onStack, lowlinks, cycles, closedAt := stack0, onStack0, lowlinks0, cycles0, closedAt0;
    ghost var st := State(stack, onStack, indices, lowlinks, work, cycles, closedAt);
    TopFacts(graph, st);
    ParentFacts(graph, st);
    var Frame(node, _, _, parent) := work[|work| - 1];
    if lowlinks[node] == indices[node] {
      var scc;
      stack, onStack, scc := PopComponent(stack, onStack, node);
      EmitKeeps(graph, st, |stack|);
      if |scc| > 1 {
        cycles := cycles + [Sort(scc, LexLe)];
        closedAt := closedAt + [st.Done() + Elems(stack0[|stack|..])];
      }
      assert State(stack, onStack, indices, lowlinks, work[..|work| - 1], cycles, closedAt) == Emit(st, |stack|) by {
        assert |scc| == |stack0| - |stack| by { ReversedLength(stack0[|stack|..]); }
      }
      assert parent.Some? ==> lowlinks[parent.value := Min(lowlinks[parent.value], lowlinks[node])] == lowlinks;
    } else {
      MergeKeeps(graph, st);
    }
    if parent.Some? {
      lowlinks := lowlinks[parent.value := Min(lowlinks[parent.value], lowlinks[node])];
    }
  }

  lemma ReversedLength<T>(s: seq<T>)
    ensures |Reversed(s)| == |s|
  {
  }

  /** The nodes the search entered, in that order, are the indexed ones, each once. */
  ghost predicate Numbers(indices: map<Node, nat>, entered: seq<Node>) {
    && |entered| == |indices|
    && (forall v :: v in indices ==> indices[v] < |entered| && entered[indices[v]] == v)
    && (forall k :: 0 <= k < |entered| ==> entered[k] in indices && indices[entered[k]] == k)
  }

  lemma NumbersNone()
    ensures Numbers(map[], [])
  {
  }

  lemma NumbersNext(indices: map<Node, nat>, entered: seq<Node>, v: Node)
    requires Numbers(indices, entered) && v !in indices
    ensures Numbers(indices[v := |indices|], entered + [v])
  {
  }

  lemma NumbersAll(indices: map<Node, nat>, entered: seq<Node>)
    requires Numbers(indices, entered)
    ensures Distinct(entered) && Elems(entered) == indices.Keys
  {
    forall v | v in indices ensures v in Elems(entered) { assert entered[indices[v]] == v; }
  }

  /** The next neighbour of the top frame: visit it, or let it lower the lowlink.  The index
      counter of the source is the number of indices given so far. */
  method Consume(graph: Graph, indices0: map<Node, nat>, lowlinks0: map<Node, nat>, work0: seq<Frame>,
    stack0: seq<Node>, onStack0: set<Node>, ghost cycles: seq<seq<Node>>, ghost closedAt: seq<set<Node>>,
    ghost entered0: seq<Node>)
    returns (indices: map<Node, nat>, lowlinks: map<Node, nat>, work: seq<Frame>,
      stack: seq<Node>, onStack: set<Node>, ghost entered: seq<Node>)
    requires Inv(graph, State(stack0, onStack0, indices0, lowlinks0, work0, cycles, closedAt))
    requires Numbers(indices0, entered0)
    requires work0 != [] && work0[|work0| - 1].idx < |work0[|work0| - 1].neighbors|
    ensures Inv(graph, State(stack, onStack, indices, lowlinks, work, cycles, closedAt))
    ensures indices0.Keys <= indices.Keys <= indices0.Keys + Nodes(graph)
    ensures Cost(graph, indices.Keys) - Remaining(work) == Cost(graph, indices0.Keys) - Remaining(work0) + 1
    ensures Numbers(indices, entered)
  {
    hide Inv, Cost, Remaining, Ordered, Distinct, Elems, LexLe, Nodes, Succ, Numbers;
    indices, lowlinks, stack, onStack, entered := indices0, lowlinks0, stack0, onStack0, entered0;
    ghost var st := State(stack, onStack, indices, lowlinks, work0, cycles, closedAt);
    TopFacts(graph, st);
    RemainingAdvance(work0);
    var Frame(node, nbs, idx, parent) := work0[|work0| - 1];
    var nb := nbs[idx];
    work := work0[|work0| - 1 := Frame(node, nbs, idx + 1, parent)];
    if nb !in indices {
      var more := SortedNeighbors(graph, nb);
      VisitKeeps(graph, st, Frame(node, nbs, idx, parent), nb, more);
      CostDiscover(graph, indices, nb, |indices|);
      RemainingPush(work, Frame(nb, more, 0, Some(node)));
      SuccessorIsNode(graph, node, nb);
      NumbersNext(indices, entered, nb);
      indices, lowlinks := indices[nb := |indices|], lowlinks[nb := |indices|];
      stack := stack + [nb];
      onStack := onStack + {nb};
      work, entered := work + [Frame(nb, more, 0, Some(node))], entered + [nb];
      assert State(stack, onStack, indices, lowlinks, work, cycles, closedAt)
        == Discover(Advance(st, |st.work| - 1), nb, more, Some(node));
    } else {
      RevisitKeeps(graph, st, Frame(node, nbs, idx, parent), nb);
      if nb in onStack {
        lowlinks := lowlinks[node := Min(lowlinks[node], indices[nb])];
      }
    }
  }

  /** The frame loop for one start node. */
  method Explore(graph: Graph, start: Node, indices0: map<Node, nat>, lowlinks0: map<Node, nat>,
    cycles0: seq<seq<Node>>, ghost closedAt0: seq<set<Node>>, ghost steps0: nat, ghost entered0: seq<Node>)
    returns (indices: map<Node, nat>, lowlinks: map<Node, nat>,
      cycles: seq<seq<Node>>, ghost closedAt: seq<set<Node>>, ghost steps: nat, ghost entered: seq<Node>)
    requires Inv(graph, State([], {}, indices0, lowlinks0, [], cycles0, closedAt0))
    requires start !in indices0 && start in graph && indices0.Keys <= Nodes(graph)
    requires steps0 == Cost(graph, indices0.Keys) && Numbers(indices0, entered0)
    ensures Inv(graph, State([], {}, indices, lowlinks, [], cycles, closedAt))
    ensures indices0.Keys + {start} <= indices.Keys <= Nodes(graph)
    ensures steps == Cost(graph, indices.Keys) && Numbers(indices, entered)
  {
    hide Inv, Cost, Remaining, Ordered, Distinct, Elems, LexLe, Nodes, Succ, Numbers;
    KeyIsNode(graph, start);
    indices, lowlinks, cycles, closedAt, steps := indices0, lowlinks0, cycles0, closedAt0, steps0;
    NumbersNext(indices, entered0, start);
    entered := entered0 + [start];
    var neighbors := SortedNeighbors(graph, start);
    ghost var idle := State([], {}, indices, lowlinks, [], cycles, closedAt);
    DiscoverKeeps(graph, idle, start, neighbors, None);
    CostDiscover(graph, indices, start, |indices|);
    indices, lowlinks := indices[start := |indices|], lowlinks[start := |indices|];
    var stack := [start];
    var onStack := {start};
    var work := [Frame(start, neighbors, 0, None)];
    RemainingSingle(work[0]);
    assert Discover(idle, start, neighbors, None) == State(stack, onStack, indices, lowlinks, work, cycles, closedAt);

    while work != []
      invariant Inv(graph, State(stack, onStack, indices, lowlinks, work, cycles, closedAt))
      invariant indices0.Keys + {start} <= indices.Keys <= Nodes(graph)
      invariant steps + Remaining(work) == Cost(graph, indices.Keys) && Numbers(indices, entered)
      decreases Cost(graph, Nodes(graph)) - steps
    {
      ghost var st := State(stack, onStack, indices, lowlinks, work, cycles, closedAt);
      TopFacts(graph, st);
      RemainingBound(graph, st);
      CostMonotone(graph, indices.Keys, Nodes(graph));
      if work[|work| - 1].idx < |work[|work| - 1].neighbors| {
        indices, lowlinks, work, stack, onStack, entered :=
          Consume(graph, indices, lowlinks, work, stack, onStack, cycles, closedAt, entered);
      } else {
        RemainingPop(work);
        stack, onStack, lowlinks, cycles, closedAt :=
          Backtrack(graph, indices, work, stack, onStack, lowlinks, cycles, closedAt);
        work := work[..|work| - 1];
      }
      steps := steps + 1;
    }
    RemainingNone();
    Idle(graph, State(stack, onStack, indices, lowlinks, [], cycles, closedAt));
  }

  /** The search: exactly the components with more than one node, in reverse topological order;
      a frame is opened for every node exactly once, and the loop body runs once per node and once
      per out-edge. */
  method TarjanScc(graph: Graph) returns (cycles: seq<seq<Node>>, ghost steps: nat, ghost entered: seq<Node>)
    ensures IsSccListing(graph, cycles)
    ensures ReverseTopological(graph, cycles)
    ensures steps == Cost(graph, Nodes(graph))
    ensures Distinct(entered) && Elems(entered) == Nodes(graph)
  {
    hide Inv, DoneInv, IsSccListing, ReverseTopological, Cost, Distinct, Nodes, Elems, Numbers;
    var indices: map<Node, nat>, lowlinks: map<Node, nat> := map[], map[];
    ghost var closedAt: seq<set<Node>>;
    cycles, closedAt, steps, entered := [], [], 0, [];
    NumbersNone();
    InitialInv(graph);
    CostEmpty(graph);
    var nodes := ListOf(graph.Keys);
    for n := 0 to |nodes|
      invariant Inv(graph, State([], {}, indices, lowlinks, [], cycles, closedAt))
      invariant indices.Keys <= Nodes(graph) && forall k :: 0 <= k < n ==> nodes[k] in indices
      invariant steps == Cost(graph, indices.Keys) && Numbers(indices, entered)
    {
      ElemsAt(nodes, n);
      if nodes[n] !in indices {
        indices, lowlinks, cycles, closedAt, steps, entered :=
          Explore(graph, nodes[n], indices, lowlinks, cycles, closedAt, steps, entered);
      }
    }
    ghost var last := State([], {}, indices, lowlinks, [], cycles, closedAt);
    Idle(graph, last);
    AllListed(nodes, indices.Keys);
    FinishListing(graph, last);
    FinishOrder(graph, indices.Keys, cycles, closedAt);
    FinishNodes(graph, indices.Keys, cycles, closedAt);
    NumbersAll(indices, entered);
  }

  lemma RemainingNone()
    ensures Remaining([]) == 0
  {
  }

  lemma CostEmpty(g: Graph)
    ensures Cost(g, {}) == 0
  {
  }

  lemma ElemsAt(nodes: seq<Node>, n: nat)
    requires n < |nodes|
    ensures nodes[n] in Elems(nodes)
  {
  }

  lemma AllListed(nodes: seq<Node>, s: set<Node>)
    requires forall k :: 0 <= k < |nodes| ==> nodes[k] in s
    ensures Elems(nodes) <= s
  {
  }

  lemma KeyIsNode(g: Graph, v: Node)
    requires v in g
    ensures v in Nodes(g)
  {
  }

  lemma RemainingPop(work: seq<Frame>)
    requires work != [] && work[|work| - 1].idx == |work[|work| - 1].neighbors|
    ensures Remaining(work[..|work| - 1]) == Remaining(work) - 1
  {
  }

  lemma SuccessorIsNode(g: Graph, v: Node, w: Node)
    requires w in Succ(g, v)
    ensures w in Nodes(g)
  {
  }
}
