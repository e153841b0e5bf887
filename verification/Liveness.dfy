/** Deadlocks, cyclic components, lassos and the universal-termination verdict of an explored graph. */
module Liveness {
  import opened Wrappers
  import opened Arithmetic
  import opened Counting
  import opened Digraph
  import opened CompressedRows
  import opened StrongComponents
  import opened Explorer
  import opened Sequences

  // ----- What universal termination means -----

  ghost predicate InfinitePath(adj: Adjacency, p: nat -> nat) {
    forall i: nat :: Edge(adj, p(i), p(i + 1))
  }

  /** Every path from a start vertex that is infinite or stops only because it cannot
      continue passes through a finished vertex. */
  ghost predicate Inevitable(adj: Adjacency, starts: set<nat>, finished: seq<bool>)
    requires |finished| == |adj|
  {
    && (forall p: nat -> nat :: p(0) in starts && InfinitePath(adj, p) ==>
          exists i: nat :: p(i) < |adj| && finished[p(i)])
    && (forall p: seq<nat> :: IsPath(adj, p) && p[0] in starts && adj[p[|p| - 1]] == [] ==>
          exists i :: 0 <= i < |p| && finished[p[i]])
  }

  ghost predicate ReachedFrom(adj: Adjacency, starts: set<nat>, v: nat) {
    exists u :: u in starts && Reach(adj, u, v)
  }

  /** `v` lies on a cycle. */
  ghost predicate OnCycle(adj: Adjacency, v: nat) {
    exists w :: Edge(adj, v, w) && Reach(adj, w, v)
  }

  /** A finished vertex has itself as its only successor. */
  ghost predicate Absorbing(adj: Adjacency, finished: seq<bool>)
    requires |finished| == |adj|
  {
    forall v :: 0 <= v < |adj| && finished[v] ==> adj[v] == [v]
  }

  ghost predicate NoDeadlock(adj: Adjacency, finished: seq<bool>)
    requires |finished| == |adj|
  {
    forall v :: 0 <= v < |adj| && !finished[v] ==> adj[v] != []
  }

  ghost predicate NoUnfinishedCycle(adj: Adjacency, finished: seq<bool>)
    requires |finished| == |adj|
  {
    forall v: nat :: v < |adj| && !finished[v] ==> !OnCycle(adj, v)
  }

  /** Stepping along an infinite path: its first `n + 1` vertices form a path. */
  lemma {:induction false} PathReaches(adj: Adjacency, p: nat -> nat, i: nat, j: nat)
    requires WellFormed(adj) && InfinitePath(adj, p) && i <= j
    ensures p(i) < |adj| && Reach(adj, p(i), p(j))
    decreases j
  {
    assert Edge(adj, p(i), p(i + 1));
    if i == j {
      ReachSelf(adj, p(i));
    } else {
      PathReaches(adj, p, i, j - 1);
      assert Edge(adj, p(j - 1), p(j));
      ReachEdge(adj, p(j - 1), p(j));
      ReachTrans(adj, p(i), p(j - 1), p(j));
    }
  }

  /** Pigeonhole: among the first `n + 1` values of a function into `0..n`, two agree. */
  lemma {:induction false} Pigeonhole(p: nat -> nat, n: nat, k: nat, seen: set<nat>) returns (i: nat, j: nat)
    requires seen == set x | 0 <= x < k :: p(x)
    requires forall x: nat :: p(x) < n
    requires |seen| == k <= n
    ensures i < j && p(i) == p(j)
    decreases n - k
  {
    if x: nat :| x < k && p(x) == p(k) {
      i, j := x, k;
    } else {
      var more := seen + {p(k)};
      assert more == set x | 0 <= x < k + 1 :: p(x);
      if k == n {
        SubsetSize(more, Below(n));
        assert false;
      } else {
        i, j := Pigeonhole(p, n, k + 1, more);
      }
    }
  }

  /** Without deadlocks and unfinished cycles, finishing is inevitable. */
  lemma CleanIsInevitable(adj: Adjacency, starts: set<nat>, finished: seq<bool>)
    requires WellFormed(adj) && |finished| == |adj|
    requires NoDeadlock(adj, finished) && NoUnfinishedCycle(adj, finished)
    ensures Inevitable(adj, starts, finished)
  {
    forall p: nat -> nat | p(0) in starts && InfinitePath(adj, p)
      ensures exists i: nat :: p(i) < |adj| && finished[p(i)]
    {
      forall x: nat
        ensures p(x) < |adj|
      {
        assert Edge(adj, p(x), p(x + 1));
      }
      var i, j := Pigeonhole(p, |adj|, 0, {});
      assert Edge(adj, p(i), p(i + 1));
      PathReaches(adj, p, i + 1, j);
      assert OnCycle(adj, p(i));
    }
  }

  /** Only a finished vertex itself is reached from it. */
  lemma AbsorbedStays(adj: Adjacency, finished: seq<bool>, u: nat, v: nat)
    requires |finished| == |adj| && Absorbing(adj, finished)
    requires u < |adj| && finished[u] && Reach(adj, u, v)
    ensures u == v
  {
    hide Digraph.Reach;
    ClosedUnderReach(adj, {u}, u, v);
  }

  /** A path to an unfinished vertex has met no finished vertex. */
  lemma UnfinishedPath(adj: Adjacency, finished: seq<bool>, p: seq<nat>, i: nat)
    requires |finished| == |adj| && Absorbing(adj, finished)
    requires IsPath(adj, p) && i < |p| && !finished[p[|p| - 1]]
    ensures !finished[p[i]]
  {
    assert PathBetween(adj, p[i..], p[i], p[|p| - 1]);
    if finished[p[i]] {
      AbsorbedStays(adj, finished, p[i], p[|p| - 1]);
    }
  }

  /** Follow `q`, then go round `r` forever. */
  ghost function Lap(q: seq<nat>, r: seq<nat>, i: nat): nat
    requires |r| > 0
  {
    if i < |q| then q[i] else r[Around(i - |q|, |r|)]
  }

  /** The remainder of `k` by `n`. */
  ghost function Around(k: nat, n: nat): (m: nat)
    requires n > 0
    ensures m < n
  {
    if k < n then k else Around(k - n, n)
  }

  lemma LapIsPath(adj: Adjacency, q: seq<nat>, r: seq<nat>)
    requires IsPath(adj, q) && IsPath(adj, r)
    requires Edge(adj, q[|q| - 1], r[0]) && Edge(adj, r[|r| - 1], r[0])
    ensures InfinitePath(adj, i => Lap(q, r, i))
  {
    var p := (i: nat) => Lap(q, r, i);
    forall i: nat
      ensures Edge(adj, p(i), p(i + 1))
    {
      if i >= |q| {
        NextRound(i - |q|, |r|);
      }
    }
  }

  lemma {:induction false} NextRound(k: nat, n: nat)
    requires n > 0
    ensures Around(k + 1, n) == if Around(k, n) == n - 1 then 0 else Around(k, n) + 1
  {
    if k >= n {
      NextRound(k - n, n);
    }
  }

  /** If finished vertices absorb and everything is reachable from the starts, then
      inevitability rules out unfinished deadlocks and cycles. */
  lemma InevitableIsClean(adj: Adjacency, starts: set<nat>, finished: seq<bool>)
    requires WellFormed(adj) && |finished| == |adj| && Absorbing(adj, finished)
    requires forall v: nat :: v < |adj| ==> ReachedFrom(adj, starts, v)
    requires Inevitable(adj, starts, finished)
    ensures NoDeadlock(adj, finished) && NoUnfinishedCycle(adj, finished)
  {
    forall v: nat | v < |adj| && !finished[v]
      ensures adj[v] != [] && !OnCycle(adj, v)
    {
      assert ReachedFrom(adj, starts, v);
      var u :| u in starts && Reach(adj, u, v);
      var q :| PathBetween(adj, q, u, v);
      forall i | 0 <= i < |q|
        ensures !finished[q[i]]
      {
        UnfinishedPath(adj, finished, q, i);
      }
      if OnCycle(adj, v) {
        CycleEscapes(adj, starts, finished, q, v);
      }
    }
  }

  /** An unfinished vertex on a cycle gives an infinite path that never finishes. */
  lemma CycleEscapes(adj: Adjacency, starts: set<nat>, finished: seq<bool>, q: seq<nat>, v: nat)
    requires WellFormed(adj) && |finished| == |adj| && Absorbing(adj, finished)
    requires IsPath(adj, q) && q[|q| - 1] == v && q[0] in starts && !finished[v]
    requires forall i :: 0 <= i < |q| ==> !finished[q[i]]
    requires OnCycle(adj, v)
    ensures !Inevitable(adj, starts, finished)
  {
    var w :| Edge(adj, v, w) && Reach(adj, w, v);
    var r :| PathBetween(adj, r, w, v);
    LapIsPath(adj, q, r);
    var p := (i: nat) => Lap(q, r, i);
    assert p(0) in starts;
    forall i: nat
      ensures !(p(i) < |adj| && finished[p(i)])
    {
      if i >= |q| {
        UnfinishedPath(adj, finished, r, Around(i - |q|, |r|));
      }
    }
  }

  // ----- Cycles and components -----

  ghost predicate SelfLoop(adj: Adjacency, v: nat) { Edge(adj, v, v) }

  /** Component `c` contains a cycle: it has several members, or a member with a self-loop. */
  ghost predicate ComponentCyclic(adj: Adjacency, scc: SccResult, c: nat)
    requires c < |scc.sizes|
  {
    scc.sizes[c] > 1 || exists v: nat :: v < |scc.componentOf| && scc.componentOf[v] == c && SelfLoop(adj, v)
  }

  /** A vertex lies on a cycle exactly when its component is cyclic. */
  lemma CycleIffCyclic(adj: Adjacency, scc: SccResult, v: nat)
    requires WellFormed(adj) && IsDecomposition(adj, scc) && v < |adj|
    ensures OnCycle(adj, v) <==> ComponentCyclic(adj, scc, scc.componentOf[v])
  {
    hide Digraph.Reach;
    var c := scc.componentOf[v];
    if OnCycle(adj, v) {
      var w :| Edge(adj, v, w) && Reach(adj, w, v);
      ReachEdge(adj, v, w);
      if w == v {
        assert SelfLoop(adj, v);
      } else {
        assert Mutual(adj, v, w);
        SubsetSize({v, w}, Members(scc.componentOf, c));
      }
    }
    if ComponentCyclic(adj, scc, c) {
      if scc.sizes[c] > 1 {
        var u := OtherMember(scc.componentOf, c, v);
        assert Mutual(adj, v, u);
        LeadsBack(adj, v, u);
      } else {
        var u: nat :| u < |scc.componentOf| && scc.componentOf[u] == c && SelfLoop(adj, u);
        if u != v {
          SubsetSize({v, u}, Members(scc.componentOf, c));
        }
        ReachSelf(adj, v);
      }
    }
  }

  lemma OtherMember(comp: seq<nat>, c: nat, v: nat) returns (u: nat)
    requires v < |comp| && comp[v] == c && |Members(comp, c)| > 1
    ensures u < |comp| && u != v && comp[u] == c
  {
    var others := Members(comp, c) - {v};
    assert |others| > 0;
    u :| u in others;
  }

  /** A vertex mutually reachable with another one lies on a cycle. */
  lemma LeadsBack(adj: Adjacency, v: nat, u: nat)
    requires WellFormed(adj) && Mutual(adj, v, u) && v != u
    ensures OnCycle(adj, v)
  {
    var p :| PathBetween(adj, p, v, u);
    assert PathBetween(adj, p[1..], p[1], u);
    ReachTrans(adj, p[1], u, v);
  }

  /** The paths between members of one component stay inside it. */
  lemma InsideComponent(adj: Adjacency, scc: SccResult, p: seq<nat>, i: nat)
    requires IsDecomposition(adj, scc) && IsPath(adj, p) && i < |p|
    requires scc.componentOf[p[0]] == scc.componentOf[p[|p| - 1]]
    ensures scc.componentOf[p[i]] == scc.componentOf[p[0]]
  {
    assert PathBetween(adj, p[..i + 1], p[0], p[i]);
    assert PathBetween(adj, p[i..], p[i], p[|p| - 1]);
    assert Mutual(adj, p[0], p[|p| - 1]);
    ReachTrans(adj, p[i], p[|p| - 1], p[0]);
  }

  // ----- The search for a way back inside a component -----

  /** Vertices discovered so far, in order, each after the first hanging below an earlier one. */
  ghost predicate Discovered(adj: Adjacency, scc: SccResult, component: nat, start: nat,
                             order: seq<nat>, preds: seq<Option<nat>>)
  {
    && |preds| == |adj| == |scc.componentOf|
    && |order| > 0 && order[0] == start
    && (forall i :: 0 <= i < |order| ==> order[i] < |adj| && scc.componentOf[order[i]] == component)
    && (forall v :: 0 <= v < |preds| ==> (preds[v].Some? <==> v in order))
    && Distinct(order)
    && (forall i :: 0 < i < |order| ==> HangsFrom(adj, order, preds, i))
  }

  ghost predicate HangsFrom(adj: Adjacency, order: seq<nat>, preds: seq<Option<nat>>, i: nat)
    requires 0 < i < |order|
  {
    && order[i] < |preds|
    && exists j :: 0 <= j < i && preds[order[i]] == Some(order[j]) && Edge(adj, order[j], order[i])
  }

  /** Every successor inside the component of the first `head` discovered vertices,
      and of the first `k` successors of the next one, is discovered. */
  ghost predicate ClosedSoFar(adj: Adjacency, scc: SccResult, component: nat, order: seq<nat>, head: nat, k: nat)
    requires |scc.componentOf| == |adj|
  {
    forall i, m :: 0 <= i < |order| && order[i] < |adj| && 0 <= m < |adj[order[i]]| && (i < head || (i == head && m < k))
      && adj[order[i]][m] < |adj| && scc.componentOf[adj[order[i]][m]] == component
      ==> adj[order[i]][m] in order
  }

  lemma Discover(adj: Adjacency, scc: SccResult, component: nat, start: nat, order: seq<nat>,
                 preds: seq<Option<nat>>, j: nat, next: nat)
    requires Discovered(adj, scc, component, start, order, preds) && j < |order|
    requires next < |adj| && preds[next].None? && scc.componentOf[next] == component && Edge(adj, order[j], next)
    ensures Discovered(adj, scc, component, start, order + [next], preds[next := Some(order[j])])
  {
    var order' := order + [next];
    var preds' := preds[next := Some(order[j])];
    forall i | 0 < i < |order'|
      ensures HangsFrom(adj, order', preds', i)
    {
      if i < |order| {
        assert HangsFrom(adj, order, preds, i);
        var h :| 0 <= h < i && preds[order[i]] == Some(order[h]) && Edge(adj, order[h], order[i]);
        assert preds'[order'[i]] == Some(order'[h]);
      } else {
        assert preds'[order'[i]] == Some(order'[j]);
      }
    }
  }

  /** Exhausting the search without meeting the target contradicts strong connectivity. */
  lemma ReturnExists(adj: Adjacency, scc: SccResult, component: nat, start: nat, target: nat,
                     order: seq<nat>, preds: seq<Option<nat>>)
    requires WellFormed(adj) && IsDecomposition(adj, scc)
    requires Discovered(adj, scc, component, start, order, preds)
    requires ClosedSoFar(adj, scc, component, order, |order|, 0)
    requires target < |adj| && scc.componentOf[target] == component
    ensures target in order
  {
    hide HangsFrom;
    assert Mutual(adj, start, target);
    var p :| PathBetween(adj, p, start, target);
    var i := 0;
    while i < |p| - 1
      invariant 0 <= i < |p| && p[i] in order
    {
      InsideComponent(adj, scc, p, i + 1);
      var h :| 0 <= h < |order| && order[h] == p[i];
      var m :| 0 <= m < |adj[p[i]]| && adj[p[i]][m] == p[i + 1];
      i := i + 1;
    }
  }

  lemma StartSearch(adj: Adjacency, scc: SccResult, component: nat, start: nat, preds: seq<Option<nat>>)
    requires start < |adj| == |scc.componentOf| == |preds| && scc.componentOf[start] == component
    requires preds == seq(|adj|, _ => None)[start := Some(start)]
    ensures Discovered(adj, scc, component, start, [start], preds)
    ensures ClosedSoFar(adj, scc, component, [start], 0, 0)
  {
  }

  lemma OrderBound(adj: Adjacency, scc: SccResult, component: nat, start: nat, order: seq<nat>, preds: seq<Option<nat>>)
    requires Discovered(adj, scc, component, start, order, preds)
    ensures |order| <= |adj| && forall i :: 0 <= i < |order| ==> order[i] < |adj|
  {
    hide HangsFrom;
    DistinctSize(order);
    SubsetSize(Elements(order), Below(|adj|));
  }

  lemma SearchUse(adj: Adjacency, scc: SccResult, component: nat, start: nat, order: seq<nat>,
                  preds: seq<Option<nat>>, next: nat)
    requires Discovered(adj, scc, component, start, order, preds) && next < |adj|
    ensures |preds| == |adj| == |scc.componentOf|
    ensures preds[next].Some? <==> next in order
  {
    hide HangsFrom;
  }

  /** Looking at one more successor keeps the search closed, whether or not it is new. */
  lemma SearchStep(adj: Adjacency, scc: SccResult, component: nat, start: nat, order: seq<nat>,
                   preds: seq<Option<nat>>, head: nat, k: nat)
    requires WellFormed(adj) && Discovered(adj, scc, component, start, order, preds)
    requires head < |order| && order[head] < |adj| && k < |adj[order[head]]|
    requires ClosedSoFar(adj, scc, component, order, head, k)
    ensures var next := adj[order[head]][k];
      && next < |adj| && next < |preds| && next < |scc.componentOf|
      && if scc.componentOf[next] == component && preds[next].None? then
           && Discovered(adj, scc, component, start, order + [next], preds[next := Some(order[head])])
           && ClosedSoFar(adj, scc, component, order + [next], head, k + 1)
         else ClosedSoFar(adj, scc, component, order, head, k + 1)
  {
    hide HangsFrom;
    var next := adj[order[head]][k];
    if scc.componentOf[next] == component && preds[next].None? {
      Discover(adj, scc, component, start, order, preds, head, next);
    }
  }

  lemma HeadMoves(adj: Adjacency, scc: SccResult, component: nat, order: seq<nat>, head: nat)
    requires |scc.componentOf| == |adj| && head < |order| && order[head] < |adj|
    requires ClosedSoFar(adj, scc, component, order, head, |adj[order[head]]|)
    ensures ClosedSoFar(adj, scc, component, order, head + 1, 0)
  {
  }

  method PathWithinComponent(adjacency: Csr, scc: SccResult, component: nat, start: nat, target: nat)
    returns (path: seq<nat>)
    requires adjacency.Valid() && WellFormed(adjacency.Lists()) && IsDecomposition(adjacency.Lists(), scc)
    requires start < adjacency.States() && target < adjacency.States()
    requires scc.componentOf[start] == scc.componentOf[target] == component
    ensures PathBetween(adjacency.Lists(), path, start, target)
    ensures forall i :: 0 <= i < |path| ==> scc.componentOf[path[i]] == component
  {
    hide Discovered, ClosedSoFar, IsPath, Mutual;
    ghost var adj := adjacency.Lists();
    var predecessors: seq<Option<nat>> := seq(adjacency.States(), _ => None);
    var queue: seq<nat> := [start];
    predecessors := predecessors[start := Some(start)];
    ghost var order: seq<nat> := [start];
    ghost var head: nat := 0;
    path := [];
    StartSearch(adj, scc, component, start, predecessors);
    while queue != []
      invariant head <= |order| && queue == order[head..]
      invariant Discovered(adj, scc, component, start, order, predecessors)
      invariant ClosedSoFar(adj, scc, component, order, head, 0)
      invariant target !in order[..head]
      decreases |adj| - head
    {
      OrderBound(adj, scc, component, start, order, predecessors);
      var state := queue[0];
      queue := queue[1..];
      if state == target {
        path := FollowBack(adjacency, scc, component, start, target, order, head, predecessors);
        return;
      }
      var neighbors := adjacency.Neighbors(state);
      for k := 0 to |neighbors|
        invariant head < |order| && order[head] == state && queue == order[head + 1..]
        invariant Discovered(adj, scc, component, start, order, predecessors)
        invariant ClosedSoFar(adj, scc, component, order, head, k)
        invariant target !in order[..head]
      {
        var next := neighbors[k];
        assert next == adj[state][k] && next < |adj|;
        SearchUse(adj, scc, component, start, order, predecessors, next);
        SearchStep(adj, scc, component, start, order, predecessors, head, k);
        if scc.componentOf[next] == component && predecessors[next].None? {
          predecessors := predecessors[next := Some(state)];
          queue := queue + [next];
          assert (order + [next])[..head] == order[..head];
          order := order + [next];
        }
      }
      HeadMoves(adj, scc, component, order, head);
      assert order[..head + 1] == order[..head] + [state];
      head := head + 1;
    }
    assert order[..head] == order;
    ReturnExists(adj, scc, component, start, target, order, predecessors);
    assert false;
  }

  /** Collect the path backwards along the predecessors, then reverse it. */
  method FollowBack(adjacency: Csr, ghost scc: SccResult, ghost component: nat, start: nat, target: nat,
                    ghost order: seq<nat>, ghost position: nat, predecessors: seq<Option<nat>>) returns (path: seq<nat>)
    requires adjacency.Valid()
    requires Discovered(adjacency.Lists(), scc, component, start, order, predecessors)
    requires position < |order| && order[position] == target
    ensures PathBetween(adjacency.Lists(), path, start, target)
    ensures forall i :: 0 <= i < |path| ==> path[i] < |scc.componentOf| && scc.componentOf[path[i]] == component
  {
    hide HangsFrom, Edge;
    ghost var adj := adjacency.Lists();
    path := [target];
    var cursor: nat := target;
    ghost var at: nat := position;
    while cursor != start
      invariant at < |order| && order[at] == cursor
      invariant |path| > 0 && path[|path| - 1] == cursor && path[0] == target
      invariant forall i :: 0 <= i < |path| ==> path[i] in order
      invariant forall i :: 0 <= i < |path| - 1 ==> Edge(adj, path[i + 1], path[i])
      decreases at
    {
      at := Above(adj, order, predecessors, at);
      cursor := predecessors[cursor].value;
      path := path + [cursor];
    }
    path := Reversed(path);
  }

  lemma Above(adj: Adjacency, order: seq<nat>, preds: seq<Option<nat>>, i: nat) returns (j: nat)
    requires 0 < i < |order| && HangsFrom(adj, order, preds, i)
    ensures j < i && order[i] < |preds| && preds[order[i]] == Some(order[j]) && Edge(adj, order[j], order[i])
  {
    j :| 0 <= j < i && preds[order[i]] == Some(order[j]) && Edge(adj, order[j], order[i]);
  }

  // ----- The report -----

  datatype TemporalEdge<A> = TemporalEdge(from: nat, to: nat, action: Option<A>)

  datatype Lasso<G, A> = Lasso(prefix: Counterexample<G, A>, cycleStates: seq<nat>, cycleEdges: seq<TemporalEdge<A>>)

  datatype Report<G, A> = Report(nonterminalDeadlocks: seq<nat>, terminalEdgeViolations: seq<nat>,
                                 stronglyConnectedComponents: nat, cyclicComponents: nat,
                                 nonterminalCyclicComponents: nat, progressViolations: seq<TemporalEdge<A>>,
                                 maximumProgressRank: nat, universalTermination: bool,
                                 lasso: Option<Lasso<G, A>>)

  datatype LivenessError = GraphFault(fault: GraphError) | StateAbsent | StateFinished

  /** The temporal edges under analysis: kept edges in order, then the injected one. */
  ghost function Temporal<G, A>(g: ExplicitGraph<G, A>, injected: Option<(nat, nat)>, removed: Option<nat>): (adj: Adjacency)
    ensures |adj| == |g.states|
    ensures forall s :: 0 <= s < |adj| ==> adj[s] == Row(g.edges, injected, removed, s)
  {
    seq(|g.states|, s requires 0 <= s < |g.states| => Row(g.edges, injected, removed, s))
  }

  ghost function Flags<G, A>(g: ExplicitGraph<G, A>, finished: G -> bool): (fin: seq<bool>)
    ensures |fin| == |g.states|
    ensures forall s :: 0 <= s < |fin| ==> fin[s] == finished(g.states[s])
  {
    seq(|g.states|, s requires 0 <= s < |g.states| => finished(g.states[s]))
  }

  ghost predicate AbsorbEdge<A>(edges: seq<Arc<A>>, absorbs: A -> bool, s: nat) {
    exists k :: 0 <= k < |edges| && edges[k].from == s && edges[k].to == s && absorbs(edges[k].action)
  }

  ghost predicate BadTerminal<G, A>(g: ExplicitGraph<G, A>, adj: Adjacency, absorbs: A -> bool, s: nat)
    requires s < |adj|
  {
    adj[s] != [s] || !AbsorbEdge(g.edges, absorbs, s)
  }

  /** An increasing listing of exactly the members of a set. */
  ghost predicate Lists(list: seq<nat>, members: set<nat>) {
    && (forall i, j :: 0 <= i < j < |list| ==> list[i] < list[j])
    && (forall v :: v in list <==> v in members)
  }

  ghost function DeadlockSet(adj: Adjacency, fin: seq<bool>, n: nat): set<nat>
    requires |fin| == |adj| && n <= |adj|
  {
    set v | 0 <= v < n && !fin[v] && adj[v] == []
  }

  ghost function BadTerminalSet<G, A>(g: ExplicitGraph<G, A>, adj: Adjacency, fin: seq<bool>, absorbs: A -> bool, n: nat): set<nat>
    requires |fin| == |adj| && n <= |adj|
  {
    set v: nat | v in Below(n) && fin[v] && BadTerminal(g, adj, absorbs, v)
  }

  ghost predicate ComponentUnfinished(scc: SccResult, fin: seq<bool>, c: nat) {
    exists v: nat :: v < |scc.componentOf| && v < |fin| && scc.componentOf[v] == c && !fin[v]
  }

  ghost function CyclicSet(adj: Adjacency, scc: SccResult, n: nat): set<nat>
    requires n <= |scc.sizes|
  {
    set c | c in Below(n) && ComponentCyclic(adj, scc, c)
  }

  ghost function UnfinishedCyclicSet(adj: Adjacency, scc: SccResult, fin: seq<bool>, n: nat): set<nat>
    requires n <= |scc.sizes|
  {
    set c | c in Below(n) && ComponentCyclic(adj, scc, c) && ComponentUnfinished(scc, fin, c)
  }

  /** A shortest run to an entry state, and a closed cycle of temporal edges through it
      inside one cyclic component with an unfinished member. */
  ghost predicate RealLasso<G(!new), A(!new)>(sys: System<G, A>, g: ExplicitGraph<G, A>, adj: Adjacency, fin: seq<bool>, x: Lasso<G, A>) {
    && |x.cycleStates| >= 2 && IsPath(adj, x.cycleStates)
    && |adj| == |g.states| == |g.depths| == |fin|
    && x.cycleStates[0] == x.cycleStates[|x.cycleStates| - 1]
    && (forall i :: 0 <= i < |x.cycleStates| ==> Mutual(adj, x.cycleStates[0], x.cycleStates[i]))
    && (exists v: nat :: v < |fin| && !fin[v] && Mutual(adj, x.cycleStates[0], v))
    && |x.cycleEdges| == |x.cycleStates| - 1
    && (forall i :: 0 <= i < |x.cycleEdges| ==>
          x.cycleEdges[i] == TemporalEdge(x.cycleStates[i], x.cycleStates[i + 1],
                                          FindAction(g.edges, x.cycleStates[i], x.cycleStates[i + 1])))
    && IsRun(sys, x.prefix.states, x.prefix.actions)
    && x.prefix.depth == |x.prefix.actions| == g.depths[x.cycleStates[0]]
    && x.prefix.states[x.prefix.depth] == g.states[x.cycleStates[0]]
    && ShortestTo(sys, g.states[x.cycleStates[0]], x.prefix.depth)
  }

  /** The action of the first model edge between two states, if there is one. */
  function FindAction<A>(edges: seq<Arc<A>>, from: nat, to: nat): (r: Option<A>)
    ensures r.None? <==> forall k :: 0 <= k < |edges| ==> !(edges[k].from == from && edges[k].to == to)
    ensures r.Some? ==> exists k :: && 0 <= k < |edges| && edges[k] == Arc(from, r.value, to)
                                    && forall j :: 0 <= j < k ==> !(edges[j].from == from && edges[j].to == to)
  {
    if edges == [] then None
    else if edges[0].from == from && edges[0].to == to then Some(edges[0].action)
    else
      var rest := FindAction(edges[1..], from, to);
      assert forall k :: 0 < k < |edges| ==> edges[k] == edges[1..][k - 1];
      assert rest.Some? ==> forall k :: 0 <= k < |edges| - 1 ==> edges[1..][k] == edges[k + 1];
      rest
  }

  ghost predicate Reports<G(!new), A(!new)>(sys: System<G, A>, g: ExplicitGraph<G, A>, adj: Adjacency, fin: seq<bool>,
                                           absorbs: A -> bool, rep: Report<G, A>)
    requires |fin| == |adj|
  {
    && Lists(rep.nonterminalDeadlocks, DeadlockSet(adj, fin, |adj|))
    && Lists(rep.terminalEdgeViolations, BadTerminalSet(g, adj, fin, absorbs, |adj|))
    && (exists scc :: IsDecomposition(adj, scc) && ComponentCounts(adj, scc, fin, rep))
    && (rep.universalTermination <==>
          rep.nonterminalDeadlocks == [] && rep.terminalEdgeViolations == [] && rep.nonterminalCyclicComponents == 0)
    && (rep.lasso.Some? <==> rep.nonterminalCyclicComponents > 0)
    && (rep.lasso.Some? ==> RealLasso(sys, g, adj, fin, rep.lasso.value))
  }

  /** The rank violations, in edge order, and the greatest rank of any state. */
  ghost predicate ReportsRanks<G, A>(g: ExplicitGraph<G, A>, adj: Adjacency, fin: seq<bool>, rank: G -> nat, rep: Report<G, A>)
    requires WellFormed(adj) && |fin| == |adj| == |g.states|
  {
    && rep.progressViolations == RankFaults(g.edges, adj, fin, Ranks(g, rank), |adj|, 0)
    && GreatestOf(rep.maximumProgressRank, Ranks(g, rank))
  }

  ghost predicate ComponentCounts<G, A>(adj: Adjacency, scc: SccResult, fin: seq<bool>, rep: Report<G, A>) {
    && rep.stronglyConnectedComponents == |scc.sizes|
    && rep.cyclicComponents == |CyclicSet(adj, scc, |scc.sizes|)|
    && rep.nonterminalCyclicComponents == |UnfinishedCyclicSet(adj, scc, fin, |scc.sizes|)|
  }

  // ----- Computing the report -----

  /** Deadlocked unfinished states, finished states without exactly the absorbing self-loop, and
      edges along which the progress rank does not count down by one. */
  method Survey<G, A>(g: ExplicitGraph<G, A>, adjacency: Csr, finished: G -> bool, absorbs: A -> bool, rank: G -> nat)
    returns (deadlocks: seq<nat>, violations: seq<nat>, progress: seq<TemporalEdge<A>>, maximumRank: nat)
    requires adjacency.Valid() && adjacency.States() == |g.states| && WellFormed(adjacency.Lists())
    ensures Lists(deadlocks, DeadlockSet(adjacency.Lists(), Flags(g, finished), |g.states|))
    ensures Lists(violations, BadTerminalSet(g, adjacency.Lists(), Flags(g, finished), absorbs, |g.states|))
    ensures progress == RankFaults(g.edges, adjacency.Lists(), Flags(g, finished), Ranks(g, rank), |g.states|, 0)
    ensures GreatestOf(maximumRank, Ranks(g, rank))
  {
    hide BadTerminal, Lists, DeadlockSet, BadTerminalSet, AbsorbEdge, RankFaults, RankFits;
    ghost var adj := adjacency.Lists();
    ghost var fin := Flags(g, finished);
    ghost var ranks := Ranks(g, rank);
    deadlocks, violations, progress, maximumRank := [], [], [], 0;
    SetsGrow(g, adj, fin, absorbs, 0);
    ListNothing();
    NoFaultsYet(g.edges, adj, fin, ranks);
    for id := 0 to |g.states|
      invariant Lists(deadlocks, DeadlockSet(adj, fin, id))
      invariant Lists(violations, BadTerminalSet(g, adj, fin, absorbs, id))
      invariant progress == RankFaults(g.edges, adj, fin, ranks, id, 0)
      invariant GreatestOf(maximumRank, ranks[..id])
    {
      SetsGrow(g, adj, fin, absorbs, id);
      ListMore(deadlocks, DeadlockSet(adj, fin, id), id);
      ListMore(violations, BadTerminalSet(g, adj, fin, absorbs, id), id);
      var game := g.states[id];
      var outgoing := adjacency.Neighbors(id);
      assert ranks[..id + 1] == ranks[..id] + [ranks[id]];
      maximumRank := Max(maximumRank, rank(game));
      if finished(game) {
        var valid := |outgoing| == 1 && outgoing[0] == id;
        if valid {
          valid := HasAbsorbEdge(g.edges, absorbs, id);
        }
        TerminalCheck(g, adj, absorbs, id, valid);
        if !valid {
          violations := violations + [id];
        }
      } else if |outgoing| == 0 {
        deadlocks := deadlocks + [id];
      }
      for k := 0 to |outgoing|
        invariant progress == RankFaults(g.edges, adj, fin, ranks, id, k)
      {
        var to := outgoing[k];
        assert to == adj[id][k] && to < |g.states|;
        var target := g.states[to];
        var valid := if finished(game) then to == id && rank(game) == 0 && rank(target) == 0
                     else rank(game) == rank(target) + 1;
        FaultStep(g.edges, adj, fin, ranks, id, k, valid);
        if !valid {
          progress := progress + [TemporalEdge(id, to, FindAction(g.edges, id, to))];
        }
      }
      FaultRow(g.edges, adj, fin, ranks, id);
    }
    assert ranks[..|g.states|] == ranks;
  }

  ghost predicate GreatestOf(n: nat, s: seq<nat>) {
    (n == 0 || n in s) && forall i :: 0 <= i < |s| ==> s[i] <= n
  }

  ghost function Ranks<G, A>(g: ExplicitGraph<G, A>, rank: G -> nat): (ranks: seq<nat>)
    ensures |ranks| == |g.states|
    ensures forall s :: 0 <= s < |ranks| ==> ranks[s] == rank(g.states[s])
  {
    seq(|g.states|, s requires 0 <= s < |g.states| => rank(g.states[s]))
  }

  /** The rank counts down by one along an edge of an unfinished state; a finished state of rank
      zero only repeats itself. */
  ghost predicate RankFits(fin: seq<bool>, ranks: seq<nat>, u: nat, v: nat)
    requires u < |fin| && u < |ranks| && v < |ranks|
  {
    if fin[u] then v == u && ranks[u] == 0 && ranks[v] == 0 else ranks[u] == ranks[v] + 1
  }

  /** The edges that break the rank among the rows before `id` and the first `k` entries of its row, in order. */
  ghost function RankFaults<A>(edges: seq<Arc<A>>, adj: Adjacency, fin: seq<bool>, ranks: seq<nat>, id: nat, k: nat): seq<TemporalEdge<A>>
    requires WellFormed(adj) && |fin| == |ranks| == |adj|
    requires id <= |adj| && k <= (if id < |adj| then |adj[id]| else 0)
    decreases id, k
  {
    if k > 0 then
      var to := adj[id][k - 1];
      RankFaults(edges, adj, fin, ranks, id, k - 1)
      + if RankFits(fin, ranks, id, to) then [] else [TemporalEdge(id, to, FindAction(edges, id, to))]
    else if id > 0 then RankFaults(edges, adj, fin, ranks, id - 1, |adj[id - 1]|)
    else []
  }

  lemma NoFaultsYet<A>(edges: seq<Arc<A>>, adj: Adjacency, fin: seq<bool>, ranks: seq<nat>)
    requires WellFormed(adj) && |fin| == |ranks| == |adj|
    ensures RankFaults(edges, adj, fin, ranks, 0, 0) == []
  {
  }

  lemma FaultStep<A>(edges: seq<Arc<A>>, adj: Adjacency, fin: seq<bool>, ranks: seq<nat>, id: nat, k: nat, valid: bool)
    requires WellFormed(adj) && |fin| == |ranks| == |adj| && id < |adj| && k < |adj[id]|
    requires valid == if fin[id] then adj[id][k] == id && ranks[id] == 0 && ranks[adj[id][k]] == 0
                      else ranks[id] == ranks[adj[id][k]] + 1
    ensures RankFaults(edges, adj, fin, ranks, id, k + 1)
         == RankFaults(edges, adj, fin, ranks, id, k)
            + if valid then [] else [TemporalEdge(id, adj[id][k], FindAction(edges, id, adj[id][k]))]
  {
  }

  lemma FaultRow<A>(edges: seq<Arc<A>>, adj: Adjacency, fin: seq<bool>, ranks: seq<nat>, id: nat)
    requires WellFormed(adj) && |fin| == |ranks| == |adj| && id < |adj|
    ensures RankFaults(edges, adj, fin, ranks, id + 1, 0) == RankFaults(edges, adj, fin, ranks, id, |adj[id]|)
  {
  }

  lemma SetsGrow<G, A>(g: ExplicitGraph<G, A>, adj: Adjacency, fin: seq<bool>, absorbs: A -> bool, id: nat)
    requires |fin| == |adj| && id <= |adj|
    ensures id == 0 ==> DeadlockSet(adj, fin, id) == {} && BadTerminalSet(g, adj, fin, absorbs, id) == {}
    ensures forall v :: v in DeadlockSet(adj, fin, id) || v in BadTerminalSet(g, adj, fin, absorbs, id) ==> v < id
    ensures id < |adj| ==>
      DeadlockSet(adj, fin, id + 1) == DeadlockSet(adj, fin, id) + if !fin[id] && adj[id] == [] then {id} else {}
    ensures id < |adj| ==>
      BadTerminalSet(g, adj, fin, absorbs, id + 1)
      == BadTerminalSet(g, adj, fin, absorbs, id) + if fin[id] && BadTerminal(g, adj, absorbs, id) then {id} else {}
  {
    DeadlocksGrow(adj, fin, id);
    BadTerminalsGrow(g, adj, fin, absorbs, id);
    hide BadTerminal, DeadlockSet, BadTerminalSet;
  }

  lemma DeadlocksGrow(adj: Adjacency, fin: seq<bool>, id: nat)
    requires |fin| == |adj| && id <= |adj|
    ensures id == 0 ==> DeadlockSet(adj, fin, id) == {}
    ensures forall v :: v in DeadlockSet(adj, fin, id) ==> v < id
    ensures id < |adj| ==>
      DeadlockSet(adj, fin, id + 1) == DeadlockSet(adj, fin, id) + if !fin[id] && adj[id] == [] then {id} else {}
  {
  }

  lemma BadTerminalsGrow<G, A>(g: ExplicitGraph<G, A>, adj: Adjacency, fin: seq<bool>, absorbs: A -> bool, id: nat)
    requires |fin| == |adj| && id <= |adj|
    ensures id == 0 ==> BadTerminalSet(g, adj, fin, absorbs, id) == {}
    ensures forall v :: v in BadTerminalSet(g, adj, fin, absorbs, id) ==> v < id
    ensures id < |adj| ==>
      BadTerminalSet(g, adj, fin, absorbs, id + 1)
      == BadTerminalSet(g, adj, fin, absorbs, id) + if fin[id] && BadTerminal(g, adj, absorbs, id) then {id} else {}
  {
    hide BadTerminal;
  }

  lemma ListNothing()
    ensures Lists([], {})
  {
  }

  lemma ListMore(list: seq<nat>, members: set<nat>, id: nat)
    requires Lists(list, members) && forall v :: v in members ==> v < id
    ensures Lists(list + [id], members + {id})
    ensures members + {} == members
  {
    assert forall i :: 0 <= i < |list| ==> list[i] in list;
  }

  lemma TerminalCheck<G, A>(g: ExplicitGraph<G, A>, adj: Adjacency, absorbs: A -> bool, id: nat, valid: bool)
    requires id < |adj|
    requires valid <==> |adj[id]| == 1 && adj[id][0] == id && AbsorbEdge(g.edges, absorbs, id)
    ensures !valid <==> BadTerminal(g, adj, absorbs, id)
  {
  }

  method HasAbsorbEdge<A>(edges: seq<Arc<A>>, absorbs: A -> bool, id: nat) returns (found: bool)
    ensures found <==> AbsorbEdge(edges, absorbs, id)
  {
    for k := 0 to |edges|
      invariant forall j :: 0 <= j < k ==> !(edges[j].from == id && edges[j].to == id && absorbs(edges[j].action))
    {
      if edges[k].from == id && edges[k].to == id && absorbs(edges[k].action) {
        return true;
      }
    }
    return false;
  }

  /** Which components contain a cycle, and which an unfinished state. */
  method Classify<G, A>(g: ExplicitGraph<G, A>, adjacency: Csr, scc: SccResult, finished: G -> bool)
    returns (cyclic: seq<bool>, unfinished: seq<bool>)
    requires adjacency.Valid() && adjacency.States() == |g.states|
    requires IsDecomposition(adjacency.Lists(), scc)
    ensures |cyclic| == |unfinished| == |scc.sizes|
    ensures forall c :: 0 <= c < |cyclic| ==> (cyclic[c] <==> ComponentCyclic(adjacency.Lists(), scc, c))
    ensures forall c :: 0 <= c < |cyclic| ==> (unfinished[c] <==> ComponentUnfinished(scc, Flags(g, finished), c))
  {
    hide Mutual;
    ghost var adj := adjacency.Lists();
    ghost var fin := Flags(g, finished);
    cyclic := seq(|scc.sizes|, c requires 0 <= c < |scc.sizes| => scc.sizes[c] > 1);
    unfinished := seq(|scc.sizes|, _ => false);
    for id := 0 to |g.states|
      invariant |cyclic| == |unfinished| == |scc.sizes|
      invariant forall c :: 0 <= c < |cyclic| ==>
        (cyclic[c] <==> scc.sizes[c] > 1 || exists v: nat :: v < id && scc.componentOf[v] == c && SelfLoop(adj, v))
      invariant forall c :: 0 <= c < |cyclic| ==>
        (unfinished[c] <==> exists v: nat :: v < id && scc.componentOf[v] == c && !fin[v])
    {
      var component := scc.componentOf[id];
      if !finished(g.states[id]) {
        unfinished := unfinished[component := true];
      }
      if id in adjacency.Neighbors(id) {
        cyclic := cyclic[component := true];
      }
    }
  }

  ghost function TrueBelow(flags: seq<bool>, n: nat): set<nat>
    requires n <= |flags|
  {
    set c | 0 <= c < n && flags[c]
  }

  method CountTrue(flags: seq<bool>) returns (count: nat)
    ensures count == |TrueBelow(flags, |flags|)|
  {
    count := 0;
    for k := 0 to |flags|
      invariant count == |TrueBelow(flags, k)|
    {
      assert TrueBelow(flags, k + 1) == TrueBelow(flags, k) + if flags[k] then {k} else {};
      if flags[k] {
        count := count + 1;
      }
    }
  }

  method FirstTrue(flags: seq<bool>) returns (first: Option<nat>)
    ensures first.None? <==> TrueBelow(flags, |flags|) == {}
    ensures first.Some? ==> first.value in TrueBelow(flags, |flags|) && forall k :: k in TrueBelow(flags, |flags|) ==> first.value <= k
  {
    for k := 0 to |flags|
      invariant forall j :: 0 <= j < k ==> !flags[j]
    {
      if flags[k] {
        assert k in TrueBelow(flags, |flags|);
        return Some(k);
      }
    }
    return None;
  }

  // ----- Lasso construction -----

  /** The first member of a cyclic component, a cycle through it, and a shortest prefix to it. */
  method BuildLasso<G(!new), A(!new)>(ghost sys: System<G, A>, g: ExplicitGraph<G, A>, ghost m: nat, adjacency: Csr,
                                     scc: SccResult, component: nat, ghost fin: seq<bool>)
    returns (lasso: Lasso<G, A>)
    requires Distinct(sys.initial) && Records(sys, g, m)
    requires adjacency.Valid() && adjacency.States() == |g.states| == |fin|
    requires WellFormed(adjacency.Lists()) && IsDecomposition(adjacency.Lists(), scc)
    requires component < |scc.sizes| && ComponentCyclic(adjacency.Lists(), scc, component)
    requires ComponentUnfinished(scc, fin, component)
    ensures RealLasso(sys, g, adjacency.Lists(), fin, lasso)
  {
    hide Digraph.Reach, Records, IsRun, IsPath, Mutual, Edge, ShortestTo;
    var entry := FirstMember(scc, component);
    var cycleStates := CycleThrough(adjacency, scc, component, entry);
    var cycleEdges := CycleEdges(g.edges, cycleStates);
    var prefix := ShortestTrace(sys, g, m, entry);
    lasso := Lasso(prefix.value, cycleStates, cycleEdges);
    DepthColumn(sys, g, m);
  }

  method CycleEdges<A>(edges: seq<Arc<A>>, cycleStates: seq<nat>) returns (r: seq<TemporalEdge<A>>)
    requires |cycleStates| > 0
    ensures |r| == |cycleStates| - 1
    ensures forall i :: 0 <= i < |r| ==>
      r[i] == TemporalEdge(cycleStates[i], cycleStates[i + 1], FindAction(edges, cycleStates[i], cycleStates[i + 1]))
  {
    r := [];
    for i := 0 to |cycleStates| - 1
      invariant |r| == i
      invariant forall j :: 0 <= j < i ==>
        r[j] == TemporalEdge(cycleStates[j], cycleStates[j + 1], FindAction(edges, cycleStates[j], cycleStates[j + 1]))
    {
      r := r + [TemporalEdge(cycleStates[i], cycleStates[i + 1], FindAction(edges, cycleStates[i], cycleStates[i + 1]))];
    }
  }

  /** A closed walk through `entry` inside its cyclic component. */
  method CycleThrough(adjacency: Csr, scc: SccResult, component: nat, entry: nat) returns (cycle: seq<nat>)
    requires adjacency.Valid() && WellFormed(adjacency.Lists()) && IsDecomposition(adjacency.Lists(), scc)
    requires entry < adjacency.States() && scc.componentOf[entry] == component
    requires ComponentCyclic(adjacency.Lists(), scc, component)
    ensures |cycle| >= 2 && cycle[0] == entry == cycle[|cycle| - 1] && IsPath(adjacency.Lists(), cycle)
    ensures forall i :: 0 <= i < |cycle| ==> cycle[i] < |scc.componentOf| && scc.componentOf[cycle[i]] == component
  {
    if entry in adjacency.Neighbors(entry) {
      cycle := [entry, entry];
    } else {
      var next := InternalSuccessor(adjacency, scc, component, entry);
      var path := PathWithinComponent(adjacency, scc, component, next, entry);
      cycle := [entry] + path;
    }
  }

  lemma DepthColumn<G, A>(sys: System<G, A>, g: ExplicitGraph<G, A>, m: nat)
    requires Distinct(sys.initial) && Records(sys, g, m)
    ensures |g.states| == |g.depths| == |g.predecessors|
  {
    AfterSound(sys, m);
  }

  method FirstMember(scc: SccResult, component: nat) returns (entry: nat)
    requires component < |scc.sizes| && |Members(scc.componentOf, component)| > 0
    ensures entry < |scc.componentOf| && scc.componentOf[entry] == component
    ensures forall v :: 0 <= v < entry ==> scc.componentOf[v] != component
  {
    entry := 0;
    ghost var members := Members(scc.componentOf, component);
    while scc.componentOf[entry] != component
      invariant entry < |scc.componentOf|
      invariant forall v :: 0 <= v < entry ==> scc.componentOf[v] != component
      decreases |scc.componentOf| - entry
    {
      entry := entry + 1;
    }
  }

  /** An entry without a self-loop has a successor in its own cyclic component. */
  method InternalSuccessor(adjacency: Csr, scc: SccResult, component: nat, entry: nat) returns (next: nat)
    requires adjacency.Valid() && WellFormed(adjacency.Lists()) && IsDecomposition(adjacency.Lists(), scc)
    requires entry < adjacency.States() && scc.componentOf[entry] == component
    requires ComponentCyclic(adjacency.Lists(), scc, component)
    ensures next < adjacency.States() && next in adjacency.Neighbors(entry) && scc.componentOf[next] == component
  {
    ghost var adj := adjacency.Lists();
    CycleSuccessor(adj, scc, entry);
    var neighbors := adjacency.Neighbors(entry);
    var k := 0;
    while scc.componentOf[neighbors[k]] != component
      invariant k < |neighbors|
      invariant exists j :: k <= j < |neighbors| && adj[entry][j] < |adj| && scc.componentOf[adj[entry][j]] == component
      decreases |neighbors| - k
    {
      k := k + 1;
    }
    next := neighbors[k];
  }

  lemma CycleSuccessor(adj: Adjacency, scc: SccResult, v: nat)
    requires WellFormed(adj) && IsDecomposition(adj, scc) && v < |adj|
    requires ComponentCyclic(adj, scc, scc.componentOf[v])
    ensures exists j :: 0 <= j < |adj[v]| && adj[v][j] < |adj| && scc.componentOf[adj[v][j]] == scc.componentOf[v]
  {
    hide Digraph.Reach;
    CycleIffCyclic(adj, scc, v);
    var w :| Edge(adj, v, w) && Reach(adj, w, v);
    var j :| 0 <= j < |adj[v]| && adj[v][j] == w;
    ReachEdge(adj, v, w);
    assert Mutual(adj, v, w);
  }

  // ----- The analysis -----

  ghost predicate ExploredBy<G, A>(sys: System<G, A>, g: ExplicitGraph<G, A>, m: nat) {
    && Distinct(sys.initial) && Records(sys, g, m)
    && |g.states| <= ID_LIMIT && |g.edges| < USIZE_MAX
  }

  method Analyze<G(!new), A(!new)>(ghost sys: System<G, A>, g: ExplicitGraph<G, A>, ghost m: nat,
                                  finished: G -> bool, absorbs: A -> bool, rank: G -> nat,
                                  injected: Option<(nat, nat)>, removed: Option<nat>)
    returns (r: Result<Report<G, A>, LivenessError>)
    requires ExploredBy(sys, g, m)
    ensures r.Failure? <==> injected.Some? && (injected.value.0 >= |g.states| || injected.value.1 >= |g.states|)
    ensures r.Success? ==> Reports(sys, g, Temporal(g, injected, removed), Flags(g, finished), absorbs, r.value)
    ensures r.Success? ==>
      WellFormed(Temporal(g, injected, removed)) && ReportsRanks(g, Temporal(g, injected, removed), Flags(g, finished), rank, r.value)
  {
    hide Records, IsDecomposition, Lists, RealLasso, DeadlockSet, BadTerminalSet, Row, RankFaults, GreatestOf;
    EdgesInRange(sys, g, m, injected, removed);
    var built := FromGraph(|g.states|, g.edges, injected, removed);
    if built.Failure? {
      return Failure(GraphFault(built.error));
    }
    var adjacency := built.value;
    ghost var adj := Temporal(g, injected, removed);
    ghost var fin := Flags(g, finished);
    assert adjacency.Lists() == adj;
    var deadlocks, violations, progress, maximumRank := Survey(g, adjacency, finished, absorbs, rank);
    var scc := StronglyConnectedComponents(adjacency);
    var cyclic, unfinished := Classify(g, adjacency, scc, finished);
    var both := Both(cyclic, unfinished);
    var cycles := CountTrue(cyclic);
    var unfinishedCycles := CountTrue(both);
    var first := FirstTrue(both);
    FlagSets(adj, scc, fin, cyclic, unfinished, both);
    var lasso: Option<Lasso<G, A>> := None;
    if first.Some? {
      var built := BuildLasso(sys, g, m, adjacency, scc, first.value, fin);
      lasso := Some(built);
    }
    var rep := Report(deadlocks, violations, |scc.sizes|, cycles, unfinishedCycles, progress, maximumRank,
                      deadlocks == [] && violations == [] && unfinishedCycles == 0, lasso);
    assert ComponentCounts(adj, scc, fin, rep);
    r := Success(rep);
  }

  /** Component-wise conjunction: cyclic and unfinished. */
  function Both(a: seq<bool>, b: seq<bool>): (r: seq<bool>)
    requires |a| == |b|
    ensures |r| == |a| && forall i :: 0 <= i < |r| ==> (r[i] <==> a[i] && b[i])
  {
    seq(|a|, i requires 0 <= i < |a| => a[i] && b[i])
  }

  lemma FlagSets(adj: Adjacency, scc: SccResult, fin: seq<bool>, cyclic: seq<bool>, unfinished: seq<bool>, both: seq<bool>)
    requires |cyclic| == |unfinished| == |scc.sizes| && both == Both(cyclic, unfinished)
    requires forall c :: 0 <= c < |cyclic| ==> (cyclic[c] <==> ComponentCyclic(adj, scc, c))
    requires forall c :: 0 <= c < |cyclic| ==> (unfinished[c] <==> ComponentUnfinished(scc, fin, c))
    ensures TrueBelow(cyclic, |cyclic|) == CyclicSet(adj, scc, |scc.sizes|)
    ensures TrueBelow(both, |both|) == UnfinishedCyclicSet(adj, scc, fin, |scc.sizes|)
  {
    hide ComponentCyclic, ComponentUnfinished;
  }

  /** Recorded edges, and an accepted injected one, stay within the recorded states. */
  lemma EdgesInRange<G, A>(sys: System<G, A>, g: ExplicitGraph<G, A>, m: nat, injected: Option<(nat, nat)>, removed: Option<nat>)
    requires ExploredBy(sys, g, m)
    ensures !SourceMissing(|g.states|, g.edges, removed)
    ensures forall e :: e in g.edges ==> RealEdge(sys, g.states, e)
    ensures !InjectedMissing(|g.states|, injected) ==> WellFormed(Temporal(g, injected, removed))
  {
    hide After, Tree, Layered, Expanded, RealEdge;
    AfterSound(sys, m);
    var c := After(sys, m);
    forall e | e in g.edges
      ensures RealEdge(sys, g.states, e) && e.from < |g.states| && e.to < |g.states|
    {
      EdgesReal(sys, c, c.from, c.next, e);
      RealEdgeRange(sys, g.states, e);
    }
    if !InjectedMissing(|g.states|, injected) {
      forall u, k | 0 <= u < |g.states| && 0 <= k < |Row(g.edges, injected, removed, u)|
        ensures Row(g.edges, injected, removed, u)[k] < |g.states|
      {
        OutgoingRange(g.edges, removed, u, |g.states|);
        var kept := Outgoing(g.edges, removed, u);
        assert k < |kept| ==> kept[k] in kept;
      }
    }
  }

  lemma RealEdgeRange<G, A>(sys: System<G, A>, states: seq<G>, e: Arc<A>)
    requires RealEdge(sys, states, e)
    ensures e.from < |states| && e.to < |states|
  {
  }

  lemma {:induction false} OutgoingRange<A>(edges: seq<Arc<A>>, removed: Option<nat>, u: nat, n: nat)
    requires forall e :: e in edges ==> e.to < n
    ensures forall v :: v in Outgoing(edges, removed, u) ==> v < n
  {
    if edges != [] {
      OutgoingRange(edges[..|edges| - 1], removed, u, n);
    }
  }

  // ----- The verdict is exact -----

  /** The reported cycles and deadlocks say exactly whether unfinished ones exist. */
  lemma VerdictIsClean<G(!new), A(!new)>(sys: System<G, A>, g: ExplicitGraph<G, A>, adj: Adjacency, fin: seq<bool>,
                                        absorbs: A -> bool, rep: Report<G, A>)
    requires WellFormed(adj) && |fin| == |adj| && Reports(sys, g, adj, fin, absorbs, rep)
    ensures rep.nonterminalDeadlocks == [] <==> NoDeadlock(adj, fin)
    ensures rep.nonterminalCyclicComponents == 0 <==> NoUnfinishedCycle(adj, fin)
    ensures rep.terminalEdgeViolations == [] ==> Absorbing(adj, fin)
  {
    hide Mutual, OnCycle, ComponentCyclic, RealLasso;
    if rep.nonterminalDeadlocks != [] {
      assert rep.nonterminalDeadlocks[0] in rep.nonterminalDeadlocks;
    }
    forall v | 0 <= v < |adj| && fin[v] && rep.terminalEdgeViolations == []
      ensures adj[v] == [v]
    {
      assert v !in rep.terminalEdgeViolations;
      assert v in Below(|adj|) && !BadTerminal(g, adj, absorbs, v);
    }
    forall v: nat | v < |adj| && !fin[v] && adj[v] == []
      ensures rep.nonterminalDeadlocks != []
    {
      assert v in DeadlockSet(adj, fin, |adj|);
    }
    CyclesCounted(sys, g, adj, fin, absorbs, rep);
  }

  lemma CyclesCounted<G(!new), A(!new)>(sys: System<G, A>, g: ExplicitGraph<G, A>, adj: Adjacency, fin: seq<bool>,
                                       absorbs: A -> bool, rep: Report<G, A>)
    requires WellFormed(adj) && |fin| == |adj| && Reports(sys, g, adj, fin, absorbs, rep)
    ensures rep.nonterminalCyclicComponents == 0 <==> NoUnfinishedCycle(adj, fin)
  {
    hide Mutual, OnCycle, ComponentCyclic, RealLasso;
    var scc :| IsDecomposition(adj, scc) && ComponentCounts(adj, scc, fin, rep);
    var live := UnfinishedCyclicSet(adj, scc, fin, |scc.sizes|);
    if v: nat :| v < |adj| && !fin[v] && OnCycle(adj, v) {
      CycleIffCyclic(adj, scc, v);
      assert scc.componentOf[v] in live;
    } else if live != {} {
      var c :| c in live;
      var v: nat :| v < |scc.componentOf| && v < |fin| && scc.componentOf[v] == c && !fin[v];
      CycleIffCyclic(adj, scc, v);
    }
  }

  /** Exactness: when no finished state has a bad edge and every state is reached from the starts,
      the verdict says whether finishing is inevitable. */
  lemma VerdictIsExact<G(!new), A(!new)>(sys: System<G, A>, g: ExplicitGraph<G, A>, adj: Adjacency, fin: seq<bool>,
                                        absorbs: A -> bool, rep: Report<G, A>, starts: set<nat>)
    requires WellFormed(adj) && |fin| == |adj| && Reports(sys, g, adj, fin, absorbs, rep)
    requires rep.terminalEdgeViolations == []
    requires forall v: nat :: v < |adj| ==> ReachedFrom(adj, starts, v)
    ensures rep.universalTermination <==> Inevitable(adj, starts, fin)
  {
    hide Reports, Inevitable, NoDeadlock, NoUnfinishedCycle, ReachedFrom;
    VerdictIsClean(sys, g, adj, fin, absorbs, rep);
    UniversalIsClean(sys, g, adj, fin, absorbs, rep);
    if rep.universalTermination {
      CleanIsInevitable(adj, starts, fin);
    }
    if Inevitable(adj, starts, fin) {
      InevitableIsClean(adj, starts, fin);
    }
  }

  lemma UniversalIsClean<G(!new), A(!new)>(sys: System<G, A>, g: ExplicitGraph<G, A>, adj: Adjacency, fin: seq<bool>,
                                          absorbs: A -> bool, rep: Report<G, A>)
    requires |fin| == |adj| && Reports(sys, g, adj, fin, absorbs, rep)
    ensures rep.universalTermination <==>
      rep.nonterminalDeadlocks == [] && rep.terminalEdgeViolations == [] && rep.nonterminalCyclicComponents == 0
  {
  }

  /** The listed states are what their names say: unfinished states without successor, and finished states
      whose row is not themselves alone or that no absorbing edge keeps in place. */
  lemma ListingsMean<G(!new), A(!new)>(sys: System<G, A>, g: ExplicitGraph<G, A>, adj: Adjacency, fin: seq<bool>,
                                      absorbs: A -> bool, rep: Report<G, A>, v: nat)
    requires |fin| == |adj| && Reports(sys, g, adj, fin, absorbs, rep)
    ensures v in rep.nonterminalDeadlocks <==> v < |adj| && !fin[v] && adj[v] == []
    ensures v in rep.terminalEdgeViolations <==>
      && v < |adj| && fin[v]
      && !(adj[v] == [v] && exists k :: 0 <= k < |g.edges| && g.edges[k].from == v && g.edges[k].to == v && absorbs(g.edges[k].action))
  {
    hide RealLasso, ComponentCounts, IsDecomposition;
    assert v in BadTerminalSet(g, adj, fin, absorbs, |adj|) <==> v < |adj| && fin[v] && BadTerminal(g, adj, absorbs, v);
  }

  /** The cyclic components counted are those with a state on a cycle, the unfinished ones among them those
      with an unfinished member. */
  lemma CyclicComponentsMean(adj: Adjacency, scc: SccResult, fin: seq<bool>, c: nat)
    requires WellFormed(adj) && IsDecomposition(adj, scc) && |fin| == |adj| && c < |scc.sizes|
    ensures c in CyclicSet(adj, scc, |scc.sizes|) <==> exists v: nat :: v < |adj| && scc.componentOf[v] == c && OnCycle(adj, v)
    ensures c in UnfinishedCyclicSet(adj, scc, fin, |scc.sizes|) <==>
      && (exists v: nat :: v < |adj| && scc.componentOf[v] == c && OnCycle(adj, v))
      && (exists v: nat :: v < |adj| && scc.componentOf[v] == c && !fin[v])
  {
    hide OnCycle, ComponentCyclic, Mutual;
    assert |Members(scc.componentOf, c)| > 0;
    var u :| u in Members(scc.componentOf, c);
    CycleIffCyclic(adj, scc, u);
    if v: nat :| v < |adj| && scc.componentOf[v] == c && OnCycle(adj, v) {
      CycleIffCyclic(adj, scc, v);
    }
  }

  // ----- The progress rank -----

  /** Every path from a state is finished exactly from the step on that the state's rank names. */
  ghost predicate CountsDown(adj: Adjacency, fin: seq<bool>, ranks: seq<nat>)
    requires |fin| == |ranks| == |adj|
  {
    forall p: seq<nat>, i: nat :: IsPath(adj, p) && i < |p| ==> (fin[p[i]] <==> ranks[p[0]] <= i)
  }

  ghost predicate AllFit(adj: Adjacency, fin: seq<bool>, ranks: seq<nat>)
    requires |fin| == |ranks| == |adj|
  {
    forall u: nat, v: nat :: u < |adj| && v < |adj| && Edge(adj, u, v) ==> RankFits(fin, ranks, u, v)
  }

  /** The violation list is empty exactly when every temporal edge fits the rank. */
  lemma {:induction false} NoFaultsIffFit<A>(edges: seq<Arc<A>>, adj: Adjacency, fin: seq<bool>, ranks: seq<nat>, id: nat, k: nat)
    requires WellFormed(adj) && |fin| == |ranks| == |adj|
    requires id <= |adj| && k <= (if id < |adj| then |adj[id]| else 0)
    ensures RankFaults(edges, adj, fin, ranks, id, k) == [] <==>
      forall u, j :: 0 <= u < |adj| && 0 <= j < |adj[u]| && (u < id || (u == id && j < k)) ==> RankFits(fin, ranks, u, adj[u][j])
    decreases id, k
  {
    if k > 0 {
      NoFaultsIffFit(edges, adj, fin, ranks, id, k - 1);
    } else if id > 0 {
      NoFaultsIffFit(edges, adj, fin, ranks, id - 1, |adj[id - 1]|);
    }
  }

  /** The violations listed are exactly the edges that do not fit, each with the action of its first recorded edge. */
  lemma {:induction false} FaultsListed<A>(edges: seq<Arc<A>>, adj: Adjacency, fin: seq<bool>, ranks: seq<nat>, id: nat, k: nat, e: TemporalEdge<A>)
    requires WellFormed(adj) && |fin| == |ranks| == |adj|
    requires id <= |adj| && k <= (if id < |adj| then |adj[id]| else 0)
    ensures e in RankFaults(edges, adj, fin, ranks, id, k) <==>
      exists u, j :: && 0 <= u < |adj| && 0 <= j < |adj[u]| && (u < id || (u == id && j < k))
                     && !RankFits(fin, ranks, u, adj[u][j]) && e == TemporalEdge(u, adj[u][j], FindAction(edges, u, adj[u][j]))
    decreases id, k
  {
    hide RankFits, FindAction;
    if k > 0 {
      FaultsListed(edges, adj, fin, ranks, id, k - 1, e);
    } else if id > 0 {
      FaultsListed(edges, adj, fin, ranks, id - 1, |adj[id - 1]|, e);
    }
  }

  /** A rank without violations rules out unfinished cycles by itself. */
  lemma RankRulesOutCycles(adj: Adjacency, fin: seq<bool>, ranks: seq<nat>)
    requires WellFormed(adj) && |fin| == |ranks| == |adj| && AllFit(adj, fin, ranks)
    ensures NoUnfinishedCycle(adj, fin)
  {
    forall v: nat | v < |adj| && !fin[v]
      ensures !OnCycle(adj, v)
    {
      if OnCycle(adj, v) {
        var w :| Edge(adj, v, w) && Reach(adj, w, v);
        var p :| PathBetween(adj, p, w, v);
        RankFalls(adj, fin, ranks, p);
      }
    }
  }

  lemma {:induction false} RankFalls(adj: Adjacency, fin: seq<bool>, ranks: seq<nat>, p: seq<nat>)
    requires WellFormed(adj) && |fin| == |ranks| == |adj| && AllFit(adj, fin, ranks) && IsPath(adj, p)
    ensures ranks[p[0]] == ranks[p[|p| - 1]] + |p| - 1 || (fin[p[|p| - 1]] && ranks[p[|p| - 1]] == 0 && ranks[p[0]] <= |p| - 1)
    ensures ranks[p[|p| - 1]] <= ranks[p[0]]
  {
    if |p| > 1 {
      RankFalls(adj, fin, ranks, p[..|p| - 1]);
      assert Edge(adj, p[|p| - 2], p[|p| - 2 + 1]);
    }
  }

  /** Where nothing unfinished is stuck and finished states absorb, the rank has no violation exactly
      when it is the number of steps left before finishing, on every path from every state. */
  lemma RankIsStepsLeft<A>(edges: seq<Arc<A>>, adj: Adjacency, fin: seq<bool>, ranks: seq<nat>)
    requires WellFormed(adj) && |fin| == |ranks| == |adj|
    requires NoDeadlock(adj, fin) && Absorbing(adj, fin)
    ensures RankFaults(edges, adj, fin, ranks, |adj|, 0) == [] <==> CountsDown(adj, fin, ranks)
  {
    NoFaultsIffFit(edges, adj, fin, ranks, |adj|, 0);
    if RankFaults(edges, adj, fin, ranks, |adj|, 0) == [] {
      forall p: seq<nat>, i: nat | IsPath(adj, p) && i < |p|
        ensures fin[p[i]] <==> ranks[p[0]] <= i
      {
        FitCountsDown(adj, fin, ranks, p[..i + 1]);
      }
    }
    if CountsDown(adj, fin, ranks) {
      forall u, j | 0 <= u < |adj| && 0 <= j < |adj[u]|
        ensures RankFits(fin, ranks, u, adj[u][j])
      {
        CountsDownFit(adj, fin, ranks, u, adj[u][j]);
      }
    }
  }

  lemma {:induction false} FitCountsDown(adj: Adjacency, fin: seq<bool>, ranks: seq<nat>, p: seq<nat>)
    requires WellFormed(adj) && |fin| == |ranks| == |adj| && AllFit(adj, fin, ranks)
    requires NoDeadlock(adj, fin) && Absorbing(adj, fin) && IsPath(adj, p)
    ensures fin[p[|p| - 1]] <==> ranks[p[0]] <= |p| - 1
  {
    RankFalls(adj, fin, ranks, p);
    var v := p[|p| - 1];
    if adj[v] != [] {
      assert Edge(adj, v, adj[v][0]);
    }
  }

  lemma CountsDownFit(adj: Adjacency, fin: seq<bool>, ranks: seq<nat>, u: nat, v: nat)
    requires WellFormed(adj) && |fin| == |ranks| == |adj| && CountsDown(adj, fin, ranks)
    requires NoDeadlock(adj, fin) && Absorbing(adj, fin) && u < |adj| && v in adj[u]
    ensures RankFits(fin, ranks, u, v)
  {
    assert IsPath(adj, [u]) && [u][0] == u;
    if !fin[u] {
      var p := LongPath(adj, fin, v, Max(ranks[v], ranks[u]));
      var q := [u] + p;
      assert Edge(adj, u, v);
      assert IsPath(adj, q);
      assert ranks[u] > 0;
      var i: nat, j: nat := ranks[u], ranks[v] + 1;
      assert q[0] == u && q[i] == p[i - 1] && q[j] == p[j - 1];
      assert fin[p[j - 1]] && fin[q[i]];
    }
  }

  /** Without dead ends a path of any length leads on from every state. */
  lemma {:induction false} LongPath(adj: Adjacency, fin: seq<bool>, v: nat, n: nat) returns (p: seq<nat>)
    requires WellFormed(adj) && |fin| == |adj| && NoDeadlock(adj, fin) && Absorbing(adj, fin) && v < |adj|
    ensures IsPath(adj, p) && |p| == n + 1 && p[0] == v
    decreases n
  {
    p := [v];
    if n > 0 {
      assert Edge(adj, v, adj[v][0]);
      var q := LongPath(adj, fin, adj[v][0], n - 1);
      p := [v] + q;
    }
  }

  /** A report without rank violations has no unfinished cyclic component and no lasso; if it also
      has no deadlock and no bad terminal, the rank is the number of steps left on every path. */
  lemma RankEvidence<G(!new), A(!new)>(sys: System<G, A>, g: ExplicitGraph<G, A>, adj: Adjacency, fin: seq<bool>,
                                      absorbs: A -> bool, rank: G -> nat, rep: Report<G, A>)
    requires WellFormed(adj) && |fin| == |adj| == |g.states|
    requires Reports(sys, g, adj, fin, absorbs, rep) && ReportsRanks(g, adj, fin, rank, rep)
    ensures rep.progressViolations == [] ==> rep.nonterminalCyclicComponents == 0 && rep.lasso == None
    ensures rep.nonterminalDeadlocks == [] && rep.terminalEdgeViolations == [] ==>
      (rep.progressViolations == [] <==> CountsDown(adj, fin, Ranks(g, rank)))
  {
    hide RealLasso, Lists, ComponentCounts, IsDecomposition, CountsDown, NoDeadlock, Absorbing, NoUnfinishedCycle;
    VerdictIsClean(sys, g, adj, fin, absorbs, rep);
    if rep.progressViolations == [] {
      NoFaultsIffFit(g.edges, adj, fin, Ranks(g, rank), |adj|, 0);
      RankRulesOutCycles(adj, fin, Ranks(g, rank));
    }
    if rep.nonterminalDeadlocks == [] && rep.terminalEdgeViolations == [] {
      RankIsStepsLeft(g.edges, adj, fin, Ranks(g, rank));
    }
  }

  // ----- From the graph back to the system -----

  ghost function InitialIds<G, A>(g: ExplicitGraph<G, A>): set<nat> { Elements(g.initialStates) }

  lemma {:induction false} OutgoingHas<A>(edges: seq<Arc<A>>, removed: Option<nat>, e: Arc<A>)
    requires e in edges && removed != Some(e.from)
    ensures e.to in Outgoing(edges, removed, e.from)
  {
    var last := edges[|edges| - 1];
    if e != last {
      assert e in edges[..|edges| - 1];
      OutgoingHas(edges[..|edges| - 1], removed, e);
    }
  }

  lemma {:induction false} OutgoingFrom<A>(edges: seq<Arc<A>>, removed: Option<nat>, u: nat, v: nat) returns (e: Arc<A>)
    requires v in Outgoing(edges, removed, u)
    ensures e in edges && e.from == u && e.to == v
  {
    var last := edges[|edges| - 1];
    if v in Outgoing(edges[..|edges| - 1], removed, u) {
      e := OutgoingFrom(edges[..|edges| - 1], removed, u, v);
    } else {
      e := last;
    }
  }

  /** Every recorded state is reached from an initial one along the unmodified temporal edges. */
  lemma {:induction false} AllReached<G, A>(sys: System<G, A>, g: ExplicitGraph<G, A>, m: nat, v: nat)
    requires ExploredBy(sys, g, m) && v < |g.states|
    ensures ReachedFrom(Temporal(g, None, None), InitialIds(g), v)
    decreases v
  {
    hide Digraph.Reach, Layered, Expanded, Explorer.Counted, After, IsPath;
    var adj := Temporal(g, None, None);
    AfterSound(sys, m);
    if v < |sys.initial| {
      ReachSelf(adj, v);
      assert g.initialStates[v] == v;
      assert v in InitialIds(g);
    } else {
      var p := g.predecessors[v].value;
      assert HangsBelow(sys, g.states, g.depths, p, v);
      AllReached(sys, g, m, p.state);
      var u :| u in InitialIds(g) && Reach(adj, u, p.state);
      OutgoingHas(g.edges, None, Arc(p.state, p.action, v));
      assert Edge(adj, p.state, v);
      ReachEdge(adj, p.state, v);
      ReachTrans(adj, u, p.state, v);
    }
  }

  /** The analysis of an explored graph as it stands is exact. */
  lemma UnmodifiedVerdict<G(!new), A(!new)>(sys: System<G, A>, g: ExplicitGraph<G, A>, m: nat,
                                           finished: G -> bool, absorbs: A -> bool, rep: Report<G, A>)
    requires ExploredBy(sys, g, m)
    requires Reports(sys, g, Temporal(g, None, None), Flags(g, finished), absorbs, rep)
    requires rep.terminalEdgeViolations == []
    ensures rep.universalTermination <==> Inevitable(Temporal(g, None, None), InitialIds(g), Flags(g, finished))
  {
    hide Reports, Inevitable, ExploredBy, ReachedFrom;
    EdgesInRange(sys, g, m, None, None);
    forall v: nat | v < |g.states|
      ensures ReachedFrom(Temporal(g, None, None), InitialIds(g), v)
    {
      AllReached(sys, g, m, v);
    }
    VerdictIsExact(sys, g, Temporal(g, None, None), Flags(g, finished), absorbs, rep, InitialIds(g));
  }

  ghost predicate Moves<G(!new), A(!new)>(sys: System<G, A>, s: G, t: G) {
    exists a :: a in sys.legal(s) && sys.step(s, a) == Some(t)
  }

  ghost predicate InfiniteRun<G(!new), A(!new)>(sys: System<G, A>, p: nat -> G) {
    p(0) in sys.initial && forall i: nat :: Moves(sys, p(i), p(i + 1))
  }

  /** Every infinite run of the system, and every run into a state without actions, meets a finished state. */
  ghost predicate SystemFinishes<G(!new), A(!new)>(sys: System<G, A>, finished: G -> bool) {
    && (forall p: nat -> G :: InfiniteRun(sys, p) ==> exists i: nat :: finished(p(i)))
    && (forall states, actions :: IsRun(sys, states, actions) && sys.legal(states[|actions|]) == [] ==>
          exists i :: 0 <= i < |states| && finished(states[i]))
  }

  /** Temporal edges of an exact graph are the moves of the system. */
  lemma EdgeIffMoves<G(!new), A(!new)>(sys: System<G, A>, g: ExplicitGraph<G, A>, u: nat, v: nat)
    requires Exact(sys, g) && u < |g.states| && v < |g.states|
    ensures Edge(Temporal(g, None, None), u, v) <==> Moves(sys, g.states[u], g.states[v])
  {
    hide ShortestTo, Reachable;
    if v in Outgoing(g.edges, None, u) {
      var e := OutgoingFrom(g.edges, None, u, v);
      assert RealEdge(sys, g.states, e);
    }
    if Moves(sys, g.states[u], g.states[v]) {
      var a :| a in sys.legal(g.states[u]) && sys.step(g.states[u], a) == Some(g.states[v]);
      var j :| 0 <= j < |sys.legal(g.states[u])| && sys.legal(g.states[u])[j] == a;
      assert EdgeAt(sys, g.states, u, j) == Arc(u, a, v);
      EveryEdge(sys, g.states, |g.states|, 0, u, j);
      OutgoingHas(g.edges, None, Arc(u, a, v));
    }
  }

  lemma {:induction false} EveryEdge<G, A>(sys: System<G, A>, states: seq<G>, from: nat, next: nat, i: nat, j: nat)
    requires from <= |states| && next <= (if from < |states| then |sys.legal(states[from])| else 0)
    requires i < |states| && j < |sys.legal(states[i])|
    requires i < from || (i == from && j < next)
    ensures EdgeAt(sys, states, i, j) in EdgesUpTo(sys, states, from, next)
    decreases from, next
  {
    if next > 0 {
      if !(i == from && j == next - 1) {
        EveryEdge(sys, states, from, next - 1, i, j);
      }
    } else {
      EveryEdge(sys, states, from - 1, |sys.legal(states[from - 1])|, i, j);
    }
  }

  /** The states of a run of the system are recorded, and their identifiers form a path. */
  lemma RunIsPath<G(!new), A(!new)>(sys: System<G, A>, g: ExplicitGraph<G, A>, states: seq<G>, actions: seq<A>) returns (p: seq<nat>)
    requires Exact(sys, g) && IsRun(sys, states, actions) && g.initialStates == seq(|sys.initial|, i => i) && sys.initial <= g.states
    ensures |p| == |states| && IsPath(Temporal(g, None, None), p) && p[0] in InitialIds(g)
    ensures forall i :: 0 <= i < |p| ==> p[i] < |g.states| && g.states[p[i]] == states[i]
  {
    hide ShortestTo, Edge;
    forall i | 0 <= i < |states|
      ensures states[i] in g.states
    {
      assert IsRun(sys, states[..i + 1], actions[..i]);
    }
    p := seq(|states|, i requires 0 <= i < |states| => IndexOf(g.states, states[i]));
    forall i | 0 <= i < |p| - 1
      ensures Edge(Temporal(g, None, None), p[i], p[i + 1])
    {
      assert Moves(sys, states[i], states[i + 1]);
      EdgeIffMoves(sys, g, p[i], p[i + 1]);
    }
    StartsInitial(sys, g, states[0]);
  }

  lemma StartsInitial<G(!new), A(!new)>(sys: System<G, A>, g: ExplicitGraph<G, A>, s: G)
    requires Distinct(g.states) && s in sys.initial && sys.initial <= g.states
    requires g.initialStates == seq(|sys.initial|, i => i)
    ensures IndexOf(g.states, s) in InitialIds(g)
  {
    var i :| 0 <= i < |sys.initial| && sys.initial[i] == s;
    assert g.states[i] == s;
    assert g.initialStates[i] == i;
  }

  lemma {:induction false} PathIsRun<G(!new), A(!new)>(sys: System<G, A>, g: ExplicitGraph<G, A>, p: seq<nat>) returns (states: seq<G>, actions: seq<A>)
    requires Exact(sys, g) && g.initialStates == seq(|sys.initial|, i => i) && sys.initial <= g.states
    requires IsPath(Temporal(g, None, None), p) && p[0] in InitialIds(g)
    ensures IsRun(sys, states, actions) && |states| == |p|
    ensures forall i :: 0 <= i < |p| ==> p[i] < |g.states| && g.states[p[i]] == states[i]
    decreases |p|
  {
    hide ShortestTo, Reachable, Edge, RealEdge;
    if |p| == 1 {
      states, actions := [g.states[p[0]]], [];
    } else {
      var q := p[..|p| - 1];
      assert IsPath(Temporal(g, None, None), q);
      states, actions := PathIsRun(sys, g, q);
      var u, v := q[|q| - 1], p[|p| - 1];
      assert Edge(Temporal(g, None, None), p[|p| - 2], p[|p| - 1]);
      EdgeIffMoves(sys, g, u, v);
      var a :| a in sys.legal(g.states[u]) && sys.step(g.states[u], a) == Some(g.states[v]);
      states, actions := states + [g.states[v]], actions + [a];
    }
  }

  /** A recorded state has no temporal successor exactly when it has no action. */
  lemma DeadEnd<G(!new), A(!new)>(sys: System<G, A>, g: ExplicitGraph<G, A>, v: nat)
    requires Exact(sys, g) && v < |g.states|
    ensures Temporal(g, None, None)[v] == [] <==> sys.legal(g.states[v]) == []
  {
    hide ShortestTo, Reachable;
    var row := Outgoing(g.edges, None, v);
    if row != [] {
      assert row[0] in row;
      var e := OutgoingFrom(g.edges, None, v, row[0]);
      assert RealEdge(sys, g.states, e);
    }
    if sys.legal(g.states[v]) != [] {
      EveryEdge(sys, g.states, |g.states|, 0, v, 0);
      OutgoingHas(g.edges, None, EdgeAt(sys, g.states, v, 0));
    }
  }

  lemma {:induction false} InfiniteRunRecorded<G(!new), A(!new)>(sys: System<G, A>, g: ExplicitGraph<G, A>, p: nat -> G, i: nat)
    requires Exact(sys, g) && InfiniteRun(sys, p)
    ensures p(i) in g.states
  {
    hide ShortestTo, Reachable, RealEdge;
    if i == 0 {
      InitialReachable(sys, p(0));
    } else {
      InfiniteRunRecorded(sys, g, p, i - 1);
      assert Moves(sys, p(i - 1), p(i - 1 + 1));
      var a :| a in sys.legal(p(i - 1)) && sys.step(p(i - 1), a) == Some(p(i));
      SuccessorReachable(sys, p(i - 1), a, p(i));
    }
  }

  lemma InitialReachable<G(!new), A(!new)>(sys: System<G, A>, s: G)
    requires s in sys.initial
    ensures Reachable(sys, s)
  {
    assert IsRun<G, A>(sys, [s], []) && [s][0] == s;
  }

  /** Runs of the system and paths of its exact graph finish together. */
  lemma InevitableIffFinishes<G(!new), A(!new)>(sys: System<G, A>, g: ExplicitGraph<G, A>, finished: G -> bool)
    requires Exact(sys, g) && g.initialStates == seq(|sys.initial|, i => i) && sys.initial <= g.states
    ensures Inevitable(Temporal(g, None, None), InitialIds(g), Flags(g, finished)) <==> SystemFinishes(sys, finished)
  {
    hide Exact, Inevitable, SystemFinishes, InitialIds;
    if Inevitable(Temporal(g, None, None), InitialIds(g), Flags(g, finished)) {
      PathsToRuns(sys, g, finished);
    }
    if SystemFinishes(sys, finished) {
      RunsToPaths(sys, g, finished);
    }
  }

  lemma InfiniteRunIsPath<G(!new), A(!new)>(sys: System<G, A>, g: ExplicitGraph<G, A>, p: nat -> G) returns (q: nat -> nat)
    requires Exact(sys, g) && g.initialStates == seq(|sys.initial|, i => i) && sys.initial <= g.states
    requires InfiniteRun(sys, p)
    ensures InfinitePath(Temporal(g, None, None), q) && q(0) in InitialIds(g)
    ensures forall i: nat :: q(i) < |g.states| && g.states[q(i)] == p(i)
  {
    hide ShortestTo, Reachable, RealEdge, Edge, EdgesUpTo, InitialIds;
    forall i: nat
      ensures p(i) in g.states
    {
      InfiniteRunRecorded(sys, g, p, i);
    }
    q := (i: nat) => if p(i) in g.states then IndexOf(g.states, p(i)) else 0;
    StartsInitial(sys, g, p(0));
    forall i: nat
      ensures Edge(Temporal(g, None, None), q(i), q(i + 1))
    {
      assert Moves(sys, p(i), p(i + 1));
      EdgeIffMoves(sys, g, q(i), q(i + 1));
    }
  }

  lemma PathsToRuns<G(!new), A(!new)>(sys: System<G, A>, g: ExplicitGraph<G, A>, finished: G -> bool)
    requires Exact(sys, g) && g.initialStates == seq(|sys.initial|, i => i) && sys.initial <= g.states
    requires Inevitable(Temporal(g, None, None), InitialIds(g), Flags(g, finished))
    ensures SystemFinishes(sys, finished)
  {
    hide Exact, Edge, InitialIds, IsPath, InfinitePath, InfiniteRun, IsRun;
    var adj, fin := Temporal(g, None, None), Flags(g, finished);
    forall p: nat -> G | InfiniteRun(sys, p)
      ensures exists i: nat :: finished(p(i))
    {
      var q := InfiniteRunIsPath(sys, g, p);
      var i: nat :| q(i) < |adj| && fin[q(i)];
      assert finished(p(i));
    }
    forall states, actions | IsRun(sys, states, actions) && |states| == |actions| + 1 && sys.legal(states[|actions|]) == []
      ensures exists i :: 0 <= i < |states| && finished(states[i])
    {
      var p := RunIsPath(sys, g, states, actions);
      DeadEnd(sys, g, p[|p| - 1]);
      var i :| 0 <= i < |p| && fin[p[i]];
      assert finished(states[i]);
    }
    assert forall states, actions :: IsRun(sys, states, actions) ==> |states| == |actions| + 1 by {
      RunShape(sys);
    }
  }

  lemma RunShape<G(!new), A(!new)>(sys: System<G, A>)
    ensures forall states, actions :: IsRun(sys, states, actions) ==> |states| == |actions| + 1
  {
  }

  lemma RunsToPaths<G(!new), A(!new)>(sys: System<G, A>, g: ExplicitGraph<G, A>, finished: G -> bool)
    requires Exact(sys, g) && g.initialStates == seq(|sys.initial|, i => i) && sys.initial <= g.states
    requires SystemFinishes(sys, finished)
    ensures Inevitable(Temporal(g, None, None), InitialIds(g), Flags(g, finished))
  {
    hide ShortestTo, Reachable, RealEdge, EdgesUpTo;
    var adj, fin := Temporal(g, None, None), Flags(g, finished);
    forall q: nat -> nat | q(0) in InitialIds(g) && InfinitePath(adj, q)
      ensures exists i: nat :: q(i) < |adj| && fin[q(i)]
    {
      forall i: nat
        ensures q(i) < |adj|
      {
        assert Edge(adj, q(i), q(i + 1));
      }
      var p := (i: nat) => if q(i) < |g.states| then g.states[q(i)] else g.states[0];
      assert p(0) in sys.initial;
      forall i: nat
        ensures Moves(sys, p(i), p(i + 1))
      {
        assert Edge(adj, q(i), q(i + 1));
        EdgeIffMoves(sys, g, q(i), q(i + 1));
      }
      assert InfiniteRun(sys, p);
      var i: nat :| finished(p(i));
      assert fin[q(i)];
    }
    forall p: seq<nat> | IsPath(adj, p) && p[0] in InitialIds(g) && adj[p[|p| - 1]] == []
      ensures exists i :: 0 <= i < |p| && fin[p[i]]
    {
      var states, actions := PathIsRun(sys, g, p);
      DeadEnd(sys, g, p[|p| - 1]);
      var i :| 0 <= i < |states| && finished(states[i]);
      assert fin[p[i]];
    }
  }

  /** End to end: explore without a limit, analyze, and the verdict speaks about the system itself. */
  lemma SystemVerdict<G(!new), A(!new)>(sys: System<G, A>, limit: Option<nat>, g: ExplicitGraph<G, A>, m: nat,
                                       finished: G -> bool, absorbs: A -> bool, rep: Report<G, A>)
    requires ExploredBy(sys, g, m) && StoppedAt(sys, limit, Exhausted, m)
    requires Reports(sys, g, Temporal(g, None, None), Flags(g, finished), absorbs, rep)
    requires rep.terminalEdgeViolations == []
    ensures rep.universalTermination <==> SystemFinishes(sys, finished)
  {
    hide Reports, Inevitable, SystemFinishes, Exact, Tree, Layered, Expanded, Explorer.Counted, Linked;
    UnmodifiedVerdict(sys, g, m, finished, absorbs, rep);
    ExhaustiveIsExact(sys, limit, g, m);
    InitialFirst(sys, g, m);
    InevitableIffFinishes(sys, g, finished);
  }

  lemma InitialFirst<G, A>(sys: System<G, A>, g: ExplicitGraph<G, A>, m: nat)
    requires Distinct(sys.initial) && Records(sys, g, m)
    ensures sys.initial <= g.states && g.initialStates == seq(|sys.initial|, i => i)
  {
    AfterSound(sys, m);
  }

  // ----- Controlled defects -----

  /** An injected unfinished self-loop always refutes termination with a replayable lasso. */
  method AnalyzeWithNonterminalStutter<G(!new), A(!new)>(ghost sys: System<G, A>, g: ExplicitGraph<G, A>, ghost m: nat,
                                                        finished: G -> bool, absorbs: A -> bool, rank: G -> nat, state: nat)
    returns (r: Result<Report<G, A>, LivenessError>)
    requires ExploredBy(sys, g, m)
    ensures r.Failure? <==> state >= |g.states| || finished(g.states[state])
    ensures r.Success? ==>
      && Reports(sys, g, Temporal(g, Some((state, state)), None), Flags(g, finished), absorbs, r.value)
      && !r.value.universalTermination && r.value.lasso.Some?
  {
    if state >= |g.states| {
      return Failure(StateAbsent);
    }
    if finished(g.states[state]) {
      return Failure(StateFinished);
    }
    hide Reports, ExploredBy;
    r := Analyze(sys, g, m, finished, absorbs, rank, Some((state, state)), None);
    ghost var adj := Temporal(g, Some((state, state)), None);
    EdgesInRange(sys, g, m, Some((state, state)), None);
    StutterIsCycle(sys, g, adj, Flags(g, finished), absorbs, r.value, state);
  }

  lemma StutterIsCycle<G(!new), A(!new)>(sys: System<G, A>, g: ExplicitGraph<G, A>, adj: Adjacency, fin: seq<bool>,
                                        absorbs: A -> bool, rep: Report<G, A>, state: nat)
    requires WellFormed(adj) && |fin| == |adj| == |g.states| && state < |adj| && !fin[state]
    requires adj[state] == Row(g.edges, Some((state, state)), None, state)
    requires Reports(sys, g, adj, fin, absorbs, rep)
    ensures !rep.universalTermination && rep.lasso.Some?
  {
    hide ComponentCounts, RealLasso, Lists, IsDecomposition;
    CyclesCounted(sys, g, adj, fin, absorbs, rep);
    assert adj[state][|adj[state]| - 1] == state;
    ReachSelf(adj, state);
    assert OnCycle(adj, state);
  }

  /** Removing every successor of an unfinished state is reported as exactly that deadlock,
      beside those that were there before. */
  method AnalyzeWithNonterminalDeadlock<G(!new), A(!new)>(ghost sys: System<G, A>, g: ExplicitGraph<G, A>, ghost m: nat,
                                                         finished: G -> bool, absorbs: A -> bool, rank: G -> nat, state: nat)
    returns (r: Result<Report<G, A>, LivenessError>)
    requires ExploredBy(sys, g, m)
    ensures r.Failure? <==> state >= |g.states| || finished(g.states[state])
    ensures r.Success? ==>
      && Reports(sys, g, Temporal(g, None, Some(state)), Flags(g, finished), absorbs, r.value)
      && !r.value.universalTermination
      && forall v :: v in r.value.nonterminalDeadlocks <==>
           v == state || v in DeadlockSet(Temporal(g, None, None), Flags(g, finished), |g.states|)
  {
    if state >= |g.states| {
      return Failure(StateAbsent);
    }
    if finished(g.states[state]) {
      return Failure(StateFinished);
    }
    r := Analyze(sys, g, m, finished, absorbs, rank, None, Some(state));
    RemovalIsDeadlock(g, finished, state);
    assert state in r.value.nonterminalDeadlocks;
  }

  lemma RemovalIsDeadlock<G, A>(g: ExplicitGraph<G, A>, finished: G -> bool, state: nat)
    requires state < |g.states| && !finished(g.states[state])
    ensures DeadlockSet(Temporal(g, None, Some(state)), Flags(g, finished), |g.states|)
         == DeadlockSet(Temporal(g, None, None), Flags(g, finished), |g.states|) + {state}
  {
    forall v | 0 <= v < |g.states|
      ensures Row(g.edges, None, Some(state), v) == if v == state then [] else Row(g.edges, None, None, v)
    {
      RemovedRow(g.edges, state, v);
    }
  }

  lemma {:induction false} RemovedRow<A>(edges: seq<Arc<A>>, state: nat, v: nat)
    ensures Outgoing(edges, Some(state), v) == if v == state then [] else Outgoing(edges, None, v)
  {
    if edges != [] {
      RemovedRow(edges[..|edges| - 1], state, v);
    }
  }
}
