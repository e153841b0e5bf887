/** Strongly connected components by depth-first search with low links.
    The search object is updated in place; its invariants are stated on value snapshots,
    so every step of the argument is a lemma about immutable data. */
module StrongComponents {
  import opened Digraph
  import opened CompressedRows
  import opened Arithmetic
  import opened Counting

  const UNSEEN: nat := USIZE_MAX
  /** State identifiers are 32-bit, so a graph has at most this many vertices. */
  const MAX_STATES: nat := 0x1_0000_0000

  datatype SccResult = SccResult(componentOf: seq<nat>, sizes: seq<nat>)

  /** The fields of the search object at one moment, low links apart. */
  datatype Marks = Marks(next: nat, indices: seq<nat>, stack: seq<nat>, onStack: seq<bool>,
                         comp: seq<nat>, sizes: seq<nat>)

  datatype Snapshot = Snapshot(m: Marks, low: seq<nat>)

  predicate Seen(m: Marks, v: nat) { v < |m.indices| && m.indices[v] != UNSEEN }

  predicate Assigned(m: Marks, v: nat) { v < |m.comp| && m.comp[v] != UNSEEN }

  ghost function SeenSet(m: Marks): set<nat> { set v | 0 <= v < |m.indices| && m.indices[v] != UNSEEN }

  ghost function UnseenSet(m: Marks): set<nat> { set v | 0 <= v < |m.indices| && m.indices[v] == UNSEEN }

  ghost function AssignedSet(m: Marks): set<nat> { set v | 0 <= v < |m.comp| && m.comp[v] != UNSEEN }

  ghost function Members(comp: seq<nat>, c: nat): set<nat> { set v | 0 <= v < |comp| && comp[v] == c }

  // ----- The invariant, in parts -----

  ghost predicate Shaped(adj: Adjacency, m: Marks) {
    && WellFormed(adj)
    && |adj| == |m.indices| == |m.onStack| == |m.comp| <= MAX_STATES
    && m.next == |SeenSet(m)|
    && |m.sizes| <= |AssignedSet(m)|
  }

  /** The stack holds the seen, unassigned vertices in order of discovery. */
  ghost predicate StackInOrder(m: Marks)
    requires |m.indices| == |m.onStack| == |m.comp|
  {
    && (forall i :: 0 <= i < |m.stack| ==> Seen(m, m.stack[i]))
    && (forall i, j :: 0 <= i < j < |m.stack| ==> m.indices[m.stack[i]] < m.indices[m.stack[j]])
    && (forall v: nat :: Seen(m, v) ==> m.indices[v] < m.next)
    && (forall v: nat :: v < |m.onStack| ==> (m.onStack[v] <==> v in m.stack))
    && (forall v: nat :: v < |m.comp| ==> (Assigned(m, v) <==> Seen(m, v) && v !in m.stack))
  }

  /** Assigned vertices lead only to assigned vertices, of the same or an earlier component. */
  ghost predicate AssignedClosed(adj: Adjacency, m: Marks)
    requires |adj| == |m.comp|
  {
    forall x: nat, y: nat :: Assigned(m, x) && Edge(adj, x, y) ==> Assigned(m, y) && m.comp[y] <= m.comp[x]
  }

  /** Assigned vertices share a component exactly when each reaches the other. */
  ghost predicate ComponentsExact(adj: Adjacency, m: Marks) {
    && (forall v: nat :: Assigned(m, v) ==> m.comp[v] < |m.sizes|)
    && (forall x: nat, y: nat :: Assigned(m, x) && Assigned(m, y) ==> (m.comp[x] == m.comp[y] <==> Mutual(adj, x, y)))
    && (forall c :: 0 <= c < |m.sizes| ==> m.sizes[c] == |Members(m.comp, c)| > 0)
  }

  /** A vertex whose visit has returned has only seen successors. */
  ghost predicate FinishedScanned(adj: Adjacency, active: set<nat>, m: Marks) {
    forall x: nat, y: nat :: Seen(m, x) && x !in active && Edge(adj, x, y) ==> Seen(m, y)
  }

  ghost predicate StackChain(adj: Adjacency, m: Marks) {
    forall i, j :: 0 <= i <= j < |m.stack| ==> Reach(adj, m.stack[i], m.stack[j])
  }

  lemma ChainAt(adj: Adjacency, m: Marks, i: nat, j: nat)
    requires StackChain(adj, m) && i <= j < |m.stack|
    ensures Reach(adj, m.stack[i], m.stack[j])
  {
  }

  /** `v` leads back to a vertex whose visit is still running and which is no younger. */
  ghost predicate Anchored(adj: Adjacency, active: set<nat>, m: Marks, v: nat)
    requires Seen(m, v)
  {
    exists g :: g in active && Seen(m, g) && m.indices[g] <= m.indices[v] && Reach(adj, v, g)
  }

  lemma GetAnchor(adj: Adjacency, active: set<nat>, m: Marks, v: nat) returns (g: nat)
    requires Seen(m, v) && Anchored(adj, active, m, v)
    ensures g in active && Seen(m, g) && m.indices[g] <= m.indices[v] && Reach(adj, v, g)
  {
    g :| g in active && Seen(m, g) && m.indices[g] <= m.indices[v] && Reach(adj, v, g);
  }

  lemma SetAnchor(adj: Adjacency, active: set<nat>, m: Marks, v: nat, g: nat)
    requires g in active && Seen(m, g) && Seen(m, v) && m.indices[g] <= m.indices[v] && Reach(adj, v, g)
    ensures Anchored(adj, active, m, v)
  {
  }

  ghost predicate AllAnchored(adj: Adjacency, active: set<nat>, m: Marks) {
    && (forall g :: g in active ==> g in m.stack)
    && (forall v :: v in m.stack ==> Seen(m, v) && Anchored(adj, active, m, v))
  }

  /** Invariant of the whole search; `active` are the vertices whose visit is running. */
  ghost predicate Consistent(adj: Adjacency, active: set<nat>, m: Marks) {
    && Shaped(adj, m)
    && StackInOrder(m)
    && AssignedClosed(adj, m)
    && ComponentsExact(adj, m)
    && FinishedScanned(adj, active, m)
    && StackChain(adj, m)
    && AllAnchored(adj, active, m)
  }

  /** Nothing recorded in `s` is lost or altered in `t`. */
  ghost predicate Extends(s: Snapshot, t: Snapshot) {
    && s.m.stack <= t.m.stack
    && s.m.sizes <= t.m.sizes
    && s.m.next <= t.m.next
    && |s.m.indices| == |t.m.indices| == |s.low| == |t.low| && |s.m.comp| == |t.m.comp|
    && (forall v: nat :: Seen(s.m, v) ==> t.m.indices[v] == s.m.indices[v] && t.low[v] == s.low[v])
    && (forall v: nat :: v < |s.m.indices| && !Seen(s.m, v) && Seen(t.m, v) ==> s.m.next <= t.m.indices[v])
    && (forall v: nat :: Assigned(s.m, v) ==> t.m.comp[v] == s.m.comp[v])
  }

  /** Some stacked vertex that `v` reaches has index `link`. */
  ghost predicate LowWitnessed(adj: Adjacency, m: Marks, v: nat, link: nat) {
    exists y :: y in m.stack && Seen(m, y) && m.indices[y] == link && Reach(adj, v, y)
  }

  /** Stack entries from position `from` on have no edge to an entry of `base` with an index below `link`. */
  ghost predicate LowCovers(adj: Adjacency, base: seq<nat>, m: Marks, from: nat, link: nat) {
    forall i, y :: from <= i < |m.stack| && y in base && Seen(m, y) && Edge(adj, m.stack[i], y)
      ==> link <= m.indices[y]
  }

  /** What one returned visit of `v`, started in `s`, guarantees about `t`. */
  ghost predicate Visited(adj: Adjacency, active: set<nat>, s: Snapshot, t: Snapshot, v: nat) {
    && Consistent(adj, active, t.m)
    && Extends(s, t)
    && Seen(t.m, v)
    && t.low[v] <= t.m.indices[v]
    && (v in t.m.stack ==> LowWitnessed(adj, t.m, v, t.low[v]))
    && (v !in t.m.stack ==> t.low[v] == t.m.indices[v])
    && LowCovers(adj, s.m.stack, t.m, |s.m.stack|, t.low[v])
  }

  /** The first `k` successors of `v` are seen, and those on the stack `base` bound the link. */
  ghost predicate Scanned(succ: seq<nat>, base: seq<nat>, m: Marks, k: nat, link: nat) {
    forall j :: 0 <= j < k && j < |succ| ==> Seen(m, succ[j]) && (succ[j] in base ==> link <= m.indices[succ[j]])
  }

  /** The state of the visit of `v` (started in `s`) after its first `k` successors. */
  ghost predicate Scanning(adj: Adjacency, active: set<nat>, s: Snapshot, t: Snapshot, v: nat, k: nat) {
    && Consistent(adj, active, s.m)
    && Consistent(adj, active + {v}, t.m)
    && Extends(s, t)
    && v < |adj| && !Seen(s.m, v) && k <= |adj[v]|
    && s.m.stack + [v] <= t.m.stack
    && v < |t.m.indices| && t.m.indices[v] == s.m.next < UNSEEN
    && t.low[v] <= t.m.indices[v]
    && LowWitnessed(adj, t.m, v, t.low[v])
    && LowCovers(adj, s.m.stack, t.m, |s.m.stack| + 1, t.low[v])
    && Scanned(adj[v], s.m.stack, t.m, k, t.low[v])
  }

  // ----- Entering a vertex -----

  function EnteredMarks(m: Marks, v: nat): Marks
    requires v < |m.indices| == |m.onStack|
  {
    m.(indices := m.indices[v := m.next], next := m.next + 1, stack := m.stack + [v], onStack := m.onStack[v := true])
  }

  function Entered(s: Snapshot, v: nat): Snapshot
    requires v < |s.m.indices| == |s.low| == |s.m.onStack|
  {
    Snapshot(EnteredMarks(s.m, v), s.low[v := s.m.next])
  }

  lemma CountsFit(adj: Adjacency, m: Marks)
    requires Shaped(adj, m)
    ensures m.next <= |adj| && |m.sizes| <= |adj|
    ensures (exists v: nat :: v < |adj| && !Seen(m, v)) ==> m.next < |adj|
    ensures (exists v: nat :: v < |adj| && !Assigned(m, v)) ==> |m.sizes| < |adj|
  {
    SubsetSize(SeenSet(m), Below(|adj|));
    SubsetSize(AssignedSet(m), Below(|adj|));
    forall v: nat | v < |adj|
      ensures v in Below(|adj|) && (v in SeenSet(m) <==> Seen(m, v)) && (v in AssignedSet(m) <==> Assigned(m, v))
    {
    }
  }

  lemma EnterShaped(adj: Adjacency, s: Snapshot, v: nat)
    requires Shaped(adj, s.m) && StackInOrder(s.m) && v < |adj| == |s.low| && !Seen(s.m, v)
    ensures Shaped(adj, Entered(s, v).m) && StackInOrder(Entered(s, v).m) && Extends(s, Entered(s, v))
  {
    CountsFit(adj, s.m);
    var t := Entered(s, v).m;
    hide WellFormed;
    assert SeenSet(t) == SeenSet(s.m) + {v};
    assert AssignedSet(t) == AssignedSet(s.m);
    forall u: nat | u < |t.onStack|
      ensures t.onStack[u] <==> u in t.stack
    {
      assert u in t.stack <==> u in s.m.stack || u == v;
    }
  }

  lemma EnterChain(adj: Adjacency, active: set<nat>, m: Marks, v: nat)
    requires v < |adj| == |m.indices| == |m.onStack|
    requires StackChain(adj, m) && AllAnchored(adj, active, m)
    requires forall g :: g in active ==> Reach(adj, g, v)
    ensures StackChain(adj, EnteredMarks(m, v))
  {
    hide Digraph.Reach, Anchored;
    ReachSelf(adj, v);
    forall i | 0 <= i < |m.stack|
      ensures Reach(adj, m.stack[i], v)
    {
      var u := m.stack[i];
      assert u in m.stack;
      var g := GetAnchor(adj, active, m, u);
      ReachTrans(adj, u, g, v);
    }
  }

  lemma EnterAnchored(adj: Adjacency, active: set<nat>, m: Marks, v: nat)
    requires v < |adj| == |m.indices| == |m.onStack| && !Seen(m, v) && m.next < UNSEEN
    requires AllAnchored(adj, active, m)
    ensures AllAnchored(adj, active + {v}, EnteredMarks(m, v))
  {
    hide Digraph.Reach, Anchored;
    var t := EnteredMarks(m, v);
    forall u | u in t.stack
      ensures Seen(t, u) && Anchored(adj, active + {v}, t, u)
    {
      if u == v {
        ReachSelf(adj, v);
        SetAnchor(adj, active + {v}, t, v, v);
      } else {
        var g := GetAnchor(adj, active, m, u);
        SetAnchor(adj, active + {v}, t, u, g);
      }
    }
  }

  /** Entering an unseen vertex reached from every active one starts its scan. */
  lemma EnterScan(adj: Adjacency, active: set<nat>, s: Snapshot, v: nat)
    requires Consistent(adj, active, s.m) && v < |adj| == |s.low| && !Seen(s.m, v)
    requires forall g :: g in active ==> Reach(adj, g, v)
    ensures Scanning(adj, active, s, Entered(s, v), v, 0)
  {
    hide Digraph.Reach, Anchored;
    var t := Entered(s, v);
    EnterShaped(adj, s, v);
    CountsFit(adj, s.m);
    EnterChain(adj, active, s.m, v);
    EnterAnchored(adj, active, s.m, v);
    assert LowWitnessed(adj, t.m, v, t.low[v]) by {
      ReachSelf(adj, v);
      assert v in t.m.stack && Seen(t.m, v);
    }
  }

  // ----- Scanning the successors -----

  /** A successor on the stack pulls the low link down to its index. */
  lemma ScanStacked(adj: Adjacency, active: set<nat>, s: Snapshot, t: Snapshot, v: nat, k: nat)
    requires Scanning(adj, active, s, t, v, k) && k < |adj[v]|
    requires Seen(t.m, adj[v][k]) && adj[v][k] in t.m.stack && adj[v][k] < |adj|
    ensures Scanning(adj, active, s, t.(low := t.low[v := Min(t.low[v], t.m.indices[adj[v][k]])]), v, k + 1)
  {
    hide Digraph.Reach, Consistent;
    ReachEdge(adj, v, adj[v][k]);
  }

  /** A successor already assigned to a component changes nothing. */
  lemma ScanAssigned(adj: Adjacency, active: set<nat>, s: Snapshot, t: Snapshot, v: nat, k: nat)
    requires Scanning(adj, active, s, t, v, k) && k < |adj[v]|
    requires Seen(t.m, adj[v][k]) && adj[v][k] !in t.m.stack
    ensures Scanning(adj, active, s, t, v, k + 1)
  {
    hide Digraph.Reach, Consistent;
    assert s.m.stack <= t.m.stack;
  }

  /** Vertices whose visit is running reach the next successor to be visited. */
  lemma ActiveReachNext(adj: Adjacency, active: set<nat>, s: Snapshot, t: Snapshot, v: nat, k: nat, g: nat)
    requires Scanning(adj, active, s, t, v, k) && k < |adj[v]| && g in active + {v}
    ensures Reach(adj, g, adj[v][k])
  {
    hide Digraph.Reach, ComponentsExact, AssignedClosed, FinishedScanned, LowWitnessed, LowCovers, Anchored, StackInOrder, Extends, Scanned, StackChain;
    assert t.m.stack[|s.m.stack|] == v;
    assert Edge(adj, v, adj[v][k]);
    ReachEdge(adj, v, adj[v][k]);
    if g != v {
      assert g in s.m.stack;
      var i :| 0 <= i < |s.m.stack| && s.m.stack[i] == g;
      assert t.m.stack[i] == g;
      ChainAt(adj, t.m, i, |s.m.stack|);
      ReachTrans(adj, g, v, adj[v][k]);
    }
  }

  lemma ExtendsTrans(s: Snapshot, t: Snapshot, u: Snapshot)
    requires Extends(s, t) && Extends(t, u)
    ensures Extends(s, u)
  {
  }

  /** The smaller of the two low links after a recursive visit still names a stacked vertex `v` reaches. */
  lemma VisitedLow(adj: Adjacency, s: Snapshot, t: Snapshot, u: Snapshot, v: nat, w: nat)
    requires Edge(adj, v, w) && w < |adj| && v < |t.low|
    requires Extends(t, u) && Seen(t.m, v) && t.m.indices[v] < t.m.next && t.low[v] <= t.m.indices[v]
    requires LowWitnessed(adj, t.m, v, t.low[v])
    requires !Seen(t.m, w) && Seen(u.m, w) && w < |u.low|
    requires w in u.m.stack ==> LowWitnessed(adj, u.m, w, u.low[w])
    requires w !in u.m.stack ==> u.low[w] == u.m.indices[w]
    ensures LowWitnessed(adj, u.m, v, Min(u.low[v], u.low[w]))
  {
    hide Digraph.Reach, Edge;
    if w in u.m.stack && u.low[w] < u.low[v] {
      var y :| y in u.m.stack && Seen(u.m, y) && u.m.indices[y] == u.low[w] && Reach(adj, w, y);
      ReachEdge(adj, v, w);
      ReachTrans(adj, v, w, y);
    } else {
      var y :| y in t.m.stack && Seen(t.m, y) && t.m.indices[y] == t.low[v] && Reach(adj, v, y);
      assert y in u.m.stack && Seen(u.m, y) && u.m.indices[y] == t.low[v];
    }
  }

  lemma VisitedCovers(adj: Adjacency, s: Snapshot, t: Snapshot, u: Snapshot, v: nat, low1: nat, low2: nat)
    requires Extends(s, t) && Extends(t, u)
    requires forall y :: y in s.m.stack ==> Seen(s.m, y)
    requires |s.m.stack| < |t.m.stack|
    requires LowCovers(adj, s.m.stack, t.m, |s.m.stack| + 1, low1)
    requires LowCovers(adj, t.m.stack, u.m, |t.m.stack|, low2)
    ensures LowCovers(adj, s.m.stack, u.m, |s.m.stack| + 1, Min(low1, low2))
  {
    hide Edge;
    forall i, y | |s.m.stack| + 1 <= i < |u.m.stack| && y in s.m.stack && Seen(u.m, y) && Edge(adj, u.m.stack[i], y)
      ensures Min(low1, low2) <= u.m.indices[y]
    {
      assert Seen(s.m, y) && Seen(t.m, y) && y in t.m.stack;
      if i < |t.m.stack| {
        assert t.m.stack[i] == u.m.stack[i];
      }
    }
  }

  lemma ScannedMore(succ: seq<nat>, s: Snapshot, t: Snapshot, u: Snapshot, k: nat, link: nat, less: nat)
    requires Extends(s, t) && Extends(t, u) && k < |succ|
    requires forall y :: y in s.m.stack ==> Seen(s.m, y)
    requires Scanned(succ, s.m.stack, t.m, k, link) && less <= link
    requires !Seen(t.m, succ[k]) && Seen(u.m, succ[k])
    ensures Scanned(succ, s.m.stack, u.m, k + 1, less)
  {
    forall j | 0 <= j < k + 1
      ensures Seen(u.m, succ[j]) && (succ[j] in s.m.stack ==> less <= u.m.indices[succ[j]])
    {
      if j < k {
        assert Seen(t.m, succ[j]);
      } else {
        assert succ[k] !in s.m.stack;
      }
    }
  }

  /** Sizes and membership facts buried in the scanning state. */
  lemma ScanFacts(adj: Adjacency, active: set<nat>, s: Snapshot, t: Snapshot, v: nat, k: nat)
    requires Scanning(adj, active, s, t, v, k)
    ensures |t.low| == |t.m.indices| == |adj| && Seen(t.m, v) && t.m.indices[v] < t.m.next
    ensures forall y :: y in s.m.stack ==> Seen(s.m, y)
    ensures |s.m.stack| < |t.m.stack| && t.m.stack[|s.m.stack|] == v
    ensures forall j :: 0 <= j < |s.m.stack| ==> t.m.stack[j] == s.m.stack[j] && Seen(t.m, t.m.stack[j])
    ensures forall j :: 0 <= j < |t.m.stack| ==> Seen(t.m, t.m.stack[j])
    ensures forall y :: y in s.m.stack ==> Seen(t.m, y) && t.m.indices[y] < t.m.indices[v]
    ensures t.low[v] <= t.m.indices[v]
    ensures forall j :: |s.m.stack| <= j < |t.m.stack| ==> t.m.indices[v] <= t.m.indices[t.m.stack[j]]
  {
    hide Digraph.Reach, Scanned, LowWitnessed, LowCovers, AssignedClosed, ComponentsExact, FinishedScanned, StackChain, AllAnchored, Edge;
  }

  /** After a recursive visit the low link of `v` takes over that of the visited successor. */
  lemma ScanVisited(adj: Adjacency, active: set<nat>, s: Snapshot, t: Snapshot, u: Snapshot, v: nat, k: nat)
    requires Scanning(adj, active, s, t, v, k) && k < |adj[v]| && adj[v][k] < |adj|
    requires !Seen(t.m, adj[v][k]) && Visited(adj, active + {v}, t, u, adj[v][k])
    ensures v < |u.low| && adj[v][k] < |u.low|
    ensures Scanning(adj, active, s, u.(low := u.low[v := Min(u.low[v], u.low[adj[v][k]])]), v, k + 1)
  {
    hide Digraph.Reach, Scanned, LowWitnessed, LowCovers, Consistent;
    var w := adj[v][k];
    ScanFacts(adj, active, s, t, v, k);
    assert u.low[v] == t.low[v] && u.m.indices[v] == t.m.indices[v];
    VisitedLow(adj, s, t, u, v, w);
    VisitedCovers(adj, s, t, u, v, t.low[v], u.low[w]);
    ScannedMore(adj[v], s, t, u, k, t.low[v], Min(u.low[v], u.low[w]));
    ExtendsTrans(s, t, u);
    assert t.m.stack[..|s.m.stack| + 1] == s.m.stack + [v];
  }

  // ----- Leaving a vertex that stays on the stack -----

  lemma AnchorBelow(adj: Adjacency, active: set<nat>, m: Marks, v: nat, link: nat)
    requires AllAnchored(adj, active + {v}, m) && Seen(m, v)
    requires LowWitnessed(adj, m, v, link) && link < m.indices[v]
    ensures AllAnchored(adj, active, m)
  {
    hide Digraph.Reach, Anchored;
    var y :| y in m.stack && Seen(m, y) && m.indices[y] == link && Reach(adj, v, y);
    var h := GetAnchor(adj, active + {v}, m, y);
    ReachTrans(adj, v, y, h);
    forall u | u in m.stack
      ensures Seen(m, u) && Anchored(adj, active, m, u)
    {
      var g := GetAnchor(adj, active + {v}, m, u);
      if g == v {
        ReachTrans(adj, u, v, h);
        SetAnchor(adj, active, m, u, h);
      } else {
        SetAnchor(adj, active, m, u, g);
      }
    }
  }

  lemma FinishScan(adj: Adjacency, active: set<nat>, base: seq<nat>, m: Marks, v: nat, link: nat)
    requires v < |adj| && FinishedScanned(adj, active + {v}, m) && Scanned(adj[v], base, m, |adj[v]|, link)
    ensures FinishedScanned(adj, active, m)
    ensures LowCovers(adj, base, m, |base| + 1, link) && |base| < |m.stack| && m.stack[|base|] == v ==> LowCovers(adj, base, m, |base|, link)
  {
    forall y: nat | Edge(adj, v, y)
      ensures Seen(m, y) && (y in base ==> link <= m.indices[y])
    {
      var j :| 0 <= j < |adj[v]| && adj[v][j] == y;
    }
    hide Edge;
    if LowCovers(adj, base, m, |base| + 1, link) && |base| < |m.stack| && m.stack[|base|] == v {
      forall i, y | |base| <= i < |m.stack| && y in base && Seen(m, y) && Edge(adj, m.stack[i], y)
        ensures link <= m.indices[y]
      {
      }
    }
  }

  /** A low link below the index leaves `v` on the stack, anchored further down. */
  lemma LeaveStacked(adj: Adjacency, active: set<nat>, s: Snapshot, t: Snapshot, v: nat)
    requires v < |adj| && Scanning(adj, active, s, t, v, |adj[v]|) && t.low[v] < t.m.indices[v]
    ensures Visited(adj, active, s, t, v)
  {
    hide Digraph.Reach, Scanned, LowWitnessed, LowCovers, AssignedClosed, ComponentsExact, FinishedScanned, StackChain, Anchored;
    assert Seen(t.m, v) && t.m.stack[|s.m.stack|] == v;
    AnchorBelow(adj, active, t.m, v, t.low[v]);
    FinishScan(adj, active, s.m.stack, t.m, v, t.low[v]);
  }

  // ----- Closing a component -----

  /** `r` is `m` after popping every stack entry from position `from` into the next component. */
  ghost predicate Popped(m: Marks, r: Marks, from: nat) {
    && from <= |m.stack|
    && r.stack == m.stack[..from]
    && r.next == m.next && r.indices == m.indices && r.sizes == m.sizes
    && |r.onStack| == |m.onStack| && |r.comp| == |m.comp|
    && (forall v: nat :: v < |r.onStack| ==> r.onStack[v] == (m.onStack[v] && v !in m.stack[from..]))
    && (forall v: nat :: v < |r.comp| ==> r.comp[v] == if v in m.stack[from..] then |m.sizes| else m.comp[v])
  }

  lemma PopStart(m: Marks)
    requires |m.indices| == |m.onStack| == |m.comp|
    ensures Popped(m, m, |m.stack|)
  {
    assert m.stack[..|m.stack|] == m.stack && m.stack[|m.stack|..] == [];
  }

  lemma PopOne(m: Marks, r: Marks, i: nat, from: nat)
    requires |m.indices| == |m.onStack| == |m.comp| && StackInOrder(m) && from <= i < |m.stack|
    requires Popped(m, r, i + 1)
    ensures |r.stack| == i + 1 && r.sizes == m.sizes && r.stack[i] == m.stack[i] < |r.onStack| == |r.comp|
    ensures var member := r.stack[i];
      Popped(m, r.(stack := r.stack[..i], onStack := r.onStack[member := false], comp := r.comp[member := |m.sizes|]), i)
    ensures m.stack[i] == m.stack[from] <==> i == from
  {
    assert Seen(m, m.stack[i]);
    assert m.stack[i..] == [m.stack[i]] + m.stack[i + 1..];
    assert m.stack[..i + 1][..i] == m.stack[..i];
  }

  /** Nothing leads out of the popped vertices except to vertices already assigned. */
  lemma NoEscape(adj: Adjacency, active: set<nat>, s: Snapshot, t: Snapshot, v: nat, x: nat, y: nat)
    requires v < |adj| && Scanning(adj, active, s, t, v, |adj[v]|) && t.low[v] == t.m.indices[v]
    requires x in t.m.stack[|s.m.stack|..] && Edge(adj, x, y)
    ensures y in t.m.stack[|s.m.stack|..] || Assigned(t.m, y)
  {
    hide Digraph.Reach, Mutual, LowWitnessed, AssignedClosed, ComponentsExact, StackChain, Anchored;
    ScanFacts(adj, active, s, t, v, |adj[v]|);
    FinishScan(adj, active, s.m.stack, t.m, v, t.low[v]);
    var i :| |s.m.stack| <= i < |t.m.stack| && t.m.stack[i] == x;
    assert x !in active;
    assert Seen(t.m, y);
    if y in t.m.stack {
      var j :| 0 <= j < |t.m.stack| && t.m.stack[j] == y;
      if j >= |s.m.stack| {
        assert t.m.stack[|s.m.stack|..][j - |s.m.stack|] == y;
      }
    }
  }

  /** The vertices from `v` upwards on the stack lead back to `v`. */
  lemma BackToRoot(adj: Adjacency, active: set<nat>, s: Snapshot, t: Snapshot, v: nat, x: nat)
    requires v < |adj| && Scanning(adj, active, s, t, v, |adj[v]|) && x in t.m.stack[|s.m.stack|..]
    ensures Mutual(adj, v, x)
  {
    hide Digraph.Reach, LowWitnessed, LowCovers, Scanned, AssignedClosed, ComponentsExact, FinishedScanned, Anchored, StackChain, StackInOrder, Extends, WellFormed;
    ScanFacts(adj, active, s, t, v, |adj[v]|);
    var n := |s.m.stack|;
    var i :| n <= i < |t.m.stack| && t.m.stack[i] == x;
    ChainAt(adj, t.m, n, i);
    assert x in t.m.stack;
    var g := GetAnchor(adj, active + {v}, t.m, x);
    if g != v {
      assert g in s.m.stack;
      var j :| 0 <= j < n && s.m.stack[j] == g;
      assert t.m.stack[j] == g;
      ChainAt(adj, t.m, j, n);
      ReachTrans(adj, x, g, v);
    }
  }

  /** Every vertex mutually reachable with the root is among the popped ones. */
  lemma ComponentInside(adj: Adjacency, active: set<nat>, s: Snapshot, t: Snapshot, v: nat, w: nat)
    requires v < |adj| && Scanning(adj, active, s, t, v, |adj[v]|) && t.low[v] == t.m.indices[v]
    requires Mutual(adj, v, w)
    ensures w in t.m.stack[|s.m.stack|..]
  {
    hide Digraph.Reach, LowWitnessed, LowCovers, Scanned, ComponentsExact, FinishedScanned, AllAnchored, StackChain;
    ScanFacts(adj, active, s, t, v, |adj[v]|);
    var popped := set x | x in t.m.stack[|s.m.stack|..];
    var done := AssignedSet(t.m);
    forall x, y | x in popped + done && Edge(adj, x, y)
      ensures y in popped + done
    {
      if x in popped {
        NoEscape(adj, active, s, t, v, x, y);
      }
    }
    assert v in popped;
    ClosedUnderReach(adj, popped + done, v, w);
    assert v in t.m.stack;
    if w in done {
      ClosedUnderReach(adj, done, w, v);
    }
  }

  /** The marks after the popped vertices became the component numbered `|m.sizes|`. */
  ghost predicate Closed(m: Marks, r: Marks, from: nat) {
    && from < |m.stack|
    && r.sizes == m.sizes + [|m.stack| - from]
    && Popped(m, r.(sizes := m.sizes), from)
  }

  lemma ClosedShaped(adj: Adjacency, m: Marks, r: Marks, from: nat)
    requires Shaped(adj, m) && StackInOrder(m) && Closed(m, r, from)
    ensures Shaped(adj, r) && StackInOrder(r)
    ensures forall x: nat :: Assigned(r, x) <==> Assigned(m, x) || x in m.stack[from..]
    ensures |m.sizes| < UNSEEN
  {
    hide WellFormed;
    var x := m.stack[from];
    assert x in m.stack[from..] && x in m.stack;
    assert !Assigned(m, x) && x < |adj|;
    CountsFit(adj, m);
    assert SeenSet(r) == SeenSet(m);
    forall y: nat
      ensures Assigned(r, y) <==> Assigned(m, y) || y in m.stack[from..]
      ensures y in m.stack <==> y in r.stack || y in m.stack[from..]
      ensures !(y in r.stack && y in m.stack[from..])
    {
      StackSplit(m, from, y);
    }
    assert AssignedSet(m) + {x} <= AssignedSet(r);
    SubsetSize(AssignedSet(m) + {x}, AssignedSet(r));
  }

  lemma StackSplit(m: Marks, from: nat, y: nat)
    requires |m.indices| == |m.onStack| == |m.comp| && StackInOrder(m) && from <= |m.stack|
    ensures y in m.stack <==> y in m.stack[..from] || y in m.stack[from..]
    ensures !(y in m.stack[..from] && y in m.stack[from..])
  {
    assert m.stack == m.stack[..from] + m.stack[from..];
    if y in m.stack[..from] && y in m.stack[from..] {
      Younger(m, from, y, y);
    }
  }

  lemma Younger(m: Marks, from: nat, y: nat, z: nat)
    requires |m.indices| == |m.onStack| == |m.comp| && StackInOrder(m) && from <= |m.stack|
    requires y in m.stack[..from] && z in m.stack[from..] && Seen(m, y) && Seen(m, z)
    ensures m.indices[y] < m.indices[z]
  {
    var i :| 0 <= i < from && m.stack[i] == y;
    var j :| from <= j < |m.stack| && m.stack[j] == z;
  }

  lemma OldMembers(adj: Adjacency, m: Marks, r: Marks, from: nat, c: nat)
    requires Shaped(adj, m) && StackInOrder(m) && Closed(m, r, from) && c < |m.sizes|
    ensures Members(r.comp, c) == Members(m.comp, c)
  {
    hide WellFormed;
    CountsFit(adj, m);
    forall x: nat
      ensures x in Members(r.comp, c) <==> x in Members(m.comp, c)
    {
      if x in m.stack[from..] {
        assert x in m.stack;
      }
    }
  }

  lemma NewMembers(adj: Adjacency, m: Marks, r: Marks, from: nat)
    requires Shaped(adj, m) && StackInOrder(m) && ComponentsExact(adj, m) && Closed(m, r, from)
    ensures |Members(r.comp, |m.sizes|)| == |m.stack| - from
  {
    hide Mutual, WellFormed;
    ClosedShaped(adj, m, r, from);
    var popped := m.stack[from..];
    forall x: nat
      ensures x in Members(r.comp, |m.sizes|) <==> x in popped
    {
      if x in popped {
        assert x in m.stack && Seen(m, x);
      } else if x < |m.comp| {
        assert m.comp[x] == |m.sizes| ==> Assigned(m, x);
      }
    }
    forall i, j | 0 <= i < j < |popped|
      ensures popped[i] != popped[j]
    {
      assert m.indices[m.stack[from + i]] < m.indices[m.stack[from + j]];
    }
    DistinctSize(popped);
    assert Members(r.comp, |m.sizes|) == Elements(popped);
  }

  /** The popped vertices form exactly one strongly connected component. */
  lemma ClosedExact(adj: Adjacency, active: set<nat>, s: Snapshot, t: Snapshot, v: nat, r: Marks)
    requires v < |adj| && Scanning(adj, active, s, t, v, |adj[v]|) && t.low[v] == t.m.indices[v]
    requires Closed(t.m, r, |s.m.stack|)
    ensures AssignedClosed(adj, r) && ComponentsExact(adj, r)
  {
    hide Scanning, Closed, Mutual, Edge;
    ClosedRange(adj, active, s, t, v, r);
    ClosedSizes(adj, active, s, t, v, r);
    forall x: nat, y: nat | Assigned(r, x) && Edge(adj, x, y)
      ensures Assigned(r, y) && r.comp[y] <= r.comp[x]
    {
      ClosedEdge(adj, active, s, t, v, r, x, y);
    }
    forall x: nat, y: nat | Assigned(r, x) && Assigned(r, y)
      ensures r.comp[x] == r.comp[y] <==> Mutual(adj, x, y)
    {
      SameComponent(adj, active, s, t, v, r, x, y);
    }
  }

  /** Component numbers stay below the number of sizes. */
  lemma ClosedRange(adj: Adjacency, active: set<nat>, s: Snapshot, t: Snapshot, v: nat, r: Marks)
    requires v < |adj| && Scanning(adj, active, s, t, v, |adj[v]|) && t.low[v] == t.m.indices[v]
    requires Closed(t.m, r, |s.m.stack|)
    ensures |r.comp| == |adj|
    ensures forall x: nat :: Assigned(r, x) ==> r.comp[x] < |r.sizes|
  {
    hide Digraph.Reach, LowWitnessed, LowCovers, Scanned, FinishedScanned, AllAnchored, StackChain, Extends, Edge, WellFormed, AssignedClosed, Mutual, Members;
    ClosedShaped(adj, t.m, r, |s.m.stack|);
  }

  /** The recorded sizes, old and new, are those of the components. */
  lemma ClosedSizes(adj: Adjacency, active: set<nat>, s: Snapshot, t: Snapshot, v: nat, r: Marks)
    requires v < |adj| && Scanning(adj, active, s, t, v, |adj[v]|) && t.low[v] == t.m.indices[v]
    requires Closed(t.m, r, |s.m.stack|)
    ensures forall c :: 0 <= c < |r.sizes| ==> r.sizes[c] == |Members(r.comp, c)| > 0
  {
    hide Digraph.Reach, LowWitnessed, LowCovers, Scanned, FinishedScanned, AllAnchored, StackChain, Extends, Edge, WellFormed, AssignedClosed, Mutual;
    var n := |s.m.stack|;
    NewMembers(adj, t.m, r, n);
    forall c | 0 <= c < |r.sizes|
      ensures r.sizes[c] == |Members(r.comp, c)| > 0
    {
      if c < |t.m.sizes| {
        OldMembers(adj, t.m, r, n, c);
      }
    }
  }

  /** An edge from an assigned vertex leads to one of the same or an earlier component. */
  lemma ClosedEdge(adj: Adjacency, active: set<nat>, s: Snapshot, t: Snapshot, v: nat, r: Marks, x: nat, y: nat)
    requires v < |adj| && Scanning(adj, active, s, t, v, |adj[v]|) && t.low[v] == t.m.indices[v]
    requires Closed(t.m, r, |s.m.stack|) && Assigned(r, x) && Edge(adj, x, y)
    ensures Assigned(r, y) && r.comp[y] <= r.comp[x]
  {
    hide Digraph.Reach, LowWitnessed, LowCovers, Scanned, FinishedScanned, AllAnchored, StackChain, Extends, Edge, WellFormed;
    var n := |s.m.stack|;
    ClosedShaped(adj, t.m, r, n);
    if x in t.m.stack[n..] {
      NoEscape(adj, active, s, t, v, x, y);
    }
  }

  lemma SameComponent(adj: Adjacency, active: set<nat>, s: Snapshot, t: Snapshot, v: nat, r: Marks, x: nat, y: nat)
    requires v < |adj| && Scanning(adj, active, s, t, v, |adj[v]|) && t.low[v] == t.m.indices[v]
    requires Closed(t.m, r, |s.m.stack|) && Assigned(r, x) && Assigned(r, y)
    ensures r.comp[x] == r.comp[y] <==> Mutual(adj, x, y)
  {
    hide Digraph.Reach, LowWitnessed, LowCovers, Scanned, FinishedScanned, AllAnchored, StackChain, Extends, Edge, WellFormed, AssignedClosed;
    var n := |s.m.stack|;
    var popped := t.m.stack[n..];
    ClosedShaped(adj, t.m, r, n);
    if x in popped {
      BackToRoot(adj, active, s, t, v, x);
      if y in popped {
        BackToRoot(adj, active, s, t, v, y);
        MutualTrans(adj, x, v, y);
      } else if Mutual(adj, x, y) {
        MutualTrans(adj, v, x, y);
        ComponentInside(adj, active, s, t, v, y);
      }
    } else if y in popped {
      BackToRoot(adj, active, s, t, v, y);
      if Mutual(adj, x, y) {
        MutualTrans(adj, v, y, x);
        ComponentInside(adj, active, s, t, v, x);
      }
    }
  }

  lemma MutualTrans(adj: Adjacency, x: nat, y: nat, z: nat)
    requires Mutual(adj, x, y) || Mutual(adj, y, x)
    requires Mutual(adj, y, z) || Mutual(adj, z, y)
    ensures Mutual(adj, x, z)
  {
    hide Digraph.Reach;
    ReachTrans(adj, x, y, z);
    ReachTrans(adj, z, y, x);
  }

  lemma ClosedAnchored(adj: Adjacency, active: set<nat>, m: Marks, r: Marks, from: nat, v: nat)
    requires Shaped(adj, m) && StackInOrder(m) && AllAnchored(adj, active + {v}, m) && StackChain(adj, m) && Closed(m, r, from)
    requires m.stack[from] == v && forall g :: g in active ==> g in m.stack[..from]
    ensures AllAnchored(adj, active, r) && StackChain(adj, r)
  {
    hide Digraph.Reach, Anchored, Shaped;
    forall u | u in r.stack
      ensures Seen(r, u) && Anchored(adj, active, r, u)
    {
      var i :| 0 <= i < from && m.stack[i] == u;
      assert u in m.stack;
      var g := GetAnchor(adj, active + {v}, m, u);
      assert m.indices[m.stack[i]] < m.indices[m.stack[from]];
      SetAnchor(adj, active, r, u, g);
    }
  }

  /** A low link equal to the index closes the component rooted at `v`. */
  lemma LeaveClosed(adj: Adjacency, active: set<nat>, s: Snapshot, t: Snapshot, v: nat, r: Marks)
    requires v < |adj| && Scanning(adj, active, s, t, v, |adj[v]|) && t.low[v] == t.m.indices[v]
    requires Closed(t.m, r, |s.m.stack|)
    ensures Visited(adj, active, s, Snapshot(r, t.low), v)
  {
    hide Digraph.Reach, LowWitnessed, Scanned, AssignedClosed, ComponentsExact, FinishedScanned, Anchored, StackChain, Edge, WellFormed;
    var n := |s.m.stack|;
    ScanFacts(adj, active, s, t, v, |adj[v]|);
    ClosedShaped(adj, t.m, r, n);
    ClosedExact(adj, active, s, t, v, r);
    assert t.m.stack[..n] == s.m.stack;
    ClosedAnchored(adj, active, t.m, r, n, v);
    FinishScan(adj, active, s.m.stack, t.m, v, t.low[v]);
    assert FinishedScanned(adj, active, r) by {
      SameSeen(adj, active, t.m, r);
    }
    StackSplit(t.m, n, v);
    assert v in t.m.stack[n..];
    ClosedExtends(s, t, r, n);
  }

  lemma SameSeen(adj: Adjacency, active: set<nat>, m: Marks, r: Marks)
    requires FinishedScanned(adj, active, m) && r.indices == m.indices
    ensures FinishedScanned(adj, active, r)
  {
    hide Edge;
    assert forall x: nat :: Seen(r, x) <==> Seen(m, x);
  }

  lemma ClosedExtends(s: Snapshot, t: Snapshot, r: Marks, n: nat)
    requires Extends(s, t) && Closed(t.m, r, n) && n == |s.m.stack| && |t.m.comp| == |t.m.onStack| == |t.m.indices|
    requires StackInOrder(t.m)
    ensures Extends(s, Snapshot(r, t.low))
  {
    forall x: nat | Assigned(s.m, x)
      ensures r.comp[x] == s.m.comp[x]
    {
      assert Assigned(t.m, x);
      StackSplit(t.m, n, x);
    }
  }

  /** What the loop over the successors relies on. */
  lemma ScanUse(adj: Adjacency, active: set<nat>, s: Snapshot, t: Snapshot, v: nat, k: nat)
    requires Scanning(adj, active, s, t, v, k) && k < |adj[v]|
    ensures adj[v][k] < |adj| == |t.m.indices| == |t.low| == |t.m.onStack| && WellFormed(adj)
    ensures t.m.onStack[adj[v][k]] <==> adj[v][k] in t.m.stack
    ensures UnseenSet(t.m) < UnseenSet(s.m)
    ensures Consistent(adj, active + {v}, t.m)
  {
    hide Digraph.Reach, Scanned, LowWitnessed, LowCovers, AssignedClosed, ComponentsExact, FinishedScanned, StackChain, AllAnchored, Edge;
    assert v in UnseenSet(s.m) && v !in UnseenSet(t.m);
  }

  lemma EnterUse(adj: Adjacency, active: set<nat>, m: Marks, v: nat)
    requires Consistent(adj, active, m)
    ensures |adj| == |m.indices| == |m.onStack| == |m.comp|
  {
  }

  lemma PopUse(adj: Adjacency, active: set<nat>, s: Snapshot, t: Snapshot, v: nat, k: nat)
    requires Scanning(adj, active, s, t, v, k)
    ensures |t.m.indices| == |t.m.onStack| == |t.m.comp| && StackInOrder(t.m)
  {
    hide Digraph.Reach, Scanned, LowWitnessed, LowCovers, AssignedClosed, ComponentsExact, FinishedScanned, StackChain, AllAnchored, Edge;
  }

  // ----- The search itself -----

  class Tarjan {
    var nextIndex: nat
    var indices: seq<nat>
    var lowLinks: seq<nat>
    var stack: seq<nat>
    var onStack: seq<bool>
    var componentOf: seq<nat>
    var sizes: seq<nat>

    ghost function State(): Snapshot
      reads this
    {
      Snapshot(Marks(nextIndex, indices, stack, onStack, componentOf, sizes), lowLinks)
    }

    constructor (states: nat)
      ensures State() == Snapshot(Marks(0, seq(states, _ => UNSEEN), [], seq(states, _ => false),
                                        seq(states, _ => UNSEEN), []), seq(states, _ => 0))
    {
      nextIndex := 0;
      indices := seq(states, _ => UNSEEN);
      lowLinks := seq(states, _ => 0);
      stack := [];
      onStack := seq(states, _ => false);
      componentOf := seq(states, _ => UNSEEN);
      sizes := [];
    }

    method Visit(state: nat, adjacency: Csr, ghost active: set<nat>)
      requires adjacency.Valid() && state < adjacency.States() && !Seen(State().m, state)
      requires Consistent(adjacency.Lists(), active, State().m) && |lowLinks| == adjacency.States()
      requires forall g :: g in active ==> Reach(adjacency.Lists(), g, state)
      modifies this
      ensures Visited(adjacency.Lists(), active, old(State()), State(), state)
      decreases UnseenSet(State().m)
    {
      hide Digraph.Reach, Visited, Scanning, Consistent;
      ghost var adj := adjacency.Lists();
      ghost var before := State();
      EnterUse(adj, active, before.m, state);
      EnterScan(adj, active, before, state);
      indices := indices[state := nextIndex];
      lowLinks := lowLinks[state := nextIndex];
      nextIndex := nextIndex + 1;
      stack := stack + [state];
      onStack := onStack[state := true];
      var neighbors := adjacency.Neighbors(state);
      for k := 0 to |neighbors|
        invariant Scanning(adj, active, before, State(), state, k)
      {
        var next := neighbors[k];
        ScanUse(adj, active, before, State(), state, k);
        if indices[next] == UNSEEN {
          forall g | g in active + {state}
            ensures Reach(adj, g, next)
          {
            ActiveReachNext(adj, active, before, State(), state, k, g);
          }
          ghost var mid := State();
          Visit(next, adjacency, active + {state});
          ScanVisited(adj, active, before, mid, State(), state, k);
          lowLinks := lowLinks[state := Min(lowLinks[state], lowLinks[next])];
        } else if onStack[next] {
          ScanStacked(adj, active, before, State(), state, k);
          lowLinks := lowLinks[state := Min(lowLinks[state], indices[next])];
        } else {
          ScanAssigned(adj, active, before, State(), state, k);
        }
      }
      ghost var scanned := State();
      ScanFacts(adj, active, before, scanned, state, |neighbors|);
      if lowLinks[state] == indices[state] {
        PopUse(adj, active, before, scanned, state, |neighbors|);
        PopComponent(state, |before.m.stack|);
        LeaveClosed(adj, active, before, scanned, state, State().m);
      } else {
        LeaveStacked(adj, active, before, scanned, state);
      }
    }

    /** The inner loop of a closing visit: pop down to and including `state`, which sits at position `from`. */
    method PopComponent(state: nat, ghost from: nat)
      requires |indices| == |onStack| == |componentOf| && StackInOrder(State().m)
      requires from < |stack| && stack[from] == state
      modifies this`stack, this`onStack, this`componentOf, this`sizes
      ensures Closed(old(State().m), State().m, from)
    {
      hide Popped, StackInOrder;
      ghost var m := State().m;
      PopStart(m);
      var component := |sizes|;
      var size := 0;
      while true
        invariant |stack| == |m.stack| - size && from < |stack|
        invariant Popped(m, State().m, |m.stack| - size)
        decreases |stack|
      {
        var member := stack[|stack| - 1];
        PopOne(m, State().m, |stack| - 1, from);
        stack := stack[..|stack| - 1];
        onStack := onStack[member := false];
        componentOf := componentOf[member := component];
        size := size + 1;
        if member == state {
          break;
        }
      }
      sizes := sizes + [size];
    }
  }

  method StronglyConnectedComponents(adjacency: Csr) returns (r: SccResult)
    requires adjacency.Valid() && WellFormed(adjacency.Lists()) && adjacency.States() <= MAX_STATES
    ensures IsDecomposition(adjacency.Lists(), r)
  {
    hide Digraph.Reach, Consistent, Visited;
    ghost var adj := adjacency.Lists();
    var states := adjacency.States();
    var tarjan := new Tarjan(states);
    StartConsistent(adj, tarjan.State().m);
    for state := 0 to states
      invariant Consistent(adj, {}, tarjan.State().m) && |tarjan.lowLinks| == |tarjan.indices| == states
      invariant forall v: nat :: v < state ==> Seen(tarjan.State().m, v)
    {
      if tarjan.indices[state] == UNSEEN {
        ghost var before := tarjan.State();
        tarjan.Visit(state, adjacency, {});
        VisitedUse(adj, {}, before, tarjan.State(), state);
      }
    }
    EndDecomposition(adj, tarjan.State().m);
    r := SccResult(tarjan.componentOf, tarjan.sizes);
  }

  lemma StartConsistent(adj: Adjacency, m: Marks)
    requires WellFormed(adj) && |adj| <= MAX_STATES
    requires m == Marks(0, seq(|adj|, _ => UNSEEN), [], seq(|adj|, _ => false), seq(|adj|, _ => UNSEEN), [])
    ensures Consistent(adj, {}, m)
  {
    assert SeenSet(m) == {};
    assert AssignedSet(m) == {};
  }

  lemma VisitedUse(adj: Adjacency, active: set<nat>, s: Snapshot, t: Snapshot, v: nat)
    requires Visited(adj, active, s, t, v)
    ensures Consistent(adj, active, t.m) && Seen(t.m, v)
    ensures |t.low| == |t.m.indices| == |s.m.indices|
    ensures forall u: nat :: Seen(s.m, u) ==> Seen(t.m, u)
  {
    hide Digraph.Reach, Consistent;
  }

  /** Every vertex has a component; components are exactly the mutual-reachability classes;
      recorded sizes are their cardinalities; edges never lead to a higher component number. */
  ghost predicate IsDecomposition(adj: Adjacency, r: SccResult) {
    && |r.componentOf| == |adj|
    && (forall v :: 0 <= v < |adj| ==> r.componentOf[v] < |r.sizes|)
    && (forall u, v :: 0 <= u < |adj| && 0 <= v < |adj| ==>
          (r.componentOf[u] == r.componentOf[v] <==> Mutual(adj, u, v)))
    && (forall c :: 0 <= c < |r.sizes| ==> r.sizes[c] == |Members(r.componentOf, c)| > 0)
    && (forall u: nat, v: nat :: Edge(adj, u, v) && v < |adj| ==> r.componentOf[v] <= r.componentOf[u])
  }

  /** With every vertex seen and no visit running, the stack is empty and all vertices are assigned. */
  lemma EndDecomposition(adj: Adjacency, m: Marks)
    requires Consistent(adj, {}, m) && forall v: nat :: v < |adj| ==> Seen(m, v)
    ensures IsDecomposition(adj, SccResult(m.comp, m.sizes))
  {
    hide Digraph.Reach, Mutual, StackChain;
    forall v | v in m.stack
      ensures false
    {
      var g := GetAnchor(adj, {}, m, v);
    }
    assert forall v: nat :: v < |adj| ==> Assigned(m, v);
  }
}
