/** Finite directed graphs over dense vertex numbers, given by ordered successor lists.
    Reachability is witnessed by explicit paths; everything else in the graph modules
    is stated against it. */
module Digraph {

  type Adjacency = seq<seq<nat>>

  ghost predicate WellFormed(adj: Adjacency) {
    forall u, k :: 0 <= u < |adj| && 0 <= k < |adj[u]| ==> adj[u][k] < |adj|
  }

  predicate Edge(adj: Adjacency, u: nat, v: nat) {
    u < |adj| && v in adj[u]
  }

  /** A nonempty vertex sequence whose neighbouring entries are joined by edges. */
  ghost predicate IsPath(adj: Adjacency, p: seq<nat>) {
    && |p| > 0
    && (forall i :: 0 <= i < |p| ==> p[i] < |adj|)
    && (forall i :: 0 <= i < |p| - 1 ==> Edge(adj, p[i], p[i + 1]))
  }

  ghost predicate PathBetween(adj: Adjacency, p: seq<nat>, u: nat, v: nat) {
    IsPath(adj, p) && p[0] == u && p[|p| - 1] == v
  }

  ghost predicate Reach(adj: Adjacency, u: nat, v: nat) {
    exists p :: PathBetween(adj, p, u, v)
  }

  ghost predicate Mutual(adj: Adjacency, u: nat, v: nat) {
    Reach(adj, u, v) && Reach(adj, v, u)
  }

  lemma ReachSelf(adj: Adjacency, u: nat)
    requires u < |adj|
    ensures Reach(adj, u, u)
  {
    assert PathBetween(adj, [u], u, u);
  }

  lemma ReachEdge(adj: Adjacency, u: nat, v: nat)
    requires Edge(adj, u, v) && v < |adj|
    ensures Reach(adj, u, v)
  {
    assert PathBetween(adj, [u, v], u, v);
  }

  lemma JoinPaths(adj: Adjacency, p: seq<nat>, q: seq<nat>)
    requires IsPath(adj, p) && IsPath(adj, q) && p[|p| - 1] == q[0]
    ensures PathBetween(adj, p + q[1..], p[0], q[|q| - 1])
  {
    var r := p + q[1..];
    forall i | 0 <= i < |r| - 1
      ensures Edge(adj, r[i], r[i + 1])
    {
      if i >= |p| - 1 {
        assert r[i] == q[i - (|p| - 1)] && r[i + 1] == q[i - (|p| - 1) + 1];
      }
    }
  }

  lemma ReachTrans(adj: Adjacency, u: nat, v: nat, w: nat)
    requires Reach(adj, u, v) && Reach(adj, v, w)
    ensures Reach(adj, u, w)
  {
    var p :| PathBetween(adj, p, u, v);
    var q :| PathBetween(adj, q, v, w);
    JoinPaths(adj, p, q);
  }

  /** A path that starts inside a vertex set and ends outside it crosses the boundary
      along some edge; the crossing edge is reachable and leads on to the end. */
  lemma {:induction false} Crossing(adj: Adjacency, inside: set<nat>, p: seq<nat>) returns (x: nat, y: nat)
    requires IsPath(adj, p) && p[0] in inside && p[|p| - 1] !in inside
    ensures x in inside && y !in inside && y < |adj| && Edge(adj, x, y)
    ensures Reach(adj, p[0], x) && Reach(adj, y, p[|p| - 1])
    decreases |p|
  {
    if p[1] in inside {
      x, y := Crossing(adj, inside, p[1..]);
      ReachEdge(adj, p[0], p[1]);
      ReachTrans(adj, p[0], p[1], x);
    } else {
      x, y := p[0], p[1];
      ReachSelf(adj, p[0]);
      assert PathBetween(adj, p[1..], p[1], p[|p| - 1]);
    }
  }

  /** A set closed under edges contains everything reachable from its members. */
  lemma ClosedUnderReach(adj: Adjacency, inside: set<nat>, u: nat, v: nat)
    requires forall x, y :: x in inside && Edge(adj, x, y) ==> y in inside
    requires u in inside && Reach(adj, u, v)
    ensures v in inside
  {
    var p :| PathBetween(adj, p, u, v);
    if v !in inside {
      var x, y := Crossing(adj, inside, p);
    }
  }
}
