/** Which states can reach a terminal state, by a backward worklist over accepted edges. */
module BackwardReach {
  import opened Counting
  import opened Digraph

  datatype Attempt = Attempt(from: nat, to: nat, accepted: bool)

  ghost predicate InRange(n: nat, edges: seq<Attempt>) {
    forall i :: 0 <= i < |edges| ==> edges[i].from < n && edges[i].to < n
  }

  predicate IsMove(e: Attempt) { e.accepted && e.from != e.to }

  function Targets(edges: seq<Attempt>, u: nat): seq<nat> {
    if edges == [] then []
    else
      var e := edges[|edges| - 1];
      Targets(edges[..|edges| - 1], u) + if IsMove(e) && e.from == u then [e.to] else []
  }

  /** The graph of accepted moves that change state. */
  function Forward(n: nat, edges: seq<Attempt>): (adj: Adjacency)
    ensures |adj| == n
  {
    seq(n, u requires 0 <= u < n => Targets(edges, u))
  }

  /** The targets of a state are where accepted edges lead that leave it. */
  lemma {:induction false} TargetsExact(edges: seq<Attempt>, u: nat, v: nat)
    ensures v in Targets(edges, u) <==>
      u != v && exists i :: 0 <= i < |edges| && edges[i].accepted && edges[i].from == u && edges[i].to == v
  {
    if edges != [] {
      var front, last := edges[..|edges| - 1], edges[|edges| - 1];
      TargetsExact(front, u, v);
      if v in Targets(front, u) {
        var i :| 0 <= i < |front| && IsMove(front[i]) && front[i].from == u && front[i].to == v;
        assert edges[i] == front[i];
      }
      if IsMove(last) && last.from == u && last.to == v {
        assert edges[|edges| - 1] == last;
      }
      if i :| 0 <= i < |edges| && IsMove(edges[i]) && edges[i].from == u && edges[i].to == v {
        if i < |front| {
          assert front[i] == edges[i];
        }
      }
    }
  }

  /** State `s` has a path of accepted, state-changing moves to a terminal state. */
  ghost predicate Finishes(n: nat, terminal: seq<bool>, edges: seq<Attempt>, s: nat)
    requires |terminal| == n
  {
    exists t :: 0 <= t < n && terminal[t] && Reach(Forward(n, edges), s, t)
  }

  /** `incoming[v]` lists exactly the sources of moves into `v`. */
  ghost predicate Inverts(n: nat, edges: seq<Attempt>, incoming: seq<seq<nat>>) {
    && |incoming| == n
    && forall u: nat, v: nat :: v < n ==> Listed(n, edges, incoming[v], u, v)
  }

  ghost predicate Listed(n: nat, edges: seq<Attempt>, sources: seq<nat>, u: nat, v: nat) {
    u in sources <==> u < n && v in Targets(edges, u)
  }

  method Invert(n: nat, edges: seq<Attempt>) returns (incoming: seq<seq<nat>>)
    requires InRange(n, edges)
    ensures Inverts(n, edges, incoming)
  {
    incoming := seq(n, _ => []);
    for i := 0 to |edges|
      invariant Inverts(n, edges[..i], incoming)
    {
      var e := edges[i];
      ghost var before := incoming;
      if IsMove(e) {
        incoming := incoming[e.to := incoming[e.to] + [e.from]];
      }
      InvertStep(n, edges, i, before, incoming);
    }
    assert edges[..|edges|] == edges;
  }

  lemma InvertStep(n: nat, edges: seq<Attempt>, i: nat, incoming: seq<seq<nat>>, after: seq<seq<nat>>)
    requires i < |edges| && InRange(n, edges) && Inverts(n, edges[..i], incoming)
    requires var e := edges[i];
      after == if IsMove(e) then incoming[e.to := incoming[e.to] + [e.from]] else incoming
    ensures Inverts(n, edges[..i + 1], after)
  {
    var upto := edges[..i + 1];
    forall u: nat, v: nat | v < n
      ensures Listed(n, upto, after[v], u, v)
    {
      assert Listed(n, edges[..i], incoming[v], u, v);
      assert upto[..i] == edges[..i] && upto[i] == edges[i];
    }
  }

  ghost function Unmarked(reaches: seq<bool>): set<nat> {
    set i: nat | i < |reaches| && !reaches[i]
  }

  lemma MarkShrinks(reaches: seq<bool>, i: nat)
    requires i < |reaches| && !reaches[i]
    ensures |Unmarked(reaches[i := true])| < |Unmarked(reaches)|
  {
    assert i in Unmarked(reaches) && i !in Unmarked(reaches[i := true]);
    SubsetSize(Unmarked(reaches[i := true]), Unmarked(reaches));
  }

  /** The worklist's invariant: marks are justified, terminal states are marked, and a marked state off
      the queue has every predecessor marked. */
  ghost predicate Marking(n: nat, terminal: seq<bool>, edges: seq<Attempt>, reaches: seq<bool>, queue: seq<nat>)
    requires |terminal| == |reaches| == n
  {
    && (forall i: nat :: i < n && reaches[i] ==> Finishes(n, terminal, edges, i))
    && (forall i: nat :: i < n && terminal[i] ==> reaches[i])
    && (forall v: nat :: v in queue ==> v < n && reaches[v])
    && (forall u: nat, v: nat :: u < n && v < n && v in Targets(edges, u) && reaches[v] && v !in queue ==> reaches[u])
  }

  /** True exactly when every state can finish. */
  method EveryStateReachesTerminal(n: nat, terminal: seq<bool>, edges: seq<Attempt>) returns (all: bool)
    requires |terminal| == n && InRange(n, edges)
    ensures all <==> forall s: nat :: s < n ==> Finishes(n, terminal, edges, s)
  {
    hide Finishes, Targets;
    var reaches := terminal;
    var queue: seq<nat> := [];
    for i := 0 to n
      invariant forall k: nat :: k in queue <==> k < i && terminal[k]
    {
      if terminal[i] {
        queue := queue + [i];
      }
    }
    TerminalFinishes(n, terminal, edges);
    var incoming := Invert(n, edges);
    while queue != []
      invariant |reaches| == n && Marking(n, terminal, edges, reaches, queue)
      decreases |Unmarked(reaches)|, |queue|
    {
      var target := queue[0];
      assert target in queue;
      ghost var before := queue;
      queue := queue[1..];
      assert before == [target] + queue;
      assert forall v: nat :: v in queue ==> v in before;
      ghost var unmarked := |Unmarked(reaches)|;
      ghost var length := |queue|;
      for j := 0 to |incoming[target]|
        invariant |reaches| == n && reaches[target]
        invariant forall i: nat :: i < n && reaches[i] ==> Finishes(n, terminal, edges, i)
        invariant forall i: nat :: i < n && terminal[i] ==> reaches[i]
        invariant forall v: nat :: v in queue ==> v < n && reaches[v]
        invariant forall u: nat, v: nat :: u < n && v < n && v in Targets(edges, u) && reaches[v] && v !in queue && v != target ==> reaches[u]
        invariant forall k :: 0 <= k < j ==> incoming[target][k] < n && reaches[incoming[target][k]]
        invariant |Unmarked(reaches)| < unmarked || (|Unmarked(reaches)| == unmarked && |queue| == length)
      {
        var source := incoming[target][j];
        assert Listed(n, edges, incoming[target], source, target);
        if !reaches[source] {
          MoveFinishes(n, terminal, edges, source, target);
          MarkShrinks(reaches, source);
          reaches := reaches[source := true];
          queue := queue + [source];
        }
      }
      forall u: nat | u < n && target in Targets(edges, u)
        ensures reaches[u]
      {
        assert Listed(n, edges, incoming[target], u, target);
      }
    }
    UnmarkedStay(n, terminal, edges, reaches);
    all := true;
    for i := 0 to n
      invariant all <==> forall k :: 0 <= k < i ==> reaches[k]
    {
      all := all && reaches[i];
    }
  }

  lemma TerminalFinishes(n: nat, terminal: seq<bool>, edges: seq<Attempt>)
    requires |terminal| == n
    ensures forall i: nat :: i < n && terminal[i] ==> Finishes(n, terminal, edges, i)
  {
    forall i: nat | i < n && terminal[i]
      ensures Finishes(n, terminal, edges, i)
    {
      ReachSelf(Forward(n, edges), i);
    }
  }

  lemma MoveFinishes(n: nat, terminal: seq<bool>, edges: seq<Attempt>, u: nat, v: nat)
    requires |terminal| == n && u < n && v < n && v in Targets(edges, u) && Finishes(n, terminal, edges, v)
    ensures Finishes(n, terminal, edges, u)
  {
    var adj := Forward(n, edges);
    var t :| 0 <= t < n && terminal[t] && Reach(adj, v, t);
    ReachEdge(adj, u, v);
    ReachTrans(adj, u, v, t);
  }

  /** When the queue is empty, no unmarked state can leave the unmarked states. */
  lemma UnmarkedStay(n: nat, terminal: seq<bool>, edges: seq<Attempt>, reaches: seq<bool>)
    requires |terminal| == |reaches| == n && InRange(n, edges) && Marking(n, terminal, edges, reaches, [])
    ensures forall s: nat :: s < n ==> (reaches[s] <==> Finishes(n, terminal, edges, s))
  {
    var adj := Forward(n, edges);
    var outside := Unmarked(reaches);
    forall s: nat | s < n && !reaches[s]
      ensures !Finishes(n, terminal, edges, s)
    {
      forall t: nat | t < n && Reach(adj, s, t)
        ensures !terminal[t]
      {
        EdgesStay(n, edges, reaches);
        ClosedUnderReach(adj, outside, s, t);
      }
    }
  }

  lemma EdgesStay(n: nat, edges: seq<Attempt>, reaches: seq<bool>)
    requires |reaches| == n && InRange(n, edges)
    requires forall u: nat, v: nat :: u < n && v < n && v in Targets(edges, u) && reaches[v] ==> reaches[u]
    ensures forall x, y :: x in Unmarked(reaches) && Edge(Forward(n, edges), x, y) ==> y in Unmarked(reaches)
  {
    forall x: nat, y: nat | x in Unmarked(reaches) && Edge(Forward(n, edges), x, y)
      ensures y in Unmarked(reaches)
    {
      TargetsExact(edges, x, y);
    }
  }
}
