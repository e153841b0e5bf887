/** Breadth-first exploration of a transition system, with predecessor tree, shortest
    traces and early-exit counterexample search. The game is a parameter: initial states,
    an ordered list of advertised actions per state, and a partial transition function. */
module Explorer {
  import opened Wrappers
  import opened Arithmetic
  import opened Sequences
  import opened CompressedRows

  datatype System<!G(==), !A> = System(initial: seq<G>, legal: G -> seq<A>, step: (G, A) -> Option<G>)

  datatype Predecessor<A> = Predecessor(state: nat, action: A)

  datatype CheckError<G, A> = LegalTransition(state: G, action: A) | StateIdOverflow

  /** Identifiers are 32-bit. */
  const ID_LIMIT: nat := 0x1_0000_0000

  // ----- Runs of the system -----

  ghost predicate IsRun<G(!new), A(!new)>(sys: System<G, A>, states: seq<G>, actions: seq<A>) {
    && |states| == |actions| + 1
    && states[0] in sys.initial
    && (forall k :: 0 <= k < |actions| ==>
         actions[k] in sys.legal(states[k]) && sys.step(states[k], actions[k]) == Some(states[k + 1]))
  }

  ghost predicate Reachable<G(!new), A(!new)>(sys: System<G, A>, s: G) {
    exists states, actions :: IsRun(sys, states, actions) && states[|actions|] == s
  }

  // ----- The search as a deterministic machine -----

  /** Everything recorded after some prefix of the search: state `from` is being expanded
      and `next` of its actions have been tried. */
  datatype Search<G, A> = Search(states: seq<G>, depths: seq<nat>, preds: seq<Option<Predecessor<A>>>,
                                 edges: seq<Arc<A>>, duplicates: nat, maxDepth: nat, from: nat, next: nat)

  function IndexOf<G(==)>(s: seq<G>, x: G): (i: nat)
    requires x in s
    ensures i < |s| && s[i] == x
  {
    if s[0] == x then 0 else 1 + IndexOf(s[1..], x)
  }

  function Start<G(==), A>(sys: System<G, A>): Search<G, A> {
    Search(sys.initial, seq(|sys.initial|, _ => 0), seq(|sys.initial|, _ => None), [], 0, 0, 0, 0)
  }

  ghost predicate HasAction<G, A>(sys: System<G, A>, c: Search<G, A>) {
    c.from < |c.states| && c.next < |sys.legal(c.states[c.from])|
  }

  /** Try the next action of the current state. */
  ghost function Take<G, A>(sys: System<G, A>, c: Search<G, A>, t: G): Search<G, A>
    requires HasAction(sys, c) && c.from < |c.depths|
  {
    var action := sys.legal(c.states[c.from])[c.next];
    if t in c.states then
      c.(edges := c.edges + [Arc(c.from, action, IndexOf(c.states, t))],
         duplicates := c.duplicates + 1, next := c.next + 1)
    else
      c.(states := c.states + [t], depths := c.depths + [c.depths[c.from] + 1],
         preds := c.preds + [Some(Predecessor(c.from, action))],
         edges := c.edges + [Arc(c.from, action, |c.states|)],
         maxDepth := Max(c.maxDepth, c.depths[c.from] + 1), next := c.next + 1)
  }

  /** One step of the search; it stays put when it is exhausted or an advertised action fails. */
  ghost function Step<G, A>(sys: System<G, A>, c: Search<G, A>): Search<G, A>
    requires |c.states| == |c.depths|
  {
    if HasAction(sys, c) then
      match sys.step(c.states[c.from], sys.legal(c.states[c.from])[c.next])
      case Some(t) => Take(sys, c, t)
      case None => c
    else if c.from < |c.states| then
      c.(from := c.from + 1, next := 0)
    else c
  }

  ghost function After<G, A>(sys: System<G, A>, m: nat): (c: Search<G, A>)
    ensures |c.states| == |c.depths|
  {
    if m == 0 then Start(sys) else Step(sys, After(sys, m - 1))
  }

  // ----- Invariants of the machine -----

  /** Initial states first, at depth zero; every other state hangs below an earlier one. */
  ghost predicate Tree<G, A>(sys: System<G, A>, states: seq<G>, depths: seq<nat>, preds: seq<Option<Predecessor<A>>>) {
    && |states| == |depths| == |preds|
    && sys.initial <= states
    && (forall i :: 0 <= i < |sys.initial| ==> preds[i] == None && depths[i] == 0)
    && (forall i :: |sys.initial| <= i < |states| ==> preds[i].Some? && HangsBelow(sys, states, depths, preds[i].value, i))
  }

  ghost predicate HangsBelow<G, A>(sys: System<G, A>, states: seq<G>, depths: seq<nat>, p: Predecessor<A>, i: nat)
    requires i < |states| == |depths|
  {
    && p.state < i
    && p.action in sys.legal(states[p.state])
    && sys.step(states[p.state], p.action) == Some(states[i])
    && depths[i] == depths[p.state] + 1
  }

  /** Depths never decrease in discovery order and run at most one ahead of the current state. */
  ghost predicate Layered<G, A>(c: Search<G, A>) {
    && |c.states| == |c.depths| && c.from <= |c.states|
    && (forall i, j :: 0 <= i <= j < |c.depths| ==> c.depths[i] <= c.depths[j])
    && (c.from < |c.depths| ==> forall i :: 0 <= i < |c.depths| ==> c.depths[i] <= c.depths[c.from] + 1)
    && (forall i :: 0 <= i < |c.depths| ==> c.depths[i] <= c.maxDepth && c.depths[i] <= i)
    && (c.maxDepth == 0 || exists i :: 0 <= i < |c.depths| && c.depths[i] == c.maxDepth)
  }

  /** The action with number `j` of state `i` succeeds and leads to a recorded state at most one deeper. */
  ghost predicate Known<G, A>(sys: System<G, A>, states: seq<G>, depths: seq<nat>, i: nat, j: nat)
    requires i < |states| == |depths| && j < |sys.legal(states[i])|
  {
    var t := sys.step(states[i], sys.legal(states[i])[j]);
    t.Some? && exists k :: 0 <= k < |states| && states[k] == t.value && depths[k] <= depths[i] + 1
  }

  /** Everything tried so far is recorded. */
  ghost predicate Expanded<G, A>(sys: System<G, A>, c: Search<G, A>)
    requires |c.states| == |c.depths|
  {
    forall i, j :: 0 <= i < |c.states| && 0 <= j < |sys.legal(c.states[i])| && (i < c.from || (i == c.from && j < c.next))
      ==> Known(sys, c.states, c.depths, i, j)
  }

  /** All labelled edges of the first `from` states and of `next` actions of state `from`, in order. */
  ghost function EdgesUpTo<G, A>(sys: System<G, A>, states: seq<G>, from: nat, next: nat): seq<Arc<A>>
    requires from <= |states| && next <= (if from < |states| then |sys.legal(states[from])| else 0)
    decreases from, next
  {
    if next > 0 then
      EdgesUpTo(sys, states, from, next - 1) + [EdgeAt(sys, states, from, next - 1)]
    else if from > 0 then
      EdgesUpTo(sys, states, from - 1, |sys.legal(states[from - 1])|)
    else []
  }

  /** The edge of one state and one of its actions, naming the successor by its identifier. */
  ghost function EdgeAt<G, A>(sys: System<G, A>, states: seq<G>, i: nat, j: nat): Arc<A>
    requires i < |states| && j < |sys.legal(states[i])|
  {
    var action := sys.legal(states[i])[j];
    var t := sys.step(states[i], action);
    Arc(i, action, if t.Some? && t.value in states then IndexOf(states, t.value) else |states|)
  }

  ghost predicate Counted<G, A>(sys: System<G, A>, c: Search<G, A>) {
    && c.from <= |c.states|
    && c.next <= (if c.from < |c.states| then |sys.legal(c.states[c.from])| else 0)
    && c.edges == EdgesUpTo(sys, c.states, c.from, c.next)
    && |c.edges| + |sys.initial| == c.duplicates + |c.states|
  }

  /** The edge by which a state was discovered is among the recorded edges. */
  ghost predicate Linked<A>(initial: nat, preds: seq<Option<Predecessor<A>>>, edges: seq<Arc<A>>) {
    forall i :: initial <= i < |preds| && preds[i].Some? ==> Arc(preds[i].value.state, preds[i].value.action, i) in edges
  }

  ghost predicate Sound<G, A>(sys: System<G, A>, c: Search<G, A>) {
    && Tree(sys, c.states, c.depths, c.preds)
    && Linked(|sys.initial|, c.preds, c.edges)
    && Distinct(c.states)
    && Layered(c)
    && Expanded(sys, c)
    && Counted(sys, c)
  }

  // ----- The invariants hold at every step -----

  lemma StartSound<G, A>(sys: System<G, A>)
    requires Distinct(sys.initial)
    ensures Sound(sys, Start(sys))
  {
  }

  lemma {:induction false} IndexOfAppend<G>(s: seq<G>, x: G, y: G)
    requires x in s
    ensures IndexOf(s + [y], x) == IndexOf(s, x)
  {
    if s[0] != x {
      IndexOfAppend(s[1..], x, y);
      assert (s + [y])[1..] == s[1..] + [y];
    }
  }

  lemma {:induction false} IndexOfNew<G>(s: seq<G>, y: G)
    requires y !in s
    ensures IndexOf(s + [y], y) == |s|
  {
    if s == [] {
      assert s + [y] == [y];
    } else {
      IndexOfNew(s[1..], y);
      assert (s + [y])[1..] == s[1..] + [y];
    }
  }

  /** Recording one more state leaves the edges written so far as they are. */
  lemma {:induction false} EdgesUpToAppend<G, A>(sys: System<G, A>, c: Search<G, A>, t: G, from: nat, next: nat)
    requires |c.states| == |c.depths| && Expanded(sys, c)
    requires from < c.from || (from == c.from && next <= c.next)
    requires from < |c.states| && next <= |sys.legal(c.states[from])|
    ensures EdgesUpTo(sys, c.states + [t], from, next) == EdgesUpTo(sys, c.states, from, next)
    decreases from, next
  {
    if next > 0 {
      EdgesUpToAppend(sys, c, t, from, next - 1);
      assert Known(sys, c.states, c.depths, from, next - 1);
      var u := sys.step(c.states[from], sys.legal(c.states[from])[next - 1]).value;
      assert u in c.states;
      IndexOfAppend(c.states, u, t);
      assert EdgeAt(sys, c.states + [t], from, next - 1) == EdgeAt(sys, c.states, from, next - 1);
    } else if from > 0 {
      EdgesUpToAppend(sys, c, t, from - 1, |sys.legal(c.states[from - 1])|);
    }
  }

  lemma TakeOld<G, A>(sys: System<G, A>, c: Search<G, A>, t: G)
    requires Sound(sys, c) && HasAction(sys, c) && t in c.states
    requires sys.step(c.states[c.from], sys.legal(c.states[c.from])[c.next]) == Some(t)
    ensures Sound(sys, Take(sys, c, t))
  {
    var d := Take(sys, c, t);
    TakeNewLinked(sys, c, t);
    hide Linked;
    var k :| 0 <= k < |c.states| && c.states[k] == t;
    assert Known(sys, d.states, d.depths, c.from, c.next);
    forall i, j | 0 <= i < |d.states| && 0 <= j < |sys.legal(d.states[i])| && (i < d.from || (i == d.from && j < d.next))
      ensures Known(sys, d.states, d.depths, i, j)
    {
      assert (i < c.from || (i == c.from && j < c.next)) ==> Known(sys, c.states, c.depths, i, j);
    }
  }

  lemma TakeNewExpanded<G, A>(sys: System<G, A>, c: Search<G, A>, t: G)
    requires |c.states| == |c.depths| && Expanded(sys, c) && HasAction(sys, c) && t !in c.states
    requires sys.step(c.states[c.from], sys.legal(c.states[c.from])[c.next]) == Some(t)
    ensures Expanded(sys, Take(sys, c, t))
  {
    var d := Take(sys, c, t);
    forall i, j | 0 <= i < |d.states| && 0 <= j < |sys.legal(d.states[i])| && (i < d.from || (i == d.from && j < d.next))
      ensures Known(sys, d.states, d.depths, i, j)
    {
      if i == c.from && j == c.next {
        assert d.states[|c.states|] == t;
      } else {
        assert d.states[i] == c.states[i];
        assert Known(sys, c.states, c.depths, i, j);
        var k :| 0 <= k < |c.states| && c.states[k] == sys.step(c.states[i], sys.legal(c.states[i])[j]).value
                 && c.depths[k] <= c.depths[i] + 1;
        assert d.states[k] == c.states[k] && d.depths[k] == c.depths[k];
      }
    }
  }

  lemma TakeNewTree<G, A>(sys: System<G, A>, c: Search<G, A>, t: G)
    requires Tree(sys, c.states, c.depths, c.preds) && Distinct(c.states) && HasAction(sys, c) && t !in c.states
    requires sys.step(c.states[c.from], sys.legal(c.states[c.from])[c.next]) == Some(t)
    ensures var d := Take(sys, c, t); Tree(sys, d.states, d.depths, d.preds) && Distinct(d.states)
  {
    var d := Take(sys, c, t);
    forall i | |sys.initial| <= i < |d.states|
      ensures d.preds[i].Some? && HangsBelow(sys, d.states, d.depths, d.preds[i].value, i)
    {
      if i < |c.states| {
        assert HangsBelow(sys, c.states, c.depths, c.preds[i].value, i);
      }
    }
  }

  lemma TakeNewCounted<G, A>(sys: System<G, A>, c: Search<G, A>, t: G)
    requires |c.states| == |c.depths| && Expanded(sys, c) && Counted(sys, c) && HasAction(sys, c) && t !in c.states
    requires sys.step(c.states[c.from], sys.legal(c.states[c.from])[c.next]) == Some(t)
    ensures Counted(sys, Take(sys, c, t))
  {
    EdgesUpToAppend(sys, c, t, c.from, c.next);
    IndexOfNew(c.states, t);
  }

  lemma TakeNewLinked<G, A>(sys: System<G, A>, c: Search<G, A>, t: G)
    requires |c.states| == |c.depths| == |c.preds| && Linked(|sys.initial|, c.preds, c.edges) && HasAction(sys, c)
    ensures var d := Take(sys, c, t); Linked(|sys.initial|, d.preds, d.edges)
  {
  }

  lemma TakeNewLayered<G, A>(sys: System<G, A>, c: Search<G, A>, t: G)
    requires Layered(c) && HasAction(sys, c) && t !in c.states
    ensures Layered(Take(sys, c, t))
  {
    var d := Take(sys, c, t);
    assert d.depths[|c.depths|] == c.depths[c.from] + 1;
  }

  lemma StepSound<G, A>(sys: System<G, A>, c: Search<G, A>)
    requires Sound(sys, c)
    ensures Sound(sys, Step(sys, c))
  {
    hide Distinct, Layered, Expanded, Counted, Linked, Take, HangsBelow;
    if HasAction(sys, c) {
      match sys.step(c.states[c.from], sys.legal(c.states[c.from])[c.next])
      case Some(t) =>
        if t in c.states {
          TakeOld(sys, c, t);
        } else {
          TakeNewTree(sys, c, t);
          TakeNewLinked(sys, c, t);
          TakeNewLayered(sys, c, t);
          TakeNewExpanded(sys, c, t);
          TakeNewCounted(sys, c, t);
        }
      case None =>
    } else if c.from < |c.states| {
      NextSound(sys, c);
    }
  }

  lemma NextSound<G, A>(sys: System<G, A>, c: Search<G, A>)
    requires Sound(sys, c) && c.from < |c.states| && !HasAction(sys, c)
    ensures Sound(sys, c.(from := c.from + 1, next := 0))
  {
    hide Known, HangsBelow, EdgeAt;
    var d := c.(from := c.from + 1, next := 0);
    forall i, j | 0 <= i < |d.states| && 0 <= j < |sys.legal(d.states[i])| && (i < d.from || (i == d.from && j < d.next))
      ensures Known(sys, d.states, d.depths, i, j)
    {
      assert i < c.from || (i == c.from && j < c.next);
    }
  }

  /** Every state of the search machine is sound. */
  lemma {:induction false} AfterSound<G, A>(sys: System<G, A>, m: nat)
    requires Distinct(sys.initial)
    ensures Sound(sys, After(sys, m))
  {
    if m == 0 {
      StartSound(sys);
    } else {
      AfterSound(sys, m - 1);
      StepSound(sys, After(sys, m - 1));
    }
  }

  // ----- Earlier searches are prefixes of later ones -----

  ghost predicate Prefix<G, A>(c: Search<G, A>, d: Search<G, A>) {
    c.states <= d.states && c.depths <= d.depths && c.preds <= d.preds && c.edges <= d.edges
  }

  lemma {:induction false} AfterGrows<G, A>(sys: System<G, A>, m: nat, n: nat)
    requires m <= n
    ensures Prefix(After(sys, m), After(sys, n))
    decreases n
  {
    if m < n {
      AfterGrows(sys, m, n - 1);
    }
  }

  ghost predicate Stuck<G, A>(sys: System<G, A>, c: Search<G, A>)
    requires |c.states| == |c.depths|
  {
    Step(sys, c) == c
  }

  lemma {:induction false} StuckForever<G, A>(sys: System<G, A>, m: nat, n: nat)
    requires m <= n && Stuck(sys, After(sys, m))
    ensures After(sys, n) == After(sys, m)
    decreases n
  {
    if m < n {
      StuckForever(sys, m, n - 1);
    }
  }

  // ----- Traces through the predecessor tree -----

  ghost predicate PredsDown<A>(preds: seq<Option<Predecessor<A>>>) {
    forall i :: 0 <= i < |preds| && preds[i].Some? ==> preds[i].value.state < i
  }

  /** States and actions from a root of the predecessor tree down to `id`. */
  ghost function TraceTo<G, A>(states: seq<G>, preds: seq<Option<Predecessor<A>>>, id: nat): (seq<G>, seq<A>)
    requires id < |states| == |preds| && PredsDown(preds)
  {
    match preds[id]
    case None => ([states[id]], [])
    case Some(p) =>
      var (s, a) := TraceTo(states, preds, p.state);
      (s + [states[id]], a + [p.action])
  }

  lemma TreeDown<G, A>(sys: System<G, A>, states: seq<G>, depths: seq<nat>, preds: seq<Option<Predecessor<A>>>)
    requires Tree(sys, states, depths, preds)
    ensures PredsDown(preds)
  {
    forall i | 0 <= i < |preds| && preds[i].Some?
      ensures preds[i].value.state < i
    {
      assert HangsBelow(sys, states, depths, preds[i].value, i);
    }
  }

  /** A tree trace is a run that ends in its target and is as long as the recorded depth. */
  lemma {:induction false} TraceIsRun<G(!new), A(!new)>(sys: System<G, A>, states: seq<G>, depths: seq<nat>,
                                            preds: seq<Option<Predecessor<A>>>, id: nat)
    requires Tree(sys, states, depths, preds) && id < |states| && PredsDown(preds)
    ensures var (s, a) := TraceTo(states, preds, id);
      IsRun(sys, s, a) && |a| == depths[id] && s[|a|] == states[id]
    decreases id
  {
    if id < |sys.initial| {
      assert preds[id] == None && states[id] == sys.initial[id];
    } else {
      assert HangsBelow(sys, states, depths, preds[id].value, id);
      TraceIsRun(sys, states, depths, preds, preds[id].value.state);
    }
  }

  /** Along a run, as long as every state at or below its position has been expanded,
      each state is recorded no deeper than its position. */
  lemma {:induction false} Covered<G(!new), A(!new)>(sys: System<G, A>, c: Search<G, A>, states: seq<G>, actions: seq<A>, k: nat) returns (i: nat)
    requires Sound(sys, c) && IsRun(sys, states, actions) && k <= |actions|
    requires c.from == |c.states| || k <= c.depths[c.from]
    ensures i < |c.states| && c.states[i] == states[k] && c.depths[i] <= k
  {
    hide Distinct, Counted;
    if k == 0 {
      i :| 0 <= i < |sys.initial| && sys.initial[i] == states[0];
      assert c.states[i] == states[0];
    } else {
      var h := Covered(sys, c, states, actions, k - 1);
      assert h < c.from;
      var j :| 0 <= j < |sys.legal(states[k - 1])| && sys.legal(states[k - 1])[j] == actions[k - 1];
      assert Known(sys, c.states, c.depths, h, j);
      i :| 0 <= i < |c.states| && c.states[i] == states[k] && c.depths[i] <= c.depths[h] + 1;
    }
  }

  // ----- Results -----

  datatype Counterexample<G, A> = Counterexample(target: nat, depth: nat, states: seq<G>, actions: seq<A>)

  datatype TerminationReason = Exhausted | StateLimitReached

  datatype Stats = Stats(states: nat, transitions: nat, duplicateStateHits: nat, maximumDepth: nat,
                         initialStates: nat, finishedStates: nat, termination: TerminationReason)

  datatype ExplicitGraph<G, A> = ExplicitGraph(states: seq<G>, edges: seq<Arc<A>>, depths: seq<nat>,
                                               predecessors: seq<Option<Predecessor<A>>>,
                                               initialStates: seq<nat>, stats: Stats)

  /** Walk the predecessor tree from `target` to its root, collecting backwards, then reverse. */
  method Reconstruct<G, A>(target: nat, graphStates: seq<G>, depths: seq<nat>, predecessors: seq<Option<Predecessor<A>>>)
    returns (r: Option<Counterexample<G, A>>)
    requires |graphStates| == |depths| == |predecessors| && PredsDown(predecessors)
    ensures r.None? <==> target >= |graphStates|
    ensures r.Some? ==>
      var (s, a) := TraceTo(graphStates, predecessors, target);
      r.value == Counterexample(target, depths[target], s, a)
  {
    if target >= |graphStates| {
      return None;
    }
    var cursor: nat := target;
    var states := [graphStates[target]];
    var actions: seq<A> := [];
    assert TraceTo(graphStates, predecessors, target).0 + Reversed([]) == TraceTo(graphStates, predecessors, target).0;
    assert TraceTo(graphStates, predecessors, target).1 + Reversed([]) == TraceTo(graphStates, predecessors, target).1;
    while predecessors[cursor].Some?
      invariant cursor < |graphStates| && |states| == |actions| + 1
      invariant states[|actions|] == graphStates[cursor]
      invariant var (s, a) := TraceTo(graphStates, predecessors, cursor);
                TraceTo(graphStates, predecessors, target) == (s + Reversed(states[..|actions|]), a + Reversed(actions))
      decreases cursor
    {
      var predecessor := predecessors[cursor].value;
      ghost var (s, a) := TraceTo(graphStates, predecessors, predecessor.state);
      assert Reversed(states) == [graphStates[cursor]] + Reversed(states[..|actions|]);
      assert Reversed(actions + [predecessor.action]) == [predecessor.action] + Reversed(actions);
      assert (s + [graphStates[cursor]]) + Reversed(states[..|actions|]) == s + Reversed(states);
      assert (a + [predecessor.action]) + Reversed(actions) == a + Reversed(actions + [predecessor.action]);
      actions := actions + [predecessor.action];
      cursor := predecessor.state;
      assert (states + [graphStates[cursor]])[..|actions|] == states;
      states := states + [graphStates[cursor]];
    }
    assert Reversed(states) == [graphStates[cursor]] + Reversed(states[..|actions|]);
    assert [] + Reversed(actions) == Reversed(actions);
    r := Some(Counterexample(target, depths[target], Reversed(states), Reversed(actions)));
  }

  /** The recorded successor map: each recorded state's identifier. */
  ghost predicate Canonical<G>(canonical: map<G, nat>, states: seq<G>) {
    && (forall x :: x in canonical ==> canonical[x] < |states| && states[canonical[x]] == x)
    && (forall i :: 0 <= i < |states| ==> states[i] in canonical && canonical[states[i]] == i)
  }

  /** Append one state to the parallel columns under the next identifier. */
  method InsertState<G(==), A>(state: G, depth: nat, predecessor: Option<Predecessor<A>>, states: seq<G>, depths: seq<nat>,
                               predecessors: seq<Option<Predecessor<A>>>, canonical: map<G, nat>)
    returns (id: Option<nat>, states': seq<G>, depths': seq<nat>,
             predecessors': seq<Option<Predecessor<A>>>, canonical': map<G, nat>)
    requires Canonical(canonical, states) && state !in states
    ensures id == if |states| < ID_LIMIT then Some(|states|) else None
    ensures id.Some? ==>
      && states' == states + [state] && depths' == depths + [depth] && predecessors' == predecessors + [predecessor]
      && Canonical(canonical', states')
  {
    states', depths', predecessors', canonical' := states, depths, predecessors, canonical;
    if |states| >= ID_LIMIT {
      return None, states, depths, predecessors, canonical;
    }
    id := Some(|states|);
    states' := states + [state];
    depths' := depths + [depth];
    predecessors' := predecessors + [predecessor];
    canonical' := canonical[state := |states|];
  }

  // ----- Exploration -----

  /** The identifiers from `first` to the last recorded one: what the work queue always holds. */
  ghost predicate QueueFrom(queue: seq<nat>, first: nat, states: nat) {
    first + |queue| == states && forall i :: 0 <= i < |queue| ==> queue[i] == first + i
  }

  /** The columns of `g` and its counters are those of the search after `m` steps. */
  ghost predicate Records<G, A>(sys: System<G, A>, g: ExplicitGraph<G, A>, m: nat) {
    var c := After(sys, m);
    && g.states == c.states && g.edges == c.edges && g.depths == c.depths && g.predecessors == c.preds
    && g.initialStates == seq(|sys.initial|, i => i)
    && g.stats.states == |c.states| && g.stats.transitions == |c.edges|
    && g.stats.duplicateStateHits == c.duplicates && g.stats.maximumDepth == c.maxDepth
    && g.stats.initialStates == |sys.initial|
  }

  /** Why the exploration stopped at step `m`. */
  ghost predicate StoppedAt<G, A>(sys: System<G, A>, limit: Option<nat>, termination: TerminationReason, m: nat) {
    var c := After(sys, m);
    match termination
    case Exhausted => c.from == |c.states|
    case StateLimitReached =>
      && limit.Some? && limit.value <= |c.states| && HasAction(sys, c)
      && var t := sys.step(c.states[c.from], sys.legal(c.states[c.from])[c.next]);
         t.Some? && t.value !in c.states
  }

  /** Why no graph could be built, at step `m`. */
  ghost predicate FailedAt<G, A>(sys: System<G, A>, error: CheckError<G, A>, m: nat) {
    var c := After(sys, m);
    match error
    case LegalTransition(state, action) =>
      && HasAction(sys, c) && state == c.states[c.from] && action == sys.legal(state)[c.next]
      && sys.step(state, action) == None
    case StateIdOverflow =>
      || (m == 0 && |c.states| > ID_LIMIT)
      || (&& |c.states| >= ID_LIMIT && HasAction(sys, c)
          && var t := sys.step(c.states[c.from], sys.legal(c.states[c.from])[c.next]);
             t.Some? && t.value !in c.states)
  }

  method InsertInitial<G(==), A>(initial: seq<G>)
    returns (ids: Option<seq<nat>>, states: seq<G>, depths: seq<nat>,
             predecessors: seq<Option<Predecessor<A>>>, canonical: map<G, nat>)
    requires Distinct(initial)
    ensures ids == if |initial| <= ID_LIMIT then Some(seq(|initial|, i => i)) else None
    ensures ids.Some? ==>
      && states == initial && depths == seq(|initial|, _ => 0) && predecessors == seq(|initial|, _ => None)
      && Canonical(canonical, states)
  {
    states, depths, predecessors, canonical := [], [], [], map[];
    var inserted: seq<nat> := [];
    for i := 0 to |initial|
      invariant i <= ID_LIMIT
      invariant states == initial[..i] && depths == seq(i, _ => 0) && predecessors == seq(i, _ => None)
      invariant inserted == seq(i, k => k) && Canonical(canonical, states)
    {
      var id;
      id, states, depths, predecessors, canonical :=
        InsertState(initial[i], 0, None, states, depths, predecessors, canonical);
      if id.None? {
        return None, states, depths, predecessors, canonical;
      }
      inserted := inserted + [id.value];
    }
    ids := Some(inserted);
  }

  method ExploreWithConfig<G(==), A>(sys: System<G, A>, finished: G -> bool, limit: Option<nat>)
    returns (r: Result<ExplicitGraph<G, A>, CheckError<G, A>>, ghost m: nat)
    requires Distinct(sys.initial)
    ensures r.Success? ==> Records(sys, r.value, m) && StoppedAt(sys, limit, r.value.stats.termination, m)
    ensures r.Success? ==>
      r.value.stats.finishedStates == |FinishedIds(finished, r.value.states)|
    ensures r.Success? ==> |r.value.states| <= ID_LIMIT
    ensures r.Success? && limit.Some? ==> |r.value.states| <= Max(limit.value, |sys.initial|)
    ensures r.Success? && r.value.stats.termination.StateLimitReached? ==> limit.Some? && |r.value.states| >= limit.value
    ensures r.Failure? ==> FailedAt(sys, r.error, m)
  {
    hide Tree, Distinct, Layered, Expanded, Counted, Canonical, After, Step, CountFinished, IndexOf;
    m := 0;
    AtStart(sys);
    var ids, states, depths, predecessors, canonical := InsertInitial<G, A>(sys.initial);
    if ids.None? {
      return Failure(StateIdOverflow), 0;
    }
    var initialStates := ids.value;
    var queue := ids.value;
    var edges: seq<Arc<A>> := [];
    var duplicates, maximumDepth := 0, 0;
    var termination := Exhausted;
    label bfs: while queue != []
      invariant After(sys, m) == Search(states, depths, predecessors, edges, duplicates, maximumDepth, After(sys, m).from, 0)
      invariant Canonical(canonical, states) && |states| <= ID_LIMIT
      invariant QueueFrom(queue, After(sys, m).from, |states|)
      invariant termination == Exhausted
      invariant limit.Some? ==> |states| <= Max(limit.value, |sys.initial|)
      decreases ID_LIMIT - After(sys, m).from
    {
      var from := queue[0];
      queue := queue[1..];
      var state := states[from];
      var actions := sys.legal(state);
      for j := 0 to |actions|
        invariant After(sys, m) == Search(states, depths, predecessors, edges, duplicates, maximumDepth, from, j)
        invariant Canonical(canonical, states) && |states| <= ID_LIMIT
        invariant QueueFrom(queue, from + 1, |states|)
        invariant from < |states| && states[from] == state
        invariant limit.Some? ==> |states| <= Max(limit.value, |sys.initial|)
      {
        var action := actions[j];
        var transition := sys.step(state, action);
        if transition.None? {
          return Failure(LegalTransition(state, action)), m;
        }
        var next := transition.value;
        AtTake(sys, m, next);
        var to: nat;
        if next in canonical {
          duplicates := duplicates + 1;
          to := canonical[next];
          CanonicalIndex(canonical, states, next);
        } else {
          CanonicalAbsent(canonical, states, next);
          if limit.Some? && |states| >= limit.value {
            termination := StateLimitReached;
            break bfs;
          }
          var depth := depths[from] + 1;
          maximumDepth := Max(maximumDepth, depth);
          var id;
          id, states, depths, predecessors, canonical :=
            InsertState(next, depth, Some(Predecessor(from, action)), states, depths, predecessors, canonical);
          if id.None? {
            return Failure(StateIdOverflow), m;
          }
          queue := queue + [id.value];
          to := id.value;
        }
        edges := edges + [Arc(from, action, to)];
        m := m + 1;
      }
      AtNext(sys, m);
      m := m + 1;
    }
    var finishedStates := FinishedStates(finished, states);
    CountFinishedMeans(finished, states);
    r := Success(ExplicitGraph(states, edges, depths, predecessors, initialStates,
                               Stats(|states|, |edges|, duplicates, maximumDepth, |initialStates|, finishedStates, termination)));
  }

  lemma AtStart<G, A>(sys: System<G, A>)
    ensures After(sys, 0) == Start(sys)
  {
  }

  lemma AtTake<G, A>(sys: System<G, A>, m: nat, t: G)
    requires Distinct(sys.initial) && HasAction(sys, After(sys, m))
    requires var c := After(sys, m); sys.step(c.states[c.from], sys.legal(c.states[c.from])[c.next]) == Some(t)
    ensures After(sys, m + 1) == Take(sys, After(sys, m), t)
    ensures |After(sys, m).depths| == |After(sys, m).states|
  {
  }

  lemma AtNext<G, A>(sys: System<G, A>, m: nat)
    requires var c := After(sys, m); c.from < |c.states| && c.next >= |sys.legal(c.states[c.from])|
    ensures After(sys, m + 1) == var c := After(sys, m); c.(from := c.from + 1, next := 0)
  {
  }

  method FinishedStates<G>(finished: G -> bool, states: seq<G>) returns (n: nat)
    ensures n == CountFinished(finished, states)
  {
    n := 0;
    for i := 0 to |states|
      invariant n == CountFinished(finished, states[..i])
    {
      assert states[..i + 1][..i] == states[..i];
      if finished(states[i]) {
        n := n + 1;
      }
    }
    assert states[..|states|] == states;
  }

  ghost function CountFinished<G>(finished: G -> bool, states: seq<G>): nat {
    if states == [] then 0
    else CountFinished(finished, states[..|states| - 1]) + if finished(states[|states| - 1]) then 1 else 0
  }

  ghost function FinishedIds<G>(finished: G -> bool, states: seq<G>): set<nat> {
    set i: nat | i < |states| && finished(states[i])
  }

  /** The count is the number of finished states. */
  lemma {:induction false} CountFinishedMeans<G>(finished: G -> bool, states: seq<G>)
    ensures CountFinished(finished, states) == |FinishedIds(finished, states)|
  {
    if states != [] {
      var front, last := states[..|states| - 1], states[|states| - 1];
      CountFinishedMeans(finished, front);
      assert states == front + [last];
      FinishedStep(finished, front, last);
    }
  }

  lemma FinishedStep<G>(finished: G -> bool, front: seq<G>, last: G)
    ensures |FinishedIds(finished, front + [last])| == |FinishedIds(finished, front)| + if finished(last) then 1 else 0
  {
    var all, some := FinishedIds(finished, front + [last]), FinishedIds(finished, front);
    if finished(last) {
      assert all == some + {|front|} && |front| !in some;
    } else {
      assert all == some;
    }
  }

  lemma CanonicalIndex<G>(canonical: map<G, nat>, states: seq<G>, x: G)
    requires Canonical(canonical, states) && x in canonical
    ensures x in states && canonical[x] == IndexOf(states, x) && canonical[x] < |states|
  {
    assert states[canonical[x]] == x;
    assert canonical[states[IndexOf(states, x)]] == IndexOf(states, x);
  }

  lemma CanonicalAbsent<G>(canonical: map<G, nat>, states: seq<G>, x: G)
    requires Canonical(canonical, states) && x !in canonical
    ensures x !in states
  {
  }

  // ----- What an exploration establishes -----

  ghost predicate ShortestTo<G(!new), A(!new)>(sys: System<G, A>, s: G, depth: nat) {
    && (exists states, actions :: IsRun(sys, states, actions) && |actions| == depth && states[|actions|] == s)
    && (forall states, actions :: IsRun(sys, states, actions) && states[|actions|] == s ==> depth <= |actions|)
  }

  /** An edge names a recorded state, one of its advertised actions and the recorded successor. */
  ghost predicate RealEdge<G, A>(sys: System<G, A>, states: seq<G>, e: Arc<A>) {
    && e.from < |states| && e.to < |states|
    && e.action in sys.legal(states[e.from])
    && sys.step(states[e.from], e.action) == Some(states[e.to])
  }

  /** The graph is the reachable part of the system, without repeats, at true distances,
      with every advertised action of every state recorded in order. */
  ghost predicate Exact<G(!new), A(!new)>(sys: System<G, A>, g: ExplicitGraph<G, A>) {
    && Distinct(g.states)
    && (forall s :: s in g.states <==> Reachable(sys, s))
    && |g.depths| == |g.states| == |g.predecessors|
    && (forall i :: 0 <= i < |g.states| ==> ShortestTo(sys, g.states[i], g.depths[i]))
    && g.edges == EdgesUpTo(sys, g.states, |g.states|, 0)
    && (forall e :: e in g.edges ==> RealEdge(sys, g.states, e))
  }

  /** Recorded depths are true distances, whether or not the search was exhausted: a shorter run
      would end within the states already expanded. */
  lemma DepthIsShortest<G(!new), A(!new)>(sys: System<G, A>, c: Search<G, A>, i: nat)
    requires Sound(sys, c) && i < |c.states|
    ensures ShortestTo(sys, c.states[i], c.depths[i])
  {
    hide Expanded, Counted, Linked;
    TreeDown(sys, c.states, c.depths, c.preds);
    TraceIsRun(sys, c.states, c.depths, c.preds, i);
    forall states, actions | IsRun(sys, states, actions) && states[|actions|] == c.states[i]
      ensures c.depths[i] <= |actions|
    {
      if |actions| < c.depths[i] {
        var k := Covered(sys, c, states, actions, |actions|);
      }
    }
  }

  lemma RecordedIsReachable<G(!new), A(!new)>(sys: System<G, A>, c: Search<G, A>, i: nat)
    requires Sound(sys, c) && i < |c.states|
    ensures Reachable(sys, c.states[i])
  {
    hide Expanded, Counted;
    TreeDown(sys, c.states, c.depths, c.preds);
    TraceIsRun(sys, c.states, c.depths, c.preds, i);
  }

  lemma {:induction false} EdgesReal<G, A>(sys: System<G, A>, c: Search<G, A>, from: nat, next: nat, e: Arc<A>)
    requires |c.states| == |c.depths| && Expanded(sys, c)
    requires from < c.from || (from == c.from && next <= c.next)
    requires from <= |c.states| && next <= (if from < |c.states| then |sys.legal(c.states[from])| else 0)
    requires e in EdgesUpTo(sys, c.states, from, next)
    ensures RealEdge(sys, c.states, e)
    decreases from, next
  {
    if next > 0 {
      if e == EdgeAt(sys, c.states, from, next - 1) {
        assert Known(sys, c.states, c.depths, from, next - 1);
      } else {
        EdgesReal(sys, c, from, next - 1, e);
      }
    } else {
      EdgesReal(sys, c, from - 1, |sys.legal(c.states[from - 1])|, e);
    }
  }

  /** Without a limit, exploration that ends successfully is exact. */
  lemma ExhaustiveIsExact<G(!new), A(!new)>(sys: System<G, A>, limit: Option<nat>, g: ExplicitGraph<G, A>, m: nat)
    requires Distinct(sys.initial) && Records(sys, g, m) && StoppedAt(sys, limit, Exhausted, m)
    ensures Exact(sys, g)
  {
    hide Tree, Layered, Expanded, ShortestTo, Reachable, RealEdge, IsRun;
    var c := After(sys, m);
    AfterSound(sys, m);
    forall i | 0 <= i < |c.states|
      ensures ShortestTo(sys, c.states[i], c.depths[i]) && Reachable(sys, c.states[i])
    {
      DepthIsShortest(sys, c, i);
      RecordedIsReachable(sys, c, i);
    }
    forall s | Reachable(sys, s)
      ensures s in c.states
    {
      ReachableIsRecorded(sys, c, s);
    }
    forall e | e in c.edges
      ensures RealEdge(sys, c.states, e)
    {
      EdgesReal(sys, c, c.from, c.next, e);
    }
    ColumnsMatch(sys, c);
  }

  lemma ColumnsMatch<G, A>(sys: System<G, A>, c: Search<G, A>)
    requires Tree(sys, c.states, c.depths, c.preds)
    ensures |c.states| == |c.depths| == |c.preds|
  {
  }

  lemma ReachableIsRecorded<G(!new), A(!new)>(sys: System<G, A>, c: Search<G, A>, s: G)
    requires Sound(sys, c) && c.from == |c.states| && Reachable(sys, s)
    ensures s in c.states
  {
    hide Sound;
    var states, actions :| IsRun(sys, states, actions) && states[|actions|] == s;
    var i := Covered(sys, c, states, actions, |actions|);
  }

  /** Conservation: every tried transition either repeats a state or discovers one. */
  lemma TransitionsConserved<G, A>(sys: System<G, A>, g: ExplicitGraph<G, A>, m: nat)
    requires Distinct(sys.initial) && Records(sys, g, m)
    ensures g.stats.transitions + g.stats.initialStates == g.stats.duplicateStateHits + g.stats.states
    ensures |g.edges| == g.stats.transitions && |g.states| == g.stats.states
    ensures forall i :: 0 <= i < |g.depths| ==> g.depths[i] <= g.stats.maximumDepth
    ensures g.stats.maximumDepth > 0 ==> g.stats.maximumDepth in g.depths
  {
    AfterSound(sys, m);
  }

  /** A limited exploration is a prefix of the full one, column by column. */
  lemma LimitedIsPrefix<G, A>(sys: System<G, A>, limit: Option<nat>, g: ExplicitGraph<G, A>, m: nat,
                              full: ExplicitGraph<G, A>, n: nat)
    requires Records(sys, g, m) && Records(sys, full, n) && StoppedAt(sys, limit, Exhausted, n)
    ensures g.states <= full.states && g.depths <= full.depths
    ensures g.predecessors <= full.predecessors && g.edges <= full.edges
  {
    if m <= n {
      AfterGrows(sys, m, n);
    } else {
      StuckForever(sys, n, m);
    }
  }

  /** A limited exploration has missed a reachable state. */
  lemma LimitMisses<G(!new), A(!new)>(sys: System<G, A>, limit: Option<nat>, m: nat) returns (t: G)
    requires Distinct(sys.initial) && StoppedAt(sys, limit, StateLimitReached, m)
    ensures t !in After(sys, m).states && Reachable(sys, t)
  {
    hide Tree, Layered, Expanded, Counted, Reachable, IsRun;
    AfterSound(sys, m);
    var c := After(sys, m);
    RecordedIsReachable(sys, c, c.from);
    t := sys.step(c.states[c.from], sys.legal(c.states[c.from])[c.next]).value;
    SuccessorReachable(sys, c.states[c.from], sys.legal(c.states[c.from])[c.next], t);
  }

  /** How many actions the first `i` states have. */
  ghost function Before<G, A>(sys: System<G, A>, states: seq<G>, i: nat): nat
    requires i <= |states|
  {
    if i == 0 then 0 else Before(sys, states, i - 1) + |sys.legal(states[i - 1])|
  }

  /** The edges lie state by state, and each state's in the order of its actions. */
  lemma {:induction false} EdgePosition<G, A>(sys: System<G, A>, states: seq<G>, from: nat, next: nat, i: nat, j: nat)
    requires from <= |states| && next <= (if from < |states| then |sys.legal(states[from])| else 0)
    requires i < |states| && j < |sys.legal(states[i])| && (i < from || (i == from && j < next))
    ensures |EdgesUpTo(sys, states, from, next)| == Before(sys, states, from) + next
    ensures Before(sys, states, i) + j < |EdgesUpTo(sys, states, from, next)|
    ensures EdgesUpTo(sys, states, from, next)[Before(sys, states, i) + j] == EdgeAt(sys, states, i, j)
    decreases from, next
  {
    EdgesTotal(sys, states, from, next);
    if next > 0 {
      EdgesTotal(sys, states, from, next - 1);
      if i < from || j < next - 1 {
        EdgePosition(sys, states, from, next - 1, i, j);
      }
    } else {
      EdgePosition(sys, states, from - 1, |sys.legal(states[from - 1])|, i, j);
    }
  }

  lemma {:induction false} EdgesTotal<G, A>(sys: System<G, A>, states: seq<G>, from: nat, next: nat)
    requires from <= |states| && next <= (if from < |states| then |sys.legal(states[from])| else 0)
    ensures |EdgesUpTo(sys, states, from, next)| == Before(sys, states, from) + next
    decreases from, next
  {
    if next > 0 {
      EdgesTotal(sys, states, from, next - 1);
    } else if from > 0 {
      EdgesTotal(sys, states, from - 1, |sys.legal(states[from - 1])|);
    }
  }

  /** A failed exploration names a reachable state whose advertised action is rejected,
      or has found more distinct reachable states than identifiers. */
  lemma FailureIsReal<G(!new), A(!new)>(sys: System<G, A>, error: CheckError<G, A>, m: nat)
    requires Distinct(sys.initial) && FailedAt(sys, error, m)
    ensures error.LegalTransition? ==>
      Reachable(sys, error.state) && error.action in sys.legal(error.state) && sys.step(error.state, error.action) == None
    ensures error.StateIdOverflow? ==>
      exists s: seq<G> :: |s| > 0x1_0000_0000 && Distinct(s) && forall x :: x in s ==> Reachable(sys, x)
  {
    hide Tree, Layered, Expanded, Counted, Reachable, IsRun;
    AfterSound(sys, m);
    var c := After(sys, m);
    forall i | 0 <= i < |c.states|
      ensures Reachable(sys, c.states[i])
    {
      RecordedIsReachable(sys, c, i);
    }
    if error.StateIdOverflow? {
      if |c.states| > ID_LIMIT {
        assert Distinct(c.states);
      } else {
        var t := sys.step(c.states[c.from], sys.legal(c.states[c.from])[c.next]).value;
        SuccessorReachable(sys, c.states[c.from], sys.legal(c.states[c.from])[c.next], t);
        assert Distinct(c.states + [t]);
      }
    }
  }

  lemma SuccessorReachable<G(!new), A(!new)>(sys: System<G, A>, s: G, a: A, t: G)
    requires Reachable(sys, s) && a in sys.legal(s) && sys.step(s, a) == Some(t)
    ensures Reachable(sys, t)
  {
    var states, actions :| IsRun(sys, states, actions) && states[|actions|] == s;
    assert IsRun(sys, states + [t], actions + [a]);
    assert (states + [t])[|actions + [a]|] == t;
  }

  /** The canonical trace to a discovered state is a shortest run to it, limited search or not. */
  method ShortestTrace<G(!new), A(!new)>(ghost sys: System<G, A>, g: ExplicitGraph<G, A>, ghost m: nat, target: nat)
    returns (r: Option<Counterexample<G, A>>)
    requires Distinct(sys.initial) && Records(sys, g, m)
    ensures r.None? <==> target >= |g.states|
    ensures r.Some? ==>
      && target < |g.depths|
      && IsRun(sys, r.value.states, r.value.actions)
      && r.value.target == target && r.value.depth == |r.value.actions| == g.depths[target]
      && r.value.states[|r.value.actions|] == g.states[target]
      && ShortestTo(sys, g.states[target], r.value.depth)
  {
    hide After, Layered, Expanded, Counted, Distinct, IsRun, ShortestTo;
    AfterSound(sys, m);
    TreeDown(sys, g.states, g.depths, g.predecessors);
    r := Reconstruct(target, g.states, g.depths, g.predecessors);
    if r.Some? {
      TraceIsRun(sys, g.states, g.depths, g.predecessors, target);
      DepthIsShortest(sys, After(sys, m), target);
    }
  }

  /** A shortest prefix to the source of one recorded edge, followed by exactly that edge. */
  method TraceThroughEdge<G(!new), A(!new)>(ghost sys: System<G, A>, g: ExplicitGraph<G, A>, ghost m: nat, edge: Arc<A>)
    returns (r: Option<Counterexample<G, A>>)
    requires Distinct(sys.initial) && Records(sys, g, m)
    ensures r.None? <==> edge.from >= |g.states| || edge.to >= |g.states|
    ensures r.Some? && edge in g.edges ==>
      && edge.from < |g.depths|
      && IsRun(sys, r.value.states, r.value.actions)
      && r.value.target == edge.to && r.value.depth == |r.value.actions| == g.depths[edge.from] + 1
      && r.value.actions[|r.value.actions| - 1] == edge.action
      && r.value.states[|r.value.actions| - 1] == g.states[edge.from]
      && r.value.states[|r.value.actions|] == g.states[edge.to]
      && ShortestTo(sys, g.states[edge.from], r.value.depth - 1)
  {
    hide After, Layered, Expanded, Distinct, EdgesUpTo, ShortestTo;
    var trace := ShortestTrace(sys, g, m, edge.from);
    if trace.None? || edge.to >= |g.states| {
      return None;
    }
    AfterSound(sys, m);
    var t := trace.value;
    r := Some(Counterexample(edge.to, t.depth + 1, t.states + [g.states[edge.to]], t.actions + [edge.action]));
    if edge in g.edges {
      EdgesReal(sys, After(sys, m), After(sys, m).from, After(sys, m).next, edge);
    }
  }

  // ----- Early-exit counterexample search -----

  ghost predicate ShortestViolation<G(!new), A(!new)>(sys: System<G, A>, holds: G -> bool, x: Counterexample<G, A>) {
    && IsRun(sys, x.states, x.actions)
    && x.depth == |x.actions|
    && !holds(x.states[x.depth])
    && (forall k :: 0 <= k < x.depth ==> holds(x.states[k]))
    && (forall states, actions :: IsRun(sys, states, actions) && !holds(states[|actions|]) ==> x.depth <= |actions|)
  }

  /** Only the last state of the trace to the newest state can violate what all earlier ones satisfy. */
  lemma {:induction false} TraceStates<G, A>(states: seq<G>, preds: seq<Option<Predecessor<A>>>, id: nat, k: nat)
    requires id < |states| == |preds| && PredsDown(preds)
    requires k < |TraceTo(states, preds, id).0|
    ensures |TraceTo(states, preds, id).0| == |TraceTo(states, preds, id).1| + 1
    ensures exists i :: && 0 <= i <= id && TraceTo(states, preds, id).0[k] == states[i]
                        && (k < |TraceTo(states, preds, id).1| ==> i < id)
    decreases id
  {
    match preds[id]
    case None =>
    case Some(p) =>
      var (s, a) := TraceTo(states, preds, p.state);
      if k < |s| {
        TraceStates(states, preds, p.state, k);
      } else {
        TraceStates(states, preds, p.state, 0);
      }
  }

  /** The newest state violates, all others hold: its tree trace is a shortest violation. */
  lemma NewestIsShortest<G(!new), A(!new)>(sys: System<G, A>, holds: G -> bool, c: Search<G, A>, t: G)
    requires Sound(sys, c) && HasAction(sys, c) && t !in c.states && !holds(t)
    requires sys.step(c.states[c.from], sys.legal(c.states[c.from])[c.next]) == Some(t)
    requires forall i :: 0 <= i < |c.states| ==> holds(c.states[i])
    ensures var d := Take(sys, c, t);
      && PredsDown(d.preds) && |d.states| == |d.preds| == |d.depths| == |c.states| + 1
      && var (s, a) := TraceTo(d.states, d.preds, |c.states|);
         ShortestViolation(sys, holds, Counterexample(|c.states|, d.depths[|c.states|], s, a))
  {
    hide Layered, Expanded, Counted, Distinct;
    var d := Take(sys, c, t);
    TakeNewTree(sys, c, t);
    TreeDown(sys, d.states, d.depths, d.preds);
    TraceIsRun(sys, d.states, d.depths, d.preds, |c.states|);
    var (s, a) := TraceTo(d.states, d.preds, |c.states|);
    forall k | 0 <= k < |a|
      ensures holds(s[k])
    {
      TraceStates(d.states, d.preds, |c.states|, k);
    }
    forall states, actions | IsRun(sys, states, actions) && !holds(states[|actions|])
      ensures |a| <= |actions|
    {
      if |actions| <= c.depths[c.from] {
        var i := Covered(sys, c, states, actions, |actions|);
      }
    }
  }

  method ShortestCounterexample<G(==,!new), A(!new)>(sys: System<G, A>, holds: G -> bool)
    returns (r: Result<Option<Counterexample<G, A>>, CheckError<G, A>>, ghost m: nat)
    requires Distinct(sys.initial)
    ensures r.Success? && r.value.None? ==> forall s :: Reachable(sys, s) ==> holds(s)
    ensures r.Success? && r.value.Some? ==> ShortestViolation(sys, holds, r.value.value)
    ensures r.Failure? ==> FailedAt(sys, r.error, m)
  {
    hide Tree, Distinct, Layered, Expanded, Counted, Canonical, After, Step, IndexOf, ShortestViolation, TraceTo, IsRun, Reachable, Sound;
    m := 0;
    AtStart(sys);
    var states: seq<G>, depths: seq<nat>, predecessors: seq<Option<Predecessor<A>>>, canonical: map<G, nat> := [], [], [], map[];
    var queue: seq<nat> := [];
    EmptyCanonical(canonical, states);
    for i := 0 to |sys.initial|
      invariant i <= ID_LIMIT
      invariant states == sys.initial[..i] && depths == seq(i, _ => 0) && predecessors == seq(i, _ => None)
      invariant Canonical(canonical, states) && QueueFrom(queue, 0, i)
      invariant forall k :: 0 <= k < i ==> holds(sys.initial[k])
    {
      var state := sys.initial[i];
      var id;
      FreshInitial(sys.initial, i);
      id, states, depths, predecessors, canonical :=
        InsertState(state, 0, None, states, depths, predecessors, canonical);
      if id.None? {
        return Failure(StateIdOverflow), 0;
      }
      if !holds(state) {
        assert states == sys.initial[..i + 1] && predecessors == seq(i + 1, _ => None);
        InitialViolation(sys, holds, i, predecessors);
        var found := Reconstruct(id.value, states, depths, predecessors);
        return Success(found), 0;
      }
      queue := queue + [id.value];
    }
    assert sys.initial[..|sys.initial|] == sys.initial;
    while queue != []
      invariant Matches(After(sys, m), states, depths, predecessors, After(sys, m).from, 0)
      invariant Canonical(canonical, states) && |states| <= ID_LIMIT
      invariant QueueFrom(queue, After(sys, m).from, |states|)
      invariant forall k :: 0 <= k < |states| ==> holds(states[k])
      decreases ID_LIMIT - After(sys, m).from
    {
      var from := queue[0];
      queue := queue[1..];
      var state := states[from];
      var actions := sys.legal(state);
      for j := 0 to |actions|
        invariant Matches(After(sys, m), states, depths, predecessors, from, j)
        invariant Canonical(canonical, states) && |states| <= ID_LIMIT
        invariant QueueFrom(queue, from + 1, |states|)
        invariant from < |states| && states[from] == state
        invariant forall k :: 0 <= k < |states| ==> holds(states[k])
      {
        var action := actions[j];
        var transition := sys.step(state, action);
        if transition.None? {
          return Failure(LegalTransition(state, action)), m;
        }
        var next := transition.value;
        AtTake(sys, m, next);
        if next in canonical {
          CanonicalIndex(canonical, states, next);
          m := m + 1;
          continue;
        }
        CanonicalAbsent(canonical, states, next);
        var id;
        id, states, depths, predecessors, canonical :=
          InsertState(next, depths[from] + 1, Some(Predecessor(from, action)), states, depths, predecessors, canonical);
        if id.None? {
          return Failure(StateIdOverflow), m;
        }
        if !holds(next) {
          AfterSound(sys, m);
          NewestIsShortest(sys, holds, After(sys, m), next);
          var found := Reconstruct(id.value, states, depths, predecessors);
          return Success(found), m;
        }
        queue := queue + [id.value];
        m := m + 1;
      }
      AtNext(sys, m);
      m := m + 1;
    }
    AfterSound(sys, m);
    forall s | Reachable(sys, s)
      ensures holds(s)
    {
      ReachableIsRecorded(sys, After(sys, m), s);
    }
    r := Success(None);
  }

  /** The columns kept by the early-exit search are those of the search machine. */
  ghost predicate Matches<G, A>(c: Search<G, A>, states: seq<G>, depths: seq<nat>,
                                predecessors: seq<Option<Predecessor<A>>>, from: nat, next: nat)
  {
    c.states == states && c.depths == depths && c.preds == predecessors && c.from == from && c.next == next
  }

  lemma EmptyCanonical<G>(canonical: map<G, nat>, states: seq<G>)
    requires canonical == map[] && states == []
    ensures Canonical(canonical, states)
  {
  }

  lemma FreshInitial<G>(initial: seq<G>, i: nat)
    requires Distinct(initial) && i < |initial|
    ensures initial[i] !in initial[..i]
  {
  }

  /** A violating initial state is a violation of length zero. */
  lemma InitialViolation<G(!new), A(!new)>(sys: System<G, A>, holds: G -> bool, i: nat, preds: seq<Option<Predecessor<A>>>)
    requires i < |sys.initial| && !holds(sys.initial[i]) && preds == seq(i + 1, _ => None)
    ensures PredsDown(preds)
    ensures var (s, a) := TraceTo(sys.initial[..i + 1], preds, i);
      ShortestViolation(sys, holds, Counterexample(i, 0, s, a))
  {
  }
}
