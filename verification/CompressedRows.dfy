/** Compressed sparse row adjacency, built from an edge list by counting and placing. */
module CompressedRows {
  import opened Wrappers
  import opened Digraph

  const USIZE_MAX: nat := 0xFFFF_FFFF_FFFF_FFFF

  datatype Arc<A> = Arc(from: nat, action: A, to: nat)

  datatype GraphError = SourceAbsent | InjectedEndpointAbsent

  datatype Csr = Csr(offsets: seq<nat>, targets: seq<nat>) {

    ghost predicate Valid() {
      && |offsets| > 0
      && offsets[0] == 0
      && offsets[|offsets| - 1] == |targets|
      && (forall i, j :: 0 <= i <= j < |offsets| ==> offsets[i] <= offsets[j])
    }

    function States(): nat
      requires Valid()
    {
      |offsets| - 1
    }

    function Neighbors(state: nat): seq<nat>
      requires Valid() && state < States()
    {
      targets[offsets[state]..offsets[state + 1]]
    }

    /** The adjacency lists this structure stores. */
    ghost function Lists(): (adj: Adjacency)
      requires Valid()
      ensures |adj| == States()
      ensures forall s :: 0 <= s < |adj| ==> adj[s] == Neighbors(s)
    {
      seq(States(), s requires 0 <= s < States() => Neighbors(s))
    }
  }

  /** Targets of the kept edges leaving `state`, in edge-list order. */
  ghost function Outgoing<A>(edges: seq<Arc<A>>, removed: Option<nat>, state: nat): seq<nat> {
    if edges == [] then []
    else
      var last := edges[|edges| - 1];
      Outgoing(edges[..|edges| - 1], removed, state)
      + if last.from == state && removed != Some(state) then [last.to] else []
  }

  /** What `Neighbors(state)` has to be: kept edges in order, then the injected edge. */
  ghost function Row<A>(edges: seq<Arc<A>>, injected: Option<(nat, nat)>, removed: Option<nat>, state: nat): seq<nat> {
    Outgoing(edges, removed, state)
    + if injected.Some? && injected.value.0 == state then [injected.value.1] else []
  }

  ghost predicate SourceMissing<A>(states: nat, edges: seq<Arc<A>>, removed: Option<nat>) {
    exists k :: 0 <= k < |edges| && edges[k].from >= states && removed != Some(edges[k].from)
  }

  ghost predicate InjectedMissing(states: nat, injected: Option<(nat, nat)>) {
    injected.Some? && (injected.value.0 >= states || injected.value.1 >= states)
  }

  /** A row picks out, in edge-list order, exactly the edges that leave its state, and lists their targets; the
      removed state's row has none. */
  lemma {:induction false} RowPicksEdges<A>(edges: seq<Arc<A>>, removed: Option<nat>, state: nat) returns (picked: seq<nat>)
    ensures |picked| == |Outgoing(edges, removed, state)|
    ensures forall k :: 0 <= k < |picked| ==>
      picked[k] < |edges| && edges[picked[k]].from == state && Outgoing(edges, removed, state)[k] == edges[picked[k]].to
    ensures forall j, k :: 0 <= j < k < |picked| ==> picked[j] < picked[k]
    ensures removed == Some(state) ==> picked == []
    ensures removed != Some(state) ==> forall i :: 0 <= i < |edges| && edges[i].from == state ==> i in picked
  {
    picked := [];
    if edges != [] {
      var last := |edges| - 1;
      picked := RowPicksEdges(edges[..last], removed, state);
      if edges[last].from == state && removed != Some(state) {
        picked := picked + [last];
      }
    }
  }

  /** The injected edge comes last, in the row of its source alone. */
  lemma RowEndsInjected<A>(edges: seq<Arc<A>>, injected: Option<(nat, nat)>, removed: Option<nat>, state: nat, target: nat)
    ensures injected == Some((state, target)) ==> Row(edges, injected, removed, state) == Outgoing(edges, removed, state) + [target]
    ensures injected.None? || injected.value.0 != state ==> Row(edges, injected, removed, state) == Outgoing(edges, removed, state)
  {
    hide Outgoing;
  }

  lemma {:induction false} OutgoingGrows<A>(edges: seq<Arc<A>>, removed: Option<nat>, state: nat, k: nat)
    requires k <= |edges|
    ensures |Outgoing(edges[..k], removed, state)| <= |Outgoing(edges, removed, state)| <= |edges|
    decreases |edges|
  {
    if |edges| == 0 {
    } else if k == |edges| {
      OutgoingGrows(edges[..|edges| - 1], removed, state, |edges| - 1);
      assert edges[..|edges| - 1][..|edges| - 1] == edges[..|edges| - 1];
      assert edges[..k] == edges;
    } else {
      OutgoingGrows(edges[..|edges| - 1], removed, state, k);
      assert edges[..|edges| - 1][..k] == edges[..k];
    }
  }

  lemma OutgoingStep<A>(edges: seq<Arc<A>>, removed: Option<nat>, state: nat, k: nat)
    requires k < |edges|
    ensures Outgoing(edges[..k + 1], removed, state) == Outgoing(edges[..k], removed, state)
            + if edges[k].from == state && removed != Some(state) then [edges[k].to] else []
  {
    assert edges[..k + 1][..k] == edges[..k];
  }

  /** Sum of the first `n` row lengths. */
  ghost function RowTotal(counts: seq<nat>, n: nat): nat
    requires n <= |counts|
  {
    if n == 0 then 0 else RowTotal(counts, n - 1) + counts[n - 1]
  }

  lemma {:induction false} TotalBump(counts: seq<nat>, i: nat, n: nat)
    requires i < |counts| && n <= |counts|
    ensures RowTotal(counts[i := counts[i] + 1], n) == RowTotal(counts, n) + if i < n then 1 else 0
  {
    if n > 0 {
      TotalBump(counts, i, n - 1);
    }
  }

  lemma {:induction false} TotalZero(counts: seq<nat>, n: nat)
    requires n <= |counts| && forall i :: 0 <= i < |counts| ==> counts[i] == 0
    ensures RowTotal(counts, n) == 0
  {
    if n > 0 {
      TotalZero(counts, n - 1);
    }
  }

  lemma {:induction false} Climbing(offsets: seq<nat>, i: nat, j: nat)
    requires i <= j < |offsets| && forall k :: 0 <= k < |offsets| - 1 ==> offsets[k] <= offsets[k + 1]
    ensures offsets[i] <= offsets[j]
    decreases j
  {
    if i < j {
      Climbing(offsets, i, j - 1);
    }
  }

  lemma {:induction false} TotalMonotone(counts: seq<nat>, m: nat, n: nat)
    requires m <= n <= |counts|
    ensures RowTotal(counts, m) <= RowTotal(counts, n)
    decreases n
  {
    if m < n {
      TotalMonotone(counts, m, n - 1);
    }
  }

  /** Per-source counts of the kept edges. */
  ghost predicate Counted<A>(counts: seq<nat>, edges: seq<Arc<A>>, removed: Option<nat>) {
    && (forall s :: 0 <= s < |counts| ==> counts[s] == |Outgoing(edges, removed, s)|)
    && RowTotal(counts, |counts|) <= |edges|
  }

  lemma CountStep<A>(counts: seq<nat>, edges: seq<Arc<A>>, removed: Option<nat>, k: nat)
    requires k < |edges| && Counted(counts, edges[..k], removed)
    ensures removed == Some(edges[k].from) ==> Counted(counts, edges[..k + 1], removed)
    ensures var f := edges[k].from;
      removed != Some(f) && f < |counts| ==>
        counts[f] <= k && Counted(counts[f := counts[f] + 1], edges[..k + 1], removed)
  {
    forall s | 0 <= s < |counts|
      ensures Outgoing(edges[..k + 1], removed, s) == Outgoing(edges[..k], removed, s)
              + if edges[k].from == s && removed != Some(s) then [edges[k].to] else []
    {
      OutgoingStep(edges, removed, s, k);
    }
    if edges[k].from < |counts| {
      OutgoingGrows(edges[..k], removed, edges[k].from, 0);
      TotalBump(counts, edges[k].from, |counts|);
    }
  }

  lemma NothingCounted<A>(counts: seq<nat>, removed: Option<nat>)
    requires forall s :: 0 <= s < |counts| ==> counts[s] == 0
    ensures Counted<A>(counts, [], removed)
  {
    TotalZero(counts, |counts|);
  }

  /** Complete counts, bumped for the injected edge, are the row lengths. */
  lemma CountedRows<A>(counts: seq<nat>, edges: seq<Arc<A>>, injected: Option<(nat, nat)>, removed: Option<nat>)
    requires Counted(counts, edges, removed)
    ensures var c := if injected.Some? && injected.value.0 < |counts|
                     then counts[injected.value.0 := counts[injected.value.0] + 1] else counts;
      && RowTotal(c, |c|) <= |edges| + 1
      && ((injected.Some? ==> injected.value.0 < |counts|) ==>
            forall s :: 0 <= s < |c| ==> c[s] == |Row(edges, injected, removed, s)|)
  {
    if injected.Some? && injected.value.0 < |counts| {
      TotalBump(counts, injected.value.0, |counts|);
    }
  }

  /** Count the kept edges per source, then place them. The checked additions of the source
      cannot overflow while the edge vector itself fits in memory; the assertions say so. */
  method FromGraph<A>(states: nat, edges: seq<Arc<A>>, injected: Option<(nat, nat)>, removed: Option<nat>)
    returns (r: Result<Csr, GraphError>)
    requires states < USIZE_MAX && |edges| < USIZE_MAX
    ensures r.Failure? <==> SourceMissing(states, edges, removed) || InjectedMissing(states, injected)
    ensures r == Failure(SourceAbsent) <==> exists k :: 0 <= k < |edges| && edges[k].from >= states && removed != Some(edges[k].from)
    ensures r == Failure(InjectedEndpointAbsent) <==>
      && !SourceMissing(states, edges, removed)
      && injected.Some? && (injected.value.0 >= states || injected.value.1 >= states)
    ensures r.Success? ==>
      && r.value.Valid()
      && r.value.States() == states
      && forall s :: 0 <= s < states ==> r.value.Neighbors(s) == Row(edges, injected, removed, s)
  {
    hide Outgoing, Counted;
    var counts: seq<nat> := seq(states, _ => 0);
    NothingCounted<A>(counts, removed);
    assert edges[..0] == [];
    for k := 0 to |edges|
      invariant |counts| == states
      invariant forall j :: 0 <= j < k ==> edges[j].from < states || removed == Some(edges[j].from)
      invariant Counted(counts, edges[..k], removed)
    {
      var edge := edges[k];
      CountStep(counts, edges, removed, k);
      if removed == Some(edge.from) {
        continue;
      }
      if edge.from >= states {
        return Failure(SourceAbsent);
      }
      assert counts[edge.from] + 1 <= USIZE_MAX;
      counts := counts[edge.from := counts[edge.from] + 1];
    }
    assert edges[..|edges|] == edges;
    CountedRows(counts, edges, injected, removed);
    if injected.Some? {
      var (from, to) := injected.value;
      if from >= states || to >= states {
        return Failure(InjectedEndpointAbsent);
      }
      counts := counts[from := counts[from] + 1];
    }
    var csr := FromCountsAndEdges(states, counts, edges, injected, removed);
    r := Success(csr);
  }

  /** Row boundaries leave exactly enough room for every row. */
  ghost predicate Roomy<A>(offsets: seq<nat>, edges: seq<Arc<A>>, injected: Option<(nat, nat)>, removed: Option<nat>) {
    && |offsets| > 0
    && (forall i, j :: 0 <= i <= j < |offsets| ==> offsets[i] <= offsets[j])
    && (forall s :: 0 <= s < |offsets| - 1 ==> offsets[s + 1] == offsets[s] + |Row(edges, injected, removed, s)|)
  }

  /** Cursor `s` stands just behind the part of row `s` that is already placed. */
  ghost predicate Placed<A>(offsets: seq<nat>, targets: seq<nat>, cursors: seq<nat>,
                            edges: seq<Arc<A>>, removed: Option<nat>)
  {
    && |cursors| + 1 == |offsets|
    && |targets| == offsets[|offsets| - 1]
    && (forall s :: 0 <= s < |cursors| ==>
         && offsets[s] <= cursors[s] <= |targets|
         && targets[offsets[s]..cursors[s]] == Outgoing(edges, removed, s))
  }

  lemma NothingPlaced<A>(offsets: seq<nat>, targets: seq<nat>, removed: Option<nat>)
    requires |offsets| > 0 && |targets| == offsets[|offsets| - 1]
    requires forall i, j :: 0 <= i <= j < |offsets| ==> offsets[i] <= offsets[j]
    ensures Placed<A>(offsets, targets, offsets[..|offsets| - 1], [], removed)
  {
  }

  /** Writing at the cursor of row `row` extends that row and leaves the others as they were. */
  lemma WriteAtCursor(offsets: seq<nat>, targets: seq<nat>, cursors: seq<nat>, row: nat, to: nat, s: nat)
    requires |cursors| + 1 == |offsets| && row < |cursors| && s < |cursors|
    requires forall i, j :: 0 <= i <= j < |offsets| ==> offsets[i] <= offsets[j]
    requires offsets[s] <= cursors[s] <= offsets[s + 1] <= |targets|
    requires offsets[row] <= cursors[row] < offsets[row + 1] <= |targets|
    ensures var t := targets[cursors[row] := to];
      && (s != row ==> t[offsets[s]..cursors[s]] == targets[offsets[s]..cursors[s]])
      && t[offsets[row]..cursors[row] + 1] == targets[offsets[row]..cursors[row]] + [to]
  {
    if s < row {
      assert offsets[s + 1] <= offsets[row];
    } else if row < s {
      assert offsets[row + 1] <= offsets[s];
    }
  }

  lemma CursorBound<A>(offsets: seq<nat>, targets: seq<nat>, cursors: seq<nat>, edges: seq<Arc<A>>,
                       injected: Option<(nat, nat)>, removed: Option<nat>, k: nat, s: nat)
    requires k <= |edges| && Roomy(offsets, edges, injected, removed)
    requires Placed(offsets, targets, cursors, edges[..k], removed) && s < |cursors|
    ensures cursors[s] == offsets[s] + |Outgoing(edges[..k], removed, s)| <= offsets[s + 1] <= |targets|
  {
    OutgoingGrows(edges, removed, s, k);
    assert |targets[offsets[s]..cursors[s]]| == cursors[s] - offsets[s];
  }

  /** The row of a kept edge that is not placed yet has a free slot. */
  lemma CursorRoom<A>(offsets: seq<nat>, targets: seq<nat>, cursors: seq<nat>, edges: seq<Arc<A>>,
                      injected: Option<(nat, nat)>, removed: Option<nat>, k: nat)
    requires k < |edges| && Roomy(offsets, edges, injected, removed)
    requires Placed(offsets, targets, cursors, edges[..k], removed)
    requires removed != Some(edges[k].from) && edges[k].from < |cursors|
    ensures cursors[edges[k].from] < offsets[edges[k].from + 1] <= |targets|
  {
    var f := edges[k].from;
    OutgoingStep(edges, removed, f, k);
    OutgoingGrows(edges, removed, f, k + 1);
    CursorBound(offsets, targets, cursors, edges, injected, removed, k, f);
  }

  lemma PlaceStep<A>(offsets: seq<nat>, targets: seq<nat>, cursors: seq<nat>, edges: seq<Arc<A>>,
                     injected: Option<(nat, nat)>, removed: Option<nat>, k: nat)
    requires k < |edges| && Roomy(offsets, edges, injected, removed)
    requires Placed(offsets, targets, cursors, edges[..k], removed)
    ensures removed == Some(edges[k].from) ==> Placed(offsets, targets, cursors, edges[..k + 1], removed)
    ensures var f := edges[k].from;
      removed != Some(f) && f < |cursors| ==>
        && cursors[f] < |targets|
        && Placed(offsets, targets[cursors[f] := edges[k].to], cursors[f := cursors[f] + 1], edges[..k + 1], removed)
  {
    hide Outgoing, Row;
    var f := edges[k].from;
    forall s | 0 <= s < |cursors|
      ensures Outgoing(edges[..k + 1], removed, s) == Outgoing(edges[..k], removed, s)
              + if f == s && removed != Some(s) then [edges[k].to] else []
    {
      OutgoingStep(edges, removed, s, k);
    }
    if removed != Some(f) && f < |cursors| {
      CursorRoom(offsets, targets, cursors, edges, injected, removed, k);
      var t := targets[cursors[f] := edges[k].to];
      var c := cursors[f := cursors[f] + 1];
      forall s | 0 <= s < |c|
        ensures offsets[s] <= c[s] <= |t| && t[offsets[s]..c[s]] == Outgoing(edges[..k + 1], removed, s)
      {
        CursorBound(offsets, targets, cursors, edges, injected, removed, k, s);
        WriteAtCursor(offsets, targets, cursors, f, edges[k].to, s);
      }
    }
  }

  /** Once every kept edge is placed, the injected target fills the last free slot. */
  lemma PlaceRest<A>(offsets: seq<nat>, targets: seq<nat>, cursors: seq<nat>, edges: seq<Arc<A>>,
                     injected: Option<(nat, nat)>, removed: Option<nat>, s: nat)
    requires Roomy(offsets, edges, injected, removed)
    requires Placed(offsets, targets, cursors, edges, removed) && s < |cursors|
    requires injected.Some? ==> injected.value.0 < |cursors|
    ensures injected.None? ==> targets[offsets[s]..offsets[s + 1]] == Row(edges, injected, removed, s)
    ensures injected.Some? ==>
      var (f, to) := injected.value;
      && cursors[f] < |targets|
      && targets[cursors[f] := to][offsets[s]..offsets[s + 1]] == Row(edges, injected, removed, s)
  {
    assert edges[..|edges|] == edges;
    CursorBound(offsets, targets, cursors, edges, injected, removed, |edges|, s);
    if injected.Some? {
      var (f, to) := injected.value;
      CursorBound(offsets, targets, cursors, edges, injected, removed, |edges|, f);
      WriteAtCursor(offsets, targets, cursors, f, to, s);
    }
  }

  /** Boundaries that advance by the row lengths are roomy. */
  lemma RowLengthsAreRoomy<A>(offsets: seq<nat>, counts: seq<nat>, edges: seq<Arc<A>>,
                          injected: Option<(nat, nat)>, removed: Option<nat>)
    requires |offsets| == |counts| + 1
    requires forall i :: 0 <= i < |counts| ==> offsets[i + 1] == offsets[i] + counts[i]
    requires forall s :: 0 <= s < |counts| ==> counts[s] == |Row(edges, injected, removed, s)|
    ensures Roomy(offsets, edges, injected, removed)
  {
    forall i, j | 0 <= i <= j < |offsets|
      ensures offsets[i] <= offsets[j]
    {
      Climbing(offsets, i, j);
    }
  }

  /** With the injected target written last, every row holds what it should. */
  lemma Finished<A>(offsets: seq<nat>, targets: seq<nat>, cursors: seq<nat>, edges: seq<Arc<A>>,
                    injected: Option<(nat, nat)>, removed: Option<nat>)
    requires Roomy(offsets, edges, injected, removed) && offsets[0] == 0
    requires Placed(offsets, targets, cursors, edges, removed)
    requires injected.Some? ==> injected.value.0 < |cursors|
    ensures injected.Some? ==> cursors[injected.value.0] < |targets|
    ensures var t := if injected.Some? then targets[cursors[injected.value.0] := injected.value.1] else targets;
      && Csr(offsets, t).Valid()
      && forall s :: 0 <= s < |cursors| ==> Csr(offsets, t).Neighbors(s) == Row(edges, injected, removed, s)
  {
    if injected.Some? {
      PlaceRest(offsets, targets, cursors, edges, injected, removed, injected.value.0);
    }
    var t := if injected.Some? then targets[cursors[injected.value.0] := injected.value.1] else targets;
    forall s | 0 <= s < |cursors|
      ensures Csr(offsets, t).Neighbors(s) == Row(edges, injected, removed, s)
    {
      PlaceRest(offsets, targets, cursors, edges, injected, removed, s);
    }
  }

  /** Row boundaries: a running sum of the counts. */
  method Boundaries(counts: seq<nat>) returns (offsets: seq<nat>)
    requires RowTotal(counts, |counts|) <= USIZE_MAX
    ensures |offsets| == |counts| + 1 && offsets[0] == 0
    ensures forall i :: 0 <= i < |counts| ==> offsets[i + 1] == offsets[i] + counts[i]
  {
    offsets := [0];
    for index := 0 to |counts|
      invariant |offsets| == index + 1
      invariant offsets[0] == 0 && offsets[index] == RowTotal(counts, index)
      invariant forall i :: 0 <= i < index ==> offsets[i + 1] == offsets[i] + counts[i]
    {
      TotalMonotone(counts, index + 1, |counts|);
      assert offsets[index] + counts[index] <= USIZE_MAX;
      offsets := offsets + [offsets[index] + counts[index]];
    }
  }

  method FromCountsAndEdges<A>(states: nat, counts: seq<nat>, edges: seq<Arc<A>>,
                               injected: Option<(nat, nat)>, removed: Option<nat>)
    returns (csr: Csr)
    requires |counts| == states
    requires forall j :: 0 <= j < |edges| ==> edges[j].from < states || removed == Some(edges[j].from)
    requires injected.Some? ==> injected.value.0 < states
    requires forall s :: 0 <= s < states ==> counts[s] == |Row(edges, injected, removed, s)|
    requires RowTotal(counts, states) <= USIZE_MAX
    ensures csr.Valid() && csr.States() == states
    ensures forall s :: 0 <= s < states ==> csr.Neighbors(s) == Row(edges, injected, removed, s)
  {
    hide RowTotal, Outgoing, Row;
    var offsets := Boundaries(counts);
    RowLengthsAreRoomy(offsets, counts, edges, injected, removed);
    var targets: seq<nat> := seq(offsets[states], _ => 0);
    var cursors := offsets[..states];
    NothingPlaced<A>(offsets, targets, removed);
    assert edges[..0] == [];
    for k := 0 to |edges|
      invariant |cursors| == states
      invariant Placed(offsets, targets, cursors, edges[..k], removed)
    {
      PlaceStep(offsets, targets, cursors, edges, injected, removed, k);
      var edge := edges[k];
      if removed == Some(edge.from) {
        continue;
      }
      targets := targets[cursors[edge.from] := edge.to];
      cursors := cursors[edge.from := cursors[edge.from] + 1];
    }
    assert edges[..|edges|] == edges;
    Finished(offsets, targets, cursors, edges, injected, removed);
    if injected.Some? {
      var (from, to) := injected.value;
      targets := targets[cursors[from] := to];
    }
    csr := Csr(offsets, targets);
  }
}
