/** The bookkeeping of one training episode: a pending transition per learning seat, completed when the
    seat decides again or the episode ends. The environment and both policies are the list of turns
    they produce; what a policy saw and chose at a decision is known by the number of its turn. */
module Episode {
  import opened Wrappers
  import opened Arithmetic
  import opened Returns

  const SEATS: nat := 2

  type Seat = s: nat | s < SEATS

  /** One decision and the step after it: who decided, the value inferred there, what each seat was
      paid at once, and whether the step ended the episode. */
  datatype Turn = Turn(seat: Seat, value: real, first: real, second: real, terminal: bool)

  datatype Pending = Pending(decision: nat, value: real, reward: real, distance: nat)

  datatype Row = Row(seat: Seat, decision: nat, reward: real, value: real, nextValue: real, terminal: bool, distance: nat)

  datatype TrainingError = Environment | Learner

  function Reward(turn: Turn, s: Seat): real { if s == 0 then turn.first else turn.second }

  /** What seat `s` was paid on turns `t` to `u`. */
  function RewardBetween(turns: seq<Turn>, s: Seat, t: nat, u: nat): real
    requires t <= u <= |turns|
    decreases u
  {
    if t == u then 0.0
    else RewardBetween(turns, s, t, u - 1) + if s == 0 then turns[u - 1].first else turns[u - 1].second
  }

  /** The last decision of seat `s` before turn `i`. */
  function LastTurn(turns: seq<Turn>, s: Seat, i: nat): (t: Option<nat>)
    requires i <= |turns|
    ensures t.Some? ==> t.value < i && turns[t.value].seat == s
    ensures forall j :: 0 <= j < i && turns[j].seat == s ==> t.Some? && j <= t.value
  {
    if i == 0 then None else if turns[i - 1].seat == s then Some(i - 1) else LastTurn(turns, s, i - 1)
  }

  /** The transition from decision `t` to the seat's next decision `u`. */
  function NextRow(turns: seq<Turn>, s: Seat, t: nat, u: nat): Row
    requires t <= u < |turns|
  {
    Row(s, t, RewardBetween(turns, s, t, u), turns[t].value, turns[u].value, false, Min(u - t, U32_MAX))
  }

  /** The transition from decision `t` to the end of the episode after `n` turns. */
  function FinalRow(turns: seq<Turn>, s: Seat, t: nat, n: nat): Row
    requires t < n <= |turns|
  {
    Row(s, t, RewardBetween(turns, s, t, n), turns[t].value, 0.0, true, Min(n - t, U32_MAX))
  }

  function Completed(turns: seq<Turn>, s: Seat, i: nat): seq<Row>
    requires i <= |turns|
  {
    if i == 0 then []
    else
      Completed(turns, s, i - 1)
      + match LastTurn(turns, s, i - 1)
        case Some(t) => if turns[i - 1].seat == s then [NextRow(turns, s, t, i - 1)] else []
        case None => []
  }

  function Open(turns: seq<Turn>, s: Seat, i: nat): Option<Pending>
    requires i <= |turns|
  {
    match LastTurn(turns, s, i)
    case None => None
    case Some(t) => Some(Pending(t, turns[t].value, RewardBetween(turns, s, t, i), Min(i - t, U32_MAX)))
  }

  /** All transitions of seat `s` in an episode of `n` turns. */
  function EpisodeRows(turns: seq<Turn>, s: Seat, n: nat): seq<Row>
    requires n <= |turns|
  {
    Completed(turns, s, n)
    + match LastTurn(turns, s, n)
      case Some(t) => [FinalRow(turns, s, t, n)]
      case None => []
  }

  function SeatRows(rows: seq<Row>, s: Seat): seq<Row> {
    if rows == [] then []
    else SeatRows(rows[..|rows| - 1], s) + if rows[|rows| - 1].seat == s then [rows[|rows| - 1]] else []
  }

  lemma SeatRowsStep(rows: seq<Row>, row: Row, s: Seat)
    ensures SeatRows(rows + [row], s) == SeatRows(rows, s) + if row.seat == s then [row] else []
  {
    assert (rows + [row])[..|rows|] == rows;
  }

  /** The number of turns of the episode: up to the first terminal step. */
  function EpisodeLength(turns: seq<Turn>, from: nat): (n: Option<nat>)
    requires from <= |turns|
    ensures n.Some? ==> from < n.value <= |turns| && turns[n.value - 1].terminal
    ensures n.Some? ==> forall j :: from <= j < n.value - 1 ==> !turns[j].terminal
    ensures n.None? ==> forall j :: from <= j < |turns| ==> !turns[j].terminal
    decreases |turns| - from
  {
    if from == |turns| then None
    else if turns[from].terminal then Some(from + 1)
    else EpisodeLength(turns, from + 1)
  }

  /** Between turns, every seat's rows and pending transition are those of the turns so far. */
  ghost predicate InStep(turns: seq<Turn>, learning: seq<bool>, i: nat, rows: seq<Row>, pending: seq<Option<Pending>>)
    requires i <= |turns| && |learning| == SEATS && |pending| == SEATS
  {
    forall s: Seat ::
      && SeatRows(rows, s) == (if learning[s] then Completed(turns, s, i) else [])
      && pending[s] == (if learning[s] then Open(turns, s, i) else None)
  }

  /** After a decision, before the step is paid out. */
  ghost predicate Decided(turns: seq<Turn>, learning: seq<bool>, i: nat, rows: seq<Row>, pending: seq<Option<Pending>>)
    requires i < |turns| && |learning| == SEATS && |pending| == SEATS
  {
    forall s: Seat ::
      && SeatRows(rows, s) == (if learning[s] then Completed(turns, s, i + 1) else [])
      && pending[s] == (if !learning[s] then None
                        else if turns[i].seat == s then Some(Pending(i, turns[i].value, 0.0, 0))
                        else Open(turns, s, i))
  }

  function Paid(pending: Option<Pending>, reward: real): Option<Pending> {
    match pending
    case None => None
    case Some(p) => Some(p.(reward := p.reward + reward, distance := Min(p.distance + 1, U32_MAX)))
  }

  /** Paying out the step brings every pending transition up to date. */
  lemma PaidOut(turns: seq<Turn>, learning: seq<bool>, i: nat, rows: seq<Row>, before: seq<Option<Pending>>, after: seq<Option<Pending>>)
    requires i < |turns| && |learning| == |before| == |after| == SEATS
    requires Decided(turns, learning, i, rows, before)
    requires forall s: Seat :: after[s] == Paid(before[s], Reward(turns[i], s))
    ensures InStep(turns, learning, i + 1, rows, after)
  {
    hide SeatRows, Completed, Open, Paid;
    forall s: Seat
      ensures after[s] == (if learning[s] then Open(turns, s, i + 1) else None)
    {
      PaidSeat(turns, i, s);
      PaidNothing(Reward(turns[i], s));
    }
  }

  lemma PaidNothing(reward: real)
    ensures Paid(None, reward) == None
  {
  }

  lemma PaidSeat(turns: seq<Turn>, i: nat, s: Seat)
    requires i < |turns|
    ensures Paid(if turns[i].seat == s then Some(Pending(i, turns[i].value, 0.0, 0)) else Open(turns, s, i), Reward(turns[i], s))
         == Open(turns, s, i + 1)
  {
    if turns[i].seat == s {
      assert RewardBetween(turns, s, i, i) == 0.0;
    }
  }

  /** The rows of every learning seat are its transitions in an episode of `n` turns; other seats have none. */
  ghost predicate Collected(turns: seq<Turn>, learning: seq<bool>, n: nat, rows: seq<Row>)
    requires n <= |turns| && |learning| == SEATS
  {
    forall s: Seat :: SeatRows(rows, s) == if learning[s] then EpisodeRows(turns, s, n) else []
  }

  method CollectRows(turns: seq<Turn>, learning: seq<bool>) returns (r: Result<seq<Row>, TrainingError>)
    requires |learning| == SEATS
    ensures r.Success? <==> EpisodeLength(turns, 0).Some?
    ensures r.Success? ==> Collected(turns, learning, EpisodeLength(turns, 0).value, r.value)
    ensures r.Failure? ==> r.error == Environment
  {
    var pending := new Option<Pending>[SEATS](_ => None);
    var rows: seq<Row> := [];
    hide InStep, Collected, EndsAfter;
    Begins(turns, learning, pending[..]);
    EndsStart(turns);
    var i: nat := 0;
    while true
      invariant i <= |turns| && InStep(turns, learning, i, rows, pending[..])
      invariant EndsAfter(turns, i, EpisodeLength(turns, 0))
      decreases |turns| - i
    {
      EndsStep(turns, i, EpisodeLength(turns, 0));
      if i == |turns| {
        return Failure(Environment);
      }
      rows := PlayTurn(turns, learning, i, rows, pending);
      i := i + 1;
      if turns[i - 1].terminal {
        rows := Flush(turns, learning, i, rows, pending);
        return Success(rows);
      }
    }
  }

  ghost predicate EndsAfter(turns: seq<Turn>, i: nat, n: Option<nat>)
    requires i <= |turns|
  {
    EpisodeLength(turns, i) == n
  }

  lemma EndsStart(turns: seq<Turn>)
    ensures EndsAfter(turns, 0, EpisodeLength(turns, 0))
  {
  }

  lemma EndsStep(turns: seq<Turn>, i: nat, n: Option<nat>)
    requires i <= |turns| && EndsAfter(turns, i, n)
    ensures if i == |turns| then n == None else if turns[i].terminal then n == Some(i + 1) else EndsAfter(turns, i + 1, n)
  {
  }

  /** One decision and its step. */
  method PlayTurn(turns: seq<Turn>, learning: seq<bool>, i: nat, rows: seq<Row>, pending: array<Option<Pending>>)
    returns (more: seq<Row>)
    requires i < |turns| && |learning| == SEATS && pending.Length == SEATS
    requires InStep(turns, learning, i, rows, pending[..])
    modifies pending
    ensures InStep(turns, learning, i + 1, more, pending[..])
  {
    hide InStep, Decided;
    more := Decide(turns, learning, i, rows, pending);
    PayOut(turns, learning, i, more, pending);
  }

  lemma Begins(turns: seq<Turn>, learning: seq<bool>, pending: seq<Option<Pending>>)
    requires |learning| == |pending| == SEATS && pending[0] == pending[1] == None
    ensures InStep(turns, learning, 0, [], pending)
  {
  }

  method PayOut(turns: seq<Turn>, learning: seq<bool>, i: nat, rows: seq<Row>, pending: array<Option<Pending>>)
    requires i < |turns| && |learning| == SEATS && pending.Length == SEATS
    requires Decided(turns, learning, i, rows, pending[..])
    modifies pending
    ensures InStep(turns, learning, i + 1, rows, pending[..])
  {
    hide Decided, InStep, Paid;
    for s := 0 to SEATS
      invariant forall q: Seat :: pending[q] == if q < s then Paid(old(pending[q]), Reward(turns[i], q)) else old(pending[q])
    {
      pending[s] := Paid(pending[s], Reward(turns[i], s));
    }
    PaidOut(turns, learning, i, rows, old(pending[..]), pending[..]);
  }

  /** The row that seat `q`'s next decision, valued `next`, makes of its pending transition. */
  function Completing(q: Seat, p: Option<Pending>, next: real): seq<Row> {
    match p
    case None => []
    case Some(p) => [Row(q, p.decision, p.reward, p.value, next, false, p.distance)]
  }

  /** Complete the seat's pending transition, if any, and open the next. */
  method Decide(turns: seq<Turn>, learning: seq<bool>, i: nat, rows: seq<Row>, pending: array<Option<Pending>>)
    returns (more: seq<Row>)
    requires i < |turns| && |learning| == SEATS && pending.Length == SEATS
    requires InStep(turns, learning, i, rows, pending[..])
    modifies pending
    ensures Decided(turns, learning, i, more, pending[..])
  {
    hide InStep, Decided;
    var turn := turns[i];
    more := rows + Completing(turn.seat, pending[turn.seat], turn.value);
    pending[turn.seat] := if learning[turn.seat] then Some(Pending(i, turn.value, 0.0, 0)) else None;
    assert pending[..] == old(pending[..])[turn.seat := pending[turn.seat]];
    OpensNext(turns, learning, i, rows, old(pending[..]));
  }

  lemma OpensNext(turns: seq<Turn>, learning: seq<bool>, i: nat, rows: seq<Row>, pending: seq<Option<Pending>>)
    requires i < |turns| && |learning| == SEATS && |pending| == SEATS && InStep(turns, learning, i, rows, pending)
    ensures var q := turns[i].seat;
      Decided(turns, learning, i, rows + Completing(q, pending[q], turns[i].value),
              pending[q := if learning[q] then Some(Pending(i, turns[i].value, 0.0, 0)) else None])
  {
    hide SeatRows, Completed, Open, Completing;
    forall s: Seat
      ensures SeatRows(rows + Completing(turns[i].seat, pending[turns[i].seat], turns[i].value), s)
           == if learning[s] then Completed(turns, s, i + 1) else []
    {
      CompletesRow(turns, learning, i, rows, pending, s);
    }
  }

  /** The row made from the pending transition is the one the turns determine. */
  lemma CompletesRow(turns: seq<Turn>, learning: seq<bool>, i: nat, rows: seq<Row>, pending: seq<Option<Pending>>, s: Seat)
    requires i < |turns| && |learning| == SEATS && |pending| == SEATS && InStep(turns, learning, i, rows, pending)
    ensures var q := turns[i].seat;
      SeatRows(rows + Completing(q, pending[q], turns[i].value), s) == if learning[s] then Completed(turns, s, i + 1) else []
  {
    hide InStep, SeatRows, Open, Completing, Completed, RewardBetween;
    var q := turns[i].seat;
    InStepAt(turns, learning, i, rows, pending, s);
    InStepAt(turns, learning, i, rows, pending, q);
    CompletingOne(q, pending[q], turns[i].value);
    AppendedRows(rows, Completing(q, pending[q], turns[i].value), q, s);
    if s == q {
      CompletesOpen(turns, q, i);
    } else {
      CompletedSame(turns, s, i);
    }
  }

  lemma InStepAt(turns: seq<Turn>, learning: seq<bool>, i: nat, rows: seq<Row>, pending: seq<Option<Pending>>, s: Seat)
    requires i <= |turns| && |learning| == SEATS && |pending| == SEATS && InStep(turns, learning, i, rows, pending)
    ensures SeatRows(rows, s) == (if learning[s] then Completed(turns, s, i) else [])
    ensures pending[s] == (if learning[s] then Open(turns, s, i) else None)
  {
    hide SeatRows, Completed, Open;
  }

  lemma CompletingOne(q: Seat, p: Option<Pending>, next: real)
    ensures |Completing(q, p, next)| <= 1 && forall r :: r in Completing(q, p, next) ==> r.seat == q
  {
  }

  lemma CompletesOpen(turns: seq<Turn>, q: Seat, i: nat)
    requires i < |turns| && turns[i].seat == q
    ensures Completing(q, None, turns[i].value) == []
    ensures Completed(turns, q, i) + Completing(q, Open(turns, q, i), turns[i].value) == Completed(turns, q, i + 1)
  {
    assert Completed(turns, q, i) + [] == Completed(turns, q, i);
  }

  lemma CompletedSame(turns: seq<Turn>, s: Seat, i: nat)
    requires i < |turns| && turns[i].seat != s
    ensures Completed(turns, s, i + 1) == Completed(turns, s, i)
  {
    assert Completed(turns, s, i) + [] == Completed(turns, s, i);
  }

  /** Appending rows of seat `q` touches no other seat. */
  lemma {:induction false} AppendedRows(rows: seq<Row>, more: seq<Row>, q: Seat, s: Seat)
    requires |more| <= 1 && forall r :: r in more ==> r.seat == q
    ensures SeatRows(rows + more, s) == if s == q then SeatRows(rows, s) + more else SeatRows(rows, s)
  {
    if more == [] {
      assert rows + more == rows && SeatRows(rows, s) + [] == SeatRows(rows, s);
    } else {
      assert more == [more[0]] && more[0] in more;
      SeatRowsStep(rows, more[0], s);
    }
  }

  function Closed(s: Seat, p: Option<Pending>): seq<Row> {
    match p
    case None => []
    case Some(p) => [Row(s, p.decision, p.reward, p.value, 0.0, true, p.distance)]
  }

  /** The terminal row of a seat's pending transition completes its episode. */
  lemma Closes(turns: seq<Turn>, learning: seq<bool>, n: nat, rows: seq<Row>, pending: seq<Option<Pending>>, s: Seat)
    requires n <= |turns| && |learning| == SEATS && |pending| == SEATS && InStep(turns, learning, n, rows, pending)
    ensures SeatRows(rows, s) + Closed(s, pending[s]) == if learning[s] then EpisodeRows(turns, s, n) else []
  {
    hide SeatRows, Completed;
  }

  /** At the end every pending transition becomes a terminal row. */
  method Flush(turns: seq<Turn>, learning: seq<bool>, n: nat, rows: seq<Row>, pending: array<Option<Pending>>)
    returns (all: seq<Row>)
    requires n <= |turns| && |learning| == SEATS && pending.Length == SEATS
    requires InStep(turns, learning, n, rows, pending[..])
    modifies pending
    ensures Collected(turns, learning, n, all)
  {
    all := rows;
    if pending[0].Some? {
      all := all + Closed(0, pending[0]);
    }
    if pending[1].Some? {
      all := all + Closed(1, pending[1]);
    }
    FlushedBoth(turns, learning, n, rows, pending[..]);
    assert rows + [] == rows && all == rows + Closed(0, pending[0]) + Closed(1, pending[1]);
    pending[0], pending[1] := None, None;
  }

  lemma FlushedBoth(turns: seq<Turn>, learning: seq<bool>, n: nat, rows: seq<Row>, pending: seq<Option<Pending>>)
    requires n <= |turns| && |learning| == SEATS && |pending| == SEATS && InStep(turns, learning, n, rows, pending)
    ensures forall s: Seat ::
      SeatRows(rows + Closed(0, pending[0]) + Closed(1, pending[1]), s) == if learning[s] then EpisodeRows(turns, s, n) else []
  {
    hide InStep, EpisodeRows;
    forall s: Seat
      ensures SeatRows(rows + Closed(0, pending[0]) + Closed(1, pending[1]), s)
           == if learning[s] then EpisodeRows(turns, s, n) else []
    {
      FlushedSeat(turns, learning, n, rows, pending, s);
    }
  }

  lemma FlushedSeat(turns: seq<Turn>, learning: seq<bool>, n: nat, rows: seq<Row>, pending: seq<Option<Pending>>, s: Seat)
    requires n <= |turns| && |learning| == SEATS && |pending| == SEATS && InStep(turns, learning, n, rows, pending)
    ensures SeatRows(rows + Closed(0, pending[0]) + Closed(1, pending[1]), s)
         == if learning[s] then EpisodeRows(turns, s, n) else []
  {
    hide InStep, EpisodeRows, SeatRows;
    Closes(turns, learning, n, rows, pending, s);
    AppendedRows(rows, Closed(0, pending[0]), 0, s);
    AppendedRows(rows + Closed(0, pending[0]), Closed(1, pending[1]), 1, s);
  }

  // ----- What the rows account for -----

  function NextDecision(rows: seq<Row>, k: nat, end: nat): nat
    requires k < |rows|
  {
    if k + 1 < |rows| then rows[k + 1].decision else end
  }

  /** Row `k` runs from its decision to the next row's, or to `end`, and accounts for exactly that. */
  ghost predicate RowAt(turns: seq<Turn>, s: Seat, rows: seq<Row>, k: nat, end: nat) {
    && k < |rows| && end <= |turns|
    && rows[k].decision < NextDecision(rows, k, end) <= end
    && turns[rows[k].decision].seat == rows[k].seat == s
    && rows[k].reward == RewardBetween(turns, s, rows[k].decision, NextDecision(rows, k, end))
    && rows[k].distance == Min(NextDecision(rows, k, end) - rows[k].decision, U32_MAX)
    && rows[k].value == turns[rows[k].decision].value
  }

  /** Consecutive rows join end to end up to `end`. */
  ghost predicate Joined(turns: seq<Turn>, s: Seat, rows: seq<Row>, end: nat) {
    end <= |turns| && forall k :: 0 <= k < |rows| ==> RowAt(turns, s, rows, k, end)
  }

  ghost predicate HasRow(rows: seq<Row>, j: nat) {
    exists k :: 0 <= k < |rows| && rows[k].decision == j
  }

  /** Every decision of the seat before `end`, and no other, has its row. */
  ghost predicate AllDecisions(turns: seq<Turn>, s: Seat, rows: seq<Row>, end: nat)
    requires end <= |turns|
  {
    forall j: nat :: j < end ==> (turns[j].seat == s <==> HasRow(rows, j))
  }

  /** No row is terminal, and each carries the value of the seat's next decision. */
  ghost predicate LooksAhead(turns: seq<Turn>, rows: seq<Row>, end: nat) {
    forall k :: 0 <= k < |rows| ==>
      !rows[k].terminal && NextDecision(rows, k, end) < |turns| && rows[k].nextValue == turns[NextDecision(rows, k, end)].value
  }

  /** The completed rows, given the seat's open decision. */
  ghost predicate Partial(turns: seq<Turn>, s: Seat, rows: seq<Row>, open: Option<nat>, i: nat)
    requires i <= |turns|
  {
    match open
    case None => rows == []
    case Some(t) =>
      t < i && Joined(turns, s, rows, t) && AllDecisions(turns, s, rows, t) && LooksAhead(turns, rows, t)
  }

  lemma {:induction false} CompletedPartial(turns: seq<Turn>, s: Seat, i: nat)
    requires i <= |turns|
    ensures Partial(turns, s, Completed(turns, s, i), LastTurn(turns, s, i), i)
  {
    hide Joined, AllDecisions, LooksAhead, NextRow;
    if i > 0 {
      CompletedPartial(turns, s, i - 1);
      var c, last := Completed(turns, s, i - 1), LastTurn(turns, s, i - 1);
      if turns[i - 1].seat == s {
        match last {
          case Some(t) =>
            assert Completed(turns, s, i) == c + [NextRow(turns, s, t, i - 1)];
            Extends(turns, s, c, t, i - 1);
          case None =>
            assert Completed(turns, s, i) == [];
            Starts(turns, s, i - 1);
        }
      } else {
        assert c + [] == c;
      }
    }
  }

  lemma Starts(turns: seq<Turn>, s: Seat, i: nat)
    requires i < |turns| && forall j :: 0 <= j < i ==> turns[j].seat != s
    ensures Partial(turns, s, [], Some(i), i + 1)
  {
  }

  lemma Extends(turns: seq<Turn>, s: Seat, rows: seq<Row>, t: nat, u: nat)
    requires t < u < |turns| && Partial(turns, s, rows, Some(t), u)
    requires turns[t].seat == s && forall j :: t < j < u ==> turns[j].seat != s
    ensures Partial(turns, s, rows + [NextRow(turns, s, t, u)], Some(u), u + 1)
  {
    hide RewardBetween, AllDecisions, RowAt;
    var row := NextRow(turns, s, t, u);
    RowJoins(turns, s, rows, t, row, u);
  }

  /** Appending the row from `t` to `u` extends the join to `u`, when the seat does not decide in between. */
  lemma RowJoins(turns: seq<Turn>, s: Seat, rows: seq<Row>, t: nat, row: Row, u: nat)
    requires t < u <= |turns| && turns[t].seat == s && forall j :: t < j < u ==> turns[j].seat != s
    requires Joined(turns, s, rows, t) && AllDecisions(turns, s, rows, t)
    requires row.seat == s && row.decision == t && row.value == turns[t].value
    requires row.reward == RewardBetween(turns, s, t, u) && row.distance == Min(u - t, U32_MAX)
    ensures Joined(turns, s, rows + [row], u) && AllDecisions(turns, s, rows + [row], u)
    ensures forall k :: 0 <= k < |rows| ==> NextDecision(rows + [row], k, u) == NextDecision(rows, k, t)
  {
    var more := rows + [row];
    hide RewardBetween, HasRow;
    forall k | 0 <= k < |more|
      ensures RowAt(turns, s, more, k, u)
    {
      if k < |rows| {
        assert RowAt(turns, s, rows, k, t);
      }
    }
    hide RowAt;
    forall j: nat | j < u
      ensures turns[j].seat == s <==> HasRow(more, j)
    {
      RowsOf(turns, s, rows, t, row, j);
    }
  }

  lemma RowsOf(turns: seq<Turn>, s: Seat, rows: seq<Row>, t: nat, row: Row, j: nat)
    requires t < |turns| && j < |turns| && turns[t].seat == s && (t < j ==> turns[j].seat != s)
    requires Joined(turns, s, rows, t) && AllDecisions(turns, s, rows, t) && row.decision == t
    ensures turns[j].seat == s <==> HasRow(rows + [row], j)
  {
    RowsAppend(rows, row, j);
    if j > t {
      forall k | 0 <= k < |rows|
        ensures rows[k].decision < t
      {
        assert RowAt(turns, s, rows, k, t);
      }
    }
  }

  lemma RowsAppend(rows: seq<Row>, row: Row, j: nat)
    ensures HasRow(rows + [row], j) <==> HasRow(rows, j) || row.decision == j
  {
    var more := rows + [row];
    if HasRow(rows, j) {
      var k :| 0 <= k < |rows| && rows[k].decision == j;
      assert more[k].decision == j;
    }
    if row.decision == j {
      assert more[|rows|].decision == j;
    }
    if HasRow(more, j) && row.decision != j {
      var k :| 0 <= k < |more| && more[k].decision == j;
      assert rows[k].decision == j;
    }
  }

  /** The transitions of a seat partition its part of the episode: a row for exactly each decision, in
      order, joined end to end; only the last is terminal, every other looks ahead to the next value. */
  lemma EpisodePartition(turns: seq<Turn>, s: Seat, n: nat)
    requires n <= |turns|
    ensures var rows := EpisodeRows(turns, s, n);
      Joined(turns, s, rows, n) && AllDecisions(turns, s, rows, n) && Chained(Inputs(rows))
  {
    CompletedPartial(turns, s, n);
    match LastTurn(turns, s, n)
    case None => assert EpisodeRows(turns, s, n) == [];
    case Some(t) => Closing(turns, s, Completed(turns, s, n), t, n);
  }

  lemma Closing(turns: seq<Turn>, s: Seat, rows: seq<Row>, t: nat, n: nat)
    requires t < n <= |turns| && Partial(turns, s, rows, Some(t), n)
    requires turns[t].seat == s && forall j :: t < j < n ==> turns[j].seat != s
    ensures var all := rows + [FinalRow(turns, s, t, n)];
      Joined(turns, s, all, n) && AllDecisions(turns, s, all, n) && Chained(Inputs(all))
  {
    var all := rows + [FinalRow(turns, s, t, n)];
    RowJoins(turns, s, rows, t, FinalRow(turns, s, t, n), n);
    hide RewardBetween, AllDecisions;
    forall k | 0 < k < |all|
      ensures all[k - 1].nextValue == all[k].value
    {
      assert NextDecision(rows, k - 1, t) == all[k].decision;
      assert RowAt(turns, s, all, k, n);
    }
  }

  function Inputs(rows: seq<Row>): (inputs: seq<Input>)
    ensures |inputs| == |rows|
  {
    seq(|rows|, i requires 0 <= i < |rows| =>
      Input(rows[i].reward, rows[i].value, rows[i].nextValue, rows[i].terminal, rows[i].distance))
  }

  function TotalReward(rows: seq<Row>): real {
    if rows == [] then 0.0 else TotalReward(rows[..|rows| - 1]) + rows[|rows| - 1].reward
  }

  lemma {:induction false} RewardSplit(turns: seq<Turn>, s: Seat, t: nat, u: nat, v: nat)
    requires t <= u <= v <= |turns|
    ensures RewardBetween(turns, s, t, v) == RewardBetween(turns, s, t, u) + RewardBetween(turns, s, u, v)
    decreases v
  {
    if u < v {
      RewardSplit(turns, s, t, u, v - 1);
    }
  }

  /** Nothing paid to the seat after its first decision is lost or counted twice. */
  lemma RewardsConserved(turns: seq<Turn>, s: Seat, n: nat)
    requires n <= |turns| && EpisodeRows(turns, s, n) != []
    ensures var rows := EpisodeRows(turns, s, n);
      && rows[0].decision < n && turns[rows[0].decision].seat == s
      && (forall j :: 0 <= j < rows[0].decision ==> turns[j].seat != s)
      && TotalReward(rows) == RewardBetween(turns, s, rows[0].decision, n)
  {
    EpisodePartition(turns, s, n);
    var rows := EpisodeRows(turns, s, n);
    FirstDecision(turns, s, rows, n);
    TotalIsBetween(turns, s, rows, n, |rows|);
    assert rows[..|rows|] == rows;
  }

  lemma FirstDecision(turns: seq<Turn>, s: Seat, rows: seq<Row>, n: nat)
    requires rows != [] && Joined(turns, s, rows, n) && AllDecisions(turns, s, rows, n)
    ensures rows[0].decision < n && turns[rows[0].decision].seat == s
    ensures forall j :: 0 <= j < rows[0].decision ==> turns[j].seat != s
  {
    assert RowAt(turns, s, rows, 0, n);
    forall j: nat | j < rows[0].decision
      ensures turns[j].seat != s
    {
      if turns[j].seat == s {
        assert HasRow(rows, j);
        var k :| 0 <= k < |rows| && rows[k].decision == j;
        DecisionsAscend(turns, s, rows, n, 0, k);
      }
    }
  }

  lemma {:induction false} DecisionsAscend(turns: seq<Turn>, s: Seat, rows: seq<Row>, n: nat, i: nat, k: nat)
    requires Joined(turns, s, rows, n) && i <= k < |rows|
    ensures rows[i].decision <= rows[k].decision && (i < k ==> rows[i].decision < rows[k].decision)
    decreases k
  {
    if i < k {
      DecisionsAscend(turns, s, rows, n, i, k - 1);
      assert RowAt(turns, s, rows, k - 1, n) && NextDecision(rows, k - 1, n) == rows[k].decision;
    }
  }

  lemma {:induction false} TotalIsBetween(turns: seq<Turn>, s: Seat, rows: seq<Row>, n: nat, k: nat)
    requires Joined(turns, s, rows, n) && 0 < k <= |rows|
    ensures var end := NextDecision(rows, k - 1, n);
      rows[0].decision <= end <= n && TotalReward(rows[..k]) == RewardBetween(turns, s, rows[0].decision, end)
    decreases k
  {
    var end := NextDecision(rows, k - 1, n);
    assert rows[..k][..k - 1] == rows[..k - 1];
    assert RowAt(turns, s, rows, k - 1, n);
    if k > 1 {
      TotalIsBetween(turns, s, rows, n, k - 1);
      RewardSplit(turns, s, rows[0].decision, rows[k - 1].decision, end);
    } else {
      assert TotalReward(rows[..0]) == 0.0;
    }
  }

  /** The distances of rows `i` to `j` together. */
  function Spent(rows: seq<Row>, i: nat, j: nat): nat
    requires i <= j <= |rows|
    decreases j
  {
    if i == j then 0 else Spent(rows, i, j - 1) + rows[j - 1].distance
  }

  /** No two consecutive decisions of the seat are further apart than `most` turns. */
  ghost predicate Gaps(rows: seq<Row>, n: nat, most: nat) {
    forall k :: 0 <= k < |rows| ==> NextDecision(rows, k, n) - rows[k].decision <= most
  }

  /** Distances add up to the turns between rows, exactly, while no gap saturates the 32-bit counter. */
  lemma {:induction false} DistancesAddUp(turns: seq<Turn>, s: Seat, rows: seq<Row>, n: nat, i: nat, j: nat)
    requires Joined(turns, s, rows, n) && Gaps(rows, n, U32_MAX) && i < j <= |rows|
    ensures rows[i].decision <= NextDecision(rows, j - 1, n)
    ensures Spent(rows, i, j) == NextDecision(rows, j - 1, n) - rows[i].decision
    decreases j
  {
    assert RowAt(turns, s, rows, j - 1, n);
    if i + 1 < j {
      DistancesAddUp(turns, s, rows, n, i, j - 1);
      assert NextDecision(rows, j - 2, n) == rows[j - 1].decision;
    } else {
      assert Spent(rows, i, i) == 0;
    }
  }

  /** While no gap exceeds the largest exponent either, the clock of the rows is the turn counter. */
  lemma {:induction false} ElapsedIsSpent(turns: seq<Turn>, s: Seat, rows: seq<Row>, n: nat, i: nat, j: nat)
    requires Joined(turns, s, rows, n) && Gaps(rows, n, I32_MAX) && i <= j <= |rows|
    ensures Elapsed(Inputs(rows), i, j) == Spent(rows, i, j)
    decreases j
  {
    if i < j {
      assert RowAt(turns, s, rows, j - 1, n);
      ElapsedIsSpent(turns, s, rows, n, i, j - 1);
    }
  }

  function Ago(t: nat, u: nat): nat { if u < t then 0 else u - t }

  /** Rewards of rows `i` to `j`, each discounted by the turns between the two decisions. */
  function TurnDiscounted(rows: seq<Row>, gamma: real, i: nat, j: nat): real
    requires i <= j <= |rows|
    decreases j
  {
    if i == j then 0.0
    else
      TurnDiscounted(rows, gamma, i, j - 1)
      + Times(Pow(gamma, Ago(rows[i].decision, rows[j - 1].decision)), rows[j - 1].reward)
  }

  lemma {:induction false} DiscountedByTurns(turns: seq<Turn>, s: Seat, rows: seq<Row>, n: nat, gamma: real, i: nat, j: nat)
    requires Joined(turns, s, rows, n) && Gaps(rows, n, I32_MAX) && i < j <= |rows|
    ensures Discounted(Inputs(rows), gamma, i, j) == TurnDiscounted(rows, gamma, i, j)
    decreases j
  {
    SameExponent(turns, s, rows, n, i, j);
    hide Times, Pow, Joined;
    if i + 1 < j {
      DiscountedByTurns(turns, s, rows, n, gamma, i, j - 1);
    } else {
      assert Discounted(Inputs(rows), gamma, i, i) == 0.0 && TurnDiscounted(rows, gamma, i, i) == 0.0;
    }
  }

  lemma SameExponent(turns: seq<Turn>, s: Seat, rows: seq<Row>, n: nat, i: nat, j: nat)
    requires Joined(turns, s, rows, n) && Gaps(rows, n, I32_MAX) && i < j <= |rows|
    ensures rows[i].decision <= rows[j - 1].decision
    ensures Elapsed(Inputs(rows), i, j - 1) == rows[j - 1].decision - rows[i].decision
  {
    ElapsedIsSpent(turns, s, rows, n, i, j - 1);
    if i + 1 < j {
      DistancesAddUp(turns, s, rows, n, i, j - 1);
      assert NextDecision(rows, j - 2, n) == rows[j - 1].decision;
    }
  }

  /** With full traces, the return of a decision is everything its seat was paid from there on, each
      transition discounted by the clock of the transitions before it; and that clock counts the turns
      elapsed as long as no gap between the seat's decisions exceeds the largest exponent. */
  lemma EpisodeReturn(turns: seq<Turn>, s: Seat, n: nat, gamma: real, k: nat)
    requires n <= |turns| && k < |EpisodeRows(turns, s, n)|
    ensures var rows := EpisodeRows(turns, s, n);
      && Return(Inputs(rows), gamma, 1.0, k) == Discounted(Inputs(rows), gamma, k, |rows|)
      && (Gaps(rows, n, I32_MAX) ==> Return(Inputs(rows), gamma, 1.0, k) == TurnDiscounted(rows, gamma, k, |rows|))
  {
    EpisodePartition(turns, s, n);
    var rows := EpisodeRows(turns, s, n);
    hide EpisodeRows, Return, Discounted, TurnDiscounted, RewardBetween;
    ReturnIsDiscounted(Inputs(rows), gamma, k);
    if Gaps(rows, n, I32_MAX) {
      DiscountedByTurns(turns, s, rows, n, gamma, k, |rows|);
    }
  }
}
