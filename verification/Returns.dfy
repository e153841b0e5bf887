/** Return accounting over reals: the reverse-time advantage recurrence, the forward sum it computes,
    and what it becomes with full traces. */
module Returns {
  import opened Arithmetic

  /** Multiplication under a name, so that proofs can use its laws without nonlinear search. */
  function Times(a: real, b: real): real { a * b }

  lemma TimesLaws(a: real, b: real, c: real)
    ensures Times(Times(a, b), c) == Times(a, Times(b, c))
    ensures Times(a, b + c) == Times(a, b) + Times(a, c)
    ensures Times(a, 0.0) == Times(0.0, a) == 0.0
    ensures Times(a, 1.0) == Times(1.0, a) == a
  {
  }

  function Pow(x: real, n: nat): real {
    if n == 0 then 1.0 else Times(Pow(x, n - 1), x)
  }

  lemma {:induction false} PowAdd(x: real, m: nat, n: nat)
    ensures Pow(x, m + n) == Times(Pow(x, m), Pow(x, n))
  {
    hide Times;
    if n == 0 {
      TimesLaws(Pow(x, m), 0.0, 0.0);
    } else {
      PowAdd(x, m, n - 1);
      TimesLaws(Pow(x, m), Pow(x, n - 1), x);
    }
  }

  // ----- Generalized advantage estimation -----

  datatype Input = Input(reward: real, value: real, nextValue: real, terminal: bool, distance: nat)

  /** The decision time a row counts for: its distance, up to the largest exponent the power function takes. */
  function Clock(row: Input): nat { Min(row.distance, I32_MAX) }

  /** The discount carried across a row: none past a terminal row, otherwise one factor per unit of time. */
  function Carry(row: Input, gamma: real): real {
    if row.terminal then 0.0 else Pow(gamma, Clock(row))
  }

  function Delta(row: Input, gamma: real): real {
    row.reward + Times(Carry(row, gamma), row.nextValue) - row.value
  }

  function Advantage(rows: seq<Input>, gamma: real, decay: real, i: nat): real
    requires i <= |rows|
    decreases |rows| - i
  {
    if i == |rows| then 0.0
    else
      Delta(rows[i], gamma) + Times(Times(Carry(rows[i], gamma), decay), Advantage(rows, gamma, decay, i + 1))
  }

  function Return(rows: seq<Input>, gamma: real, decay: real, i: nat): real
    requires i < |rows|
  {
    Advantage(rows, gamma, decay, i) + rows[i].value
  }

  datatype Output = Output(advantages: seq<real>, returns_: seq<real>)

  function PlusValues(advantages: seq<real>, rows: seq<Input>): (r: seq<real>)
    requires |advantages| == |rows|
    ensures |r| == |rows| && forall i :: 0 <= i < |rows| ==> r[i] == advantages[i] + rows[i].value
  {
    seq(|rows|, i requires 0 <= i < |rows| => advantages[i] + rows[i].value)
  }

  /** What one row makes of the trace of the rows after it. */
  function Step(row: Input, gamma: real, decay: real, trace: real): real {
    var carry := Carry(row, gamma);
    var delta := row.reward + Times(carry, row.nextValue) - row.value;
    delta + Times(Times(carry, decay), trace)
  }

  method GeneralizedAdvantageEstimate(rows: seq<Input>, gamma: real, decay: real) returns (o: Output)
    ensures |o.advantages| == |o.returns_| == |rows|
    ensures forall i :: 0 <= i < |rows| ==> o.advantages[i] == Advantage(rows, gamma, decay, i)
    ensures forall i :: 0 <= i < |rows| ==> o.returns_[i] == Return(rows, gamma, decay, i)
  {
    hide Carry, Delta, Step, Times;
    var advantages := new real[|rows|](_ => 0.0);
    var trace := 0.0;
    var index: nat := |rows|;
    while index > 0
      invariant index <= |rows| && trace == Advantage(rows, gamma, decay, index)
      invariant forall i :: index <= i < |rows| ==> advantages[i] == Advantage(rows, gamma, decay, i)
    {
      index := index - 1;
      AdvantageStep(rows, gamma, decay, index);
      trace := Step(rows[index], gamma, decay, trace);
      advantages[index] := trace;
    }
    o := Output(advantages[..], PlusValues(advantages[..], rows));
  }

  lemma AdvantageStep(rows: seq<Input>, gamma: real, decay: real, i: nat)
    requires i < |rows|
    ensures Advantage(rows, gamma, decay, i) == Step(rows[i], gamma, decay, Advantage(rows, gamma, decay, i + 1))
  {
    hide Times, Carry;
  }

  /** What row `k` hands on: its carry and the trace factor. */
  function Factor(rows: seq<Input>, gamma: real, decay: real, k: nat): real
    requires k < |rows|
  {
    Times(Carry(rows[k], gamma), decay)
  }

  /** The weight with which row `j` counts for row `i`: every factor in between. */
  function Weight(rows: seq<Input>, gamma: real, decay: real, i: nat, j: nat): real
    requires i <= j <= |rows|
    decreases j
  {
    if i == j then 1.0 else Times(Weight(rows, gamma, decay, i, j - 1), Factor(rows, gamma, decay, j - 1))
  }

  function WeightedSum(rows: seq<Input>, gamma: real, decay: real, i: nat, j: nat): real
    requires i <= j <= |rows|
    decreases j
  {
    if i == j then 0.0
    else WeightedSum(rows, gamma, decay, i, j - 1) + Times(Weight(rows, gamma, decay, i, j - 1), Delta(rows[j - 1], gamma))
  }

  lemma {:induction false} WeightFirst(rows: seq<Input>, gamma: real, decay: real, i: nat, j: nat)
    requires i < j <= |rows|
    ensures Weight(rows, gamma, decay, i, j) == Times(Factor(rows, gamma, decay, i), Weight(rows, gamma, decay, i + 1, j))
    decreases j
  {
    hide Times, Factor;
    var f := Factor(rows, gamma, decay, i);
    if i + 1 < j {
      WeightFirst(rows, gamma, decay, i, j - 1);
      TimesLaws(f, Weight(rows, gamma, decay, i + 1, j - 1), Factor(rows, gamma, decay, j - 1));
    } else {
      assert Weight(rows, gamma, decay, i, i) == 1.0 && Weight(rows, gamma, decay, i + 1, i + 1) == 1.0;
      TimesLaws(f, 0.0, 0.0);
    }
  }

  lemma {:induction false} SumFirst(rows: seq<Input>, gamma: real, decay: real, i: nat, j: nat)
    requires i < j <= |rows|
    ensures WeightedSum(rows, gamma, decay, i, j)
         == Delta(rows[i], gamma) + Times(Factor(rows, gamma, decay, i), WeightedSum(rows, gamma, decay, i + 1, j))
    decreases j
  {
    hide Times, Factor, Delta;
    var f := Factor(rows, gamma, decay, i);
    if i + 1 < j {
      SumFirst(rows, gamma, decay, i, j - 1);
      WeightFirst(rows, gamma, decay, i, j - 1);
      var w, d := Weight(rows, gamma, decay, i + 1, j - 1), Delta(rows[j - 1], gamma);
      TimesLaws(f, w, d);
      TimesLaws(f, WeightedSum(rows, gamma, decay, i + 1, j - 1), Times(w, d));
    } else {
      assert WeightedSum(rows, gamma, decay, i, i) == 0.0 && Weight(rows, gamma, decay, i, i) == 1.0;
      assert WeightedSum(rows, gamma, decay, i + 1, i + 1) == 0.0;
      TimesLaws(f, 0.0, 0.0);
      TimesLaws(Delta(rows[i], gamma), 0.0, 0.0);
    }
  }

  /** The reverse recurrence computes the textbook forward sum: each later temporal difference,
      weighted by every discount and trace factor in between. */
  lemma {:induction false} AdvantageIsSum(rows: seq<Input>, gamma: real, decay: real, i: nat)
    requires i <= |rows|
    ensures Advantage(rows, gamma, decay, i) == WeightedSum(rows, gamma, decay, i, |rows|)
    decreases |rows| - i
  {
    hide Times, Carry, Delta;
    if i < |rows| {
      AdvantageIsSum(rows, gamma, decay, i + 1);
      SumFirst(rows, gamma, decay, i, |rows|);
    }
  }

  /** A terminal row cuts the sum: nothing after it counts. */
  lemma {:induction false} TerminalCuts(rows: seq<Input>, gamma: real, decay: real, i: nat, t: nat, j: nat)
    requires i <= t < j <= |rows| && rows[t].terminal
    ensures Weight(rows, gamma, decay, i, j) == 0.0
    decreases j
  {
    hide Times;
    if t == j - 1 {
      TimesLaws(decay, 0.0, 0.0);
      TimesLaws(Weight(rows, gamma, decay, i, j - 1), 0.0, 0.0);
    } else {
      TerminalCuts(rows, gamma, decay, i, t, j - 1);
      TimesLaws(Factor(rows, gamma, decay, j - 1), 0.0, 0.0);
    }
  }

  // ----- Chained rows -----

  /** Rows of one episode: each values the next one's state, and exactly the last is terminal. */
  predicate Chained(rows: seq<Input>) {
    && (forall i :: 0 <= i < |rows| ==> (rows[i].terminal <==> i == |rows| - 1))
    && (forall i :: 0 < i < |rows| ==> rows[i - 1].nextValue == rows[i].value)
  }

  /** Decision time from row `i` to row `j`. */
  function Elapsed(rows: seq<Input>, i: nat, j: nat): nat
    requires i <= j <= |rows|
    decreases j
  {
    if i == j then 0
    else Elapsed(rows, i, j - 1) + if rows[j - 1].distance <= 0x7FFF_FFFF then rows[j - 1].distance else 0x7FFF_FFFF
  }

  lemma {:induction false} ElapsedFirst(rows: seq<Input>, i: nat, j: nat)
    requires i < j <= |rows|
    ensures Elapsed(rows, i, j) == Clock(rows[i]) + Elapsed(rows, i + 1, j)
    decreases j
  {
    if i + 1 < j {
      ElapsedFirst(rows, i, j - 1);
    } else {
      assert Elapsed(rows, i, i) == 0 && Elapsed(rows, i + 1, i + 1) == 0;
    }
  }

  /** Where no row in between is terminal, a later row counts with one discount per unit of decision time and one
      trace factor per row. */
  lemma {:induction false} WeightMeans(rows: seq<Input>, gamma: real, decay: real, i: nat, j: nat)
    requires i <= j <= |rows| && forall k :: i <= k < j ==> !rows[k].terminal
    ensures Weight(rows, gamma, decay, i, j) == Times(Pow(gamma, Elapsed(rows, i, j)), Pow(decay, j - i))
    decreases j
  {
    hide Times;
    if i == j {
      TimesLaws(1.0, 0.0, 0.0);
    } else {
      WeightMeans(rows, gamma, decay, i, j - 1);
      var e, d := Elapsed(rows, i, j - 1), Clock(rows[j - 1]);
      PowAdd(gamma, e, d);
      var p, q, x := Pow(gamma, e), Pow(gamma, d), Pow(decay, j - 1 - i);
      TimesLaws(Times(p, x), q, decay);
      TimesLaws(p, x, q);
      TimesSwap(x, q);
      TimesLaws(p, q, x);
      TimesLaws(Times(p, q), x, decay);
    }
  }

  lemma TimesSwap(a: real, b: real)
    ensures Times(a, b) == Times(b, a)
  {
  }

  /** Rewards of rows `i` to `j`, each discounted by the decision time since row `i`. */
  function Discounted(rows: seq<Input>, gamma: real, i: nat, j: nat): real
    requires i <= j <= |rows|
    decreases j
  {
    if i == j then 0.0
    else Discounted(rows, gamma, i, j - 1) + Times(Pow(gamma, Elapsed(rows, i, j - 1)), rows[j - 1].reward)
  }

  lemma {:induction false} DiscountedFirst(rows: seq<Input>, gamma: real, i: nat, j: nat)
    requires i < j <= |rows|
    ensures Discounted(rows, gamma, i, j)
         == rows[i].reward + Times(Pow(gamma, Clock(rows[i])), Discounted(rows, gamma, i + 1, j))
    decreases j
  {
    hide Times;
    var p := Pow(gamma, Clock(rows[i]));
    if i + 1 < j {
      DiscountedFirst(rows, gamma, i, j - 1);
      ElapsedFirst(rows, i, j - 1);
      var e := Elapsed(rows, i + 1, j - 1);
      PowAdd(gamma, Clock(rows[i]), e);
      TimesLaws(p, Pow(gamma, e), rows[j - 1].reward);
      TimesLaws(p, Discounted(rows, gamma, i + 1, j - 1), Times(Pow(gamma, e), rows[j - 1].reward));
    } else {
      assert Discounted(rows, gamma, i, i) == 0.0 && Discounted(rows, gamma, i + 1, i + 1) == 0.0;
      assert Elapsed(rows, i, i) == 0 && Pow(gamma, 0) == 1.0;
      TimesLaws(p, 0.0, 0.0);
      TimesLaws(rows[i].reward, 0.0, 0.0);
    }
  }

  /** With full traces the values cancel: each return is the discounted sum of the rewards from that row on. */
  lemma {:induction false} ReturnIsDiscounted(rows: seq<Input>, gamma: real, i: nat)
    requires Chained(rows) && i < |rows|
    ensures Return(rows, gamma, 1.0, i) == Discounted(rows, gamma, i, |rows|)
    decreases |rows| - i
  {
    hide Times, Pow;
    DiscountedFirst(rows, gamma, i, |rows|);
    var row, c := rows[i], Carry(rows[i], gamma);
    var rest := Advantage(rows, gamma, 1.0, i + 1);
    TimesLaws(c, row.nextValue, rest);
    if i + 1 < |rows| {
      ReturnIsDiscounted(rows, gamma, i + 1);
      assert rows[i + 1 - 1].nextValue == rows[i + 1].value;
    } else {
      assert c == 0.0 && Discounted(rows, gamma, i + 1, |rows|) == 0.0;
      TimesLaws(row.nextValue, 0.0, 0.0);
      TimesLaws(rest, 0.0, 0.0);
      TimesLaws(Pow(gamma, Clock(row)), 0.0, 0.0);
    }
  }
}
