/** The flat batch the learner trains on: its rows, its validation, minibatch selection, and the batch of
    one collected episode. */
module Batches {
  import opened Wrappers
  import opened Arithmetic
  import opened Returns
  import opened Episode

  const OBSERVATION_SIZE: nat := 307
  const ACTION_COUNT: nat := 60

  type Observation = s: seq<real> | |s| == OBSERVATION_SIZE witness seq(OBSERVATION_SIZE, _ => 0.0)
  type Mask = s: seq<bool> | |s| == ACTION_COUNT witness seq(ACTION_COUNT, _ => true)

  datatype LearnerError = Shape | MaskedAction

  /** What the policy saw and chose at a decision. */
  datatype Sample = Sample(observation: Observation, legalMask: Mask, action: nat, logProbability: real)

  /** One row of a batch. */
  datatype Entry = Entry(sample: Sample, advantage: real, return_: real)

  /** Columns; observations and masks lie row after row. */
  datatype PpoBatch = PpoBatch(observations: seq<real>, legalMasks: seq<bool>, actions: seq<nat>,
                               oldLogProbabilities: seq<real>, advantages: seq<real>, returns_: seq<real>)

  const EMPTY := PpoBatch([], [], [], [], [], [])

  function Extended(b: PpoBatch, e: Entry): PpoBatch {
    PpoBatch(b.observations + e.sample.observation, b.legalMasks + e.sample.legalMask, b.actions + [e.sample.action],
             b.oldLogProbabilities + [e.sample.logProbability], b.advantages + [e.advantage], b.returns_ + [e.return_])
  }

  /** The columns of a list of rows. */
  ghost function Flat(entries: seq<Entry>): PpoBatch {
    if entries == [] then EMPTY else Extended(Flat(entries[..|entries| - 1]), entries[|entries| - 1])
  }

  predicate Shaped(b: PpoBatch) {
    var rows := |b.actions|;
    && |b.observations| == rows * OBSERVATION_SIZE && |b.legalMasks| == rows * ACTION_COUNT
    && |b.oldLogProbabilities| == |b.advantages| == |b.returns_| == rows
  }

  /** Row `i`, read back from the columns. */
  function EntryAt(b: PpoBatch, i: nat): Entry
    requires Shaped(b) && i < |b.actions|
  {
    Entry(Sample(b.observations[i * OBSERVATION_SIZE..(i + 1) * OBSERVATION_SIZE],
                 b.legalMasks[i * ACTION_COUNT..(i + 1) * ACTION_COUNT], b.actions[i], b.oldLogProbabilities[i]),
          b.advantages[i], b.returns_[i])
  }

  ghost function Entries(b: PpoBatch): seq<Entry>
    requires Shaped(b)
  {
    seq(|b.actions|, i requires 0 <= i < |b.actions| => EntryAt(b, i))
  }

  /** Rows written to columns are read back. */
  lemma {:induction false} FlatReadsBack(entries: seq<Entry>)
    ensures Shaped(Flat(entries)) && |Flat(entries).actions| == |entries|
    ensures Entries(Flat(entries)) == entries
  {
    if entries != [] {
      var last := |entries| - 1;
      var front := Flat(entries[..last]);
      FlatReadsBack(entries[..last]);
      forall i | 0 <= i < |entries|
        ensures EntryAt(Flat(entries), i) == entries[i]
      {
        if i < last {
          assert EntryAt(front, i) == Entries(front)[i] == entries[i];
        }
        ExtendedAt(front, entries[last], i);
      }
    }
  }

  lemma ExtendedAt(b: PpoBatch, e: Entry, i: nat)
    requires Shaped(b) && i <= |b.actions|
    ensures Shaped(Extended(b, e)) && |Extended(b, e).actions| == |b.actions| + 1
    ensures EntryAt(Extended(b, e), i) == if i < |b.actions| then EntryAt(b, i) else e
  {
    var c, rows := Extended(b, e), |b.actions|;
    if i < rows {
      assert c.observations[i * OBSERVATION_SIZE..(i + 1) * OBSERVATION_SIZE] == b.observations[i * OBSERVATION_SIZE..(i + 1) * OBSERVATION_SIZE];
      assert c.legalMasks[i * ACTION_COUNT..(i + 1) * ACTION_COUNT] == b.legalMasks[i * ACTION_COUNT..(i + 1) * ACTION_COUNT];
    } else {
      assert c.observations[i * OBSERVATION_SIZE..(i + 1) * OBSERVATION_SIZE] == e.sample.observation;
      assert c.legalMasks[i * ACTION_COUNT..(i + 1) * ACTION_COUNT] == e.sample.legalMask;
    }
  }

  /** The columns without their last row. */
  ghost function Front(b: PpoBatch): PpoBatch
    requires Shaped(b) && |b.actions| > 0
  {
    var last := |b.actions| - 1;
    PpoBatch(b.observations[..last * OBSERVATION_SIZE], b.legalMasks[..last * ACTION_COUNT], b.actions[..last],
             b.oldLogProbabilities[..last], b.advantages[..last], b.returns_[..last])
  }

  /** Columns of the right shape are those of the rows read from them. */
  lemma {:induction false} ShapedIsFlat(b: PpoBatch)
    requires Shaped(b)
    ensures Flat(Entries(b)) == b
    decreases |b.actions|
  {
    hide EntryAt, Front, Extended;
    var entries := Entries(b);
    if |b.actions| == 0 {
      assert b == EMPTY;
    } else {
      FrontEntries(b);
      FrontExtends(b);
      ShapedIsFlat(Front(b));
      assert entries[..|entries| - 1] == Entries(Front(b));
    }
  }

  lemma FrontExtends(b: PpoBatch)
    requires Shaped(b) && |b.actions| > 0
    ensures Extended(Front(b), EntryAt(b, |b.actions| - 1)) == b
  {
    var last, front := |b.actions| - 1, Front(b);
    assert b.observations == front.observations + b.observations[last * OBSERVATION_SIZE..(last + 1) * OBSERVATION_SIZE];
    assert b.legalMasks == front.legalMasks + b.legalMasks[last * ACTION_COUNT..(last + 1) * ACTION_COUNT];
  }

  lemma FrontEntries(b: PpoBatch)
    requires Shaped(b) && |b.actions| > 0
    ensures Shaped(Front(b)) && |Front(b).actions| == |b.actions| - 1
    ensures forall i :: 0 <= i < |b.actions| - 1 ==> EntryAt(Front(b), i) == EntryAt(b, i)
  {
    var front := Front(b);
    forall i | 0 <= i < |b.actions| - 1
      ensures EntryAt(front, i) == EntryAt(b, i)
    {
      assert front.observations[i * OBSERVATION_SIZE..(i + 1) * OBSERVATION_SIZE] == b.observations[i * OBSERVATION_SIZE..(i + 1) * OBSERVATION_SIZE];
      assert front.legalMasks[i * ACTION_COUNT..(i + 1) * ACTION_COUNT] == b.legalMasks[i * ACTION_COUNT..(i + 1) * ACTION_COUNT];
    }
  }

  // ----- Validation -----

  /** The chosen action exists and its mask allows it. */
  predicate Legal(sample: Sample) { sample.action < ACTION_COUNT && sample.legalMask[sample.action] }

  ghost predicate AllLegal(entries: seq<Entry>) {
    forall i :: 0 <= i < |entries| ==> Legal(entries[i].sample)
  }

  /** Accepted exactly when there is a row, the columns fit, and every chosen action is allowed. */
  method Validate(b: PpoBatch) returns (r: Result<nat, LearnerError>)
    ensures r.Success? <==> Shaped(b) && |b.actions| > 0 && AllLegal(Entries(b))
    ensures r.Success? ==> |b.legalMasks| == |b.actions| * 60
    ensures r.Success? ==> forall i :: 0 <= i < |b.actions| ==> b.actions[i] < 60 && b.legalMasks[i * 60 + b.actions[i]]
    ensures r.Success? ==> r.value == |b.actions|
    ensures r.Failure? ==> r.error == if Shaped(b) && |b.actions| > 0 then MaskedAction else Shape
  {
    var rows := |b.actions|;
    if rows == 0 || !Shaped(b) {
      return Failure(Shape);
    }
    for row := 0 to rows
      invariant forall i :: 0 <= i < row ==> Legal(Entries(b)[i].sample)
      invariant forall i :: 0 <= i < row ==> b.actions[i] < 60 && b.legalMasks[i * 60 + b.actions[i]]
    {
      var action := b.actions[row];
      assert Entries(b)[row].sample.action == action;
      MaskOffset(b, row, action);
      if action >= ACTION_COUNT || !b.legalMasks[row * ACTION_COUNT + action] {
        assert !Legal(Entries(b)[row].sample);
        return Failure(MaskedAction);
      }
    }
    r := Success(rows);
  }

  lemma MaskOffset(b: PpoBatch, row: nat, action: nat)
    requires Shaped(b) && row < |b.actions|
    ensures action < ACTION_COUNT ==>
      && row * ACTION_COUNT + action < |b.legalMasks|
      && Entries(b)[row].sample.legalMask[action] == b.legalMasks[row * ACTION_COUNT + action]
  {
    assert Entries(b)[row].sample.legalMask == b.legalMasks[row * ACTION_COUNT..(row + 1) * ACTION_COUNT];
  }

  // ----- Minibatches -----

  /** Copying rows by number, in the given order and with repetitions. */
  method SelectRows(b: PpoBatch, indices: seq<nat>) returns (r: Result<PpoBatch, LearnerError>)
    ensures r.Success? <==>
      && Shaped(b) && |b.actions| > 0 && AllLegal(Entries(b))
      && indices != [] && forall k :: 0 <= k < |indices| ==> indices[k] < |b.actions|
    ensures r.Success? ==> r.value == Flat(Chosen(b, indices))
  {
    hide Entries, AllLegal, EntryAt;
    var rows :- Validate(b);
    if indices == [] || exists k :: 0 <= k < |indices| && indices[k] >= rows {
      return Failure(Shape);
    }
    var selected := EMPTY;
    for k := 0 to |indices|
      invariant selected == Flat(Chosen(b, indices[..k]))
    {
      var index := indices[k];
      ChosenStep(b, indices, k);
      selected := PpoBatch(
        selected.observations + b.observations[index * OBSERVATION_SIZE..(index + 1) * OBSERVATION_SIZE],
        selected.legalMasks + b.legalMasks[index * ACTION_COUNT..(index + 1) * ACTION_COUNT],
        selected.actions + [b.actions[index]], selected.oldLogProbabilities + [b.oldLogProbabilities[index]],
        selected.advantages + [b.advantages[index]], selected.returns_ + [b.returns_[index]]);
    }
    assert indices[..|indices|] == indices;
    r := Success(selected);
  }

  ghost function Chosen(b: PpoBatch, indices: seq<nat>): (entries: seq<Entry>)
    requires Shaped(b) && forall k :: 0 <= k < |indices| ==> indices[k] < |b.actions|
  {
    seq(|indices|, k requires 0 <= k < |indices| => EntryAt(b, indices[k]))
  }

  lemma ChosenStep(b: PpoBatch, indices: seq<nat>, k: nat)
    requires Shaped(b) && k < |indices| && forall j :: 0 <= j < |indices| ==> indices[j] < |b.actions|
    ensures Flat(Chosen(b, indices[..k + 1])) == Extended(Flat(Chosen(b, indices[..k])), EntryAt(b, indices[k]))
    ensures var e := EntryAt(b, indices[k]);
      && e.sample.observation == b.observations[indices[k] * OBSERVATION_SIZE..(indices[k] + 1) * OBSERVATION_SIZE]
      && e.sample.legalMask == b.legalMasks[indices[k] * ACTION_COUNT..(indices[k] + 1) * ACTION_COUNT]
      && e.sample.action == b.actions[indices[k]] && e.sample.logProbability == b.oldLogProbabilities[indices[k]]
      && e.advantage == b.advantages[indices[k]] && e.return_ == b.returns_[indices[k]]
  {
    var longer := Chosen(b, indices[..k + 1]);
    assert longer[..|longer| - 1] == Chosen(b, indices[..k]);
  }

  /** A minibatch of a valid batch is valid, and its rows are the chosen ones. */
  lemma SelectionIsValid(b: PpoBatch, indices: seq<nat>)
    requires Shaped(b) && AllLegal(Entries(b)) && indices != []
    requires forall k :: 0 <= k < |indices| ==> indices[k] < |b.actions|
    ensures var selected := Flat(Chosen(b, indices));
      && Shaped(selected) && |selected.actions| == |indices| > 0 && AllLegal(Entries(selected))
      && forall k :: 0 <= k < |indices| ==> EntryAt(selected, k) == EntryAt(b, indices[k])
  {
    hide EntryAt, Legal;
    var chosen := Chosen(b, indices);
    FlatReadsBack(chosen);
    forall k | 0 <= k < |indices|
      ensures Entries(Flat(chosen))[k] == EntryAt(b, indices[k]) && Legal(chosen[k].sample)
    {
      assert Entries(b)[indices[k]] == EntryAt(b, indices[k]);
    }
  }

  // ----- The batch of an episode -----

  /** The rows a seat contributes. */
  function Learned(turns: seq<Turn>, learning: seq<bool>, s: Seat): (rows: seq<Row>)
    requires |learning| == SEATS
  {
    match EpisodeLength(turns, 0)
    case Some(n) => if learning[s] then EpisodeRows(turns, s, n) else []
    case None => []
  }

  ghost predicate Within(rows: seq<Row>, turns: nat) {
    forall k :: 0 <= k < |rows| ==> rows[k].decision < turns
  }

  lemma LearnedWithin(turns: seq<Turn>, learning: seq<bool>, s: Seat)
    requires |learning| == SEATS
    ensures Within(Learned(turns, learning, s), |turns|)
  {
    hide EpisodeRows;
    if EpisodeLength(turns, 0).Some? && learning[s] {
      var n, rows := EpisodeLength(turns, 0).value, Learned(turns, learning, s);
      EpisodePartition(turns, s, n);
      forall k | 0 <= k < |rows|
        ensures rows[k].decision < |turns|
      {
        assert RowAt(turns, s, rows, k, n);
      }
    }
  }

  /** Each transition with what was seen and chosen at its decision, its advantage and its return. */
  ghost function SeatEntries(rows: seq<Row>, samples: seq<Sample>, gamma: real, decay: real): (entries: seq<Entry>)
    requires Within(rows, |samples|)
    ensures |entries| == |rows|
  {
    seq(|rows|, i requires 0 <= i < |rows| =>
      Entry(samples[rows[i].decision], Advantage(Inputs(rows), gamma, decay, i), Return(Inputs(rows), gamma, decay, i)))
  }

  ghost function EpisodeEntries(turns: seq<Turn>, samples: seq<Sample>, learning: seq<bool>, gamma: real, decay: real): seq<Entry>
    requires |learning| == SEATS && |samples| == |turns|
  {
    LearnedWithin(turns, learning, 0);
    LearnedWithin(turns, learning, 1);
    SeatEntries(Learned(turns, learning, 0), samples, gamma, decay) + SeatEntries(Learned(turns, learning, 1), samples, gamma, decay)
  }

  /** The batch of an episode: one seat after the other, each through its own estimate. The turns must end,
      some learning seat must have decided, and every choice recorded must be allowed by its mask. */
  method CollectEpisode(turns: seq<Turn>, samples: seq<Sample>, learning: seq<bool>, gamma: real, decay: real)
    returns (r: Result<PpoBatch, TrainingError>)
    requires |learning| == SEATS && |samples| == |turns|
    ensures var entries := EpisodeEntries(turns, samples, learning, gamma, decay);
      r == if EpisodeLength(turns, 0).None? then Failure(Environment)
           else if entries == [] || !AllLegal(entries) then Failure(Learner)
           else Success(Flat(entries))
  {
    hide EpisodeRows, Advantage, Return, AllLegal, Extended, SeatEntries, Learned, Collected;
    var rows :- CollectRows(turns, learning);
    var output := EMPTY;
    ghost var done: seq<Entry> := [];
    for s: nat := 0 to SEATS
      invariant s == 0 ==> done == []
      invariant s == 1 ==> done == EntriesOf(turns, samples, learning, gamma, decay, 0)
      invariant s == 2 ==> done == EpisodeEntries(turns, samples, learning, gamma, decay)
      invariant output == Flat(done)
    {
      var seatRows := SeatRows(rows, s);
      CollectedLearned(turns, learning, rows, s);
      LearnedWithin(turns, learning, s);
      var gae := GeneralizedAdvantageEstimate(Inputs(seatRows), gamma, decay);
      ghost var before := done;
      ghost var entries := SeatEntries(seatRows, samples, gamma, decay);
      for index := 0 to |seatRows|
        invariant done == before + entries[..index] && output == Flat(done)
      {
        var sample := samples[seatRows[index].decision];
        var entry := Entry(sample, gae.advantages[index], gae.returns_[index]);
        SeatEntryAt(seatRows, samples, gamma, decay, index);
        assert (done + [entry])[..|done|] == done;
        output := Extended(output, entry);
        done := done + [entry];
        assert entries[..index] + [entry] == entries[..index + 1];
      }
      assert entries[..|seatRows|] == entries;
    }
    FlatReadsBack(done);
    var valid := Validate(output);
    if valid.Failure? {
      return Failure(Learner);
    }
    r := Success(output);
  }

  ghost function EntriesOf(turns: seq<Turn>, samples: seq<Sample>, learning: seq<bool>, gamma: real, decay: real, s: Seat): seq<Entry>
    requires |learning| == SEATS && |samples| == |turns|
  {
    LearnedWithin(turns, learning, s);
    SeatEntries(Learned(turns, learning, s), samples, gamma, decay)
  }

  lemma CollectedLearned(turns: seq<Turn>, learning: seq<bool>, rows: seq<Row>, s: Seat)
    requires |learning| == SEATS && EpisodeLength(turns, 0).Some? && Collected(turns, learning, EpisodeLength(turns, 0).value, rows)
    ensures SeatRows(rows, s) == Learned(turns, learning, s)
  {
    hide EpisodeRows;
  }

  lemma SeatEntryAt(rows: seq<Row>, samples: seq<Sample>, gamma: real, decay: real, i: nat)
    requires Within(rows, |samples|) && i < |rows|
    ensures SeatEntries(rows, samples, gamma, decay)[i]
         == Entry(samples[rows[i].decision], Advantage(Inputs(rows), gamma, decay, i), Return(Inputs(rows), gamma, decay, i))
  {
    hide Advantage, Return;
  }
}
