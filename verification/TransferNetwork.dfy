/** The positions of both ends of a transfer and what the network between them can still deliver: exactly
    when the receiver can still be completed. */
module TransferNetwork {
  import opened Arithmetic
  import opened Counting

  // ----- Positions -----

  /** What matters of both ends and the network: how far each end is, which chunk numbers are unacknowledged,
      and which chunks and acknowledgements the network can still deliver. */
  datatype Net = Net(received: nat, sent: nat, outstanding: set<nat>, flight: set<nat>, acks: set<nat>)

  datatype Move = Emitted | Delivered(i: nat) | Dropped(i: nat) | Acked(i: nat) | AckLost(i: nat) | Rewound(k: nat)

  /** One move between `n` chunks and credit `c`; a move that is not possible changes nothing. */
  ghost function Step(n: nat, c: nat, t: Net, e: Move): Net {
    match e
    case Emitted =>
      if |t.outstanding| < c && t.sent < n then
        t.(sent := t.sent + 1, outstanding := t.outstanding + {t.sent}, flight := t.flight + {t.sent})
      else t
    case Delivered(i) =>
      if i !in t.flight || i > t.received then t
      else t.(received := if i == t.received then i + 1 else t.received, acks := t.acks + {i})
    case Dropped(i) => t.(flight := t.flight - {i})
    case Acked(i) => if i in t.acks then t.(outstanding := t.outstanding - {i}) else t
    case AckLost(i) => t.(acks := t.acks - {i})
    case Rewound(k) => if t.outstanding == {} && k <= n then t.(sent := k) else t
  }

  ghost function Run(n: nat, c: nat, t: Net, moves: seq<Move>): Net
    decreases |moves|
  {
    if moves == [] then t else Run(n, c, Step(n, c, t, moves[0]), moves[1..])
  }

  ghost predicate Within(n: nat, c: nat, t: Net) {
    && t.received <= n && t.sent <= n && |t.outstanding| <= c
    && (forall o :: o in t.outstanding ==> o < t.sent)
    && (forall i :: i in t.flight ==> i < n)
  }

  lemma StepWithin(n: nat, c: nat, t: Net, e: Move)
    requires Within(n, c, t)
    ensures Within(n, c, Step(n, c, t, e))
  {
    if e.Acked? {
      SubsetSize(t.outstanding - {e.i}, t.outstanding);
    }
  }

  /** Every chunk number from `lo` below `hi` can still be delivered. */
  ghost predicate Covers(flight: set<nat>, lo: nat, hi: nat) {
    forall i: nat :: lo <= i < hi ==> i in flight
  }

  /** The unacknowledged chunks that neither are deliverable nor have an acknowledgement under way. */
  ghost function Lost(t: Net): set<nat> {
    set o | o in t.outstanding && o !in t.acks && o !in t.flight
  }

  /** The rest is on its way, or what was sent is and some credit can come back. */
  ghost predicate Flowing(n: nat, c: nat, t: Net) {
    Covers(t.flight, t.received, n) || (Covers(t.flight, t.received, t.sent) && |Lost(t)| < c)
  }

  /** An acknowledgement of `o` is under way, or `o` and all the receiver needs before it are. */
  ghost predicate Settles(t: Net, o: nat) {
    o in t.acks || (o in t.flight && Covers(t.flight, t.received, o))
  }

  /** Everything outstanding can be acknowledged, after which the sender may be repositioned. */
  ghost predicate Clearable(t: Net) {
    forall o :: o in t.outstanding ==> Settles(t, o)
  }

  ghost predicate NoRewind(moves: seq<Move>) {
    forall k :: 0 <= k < |moves| ==> !moves[k].Rewound?
  }

  ghost predicate CanComplete(n: nat, c: nat, t: Net) {
    exists moves :: Run(n, c, t, moves).received == n
  }

  ghost predicate CompletesOnward(n: nat, c: nat, t: Net) {
    exists moves :: NoRewind(moves) && Run(n, c, t, moves).received == n
  }

  // ----- What can no longer be repaired -----

  /** Once the flow is broken no move but a rewind restores it. */
  lemma BrokenStays(n: nat, c: nat, t: Net, e: Move)
    requires Within(n, c, t) && !Flowing(n, c, t) && !e.Rewound?
    ensures !Flowing(n, c, Step(n, c, t, e))
  {
    var u := Step(n, c, t, e);
    var g: nat :| t.received <= g < n && g !in t.flight;
    if e.Emitted? && u != t {
      SubsetSize(Lost(t), t.outstanding);
      var h: nat :| t.received <= h < t.sent && h !in t.flight;
      assert h !in u.flight;
    } else {
      assert g !in u.flight && u.received <= g;
      if !Covers(t.flight, t.received, t.sent) {
        var h: nat :| t.received <= h < t.sent && h !in t.flight;
        assert h !in u.flight && u.received <= h;
      } else {
        SubsetSize(Lost(t), Lost(u));
      }
    }
  }

  /** An outstanding chunk that cannot be acknowledged any more stays so, and forbids every rewind. */
  lemma StuckStays(n: nat, c: nat, t: Net, e: Move, o: nat)
    requires Within(n, c, t) && o in t.outstanding && !Settles(t, o)
    ensures var u := Step(n, c, t, e); o in u.outstanding && !Settles(u, o)
    ensures e.Rewound? ==> Step(n, c, t, e) == t
  {
    var u := Step(n, c, t, e);
    if o in t.flight {
      var g: nat :| t.received <= g < o && g !in t.flight;
      assert g !in u.flight && u.received <= g;
    }
  }

  lemma {:induction false} BrokenForever(n: nat, c: nat, t: Net, moves: seq<Move>)
    requires Within(n, c, t) && !Flowing(n, c, t) && (NoRewind(moves) || !Clearable(t))
    ensures Run(n, c, t, moves).received < n
    decreases |moves|
  {
    if moves != [] {
      var e := moves[0];
      StepWithin(n, c, t, e);
      if !Clearable(t) {
        var o :| o in t.outstanding && !Settles(t, o);
        StuckStays(n, c, t, e, o);
      }
      if !e.Rewound? {
        BrokenStays(n, c, t, e);
      }
      BrokenForever(n, c, Step(n, c, t, e), moves[1..]);
    }
  }

  // ----- What can -----

  lemma Prepend(n: nat, c: nat, t: Net, e: Move, rest: seq<Move>) returns (moves: seq<Move>)
    ensures moves == [e] + rest && Run(n, c, t, moves) == Run(n, c, Step(n, c, t, e), rest)
    ensures NoRewind(rest) && !e.Rewound? ==> NoRewind(moves)
  {
    moves := [e] + rest;
    assert moves[1..] == rest;
  }

  /** Deliverable chunks bring the receiver up to `hi`. */
  lemma {:induction false} CatchUp(n: nat, c: nat, t: Net, hi: nat) returns (moves: seq<Move>)
    requires Within(n, c, t) && hi <= n && Covers(t.flight, t.received, hi)
    ensures NoRewind(moves) && Within(n, c, Run(n, c, t, moves))
    ensures var u := Run(n, c, t, moves);
      && u.received == Max(t.received, hi) && u.sent == t.sent && u.flight == t.flight && u.outstanding == t.outstanding
      && t.acks <= u.acks && (forall i :: i in u.acks ==> i in t.acks || i in t.flight)
      && (forall i: nat :: t.received <= i < hi ==> i in u.acks)
    decreases hi - t.received
  {
    if t.received >= hi {
      moves := [];
    } else {
      var e := Delivered(t.received);
      StepWithin(n, c, t, e);
      var rest := CatchUp(n, c, Step(n, c, t, e), hi);
      moves := Prepend(n, c, t, e, rest);
    }
  }

  /** Everything outstanding that can be acknowledged at once is; only lost chunks remain. */
  lemma {:induction false} Purge(n: nat, c: nat, t: Net) returns (moves: seq<Move>)
    requires Within(n, c, t)
    requires forall o :: o in t.outstanding ==> o in t.acks || o !in t.flight || o < t.received
    ensures NoRewind(moves) && Within(n, c, Run(n, c, t, moves))
    ensures var u := Run(n, c, t, moves);
      u.received == t.received && u.sent == t.sent && u.flight == t.flight && u.outstanding == Lost(t)
    decreases |t.outstanding|
  {
    if o :| o in t.outstanding && o !in Lost(t) {
      var d := Delivered(o);
      var t1 := if o in t.acks then t else Step(n, c, t, d);
      var t2 := Step(n, c, t1, Acked(o));
      StepWithin(n, c, t, d);
      StepWithin(n, c, t1, Acked(o));
      assert Lost(t2) == Lost(t);
      RemoveOne(t.outstanding, o);
      var rest := Purge(n, c, t2);
      moves := Prepend(n, c, t1, Acked(o), rest);
      if o !in t.acks {
        moves := Prepend(n, c, t, d, moves);
      }
    } else {
      moves := [];
      assert t.outstanding == Lost(t);
    }
  }

  lemma RemoveOne(s: set<nat>, o: nat)
    requires o in s
    ensures |s - {o}| < |s|
  {
    assert s == (s - {o}) + {o};
  }

  /** A sender that is not ahead of the receiver and has credit completes, chunk by chunk. */
  lemma {:induction false} SendOn(n: nat, c: nat, t: Net) returns (moves: seq<Move>)
    requires Within(n, c, t) && t.sent <= t.received && |t.outstanding| < c
    ensures NoRewind(moves) && Run(n, c, t, moves).received == n
    decreases n - t.sent
  {
    if t.sent == n {
      moves := [];
    } else {
      var x := t.sent;
      assert x !in t.outstanding;
      var t1 := Step(n, c, t, Emitted);
      var t2 := Step(n, c, t1, Delivered(x));
      var t3 := Step(n, c, t2, Acked(x));
      StepWithin(n, c, t, Emitted);
      StepWithin(n, c, t1, Delivered(x));
      StepWithin(n, c, t2, Acked(x));
      assert t3.outstanding == t.outstanding;
      var rest := SendOn(n, c, t3);
      moves := Prepend(n, c, t2, Acked(x), rest);
      moves := Prepend(n, c, t1, Delivered(x), moves);
      moves := Prepend(n, c, t, Emitted, moves);
    }
  }

  lemma {:induction false} RunJoin(n: nat, c: nat, t: Net, a: seq<Move>, b: seq<Move>)
    ensures Run(n, c, t, a + b) == Run(n, c, Run(n, c, t, a), b)
    ensures NoRewind(a) && NoRewind(b) ==> NoRewind(a + b)
    decreases |a|
  {
    if a == [] {
      assert a + b == b;
    } else {
      RunJoin(n, c, Step(n, c, t, a[0]), a[1..], b);
      assert (a + b)[1..] == a[1..] + b;
    }
  }

  lemma FlowCompletes(n: nat, c: nat, t: Net) returns (moves: seq<Move>)
    requires Within(n, c, t) && Flowing(n, c, t)
    ensures NoRewind(moves) && Run(n, c, t, moves).received == n
  {
    hide Run, Step;
    if Covers(t.flight, t.received, n) {
      moves := CatchUp(n, c, t, n);
    } else {
      var a := CatchUp(n, c, t, t.sent);
      var u := Run(n, c, t, a);
      assert Lost(u) == Lost(t);
      var b := Purge(n, c, u);
      var d := SendOn(n, c, Run(n, c, u, b));
      RunJoin(n, c, u, b, d);
      RunJoin(n, c, t, a, b + d);
      moves := a + (b + d);
    }
  }

  /** The receiver is brought past everything that is outstanding and not yet acknowledged. */
  lemma {:induction false} SettleAll(n: nat, c: nat, t: Net) returns (moves: seq<Move>)
    requires Within(n, c, t) && Clearable(t)
    ensures Within(n, c, Run(n, c, t, moves))
    ensures Settled(Run(n, c, t, moves))
    decreases n - t.received
  {
    if o :| o in t.outstanding && o !in t.acks && o >= t.received {
      assert t.received in t.flight;
      var e := Delivered(t.received);
      StepWithin(n, c, t, e);
      var rest := SettleAll(n, c, Step(n, c, t, e));
      moves := Prepend(n, c, t, e, rest);
    } else {
      moves := [];
    }
  }

  ghost predicate Settled(t: Net) {
    forall o :: o in t.outstanding ==> o in t.acks || (o in t.flight && o < t.received)
  }

  lemma ClearCompletes(n: nat, c: nat, t: Net) returns (moves: seq<Move>)
    requires Within(n, c, t) && Clearable(t) && c > 0
    ensures Run(n, c, t, moves).received == n
  {
    var a := SettleAll(n, c, t);
    var u := Run(n, c, t, a);
    var b := Purge(n, c, u);
    var v := Run(n, c, u, b);
    assert Lost(u) == {};
    var e := Rewound(v.received);
    StepWithin(n, c, v, e);
    var d := SendOn(n, c, Step(n, c, v, e));
    var f := PrependRun(n, c, v, e, d);
    RunJoin(n, c, u, b, f);
    RunJoin(n, c, t, a, b + f);
    moves := a + (b + f);
  }

  lemma PrependRun(n: nat, c: nat, t: Net, e: Move, rest: seq<Move>) returns (moves: seq<Move>)
    ensures Run(n, c, t, moves) == Run(n, c, Step(n, c, t, e), rest)
  {
    moves := Prepend(n, c, t, e, rest);
  }

  /** From any position the transfer can still complete exactly when the flow is unbroken or everything
      outstanding can still be acknowledged. */
  lemma CanCompleteExact(n: nat, c: nat, t: Net)
    requires Within(n, c, t) && c > 0
    ensures CanComplete(n, c, t) <==> Flowing(n, c, t) || Clearable(t)
    ensures CompletesOnward(n, c, t) <==> Flowing(n, c, t)
  {
    hide Run, Flowing, Clearable, NoRewind;
    if Flowing(n, c, t) {
      var moves := FlowCompletes(n, c, t);
    } else if Clearable(t) {
      var moves := ClearCompletes(n, c, t);
    }
    if !Flowing(n, c, t) {
      forall moves | NoRewind(moves) || !Clearable(t)
        ensures Run(n, c, t, moves).received < n
      {
        BrokenForever(n, c, t, moves);
      }
    }
  }

  /** With nothing outstanding and nothing left to deliver, a sender completes without repositioning
      exactly when it is not ahead of the receiver; with repositioning it always can. */
  lemma QuietCompletes(n: nat, c: nat, t: Net)
    requires Within(n, c, t) && c > 0 && t.outstanding == {} && t.flight == {}
    ensures CompletesOnward(n, c, t) <==> t.received == n || t.sent <= t.received
    ensures CanComplete(n, c, t)
  {
    CanCompleteExact(n, c, t);
    hide CanComplete, CompletesOnward;
    assert Lost(t) == {};
    assert t.received < n ==> (Covers(t.flight, t.received, n) ==> t.received in t.flight);
    assert t.received < t.sent ==> (Covers(t.flight, t.received, t.sent) ==> t.received in t.flight);
  }
}
