/** Sequences of distinct cards ranked as partial permutations. A sequence becomes the positions its
    cards have among the cards still available, and the positions become one mixed-radix number. */
module UniqueCards {
  import opened Wrappers
  import opened FiniteDomains
  import opened StandardDeck
  import opened Arithmetic
  import opened Sequences

  /** Validate uniqueness. */
  method NewUniqueCards(cards: seq<Card>) returns (r: Result<seq<Card>, DecodeError>)
    ensures r.Success? <==> |cards| <= DECK_SIZE && Distinct(cards)
    ensures r.Success? ==> r.value == cards
    ensures r.Failure? ==>
      r.error == InvalidRefinement("UniqueCards",
        if |cards| > DECK_SIZE then "more cards requested than exist in the deck" else "duplicate card")
  {
    if |cards| > DECK_SIZE {
      return Failure(InvalidRefinement("UniqueCards", "more cards requested than exist in the deck"));
    }
    for i := 0 to |cards|
      invariant Distinct(cards[..i])
    {
      if cards[i] in cards[..i] {
        return Failure(InvalidRefinement("UniqueCards", "duplicate card"));
      }
    }
    r := Success(cards);
  }

  // ----- Positions as a number -----

  /** 52 * 51 * ... , `n` factors. */
  function Falling(n: nat): nat
    requires n <= DECK_SIZE
  {
    if n == 0 then 1 else Falling(n - 1) * (DECK_SIZE - (n - 1))
  }

  /** Position `i` is below the number of cards still available then. */
  predicate Positions(ps: seq<nat>) {
    |ps| <= DECK_SIZE && Within(ps, DECK_SIZE)
  }

  predicate Within(ps: seq<nat>, available: int) {
    forall i :: 0 <= i < |ps| ==> ps[i] < available - i
  }

  function Value(ps: seq<nat>): nat
    requires |ps| <= DECK_SIZE
  {
    if ps == [] then 0 else Value(ps[..|ps| - 1]) * (DECK_SIZE - (|ps| - 1)) + ps[|ps| - 1]
  }

  /** The digit of position `index`, whose radix is the number of cards available there. */
  function Digit(index: nat, code: nat): (d: nat)
    requires index < DECK_SIZE
    ensures d < DECK_SIZE - index
  {
    code % (DECK_SIZE - index)
  }

  function Shift(index: nat, code: nat): nat
    requires index < DECK_SIZE
  {
    code / (DECK_SIZE - index)
  }

  function PositionsOf(n: nat, code: nat): (ps: seq<nat>)
    requires n <= DECK_SIZE
    ensures |ps| == n && Positions(ps)
  {
    if n == 0 then [] else PositionsOf(n - 1, Shift(n - 1, code)) + [Digit(n - 1, code)]
  }

  lemma {:induction false} ValueExact(ps: seq<nat>)
    requires Positions(ps)
    ensures Value(ps) < Falling(|ps|) && PositionsOf(|ps|, Value(ps)) == ps
  {
    if ps != [] {
      var front, radix := ps[..|ps| - 1], DECK_SIZE - (|ps| - 1);
      ValueExact(front);
      Compose(Value(front), ps[|ps| - 1], radix, Falling(|front|));
      assert ps == front + [ps[|ps| - 1]];
    }
  }

  lemma {:induction false} PositionsExact(n: nat, code: nat)
    requires n <= DECK_SIZE && code < Falling(n)
    ensures Value(PositionsOf(n, code)) == code
  {
    if n > 0 {
      var radix := DECK_SIZE - (n - 1);
      Decompose(code, radix, Falling(n - 1));
      PositionsExact(n - 1, code / radix);
      assert PositionsOf(n, code)[..n - 1] == PositionsOf(n - 1, Shift(n - 1, code));
    }
  }

  // ----- Cards as positions -----

  function Find(available: seq<nat>, card: nat): (p: nat)
    ensures p <= |available| && (p < |available| ==> available[p] == card)
    ensures p == |available| <==> card !in available
  {
    if available == [] then 0
    else if available[0] == card then 0
    else
      assert available == [available[0]] + available[1..];
      1 + Find(available[1..], card)
  }

  function Without(s: seq<nat>, p: nat): (r: seq<nat>)
    requires p < |s|
    ensures |r| == |s| - 1
    ensures forall i :: 0 <= i < |r| ==> r[i] == if i < p then s[i] else s[i + 1]
  {
    s[..p] + s[p + 1..]
  }

  /** Removing one card of a distinct list leaves the others, still distinct. */
  lemma WithoutExact(s: seq<nat>, p: nat, c: nat)
    requires Distinct(s) && p < |s|
    ensures Distinct(Without(s, p)) && (c in Without(s, p) <==> c in s && c != s[p])
  {
    var r := Without(s, p);
    if c in s && c != s[p] {
      var i :| 0 <= i < |s| && s[i] == c;
      assert r[if i < p then i else i - 1] == c;
    }
  }

  /** Where each card is among those still available when its turn comes. */
  function PositionsIn(available: seq<nat>, cards: seq<nat>): (ps: seq<nat>)
    requires Distinct(available) && Distinct(cards) && forall c :: c in cards ==> c in available
    ensures |ps| == |cards| <= |available|
    ensures Within(ps, |available|)
  {
    if cards == [] then []
    else
      var p := Find(available, cards[0]);
      assert cards[0] in available;
      RestAvailable(available, cards);
      [p] + PositionsIn(Without(available, p), cards[1..])
  }

  lemma RestAvailable(available: seq<nat>, cards: seq<nat>)
    requires Distinct(available) && Distinct(cards) && cards != [] && forall c :: c in cards ==> c in available
    ensures var p := Find(available, cards[0]);
      p < |available| && Distinct(cards[1..]) && Distinct(Without(available, p))
      && forall c :: c in cards[1..] ==> c in Without(available, p)
  {
    assert cards[0] in available;
    var p := Find(available, cards[0]);
    WithoutExact(available, p, 0);
    forall c | c in cards[1..]
      ensures c in Without(available, p)
    {
      assert c in cards;
      WithoutExact(available, p, c);
    }
  }

  function CardsAt(available: seq<nat>, ps: seq<nat>): (cards: seq<nat>)
    requires Within(ps, |available|)
    ensures |cards| == |ps|
  {
    if ps == [] then []
    else
      assert forall i :: 0 <= i < |ps[1..]| ==> ps[1..][i] == ps[i + 1];
      [available[ps[0]]] + CardsAt(Without(available, ps[0]), ps[1..])
  }

  lemma {:induction false} CardsAtAvailable(available: seq<nat>, ps: seq<nat>)
    requires Distinct(available) && Within(ps, |available|)
    ensures Distinct(CardsAt(available, ps)) && forall c :: c in CardsAt(available, ps) ==> c in available
  {
    if ps != [] {
      var rest := Without(available, ps[0]);
      WithoutExact(available, ps[0], 0);
      assert forall i :: 0 <= i < |ps[1..]| ==> ps[1..][i] == ps[i + 1];
      CardsAtAvailable(rest, ps[1..]);
      forall c | c in CardsAt(rest, ps[1..])
        ensures c in available && c != available[ps[0]]
      {
        WithoutExact(available, ps[0], c);
      }
      HeadDistinct(available[ps[0]], CardsAt(rest, ps[1..]));
    }
  }

  lemma HeadDistinct(head: nat, rest: seq<nat>)
    requires Distinct(rest) && head !in rest
    ensures Distinct([head] + rest)
  {
  }

  lemma FindsItself(available: seq<nat>, p: nat)
    requires Distinct(available) && p < |available|
    ensures Find(available, available[p]) == p
  {
    assert available[p] in available;
  }

  /** Reading positions back from the cards they pick. */
  lemma {:induction false} PositionsOfCards(available: seq<nat>, ps: seq<nat>)
    requires Distinct(available) && Within(ps, |available|)
    requires Distinct(CardsAt(available, ps)) && forall c :: c in CardsAt(available, ps) ==> c in available
    ensures PositionsIn(available, CardsAt(available, ps)) == ps
  {
    if ps != [] {
      var rest, cards := Without(available, ps[0]), CardsAt(available, ps);
      WithoutExact(available, ps[0], 0);
      assert forall i :: 0 <= i < |ps[1..]| ==> ps[1..][i] == ps[i + 1];
      FindsItself(available, ps[0]);
      RestAvailable(available, cards);
      assert cards[1..] == CardsAt(rest, ps[1..]);
      PositionsOfCards(rest, ps[1..]);
    }
  }

  lemma {:induction false} CardsOfPositions(available: seq<nat>, cards: seq<nat>)
    requires Distinct(available) && Distinct(cards) && forall c :: c in cards ==> c in available
    ensures CardsAt(available, PositionsIn(available, cards)) == cards
  {
    if cards != [] {
      RestAvailable(available, cards);
      var p := Find(available, cards[0]);
      CardsOfPositions(Without(available, p), cards[1..]);
      var ps := PositionsIn(available, cards);
      assert ps[1..] == PositionsIn(Without(available, p), cards[1..]);
    }
  }

  // ----- Rank and unrank -----

  function CodesBelow(n: nat): (d: seq<nat>)
    ensures |d| == n && Distinct(d) && forall c: nat :: c in d <==> c < n
  {
    if n == 0 then []
    else
      var front := CodesBelow(n - 1);
      assert forall i :: 0 <= i < |front| ==> front[i] in front;
      front + [n - 1]
  }

  /** Every card in code order. */
  function FullDeck(): (d: seq<nat>)
    ensures |d| == DECK_SIZE && Distinct(d) && forall c: nat :: c in d <==> c < DECK_SIZE
  {
    CodesBelow(DECK_SIZE)
  }

  function Rank(cards: seq<Card>): nat
    requires Distinct(cards)
  {
    Value(PositionsIn(FullDeck(), cards))
  }

  function Unrank(n: nat, code: nat): Result<seq<Card>, DecodeError>
    requires n <= DECK_SIZE
  {
    if code >= Falling(n) then Failure(OutOfRange(code, Falling(n), "UniqueCards"))
    else
      CardsAtAvailable(FullDeck(), PositionsOf(n, code));
      var cards := CardsAt(FullDeck(), PositionsOf(n, code));
      assert forall i :: 0 <= i < |cards| ==> cards[i] in cards;
      Success(cards)
  }

  /** Ranking and unranking are inverse bijections between the distinct sequences of `n` cards and the
      codes below 52 * 51 * ... * (52 - n + 1). */
  lemma RankThenUnrank(cards: seq<Card>)
    requires Distinct(cards)
    ensures |cards| <= DECK_SIZE && Rank(cards) < Falling(|cards|) && Unrank(|cards|, Rank(cards)) == Success(cards)
  {
    var ps := PositionsIn(FullDeck(), cards);
    ValueExact(ps);
    CardsOfPositions(FullDeck(), cards);
  }

  lemma UnrankThenRank(n: nat, code: nat)
    requires n <= DECK_SIZE && code < Falling(n)
    ensures var r := Unrank(n, code);
      r.Success? && |r.value| == n && Distinct(r.value) && Rank(r.value) == code
  {
    var ps := PositionsOf(n, code);
    CardsAtAvailable(FullDeck(), ps);
    PositionsOfCards(FullDeck(), ps);
    PositionsExact(n, code);
  }

  // ----- Codes are lexicographic -----

  ghost predicate Increasing(s: seq<nat>) { forall i, j :: 0 <= i < j < |s| ==> s[i] < s[j] }

  lemma {:induction false} CodesBelowAt(n: nat, i: nat)
    requires i < n
    ensures CodesBelow(n)[i] == i
  {
    if i < n - 1 {
      CodesBelowAt(n - 1, i);
    }
  }

  lemma FullDeckIncreases()
    ensures Increasing(FullDeck())
  {
    hide CodesBelow;
    forall i, j | 0 <= i < j < DECK_SIZE
      ensures FullDeck()[i] < FullDeck()[j]
    {
      CodesBelowAt(DECK_SIZE, i);
      CodesBelowAt(DECK_SIZE, j);
    }
  }

  /** `a` and `b` agree up to `k` and differ there, `a` having the smaller entry. */
  ghost predicate FirstLess(a: seq<nat>, b: seq<nat>, k: nat) {
    |a| == |b| && k < |a| && a[..k] == b[..k] && a[k] < b[k]
  }

  lemma PositionsHead(available: seq<nat>, cards: seq<nat>)
    requires Distinct(available) && Distinct(cards) && cards != [] && forall c :: c in cards ==> c in available
    ensures var p := Find(available, cards[0]);
      && p < |available| && available[p] == cards[0]
      && Distinct(cards[1..]) && Distinct(Without(available, p)) && (forall c :: c in cards[1..] ==> c in Without(available, p))
      && PositionsIn(available, cards) == [p] + PositionsIn(Without(available, p), cards[1..])
  {
    RestAvailable(available, cards);
    assert cards[0] in available;
  }

  lemma WithoutIncreases(available: seq<nat>, p: nat)
    requires Increasing(available) && p < |available|
    ensures Increasing(Without(available, p))
  {
  }

  /** Where the available cards increase, positions first differ where the cards do, and the same way. */
  lemma {:induction false} PositionsFollow(available: seq<nat>, a: seq<nat>, b: seq<nat>, k: nat)
    requires Distinct(available) && Increasing(available) && Distinct(a) && Distinct(b) && FirstLess(a, b, k)
    requires (forall c :: c in a ==> c in available) && forall c :: c in b ==> c in available
    ensures FirstLess(PositionsIn(available, a), PositionsIn(available, b), k)
    decreases k
  {
    hide PositionsIn, Find, Without, Distinct, Increasing, FirstLess;
    NonemptyDifference(a, b, k);
    PositionsHead(available, a);
    PositionsHead(available, b);
    var p, q := Find(available, a[0]), Find(available, b[0]);
    if k == 0 {
      EarlierHead(available, p, q, a, b, PositionsIn(Without(available, p), a[1..]), PositionsIn(Without(available, q), b[1..]));
    } else {
      SameHead(a, b, k);
      WithoutIncreases(available, p);
      PositionsFollow(Without(available, p), a[1..], b[1..], k - 1);
      LaterDifference(p, PositionsIn(Without(available, p), a[1..]), PositionsIn(Without(available, p), b[1..]), k);
    }
  }

  lemma NonemptyDifference(a: seq<nat>, b: seq<nat>, k: nat)
    requires FirstLess(a, b, k)
    ensures a != [] && b != []
  {
  }

  lemma EarlierHead(available: seq<nat>, p: nat, q: nat, a: seq<nat>, b: seq<nat>, xs: seq<nat>, ys: seq<nat>)
    requires Increasing(available) && FirstLess(a, b, 0) && p < |available| && q < |available|
    requires available[p] == a[0] && available[q] == b[0] && |xs| == |a| - 1 && |ys| == |b| - 1
    ensures FirstLess([p] + xs, [q] + ys, 0)
  {
    assert ([p] + xs)[..0] == ([q] + ys)[..0];
  }

  lemma SameHead(a: seq<nat>, b: seq<nat>, k: nat)
    requires FirstLess(a, b, k) && k > 0
    ensures a[0] == b[0] && FirstLess(a[1..], b[1..], k - 1)
  {
    assert a[0] == a[..k][0] == b[..k][0] == b[0];
    assert a[1..][..k - 1] == a[..k][1..] == b[..k][1..] == b[1..][..k - 1];
  }

  lemma LaterDifference(p: nat, xs: seq<nat>, ys: seq<nat>, k: nat)
    requires k > 0 && FirstLess(xs, ys, k - 1)
    ensures FirstLess([p] + xs, [p] + ys, k)
  {
    assert ([p] + xs)[..k] == [p] + xs[..k - 1] && ([p] + ys)[..k] == [p] + ys[..k - 1];
  }

  /** The first difference of two position lists decides between their numbers. */
  lemma {:induction false} ValueFollows(us: seq<nat>, vs: seq<nat>, k: nat)
    requires Positions(us) && Positions(vs) && FirstLess(us, vs, k)
    ensures Value(us) < Value(vs)
  {
    var last := |us| - 1;
    var radix := DECK_SIZE - last;
    if k == last {
      assert us[..k] == vs[..k];
    } else {
      assert us[..last][..k] == us[..k] && vs[..last][..k] == vs[..k];
      ValueFollows(us[..last], vs[..last], k);
      Scale(Value(us[..last]), Value(vs[..last]), radix);
    }
  }

  /** The code is the lexicographic rank: of two sequences of one length, that with the smaller card at the
      first difference has the smaller code. */
  lemma RankIsLexicographic(a: seq<Card>, b: seq<Card>, k: nat)
    requires Distinct(a) && Distinct(b) && |a| == |b| && k < |a| && a[..k] == b[..k] && a[k] < b[k]
    ensures Rank(a) < Rank(b)
  {
    hide CodesBelow;
    FullDeckIncreases();
    PositionsFollow(FullDeck(), a, b, k);
    hide FullDeck;
    ValueFollows(PositionsIn(FullDeck(), a), PositionsIn(FullDeck(), b), k);
  }

  /** The codec: lawful for every length up to the deck. */
  function Cards(n: nat): Codec<seq<Card>>
    requires n <= DECK_SIZE
  {
    Codec((cards: seq<Card>) => |cards| == n && Distinct(cards), Falling(n),
          (cards: seq<Card>) => if Distinct(cards) then Rank(cards) else 0,
          (code: nat) => Unrank(n, code))
  }

  lemma CardsLawful(n: nat)
    requires n <= DECK_SIZE
    ensures Lawful(Cards(n))
  {
    hide Rank, Unrank;
    var c := Cards(n);
    forall cards: seq<Card> | c.member(cards)
      ensures c.encode(cards) < c.cardinality && c.decode(c.encode(cards)) == Success(cards)
    {
      RankThenUnrank(cards);
    }
    forall code: nat
      ensures Exact(c, code)
    {
      if code < c.cardinality {
        UnrankThenRank(n, code);
      } else {
        UnrankRejects(n, code);
      }
    }
  }

  lemma UnrankRejects(n: nat, code: nat)
    requires n <= DECK_SIZE && code >= Falling(n)
    ensures Unrank(n, code) == Failure(OutOfRange(code, Falling(n), "UniqueCards"))
  {
  }

  // ----- The loops -----

  method Cardinality(n: nat) returns (total: nat)
    requires n <= DECK_SIZE
    ensures total == Falling(n)
  {
    total := 1;
    for index := 0 to n
      invariant total == Falling(index)
    {
      total := total * (DECK_SIZE - index);
    }
  }

  method EncodeCards(cards: seq<Card>) returns (code: nat)
    requires |cards| <= DECK_SIZE && Distinct(cards)
    ensures code == Rank(cards)
  {
    hide FullDeck, PositionsIn, Find, Without, Value;
    ValueStep([], 0);
    var available: seq<nat> := FullDeck();
    code := 0;
    ghost var ps: seq<nat> := [];
    for index := 0 to |cards|
      invariant |available| == DECK_SIZE - index && Distinct(available)
      invariant Distinct(cards[index..]) && forall c :: c in cards[index..] ==> c in available
      invariant |ps| == index && PositionsIn(FullDeck(), cards) == ps + PositionsIn(available, cards[index..])
      invariant code == Value(ps)
    {
      PositionsStep(available, cards, index);
      var position := Find(available, cards[index]);
      ValueStep(ps, position);
      ps := ps + [position];
      code := code * (DECK_SIZE - index) + position;
      available := Without(available, position);
    }
    assert ps + [] == ps;
  }

  lemma ValueStep(ps: seq<nat>, position: nat)
    requires |ps| < DECK_SIZE
    ensures Value(ps + [position]) == Value(ps) * (DECK_SIZE - |ps|) + position && Value([]) == 0
  {
    assert (ps + [position])[..|ps|] == ps;
  }

  lemma PositionsStep(available: seq<nat>, cards: seq<nat>, index: nat)
    requires index < |cards| && Distinct(available) && Distinct(cards[index..])
    requires forall c :: c in cards[index..] ==> c in available
    ensures var p := Find(available, cards[index]);
      && p < |available| && Distinct(Without(available, p)) && Distinct(cards[index + 1..])
      && (forall c :: c in cards[index + 1..] ==> c in Without(available, p))
      && forall front: seq<nat> :: front + PositionsIn(available, cards[index..])
                                == front + [p] + PositionsIn(Without(available, p), cards[index + 1..])
  {
    hide Find, Without;
    RestAvailable(available, cards[index..]);
    assert cards[index..][1..] == cards[index + 1..] && cards[index..][0] == cards[index];
  }

  method DecodeCards(n: nat, input: nat) returns (r: Result<seq<Card>, DecodeError>)
    requires n <= DECK_SIZE
    ensures r == Unrank(n, input)
  {
    if input >= Falling(n) {
      return Failure(OutOfRange(input, Falling(n), "UniqueCards"));
    }
    hide FullDeck, PositionsOf, Falling, Without, CardsAt;
    var positions := PopPositions(n, input);
    var available: seq<nat> := FullDeck();
    var cards: seq<Card> := [];
    CardsAtAvailable(available, positions);
    assert positions[0..] == positions;
    for i := 0 to n
      invariant |available| == DECK_SIZE - i && forall c :: c in available ==> c < DECK_SIZE
      invariant Within(positions[i..], |available|)
      invariant cards + CardsAt(available, positions[i..]) == CardsAt(FullDeck(), positions)
    {
      PickStep(available, positions, i);
      var card := available[positions[i]];
      assert card in available;
      cards := cards + [card];
      available := Without(available, positions[i]);
    }
    assert cards + CardsAt(available, positions[n..]) == cards;
    r := Success(cards);
  }

  lemma PickStep(available: seq<nat>, positions: seq<nat>, i: nat)
    requires i < |positions| && Within(positions[i..], |available|)
    ensures var p := positions[i];
      && p < |available| && (forall c :: c in Without(available, p) ==> c in available)
      && Within(positions[i + 1..], |available| - 1)
      && forall front: seq<nat> :: front + CardsAt(available, positions[i..])
                                == front + [available[p]] + CardsAt(Without(available, p), positions[i + 1..])
  {
    var rest := positions[i..];
    assert rest[0] == positions[i] && rest[1..] == positions[i + 1..];
    assert forall j :: 0 <= j < |rest[1..]| ==> rest[1..][j] == rest[j + 1];
  }

  /** Positions come off the low end, last first, and are then reversed. */
  method PopPositions(n: nat, input: nat) returns (positions: seq<nat>)
    requires n <= DECK_SIZE
    ensures positions == PositionsOf(n, input)
  {
    PopEnds(n, input, []);
    hide PositionsOf, Reversed, StillPopped, Digit, Shift;
    var code: nat := input;
    var popped: seq<nat> := [];
    var left: nat := n;
    while left > 0
      invariant left <= n && StillPopped(left, code, popped) == StillPopped(n, input, [])
    {
      left := left - 1;
      PopStep(left, code, popped);
      popped := popped + [Digit(left, code)];
      code := Shift(left, code);
    }
    PopEnds(0, code, popped);
    positions := Reversed(popped);
  }

  /** What is still to be popped, followed by what was. */
  ghost function StillPopped(left: nat, code: nat, popped: seq<nat>): seq<nat>
    requires left <= DECK_SIZE
  {
    PositionsOf(left, code) + Reversed(popped)
  }

  lemma PopEnds(n: nat, code: nat, popped: seq<nat>)
    requires n <= DECK_SIZE
    ensures StillPopped(n, code, []) == PositionsOf(n, code) && StillPopped(0, code, popped) == Reversed(popped)
  {
    assert PositionsOf(n, code) + Reversed([]) == PositionsOf(n, code);
    assert [] + Reversed(popped) == Reversed(popped);
  }

  lemma PopStep(left: nat, code: nat, popped: seq<nat>)
    requires left < DECK_SIZE
    ensures StillPopped(left + 1, code, popped) == StillPopped(left, Shift(left, code), popped + [Digit(left, code)])
  {
    hide Digit, Shift;
    var digit := Digit(left, code);
    assert Reversed(popped + [digit]) == [digit] + Reversed(popped);
    assert PositionsOf(left + 1, code) == PositionsOf(left, Shift(left, code)) + [digit];
  }

  // ----- Where the codes stop fitting -----

  lemma {:induction false} FallingGrows(m: nat, n: nat)
    requires m <= n <= DECK_SIZE
    ensures 0 < Falling(m) <= Falling(n)
  {
    if n > 0 {
      if m < n {
        FallingGrows(m, n - 1);
        Scale(1, DECK_SIZE - (n - 1), Falling(n - 1));
      } else {
        FallingGrows(m - 1, n - 1);
        Scale(1, DECK_SIZE - (n - 1), Falling(n - 1));
      }
    }
  }

  lemma FallingEndpoints()
    ensures Falling(24) < U128 <= Falling(25)
  {
    assert Falling(12) == 98856066097780992000;
    assert Falling(24) == 264549880624872460848840677523456000000;
  }

  /** The cardinality fits 128 bits exactly up to twenty-four cards. */
  lemma FitsExactly(n: nat)
    requires n <= DECK_SIZE
    ensures Falling(n) < U128 <==> n <= 24
  {
    FallingEndpoints();
    if n <= 24 {
      FallingGrows(n, 24);
    } else {
      FallingGrows(25, n);
    }
  }

  /** Then every intermediate code of the encoder fits too. */
  lemma CodesStayInRange(cards: seq<Card>, i: nat)
    requires Distinct(cards) && i <= |cards| <= 24
    ensures Value(PositionsIn(FullDeck(), cards)[..i]) < U128
  {
    hide FullDeck, PositionsIn, Falling;
    var ps := PositionsIn(FullDeck(), cards);
    ValueExact(ps[..i]);
    FitsExactly(i);
  }
}
