/** Public reveals, assignments, and the complete-round audit: an accepted audit is a permutation of
    the deck. */
module Audit {
  import opened Wrappers
  import opened Counting
  import opened Wire
  import opened Octets
  import opened StandardDeck
  import opened Records
  import opened Transcript

  const REVEAL_DOMAIN := "poche-public-reveal-v0"

  datatype Assignment = Assignment(holder: PlayerId, position: Position)

  // ----- Assignments -----

  /** The first assignment at fault, and how. */
  function AssignmentFault(roster: Roster, assignments: seq<Assignment>, i: nat): Option<ProtocolError>
    requires i < |assignments|
  {
    if assignments[i].holder !in roster.context.roster then Some(UnknownPlayer)
    else if exists j :: 0 <= j < i && assignments[j].position == assignments[i].position then Some(DuplicatePosition)
    else None
  }

  /** Accepted exactly when every holder is in the roster and no position is assigned twice; more than
      fifty-two assignments are refused before they are looked at, whatever they hold. */
  method ValidateAssignments(roster: Roster, assignments: seq<Assignment>) returns (fault: Option<ProtocolError>)
    ensures fault.None? <==>
      && (forall i :: 0 <= i < |assignments| ==> assignments[i].holder in roster.context.roster)
      && (forall i, j :: 0 <= i < j < |assignments| ==> assignments[i].position != assignments[j].position)
    ensures |assignments| > DECK_SIZE ==> fault == Some(DuplicatePosition)
    ensures |assignments| <= DECK_SIZE && fault.Some? ==>
      exists i :: 0 <= i < |assignments| && AssignmentFault(roster, assignments, i) == fault
        && forall j :: 0 <= j < i ==> AssignmentFault(roster, assignments, j).None?
  {
    if |assignments| > DECK_SIZE {
      TooMany(assignments);
      return Some(DuplicatePosition);
    }
    var positions: set<Position> := {};
    for i := 0 to |assignments|
      invariant forall p :: p in positions <==> exists j :: 0 <= j < i && assignments[j].position == p
      invariant forall j :: 0 <= j < i ==> AssignmentFault(roster, assignments, j).None?
    {
      if assignments[i].holder !in roster.context.roster {
        assert AssignmentFault(roster, assignments, i) == Some(UnknownPlayer);
        return Some(UnknownPlayer);
      }
      if assignments[i].position in positions {
        assert AssignmentFault(roster, assignments, i) == Some(DuplicatePosition);
        return Some(DuplicatePosition);
      }
      positions := positions + {assignments[i].position};
    }
    forall i, j | 0 <= i < j < |assignments|
      ensures assignments[i].position != assignments[j].position
    {
      assert AssignmentFault(roster, assignments, j).None?;
    }
    forall i | 0 <= i < |assignments|
      ensures assignments[i].holder in roster.context.roster
    {
      assert AssignmentFault(roster, assignments, i).None?;
    }
    fault := None;
  }

  /** More than fifty-two assignments repeat a position. */
  lemma TooMany(assignments: seq<Assignment>)
    requires |assignments| > DECK_SIZE
    ensures exists i, j :: 0 <= i < j < |assignments| && assignments[i].position == assignments[j].position
  {
    hide Below;
    var positions := seq(|assignments|, i requires 0 <= i < |assignments| => assignments[i].position);
    if forall i, j :: 0 <= i < j < |positions| ==> positions[i] != positions[j] {
      DistinctSize(positions);
      SubsetSize(Elements(positions), Below(DECK_SIZE));
      assert false;
    }
    var i, j :| 0 <= i < j < |positions| && positions[i] == positions[j];
    assert assignments[i].position == assignments[j].position;
  }

  // ----- Reveals -----

  function ShareFault(suite: Suite, roster: Roster, deck: Deck, position: Position, shares: seq<RevealShare>, i: nat)
    : Option<ProtocolError>
    requires i < |shares| == |roster.context.roster| == |roster.keys|
  {
    var share := shares[i];
    var tokenFault := DecodeFault(suite, share.token, REVEAL_TOKEN_BYTES, "reveal token");
    var proofFault := DecodeFault(suite, share.proof, REVEAL_PROOF_BYTES, "reveal proof");
    if share.player != roster.context.roster[i] || share.position != position then Some(UnexpectedContribution("reveal share"))
    else if tokenFault.Some? then tokenFault
    else if proofFault.Some? then proofFault
    else if !suite.shared(roster.keys[i], share.token, share.proof, deck.deck, position, roster.context.canonical) then
      Some(InvalidProof("reveal"))
    else None
  }

  function FirstShareFault(suite: Suite, roster: Roster, deck: Deck, position: Position, shares: seq<RevealShare>, i: nat)
    : (fault: Option<ProtocolError>)
    requires i <= |shares| == |roster.context.roster| == |roster.keys|
    ensures fault.None? <==> forall j :: i <= j < |shares| ==> ShareFault(suite, roster, deck, position, shares, j).None?
    decreases |shares| - i
  {
    if i == |shares| then None
    else
      var fault := ShareFault(suite, roster, deck, position, shares, i);
      if fault.Some? then fault else FirstShareFault(suite, roster, deck, position, shares, i + 1)
  }

  function Tokens(shares: seq<RevealShare>): seq<Bytes> {
    seq(|shares|, i requires 0 <= i < |shares| => shares[i].token)
  }

  function RevealInput(position: Position, card: Card, shares: seq<RevealShare>): Bytes {
    Ascii(REVEAL_DOMAIN) + [position] + [card] + BigEndian(|shares|, 4) + SharesBytes(shares)
  }

  function RevealDigest(suite: Suite, position: Position, card: Card, shares: seq<RevealShare>): Digest {
    suite.hash(RevealInput(position, card, shares))
  }

  function SetFault(suite: Suite, roster: Roster, deck: Deck, position: Position, shares: seq<RevealShare>): Option<ProtocolError>
    requires |roster.context.roster| == |roster.keys|
  {
    if |shares| != |roster.context.roster| then Some(UnexpectedContribution("reveal share"))
    else FirstShareFault(suite, roster, deck, position, shares, 0)
  }

  /** What a complete set of shares opens to. */
  function Opened(suite: Suite, deck: Deck, position: Position, shares: seq<RevealShare>): Result<Card, ProtocolError> {
    match suite.opens(Tokens(shares), deck.deck, position)
    case Some(code) => if code < DECK_SIZE then Success(code) else Failure(RevealFailed)
    case None => Failure(RevealFailed)
  }

  function RevealedCard(suite: Suite, roster: Roster, deck: Deck, e: PublicReveal): Result<Card, ProtocolError>
    requires |roster.context.roster| == |roster.keys|
  {
    if RevealDigest(suite, e.position, e.card, e.shares) != e.evidenceDigest then Failure(DigestMismatch("public reveal"))
    else
      match SetFault(suite, roster, deck, e.position, e.shares)
      case Some(fault) => Failure(fault)
      case None =>
        var card :- Opened(suite, deck, e.position, e.shares);
        if card != e.card then Failure(RevealFailed) else Success(card)
  }

  datatype RevealSet = RevealSet(tokens: seq<Bytes>, digest: Digest)

  /** What the digest of a verified reveal set is taken of. */
  function SetInput(roster: Roster, deck: Deck, position: Position, shares: seq<RevealShare>): Bytes {
    roster.context.digest + deck.digest + [position] + SharesBytes(shares)
  }

  method VerifyRevealSet(suite: Suite, roster: Roster, deck: Deck, position: Position, shares: seq<RevealShare>)
    returns (r: Result<RevealSet, ProtocolError>)
    requires |roster.context.roster| == |roster.keys|
    ensures r == match SetFault(suite, roster, deck, position, shares)
                 case Some(fault) => Failure(fault)
                 case None => Success(RevealSet(Tokens(shares), suite.hash(SetInput(roster, deck, position, shares))))
  {
    if |shares| != |roster.context.roster| {
      return Failure(UnexpectedContribution("reveal share"));
    }
    hide ShareFault, ShareBytes, Tokens, InOrder;
    var tokens: seq<Bytes> := [];
    var digestInput: Bytes := roster.context.digest + deck.digest + [position];
    NothingRead(suite, roster, deck, position, shares, digestInput);
    for i := 0 to |shares|
      invariant InOrder(suite, roster, deck, position, shares, i, tokens, digestInput)
    {
      ReadOne(suite, roster, deck, position, shares, i, tokens, digestInput);
      var fault := ShareFault(suite, roster, deck, position, shares, i);
      if fault.Some? {
        return Failure(fault.value);
      }
      tokens := tokens + [shares[i].token];
      digestInput := digestInput + Frame(ShareBytes(shares[i]));
    }
    AllRead(suite, roster, deck, position, shares, tokens, digestInput);
    r := Success(RevealSet(tokens, suite.hash(digestInput)));
  }

  /** The first `i` shares were without fault; their tokens and their print are collected. */
  ghost predicate InOrder(suite: Suite, roster: Roster, deck: Deck, position: Position, shares: seq<RevealShare>, i: nat,
                          tokens: seq<Bytes>, printed: Bytes)
    requires i <= |shares| == |roster.context.roster| == |roster.keys|
  {
    && FirstShareFault(suite, roster, deck, position, shares, 0) == FirstShareFault(suite, roster, deck, position, shares, i)
    && tokens == Tokens(shares[..i])
    && printed + SharesBytes(shares[i..]) == SetInput(roster, deck, position, shares)
  }

  lemma NothingRead(suite: Suite, roster: Roster, deck: Deck, position: Position, shares: seq<RevealShare>, printed: Bytes)
    requires |shares| == |roster.context.roster| == |roster.keys|
    requires printed == roster.context.digest + deck.digest + [position]
    ensures InOrder(suite, roster, deck, position, shares, 0, [], printed)
  {
    hide ShareFault, SharesBytes;
    assert shares[0..] == shares;
  }

  lemma ReadOne(suite: Suite, roster: Roster, deck: Deck, position: Position, shares: seq<RevealShare>, i: nat,
                tokens: seq<Bytes>, printed: Bytes)
    requires i < |shares| == |roster.context.roster| == |roster.keys|
    requires InOrder(suite, roster, deck, position, shares, i, tokens, printed)
    ensures var fault := ShareFault(suite, roster, deck, position, shares, i);
      if fault.Some? then SetFault(suite, roster, deck, position, shares) == fault
      else InOrder(suite, roster, deck, position, shares, i + 1, tokens + [shares[i].token], printed + Frame(ShareBytes(shares[i])))
  {
    hide ShareFault, Frame, ShareBytes;
    assert shares[i..][1..] == shares[i + 1..];
    assert printed + SharesBytes(shares[i..]) == printed + Frame(ShareBytes(shares[i])) + SharesBytes(shares[i + 1..]);
  }

  lemma AllRead(suite: Suite, roster: Roster, deck: Deck, position: Position, shares: seq<RevealShare>, tokens: seq<Bytes>, printed: Bytes)
    requires |shares| == |roster.context.roster| == |roster.keys|
    requires InOrder(suite, roster, deck, position, shares, |shares|, tokens, printed)
    ensures SetFault(suite, roster, deck, position, shares).None?
    ensures tokens == Tokens(shares) && printed == SetInput(roster, deck, position, shares)
  {
    hide ShareFault, SetInput;
    assert shares[..|shares|] == shares && shares[|shares|..] == [];
    assert printed + [] == printed;
  }

  /** What the digest of verified reveal sets commits to, for a hash that tells the two inputs apart: the
      context and transcript digests, the position, and every share, whatever the two rosters. */
  lemma RevealSetCommits(suite: Suite, a: Roster, c: Deck, p: Position, us: seq<RevealShare>,
                         b: Roster, d: Deck, q: Position, vs: seq<RevealShare>)
    requires |a.context.roster| == |a.keys| && |b.context.roster| == |b.keys|
    requires SetFault(suite, a, c, p, us).None? && SetFault(suite, b, d, q, vs).None?
    requires Distinguishes(suite.hash, {SetInput(a, c, p, us)}, {SetInput(b, d, q, vs)})
    requires suite.hash(SetInput(a, c, p, us)) == suite.hash(SetInput(b, d, q, vs))
    ensures a.context.digest == b.context.digest && c.digest == d.digest && p == q && us == vs
  {
    hide SharesBytes, Distinguishes, FirstShareFault;
    assert SetInput(a, c, p, us) == SetInput(b, d, q, vs) by {
      Apart(suite.hash, SetInput(a, c, p, us), SetInput(b, d, q, vs));
    }
    var x, y := SetInput(a, c, p, us), SetInput(b, d, q, vs);
    assert x[..32] == a.context.digest && y[..32] == b.context.digest;
    assert x[32..64] == c.digest && y[32..64] == d.digest;
    assert x[64] == p && y[64] == q;
    assert x[65..] == SharesBytes(us) && y[65..] == SharesBytes(vs);
    VerifiedShaped(suite, a, c, p, us);
    VerifiedShaped(suite, b, d, q, vs);
    SharesDetermined(us, vs);
  }

  /** What the evidence digest commits to, for a hash that tells the two inputs apart: two accepted reveals
      with one digest are the same reveal, whatever the rosters and decks they were accepted under. */
  lemma RevealCommits(suite: Suite, a: Roster, c: Deck, e: PublicReveal, b: Roster, d: Deck, f: PublicReveal)
    requires |a.context.roster| == |a.keys| && |b.context.roster| == |b.keys|
    requires RevealedCard(suite, a, c, e).Success? && RevealedCard(suite, b, d, f).Success?
    requires Distinguishes(suite.hash, {RevealInput(e.position, e.card, e.shares)}, {RevealInput(f.position, f.card, f.shares)})
    requires e.evidenceDigest == f.evidenceDigest
    ensures e == f
  {
    hide SharesBytes, Distinguishes, FirstShareFault, Ascii, BigEndian, Opened;
    var x, y := RevealInput(e.position, e.card, e.shares), RevealInput(f.position, f.card, f.shares);
    Apart(suite.hash, x, y);
    var n := |REVEAL_DOMAIN|;
    assert x[n] == e.position && y[n] == f.position;
    assert x[n + 1] == e.card && y[n + 1] == f.card;
    assert x[n + 6..] == SharesBytes(e.shares) && y[n + 6..] == SharesBytes(f.shares);
    VerifiedShaped(suite, a, c, e.position, e.shares);
    VerifiedShaped(suite, b, d, f.position, f.shares);
    SharesDetermined(e.shares, f.shares);
  }

  lemma Apart(hash: Bytes -> Digest, u: Bytes, v: Bytes)
    requires Distinguishes(hash, {u}, {v}) && hash(u) == hash(v)
    ensures u == v
  {
  }

  lemma VerifiedShaped(suite: Suite, roster: Roster, deck: Deck, position: Position, shares: seq<RevealShare>)
    requires |roster.context.roster| == |roster.keys| && SetFault(suite, roster, deck, position, shares).None?
    ensures AllShaped(shares)
  {
    forall i | 0 <= i < |shares|
      ensures ShareShaped(shares[i])
    {
      assert ShareFault(suite, roster, deck, position, shares, i).None?;
    }
  }

  /** Printed shares determine the shares and how many there are. */
  lemma {:induction false} SharesDetermined(us: seq<RevealShare>, vs: seq<RevealShare>)
    requires AllShaped(us) && AllShaped(vs) && SharesBytes(us) == SharesBytes(vs)
    ensures us == vs
  {
    hide Frame, ShareBytes, ShareShaped;
    if us == [] || vs == [] {
      if us != [] {
        SomethingPrinted(us);
      }
      if vs != [] {
        SomethingPrinted(vs);
      }
    } else {
      ShareFits(us[0]);
      ShareFits(vs[0]);
      FrameSplit(ShareBytes(us[0]), SharesBytes(us[1..]), ShareBytes(vs[0]), SharesBytes(vs[1..]));
      ShareExact(ShareBytes(us[0]), us[0]);
      ShareExact(ShareBytes(us[0]), vs[0]);
      SharesDetermined(us[1..], vs[1..]);
      assert us == [us[0]] + us[1..] && vs == [vs[0]] + vs[1..];
    }
  }

  lemma SomethingPrinted(shares: seq<RevealShare>)
    requires shares != []
    ensures SharesBytes(shares) != []
  {
    hide ShareBytes;
    assert |Frame(ShareBytes(shares[0]))| > 0;
  }

  /** What a share has to be: the contribution of the player whose turn it is, for this position, with a token of
      thirty-three bytes and a proof of ninety-eight that both decode, and a proof the library verifies: that
      the token is that player's for the card at the position. */
  ghost predicate Contributed(suite: Suite, roster: Roster, deck: Deck, position: Position, shares: seq<RevealShare>, i: nat)
    requires i < |shares| == |roster.context.roster| == |roster.keys|
  {
    && shares[i].player == roster.context.roster[i] && shares[i].position == position
    && |shares[i].token| == 33 && suite.decodes("reveal token", shares[i].token)
    && |shares[i].proof| == 98 && suite.decodes("reveal proof", shares[i].proof)
    && suite.shared(roster.keys[i], shares[i].token, shares[i].proof, deck.deck, position, roster.context.canonical)
  }

  /** A set of shares is accepted exactly when every player of the roster contributed one, in order. */
  lemma SharesAccepted(suite: Suite, roster: Roster, deck: Deck, position: Position, shares: seq<RevealShare>)
    requires |roster.context.roster| == |roster.keys|
    ensures SetFault(suite, roster, deck, position, shares).None? <==>
      && |shares| == |roster.context.roster|
      && forall i :: 0 <= i < |shares| ==> Contributed(suite, roster, deck, position, shares, i)
  {
    if |shares| == |roster.context.roster| {
      forall i | 0 <= i < |shares|
        ensures ShareFault(suite, roster, deck, position, shares, i).None? <==> Contributed(suite, roster, deck, position, shares, i)
      {
      }
    }
  }

  /** A public reveal shows its card exactly when its evidence digest is the hash of domain, position, card and
      shares, everyone contributed, and the tokens together open the position to that card. */
  lemma RevealAccepted(suite: Suite, roster: Roster, deck: Deck, e: PublicReveal)
    requires |roster.context.roster| == |roster.keys|
    ensures var tokens := Tokens(e.shares);
      && |tokens| == |e.shares| && (forall i :: 0 <= i < |tokens| ==> tokens[i] == e.shares[i].token)
      && (RevealedCard(suite, roster, deck, e).Success? <==>
            && e.evidenceDigest
               == suite.hash(Ascii("poche-public-reveal-v0") + [e.position] + [e.card] + BigEndian(|e.shares|, 4) + SharesBytes(e.shares))
            && |e.shares| == |roster.context.roster|
            && (forall i :: 0 <= i < |e.shares| ==> Contributed(suite, roster, deck, e.position, e.shares, i))
            && suite.opens(tokens, deck.deck, e.position) == Some(e.card))
    ensures RevealedCard(suite, roster, deck, e).Success? ==> RevealedCard(suite, roster, deck, e).value == e.card
  {
    SharesAccepted(suite, roster, deck, e.position, e.shares);
    hide SharesBytes, BigEndian, Ascii, SetFault, Contributed;
  }

  method VerifyPublicReveal(suite: Suite, roster: Roster, deck: Deck, e: PublicReveal) returns (r: Result<Card, ProtocolError>)
    requires |roster.context.roster| == |roster.keys|
    ensures r == RevealedCard(suite, roster, deck, e)
  {
    if RevealDigest(suite, e.position, e.card, e.shares) != e.evidenceDigest {
      return Failure(DigestMismatch("public reveal"));
    }
    var verified :- VerifyRevealSet(suite, roster, deck, e.position, e.shares);
    var code := suite.opens(verified.tokens, deck.deck, e.position);
    if code.None? || code.value >= DECK_SIZE || code.value != e.card {
      return Failure(RevealFailed);
    }
    r := Success(code.value);
  }

  // ----- The complete-round audit -----

  /** The first thing wrong with entry `i`, given the entries before it. */
  function EntryFault(suite: Suite, roster: Roster, deck: Deck, evidence: seq<PublicReveal>, i: nat): Option<ProtocolError>
    requires |roster.context.roster| == |roster.keys| && i < |evidence|
  {
    if exists j :: 0 <= j < i && evidence[j].position == evidence[i].position then Some(DuplicatePosition)
    else
      match RevealedCard(suite, roster, deck, evidence[i])
      case Failure(e) => Some(e)
      case Success(card) =>
        if exists j :: 0 <= j < i && evidence[j].card == card then Some(DeckConservation) else None
  }

  /** Fifty-two genuine reveals of distinct positions showing distinct cards. */
  ghost predicate Complete(suite: Suite, roster: Roster, deck: Deck, evidence: seq<PublicReveal>)
    requires |roster.context.roster| == |roster.keys|
  {
    && |evidence| == DECK_SIZE
    && (forall i :: 0 <= i < |evidence| ==> RevealedCard(suite, roster, deck, evidence[i]).Success?)
    && (forall i, j :: 0 <= i < j < |evidence| ==>
          evidence[i].position != evidence[j].position && evidence[i].card != evidence[j].card)
  }

  /** Every card of the deck exactly once. */
  ghost predicate Permutation(cards: seq<Card>) {
    && |cards| == DECK_SIZE
    && (forall p, q :: 0 <= p < q < |cards| ==> cards[p] != cards[q])
    && (forall c: Card :: c in cards)
  }

  /** `cards` lists, by position, the card every reveal opened. */
  ghost predicate Placed(evidence: seq<PublicReveal>, cards: seq<Card>)
    requires |cards| == DECK_SIZE
  {
    forall i :: 0 <= i < |evidence| ==> cards[evidence[i].position] == evidence[i].card
  }

  lemma RevealsItsCard(suite: Suite, roster: Roster, deck: Deck, e: PublicReveal)
    requires |roster.context.roster| == |roster.keys|
    ensures RevealedCard(suite, roster, deck, e).Success? ==> RevealedCard(suite, roster, deck, e).value == e.card
  {
  }

  lemma FaultBlocks(suite: Suite, roster: Roster, deck: Deck, evidence: seq<PublicReveal>, i: nat)
    requires |roster.context.roster| == |roster.keys| && i < |evidence|
    requires EntryFault(suite, roster, deck, evidence, i).Some?
    ensures !Complete(suite, roster, deck, evidence)
  {
    hide RevealedCard;
    RevealsItsCard(suite, roster, deck, evidence[i]);
  }

  lemma NoFaultCompletes(suite: Suite, roster: Roster, deck: Deck, evidence: seq<PublicReveal>)
    requires |roster.context.roster| == |roster.keys| && |evidence| == DECK_SIZE
    requires forall i :: 0 <= i < |evidence| ==> EntryFault(suite, roster, deck, evidence, i).None?
    ensures Complete(suite, roster, deck, evidence)
  {
    hide RevealedCard;
    forall i | 0 <= i < |evidence|
      ensures RevealedCard(suite, roster, deck, evidence[i]).Success?
      ensures forall j :: 0 <= j < i ==> evidence[j].position != evidence[i].position && evidence[j].card != evidence[i].card
    {
      assert EntryFault(suite, roster, deck, evidence, i).None?;
      RevealsItsCard(suite, roster, deck, evidence[i]);
    }
  }

  /** Fifty-two distinct numbers below fifty-two are all of them. */
  lemma Onto(values: seq<Card>, c: Card)
    requires |values| == DECK_SIZE
    requires forall i, j :: 0 <= i < j < |values| ==> values[i] != values[j]
    ensures c in values
  {
    hide Below;
    DistinctSize(values);
    SubsetSize(Elements(values), Below(DECK_SIZE));
    assert c in Below(DECK_SIZE);
  }

  /** A complete set of reveals shows every card and covers every position. */
  lemma CompleteCovers(suite: Suite, roster: Roster, deck: Deck, evidence: seq<PublicReveal>, n: Card)
    requires |roster.context.roster| == |roster.keys| && Complete(suite, roster, deck, evidence)
    ensures exists i :: 0 <= i < |evidence| && evidence[i].card == n
    ensures exists i :: 0 <= i < |evidence| && evidence[i].position == n
  {
    hide RevealedCard;
    var cards := seq(|evidence|, i requires 0 <= i < |evidence| => evidence[i].card);
    var positions := seq(|evidence|, i requires 0 <= i < |evidence| => evidence[i].position);
    Onto(cards, n);
    Onto(positions, n);
    var i :| 0 <= i < |cards| && cards[i] == n;
    var j :| 0 <= j < |positions| && positions[j] == n;
    assert evidence[i].card == n && evidence[j].position == n;
  }

  lemma PlacedIsPermutation(suite: Suite, roster: Roster, deck: Deck, evidence: seq<PublicReveal>, cards: seq<Card>)
    requires |roster.context.roster| == |roster.keys| && Complete(suite, roster, deck, evidence)
    requires |cards| == DECK_SIZE && Placed(evidence, cards)
    ensures Permutation(cards)
  {
    hide RevealedCard;
    forall p: Position, q: Position | p < q
      ensures cards[p] != cards[q]
    {
      CompleteCovers(suite, roster, deck, evidence, p);
      CompleteCovers(suite, roster, deck, evidence, q);
      var i :| 0 <= i < |evidence| && evidence[i].position == p;
      var j :| 0 <= j < |evidence| && evidence[j].position == q;
      assert evidence[i].card != evidence[j].card;
    }
    forall c: Card
      ensures c in cards
    {
      CompleteCovers(suite, roster, deck, evidence, c);
      var i :| 0 <= i < |evidence| && evidence[i].card == c;
      assert cards[evidence[i].position] == c;
    }
  }

  /** All values, if none is missing. */
  function Values(list: seq<Option<Card>>): (r: Option<seq<Card>>)
    ensures r.Some? <==> None !in list
    ensures r.Some? ==> |r.value| == |list| && forall i :: 0 <= i < |list| ==> list[i] == Some(r.value[i])
  {
    if list == [] then Some([])
    else
      match (list[0], Values(list[1..]))
      case (Some(first), Some(rest)) => Some([first] + rest)
      case _ => assert list == [list[0]] + list[1..]; None
  }

  /** What the audit has recorded after the first `n` entries: each at its position, and their cards. */
  ghost predicate Filled(evidence: seq<PublicReveal>, n: nat, slots: seq<Option<Card>>, cards: set<nat>)
    requires n <= |evidence| && |slots| == DECK_SIZE
  {
    && (forall p: Position :: slots[p].Some? <==> exists j :: 0 <= j < n && evidence[j].position == p)
    && (forall j :: 0 <= j < n ==> slots[evidence[j].position] == Some(evidence[j].card))
    && (forall c :: c in cards <==> exists j :: 0 <= j < n && evidence[j].card == c)
  }

  lemma FilledStep(evidence: seq<PublicReveal>, n: nat, slots: seq<Option<Card>>, cards: set<nat>)
    requires n < |evidence| && |slots| == DECK_SIZE && Filled(evidence, n, slots, cards)
    requires slots[evidence[n].position].None?
    ensures Filled(evidence, n + 1, slots[evidence[n].position := Some(evidence[n].card)], cards + {evidence[n].card})
  {
    var after := slots[evidence[n].position := Some(evidence[n].card)];
    forall p: Position
      ensures after[p].Some? <==> exists j :: 0 <= j < n + 1 && evidence[j].position == p
    {
      if p == evidence[n].position {
        assert evidence[n].position == p;
      }
    }
  }

  lemma FilledFault(suite: Suite, roster: Roster, deck: Deck, evidence: seq<PublicReveal>, n: nat,
                    slots: seq<Option<Card>>, cards: set<nat>)
    requires |roster.context.roster| == |roster.keys| && n < |evidence| && |slots| == DECK_SIZE
    requires Filled(evidence, n, slots, cards)
    ensures EntryFault(suite, roster, deck, evidence, n) ==
      if slots[evidence[n].position].Some? then Some(DuplicatePosition)
      else
        match RevealedCard(suite, roster, deck, evidence[n])
        case Failure(e) => Some(e)
        case Success(card) => if card in cards then Some(DeckConservation) else None
  {
    hide RevealedCard;
  }

  /** The error is that of the first entry at fault. */
  ghost predicate FailsWith(suite: Suite, roster: Roster, deck: Deck, evidence: seq<PublicReveal>, error: ProtocolError)
    requires |roster.context.roster| == |roster.keys|
  {
    exists i :: 0 <= i < |evidence| && EntryFault(suite, roster, deck, evidence, i) == Some(error)
      && forall j :: 0 <= j < i ==> EntryFault(suite, roster, deck, evidence, j).None?
  }

  ghost predicate NoFaults(suite: Suite, roster: Roster, deck: Deck, evidence: seq<PublicReveal>, n: nat)
    requires |roster.context.roster| == |roster.keys| && n <= |evidence|
  {
    forall j :: 0 <= j < n ==> EntryFault(suite, roster, deck, evidence, j).None?
  }

  /** Entry `n` either extends the faultless entries or is the first at fault. */
  lemma NoFaultsYet(suite: Suite, roster: Roster, deck: Deck, evidence: seq<PublicReveal>, n: nat)
    requires |roster.context.roster| == |roster.keys| && n <= |evidence|
    requires n > 0 ==> NoFaults(suite, roster, deck, evidence, n)
    ensures n == 0 ==> NoFaults(suite, roster, deck, evidence, n)
    ensures n < |evidence| ==>
      match EntryFault(suite, roster, deck, evidence, n)
      case None => NoFaults(suite, roster, deck, evidence, n + 1)
      case Some(error) => FailsWith(suite, roster, deck, evidence, error)
  {
    hide EntryFault;
  }

  /** Record every reveal at its position, up to the first fault. */
  method RecordReveals(suite: Suite, roster: Roster, deck: Deck, evidence: seq<PublicReveal>)
    returns (fault: Option<ProtocolError>, byPosition: seq<Option<Card>>, cards: set<nat>)
    requires |roster.context.roster| == |roster.keys|
    ensures fault.None? ==>
      && |byPosition| == DECK_SIZE && Filled(evidence, |evidence|, byPosition, cards)
      && NoFaults(suite, roster, deck, evidence, |evidence|)
    ensures fault.Some? ==> FailsWith(suite, roster, deck, evidence, fault.value)
  {
    hide RevealedCard, Filled, EntryFault, FailsWith, NoFaults;
    byPosition, cards, fault := seq(DECK_SIZE, _ => None), {}, None;
    NothingFilled(evidence);
    NoFaultsYet(suite, roster, deck, evidence, 0);
    for i := 0 to |evidence|
      invariant |byPosition| == DECK_SIZE && Filled(evidence, i, byPosition, cards)
      invariant NoFaults(suite, roster, deck, evidence, i) && fault == None
    {
      FilledFault(suite, roster, deck, evidence, i, byPosition, cards);
      NoFaultsYet(suite, roster, deck, evidence, i);
      var position := evidence[i].position;
      if byPosition[position].Some? {
        fault := Some(DuplicatePosition);
        return;
      }
      var revealed := VerifyPublicReveal(suite, roster, deck, evidence[i]);
      if revealed.Failure? {
        fault := Some(revealed.error);
        return;
      }
      RevealsItsCard(suite, roster, deck, evidence[i]);
      if revealed.value in cards {
        fault := Some(DeckConservation);
        return;
      }
      FilledStep(evidence, i, byPosition, cards);
      cards := cards + {revealed.value};
      byPosition := byPosition[position := Some(revealed.value)];
    }
  }

  /** An accepted audit is exactly a complete set of reveals, and its result is a permutation of the
      deck that lists each opened card at its position. */
  method AuditCompleteRound(suite: Suite, roster: Roster, deck: Deck, evidence: seq<PublicReveal>)
    returns (r: Result<seq<Card>, ProtocolError>)
    requires |roster.context.roster| == |roster.keys|
    ensures r.Success? <==> Complete(suite, roster, deck, evidence)
    ensures r.Success? ==> Permutation(r.value) && Placed(evidence, r.value)
    ensures |evidence| != DECK_SIZE ==> r == Failure(DeckConservation)
    ensures |evidence| == DECK_SIZE && r.Failure? ==> FailsWith(suite, roster, deck, evidence, r.error)
  {
    if |evidence| != DECK_SIZE {
      return Failure(DeckConservation);
    }
    hide RevealedCard, Filled, EntryFault, Permutation, Placed;
    var fault, byPosition, cards := RecordReveals(suite, roster, deck, evidence);
    if fault.Some? {
      ghost var i :| 0 <= i < |evidence| && EntryFault(suite, roster, deck, evidence, i) == fault
                     && forall j :: 0 <= j < i ==> EntryFault(suite, roster, deck, evidence, j).None?;
      FaultBlocks(suite, roster, deck, evidence, i);
      return Failure(fault.value);
    }
    NoFaultCompletes(suite, roster, deck, evidence);
    hide Complete, FailsWith;
    EverythingFilled(suite, roster, deck, evidence, byPosition, cards);
    var placed := Values(byPosition);
    r := if cards == Below(DECK_SIZE) && placed.Some? then Success(placed.value) else Failure(DeckConservation);
  }

  lemma NothingFilled(evidence: seq<PublicReveal>)
    ensures Filled(evidence, 0, seq(DECK_SIZE, _ => None), {})
  {
  }

  /** After fifty-two faultless entries no position and no card is missing. */
  lemma EverythingFilled(suite: Suite, roster: Roster, deck: Deck, evidence: seq<PublicReveal>, slots: seq<Option<Card>>, cards: set<nat>)
    requires |roster.context.roster| == |roster.keys| && Complete(suite, roster, deck, evidence)
    requires |slots| == DECK_SIZE && Filled(evidence, |evidence|, slots, cards)
    ensures cards == Below(DECK_SIZE) && Values(slots).Some?
    ensures Permutation(Values(slots).value) && Placed(evidence, Values(slots).value)
  {
    CardsFull(suite, roster, deck, evidence, slots, cards);
    SlotsFull(suite, roster, deck, evidence, slots, cards);
    hide Complete, Permutation, Values;
    PlacedIsPermutation(suite, roster, deck, evidence, Values(slots).value);
  }

  lemma CardsFull(suite: Suite, roster: Roster, deck: Deck, evidence: seq<PublicReveal>, slots: seq<Option<Card>>, cards: set<nat>)
    requires |roster.context.roster| == |roster.keys| && Complete(suite, roster, deck, evidence)
    requires |slots| == DECK_SIZE && Filled(evidence, |evidence|, slots, cards)
    ensures cards == Below(DECK_SIZE)
  {
    hide Complete;
    forall n: Card
      ensures n in cards
    {
      CompleteCovers(suite, roster, deck, evidence, n);
    }
    assert forall c :: c in cards ==> c < DECK_SIZE;
  }

  lemma SlotsFull(suite: Suite, roster: Roster, deck: Deck, evidence: seq<PublicReveal>, slots: seq<Option<Card>>, cards: set<nat>)
    requires |roster.context.roster| == |roster.keys| && Complete(suite, roster, deck, evidence)
    requires |slots| == DECK_SIZE && Filled(evidence, |evidence|, slots, cards)
    ensures Values(slots).Some? && Placed(evidence, Values(slots).value)
  {
    hide Complete;
    forall n: Position
      ensures slots[n].Some?
    {
      CompleteCovers(suite, roster, deck, evidence, n);
    }
    hide Values;
  }
}
