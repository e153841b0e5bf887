/** The round context, the verified roster, and the hash-linked shuffle transcript. The curve and proof
    library is a set of parameters; the hash is one too, and is assumed to distinguish only the byte
    strings that the compared runs actually hash. */
module Transcript {
  import opened Wrappers
  import opened Wire
  import opened Octets
  import opened Arithmetic
  import opened Records

  const MAX_ROOM_BYTES: nat := 128
  const DOMAIN := "POCHE\0MENTAL-POKER\0V0"
  const DECK_SCHEMA := "poche-standard-deck:suit-major-rank-minor:v1"
  const GENESIS := "poche-shuffle-genesis-v0"

  /** What the library answers: whether an artifact decodes, whether each proof verifies in a context,
      the aggregate of the verified keys, and what a complete set of tokens opens a position to. */
  datatype Suite = Suite(
    hash: Bytes -> Digest,
    decodes: (string, Bytes) -> bool,
    owns: (Bytes, Bytes, Bytes) -> bool,
    aggregate: seq<Bytes> -> Bytes,
    shuffledFirst: (Bytes, Bytes, Bytes, Bytes) -> bool,
    shuffled: (Bytes, Bytes, Bytes, Bytes, Bytes) -> bool,
    shared: (Bytes, Bytes, Bytes, Bytes, Position, Bytes) -> bool,
    opens: (seq<Bytes>, Bytes, Position) -> Option<nat>)

  datatype Context = Context(room: Text, session: Digest, epoch: nat, round: nat, roster: seq<PlayerId>,
                             deckSchema: Digest, canonical: Bytes, digest: Digest)

  function Ascii(s: string): (b: Bytes)
    ensures |b| == |s|
  {
    seq(|s|, i requires 0 <= i < |s| => s[i] as int % 256)
  }

  predicate Ascending(roster: seq<PlayerId>) {
    forall i :: 0 < i < |roster| ==> Before(roster[i - 1], roster[i])
  }

  /** Strictly increasing players are pairwise in order, hence distinct. */
  lemma {:induction false} AscendingDistinct(roster: seq<PlayerId>, i: nat, j: nat)
    requires Ascending(roster) && i < j < |roster|
    ensures Before(roster[i], roster[j]) && roster[i] != roster[j]
    decreases j
  {
    if i < j - 1 {
      AscendingDistinct(roster, i, j - 1);
      BeforeTransitive(roster[i], roster[j - 1], roster[j]);
    }
    BeforeIrreflexive(roster[i]);
  }

  function Header(suite: Suite, room: Text, session: Digest, epoch: nat, round: nat): Bytes {
    Ascii(DOMAIN) + Frame(room) + session + BigEndian(epoch, 8) + BigEndian(round, 8) + suite.hash(Ascii(DECK_SCHEMA))
  }

  function ContextBytes(suite: Suite, room: Text, session: Digest, epoch: nat, round: nat, roster: seq<PlayerId>): Bytes {
    Header(suite, room, session, epoch, round) + BigEndian(|roster|, 4) + Frames(roster)
  }

  function NewContext(suite: Suite, room: Text, session: Digest, epoch: nat, round: nat, roster: seq<PlayerId>)
    : Result<Context, ProtocolError>
  {
    if |room| == 0 || |room| > MAX_ROOM_BYTES then Failure(InvalidIdentifier("room id"))
    else if !(2 <= |roster| <= MAX_PLAYERS) then Failure(InvalidRoster("expected 2..=51 players"))
    else if !Ascending(roster) then Failure(InvalidRoster("player ids must be unique and strictly increasing"))
    else
      var canonical := ContextBytes(suite, room, session, epoch, round, roster);
      Success(Context(room, session, epoch, round, roster, suite.hash(Ascii(DECK_SCHEMA)), canonical, suite.hash(canonical)))
  }

  method StrictlyIncreasing(roster: seq<PlayerId>) returns (ok: bool)
    ensures ok == Ascending(roster)
  {
    var i := 1;
    while i < |roster|
      invariant forall j :: 0 < j < i && j < |roster| ==> Before(roster[j - 1], roster[j])
    {
      if !Before(roster[i - 1], roster[i]) {
        return false;
      }
      i := i + 1;
    }
    ok := true;
  }

  method PushRoster(output: Bytes, roster: seq<PlayerId>) returns (bytes: Bytes)
    ensures bytes == output + Frames(roster)
  {
    hide Frame;
    bytes := output;
    for i := 0 to |roster|
      invariant bytes == output + Frames(roster[..i])
    {
      FramesJoin(roster[..i], roster[i]);
      assert roster[..i + 1] == roster[..i] + [roster[i]];
      bytes := bytes + Frame(roster[i]);
    }
    assert roster[..|roster|] == roster;
  }

  method FreezeContext(suite: Suite, room: Text, session: Digest, epoch: nat, round: nat, roster: seq<PlayerId>)
    returns (r: Result<Context, ProtocolError>)
    ensures r == NewContext(suite, room, session, epoch, round, roster)
  {
    hide Frames, Frame, BigEndian, Ascending, Ascii, Utf8;
    if |room| == 0 || |room| > MAX_ROOM_BYTES {
      return Failure(InvalidIdentifier("room id"));
    }
    if !(2 <= |roster| <= MAX_PLAYERS) {
      return Failure(InvalidRoster("expected 2..=51 players"));
    }
    var increasing := StrictlyIncreasing(roster);
    if !increasing {
      return Failure(InvalidRoster("player ids must be unique and strictly increasing"));
    }
    var schema := suite.hash(Ascii(DECK_SCHEMA));
    var canonical := Ascii(DOMAIN) + Frame(room) + session + BigEndian(epoch, 8) + BigEndian(round, 8) + schema;
    canonical := canonical + BigEndian(|roster|, 4);
    canonical := PushRoster(canonical, roster);
    r := Success(Context(room, session, epoch, round, roster, schema, canonical, suite.hash(canonical)));
  }

  /** A context is frozen exactly for a room name of 1 to 128 bytes and 2 to 51 players in strictly increasing
      order; it keeps what it was made of. */
  lemma ContextAccepted(suite: Suite, room: Text, session: Digest, epoch: nat, round: nat, roster: seq<PlayerId>)
    ensures NewContext(suite, room, session, epoch, round, roster).Success? <==>
      && 1 <= |room| <= 128 && 2 <= |roster| <= 51
      && forall i :: 0 < i < |roster| ==> Before(roster[i - 1], roster[i])
    ensures NewContext(suite, room, session, epoch, round, roster).Success? ==>
      var c := NewContext(suite, room, session, epoch, round, roster).value;
      && c.room == room && c.session == session && c.epoch == epoch && c.round == round && c.roster == roster
      && c.deckSchema == suite.hash(Ascii("poche-standard-deck:suit-major-rank-minor:v1"))
      && c.canonical == Ascii("POCHE\0MENTAL-POKER\0V0") + Frame(room) + session + BigEndian(epoch, 8) + BigEndian(round, 8)
                        + c.deckSchema + BigEndian(|roster|, 4) + Frames(roster)
      && c.digest == suite.hash(c.canonical)
  {
    hide Frame, Frames, BigEndian, Before, Ascii;
  }

  /** A context made by `NewContext` from 64-bit counters. */
  ghost predicate Frozen(suite: Suite, c: Context) {
    c.epoch < U64 && c.round < U64 && NewContext(suite, c.room, c.session, c.epoch, c.round, c.roster) == Success(c)
  }

  /** The canonical bytes determine every field, the roster included. */
  lemma ContextCommits(suite: Suite, c: Context, d: Context)
    requires Frozen(suite, c) && Frozen(suite, d) && c.canonical == d.canonical
    ensures c == d
  {
    HeaderCommits(suite, c, d);
    hide Frames;
    FramesCommit(c, d);
  }

  function CounterBytes(c: Context): Bytes { BigEndian(c.epoch, 8) + BigEndian(c.round, 8) }

  lemma HeaderCommits(suite: Suite, c: Context, d: Context)
    requires Frozen(suite, c) && Frozen(suite, d) && c.canonical == d.canonical
    ensures c.room == d.room && c.session == d.session && c.epoch == d.epoch && c.round == d.round
    ensures BigEndian(|c.roster|, 4) + Frames(c.roster) == BigEndian(|d.roster|, 4) + Frames(d.roster)
  {
    hide Frames, BigEndian, Frame, Ascending, Utf8, Ascii;
    var schema := suite.hash(Ascii(DECK_SCHEMA));
    var u, v := BigEndian(|c.roster|, 4) + Frames(c.roster), BigEndian(|d.roster|, 4) + Frames(d.roster);
    var u', v' := c.session + (CounterBytes(c) + (schema + u)), d.session + (CounterBytes(d) + (schema + v));
    assert c.canonical == Ascii(DOMAIN) + (Frame(c.room) + u');
    assert d.canonical == Ascii(DOMAIN) + (Frame(d.room) + v');
    Split(Ascii(DOMAIN), Frame(c.room) + u', Ascii(DOMAIN), Frame(d.room) + v');
    FrameSplit(c.room, u', d.room, v');
    Split(c.session, CounterBytes(c) + (schema + u), d.session, CounterBytes(d) + (schema + v));
    Split(CounterBytes(c), schema + u, CounterBytes(d), schema + v);
    Split(schema, u, schema, v);
    Split(BigEndian(c.epoch, 8), BigEndian(c.round, 8), BigEndian(d.epoch, 8), BigEndian(d.round, 8));
    BigEndianInjective(c.epoch, d.epoch, 8);
    BigEndianInjective(c.round, d.round, 8);
  }

  lemma FramesCommit(c: Context, d: Context)
    requires |c.roster| < U32 && |d.roster| < U32
    requires BigEndian(|c.roster|, 4) + Frames(c.roster) == BigEndian(|d.roster|, 4) + Frames(d.roster)
    ensures c.roster == d.roster
  {
    Split(BigEndian(|c.roster|, 4), Frames(c.roster), BigEndian(|d.roster|, 4), Frames(d.roster));
    BigEndianInjective(|c.roster|, |d.roster|, 4);
    hide BigEndian, Frame, Frames;
    FramesSplit(c.roster, [], d.roster, []);
  }

  lemma BigEndianInjective(m: nat, n: nat, width: nat)
    requires width == 4 || width == 8
    requires m < Power(256, width) && n < Power(256, width) && BigEndian(m, width) == BigEndian(n, width)
    ensures m == n
  {
    hide BigEndian, FromBigEndian, Power;
    BigEndianExact(m, width, BigEndian(m, width));
    BigEndianExact(n, width, BigEndian(n, width));
  }

  // ----- The roster -----

  datatype Roster = Roster(context: Context, keys: seq<Bytes>, aggregateKey: Bytes, digest: Digest)

  /** A fixed-size artifact: its length is checked before it is decoded. */
  function DecodeFault(suite: Suite, bytes: Bytes, expected: nat, artifact: string): Option<ProtocolError> {
    if |bytes| != expected then Some(InvalidArtifactLength(artifact, expected, |bytes|))
    else if !suite.decodes(artifact, bytes) then Some(InvalidEncoding(artifact))
    else None
  }

  function KeyFault(suite: Suite, context: Context, expected: PlayerId, record: KeyRecord): Option<ProtocolError> {
    var keyFault := DecodeFault(suite, record.publicKey, PUBLIC_KEY_BYTES, "public key");
    var proofFault := DecodeFault(suite, record.ownershipProof, OWNERSHIP_PROOF_BYTES, "ownership proof");
    if expected != record.player then Some(UnexpectedContribution("key"))
    else if keyFault.Some? then keyFault
    else if proofFault.Some? then proofFault
    else if !suite.owns(record.publicKey, record.ownershipProof, context.canonical) then Some(InvalidProof("ownership"))
    else None
  }

  function FirstKeyFault(suite: Suite, context: Context, records: seq<KeyRecord>, i: nat): (fault: Option<ProtocolError>)
    requires i <= |records| == |context.roster|
    ensures fault.None? <==> forall j :: i <= j < |records| ==> KeyFault(suite, context, context.roster[j], records[j]).None?
    decreases |records| - i
  {
    if i == |records| then None
    else
      var fault := KeyFault(suite, context, context.roster[i], records[i]);
      if fault.Some? then fault else FirstKeyFault(suite, context, records, i + 1)
  }

  function KeyFrames(records: seq<KeyRecord>): (list: seq<Bytes>)
    ensures |list| == |records|
  {
    seq(|records|, i requires 0 <= i < |records| => KeyBytes(records[i]))
  }

  function PublicKeys(records: seq<KeyRecord>): seq<Bytes> {
    seq(|records|, i requires 0 <= i < |records| => records[i].publicKey)
  }

  function RosterInput(context: Context, records: seq<KeyRecord>): Bytes { context.digest + Frames(KeyFrames(records)) }

  function RosterOf(suite: Suite, context: Context, records: seq<KeyRecord>): Result<Roster, ProtocolError> {
    if |records| != |context.roster| then Failure(UnexpectedContribution("key"))
    else
      match FirstKeyFault(suite, context, records, 0)
      case Some(fault) => Failure(fault)
      case None =>
        Success(Roster(context, PublicKeys(records), suite.aggregate(PublicKeys(records)), suite.hash(RosterInput(context, records))))
  }

  lemma KeysGrow(context: Context, records: seq<KeyRecord>, i: nat)
    requires i < |records|
    ensures PublicKeys(records[..i + 1]) == PublicKeys(records[..i]) + [records[i].publicKey]
    ensures RosterInput(context, records[..i + 1]) == RosterInput(context, records[..i]) + Frame(KeyBytes(records[i]))
  {
    hide KeyBytes, Frames, Frame;
    FramesJoin(KeyFrames(records[..i]), KeyBytes(records[i]));
    assert KeyFrames(records[..i + 1]) == KeyFrames(records[..i]) + [KeyBytes(records[i])];
  }

  method VerifyRoster(suite: Suite, context: Context, records: seq<KeyRecord>) returns (r: Result<Roster, ProtocolError>)
    ensures r == RosterOf(suite, context, records)
  {
    if |records| != |context.roster| {
      return Failure(UnexpectedContribution("key"));
    }
    var keys: seq<Bytes> := [];
    var input: Bytes := context.digest;
    assert input == RosterInput(context, records[..0]) && keys == PublicKeys(records[..0]);
    hide KeyFault, KeyBytes, RosterInput, PublicKeys, Frame;
    for i := 0 to |records|
      invariant FirstKeyFault(suite, context, records, 0) == FirstKeyFault(suite, context, records, i)
      invariant keys == PublicKeys(records[..i]) && input == RosterInput(context, records[..i])
    {
      var fault := KeyFault(suite, context, context.roster[i], records[i]);
      if fault.Some? {
        return Failure(fault.value);
      }
      KeysGrow(context, records, i);
      keys := keys + [records[i].publicKey];
      input := input + Frame(KeyBytes(records[i]));
    }
    assert records[..|records|] == records;
    r := Success(Roster(context, keys, suite.aggregate(keys), suite.hash(input)));
  }

  /** A roster is accepted exactly when every player contributed in order, with a public key of thirty-three
      bytes and an ownership proof of sixty-five that both decode, and the library verifies the proof of that
      key in this context; it then holds those keys, their aggregate, and the hash of context and records. */
  lemma RosterAccepted(suite: Suite, context: Context, records: seq<KeyRecord>)
    ensures RosterOf(suite, context, records).Success? <==>
      && |records| == |context.roster|
      && forall i :: 0 <= i < |records| ==>
           && records[i].player == context.roster[i]
           && |records[i].publicKey| == 33 && suite.decodes("public key", records[i].publicKey)
           && |records[i].ownershipProof| == 65 && suite.decodes("ownership proof", records[i].ownershipProof)
           && suite.owns(records[i].publicKey, records[i].ownershipProof, context.canonical)
    ensures RosterOf(suite, context, records).Success? ==>
      var r := RosterOf(suite, context, records).value;
      && r.context == context && |r.keys| == |records| && (forall i :: 0 <= i < |records| ==> r.keys[i] == records[i].publicKey)
      && r.aggregateKey == suite.aggregate(r.keys)
      && r.digest == suite.hash(context.digest + Frames(KeyFrames(records)))
  {
    hide Frames;
    if |records| == |context.roster| {
      assert FirstKeyFault(suite, context, records, 0).None? <==>
        forall j :: 0 <= j < |records| ==> KeyFault(suite, context, context.roster[j], records[j]).None?;
    }
  }

  // ----- The shuffle transcript -----

  datatype Deck = Deck(deck: Bytes, digest: Digest)

  function GenesisInput(roster: Roster): Bytes { Ascii(GENESIS) + roster.context.digest + roster.digest }

  function Parent(suite: Suite, roster: Roster, records: seq<ShuffleRecord>, i: nat): Digest
    requires i <= |records|
  {
    if i == 0 then suite.hash(GenesisInput(roster)) else records[i - 1].digest
  }

  /** Whether record `i` proves a shuffle of the deck before it. */
  predicate Proves(suite: Suite, roster: Roster, records: seq<ShuffleRecord>, i: nat)
    requires i < |records|
  {
    if i == 0 then
      suite.shuffledFirst(roster.aggregateKey, records[0].deck, records[0].proof, roster.context.canonical)
    else
      suite.shuffled(roster.aggregateKey, records[i - 1].deck, records[i].deck, records[i].proof, roster.context.canonical)
  }

  function ShuffleFault(suite: Suite, roster: Roster, records: seq<ShuffleRecord>, i: nat): Option<ProtocolError>
    requires i < |records| <= |roster.context.roster|
  {
    var record := records[i];
    var deckFault := DecodeFault(suite, record.deck, MASKED_DECK_BYTES, "masked deck");
    var proofFault := DecodeFault(suite, record.proof, SHUFFLE_PROOF_BYTES, "shuffle proof");
    if record.ordinal != i || record.player != roster.context.roster[i] then Some(UnexpectedContribution("shuffle"))
    else if record.parentDigest != Parent(suite, roster, records, i) then Some(DigestMismatch("shuffle parent"))
    else if suite.hash(ShuffleBytes(record)) != record.digest then Some(DigestMismatch("shuffle record"))
    else if deckFault.Some? then deckFault
    else if proofFault.Some? then proofFault
    else if !Proves(suite, roster, records, i) then Some(InvalidProof("shuffle"))
    else None
  }

  function FirstShuffleFault(suite: Suite, roster: Roster, records: seq<ShuffleRecord>, i: nat): (fault: Option<ProtocolError>)
    requires i <= |records| == |roster.context.roster|
    ensures fault.None? <==> forall j :: i <= j < |records| ==> ShuffleFault(suite, roster, records, j).None?
    decreases |records| - i
  {
    if i == |records| then None
    else
      var fault := ShuffleFault(suite, roster, records, i);
      if fault.Some? then fault else FirstShuffleFault(suite, roster, records, i + 1)
  }

  function DeckOf(suite: Suite, roster: Roster, records: seq<ShuffleRecord>): Result<Deck, ProtocolError> {
    if |records| != |roster.context.roster| then Failure(UnexpectedContribution("shuffle"))
    else
      match FirstShuffleFault(suite, roster, records, 0)
      case Some(fault) => Failure(fault)
      case None =>
        if |records| == 0 then Failure(UnexpectedContribution("shuffle"))
        else Success(Deck(records[|records| - 1].deck, records[|records| - 1].digest))
  }

  method VerifyShuffleTranscript(suite: Suite, roster: Roster, records: seq<ShuffleRecord>)
    returns (r: Result<Deck, ProtocolError>)
    ensures r == DeckOf(suite, roster, records)
  {
    if |records| != |roster.context.roster| {
      return Failure(UnexpectedContribution("shuffle"));
    }
    var expectedParent := suite.hash(GenesisInput(roster));
    var current: Option<Bytes> := None;
    for i := 0 to |records|
      invariant FirstShuffleFault(suite, roster, records, 0) == FirstShuffleFault(suite, roster, records, i)
      invariant expectedParent == Parent(suite, roster, records, i)
      invariant current == if i == 0 then None else Some(records[i - 1].deck)
    {
      var record := records[i];
      if record.ordinal != i || record.player != roster.context.roster[i] {
        return Failure(UnexpectedContribution("shuffle"));
      }
      if record.parentDigest != expectedParent {
        return Failure(DigestMismatch("shuffle parent"));
      }
      if suite.hash(ShuffleBytes(record)) != record.digest {
        return Failure(DigestMismatch("shuffle record"));
      }
      var deckFault := DecodeFault(suite, record.deck, MASKED_DECK_BYTES, "masked deck");
      if deckFault.Some? {
        return Failure(deckFault.value);
      }
      var proofFault := DecodeFault(suite, record.proof, SHUFFLE_PROOF_BYTES, "shuffle proof");
      if proofFault.Some? {
        return Failure(proofFault.value);
      }
      var verified := match current
        case None => suite.shuffledFirst(roster.aggregateKey, record.deck, record.proof, roster.context.canonical)
        case Some(previous) => suite.shuffled(roster.aggregateKey, previous, record.deck, record.proof, roster.context.canonical);
      if !verified {
        return Failure(InvalidProof("shuffle"));
      }
      expectedParent := record.digest;
      current := Some(record.deck);
    }
    if current.None? {
      return Failure(UnexpectedContribution("shuffle"));
    }
    r := Success(Deck(current.value, expectedParent));
  }

  /** What a record has to be: the contribution of the player whose turn it is, naming the hash of the record
      before it (the first that of the context and the roster) and carrying its own, with a deck and a proof
      that have their sizes and decode, and a proof the library verifies: of a shuffle of the standard deck at
      first, of the previous record's deck after. */
  ghost predicate Genuine(suite: Suite, roster: Roster, records: seq<ShuffleRecord>, i: nat)
    requires i < |records| == |roster.context.roster|
  {
    var record, key, context := records[i], roster.aggregateKey, roster.context;
    && record.ordinal == i && record.player == context.roster[i]
    && record.digest == suite.hash(ShuffleBytes(record))
    && |record.deck| == 3432 && suite.decodes("masked deck", record.deck)
    && |record.proof| == 5547 && suite.decodes("shuffle proof", record.proof)
    && if i == 0 then
         && record.parentDigest == suite.hash(Ascii("poche-shuffle-genesis-v0") + context.digest + roster.digest)
         && suite.shuffledFirst(key, record.deck, record.proof, context.canonical)
       else
         && record.parentDigest == records[i - 1].digest
         && suite.shuffled(key, records[i - 1].deck, record.deck, record.proof, context.canonical)
  }

  /** A transcript is accepted exactly when every player of a nonempty roster contributed a genuine record, in
      order; the result is the last record's deck and digest. */
  lemma TranscriptAccepted(suite: Suite, roster: Roster, records: seq<ShuffleRecord>)
    ensures DeckOf(suite, roster, records).Success? <==>
      && |records| == |roster.context.roster| > 0
      && forall i :: 0 <= i < |records| ==> Genuine(suite, roster, records, i)
    ensures DeckOf(suite, roster, records).Success? ==>
      DeckOf(suite, roster, records).value == Deck(records[|records| - 1].deck, records[|records| - 1].digest)
  {
    if |records| == |roster.context.roster| {
      forall i | 0 <= i < |records|
        ensures ShuffleFault(suite, roster, records, i).None? <==> Genuine(suite, roster, records, i)
      {
        GenuineIsFaultless(suite, roster, records, i);
      }
    }
  }

  lemma GenuineIsFaultless(suite: Suite, roster: Roster, records: seq<ShuffleRecord>, i: nat)
    requires i < |records| == |roster.context.roster|
    ensures ShuffleFault(suite, roster, records, i).None? <==> Genuine(suite, roster, records, i)
  {
    hide ShuffleBytes, Ascii;
  }

  // ----- What the final digest commits to -----

  /** The hash tells apart the strings of one run from those of another. */
  ghost predicate Distinguishes(hash: Bytes -> Digest, us: set<Bytes>, vs: set<Bytes>) {
    forall u, v :: u in us && v in vs && hash(u) == hash(v) ==> u == v
  }

  function RecordInputs(records: seq<ShuffleRecord>): set<Bytes> {
    set i | 0 <= i < |records| :: ShuffleBytes(records[i])
  }

  lemma RecordDetermined(suite: Suite, r: ShuffleRecord, s: ShuffleRecord)
    requires ShuffleShaped(r) && ShuffleShaped(s) && ShuffleBytes(r) == ShuffleBytes(s)
    requires r.digest == suite.hash(ShuffleBytes(r)) && s.digest == suite.hash(ShuffleBytes(s))
    ensures r == s
  {
    hide ShuffleBytes, ParseShuffle;
    ShuffleExact(suite.hash, ShuffleBytes(r), r);
    ShuffleExact(suite.hash, ShuffleBytes(r), s);
  }

  lemma AcceptedShape(suite: Suite, roster: Roster, records: seq<ShuffleRecord>, i: nat)
    requires DeckOf(suite, roster, records).Success? && i < |records|
    ensures ShuffleShaped(records[i]) && records[i].digest == suite.hash(ShuffleBytes(records[i]))
    ensures records[i].ordinal == i && records[i].parentDigest == Parent(suite, roster, records, i)
    ensures ShuffleBytes(records[i]) in RecordInputs(records)
  {
    hide ShuffleBytes;
    assert ShuffleFault(suite, roster, records, i).None?;
  }

  lemma SameRecord(suite: Suite, a: Roster, b: Roster, us: seq<ShuffleRecord>, vs: seq<ShuffleRecord>, i: nat, j: nat)
    requires DeckOf(suite, a, us).Success? && DeckOf(suite, b, vs).Success? && i < |us| && j < |vs|
    requires Distinguishes(suite.hash, RecordInputs(us), RecordInputs(vs))
    requires us[i].digest == vs[j].digest
    ensures us[i] == vs[j]
  {
    hide DeckOf, ShuffleBytes, RecordInputs, ShuffleShaped;
    AcceptedShape(suite, a, us, i);
    AcceptedShape(suite, b, vs, j);
    RecordDetermined(suite, us[i], vs[j]);
  }

  /** Two accepted transcripts whose record `i` has the same digest agree on the first i + 1 records,
      and their rosters have the same genesis digest. */
  lemma {:induction false} ChainAgrees(suite: Suite, a: Roster, b: Roster, us: seq<ShuffleRecord>, vs: seq<ShuffleRecord>, i: nat)
    requires DeckOf(suite, a, us).Success? && DeckOf(suite, b, vs).Success? && i < |us| && i < |vs|
    requires Distinguishes(suite.hash, RecordInputs(us), RecordInputs(vs))
    requires us[i].digest == vs[i].digest
    ensures us[..i + 1] == vs[..i + 1]
    ensures suite.hash(GenesisInput(a)) == suite.hash(GenesisInput(b))
  {
    hide DeckOf, ShuffleBytes, RecordInputs, GenesisInput, ShuffleShaped, Distinguishes;
    SameRecord(suite, a, b, us, vs, i, i);
    AcceptedShape(suite, a, us, i);
    AcceptedShape(suite, b, vs, i);
    if i > 0 {
      ChainAgrees(suite, a, b, us, vs, i - 1);
    }
    assert us[..i + 1] == us[..i] + [us[i]] && vs[..i + 1] == vs[..i] + [vs[i]];
  }

  /** Under one roster, the final digest commits to every record. */
  lemma DigestCommits(suite: Suite, roster: Roster, us: seq<ShuffleRecord>, vs: seq<ShuffleRecord>)
    requires DeckOf(suite, roster, us).Success? && DeckOf(suite, roster, vs).Success?
    requires Distinguishes(suite.hash, RecordInputs(us), RecordInputs(vs))
    requires DeckOf(suite, roster, us).value.digest == DeckOf(suite, roster, vs).value.digest
    ensures us == vs
  {
    RecordsCommit(suite, roster, roster, us, vs);
  }

  /** A whole accepted run, from the frozen context to the verified deck. */
  datatype Run = Run(context: Context, keys: seq<KeyRecord>, records: seq<ShuffleRecord>)

  ghost predicate Accepted(suite: Suite, run: Run) {
    && Frozen(suite, run.context)
    && RosterOf(suite, run.context, run.keys).Success?
    && DeckOf(suite, RosterOf(suite, run.context, run.keys).value, run.records).Success?
  }

  ghost function RosterIn(suite: Suite, run: Run): Roster
    requires Accepted(suite, run)
  {
    RosterOf(suite, run.context, run.keys).value
  }

  ghost function FinalDigest(suite: Suite, run: Run): Digest
    requires Accepted(suite, run)
  {
    DeckOf(suite, RosterIn(suite, run), run.records).value.digest
  }

  /** Every string the run hashes into its transcript. */
  ghost function Hashed(suite: Suite, run: Run): set<Bytes>
    requires Accepted(suite, run)
  {
    RecordInputs(run.records)
    + {run.context.canonical, RosterInput(run.context, run.keys), GenesisInput(RosterIn(suite, run))}
  }

  /** The final digest commits to the whole run: room, session, epoch, round, roster, every key and
      every shuffle, whatever rosters the two runs had. */
  lemma RunCommits(suite: Suite, a: Run, b: Run)
    requires Accepted(suite, a) && Accepted(suite, b)
    requires Distinguishes(suite.hash, Hashed(suite, a), Hashed(suite, b))
    requires FinalDigest(suite, a) == FinalDigest(suite, b)
    ensures a == b
  {
    hide Frozen, DeckOf, RosterOf, RecordInputs, RosterInput, GenesisInput, Distinguishes;
    var p, q := RosterIn(suite, a), RosterIn(suite, b);
    HashedApart(suite, a, b);
    RosterFields(suite, a);
    RosterFields(suite, b);
    RecordsCommit(suite, p, q, a.records, b.records);
    GenesisCommits(suite, p, q);
    ContextCommits(suite, a.context, b.context);
    KeysCommit(suite, a.context, a.keys, b.keys);
  }

  /** What distinguishing the two runs' strings gives, string by string. */
  lemma HashedApart(suite: Suite, a: Run, b: Run)
    requires Accepted(suite, a) && Accepted(suite, b)
    requires Distinguishes(suite.hash, Hashed(suite, a), Hashed(suite, b))
    ensures Distinguishes(suite.hash, RecordInputs(a.records), RecordInputs(b.records))
    ensures Same(suite.hash, a.context.canonical, b.context.canonical)
    ensures Same(suite.hash, RosterInput(a.context, a.keys), RosterInput(b.context, b.keys))
    ensures Same(suite.hash, GenesisInput(RosterIn(suite, a)), GenesisInput(RosterIn(suite, b)))
  {
    hide Accepted, RecordInputs, RosterInput, GenesisInput, RosterIn;
  }

  ghost predicate Same(hash: Bytes -> Digest, u: Bytes, v: Bytes) { hash(u) == hash(v) ==> u == v }

  lemma RosterFields(suite: Suite, run: Run)
    requires Accepted(suite, run)
    ensures RosterIn(suite, run).context == run.context
    ensures RosterIn(suite, run).digest == suite.hash(RosterInput(run.context, run.keys))
    ensures run.context.digest == suite.hash(run.context.canonical)
  {
    hide ContextBytes, Ascending, DeckOf, FirstKeyFault, RosterInput, PublicKeys;
  }

  lemma RecordsCommit(suite: Suite, p: Roster, q: Roster, us: seq<ShuffleRecord>, vs: seq<ShuffleRecord>)
    requires DeckOf(suite, p, us).Success? && DeckOf(suite, q, vs).Success?
    requires Distinguishes(suite.hash, RecordInputs(us), RecordInputs(vs))
    requires DeckOf(suite, p, us).value.digest == DeckOf(suite, q, vs).value.digest
    ensures us == vs && suite.hash(GenesisInput(p)) == suite.hash(GenesisInput(q))
  {
    SameLength(suite, p, q, us, vs);
    ChainAgrees(suite, p, q, us, vs, |us| - 1);
    assert us[..|us|] == us && vs[..|vs|] == vs;
  }

  lemma SameLength(suite: Suite, p: Roster, q: Roster, us: seq<ShuffleRecord>, vs: seq<ShuffleRecord>)
    requires DeckOf(suite, p, us).Success? && DeckOf(suite, q, vs).Success?
    requires Distinguishes(suite.hash, RecordInputs(us), RecordInputs(vs))
    requires DeckOf(suite, p, us).value.digest == DeckOf(suite, q, vs).value.digest
    ensures |us| == |vs|
  {
    hide ShuffleBytes, RecordInputs, FirstShuffleFault, Distinguishes, ShuffleShaped;
    SameRecord(suite, p, q, us, vs, |us| - 1, |vs| - 1);
    AcceptedShape(suite, p, us, |us| - 1);
    AcceptedShape(suite, q, vs, |vs| - 1);
  }

  lemma GenesisCommits(suite: Suite, p: Roster, q: Roster)
    requires GenesisInput(p) == GenesisInput(q)
    ensures p.context.digest == q.context.digest && p.digest == q.digest
  {
    hide Ascii;
    Split(Ascii(GENESIS) + p.context.digest, p.digest, Ascii(GENESIS) + q.context.digest, q.digest);
    Split(Ascii(GENESIS), p.context.digest, Ascii(GENESIS), q.context.digest);
  }

  lemma KeysCommit(suite: Suite, context: Context, us: seq<KeyRecord>, vs: seq<KeyRecord>)
    requires RosterOf(suite, context, us).Success? && RosterOf(suite, context, vs).Success?
    requires RosterInput(context, us) == RosterInput(context, vs)
    ensures us == vs
  {
    Split(context.digest, Frames(KeyFrames(us)), context.digest, Frames(KeyFrames(vs)));
    forall i | 0 <= i < |us|
      ensures KeyShaped(us[i]) && KeyShaped(vs[i]) && |KeyBytes(us[i])| < U32 && |KeyBytes(vs[i])| < U32
    {
      assert KeyFault(suite, context, context.roster[i], us[i]).None?;
      assert KeyFault(suite, context, context.roster[i], vs[i]).None?;
    }
    hide KeyBytes, Frames, FirstKeyFault;
    assert Frames(KeyFrames(us)) + [] == Frames(KeyFrames(vs)) + [];
    FramesSplit(KeyFrames(us), [], KeyFrames(vs), []);
    forall i | 0 <= i < |us|
      ensures us[i] == vs[i]
    {
      assert KeyFrames(us)[i] == KeyBytes(us[i]) && KeyFrames(vs)[i] == KeyBytes(vs[i]);
      KeyExact(KeyBytes(us[i]), us[i]);
      KeyExact(KeyBytes(us[i]), vs[i]);
    }
  }

  // ----- The honest contribution path -----

  /** Player `i` produced a deck and a proof of their sizes, and the proof verifies. */
  predicate Shuffles(suite: Suite, roster: Roster, decks: seq<Bytes>, proofs: seq<Bytes>, i: nat)
    requires i < |decks| == |proofs|
  {
    && |decks[i]| == 3432 && |proofs[i]| == 5547
    && if i == 0 then suite.shuffledFirst(roster.aggregateKey, decks[0], proofs[0], roster.context.canonical)
       else suite.shuffled(roster.aggregateKey, decks[i - 1], decks[i], proofs[i], roster.context.canonical)
  }

  /** Build the transcript from the decks and proofs the players produced, verifying each as it comes.
      Whatever it returns, the independent verifier accepts with the same deck. */
  method CreateShuffleTranscript(suite: Suite, roster: Roster, decks: seq<Bytes>, proofs: seq<Bytes>)
    returns (r: Result<(seq<ShuffleRecord>, Deck), ProtocolError>)
    requires 0 < |roster.context.roster| <= MAX_PLAYERS
    requires |decks| == |proofs| == |roster.context.roster|
    requires forall i :: 0 <= i < |decks| ==> suite.decodes("masked deck", decks[i]) && suite.decodes("shuffle proof", proofs[i])
    ensures r.Success? ==> DeckOf(suite, roster, r.value.0) == Success(r.value.1)
    ensures r.Success? ==>
      |r.value.0| == |decks| && forall i :: 0 <= i < |decks| ==> r.value.0[i].deck == decks[i] && r.value.0[i].proof == proofs[i]
    ensures r.Success? <==> forall i :: 0 <= i < |decks| ==> Shuffles(suite, roster, decks, proofs, i)
  {
    var records: seq<ShuffleRecord> := [];
    var parent := suite.hash(GenesisInput(roster));
    hide ShuffleBytes, DeckOf, Linked, GenesisInput;
    for i := 0 to |decks|
      invariant |records| == i && parent == Parent(suite, roster, records, i)
      invariant forall j :: 0 <= j < i ==> records[j].deck == decks[j] && records[j].proof == proofs[j] && Linked(suite, roster, records, j)
      invariant forall j :: 0 <= j < i ==> Shuffles(suite, roster, decks, proofs, j)
    {
      var verified :=
        if i == 0 then suite.shuffledFirst(roster.aggregateKey, decks[0], proofs[0], roster.context.canonical)
        else suite.shuffled(roster.aggregateKey, decks[i - 1], decks[i], proofs[i], roster.context.canonical);
      ghost var acceptable := Shuffles(suite, roster, decks, proofs, i);
      if !verified {
        return Failure(InvalidProof(if i == 0 then "initial shuffle" else "shuffle"));
      }
      if |decks[i]| != MASKED_DECK_BYTES {
        return Failure(InvalidArtifactLength("masked deck", MASKED_DECK_BYTES, |decks[i]|));
      }
      if |proofs[i]| != SHUFFLE_PROOF_BYTES {
        return Failure(InvalidArtifactLength("shuffle proof", SHUFFLE_PROOF_BYTES, |proofs[i]|));
      }
      var record := MakeRecord(suite, i, roster.context.roster[i], parent, decks[i], proofs[i]);
      RecordLinks(suite, roster, records, record);
      records := records + [record];
      parent := record.digest;
    }
    LinkedAccepted(suite, roster, records);
    r := Success((records, Deck(decks[|decks| - 1], parent)));
  }

  lemma LinkedAccepted(suite: Suite, roster: Roster, records: seq<ShuffleRecord>)
    requires 0 < |records| == |roster.context.roster|
    requires forall j :: 0 <= j < |records| ==> Linked(suite, roster, records, j)
    ensures DeckOf(suite, roster, records) == Success(Deck(records[|records| - 1].deck, records[|records| - 1].digest))
  {
    hide ShuffleFault;
    forall j | 0 <= j < |records|
      ensures ShuffleFault(suite, roster, records, j).None?
    {
      assert Linked(suite, roster, records, j);
    }
  }

  function MakeRecord(suite: Suite, ordinal: Byte, player: PlayerId, parent: Digest, deck: Bytes, proof: Bytes): (r: ShuffleRecord)
    ensures r.digest == suite.hash(ShuffleBytes(r))
    ensures r.ordinal == ordinal && r.player == player && r.parentDigest == parent && r.deck == deck && r.proof == proof
  {
    var unsigned := ShuffleRecord(ordinal, player, parent, deck, proof, parent);
    unsigned.(digest := suite.hash(ShuffleBytes(unsigned)))
  }

  /** A freshly made record extends an accepted chain. */
  lemma RecordLinks(suite: Suite, roster: Roster, records: seq<ShuffleRecord>, record: ShuffleRecord)
    requires var i := |records|;
      && i < |roster.context.roster| && ShuffleShaped(record)
      && suite.decodes("masked deck", record.deck) && suite.decodes("shuffle proof", record.proof)
      && record.digest == suite.hash(ShuffleBytes(record))
      && record.ordinal == i && record.player == roster.context.roster[i]
      && record.parentDigest == Parent(suite, roster, records, i)
      && Proves(suite, roster, records + [record], i)
    requires forall j :: 0 <= j < |records| ==> Linked(suite, roster, records, j)
    ensures forall j :: 0 <= j <= |records| ==> Linked(suite, roster, records + [record], j)
  {
    hide ShuffleBytes;
    forall j | 0 <= j <= |records|
      ensures Linked(suite, roster, records + [record], j)
    {
      if j < |records| {
        assert Linked(suite, roster, records, j);
      }
    }
  }

  ghost predicate Linked(suite: Suite, roster: Roster, records: seq<ShuffleRecord>, i: nat)
    requires |records| <= |roster.context.roster|
  {
    i < |records| && ShuffleFault(suite, roster, records, i).None?
  }
}
