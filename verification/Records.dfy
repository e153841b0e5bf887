/** The canonical records: how each prints, how each is read back, and that the two are inverse in both
    directions, for every record and every byte string. */
module Records {
  import opened Wrappers
  import opened Wire
  import opened Octets
  import opened StandardDeck

  const MAX_PLAYERS: nat := 51
  const PUBLIC_KEY_BYTES: nat := 33
  const OWNERSHIP_PROOF_BYTES: nat := 65
  const MASKED_DECK_BYTES: nat := 3432
  const SHUFFLE_PROOF_BYTES: nat := 5547
  const REVEAL_TOKEN_BYTES: nat := 33
  const REVEAL_PROOF_BYTES: nat := 98
  const SHARE_LIMIT: nat := 256

  type Position = p: nat | p < DECK_SIZE

  datatype KeyRecord = KeyRecord(player: PlayerId, publicKey: Bytes, ownershipProof: Bytes)

  datatype ShuffleRecord =
    ShuffleRecord(ordinal: Byte, player: PlayerId, parentDigest: Digest, deck: Bytes, proof: Bytes, digest: Digest)

  datatype RevealShare = RevealShare(player: PlayerId, position: Position, token: Bytes, proof: Bytes)

  datatype PublicReveal = PublicReveal(position: Position, card: Card, shares: seq<RevealShare>, evidenceDigest: Digest)

  // ----- Printing -----

  function KeyBytes(r: KeyRecord): Bytes { Frame(r.player) + Frame(r.publicKey) + Frame(r.ownershipProof) }

  function ShuffleBytes(r: ShuffleRecord): Bytes {
    [r.ordinal] + Frame(r.player) + r.parentDigest + Frame(r.deck) + Frame(r.proof)
  }

  function ShareBytes(r: RevealShare): Bytes { Frame(r.player) + [r.position] + Frame(r.token) + Frame(r.proof) }

  function SharesBytes(shares: seq<RevealShare>): Bytes {
    if shares == [] then [] else Frame(ShareBytes(shares[0])) + SharesBytes(shares[1..])
  }

  function RevealBytes(r: PublicReveal): Bytes {
    [r.position] + [r.card] + BigEndian(|r.shares|, 4) + SharesBytes(r.shares) + r.evidenceDigest
  }

  /** The printer for a reveal appends share by share. */
  method PrintReveal(r: PublicReveal) returns (bytes: Bytes)
    ensures bytes == RevealBytes(r)
  {
    bytes := [r.position] + [r.card] + BigEndian(|r.shares|, 4);
    ghost var header := bytes;
    for i := 0 to |r.shares|
      invariant bytes + SharesBytes(r.shares[i..]) == header + SharesBytes(r.shares)
    {
      assert r.shares[i..][1..] == r.shares[i + 1..];
      bytes := bytes + Frame(ShareBytes(r.shares[i]));
    }
    assert r.shares[|r.shares|..] == [];
    bytes := bytes + r.evidenceDigest;
  }

  /** The bytes on the wire, field by field: four big-endian length bytes before each text and each artifact, one
      byte for ordinals, positions and cards, digests bare. */
  lemma Layouts(k: KeyRecord, s: ShuffleRecord, r: RevealShare, e: PublicReveal)
    ensures KeyBytes(k)
      == BigEndian(|k.player|, 4) + k.player + BigEndian(|k.publicKey|, 4) + k.publicKey
         + BigEndian(|k.ownershipProof|, 4) + k.ownershipProof
    ensures ShuffleBytes(s)
      == [s.ordinal] + BigEndian(|s.player|, 4) + s.player + s.parentDigest + BigEndian(|s.deck|, 4) + s.deck
         + BigEndian(|s.proof|, 4) + s.proof
    ensures ShareBytes(r)
      == BigEndian(|r.player|, 4) + r.player + [r.position] + BigEndian(|r.token|, 4) + r.token + BigEndian(|r.proof|, 4) + r.proof
    ensures RevealBytes(e) == [e.position] + [e.card] + BigEndian(|e.shares|, 4) + SharesBytes(e.shares) + e.evidenceDigest
    ensures e.shares != [] ==>
      SharesBytes(e.shares) == BigEndian(|ShareBytes(e.shares[0])|, 4) + ShareBytes(e.shares[0]) + SharesBytes(e.shares[1..])
  {
    hide BigEndian;
  }

  // ----- Well-shaped records -----

  predicate KeyShaped(r: KeyRecord) {
    |r.publicKey| == PUBLIC_KEY_BYTES && |r.ownershipProof| == OWNERSHIP_PROOF_BYTES
  }

  predicate ShuffleShaped(r: ShuffleRecord) {
    |r.deck| == MASKED_DECK_BYTES && |r.proof| == SHUFFLE_PROOF_BYTES
  }

  predicate ShareShaped(r: RevealShare) {
    |r.token| == REVEAL_TOKEN_BYTES && |r.proof| == REVEAL_PROOF_BYTES
  }

  predicate RevealShaped(r: PublicReveal) {
    && 1 <= |r.shares| <= MAX_PLAYERS
    && AllShaped(r.shares)
  }

  predicate AllShaped(shares: seq<RevealShare>) {
    forall i :: 0 <= i < |shares| ==> ShareShaped(shares[i])
  }

  // ----- Reading -----

  function End(rest: Bytes, artifact: string): Result<(), ProtocolError> {
    if rest == [] then Success(()) else Failure(InvalidEncoding(artifact))
  }

  function NewPosition(value: nat): Result<Position, ProtocolError> {
    if value >= DECK_SIZE then Failure(InvalidPosition) else Success(value)
  }

  function ParseKey(bytes: Bytes): Result<KeyRecord, ProtocolError> {
    var (player, a) :- ReadPlayer(bytes, "key record");
    var (publicKey, b) :- ReadExact(a, PUBLIC_KEY_BYTES, "public key");
    var (proof, c) :- ReadExact(b, OWNERSHIP_PROOF_BYTES, "ownership proof");
    var _ :- End(c, "key record");
    Success(KeyRecord(player, publicKey, proof))
  }

  function ParseShuffle(hash: Bytes -> Digest, bytes: Bytes): Result<ShuffleRecord, ProtocolError> {
    var (ordinal, a) :- ReadByte(bytes, "shuffle record");
    var (player, b) :- ReadPlayer(a, "shuffle record");
    var (parent, c) :- ReadDigest(b, "shuffle parent digest");
    var (deck, d) :- ReadExact(c, MASKED_DECK_BYTES, "masked deck");
    var (proof, e) :- ReadExact(d, SHUFFLE_PROOF_BYTES, "shuffle proof");
    var _ :- End(e, "shuffle record");
    Success(ShuffleRecord(ordinal, player, parent, deck, proof, hash(bytes)))
  }

  function ParseShare(bytes: Bytes): Result<RevealShare, ProtocolError> {
    var (player, a) :- ReadPlayer(bytes, "reveal share");
    var (code, b) :- ReadByte(a, "reveal share");
    var position :- NewPosition(code);
    var (token, c) :- ReadExact(b, REVEAL_TOKEN_BYTES, "reveal token");
    var (proof, d) :- ReadExact(c, REVEAL_PROOF_BYTES, "reveal proof");
    var _ :- End(d, "reveal share");
    Success(RevealShare(player, position, token, proof))
  }

  function ReadShares(sofar: seq<RevealShare>, rest: Bytes, count: nat): Read<seq<RevealShare>>
    decreases count
  {
    if count == 0 then Success((sofar, rest))
    else
      var (encoded, tail) :- ReadBounded(rest, SHARE_LIMIT, "reveal share");
      var share :- ParseShare(encoded);
      ReadShares(sofar + [share], tail, count - 1)
  }

  function ParseReveal(bytes: Bytes): Result<PublicReveal, ProtocolError> {
    var (code, a) :- ReadByte(bytes, "public reveal");
    var position :- NewPosition(code);
    var (card, b) :- ReadByte(a, "public reveal");
    if card >= DECK_SIZE then Failure(InvalidEncoding("public reveal card"))
    else
      var (count, c) :- ReadLength(b, "public reveal");
      if count == 0 || count > MAX_PLAYERS then Failure(InvalidEncoding("public reveal share count"))
      else
        var (shares, d) :- ReadShares([], c, count);
        var (digest, e) :- ReadDigest(d, "public reveal digest");
        var _ :- End(e, "public reveal");
        Success(PublicReveal(position, card, shares, digest))
  }

  // ----- The readers as the cursor runs them -----

  method KeyFromBytes(bytes: Bytes) returns (r: Result<KeyRecord, ProtocolError>)
    ensures r == ParseKey(bytes)
  {
    var cursor := new Cursor(bytes);
    var player :- cursor.NextPlayer("key record");
    var publicKey :- cursor.NextExact(PUBLIC_KEY_BYTES, "public key");
    var proof :- cursor.NextExact(OWNERSHIP_PROOF_BYTES, "ownership proof");
    var _ :- cursor.Finish("key record");
    r := Success(KeyRecord(player, publicKey, proof));
  }

  method ShuffleFromBytes(hash: Bytes -> Digest, bytes: Bytes) returns (r: Result<ShuffleRecord, ProtocolError>)
    ensures r == ParseShuffle(hash, bytes)
  {
    var cursor := new Cursor(bytes);
    var ordinal :- cursor.NextByte("shuffle record");
    var player :- cursor.NextPlayer("shuffle record");
    var parent :- cursor.NextDigest("shuffle parent digest");
    var deck :- cursor.NextExact(MASKED_DECK_BYTES, "masked deck");
    var proof :- cursor.NextExact(SHUFFLE_PROOF_BYTES, "shuffle proof");
    var _ :- cursor.Finish("shuffle record");
    r := Success(ShuffleRecord(ordinal, player, parent, deck, proof, hash(bytes)));
  }

  method ShareFromBytes(bytes: Bytes) returns (r: Result<RevealShare, ProtocolError>)
    ensures r == ParseShare(bytes)
  {
    var cursor := new Cursor(bytes);
    var player :- cursor.NextPlayer("reveal share");
    var code :- cursor.NextByte("reveal share");
    var position :- NewPosition(code);
    var token :- cursor.NextExact(REVEAL_TOKEN_BYTES, "reveal token");
    var proof :- cursor.NextExact(REVEAL_PROOF_BYTES, "reveal proof");
    var _ :- cursor.Finish("reveal share");
    r := Success(RevealShare(player, position, token, proof));
  }

  method SharesFrom(cursor: Cursor, count: nat) returns (r: Result<seq<RevealShare>, ProtocolError>)
    modifies cursor
    ensures Reads(r, ReadShares([], old(cursor.remaining), count), cursor.remaining)
  {
    hide ParseShare, ReadBounded;
    var shares: seq<RevealShare> := [];
    for i := 0 to count
      invariant ReadShares([], old(cursor.remaining), count) == ReadShares(shares, cursor.remaining, count - i)
    {
      var encoded :- cursor.NextBounded(SHARE_LIMIT, "reveal share");
      var share :- ShareFromBytes(encoded);
      shares := shares + [share];
    }
    r := Success(shares);
  }

  method RevealFromBytes(bytes: Bytes) returns (r: Result<PublicReveal, ProtocolError>)
    ensures r == ParseReveal(bytes)
  {
    var cursor := new Cursor(bytes);
    var code :- cursor.NextByte("public reveal");
    var position :- NewPosition(code);
    var card :- cursor.NextByte("public reveal");
    if card >= DECK_SIZE {
      return Failure(InvalidEncoding("public reveal card"));
    }
    var count :- cursor.NextLength("public reveal");
    if count == 0 || count > MAX_PLAYERS {
      return Failure(InvalidEncoding("public reveal share count"));
    }
    var shares :- SharesFrom(cursor, count);
    var digest :- cursor.NextDigest("public reveal digest");
    var _ :- cursor.Finish("public reveal");
    r := Success(PublicReveal(position, card, shares, digest));
  }

  // ----- Printing and reading are inverse -----

  /** A byte string reads as a key record exactly when it is that record, well shaped, as printed. */
  lemma KeyExact(bytes: Bytes, r: KeyRecord)
    ensures ParseKey(bytes) == Success(r) <==> KeyShaped(r) && bytes == KeyBytes(r)
  {
    hide Frame, ReadPlayer, ReadExact, Utf8;
    var b := Frame(r.ownershipProof);
    var a := Frame(r.publicKey) + b;
    assert KeyBytes(r) == Frame(r.player) + a && b == b + [];
    PlayerExact(bytes, "key record", r.player, a);
    ExactExact(a, PUBLIC_KEY_BYTES, "public key", r.publicKey, b);
    ExactExact(b, OWNERSHIP_PROOF_BYTES, "ownership proof", r.ownershipProof, []);
    if ParseKey(bytes) == Success(r) {
      var a' := ReadPlayer(bytes, "key record").value.1;
      var b' := ReadExact(a', PUBLIC_KEY_BYTES, "public key").value.1;
      PlayerExact(bytes, "key record", r.player, a');
      ExactExact(a', PUBLIC_KEY_BYTES, "public key", r.publicKey, b');
      assert ReadExact(b', OWNERSHIP_PROOF_BYTES, "ownership proof").value == (r.ownershipProof, []);
      ExactExact(b', OWNERSHIP_PROOF_BYTES, "ownership proof", r.ownershipProof, []);
      assert b' == b && a' == a;
    }
  }

  /** As for keys; the record carries the hash of exactly the bytes it was read from. */
  lemma ShuffleExact(hash: Bytes -> Digest, bytes: Bytes, r: ShuffleRecord)
    ensures ParseShuffle(hash, bytes) == Success(r) <==>
      ShuffleShaped(r) && bytes == ShuffleBytes(r) && r.digest == hash(ShuffleBytes(r))
  {
    hide Frame, ReadByte, ReadPlayer, ReadExact, ReadDigest, Utf8;
    var d := Frame(r.proof);
    var c := Frame(r.deck) + d;
    var b := r.parentDigest + c;
    var a := Frame(r.player) + b;
    assert ShuffleBytes(r) == [r.ordinal] + a && d == d + [];
    ByteExact(bytes, "shuffle record", r.ordinal, a);
    PlayerExact(a, "shuffle record", r.player, b);
    DigestExact(b, "shuffle parent digest", r.parentDigest, c);
    ExactExact(c, MASKED_DECK_BYTES, "masked deck", r.deck, d);
    ExactExact(d, SHUFFLE_PROOF_BYTES, "shuffle proof", r.proof, []);
    if ParseShuffle(hash, bytes) == Success(r) {
      var a' := ReadByte(bytes, "shuffle record").value.1;
      var b' := ReadPlayer(a', "shuffle record").value.1;
      var c' := ReadDigest(b', "shuffle parent digest").value.1;
      var d' := ReadExact(c', MASKED_DECK_BYTES, "masked deck").value.1;
      ByteExact(bytes, "shuffle record", r.ordinal, a');
      PlayerExact(a', "shuffle record", r.player, b');
      DigestExact(b', "shuffle parent digest", r.parentDigest, c');
      ExactExact(c', MASKED_DECK_BYTES, "masked deck", r.deck, d');
      assert ReadExact(d', SHUFFLE_PROOF_BYTES, "shuffle proof").value == (r.proof, []);
      ExactExact(d', SHUFFLE_PROOF_BYTES, "shuffle proof", r.proof, []);
      assert d' == d && c' == c && b' == b && a' == a;
    }
  }

  lemma ShareExact(bytes: Bytes, r: RevealShare)
    ensures ParseShare(bytes) == Success(r) <==> ShareShaped(r) && bytes == ShareBytes(r)
  {
    hide Frame, ReadByte, ReadPlayer, ReadExact, Utf8;
    var c := Frame(r.proof);
    var b := Frame(r.token) + c;
    var a := [r.position] + b;
    assert ShareBytes(r) == Frame(r.player) + a && c == c + [];
    PlayerExact(bytes, "reveal share", r.player, a);
    ByteExact(a, "reveal share", r.position, b);
    ExactExact(b, REVEAL_TOKEN_BYTES, "reveal token", r.token, c);
    ExactExact(c, REVEAL_PROOF_BYTES, "reveal proof", r.proof, []);
    if ParseShare(bytes) == Success(r) {
      var a' := ReadPlayer(bytes, "reveal share").value.1;
      var b' := ReadByte(a', "reveal share").value.1;
      var c' := ReadExact(b', REVEAL_TOKEN_BYTES, "reveal token").value.1;
      PlayerExact(bytes, "reveal share", r.player, a');
      ByteExact(a', "reveal share", r.position, b');
      ExactExact(b', REVEAL_TOKEN_BYTES, "reveal token", r.token, c');
      assert ReadExact(c', REVEAL_PROOF_BYTES, "reveal proof").value == (r.proof, []);
      ExactExact(c', REVEAL_PROOF_BYTES, "reveal proof", r.proof, []);
      assert c' == c && b' == b && a' == a;
    }
  }

  /** Every well-shaped share fits its frame's limit. */
  lemma ShareFits(r: RevealShare)
    requires ShareShaped(r)
    ensures |ShareBytes(r)| <= SHARE_LIMIT
  {
  }

  lemma {:induction false} SharesExact(sofar: seq<RevealShare>, rest: Bytes, count: nat, shares: seq<RevealShare>, tail: Bytes)
    ensures ReadShares(sofar, rest, count) == Success((sofar + shares, tail)) <==>
      |shares| == count && AllShaped(shares) && rest == SharesBytes(shares) + tail
    ensures ReadShares(sofar, rest, count).Success? ==>
      var all := ReadShares(sofar, rest, count).value.0; |all| == |sofar| + count && all[..|sofar|] == sofar
    decreases count
  {
    if count == 0 {
      assert |sofar + shares| == |sofar| + |shares|;
      assert shares == [] ==> sofar + shares == sofar && SharesBytes(shares) + tail == tail;
    } else {
      SharesStep(sofar, rest, count, shares, tail);
    }
  }

  lemma {:induction false} SharesStep(sofar: seq<RevealShare>, rest: Bytes, count: nat, shares: seq<RevealShare>, tail: Bytes)
    requires count > 0
    ensures ReadShares(sofar, rest, count) == Success((sofar + shares, tail)) <==>
      |shares| == count && AllShaped(shares) && rest == SharesBytes(shares) + tail
    ensures ReadShares(sofar, rest, count).Success? ==>
      var all := ReadShares(sofar, rest, count).value.0; |all| == |sofar| + count && all[..|sofar|] == sofar
    decreases count, 0
  {
    hide Frame, ReadBounded, ParseShare, ShareBytes, ShareShaped, Utf8;
    var read := ReadBounded(rest, SHARE_LIMIT, "reveal share");
    if read.Success? && ParseShare(read.value.0).Success? {
      var (encoded, after) := read.value;
      var share := ParseShare(encoded).value;
      BoundedExact(rest, SHARE_LIMIT, "reveal share", encoded, after);
      ShareExact(encoded, share);
      if shares != [] && shares[0] == share {
        SharesExact(sofar + [share], after, count - 1, shares[1..], tail);
        assert sofar + [share] + shares[1..] == sofar + shares;
      } else {
        SharesExact(sofar + [share], after, count - 1, [], tail);
      }
    }
    if shares != [] && AllShaped(shares) && rest == SharesBytes(shares) + tail {
      var after := SharesBytes(shares[1..]) + tail;
      assert rest == Frame(ShareBytes(shares[0])) + after;
      ShareFits(shares[0]);
      ShareExact(ShareBytes(shares[0]), shares[0]);
      BoundedExact(rest, SHARE_LIMIT, "reveal share", ShareBytes(shares[0]), after);
    }
  }

  /** The nested record: one to fifty-one framed shares. */
  lemma RevealExact(bytes: Bytes, r: PublicReveal)
    ensures ParseReveal(bytes) == Success(r) <==> RevealShaped(r) && bytes == RevealBytes(r)
  {
    hide ReadByte, ReadLength, ReadShares, ReadDigest, SharesBytes, BigEndian, AllShaped;
    var d := r.evidenceDigest;
    var c := SharesBytes(r.shares) + d;
    var b := BigEndian(|r.shares|, 4) + c;
    var a := [r.card] + b;
    assert RevealBytes(r) == [r.position] + a && d == d + [] && [] + r.shares == r.shares;
    ByteExact(bytes, "public reveal", r.position, a);
    ByteExact(a, "public reveal", r.card, b);
    LengthExact(b, "public reveal", |r.shares|, c);
    SharesExact([], c, |r.shares|, r.shares, d);
    DigestExact(d, "public reveal digest", r.evidenceDigest, []);
    if ParseReveal(bytes) == Success(r) {
      var a' := ReadByte(bytes, "public reveal").value.1;
      var b' := ReadByte(a', "public reveal").value.1;
      var (count, c') := ReadLength(b', "public reveal").value;
      var d' := ReadShares([], c', count).value.1;
      ByteExact(bytes, "public reveal", r.position, a');
      ByteExact(a', "public reveal", r.card, b');
      LengthExact(b', "public reveal", count, c');
      SharesExact([], c', count, r.shares, d');
      assert ReadDigest(d', "public reveal digest").value == (r.evidenceDigest, []);
      DigestExact(d', "public reveal digest", r.evidenceDigest, []);
      assert d' == d && count == |r.shares| && c' == c && b' == b && a' == a;
    }
  }
}
