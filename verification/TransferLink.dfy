/** Both ends of a transfer over a network that delivers, repeats, reorders, delays, loses and forges chunks
    and acknowledgements, with a receiver that crashes and resumes from its directory: exactly when the
    transfer can still complete. */
module TransferLink {
  import opened Wrappers
  import opened Arithmetic
  import opened Octets
  import opened Transfer
  import opened DurableTransfer
  import opened TransferNetwork

  // ----- The receiving end: a durable receiver, up or down -----

  /** How many chunks are retained before the first gap. */
  ghost function Have<Key>(s: Session<Key>, w: World): nat {
    if w.disk.Some? then FirstMissing(w.disk.value.chunks, s.descriptor.chunkCount, 0) else 0
  }

  /** The directory is in place without a gap, and the receiver, if up, is faithful to it and not finished. */
  ghost predicate Staged<Key>(s: Session<Key>, source: Bytes, w: World)
    requires |source| == s.descriptor.byteLength
  {
    && Faithful(s, source, w)
    && w.disk.Some? && w.disk.value.checkpoint == Some(CheckpointOf(s))
    && Contiguous(s, source, w.disk.value.chunks, Have(s, w))
    && (w.live.Some? ==> !w.live.value.complete)
  }

  ghost predicate Serving(w: World) { w.live.Some? && !w.live.value.cancelled && !w.live.value.complete }

  /** What an up receiver answers to a chunk: the hash it acknowledges, if any. */
  ghost function Answer<Key>(s: Session<Key>, w: World, now: nat, chunk: Chunk, stored: bool): Option<Digest> {
    if w.live.None? then None
    else
      match AcceptDurably(s, w.disk, w.live.value, now, chunk, stored).2
      case Success(disposition) => Some(disposition.ciphertextHash)
      case Failure(_) => None
  }

  lemma ServingHas<Key>(s: Session<Key>, source: Bytes, w: World)
    requires |source| == s.descriptor.byteLength && Staged(s, source, w) && Serving(w)
    ensures w.live.value.next == Have(s, w) <= s.descriptor.chunkCount
    ensures Prefixed(s, source, w.live.value)
  {
    hide HonestChunk, Prefixed, Holding, FirstMissing, Authenticated;
    FirstMissingIs(s, source, w.disk.value.chunks, w.live.value.next);
  }

  /** A directory just created, its receiver waiting for the first chunk. */
  lemma CreatedStaged<Key>(s: Session<Key>, source: Bytes)
    requires Honest(s, source)
    ensures var (disk, r) := Create(s, None, true);
      r.Success? && Staged(s, source, World(disk, Some(r.value))) && Have(s, World(disk, Some(r.value))) == 0
  {
    hide HonestChunk;
    HonestBasics(s, source);
    HoldingNothing(s, source);
    FreshPrefixed(s, source);
    hide Honest;
    FirstMissingIs(s, source, map[], 0);
  }

  /** Crashing and restarting, in time or not, keep everything that was retained. */
  lemma UpAndDown<Key>(s: Session<Key>, source: Bytes, w: World, now: nat)
    requires Honest(s, source) && Staged(s, source, w)
    ensures Staged(s, source, Advance(s, w, Crash)) && Have(s, Advance(s, w, Crash)) == Have(s, w)
    ensures Staged(s, source, Advance(s, w, Restart(now))) && Have(s, Advance(s, w, Restart(now))) == Have(s, w)
    ensures now <= s.expires ==> Serving(Advance(s, w, Restart(now)))
  {
    hide Honest, HonestChunk, Prefixed, Authenticated, Contiguous, FirstMissing, ResumeDisk;
    HonestBasics(s, source);
    AdvanceKeeps(s, source, w, Crash);
    AdvanceKeeps(s, source, w, Restart(now));
    Resumed(s, source, w, now);
  }

  lemma Resumed<Key>(s: Session<Key>, source: Bytes, w: World, now: nat)
    requires Honest(s, source) && Staged(s, source, w)
    ensures ResumeDisk(s, w.disk, now).Success? ==>
      !ResumeDisk(s, w.disk, now).value.cancelled && !ResumeDisk(s, w.disk, now).value.complete
    ensures now <= s.expires ==> ResumeDisk(s, w.disk, now).Success?
  {
    hide Honest, HonestChunk, Prefixed, Authenticated, Contiguous, FirstMissing, ResumeDisk, Replay, Uninterrupted, Faithful;
    HonestBasics(s, source);
    ResumeExact(s, source, w.disk, now);
    var k := FirstMissing(w.disk.value.chunks, s.descriptor.chunkCount, 0);
    if ResumeDisk(s, w.disk, now).Success? {
      UninterruptedHolds(s, source, now, k);
    }
  }

  /** What a receiver does with a chunk as sent: an up one takes the next chunk if it can be retained and
      recognises those it has; a chunk taken but not retained cancels it and keeps the directory. */
  lemma TakesSent<Key>(s: Session<Key>, source: Bytes, w: World, now: nat, i: nat, stored: bool)
    requires Honest(s, source) && Staged(s, source, w) && i < s.descriptor.chunkCount
    ensures var chunk := HonestChunk(s, source, i);
      var u := Advance(s, w, Take(now, chunk, stored)); var answer := Answer(s, w, now, chunk, stored);
      var timely := Serving(w) && now <= s.expires;
      && Staged(s, source, u)
      && Have(s, u) == (if timely && i == Have(s, w) && stored then i + 1 else Have(s, w))
      && answer == (if timely && (i < Have(s, w) || (i == Have(s, w) && stored)) then Some(SentHash(s, source, i)) else None)
      && (stored && Serving(w) ==> Serving(u))
  {
    var chunk := HonestChunk(s, source, i);
    if w.live.Some? {
      if Serving(w) {
        ServingHas(s, source, w);
        Taken(s, source, w.live.value, now, i);
      }
      TakenStays(s, source, w, now, chunk, stored);
    }
    hide Honest, HonestChunk, Accept, Faithful, Prefixed, Contiguous, FirstMissing;
  }

  /** Whatever chunk is offered, the directory stays without a gap: it grows exactly by a chunk taken and retained. */
  lemma TakenStays<Key>(s: Session<Key>, source: Bytes, w: World, now: nat, chunk: Chunk, stored: bool)
    requires Honest(s, source) && Staged(s, source, w) && w.live.Some?
    ensures var u := Advance(s, w, Take(now, chunk, stored));
      var result := Accept(s, w.live.value, now, chunk);
      && Staged(s, source, u)
      && (if result.1.Success? && result.1.value.Accepted? then
            if stored then u.live == Some(result.0) && Have(s, u) == Have(s, w) + 1 else u.disk == w.disk && u.live == Some(Cancel(result.0))
          else u == w)
  {
    hide HonestChunk, Holding, FirstMissing, Authenticated, HonestHashes, Cut;
    AdvanceKeeps(s, source, w, Take(now, chunk, stored));
    AcceptExact(s, source, w.live.value, now, chunk);
    HonestBasics(s, source);
    hide Honest, Accept;
    var u := Advance(s, w, Take(now, chunk, stored));
    var result := Accept(s, w.live.value, now, chunk);
    if result.1.Success? && result.1.value.Accepted? && stored {
      ServingHas(s, source, w);
      FirstMissingIs(s, source, u.disk.value.chunks, w.live.value.next + 1);
    }
  }

  /** What an open receiver does with a chunk as sent. */
  lemma Taken<Key>(s: Session<Key>, source: Bytes, r: Receiving, now: nat, i: nat)
    requires Honest(s, source) && Prefixed(s, source, r) && !r.cancelled && !r.complete && i < s.descriptor.chunkCount
    ensures var (t, result) := Accept(s, r, now, HonestChunk(s, source, i));
      && Prefixed(s, source, t) && !t.cancelled && !t.complete
      && (result.Success? <==> now <= s.expires && i <= r.next)
      && (result.Success? ==> result.value.ciphertextHash == SentHash(s, source, i) && (result.value.Accepted? <==> i == r.next))
      && t.next == (if now <= s.expires && i == r.next then r.next + 1 else r.next)
      && (!(now <= s.expires && i == r.next) ==> t == r)
  {
    HonestIsValid(s, source, i);
    AcceptExact(s, source, r, now, HonestChunk(s, source, i));
    if now <= s.expires && i < r.next {
      DuplicateExact(s, source, r, now, HonestChunk(s, source, i));
    }
    if now <= s.expires && i == r.next {
      TakesHonest(s, source, r, now);
    }
    hide Honest, OpenChunk, ValidChunk, HonestHashes, Slice, HonestChunk;
  }

  ghost function SentHash<Key>(s: Session<Key>, source: Bytes, i: nat): Digest
    requires |source| == s.descriptor.byteLength
  {
    s.scheme.hash(HonestChunk(s, source, i).ciphertext)
  }

  /** An answer to any chunk names what was sent under its number; a chunk that does not hash to that
      changes nothing. */
  lemma AnswersGenuine<Key>(s: Session<Key>, source: Bytes, w: World, now: nat, chunk: Chunk, stored: bool)
    requires Honest(s, source) && Staged(s, source, w)
    ensures var u := Advance(s, w, Take(now, chunk, stored)); var answer := Answer(s, w, now, chunk, stored);
      && Staged(s, source, u)
      && (answer.Some? ==> answer.value == SentHash(s, source, chunk.chunkIndex))
      && (s.scheme.hash(chunk.ciphertext) != SentHash(s, source, chunk.chunkIndex) ==> u == w && answer.None?)
  {
    if w.live.Some? {
      TakenStays(s, source, w, now, chunk, stored);
      AcceptExact(s, source, w.live.value, now, chunk);
      AnswerHash(s, source, w.live.value, now, chunk);
    }
    hide Honest, HonestChunk, Accept, Faithful, Prefixed, Contiguous, FirstMissing;
  }

  lemma AnswerHash<Key>(s: Session<Key>, source: Bytes, r: Receiving, now: nat, chunk: Chunk)
    requires |source| == s.descriptor.byteLength && Prefixed(s, source, r)
    ensures var result := Accept(s, r, now, chunk).1;
      result.Success? ==>
        && result.value.ciphertextHash == s.scheme.hash(chunk.ciphertext)
        && (result.value.Duplicate? ==> result.value.ciphertextHash == SentHash(s, source, chunk.chunkIndex))
  {
    hide HonestChunk, ValidChunk, OpenChunk, Cut;
  }

  // ----- The two ends and the network between them -----

  datatype Receipt = Receipt(index: nat, hash: Digest)

  /** Both ends, the sealed chunks and the receiver's acknowledgements the network can still deliver. */
  datatype Link = Link(sending: Sending, world: World, chunks: set<Chunk>, receipts: set<Receipt>)

  datatype LinkEvent =
    | Issue(now: nat)
    | Arrive(now: nat, chunk: Chunk, stored: bool)
    | ForgeChunk(now: nat, chunk: Chunk, stored: bool)
    | LoseChunk(chunk: Chunk)
    | Confirm(receipt: Receipt)
    | ForgeReceipt(receipt: Receipt)
    | LoseReceipt(receipt: Receipt)
    | Reposition(next: nat)
    | GoDown
    | ComeUp(now: nat)

  ghost function LinkStep<Key>(s: Session<Key>, credit: nat, l: Link, e: LinkEvent): Link {
    match e
    case Issue(now) =>
      var (x, r) := NextChunk(s, credit, l.sending, now);
      l.(sending := x, chunks := if r.Success? && r.value.Some? then l.chunks + {r.value.value} else l.chunks)
    case Arrive(now, chunk, stored) => if chunk in l.chunks then Offered(s, l, now, chunk, stored) else l
    case ForgeChunk(now, chunk, stored) => Offered(s, l, now, chunk, stored)
    case LoseChunk(chunk) => l.(chunks := l.chunks - {chunk})
    case Confirm(receipt) =>
      if receipt in l.receipts then l.(sending := Acknowledge(l.sending, receipt.index, receipt.hash).0) else l
    case ForgeReceipt(receipt) => l.(sending := Acknowledge(l.sending, receipt.index, receipt.hash).0)
    case LoseReceipt(receipt) => l.(receipts := l.receipts - {receipt})
    case Reposition(next) => l.(sending := ResumeFrom(s, l.sending, next).0)
    case GoDown => l.(world := Advance(s, l.world, Crash))
    case ComeUp(now) => l.(world := Advance(s, l.world, Restart(now)))
  }

  /** A chunk reaches the receiver, and its answer the network. */
  ghost function Offered<Key>(s: Session<Key>, l: Link, now: nat, chunk: Chunk, stored: bool): Link {
    var answer := Answer(s, l.world, now, chunk, stored);
    l.(world := Advance(s, l.world, Take(now, chunk, stored)),
       receipts := if answer.Some? then l.receipts + {Receipt(chunk.chunkIndex, answer.value)} else l.receipts)
  }

  ghost function LinkRun<Key>(s: Session<Key>, credit: nat, l: Link, events: seq<LinkEvent>): Link
    decreases |events|
  {
    if events == [] then l else LinkRun(s, credit, LinkStep(s, credit, l, events[0]), events[1..])
  }

  /** A forged chunk or acknowledgement does not carry the hash of what was sent under its number. */
  ghost predicate Plain<Key>(s: Session<Key>, source: Bytes, e: LinkEvent)
    requires |source| == s.descriptor.byteLength
  {
    && (e.ForgeChunk? ==> s.scheme.hash(e.chunk.ciphertext) != SentHash(s, source, e.chunk.chunkIndex))
    && (e.ForgeReceipt? ==> e.receipt.hash != SentHash(s, source, e.receipt.index))
  }

  /** Both ends are safe, the sender is not cancelled, and the network carries only what they sent. */
  ghost predicate LinkSound<Key>(s: Session<Key>, source: Bytes, credit: nat, l: Link)
    requires |source| == s.descriptor.byteLength
  {
    && Credited(s, source, credit, l.sending) && !l.sending.cancelled
    && Staged(s, source, l.world)
    && (forall chunk :: chunk in l.chunks ==>
          chunk.chunkIndex < s.descriptor.chunkCount && chunk == HonestChunk(s, source, chunk.chunkIndex))
    && (forall receipt :: receipt in l.receipts ==> receipt.hash == SentHash(s, source, receipt.index))
  }

  ghost function Numbers(chunks: set<Chunk>): set<nat> { set chunk | chunk in chunks :: chunk.chunkIndex }

  ghost function Indexes(receipts: set<Receipt>): set<nat> { set receipt | receipt in receipts :: receipt.index }

  ghost function Positions<Key>(s: Session<Key>, l: Link): Net {
    Net(Have(s, l.world), l.sending.next, l.sending.outstanding.Keys, Numbers(l.chunks), Indexes(l.receipts))
  }

  /** The event that makes a move. */
  ghost function EventOf<Key>(s: Session<Key>, source: Bytes, now: nat, m: Move): LinkEvent
    requires |source| == s.descriptor.byteLength
  {
    match m
    case Emitted => Issue(now)
    case Delivered(i) => Arrive(now, HonestChunk(s, source, i), true)
    case Dropped(i) => LoseChunk(HonestChunk(s, source, i))
    case Acked(i) => Confirm(Receipt(i, SentHash(s, source, i)))
    case AckLost(i) => LoseReceipt(Receipt(i, SentHash(s, source, i)))
    case Rewound(k) => Reposition(k)
  }

  /** A sound link holds the chunk with a number exactly when it holds that chunk as sent. */
  lemma Held<Key>(s: Session<Key>, source: Bytes, credit: nat, l: Link, i: nat)
    requires |source| == s.descriptor.byteLength && LinkSound(s, source, credit, l)
    ensures i in Numbers(l.chunks) <==> HonestChunk(s, source, i) in l.chunks
    ensures i in Indexes(l.receipts) <==> Receipt(i, SentHash(s, source, i)) in l.receipts
    ensures HonestChunk(s, source, i).chunkIndex == i
    ensures i in Numbers(l.chunks) ==> i < s.descriptor.chunkCount
  {
    assert HonestChunk(s, source, i).chunkIndex == i;
    hide HonestChunk, SentHash, Credited, Staged;
    if HonestChunk(s, source, i) in l.chunks {
      assert HonestChunk(s, source, i).chunkIndex in Numbers(l.chunks);
    }
    if Receipt(i, SentHash(s, source, i)) in l.receipts {
      assert Receipt(i, SentHash(s, source, i)).index in Indexes(l.receipts);
    }
  }

  lemma MoreNumbers(chunks: set<Chunk>, chunk: Chunk)
    ensures Numbers(chunks + {chunk}) == Numbers(chunks) + {chunk.chunkIndex}
  {
    forall j | j in Numbers(chunks) + {chunk.chunkIndex}
      ensures j in Numbers(chunks + {chunk})
    {
      if j in Numbers(chunks) {
        var other :| other in chunks && other.chunkIndex == j;
        assert other in chunks + {chunk};
      } else {
        assert chunk in chunks + {chunk};
      }
    }
  }

  lemma MoreIndexes(receipts: set<Receipt>, receipt: Receipt)
    ensures Indexes(receipts + {receipt}) == Indexes(receipts) + {receipt.index}
  {
    forall j | j in Indexes(receipts) + {receipt.index}
      ensures j in Indexes(receipts + {receipt})
    {
      if j in Indexes(receipts) {
        var other :| other in receipts && other.index == j;
        assert other in receipts + {receipt};
      } else {
        assert receipt in receipts + {receipt};
      }
    }
  }

  /** Where numbers determine chunks, losing one chunk loses its number and no other. */
  lemma FewerNumbers(chunks: set<Chunk>, lost: Chunk)
    requires forall chunk :: chunk in chunks && chunk.chunkIndex == lost.chunkIndex ==> chunk == lost
    ensures Numbers(chunks - {lost}) == Numbers(chunks) - {lost.chunkIndex}
  {
    forall j | j in Numbers(chunks)
      ensures j == lost.chunkIndex || j in Numbers(chunks - {lost})
    {
      var chunk :| chunk in chunks && chunk.chunkIndex == j;
      assert chunk != lost ==> chunk in chunks - {lost};
    }
  }

  lemma FewerIndexes(receipts: set<Receipt>, lost: Receipt)
    requires forall receipt :: receipt in receipts && receipt.index == lost.index ==> receipt == lost
    ensures Indexes(receipts - {lost}) == Indexes(receipts) - {lost.index}
  {
    forall j | j in Indexes(receipts)
      ensures j == lost.index || j in Indexes(receipts - {lost})
    {
      var receipt :| receipt in receipts && receipt.index == j;
      assert receipt != lost ==> receipt in receipts - {lost};
    }
  }

  lemma IssueMoves<Key>(s: Session<Key>, source: Bytes, credit: nat, l: Link, now: nat)
    requires Honest(s, source) && LinkSound(s, source, credit, l)
    ensures var u := LinkStep(s, credit, l, Issue(now));
      && LinkSound(s, source, credit, u)
      && (if now <= s.expires then Positions(s, u) == Step(s.descriptor.chunkCount, credit, Positions(s, l), Emitted) else u == l)
  {
    hide Honest, HonestChunk, NextChunk, Staged, Credited, SentHash, Numbers, Indexes, Have;
    HonestBasics(s, source);
    Sent(s, source, credit, l.sending, now);
    MoreNumbers(l.chunks, HonestChunk(s, source, l.sending.next));
  }

  /** What a live sender does when asked for its next chunk. */
  lemma Sent<Key>(s: Session<Key>, source: Bytes, credit: nat, x: Sending, now: nat)
    requires Honest(s, source) && Credited(s, source, credit, x) && !x.cancelled
    ensures HonestChunk(s, source, x.next).chunkIndex == x.next
    ensures var (y, r) := NextChunk(s, credit, x, now);
      && Credited(s, source, credit, y) && !y.cancelled
      && if now <= s.expires && |x.outstanding| < credit && x.next < s.descriptor.chunkCount then
           && r == Success(Some(HonestChunk(s, source, x.next)))
           && y.next == x.next + 1 && y.outstanding.Keys == x.outstanding.Keys + {x.next}
         else y == x && !(r.Success? && r.value.Some?)
  {
    NextExact(s, source, credit, x, now);
    assert HonestChunk(s, source, x.next).chunkIndex == x.next;
    hide Honest, HonestChunk, NextChunk;
  }

  /** A chunk as sent reaches the receiver: the delivery move when the receiver serves, in time, and retains
      what it takes; otherwise a delivery of something it has, or nothing. */
  lemma ArriveMoves<Key>(s: Session<Key>, source: Bytes, credit: nat, l: Link, now: nat, i: nat, stored: bool)
    requires Honest(s, source) && LinkSound(s, source, credit, l)
    ensures var u := LinkStep(s, credit, l, Arrive(now, HonestChunk(s, source, i), stored));
      && LinkSound(s, source, credit, u)
      && (Serving(l.world) && stored ==> Serving(u.world))
      && (if Serving(l.world) && now <= s.expires && (stored || i != Have(s, l.world)) then
            Positions(s, u) == Step(s.descriptor.chunkCount, credit, Positions(s, l), Delivered(i))
          else Positions(s, u) == Positions(s, l))
  {
    hide Honest, HonestChunk, Advance, Answer, Staged, Credited, SentHash, Numbers, Indexes, Have;
    HonestBasics(s, source);
    Held(s, source, credit, l, i);
    if HonestChunk(s, source, i) in l.chunks {
      TakesSent(s, source, l.world, now, i, stored);
      MoreIndexes(l.receipts, Receipt(i, SentHash(s, source, i)));
    }
  }

  /** Forgeries keep both ends safe, whatever they carry, and plain ones change nothing. */
  lemma ForgeriesHarmless<Key>(s: Session<Key>, source: Bytes, credit: nat, l: Link, e: LinkEvent)
    requires Honest(s, source) && LinkSound(s, source, credit, l) && (e.ForgeChunk? || e.ForgeReceipt?)
    ensures LinkSound(s, source, credit, LinkStep(s, credit, l, e))
    ensures Plain(s, source, e) ==> LinkStep(s, credit, l, e) == l
  {
    hide Honest, HonestChunk, Advance, Answer, Staged, Credited, SentHash, Acknowledge;
    HonestBasics(s, source);
    if e.ForgeChunk? {
      AnswersGenuine(s, source, l.world, e.now, e.chunk, e.stored);
    } else {
      Confirmed(s, source, credit, l.sending, e.receipt.index, e.receipt.hash);
    }
  }

  lemma ConfirmMoves<Key>(s: Session<Key>, source: Bytes, credit: nat, l: Link, i: nat)
    requires |source| == s.descriptor.byteLength && LinkSound(s, source, credit, l)
    ensures var u := LinkStep(s, credit, l, Confirm(Receipt(i, SentHash(s, source, i))));
      && LinkSound(s, source, credit, u)
      && Positions(s, u) == Step(s.descriptor.chunkCount, credit, Positions(s, l), Acked(i))
  {
    hide HonestChunk, Staged, Credited, SentHash, Acknowledge, Numbers, Indexes, Have;
    Held(s, source, credit, l, i);
    Confirmed(s, source, credit, l.sending, i, SentHash(s, source, i));
  }

  /** What a live sender does with an acknowledgement, genuine or not. */
  lemma Confirmed<Key>(s: Session<Key>, source: Bytes, credit: nat, x: Sending, i: nat, hash: Digest)
    requires |source| == s.descriptor.byteLength && Credited(s, source, credit, x) && !x.cancelled
    ensures var y := Acknowledge(x, i, hash).0;
      && Credited(s, source, credit, y) && !y.cancelled && y.next == x.next
      && if hash == SentHash(s, source, i) then y.outstanding.Keys == x.outstanding.Keys - {i} else y == x
  {
    AcknowledgeExact(s, source, credit, x, i, hash);
    hide HonestChunk;
  }

  lemma ChunkLossMoves<Key>(s: Session<Key>, source: Bytes, credit: nat, l: Link, i: nat)
    requires |source| == s.descriptor.byteLength && LinkSound(s, source, credit, l)
    ensures var u := LinkStep(s, credit, l, LoseChunk(HonestChunk(s, source, i)));
      LinkSound(s, source, credit, u) && Positions(s, u) == Step(s.descriptor.chunkCount, credit, Positions(s, l), Dropped(i))
  {
    Held(s, source, credit, l, i);
    hide HonestChunk, SentHash, Credited, Staged, Numbers, Indexes, Have;
    FewerNumbers(l.chunks, HonestChunk(s, source, i));
  }

  lemma ReceiptLossMoves<Key>(s: Session<Key>, source: Bytes, credit: nat, l: Link, i: nat)
    requires |source| == s.descriptor.byteLength && LinkSound(s, source, credit, l)
    ensures var u := LinkStep(s, credit, l, LoseReceipt(Receipt(i, SentHash(s, source, i))));
      LinkSound(s, source, credit, u) && Positions(s, u) == Step(s.descriptor.chunkCount, credit, Positions(s, l), AckLost(i))
  {
    hide HonestChunk, SentHash, Credited, Staged, Numbers, Indexes, Have;
    FewerIndexes(l.receipts, Receipt(i, SentHash(s, source, i)));
  }

  lemma RepositionMoves<Key>(s: Session<Key>, source: Bytes, credit: nat, l: Link, k: nat)
    requires |source| == s.descriptor.byteLength && LinkSound(s, source, credit, l)
    ensures var u := LinkStep(s, credit, l, Reposition(k));
      LinkSound(s, source, credit, u) && Positions(s, u) == Step(s.descriptor.chunkCount, credit, Positions(s, l), Rewound(k))
  {
    hide HonestChunk, SentHash, Staged, Numbers, Indexes, Have;
  }

  /** Every move is what its event does, in time, to a receiver that serves, and it goes on serving. */
  lemma EventMoves<Key>(s: Session<Key>, source: Bytes, credit: nat, l: Link, now: nat, m: Move)
    requires Honest(s, source) && LinkSound(s, source, credit, l) && Serving(l.world) && now <= s.expires
    ensures var u := LinkStep(s, credit, l, EventOf(s, source, now, m));
      && LinkSound(s, source, credit, u) && Serving(u.world)
      && Positions(s, u) == Step(s.descriptor.chunkCount, credit, Positions(s, l), m)
  {
    hide Honest, HonestChunk, SentHash, NextChunk, Advance, Answer, Acknowledge, ResumeFrom, LinkSound, Positions, Step;
    HonestBasics(s, source);
    match m {
      case Emitted => IssueMoves(s, source, credit, l, now);
      case Delivered(i) => ArriveMoves(s, source, credit, l, now, i, true);
      case Dropped(i) => ChunkLossMoves(s, source, credit, l, i);
      case Acked(i) => ConfirmMoves(s, source, credit, l, i);
      case AckLost(i) => ReceiptLossMoves(s, source, credit, l, i);
      case Rewound(k) => RepositionMoves(s, source, credit, l, k);
    }
  }

  /** A crash, and coming up again from the directory, move nothing. */
  lemma UpAndDownMoves<Key>(s: Session<Key>, source: Bytes, credit: nat, l: Link, now: nat)
    requires Honest(s, source) && LinkSound(s, source, credit, l)
    ensures var u := LinkStep(s, credit, l, GoDown); LinkSound(s, source, credit, u) && Positions(s, u) == Positions(s, l)
    ensures var u := LinkStep(s, credit, l, ComeUp(now));
      && LinkSound(s, source, credit, u) && Positions(s, u) == Positions(s, l)
      && (now <= s.expires ==> Serving(u.world))
  {
    hide Honest, HonestChunk, SentHash, Advance, Staged, Credited, Have, Serving;
    HonestBasics(s, source);
    UpAndDown(s, source, l.world, now);
  }

  /** Every event keeps the link sound; unless it forges the hash of something sent, it is some move or
      moves nothing. */
  lemma EveryEventMoves<Key>(s: Session<Key>, source: Bytes, credit: nat, l: Link, e: LinkEvent) returns (m: Move)
    requires Honest(s, source) && LinkSound(s, source, credit, l)
    ensures LinkSound(s, source, credit, LinkStep(s, credit, l, e))
    ensures Plain(s, source, e) ==>
      Positions(s, LinkStep(s, credit, l, e)) == Step(s.descriptor.chunkCount, credit, Positions(s, l), m)
    ensures m.Rewound? <==> e.Reposition?
  {
    hide Honest, HonestChunk, SentHash, NextChunk, Advance, Answer, Staged, Credited, Acknowledge, ResumeFrom, Indexes, Have, Serving;
    HonestBasics(s, source);
    m := Dropped(s.descriptor.chunkCount);
    assert Positions(s, l) == Step(s.descriptor.chunkCount, credit, Positions(s, l), m);
    hide Numbers;
    match e {
      case Issue(now) =>
        IssueMoves(s, source, credit, l, now);
        m := if now <= s.expires then Emitted else m;
      case Arrive(now, chunk, stored) =>
        if chunk in l.chunks {
          ArriveMoves(s, source, credit, l, now, chunk.chunkIndex, stored);
          if Serving(l.world) && now <= s.expires && (stored || chunk.chunkIndex != Have(s, l.world)) {
            m := Delivered(chunk.chunkIndex);
          }
        }
      case ForgeChunk(_, _, _) => ForgeriesHarmless(s, source, credit, l, e);
      case LoseChunk(chunk) =>
        if chunk in l.chunks {
          ChunkLossMoves(s, source, credit, l, chunk.chunkIndex);
          m := Dropped(chunk.chunkIndex);
        } else {
          assert l.chunks - {chunk} == l.chunks;
        }
      case Confirm(receipt) =>
        if receipt in l.receipts {
          ConfirmMoves(s, source, credit, l, receipt.index);
          m := Acked(receipt.index);
        }
      case ForgeReceipt(_) => ForgeriesHarmless(s, source, credit, l, e);
      case LoseReceipt(receipt) =>
        if receipt in l.receipts {
          ReceiptLossMoves(s, source, credit, l, receipt.index);
          m := AckLost(receipt.index);
        } else {
          assert l.receipts - {receipt} == l.receipts;
        }
      case Reposition(k) =>
        RepositionMoves(s, source, credit, l, k);
        m := Rewound(k);
      case GoDown => UpAndDownMoves(s, source, credit, l, 0);
      case ComeUp(now) => UpAndDownMoves(s, source, credit, l, now);
    }
  }

  // ----- Exactly when a transfer can still complete -----

  lemma SoundWithin<Key>(s: Session<Key>, source: Bytes, credit: nat, l: Link)
    requires |source| == s.descriptor.byteLength && LinkSound(s, source, credit, l)
    ensures Within(s.descriptor.chunkCount, credit, Positions(s, l))
  {
    hide HonestChunk, SentHash, Faithful;
  }

  ghost predicate Repositionless(events: seq<LinkEvent>) {
    forall k :: 0 <= k < |events| ==> !events[k].Reposition?
  }

  ghost predicate AllPlain<Key>(s: Session<Key>, source: Bytes, events: seq<LinkEvent>)
    requires |source| == s.descriptor.byteLength
  {
    forall k :: 0 <= k < |events| ==> Plain(s, source, events[k])
  }

  /** Whatever the two ends, the network and a forger do, crashes included, both ends stay safe and the
      network carries only what was sent; without forged hashes the numbers alone follow the moves. */
  lemma {:induction false} LinkSafe<Key>(s: Session<Key>, source: Bytes, credit: nat, l: Link, events: seq<LinkEvent>) returns (moves: seq<Move>)
    requires Honest(s, source) && LinkSound(s, source, credit, l)
    ensures LinkSound(s, source, credit, LinkRun(s, credit, l, events))
    ensures AllPlain(s, source, events) ==>
      Positions(s, LinkRun(s, credit, l, events)) == TransferNetwork.Run(s.descriptor.chunkCount, credit, Positions(s, l), moves)
    ensures Repositionless(events) ==> NoRewind(moves)
    decreases |events|
  {
    hide Honest, LinkSound, LinkStep, Positions, Step, Plain;
    HonestBasics(s, source);
    if events == [] {
      moves := [];
    } else {
      var m := EveryEventMoves(s, source, credit, l, events[0]);
      var rest := LinkSafe(s, source, credit, LinkStep(s, credit, l, events[0]), events[1..]);
      moves := Prepend(s.descriptor.chunkCount, credit, Positions(s, l), m, rest);
    }
  }

  /** Every run of moves is made by events in time, with a receiver that serves. */
  lemma {:induction false} Realised<Key>(s: Session<Key>, source: Bytes, credit: nat, l: Link, now: nat, moves: seq<Move>) returns (events: seq<LinkEvent>)
    requires Honest(s, source) && LinkSound(s, source, credit, l) && Serving(l.world) && now <= s.expires
    ensures var u := LinkRun(s, credit, l, events);
      && LinkSound(s, source, credit, u) && Serving(u.world)
      && Positions(s, u) == TransferNetwork.Run(s.descriptor.chunkCount, credit, Positions(s, l), moves)
    ensures AllPlain(s, source, events)
    ensures NoRewind(moves) ==> Repositionless(events)
    decreases |moves|
  {
    hide Honest, LinkSound, LinkStep, Positions, Step, Serving;
    HonestBasics(s, source);
    if moves == [] {
      events := [];
    } else {
      var e := EventOf(s, source, now, moves[0]);
      EventMoves(s, source, credit, l, now, moves[0]);
      var rest := Realised(s, source, credit, LinkStep(s, credit, l, e), now, moves[1..]);
      events := [e] + rest;
      assert events[1..] == rest;
    }
  }

  /** The receiver is up and finishing it, directory and all, hands over the source. */
  ghost predicate HandsOver<Key>(s: Session<Key>, source: Bytes, w: World) {
    w.live.Some? && FinishDurably(s, w.disk, w.live.value, Removed).2 == Success(source)
  }

  lemma HandsOverExact<Key>(s: Session<Key>, source: Bytes, w: World)
    requires Honest(s, source) && Staged(s, source, w)
    ensures HandsOver(s, source, w) <==> Serving(w) && Have(s, w) == s.descriptor.chunkCount
  {
    hide HonestChunk, FirstMissing, Contiguous, Authenticated, Holding;
    if w.live.Some? {
      FinishExact(s, source, w.live.value);
      if Serving(w) {
        ServingHas(s, source, w);
      }
    }
    hide Honest, Finish;
  }

  /** Some continuation ends with the receiver handing over the source. */
  ghost predicate Completable<Key>(s: Session<Key>, source: Bytes, credit: nat, l: Link)
    requires |source| == s.descriptor.byteLength
  {
    exists events :: AllPlain(s, source, events) && HandsOver(s, source, LinkRun(s, credit, l, events).world)
  }

  /** Some continuation in which the sender is not repositioned does. */
  ghost predicate CompletableOnward<Key>(s: Session<Key>, source: Bytes, credit: nat, l: Link)
    requires |source| == s.descriptor.byteLength
  {
    exists events ::
      AllPlain(s, source, events) && Repositionless(events) && HandsOver(s, source, LinkRun(s, credit, l, events).world)
  }

  /** A run of moves that completes the receiver becomes a continuation, once the receiver is up. */
  lemma MovesComplete<Key>(s: Session<Key>, source: Bytes, credit: nat, l: Link, moves: seq<Move>) returns (events: seq<LinkEvent>)
    requires Honest(s, source) && LinkSound(s, source, credit, l)
    requires TransferNetwork.Run(s.descriptor.chunkCount, credit, Positions(s, l), moves).received == s.descriptor.chunkCount
    ensures AllPlain(s, source, events) && (NoRewind(moves) ==> Repositionless(events))
    ensures HandsOver(s, source, LinkRun(s, credit, l, events).world)
  {
    hide Honest, LinkSound, LinkStep, Serving, HandsOver, NoRewind;
    HonestBasics(s, source);
    UpAndDownMoves(s, source, credit, l, 0);
    var up := LinkStep(s, credit, l, ComeUp(0));
    var rest := Realised(s, source, credit, up, 0, moves);
    events := [ComeUp(0)] + rest;
    assert events[1..] == rest;
    SoundHandsOver(s, source, credit, LinkRun(s, credit, up, rest));
  }

  lemma SoundHandsOver<Key>(s: Session<Key>, source: Bytes, credit: nat, l: Link)
    requires Honest(s, source) && LinkSound(s, source, credit, l)
    ensures HandsOver(s, source, l.world) <==> Serving(l.world) && Positions(s, l).received == s.descriptor.chunkCount
  {
    hide Honest, HonestChunk, HandsOver, Serving, Staged;
    HonestBasics(s, source);
    HandsOverExact(s, source, l.world);
  }

  /** Which chunks and acknowledgements survive in the network decides alone whether the receiver can still
      hand over the source, whether it is up or down: it can exactly when the rest is on its way with enough
      credit, or everything outstanding can still be acknowledged so that the sender may be repositioned;
      without repositioning, exactly when the rest is on its way. */
  lemma CompletableExact<Key>(s: Session<Key>, source: Bytes, credit: nat, l: Link)
    requires Honest(s, source) && LinkSound(s, source, credit, l) && credit > 0
    ensures Completable(s, source, credit, l) <==>
      Flowing(s.descriptor.chunkCount, credit, Positions(s, l)) || Clearable(Positions(s, l))
    ensures CompletableOnward(s, source, credit, l) <==> Flowing(s.descriptor.chunkCount, credit, Positions(s, l))
  {
    hide Honest, LinkSound, Positions, Flowing, Clearable, LinkRun, TransferNetwork.Run, HandsOver, Repositionless, NoRewind, AllPlain, Serving;
    HonestBasics(s, source);
    var n, t := s.descriptor.chunkCount, Positions(s, l);
    SoundWithin(s, source, credit, l);
    CanCompleteExact(n, credit, t);
    forall events | AllPlain(s, source, events) && HandsOver(s, source, LinkRun(s, credit, l, events).world)
      ensures CanComplete(n, credit, t) && (Repositionless(events) ==> CompletesOnward(n, credit, t))
    {
      var moves := LinkSafe(s, source, credit, l, events);
      SoundHandsOver(s, source, credit, LinkRun(s, credit, l, events));
    }
    forall moves | TransferNetwork.Run(n, credit, t, moves).received == n
      ensures Completable(s, source, credit, l) && (NoRewind(moves) ==> CompletableOnward(s, source, credit, l))
    {
      var events := MovesComplete(s, source, credit, l, moves);
    }
  }

  /** With nothing outstanding and an empty network, a sender completes as it stands exactly when it is not
      ahead of a receiver that misses something; repositioned, it always can. */
  lemma QuietLink<Key>(s: Session<Key>, source: Bytes, credit: nat, l: Link)
    requires Honest(s, source) && LinkSound(s, source, credit, l) && credit > 0
    requires l.sending.outstanding == map[] && l.chunks == {}
    ensures Completable(s, source, credit, l)
    ensures CompletableOnward(s, source, credit, l) <==>
      Have(s, l.world) == s.descriptor.chunkCount || l.sending.next <= Have(s, l.world)
  {
    hide Honest, LinkSound, Completable, CompletableOnward, CanComplete, CompletesOnward, Flowing, Clearable, Have;
    HonestBasics(s, source);
    SoundWithin(s, source, credit, l);
    CompletableExact(s, source, credit, l);
    CanCompleteExact(s.descriptor.chunkCount, credit, Positions(s, l));
    QuietCompletes(s.descriptor.chunkCount, credit, Positions(s, l));
  }

  /** A fresh sender and any receiver, new, resumed, or still down, with an empty network. */
  lemma StartIsSound<Key>(s: Session<Key>, source: Bytes, credit: nat, w: World)
    requires Honest(s, source) && Staged(s, source, w)
    ensures var l := Link(Sending(source, 0, map[], false), w, {}, {});
      LinkSound(s, source, credit, l) && (credit > 0 ==> CompletableOnward(s, source, credit, l))
  {
    hide Honest, HonestChunk, SentHash, Staged, CompletableOnward, Completable, Have;
    HonestBasics(s, source);
    var l := Link(Sending(source, 0, map[], false), w, {}, {});
    assert LinkSound(s, source, credit, l);
    if credit > 0 {
      QuietLink(s, source, credit, l);
    }
  }
}
