/** The restart-safe receiver: authenticated ciphertext is retained chunk by chunk, and resuming
    authenticates every retained chunk again. The staging root is one slot, the directory of this
    transfer and request; publishing a chunk is atomic, removing a directory is not. */
module DurableTransfer {
  import opened Wrappers
  import opened Arithmetic
  import opened Octets
  import opened Transfer

  const SCHEMA: nat := 1

  /** The checkpoint document: schema version, descriptor, request hash and expiry. */
  datatype Checkpoint = Checkpoint(schema: nat, descriptor: Descriptor, requestHash: Digest, expires: nat)

  /** What is on disk; `checkpoint` is absent when the document is missing. */
  datatype Directory = Directory(checkpoint: Option<Checkpoint>, chunks: map<nat, Bytes>)

  type Disk = Option<Directory>

  /** How a removal went: everything is gone, or it stopped and left some entries behind. */
  datatype Removal = Removed | Interrupted(document: bool, kept: set<nat>)

  function Left(disk: Disk, removal: Removal): Disk {
    match (disk, removal)
    case (Some(d), Interrupted(document, kept)) =>
      Some(Directory(if document then d.checkpoint else None, map i | i in d.chunks && i in kept :: d.chunks[i]))
    case _ => None
  }

  function CheckpointOf<Key>(s: Session<Key>): Checkpoint {
    Checkpoint(SCHEMA, s.descriptor, s.requestHash, s.expires)
  }

  function SessionFault<Key>(s: Session<Key>): Option<Error> {
    if !ValidDescriptor(s.descriptor) || s.expires == 0 then Some(InvalidDescriptor) else None
  }

  /** Create never overwrites a directory; `published` says whether the rename went through. */
  function Create<Key>(s: Session<Key>, disk: Disk, published: bool): (Disk, Result<Receiving, Error>) {
    if SessionFault(s).Some? then (disk, Failure(SessionFault(s).value))
    else if disk.Some? then (disk, Failure(ResumeConflict))
    else if !published then (disk, Failure(Storage))
    else (Some(Directory(Some(CheckpointOf(s)), map[])), Success(FRESH))
  }

  /** The chunk rebuilt from a retained file. */
  function Rebuilt<Key>(s: Session<Key>, index: nat, ciphertext: Bytes): Result<Chunk, Error> {
    if |ciphertext| < TAG_BYTES || |ciphertext| - TAG_BYTES > U32_MAX then Failure(InvalidChunk)
    else Success(Chunk(s.descriptor.transferId, s.requestHash, index, s.descriptor.chunkCount, |ciphertext| - TAG_BYTES, ciphertext))
  }

  /** Replay retained chunks from `index` on, up to the first missing one. */
  function Replay<Key>(s: Session<Key>, chunks: map<nat, Bytes>, now: nat, r: Receiving, index: nat): Result<Receiving, Error>
    decreases s.descriptor.chunkCount - index
  {
    if index >= s.descriptor.chunkCount then Success(r)
    else if index !in chunks then
      if exists j :: index < j < s.descriptor.chunkCount && j in chunks then Failure(OutOfOrder) else Success(r)
    else
      match Rebuilt(s, index, chunks[index])
      case Failure(e) => Failure(e)
      case Success(chunk) =>
        (match Accept(s, r, now, chunk)
         case (_, Failure(e)) => Failure(e)
         case (t, Success(_)) => Replay(s, chunks, now, t, index + 1))
  }

  function CheckpointFault<Key>(s: Session<Key>, disk: Disk): Option<Error> {
    if disk.None? || disk.value.checkpoint.None? then Some(Storage)
    else if disk.value.checkpoint.value != CheckpointOf(s) then Some(ResumeConflict)
    else SessionFault(s)
  }

  function ResumeDisk<Key>(s: Session<Key>, disk: Disk, now: nat): Result<Receiving, Error> {
    if CheckpointFault(s, disk).Some? then Failure(CheckpointFault(s, disk).value)
    else Replay(s, disk.value.chunks, now, FRESH, 0)
  }

  /** Take a chunk, then retain its ciphertext; when it cannot be retained the receiver is cancelled. */
  function AcceptDurably<Key>(s: Session<Key>, disk: Disk, r: Receiving, now: nat, chunk: Chunk, stored: bool)
    : (Disk, Receiving, Result<Disposition, Error>)
  {
    match Accept(s, r, now, chunk)
    case (t, Success(Accepted(hash))) =>
      if stored && disk.Some? then
        (Some(disk.value.(chunks := disk.value.chunks[chunk.chunkIndex := chunk.ciphertext])), t, Success(Accepted(hash)))
      else (disk, Cancel(t), Failure(Storage))
    case (t, result) => (disk, t, result)
  }

  function FinishDurably<Key>(s: Session<Key>, disk: Disk, r: Receiving, removal: Removal): (Disk, Receiving, Result<Bytes, Error>) {
    match Finish(s, r)
    case (t, Failure(e)) => (disk, t, Failure(e))
    case (t, Success(bytes)) =>
      (Left(disk, removal), t, if disk.Some? && removal.Removed? then Success(bytes) else Failure(Storage))
  }

  function CancelDurably(disk: Disk, r: Receiving, removal: Removal): (Disk, Receiving, Option<Error>) {
    (Left(disk, removal), Cancel(r), if disk.Some? && removal.Interrupted? then Some(Storage) else None)
  }

  // ----- The objects -----

  class Staging {
    var disk: Disk
    constructor ()
      ensures disk == None
    {
      disk := None;
    }
  }

  class DurableReceiver<Key> {
    const staging: Staging
    const receiver: Receiver<Key>

    constructor (staging: Staging, receiver: Receiver<Key>)
      ensures this.staging == staging && this.receiver == receiver
    {
      this.staging, this.receiver := staging, receiver;
    }

    static method CreateIn(staging: Staging, session: Session<Key>, published: bool) returns (r: Result<DurableReceiver<Key>, Error>)
      modifies staging
      ensures staging.disk == Create(session, old(staging.disk), published).0
      ensures match Create(session, old(staging.disk), published).1
        case Failure(e) => r == Failure(e)
        case Success(t) => r.Success? && Attached(r.value, staging, session) && fresh(r.value.receiver) && r.value.receiver.State() == t
    {
      if !ValidDescriptor(session.descriptor) || session.expires == 0 {
        return Failure(InvalidDescriptor);
      }
      var receiver := new Receiver(session);
      if staging.disk.Some? {
        return Failure(ResumeConflict);
      }
      if !published {
        return Failure(Storage);
      }
      staging.disk := Some(Directory(Some(CheckpointOf(session)), map[]));
      var durable := new DurableReceiver(staging, receiver);
      r := Success(durable);
    }

    static method ResumeIn(staging: Staging, session: Session<Key>, now: nat) returns (r: Result<DurableReceiver<Key>, Error>)
      ensures match ResumeDisk(session, staging.disk, now)
        case Failure(e) => r == Failure(e)
        case Success(t) => r.Success? && Attached(r.value, staging, session) && fresh(r.value.receiver) && r.value.receiver.State() == t
    {
      if staging.disk.None? || staging.disk.value.checkpoint.None? {
        return Failure(Storage);
      }
      if staging.disk.value.checkpoint.value != CheckpointOf(session) {
        return Failure(ResumeConflict);
      }
      if !ValidDescriptor(session.descriptor) || session.expires == 0 {
        return Failure(InvalidDescriptor);
      }
      var chunks := staging.disk.value.chunks;
      var receiver := new Receiver(session);
      var count := session.descriptor.chunkCount;
      var index := 0;
      while index < count && index in chunks
        invariant 0 <= index <= count
        invariant receiver.session == session && fresh(receiver)
        invariant Replay(session, chunks, now, FRESH, 0) == Replay(session, chunks, now, receiver.State(), index)
      {
        var chunk := Rebuilt(session, index, chunks[index]);
        if chunk.Failure? {
          return Failure(chunk.error);
        }
        var disposition := receiver.AcceptChunk(now, chunk.value);
        if disposition.Failure? {
          return Failure(disposition.error);
        }
        index := index + 1;
      }
      var later := index + 1;
      while later < count
        invariant index < count ==> index < later <= count
        invariant forall j :: index < j < later ==> j !in chunks || j >= count
      {
        if later in chunks {
          return Failure(OutOfOrder);
        }
        later := later + 1;
      }
      var durable := new DurableReceiver(staging, receiver);
      r := Success(durable);
    }

    method AcceptChunk(now: nat, chunk: Chunk, stored: bool) returns (r: Result<Disposition, Error>)
      modifies staging, receiver
      ensures (staging.disk, receiver.State(), r)
           == AcceptDurably(receiver.session, old(staging.disk), old(receiver.State()), now, chunk, stored)
    {
      r := receiver.AcceptChunk(now, chunk);
      if r.Failure? || r.value.Duplicate? {
        return;
      }
      if !stored || staging.disk.None? {
        receiver.CancelTransfer();
        return Failure(Storage);
      }
      var directory := staging.disk.value;
      staging.disk := Some(directory.(chunks := directory.chunks[chunk.chunkIndex := chunk.ciphertext]));
    }

    method FinishTransfer(removal: Removal) returns (r: Result<Bytes, Error>)
      modifies staging, receiver
      ensures (staging.disk, receiver.State(), r)
           == FinishDurably(receiver.session, old(staging.disk), old(receiver.State()), removal)
      ensures r.Success? ==> old(staging.disk).Some? && staging.disk == None
      ensures r.Failure? && r.error != Storage ==> staging.disk == old(staging.disk)
    {
      r := receiver.FinishTransfer();
      if r.Failure? {
        return;
      }
      var present := staging.disk.Some?;
      staging.disk := Left(staging.disk, removal);
      if !present || removal.Interrupted? {
        return Failure(Storage);
      }
    }

    method CancelTransfer(removal: Removal) returns (fault: Option<Error>)
      modifies staging, receiver
      ensures (staging.disk, receiver.State(), fault) == CancelDurably(old(staging.disk), old(receiver.State()), removal)
      ensures receiver.cancelled && receiver.bytes == [] && receiver.accepted == map[]
      ensures removal.Removed? ==> staging.disk == None && fault == None
    {
      receiver.CancelTransfer();
      fault := None;
      if staging.disk.Some? {
        if removal.Interrupted? {
          fault := Some(Storage);
        }
        staging.disk := Left(staging.disk, removal);
      }
    }
  }

  ghost predicate Attached<Key>(durable: DurableReceiver<Key>, staging: Staging, session: Session<Key>) {
    durable.staging == staging && durable.receiver.session == session
  }

  // ----- Resume is exact for every disk -----

  /** The uninterrupted receiver after taking chunks 0 to k - 1. */
  ghost function Uninterrupted<Key>(s: Session<Key>, source: Bytes, now: nat, k: nat): Receiving
    requires |source| == s.descriptor.byteLength
  {
    Receive(s, seq(k, i requires 0 <= i < k => Deliver(now, HonestChunk(s, source, i))))
  }

  /** What it holds: the first k slices and their hashes. */
  ghost function Holding<Key>(s: Session<Key>, source: Bytes, k: nat): Receiving
    requires |source| == s.descriptor.byteLength
  {
    Receiving(source[..Cut(s.descriptor, k)], HonestHashes(s, source, k), k, false, false)
  }

  lemma {:induction false} UninterruptedHolds<Key>(s: Session<Key>, source: Bytes, now: nat, k: nat)
    requires Honest(s, source) && k <= s.descriptor.chunkCount && (k == 0 || now <= s.expires)
    ensures Uninterrupted(s, source, now, k) == Holding(s, source, k)
  {
    assert |source| == s.descriptor.byteLength;
    if k == 0 {
      assert Cut(s.descriptor, 0) == 0;
      assert HonestHashes(s, source, 0) == map[];
    } else {
      var events := seq(k, i requires 0 <= i < k => Deliver(now, HonestChunk(s, source, i)));
      UninterruptedHolds(s, source, now, k - 1);
      assert events[..k - 1] == seq(k - 1, i requires 0 <= i < k - 1 => Deliver(now, HonestChunk(s, source, i)));
      TakesHonest(s, source, Holding(s, source, k - 1), now);
    }
  }

  /** Chunks up to `k` are retained as sent, and no later one is retained at all. */
  ghost predicate Contiguous<Key>(s: Session<Key>, source: Bytes, chunks: map<nat, Bytes>, k: nat)
    requires |source| == s.descriptor.byteLength
  {
    && k <= s.descriptor.chunkCount
    && (forall i :: 0 <= i < k ==> i in chunks && chunks[i] == HonestChunk(s, source, i).ciphertext)
    && (forall i :: k <= i < s.descriptor.chunkCount ==> i !in chunks)
  }

  /** A retained file is taken exactly when it is the ciphertext that was sent, in time. */
  lemma RebuiltTaken<Key>(s: Session<Key>, source: Bytes, now: nat, index: nat, ciphertext: Bytes)
    requires Honest(s, source) && index < s.descriptor.chunkCount
    ensures var rebuilt := Rebuilt(s, index, ciphertext);
      if now <= s.expires && ciphertext == HonestChunk(s, source, index).ciphertext then
        && rebuilt == Success(HonestChunk(s, source, index))
        && Accept(s, Holding(s, source, index), now, rebuilt.value).0 == Holding(s, source, index + 1)
        && Accept(s, Holding(s, source, index), now, rebuilt.value).1.Success?
      else rebuilt.Success? ==> Accept(s, Holding(s, source, index), now, rebuilt.value).1.Failure?
  {
    var r, rebuilt := Holding(s, source, index), Rebuilt(s, index, ciphertext);
    HonestIsValid(s, source, index);
    assert SealedWell(s, source, index);
    if rebuilt.Success? {
      AcceptExact(s, source, r, now, rebuilt.value);
      RejectedIsFailure(s, r, now, rebuilt.value);
      hide Honest, Accept, HonestHashes, Cut, Prefixed, OpenChunk, SealedWell, ValidDescriptor;
      assert rebuilt.value == HonestChunk(s, source, index) <==> ciphertext == HonestChunk(s, source, index).ciphertext;
    } else {
      assert s.descriptor.chunkBytes <= MAX_CHUNK_BYTES;
      assert ciphertext != HonestChunk(s, source, index).ciphertext;
    }
  }

  lemma RejectedIsFailure<Key>(s: Session<Key>, r: Receiving, now: nat, chunk: Chunk)
    requires chunk.chunkIndex == r.next
    ensures var result := Accept(s, r, now, chunk).1; result.Failure? || result.value.Accepted?
  {
  }

  lemma {:induction false} ReplayExact<Key>(s: Session<Key>, source: Bytes, chunks: map<nat, Bytes>, now: nat, index: nat, k: nat)
    requires Honest(s, source) && index <= k <= s.descriptor.chunkCount
    requires forall i :: index <= i < k ==> i in chunks
    requires k < s.descriptor.chunkCount ==> k !in chunks
    ensures var r := Replay(s, chunks, now, Holding(s, source, index), index);
      && (r.Success? <==>
            && (forall i :: index <= i < k ==> chunks[i] == HonestChunk(s, source, i).ciphertext)
            && (forall i :: k <= i < s.descriptor.chunkCount ==> i !in chunks)
            && (index == k || now <= s.expires))
      && (r.Success? ==> r.value == Holding(s, source, k))
    decreases k - index
  {
    hide Honest, Accept, HonestChunk, Rebuilt, Holding;
    HonestBasics(s, source);
    if index < k {
      RebuiltTaken(s, source, now, index, chunks[index]);
      if now <= s.expires && chunks[index] == HonestChunk(s, source, index).ciphertext {
        ReplayExact(s, source, chunks, now, index + 1, k);
      }
    }
  }

  /** The number of chunks retained before the first gap. */
  function FirstMissing(chunks: map<nat, Bytes>, count: nat, from: nat): (k: nat)
    requires from <= count
    ensures from <= k <= count
    ensures forall i :: from <= i < k ==> i in chunks
    ensures k < count ==> k !in chunks
    decreases count - from
  {
    if from == count || from !in chunks then from else FirstMissing(chunks, count, from + 1)
  }

  lemma HoldingNothing<Key>(s: Session<Key>, source: Bytes)
    requires |source| == s.descriptor.byteLength
    ensures Holding(s, source, 0) == FRESH
  {
    assert Cut(s.descriptor, 0) == 0;
    assert HonestHashes(s, source, 0) == map[];
  }

  /** For every disk, whoever wrote it: resuming succeeds exactly when the checkpoint is this session's
      and the retained chunks are the sent ciphertext without a gap (and, if any is retained, in time);
      the receiver is then the one that took those chunks without a restart. */
  lemma ResumeExact<Key>(s: Session<Key>, source: Bytes, disk: Disk, now: nat)
    requires Honest(s, source)
    ensures ResumeDisk(s, disk, now).Success? <==>
      && disk.Some? && disk.value.checkpoint == Some(Checkpoint(1, s.descriptor, s.requestHash, s.expires))
      && var k := FirstMissing(disk.value.chunks, s.descriptor.chunkCount, 0);
      && Contiguous(s, source, disk.value.chunks, k) && (k == 0 || now <= s.expires)
    ensures ResumeDisk(s, disk, now).Success? ==>
      ResumeDisk(s, disk, now).value
      == Uninterrupted(s, source, now, FirstMissing(disk.value.chunks, s.descriptor.chunkCount, 0))
  {
    hide Honest, Replay, HonestChunk, Holding, Uninterrupted, ValidDescriptor, FirstMissing;
    HonestBasics(s, source);
    HoldingNothing(s, source);
    if disk.Some? && disk.value.checkpoint == Some(CheckpointOf(s)) {
      var k := FirstMissing(disk.value.chunks, s.descriptor.chunkCount, 0);
      ReplayExact(s, source, disk.value.chunks, now, 0, k);
      if ResumeDisk(s, disk, now).Success? {
        UninterruptedHolds(s, source, now, k);
      }
    }
  }

  /** What one session created is refused to every other: to another schema version, descriptor, request or expiry. */
  lemma OtherSessionRefused<Key>(s: Session<Key>, disk: Disk, checkpoint: Checkpoint, now: nat)
    requires disk.Some? && disk.value.checkpoint == Some(checkpoint)
    ensures ResumeDisk(s, disk, now) == Failure(ResumeConflict) <==>
      checkpoint.schema != 1 || checkpoint.descriptor != s.descriptor || checkpoint.requestHash != s.requestHash || checkpoint.expires != s.expires
  {
    if CheckpointFault(s, disk).None? {
      NeverConflicts(s, disk.value.chunks, now, FRESH, 0);
    }
  }

  /** Replaying retained chunks fails for other reasons. */
  lemma {:induction false} NeverConflicts<Key>(s: Session<Key>, chunks: map<nat, Bytes>, now: nat, r: Receiving, index: nat)
    ensures Replay(s, chunks, now, r, index) != Failure(ResumeConflict)
    decreases s.descriptor.chunkCount - index
  {
    hide ValidChunk, OpenChunk;
    if index < s.descriptor.chunkCount && index in chunks {
      var chunk := Rebuilt(s, index, chunks[index]);
      if chunk.Success? {
        NeverConflicts(s, chunks, now, Accept(s, r, now, chunk.value).0, index + 1);
      }
    }
  }

  /** A directory is created exactly for a good session where none is; it then holds the checkpoint and no chunk. */
  lemma CreateExact<Key>(s: Session<Key>, disk: Disk, published: bool)
    ensures Create(s, disk, published).1.Success? <==> ValidDescriptor(s.descriptor) && s.expires != 0 && disk == None && published
    ensures Create(s, disk, published) ==
      if Create(s, disk, published).1.Success? then
        (Some(Directory(Some(Checkpoint(1, s.descriptor, s.requestHash, s.expires)), map[])),
         Success(Receiving([], map[], 0, false, false)))
      else
        (disk, Failure(if !ValidDescriptor(s.descriptor) || s.expires == 0 then InvalidDescriptor
                       else if disk.Some? then ResumeConflict else Storage))
  {
    hide ValidDescriptor;
  }

  /** A gap is refused as out of order, when everything before it is good. */
  lemma GapRefused<Key>(s: Session<Key>, source: Bytes, disk: Disk, now: nat, k: nat, j: nat)
    requires Honest(s, source) && now <= s.expires
    requires disk.Some? && disk.value.checkpoint == Some(CheckpointOf(s))
    requires k < j < s.descriptor.chunkCount && k !in disk.value.chunks && j in disk.value.chunks
    requires forall i :: 0 <= i < k ==> i in disk.value.chunks && disk.value.chunks[i] == HonestChunk(s, source, i).ciphertext
    ensures ResumeDisk(s, disk, now) == Failure(OutOfOrder)
  {
    assert SessionFault(s) == None;
    UninterruptedHolds(s, source, now, 0);
    assert Holding(s, source, 0) == FRESH;
    GapStops(s, source, disk.value.chunks, now, 0, k, j);
  }

  lemma {:induction false} GapStops<Key>(s: Session<Key>, source: Bytes, chunks: map<nat, Bytes>, now: nat, index: nat, k: nat, j: nat)
    requires Honest(s, source) && now <= s.expires
    requires index <= k < j < s.descriptor.chunkCount && k !in chunks && j in chunks
    requires forall i :: index <= i < k ==> i in chunks && chunks[i] == HonestChunk(s, source, i).ciphertext
    ensures Replay(s, chunks, now, Holding(s, source, index), index) == Failure(OutOfOrder)
    decreases k - index
  {
    hide Honest, Accept, HonestChunk, Rebuilt, Holding;
    HonestBasics(s, source);
    if index < k {
      RebuiltTaken(s, source, now, index, chunks[index]);
      GapStops(s, source, chunks, now, index + 1, k, j);
    }
  }

  // ----- Every run with crashes -----

  /** The live receiver, if the process is up. */
  datatype World = World(disk: Disk, live: Option<Receiving>)

  datatype Event =
    | Begin(published: bool)
    | Restart(now: nat)
    | Take(now: nat, chunk: Chunk, stored: bool)
    | End(removal: Removal)
    | Abandon(removal: Removal)
    | Crash

  /** A crash loses the receiver and keeps the disk. A crash in the middle of taking a chunk is the
      chunk taken (or, with `stored` false, not retained) followed by a crash. */
  ghost function Advance<Key>(s: Session<Key>, w: World, e: Event): World {
    match (e, w.live)
    case (Begin(published), _) =>
      (match Create(s, w.disk, published)
       case (disk, Success(r)) => World(disk, Some(r))
       case (disk, Failure(_)) => World(disk, w.live))
    case (Restart(now), _) =>
      (match ResumeDisk(s, w.disk, now)
       case Success(r) => World(w.disk, Some(r))
       case Failure(_) => World(w.disk, None))
    case (Take(now, chunk, stored), Some(r)) =>
      var (disk, t, _) := AcceptDurably(s, w.disk, r, now, chunk, stored); World(disk, Some(t))
    case (End(removal), Some(r)) => var (disk, t, _) := FinishDurably(s, w.disk, r, removal); World(disk, Some(t))
    case (Abandon(removal), Some(r)) => var (disk, t, _) := CancelDurably(w.disk, r, removal); World(disk, Some(t))
    case (Crash, _) => World(w.disk, None)
    case _ => w
  }

  ghost function Run<Key>(s: Session<Key>, events: seq<Event>): World {
    if events == [] then World(None, None) else Advance(s, Run(s, events[..|events| - 1]), events[|events| - 1])
  }

  /** No removal was cut short. */
  ghost predicate CleanRemovals(events: seq<Event>) {
    forall i :: 0 <= i < |events| ==> CleanEvent(events[i])
  }

  ghost predicate CleanEvent(e: Event) {
    (e.End? || e.Abandon?) ==> e.removal.Removed?
  }

  /** Every retained file is what was sent; an open receiver holds exactly the retained chunks. */
  ghost predicate Faithful<Key>(s: Session<Key>, source: Bytes, w: World)
    requires |source| == s.descriptor.byteLength
  {
    && (w.disk.Some? ==> Authenticated(s, source, w.disk.value.chunks))
    && (w.live.Some? ==> Prefixed(s, source, w.live.value))
    && (w.live.Some? && !w.live.value.cancelled && !w.live.value.complete ==>
          && w.live.value == Holding(s, source, w.live.value.next)
          && w.disk.Some? && w.disk.value.checkpoint == Some(CheckpointOf(s))
          && Contiguous(s, source, w.disk.value.chunks, w.live.value.next))
  }

  ghost predicate Authenticated<Key>(s: Session<Key>, source: Bytes, chunks: map<nat, Bytes>)
    requires |source| == s.descriptor.byteLength
  {
    forall i :: i in chunks ==> i < s.descriptor.chunkCount && chunks[i] == HonestChunk(s, source, i).ciphertext
  }

  /** The directory can be resumed: its document is intact and its chunks have no gap. */
  ghost predicate Resumable<Key>(s: Session<Key>, source: Bytes, disk: Disk)
    requires |source| == s.descriptor.byteLength
  {
    disk.Some? ==> disk.value.checkpoint == Some(CheckpointOf(s)) && exists k :: Contiguous(s, source, disk.value.chunks, k)
  }

  lemma HoldingPrefixed<Key>(s: Session<Key>, source: Bytes, k: nat)
    requires |source| == s.descriptor.byteLength && k <= s.descriptor.chunkCount
    ensures Prefixed(s, source, Holding(s, source, k))
  {
  }

  lemma LeftFaithful<Key>(s: Session<Key>, source: Bytes, disk: Disk, removal: Removal)
    requires |source| == s.descriptor.byteLength
    requires disk.Some? ==> Authenticated(s, source, disk.value.chunks)
    ensures Left(disk, removal).Some? ==> Authenticated(s, source, Left(disk, removal).value.chunks)
  {
  }

  lemma TakeKeeps<Key>(s: Session<Key>, source: Bytes, w: World, e: Event)
    requires Honest(s, source) && Faithful(s, source, w) && e.Take? && w.live.Some?
    ensures Faithful(s, source, Advance(s, w, e))
    ensures Resumable(s, source, w.disk) ==> Resumable(s, source, Advance(s, w, e).disk)
  {
    hide Honest, Accept, HonestChunk, Resumable, Cut, HonestHashes;
    HonestBasics(s, source);
    var r := w.live.value;
    AcceptExact(s, source, r, e.now, e.chunk);
    var result := Accept(s, r, e.now, e.chunk);
    if result.1.Success? && result.1.value.Accepted? && e.stored {
      HonestIsValid(s, source, r.next);
      assert Advance(s, w, e).disk.value.chunks == w.disk.value.chunks[r.next := e.chunk.ciphertext];
      assert Contiguous(s, source, w.disk.value.chunks[r.next := e.chunk.ciphertext], r.next + 1);
      ResumableAt(s, source, Advance(s, w, e).disk, r.next + 1);
    } else {
      assert Advance(s, w, e).disk == w.disk;
    }
  }

  lemma ResumableAt<Key>(s: Session<Key>, source: Bytes, disk: Disk, k: nat)
    requires |source| == s.descriptor.byteLength && disk.Some?
    requires disk.value.checkpoint == Some(CheckpointOf(s)) && Contiguous(s, source, disk.value.chunks, k)
    ensures Resumable(s, source, disk)
  {
  }

  lemma RestartKeeps<Key>(s: Session<Key>, source: Bytes, w: World, e: Event)
    requires Honest(s, source) && Faithful(s, source, w) && e.Restart?
    ensures Faithful(s, source, Advance(s, w, e)) && Advance(s, w, e).disk == w.disk
  {
    ResumeExact(s, source, w.disk, e.now);
    assert |source| == s.descriptor.byteLength;
    if ResumeDisk(s, w.disk, e.now).Success? {
      var k := FirstMissing(w.disk.value.chunks, s.descriptor.chunkCount, 0);
      UninterruptedHolds(s, source, e.now, k);
      HoldingPrefixed(s, source, k);
    }
    hide Honest, ResumeDisk, Contiguous, Uninterrupted, FirstMissing, Prefixed, Authenticated;
  }

  lemma BeginKeeps<Key>(s: Session<Key>, source: Bytes, w: World, e: Event)
    requires Honest(s, source) && Faithful(s, source, w) && e.Begin?
    ensures Faithful(s, source, Advance(s, w, e))
    ensures Resumable(s, source, w.disk) ==> Resumable(s, source, Advance(s, w, e).disk)
  {
    FreshPrefixed(s, source);
    UninterruptedHolds(s, source, 0, 0);
    assert |source| == s.descriptor.byteLength;
    hide Honest, HonestChunk, Prefixed, Cut, HonestHashes;
    assert Contiguous(s, source, map[], 0);
  }

  /** What every step keeps. */
  lemma AdvanceKeeps<Key>(s: Session<Key>, source: Bytes, w: World, e: Event)
    requires Honest(s, source) && Faithful(s, source, w)
    ensures Faithful(s, source, Advance(s, w, e))
    ensures Resumable(s, source, w.disk) && CleanEvent(e) ==> Resumable(s, source, Advance(s, w, e).disk)
  {
    if e.Begin? {
      BeginKeeps(s, source, w, e);
    } else if e.Restart? {
      RestartKeeps(s, source, w, e);
    } else if w.live.Some? {
      if e.Take? {
        TakeKeeps(s, source, w, e);
      } else if e.End? {
        FinishExact(s, source, w.live.value);
        LeftFaithful(s, source, w.disk, e.removal);
        hide Honest, Contiguous, Authenticated, HonestHashes, Cut;
      } else if e.Abandon? {
        LeftFaithful(s, source, w.disk, e.removal);
        hide Honest, Contiguous, Authenticated, HonestHashes, Cut;
      }
    }
  }

  /** Over every run, with crashes anywhere and removals cut short anywhere: retained files are what was
      sent, and an open receiver is the uninterrupted one for exactly the chunks on disk. */
  lemma {:induction false} RunFaithful<Key>(s: Session<Key>, source: Bytes, events: seq<Event>)
    requires Honest(s, source)
    ensures Faithful(s, source, Run(s, events))
    ensures CleanRemovals(events) ==> Resumable(s, source, Run(s, events).disk)
  {
    if events != [] {
      var before := events[..|events| - 1];
      RunFaithful(s, source, before);
      AdvanceKeeps(s, source, Run(s, before), events[|events| - 1]);
    }
  }

  lemma FirstMissingIs<Key>(s: Session<Key>, source: Bytes, chunks: map<nat, Bytes>, k: nat)
    requires |source| == s.descriptor.byteLength && Contiguous(s, source, chunks, k)
    ensures FirstMissing(chunks, s.descriptor.chunkCount, 0) == k
  {
    var f := FirstMissing(chunks, s.descriptor.chunkCount, 0);
    assert f < k ==> f in chunks;
    assert k < f ==> k in chunks;
  }

  /** Any contiguous retained prefix resumes to the receiver holding it. */
  lemma ContiguousResumes<Key>(s: Session<Key>, source: Bytes, disk: Disk, now: nat, k: nat)
    requires Honest(s, source) && now <= s.expires
    requires disk.Some? && disk.value.checkpoint == Some(CheckpointOf(s)) && Contiguous(s, source, disk.value.chunks, k)
    ensures ResumeDisk(s, disk, now) == Success(Holding(s, source, k))
  {
    hide Honest, ResumeDisk, FirstMissing, Holding, Uninterrupted, HonestChunk;
    HonestBasics(s, source);
    FirstMissingIs(s, source, disk.value.chunks, k);
    ResumeExact(s, source, disk, now);
    UninterruptedHolds(s, source, now, k);
  }

  /** Crashing and restarting in time changes nothing for an open receiver: memory and disk come back
      exactly as they were. */
  lemma CrashThenRestart<Key>(s: Session<Key>, source: Bytes, events: seq<Event>, now: nat)
    requires Honest(s, source) && now <= s.expires
    requires var w := Run(s, events); w.live.Some? && !w.live.value.cancelled && !w.live.value.complete
    ensures Run(s, events + [Crash, Restart(now)]) == Run(s, events)
  {
    hide Honest, Prefixed, Authenticated, Contiguous, Holding, Run, Resumable, ResumeDisk;
    HonestBasics(s, source);
    RunFaithful(s, source, events);
    RunTwice(s, events, Crash, Restart(now));
    var w := Run(s, events);
    ContiguousResumes(s, source, w.disk, now, w.live.value.next);
  }

  lemma RunTwice<Key>(s: Session<Key>, events: seq<Event>, a: Event, b: Event)
    ensures Run(s, events + [a, b]) == Advance(s, Advance(s, Run(s, events), a), b)
  {
    assert (events + [a, b])[..|events| + 1] == events + [a];
    assert (events + [a])[..|events|] == events;
  }

  /** As long as no removal is cut short, whatever is on disk after any run can be resumed in time. */
  lemma AlwaysResumable<Key>(s: Session<Key>, source: Bytes, events: seq<Event>, now: nat)
    requires Honest(s, source) && CleanRemovals(events) && now <= s.expires
    ensures Run(s, events).disk.Some? ==> ResumeDisk(s, Run(s, events).disk, now).Success?
  {
    var disk := Run(s, events).disk;
    RunFaithful(s, source, events);
    hide Honest, Faithful, ResumeDisk, Contiguous, Run;
    HonestBasics(s, source);
    if disk.Some? {
      var k :| Contiguous(s, source, disk.value.chunks, k);
      ContiguousResumes(s, source, disk, now, k);
    }
  }

  /** Whatever a run did, publishing bytes means publishing the source. */
  lemma PublishesSource<Key>(s: Session<Key>, source: Bytes, events: seq<Event>, removal: Removal)
    requires Honest(s, source) && Run(s, events).live.Some?
    ensures var (_, _, r) := FinishDurably(s, Run(s, events).disk, Run(s, events).live.value, removal);
      && (r.Success? ==> r.value == source)
      && (r.Success? <==>
            && removal.Removed? && !Run(s, events).live.value.cancelled && !Run(s, events).live.value.complete
            && Run(s, events).live.value.next == s.descriptor.chunkCount)
  {
    RunFaithful(s, source, events);
    FinishExact(s, source, Run(s, events).live.value);
  }
}
