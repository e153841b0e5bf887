/** The private chunked transfer: chunk arithmetic, the sender with acknowledgement credit, and the
    in-order deduplicating receiver. Cryptography is a parameter; `Honest` states what an ideal
    authenticated cipher gives a receiver whose key seals only the chunks of one source. */
module Transfer {
  import opened Wrappers
  import opened Arithmetic
  import opened Octets

  const TAG_BYTES: nat := 16
  const MAX_ARTIFACT_BYTES: nat := 64 * 1024 * 1024
  const MAX_CHUNK_BYTES: nat := 24 * 1024

  datatype Error =
    | InvalidDescriptor | InvalidChunk | InvalidAcknowledgement | Backpressure | OutOfOrder | ConflictingDuplicate
    | ResumeConflict | Expired | Cancelled | AlreadyComplete | Crypto | Integrity | Encoding | Storage

  datatype Descriptor = Descriptor(transferId: string, byteLength: nat, chunkBytes: nat, chunkCount: nat, contentHash: Digest)

  datatype Chunk = Chunk(transferId: string, requestHash: Digest, chunkIndex: nat, chunkCount: nat,
                         plaintextLength: nat, ciphertext: Bytes)

  /** What each sealed chunk is bound to. */
  datatype Associated = Associated(transferId: string, requestHash: Digest, contentHash: Digest, byteLength: nat,
                                   chunkBytes: nat, chunkCount: nat, chunkIndex: nat, plaintextLength: nat)

  /** Hash, nonce derivation and authenticated cipher. */
  datatype Scheme<!Key> = Scheme(hash: Bytes -> Digest, nonce: (string, Digest, nat) -> Bytes,
                                 seal: (Key, Bytes, Associated, Bytes) -> Bytes,
                                 open: (Key, Bytes, Associated, Bytes) -> Option<Bytes>)

  /** The parameters both ends of one transfer agree on. */
  datatype Session<!Key> = Session(scheme: Scheme<Key>, descriptor: Descriptor, requestHash: Digest, expires: nat, key: Key)

  // ----- Descriptors and chunk arithmetic -----

  predicate IdentifierChar(c: char) {
    'a' <= c <= 'z' || 'A' <= c <= 'Z' || '0' <= c <= '9' || c == '-' || c == '_' || c == '.'
  }

  predicate ValidIdentifier(id: string) {
    0 < |id| <= 64 && forall i :: 0 <= i < |id| ==> IdentifierChar(id[i])
  }

  function DivCeil(n: nat, d: nat): nat
    requires d > 0
  {
    if n % d == 0 then n / d else n / d + 1
  }

  predicate ValidDescriptor(d: Descriptor) {
    && ValidIdentifier(d.transferId)
    && 0 < d.byteLength <= MAX_ARTIFACT_BYTES
    && 0 < d.chunkBytes <= MAX_CHUNK_BYTES
    && d.chunkCount == DivCeil(d.byteLength, d.chunkBytes)
  }

  /** Where chunk `i` starts; the end of the data for every `i` at or past the chunk count. */
  function Cut(d: Descriptor, i: nat): (c: nat)
    ensures c <= d.byteLength
  {
    Min(i * d.chunkBytes, d.byteLength)
  }

  function Slice(d: Descriptor, source: Bytes, i: nat): Bytes
    requires |source| == d.byteLength
  {
    CutsAscend(d, i);
    source[Cut(d, i)..Cut(d, i + 1)]
  }

  lemma CutsAscend(d: Descriptor, i: nat)
    ensures i * d.chunkBytes + d.chunkBytes == (i + 1) * d.chunkBytes
    ensures Cut(d, i) <= Cut(d, i + 1) <= Cut(d, i) + d.chunkBytes
  {
  }

  /** Ceiling division is the least multiplier that covers. */
  lemma DivCeilExact(n: nat, d: nat, i: nat)
    requires d > 0
    ensures i < DivCeil(n, d) <==> i * d < n
    ensures DivCeil(n, d) <= n
  {
    var q, m := n / d, n % d;
    assert n == q * d + m by {
      assert d * q == q * d;
    }
    QuotientBound(n, d, q, m);
    if i < DivCeil(n, d) {
      if m == 0 {
        Scale(i + 1, q, d);
        assert (i + 1) * d == i * d + d;
      } else {
        Scale(i, q, d);
      }
    } else if m == 0 {
      Scale(q, i, d);
    } else {
      Scale(q + 1, i, d);
      assert (q + 1) * d == q * d + d;
    }
  }

  lemma QuotientBound(n: nat, d: nat, q: nat, m: nat)
    requires d > 0 && n == q * d + m
    ensures q <= n && (m > 0 ==> q < n)
  {
    Scale(1, d, q);
    assert q * d == d * q;
  }

  /** The chunk count is exact: every chunk below it is nonempty, the cuts end at the data's end,
      and the count fits 32 bits. */
  lemma ChunkArithmetic(d: Descriptor, i: nat)
    requires ValidDescriptor(d)
    ensures 0 < d.chunkCount <= U32_MAX
    ensures i < d.chunkCount ==> i * d.chunkBytes == Cut(d, i) < Cut(d, i + 1)
    ensures i >= d.chunkCount ==> Cut(d, i) == d.byteLength
  {
    DivCeilExact(d.byteLength, d.chunkBytes, 0);
    DivCeilExact(d.byteLength, d.chunkBytes, i);
    hide DivCeil;
    CutsAscend(d, i);
  }

  /** Consecutive slices join up. */
  lemma SliceExtends(d: Descriptor, source: Bytes, i: nat)
    requires |source| == d.byteLength
    ensures source[..Cut(d, i)] + Slice(d, source, i) == source[..Cut(d, i + 1)]
  {
    CutsAscend(d, i);
  }

  /** All slices together are the source. */
  lemma {:induction false} SlicesCover(d: Descriptor, source: Bytes, k: nat)
    requires |source| == d.byteLength
    ensures Joined(d, source, k) == source[..Cut(d, k)]
    ensures ValidDescriptor(d) && k == d.chunkCount ==> Joined(d, source, k) == source
  {
    if k == 0 {
      assert Cut(d, 0) == 0;
    } else {
      SlicesCover(d, source, k - 1);
      SliceExtends(d, source, k - 1);
    }
    if ValidDescriptor(d) && k == d.chunkCount {
      ChunkArithmetic(d, k);
    }
  }

  ghost function Joined(d: Descriptor, source: Bytes, k: nat): Bytes
    requires |source| == d.byteLength
  {
    if k == 0 then [] else Joined(d, source, k - 1) + Slice(d, source, k - 1)
  }

  /** Build the exact bounded descriptor for content. */
  function DescriptorFor<Key>(scheme: Scheme<Key>, transferId: string, bytes: Bytes, chunkBytes: nat): (r: Result<Descriptor, Error>)
    ensures r.Success? <==>
      && 1 <= |transferId| <= 64
      && (forall i :: 0 <= i < |transferId| ==>
            var c := transferId[i];
            'a' <= c <= 'z' || 'A' <= c <= 'Z' || '0' <= c <= '9' || c == '-' || c == '_' || c == '.')
      && 1 <= |bytes| <= 64 * 1024 * 1024 && 1 <= chunkBytes <= 24 * 1024
    ensures r.Success? ==>
      && ValidDescriptor(r.value) && r.value.byteLength == |bytes| && r.value.contentHash == scheme.hash(bytes)
      && r.value.chunkBytes == chunkBytes && r.value.transferId == transferId
  {
    if |bytes| == 0 || |bytes| > MAX_ARTIFACT_BYTES || chunkBytes == 0 || chunkBytes > MAX_CHUNK_BYTES then
      Failure(InvalidDescriptor)
    else
      var d := Descriptor(transferId, |bytes|, chunkBytes, DivCeil(|bytes|, chunkBytes), scheme.hash(bytes));
      if ValidDescriptor(d) then
        ChunkArithmetic(d, 0);
        Success(d)
      else Failure(InvalidDescriptor)
  }

  // ----- Sealing and opening -----

  function AssociatedOf<Key>(s: Session<Key>, index: nat, length: nat): Associated {
    var d := s.descriptor;
    Associated(d.transferId, s.requestHash, d.contentHash, d.byteLength, d.chunkBytes, d.chunkCount, index, length)
  }

  function NonceOf<Key>(s: Session<Key>, index: nat): Bytes {
    s.scheme.nonce(s.descriptor.transferId, s.requestHash, index)
  }

  function SealChunk<Key>(s: Session<Key>, index: nat, plaintext: Bytes): Chunk {
    Chunk(s.descriptor.transferId, s.requestHash, index, s.descriptor.chunkCount, |plaintext|,
          s.scheme.seal(s.key, NonceOf(s, index), AssociatedOf(s, index, |plaintext|), plaintext))
  }

  function OpenChunk<Key>(s: Session<Key>, chunk: Chunk): Option<Bytes> {
    s.scheme.open(s.key, NonceOf(s, chunk.chunkIndex), AssociatedOf(s, chunk.chunkIndex, chunk.plaintextLength), chunk.ciphertext)
  }

  predicate ValidChunk<Key>(s: Session<Key>, chunk: Chunk) {
    && chunk.transferId == s.descriptor.transferId
    && chunk.requestHash == s.requestHash
    && chunk.chunkCount == s.descriptor.chunkCount
    && chunk.chunkIndex < s.descriptor.chunkCount
    && 0 < chunk.plaintextLength <= s.descriptor.chunkBytes
    && |chunk.ciphertext| == chunk.plaintextLength + TAG_BYTES
    && |chunk.ciphertext| <= s.descriptor.chunkBytes + TAG_BYTES
  }

  /** Chunk `i` exactly as the sender of `source` seals it. */
  function HonestChunk<Key>(s: Session<Key>, source: Bytes, i: nat): Chunk
    requires |source| == s.descriptor.byteLength
  {
    SealChunk(s, i, Slice(s.descriptor, source, i))
  }

  /** The nonce of chunk `i`, and what it is bound to when it carries `length` bytes. */
  ghost function ChunkNonce<Key>(s: Session<Key>, i: nat): Bytes {
    s.scheme.nonce(s.descriptor.transferId, s.requestHash, i)
  }

  ghost function ChunkBinding<Key>(s: Session<Key>, i: nat, length: nat): Associated {
    Associated(s.descriptor.transferId, s.requestHash, s.descriptor.contentHash, s.descriptor.byteLength,
               s.descriptor.chunkBytes, s.descriptor.chunkCount, i, length)
  }

  /** The session describes `source`, and the cipher is ideal for it: what the sender seals opens to
      itself and is a tag longer, and under the nonce and associated data of a chunk nothing opens
      except what the sender sealed there. */
  ghost predicate Honest<Key>(s: Session<Key>, source: Bytes) {
    && ValidDescriptor(s.descriptor)
    && |source| == s.descriptor.byteLength && s.scheme.hash(source) == s.descriptor.contentHash
    && s.expires > 0
    && (forall i :: 0 <= i < s.descriptor.chunkCount ==> SealedWell(s, source, i))
    && (forall i: nat, length: nat, ciphertext: Bytes ::
          i < s.descriptor.chunkCount && s.scheme.open(s.key, ChunkNonce(s, i), ChunkBinding(s, i, length), ciphertext).Some?
          ==> ciphertext == Sealed(s, source, i) && length == |Slice(s.descriptor, source, i)|)
  }

  /** What the sender seals for chunk `i`. */
  ghost function Sealed<Key>(s: Session<Key>, source: Bytes, i: nat): Bytes
    requires |source| == s.descriptor.byteLength
  {
    var plaintext := Slice(s.descriptor, source, i);
    s.scheme.seal(s.key, ChunkNonce(s, i), ChunkBinding(s, i, |plaintext|), plaintext)
  }

  lemma HonestBasics<Key>(s: Session<Key>, source: Bytes)
    requires Honest(s, source)
    ensures ValidDescriptor(s.descriptor) && |source| == s.descriptor.byteLength
    ensures s.scheme.hash(source) == s.descriptor.contentHash && s.expires > 0
  {
  }

  ghost predicate SealedWell<Key>(s: Session<Key>, source: Bytes, i: nat)
    requires |source| == s.descriptor.byteLength
  {
    var plaintext := Slice(s.descriptor, source, i);
    && s.scheme.open(s.key, ChunkNonce(s, i), ChunkBinding(s, i, |plaintext|), Sealed(s, source, i)) == Some(plaintext)
    && |Sealed(s, source, i)| == |plaintext| + 16
  }

  /** The sealing and opening code uses the nonce and binding of its chunk, so that nothing but what was sealed opens. */
  lemma OpensOnlySealed<Key>(s: Session<Key>, source: Bytes, chunk: Chunk)
    requires Honest(s, source) && chunk.chunkIndex < s.descriptor.chunkCount && OpenChunk(s, chunk).Some?
    ensures Authentic(s, source, chunk)
  {
    assert s.scheme.open(s.key, ChunkNonce(s, chunk.chunkIndex), ChunkBinding(s, chunk.chunkIndex, chunk.plaintextLength), chunk.ciphertext).Some?;
  }

  /** Ideal ciphers exist for every described source, so what is proved from `Honest` is not vacuous. */
  lemma HonestIsPossible<Key>(d: Descriptor, source: Bytes, hash: Bytes -> Digest, requestHash: Digest, expires: nat, key: Key)
    requires ValidDescriptor(d) && |source| == d.byteLength && hash(source) == d.contentHash && expires > 0
    ensures Honest(Session(IdealScheme(d, source, hash), d, requestHash, expires, key), source)
  {
    var s: Session<Key> := Session(IdealScheme(d, source, hash), d, requestHash, expires, key);
    forall i | 0 <= i < d.chunkCount
      ensures SealedWell(s, source, i)
    {
    }
  }

  ghost function IdealScheme<Key>(d: Descriptor, source: Bytes, hash: Bytes -> Digest): Scheme<Key>
    requires |source| == d.byteLength
  {
    var tag: Bytes := seq(TAG_BYTES, _ => 0);
    Scheme(hash, (id: string, request: Digest, i: nat) => [],
           (key: Key, nonce: Bytes, a: Associated, plaintext: Bytes) => plaintext + tag,
           (key: Key, nonce: Bytes, a: Associated, ciphertext: Bytes) =>
             var slice := Slice(d, source, a.chunkIndex);
             if ciphertext == slice + tag && a.plaintextLength == |slice| then Some(slice) else None)
  }

  ghost predicate Authentic<Key>(s: Session<Key>, source: Bytes, chunk: Chunk)
    requires |source| == s.descriptor.byteLength
  {
    && chunk.ciphertext == HonestChunk(s, source, chunk.chunkIndex).ciphertext
    && chunk.plaintextLength == |Slice(s.descriptor, source, chunk.chunkIndex)|
  }

  // ----- The receiver as a step function -----

  datatype Disposition = Accepted(ciphertextHash: Digest) | Duplicate(ciphertextHash: Digest)

  datatype Receiving = Receiving(bytes: Bytes, accepted: map<nat, Digest>, next: nat, cancelled: bool, complete: bool)

  const FRESH := Receiving([], map[], 0, false, false)

  function ActiveFault(r: Receiving, expires: nat, now: nat): Option<Error> {
    if r.cancelled then Some(Cancelled)
    else if r.complete then Some(AlreadyComplete)
    else if now > expires then Some(Expired)
    else None
  }

  function Accept<Key>(s: Session<Key>, r: Receiving, now: nat, chunk: Chunk): (Receiving, Result<Disposition, Error>) {
    if ActiveFault(r, s.expires, now).Some? then (r, Failure(ActiveFault(r, s.expires, now).value))
    else if !ValidChunk(s, chunk) then (r, Failure(InvalidChunk))
    else
      var hash := s.scheme.hash(chunk.ciphertext);
      if chunk.chunkIndex < r.next then
        (r, if chunk.chunkIndex in r.accepted && r.accepted[chunk.chunkIndex] == hash then Success(Duplicate(hash))
            else Failure(ConflictingDuplicate))
      else if chunk.chunkIndex != r.next then (r, Failure(OutOfOrder))
      else
        match OpenChunk(s, chunk)
        case None => (r, Failure(Integrity))
        case Some(plaintext) =>
          if |plaintext| != chunk.plaintextLength || |r.bytes| + |plaintext| > s.descriptor.byteLength then
            (r, Failure(InvalidChunk))
          else
            (r.(bytes := r.bytes + plaintext, accepted := r.accepted[chunk.chunkIndex := hash], next := Min(r.next + 1, U32_MAX)),
             Success(Accepted(hash)))
  }

  function Finish<Key>(s: Session<Key>, r: Receiving): (Receiving, Result<Bytes, Error>) {
    if r.cancelled then (r, Failure(Cancelled))
    else if r.complete then (r, Failure(AlreadyComplete))
    else if r.next != s.descriptor.chunkCount || |r.bytes| != s.descriptor.byteLength
            || s.scheme.hash(r.bytes) != s.descriptor.contentHash then (r, Failure(Integrity))
    else (r.(bytes := [], complete := true), Success(r.bytes))
  }

  function Cancel(r: Receiving): Receiving { r.(bytes := [], accepted := map[], cancelled := true) }

  // ----- The receiver object -----

  class Receiver<Key> {
    const session: Session<Key>
    var bytes: Bytes
    var accepted: map<nat, Digest>
    var nextIndex: nat
    var cancelled: bool
    var complete: bool

    function State(): Receiving
      reads this
    {
      Receiving(bytes, accepted, nextIndex, cancelled, complete)
    }

    constructor (session: Session<Key>)
      requires ValidDescriptor(session.descriptor) && session.expires > 0
      ensures this.session == session && State() == FRESH
    {
      this.session := session;
      bytes, accepted, nextIndex, cancelled, complete := [], map[], 0, false, false;
    }

    method AcceptChunk(now: nat, chunk: Chunk) returns (r: Result<Disposition, Error>)
      modifies this
      ensures (State(), r) == Accept(session, old(State()), now, chunk)
    {
      var fault := ActiveFault(State(), session.expires, now);
      if fault.Some? {
        return Failure(fault.value);
      }
      if !ValidChunk(session, chunk) {
        return Failure(InvalidChunk);
      }
      var hash := session.scheme.hash(chunk.ciphertext);
      if chunk.chunkIndex < nextIndex {
        if chunk.chunkIndex in accepted && accepted[chunk.chunkIndex] == hash {
          return Success(Duplicate(hash));
        }
        return Failure(ConflictingDuplicate);
      }
      if chunk.chunkIndex != nextIndex {
        return Failure(OutOfOrder);
      }
      var decrypted := OpenChunk(session, chunk);
      if decrypted.None? {
        return Failure(Integrity);
      }
      var plaintext := decrypted.value;
      if |plaintext| != chunk.plaintextLength || |bytes| + |plaintext| > session.descriptor.byteLength {
        return Failure(InvalidChunk);
      }
      bytes := bytes + plaintext;
      accepted := accepted[chunk.chunkIndex := hash];
      nextIndex := Min(nextIndex + 1, U32_MAX);
      r := Success(Accepted(hash));
    }

    method FinishTransfer() returns (r: Result<Bytes, Error>)
      modifies this
      ensures (State(), r) == Finish(session, old(State()))
    {
      if cancelled {
        return Failure(Cancelled);
      }
      if complete {
        return Failure(AlreadyComplete);
      }
      if nextIndex != session.descriptor.chunkCount || |bytes| != session.descriptor.byteLength
         || session.scheme.hash(bytes) != session.descriptor.contentHash {
        return Failure(Integrity);
      }
      complete := true;
      r := Success(bytes);
      bytes := [];
    }

    method CancelTransfer()
      modifies this
      ensures State() == Cancel(old(State()))
      ensures cancelled && bytes == [] && accepted == map[] && nextIndex == old(nextIndex) && complete == old(complete)
    {
      cancelled := true;
      bytes := [];
      accepted := map[];
    }
  }

  // ----- The sender -----

  datatype Sending = Sending(bytes: Bytes, next: nat, outstanding: map<nat, Digest>, cancelled: bool)

  function NextChunk<Key>(s: Session<Key>, credit: nat, x: Sending, now: nat): (Sending, Result<Option<Chunk>, Error>) {
    if x.cancelled then (x, Failure(Cancelled))
    else if now > s.expires then (x, Failure(Expired))
    else if |x.outstanding| >= credit then (x, Failure(Backpressure))
    else if x.next == s.descriptor.chunkCount then (x, Success(None))
    else
      var start := x.next * s.descriptor.chunkBytes;
      if start > |x.bytes| then (x, Failure(InvalidDescriptor))
      else
        var chunk := SealChunk(s, x.next, x.bytes[start..Min(start + s.descriptor.chunkBytes, |x.bytes|)]);
        (x.(outstanding := x.outstanding[x.next := s.scheme.hash(chunk.ciphertext)], next := Min(x.next + 1, U32_MAX)),
         Success(Some(chunk)))
  }

  function Acknowledge(x: Sending, index: nat, hash: Digest): (Sending, Option<Error>) {
    if index in x.outstanding && x.outstanding[index] == hash then (x.(outstanding := x.outstanding - {index}), None)
    else (x, Some(InvalidAcknowledgement))
  }

  function ResumeFrom<Key>(s: Session<Key>, x: Sending, next: nat): (Sending, Option<Error>) {
    if x.outstanding != map[] || next > s.descriptor.chunkCount then (x, Some(ResumeConflict))
    else (x.(next := next), None)
  }

  function CancelSending(x: Sending): Sending { x.(bytes := [], outstanding := map[], cancelled := true) }

  class Sender<Key> {
    const session: Session<Key>
    const credit: nat
    var bytes: Bytes
    var nextIndex: nat
    var outstanding: map<nat, Digest>
    var cancelled: bool

    function State(): Sending
      reads this
    {
      Sending(bytes, nextIndex, outstanding, cancelled)
    }

    constructor (session: Session<Key>, bytes: Bytes, credit: nat)
      ensures this.session == session && this.credit == credit && State() == Sending(bytes, 0, map[], false)
    {
      this.session, this.credit, this.bytes := session, credit, bytes;
      nextIndex, outstanding, cancelled := 0, map[], false;
    }

    /** The checked way to make a sender. */
    static method Open(session: Session<Key>, bytes: Bytes, credit: nat) returns (r: Result<Sender<Key>, Error>)
      ensures r.Success? <==>
        && ValidDescriptor(session.descriptor) && session.expires != 0 && 0 < credit <= 256
        && |bytes| == session.descriptor.byteLength && session.scheme.hash(bytes) == session.descriptor.contentHash
      ensures r.Failure? ==> r.error == InvalidDescriptor
      ensures r.Success? ==>
        && fresh(r.value) && r.value.session == session && r.value.credit == credit
        && r.value.State() == Sending(bytes, 0, map[], false)
    {
      if !ValidDescriptor(session.descriptor) {
        return Failure(InvalidDescriptor);
      }
      if session.expires == 0 || credit == 0 || credit > 256 || |bytes| != session.descriptor.byteLength
         || session.scheme.hash(bytes) != session.descriptor.contentHash {
        return Failure(InvalidDescriptor);
      }
      var sender := new Sender(session, bytes, credit);
      r := Success(sender);
    }

    method Next(now: nat) returns (r: Result<Option<Chunk>, Error>)
      modifies this
      ensures (State(), r) == NextChunk(session, credit, old(State()), now)
    {
      if cancelled {
        return Failure(Cancelled);
      }
      if now > session.expires {
        return Failure(Expired);
      }
      if |outstanding| >= credit {
        return Failure(Backpressure);
      }
      if nextIndex == session.descriptor.chunkCount {
        return Success(None);
      }
      var start := nextIndex * session.descriptor.chunkBytes;
      if start > |bytes| {
        return Failure(InvalidDescriptor);
      }
      var end := Min(start + session.descriptor.chunkBytes, |bytes|);
      var chunk := SealChunk(session, nextIndex, bytes[start..end]);
      outstanding := outstanding[nextIndex := session.scheme.hash(chunk.ciphertext)];
      nextIndex := Min(nextIndex + 1, U32_MAX);
      r := Success(Some(chunk));
    }

    method AcknowledgeChunk(index: nat, hash: Digest) returns (fault: Option<Error>)
      modifies this
      ensures (State(), fault) == Acknowledge(old(State()), index, hash)
    {
      if index !in outstanding || outstanding[index] != hash {
        return Some(InvalidAcknowledgement);
      }
      outstanding := outstanding - {index};
      fault := None;
    }

    method Resume(next: nat) returns (fault: Option<Error>)
      modifies this
      ensures (State(), fault) == ResumeFrom(session, old(State()), next)
    {
      if outstanding != map[] || next > session.descriptor.chunkCount {
        return Some(ResumeConflict);
      }
      nextIndex := next;
      fault := None;
    }

    method CancelTransfer()
      modifies this
      ensures State() == CancelSending(old(State()))
      ensures cancelled && bytes == [] && outstanding == map[] && nextIndex == old(nextIndex)
    {
      cancelled := true;
      bytes := [];
      outstanding := map[];
    }
  }

  /** What the sender keeps: unacknowledged chunks are within its credit, already sent, and remembered
      by the hash of exactly what was sent. */
  ghost predicate Credited<Key>(s: Session<Key>, source: Bytes, credit: nat, x: Sending)
    requires |source| == s.descriptor.byteLength
  {
    && x.next <= s.descriptor.chunkCount
    && |x.outstanding| <= credit
    && (if x.cancelled then x.bytes == [] && x.outstanding == map[] else x.bytes == source)
    && (forall i :: i in x.outstanding ==> i < x.next && x.outstanding[i] == s.scheme.hash(HonestChunk(s, source, i).ciphertext))
  }

  lemma EmitsSlice<Key>(s: Session<Key>, source: Bytes, i: nat)
    requires ValidDescriptor(s.descriptor) && |source| == s.descriptor.byteLength && i < s.descriptor.chunkCount
    ensures var start := i * s.descriptor.chunkBytes;
      && start <= |source|
      && SealChunk(s, i, source[start..Min(start + s.descriptor.chunkBytes, |source|)]) == HonestChunk(s, source, i)
    ensures Min(i + 1, U32_MAX) == i + 1
  {
    ChunkArithmetic(s.descriptor, i);
    CutsAscend(s.descriptor, i);
  }

  /** A live sender with credit emits exactly its next slice, sealed, and one more chunk is outstanding. */
  lemma EmitsNext<Key>(s: Session<Key>, source: Bytes, credit: nat, x: Sending, now: nat)
    requires Honest(s, source) && Credited(s, source, credit, x)
    requires !x.cancelled && now <= s.expires && |x.outstanding| < credit && x.next < s.descriptor.chunkCount
    ensures var chunk := HonestChunk(s, source, x.next);
      var y := x.(outstanding := x.outstanding[x.next := s.scheme.hash(chunk.ciphertext)], next := x.next + 1);
      && NextChunk(s, credit, x, now) == (y, Success(Some(chunk)))
      && Credited(s, source, credit, y) && |y.outstanding| == |x.outstanding| + 1
  {
    hide Honest, HonestChunk, SealChunk, ValidDescriptor, OpenChunk;
    HonestBasics(s, source);
    EmitsSlice(s, source, x.next);
    assert x.next !in x.outstanding;
  }

  /** It never reports a bad descriptor, is done exactly at the chunk count, and a call that emits
      nothing changes nothing. */
  lemma NextExact<Key>(s: Session<Key>, source: Bytes, credit: nat, x: Sending, now: nat)
    requires Honest(s, source) && Credited(s, source, credit, x)
    ensures var (y, r) := NextChunk(s, credit, x, now);
      && Credited(s, source, credit, y)
      && (r.Success? <==> !x.cancelled && now <= s.expires && |x.outstanding| < credit)
      && (r.Success? ==> r.value == if x.next < s.descriptor.chunkCount then Some(HonestChunk(s, source, x.next)) else None)
      && (r.Success? && r.value.Some? ==>
            && y.next == x.next + 1 && |y.outstanding| == |x.outstanding| + 1
            && y.outstanding == x.outstanding[x.next := s.scheme.hash(r.value.value.ciphertext)])
      && (!(r.Success? && r.value.Some?) ==> y == x)
      && (r.Failure? ==> r.error == if x.cancelled then Cancelled else if now > s.expires then Expired else Backpressure)
  {
    assert |source| == s.descriptor.byteLength;
    if !x.cancelled && now <= s.expires && |x.outstanding| < credit && x.next < s.descriptor.chunkCount {
      EmitsNext(s, source, credit, x, now);
      hide Honest, HonestChunk, Credited, NextChunk;
    } else {
      assert x.next <= s.descriptor.chunkCount;
      hide Honest, HonestChunk, SealChunk, Credited;
    }
  }

  datatype SenderEvent = Emit(now: nat) | Ack(index: nat, hash: Digest) | Rewind(next: nat) | Stop

  ghost function SenderReact<Key>(s: Session<Key>, credit: nat, x: Sending, e: SenderEvent): Sending {
    match e
    case Emit(now) => NextChunk(s, credit, x, now).0
    case Ack(index, hash) => Acknowledge(x, index, hash).0
    case Rewind(next) => ResumeFrom(s, x, next).0
    case Stop => CancelSending(x)
  }

  ghost function Send<Key>(s: Session<Key>, source: Bytes, credit: nat, events: seq<SenderEvent>): Sending {
    if events == [] then Sending(source, 0, map[], false)
    else SenderReact(s, credit, Send(s, source, credit, events[..|events| - 1]), events[|events| - 1])
  }

  /** Credit and honesty hold over every run of the sender. */
  lemma {:induction false} SenderSafe<Key>(s: Session<Key>, source: Bytes, credit: nat, events: seq<SenderEvent>)
    requires Honest(s, source)
    ensures Credited(s, source, credit, Send(s, source, credit, events))
  {
    if events != [] {
      var x, e := Send(s, source, credit, events[..|events| - 1]), events[|events| - 1];
      SenderSafe(s, source, credit, events[..|events| - 1]);
      match e {
        case Emit(now) => NextExact(s, source, credit, x, now);
        case Ack(index, hash) => AcknowledgeExact(s, source, credit, x, index, hash);
        case Rewind(next) =>
        case Stop =>
      }
    }
  }

  /** What the events made the sender emit, in order. */
  ghost function Emissions<Key>(s: Session<Key>, source: Bytes, credit: nat, events: seq<SenderEvent>): seq<Chunk> {
    if events == [] then []
    else
      var before := events[..|events| - 1];
      Emissions(s, source, credit, before) + Emitted(s, credit, Send(s, source, credit, before), events[|events| - 1])
  }

  ghost function Emitted<Key>(s: Session<Key>, credit: nat, x: Sending, e: SenderEvent): seq<Chunk> {
    match e
    case Emit(now) =>
      (match NextChunk(s, credit, x, now).1
       case Success(Some(chunk)) => [chunk]
       case _ => [])
    case _ => []
  }

  /** A chunk as the protocol wants it: the slice with its number, sealed under the nonce of transfer, request
      and number, and bound to all of the descriptor, the request, the number and the length. */
  ghost predicate WellSealed<Key>(s: Session<Key>, source: Bytes, chunk: Chunk)
    requires |source| == s.descriptor.byteLength
  {
    var d, i := s.descriptor, chunk.chunkIndex;
    && i < d.chunkCount && i * d.chunkBytes < |source|
    && var plaintext := source[i * d.chunkBytes..Min((i + 1) * d.chunkBytes, |source|)];
    && chunk.transferId == d.transferId && chunk.requestHash == s.requestHash && chunk.chunkCount == d.chunkCount
    && chunk.plaintextLength == |plaintext|
    && chunk.ciphertext
       == s.scheme.seal(s.key, s.scheme.nonce(d.transferId, s.requestHash, i),
                        Associated(d.transferId, s.requestHash, d.contentHash, d.byteLength, d.chunkBytes, d.chunkCount, i, |plaintext|),
                        plaintext)
  }

  lemma HonestIsWellSealed<Key>(s: Session<Key>, source: Bytes, i: nat)
    requires ValidDescriptor(s.descriptor) && |source| == s.descriptor.byteLength && i < s.descriptor.chunkCount
    ensures WellSealed(s, source, HonestChunk(s, source, i))
  {
    ChunkArithmetic(s.descriptor, i);
    CutsAscend(s.descriptor, i);
  }

  /** Over every run, whatever is emitted, acknowledged, rewound or cancelled, every emitted chunk is well sealed. */
  lemma {:induction false} EveryEmissionSealed<Key>(s: Session<Key>, source: Bytes, credit: nat, events: seq<SenderEvent>, k: nat)
    requires Honest(s, source) && k < |Emissions(s, source, credit, events)|
    ensures WellSealed(s, source, Emissions(s, source, credit, events)[k])
  {
    var before, e := events[..|events| - 1], events[|events| - 1];
    HonestBasics(s, source);
    if k < |Emissions(s, source, credit, before)| {
      EveryEmissionSealed(s, source, credit, before, k);
    } else {
      var x := Send(s, source, credit, before);
      SenderSafe(s, source, credit, before);
      NextExact(s, source, credit, x, e.now);
      HonestIsWellSealed(s, source, x.next);
      hide Honest, WellSealed, HonestChunk, NextChunk;
    }
  }

  /** For a derivation that tells its inputs apart, nonces are equal exactly for the same chunk number of the
      same transfer and request; over every run no nonce seals two different chunks. */
  lemma NoncesNeverRepeat<Key>(s: Session<Key>, source: Bytes, credit: nat, events: seq<SenderEvent>, j: nat, k: nat)
    requires Honest(s, source)
    requires j < |Emissions(s, source, credit, events)| && k < |Emissions(s, source, credit, events)|
    requires forall m: nat, n: nat ::
      s.scheme.nonce(s.descriptor.transferId, s.requestHash, m) == s.scheme.nonce(s.descriptor.transferId, s.requestHash, n) ==> m == n
    ensures var a, b := Emissions(s, source, credit, events)[j], Emissions(s, source, credit, events)[k];
      && NonceOf(s, a.chunkIndex) == s.scheme.nonce(s.descriptor.transferId, s.requestHash, a.chunkIndex)
      && (NonceOf(s, a.chunkIndex) == NonceOf(s, b.chunkIndex) <==> a.chunkIndex == b.chunkIndex)
      && (a.chunkIndex == b.chunkIndex ==> a == b)
  {
    HonestBasics(s, source);
    EveryEmissionSealed(s, source, credit, events, j);
    EveryEmissionSealed(s, source, credit, events, k);
    hide Honest, Emissions;
  }

  /** Two sessions share a nonce exactly when they agree on transfer, request and number. */
  lemma NoncesApart<Key>(s: Session<Key>, t: Session<Key>, i: nat, j: nat)
    requires s.scheme == t.scheme
    requires forall id, request, n: nat, id', request', n': nat ::
      s.scheme.nonce(id, request, n) == s.scheme.nonce(id', request', n') ==> id == id' && request == request' && n == n'
    ensures NonceOf(s, i) == NonceOf(t, j) <==>
      s.descriptor.transferId == t.descriptor.transferId && s.requestHash == t.requestHash && i == j
  {
  }

  /** An acknowledgement counts exactly when it names an outstanding chunk by the hash of what was sent,
      and gives back one unit of credit. */
  lemma AcknowledgeExact<Key>(s: Session<Key>, source: Bytes, credit: nat, x: Sending, index: nat, hash: Digest)
    requires |source| == s.descriptor.byteLength && Credited(s, source, credit, x)
    ensures var (y, fault) := Acknowledge(x, index, hash);
      && Credited(s, source, credit, y)
      && (fault.None? <==> index in x.outstanding && hash == s.scheme.hash(HonestChunk(s, source, index).ciphertext))
      && (fault.None? ==> index !in y.outstanding && |y.outstanding| == |x.outstanding| - 1)
      && (fault.Some? ==> y == x)
  {
    if index in x.outstanding {
      assert (x.outstanding - {index}).Keys == x.outstanding.Keys - {index};
      assert |(x.outstanding - {index}).Keys| == |x.outstanding.Keys| - 1;
    }
  }

  // ----- Safety over every schedule -----

  datatype Event = Deliver(now: nat, chunk: Chunk) | TryFinish | Abort

  ghost function React<Key>(s: Session<Key>, r: Receiving, e: Event): Receiving {
    match e
    case Deliver(now, chunk) => Accept(s, r, now, chunk).0
    case TryFinish => Finish(s, r).0
    case Abort => Cancel(r)
  }

  /** The network and the caller decide everything: any chunks, in any order, any number of times. */
  ghost function Receive<Key>(s: Session<Key>, events: seq<Event>): Receiving {
    if events == [] then FRESH else React(s, Receive(s, events[..|events| - 1]), events[|events| - 1])
  }

  /** While open, the receiver holds exactly a prefix of the source in whole chunks, and remembers
      the hashes of exactly the chunks it took; once cancelled or finished it holds nothing. */
  ghost predicate Prefixed<Key>(s: Session<Key>, source: Bytes, r: Receiving)
    requires |source| == s.descriptor.byteLength
  {
    && r.next <= s.descriptor.chunkCount
    && (!r.cancelled && !r.complete ==> r.bytes == source[..Cut(s.descriptor, r.next)])
    && (r.cancelled || r.complete ==> r.bytes == [])
    && (!r.cancelled ==> r.accepted == HonestHashes(s, source, r.next))
    && (r.complete ==> r.next == s.descriptor.chunkCount)
  }

  ghost function HonestHashes<Key>(s: Session<Key>, source: Bytes, k: nat): map<nat, Digest>
    requires |source| == s.descriptor.byteLength
  {
    map i | 0 <= i < k :: s.scheme.hash(HonestChunk(s, source, i).ciphertext)
  }

  /** An honest chunk passes validation. */
  lemma HonestIsValid<Key>(s: Session<Key>, source: Bytes, i: nat)
    requires Honest(s, source) && i < s.descriptor.chunkCount
    ensures ValidChunk(s, HonestChunk(s, source, i)) && HonestChunk(s, source, i).chunkIndex == i
    ensures OpenChunk(s, HonestChunk(s, source, i)) == Some(Slice(s.descriptor, source, i))
    ensures |source[..Cut(s.descriptor, i)]| + |Slice(s.descriptor, source, i)| <= s.descriptor.byteLength
  {
    ChunkArithmetic(s.descriptor, i);
    CutsAscend(s.descriptor, i);
    assert SealedWell(s, source, i);
  }

  /** The next honest chunk passes every check. */
  lemma TakesHonest<Key>(s: Session<Key>, source: Bytes, r: Receiving, now: nat)
    requires Honest(s, source) && Prefixed(s, source, r)
    requires !r.cancelled && !r.complete && now <= s.expires && r.next < s.descriptor.chunkCount
    ensures var chunk := HonestChunk(s, source, r.next);
      Accept(s, r, now, chunk)
      == (r.(bytes := source[..Cut(s.descriptor, r.next + 1)], accepted := HonestHashes(s, source, r.next + 1), next := r.next + 1),
          Success(Accepted(s.scheme.hash(chunk.ciphertext))))
  {
    hide Honest, ValidChunk, OpenChunk, Slice, Cut, ValidDescriptor;
    HonestBasics(s, source);
    HonestIsValid(s, source, r.next);
    SliceExtends(s.descriptor, source, r.next);
    ChunkArithmetic(s.descriptor, r.next);
    assert HonestHashes(s, source, r.next + 1)
        == HonestHashes(s, source, r.next)[r.next := s.scheme.hash(HonestChunk(s, source, r.next).ciphertext)];
  }

  /** Nothing else is taken, and a chunk not taken changes nothing. */
  lemma TakesOnlyHonest<Key>(s: Session<Key>, source: Bytes, r: Receiving, now: nat, chunk: Chunk)
    requires Honest(s, source) && Prefixed(s, source, r)
    ensures var (t, result) := Accept(s, r, now, chunk);
      if result.Success? && result.value.Accepted? then
        && !r.cancelled && !r.complete && now <= s.expires
        && r.next < s.descriptor.chunkCount && chunk == HonestChunk(s, source, r.next)
      else t == r
  {
    if ValidChunk(s, chunk) && chunk.chunkIndex == r.next && OpenChunk(s, chunk).Some? {
      OpensOnlySealed(s, source, chunk);
      assert chunk == HonestChunk(s, source, r.next);
    }
    hide Honest, Authentic, OpenChunk, HonestChunk, HonestHashes, Cut;
  }

  /** Whatever is offered, an open unexpired receiver takes it exactly when it is the next honest chunk,
      and then holds one more slice; anything else leaves it unchanged. */
  lemma AcceptExact<Key>(s: Session<Key>, source: Bytes, r: Receiving, now: nat, chunk: Chunk)
    requires Honest(s, source) && Prefixed(s, source, r)
    ensures var (t, result) := Accept(s, r, now, chunk);
      && (result.Success? && result.value.Accepted? <==>
            !r.cancelled && !r.complete && now <= s.expires
            && r.next < s.descriptor.chunkCount && chunk == HonestChunk(s, source, r.next))
      && (result.Success? && result.value.Accepted? ==>
            t == r.(bytes := source[..Cut(s.descriptor, r.next + 1)], accepted := HonestHashes(s, source, r.next + 1), next := r.next + 1))
      && (!(result.Success? && result.value.Accepted?) ==> t == r)
  {
    hide Honest, HonestChunk, HonestHashes, Cut, Accept, Prefixed;
    HonestBasics(s, source);
    TakesOnlyHonest(s, source, r, now, chunk);
    if !r.cancelled && !r.complete && now <= s.expires && r.next < s.descriptor.chunkCount {
      TakesHonest(s, source, r, now);
    }
  }

  /** Redelivering a chunk that was taken is recognised; a different one with its number is refused
      unless its ciphertext collides under the hash. */
  lemma DuplicateExact<Key>(s: Session<Key>, source: Bytes, r: Receiving, now: nat, chunk: Chunk)
    requires Honest(s, source) && Prefixed(s, source, r) && !r.cancelled && !r.complete && now <= s.expires
    requires ValidChunk(s, chunk) && chunk.chunkIndex < r.next
    ensures Accept(s, r, now, chunk).0 == r
    ensures Accept(s, r, now, HonestChunk(s, source, chunk.chunkIndex)).1
         == Success(Duplicate(s.scheme.hash(HonestChunk(s, source, chunk.chunkIndex).ciphertext)))
    ensures Accept(s, r, now, chunk).1 ==
      if s.scheme.hash(chunk.ciphertext) == s.scheme.hash(HonestChunk(s, source, chunk.chunkIndex).ciphertext)
      then Success(Duplicate(s.scheme.hash(chunk.ciphertext))) else Failure(ConflictingDuplicate)
  {
    HonestIsValid(s, source, chunk.chunkIndex);
  }

  /** Whatever the cipher is worth, what is handed over has the length and the hash the descriptor promises:
      finishing checks both. */
  lemma FinishChecksContent<Key>(s: Session<Key>, r: Receiving)
    ensures Finish(s, r).1.Success? <==>
      && !r.cancelled && !r.complete && r.next == s.descriptor.chunkCount
      && |r.bytes| == s.descriptor.byteLength && s.scheme.hash(r.bytes) == s.descriptor.contentHash
    ensures Finish(s, r).1.Success? ==> Finish(s, r).1.value == r.bytes && Finish(s, r).0 == r.(bytes := [], complete := true)
    ensures Finish(s, r).1.Failure? ==>
      && Finish(s, r).0 == r
      && Finish(s, r).1.error == if r.cancelled then Cancelled else if r.complete then AlreadyComplete else Integrity
  {
  }

  /** Why a chunk is refused, first cause first. */
  lemma RefusalMeans<Key>(s: Session<Key>, source: Bytes, r: Receiving, now: nat, i: nat)
    requires Honest(s, source) && Prefixed(s, source, r) && i < s.descriptor.chunkCount
    ensures var result := Accept(s, r, now, HonestChunk(s, source, i)).1;
      && (r.cancelled ==> result == Failure(Cancelled))
      && (!r.cancelled && r.complete ==> result == Failure(AlreadyComplete))
      && (!r.cancelled && !r.complete && now > s.expires ==> result == Failure(Expired))
      && (!r.cancelled && !r.complete && now <= s.expires && i > r.next ==> result == Failure(OutOfOrder))
  {
    HonestIsValid(s, source, i);
  }

  /** Finishing succeeds exactly on an open receiver that has every chunk, and returns the source. */
  lemma FinishExact<Key>(s: Session<Key>, source: Bytes, r: Receiving)
    requires Honest(s, source) && Prefixed(s, source, r)
    ensures Finish(s, r).1.Success? <==> !r.cancelled && !r.complete && r.next == s.descriptor.chunkCount
    ensures Finish(s, r).1.Success? ==> Finish(s, r).1.value == source && Finish(s, r).0.complete
  {
    ChunkArithmetic(s.descriptor, r.next);
    if r.next == s.descriptor.chunkCount {
      assert source[..Cut(s.descriptor, r.next)] == source;
    }
  }

  /** Safety over all runs. */
  lemma {:induction false} ReceiveSafe<Key>(s: Session<Key>, source: Bytes, events: seq<Event>)
    requires Honest(s, source)
    ensures Prefixed(s, source, Receive(s, events))
  {
    hide Honest;
    if events == [] {
      FreshPrefixed(s, source);
    } else {
      ReceiveSafe(s, source, events[..|events| - 1]);
      ReactSafe(s, source, Receive(s, events[..|events| - 1]), events[|events| - 1]);
    }
  }

  lemma FreshPrefixed<Key>(s: Session<Key>, source: Bytes)
    requires Honest(s, source)
    ensures Prefixed(s, source, FRESH)
  {
    assert Cut(s.descriptor, 0) == 0;
    assert HonestHashes(s, source, 0) == map[];
  }

  lemma ReactSafe<Key>(s: Session<Key>, source: Bytes, r: Receiving, e: Event)
    requires Honest(s, source) && Prefixed(s, source, r)
    ensures Prefixed(s, source, React(s, r, e))
  {
    match e
    case Deliver(now, chunk) =>
      hide Accept, HonestHashes;
      AcceptExact(s, source, r, now, chunk);
    case TryFinish => FinishExact(s, source, r);
    case Abort =>
  }

  // ----- Progress -----

  /** How many chunks a schedule of deliveries brings forward: the honest ones, in order. */
  ghost function Matched<Key>(s: Session<Key>, source: Bytes, events: seq<Event>): nat
    requires |source| == s.descriptor.byteLength
  {
    if events == [] then 0
    else
      var k := Matched(s, source, events[..|events| - 1]);
      var e := events[|events| - 1];
      if k < s.descriptor.chunkCount && e.Deliver? && e.chunk == HonestChunk(s, source, k) then k + 1 else k
  }

  ghost predicate Timely<Key>(s: Session<Key>, events: seq<Event>) {
    forall i :: 0 <= i < |events| ==> events[i].Deliver? && events[i].now <= s.expires
  }

  /** Among arbitrary other deliveries, the receiver advances exactly with the honest chunks. */
  lemma {:induction false} ReceiveProgress<Key>(s: Session<Key>, source: Bytes, events: seq<Event>)
    requires Honest(s, source) && Timely(s, events)
    ensures var r := Receive(s, events); !r.cancelled && !r.complete && r.next == Matched(s, source, events)
  {
    if events != [] {
      hide Honest, Accept;
      var before := events[..|events| - 1];
      ReceiveProgress(s, source, before);
      ReceiveSafe(s, source, before);
      AcceptExact(s, source, Receive(s, before), events[|events| - 1].now, events[|events| - 1].chunk);
    }
  }

  /** If the honest chunks occur in order somewhere in a timely schedule, finishing returns the source. */
  lemma {:induction false} InOrderCompletes<Key>(s: Session<Key>, source: Bytes, events: seq<Event>, at: seq<nat>)
    requires Honest(s, source) && Timely(s, events) && |at| == s.descriptor.chunkCount
    requires forall i, j :: 0 <= i < j < |at| ==> at[i] < at[j]
    requires forall i :: 0 <= i < |at| ==> at[i] < |events| && events[at[i]].Deliver? && events[at[i]].chunk == HonestChunk(s, source, i)
    ensures Finish(s, Receive(s, events)).1 == Success(source)
  {
    hide Honest, Finish;
    HonestBasics(s, source);
    MatchedAtLeast(s, source, events, at, |at|);
    MatchedBound(s, source, events);
    ReceiveProgress(s, source, events);
    ReceiveSafe(s, source, events);
    FinishExact(s, source, Receive(s, events));
  }

  lemma {:induction false} MatchedBound<Key>(s: Session<Key>, source: Bytes, events: seq<Event>)
    requires |source| == s.descriptor.byteLength
    ensures Matched(s, source, events) <= s.descriptor.chunkCount
  {
    if events != [] {
      MatchedBound(s, source, events[..|events| - 1]);
    }
  }

  lemma {:induction false} MatchedAtLeast<Key>(s: Session<Key>, source: Bytes, events: seq<Event>, at: seq<nat>, k: nat)
    requires |source| == s.descriptor.byteLength && k <= |at| <= s.descriptor.chunkCount
    requires forall i, j :: 0 <= i < j < |at| ==> at[i] < at[j]
    requires forall i :: 0 <= i < k ==> at[i] < |events| && events[at[i]].Deliver? && events[at[i]].chunk == HonestChunk(s, source, i)
    ensures k <= Matched(s, source, events)
    decreases |events|
  {
    if k > 0 {
      assert at[k - 1] < |events|;
      var shorter := events[..|events| - 1];
      if at[k - 1] == |events| - 1 {
        MatchedAtLeast(s, source, shorter, at, k - 1);
      } else {
        MatchedAtLeast(s, source, shorter, at, k);
      }
    }
  }

  // ----- Both ends together -----

  datatype Ends = Ends(sending: Sending, receiving: Receiving)

  /** One round: the sender emits, the receiver takes it, and its hash is acknowledged. */
  ghost function Round<Key>(s: Session<Key>, credit: nat, now: nat, e: Ends): Ends {
    match NextChunk(s, credit, e.sending, now)
    case (x, Success(Some(chunk))) =>
      (match Accept(s, e.receiving, now, chunk)
       case (r, Success(disposition)) => Ends(Acknowledge(x, chunk.chunkIndex, disposition.ciphertextHash).0, r)
       case (r, Failure(_)) => Ends(x, r))
    case (x, _) => Ends(x, e.receiving)
  }

  ghost function Rounds<Key>(s: Session<Key>, credit: nat, now: nat, e: Ends, n: nat): Ends
    decreases n
  {
    if n == 0 then e else Round(s, credit, now, Rounds(s, credit, now, e, n - 1))
  }

  /** Both ends are open, nothing is outstanding, and the sender, at `at`, is not ahead of the receiver, at `have`. */
  ghost predicate Synchronised<Key>(s: Session<Key>, source: Bytes, credit: nat, e: Ends, at: nat, have: nat)
    requires |source| == s.descriptor.byteLength
  {
    && Credited(s, source, credit, e.sending) && Prefixed(s, source, e.receiving)
    && e.sending.outstanding == map[] && !e.sending.cancelled
    && !e.receiving.cancelled && !e.receiving.complete
    && e.sending.next == at <= have == e.receiving.next
  }

  /** One round moves the sender on; the receiver takes a new chunk and recognises one it has. */
  lemma RoundAdvances<Key>(s: Session<Key>, source: Bytes, credit: nat, now: nat, e: Ends, at: nat, have: nat)
    requires Honest(s, source) && 0 < credit && now <= s.expires
    requires Synchronised(s, source, credit, e, at, have) && at < s.descriptor.chunkCount
    ensures Synchronised(s, source, credit, Round(s, credit, now, e), at + 1, Max(have, at + 1))
  {
    var chunk := HonestChunk(s, source, at);
    NextExact(s, source, credit, e.sending, now);
    HonestIsValid(s, source, at);
    if at < have {
      DuplicateExact(s, source, e.receiving, now, chunk);
    }
    AcceptExact(s, source, e.receiving, now, chunk);
    hide Honest, SealChunk, HonestHashes, ValidDescriptor, OpenChunk, ValidChunk, NextChunk, Accept, Slice;
    var x := NextChunk(s, credit, e.sending, now).0;
    AcknowledgeExact(s, source, credit, x, at, s.scheme.hash(chunk.ciphertext));
    assert x.outstanding - {at} == map[];
  }

  /** The receiver finishes with the source and the sender has nothing left to send. */
  ghost predicate Delivered<Key>(s: Session<Key>, source: Bytes, credit: nat, now: nat, e: Ends) {
    Finish(s, e.receiving).1 == Success(source) && NextChunk(s, credit, e.sending, now).1 == Success(None)
  }

  /** From any position of a sender that is not ahead, fresh, resumed or rewound, the remaining rounds
      complete the transfer. */
  lemma {:induction false} RoundsDeliver<Key>(s: Session<Key>, source: Bytes, credit: nat, now: nat, e: Ends, at: nat, have: nat, n: nat)
    requires Honest(s, source) && 0 < credit && now <= s.expires
    requires Synchronised(s, source, credit, e, at, have) && at + n <= s.descriptor.chunkCount
    ensures Synchronised(s, source, credit, Rounds(s, credit, now, e, n), at + n, Max(have, at + n))
    ensures at + n == s.descriptor.chunkCount ==> Delivered(s, source, credit, now, Rounds(s, credit, now, e, n))
    decreases n
  {
    hide Honest, Round, Delivered, Synchronised;
    HonestBasics(s, source);
    NotAhead(s, source, credit, e, at, have);
    if n > 0 {
      RoundsDeliver(s, source, credit, now, e, at, have, n - 1);
      RoundAdvances(s, source, credit, now, Rounds(s, credit, now, e, n - 1), at + n - 1, Max(have, at + n - 1));
    }
    if at + n == s.descriptor.chunkCount {
      NothingLeft(s, source, credit, now, Rounds(s, credit, now, e, n), Max(have, at + n));
    }
  }

  lemma NotAhead<Key>(s: Session<Key>, source: Bytes, credit: nat, e: Ends, at: nat, have: nat)
    requires |source| == s.descriptor.byteLength && Synchronised(s, source, credit, e, at, have)
    ensures at <= have
  {
  }

  lemma NothingLeft<Key>(s: Session<Key>, source: Bytes, credit: nat, now: nat, e: Ends, have: nat)
    requires Honest(s, source) && 0 < credit && now <= s.expires
    requires Synchronised(s, source, credit, e, s.descriptor.chunkCount, have)
    ensures Delivered(s, source, credit, now, e)
  {
    FinishExact(s, source, e.receiving);
    NextExact(s, source, credit, e.sending, now);
    hide Honest, Finish, NextChunk, Credited;
    HonestBasics(s, source);
  }
}
