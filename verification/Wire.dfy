/** Canonical wire primitives: big-endian lengths, length framing, bounded UTF-8 text, and the cursor
    that reads them back. */
module Wire {
  import opened Wrappers
  import opened Arithmetic
  import opened Octets

  const U32: nat := 0x1_0000_0000
  const U64: nat := 0x1_0000_0000_0000_0000
  const MAX_PLAYER_ID_BYTES: nat := 64

  datatype ProtocolError =
    | InvalidIdentifier(kind: string)
    | InvalidRoster(reason: string)
    | UnknownPlayer
    | InvalidPosition
    | UnexpectedContribution(kind: string)
    | InvalidArtifactLength(artifact: string, expected: nat, actual: nat)
    | InvalidEncoding(kind: string)
    | InvalidProof(kind: string)
    | DigestMismatch(kind: string)
    | DuplicatePosition
    | DeckConservation
    | RevealFailed

  // ----- Text -----

  predicate Trailing(b: Byte) { 0x80 <= b < 0xC0 }

  /** The length of the well-formed UTF-8 sequence `b` starts with, or zero (RFC 3629, section 4). */
  function ScalarLength(b: Bytes): (n: nat)
    ensures n <= |b|
  {
    if |b| >= 1 && b[0] < 0x80 then 1
    else if |b| >= 2 && 0xC2 <= b[0] < 0xE0 && Trailing(b[1]) then 2
    else if |b| >= 3 && 0xE0 <= b[0] < 0xF0 && Trailing(b[1]) && Trailing(b[2])
            && (b[0] == 0xE0 ==> b[1] >= 0xA0) && (b[0] == 0xED ==> b[1] < 0xA0) then 3
    else if |b| >= 4 && 0xF0 <= b[0] < 0xF5 && Trailing(b[1]) && Trailing(b[2]) && Trailing(b[3])
            && (b[0] == 0xF0 ==> b[1] >= 0x90) && (b[0] == 0xF4 ==> b[1] < 0x90) then 4
    else 0
  }

  predicate Utf8(b: Bytes) {
    b == [] || (ScalarLength(b) > 0 && Utf8(b[ScalarLength(b)..]))
  }

  type Text = b: Bytes | Utf8(b) witness []

  /** Unicode scalar values: code points that are no surrogates. */
  ghost predicate IsScalar(c: nat) { c < 0xD800 || 0xE000 <= c < 0x11_0000 }

  /** The UTF-8 bytes of one scalar value (RFC 3629, section 3). */
  ghost function EncodeScalar(c: nat): Bytes
    requires IsScalar(c)
  {
    if c < 0x80 then [c]
    else if c < 0x800 then [0xC0 + c / 64, 0x80 + c % 64]
    else if c < 0x1_0000 then [0xE0 + c / 4096, 0x80 + c / 64 % 64, 0x80 + c % 64]
    else [0xF0 + c / 0x4_0000, 0x80 + c / 4096 % 64, 0x80 + c / 64 % 64, 0x80 + c % 64]
  }

  ghost function EncodeText(scalars: seq<nat>): Bytes
    requires forall i :: 0 <= i < |scalars| ==> IsScalar(scalars[i])
  {
    if scalars == [] then [] else EncodeScalar(scalars[0]) + EncodeText(scalars[1..])
  }

  /** An encoded scalar value is recognised, whatever follows. */
  lemma EncodedIsRecognised(c: nat, rest: Bytes)
    requires IsScalar(c)
    ensures ScalarLength(EncodeScalar(c) + rest) == |EncodeScalar(c)|
  {
    var b := EncodeScalar(c) + rest;
    if c < 0x80 {
    } else if c < 0x800 {
      assert b[0] == 0xC0 + c / 64 && b[1] == 0x80 + c % 64;
    } else if c < 0x1_0000 {
      assert b[0] == 0xE0 + c / 4096 && b[1] == 0x80 + c / 64 % 64 && b[2] == 0x80 + c % 64;
    } else {
      assert b[0] == 0xF0 + c / 0x4_0000 && b[1] == 0x80 + c / 4096 % 64 && b[2] == 0x80 + c / 64 % 64 && b[3] == 0x80 + c % 64;
    }
  }

  lemma TwoBytes(w: nat, x: nat) returns (c: nat)
    requires 0xC2 <= w < 0xE0 && 0x80 <= x < 0xC0
    ensures IsScalar(c) && EncodeScalar(c) == [w, x]
  {
    c := (w - 0xC0) * 64 + (x - 0x80);
    assert c / 64 == w - 0xC0 && c % 64 == x - 0x80;
  }

  lemma ThreeBytes(w: nat, x: nat, y: nat) returns (c: nat)
    requires 0xE0 <= w < 0xF0 && 0x80 <= x < 0xC0 && 0x80 <= y < 0xC0
    requires (w == 0xE0 ==> x >= 0xA0) && (w == 0xED ==> x < 0xA0)
    ensures IsScalar(c) && EncodeScalar(c) == [w, x, y]
  {
    var high := (w - 0xE0) * 64 + (x - 0x80);
    c := high * 64 + (y - 0x80);
    assert c / 64 == high && c % 64 == y - 0x80;
    assert high / 64 == w - 0xE0 && high % 64 == x - 0x80;
    assert c / 4096 == high / 64;
  }

  lemma FourBytes(w: nat, x: nat, y: nat, z: nat) returns (c: nat)
    requires 0xF0 <= w < 0xF5 && 0x80 <= x < 0xC0 && 0x80 <= y < 0xC0 && 0x80 <= z < 0xC0
    requires (w == 0xF0 ==> x >= 0x90) && (w == 0xF4 ==> x < 0x90)
    ensures IsScalar(c) && EncodeScalar(c) == [w, x, y, z]
  {
    var high := (w - 0xF0) * 64 + (x - 0x80);
    var middle := high * 64 + (y - 0x80);
    c := middle * 64 + (z - 0x80);
    assert c / 64 == middle && c % 64 == z - 0x80;
    assert middle / 64 == high && middle % 64 == y - 0x80;
    assert high / 64 == w - 0xF0 && high % 64 == x - 0x80;
    assert c / 4096 == middle / 64 && c / 0x4_0000 == high / 64;
  }

  /** What is recognised is an encoded scalar value. */
  lemma RecognisedIsEncoded(b: Bytes) returns (c: nat)
    requires ScalarLength(b) > 0
    ensures IsScalar(c) && EncodeScalar(c) == b[..ScalarLength(b)]
  {
    var n := ScalarLength(b);
    if n == 1 {
      c := b[0];
    } else if n == 2 {
      c := TwoBytes(b[0], b[1]);
      hide EncodeScalar, IsScalar;
    } else if n == 3 {
      c := ThreeBytes(b[0], b[1], b[2]);
      hide EncodeScalar, IsScalar;
    } else {
      c := FourBytes(b[0], b[1], b[2], b[3]);
      hide EncodeScalar, IsScalar;
    }
  }

  /** Bytes are text exactly when they encode some sequence of scalar values. */
  lemma {:induction false} TextIsEncoded(b: Bytes) returns (scalars: seq<nat>)
    requires Utf8(b)
    ensures forall i :: 0 <= i < |scalars| ==> IsScalar(scalars[i])
    ensures b == EncodeText(scalars)
    decreases |b|
  {
    if b == [] {
      scalars := [];
    } else {
      var n := ScalarLength(b);
      var c := RecognisedIsEncoded(b);
      var rest := TextIsEncoded(b[n..]);
      scalars := [c] + rest;
      assert b == b[..n] + b[n..] && scalars[1..] == rest;
    }
  }

  lemma {:induction false} EncodedIsText(scalars: seq<nat>)
    requires forall i :: 0 <= i < |scalars| ==> IsScalar(scalars[i])
    ensures Utf8(EncodeText(scalars))
  {
    if scalars != [] {
      EncodedIsText(scalars[1..]);
      EncodedIsRecognised(scalars[0], EncodeText(scalars[1..]));
      var b, n := EncodeText(scalars), |EncodeScalar(scalars[0])|;
      assert b[n..] == EncodeText(scalars[1..]);
    }
  }

  /** Nonempty bounded text. */
  type PlayerId = b: Bytes | Utf8(b) && 0 < |b| <= MAX_PLAYER_ID_BYTES witness [65]

  function NewPlayerId(b: Text): (r: Result<PlayerId, ProtocolError>)
    ensures r.Success? <==> 0 < |b| <= MAX_PLAYER_ID_BYTES
    ensures r.Success? ==> r.value == b
    ensures r.Failure? ==> r.error == InvalidIdentifier("player id")
  {
    if |b| == 0 || |b| > MAX_PLAYER_ID_BYTES then Failure(InvalidIdentifier("player id")) else Success(b)
  }

  /** Bytewise lexicographic order. */
  predicate Before(a: Bytes, b: Bytes) {
    b != [] && (a == [] || a[0] < b[0] || (a[0] == b[0] && Before(a[1..], b[1..])))
  }

  lemma {:induction false} BeforeIrreflexive(a: Bytes)
    ensures !Before(a, a)
  {
    if a != [] {
      BeforeIrreflexive(a[1..]);
    }
  }

  lemma {:induction false} BeforeTransitive(a: Bytes, b: Bytes, c: Bytes)
    requires Before(a, b) && Before(b, c)
    ensures Before(a, c)
  {
    if a != [] && a[0] == b[0] == c[0] {
      BeforeTransitive(a[1..], b[1..], c[1..]);
    }
  }

  /** At the first difference the smaller byte precedes, or the shorter string ends. */
  lemma {:induction false} BeforeMeans(a: Bytes, b: Bytes)
    ensures Before(a, b) <==> exists k :: 0 <= k <= |a| && k < |b| && a[..k] == b[..k] && (k == |a| || a[k] < b[k])
  {
    if a != [] && b != [] && a[0] == b[0] {
      var s, t := a[1..], b[1..];
      BeforeMeans(s, t);
      if Before(s, t) {
        var k :| 0 <= k <= |s| && k < |t| && s[..k] == t[..k] && (k == |s| || s[k] < t[k]);
        assert a[..k + 1] == [a[0]] + s[..k] == b[..k + 1];
      }
      if k :| 0 <= k <= |a| && k < |b| && a[..k] == b[..k] && (k == |a| || a[k] < b[k]) {
        assert s[..k - 1] == a[..k][1..] == b[..k][1..] == t[..k - 1];
      }
    } else if b != [] {
      assert a[..0] == b[..0];
      forall k | 0 < k <= |a| && k < |b|
        ensures a[..k] != b[..k]
      {
        assert a[..k][0] == a[0] && b[..k][0] == b[0];
      }
    }
  }

  // ----- Printing -----

  /** The last `width` base-256 digits of `n`, most significant first. */
  function BigEndian(n: nat, width: nat): (b: Bytes)
    ensures |b| == width
  {
    if width == 0 then [] else BigEndian(n / 256, width - 1) + [n % 256]
  }

  function FromBigEndian(b: Bytes): nat {
    if b == [] then 0 else FromBigEndian(b[..|b| - 1]) * 256 + b[|b| - 1]
  }

  /** Digits and numbers below 256^width correspond one to one. */
  lemma {:induction false} BigEndianExact(n: nat, width: nat, b: Bytes)
    requires |b| == width
    ensures FromBigEndian(b) < Power(256, width)
    ensures n < Power(256, width) ==> (BigEndian(n, width) == b <==> FromBigEndian(b) == n)
  {
    if width > 0 {
      var front := b[..width - 1];
      BigEndianExact(n / 256, width - 1, front);
      assert b == front + [b[width - 1]];
      if BigEndian(n, width) == b {
        assert BigEndian(n, width)[..width - 1] == BigEndian(n / 256, width - 1);
        assert BigEndian(n, width)[width - 1] == n % 256;
      }
    }
  }

  /** The first byte is the most significant. */
  lemma {:induction false} FirstIsMostSignificant(x: Byte, b: Bytes)
    ensures FromBigEndian([x] + b) == x * Power(256, |b|) + FromBigEndian(b)
  {
    if b == [] {
      assert [x] + b == [x] && [x][..0] == [];
    } else {
      var front := b[..|b| - 1];
      FirstIsMostSignificant(x, front);
      assert ([x] + b)[..|b|] == [x] + front;
    }
  }

  function Frame(b: Bytes): Bytes { BigEndian(|b|, 4) + b }

  // ----- Reading: each reader yields what it read and what remains -----

  type Read<T> = Result<(T, Bytes), ProtocolError>

  function Take(rest: Bytes, count: nat, artifact: string): Read<Bytes> {
    if |rest| < count then Failure(InvalidEncoding(artifact)) else Success((rest[..count], rest[count..]))
  }

  function ReadByte(rest: Bytes, artifact: string): Read<Byte> {
    var (head, tail) :- Take(rest, 1, artifact);
    Success((head[0], tail))
  }

  function ReadLength(rest: Bytes, artifact: string): Read<nat> {
    var (head, tail) :- Take(rest, 4, artifact);
    Success((FromBigEndian(head), tail))
  }

  function ReadBounded(rest: Bytes, maximum: nat, artifact: string): Read<Bytes> {
    var (length, tail) :- ReadLength(rest, artifact);
    if length > maximum then Failure(InvalidEncoding(artifact)) else Take(tail, length, artifact)
  }

  function ReadExact(rest: Bytes, expected: nat, artifact: string): Read<Bytes> {
    var (length, tail) :- ReadLength(rest, artifact);
    if length != expected then Failure(InvalidArtifactLength(artifact, expected, length)) else Take(tail, length, artifact)
  }

  function ReadPlayer(rest: Bytes, artifact: string): Read<PlayerId> {
    var (bytes, tail) :- ReadBounded(rest, MAX_PLAYER_ID_BYTES, artifact);
    if !Utf8(bytes) then Failure(InvalidEncoding(artifact))
    else
      var player :- NewPlayerId(bytes);
      Success((player, tail))
  }

  function ReadDigest(rest: Bytes, artifact: string): Read<Digest> {
    var (head, tail) :- Take(rest, DIGEST_BYTES, artifact);
    Success((head, tail))
  }

  /** Reading a length inverts printing it, both ways. */
  lemma LengthExact(rest: Bytes, artifact: string, n: nat, tail: Bytes)
    ensures ReadLength(rest, artifact) == Success((n, tail)) <==> n < U32 && rest == BigEndian(n, 4) + tail
  {
    assert Power(256, 4) == U32;
    if |rest| >= 4 {
      BigEndianExact(n, 4, rest[..4]);
      assert rest == rest[..4] + rest[4..];
    }
    if rest == BigEndian(n, 4) + tail {
      assert rest[..4] == BigEndian(n, 4) && rest[4..] == tail;
    }
  }

  /** Reading a frame inverts framing, both ways. */
  lemma BoundedExact(rest: Bytes, maximum: nat, artifact: string, v: Bytes, tail: Bytes)
    requires maximum < U32
    ensures ReadBounded(rest, maximum, artifact) == Success((v, tail)) <==> |v| <= maximum && rest == Frame(v) + tail
  {
    if |v| <= maximum {
      FrameRead(rest, artifact, v, tail);
    }
  }

  lemma ExactExact(rest: Bytes, expected: nat, artifact: string, v: Bytes, tail: Bytes)
    requires expected < U32
    ensures ReadExact(rest, expected, artifact) == Success((v, tail)) <==> |v| == expected && rest == Frame(v) + tail
  {
    if |v| == expected {
      FrameRead(rest, artifact, v, tail);
    }
  }

  lemma FrameRead(rest: Bytes, artifact: string, v: Bytes, tail: Bytes)
    requires |v| < U32
    ensures rest == Frame(v) + tail <==>
      && ReadLength(rest, artifact).Success? && ReadLength(rest, artifact).value.0 == |v|
      && Take(ReadLength(rest, artifact).value.1, |v|, artifact) == Success((v, tail))
  {
    hide BigEndian, FromBigEndian;
    LengthExact(rest, artifact, |v|, v + tail);
    assert Frame(v) + tail == BigEndian(|v|, 4) + (v + tail);
    if ReadLength(rest, artifact).Success? {
      var (n, after) := ReadLength(rest, artifact).value;
      LengthExact(rest, artifact, n, after);
      if n == |v| && |after| >= n {
        assert after == after[..n] + after[n..];
      }
    }
    assert (v + tail)[..|v|] == v && (v + tail)[|v|..] == tail;
  }

  lemma PlayerExact(rest: Bytes, artifact: string, player: PlayerId, tail: Bytes)
    ensures ReadPlayer(rest, artifact) == Success((player, tail)) <==> rest == Frame(player) + tail
  {
    BoundedExact(rest, MAX_PLAYER_ID_BYTES, artifact, player, tail);
  }

  /** A printable identity is accepted exactly when its printed frame reads back as it, whatever follows. */
  lemma NewPlayerReads(b: Text, artifact: string, tail: Bytes)
    requires |b| < U32
    ensures NewPlayerId(b).Success? <==> ReadPlayer(Frame(b) + tail, artifact).Success?
    ensures NewPlayerId(b).Success? ==> ReadPlayer(Frame(b) + tail, artifact) == Success((b, tail))
  {
    hide Frame, Utf8;
    FrameRead(Frame(b) + tail, artifact, b, tail);
    var read := ReadBounded(Frame(b) + tail, MAX_PLAYER_ID_BYTES, artifact);
    assert |b| <= MAX_PLAYER_ID_BYTES ==> read == Success((b, tail));
  }

  lemma TakeExact(rest: Bytes, count: nat, artifact: string, v: Bytes, tail: Bytes)
    ensures Take(rest, count, artifact) == Success((v, tail)) <==> |v| == count && rest == v + tail
  {
    if |rest| >= count {
      assert rest == rest[..count] + rest[count..];
    }
    assert (v + tail)[..|v|] == v && (v + tail)[|v|..] == tail;
  }

  lemma ByteExact(rest: Bytes, artifact: string, b: Byte, tail: Bytes)
    ensures ReadByte(rest, artifact) == Success((b, tail)) <==> rest == [b] + tail
  {
    TakeExact(rest, 1, artifact, [b], tail);
  }

  lemma DigestExact(rest: Bytes, artifact: string, v: Digest, tail: Bytes)
    ensures ReadDigest(rest, artifact) == Success((v, tail)) <==> rest == v + tail
  {
    TakeExact(rest, DIGEST_BYTES, artifact, v, tail);
  }

  /** Equal strings with equal-length heads have equal parts. */
  lemma Split(a: Bytes, x: Bytes, b: Bytes, y: Bytes)
    requires |a| == |b| && a + x == b + y
    ensures a == b && x == y
  {
    TakeExact(a + x, |a|, "", a, x);
    TakeExact(b + y, |b|, "", b, y);
  }

  lemma FrameSplit(a: Bytes, x: Bytes, b: Bytes, y: Bytes)
    requires |a| < U32 && |b| < U32 && Frame(a) + x == Frame(b) + y
    ensures a == b && x == y
  {
    hide Frame, ReadLength, Take;
    FrameRead(Frame(a) + x, "", a, x);
    FrameRead(Frame(b) + y, "", b, y);
  }

  function Frames(list: seq<Bytes>): Bytes {
    if list == [] then [] else Frame(list[0]) + Frames(list[1..])
  }

  /** Equally many frames read back one by one. */
  lemma {:induction false} FramesSplit(us: seq<Bytes>, x: Bytes, vs: seq<Bytes>, y: Bytes)
    requires |us| == |vs| && Frames(us) + x == Frames(vs) + y
    requires forall i :: 0 <= i < |us| ==> |us[i]| < U32 && |vs[i]| < U32
    ensures us == vs && x == y
  {
    hide Frame;
    if us == [] {
      assert [] + x == x && [] + y == y;
    } else {
      assert Frames(us) + x == Frame(us[0]) + (Frames(us[1..]) + x);
      assert Frames(vs) + y == Frame(vs[0]) + (Frames(vs[1..]) + y);
      FrameSplit(us[0], Frames(us[1..]) + x, vs[0], Frames(vs[1..]) + y);
      FramesSplit(us[1..], x, vs[1..], y);
      assert us == [us[0]] + us[1..] && vs == [vs[0]] + vs[1..];
    }
  }

  lemma {:induction false} FramesJoin(list: seq<Bytes>, b: Bytes)
    ensures Frames(list + [b]) == Frames(list) + Frame(b)
  {
    hide Frame;
    if list == [] {
      assert [] + Frame(b) == Frame(b) + [];
      assert [b][1..] == [];
    } else {
      FramesJoin(list[1..], b);
      assert (list + [b])[1..] == list[1..] + [b];
    }
  }

  // ----- The cursor -----

  class Cursor {
    var remaining: Bytes

    constructor (bytes: Bytes)
      ensures remaining == bytes
    {
      remaining := bytes;
    }

    method TakeNext(count: nat, artifact: string) returns (r: Result<Bytes, ProtocolError>)
      modifies this
      ensures Reads(r, Take(old(remaining), count, artifact), remaining)
    {
      if |remaining| < count {
        return Failure(InvalidEncoding(artifact));
      }
      var head := remaining[..count];
      remaining := remaining[count..];
      r := Success(head);
    }

    method NextByte(artifact: string) returns (r: Result<Byte, ProtocolError>)
      modifies this
      ensures Reads(r, ReadByte(old(remaining), artifact), remaining)
    {
      var head :- TakeNext(1, artifact);
      r := Success(head[0]);
    }

    method NextLength(artifact: string) returns (r: Result<nat, ProtocolError>)
      modifies this
      ensures Reads(r, ReadLength(old(remaining), artifact), remaining)
    {
      var head :- TakeNext(4, artifact);
      r := Success(FromBigEndian(head));
    }

    method NextBounded(maximum: nat, artifact: string) returns (r: Result<Bytes, ProtocolError>)
      modifies this
      ensures Reads(r, ReadBounded(old(remaining), maximum, artifact), remaining)
    {
      var length :- NextLength(artifact);
      if length > maximum {
        return Failure(InvalidEncoding(artifact));
      }
      r := TakeNext(length, artifact);
    }

    method NextExact(expected: nat, artifact: string) returns (r: Result<Bytes, ProtocolError>)
      modifies this
      ensures Reads(r, ReadExact(old(remaining), expected, artifact), remaining)
    {
      var length :- NextLength(artifact);
      if length != expected {
        return Failure(InvalidArtifactLength(artifact, expected, length));
      }
      r := TakeNext(length, artifact);
    }

    method NextPlayer(artifact: string) returns (r: Result<PlayerId, ProtocolError>)
      modifies this
      ensures Reads(r, ReadPlayer(old(remaining), artifact), remaining)
    {
      var bytes :- NextBounded(MAX_PLAYER_ID_BYTES, artifact);
      if !Utf8(bytes) {
        return Failure(InvalidEncoding(artifact));
      }
      r := NewPlayerId(bytes);
    }

    method NextDigest(artifact: string) returns (r: Result<Digest, ProtocolError>)
      modifies this
      ensures Reads(r, ReadDigest(old(remaining), artifact), remaining)
    {
      var head :- TakeNext(DIGEST_BYTES, artifact);
      r := Success(head);
    }

    method Finish(artifact: string) returns (r: Result<(), ProtocolError>)
      ensures r == if remaining == [] then Success(()) else Failure(InvalidEncoding(artifact))
    {
      if remaining == [] {
        return Success(());
      }
      r := Failure(InvalidEncoding(artifact));
    }
  }

  /** The result of a cursor step and what it left agree with the reader. */
  ghost predicate Reads<T>(r: Result<T, ProtocolError>, read: Read<T>, remaining: Bytes) {
    match read
    case Failure(e) => r == Failure(e)
    case Success((v, tail)) => r == Success(v) && remaining == tail
  }
}
