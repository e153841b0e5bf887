/** Bytes and digests. */
module Octets {

  type Byte = x: int | 0 <= x < 256
  type Bytes = seq<Byte>

  const DIGEST_BYTES: nat := 32

  /** Exactly thirty-two bytes. */
  type Digest = b: Bytes | |b| == DIGEST_BYTES witness seq(DIGEST_BYTES, _ => 0)
}
