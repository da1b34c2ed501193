/** The cryptographic libraries, as values: BLAKE3-256 and Ed25519 (section 5.1
    of RFC 8032). Nothing is known about them except what `Sound` says. */
module Crypto {
  import opened Bytes

  datatype Suite = Suite(
    hash: Bytes -> Hash,
    publicKey: Bytes -> Key,
    sign: (Bytes, Bytes) -> Signature,
    verify: (Key, Bytes, Signature) -> bool)

  /** A signature made with a secret verifies under that secret's public key. */
  ghost predicate Sound(c: Suite) {
    forall secret: Bytes, m: Bytes :: c.verify(c.publicKey(secret), m, c.sign(secret, m))
  }

  /** The signature of n is not taken for one of m. Signatures have 64 bytes, so no scheme
      does this for all pairs of messages; it is only ever asked of two at hand. */
  ghost predicate TellsApart(c: Suite, secret: Bytes, m: Bytes, n: Bytes) {
    c.verify(c.publicKey(secret), m, c.sign(secret, n)) ==> m == n
  }

  function Ascii(s: string): (b: Bytes)
    ensures |b| == |s|
  {
    seq(|s|, i requires 0 <= i < |s| => s[i] as int % 256)
  }

  function ZeroHash(): Hash { seq(32, _ => 0) }
  function ZeroKey(): Key { seq(32, _ => 0) }
  function ZeroSignature(): Signature { seq(64, _ => 0) }
  function ZeroWork(): WorkId { seq(16, _ => 0) }
}
