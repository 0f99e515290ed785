/**
 * The hash algorithm a key schedule is bound to, together with the primitives
 * the key schedules call but do not implement (the digest, HMAC, HKDF-Extract
 * and HKDF-Expand). They are function values: the model knows nothing about
 * them except the output lengths stated by ValidHash.
 */
module Crypto {
  import opened Bytes

  datatype HashAlg = HashAlg(
    /** `Size()`: digest length in bytes. */
    size: nat,
    /** Digest of everything written to a fresh hash state. */
    sum: seq<byte> -> seq<byte>,
    /** `hmac.New(hash, key)` fed `message`, then `Sum(nil)`. */
    mac: (seq<byte>, seq<byte>) -> seq<byte>,
    /** `hkdf.Extract(hash, ikm, salt)`. */
    extract: (seq<byte>, seq<byte>) -> seq<byte>,
    /** `hkdf.Expand(hash, prk, info, length)`. */
    expand: (seq<byte>, seq<byte>, nat) -> seq<byte>)

  /**
   * The length contracts of the primitives. Digest sizes are positive and at
   * most 255 bytes (real hashes have at most 64), so a digest always fits an
   * `opaque context<0..255>` field. HKDF-Expand yields the requested length
   * whenever the length is at most 255 digests; above that the library
   * returns an error.
   */
  ghost predicate ValidHash(H: HashAlg)
  {
    && 0 < H.size <= 255
    && (forall m :: |H.sum(m)| == H.size)
    && (forall k, m :: |H.mac(k, m)| == H.size)
    && (forall ikm, salt :: |H.extract(ikm, salt)| == H.size)
    && (forall prk, info, n: nat :: n <= 255 * H.size ==> |H.expand(prk, info, n)| == n)
  }
}
