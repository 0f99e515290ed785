/**
 * The TLS 1.2 PRF entry points of the tls package itself. They carry the same
 * algorithm as Tls12Internal: P_hash delegates to Tls12Internal.PHash, and
 * every contract here names the same specification functions as the one of
 * its Tls12Internal counterpart, so both entry points compute the same bytes
 * for the same inputs.
 */
module Tls12 {
  import opened Bytes
  import opened Crypto
  import Tls12Internal

  /** tls12pHash: fills `result` with P_hash(secret, seed), exactly as Tls12Internal.PHash. */
  method Tls12PHash(H: HashAlg, result: array<byte>, secret: seq<byte>, seed: seq<byte>)
    requires ValidHash(H)
    modifies result
    ensures result[..] == Tls12Internal.PHashOutput(H, secret, seed, result.Length)
  {
    ghost var _ := Tls12Internal.PHash(H, result, secret, seed);
  }

  /** tls12PRF: P_hash over a fresh buffer holding the label directly followed by the seed. */
  method Tls12PRF(H: HashAlg, secret: seq<byte>, lbl: seq<byte>, seed: seq<byte>, keyLen: nat)
    returns (r: seq<byte>)
    requires ValidHash(H)
    ensures |r| == keyLen
    ensures r == Tls12Internal.PrfOutput(H, secret, lbl, seed, keyLen)
  {
    var labelAndSeed := new byte[|lbl| + |seed|];
    var _ := Tls12Internal.CopyInto(labelAndSeed, 0, lbl);
    var _ := Tls12Internal.CopyInto(labelAndSeed, |lbl|, seed);
    assert labelAndSeed[..] == lbl + seed;
    var result := new byte[keyLen];
    Tls12PHash(H, result, secret, labelAndSeed[..]);
    r := result[..];
  }

  /** tls12MasterSecret: the extended master secret, exactly as Tls12Internal.MasterSecret. */
  method Tls12MasterSecret(H: HashAlg, preMasterSecret: seq<byte>, transcript: seq<byte>)
    returns (r: seq<byte>)
    requires ValidHash(H)
    ensures |r| == Tls12Internal.MasterSecretLength
    ensures r == Tls12Internal.PrfOutput(H, preMasterSecret, Tls12Internal.ExtendedMasterSecretLabel,
                                          transcript, Tls12Internal.MasterSecretLength)
  {
    r := Tls12PRF(H, preMasterSecret, Tls12Internal.ExtendedMasterSecretLabel, transcript,
                  Tls12Internal.MasterSecretLength);
  }
}
