/**
 * The TLS 1.2 PRF of section 5 of RFC 5246 and the extended master secret of
 * section 4 of RFC 7627, as the package internal/tls12 implements them:
 * P_hash fills a caller's buffer block by block, the last block truncated.
 */
module Tls12Internal {
  import opened Bytes
  import opened Crypto

  /** The TLS 1.2 master secret length in bytes. */
  const MasterSecretLength: nat := 48
  const ExtendedMasterSecretLabel: seq<byte> := Ascii("extended master secret")

  // ---------------------------------------------------------------------
  // Specification

  /** A(0) = seed, A(i) = HMAC(secret, A(i-1)). */
  function A(H: HashAlg, secret: seq<byte>, seed: seq<byte>, i: nat): (a: seq<byte>)
    ensures ValidHash(H) && i > 0 ==> |a| == H.size
  {
    if i == 0 then seed else H.mac(secret, A(H, secret, seed, i - 1))
  }

  /** Output block i (from 1): HMAC(secret, A(i) + seed). */
  function Block(H: HashAlg, secret: seq<byte>, seed: seq<byte>, i: nat): (b: seq<byte>)
    requires ValidHash(H)
    ensures |b| == H.size
  {
    H.mac(secret, A(H, secret, seed, i) + seed)
  }

  /** The n output bytes that remain when block i is the next one to be produced. */
  function Fill(H: HashAlg, secret: seq<byte>, seed: seq<byte>, i: nat, n: nat): (r: seq<byte>)
    requires ValidHash(H)
    ensures |r| == n
    decreases n
  {
    if n == 0 then []
    else if n <= H.size then Block(H, secret, seed, i)[..n]
    else Block(H, secret, seed, i) + Fill(H, secret, seed, i + 1, n - H.size)
  }

  /** P_hash(secret, seed) truncated to n bytes. */
  function PHashOutput(H: HashAlg, secret: seq<byte>, seed: seq<byte>, n: nat): (r: seq<byte>)
    requires ValidHash(H)
    ensures |r| == n
  {
    Fill(H, secret, seed, 1, n)
  }

  /** PRF(secret, label, seed) = P_hash(secret, label + seed), the label without a length prefix. */
  function PrfOutput(H: HashAlg, secret: seq<byte>, lbl: seq<byte>, seed: seq<byte>, n: nat): (r: seq<byte>)
    requires ValidHash(H)
    ensures |r| == n
  {
    PHashOutput(H, secret, lbl + seed, n)
  }

  /** Producing m more bytes is one block, truncated to what is left, and then the rest. */
  lemma FillStep(H: HashAlg, secret: seq<byte>, seed: seq<byte>, i: nat, m: nat)
    requires ValidHash(H) && m > 0
    ensures var k := if m < H.size then m else H.size;
      Fill(H, secret, seed, i, m) == Block(H, secret, seed, i)[..k] + Fill(H, secret, seed, i + 1, m - k)
  {
  }

  /** Prefix law: a shorter request yields a prefix of a longer one. */
  lemma {:induction false} FillPrefix(H: HashAlg, secret: seq<byte>, seed: seq<byte>, i: nat, k: nat, n: nat)
    requires ValidHash(H) && k <= n
    ensures Fill(H, secret, seed, i, k) == Fill(H, secret, seed, i, n)[..k]
    decreases n
  {
    if k == 0 {
    } else if n <= H.size {
    } else if k <= H.size {
      assert Fill(H, secret, seed, i, n)[..k] == Block(H, secret, seed, i)[..k];
    } else {
      FillPrefix(H, secret, seed, i + 1, k - H.size, n - H.size);
      var b := Block(H, secret, seed, i);
      var rest := Fill(H, secret, seed, i + 1, n - H.size);
      assert (b + rest)[..k] == b + rest[..k - H.size];
    }
  }

  /** Prefix law for P_hash: for k <= n the first k of n output bytes are the k-byte output. */
  lemma PHashPrefix(H: HashAlg, secret: seq<byte>, seed: seq<byte>, k: nat, n: nat)
    requires ValidHash(H) && k <= n
    ensures PHashOutput(H, secret, seed, k) == PHashOutput(H, secret, seed, n)[..k]
  {
    FillPrefix(H, secret, seed, 1, k, n);
  }

  /** Byte r of output block q (from 0) is byte r of HMAC(secret, A(q+1) + seed). */
  lemma {:induction false} FillAt(H: HashAlg, secret: seq<byte>, seed: seq<byte>, i: nat, n: nat, q: nat, r: nat)
    requires ValidHash(H) && r < H.size && q * H.size + r < n
    ensures Fill(H, secret, seed, i, n)[q * H.size + r] == Block(H, secret, seed, i + q)[r]
    decreases q
  {
    if q > 0 {
      assert n > H.size by {
        assert q * H.size >= H.size;
      }
      assert (q - 1) * H.size + r == q * H.size + r - H.size;
      FillAt(H, secret, seed, i + 1, n - H.size, q - 1, r);
    }
  }

  /** The blocks of P_hash: byte q*size + r of the output is byte r of HMAC(secret, A(q+1) + seed). */
  lemma PHashBlocks(H: HashAlg, secret: seq<byte>, seed: seq<byte>, n: nat, q: nat, r: nat)
    requires ValidHash(H) && r < H.size && q * H.size + r < n
    ensures PHashOutput(H, secret, seed, n)[q * H.size + r] == H.mac(secret, A(H, secret, seed, q + 1) + seed)[r]
  {
    FillAt(H, secret, seed, 1, n, q, r);
  }

  // ---------------------------------------------------------------------
  // Implementation

  /**
   * Go's `copy(dst[off:], src)`: copies as many bytes as both sides have and
   * returns that count.
   */
  method CopyInto(dst: array<byte>, off: nat, src: seq<byte>) returns (n: nat)
    requires off <= dst.Length
    modifies dst
    ensures n == if dst.Length - off < |src| then dst.Length - off else |src|
    ensures dst[..] == old(dst[..off]) + src[..n] + old(dst[off + n..])
    ensures dst[..off + n] == old(dst[..off]) + src[..n]
  {
    n := if dst.Length - off < |src| then dst.Length - off else |src|;
    forall k | off <= k < off + n {
      dst[k] := src[k - off];
    }
    assert dst[..off + n] == dst[..off] + dst[off..off + n];
    assert dst[..] == dst[..off + n] + dst[off + n..];
  }

  /** The passes P_hash makes over n bytes: one per block, the last one possibly partial. */
  function Passes(n: nat, size: nat): (p: nat)
    requires size > 0
    decreases n
  {
    if n == 0 then 0 else if n <= size then 1 else 1 + Passes(n - size, size)
  }

  /** The number of passes is ceil(n / size). */
  lemma {:induction false} PassesIsCeil(n: nat, size: nat)
    requires size > 0
    ensures n <= Passes(n, size) * size
    ensures Passes(n, size) == 0 || (Passes(n, size) - 1) * size < n
    decreases n
  {
    if n > size {
      PassesIsCeil(n - size, size);
      var p := Passes(n - size, size);
      assert (p + 1) * size == p * size + size;
      assert p * size == (p - 1) * size + size;
    }
  }

  /**
   * The state of the P_hash loop after `passes` passes: `off` bytes of `r`
   * are written, `a` is the next A value, and the written prefix followed by
   * what is still to come is the whole output.
   */
  ghost predicate Progress(H: HashAlg, secret: seq<byte>, seed: seq<byte>, r: seq<byte>, off: nat, passes: nat, a: seq<byte>)
    requires ValidHash(H)
  {
    && off <= |r|
    && a == A(H, secret, seed, passes + 1)
    && passes + Passes(|r| - off, H.size) == Passes(|r|, H.size)
    && r[..off] + Fill(H, secret, seed, passes + 1, |r| - off) == PHashOutput(H, secret, seed, |r|)
  }

  /** One pass keeps Progress: it writes the current block, truncated to what is left, and advances A. */
  lemma ProgressStep(H: HashAlg, secret: seq<byte>, seed: seq<byte>, r: seq<byte>, off: nat, passes: nat, a: seq<byte>,
                     r': seq<byte>, n: nat)
    requires ValidHash(H) && Progress(H, secret, seed, r, off, passes, a) && off < |r|
    requires n == if |r| - off < H.size then |r| - off else H.size
    requires |r'| == |r| && r'[..off + n] == r[..off] + H.mac(secret, a + seed)[..n]
    ensures Progress(H, secret, seed, r', off + n, passes + 1, H.mac(secret, a))
  {
    FillStep(H, secret, seed, passes + 1, |r| - off);
  }

  /** When every byte is written, the buffer is the output. */
  lemma ProgressDone(H: HashAlg, secret: seq<byte>, seed: seq<byte>, r: seq<byte>, passes: nat, a: seq<byte>)
    requires ValidHash(H) && Progress(H, secret, seed, r, |r|, passes, a)
    ensures r == PHashOutput(H, secret, seed, |r|) && passes == Passes(|r|, H.size)
  {
    assert r[..|r|] == r;
  }

  /**
   * pHash: fills `result` with P_hash(secret, seed). Each pass writes one
   * block, truncated to what is left, and advances A. The ghost count of
   * passes is Passes, that is ceil(|result| / digest size) by PassesIsCeil.
   */
  method PHash(H: HashAlg, result: array<byte>, secret: seq<byte>, seed: seq<byte>) returns (ghost passes: nat)
    requires ValidHash(H)
    modifies result
    ensures result[..] == PHashOutput(H, secret, seed, result.Length)
    ensures passes == Passes(result.Length, H.size)
  {
    var a := H.mac(secret, seed);
    var off := 0;
    passes := 0;
    while off < result.Length
      invariant Progress(H, secret, seed, result[..], off, passes, a)
      decreases result.Length - off
    {
      var b := H.mac(secret, a + seed);
      ghost var before := result[..];
      var n := CopyInto(result, off, b);
      ProgressStep(H, secret, seed, before, off, passes, a, result[..], n);
      off := off + n;
      a := H.mac(secret, a);
      passes := passes + 1;
    }
    ProgressDone(H, secret, seed, result[..], passes, a);
  }

  /** PRF: P_hash over a fresh buffer holding the label directly followed by the seed. */
  method PRF(H: HashAlg, secret: seq<byte>, lbl: seq<byte>, seed: seq<byte>, keyLen: nat) returns (r: seq<byte>)
    requires ValidHash(H)
    ensures r == PrfOutput(H, secret, lbl, seed, keyLen)
  {
    var labelAndSeed := new byte[|lbl| + |seed|];
    var _ := CopyInto(labelAndSeed, 0, lbl);
    var _ := CopyInto(labelAndSeed, |lbl|, seed);
    assert labelAndSeed[..] == lbl + seed;
    var result := new byte[keyLen];
    ghost var _ := PHash(H, result, secret, labelAndSeed[..]);
    r := result[..];
  }

  /** MasterSecret: the 48-byte extended master secret of RFC 7627. */
  method MasterSecret(H: HashAlg, preMasterSecret: seq<byte>, transcript: seq<byte>) returns (r: seq<byte>)
    requires ValidHash(H)
    ensures |r| == 48
    ensures r == PrfOutput(H, preMasterSecret, ExtendedMasterSecretLabel, transcript, MasterSecretLength)
  {
    r := PRF(H, preMasterSecret, ExtendedMasterSecretLabel, transcript, MasterSecretLength);
  }
}
