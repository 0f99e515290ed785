# TLS key derivation: a Dafny model

This project models the key-derivation engine of a Go TLS library (a fork of
Go's `crypto/tls`) and proves properties of the model. It also models the
generic slice helpers that the library carries for older Go versions.

- **TLS 1.3 key schedule** (`tls13.go`, module `KeySchedule13` in
  `tls13.dfy`). It follows section 7.1 of RFC 8446. It covers the bit-exact
  `HkdfLabel` encoding, HKDF-Expand-Label, the Extract step that treats a
  missing secret as zeros, and Derive-Secret with an absent transcript
  treated as an empty one. It covers the immutable stages Early → Handshake →
  Master, with exporter master secrets branching off Early and Master. Each
  stage is a datatype holding `{secret, hash}`, and every step goes through
  the `"derived"` secret. It also covers the exporter of section 7.5 of
  RFC 8446.
- **TLS 1.2 PRF** (`internal/tls12/tls12.go`, module `Tls12Internal` in
  `tls12_internal.dfy`). It follows section 5 of RFC 5246 and the extended
  master secret of section 4 of RFC 7627. `PHash` fills a caller's array in
  place, one HMAC block per pass, and truncates the last block. It is proved
  equal to a pure specification (`PHashOutput`). The prefix law and the
  per-block structure `HMAC(secret, A(i) + seed)` are proved about that
  specification.
- **The package's own TLS 1.2 entry points** (`tls12.go`, module `Tls12` in
  `tls12.dfy`). The Go file repeats the same algorithm. Here `Tls12PHash`
  delegates to `Tls12Internal.PHash`, and every contract names the same
  specification function as its counterpart's contract. So both entry points
  are proved to return the same bytes.
- **Slice helpers** (`backport_slices.go`, module `Slices` in `slices.dfy`).
  Read-only scans (equality, index, contains, sortedness) are methods with
  loops over sequences. Operations that write into the backing array
  (`clearSlice`, `slicesDelete`, `slicesDeleteFunc`) work on an `array`.

Shared definitions live in `bytes.dfy` (module `Bytes`: bytes, `Option` for
Go's `nil`, ASCII constants, zero strings, the big-endian 16-bit encoding) and
`crypto.dfy` (module `Crypto`).

The hash algorithm a schedule is bound to is a `HashAlg` value. It holds the
digest size and four function values: the digest, HMAC, HKDF-Extract and
HKDF-Expand. These primitives are foreign code. The model knows only the
length contracts stated by `ValidHash`:
- the digest size is between 1 and 255;
- digests, HMAC outputs and Extract outputs are one digest long;
- HKDF-Expand returns the requested length, up to 255 digests.

A running transcript hash is modelled as the bytes written to it so far, so
that taking its digest leaves it unchanged. Go's panics are preconditions:
- a label or context too long for its one-byte length field;
- an HKDF-Expand length over 255 digests;
- slice bounds out of range.

The P_hash prefix law holds for every `k ≤ n`, not only at block boundaries
(`Tls12Internal.PHashPrefix`).

## Model

| member | source | states |
|---|---|---|
| `Bytes.BE16` | tls13.go:34 | the two bytes are big-endian `length` modulo 2^16 (the `uint16` cast) |
| `Bytes.BE16Decode` | tls13.go:34 | the 16-bit encoding is invertible: two bytes read as a big-endian number encode back to themselves |
| `Bytes.Zeros` | tls13.go:48-50 | `make([]byte, n)`: exactly n bytes, all zero |
| `KeySchedule13.HkdfLabel` | tls13.go:33-39 | the info passed to HKDF-Expand is `2 + 1 + 6 + |label| + 1 + |context|` bytes long |
| `KeySchedule13.HkdfLabelLayout` | tls13.go:33-39 | the info is BE16(length), then the byte `6 + |label|`, then "tls13 ", then the label, then the byte `|context|`, then the context, each at its fixed offset |
| `KeySchedule13.ParseHkdfLabel` | tls13.go:33-39 | a successful parse returns a length below 2^16, a label that fits with its prefix in 255 bytes, and a context of at most 255 bytes |
| `KeySchedule13.HkdfLabelRoundTrip` | tls13.go:33-39 | parsing an encoded label gives back `length mod 2^16`, the label and the context |
| `KeySchedule13.HkdfLabelCanonical` | tls13.go:33-39 | every byte string the parser accepts is exactly the encoding of the fields it returns |
| `KeySchedule13.HkdfLabelInjective` | tls13.go:33-39 | for one length, equal encodings imply equal labels and equal contexts (domain separation) |
| `KeySchedule13.FixedLabelsFitAndDiffer` | tls13.go:65-75 | every fixed label, including "derived" and "exporter", satisfies the length check of line 22, and no two fixed labels are equal |
| `KeySchedule13.FixedLabelsSeparated` | tls13.go:65-75 | two different fixed labels give different HKDF info for every pair of contexts |
| `KeySchedule13.ExpandLabel` | tls13.go:21-45 | returns exactly `length` bytes; callable only within the bounds whose violation panics |
| `KeySchedule13.Extract` | tls13.go:47-56 | the result is one digest long |
| `KeySchedule13.ExtractAbsentIsZeros` | tls13.go:48-51 | an absent new secret is replaced by a zero string of the digest size, with `currentSecret` as salt |
| `KeySchedule13.ExtractPresentPassesThrough` | tls13.go:47-51 | a present new secret reaches HKDF-Extract unchanged, with `currentSecret` as salt |
| `KeySchedule13.Transcript.Sum` | tls13.go:62 | a transcript's digest is one digest long |
| `KeySchedule13.TranscriptDigest` | tls13.go:59-62 | the context Derive-Secret uses is one digest long, whether or not a transcript is given |
| `KeySchedule13.DeriveSecret` | tls13.go:58-63 | the output is one digest long, the transcript's digest size |
| `KeySchedule13.DeriveSecretContext` | tls13.go:58-63 | an absent transcript is the same as a fresh, empty one; the context is the transcript digest and the length is the digest size |
| `KeySchedule13.NewEarlySecret` | tls13.go:82-87 | the early secret is a valid stage bound to the given hash |
| `KeySchedule13.EarlySecret.ResumptionBinderKey` | tls13.go:89-91 | the binder key is one digest long |
| `KeySchedule13.EarlySecret.ClientEarlyTrafficSecret` | tls13.go:95-97 | the client early traffic secret is one digest long |
| `KeySchedule13.EarlySecret.HandshakeSecret` | tls13.go:104-110 | the handshake stage is valid and keeps the parent's hash binding; the shared secret is optional, as Go's nil slice (its value is `KeySchedule13.HandshakeStep`) |
| `KeySchedule13.EarlySecret.EarlyExporterMasterSecret` | tls13.go:171-176 | the early exporter stage is valid and keeps the parent's hash binding |
| `KeySchedule13.HandshakeSecret.ClientHandshakeTrafficSecret` | tls13.go:114-116 | the client handshake traffic secret is one digest long |
| `KeySchedule13.HandshakeSecret.ServerHandshakeTrafficSecret` | tls13.go:120-122 | the server handshake traffic secret is one digest long |
| `KeySchedule13.HandshakeSecret.MasterSecret` | tls13.go:129-135 | the master stage is valid and keeps the parent's hash binding |
| `KeySchedule13.MasterSecret.ClientApplicationTrafficSecret` | tls13.go:139-141 | the client application traffic secret is one digest long |
| `KeySchedule13.MasterSecret.ServerApplicationTrafficSecret` | tls13.go:145-147 | the server application traffic secret is one digest long |
| `KeySchedule13.MasterSecret.ResumptionMasterSecret` | tls13.go:151-153 | the resumption master secret is one digest long |
| `KeySchedule13.MasterSecret.ExporterMasterSecret` | tls13.go:162-167 | the exporter stage is valid and keeps the parent's hash binding |
| `KeySchedule13.ExporterMasterSecret.Exporter` | tls13.go:178-183 | returns exactly `length` bytes: Expand-Label with the fixed label "exporter" of Derive-Secret(secret, label, empty transcript), with the digest of the context as context |
| `KeySchedule13.HandshakeStep` | tls13.go:104-110 | for any valid early stage, the handshake secret is HKDF-Extract of the shared secret (a digest of zeros when it is nil, tls13.go:48-50) salted with HKDF-Expand of the early secret over the "derived" label and the empty-string digest; a nil shared secret and an explicit zero string give the same stage |
| `KeySchedule13.MasterStep` | tls13.go:129-135 | for any valid handshake stage, the master secret is HKDF-Extract of a digest of zeros salted with HKDF-Expand of the handshake secret over the "derived" label and the empty-string digest, under the same hash |
| `KeySchedule13.ScheduleChain` | tls13.go:82-135 | the Early → Handshake → Master chain in terms of the raw primitives: PSK-or-zeros and shared-secret-or-zeros, then "derived" expansions over the empty-string digest; every stage bound to the same hash |
| `KeySchedule13.EarlyDerivations` | tls13.go:89-176 | the binder key, the client early traffic secret and the early exporter master secret are each one HKDF-Expand of the early secret with their own label and the transcript digest |
| `KeySchedule13.HandshakeDerivations` | tls13.go:114-122 | both handshake traffic secrets are HKDF-Expand of one secret over different infos |
| `KeySchedule13.MasterDerivations` | tls13.go:139-167 | the application traffic, resumption and exporter master secrets as HKDF-Expand of the master secret; the client and server infos differ |
| `Tls12Internal.A` | internal/tls12/tls12.go:26-28 | the chain `A(0) = seed`, `A(i) = HMAC(secret, A(i-1))`, as `a` is first computed and then advanced at internal/tls12/tls12.go:38-40; every `A(i)` with `i > 0` is one digest long |
| `Tls12Internal.Block` | internal/tls12/tls12.go:30-34 | each output block `HMAC(secret, A(i) + seed)` is one digest long |
| `Tls12Internal.Fill` | internal/tls12/tls12.go:30-41 | the bytes still to produce have exactly the requested length |
| `Tls12Internal.PHashOutput` | internal/tls12/tls12.go:25-42 | P_hash truncated to n bytes has exactly n bytes |
| `Tls12Internal.PrfOutput` | internal/tls12/tls12.go:14-21 | the PRF output is exactly `keyLen` bytes of P_hash over `label + seed` |
| `Tls12Internal.FillStep` | internal/tls12/tls12.go:30-36 | one pass produces `min(remaining, digest size)` bytes of the current block, and the rest follows from the next block |
| `Tls12Internal.FillPrefix` | internal/tls12/tls12.go:30-41 | a shorter fill is a prefix of a longer one from the same block |
| `Tls12Internal.PHashPrefix` | internal/tls12/tls12.go:30-41 | for `k ≤ n`, the first k bytes of the n-byte output are the k-byte output |
| `Tls12Internal.FillAt` | internal/tls12/tls12.go:30-41 | byte r of block q of a fill is byte r of that block's HMAC |
| `Tls12Internal.PHashBlocks` | internal/tls12/tls12.go:26-41 | output byte `q*size + r` is byte r of `HMAC(secret, A(q+1) + seed)`, where `A(1) = HMAC(secret, seed)` and `A(i+1) = HMAC(secret, A(i))` |
| `Tls12Internal.CopyInto` | internal/tls12/tls12.go:35 | Go's `copy`: copies `min(room, |src|)` bytes at the offset and leaves every other byte alone |
| `Tls12Internal.PassesIsCeil` | internal/tls12/tls12.go:30-36 | the number of loop passes over n bytes is `ceil(n / digest size)` |
| `Tls12Internal.ProgressStep` | internal/tls12/tls12.go:30-41 | one pass writes the current block truncated to `min(remaining, digest size)` bytes and advances A, keeping the loop's state consistent with the output |
| `Tls12Internal.ProgressDone` | internal/tls12/tls12.go:30 | when nothing remains, the buffer is the whole output and the pass count is `Passes` |
| `Tls12Internal.PHash` | internal/tls12/tls12.go:25-42 | the whole buffer equals P_hash of its length, whatever it held before; only the buffer is modified; the loop makes `Passes(len, size)` passes |
| `Tls12Internal.PRF` | internal/tls12/tls12.go:14-22 | returns P_hash over the label directly followed by the seed, exactly `keyLen` bytes |
| `Tls12Internal.MasterSecret` | internal/tls12/tls12.go:44-51 | returns exactly 48 bytes: the PRF with label "extended master secret" over the transcript |
| `Tls12.Tls12PHash` | tls12.go:25-42 | fills the buffer with the same P_hash output as `Tls12Internal.PHash` |
| `Tls12.Tls12PRF` | tls12.go:14-22 | exactly `keyLen` bytes, the same output as `Tls12Internal.PRF` |
| `Tls12.Tls12MasterSecret` | tls12.go:47-51 | exactly 48 bytes, the same output as `Tls12Internal.MasterSecret` |
| `Slices.FlattenLength` | backport_slices.go:7-23 | the concatenation is as long as the sum of the parts' lengths |
| `Slices.FlattenAt` | backport_slices.go:19-21 | part i of the concatenation starts where the parts before it end |
| `Slices.KeepMembers` | backport_slices.go:115-129 | an element survives deletion exactly when it is in the slice and `del` is false for it |
| `Slices.KeepNone` | backport_slices.go:116-119 | when no element is to be deleted, nothing is removed |
| `Slices.KeepSnoc` | backport_slices.go:121-126 | one more scanned element adds itself to the survivors exactly when `del` is false for it |
| `Slices.AdjacentSortedIsSorted` | backport_slices.go:139-146 | no adjacent pair out of order implies every pair is in order |
| `Slices.Concat` | backport_slices.go:7-23 | the in-order concatenation of the arguments, as long as their lengths together |
| `Slices.Equal` | backport_slices.go:36-46 | true exactly when the lengths match and every position holds equal elements |
| `Slices.EqualFunc` | backport_slices.go:48-59 | true exactly when the lengths match and `eq` holds at every position |
| `Slices.Clone` | backport_slices.go:61-67 | nil stays nil; otherwise a new backing array with the same contents |
| `Slices.Index` | backport_slices.go:69-76 | the smallest i with `s[i] == v`, or -1 exactly when v does not occur; always in `[-1, |s|)` |
| `Slices.IndexFunc` | backport_slices.go:78-85 | the smallest i with `f(s[i])`, or -1 when there is none |
| `Slices.Contains` | backport_slices.go:87-89 | true exactly when v occurs, which is when `Index` finds it |
| `Slices.ContainsFunc` | backport_slices.go:91-93 | true exactly when some element satisfies f |
| `Slices.IsSorted` | backport_slices.go:139-146 | true exactly when no `x[i] < x[i-1]`; then the slice is sorted |
| `Slices.IsSortedFunc` | backport_slices.go:148-155 | true exactly when `cmp(x[i], x[i-1]) >= 0` for every adjacent pair |
| `Slices.Clear` | backport_slices.go:95-100 | every element of the window becomes the zero value; the rest is untouched |
| `Slices.Delete` | backport_slices.go:102-113 | returns `s[..i] + s[j..]`, zeroes the vacated `j - i` tail elements, and leaves `s` unchanged when `i == j` |
| `Slices.DeleteFunc` | backport_slices.go:115-129 | returns exactly the elements with `!del(e)` in their original order, and zeroes the backing array beyond them |

## Left out

- HMAC, HKDF-Extract, HKDF-Expand and the hash functions are foreign code. They are function values whose only known property is their output length. As a result, known-answer vectors cannot be stated.
- The claim that different shared secrets give different handshake secrets depends on HKDF-Extract being collision-free, which is a cryptographic assumption. The model proves only that different labels give different HKDF info (`HkdfLabelInjective`, `FixedLabelsSeparated`).
- An error from `hkdf.Extract` is not modelled. Its only causes are internal misuse, so `Extract` always returns a value. The one `hkdf.Expand` error, a length over 255 digests, is a precondition.
- Digest sizes outside 1..255 are excluded by `ValidHash`. With a size of 0, the Go P_hash loop would never end.
- The `nil` salt passed by `tls13NewEarlySecret` is modelled as the empty string. HMAC pads the key, so this equals a digest of zeros.
- The transcript is the bytes written to a hash of the chain's own algorithm. A transcript under a different algorithm and the mutability of the `hash.Hash` object are not modelled.
- `tls13TestingOnlyExporterSecret` is a test-only field accessor.
- Constant-time handling and zeroing of secrets in memory cannot be expressed in the model.
- KeySchedule13.EarlySecret.ResumptionBinderKey: its ensures states only the output length. The full equation is `KeySchedule13.EarlyDerivations`.
- KeySchedule13.EarlySecret.ClientEarlyTrafficSecret: its ensures states only the output length. The full equation is `KeySchedule13.EarlyDerivations`.
- KeySchedule13.HandshakeSecret.ClientHandshakeTrafficSecret: its ensures states only the output length. The full equation is `KeySchedule13.HandshakeDerivations`.
- KeySchedule13.HandshakeSecret.ServerHandshakeTrafficSecret: its ensures states only the output length. The full equation is `KeySchedule13.HandshakeDerivations`.
- KeySchedule13.MasterSecret.ClientApplicationTrafficSecret: its ensures states only the output length. The full equation is `KeySchedule13.MasterDerivations`.
- KeySchedule13.MasterSecret.ServerApplicationTrafficSecret: its ensures states only the output length. The full equation is `KeySchedule13.MasterDerivations`.
- KeySchedule13.MasterSecret.ResumptionMasterSecret: its ensures states only the output length. The full equation is `KeySchedule13.MasterDerivations`.
- KeySchedule13.ExpandLabel: its ensures states only the output length. Its info argument is `HkdfLabel`, whose layout and round trip are proved separately.
- Tls12Internal.PHash: the number of passes is a ghost result, since the Go function returns nothing. Its value `Passes` is shown to be `ceil(n / size)` by `Tls12Internal.PassesIsCeil`.
- Negative Go lengths (`length`, `keyLen`) are not modelled, because lengths are `nat`. In Go they make `make` panic or are rejected by HKDF.
- `slicesConcat`'s size check (`size < 0` on integer overflow) and its use of `slicesGrow` are not modelled. Integers here do not overflow, and capacity is not observable.
- `slicesGrow`, `slicesSort` and `slicesSortFunc` are left out. The first only changes capacity, and the other two delegate to `sort.Slice`.
- Slices are modelled as whole sequences or arrays. Capacity beyond the length, and aliasing between overlapping slices, are not modelled.
- `slicesIsSorted` is over integers with `<`. The NaN ordering of `cmpLess` for floats (`backport_cmp.go`) is left out, and `slicesEqual` does not model NaN either.
- `backport_crypto.go` (signer dispatch), `backport_errors.go` (`errors.As` wrapper) and `handshake_client_go123_test.go` (test helper) are left out. None of them has behaviour to specify.
