/**
 * The TLS 1.3 key schedule of section 7.1 of RFC 8446: the HkdfLabel
 * encoding, HKDF-Expand-Label, the Extract step, Derive-Secret, the chain of
 * immutable stages Early -> Handshake -> Master with their derived traffic
 * secrets, and the exporter of section 7.5 of RFC 8446.
 */
module KeySchedule13 {
  import opened Bytes
  import opened Crypto

  /** The prefix that HkdfLabel puts in front of every label. */
  const LabelPrefix: seq<byte> := Ascii("tls13 ")

  const ResumptionBinderLabel: seq<byte> := Ascii("res binder")
  const ClientEarlyTrafficLabel: seq<byte> := Ascii("c e traffic")
  const ClientHandshakeTrafficLabel: seq<byte> := Ascii("c hs traffic")
  const ServerHandshakeTrafficLabel: seq<byte> := Ascii("s hs traffic")
  const ClientApplicationTrafficLabel: seq<byte> := Ascii("c ap traffic")
  const ServerApplicationTrafficLabel: seq<byte> := Ascii("s ap traffic")
  const EarlyExporterLabel: seq<byte> := Ascii("e exp master")
  const ExporterLabel: seq<byte> := Ascii("exp master")
  const ResumptionLabel: seq<byte> := Ascii("res master")
  /** The label of the one-way step between two stages. */
  const DerivedLabel: seq<byte> := Ascii("derived")
  /** The label of the final expansion inside Exporter. */
  const ExporterOutputLabel: seq<byte> := Ascii("exporter")

  /** Every label the key schedule itself passes to HKDF-Expand-Label. */
  const FixedLabels: seq<seq<byte>> := [
    ResumptionBinderLabel, ClientEarlyTrafficLabel, ClientHandshakeTrafficLabel,
    ServerHandshakeTrafficLabel, ClientApplicationTrafficLabel, ServerApplicationTrafficLabel,
    EarlyExporterLabel, ExporterLabel, ResumptionLabel, DerivedLabel, ExporterOutputLabel]

  /** The label and context bounds below which tls13ExpandLabel does not panic. */
  predicate Fits(lbl: seq<byte>, context: seq<byte>)
  {
    |LabelPrefix| + |lbl| <= 255 && |context| <= 255
  }

  // ---------------------------------------------------------------------
  // Label encoding

  /** The fields of an HkdfLabel structure. */
  datatype HkdfLabelFields = HkdfLabelFields(length: nat, lbl: seq<byte>, context: seq<byte>)

  /**
   * The `info` argument of HKDF-Expand-Label:
   * uint16 length, opaque label<7..255> = "tls13 " + Label, opaque context<0..255>.
   */
  function HkdfLabel(length: nat, lbl: seq<byte>, context: seq<byte>): (info: seq<byte>)
    requires Fits(lbl, context)
    ensures |info| == 10 + |lbl| + |context|
  {
    BE16(length) + [|LabelPrefix| + |lbl|] + LabelPrefix + lbl + [|context|] + context
  }

  /** Where each field of the encoding sits. */
  lemma HkdfLabelLayout(length: nat, lbl: seq<byte>, context: seq<byte>)
    requires Fits(lbl, context)
    ensures var info := HkdfLabel(length, lbl, context);
      && info[..2] == BE16(length)
      && info[2] == 6 + |lbl|
      && info[3..9] == LabelPrefix
      && info[9..9 + |lbl|] == lbl
      && info[9 + |lbl|] == |context|
      && info[10 + |lbl|..] == context
  {
  }

  /** Reads an HkdfLabel structure back, rejecting anything that is not exactly one. */
  function ParseHkdfLabel(info: seq<byte>): (r: Option<HkdfLabelFields>)
    ensures r.Some? ==> r.value.length < 65536 && Fits(r.value.lbl, r.value.context)
  {
    if |info| < 3 then None
    else
      var n: int := info[2];
      if n < 6 || |info| < 4 + n || info[3..9] != LabelPrefix then None
      else
        var c: int := info[3 + n];
        if |info| != 4 + n + c then None
        else Some(HkdfLabelFields((info[0] as int) * 256 + info[1] as int, info[9..3 + n], info[4 + n..]))
  }

  /** Parsing an encoded lbl recovers the length modulo 2^16, the lbl and the context. */
  lemma HkdfLabelRoundTrip(length: nat, lbl: seq<byte>, context: seq<byte>)
    requires Fits(lbl, context)
    ensures ParseHkdfLabel(HkdfLabel(length, lbl, context))
         == Some(HkdfLabelFields(length % 65536, lbl, context))
  {
    HkdfLabelLayout(length, lbl, context);
    var info := HkdfLabel(length, lbl, context);
    assert info[3 + info[2]] == |context|;
    assert info[9..3 + info[2]] == lbl;
  }

  /** Every structure the parser accepts is the encoding of the fields it returns. */
  lemma HkdfLabelCanonical(info: seq<byte>)
    requires ParseHkdfLabel(info).Some?
    ensures var f := ParseHkdfLabel(info).value;
      HkdfLabel(f.length, f.lbl, f.context) == info
  {
    var n := info[2] as int;
    BE16Decode(info[0], info[1]);
    assert info == info[..2] + [info[2]] + info[3..9] + info[9..3 + n] + [info[3 + n]] + info[4 + n..];
  }

  /**
   * Domain separation: two different labels, or two different contexts,
   * never produce the same HKDF info for the same requested length.
   */
  lemma HkdfLabelInjective(length: nat, lbl1: seq<byte>, c1: seq<byte>, lbl2: seq<byte>, c2: seq<byte>)
    requires Fits(lbl1, c1) && Fits(lbl2, c2)
    requires HkdfLabel(length, lbl1, c1) == HkdfLabel(length, lbl2, c2)
    ensures lbl1 == lbl2 && c1 == c2
  {
    HkdfLabelRoundTrip(length, lbl1, c1);
    HkdfLabelRoundTrip(length, lbl2, c2);
  }

  /** Bytes that tell the fixed labels apart: length and the characters at 0, 2 and 4. */
  function LabelKey(lbl: seq<byte>): (key: (int, int, int, int))
    requires |lbl| >= 5
  {
    (|lbl|, lbl[0], lbl[2], lbl[4])
  }

  /** The fixed labels all fit, and no two of them are equal. */
  lemma FixedLabelsFitAndDiffer()
    ensures forall i :: 0 <= i < |FixedLabels| ==> Fits(FixedLabels[i], Zeros(255))
    ensures forall i, j :: 0 <= i < j < |FixedLabels| ==> FixedLabels[i] != FixedLabels[j]
  {
    var keys := [
                 (10, 'r' as int, 's' as int, 'b' as int), (11, 'c' as int, 'e' as int, 't' as int),
                 (12, 'c' as int, 'h' as int, ' ' as int), (12, 's' as int, 'h' as int, ' ' as int),
                 (12, 'c' as int, 'a' as int, ' ' as int), (12, 's' as int, 'a' as int, ' ' as int),
                 (12, 'e' as int, 'e' as int, 'p' as int), (10, 'e' as int, 'p' as int, 'm' as int),
                 (10, 'r' as int, 's' as int, 'm' as int), (7, 'd' as int, 'r' as int, 'v' as int),
                 (8, 'e' as int, 'p' as int, 'r' as int)];
    forall i | 0 <= i < |FixedLabels|
      ensures |FixedLabels[i]| >= 5 && LabelKey(FixedLabels[i]) == keys[i]
    {
    }
  }

  // ---------------------------------------------------------------------
  // Expand-Label, Extract and Derive-Secret

  /**
   * HKDF-Expand-Label(secret, label, context, length). The caller must keep
   * the label and context within the one-byte length fields and the length
   * within what HKDF-Expand accepts; otherwise the source panics.
   */
  function ExpandLabel(H: HashAlg, secret: seq<byte>, lbl: seq<byte>, context: seq<byte>, length: nat)
    : (r: seq<byte>)
    requires ValidHash(H)
    requires Fits(lbl, context)
    requires length <= 255 * H.size
    ensures |r| == length
  {
    H.expand(secret, HkdfLabel(length, lbl, context), length)
  }

  /**
   * HKDF-Extract with `newSecret` as input keying material and
   * `currentSecret` as salt; an absent `newSecret` stands for a string of
   * zeros as long as a digest.
   */
  function Extract(H: HashAlg, newSecret: Option<seq<byte>>, currentSecret: seq<byte>): (r: seq<byte>)
    requires ValidHash(H)
    ensures |r| == H.size
  {
    var ikm := if newSecret.None? then Zeros(H.size) else newSecret.value;
    H.extract(ikm, currentSecret)
  }

  /** Extracting from nothing is extracting from a digest's worth of zeros. */
  lemma ExtractAbsentIsZeros(H: HashAlg, currentSecret: seq<byte>)
    requires ValidHash(H)
    ensures Extract(H, None, currentSecret) == Extract(H, Some(Zeros(H.size)), currentSecret)
    ensures Extract(H, None, currentSecret) == H.extract(Zeros(H.size), currentSecret)
  {
  }

  /** Extracting from present keying material hands it to HKDF-Extract unchanged. */
  lemma ExtractPresentPassesThrough(H: HashAlg, newSecret: seq<byte>, currentSecret: seq<byte>)
    requires ValidHash(H)
    ensures Extract(H, Some(newSecret), currentSecret) == H.extract(newSecret, currentSecret)
  {
  }

  /**
   * The running transcript hash, as the bytes written to it so far under the
   * chain's hash. Taking its digest does not reset it.
   */
  datatype Transcript = Transcript(written: seq<byte>)
  {
    /** `Sum(nil)`: the digest of everything written so far. */
    function Sum(H: HashAlg): (d: seq<byte>)
      requires ValidHash(H)
      ensures |d| == H.size
    {
      H.sum(written)
    }
  }

  /**
   * Derive-Secret(secret, label, messages): Expand-Label with the
   * transcript's digest as context and one digest as length. An absent
   * transcript is a fresh hash state, i.e. the digest of the empty string.
   */
  function DeriveSecret(H: HashAlg, secret: seq<byte>, lbl: seq<byte>, transcript: Option<Transcript>)
    : (r: seq<byte>)
    requires ValidHash(H)
    requires |LabelPrefix| + |lbl| <= 255
    ensures |r| == H.size
  {
    ExpandLabel(H, secret, lbl, TranscriptDigest(H, transcript), H.size)
  }

  /** The digest Derive-Secret uses as context: of the transcript, or of the empty string when it is absent. */
  function TranscriptDigest(H: HashAlg, transcript: Option<Transcript>): (d: seq<byte>)
    requires ValidHash(H)
    ensures |d| == H.size
  {
    var t := if transcript.None? then Transcript([]) else transcript.value;
    t.Sum(H)
  }

  /** An absent transcript behaves as an empty one, and the context is the transcript digest. */
  lemma DeriveSecretContext(H: HashAlg, secret: seq<byte>, lbl: seq<byte>, transcript: Option<Transcript>)
    requires ValidHash(H)
    requires |LabelPrefix| + |lbl| <= 255
    ensures DeriveSecret(H, secret, lbl, None) == DeriveSecret(H, secret, lbl, Some(Transcript([])))
    ensures transcript.Some? ==>
      DeriveSecret(H, secret, lbl, transcript)
        == H.expand(secret, HkdfLabel(H.size, lbl, H.sum(transcript.value.written)), H.size)
  {
  }

  // ---------------------------------------------------------------------
  // Stages

  /** A stage's invariant: the hash meets its contracts and the secret is one digest long. */
  ghost predicate ValidStage(secret: seq<byte>, hash: HashAlg)
  {
    ValidHash(hash) && |secret| == hash.size
  }

  /** The exporter master secret (early or final), from which Exporter derives keying material. */
  datatype ExporterMasterSecret = ExporterStage(secret: seq<byte>, hash: HashAlg)
  {
    ghost predicate Valid() { ValidStage(secret, hash) }

    /** Keying material exporter of section 7.5 of RFC 8446. */
    function Exporter(lbl: seq<byte>, context: seq<byte>, length: nat): (r: seq<byte>)
      requires Valid()
      requires |LabelPrefix| + |lbl| <= 255
      requires length <= 255 * hash.size
      ensures |r| == length
      ensures r == ExpandLabel(hash, DeriveSecret(hash, secret, lbl, None), ExporterOutputLabel,
                               hash.sum(context), length)
    {
      var s := DeriveSecret(hash, secret, lbl, None);
      var h := Transcript(context);
      ExpandLabel(hash, s, ExporterOutputLabel, h.Sum(hash), length)
    }
  }

  /** The master secret: application traffic, resumption and exporter secrets. */
  datatype MasterSecret = MasterStage(secret: seq<byte>, hash: HashAlg)
  {
    ghost predicate Valid() { ValidStage(secret, hash) }

    function ClientApplicationTrafficSecret(transcript: Option<Transcript>): (r: seq<byte>)
      requires Valid()
      ensures |r| == hash.size
    {
      DeriveSecret(hash, secret, ClientApplicationTrafficLabel, transcript)
    }

    function ServerApplicationTrafficSecret(transcript: Option<Transcript>): (r: seq<byte>)
      requires Valid()
      ensures |r| == hash.size
    {
      DeriveSecret(hash, secret, ServerApplicationTrafficLabel, transcript)
    }

    function ResumptionMasterSecret(transcript: Option<Transcript>): (r: seq<byte>)
      requires Valid()
      ensures |r| == hash.size
    {
      DeriveSecret(hash, secret, ResumptionLabel, transcript)
    }

    function ExporterMasterSecret(transcript: Option<Transcript>): (x: ExporterMasterSecret)
      requires Valid()
      ensures x.Valid() && x.hash == hash
    {
      ExporterStage(DeriveSecret(hash, secret, ExporterLabel, transcript), hash)
    }
  }

  /** The handshake secret: handshake traffic secrets, and the step to the master secret. */
  datatype HandshakeSecret = HandshakeStage(secret: seq<byte>, hash: HashAlg)
  {
    ghost predicate Valid() { ValidStage(secret, hash) }

    function ClientHandshakeTrafficSecret(transcript: Option<Transcript>): (r: seq<byte>)
      requires Valid()
      ensures |r| == hash.size
    {
      DeriveSecret(hash, secret, ClientHandshakeTrafficLabel, transcript)
    }

    function ServerHandshakeTrafficSecret(transcript: Option<Transcript>): (r: seq<byte>)
      requires Valid()
      ensures |r| == hash.size
    {
      DeriveSecret(hash, secret, ServerHandshakeTrafficLabel, transcript)
    }

    function MasterSecret(): (m: MasterSecret)
      requires Valid()
      ensures m.Valid() && m.hash == hash
    {
      var derived := DeriveSecret(hash, secret, DerivedLabel, None);
      MasterStage(Extract(hash, None, derived), hash)
    }
  }

  /** The early secret: binder key, early traffic and early exporter secrets, and the step to the handshake secret. */
  datatype EarlySecret = EarlyStage(secret: seq<byte>, hash: HashAlg)
  {
    ghost predicate Valid() { ValidStage(secret, hash) }

    function ResumptionBinderKey(): (r: seq<byte>)
      requires Valid()
      ensures |r| == hash.size
    {
      DeriveSecret(hash, secret, ResumptionBinderLabel, None)
    }

    function ClientEarlyTrafficSecret(transcript: Option<Transcript>): (r: seq<byte>)
      requires Valid()
      ensures |r| == hash.size
    {
      DeriveSecret(hash, secret, ClientEarlyTrafficLabel, transcript)
    }

    /** An absent shared secret (Go's nil) is extracted as a digest's worth of zeros. */
    function HandshakeSecret(sharedSecret: Option<seq<byte>>): (h: HandshakeSecret)
      requires Valid()
      ensures h.Valid() && h.hash == hash
    {
      var derived := DeriveSecret(hash, secret, DerivedLabel, None);
      HandshakeStage(Extract(hash, sharedSecret, derived), hash)
    }

    function EarlyExporterMasterSecret(transcript: Option<Transcript>): (x: ExporterMasterSecret)
      requires Valid()
      ensures x.Valid() && x.hash == hash
    {
      ExporterStage(DeriveSecret(hash, secret, EarlyExporterLabel, transcript), hash)
    }
  }

  /** The first stage, from an optional pre-shared key and no salt. */
  function NewEarlySecret(H: HashAlg, psk: Option<seq<byte>>): (s: EarlySecret)
    requires ValidHash(H)
    ensures s.Valid() && s.hash == H
  {
    EarlyStage(Extract(H, psk, []), H)
  }

  // ---------------------------------------------------------------------
  // The chain as equations

  /**
   * The step from any valid early stage to the handshake stage, in raw
   * primitives: HKDF-Extract of the shared secret (zeros when absent),
   * salted with the "derived" expansion of the early secret over the digest
   * of the empty string; a nil shared secret and an explicit zero string
   * give the same handshake secret.
   */
  lemma HandshakeStep(e: EarlySecret, sharedSecret: Option<seq<byte>>)
    requires e.Valid()
    ensures
      var H := e.hash;
      var salt := H.expand(e.secret, HkdfLabel(H.size, DerivedLabel, H.sum([])), H.size);
      && e.HandshakeSecret(sharedSecret).secret
         == H.extract(if sharedSecret.None? then Zeros(H.size) else sharedSecret.value, salt)
      && e.HandshakeSecret(sharedSecret).hash == H
    ensures e.HandshakeSecret(None) == e.HandshakeSecret(Some(Zeros(e.hash.size)))
  {
  }

  /**
   * The step from any valid handshake stage to the master stage, in raw
   * primitives: HKDF-Extract of a digest's worth of zeros, salted with the
   * "derived" expansion of the handshake secret over the digest of the
   * empty string.
   */
  lemma MasterStep(h: HandshakeSecret)
    requires h.Valid()
    ensures
      var H := h.hash;
      var salt := H.expand(h.secret, HkdfLabel(H.size, DerivedLabel, H.sum([])), H.size);
      h.MasterSecret().secret == H.extract(Zeros(H.size), salt) && h.MasterSecret().hash == H
  {
  }

  /**
   * The left column of the key schedule diagram of section 7.1 of RFC 8446,
   * written with the raw primitives: every stage is bound to the same hash,
   * and each step goes through one HKDF-Expand with the "derived" label over
   * the digest of the empty string.
   */
  lemma ScheduleChain(H: HashAlg, psk: Option<seq<byte>>, sharedSecret: Option<seq<byte>>)
    requires ValidHash(H)
    ensures
      var early := NewEarlySecret(H, psk);
      var hs := early.HandshakeSecret(sharedSecret);
      var ms := hs.MasterSecret();
      var derivedInfo := HkdfLabel(H.size, DerivedLabel, H.sum([]));
      && early.secret == H.extract(if psk.None? then Zeros(H.size) else psk.value, [])
      && hs.secret == H.extract(if sharedSecret.None? then Zeros(H.size) else sharedSecret.value,
                                H.expand(early.secret, derivedInfo, H.size))
      && ms.secret == H.extract(Zeros(H.size), H.expand(hs.secret, derivedInfo, H.size))
      && early.hash == H && hs.hash == H && ms.hash == H
  {
  }

  /**
   * Two different fixed labels never reach HKDF-Expand with the same info,
   * whatever the contexts: the secrets the stages expose are expansions of
   * one stage secret under pairwise different infos.
   */
  lemma FixedLabelsSeparated(length: nat, i: nat, j: nat, c1: seq<byte>, c2: seq<byte>)
    requires i < |FixedLabels| && j < |FixedLabels| && i != j
    requires |c1| <= 255 && |c2| <= 255
    ensures Fits(FixedLabels[i], c1) && Fits(FixedLabels[j], c2)
    ensures HkdfLabel(length, FixedLabels[i], c1) != HkdfLabel(length, FixedLabels[j], c2)
  {
    FixedLabelsFitAndDiffer();
    if HkdfLabel(length, FixedLabels[i], c1) == HkdfLabel(length, FixedLabels[j], c2) {
      HkdfLabelInjective(length, FixedLabels[i], c1, FixedLabels[j], c2);
    }
  }

  /**
   * The right-hand column of the diagram of section 7.1 of RFC 8446 for the
   * early secret: each derived secret is one HKDF-Expand of the stage secret,
   * with its own label and the transcript digest in the info.
   */
  lemma EarlyDerivations(e: EarlySecret, transcript: Option<Transcript>)
    requires e.Valid()
    ensures
      var H := e.hash;
      var d := TranscriptDigest(H, transcript);
      && e.ResumptionBinderKey() == H.expand(e.secret, HkdfLabel(H.size, ResumptionBinderLabel, H.sum([])), H.size)
      && e.ClientEarlyTrafficSecret(transcript) == H.expand(e.secret, HkdfLabel(H.size, ClientEarlyTrafficLabel, d), H.size)
      && e.EarlyExporterMasterSecret(transcript)
         == ExporterStage(H.expand(e.secret, HkdfLabel(H.size, EarlyExporterLabel, d), H.size), H)
  {
  }

  /** The same for the handshake secret's two traffic secrets. */
  lemma HandshakeDerivations(h: HandshakeSecret, transcript: Option<Transcript>)
    requires h.Valid()
    ensures
      var H := h.hash;
      var d := TranscriptDigest(H, transcript);
      && h.ClientHandshakeTrafficSecret(transcript) == H.expand(h.secret, HkdfLabel(H.size, ClientHandshakeTrafficLabel, d), H.size)
      && h.ServerHandshakeTrafficSecret(transcript) == H.expand(h.secret, HkdfLabel(H.size, ServerHandshakeTrafficLabel, d), H.size)
      && HkdfLabel(H.size, ClientHandshakeTrafficLabel, d) != HkdfLabel(H.size, ServerHandshakeTrafficLabel, d)
  {
    FixedLabelsSeparated(h.hash.size, 2, 3, TranscriptDigest(h.hash, transcript), TranscriptDigest(h.hash, transcript));
  }

  /** The same for the master secret's application traffic, resumption and exporter secrets. */
  lemma MasterDerivations(m: MasterSecret, transcript: Option<Transcript>)
    requires m.Valid()
    ensures
      var H := m.hash;
      var d := TranscriptDigest(H, transcript);
      && m.ClientApplicationTrafficSecret(transcript) == H.expand(m.secret, HkdfLabel(H.size, ClientApplicationTrafficLabel, d), H.size)
      && m.ServerApplicationTrafficSecret(transcript) == H.expand(m.secret, HkdfLabel(H.size, ServerApplicationTrafficLabel, d), H.size)
      && m.ResumptionMasterSecret(transcript) == H.expand(m.secret, HkdfLabel(H.size, ResumptionLabel, d), H.size)
      && m.ExporterMasterSecret(transcript)
         == ExporterStage(H.expand(m.secret, HkdfLabel(H.size, ExporterLabel, d), H.size), H)
      && HkdfLabel(H.size, ClientApplicationTrafficLabel, d) != HkdfLabel(H.size, ServerApplicationTrafficLabel, d)
  {
    FixedLabelsSeparated(m.hash.size, 4, 5, TranscriptDigest(m.hash, transcript), TranscriptDigest(m.hash, transcript));
  }
}
