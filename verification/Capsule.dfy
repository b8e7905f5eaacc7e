/** Envelopes as the crypto layer reads them: the payload commitment, the checks,
    the two decoders and the length framing of a capsule file. */
module Capsule {
  import opened Bytes
  import opened ChunkCipher
  import opened Wire
  import opened Errors
  import opened Io
  import opened Postcard
  import opened Primitives
  import opened Protocol

  const MAX_ENVELOPE_SIZE: nat := 1024 * 1024
  const MAX_RECIPIENTS: nat := 64

  // ---- The payload commitment ----

  /** The fields that the payload of a v2 capsule commits to. */
  datatype Committed = Committed(
    header: EnvelopeHeader, plaintextLen: u64, nonce: b24, secondaryNonce: Option<b12>,
    metadata: bytes, contentType: Option<ContentType>, publicLabel: Option<Str>, policyOverridden: bool)

  function CommittedOf(e: Envelope): Committed {
    Committed(e.header, e.plaintextLen, e.nonce, e.secondaryNonce, e.metadata, e.contentType, e.publicLabel,
      e.policyOverridden)
  }

  type CommittedParts = (EnvelopeHeader,
    (u64, (b24, (Option<b12>, (bytes, (Option<ContentType>, (Option<Str>, bool)))))))

  function CommittedMake(t: CommittedParts): Committed {
    Committed(t.0, t.1.0, t.1.1.0, t.1.1.1.0, t.1.1.1.1.0, t.1.1.1.1.1.0, t.1.1.1.1.1.1.0, t.1.1.1.1.1.1.1)
  }

  function CommittedSplit(c: Committed): CommittedParts {
    (c.header, (c.plaintextLen,
      (c.nonce, (c.secondaryNonce, (c.metadata, (c.contentType, (c.publicLabel, c.policyOverridden)))))))
  }

  function CommittedCodec(): Codec<Committed> {
    MapCodec(PairCodec(HeaderCodec(), PairCodec(U64Codec(), PairCodec(B24Codec(), PairCodec(OptionCodec(B12Codec()),
      PairCodec(BlobCodec(), PairCodec(OptionCodec(ContentTypeCodec()), PairCodec(StrOption(), BoolCodec()))))))),
      CommittedMake, CommittedSplit)
  }

  lemma CommittedGood()
    ensures Good(CommittedCodec())
  {
    hide Good, NonEmpty, PairCodec, MapCodec, OptionCodec, HeaderCodec, U64Codec, B24Codec, B12Codec, BlobCodec,
      ContentTypeCodec, StrOption, BoolCodec;
    HeaderGood();
    FixedGood();
    IntegersGood();
    StringsGood();
    EnumsGood();
    AnnotationsGood();
    OptionGood(B12Codec());
    OptionGood(ContentTypeCodec());
    var c1 := PairCodec(StrOption(), BoolCodec());
    var c2 := PairCodec(OptionCodec(ContentTypeCodec()), c1);
    var c3 := PairCodec(BlobCodec(), c2);
    var c4 := PairCodec(OptionCodec(B12Codec()), c3);
    var c5 := PairCodec(B24Codec(), c4);
    var c6 := PairCodec(U64Codec(), c5);
    PairGood(StrOption(), BoolCodec());
    PairGood(OptionCodec(ContentTypeCodec()), c1);
    PairGood(BlobCodec(), c2);
    PairGood(OptionCodec(B12Codec()), c3);
    PairGood(B24Codec(), c4);
    PairGood(U64Codec(), c5);
    PairGood(HeaderCodec(), c6);
    MapGood(PairCodec(HeaderCodec(), c6), CommittedMake, CommittedSplit);
  }

  function PayloadAadDomain(): bytes { Ascii("Lvau payload AAD v2\0") }

  /** What is hashed: the header alone in v1, all committed fields in v2. */
  function CommitmentPreimage(e: Envelope): Option<bytes> {
    if e.header.version == LEGACY_VERSION then Some(HeaderCodec().enc(e.header))
    else if e.header.version == CURRENT_VERSION then Some(PayloadAadDomain() + CommittedCodec().enc(CommittedOf(e)))
    else None
  }

  function ComputeAadHash(crypto: Crypto, e: Envelope): Result<b32, CryptoError> {
    match CommitmentPreimage(e)
    case Some(preimage) => Ok(crypto.sha256(preimage))
    case None => Err(Validation)
  }

  /** The two envelopes agree on every field that a v2 payload commits to. */
  predicate SameCommitted(a: Envelope, b: Envelope) {
    && a.header == b.header && a.plaintextLen == b.plaintextLen
    && a.nonce == b.nonce && a.secondaryNonce == b.secondaryNonce && a.metadata == b.metadata
    && a.contentType == b.contentType && a.publicLabel == b.publicLabel && a.policyOverridden == b.policyOverridden
  }

  /** Two v2 envelopes are hashed alike exactly when they agree on all committed
      fields: every one of them is covered, and no annotation is. */
  lemma CommitmentCoverage(a: Envelope, b: Envelope)
    requires a.header.version == b.header.version == CURRENT_VERSION
    requires |CommitmentPreimage(a).value| <= U64_MAX && |CommitmentPreimage(b).value| <= U64_MAX
    ensures CommitmentPreimage(a) == CommitmentPreimage(b) <==> SameCommitted(a, b)
  {
    hide CommittedCodec, PayloadAadDomain;
    CommittedGood();
    if CommitmentPreimage(a) == CommitmentPreimage(b) {
      var d, x, y := PayloadAadDomain(), CommittedCodec().enc(CommittedOf(a)), CommittedCodec().enc(CommittedOf(b));
      assert x == (d + x)[|d|..] && y == (d + y)[|d|..];
      assert x + [] == y + [];
      SelfDelimiting(CommittedCodec(), CommittedOf(a), [], CommittedOf(b), []);
    }
  }

  /** Two v1 envelopes are hashed alike exactly when their headers are equal: nothing
      else is covered. */
  lemma LegacyCommitmentCoverage(a: Envelope, b: Envelope)
    requires a.header.version == b.header.version == LEGACY_VERSION
    requires |CommitmentPreimage(a).value| <= U64_MAX
    ensures CommitmentPreimage(a) == CommitmentPreimage(b) <==> a.header == b.header
  {
    hide HeaderCodec;
    HeaderGood();
    if CommitmentPreimage(a) == CommitmentPreimage(b) {
      var x, y := HeaderCodec().enc(a.header), HeaderCodec().enc(b.header);
      assert x + [] == y + [];
      SelfDelimiting(HeaderCodec(), a.header, [], b.header, []);
    }
  }

  /** No v1 envelope is hashed like a v2 envelope. */
  lemma CommitmentVersionsApart(a: Envelope, b: Envelope)
    requires a.header.version == LEGACY_VERSION && b.header.version == CURRENT_VERSION && ValidFormat(a)
    ensures CommitmentPreimage(a) != CommitmentPreimage(b)
  {
    hide CommittedCodec, HeaderCodec, PayloadAadDomain;
    StartsWithMagic(a.header);
    DomainStart();
    var v1, v2 := CommitmentPreimage(a).value, CommitmentPreimage(b).value;
    assert v1[1] == v1[..4][1] == MagicReal()[1] == 86;
    assert v2[1] == PayloadAadDomain()[1];
  }

  lemma DomainStart()
    ensures |PayloadAadDomain()| >= 2 && PayloadAadDomain()[1] == 118
  {
  }

  lemma StartsWithMagic(h: EnvelopeHeader)
    ensures |HeaderCodec().enc(h)| >= 4 && HeaderCodec().enc(h)[..4] == h.magic
  {
    hide U16Codec, ProfileCodec, AlgorithmCodec, KdfCodec, RecipientCodec, OptionCodec, VecCodec;
    var rest := PairCodec(U16Codec(), PairCodec(ProfileCodec(), PairCodec(AlgorithmCodec(),
      PairCodec(OptionCodec(KdfCodec()), VecCodec(RecipientCodec())))));
    assert HeaderCodec().enc(h) == h.magic + rest.enc(HeaderSplit(h).1);
  }

  // ---- Checks on a decoded envelope ----

  function ExpectedArgon2Costs(profile: SecurityProfile): (u32, u32, u32) {
    match profile
    case Fast => (16384, 1, 1)
    case Balanced => (65536, 2, 1)
    case Archive => (262144, 3, 2)
    case Paranoid => (1048576, 4, 4)
    case Extreme => (1048576, 4, 4)
  }

  function PasswordSlots(recipients: seq<Recipient>): nat {
    if recipients == [] then 0 else (if recipients[0].PasswordRecipient? then 1 else 0) + PasswordSlots(recipients[1..])
  }

  /** `validate_envelope_resources`. */
  predicate ValidResources(e: Envelope) {
    var recipients := e.header.recipients;
    var passwords := PasswordSlots(recipients);
    && 0 < |recipients| <= MAX_RECIPIENTS
    && IsPayloadAlgorithm(e.header.algorithm)
    && !(passwords != 0 && |recipients| - passwords != 0)
    && (forall k :: 0 <= k < |recipients| ==> |recipients[k].encryptedFileKey| == 48)
    && (if passwords > 0 then
          && e.header.kdf.Some?
          && (e.header.kdf.value.mCost, e.header.kdf.value.tCost, e.header.kdf.value.pCost) ==
               ExpectedArgon2Costs(e.header.profile)
        else e.header.kdf.None?)
    && NeedsSecondaryNonce(e.header.algorithm) == e.secondaryNonce.Some?
  }

  predicate ValidFormat(e: Envelope) {
    e.header.magic == MagicReal() && LEGACY_VERSION <= e.header.version <= CURRENT_VERSION
  }

  predicate Acceptable(crypto: Crypto, e: Envelope) {
    ValidFormat(e) && ValidResources(e) && ComputeAadHash(crypto, e) == Ok(e.aadHash)
  }

  /** The documented Argon2id costs of a profile. */
  predicate DocumentedCosts(profile: SecurityProfile, k: KdfParams) {
    match profile
    case Fast => k.mCost == 16384 && k.tCost == 1 && k.pCost == 1
    case Balanced => k.mCost == 65536 && k.tCost == 2 && k.pCost == 1
    case Archive => k.mCost == 262144 && k.tCost == 3 && k.pCost == 2
    case _ => k.mCost == 1048576 && k.tCost == 4 && k.pCost == 4
  }

  /** The documented conditions on an envelope: its magic and version, 1 to 64 slots with
      a wrapped key each, all for passwords and the costs of the profile or all for key
      pairs and no costs, one of the three payload algorithms, and a second nonce
      exactly for the cascades. */
  predicate Documented(e: Envelope) {
    var slots := e.header.recipients;
    && e.header.magic == [76, 86, 65, 85] && (e.header.version == 1 || e.header.version == 2)
    && 1 <= |slots| <= 64 && (forall k :: 0 <= k < |slots| ==> |slots[k].encryptedFileKey| == 48)
    && (if e.header.kdf.Some? then
          && DocumentedCosts(e.header.profile, e.header.kdf.value)
          && forall k :: 0 <= k < |slots| ==> slots[k].PasswordRecipient?
        else forall k :: 0 <= k < |slots| ==> slots[k].HybridRecipient?)
    && (|| e.header.algorithm.XChaCha20Poly1305? || e.header.algorithm.CascadeAesGcmXChaCha?
        || e.header.algorithm.TripleCascadeAesXChaChaLco?)
    && (e.secondaryNonce.None? <==> e.header.algorithm.XChaCha20Poly1305?)
  }

  lemma {:induction false} SlotsCount(slots: seq<Recipient>)
    ensures PasswordSlots(slots) <= |slots|
    ensures PasswordSlots(slots) == 0 <==> forall k :: 0 <= k < |slots| ==> slots[k].HybridRecipient?
    ensures PasswordSlots(slots) == |slots| <==> forall k :: 0 <= k < |slots| ==> slots[k].PasswordRecipient?
  {
    if slots != [] {
      SlotsCount(slots[1..]);
      assert forall k :: 1 <= k < |slots| ==> slots[k] == slots[1..][k - 1];
      assert forall k :: 0 <= k < |slots[1..]| ==> slots[1..][k] == slots[k + 1];
    }
  }

  /** The reader's checks accept exactly the documented envelopes that carry the hash of
      what they commit to. */
  lemma AcceptableIff(crypto: Crypto, e: Envelope)
    ensures Acceptable(crypto, e) <==>
      && Documented(e)
      && CommitmentPreimage(e).Some? && e.aadHash == crypto.sha256(CommitmentPreimage(e).value)
  {
    hide CommittedCodec, HeaderCodec, PayloadAadDomain, PasswordSlots;
    SlotsCount(e.header.recipients);
    assert MagicReal() == [76, 86, 65, 85];
  }

  // ---- Decoding an envelope ----

  /** The current format first, the six-field one if that fails, then all checks. */
  function DecodeEnvelopeBytes(crypto: Crypto, input: bytes): Result<Envelope, CryptoError> {
    var decoded := match DecodeExact(EnvelopeCodec(), input)
      case Some(e) => Some(e)
      case None => match DecodeExact(LegacyCodec(), input) case Some(l) => Some(FromLegacy(l)) case None => None;
    if decoded.None? then Err(Serialization)
    else if Acceptable(crypto, decoded.value) then Ok(decoded.value)
    else Err(Validation)
  }

  lemma DecodedIsAcceptable(crypto: Crypto, input: bytes)
    requires DecodeEnvelopeBytes(crypto, input).Ok?
    ensures Acceptable(crypto, DecodeEnvelopeBytes(crypto, input).value)
  {
    hide EnvelopeCodec, LegacyCodec, Acceptable, DecodeExact;
  }

  /** What decodes, and to what: exactly the acceptable envelopes of either format. The
      order in which the formats are tried does not matter. */
  lemma DecodesIff(crypto: Crypto, input: bytes, e: Envelope)
    ensures DecodeEnvelopeBytes(crypto, input) == Ok(e) <==>
      && Acceptable(crypto, e)
      && (DecodeExact(EnvelopeCodec(), input) == Some(e) ||
          exists l :: DecodeExact(LegacyCodec(), input) == Some(l) && e == FromLegacy(l))
  {
    hide EnvelopeCodec, LegacyCodec, Acceptable, DecodeExact;
    LegacyUnambiguous(input);
  }

  /** A current envelope is never reinterpreted. */
  lemma DecodeCurrent(crypto: Crypto, e: Envelope)
    requires |EnvelopeCodec().enc(e)| <= U64_MAX
    ensures DecodeEnvelopeBytes(crypto, EnvelopeCodec().enc(e))
         == if Acceptable(crypto, e) then Ok(e) else Err(Validation)
  {
    hide EnvelopeCodec, LegacyCodec, Acceptable;
    EnvelopeGood();
    DecodeExactOfEncode(EnvelopeCodec(), e);
  }

  /** Every legacy envelope is recovered, its six fields intact and the later seven
      at their defaults. */
  lemma DecodeLegacy(crypto: Crypto, l: LegacyEnvelope)
    requires |LegacyCodec().enc(l)| <= U64_MAX
    ensures DecodeEnvelopeBytes(crypto, LegacyCodec().enc(l))
         == if Acceptable(crypto, FromLegacy(l)) then Ok(FromLegacy(l)) else Err(Validation)
    ensures var e := FromLegacy(l);
      && e.header == l.header && e.plaintextLen == l.plaintextLen && e.nonce == l.nonce
      && e.secondaryNonce == l.secondaryNonce && e.aadHash == l.aadHash && e.metadata == l.metadata
      && e.contentType.None? && e.signature.None? && e.publicLabel.None? && e.approvals == []
      && e.releaseMetadata.None? && !e.policyOverridden && e.recoveryMetadata.None?
  {
    hide EnvelopeCodec, LegacyCodec, Acceptable, DecodeExact;
    LegacyGood();
    DecodeExactOfEncode(LegacyCodec(), l);
    LegacyUnambiguous(LegacyCodec().enc(l));
  }

  // ---- Length framing ----

  /** A capsule file: little-endian length, encoded envelope, payload frames. */
  function Framed(encoded: bytes, ciphertext: bytes): bytes {
    Le(|encoded|, 4) + encoded + ciphertext
  }

  function EncodeEnvelopeChecked(e: Envelope): Option<bytes> {
    var encoded := EnvelopeCodec().enc(e);
    if encoded == [] || |encoded| > MAX_ENVELOPE_SIZE then None else Some(encoded)
  }

  function BuildCapsule(e: Envelope, ciphertext: bytes): Option<bytes> {
    var encoded :- EncodeEnvelopeChecked(e);
    Some(Framed(encoded, ciphertext))
  }

  /** The framing undone: the encoded envelope and what follows it. */
  function Unframe(data: bytes): Option<(bytes, bytes)> {
    if |data| < 4 then None
    else
      var n := FromLe(data[..4]);
      if n == 0 || n > MAX_ENVELOPE_SIZE || |data| < 4 + n then None
      else Some((data[4..4 + n], data[4 + n..]))
  }

  lemma UnframeOfFramed(encoded: bytes, ciphertext: bytes)
    requires 0 < |encoded| <= MAX_ENVELOPE_SIZE
    ensures Unframe(Framed(encoded, ciphertext)) == Some((encoded, ciphertext))
  {
    var data, n := Framed(encoded, ciphertext), |encoded|;
    assert data[..4] == Le(n, 4);
    Pow256Values();
    FromLeOfLe(n, 4);
    assert data[4..4 + n] == encoded && data[4 + n..] == ciphertext;
  }

  lemma FramedOfUnframe(data: bytes)
    requires Unframe(data).Some?
    ensures Framed(Unframe(data).value.0, Unframe(data).value.1) == data
    ensures 0 < |Unframe(data).value.0| <= MAX_ENVELOPE_SIZE
  {
    LeOfFromLe(data[..4]);
  }

  /** What the crypto layer's reader makes of a file. */
  function OpenCapsule(crypto: Crypto, data: bytes): Result<(Envelope, bytes), CryptoError> {
    if |data| < 4 then Err(CryptoError.Io)
    else
      var n := FromLe(data[..4]);
      if n == 0 || n > MAX_ENVELOPE_SIZE then Err(Validation)
      else if |data| < 4 + n then Err(CryptoError.Io)
      else
        var e :- DecodeEnvelopeBytes(crypto, data[4..4 + n]);
        Ok((e, data[4 + n..]))
  }

  /** A four-byte little-endian length of 1 to 1 MiB, so many bytes, and the rest. */
  predicate IsFileOf(data: bytes, encoded: bytes, ciphertext: bytes) {
    1 <= |encoded| <= 0x10_0000 && data == Le(|encoded|, 4) + encoded + ciphertext
  }

  /** Exactly which files open, and to what: those of an envelope that decodes and of any
      payload. */
  lemma OpensIff(crypto: Crypto, data: bytes, e: Envelope, ciphertext: bytes)
    ensures OpenCapsule(crypto, data) == Ok((e, ciphertext)) <==>
      exists encoded :: IsFileOf(data, encoded, ciphertext) && DecodeEnvelopeBytes(crypto, encoded) == Ok(e)
  {
    hide DecodeEnvelopeBytes, Le, FromLe;
    if OpenCapsule(crypto, data) == Ok((e, ciphertext)) {
      FramedOfUnframe(data);
      assert IsFileOf(data, Unframe(data).value.0, ciphertext);
    }
    if encoded :| IsFileOf(data, encoded, ciphertext) && DecodeEnvelopeBytes(crypto, encoded) == Ok(e) {
      UnframeOfFramed(encoded, ciphertext);
    }
  }

  method ReadExact(reader: Reader, size: nat) returns (r: Result<bytes, CryptoError>)
    modifies reader`rest
    ensures r.Ok? ==> |old(reader.rest)| >= size
    ensures r.Ok? ==> r.value == old(reader.rest)[..size] && reader.rest == old(reader.rest)[size..]
    ensures r.Err? ==> r.error == CryptoError.Io && (reader.faulty || |old(reader.rest)| < size)
  {
    var got := ReadUpTo(reader, size);
    r := if got.Err? || |got.value| < size then Err(CryptoError.Io) else Ok(got.value);
  }

  /** `read_envelope`: the reader is left at the first payload byte. */
  method ReadEnvelope(crypto: Crypto, reader: Reader) returns (r: Result<Envelope, CryptoError>)
    modifies reader`rest
    ensures r.Ok? ==> OpenCapsule(crypto, old(reader.rest)) == Ok((r.value, reader.rest))
    ensures r.Err? ==>
      (r.error == CryptoError.Io && reader.faulty) || OpenCapsule(crypto, old(reader.rest)) == Err(r.error)
  {
    hide DecodeEnvelopeBytes, FromLe;
    ghost var data := reader.rest;
    var lengthBytes :- ReadExact(reader, 4);
    var n := FromLe(lengthBytes);
    if n == 0 { return Err(Validation); }
    if n > MAX_ENVELOPE_SIZE { return Err(Validation); }
    assert reader.rest == data[4..];
    var encoded :- ReadExact(reader, n);
    assert encoded == data[4..4 + n] && reader.rest == data[4 + n..];
    r := DecodeEnvelopeBytes(crypto, encoded);
  }

  /** Writing and reading a capsule are inverse for every acceptable envelope. */
  lemma CapsuleRoundTrip(crypto: Crypto, e: Envelope, ciphertext: bytes)
    requires Acceptable(crypto, e) && BuildCapsule(e, ciphertext).Some?
    ensures OpenCapsule(crypto, BuildCapsule(e, ciphertext).value) == Ok((e, ciphertext))
  {
    hide EnvelopeCodec, LegacyCodec, Acceptable, DecodeEnvelopeBytes, Framed;
    var encoded := EncodeEnvelopeChecked(e).value;
    UnframeOfFramed(encoded, ciphertext);
    DecodeCurrent(crypto, e);
  }
}
