/** The data types of `lvau-protocol`: the envelope and what it is made of. */
module Protocol {
  import opened Bytes

  const LEGACY_VERSION: u16 := 1
  const CURRENT_VERSION: u16 := 2

  /** The bytes of an ASCII literal. */
  function Ascii(s: string): (r: bytes)
    ensures |r| == |s|
  {
    seq(|s|, k requires 0 <= k < |s| => s[k] as int % 256)
  }

  function MagicReal(): b4 { Ascii("LVAU") }

  datatype SecurityProfile = Fast | Balanced | Archive | Paranoid | Extreme

  datatype AlgorithmId =
    | XChaCha20Poly1305
    | CascadeAesGcmXChaCha
    | TripleCascadeAesXChaChaLco
    | X25519
    | Ed25519
    | X25519MlkemHybrid
    | Ed25519MldsaHybrid

  datatype KdfParams = Argon2id(mCost: u32, tCost: u32, pCost: u32, salt: b16)

  datatype Recipient =
    | PasswordRecipient(nonce: b24, encryptedFileKey: bytes)
    | HybridRecipient(ephemeralPublic: b32, mlkemCiphertext: bytes, encryptedFileKey: bytes)

  datatype ContentType = SingleFile | Bundle

  datatype EnvelopeSignature = EnvelopeSignature(
    signerFingerprint: b32, signature: bytes, createdAt: Option<Str>, comment: Option<Str>)

  datatype ApprovalSignature = ApprovalSignature(signerFingerprint: b32, signature: bytes, comment: Option<Str>)

  datatype ReleaseMetadata = ReleaseMetadata(
    projectName: Option<Str>, version: Option<Str>, gitCommit: Option<Str>, buildTimestamp: Option<Str>)

  datatype EnvelopeHeader = EnvelopeHeader(
    magic: b4, version: u16, profile: SecurityProfile, algorithm: AlgorithmId,
    kdf: Option<KdfParams>, recipients: seq<Recipient>)

  datatype Envelope = Envelope(
    header: EnvelopeHeader,
    plaintextLen: u64,
    nonce: b24,
    secondaryNonce: Option<b12>,
    aadHash: b32,
    metadata: bytes,
    contentType: Option<ContentType>,
    signature: Option<EnvelopeSignature>,
    publicLabel: Option<Str>,
    approvals: seq<ApprovalSignature>,
    releaseMetadata: Option<ReleaseMetadata>,
    policyOverridden: bool,
    recoveryMetadata: Option<bytes>)

  /** The six fields of the first format. */
  datatype LegacyEnvelope = LegacyEnvelope(
    header: EnvelopeHeader,
    plaintextLen: u64,
    nonce: b24,
    secondaryNonce: Option<b12>,
    aadHash: b32,
    metadata: bytes)

  function FromLegacy(l: LegacyEnvelope): Envelope {
    Envelope(l.header, l.plaintextLen, l.nonce, l.secondaryNonce, l.aadHash, l.metadata,
      None, None, None, [], None, false, None)
  }

  datatype BundleEntry = BundleEntry(relativePath: Str, size: u64, blake3Hash: b32, offset: u64)

  datatype BundleManifest = BundleManifest(entries: seq<BundleEntry>, createdAt: Option<Str>, toolVersion: Option<Str>)
}
