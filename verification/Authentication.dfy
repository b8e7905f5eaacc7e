/** What a successful decryption says about the public fields of an envelope. */
module Authentication {
  import opened Bytes
  import opened Capsule
  import opened ChunkCipher
  import opened FileCrypto
  import opened Frames
  import opened Primitives
  import opened Protocol
  import opened Separation
  import opened Wire
  import EndToEnd

  // ---- A payload that is not empty authenticates them ----

  /** The hash tells the committed fields of two envelopes apart, and tags under
      different commitments are different. */
  ghost predicate ToldApart(crypto: Crypto, a: Envelope, b: Envelope, keyA: bytes, keyB: bytes) {
    var contextA, contextB := PayloadContext(crypto, a, keyA), PayloadContext(crypto, b, keyB);
    && (ComputeAadHash(crypto, a) == ComputeAadHash(crypto, b) ==> CommitmentPreimage(a) == CommitmentPreimage(b))
    && (a.aadHash != b.aadHash ==> Usable(contextA) && Usable(contextB) && TagsApart(contextA, contextB))
  }

  /** A v2 envelope whose committed fields fit a buffer. */
  predicate Current(e: Envelope) {
    e.header.version == CURRENT_VERSION && |CommitmentPreimage(e).value| <= U64_MAX
  }

  /** Two v2 envelopes that the reader accepts and that differ in a committed field. */
  predicate Rivals(crypto: Crypto, a: Envelope, b: Envelope) {
    && Acceptable(crypto, a) && Acceptable(crypto, b)
    && Current(a) && Current(b) && !SameCommitted(a, b)
  }

  /** Two envelopes that differ in any committed field accept the same payload, each
      with its own file key, exactly when it is empty and both declare length 0. */
  lemma CommittedFieldsAuthenticatedIff(crypto: Crypto, a: Envelope, b: Envelope, keyA: bytes, keyB: bytes,
                                        payload: bytes)
    requires crypto.Lawful() && Rivals(crypto, a, b) && ToldApart(crypto, a, b, keyA, keyB)
    ensures ReadPayload(crypto, a, keyA, payload).Some? && ReadPayload(crypto, b, keyB, payload).Some?
       <==> payload == [] && a.plaintextLen == 0 && b.plaintextLen == 0
  {
    hide Accepted, CommitmentPreimage;
    CommitmentCoverage(a, b);
    BothAcceptIff(PayloadContext(crypto, a, keyA), PayloadContext(crypto, b, keyB), PAYLOAD_PARAMS.chunkSize,
      a.header.version, b.header.version, a.plaintextLen, b.plaintextLen, payload);
  }

  /** So some payload decrypts under both exactly when both declare length 0. */
  lemma SharedPayloadIff(crypto: Crypto, a: Envelope, b: Envelope, keyA: bytes, keyB: bytes)
    requires crypto.Lawful() && Rivals(crypto, a, b) && ToldApart(crypto, a, b, keyA, keyB)
    ensures (exists payload ::
               ReadPayload(crypto, a, keyA, payload).Some? && ReadPayload(crypto, b, keyB, payload).Some?)
       <==> a.plaintextLen == 0 && b.plaintextLen == 0
  {
    hide ReadPayload, Rivals, ToldApart;
    CommittedFieldsAuthenticatedIff(crypto, a, b, keyA, keyB, []);
    if payload :| ReadPayload(crypto, a, keyA, payload).Some? && ReadPayload(crypto, b, keyB, payload).Some? {
      CommittedFieldsAuthenticatedIff(crypto, a, b, keyA, keyB, payload);
    }
  }

  /** Told apart with the file keys that the secrets unwrap. */
  ghost predicate PasswordToldApart(crypto: Crypto, a: Envelope, b: Envelope, password: bytes, seed: Option<bytes>) {
    var keyA, keyB := PasswordFileKey(crypto, a, password, seed), PasswordFileKey(crypto, b, password, seed);
    keyA.Ok? && keyB.Ok? ==> ToldApart(crypto, a, b, keyA.value, keyB.value)
  }

  ghost predicate KeypairToldApart(crypto: Crypto, a: Envelope, b: Envelope, key: PrivateKey) {
    var keyA, keyB := FirstOpening(crypto, a.header.recipients, key), FirstOpening(crypto, b.header.recipients, key);
    keyA.Some? && keyB.Some? ==> ToldApart(crypto, a, b, keyA.value, keyB.value)
  }

  /** With a password: once a file decrypted, a file with the same payload and any
      committed field changed decrypts exactly when the payload is empty, the changed
      envelope declares length 0 and the secrets still open its slot. */
  lemma PasswordDecryptionAuthenticates(crypto: Crypto, a: Envelope, b: Envelope, payload: bytes, data: bytes,
                                        changed: bytes, password: bytes, seed: Option<bytes>)
    requires crypto.Lawful() && Rivals(crypto, a, b)
    requires OpenCapsule(crypto, data) == Ok((a, payload)) && OpenCapsule(crypto, changed) == Ok((b, payload))
    requires DecryptWithPassword(crypto, data, password, seed).Ok?
    requires PasswordToldApart(crypto, a, b, password, seed)
    ensures DecryptWithPassword(crypto, changed, password, seed).Ok?
       <==> payload == [] && b.plaintextLen == 0 && PasswordFileKey(crypto, b, password, seed).Ok?
  {
    hide OpenCapsule, ReadPayload, PasswordFileKey, ToldApart, Rivals;
    if PasswordFileKey(crypto, b, password, seed).Ok? {
      var keyA, keyB := PasswordFileKey(crypto, a, password, seed).value,
        PasswordFileKey(crypto, b, password, seed).value;
      CommittedFieldsAuthenticatedIff(crypto, a, b, keyA, keyB, payload);
      RivalReads(crypto, a, b, keyA, payload);
    }
  }

  /** The same with a private key. */
  lemma KeypairDecryptionAuthenticates(crypto: Crypto, a: Envelope, b: Envelope, payload: bytes, data: bytes,
                                       changed: bytes, key: PrivateKey)
    requires crypto.Lawful() && Rivals(crypto, a, b)
    requires OpenCapsule(crypto, data) == Ok((a, payload)) && OpenCapsule(crypto, changed) == Ok((b, payload))
    requires DecryptWithKeypair(crypto, data, key).Ok?
    requires KeypairToldApart(crypto, a, b, key)
    ensures DecryptWithKeypair(crypto, changed, key).Ok?
       <==> payload == [] && b.plaintextLen == 0 && FirstOpening(crypto, b.header.recipients, key).Some?
  {
    hide OpenCapsule, ReadPayload, FirstOpening, ToldApart, Rivals;
    if FirstOpening(crypto, b.header.recipients, key).Some? {
      var keyA := FirstOpening(crypto, a.header.recipients, key).value;
      CommittedFieldsAuthenticatedIff(crypto, a, b, keyA, FirstOpening(crypto, b.header.recipients, key).value,
        payload);
      RivalReads(crypto, a, b, keyA, payload);
    }
  }

  /** The empty payload is read exactly when length 0 is declared. */
  lemma EmptyPayloadReads(crypto: Crypto, e: Envelope, fileKey: bytes, payload: bytes)
    requires Acceptable(crypto, e)
    ensures payload == [] ==> (ReadPayload(crypto, e, fileKey, payload).Some? <==> e.plaintextLen == 0)
    ensures payload == [] && e.plaintextLen == 0 ==> ReadPayload(crypto, e, fileKey, payload) == Some([])
  {
    hide ComputeAadHash;
    FrameDemandedIffNonEmpty(PayloadContext(crypto, e, fileKey), PAYLOAD_PARAMS.chunkSize, e.header.version,
      e.plaintextLen);
  }

  lemma RivalReads(crypto: Crypto, a: Envelope, b: Envelope, fileKey: bytes, payload: bytes)
    requires Rivals(crypto, a, b)
    ensures payload == [] ==> (ReadPayload(crypto, a, fileKey, payload).Some? <==> a.plaintextLen == 0)
  {
    hide Acceptable, SameCommitted, Current;
    EmptyPayloadReads(crypto, a, fileKey, payload);
  }

  // ---- The hypothesis can be met ----

  /** Primitives that tell the committed fields of `e` from all others. */
  ghost function DiscerningCrypto(e: Envelope, other: Envelope, fileKey: bytes): Crypto {
    var preimage := CommitmentPreimage(e);
    ApartCrypto(Inputs(e.header.algorithm, fileKey, e.nonce, e.secondaryNonce, Marked(1)), other.header.algorithm)
    .(sha256 := m => Marked(if Some(m) == preimage then 1 else 0))
  }

  /** The envelope, committed to anew; the commitment takes no key. */
  function Recommitted(crypto: Crypto, e: Envelope): Envelope {
    match ComputeAadHash(crypto, e)
    case Ok(hash) => e.(aadHash := hash)
    case Err(_) => e
  }

  /** Every envelope that is well formed but for its commitment becomes acceptable. */
  lemma RecommittedAcceptable(crypto: Crypto, e: Envelope)
    requires ValidFormat(e) && ValidResources(e)
    ensures Acceptable(crypto, Recommitted(crypto, e)) && SameCommitted(Recommitted(crypto, e), e)
    ensures CommitmentPreimage(Recommitted(crypto, e)) == CommitmentPreimage(e)
    ensures ComputeAadHash(crypto, Recommitted(crypto, e)) == ComputeAadHash(crypto, e) ==
      Ok(Recommitted(crypto, e).aadHash)
  {
    hide CommittedCodec, HeaderCodec, PayloadAadDomain;
    assert CommittedOf(Recommitted(crypto, e)) == CommittedOf(e);
  }

  /** For any two v2 envelopes with different committed fields there are lawful
      primitives that tell them apart, whatever the file keys. */
  lemma ToldApartIsSatisfiable(a: Envelope, b: Envelope, keyA: bytes, keyB: bytes)
    requires ValidFormat(a) && ValidResources(a) && Current(a)
    requires ValidFormat(b) && ValidResources(b) && Current(b) && !SameCommitted(a, b)
    ensures var crypto := DiscerningCrypto(a, b, keyA);
      var (e, f) := (Recommitted(crypto, a), Recommitted(crypto, b));
      && crypto.Lawful() && Rivals(crypto, e, f) && ToldApart(crypto, e, f, keyA, keyB)
      && SameCommitted(e, a) && SameCommitted(f, b)
  {
    hide CommitmentPreimage, Acceptable, ApartCrypto;
    var crypto := DiscerningCrypto(a, b, keyA);
    RecommittedAcceptable(crypto, a);
    RecommittedAcceptable(crypto, b);
    CommitmentCoverage(a, b);
    var e, f := Recommitted(crypto, a), Recommitted(crypto, b);
    assert Marked(1)[0] != Marked(0)[0];
    var contextA, contextB := PayloadContext(crypto, e, keyA), PayloadContext(crypto, f, keyB);
    assert InputsOf(contextA) == Inputs(a.header.algorithm, keyA, a.nonce, a.secondaryNonce, Marked(1));
    TagsApartIsSatisfiable(contextA, contextB);
    LawfulWithHash(InputsOf(contextA), b.header.algorithm, crypto);
  }

  lemma LawfulWithHash(a: Inputs, otherwise: AlgorithmId, crypto: Crypto)
    requires crypto == ApartCrypto(a, otherwise).(sha256 := crypto.sha256)
    ensures crypto.Lawful()
  {
    hide ApartCrypto;
    ApartIsLawful(a, otherwise);
  }

  // ---- An empty payload authenticates nothing ----

  /** Any acceptable envelope can be replaced, without a key, by one with the same
      header and slots, length 0, any other metadata, content type, label and policy
      flag, and no payload at all: with every password that opened the slots it
      decrypts to nothing. The promised empty frame would prevent it. */
  lemma EmptyPayloadUnauthenticated(crypto: Crypto, e: Envelope, forged: Envelope, password: bytes, seed: Option<bytes>)
    requires Acceptable(crypto, e) && PasswordFileKey(crypto, e, password, seed).Ok?
    requires forged.header == e.header && forged.secondaryNonce.Some? == e.secondaryNonce.Some?
    requires forged.plaintextLen == 0
    requires BuildCapsule(Recommitted(crypto, forged), []).Some?
    ensures DecryptWithPassword(crypto, BuildCapsule(Recommitted(crypto, forged), []).value, password, seed) ==
      Result.Ok([])
  {
    hide Acceptable, OpenCapsule, BuildCapsule, PasswordFileKey, ReadPayload, Recommitted;
    ForgedOpens(crypto, e, forged);
    var f := Recommitted(crypto, forged);
    EndToEnd.PasswordCore(crypto, e, f, password, seed);
    EmptyPayloadReads(crypto, f, PasswordFileKey(crypto, e, password, seed).value, []);
  }

  /** The same with every private key that opened a slot. */
  lemma EmptyKeypairPayloadUnauthenticated(crypto: Crypto, e: Envelope, forged: Envelope, key: PrivateKey)
    requires Acceptable(crypto, e) && FirstOpening(crypto, e.header.recipients, key).Some?
    requires forged.header == e.header && forged.secondaryNonce.Some? == e.secondaryNonce.Some?
    requires forged.plaintextLen == 0
    requires BuildCapsule(Recommitted(crypto, forged), []).Some?
    ensures DecryptWithKeypair(crypto, BuildCapsule(Recommitted(crypto, forged), []).value, key) == Result.Ok([])
  {
    hide Acceptable, OpenCapsule, BuildCapsule, FirstOpening, ReadPayload, Recommitted;
    ForgedOpens(crypto, e, forged);
    EmptyPayloadReads(crypto, Recommitted(crypto, forged), FirstOpening(crypto, e.header.recipients, key).value, []);
  }

  lemma ForgedOpens(crypto: Crypto, e: Envelope, forged: Envelope)
    requires Acceptable(crypto, e) && forged.header == e.header && forged.secondaryNonce.Some? == e.secondaryNonce.Some?
    requires BuildCapsule(Recommitted(crypto, forged), []).Some?
    ensures var f := Recommitted(crypto, forged);
      && Acceptable(crypto, f) && f.header == e.header && f.plaintextLen == forged.plaintextLen
      && OpenCapsule(crypto, BuildCapsule(f, []).value) == Ok((f, []))
  {
    hide OpenCapsule, BuildCapsule, ComputeAadHash;
    assert ValidFormat(forged) && ValidResources(forged);
    RecommittedAcceptable(crypto, forged);
    CapsuleRoundTrip(crypto, Recommitted(crypto, forged), []);
  }
}
