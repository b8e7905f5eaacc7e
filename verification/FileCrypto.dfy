/** Encrypting and decrypting whole files, with a password or for key pairs. */
module FileCrypto {
  import opened Bytes
  import opened Capsule
  import opened ChunkCipher
  import opened Errors
  import opened Frames
  import opened Primitives
  import opened Protocol

  /** What the random number generator yields for one encryption. */
  datatype Randomness = Randomness(salt: b16, fileKey: b32, wrapNonce: b24, nonce: b24, secondaryNonce: b12)

  function AlgorithmFor(profile: SecurityProfile): AlgorithmId {
    match profile
    case Extreme => TripleCascadeAesXChaChaLco
    case Paranoid => CascadeAesGcmXChaCha
    case _ => XChaCha20Poly1305
  }

  // ---- Payload ----

  function PayloadContext(crypto: Crypto, e: Envelope, fileKey: bytes): Context {
    Context(crypto, e.header.algorithm, fileKey, e.nonce, e.secondaryNonce, e.aadHash)
  }

  function WritePayload(crypto: Crypto, e: Envelope, fileKey: bytes, plaintext: bytes): bytes
    requires Usable(PayloadContext(crypto, e, fileKey)) && |plaintext| <= U64_MAX
  {
    PayloadFrames(PayloadContext(crypto, e, fileKey), PAYLOAD_PARAMS.chunkSize, e.header.version, plaintext)
  }

  function ReadPayload(crypto: Crypto, e: Envelope, fileKey: bytes, ciphertext: bytes): Option<bytes> {
    Accepted(PayloadContext(crypto, e, fileKey), PAYLOAD_PARAMS.chunkSize, e.header.version, e.plaintextLen, ciphertext)
  }

  lemma PayloadRoundTrip(crypto: Crypto, e: Envelope, fileKey: bytes, plaintext: bytes)
    requires crypto.Lawful() && Usable(PayloadContext(crypto, e, fileKey))
    requires e.plaintextLen == |plaintext|
    ensures ReadPayload(crypto, e, fileKey, WritePayload(crypto, e, fileKey, plaintext)) == Some(plaintext)
  {
    RoundTrip(PayloadContext(crypto, e, fileKey), PAYLOAD_PARAMS.chunkSize, e.header.version, plaintext);
  }

  /** The documented size of a payload: frames of up to 1 MiB, 16 bytes more each, or 32
      for the two cascades. */
  lemma PayloadOverhead(crypto: Crypto, e: Envelope, fileKey: bytes, plaintext: bytes)
    requires crypto.Lawful() && Usable(PayloadContext(crypto, e, fileKey)) && |plaintext| <= U64_MAX
    ensures var n := |plaintext|;
      var frames := if n > 0 then (n + 1048575) / 1048576 else if e.header.version >= 2 then 1 else 0;
      |WritePayload(crypto, e, fileKey, plaintext)| ==
        n + frames * (if e.header.algorithm.XChaCha20Poly1305? then 16 else 32)
  {
    hide PayloadFrames;
    PayloadSize(PayloadContext(crypto, e, fileKey), PAYLOAD_PARAMS.chunkSize, e.header.version, plaintext);
  }

  /** A new v2 envelope around a header, committed to. */
  function NewEnvelope(crypto: Crypto, header: EnvelopeHeader, plaintextLen: u64, rnd: Randomness,
                       contentType: Option<ContentType>, overridden: bool): Envelope {
    var secondary := if NeedsSecondaryNonce(header.algorithm) then Some(rnd.secondaryNonce) else None;
    var e := Envelope(header, plaintextLen, rnd.nonce, secondary, Zeroes(32), [], contentType, None, None, [], None,
      overridden, None);
    match ComputeAadHash(crypto, e)
    case Ok(hash) => e.(aadHash := hash)
    case Err(_) => e
  }

  lemma NewEnvelopeAcceptable(crypto: Crypto, header: EnvelopeHeader, plaintextLen: u64, rnd: Randomness,
                              contentType: Option<ContentType>, overridden: bool)
    requires header.magic == MagicReal() && header.version == CURRENT_VERSION
    ensures var e := NewEnvelope(crypto, header, plaintextLen, rnd, contentType, overridden);
      && e.header == header && e.plaintextLen == plaintextLen
      && e.secondaryNonce.Some? == NeedsSecondaryNonce(header.algorithm)
      && (Acceptable(crypto, e) <==> ValidResources(e))
  {
    hide ComputeAadHash, ValidResources;
    var e := NewEnvelope(crypto, header, plaintextLen, rnd, contentType, overridden);
    HashIgnoresHash(crypto, e, Zeroes(32));
  }

  /** The commitment does not commit to itself. */
  lemma HashIgnoresHash(crypto: Crypto, e: Envelope, hash: b32)
    ensures ComputeAadHash(crypto, e.(aadHash := hash)) == ComputeAadHash(crypto, e)
    ensures e.header.version == CURRENT_VERSION ==> ComputeAadHash(crypto, e).Ok?
  {
    hide CommittedCodec, PayloadAadDomain;
    assert CommittedOf(e) == CommittedOf(e.(aadHash := hash));
  }

  // ---- Password ----

  function PasswordWrappingKey(crypto: Crypto, password: bytes, seed: Option<bytes>, kdf: KdfParams): Option<b32> {
    var master :- crypto.argon2(password, seed, kdf.mCost, kdf.tCost, kdf.pCost, kdf.salt);
    Some(DeriveSubkey(crypto, master, KeyWrap))
  }

  function PasswordKdf(profile: SecurityProfile, salt: b16): KdfParams {
    var costs := ExpectedArgon2Costs(profile);
    Argon2id(costs.0, costs.1, costs.2, salt)
  }

  function PasswordHeader(crypto: Crypto, wrappingKey: b32, profile: SecurityProfile, rnd: Randomness): EnvelopeHeader {
    EnvelopeHeader(MagicReal(), CURRENT_VERSION, profile, AlgorithmFor(profile), Some(PasswordKdf(profile, rnd.salt)),
      [PasswordRecipient(rnd.wrapNonce, crypto.xchacha.seal(wrappingKey, rnd.wrapNonce, [], rnd.fileKey))])
  }

  function PasswordEnvelope(crypto: Crypto, password: bytes, seed: Option<bytes>, profile: SecurityProfile,
                            rnd: Randomness, plaintextLen: u64, contentType: Option<ContentType>,
                              overridden: bool): Option<Envelope> {
    var wrappingKey :- PasswordWrappingKey(crypto, password, seed, PasswordKdf(profile, rnd.salt));
    Some(NewEnvelope(crypto, PasswordHeader(crypto, wrappingKey, profile, rnd), plaintextLen, rnd, contentType,
      overridden))
  }

  /** The password writer only emits envelopes that the reader accepts. */
  lemma PasswordEnvelopeAcceptable(crypto: Crypto, password: bytes, seed: Option<bytes>, profile: SecurityProfile,
                                   rnd: Randomness, plaintextLen: u64, contentType: Option<ContentType>,
                                   overridden: bool)
    requires crypto.Lawful()
    requires PasswordEnvelope(crypto, password, seed, profile, rnd, plaintextLen, contentType, overridden).Some?
    ensures var e := PasswordEnvelope(crypto, password, seed, profile, rnd, plaintextLen, contentType,
      overridden).value;
      Acceptable(crypto, e) && Usable(PayloadContext(crypto, e, rnd.fileKey)) && e.plaintextLen == plaintextLen
  {
    hide Acceptable, NewEnvelope;
    var wrappingKey := PasswordWrappingKey(crypto, password, seed, PasswordKdf(profile, rnd.salt)).value;
    var header := PasswordHeader(crypto, wrappingKey, profile, rnd);
    NewEnvelopeAcceptable(crypto, header, plaintextLen, rnd, contentType, overridden);
    assert PasswordSlots(header.recipients) == 1 + PasswordSlots(header.recipients[1..]);
    OpenIffSealed(crypto.xchacha, wrappingKey, rnd.wrapNonce, [], [], rnd.fileKey);
    assert |header.recipients[0].encryptedFileKey| == 48;
  }

  /** The capsule file for a plaintext; None when key derivation refuses or the
      envelope would be oversized. */
  function PasswordCapsule(crypto: Crypto, password: bytes, seed: Option<bytes>, profile: SecurityProfile,
                           rnd: Randomness, plaintext: bytes, contentType: Option<ContentType>,
                             overridden: bool): Option<bytes>
    requires |plaintext| <= U64_MAX
  {
    var e :- PasswordEnvelope(crypto, password, seed, profile, rnd, |plaintext|, contentType, overridden);
    if !Usable(PayloadContext(crypto, e, rnd.fileKey)) then None
    else BuildCapsule(e, WritePayload(crypto, e, rnd.fileKey, plaintext))
  }

  function FirstPassword(recipients: seq<Recipient>): Option<Recipient> {
    if recipients == [] then None
    else if recipients[0].PasswordRecipient? then Some(recipients[0])
    else FirstPassword(recipients[1..])
  }

  /** The file key of an opened capsule, by password. */
  function PasswordFileKey(crypto: Crypto, e: Envelope, password: bytes, seed: Option<bytes>): Result<bytes,
    CryptoError> {
    if e.header.kdf.None? then Err(MissingKdfParams)
    else match PasswordWrappingKey(crypto, password, seed, e.header.kdf.value)
      case None => Err(DecryptionFailed)
      case Some(wrappingKey) =>
        match FirstPassword(e.header.recipients)
        case None => Err(DecryptionFailed)
        case Some(slot) =>
          if slot.PasswordRecipient? then
            match crypto.xchacha.open(wrappingKey, slot.nonce, [], slot.encryptedFileKey)
            case Some(key) => Ok(key)
            case None => Err(DecryptionFailed)
          else Err(DecryptionFailed)
  }

  function DecryptWithPassword(crypto: Crypto, data: bytes, password: bytes, seed: Option<bytes>): Result<bytes,
    CryptoError> {
    var (e, ciphertext) :- OpenCapsule(crypto, data);
    var fileKey :- PasswordFileKey(crypto, e, password, seed);
    match ReadPayload(crypto, e, fileKey, ciphertext)
    case Some(plaintext) => Ok(plaintext)
    case None => Err(DecryptionFailed)
  }

  lemma PasswordFileKeyRecovered(crypto: Crypto, password: bytes, seed: Option<bytes>, profile: SecurityProfile,
                                 rnd: Randomness, e: Envelope)
    requires crypto.Lawful()
    requires PasswordWrappingKey(crypto, password, seed, PasswordKdf(profile, rnd.salt)).Some?
    requires e.header == PasswordHeader(crypto,
      PasswordWrappingKey(crypto, password, seed, PasswordKdf(profile, rnd.salt)).value, profile, rnd)
    ensures PasswordFileKey(crypto, e, password, seed) == Ok(rnd.fileKey)
  {
    var wrappingKey := PasswordWrappingKey(crypto, password, seed, PasswordKdf(profile, rnd.salt)).value;
    OpenIffSealed(crypto.xchacha, wrappingKey, rnd.wrapNonce, [],
      crypto.xchacha.seal(wrappingKey, rnd.wrapNonce, [], rnd.fileKey), rnd.fileKey);
    assert FirstPassword(e.header.recipients) == Some(e.header.recipients[0]);
  }

  /** Decrypting a fresh capsule with the same secrets gives the plaintext back. */
  lemma PasswordRoundTrip(crypto: Crypto, password: bytes, seed: Option<bytes>, profile: SecurityProfile,
                          rnd: Randomness, plaintext: bytes, contentType: Option<ContentType>, overridden: bool)
    requires crypto.Lawful() && |plaintext| <= U64_MAX
    requires PasswordCapsule(crypto, password, seed, profile, rnd, plaintext, contentType, overridden).Some?
    ensures var data := PasswordCapsule(crypto, password, seed, profile, rnd, plaintext, contentType, overridden).value;
      OpenCapsule(crypto, data).Ok? && DecryptWithPassword(crypto, data, password, seed) == Ok(plaintext)
  {
    hide Acceptable, OpenCapsule, BuildCapsule, ReadPayload, WritePayload, PasswordFileKey, NewEnvelope, PasswordHeader,
      Usable;
    var e := PasswordEnvelope(crypto, password, seed, profile, rnd, |plaintext|, contentType, overridden).value;
    PasswordEnvelopeAcceptable(crypto, password, seed, profile, rnd, |plaintext|, contentType, overridden);
    CapsuleRoundTrip(crypto, e, WritePayload(crypto, e, rnd.fileKey, plaintext));
    var header := PasswordHeader(crypto,
      PasswordWrappingKey(crypto, password, seed, PasswordKdf(profile, rnd.salt)).value, profile, rnd);
    HeaderKept(crypto, header, |plaintext|, rnd, contentType, overridden);
    PasswordFileKeyRecovered(crypto, password, seed, profile, rnd, e);
    PayloadRoundTrip(crypto, e, rnd.fileKey, plaintext);
  }

  /** The wrapped file key of a password slot, with the primitives spelled out. */
  function WrappedByHand(crypto: Crypto, password: bytes, seed: Option<bytes>, profile: SecurityProfile,
                         rnd: Randomness): Option<bytes> {
    var (memory, passes, lanes) := ExpectedArgon2Costs(profile);
    var master :- crypto.argon2(password, seed, memory, passes, lanes, rnd.salt);
    Some(crypto.xchacha.seal(crypto.hkdf([], master, Ascii("Lvau-Key-Wrap")), rnd.wrapNonce, [], rnd.fileKey))
  }

  /** Other secrets unwrap the file key of a password slot: they wrap it to the same
      bytes. */
  predicate SameSlot(crypto: Crypto, password: bytes, seed: Option<bytes>, otherPassword: bytes,
                     otherSeed: Option<bytes>, profile: SecurityProfile, rnd: Randomness) {
    var own := WrappedByHand(crypto, password, seed, profile, rnd);
    own.Some? && WrappedByHand(crypto, otherPassword, otherSeed, profile, rnd) == own
  }

  lemma OtherSecrets(crypto: Crypto, password: bytes, seed: Option<bytes>, otherPassword: bytes,
                     otherSeed: Option<bytes>, profile: SecurityProfile, rnd: Randomness, e: Envelope)
    requires crypto.Lawful() && Committing(crypto.xchacha)
    requires PasswordWrappingKey(crypto, password, seed, PasswordKdf(profile, rnd.salt)).Some?
    requires e.header == PasswordHeader(crypto,
      PasswordWrappingKey(crypto, password, seed, PasswordKdf(profile, rnd.salt)).value, profile, rnd)
    ensures PasswordFileKey(crypto, e, otherPassword, otherSeed)
         == if SameSlot(crypto, password, seed, otherPassword, otherSeed, profile, rnd)
            then Ok(rnd.fileKey) else Err(DecryptionFailed)
  {
    var key := PasswordWrappingKey(crypto, password, seed, PasswordKdf(profile, rnd.salt)).value;
    var other := PasswordWrappingKey(crypto, otherPassword, otherSeed, PasswordKdf(profile, rnd.salt));
    assert FirstPassword(e.header.recipients) == Some(e.header.recipients[0]);
    if other.Some? { OpensTruly(crypto.xchacha, key, other.value, rnd.wrapNonce, [], rnd.fileKey); }
  }

  lemma SecretsOpen(crypto: Crypto, password: bytes, seed: Option<bytes>, otherPassword: bytes,
                    otherSeed: Option<bytes>, profile: SecurityProfile, rnd: Randomness, plaintext: bytes,
                    contentType: Option<ContentType>, overridden: bool)
    requires crypto.Lawful() && Committing(crypto.xchacha) && |plaintext| <= U64_MAX
    requires PasswordCapsule(crypto, password, seed, profile, rnd, plaintext, contentType, overridden).Some?
    ensures var data := PasswordCapsule(crypto, password, seed, profile, rnd, plaintext, contentType, overridden).value;
      && OpenCapsule(crypto, data).Ok?
      && DecryptWithPassword(crypto, data, otherPassword, otherSeed)
         == if SameSlot(crypto, password, seed, otherPassword, otherSeed, profile, rnd)
            then Ok(plaintext) else Err(DecryptionFailed)
  {
    hide Acceptable, OpenCapsule, BuildCapsule, ReadPayload, WritePayload, PasswordFileKey, NewEnvelope, PasswordHeader,
      Usable, SameSlot, PasswordWrappingKey;
    var e := PasswordEnvelope(crypto, password, seed, profile, rnd, |plaintext|, contentType, overridden).value;
    PasswordEnvelopeAcceptable(crypto, password, seed, profile, rnd, |plaintext|, contentType, overridden);
    CapsuleRoundTrip(crypto, e, WritePayload(crypto, e, rnd.fileKey, plaintext));
    var header := PasswordHeader(crypto,
      PasswordWrappingKey(crypto, password, seed, PasswordKdf(profile, rnd.salt)).value, profile, rnd);
    HeaderKept(crypto, header, |plaintext|, rnd, contentType, overridden);
    OtherSecrets(crypto, password, seed, otherPassword, otherSeed, profile, rnd, e);
    PayloadRoundTrip(crypto, e, rnd.fileKey, plaintext);
  }

  /** What any secrets make of a password capsule: the plaintext, exactly when Argon2id
      and key expansion of these secrets wrap the file key to the same bytes, and
      otherwise an error; never other bytes. */
  lemma PasswordOpensIff(crypto: Crypto, password: bytes, seed: Option<bytes>, otherPassword: bytes,
                         otherSeed: Option<bytes>, profile: SecurityProfile, rnd: Randomness, plaintext: bytes,
                         contentType: Option<ContentType>, overridden: bool)
    requires crypto.Lawful() && Committing(crypto.xchacha) && |plaintext| <= U64_MAX
    requires PasswordCapsule(crypto, password, seed, profile, rnd, plaintext, contentType, overridden).Some?
    ensures var data := PasswordCapsule(crypto, password, seed, profile, rnd, plaintext, contentType, overridden).value;
      var own := WrappedByHand(crypto, password, seed, profile, rnd);
      && own.Some?
      && DecryptWithPassword(crypto, data, otherPassword, otherSeed)
         == if WrappedByHand(crypto, otherPassword, otherSeed, profile, rnd) == own
            then Ok(plaintext) else Err(DecryptionFailed)
  {
    hide PasswordCapsule, DecryptWithPassword, OpenCapsule, WrappedByHand;
    CapsuleHasKey(crypto, password, seed, profile, rnd, plaintext, contentType, overridden);
    SecretsOpen(crypto, password, seed, otherPassword, otherSeed, profile, rnd, plaintext, contentType, overridden);
  }

  lemma CapsuleHasKey(crypto: Crypto, password: bytes, seed: Option<bytes>, profile: SecurityProfile, rnd: Randomness,
                      plaintext: bytes, contentType: Option<ContentType>, overridden: bool)
    requires |plaintext| <= U64_MAX
    requires PasswordCapsule(crypto, password, seed, profile, rnd, plaintext, contentType, overridden).Some?
    ensures SameSlot(crypto, password, seed, password, seed, profile, rnd)
  {
    hide NewEnvelope, BuildCapsule, WritePayload, Usable;
  }

  /** The keyed primitives tell a seed from none: a slot made with one does not open
      without. */
  lemma SeedMatters(password: bytes, seed: bytes, profile: SecurityProfile, rnd: Randomness)
    ensures KeyedCrypto().Lawful() && Committing(KeyedCrypto().xchacha)
    ensures !SameSlot(KeyedCrypto(), password, Some(seed), password, None, profile, rnd)
  {
    KeyedCryptoIsLawful();
    var crypto := KeyedCrypto();
    var with := TaggedSeal(KeyTag, Marked(1), rnd.wrapNonce, [], rnd.fileKey);
    var without := TaggedSeal(KeyTag, Marked(0), rnd.wrapNonce, [], rnd.fileKey);
    assert with[32] == 1 && without[32] == 0;
    assert WrappedByHand(crypto, password, Some(seed), profile, rnd) == Some(with);
    assert WrappedByHand(crypto, password, None, profile, rnd) == Some(without);
  }

  lemma HeaderKept(crypto: Crypto, header: EnvelopeHeader, plaintextLen: u64, rnd: Randomness,
                   contentType: Option<ContentType>, overridden: bool)
    ensures NewEnvelope(crypto, header, plaintextLen, rnd, contentType, overridden).header == header
  {
  }

  // ---- Key pairs ----

  datatype PublicKey = PublicKey(x25519: b32, mlkem: bytes)
  datatype PrivateKey = PrivateKey(x25519: b32, mlkem: bytes)

  function PublicOf(crypto: Crypto, key: PrivateKey): PublicKey {
    PublicKey(crypto.kem.x25519Base(key.x25519), crypto.kem.mlkemPublic(key.mlkem))
  }

  /** Fresh values for one recipient slot: an X25519 secret and ML-KEM coins. */
  datatype SlotRandomness = SlotRandomness(ephemeral: b32, mlkemCoins: bytes)

  /** The shared secret, unless the peer's key contributes nothing. */
  function ContributoryX25519(crypto: Crypto, secret: b32, public: b32): Option<b32> {
    if public == Zeroes(32) then None
    else
      var shared := crypto.kem.x25519(secret, public);
      if crypto.kem.contributory(shared) then Some(shared) else None
  }

  function HybridWrappingKey(crypto: Crypto, x25519Shared: b32, mlkemShared: bytes): b32 {
    crypto.hkdf([], x25519Shared + mlkemShared, Ascii("Lvau-Hybrid-Wrap"))
  }

  /** The wrapped file key of a key-pair slot, with the primitives spelled out. */
  function HybridWrappedByHand(crypto: Crypto, fileKey: bytes, x25519Shared: b32, mlkemShared: bytes): bytes {
    crypto.xchacha.seal(crypto.hkdf([], x25519Shared + mlkemShared, Ascii("Lvau-Hybrid-Wrap")), Zeroes(24), [], fileKey)
  }

  /** A private key agrees on what the slot for `public` was wrapped under: both shared
      secrets together wrap the file key to the same bytes. */
  predicate AgreesByHand(crypto: Crypto, fileKey: bytes, public: PublicKey, coins: SlotRandomness, key: PrivateKey) {
    var kem := crypto.kem;
    var (ciphertext, secret) := kem.encapsulate(public.mlkem, coins.mlkemCoins);
    var mine := kem.x25519(key.x25519, kem.x25519Base(coins.ephemeral));
    && kem.contributory(mine)
    && HybridWrappedByHand(crypto, fileKey, mine, kem.decapsulate(key.mlkem, ciphertext)) ==
         HybridWrappedByHand(crypto, fileKey, kem.x25519(coins.ephemeral, public.x25519), secret)
  }

  function WrapFor(crypto: Crypto, fileKey: b32, public: PublicKey, coins: SlotRandomness): Option<Recipient> {
    var shared :- ContributoryX25519(crypto, coins.ephemeral, public.x25519);
    var (ciphertext, secret) := crypto.kem.encapsulate(public.mlkem, coins.mlkemCoins);
    Some(HybridRecipient(crypto.kem.x25519Base(coins.ephemeral), ciphertext,
      crypto.xchacha.seal(HybridWrappingKey(crypto, shared, secret), Zeroes(24), [], fileKey)))
  }

  /** One slot per recipient, in order; one unusable key fails the encryption. */
  function WrapForAll(crypto: Crypto, fileKey: b32, publics: seq<PublicKey>,
                      coins: seq<SlotRandomness>): (r: Option<seq<Recipient>>)
    requires |coins| == |publics|
    ensures r.Some? ==> |r.value| == |publics|
  {
    if publics == [] then Some([])
    else
      var slot :- WrapFor(crypto, fileKey, publics[0], coins[0]);
      var more :- WrapForAll(crypto, fileKey, publics[1..], coins[1..]);
      Some([slot] + more)
  }

  /** What a private key gets out of one slot. */
  function OpenSlot(crypto: Crypto, slot: Recipient, key: PrivateKey): Option<bytes> {
    if slot.PasswordRecipient? then None
    else
      var shared :- ContributoryX25519(crypto, key.x25519, slot.ephemeralPublic);
      if |slot.mlkemCiphertext| != MLKEM_CIPHERTEXT_LEN then None
      else
        var secret := crypto.kem.decapsulate(key.mlkem, slot.mlkemCiphertext);
        crypto.xchacha.open(HybridWrappingKey(crypto, shared, secret), Zeroes(24), [], slot.encryptedFileKey)
  }

  /** The file key from the first slot that opens. */
  function FirstOpening(crypto: Crypto, slots: seq<Recipient>, key: PrivateKey): Option<bytes> {
    if slots == [] then None
    else
      var opening := OpenSlot(crypto, slots[0], key);
      if opening.Some? then opening else FirstOpening(crypto, slots[1..], key)
  }

  /** Try every slot: skip the password slots and those that do not open. */
  method UnwrapKeypairFileKey(crypto: Crypto, e: Envelope, key: PrivateKey) returns (r: Result<bytes, CryptoError>)
    ensures r == match FirstOpening(crypto, e.header.recipients, key)
      case Some(fileKey) => Ok(fileKey)
      case None => Err(DecryptionFailed)
  {
    var slots := e.header.recipients;
    for k := 0 to |slots|
      invariant FirstOpening(crypto, slots, key) == FirstOpening(crypto, slots[k..], key)
    {
      assert slots[k..][0] == slots[k] && slots[k..][1..] == slots[k + 1..];
      var slot := slots[k];
      if slot.PasswordRecipient? { continue; }
      var shared := ContributoryX25519(crypto, key.x25519, slot.ephemeralPublic);
      if shared.None? { continue; }
      if |slot.mlkemCiphertext| != MLKEM_CIPHERTEXT_LEN { continue; }
      var secret := crypto.kem.decapsulate(key.mlkem, slot.mlkemCiphertext);
      var wrappingKey := HybridWrappingKey(crypto, shared.value, secret);
      var fileKey := crypto.xchacha.open(wrappingKey, Zeroes(24), [], slot.encryptedFileKey);
      if fileKey.Some? { return Ok(fileKey.value); }
    }
    r := Err(DecryptionFailed);
  }

  /** The slot written for a key opens with that key, to the same file key. */
  lemma {:induction false} OwnSlotOpens(crypto: Crypto, fileKey: b32, key: PrivateKey, coins: SlotRandomness)
    requires crypto.Lawful() && WrapFor(crypto, fileKey, PublicOf(crypto, key), coins).Some?
    ensures OpenSlot(crypto, WrapFor(crypto, fileKey, PublicOf(crypto, key), coins).value, key) == Some(fileKey)
  {
    var public := PublicOf(crypto, key);
    var kem := crypto.kem;
    var slot := WrapFor(crypto, fileKey, public, coins).value;
    assert kem.x25519(coins.ephemeral, kem.x25519Base(key.x25519)) ==
      kem.x25519(key.x25519, kem.x25519Base(coins.ephemeral));
    assert kem.x25519Base(coins.ephemeral) != Zeroes(32);
    var shared := kem.x25519(key.x25519, slot.ephemeralPublic);
    var pair := kem.encapsulate(kem.mlkemPublic(key.mlkem), coins.mlkemCoins);
    assert |pair.0| == MLKEM_CIPHERTEXT_LEN && kem.decapsulate(key.mlkem, pair.0) == pair.1;
    OpenIffSealed(crypto.xchacha, HybridWrappingKey(crypto, shared, pair.1), Zeroes(24), [], slot.encryptedFileKey,
      fileKey);
  }

  lemma {:induction false} WrapForAllSlots(crypto: Crypto, fileKey: b32, publics: seq<PublicKey>,
                                           coins: seq<SlotRandomness>)
    requires |coins| == |publics| && WrapForAll(crypto, fileKey, publics, coins).Some?
    ensures var slots := WrapForAll(crypto, fileKey, publics, coins).value;
      && |slots| == |publics|
      && forall k :: 0 <= k < |publics| ==> WrapFor(crypto, fileKey, publics[k], coins[k]) == Some(slots[k])
  {
    if publics != [] {
      WrapForAllSlots(crypto, fileKey, publics[1..], coins[1..]);
      var slots := WrapForAll(crypto, fileKey, publics, coins).value;
      forall k | 0 <= k < |publics|
        ensures WrapFor(crypto, fileKey, publics[k], coins[k]) == Some(slots[k])
      {
        if k > 0 {
          assert publics[k] == publics[1..][k - 1] && coins[k] == coins[1..][k - 1] && slots[k] == slots[1..][k - 1];
        }
      }
    }
  }

  /** None of the first `count` slots is the first to open and opens to some other
      key. (A slot wrapped for somebody else opens under a foreign key only if an
      AEAD tag is matched by accident.) */
  predicate NoFalseOpening(crypto: Crypto, slots: seq<Recipient>, key: PrivateKey, fileKey: bytes, count: nat)
    requires count <= |slots|
  {
    forall k :: 0 <= k < count && (forall j :: 0 <= j < k ==> OpenSlot(crypto, slots[j], key).None?) ==>
      OpenSlot(crypto, slots[k], key) in {None, Some(fileKey)}
  }

  lemma NoFalseOpeningStep(crypto: Crypto, slots: seq<Recipient>, key: PrivateKey, fileKey: bytes, count: nat)
    requires 0 < count <= |slots|
    ensures NoFalseOpening(crypto, slots, key, fileKey, count) <==>
      if OpenSlot(crypto, slots[0], key).Some? then OpenSlot(crypto, slots[0], key) == Some(fileKey)
      else NoFalseOpening(crypto, slots[1..], key, fileKey, count - 1)
  {
    hide OpenSlot;
    var tail := slots[1..];
    assert forall k :: 0 <= k < |tail| ==> tail[k] == slots[k + 1];
    if OpenSlot(crypto, slots[0], key).None? {
      if NoFalseOpening(crypto, slots, key, fileKey, count) {
        forall k | 0 <= k < count - 1 && (forall j :: 0 <= j < k ==> OpenSlot(crypto, tail[j], key).None?)
          ensures OpenSlot(crypto, tail[k], key) in {None, Some(fileKey)}
        {
          forall j | 0 <= j < k + 1 ensures OpenSlot(crypto, slots[j], key).None? {
            if j > 0 { assert slots[j] == tail[j - 1]; }
          }
          assert OpenSlot(crypto, slots[k + 1], key) in {None, Some(fileKey)};
        }
      }
      if NoFalseOpening(crypto, tail, key, fileKey, count - 1) {
        forall k | 0 <= k < count && (forall j :: 0 <= j < k ==> OpenSlot(crypto, slots[j], key).None?)
          ensures OpenSlot(crypto, slots[k], key) in {None, Some(fileKey)}
        {
          if k > 0 {
            forall j | 0 <= j < k - 1 ensures OpenSlot(crypto, tail[j], key).None? { assert tail[j] == slots[j + 1]; }
            assert slots[k] == tail[k - 1];
          }
        }
      }
    }
  }

  lemma {:induction false} FirstOpeningFindsIff(crypto: Crypto, slots: seq<Recipient>, key: PrivateKey, fileKey: bytes,
                                                i: nat)
    requires i < |slots| && OpenSlot(crypto, slots[i], key) == Some(fileKey)
    ensures FirstOpening(crypto, slots, key) == Some(fileKey) <==> NoFalseOpening(crypto, slots, key, fileKey, i)
  {
    hide OpenSlot, NoFalseOpening;
    if i > 0 {
      NoFalseOpeningStep(crypto, slots, key, fileKey, i);
      if OpenSlot(crypto, slots[0], key).None? {
        FirstOpeningFindsIff(crypto, slots[1..], key, fileKey, i - 1);
      }
    } else {
      NothingBefore(crypto, slots, key, fileKey);
    }
  }

  lemma NothingBefore(crypto: Crypto, slots: seq<Recipient>, key: PrivateKey, fileKey: bytes)
    ensures NoFalseOpening(crypto, slots, key, fileKey, 0)
  {
  }

  /** The exact condition without any hypothesis on the ciphers: a recipient at
      position i gets the file key unless an earlier slot opens falsely. */
  lemma {:induction false} RecipientOpensIff(crypto: Crypto, fileKey: b32, publics: seq<PublicKey>,
                                             coins: seq<SlotRandomness>, key: PrivateKey, i: nat)
    requires crypto.Lawful() && |coins| == |publics| && WrapForAll(crypto, fileKey, publics, coins).Some?
    requires i < |publics| && publics[i] == PublicOf(crypto, key)
    ensures FirstOpening(crypto, WrapForAll(crypto, fileKey, publics, coins).value, key) == Some(fileKey)
       <==> NoFalseOpening(crypto, WrapForAll(crypto, fileKey, publics, coins).value, key, fileKey, i)
  {
    hide OpenSlot, WrapFor;
    WrapForAllSlots(crypto, fileKey, publics, coins);
    OwnSlotOpens(crypto, fileKey, key, coins[i]);
    FirstOpeningFindsIff(crypto, WrapForAll(crypto, fileKey, publics, coins).value, key, fileKey, i);
  }

  /** Where ciphertexts determine their messages, every private key gets out of a slot
      what was wrapped in it, or nothing. */
  lemma SlotOpensTruly(crypto: Crypto, fileKey: b32, public: PublicKey, coins: SlotRandomness, key: PrivateKey)
    requires crypto.Lawful() && Committing(crypto.xchacha) && WrapFor(crypto, fileKey, public, coins).Some?
    ensures OpenSlot(crypto, WrapFor(crypto, fileKey, public, coins).value, key) in {None, Some(fileKey)}
  {
    var slot := WrapFor(crypto, fileKey, public, coins).value;
    var opening := OpenSlot(crypto, slot, key);
    if opening.Some? {
      var wrapShared := ContributoryX25519(crypto, coins.ephemeral, public.x25519).value;
      var wrappingKey := HybridWrappingKey(crypto, wrapShared,
        crypto.kem.encapsulate(public.mlkem, coins.mlkemCoins).1);
      var shared := ContributoryX25519(crypto, key.x25519, slot.ephemeralPublic).value;
      var openingKey := HybridWrappingKey(crypto, shared, crypto.kem.decapsulate(key.mlkem, slot.mlkemCiphertext));
      OpensTruly(crypto.xchacha, wrappingKey, openingKey, Zeroes(24), [], fileKey);
    }
  }

  /** A wrong key opens a ciphertext to its message or not at all. */
  lemma OpensTruly(p: Aead, key: b32, other: b32, nonce: bytes, aad: bytes, m: bytes)
    requires p.Lawful() && Committing(p)
    ensures p.open(other, nonce, aad, p.seal(key, nonce, aad, m)) in {None, Some(m)}
    ensures p.open(other, nonce, aad, p.seal(key, nonce, aad, m)).Some? <==>
      p.seal(other, nonce, aad, m) == p.seal(key, nonce, aad, m)
  {
    var c := p.seal(key, nonce, aad, m);
    var opening := p.open(other, nonce, aad, c);
    OpenIffSealed(p, other, nonce, aad, c, m);
    if opening.Some? {
      OpenIffSealed(p, other, nonce, aad, c, opening.value);
      assert p.seal(other, nonce, aad, opening.value) == p.seal(key, nonce, aad, m);
    }
  }

  /** What a slot is, and exactly which private keys open it. */
  lemma SlotOpensIff(crypto: Crypto, fileKey: b32, public: PublicKey, coins: SlotRandomness, key: PrivateKey)
    requires crypto.Lawful() && Committing(crypto.xchacha) && WrapFor(crypto, fileKey, public, coins).Some?
    ensures var kem := crypto.kem;
      var (ciphertext, secret) := kem.encapsulate(public.mlkem, coins.mlkemCoins);
      var wrapped := HybridWrappedByHand(crypto, fileKey, kem.x25519(coins.ephemeral, public.x25519), secret);
      var slot := WrapFor(crypto, fileKey, public, coins).value;
      && slot == HybridRecipient(kem.x25519Base(coins.ephemeral), ciphertext, wrapped)
      && OpenSlot(crypto, slot, key)
         == if AgreesByHand(crypto, fileKey, public, coins, key) then Some(fileKey) else None
  {
    var kem := crypto.kem;
    var slot := WrapFor(crypto, fileKey, public, coins).value;
    assert kem.x25519Base(coins.ephemeral) != Zeroes(32);
    var shared := ContributoryX25519(crypto, key.x25519, slot.ephemeralPublic);
    if shared.Some? {
      var wrapShared := ContributoryX25519(crypto, coins.ephemeral, public.x25519).value;
      var wrappingKey := HybridWrappingKey(crypto, wrapShared, kem.encapsulate(public.mlkem, coins.mlkemCoins).1);
      var openingKey := HybridWrappingKey(crypto, shared.value, kem.decapsulate(key.mlkem, slot.mlkemCiphertext));
      OpensTruly(crypto.xchacha, wrappingKey, openingKey, Zeroes(24), [], fileKey);
    }
  }

  lemma {:induction false} FirstOpeningTruly(crypto: Crypto, slots: seq<Recipient>, key: PrivateKey, fileKey: bytes)
    requires forall k :: 0 <= k < |slots| ==> OpenSlot(crypto, slots[k], key) in {None, Some(fileKey)}
    ensures FirstOpening(crypto, slots, key) in {None, Some(fileKey)}
    ensures FirstOpening(crypto, slots, key).Some? <==>
      exists k :: 0 <= k < |slots| && OpenSlot(crypto, slots[k], key).Some?
  {
    hide OpenSlot;
    if slots != [] {
      FirstOpeningTruly(crypto, slots[1..], key, fileKey);
      if exists k :: 0 <= k < |slots[1..]| && OpenSlot(crypto, slots[1..][k], key).Some? {
        var k :| 0 <= k < |slots[1..]| && OpenSlot(crypto, slots[1..][k], key).Some?;
        assert OpenSlot(crypto, slots[k + 1], key).Some?;
      }
    }
  }

  /** Any private key gets the file key out of a recipient list, or nothing. */
  lemma KeypairKeyOrNothing(crypto: Crypto, fileKey: b32, publics: seq<PublicKey>, coins: seq<SlotRandomness>,
                            key: PrivateKey)
    requires crypto.Lawful() && Committing(crypto.xchacha) && |coins| == |publics|
    requires WrapForAll(crypto, fileKey, publics, coins).Some?
    ensures var slots := WrapForAll(crypto, fileKey, publics, coins).value;
      && FirstOpening(crypto, slots, key) in {None, Some(fileKey)}
      && (FirstOpening(crypto, slots, key).Some? <==>
           exists k :: 0 <= k < |slots| && OpenSlot(crypto, slots[k], key).Some?)
  {
    hide OpenSlot, WrapFor, WrapForAll, FirstOpening;
    var slots := WrapForAll(crypto, fileKey, publics, coins).value;
    WrapForAllSlots(crypto, fileKey, publics, coins);
    forall k | 0 <= k < |slots| ensures OpenSlot(crypto, slots[k], key) in {None, Some(fileKey)} {
      SlotOpensTruly(crypto, fileKey, publics[k], coins[k], key);
    }
    FirstOpeningTruly(crypto, slots, key, fileKey);
  }

  /** Every recipient can open, whatever the number of recipients and the position
      among them: the other slots are skipped or fail. */
  lemma {:induction false} EveryRecipientOpens(crypto: Crypto, fileKey: b32, publics: seq<PublicKey>,
                                               coins: seq<SlotRandomness>, key: PrivateKey, i: nat)
    requires crypto.Lawful() && Committing(crypto.xchacha) && |coins| == |publics|
    requires WrapForAll(crypto, fileKey, publics, coins).Some?
    requires i < |publics| && publics[i] == PublicOf(crypto, key)
    ensures FirstOpening(crypto, WrapForAll(crypto, fileKey, publics, coins).value, key) == Some(fileKey)
  {
    hide OpenSlot, WrapFor, WrapForAll, FirstOpening;
    WrapForAllSlots(crypto, fileKey, publics, coins);
    OwnSlotOpens(crypto, fileKey, key, coins[i]);
    KeypairKeyOrNothing(crypto, fileKey, publics, coins, key);
  }

  function KeypairHeader(profile: SecurityProfile, slots: seq<Recipient>): EnvelopeHeader {
    EnvelopeHeader(MagicReal(), CURRENT_VERSION, profile, AlgorithmFor(profile), None, slots)
  }

  lemma {:induction false} HybridSlots(crypto: Crypto, fileKey: b32, publics: seq<PublicKey>,
                                       coins: seq<SlotRandomness>)
    requires crypto.Lawful() && |coins| == |publics| && WrapForAll(crypto, fileKey, publics, coins).Some?
    ensures var slots := WrapForAll(crypto, fileKey, publics, coins).value;
      && |slots| == |publics| && PasswordSlots(slots) == 0
      && forall k :: 0 <= k < |slots| ==> |slots[k].encryptedFileKey| == 48
  {
    if publics != [] {
      HybridSlots(crypto, fileKey, publics[1..], coins[1..]);
      var slots := WrapForAll(crypto, fileKey, publics, coins).value;
      assert slots[1..] == WrapForAll(crypto, fileKey, publics[1..], coins[1..]).value;
      forall k | 0 <= k < |slots| ensures |slots[k].encryptedFileKey| == 48 {
        if k > 0 { assert slots[k] == slots[1..][k - 1]; }
      }
    }
  }

  /** The key-pair writer's envelope passes all of the reader's checks exactly for
      1 to 64 recipients. */
  lemma KeypairEnvelopeAcceptableIff(crypto: Crypto, publics: seq<PublicKey>, coins: seq<SlotRandomness>,
                                     profile: SecurityProfile, rnd: Randomness, plaintextLen: u64,
                                     contentType: Option<ContentType>, overridden: bool)
    requires crypto.Lawful() && |coins| == |publics| && WrapForAll(crypto, rnd.fileKey, publics, coins).Some?
    ensures var slots := WrapForAll(crypto, rnd.fileKey, publics, coins).value;
      var e := NewEnvelope(crypto, KeypairHeader(profile, slots), plaintextLen, rnd, contentType, overridden);
      && (Acceptable(crypto, e) <==> 1 <= |publics| <= MAX_RECIPIENTS)
      && Usable(PayloadContext(crypto, e, rnd.fileKey)) && e.plaintextLen == plaintextLen &&
           e.header == KeypairHeader(profile, slots)
  {
    hide Acceptable, NewEnvelope, WrapForAll;
    HybridSlots(crypto, rnd.fileKey, publics, coins);
    var slots := WrapForAll(crypto, rnd.fileKey, publics, coins).value;
    NewEnvelopeAcceptable(crypto, KeypairHeader(profile, slots), plaintextLen, rnd, contentType, overridden);
  }

  function KeypairCapsule(crypto: Crypto, publics: seq<PublicKey>, coins: seq<SlotRandomness>, profile: SecurityProfile,
                          rnd: Randomness, plaintext: bytes, contentType: Option<ContentType>,
                            overridden: bool): Option<bytes>
    requires |coins| == |publics| && |plaintext| <= U64_MAX
  {
    var slots :- WrapForAll(crypto, rnd.fileKey, publics, coins);
    var e := NewEnvelope(crypto, KeypairHeader(profile, slots), |plaintext|, rnd, contentType, overridden);
    if !ValidResources(e) || !Usable(PayloadContext(crypto, e, rnd.fileKey)) then None
    else BuildCapsule(e, WritePayload(crypto, e, rnd.fileKey, plaintext))
  }

  function DecryptWithKeypair(crypto: Crypto, data: bytes, key: PrivateKey): Result<bytes, CryptoError> {
    var (e, ciphertext) :- OpenCapsule(crypto, data);
    match FirstOpening(crypto, e.header.recipients, key)
    case None => Err(DecryptionFailed)
    case Some(fileKey) =>
      match ReadPayload(crypto, e, fileKey, ciphertext)
      case Some(plaintext) => Ok(plaintext)
      case None => Err(DecryptionFailed)
  }

  /** What opens a key-pair capsule decides what it decrypts to. */
  lemma KeypairDecryption(crypto: Crypto, publics: seq<PublicKey>, coins: seq<SlotRandomness>, profile: SecurityProfile,
                          rnd: Randomness, plaintext: bytes, contentType: Option<ContentType>, overridden: bool,
                          key: PrivateKey)
    requires crypto.Lawful() && |coins| == |publics| && |plaintext| <= U64_MAX
    requires KeypairCapsule(crypto, publics, coins, profile, rnd, plaintext, contentType, overridden).Some?
    ensures var data := KeypairCapsule(crypto, publics, coins, profile, rnd, plaintext, contentType, overridden).value;
      var opening := FirstOpening(crypto, WrapForAll(crypto, rnd.fileKey, publics, coins).value, key);
      && OpenCapsule(crypto, data).Ok?
      && (opening == Some(rnd.fileKey) ==> DecryptWithKeypair(crypto, data, key) == Ok(plaintext))
      && (opening.None? ==> DecryptWithKeypair(crypto, data, key) == Err(DecryptionFailed))
  {
    hide Acceptable, OpenCapsule, BuildCapsule, ReadPayload, WritePayload, NewEnvelope, Usable, FirstOpening,
      WrapForAll, ValidResources;
    var slots := WrapForAll(crypto, rnd.fileKey, publics, coins).value;
    var header := KeypairHeader(profile, slots);
    var e := NewEnvelope(crypto, header, |plaintext|, rnd, contentType, overridden);
    NewEnvelopeAcceptable(crypto, header, |plaintext|, rnd, contentType, overridden);
    CapsuleRoundTrip(crypto, e, WritePayload(crypto, e, rnd.fileKey, plaintext));
    PayloadRoundTrip(crypto, e, rnd.fileKey, plaintext);
  }

  /** From the laws alone: a recipient gets the plaintext back unless an earlier slot
      opens falsely. */
  lemma KeypairRoundTripUnlessFalse(crypto: Crypto, publics: seq<PublicKey>, coins: seq<SlotRandomness>,
                                    profile: SecurityProfile, rnd: Randomness, plaintext: bytes,
                                    contentType: Option<ContentType>, overridden: bool, key: PrivateKey, i: nat)
    requires crypto.Lawful() && |coins| == |publics| && |plaintext| <= U64_MAX
    requires KeypairCapsule(crypto, publics, coins, profile, rnd, plaintext, contentType, overridden).Some?
    requires i < |publics| && publics[i] == PublicOf(crypto, key)
    requires WrapForAll(crypto, rnd.fileKey, publics, coins).Some?
    requires NoFalseOpening(crypto, WrapForAll(crypto, rnd.fileKey, publics, coins).value, key, rnd.fileKey, i)
    ensures var data := KeypairCapsule(crypto, publics, coins, profile, rnd, plaintext, contentType, overridden).value;
      OpenCapsule(crypto, data).Ok? && DecryptWithKeypair(crypto, data, key) == Ok(plaintext)
  {
    hide OpenCapsule, KeypairCapsule, DecryptWithKeypair, FirstOpening, WrapForAll, NoFalseOpening;
    RecipientOpensIff(crypto, rnd.fileKey, publics, coins, key, i);
    KeypairDecryption(crypto, publics, coins, profile, rnd, plaintext, contentType, overridden, key);
  }

  /** Every recipient of a key-pair capsule gets the plaintext back. */
  lemma KeypairRoundTrip(crypto: Crypto, publics: seq<PublicKey>, coins: seq<SlotRandomness>, profile: SecurityProfile,
                         rnd: Randomness, plaintext: bytes, contentType: Option<ContentType>, overridden: bool,
                         key: PrivateKey, i: nat)
    requires crypto.Lawful() && Committing(crypto.xchacha) && |coins| == |publics| && |plaintext| <= U64_MAX
    requires KeypairCapsule(crypto, publics, coins, profile, rnd, plaintext, contentType, overridden).Some?
    requires i < |publics| && publics[i] == PublicOf(crypto, key)
    ensures var data := KeypairCapsule(crypto, publics, coins, profile, rnd, plaintext, contentType, overridden).value;
      OpenCapsule(crypto, data).Ok? && DecryptWithKeypair(crypto, data, key) == Ok(plaintext)
  {
    hide OpenCapsule, KeypairCapsule, DecryptWithKeypair, FirstOpening, WrapForAll;
    KeypairSlots(crypto, publics, coins, profile, rnd, plaintext, contentType, overridden);
    EveryRecipientOpens(crypto, rnd.fileKey, publics, coins, key, i);
    KeypairDecryption(crypto, publics, coins, profile, rnd, plaintext, contentType, overridden, key);
  }

  lemma KeypairSlots(crypto: Crypto, publics: seq<PublicKey>, coins: seq<SlotRandomness>, profile: SecurityProfile,
                     rnd: Randomness, plaintext: bytes, contentType: Option<ContentType>, overridden: bool)
    requires |coins| == |publics| && |plaintext| <= U64_MAX
    requires KeypairCapsule(crypto, publics, coins, profile, rnd, plaintext, contentType, overridden).Some?
    ensures WrapForAll(crypto, rnd.fileKey, publics, coins).Some?
  {
  }

  /** Exactly which private keys decrypt a key-pair capsule: those that agree on some
      slot. They get the plaintext, all others an error; nobody gets other bytes. */
  lemma KeypairOpensIff(crypto: Crypto, publics: seq<PublicKey>, coins: seq<SlotRandomness>, profile: SecurityProfile,
                        rnd: Randomness, plaintext: bytes, contentType: Option<ContentType>, overridden: bool,
                        key: PrivateKey)
    requires crypto.Lawful() && Committing(crypto.xchacha) && |coins| == |publics| && |plaintext| <= U64_MAX
    requires KeypairCapsule(crypto, publics, coins, profile, rnd, plaintext, contentType, overridden).Some?
    ensures var data := KeypairCapsule(crypto, publics, coins, profile, rnd, plaintext, contentType, overridden).value;
      DecryptWithKeypair(crypto, data, key)
      == if exists k :: 0 <= k < |publics| && AgreesByHand(crypto, rnd.fileKey, publics[k], coins[k], key)
         then Ok(plaintext) else Err(DecryptionFailed)
  {
    hide OpenCapsule, KeypairCapsule, DecryptWithKeypair, FirstOpening, WrapForAll, OpenSlot, AgreesByHand, WrapFor,
      HybridWrappedByHand;
    KeypairSlots(crypto, publics, coins, profile, rnd, plaintext, contentType, overridden);
    var slots := WrapForAll(crypto, rnd.fileKey, publics, coins).value;
    KeypairKeyOrNothing(crypto, rnd.fileKey, publics, coins, key);
    KeypairDecryption(crypto, publics, coins, profile, rnd, plaintext, contentType, overridden, key);
    WrapForAllSlots(crypto, rnd.fileKey, publics, coins);
    forall k | 0 <= k < |publics|
      ensures OpenSlot(crypto, slots[k], key).Some? <==> AgreesByHand(crypto, rnd.fileKey, publics[k], coins[k], key)
    {
      SlotOpensIff(crypto, rnd.fileKey, publics[k], coins[k], key);
    }
  }

  /** No password opens a key-pair capsule. */
  lemma KeypairCapsuleTakesNoPassword(crypto: Crypto, publics: seq<PublicKey>, coins: seq<SlotRandomness>,
                                      profile: SecurityProfile, rnd: Randomness, plaintext: bytes,
                                      contentType: Option<ContentType>, overridden: bool, password: bytes,
                                      seed: Option<bytes>)
    requires crypto.Lawful() && |coins| == |publics| && |plaintext| <= U64_MAX
    requires KeypairCapsule(crypto, publics, coins, profile, rnd, plaintext, contentType, overridden).Some?
    ensures var data := KeypairCapsule(crypto, publics, coins, profile, rnd, plaintext, contentType, overridden).value;
      OpenCapsule(crypto, data).Ok? && DecryptWithPassword(crypto, data, password, seed) == Err(MissingKdfParams)
  {
    hide Acceptable, OpenCapsule, BuildCapsule, ReadPayload, WritePayload, NewEnvelope, Usable, WrapForAll,
      ValidResources;
    var header := KeypairHeader(profile, WrapForAll(crypto, rnd.fileKey, publics, coins).value);
    var e := NewEnvelope(crypto, header, |plaintext|, rnd, contentType, overridden);
    NewEnvelopeAcceptable(crypto, header, |plaintext|, rnd, contentType, overridden);
    CapsuleRoundTrip(crypto, e, WritePayload(crypto, e, rnd.fileKey, plaintext));
  }
}
