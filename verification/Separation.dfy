/** What keys, nonces, commitments and secrets are for: for any two that differ there
    are lawful primitives under which what was made with the one is refused with the
    other. A construction that left one of them out would not allow that. */
module Separation {
  import opened Bytes
  import opened ChunkCipher
  import opened Errors
  import opened FileCrypto
  import opened Frames
  import opened Primitives
  import opened Protocol
  import Framing
  import Sizes

  // ---- Contexts of payload frames ----

  /** What a context contributes to its frames besides the primitives. */
  datatype Inputs = Inputs(
    algorithm: AlgorithmId, rootKey: bytes, nonce: b24, secondaryNonce: Option<b12>, commitment: b32)

  function InputsOf(ctx: Context): Inputs {
    Inputs(ctx.algorithm, ctx.rootKey, ctx.nonce, ctx.secondaryNonce, ctx.commitment)
  }

  /** Another commitment; or, for one algorithm, another file key, another base nonce or,
      in a cascade, another second base nonce. */
  predicate Differ(a: Inputs, b: Inputs) {
    || a.commitment != b.commitment
    || (&& a.algorithm == b.algorithm
        && (|| a.rootKey != b.rootKey || a.nonce != b.nonce
            || (NeedsSecondaryNonce(a.algorithm) && a.secondaryNonce != b.secondaryNonce)))
  }

  /** The nonce that the inner tags below show. */
  function InnerNonce(message: bytes): bytes {
    if |message| < TAG_LEN then [] else message[|message| - TAG_LEN..][..12]
  }

  /** What the outermost layer of some frame with these inputs is run on. */
  ghost predicate Belongs(a: Inputs, nonce: bytes, aad: bytes, message: bytes) {
    exists i: u64 :: BelongsAt(a, i, nonce, aad, message)
  }

  predicate BelongsAt(a: Inputs, i: u64, nonce: bytes, aad: bytes, message: bytes) {
    && nonce == Framing.NonceFor(a.nonce, i) && aad == a.commitment + Le(i, 8)
    && (NeedsSecondaryNonce(a.algorithm) ==>
          a.secondaryNonce.Some? && InnerNonce(message) == Framing.NonceFor(a.secondaryNonce.value, i))
  }

  ghost function BelongingTag(a: Inputs, key: b32, nonce: bytes, aad: bytes, message: bytes): b16 {
    if key == Marked(1) && Belongs(a, nonce, aad, message) then Marked(1)[..TAG_LEN] else Zeroes(TAG_LEN)
  }

  ghost function BelongingMark(a: Inputs): Marking { (k, n, aad, m) => BelongingTag(a, k, n, aad, m) }

  function ByCommitment(commitment: b32, algorithm: AlgorithmId, otherwise: AlgorithmId): bytes -> AlgorithmId {
    aad => if commitment <= aad then algorithm else otherwise
  }

  /** Primitives whose tags show whether a frame has the given inputs; frames under other
      commitments are expected to be of the algorithm `otherwise`. */
  ghost function ApartCrypto(a: Inputs, otherwise: AlgorithmId): Crypto {
    ToyCrypto().(
      xchacha := TaggedAead(Showing(ByCommitment(a.commitment, a.algorithm, otherwise), BelongingMark(a))),
      hkdf := (salt: bytes, input: bytes, info: bytes) =>
        if info == Label(LegacyLco) then Zeroes(32) else Marked(if input == a.rootKey then 1 else 0))
  }

  /** The frames of the context are made with these primitives. */
  ghost predicate SealsWith(ctx: Context, crypto: Crypto) {
    && ctx.crypto.xchacha == crypto.xchacha && ctx.crypto.aesgcm == crypto.aesgcm && ctx.crypto.hkdf == crypto.hkdf
  }

  lemma ApartIsLawful(a: Inputs, otherwise: AlgorithmId)
    ensures ApartCrypto(a, otherwise).Lawful()
  {
    LawsAreSatisfiable();
    TaggedIsLawful(Showing(ByCommitment(a.commitment, a.algorithm, otherwise), BelongingMark(a)));
  }

  lemma CommitmentStarts(commitment: b32, other: b32, index: u64)
    ensures commitment <= Framing.ChunkAadFor(other, index) <==> commitment == other
  {
    var aad := Framing.ChunkAadFor(other, index);
    assert aad[..32] == other;
  }

  lemma OuterKeyShows(ctx: Context, a: Inputs, otherwise: AlgorithmId)
    requires SealsWith(ctx, ApartCrypto(a, otherwise))
    ensures OuterKey(ctx) == Marked(if ctx.rootKey == a.rootKey then 1 else 0)
    ensures ctx.Subkey(LegacyLco) == Zeroes(32)
  {
    var purpose := if ctx.algorithm.XChaCha20Poly1305? then Payload else CascadeXChaCha;
    if Label(purpose) == Label(LegacyLco) { LabelsDistinct(purpose, LegacyLco); }
  }

  lemma InnerNonceShows(ctx: Context, index: u64, chunk: bytes)
    requires Usable(ctx) && NeedsSecondaryNonce(ctx.algorithm) && ctx.crypto.aesgcm == ToyCrypto().aesgcm
    ensures InnerNonce(OuterMessage(ctx, index, chunk)) == Framing.AesNonceFor(ctx.secondaryNonce.value, index)
  {
    hide Framing.NonceFor, Framing.ChunkAadFor;
    var nonce := Framing.AesNonceFor(ctx.secondaryNonce.value, index);
    assert (nonce + Zeroes(TAG_LEN))[..TAG_LEN][..12] == nonce;
    TagAtEnd(chunk, (nonce + Zeroes(TAG_LEN))[..TAG_LEN]);
  }

  /** Frames of the context itself carry the mark, at every index. */
  lemma OwnFrame(ctx: Context, otherwise: AlgorithmId, index: u64, chunk: bytes)
    requires Usable(ctx) && SealsWith(ctx, ApartCrypto(InputsOf(ctx), otherwise))
    ensures TagOf(Seal(ctx, index, chunk)) == Marked(1)[..TAG_LEN]
  {
    hide Seal, TagOf, Framing.NonceFor, OuterMessage, OuterKey, InnerNonce;
    var a := InputsOf(ctx);
    OuterKeyShows(ctx, a, otherwise);
    CommitmentStarts(ctx.commitment, ctx.commitment, index);
    if NeedsSecondaryNonce(ctx.algorithm) { InnerNonceShows(ctx, index, chunk); }
    var nonce, aad := Framing.XChaChaNonceFor(ctx.nonce, index), Framing.ChunkAadFor(ctx.commitment, index);
    assert BelongsAt(a, index, nonce, aad, OuterMessage(ctx, index, chunk));
    ShownMark(ctx, ByCommitment(ctx.commitment, ctx.algorithm, otherwise), BelongingMark(a), index, chunk);
  }

  /** Frames of a context with other inputs do not. */
  lemma OtherFrame(ctx: Context, a: Inputs, index: u64, chunk: bytes)
    requires Usable(ctx) && Differ(a, InputsOf(ctx)) && SealsWith(ctx, ApartCrypto(a, ctx.algorithm))
    ensures TagOf(Seal(ctx, index, chunk)) == Zeroes(TAG_LEN)
  {
    hide Seal, TagOf, Framing.NonceFor, OuterMessage, OuterKey, InnerNonce;
    OuterKeyShows(ctx, a, ctx.algorithm);
    CommitmentStarts(a.commitment, ctx.commitment, index);
    var nonce, aad := Framing.XChaChaNonceFor(ctx.nonce, index), Framing.ChunkAadFor(ctx.commitment, index);
    var message := OuterMessage(ctx, index, chunk);
    if ctx.rootKey == a.rootKey {
      forall i: u64 ensures !BelongsAt(a, i, nonce, aad, message) { NotBelonging(ctx, a, index, i, chunk); }
    }
    assert Marked(0)[0] != Marked(1)[0];
    ShownMark(ctx, ByCommitment(a.commitment, a.algorithm, ctx.algorithm), BelongingMark(a), index, chunk);
  }

  lemma NotBelonging(ctx: Context, a: Inputs, index: u64, i: u64, chunk: bytes)
    requires Usable(ctx) && Differ(a, InputsOf(ctx)) && ctx.crypto.aesgcm == ToyCrypto().aesgcm
    requires ctx.rootKey == a.rootKey
    ensures !BelongsAt(a, i, Framing.XChaChaNonceFor(ctx.nonce, index), Framing.ChunkAadFor(ctx.commitment, index),
      OuterMessage(ctx, index, chunk))
  {
    hide Framing.NonceFor, OuterMessage, InnerNonce;
    var nonce, aad := Framing.XChaChaNonceFor(ctx.nonce, index), Framing.ChunkAadFor(ctx.commitment, index);
    if aad == a.commitment + Le(i, 8) {
      assert a.commitment + Le(i, 8) == Framing.ChunkAadFor(a.commitment, i);
      Framing.ChunkAadInjective(a.commitment, i, ctx.commitment, index);
      if nonce == Framing.NonceFor(a.nonce, i) { Framing.NonceBaseInjective(a.nonce, ctx.nonce, i); }
      if NeedsSecondaryNonce(ctx.algorithm) {
        InnerNonceShows(ctx, index, chunk);
        if a.secondaryNonce.Some? && InnerNonce(OuterMessage(ctx, index, chunk)) ==
          Framing.NonceFor(a.secondaryNonce.value, i)
        {
          Framing.NonceBaseInjective(a.secondaryNonce.value, ctx.secondaryNonce.value, i);
        }
      }
    }
  }

  /** For every two contexts with different inputs there are lawful primitives whose tags
      tell them apart. */
  lemma TagsApartIsSatisfiable(a: Context, b: Context)
    requires Usable(a) && Usable(b) && Differ(InputsOf(a), InputsOf(b))
    requires SealsWith(a, ApartCrypto(InputsOf(a), b.algorithm)) && SealsWith(b, ApartCrypto(InputsOf(a), b.algorithm))
    ensures ApartCrypto(InputsOf(a), b.algorithm).Lawful() && TagsApart(a, b)
  {
    hide Seal, TagOf, ApartCrypto, Differ;
    ApartIsLawful(InputsOf(a), b.algorithm);
    forall i: u64, j: u64, m, n ensures TagOf(Seal(a, i, m)) != TagOf(Seal(b, j, n)) {
      OwnFrame(a, b.algorithm, i, m);
      OtherFrame(b, InputsOf(a), j, n);
      assert Marked(1)[..TAG_LEN][0] != Zeroes(TAG_LEN)[0];
    }
  }

  /** So a payload is not accepted with another file key, base nonce or commitment than
      it was written with: under these primitives no frame of the one passes for one of
      the other, whatever length and version are declared. */
  lemma OtherInputsRefused(a: Context, b: Context, chunkSize: nat, version: u16, plaintext: bytes, versionRead: u16,
                           declared: u64)
    requires Usable(a) && Usable(b) && Differ(InputsOf(a), InputsOf(b)) && chunkSize > 0 && |plaintext| <= U64_MAX
    requires a.crypto == b.crypto == ApartCrypto(InputsOf(a), b.algorithm)
    ensures a.crypto.Lawful()
    ensures var payload := PayloadFrames(a, chunkSize, version, plaintext);
      && Accepted(a, chunkSize, version, |plaintext|, payload) == Some(plaintext)
      && (payload != [] ==> Accepted(b, chunkSize, versionRead, declared, payload).None?)
  {
    hide Accepted, PayloadFrames, Seal, TagOf, ApartCrypto, Differ, TagsApart;
    TagsApartIsSatisfiable(a, b);
    RoundTrip(a, chunkSize, version, plaintext);
    BothAcceptIff(a, b, chunkSize, version, versionRead, |plaintext|, declared,
      PayloadFrames(a, chunkSize, version, plaintext));
  }

  // ---- Passwords ----

  /** The first and the last byte, repeated so that half of the result shows both. */
  function Shown(input: bytes): b32 {
    if input == [] then Zeroes(32) else seq(32, k => if k == 0 then input[0] else input[|input| - 1])
  }

  /** Primitives that tell one password with its seed from all others. */
  function PasswordTelling(password: bytes, seed: Option<bytes>): Crypto {
    KeyedCrypto().(
      hkdf := (salt: bytes, input: bytes, info: bytes) => Shown(input),
      argon2 := (p: bytes, s: Option<bytes>, m: u32, t: u32, l: u32, salt: b16) =>
        Some(Marked(if p == password && s == seed then 1 else 0)))
  }

  lemma TellingWraps(password: bytes, seed: Option<bytes>, p: bytes, s: Option<bytes>, profile: SecurityProfile,
                     rnd: Randomness)
    ensures var mark := Marked(if p == password && s == seed then 1 else 0);
      WrappedByHand(PasswordTelling(password, seed), p, s, profile, rnd) == Some(rnd.fileKey + mark[..TAG_LEN])
  {
    var mark := Marked(if p == password && s == seed then 1 else 0);
    assert Shown(mark) == mark;
  }

  /** Wrong secrets do not decrypt: for a password with its seed and any other password
      or seed, there are lawful and committing primitives under which every capsule
      made with the first decrypts with it, and not with the other. */
  lemma WrongSecretsRefused(password: bytes, seed: Option<bytes>, otherPassword: bytes, otherSeed: Option<bytes>,
                            profile: SecurityProfile, rnd: Randomness, plaintext: bytes,
                            contentType: Option<ContentType>, overridden: bool)
    requires (password, seed) != (otherPassword, otherSeed) && |plaintext| <= U64_MAX
    ensures var crypto := PasswordTelling(password, seed);
      var capsule := PasswordCapsule(crypto, password, seed, profile, rnd, plaintext, contentType, overridden);
      && crypto.Lawful() && Committing(crypto.xchacha) && capsule.Some?
      && DecryptWithPassword(crypto, capsule.value, password, seed) == Ok(plaintext)
      && DecryptWithPassword(crypto, capsule.value, otherPassword, otherSeed) == Err(DecryptionFailed)
  {
    hide PasswordCapsule, DecryptWithPassword, WrappedByHand, PasswordTelling, Committing;
    var crypto := PasswordTelling(password, seed);
    TellingIsLawful(password, seed);
    TellingWraps(password, seed, password, seed, profile, rnd);
    TellingWraps(password, seed, otherPassword, otherSeed, profile, rnd);
    var own, other := rnd.fileKey + Marked(1)[..TAG_LEN], rnd.fileKey + Marked(0)[..TAG_LEN];
    assert own[32] != other[32];
    Sizes.PasswordCapsuleIff(crypto, password, seed, profile, rnd, plaintext, contentType, overridden);
    PasswordOpensIff(crypto, password, seed, password, seed, profile, rnd, plaintext, contentType, overridden);
    PasswordOpensIff(crypto, password, seed, otherPassword, otherSeed, profile, rnd, plaintext, contentType,
      overridden);
  }

  lemma TellingIsLawful(password: bytes, seed: Option<bytes>)
    ensures PasswordTelling(password, seed).Lawful() && Committing(PasswordTelling(password, seed).xchacha)
  {
    KeyedCryptoIsLawful();
  }

  // ---- Key pairs ----

  function X25519Mark(stranger: PrivateKey, secret: b32): (mark: byte)
    ensures mark <= 1
  {
    if secret == stranger.x25519 then 1 else 0
  }

  function MlkemMark(stranger: PrivateKey, secret: bytes): (mark: byte)
    ensures mark <= 1
  {
    if secret == stranger.mlkem then 1 else 0
  }

  /** Key agreement that shows, in each half, whether a given private key took part. */
  function StrangerAgreement(stranger: PrivateKey): KeyAgreement {
    KeyAgreement(
      (secret: b32) => Marked(1 + X25519Mark(stranger, secret)),
      (secret: b32, public: b32) => Marked(X25519Mark(stranger, secret) + if public == Marked(2) then 1 else 0),
      shared => true,
      (secret: bytes) => [MlkemMark(stranger, secret)],
      (public: bytes, coins: bytes) => (Fitted(coins), [if public == [1] then 1 else 0]),
      (secret: bytes, ciphertext: bytes) => [MlkemMark(stranger, secret)])
  }

  function StrangerTelling(stranger: PrivateKey): Crypto {
    KeyedCrypto().(hkdf := (salt: bytes, input: bytes, info: bytes) => Shown(input), kem := StrangerAgreement(stranger))
  }

  lemma StrangerIsLawful(stranger: PrivateKey)
    ensures StrangerTelling(stranger).Lawful() && Committing(StrangerTelling(stranger).xchacha)
  {
    KeyedCryptoIsLawful();
    var kem := StrangerAgreement(stranger);
    assert Marked(0)[0] == 0 && Marked(1)[0] == 1 && Marked(2)[0] == 2 && Zeroes(32)[0] == 0;
    forall a, b ensures kem.x25519(a, kem.x25519Base(b)) == kem.x25519(b, kem.x25519Base(a)) {
    }
    forall a ensures kem.x25519Base(a) != Zeroes(32) {
    }
  }

  /** What a private key agrees on in the slot of another: the sum of the X25519 marks,
      and its own ML-KEM mark. */
  lemma MarksAgree(stranger: PrivateKey, owner: PrivateKey, coins: SlotRandomness, key: PrivateKey, fileKey: b32)
    ensures var crypto := StrangerTelling(stranger);
      AgreesByHand(crypto, fileKey, PublicOf(crypto, owner), coins, key) <==>
        && X25519Mark(stranger, key.x25519) == X25519Mark(stranger, owner.x25519)
        && MlkemMark(stranger, key.mlkem) == MlkemMark(stranger, owner.mlkem)
  {
    hide Shown, X25519Mark, MlkemMark, StrangerTelling, HybridWrappedByHand;
    var crypto := StrangerTelling(stranger);
    var ephemeral := X25519Mark(stranger, coins.ephemeral);
    var x, y := X25519Mark(stranger, key.x25519) + ephemeral, ephemeral + X25519Mark(stranger, owner.x25519);
    SharedMarks(stranger, owner, coins, key);
    ShownWrap(stranger, fileKey, x, MlkemMark(stranger, key.mlkem));
    ShownWrap(stranger, fileKey, y, MlkemMark(stranger, owner.mlkem));
    MarksShow(fileKey, x, MlkemMark(stranger, key.mlkem), y, MlkemMark(stranger, owner.mlkem));
  }

  lemma SharedMarks(stranger: PrivateKey, owner: PrivateKey, coins: SlotRandomness, key: PrivateKey)
    ensures var crypto := StrangerTelling(stranger);
      var kem, ephemeral, public :=
        crypto.kem, X25519Mark(stranger, coins.ephemeral), PublicOf(crypto, owner);
      var mine := kem.x25519(key.x25519, kem.x25519Base(coins.ephemeral));
      && kem.contributory(mine) && mine == Marked(X25519Mark(stranger, key.x25519) + ephemeral)
      && kem.x25519(coins.ephemeral, public.x25519) == Marked(ephemeral + X25519Mark(stranger, owner.x25519))
      && kem.encapsulate(public.mlkem, coins.mlkemCoins).1 == [MlkemMark(stranger, owner.mlkem)]
      && forall ciphertext :: kem.decapsulate(key.mlkem, ciphertext) == [MlkemMark(stranger, key.mlkem)]
  {
    assert Marked(1)[0] == 1 && Marked(2)[0] == 2;
    assert [1][0] == 1 && [0][0] == 0;
  }

  lemma ShownWrap(stranger: PrivateKey, fileKey: b32, x: byte, p: byte)
    ensures HybridWrappedByHand(StrangerTelling(stranger), fileKey, Marked(x), [p])
         == fileKey + Shown(Marked(x) + [p])[..TAG_LEN]
  {
  }

  lemma MarksShow(fileKey: b32, x: byte, p: byte, y: byte, q: byte)
    ensures fileKey + Shown(Marked(x) + [p])[..TAG_LEN] == fileKey + Shown(Marked(y) + [q])[..TAG_LEN]
       <==> x == y && p == q
  {
    var a, b := fileKey + Shown(Marked(x) + [p])[..TAG_LEN], fileKey + Shown(Marked(y) + [q])[..TAG_LEN];
    assert a[32] == x && a[33] == p && b[32] == y && b[33] == q;
  }

  function PublicsOf(crypto: Crypto, keys: seq<PrivateKey>): (r: seq<PublicKey>)
    ensures |r| == |keys|
  {
    seq(|keys|, k requires 0 <= k < |keys| => PublicOf(crypto, keys[k]))
  }

  /** There is a capsule for the owners of the keys; each of them decrypts it, and the
      stranger does not. */
  predicate OnlyRecipientsDecrypt(crypto: Crypto, keys: seq<PrivateKey>, coins: seq<SlotRandomness>,
                                  stranger: PrivateKey, profile: SecurityProfile, rnd: Randomness, plaintext: bytes,
                                  contentType: Option<ContentType>, overridden: bool)
    requires |coins| == |keys| && |plaintext| <= U64_MAX
  {
    var capsule :=
      KeypairCapsule(crypto, PublicsOf(crypto, keys), coins, profile, rnd, plaintext, contentType, overridden);
    && capsule.Some?
    && (forall i :: 0 <= i < |keys| ==> DecryptWithKeypair(crypto, capsule.value, keys[i]) == Ok(plaintext))
    && DecryptWithKeypair(crypto, capsule.value, stranger) == Err(DecryptionFailed)
  }

  /** Who is no recipient does not decrypt: for any recipients and any private key that
      is none of theirs, be it for one half only, there are lawful and committing
      primitives under which every recipient decrypts and that key does not. */
  lemma StrangerRefused(keys: seq<PrivateKey>, coins: seq<SlotRandomness>, stranger: PrivateKey,
                        profile: SecurityProfile, rnd: Randomness, plaintext: bytes, contentType: Option<ContentType>,
                        overridden: bool)
    requires 1 <= |keys| <= 64 && |coins| == |keys| && stranger !in keys && |plaintext| <= U64_MAX
    ensures StrangerTelling(stranger).Lawful() && Committing(StrangerTelling(stranger).xchacha)
    ensures OnlyRecipientsDecrypt(StrangerTelling(stranger), keys, coins, stranger, profile, rnd, plaintext,
      contentType, overridden)
  {
    hide KeypairCapsule, DecryptWithKeypair, AgreesByHand, StrangerTelling, Committing, X25519Mark, MlkemMark;
    var crypto, publics := StrangerTelling(stranger), PublicsOf(StrangerTelling(stranger), keys);
    StrangerIsLawful(stranger);
    AllContribute(stranger, publics, coins);
    Sizes.KeypairCapsuleIff(crypto, publics, coins, profile, rnd, plaintext, contentType, overridden);
    var capsule := KeypairCapsule(crypto, publics, coins, profile, rnd, plaintext, contentType, overridden);
    forall i | 0 <= i < |keys| ensures DecryptWithKeypair(crypto, capsule.value, keys[i]) == Ok(plaintext) {
      KeypairRoundTrip(crypto, publics, coins, profile, rnd, plaintext, contentType, overridden, keys[i], i);
    }
    KeypairOpensIff(crypto, publics, coins, profile, rnd, plaintext, contentType, overridden, stranger);
    forall k | 0 <= k < |keys| ensures !AgreesByHand(crypto, rnd.fileKey, publics[k], coins[k], stranger) {
      MarksAgree(stranger, keys[k], coins[k], stranger, rnd.fileKey);
      assert keys[k] in keys;
      OwnMarks(stranger, keys[k]);
    }
  }

  lemma OwnMarks(stranger: PrivateKey, key: PrivateKey)
    requires key != stranger
    ensures || X25519Mark(stranger, stranger.x25519) != X25519Mark(stranger, key.x25519)
            || MlkemMark(stranger, stranger.mlkem) != MlkemMark(stranger, key.mlkem)
  {
  }

  lemma AllContribute(stranger: PrivateKey, publics: seq<PublicKey>, coins: seq<SlotRandomness>)
    requires |coins| == |publics|
    requires forall k :: 0 <= k < |publics| ==> publics[k].x25519 != Zeroes(32)
    ensures Sizes.AllContributory(StrangerTelling(stranger), publics, coins)
  {
    assert forall s: b32 :: StrangerTelling(stranger).kem.contributory(s);
  }
}
