/** How long encoded envelopes get: fresh capsules always fit the envelope limit, for
    a password and for up to 64 recipients, and so do their first annotations. */
module Sizes {
  import opened Annotations
  import opened Bytes
  import opened Capsule
  import opened ChunkCipher
  import opened FileCrypto
  import opened Postcard
  import opened Primitives
  import opened Protocol
  import opened Wire
  import Release
  import Signing

  lemma {:induction false} VarintLength(x: nat, n: nat)
    requires n > 0 && x < Pow128(n)
    ensures |EncVarint(x)| <= n
    decreases n
  {
    if x >= 128 {
      assert Pow128(1) == 128;
      VarintLength(x / 128, n - 1);
    }
  }

  lemma IntegerLengths(x: u64)
    ensures |EncVarint(x)| <= 10
    ensures x <= U32_MAX ==> |EncVarint(x)| <= 5
    ensures x <= U16_MAX ==> |EncVarint(x)| <= 3
    ensures x < 128 ==> |EncVarint(x)| == 1
  {
    Pow128Values();
    VarintLength(x, 10);
    if x <= U32_MAX { VarintLength(x, 5); }
    if x <= U16_MAX { VarintLength(x, 3); }
  }

  // ---- Leaves ----

  lemma NumberLengths(x: u64)
    ensures |U64Codec().enc(x)| <= 10
    ensures x <= U32_MAX ==> |U32Codec().enc(x)| <= 5
    ensures x <= U16_MAX ==> |U16Codec().enc(x)| <= 3
  {
    IntegerLengths(x);
  }

  lemma EnumLength<T(!new)>(toIndex: T -> nat, fromIndex: nat -> Option<T>, x: T)
    requires toIndex(x) < 128
    ensures |EnumCodec(toIndex, fromIndex).enc(x)| == 1
  {
    IntegerLengths(toIndex(x));
  }

  lemma EnumLengths(p: SecurityProfile, a: AlgorithmId, c: ContentType, t: KdfTag)
    ensures |ProfileCodec().enc(p)| == |AlgorithmCodec().enc(a)| == |ContentTypeCodec().enc(c)| ==
      |KdfTagCodec().enc(t)| == 1
  {
    EnumLength(ProfileIndex, ProfileFrom, p);
    EnumLength(AlgorithmIndex, AlgorithmFrom, a);
    EnumLength(ContentTypeIndex, ContentTypeFrom, c);
    EnumLength(KdfTagIndex, KdfTagFrom, t);
  }

  lemma FixedLengths(x4: b4, x12: b12, x16: b16, x24: b24, x32: b32, flag: bool)
    ensures |B4Codec().enc(x4)| == 4 && |B12Codec().enc(x12)| == 12 && |B16Codec().enc(x16)| == 16
    ensures |B24Codec().enc(x24)| == 24
    ensures |B32Codec().enc(x32)| == 32 && |BoolCodec().enc(flag)| == 1
  {
  }

  lemma BlobLength(x: bytes)
    requires |x| < 128
    ensures |BlobCodec().enc(x)| == 1 + |x|
  {
    IntegerLengths(|x|);
  }

  lemma OptionLength<T>(c: Codec<T>, x: Option<T>)
    ensures |OptionCodec(c).enc(x)| == 1 + if x.Some? then |c.enc(x.value)| else 0
  {
  }

  lemma AtMostOne<T>(c: Codec<T>, xs: seq<T>)
    requires |xs| <= 1
    ensures |VecCodec(c).enc(xs)| == 1 + if xs == [] then 0 else |c.enc(xs[0])|
  {
    IntegerLengths(|xs|);
    if xs != [] {
      assert xs[1..] == [];
      assert EncAll(c, xs) == c.enc(xs[0]) + EncAll(c, []);
    }
  }

  // ---- Headers ----

  lemma KdfLength(k: KdfParams)
    ensures |KdfCodec().enc(k)| <= 40
  {
    hide PairCodec, MapCodec, U32Codec, B16Codec, KdfTagCodec;
    var t := KdfSplit(k);
    var c1 := PairCodec(U32Codec(), B16Codec());
    var c2 := PairCodec(U32Codec(), c1);
    var c3 := PairCodec(U32Codec(), c2);
    MapLength(PairCodec(KdfTagCodec(), c3), KdfMake, KdfSplit, k);
    PairLength(KdfTagCodec(), c3, t.0, t.1);
    PairLength(U32Codec(), c2, t.1.0, t.1.1);
    PairLength(U32Codec(), c1, t.1.1.0, t.1.1.1);
    PairLength(U32Codec(), B16Codec(), t.1.1.1.0, t.1.1.1.1);
    NumberLengths(k.mCost);
    NumberLengths(k.tCost);
    NumberLengths(k.pCost);
    EnumLengths(Fast, XChaCha20Poly1305, SingleFile, t.0);
    FixedLengths(Zeroes(4), Zeroes(12), k.salt, Zeroes(24), Zeroes(32), true);
  }

  lemma PasswordSlotLength(slot: Recipient)
    requires slot.PasswordRecipient? && |slot.encryptedFileKey| == 48
    ensures |RecipientCodec().enc(slot)| <= 80
  {
    hide PairCodec, MapCodec, EitherCodec, B24Codec, BlobCodec, B32Codec;
    var left := PairCodec(B24Codec(), BlobCodec());
    var right := PairCodec(B32Codec(), PairCodec(BlobCodec(), BlobCodec()));
    MapLength(EitherCodec(left, right), RecipientMake, RecipientSplit, slot);
    LeftLength(left, right, (slot.nonce, slot.encryptedFileKey));
    PairLength(B24Codec(), BlobCodec(), slot.nonce, slot.encryptedFileKey);
    BlobLength(slot.encryptedFileKey);
    FixedLengths(Zeroes(4), Zeroes(12), Zeroes(16), slot.nonce, Zeroes(32), true);
  }

  lemma LeftLength<A, B>(a: Codec<A>, b: Codec<B>, x: A)
    ensures |EitherCodec(a, b).enc(Left(x))| == 1 + |a.enc(x)|
  {
  }

  lemma HybridSlotLength(slot: Recipient)
    requires slot.HybridRecipient? && |slot.mlkemCiphertext| == MLKEM_CIPHERTEXT_LEN && |slot.encryptedFileKey| == 48
    ensures |RecipientCodec().enc(slot)| <= 1200
  {
    hide PairCodec, MapCodec, EitherCodec, B24Codec, BlobCodec, B32Codec;
    var left := PairCodec(B24Codec(), BlobCodec());
    var keys := PairCodec(BlobCodec(), BlobCodec());
    var right := PairCodec(B32Codec(), keys);
    MapLength(EitherCodec(left, right), RecipientMake, RecipientSplit, slot);
    RightLength(left, right, (slot.ephemeralPublic, (slot.mlkemCiphertext, slot.encryptedFileKey)));
    PairLength(B32Codec(), keys, slot.ephemeralPublic, (slot.mlkemCiphertext, slot.encryptedFileKey));
    PairLength(BlobCodec(), BlobCodec(), slot.mlkemCiphertext, slot.encryptedFileKey);
    LongBlobLength(slot.mlkemCiphertext);
    BlobLength(slot.encryptedFileKey);
    FixedLengths(Zeroes(4), Zeroes(12), Zeroes(16), Zeroes(24), slot.ephemeralPublic, true);
  }

  lemma RightLength<A, B>(a: Codec<A>, b: Codec<B>, x: B)
    ensures |EitherCodec(a, b).enc(Right(x))| == 1 + |b.enc(x)|
  {
  }

  lemma LongBlobLength(x: bytes)
    requires |x| <= U64_MAX
    ensures |BlobCodec().enc(x)| <= 10 + |x|
  {
    IntegerLengths(|x|);
  }

  lemma {:induction false} AllLength<T>(c: Codec<T>, xs: seq<T>, each: nat)
    requires forall k :: 0 <= k < |xs| ==> |c.enc(xs[k])| <= each
    ensures |EncAll(c, xs)| <= |xs| * each
  {
    if xs != [] {
      AllLength(c, xs[1..], each);
      assert |xs| * each == each + (|xs| - 1) * each;
    }
  }

  /** A recipient list that leaves the envelope well below the limit. */
  ghost predicate SlotsFit(h: EnvelopeHeader) { |VecCodec(RecipientCodec()).enc(h.recipients)| <= 80000 }

  lemma OnePasswordSlotFits(h: EnvelopeHeader)
    requires |h.recipients| == 1 && h.recipients[0].PasswordRecipient? && |h.recipients[0].encryptedFileKey| == 48
    ensures SlotsFit(h)
  {
    hide RecipientCodec, VecCodec;
    AtMostOne(RecipientCodec(), h.recipients);
    PasswordSlotLength(h.recipients[0]);
  }

  lemma HybridSlotsFit(h: EnvelopeHeader)
    requires |h.recipients| <= MAX_RECIPIENTS
    requires forall k :: 0 <= k < |h.recipients| ==>
      var slot := h.recipients[k];
      slot.HybridRecipient? && |slot.mlkemCiphertext| == MLKEM_CIPHERTEXT_LEN && |slot.encryptedFileKey| == 48
    ensures SlotsFit(h)
  {
    hide RecipientCodec, EncAll;
    forall k | 0 <= k < |h.recipients| ensures |RecipientCodec().enc(h.recipients[k])| <= 1200 {
      HybridSlotLength(h.recipients[k]);
    }
    AllLength(RecipientCodec(), h.recipients, 1200);
    IntegerLengths(|h.recipients|);
  }

  lemma HeaderLength(h: EnvelopeHeader)
    requires SlotsFit(h)
    ensures |HeaderCodec().enc(h)| <= 80100
  {
    hide PairCodec, MapCodec, OptionCodec, VecCodec, B4Codec, U16Codec, ProfileCodec, AlgorithmCodec, KdfCodec,
      RecipientCodec;
    var t := HeaderSplit(h);
    var c1 := PairCodec(OptionCodec(KdfCodec()), VecCodec(RecipientCodec()));
    var c2 := PairCodec(AlgorithmCodec(), c1);
    var c3 := PairCodec(ProfileCodec(), c2);
    var c4 := PairCodec(U16Codec(), c3);
    MapLength(PairCodec(B4Codec(), c4), HeaderMake, HeaderSplit, h);
    PairLength(B4Codec(), c4, t.0, t.1);
    PairLength(U16Codec(), c3, t.1.0, t.1.1);
    PairLength(ProfileCodec(), c2, t.1.1.0, t.1.1.1);
    PairLength(AlgorithmCodec(), c1, t.1.1.1.0, t.1.1.1.1);
    PairLength(OptionCodec(KdfCodec()), VecCodec(RecipientCodec()), t.1.1.1.1.0, t.1.1.1.1.1);
    NumberLengths(h.version);
    EnumLengths(h.profile, h.algorithm, SingleFile, Argon2idTag);
    FixedLengths(h.magic, Zeroes(12), Zeroes(16), Zeroes(24), Zeroes(32), true);
    OptionLength(KdfCodec(), h.kdf);
    if h.kdf.Some? { KdfLength(h.kdf.value); }
  }

  // ---- Envelopes ----

  lemma LegacyLength(l: LegacyEnvelope)
    requires SlotsFit(l.header) && l.metadata == []
    ensures |LegacyCodec().enc(l)| <= 80300
  {
    hide SlotsFit, PairCodec, MapCodec, OptionCodec, HeaderCodec, U64Codec, B24Codec, B12Codec, B32Codec, BlobCodec;
    var t := LegacySplit(l);
    var c1 := PairCodec(B32Codec(), BlobCodec());
    var c2 := PairCodec(OptionCodec(B12Codec()), c1);
    var c3 := PairCodec(B24Codec(), c2);
    var c4 := PairCodec(U64Codec(), c3);
    MapLength(PairCodec(HeaderCodec(), c4), LegacyMake, LegacySplit, l);
    PairLength(HeaderCodec(), c4, t.0, t.1);
    PairLength(U64Codec(), c3, t.1.0, t.1.1);
    PairLength(B24Codec(), c2, t.1.1.0, t.1.1.1);
    PairLength(OptionCodec(B12Codec()), c1, t.1.1.1.0, t.1.1.1.1);
    PairLength(B32Codec(), BlobCodec(), t.1.1.1.1.0, t.1.1.1.1.1);
    HeaderLength(l.header);
    NumberLengths(l.plaintextLen);
    OptionLength(B12Codec(), l.secondaryNonce);
    var secondary: b12 := if l.secondaryNonce.Some? then l.secondaryNonce.value else Zeroes(12);
    FixedLengths(Zeroes(4), secondary, Zeroes(16), l.nonce, l.aadHash, true);
    BlobLength(l.metadata);
  }

  predicate SmallSignature(s: EnvelopeSignature) { |s.signature| <= 64 && s.createdAt.None? && s.comment.None? }

  predicate SmallApproval(a: ApprovalSignature) { |a.signature| <= 64 && a.comment.None? }

  lemma SignatureLength(s: EnvelopeSignature)
    requires SmallSignature(s)
    ensures |SignatureCodec().enc(s)| <= 110
  {
    hide PairCodec, MapCodec, OptionCodec, B32Codec, BlobCodec, StrCodec;
    var t := SignatureSplit(s);
    var c1 := PairCodec(StrOption(), StrOption());
    var c2 := PairCodec(BlobCodec(), c1);
    MapLength(PairCodec(B32Codec(), c2), SignatureMake, SignatureSplit, s);
    PairLength(B32Codec(), c2, t.0, t.1);
    PairLength(BlobCodec(), c1, t.1.0, t.1.1);
    PairLength(StrOption(), StrOption(), t.1.1.0, t.1.1.1);
    OptionLength(StrCodec(), None);
    BlobLength(s.signature);
    FixedLengths(Zeroes(4), Zeroes(12), Zeroes(16), Zeroes(24), s.signerFingerprint, true);
  }

  lemma ApprovalLength(a: ApprovalSignature)
    requires SmallApproval(a)
    ensures |ApprovalCodec().enc(a)| <= 110
  {
    hide PairCodec, MapCodec, OptionCodec, B32Codec, BlobCodec, StrCodec;
    var t := ApprovalSplit(a);
    var c1 := PairCodec(BlobCodec(), StrOption());
    MapLength(PairCodec(B32Codec(), c1), ApprovalMake, ApprovalSplit, a);
    PairLength(B32Codec(), c1, t.0, t.1);
    PairLength(BlobCodec(), StrOption(), t.1.0, t.1.1);
    OptionLength(StrCodec(), None);
    BlobLength(a.signature);
    FixedLengths(Zeroes(4), Zeroes(12), Zeroes(16), Zeroes(24), a.signerFingerprint, true);
  }

  /** Nothing is attached but at most one plain signature and one plain approval. */
  ghost predicate Plain(e: Envelope) {
    && SlotsFit(e.header) && e.metadata == [] && e.publicLabel.None? && e.releaseMetadata.None? &&
         e.recoveryMetadata.None?
    && (e.signature.Some? ==> SmallSignature(e.signature.value))
    && |e.approvals| <= 1 && (e.approvals != [] ==> SmallApproval(e.approvals[0]))
  }

  lemma TailLength(e: Envelope)
    requires Plain(e)
    ensures |TailCodec().enc(EnvelopeSplit(e).1)| <= 300
  {
    hide SlotsFit, PairCodec, OptionCodec, VecCodec, BoolCodec, BlobCodec, ContentTypeCodec, SignatureCodec, StrOption,
      ApprovalCodec, ReleaseCodec;
    var t := EnvelopeSplit(e).1;
    var c1 := PairCodec(BoolCodec(), OptionCodec(BlobCodec()));
    var c2 := PairCodec(OptionCodec(ReleaseCodec()), c1);
    var c3 := PairCodec(VecCodec(ApprovalCodec()), c2);
    var c4 := PairCodec(StrOption(), c3);
    var c5 := PairCodec(OptionCodec(SignatureCodec()), c4);
    PairLength(OptionCodec(ContentTypeCodec()), c5, t.0, t.1);
    PairLength(OptionCodec(SignatureCodec()), c4, t.1.0, t.1.1);
    PairLength(StrOption(), c3, t.1.1.0, t.1.1.1);
    PairLength(VecCodec(ApprovalCodec()), c2, t.1.1.1.0, t.1.1.1.1);
    PairLength(OptionCodec(ReleaseCodec()), c1, t.1.1.1.1.0, t.1.1.1.1.1);
    PairLength(BoolCodec(), OptionCodec(BlobCodec()), t.1.1.1.1.1.0, t.1.1.1.1.1.1);
    OptionLength(ContentTypeCodec(), e.contentType);
    EnumLengths(Fast, XChaCha20Poly1305, if e.contentType.Some? then e.contentType.value else SingleFile, Argon2idTag);
    OptionLength(SignatureCodec(), e.signature);
    if e.signature.Some? { SignatureLength(e.signature.value); }
    NoLabel();
    AtMostOne(ApprovalCodec(), e.approvals);
    if e.approvals != [] { ApprovalLength(e.approvals[0]); }
    OptionLength(ReleaseCodec(), e.releaseMetadata);
    OptionLength(BlobCodec(), e.recoveryMetadata);
    FixedLengths(Zeroes(4), Zeroes(12), Zeroes(16), Zeroes(24), Zeroes(32), e.policyOverridden);
  }

  lemma NoLabel()
    ensures |StrOption().enc(None)| == 1
  {
  }

  lemma PlainFits(e: Envelope)
    requires Plain(e)
    ensures EncodeEnvelopeChecked(e).Some?
  {
    hide SlotsFit, PairCodec, MapCodec, LegacyCodec, TailCodec;
    MapLength(PairCodec(LegacyCodec(), TailCodec()), EnvelopeMake, EnvelopeSplit, e);
    PairLength(LegacyCodec(), TailCodec(), EnvelopeSplit(e).0, EnvelopeSplit(e).1);
    LegacyLength(EnvelopeSplit(e).0);
    TailLength(e);
    EnvelopeHoldsApprovals(e);
  }

  // ---- Consequences ----

  /** Password encryption fails exactly when key derivation does: the envelope always
      fits. */
  lemma PasswordCapsuleIff(crypto: Crypto, password: bytes, seed: Option<bytes>, profile: SecurityProfile,
                           rnd: Randomness, plaintext: bytes, contentType: Option<ContentType>, overridden: bool)
    requires crypto.Lawful() && |plaintext| <= U64_MAX
    ensures PasswordCapsule(crypto, password, seed, profile, rnd, plaintext, contentType, overridden).Some?
       <==> WrappedByHand(crypto, password, seed, profile, rnd).Some?
  {
    hide EncodeEnvelopeChecked, Acceptable, WritePayload, Framed, PasswordWrappingKey, WrappedByHand, Usable;
    DerivesByHand(crypto, password, seed, profile, rnd);
    if PasswordWrappingKey(crypto, password, seed, PasswordKdf(profile, rnd.salt)).Some? {
      FreshIsPlain(crypto, password, seed, profile, rnd, |plaintext|, contentType, overridden);
      PasswordEnvelopeAcceptable(crypto, password, seed, profile, rnd, |plaintext|, contentType, overridden);
      PlainFits(PasswordEnvelope(crypto, password, seed, profile, rnd, |plaintext|, contentType, overridden).value);
    }
  }

  lemma DerivesByHand(crypto: Crypto, password: bytes, seed: Option<bytes>, profile: SecurityProfile, rnd: Randomness)
    ensures WrappedByHand(crypto, password, seed, profile, rnd).Some? <==>
      PasswordWrappingKey(crypto, password, seed, PasswordKdf(profile, rnd.salt)).Some?
  {
  }

  /** Every recipient's X25519 key contributes to the agreement. */
  predicate AllContributory(crypto: Crypto, publics: seq<PublicKey>, coins: seq<SlotRandomness>)
    requires |coins| == |publics|
  {
    forall k :: 0 <= k < |publics| ==> Contributes(crypto, coins[k], publics[k])
  }

  predicate Contributes(crypto: Crypto, coins: SlotRandomness, public: PublicKey) {
    public.x25519 != Zeroes(32) && crypto.kem.contributory(crypto.kem.x25519(coins.ephemeral, public.x25519))
  }

  lemma WrapForIff(crypto: Crypto, fileKey: b32, public: PublicKey, coins: SlotRandomness)
    ensures WrapFor(crypto, fileKey, public, coins).Some? <==> Contributes(crypto, coins, public)
  {
  }

  lemma {:induction false} WrapForAllIff(crypto: Crypto, fileKey: b32, publics: seq<PublicKey>,
                                         coins: seq<SlotRandomness>)
    requires |coins| == |publics|
    ensures WrapForAll(crypto, fileKey, publics, coins).Some? <==> AllContributory(crypto, publics, coins)
  {
    hide ContributoryX25519, Contributes;
    if publics != [] {
      WrapForAllIff(crypto, fileKey, publics[1..], coins[1..]);
      WrapForIff(crypto, fileKey, publics[0], coins[0]);
      assert AllContributory(crypto, publics, coins) <==>
        Contributes(crypto, coins[0], publics[0]) && AllContributory(crypto, publics[1..], coins[1..]) by {
        assert forall k :: 1 <= k < |publics| ==> publics[k] == publics[1..][k - 1] && coins[k] == coins[1..][k - 1];
        assert forall k :: 0 <= k < |publics[1..]| ==>
          publics[1..][k] == publics[k + 1] && coins[1..][k] == coins[k + 1];
      }
    }
  }

  lemma WrittenSlotsFit(crypto: Crypto, profile: SecurityProfile, fileKey: b32, publics: seq<PublicKey>,
                        coins: seq<SlotRandomness>)
    requires crypto.Lawful() && |coins| == |publics| <= MAX_RECIPIENTS
    requires WrapForAll(crypto, fileKey, publics, coins).Some?
    ensures SlotsFit(KeypairHeader(profile, WrapForAll(crypto, fileKey, publics, coins).value))
  {
    hide WrapForAll, SlotsFit;
    WrapForAllSlots(crypto, fileKey, publics, coins);
    HybridSlots(crypto, fileKey, publics, coins);
    var slots := WrapForAll(crypto, fileKey, publics, coins).value;
    forall k | 0 <= k < |slots|
      ensures slots[k].HybridRecipient? && |slots[k].mlkemCiphertext| == MLKEM_CIPHERTEXT_LEN
    {
      assert WrapFor(crypto, fileKey, publics[k], coins[k]) == Some(slots[k]);
      assert |crypto.kem.encapsulate(publics[k].mlkem, coins[k].mlkemCoins).0| == MLKEM_CIPHERTEXT_LEN;
    }
    HybridSlotsFit(KeypairHeader(profile, slots));
  }

  /** Key-pair encryption yields a capsule exactly for 1 to 64 recipients whose keys all
      contribute to the agreement: their envelope always fits. */
  lemma KeypairCapsuleIff(crypto: Crypto, publics: seq<PublicKey>, coins: seq<SlotRandomness>, profile: SecurityProfile,
                          rnd: Randomness, plaintext: bytes, contentType: Option<ContentType>, overridden: bool)
    requires crypto.Lawful() && |coins| == |publics| && |plaintext| <= U64_MAX
    ensures KeypairCapsule(crypto, publics, coins, profile, rnd, plaintext, contentType, overridden).Some?
       <==> 1 <= |publics| <= MAX_RECIPIENTS && AllContributory(crypto, publics, coins)
  {
    hide EncodeEnvelopeChecked, Acceptable, WritePayload, Framed, WrapForAll, NewEnvelope, AllContributory, Usable,
      Plain, SlotsFit, ValidResources;
    WrapForAllIff(crypto, rnd.fileKey, publics, coins);
    if WrapForAll(crypto, rnd.fileKey, publics, coins).Some? {
      var header := KeypairHeader(profile, WrapForAll(crypto, rnd.fileKey, publics, coins).value);
      KeypairEnvelopeAcceptableIff(crypto, publics, coins, profile, rnd, |plaintext|, contentType, overridden);
      NewEnvelopeAcceptable(crypto, header, |plaintext|, rnd, contentType, overridden);
      if |publics| <= MAX_RECIPIENTS {
        WrittenSlotsFit(crypto, profile, rnd.fileKey, publics, coins);
        NewIsPlain(crypto, header, |plaintext|, rnd, contentType, overridden);
        PlainFits(NewEnvelope(crypto, header, |plaintext|, rnd, contentType, overridden));
      }
    }
  }

  lemma FreshIsPlain(crypto: Crypto, password: bytes, seed: Option<bytes>, profile: SecurityProfile, rnd: Randomness,
                     plaintextLen: u64, contentType: Option<ContentType>, overridden: bool)
    requires crypto.Lawful()
    requires PasswordEnvelope(crypto, password, seed, profile, rnd, plaintextLen, contentType, overridden).Some?
    ensures var e := PasswordEnvelope(crypto, password, seed, profile, rnd, plaintextLen, contentType,
      overridden).value;
      Plain(e) && e.signature.None? && e.approvals == []
  {
    hide PasswordWrappingKey, NewEnvelope, Plain, ExpectedArgon2Costs, SlotsFit;
    var wrappingKey := PasswordWrappingKey(crypto, password, seed, PasswordKdf(profile, rnd.salt)).value;
    SlotSize(crypto, wrappingKey, rnd);
    OnePasswordSlotFits(PasswordHeader(crypto, wrappingKey, profile, rnd));
    NewIsPlain(crypto, PasswordHeader(crypto, wrappingKey, profile, rnd), plaintextLen, rnd, contentType, overridden);
  }

  lemma SlotSize(crypto: Crypto, wrappingKey: b32, rnd: Randomness)
    requires crypto.Lawful()
    ensures |crypto.xchacha.seal(wrappingKey, rnd.wrapNonce, [], rnd.fileKey)| == 48
  {
    OpenIffSealed(crypto.xchacha, wrappingKey, rnd.wrapNonce, [], [], rnd.fileKey);
  }

  lemma NewIsPlain(crypto: Crypto, header: EnvelopeHeader, plaintextLen: u64, rnd: Randomness,
                   contentType: Option<ContentType>, overridden: bool)
    requires SlotsFit(header)
    ensures var e := NewEnvelope(crypto, header, plaintextLen, rnd, contentType, overridden);
      Plain(e) && e.signature.None? && e.approvals == []
  {
    hide ComputeAadHash, SlotsFit;
  }

  /** An annotation step succeeds exactly on a file that decodes and whose annotated
      envelope still fits the limit. */
  lemma StepSucceedsIff(crypto: Crypto, step: Step, data: bytes)
    ensures Apply(crypto, step, data).Some? <==>
      && OpenCapsule(crypto, data).Ok?
      && EncodeEnvelopeChecked(Annotated(crypto, step, OpenCapsule(crypto, data).value.0,
           OpenCapsule(crypto, data).value.1)).Some?
  {
    hide OpenCapsule, EncodeEnvelopeChecked, Signing.DecodeCapsuleParts, Release.DecodeCapsuleEnvelope,
      Signing.SignedEnvelope, Signing.ApprovedEnvelope,
      Acceptable, Framed, DecodeEnvelopeBytes;
    FramingDecodersAgree(crypto, data);
  }

  /** Runs exist: every fresh password capsule can be signed and then approved. */
  lemma FreshCapsuleCanBeSignedAndApproved(crypto: Crypto, password: bytes, seed: Option<bytes>,
                                           profile: SecurityProfile, rnd: Randomness, plaintext: bytes,
                                           contentType: Option<ContentType>, overridden: bool, author: b32,
                                           approver: b32)
    requires crypto.Lawful() && |plaintext| <= U64_MAX
    requires WrappedByHand(crypto, password, seed, profile, rnd).Some?
    ensures PasswordCapsule(crypto, password, seed, profile, rnd, plaintext, contentType, overridden).Some?
    ensures Run(crypto, [Sign(author, None, None), Approve(approver, None)],
      PasswordCapsule(crypto, password, seed, profile, rnd, plaintext, contentType, overridden).value).Some?
  {
    hide EncodeEnvelopeChecked, OpenCapsule, Acceptable, WritePayload, WrappedByHand, PasswordEnvelope, Usable,
      Plain, Apply, Annotated, BuildCapsule;
    var sign, approve := Sign(author, None, None), Approve(approver, None);
    PasswordCapsuleIff(crypto, password, seed, profile, rnd, plaintext, contentType, overridden);
    var data := PasswordCapsule(crypto, password, seed, profile, rnd, plaintext, contentType, overridden).value;
    var e := PasswordEnvelope(crypto, password, seed, profile, rnd, |plaintext|, contentType, overridden).value;
    PasswordEnvelopeAcceptable(crypto, password, seed, profile, rnd, |plaintext|, contentType, overridden);
    FreshIsPlain(crypto, password, seed, profile, rnd, |plaintext|, contentType, overridden);
    var ciphertext := WritePayload(crypto, e, rnd.fileKey, plaintext);
    CapsuleRoundTrip(crypto, e, ciphertext);
    var signed := Annotated(crypto, sign, e, ciphertext);
    PlainSteps(crypto, e, ciphertext, author, approver);
    PlainFits(signed);
    StepSucceedsIff(crypto, sign, data);
    StepDecodes(crypto, sign, data);
    var next := Apply(crypto, sign, data).value;
    PlainFits(Annotated(crypto, approve, signed, ciphertext));
    StepSucceedsIff(crypto, approve, next);
    RunOfTwo(crypto, sign, approve, data);
  }

  lemma RunOfTwo(crypto: Crypto, first: Step, second: Step, data: bytes)
    requires Apply(crypto, first, data).Some? && Apply(crypto, second, Apply(crypto, first, data).value).Some?
    ensures Run(crypto, [first, second], data).Some?
  {
    hide Apply;
    assert [first, second][1..] == [second] && [second][1..] == [];
    var next := Apply(crypto, first, data).value;
    var last := Apply(crypto, second, next).value;
    assert Run(crypto, [second], next) == Run(crypto, [], last) == Some(last);
  }

  lemma PlainSteps(crypto: Crypto, e: Envelope, ciphertext: bytes, author: b32, approver: b32)
    requires Plain(e) && e.approvals == []
    ensures var signed := Annotated(crypto, Sign(author, None, None), e, ciphertext);
      Plain(signed) && signed.approvals == [] && Plain(Annotated(crypto, Approve(approver, None), signed, ciphertext))
  {
    hide SlotsFit, EnvelopeCodec, StrOption, Signing.AuthorDomain, Signing.ApprovalMessage, Signing.Fingerprint;
    var signed := Signing.SignedEnvelope(crypto, e, ciphertext, author, None, None);
    var signature: b64 := crypto.ed25519.sign(author, Signing.AuthorMessage(
      e.(signature := Some(EnvelopeSignature(Signing.Fingerprint(crypto, crypto.ed25519.publicKey(author)), [], None,
        None))), ciphertext).value);
    assert signed.signature.value.signature == signature;
    assert SmallSignature(signed.signature.value);
    var a := Signing.NewApproval(crypto, signed, ciphertext, approver, None);
    assert SmallApproval(a);
    assert signed.approvals + [a] == [a];
  }
}
