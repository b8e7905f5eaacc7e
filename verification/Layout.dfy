/** The bytes on the wire, written out: what the composed codecs of `Wire`, `Capsule` and
    `BundleFormat` encode, field by field in the order of the declarations. */
module Layout {
  import opened BundleFormat
  import opened Bytes
  import opened Capsule
  import opened Postcard
  import opened Protocol
  import opened Wire

  // ---- Integers ----

  /** Little-endian groups of seven bits. */
  function Groups(s: bytes): nat {
    if s == [] then 0 else Groups(s[..|s| - 1]) + s[|s| - 1] % 128 * Pow128(|s| - 1)
  }

  /** Every byte but the last is marked, and the last carries something. */
  predicate Minimal(s: bytes) {
    && s != [] && s[|s| - 1] < 128 && (forall k :: 0 <= k < |s| - 1 ==> s[k] >= 128)
    && (|s| > 1 ==> s[|s| - 1] > 0)
  }

  lemma {:induction false} GroupsFront(s: bytes)
    requires s != []
    ensures Groups(s) == s[0] % 128 + 128 * Groups(s[1..])
  {
    if |s| > 1 {
      var front := s[..|s| - 1];
      GroupsFront(front);
      assert front[1..] == s[1..][..|s| - 2];
      assert s[1..][|s| - 2] == s[|s| - 1];
      calc {
        s[|s| - 1] % 128 * Pow128(|s| - 1);
        s[|s| - 1] % 128 * (128 * Pow128(|s| - 2));
        128 * (s[|s| - 1] % 128 * Pow128(|s| - 2));
      }
    } else {
      assert s[..0] == [] && s[1..] == [];
    }
  }

  /** An integer is encoded by the one minimal string of groups that has its value. */
  lemma {:induction false} VarintIff(x: nat, s: bytes)
    ensures s == EncVarint(x) <==> Minimal(s) && Groups(s) == x
    decreases x, |s|
  {
    if s != [] {
      GroupsFront(s);
      if |s| == 1 {
        assert s[1..] == [];
        assert s == [s[0]];
      } else {
        assert s == [s[0]] + s[1..];
        assert Minimal(s) ==> Minimal(s[1..]);
        assert s[1..][|s| - 2] == s[|s| - 1];
        assert s[0] >= 128 && Minimal(s[1..]) && s[|s| - 1] > 0 ==> Minimal(s) by {
          assert forall k :: 0 < k < |s| ==> s[k] == s[1..][k - 1];
        }
        if x >= 128 {
          VarintIff(x / 128, s[1..]);
          LastPositive(x / 128);
        } else if Minimal(s) {
          MinimalPositive(s[1..]);
        }
      }
    }
  }

  lemma {:induction false} LastPositive(x: nat)
    ensures var s := EncVarint(x); s[|s| - 1] < 128 && (x > 0 ==> s[|s| - 1] > 0)
    decreases x
  {
    if x >= 128 { LastPositive(x / 128); }
  }

  lemma {:induction false} MinimalPositive(s: bytes)
    requires Minimal(s) && s[|s| - 1] > 0
    ensures Groups(s) > 0
  {
    GroupsFront(s);
    if |s| > 1 { MinimalPositive(s[1..]); }
  }

  // ---- The envelope ----

  function Sized(s: bytes): bytes { EncVarint(|s|) + s }

  function ProfileByte(p: SecurityProfile): byte {
    if p.Fast? then 0 else if p.Balanced? then 1 else if p.Archive? then 2 else if p.Paranoid? then 3 else 4
  }

  function AlgorithmByte(a: AlgorithmId): byte {
    if a.XChaCha20Poly1305? then 0
    else if a.CascadeAesGcmXChaCha? then 1
    else if a.TripleCascadeAesXChaChaLco? then 2
    else if a.X25519? then 3
    else if a.Ed25519? then 4
    else if a.X25519MlkemHybrid? then 5
    else 6
  }

  function FlagByte(b: bool): byte { if b then 1 else 0 }

  function KdfBytes(kdf: Option<KdfParams>): bytes {
    if kdf.None? then [0]
    else
      var k := kdf.value;
      [1] + ([0] + (EncVarint(k.mCost) + (EncVarint(k.tCost) + (EncVarint(k.pCost) + k.salt))))
  }

  function SlotBytes(r: Recipient): bytes {
    if r.PasswordRecipient? then [0] + (r.nonce + Sized(r.encryptedFileKey))
    else [1] + (r.ephemeralPublic + (Sized(r.mlkemCiphertext) + Sized(r.encryptedFileKey)))
  }

  function SlotsBytes(slots: seq<Recipient>): bytes {
    if slots == [] then [] else SlotBytes(slots[0]) + SlotsBytes(slots[1..])
  }

  function HeaderBytes(h: EnvelopeHeader): bytes {
    h.magic + (EncVarint(h.version) + ([ProfileByte(h.profile)] + ([AlgorithmByte(h.algorithm)]
      + (KdfBytes(h.kdf) + (EncVarint(|h.recipients|) + SlotsBytes(h.recipients))))))
  }

  function NonceBytes(nonce: Option<b12>): bytes { if nonce.None? then [0] else [1] + nonce.value }

  function TextBytes(text: Option<Str>): bytes { if text.None? then [0] else [1] + Sized(text.value) }

  function TypeBytes(t: Option<ContentType>): bytes {
    if t.None? then [0] else [1] + (if t.value.SingleFile? then [0] else [1])
  }

  function SignatureBytes(signature: Option<EnvelopeSignature>): bytes {
    if signature.None? then [0]
    else
      var s := signature.value;
      [1] + (s.signerFingerprint + (Sized(s.signature) + (TextBytes(s.createdAt) + TextBytes(s.comment))))
  }

  function ApprovalsBytes(approvals: seq<ApprovalSignature>): bytes {
    if approvals == [] then []
    else
      var a := approvals[0];
      (a.signerFingerprint + (Sized(a.signature) + TextBytes(a.comment))) + ApprovalsBytes(approvals[1..])
  }

  function ReleaseBytes(release: Option<ReleaseMetadata>): bytes {
    if release.None? then [0]
    else
      var r := release.value;
      [1] + (TextBytes(r.projectName) + (TextBytes(r.version) + (TextBytes(r.gitCommit) + TextBytes(r.buildTimestamp))))
  }

  function RecoveryBytes(recovery: Option<bytes>): bytes {
    if recovery.None? then [0] else [1] + Sized(recovery.value)
  }

  function LegacyBytes(l: LegacyEnvelope): bytes {
    HeaderBytes(l.header) + (EncVarint(l.plaintextLen) + (l.nonce + (NonceBytes(l.secondaryNonce)
      + (l.aadHash + Sized(l.metadata)))))
  }

  function EnvelopeBytes(e: Envelope): bytes {
    LegacyBytes(LegacyEnvelope(e.header, e.plaintextLen, e.nonce, e.secondaryNonce, e.aadHash, e.metadata))
      + (TypeBytes(e.contentType) + (SignatureBytes(e.signature) + (TextBytes(e.publicLabel)
      + ((EncVarint(|e.approvals|) + ApprovalsBytes(e.approvals)) + (ReleaseBytes(e.releaseMetadata)
      + ([FlagByte(e.policyOverridden)] + RecoveryBytes(e.recoveryMetadata)))))))
  }

  // ---- Codecs, layer by layer ----

  lemma PairIs<A, B>(a: Codec<A>, b: Codec<B>, x: A, y: B, s: bytes, t: bytes)
    requires a.enc(x) == s && b.enc(y) == t
    ensures PairCodec(a, b).enc((x, y)) == s + t
  {
  }

  lemma MapIs<A, B>(c: Codec<A>, make: A -> B, parts: B -> A, x: B, s: bytes)
    requires c.enc(parts(x)) == s
    ensures MapCodec(c, make, parts).enc(x) == s
  {
  }

  lemma OptionIs<T>(c: Codec<T>, x: Option<T>, s: bytes)
    requires x.Some? ==> c.enc(x.value) == s
    ensures OptionCodec(c).enc(x) == if x.None? then [0] else [1] + s
  {
  }

  lemma VecIs<T>(c: Codec<T>, xs: seq<T>, s: bytes)
    requires EncAll(c, xs) == s
    ensures VecCodec(c).enc(xs) == EncVarint(|xs|) + s
  {
  }

  lemma EnumIs<T(!new)>(toIndex: T -> nat, fromIndex: nat -> Option<T>, x: T, b: byte)
    requires toIndex(x) == b < 128
    ensures EnumCodec(toIndex, fromIndex).enc(x) == [b]
  {
  }

  lemma Index(k: nat)
    requires k < 128
    ensures EncVarint(k) == [k]
  {
  }

  lemma LeftIs<A, B>(a: Codec<A>, b: Codec<B>, x: A, s: bytes)
    requires a.enc(x) == s
    ensures EitherCodec(a, b).enc(Left(x)) == [0] + s
  {
    Index(0);
  }

  lemma RightIs<A, B>(a: Codec<A>, b: Codec<B>, y: B, s: bytes)
    requires b.enc(y) == s
    ensures EitherCodec(a, b).enc(Right(y)) == [1] + s
  {
    Index(1);
  }

  lemma BlobIs(x: bytes)
    ensures BlobCodec().enc(x) == Sized(x)
  {
  }

  lemma TextIs(text: Option<Str>)
    ensures StrOption().enc(text) == TextBytes(text)
  {
    if text.Some? { OptionIs(StrCodec(), text, Sized(text.value)); }
  }

  // ---- Structures ----

  lemma KdfIs(kdf: Option<KdfParams>)
    ensures OptionCodec(KdfCodec()).enc(kdf) == KdfBytes(kdf)
  {
    hide PairCodec, MapCodec, OptionCodec, EncVarint, EnumCodec;
    if kdf.Some? {
      var k := kdf.value;
      var c1 := PairCodec(U32Codec(), B16Codec());
      var c2 := PairCodec(U32Codec(), c1);
      var c3 := PairCodec(U32Codec(), c2);
      var s1 := EncVarint(k.pCost) + k.salt;
      var s2 := EncVarint(k.tCost) + s1;
      var s3 := EncVarint(k.mCost) + s2;
      PairIs(U32Codec(), B16Codec(), k.pCost, k.salt, EncVarint(k.pCost), k.salt);
      PairIs(U32Codec(), c1, k.tCost, (k.pCost, k.salt), EncVarint(k.tCost), s1);
      PairIs(U32Codec(), c2, k.mCost, (k.tCost, (k.pCost, k.salt)), EncVarint(k.mCost), s2);
      EnumIs(KdfTagIndex, KdfTagFrom, Argon2idTag, 0);
      PairIs(KdfTagCodec(), c3, Argon2idTag, (k.mCost, (k.tCost, (k.pCost, k.salt))), [0], s3);
      MapIs(PairCodec(KdfTagCodec(), c3), KdfMake, KdfSplit, k, [0] + s3);
      OptionIs(KdfCodec(), kdf, [0] + s3);
    } else {
      OptionIs(KdfCodec(), kdf, []);
    }
  }

  lemma SlotIs(r: Recipient)
    ensures RecipientCodec().enc(r) == SlotBytes(r)
  {
    hide PairCodec, MapCodec, EitherCodec, BlobCodec, Sized;
    var password := PairCodec(B24Codec(), BlobCodec());
    var last := PairCodec(BlobCodec(), BlobCodec());
    var hybrid := PairCodec(B32Codec(), last);
    BlobIs(r.encryptedFileKey);
    match r
    case PasswordRecipient(nonce, key) =>
      PairIs(B24Codec(), BlobCodec(), nonce, key, nonce, Sized(key));
      LeftIs(password, hybrid, (nonce, key), nonce + Sized(key));
      MapIs(EitherCodec(password, hybrid), RecipientMake, RecipientSplit, r, [0] + (nonce + Sized(key)));
    case HybridRecipient(ephemeral, ciphertext, key) =>
      BlobIs(ciphertext);
      var s := Sized(ciphertext) + Sized(key);
      PairIs(BlobCodec(), BlobCodec(), ciphertext, key, Sized(ciphertext), Sized(key));
      PairIs(B32Codec(), last, ephemeral, (ciphertext, key), ephemeral, s);
      RightIs(password, hybrid, (ephemeral, (ciphertext, key)), ephemeral + s);
      MapIs(EitherCodec(password, hybrid), RecipientMake, RecipientSplit, r, [1] + (ephemeral + s));
  }

  lemma {:induction false} SlotsAre(slots: seq<Recipient>)
    ensures EncAll(RecipientCodec(), slots) == SlotsBytes(slots)
  {
    hide RecipientCodec, SlotBytes;
    if slots != [] {
      SlotIs(slots[0]);
      SlotsAre(slots[1..]);
    }
  }

  lemma HeaderIs(h: EnvelopeHeader)
    ensures HeaderCodec().enc(h) == HeaderBytes(h)
  {
    hide PairCodec, MapCodec, OptionCodec, VecCodec, EnumCodec, KdfCodec, KdfBytes, RecipientCodec, SlotsBytes,
      EncVarint, EncAll;
    KdfIs(h.kdf);
    SlotsAre(h.recipients);
    VecIs(RecipientCodec(), h.recipients, SlotsBytes(h.recipients));
    EnumIs(ProfileIndex, ProfileFrom, h.profile, ProfileByte(h.profile));
    EnumIs(AlgorithmIndex, AlgorithmFrom, h.algorithm, AlgorithmByte(h.algorithm));
    var c1 := PairCodec(OptionCodec(KdfCodec()), VecCodec(RecipientCodec()));
    var c2 := PairCodec(AlgorithmCodec(), c1);
    var c3 := PairCodec(ProfileCodec(), c2);
    var c4 := PairCodec(U16Codec(), c3);
    var s1 := KdfBytes(h.kdf) + (EncVarint(|h.recipients|) + SlotsBytes(h.recipients));
    var s2 := [AlgorithmByte(h.algorithm)] + s1;
    var s3 := [ProfileByte(h.profile)] + s2;
    var s4 := EncVarint(h.version) + s3;
    var t1 := (h.kdf, h.recipients);
    PairIs(OptionCodec(KdfCodec()), VecCodec(RecipientCodec()), h.kdf, h.recipients, KdfBytes(h.kdf),
      EncVarint(|h.recipients|) + SlotsBytes(h.recipients));
    PairIs(AlgorithmCodec(), c1, h.algorithm, t1, [AlgorithmByte(h.algorithm)], s1);
    PairIs(ProfileCodec(), c2, h.profile, (h.algorithm, t1), [ProfileByte(h.profile)], s2);
    PairIs(U16Codec(), c3, h.version, (h.profile, (h.algorithm, t1)), EncVarint(h.version), s3);
    PairIs(B4Codec(), c4, h.magic, (h.version, (h.profile, (h.algorithm, t1))), h.magic, s4);
    MapIs(PairCodec(B4Codec(), c4), HeaderMake, HeaderSplit, h, h.magic + s4);
  }

  lemma LegacyIs(l: LegacyEnvelope)
    ensures LegacyCodec().enc(l) == LegacyBytes(l)
  {
    hide HeaderCodec, HeaderBytes, PairCodec, MapCodec, OptionCodec, BlobCodec, EncVarint, Sized;
    HeaderIs(l.header);
    BlobIs(l.metadata);
    if l.secondaryNonce.Some? {
      OptionIs(B12Codec(), l.secondaryNonce, l.secondaryNonce.value);
    } else {
      OptionIs(B12Codec(), l.secondaryNonce, []);
    }
    var c1 := PairCodec(B32Codec(), BlobCodec());
    var c2 := PairCodec(OptionCodec(B12Codec()), c1);
    var c3 := PairCodec(B24Codec(), c2);
    var c4 := PairCodec(U64Codec(), c3);
    var s1 := l.aadHash + Sized(l.metadata);
    var s2 := NonceBytes(l.secondaryNonce) + s1;
    var s3 := l.nonce + s2;
    var s4 := EncVarint(l.plaintextLen) + s3;
    var t2 := (l.secondaryNonce, (l.aadHash, l.metadata));
    PairIs(B32Codec(), BlobCodec(), l.aadHash, l.metadata, l.aadHash, Sized(l.metadata));
    PairIs(OptionCodec(B12Codec()), c1, l.secondaryNonce, t2.1, NonceBytes(l.secondaryNonce), s1);
    PairIs(B24Codec(), c2, l.nonce, t2, l.nonce, s2);
    PairIs(U64Codec(), c3, l.plaintextLen, (l.nonce, t2), EncVarint(l.plaintextLen), s3);
    PairIs(HeaderCodec(), c4, l.header, (l.plaintextLen, (l.nonce, t2)), HeaderBytes(l.header), s4);
    MapIs(PairCodec(HeaderCodec(), c4), LegacyMake, LegacySplit, l, HeaderBytes(l.header) + s4);
  }

  lemma TypeIs(t: Option<ContentType>)
    ensures OptionCodec(ContentTypeCodec()).enc(t) == TypeBytes(t)
  {
    hide OptionCodec, EnumCodec;
    if t.Some? {
      EnumIs(ContentTypeIndex, ContentTypeFrom, t.value, ContentTypeIndex(t.value));
      OptionIs(ContentTypeCodec(), t, [ContentTypeIndex(t.value)]);
    } else {
      OptionIs(ContentTypeCodec(), t, []);
    }
  }

  lemma SignatureIs(signature: Option<EnvelopeSignature>)
    ensures OptionCodec(SignatureCodec()).enc(signature) == SignatureBytes(signature)
  {
    hide StrOption, TextBytes, PairCodec, MapCodec, OptionCodec, BlobCodec, Sized;
    if signature.Some? {
      var s := signature.value;
      TextIs(s.createdAt);
      TextIs(s.comment);
      BlobIs(s.signature);
      var c1 := PairCodec(StrOption(), StrOption());
      var c2 := PairCodec(BlobCodec(), c1);
      var s1 := TextBytes(s.createdAt) + TextBytes(s.comment);
      var s2 := Sized(s.signature) + s1;
      var t1 := (s.createdAt, s.comment);
      PairIs(StrOption(), StrOption(), s.createdAt, s.comment, TextBytes(s.createdAt), TextBytes(s.comment));
      PairIs(BlobCodec(), c1, s.signature, t1, Sized(s.signature), s1);
      PairIs(B32Codec(), c2, s.signerFingerprint, (s.signature, t1), s.signerFingerprint, s2);
      MapIs(PairCodec(B32Codec(), c2), SignatureMake, SignatureSplit, s, s.signerFingerprint + s2);
      OptionIs(SignatureCodec(), signature, s.signerFingerprint + s2);
    } else {
      OptionIs(SignatureCodec(), signature, []);
    }
  }

  lemma {:induction false} ApprovalsAre(approvals: seq<ApprovalSignature>)
    ensures EncAll(ApprovalCodec(), approvals) == ApprovalsBytes(approvals)
  {
    hide ApprovalCodec, TextBytes, Sized;
    if approvals != [] {
      ApprovalIs(approvals[0]);
      ApprovalsAre(approvals[1..]);
    }
  }

  lemma ApprovalIs(a: ApprovalSignature)
    ensures ApprovalCodec().enc(a) == a.signerFingerprint + (Sized(a.signature) + TextBytes(a.comment))
  {
    hide StrOption, TextBytes, PairCodec, MapCodec, BlobCodec, Sized;
    TextIs(a.comment);
    BlobIs(a.signature);
    var c := PairCodec(BlobCodec(), StrOption());
    var s := Sized(a.signature) + TextBytes(a.comment);
    PairIs(BlobCodec(), StrOption(), a.signature, a.comment, Sized(a.signature), TextBytes(a.comment));
    PairIs(B32Codec(), c, a.signerFingerprint, (a.signature, a.comment), a.signerFingerprint, s);
    MapIs(PairCodec(B32Codec(), c), ApprovalMake, ApprovalSplit, a, a.signerFingerprint + s);
  }

  lemma ReleaseIs(release: Option<ReleaseMetadata>)
    ensures OptionCodec(ReleaseCodec()).enc(release) == ReleaseBytes(release)
  {
    hide StrOption, TextBytes, PairCodec, MapCodec, OptionCodec;
    if release.Some? {
      var r := release.value;
      TextIs(r.projectName);
      TextIs(r.version);
      TextIs(r.gitCommit);
      TextIs(r.buildTimestamp);
      var o := StrOption();
      var c1 := PairCodec(o, o);
      var c2 := PairCodec(o, c1);
      var s1 := TextBytes(r.gitCommit) + TextBytes(r.buildTimestamp);
      var s2 := TextBytes(r.version) + s1;
      var t1 := (r.gitCommit, r.buildTimestamp);
      PairIs(o, o, r.gitCommit, r.buildTimestamp, TextBytes(r.gitCommit), TextBytes(r.buildTimestamp));
      PairIs(o, c1, r.version, t1, TextBytes(r.version), s1);
      PairIs(o, c2, r.projectName, (r.version, t1), TextBytes(r.projectName), s2);
      MapIs(PairCodec(o, c2), ReleaseMake, ReleaseSplit, r, TextBytes(r.projectName) + s2);
      OptionIs(ReleaseCodec(), release, TextBytes(r.projectName) + s2);
    } else {
      OptionIs(ReleaseCodec(), release, []);
    }
  }

  lemma RecoveryIs(recovery: Option<bytes>)
    ensures OptionCodec(BlobCodec()).enc(recovery) == RecoveryBytes(recovery)
  {
    if recovery.Some? {
      OptionIs(BlobCodec(), recovery, Sized(recovery.value));
    } else {
      OptionIs(BlobCodec(), recovery, []);
    }
  }

  /** The thirteen fields of the envelope on the wire, in the order of their declaration. */
  lemma EnvelopeIs(e: Envelope)
    ensures EnvelopeCodec().enc(e) == EnvelopeBytes(e)
  {
    hide LegacyCodec, LegacyBytes, OptionCodec, ContentTypeCodec, SignatureCodec, StrOption, TextBytes, TypeBytes,
      SignatureBytes, ApprovalCodec, ApprovalsBytes, ReleaseCodec, ReleaseBytes, BlobCodec, RecoveryBytes, EncAll,
      PairCodec, MapCodec, VecCodec, EncVarint;
    var (legacy, tail) := EnvelopeSplit(e);
    LegacyIs(legacy);
    TypeIs(e.contentType);
    SignatureIs(e.signature);
    TextIs(e.publicLabel);
    ApprovalsAre(e.approvals);
    VecIs(ApprovalCodec(), e.approvals, ApprovalsBytes(e.approvals));
    ReleaseIs(e.releaseMetadata);
    RecoveryIs(e.recoveryMetadata);
    var c1 := PairCodec(BoolCodec(), OptionCodec(BlobCodec()));
    var c2 := PairCodec(OptionCodec(ReleaseCodec()), c1);
    var c3 := PairCodec(VecCodec(ApprovalCodec()), c2);
    var c4 := PairCodec(StrOption(), c3);
    var c5 := PairCodec(OptionCodec(SignatureCodec()), c4);
    var list := EncVarint(|e.approvals|) + ApprovalsBytes(e.approvals);
    var s1 := [FlagByte(e.policyOverridden)] + RecoveryBytes(e.recoveryMetadata);
    var s2 := ReleaseBytes(e.releaseMetadata) + s1;
    var s3 := list + s2;
    var s4 := TextBytes(e.publicLabel) + s3;
    var s5 := SignatureBytes(e.signature) + s4;
    var t1 := (e.policyOverridden, e.recoveryMetadata);
    var t3 := (e.approvals, (e.releaseMetadata, t1));
    PairIs(BoolCodec(), OptionCodec(BlobCodec()), e.policyOverridden, e.recoveryMetadata,
      [FlagByte(e.policyOverridden)], RecoveryBytes(e.recoveryMetadata));
    PairIs(OptionCodec(ReleaseCodec()), c1, e.releaseMetadata, t1, ReleaseBytes(e.releaseMetadata), s1);
    PairIs(VecCodec(ApprovalCodec()), c2, e.approvals, t3.1, list, s2);
    PairIs(StrOption(), c3, e.publicLabel, t3, TextBytes(e.publicLabel), s3);
    PairIs(OptionCodec(SignatureCodec()), c4, e.signature, (e.publicLabel, t3), SignatureBytes(e.signature), s4);
    PairIs(OptionCodec(ContentTypeCodec()), c5, e.contentType, (e.signature, (e.publicLabel, t3)),
      TypeBytes(e.contentType), s5);
    PairIs(LegacyCodec(), TailCodec(), legacy, tail, LegacyBytes(legacy), TypeBytes(e.contentType) + s5);
    MapIs(PairCodec(LegacyCodec(), TailCodec()), EnvelopeMake, EnvelopeSplit, e,
      LegacyBytes(legacy) + (TypeBytes(e.contentType) + s5));
  }

  // ---- What the payload commits to ----

  /** Version 1 hashes the header, version 2 its domain and the committed fields. */
  function CommitmentBytes(e: Envelope): bytes {
    if e.header.version == 1 then HeaderBytes(e.header)
    else
      Ascii("Lvau payload AAD v2\0") + (HeaderBytes(e.header) + (EncVarint(e.plaintextLen) + (e.nonce
        + (NonceBytes(e.secondaryNonce) + (Sized(e.metadata) + (TypeBytes(e.contentType)
        + (TextBytes(e.publicLabel) + [FlagByte(e.policyOverridden)])))))))
  }

  lemma CommitmentIs(e: Envelope)
    ensures CommitmentPreimage(e) == if 1 <= e.header.version <= 2 then Some(CommitmentBytes(e)) else None
  {
    hide HeaderCodec, HeaderBytes, CommittedCodec;
    HeaderIs(e.header);
    CommittedIs(CommittedOf(e));
  }

  lemma CommittedIs(c: Committed)
    ensures CommittedCodec().enc(c) == HeaderBytes(c.header) + (EncVarint(c.plaintextLen) + (c.nonce
      + (NonceBytes(c.secondaryNonce) + (Sized(c.metadata) + (TypeBytes(c.contentType)
      + (TextBytes(c.publicLabel) + [FlagByte(c.policyOverridden)]))))))
  {
    hide HeaderCodec, HeaderBytes, PairCodec, MapCodec, OptionCodec, BlobCodec, EncVarint, Sized, ContentTypeCodec,
      StrOption, TextBytes, TypeBytes;
    HeaderIs(c.header);
    BlobIs(c.metadata);
    TypeIs(c.contentType);
    TextIs(c.publicLabel);
    if c.secondaryNonce.Some? {
      OptionIs(B12Codec(), c.secondaryNonce, c.secondaryNonce.value);
    } else {
      OptionIs(B12Codec(), c.secondaryNonce, []);
    }
    var c1 := PairCodec(StrOption(), BoolCodec());
    var c2 := PairCodec(OptionCodec(ContentTypeCodec()), c1);
    var c3 := PairCodec(BlobCodec(), c2);
    var c4 := PairCodec(OptionCodec(B12Codec()), c3);
    var c5 := PairCodec(B24Codec(), c4);
    var c6 := PairCodec(U64Codec(), c5);
    var s1 := TextBytes(c.publicLabel) + [FlagByte(c.policyOverridden)];
    var s2 := TypeBytes(c.contentType) + s1;
    var s3 := Sized(c.metadata) + s2;
    var s4 := NonceBytes(c.secondaryNonce) + s3;
    var s5 := c.nonce + s4;
    var s6 := EncVarint(c.plaintextLen) + s5;
    var t2 := (c.contentType, (c.publicLabel, c.policyOverridden));
    var t4 := (c.secondaryNonce, (c.metadata, t2));
    var t6 := (c.plaintextLen, (c.nonce, t4));
    PairIs(StrOption(), BoolCodec(), c.publicLabel, c.policyOverridden, TextBytes(c.publicLabel),
      [FlagByte(c.policyOverridden)]);
    PairIs(OptionCodec(ContentTypeCodec()), c1, c.contentType, t2.1, TypeBytes(c.contentType), s1);
    PairIs(BlobCodec(), c2, c.metadata, t2, Sized(c.metadata), s2);
    PairIs(OptionCodec(B12Codec()), c3, c.secondaryNonce, t4.1, NonceBytes(c.secondaryNonce), s3);
    PairIs(B24Codec(), c4, c.nonce, t4, c.nonce, s4);
    PairIs(U64Codec(), c5, c.plaintextLen, t6.1, EncVarint(c.plaintextLen), s5);
    PairIs(HeaderCodec(), c6, c.header, t6, HeaderBytes(c.header), s6);
    MapIs(PairCodec(HeaderCodec(), c6), CommittedMake, CommittedSplit, c, HeaderBytes(c.header) + s6);
  }

  // ---- The manifest ----

  function EntriesBytes(entries: seq<BundleEntry>): bytes {
    if entries == [] then []
    else
      var e := entries[0];
      (Sized(e.relativePath) + (EncVarint(e.size) + (e.blake3Hash + EncVarint(e.offset)))) + EntriesBytes(entries[1..])
  }

  function ManifestBytes(m: BundleManifest): bytes {
    (EncVarint(|m.entries|) + EntriesBytes(m.entries)) + (TextBytes(m.createdAt) + TextBytes(m.toolVersion))
  }

  lemma EntryIs(e: BundleEntry)
    ensures EntryCodec().enc(e) ==
      Sized(e.relativePath) + (EncVarint(e.size) + (e.blake3Hash + EncVarint(e.offset)))
  {
    hide PairCodec, MapCodec, EncVarint;
    var c1 := PairCodec(B32Codec(), U64Codec());
    var c2 := PairCodec(U64Codec(), c1);
    var s1 := e.blake3Hash + EncVarint(e.offset);
    var s2 := EncVarint(e.size) + s1;
    var t1 := (e.blake3Hash, e.offset);
    PairIs(B32Codec(), U64Codec(), e.blake3Hash, e.offset, e.blake3Hash, EncVarint(e.offset));
    PairIs(U64Codec(), c1, e.size, t1, EncVarint(e.size), s1);
    PairIs(StrCodec(), c2, e.relativePath, (e.size, t1), Sized(e.relativePath), s2);
    MapIs(PairCodec(StrCodec(), c2), EntryMake, EntrySplit, e, Sized(e.relativePath) + s2);
  }

  lemma {:induction false} EntriesAre(entries: seq<BundleEntry>)
    ensures EncAll(EntryCodec(), entries) == EntriesBytes(entries)
  {
    hide EntryCodec, Sized, EncVarint;
    if entries != [] {
      EntryIs(entries[0]);
      EntriesAre(entries[1..]);
    }
  }

  lemma ManifestIs(m: BundleManifest)
    ensures ManifestCodec().enc(m) == ManifestBytes(m)
  {
    hide EntryCodec, EntriesBytes, StrOption, TextBytes, EncAll, PairCodec, MapCodec, VecCodec, EncVarint;
    EntriesAre(m.entries);
    VecIs(EntryCodec(), m.entries, EntriesBytes(m.entries));
    TextIs(m.createdAt);
    TextIs(m.toolVersion);
    var c1 := PairCodec(StrOption(), StrOption());
    var list := EncVarint(|m.entries|) + EntriesBytes(m.entries);
    var s1 := TextBytes(m.createdAt) + TextBytes(m.toolVersion);
    PairIs(StrOption(), StrOption(), m.createdAt, m.toolVersion, TextBytes(m.createdAt), TextBytes(m.toolVersion));
    PairIs(VecCodec(EntryCodec()), c1, m.entries, (m.createdAt, m.toolVersion), list, s1);
    MapIs(PairCodec(VecCodec(EntryCodec()), c1), ManifestMake, ManifestSplit, m, list + s1);
  }
}
