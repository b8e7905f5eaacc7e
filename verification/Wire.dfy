/** The postcard encodings of the protocol types, field by field in declaration
    order. */
module Wire {
  import opened Bytes
  import opened Postcard
  import opened Protocol

  // ---- Enumerations ----

  function ProfileIndex(p: SecurityProfile): nat {
    match p case Fast => 0 case Balanced => 1 case Archive => 2 case Paranoid => 3 case Extreme => 4
  }

  function ProfileFrom(k: nat): Option<SecurityProfile> {
    if k < 5 then Some([Fast, Balanced, Archive, Paranoid, Extreme][k]) else None
  }

  function AlgorithmIndex(a: AlgorithmId): nat {
    match a
    case XChaCha20Poly1305 => 0
    case CascadeAesGcmXChaCha => 1
    case TripleCascadeAesXChaChaLco => 2
    case X25519 => 3
    case Ed25519 => 4
    case X25519MlkemHybrid => 5
    case Ed25519MldsaHybrid => 6
  }

  function AlgorithmFrom(k: nat): Option<AlgorithmId> {
    if k < 7 then
      Some([XChaCha20Poly1305, CascadeAesGcmXChaCha, TripleCascadeAesXChaChaLco, X25519, Ed25519, X25519MlkemHybrid,
        Ed25519MldsaHybrid][k])
    else None
  }

  function ContentTypeIndex(c: ContentType): nat { if c.SingleFile? then 0 else 1 }

  function ContentTypeFrom(k: nat): Option<ContentType> {
    if k == 0 then Some(SingleFile) else if k == 1 then Some(Bundle) else None
  }

  datatype KdfTag = Argon2idTag

  function KdfTagIndex(t: KdfTag): nat { 0 }

  function KdfTagFrom(k: nat): Option<KdfTag> { if k == 0 then Some(Argon2idTag) else None }

  function ProfileCodec(): Codec<SecurityProfile> { EnumCodec(ProfileIndex, ProfileFrom) }
  function AlgorithmCodec(): Codec<AlgorithmId> { EnumCodec(AlgorithmIndex, AlgorithmFrom) }
  function ContentTypeCodec(): Codec<ContentType> { EnumCodec(ContentTypeIndex, ContentTypeFrom) }
  function KdfTagCodec(): Codec<KdfTag> { EnumCodec(KdfTagIndex, KdfTagFrom) }

  lemma EnumsGood()
    ensures Good(ProfileCodec()) && Good(AlgorithmCodec()) && Good(ContentTypeCodec()) && Good(KdfTagCodec())
  {
    EnumGood(ProfileIndex, ProfileFrom);
    EnumGood(AlgorithmIndex, AlgorithmFrom);
    EnumGood(ContentTypeIndex, ContentTypeFrom);
    forall t: KdfTag ensures KdfTagFrom(KdfTagIndex(t)) == Some(t) { assert t == Argon2idTag; }
    EnumGood(KdfTagIndex, KdfTagFrom);
  }

  // ---- Header ----

  type KdfParts = (KdfTag, (u32, (u32, (u32, b16))))

  function KdfMake(t: KdfParts): KdfParams { Argon2id(t.1.0, t.1.1.0, t.1.1.1.0, t.1.1.1.1) }
  function KdfSplit(k: KdfParams): KdfParts { (Argon2idTag, (k.mCost, (k.tCost, (k.pCost, k.salt)))) }

  /** An enum of one variant: its index is always 0. */
  function KdfCodec(): Codec<KdfParams> {
    MapCodec(PairCodec(KdfTagCodec(), PairCodec(U32Codec(), PairCodec(U32Codec(), PairCodec(U32Codec(), B16Codec())))),
      KdfMake, KdfSplit)
  }

  lemma KdfGood()
    ensures Good(KdfCodec())
  {
    hide Good, NonEmpty, PairCodec, MapCodec, KdfTagCodec, U32Codec, B16Codec;
    IntegersGood();
    FixedGood();
    EnumsGood();
    var c1 := PairCodec(U32Codec(), B16Codec());
    var c2 := PairCodec(U32Codec(), c1);
    var c3 := PairCodec(U32Codec(), c2);
    PairGood(U32Codec(), B16Codec());
    PairGood(U32Codec(), c1);
    PairGood(U32Codec(), c2);
    PairGood(KdfTagCodec(), c3);
    MapGood(PairCodec(KdfTagCodec(), c3), KdfMake, KdfSplit);
  }

  type RecipientParts = Either<(b24, bytes), (b32, (bytes, bytes))>

  function RecipientMake(t: RecipientParts): Recipient {
    match t
    case Left(p) => PasswordRecipient(p.0, p.1)
    case Right(h) => HybridRecipient(h.0, h.1.0, h.1.1)
  }

  function RecipientSplit(r: Recipient): RecipientParts {
    match r
    case PasswordRecipient(nonce, key) => Left((nonce, key))
    case HybridRecipient(ephemeral, ciphertext, key) => Right((ephemeral, (ciphertext, key)))
  }

  function RecipientCodec(): Codec<Recipient> {
    MapCodec(EitherCodec(PairCodec(B24Codec(), BlobCodec()),
      PairCodec(B32Codec(), PairCodec(BlobCodec(), BlobCodec()))),
      RecipientMake, RecipientSplit)
  }

  lemma RecipientGood()
    ensures Good(RecipientCodec()) && NonEmpty(RecipientCodec())
  {
    hide Good, NonEmpty, PairCodec, MapCodec, EitherCodec, BlobCodec, B24Codec, B32Codec;
    FixedGood();
    StringsGood();
    var c1 := PairCodec(B24Codec(), BlobCodec());
    var c2 := PairCodec(BlobCodec(), BlobCodec());
    var c3 := PairCodec(B32Codec(), c2);
    PairGood(B24Codec(), BlobCodec());
    PairGood(BlobCodec(), BlobCodec());
    PairGood(B32Codec(), c2);
    EitherGood(c1, c3);
    MapGood(EitherCodec(c1, c3), RecipientMake, RecipientSplit);
  }

  type HeaderParts = (b4, (u16, (SecurityProfile, (AlgorithmId, (Option<KdfParams>, seq<Recipient>)))))

  function HeaderMake(t: HeaderParts): EnvelopeHeader {
    EnvelopeHeader(t.0, t.1.0, t.1.1.0, t.1.1.1.0, t.1.1.1.1.0, t.1.1.1.1.1)
  }

  function HeaderSplit(h: EnvelopeHeader): HeaderParts {
    (h.magic, (h.version, (h.profile, (h.algorithm, (h.kdf, h.recipients)))))
  }

  function HeaderCodec(): Codec<EnvelopeHeader> {
    MapCodec(PairCodec(B4Codec(), PairCodec(U16Codec(), PairCodec(ProfileCodec(), PairCodec(AlgorithmCodec(),
      PairCodec(OptionCodec(KdfCodec()), VecCodec(RecipientCodec())))))), HeaderMake, HeaderSplit)
  }

  lemma HeaderGood()
    ensures Good(HeaderCodec())
  {
    hide Good, NonEmpty, PairCodec, MapCodec, OptionCodec, VecCodec, B4Codec, U16Codec, ProfileCodec, AlgorithmCodec,
      KdfCodec, RecipientCodec;
    FixedGood();
    IntegersGood();
    EnumsGood();
    KdfGood();
    RecipientGood();
    OptionGood(KdfCodec());
    VecGood(RecipientCodec());
    var c1 := PairCodec(OptionCodec(KdfCodec()), VecCodec(RecipientCodec()));
    var c2 := PairCodec(AlgorithmCodec(), c1);
    var c3 := PairCodec(ProfileCodec(), c2);
    var c4 := PairCodec(U16Codec(), c3);
    PairGood(OptionCodec(KdfCodec()), VecCodec(RecipientCodec()));
    PairGood(AlgorithmCodec(), c1);
    PairGood(ProfileCodec(), c2);
    PairGood(U16Codec(), c3);
    PairGood(B4Codec(), c4);
    MapGood(PairCodec(B4Codec(), c4), HeaderMake, HeaderSplit);
  }

  // ---- The six legacy fields ----

  type LegacyParts = (EnvelopeHeader, (u64, (b24, (Option<b12>, (b32, bytes)))))

  function LegacyMake(t: LegacyParts): LegacyEnvelope {
    LegacyEnvelope(t.0, t.1.0, t.1.1.0, t.1.1.1.0, t.1.1.1.1.0, t.1.1.1.1.1)
  }

  function LegacySplit(l: LegacyEnvelope): LegacyParts {
    (l.header, (l.plaintextLen, (l.nonce, (l.secondaryNonce, (l.aadHash, l.metadata)))))
  }

  function LegacyCodec(): Codec<LegacyEnvelope> {
    MapCodec(PairCodec(HeaderCodec(), PairCodec(U64Codec(), PairCodec(B24Codec(), PairCodec(OptionCodec(B12Codec()),
      PairCodec(B32Codec(), BlobCodec()))))), LegacyMake, LegacySplit)
  }

  lemma LegacyGood()
    ensures Good(LegacyCodec())
  {
    hide Good, NonEmpty, PairCodec, MapCodec, OptionCodec, HeaderCodec, U64Codec, B24Codec, B12Codec, B32Codec,
      BlobCodec;
    HeaderGood();
    FixedGood();
    IntegersGood();
    StringsGood();
    OptionGood(B12Codec());
    var c1 := PairCodec(B32Codec(), BlobCodec());
    var c2 := PairCodec(OptionCodec(B12Codec()), c1);
    var c3 := PairCodec(B24Codec(), c2);
    var c4 := PairCodec(U64Codec(), c3);
    PairGood(B32Codec(), BlobCodec());
    PairGood(OptionCodec(B12Codec()), c1);
    PairGood(B24Codec(), c2);
    PairGood(U64Codec(), c3);
    PairGood(HeaderCodec(), c4);
    MapGood(PairCodec(HeaderCodec(), c4), LegacyMake, LegacySplit);
  }

  // ---- The seven later fields ----

  function StrOption(): Codec<Option<Str>> { OptionCodec(StrCodec()) }

  type SignatureParts = (b32, (bytes, (Option<Str>, Option<Str>)))

  function SignatureMake(t: SignatureParts): EnvelopeSignature { EnvelopeSignature(t.0, t.1.0, t.1.1.0, t.1.1.1) }
  function SignatureSplit(s: EnvelopeSignature): SignatureParts {
    (s.signerFingerprint, (s.signature, (s.createdAt, s.comment)))
  }

  function SignatureCodec(): Codec<EnvelopeSignature> {
    MapCodec(PairCodec(B32Codec(), PairCodec(BlobCodec(), PairCodec(StrOption(), StrOption()))), SignatureMake,
      SignatureSplit)
  }

  type ApprovalParts = (b32, (bytes, Option<Str>))

  function ApprovalMake(t: ApprovalParts): ApprovalSignature { ApprovalSignature(t.0, t.1.0, t.1.1) }
  function ApprovalSplit(a: ApprovalSignature): ApprovalParts { (a.signerFingerprint, (a.signature, a.comment)) }

  function ApprovalCodec(): Codec<ApprovalSignature> {
    MapCodec(PairCodec(B32Codec(), PairCodec(BlobCodec(), StrOption())), ApprovalMake, ApprovalSplit)
  }

  type ReleaseParts = (Option<Str>, (Option<Str>, (Option<Str>, Option<Str>)))

  function ReleaseMake(t: ReleaseParts): ReleaseMetadata { ReleaseMetadata(t.0, t.1.0, t.1.1.0, t.1.1.1) }
  function ReleaseSplit(m: ReleaseMetadata): ReleaseParts {
    (m.projectName, (m.version, (m.gitCommit, m.buildTimestamp)))
  }

  function ReleaseCodec(): Codec<ReleaseMetadata> {
    MapCodec(PairCodec(StrOption(), PairCodec(StrOption(), PairCodec(StrOption(), StrOption()))), ReleaseMake,
      ReleaseSplit)
  }

  lemma AnnotationsGood()
    ensures Good(StrOption()) && Good(SignatureCodec()) && Good(ReleaseCodec())
    ensures Good(ApprovalCodec()) && NonEmpty(ApprovalCodec())
  {
    assert NonEmpty(B32Codec());
    hide Good, NonEmpty, PairCodec, MapCodec, OptionCodec, B32Codec, BlobCodec, StrCodec;
    FixedGood();
    StringsGood();
    OptionGood(StrCodec());
    var o := StrOption();
    var c1 := PairCodec(o, o);
    var c2 := PairCodec(BlobCodec(), c1);
    PairGood(o, o);
    PairGood(BlobCodec(), c1);
    PairGood(B32Codec(), c2);
    MapGood(PairCodec(B32Codec(), c2), SignatureMake, SignatureSplit);
    var c3 := PairCodec(BlobCodec(), o);
    PairGood(BlobCodec(), o);
    PairGood(B32Codec(), c3);
    MapGood(PairCodec(B32Codec(), c3), ApprovalMake, ApprovalSplit);
    var c4 := PairCodec(o, c1);
    PairGood(o, c1);
    PairGood(o, c4);
    MapGood(PairCodec(o, c4), ReleaseMake, ReleaseSplit);
  }

  type TailParts = (Option<ContentType>, (Option<EnvelopeSignature>, (Option<Str>, (seq<ApprovalSignature>,
    (Option<ReleaseMetadata>, (bool, Option<bytes>))))))

  function TailCodec(): Codec<TailParts> {
    PairCodec(OptionCodec(ContentTypeCodec()), PairCodec(OptionCodec(SignatureCodec()), PairCodec(StrOption(),
      PairCodec(VecCodec(ApprovalCodec()),
        PairCodec(OptionCodec(ReleaseCodec()), PairCodec(BoolCodec(), OptionCodec(BlobCodec())))))))
  }

  lemma TailGood()
    ensures Good(TailCodec())
  {
    hide Good, NonEmpty, PairCodec, OptionCodec, VecCodec, BoolCodec, BlobCodec, ContentTypeCodec, SignatureCodec,
      StrOption, ApprovalCodec, ReleaseCodec;
    FixedGood();
    StringsGood();
    EnumsGood();
    AnnotationsGood();
    OptionGood(ContentTypeCodec());
    OptionGood(SignatureCodec());
    OptionGood(ReleaseCodec());
    OptionGood(BlobCodec());
    VecGood(ApprovalCodec());
    var c1 := PairCodec(BoolCodec(), OptionCodec(BlobCodec()));
    var c2 := PairCodec(OptionCodec(ReleaseCodec()), c1);
    var c3 := PairCodec(VecCodec(ApprovalCodec()), c2);
    var c4 := PairCodec(StrOption(), c3);
    var c5 := PairCodec(OptionCodec(SignatureCodec()), c4);
    PairGood(BoolCodec(), OptionCodec(BlobCodec()));
    PairGood(OptionCodec(ReleaseCodec()), c1);
    PairGood(VecCodec(ApprovalCodec()), c2);
    PairGood(StrOption(), c3);
    PairGood(OptionCodec(SignatureCodec()), c4);
    PairGood(OptionCodec(ContentTypeCodec()), c5);
  }

  function EnvelopeMake(t: (LegacyEnvelope, TailParts)): Envelope {
    Envelope(t.0.header, t.0.plaintextLen, t.0.nonce, t.0.secondaryNonce, t.0.aadHash, t.0.metadata,
      t.1.0, t.1.1.0, t.1.1.1.0, t.1.1.1.1.0, t.1.1.1.1.1.0, t.1.1.1.1.1.1.0, t.1.1.1.1.1.1.1)
  }

  function EnvelopeSplit(e: Envelope): (LegacyEnvelope, TailParts) {
    (LegacyEnvelope(e.header, e.plaintextLen, e.nonce, e.secondaryNonce, e.aadHash, e.metadata),
     (e.contentType, (e.signature,
       (e.publicLabel, (e.approvals, (e.releaseMetadata, (e.policyOverridden, e.recoveryMetadata)))))))
  }

  /** All thirteen fields: the six of the first format, then the later seven. */
  function EnvelopeCodec(): Codec<Envelope> {
    MapCodec(PairCodec(LegacyCodec(), TailCodec()), EnvelopeMake, EnvelopeSplit)
  }

  lemma EnvelopeGood()
    ensures Good(EnvelopeCodec())
  {
    hide Good, NonEmpty, PairCodec, MapCodec, LegacyCodec, TailCodec;
    LegacyGood();
    TailGood();
    PairGood(LegacyCodec(), TailCodec());
    MapGood(PairCodec(LegacyCodec(), TailCodec()), EnvelopeMake, EnvelopeSplit);
  }

  /** No byte string is exactly a current envelope and exactly a legacy one: the
      legacy fields are a proper prefix of the current ones, and no later field is
      encoded as nothing. */
  lemma LegacyUnambiguous(input: bytes)
    ensures DecodeExact(LegacyCodec(), input).Some? ==> DecodeExact(EnvelopeCodec(), input).None?
  {
    hide LegacyCodec, PairCodec;
    if DecodeExact(LegacyCodec(), input).Some? {
      TailOfNothing();
      PairStopsAfterFirst(LegacyCodec(), TailCodec(), input);
    }
  }

  lemma TailOfNothing()
    ensures TailCodec().dec([]).None?
  {
  }

  lemma PairStopsAfterFirst<A, B>(a: Codec<A>, b: Codec<B>, input: bytes)
    requires a.dec(input).Some? && a.dec(input).value.1 == [] && b.dec([]).None?
    ensures PairCodec(a, b).dec(input).None?
  {
  }

  lemma PairLength<A, B>(a: Codec<A>, b: Codec<B>, x: A, y: B)
    ensures |PairCodec(a, b).enc((x, y))| == |a.enc(x)| + |b.enc(y)|
  {
  }

  lemma MapLength<A, B>(c: Codec<A>, make: A -> B, parts: B -> A, x: B)
    ensures |MapCodec(c, make, parts).enc(x)| == |c.enc(parts(x))|
  {
  }

  /** An envelope is longer than its list of approvals. */
  lemma EnvelopeHoldsApprovals(e: Envelope)
    ensures |e.approvals| < |EnvelopeCodec().enc(e)|
  {
    hide LegacyCodec, ApprovalCodec, ReleaseCodec, SignatureCodec, StrOption, ContentTypeCodec, OptionCodec, BoolCodec,
      BlobCodec, VecCodec, PairCodec;
    AnnotationsGood();
    VecLength(ApprovalCodec(), e.approvals);
    var c1 := PairCodec(BoolCodec(), OptionCodec(BlobCodec()));
    var c2 := PairCodec(OptionCodec(ReleaseCodec()), c1);
    var c3 := PairCodec(VecCodec(ApprovalCodec()), c2);
    var c4 := PairCodec(StrOption(), c3);
    var c5 := PairCodec(OptionCodec(SignatureCodec()), c4);
    var t1 := (e.releaseMetadata, (e.policyOverridden, e.recoveryMetadata));
    var t2 := (e.approvals, t1);
    var t3 := (e.publicLabel, t2);
    var t4 := (e.signature, t3);
    PairLength(VecCodec(ApprovalCodec()), c2, e.approvals, t1);
    PairLength(StrOption(), c3, e.publicLabel, t2);
    PairLength(OptionCodec(SignatureCodec()), c4, e.signature, t3);
    PairLength(OptionCodec(ContentTypeCodec()), c5, e.contentType, t4);
    PairLength(LegacyCodec(), TailCodec(), EnvelopeSplit(e).0, EnvelopeSplit(e).1);
  }
}
