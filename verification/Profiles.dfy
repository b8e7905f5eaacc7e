/** What each security profile stands for: the envelope a fresh capsule has, and which
    policy rules it meets. */
module Profiles {
  import opened Bytes
  import opened Capsule
  import opened FileCrypto
  import opened Policy
  import opened Primitives
  import opened Protocol

  /** The documented payload algorithm of a profile. */
  predicate DocumentedAlgorithm(profile: SecurityProfile, algorithm: AlgorithmId) {
    match algorithm
    case XChaCha20Poly1305 => profile.Fast? || profile.Balanced? || profile.Archive?
    case CascadeAesGcmXChaCha => profile.Paranoid?
    case TripleCascadeAesXChaChaLco => profile.Extreme?
    case _ => false
  }

  /** A new v2 envelope: the fresh values where they belong, no annotation, the commitment
      over all committed fields. */
  predicate Fresh(crypto: Crypto, e: Envelope, profile: SecurityProfile, rnd: Randomness, plaintextLen: u64,
                  contentType: Option<ContentType>, overridden: bool) {
    && e.header.magic == MagicReal() && e.header.version == 2 && e.header.profile == profile
    && DocumentedAlgorithm(profile, e.header.algorithm)
    && e.plaintextLen == plaintextLen && e.nonce == rnd.nonce && e.metadata == []
    && e.secondaryNonce == (if e.header.algorithm.XChaCha20Poly1305? then None else Some(rnd.secondaryNonce))
    && e.contentType == contentType && e.policyOverridden == overridden && e.publicLabel.None?
    && e.signature.None? && e.approvals == [] && e.releaseMetadata.None? && e.recoveryMetadata.None?
    && CommitmentPreimage(e).Some? && e.aadHash == crypto.sha256(CommitmentPreimage(e).value)
  }

  lemma NewIsFresh(crypto: Crypto, header: EnvelopeHeader, plaintextLen: u64, rnd: Randomness,
                   contentType: Option<ContentType>, overridden: bool)
    requires header.magic == MagicReal() && header.version == CURRENT_VERSION
    requires header.algorithm == AlgorithmFor(header.profile)
    ensures Fresh(crypto, NewEnvelope(crypto, header, plaintextLen, rnd, contentType, overridden), header.profile, rnd,
      plaintextLen, contentType, overridden)
  {
    hide CommitmentPreimage;
    var e := NewEnvelope(crypto, header, plaintextLen, rnd, contentType, overridden);
    PreimageIgnoresHash(e, Zeroes(32));
    assert ComputeAadHash(crypto, e.(aadHash := Zeroes(32))) == Ok(e.aadHash);
  }

  lemma PreimageIgnoresHash(e: Envelope, hash: b32)
    requires e.header.version == CURRENT_VERSION
    ensures CommitmentPreimage(e).Some? && CommitmentPreimage(e.(aadHash := hash)) == CommitmentPreimage(e)
  {
    hide CommittedCodec, PayloadAadDomain;
    assert CommittedOf(e) == CommittedOf(e.(aadHash := hash));
  }

  /** The whole envelope of a fresh password capsule. */
  lemma FreshPasswordEnvelope(crypto: Crypto, password: bytes, seed: Option<bytes>, profile: SecurityProfile,
                              rnd: Randomness, plaintextLen: u64, contentType: Option<ContentType>, overridden: bool)
    requires PasswordEnvelope(crypto, password, seed, profile, rnd, plaintextLen, contentType, overridden).Some?
    ensures var e := PasswordEnvelope(crypto, password, seed, profile, rnd, plaintextLen, contentType,
      overridden).value;
      && Fresh(crypto, e, profile, rnd, plaintextLen, contentType, overridden)
      && e.header.kdf.Some? && DocumentedCosts(profile, e.header.kdf.value) && e.header.kdf.value.salt == rnd.salt
      && WrappedByHand(crypto, password, seed, profile, rnd).Some?
      && e.header.recipients ==
           [PasswordRecipient(rnd.wrapNonce, WrappedByHand(crypto, password, seed, profile, rnd).value)]
  {
    hide Fresh, NewEnvelope;
    var wrappingKey := PasswordWrappingKey(crypto, password, seed, PasswordKdf(profile, rnd.salt)).value;
    var header := PasswordHeader(crypto, wrappingKey, profile, rnd);
    NewIsFresh(crypto, header, plaintextLen, rnd, contentType, overridden);
    HeaderKept(crypto, header, plaintextLen, rnd, contentType, overridden);
  }

  // ---- Costs ----

  predicate Reaches(profile: SecurityProfile, min: MinKdfProfile) {
    match min
    case Interactive => !profile.Fast?
    case Moderate => !profile.Fast? && !profile.Balanced?
    case Strong => profile.Paranoid? || profile.Extreme?
  }

  lemma CostsReachIff(profile: SecurityProfile, k: KdfParams, min: MinKdfProfile)
    requires DocumentedCosts(profile, k)
    ensures !KdfTooWeak(k, min) <==> Reaches(profile, min)
  {
  }

  /** Which profile reaches which minimum strength. */
  lemma ProfileReachesIff(profile: SecurityProfile, salt: b16, min: MinKdfProfile)
    ensures !KdfTooWeak(PasswordKdf(profile, salt), min) <==> Reaches(profile, min)
  {
  }

  /** The profile that first reaches a minimum. */
  function FirstReaching(min: MinKdfProfile): SecurityProfile {
    match min case Interactive => Balanced case Moderate => Archive case Strong => Paranoid
  }

  /** Its costs are the least that do: lowering any of them falls below the minimum. */
  lemma CostsAreLeast(min: MinKdfProfile, salt: b16, k: KdfParams)
    requires var costs := PasswordKdf(FirstReaching(min), salt);
      k.mCost <= costs.mCost && k.tCost <= costs.tCost && k.pCost <= costs.pCost
    ensures !KdfTooWeak(k, min) <==> k.(salt := salt) == PasswordKdf(FirstReaching(min), salt)
  {
  }

  // ---- Lint of fresh capsules ----

  function DocumentedName(profile: SecurityProfile): string {
    match profile
    case Extreme => "TripleCascadeAesXChaChaLco"
    case Paranoid => "CascadeAesGcmXChaCha"
    case _ => "XChaCha20Poly1305"
  }

  predicate NotNamed(names: Option<seq<Str>>, name: string) {
    names.Some? && forall k :: 0 <= k < |names.value| ==> !SameIgnoringCase(names.value[k], Ascii(name))
  }

  /** The rules that a fresh capsule cannot meet, whoever it is for. */
  predicate FreshViolates(rule: Rule, profile: SecurityProfile, p: CapsulePolicy, forPassword: bool, slots: nat) {
    match rule
    case RequireSignature => p.requireSignature
    case RequireRecovery => p.requireRecovery
    case MinKdf => forPassword && p.minKdfProfile.Some? && !Reaches(profile, p.minKdfProfile.value)
    case AllowedCiphers => NotNamed(p.allowedCiphers, DocumentedName(profile))
    case AllowedKdfs => NotNamed(p.allowedKdfs, if forPassword then "Argon2id" else "None")
    case AllowLco => !p.allowLco && profile.Extreme?
    case AllowExperimental => !p.allowExperimental && (profile.Extreme? || profile.Paranoid? || !forPassword)
    case RequireMetadataProfile => p.requireMetadataProfile
    case RequirePadding => p.requirePadding
    case PublicLabelAllowed => false
    case CreatedByRequired => p.createdByRequired
    case RecipientCountMin => slots < p.requireRecipientCountMin
    case ApprovalSignaturesMin => 0 < p.requireApprovalSignaturesMin
  }

  lemma NotNamedIff(names: Option<seq<Str>>, name: string)
    ensures NotNamed(names, name) <==> names.Some? && !Lists(names.value, name)
  {
    if names.Some? { ListsIff(names.value, name); }
  }

  lemma NamesAgree(profile: SecurityProfile, algorithm: AlgorithmId)
    requires DocumentedAlgorithm(profile, algorithm)
    ensures CipherName(algorithm) == DocumentedName(profile)
    ensures algorithm.TripleCascadeAesXChaChaLco? <==> profile.Extreme?
  {
  }

  /** All slots are of one kind: for passwords, with the costs of the profile, or for key
      pairs, without. */
  predicate OneKind(e: Envelope) {
    if e.header.kdf.Some? then
      && DocumentedCosts(e.header.profile, e.header.kdf.value)
      && forall k :: 0 <= k < |e.header.recipients| ==> e.header.recipients[k].PasswordRecipient?
    else forall k :: 0 <= k < |e.header.recipients| ==> e.header.recipients[k].HybridRecipient?
  }

  lemma FreshCounts(e: Envelope)
    requires OneKind(e) && 1 <= |e.header.recipients| <= 64 && e.approvals == []
    ensures ApprovalCount(e) == 0 && RecipientCount(e) == |e.header.recipients|
    ensures HasExperimentalRecipient(e) <==> e.header.kdf.None?
    ensures e.header.kdf.Some? ==> DocumentedCosts(e.header.profile, e.header.kdf.value)
  {
    hide DocumentedCosts;
    assert Approvers(e.approvals) == {};
    assert e.header.recipients[0].HybridRecipient? <==> e.header.kdf.None?;
  }

  /** Exactly which rules the envelope of a fresh capsule violates. */
  lemma FreshLintIff(crypto: Crypto, e: Envelope, profile: SecurityProfile, rnd: Randomness, plaintextLen: u64,
                     contentType: Option<ContentType>, overridden: bool, rule: Rule, p: CapsulePolicy)
    requires Fresh(crypto, e, profile, rnd, plaintextLen, contentType, overridden)
    requires OneKind(e) && 1 <= |e.header.recipients| <= 64
    ensures Violated(rule, e, p) <==>
      FreshViolates(rule, profile, p, e.header.kdf.Some?, |e.header.recipients|)
  {
    hide CommitmentPreimage, Lists, NotNamed, KdfTooWeak, Reaches, DocumentedCosts, CipherName, DocumentedName,
      OneKind, ApprovalCount, RecipientCount, HasExperimentalRecipient;
    FreshCounts(e);
    NamesAgree(profile, e.header.algorithm);
    match rule
    case MinKdf =>
      if e.header.kdf.Some? && p.minKdfProfile.Some? {
        CostsReachIff(profile, e.header.kdf.value, p.minKdfProfile.value);
      }
    case AllowedCiphers => NotNamedIff(p.allowedCiphers, DocumentedName(profile));
    case AllowedKdfs =>
      if e.header.kdf.Some? { NotNamedIff(p.allowedKdfs, "Argon2id"); } else { NotNamedIff(p.allowedKdfs, "None"); }
    case _ =>
  }

  /** For passwords. */
  lemma FreshPasswordLintIff(crypto: Crypto, password: bytes, seed: Option<bytes>, profile: SecurityProfile,
                             rnd: Randomness, plaintextLen: u64, contentType: Option<ContentType>, overridden: bool,
                             rule: Rule, p: CapsulePolicy)
    requires PasswordEnvelope(crypto, password, seed, profile, rnd, plaintextLen, contentType, overridden).Some?
    ensures Violated(rule,
      PasswordEnvelope(crypto, password, seed, profile, rnd, plaintextLen, contentType, overridden).value, p)
      <==> FreshViolates(rule, profile, p, true, 1)
  {
    hide PasswordEnvelope, FreshViolates, Violated, WrappedByHand, DocumentedCosts, CommitmentPreimage;
    var e := PasswordEnvelope(crypto, password, seed, profile, rnd, plaintextLen, contentType, overridden).value;
    FreshPasswordEnvelope(crypto, password, seed, profile, rnd, plaintextLen, contentType, overridden);
    FreshLintIff(crypto, e, profile, rnd, plaintextLen, contentType, overridden, rule, p);
  }

  /** For key pairs: the whole envelope and its lint. */
  lemma FreshKeypairLintIff(crypto: Crypto, publics: seq<PublicKey>, coins: seq<SlotRandomness>,
                            profile: SecurityProfile, rnd: Randomness, plaintextLen: u64,
                            contentType: Option<ContentType>, overridden: bool, rule: Rule, p: CapsulePolicy)
    requires crypto.Lawful() && |coins| == |publics| && 1 <= |publics| <= 64
    requires WrapForAll(crypto, rnd.fileKey, publics, coins).Some?
    ensures var slots := WrapForAll(crypto, rnd.fileKey, publics, coins).value;
      var e := NewEnvelope(crypto, KeypairHeader(profile, slots), plaintextLen, rnd, contentType, overridden);
      && Fresh(crypto, e, profile, rnd, plaintextLen, contentType, overridden)
      && e.header.kdf.None? && e.header.recipients == slots && |slots| == |publics|
      && (Violated(rule, e, p) <==> FreshViolates(rule, profile, p, false, |publics|))
  {
    hide NewEnvelope, Fresh, FreshViolates, Violated, WrapForAll, WrapFor;
    var slots := WrapForAll(crypto, rnd.fileKey, publics, coins).value;
    WrapForAllSlots(crypto, rnd.fileKey, publics, coins);
    forall k | 0 <= k < |slots| ensures slots[k].HybridRecipient? {
      SlotIsHybrid(crypto, rnd.fileKey, publics[k], coins[k]);
    }
    var header := KeypairHeader(profile, slots);
    NewIsFresh(crypto, header, plaintextLen, rnd, contentType, overridden);
    HeaderKept(crypto, header, plaintextLen, rnd, contentType, overridden);
    var e := NewEnvelope(crypto, header, plaintextLen, rnd, contentType, overridden);
    FreshLintIff(crypto, e, profile, rnd, plaintextLen, contentType, overridden, rule, p);
  }

  lemma SlotIsHybrid(crypto: Crypto, fileKey: b32, public: PublicKey, coins: SlotRandomness)
    requires WrapFor(crypto, fileKey, public, coins).Some?
    ensures WrapFor(crypto, fileKey, public, coins).value.HybridRecipient?
  {
  }
}
