/** Linting an envelope against a capsule policy. */
module Policy {
  import opened Bytes
  import opened Protocol

  datatype MinKdfProfile = Interactive | Moderate | Strong

  datatype CapsulePolicy = CapsulePolicy(
    requireSignature: bool,
    requireRecovery: bool,
    minKdfProfile: Option<MinKdfProfile>,
    allowedCiphers: Option<seq<Str>>,
    allowedKdfs: Option<seq<Str>>,
    allowLco: bool,
    allowExperimental: bool,
    requireMetadataProfile: bool,   // some profile is configured
    requirePadding: bool,           // some padding is configured
    requireRecipientCountMin: u32,
    requireApprovalSignaturesMin: u32,
    publicLabelAllowed: bool,
    createdByRequired: bool)

  datatype Rule =
    | RequireSignature
    | RequireRecovery
    | MinKdf
    | AllowedCiphers
    | AllowedKdfs
    | AllowLco
    | AllowExperimental
    | RequireMetadataProfile
    | RequirePadding
    | PublicLabelAllowed
    | CreatedByRequired
    | RecipientCountMin
    | ApprovalSignaturesMin

  datatype PolicyResult = PolicyResult(violations: seq<Rule>, warnings: seq<Rule>) {
    predicate IsValid() { violations == [] }
  }

  // ---- What each rule demands ----

  function AsciiLower(s: bytes): bytes {
    seq(|s|, k requires 0 <= k < |s| => if 65 <= s[k] <= 90 then s[k] + 32 else s[k])
  }

  predicate Lists(names: seq<Str>, name: string) {
    exists k :: 0 <= k < |names| && AsciiLower(names[k]) == AsciiLower(Ascii(name))
  }

  /** The same letter, or the two cases of one. */
  predicate SameLetter(a: byte, b: byte) {
    a == b || (65 <= a <= 90 && b == a + 32) || (65 <= b <= 90 && a == b + 32)
  }

  predicate SameIgnoringCase(s: bytes, t: bytes) {
    |s| == |t| && forall k :: 0 <= k < |s| ==> SameLetter(s[k], t[k])
  }

  /** A list names something exactly if one of its names is the same letter by letter,
      ASCII case aside. */
  lemma ListsIff(names: seq<Str>, name: string)
    ensures Lists(names, name) <==> exists k :: 0 <= k < |names| && SameIgnoringCase(names[k], Ascii(name))
  {
    forall k | 0 <= k < |names|
      ensures AsciiLower(names[k]) == AsciiLower(Ascii(name)) <==> SameIgnoringCase(names[k], Ascii(name))
    {
      LowerIff(names[k], Ascii(name));
    }
  }

  lemma LowerIff(s: bytes, t: bytes)
    ensures AsciiLower(s) == AsciiLower(t) <==> SameIgnoringCase(s, t)
  {
    if AsciiLower(s) == AsciiLower(t) {
      assert |s| == |AsciiLower(s)| == |t|;
      forall k | 0 <= k < |s| ensures SameLetter(s[k], t[k]) {
        assert AsciiLower(s)[k] == AsciiLower(t)[k];
      }
    }
  }

  function CipherName(a: AlgorithmId): string {
    match a
    case XChaCha20Poly1305 => "XChaCha20Poly1305"
    case CascadeAesGcmXChaCha => "CascadeAesGcmXChaCha"
    case TripleCascadeAesXChaChaLco => "TripleCascadeAesXChaChaLco"
    case X25519 => "X25519"
    case Ed25519 => "Ed25519"
    case X25519MlkemHybrid => "X25519MlkemHybrid"
    case Ed25519MldsaHybrid => "Ed25519MldsaHybrid"
  }

  predicate AtLeast(k: KdfParams, m: nat, t: nat, p: nat) { k.mCost >= m && k.tCost >= t && k.pCost >= p }

  predicate KdfTooWeak(k: KdfParams, min: MinKdfProfile) {
    match min
    case Strong => !AtLeast(k, 1048576, 4, 4)
    case Moderate => !AtLeast(k, 1048576, 4, 4) && !AtLeast(k, 262144, 3, 2)
    case Interactive => !AtLeast(k, 65536, 2, 1)
  }

  predicate HasExperimentalRecipient(e: Envelope) {
    exists k :: 0 <= k < |e.header.recipients| && e.header.recipients[k].HybridRecipient?
  }

  predicate HasProject(e: Envelope) {
    e.releaseMetadata.Some? && e.releaseMetadata.value.projectName.Some?
  }

  function Approvers(approvals: seq<ApprovalSignature>): set<b32> {
    set k | 0 <= k < |approvals| :: approvals[k].signerFingerprint
  }

  /** The number of distinct approvers, as the u32 it is compared as. */
  function ApprovalCount(e: Envelope): u32 { |Approvers(e.approvals)| % (U32_MAX + 1) }

  function RecipientCount(e: Envelope): u32 { |e.header.recipients| % (U32_MAX + 1) }

  predicate Violated(rule: Rule, e: Envelope, p: CapsulePolicy) {
    match rule
    case RequireSignature => p.requireSignature && e.signature.None?
    case RequireRecovery => p.requireRecovery && e.recoveryMetadata.None?
    case MinKdf => p.minKdfProfile.Some? && e.header.kdf.Some? && KdfTooWeak(e.header.kdf.value, p.minKdfProfile.value)
    case AllowedCiphers => p.allowedCiphers.Some? && !Lists(p.allowedCiphers.value, CipherName(e.header.algorithm))
    case AllowedKdfs =>
      p.allowedKdfs.Some? && !Lists(p.allowedKdfs.value, if e.header.kdf.Some? then "Argon2id" else "None")
    case AllowLco => !p.allowLco && e.header.algorithm.TripleCascadeAesXChaChaLco?
    case AllowExperimental =>
      !p.allowExperimental && (e.header.profile.Extreme? || e.header.profile.Paranoid? || HasExperimentalRecipient(e))
    case RequireMetadataProfile => p.requireMetadataProfile
    case RequirePadding => p.requirePadding
    case PublicLabelAllowed => !p.publicLabelAllowed && e.publicLabel.Some?
    case CreatedByRequired => p.createdByRequired && !HasProject(e)
    case RecipientCountMin => RecipientCount(e) < p.requireRecipientCountMin
    case ApprovalSignaturesMin => ApprovalCount(e) < p.requireApprovalSignaturesMin
  }

  /** A rule that is met only as far as presence goes. */
  predicate Warned(rule: Rule, e: Envelope, p: CapsulePolicy) {
    && !Violated(rule, e, p)
    && match rule
       case RequireSignature => p.requireSignature
       case RequireRecovery => p.requireRecovery
       case CreatedByRequired => p.createdByRequired
       case ApprovalSignaturesMin => p.requireApprovalSignaturesMin > 0
       case _ => false
  }

  // ---- The linter ----

  /** Push the outcome of one rule: a violation, or else a warning where mere
      presence is all that can be checked. */
  function Note(result: PolicyResult, rule: Rule, violated: bool, presence: bool): PolicyResult {
    if violated then result.(violations := result.violations + [rule])
    else if presence then result.(warnings := result.warnings + [rule])
    else result
  }

  /** The order in which the rules are checked. */
  function Position(rule: Rule): (k: nat)
    ensures k < 13
  {
    match rule
    case RequireSignature => 0
    case RequireRecovery => 1
    case MinKdf => 2
    case AllowedCiphers => 3
    case AllowedKdfs => 4
    case AllowLco => 5
    case AllowExperimental => 6
    case RequireMetadataProfile => 7
    case RequirePadding => 8
    case PublicLabelAllowed => 9
    case CreatedByRequired => 10
    case RecipientCountMin => 11
    case ApprovalSignaturesMin => 12
  }

  /** The first `checked` rules have been reported, and no others. */
  ghost predicate Reports(result: PolicyResult, checked: nat, e: Envelope, p: CapsulePolicy) {
    && (forall rule :: rule in result.violations <==> Position(rule) < checked && Violated(rule, e, p))
    && (forall rule :: rule in result.warnings <==> Position(rule) < checked && Warned(rule, e, p))
  }

  lemma WarnedIsMet(rule: Rule, e: Envelope, p: CapsulePolicy)
    ensures Warned(rule, e, p) ==> !Violated(rule, e, p)
  {
  }

  lemma PositionInjective(a: Rule, b: Rule)
    requires Position(a) == Position(b)
    ensures a == b
  {
  }

  method Check(result: PolicyResult, rule: Rule, violated: bool, presence: bool, ghost e: Envelope,
               ghost p: CapsulePolicy)
    returns (next: PolicyResult)
    requires Reports(result, Position(rule), e, p)
    requires violated == Violated(rule, e, p) && (!violated ==> presence == Warned(rule, e, p))
    ensures Reports(next, Position(rule) + 1, e, p)
  {
    hide Violated, Warned, Position;
    WarnedIsMet(rule, e, p);
    forall other: Rule | Position(other) == Position(rule) ensures other == rule { PositionInjective(other, rule); }
    next := Note(result, rule, violated, presence);
  }

  predicate FailsMinKdf(kdf: KdfParams, min: MinKdfProfile) {
    var isInteractive := kdf.mCost >= 65536 && kdf.tCost >= 2 && kdf.pCost >= 1;
    var isModerate := kdf.mCost >= 262144 && kdf.tCost >= 3 && kdf.pCost >= 2;
    var isStrong := kdf.mCost >= 1048576 && kdf.tCost >= 4 && kdf.pCost >= 4;
    var actual := if isStrong then Strong else if isModerate then Moderate else Interactive;
    match min
    case Strong => actual != Strong
    case Moderate => actual == Interactive
    case Interactive => !isInteractive
  }

  /** The rules about signatures, recovery and algorithms. */
  method LintCryptography(e: Envelope, p: CapsulePolicy) returns (result: PolicyResult)
    ensures Reports(result, 7, e, p)
  {
    hide Reports, Lists, HasExperimentalRecipient, CipherName, Note, FailsMinKdf, KdfTooWeak;
    if e.header.kdf.Some? && p.minKdfProfile.Some? { MinKdfAgrees(e.header.kdf.value, p.minKdfProfile.value); }
    result := PolicyResult([], []);
    NothingChecked(e, p);
    result := Check(result, RequireSignature, p.requireSignature && e.signature.None?, p.requireSignature, e, p);
    result := Check(result, RequireRecovery, p.requireRecovery && e.recoveryMetadata.None?, p.requireRecovery, e, p);
    result := Check(result, MinKdf,
      p.minKdfProfile.Some? && e.header.kdf.Some? &&
        FailsMinKdf(e.header.kdf.value, p.minKdfProfile.value), false, e, p);
    result := Check(result, AllowedCiphers,
      p.allowedCiphers.Some? && !Lists(p.allowedCiphers.value, CipherName(e.header.algorithm)), false, e, p);
    result := Check(result, AllowedKdfs,
      p.allowedKdfs.Some? && !Lists(p.allowedKdfs.value, if e.header.kdf.Some? then "Argon2id" else "None"),
      false, e, p);
    result := Check(result, AllowLco, !p.allowLco && e.header.algorithm.TripleCascadeAesXChaChaLco?, false, e, p);
    result := Check(result, AllowExperimental,
      !p.allowExperimental && (e.header.profile.Extreme? || e.header.profile.Paranoid? || HasExperimentalRecipient(e)),
        false, e, p);
  }

  /** The verdict lists exactly the violated rules, and warns of exactly the rules
      met by mere presence. */
  method LintEnvelope(e: Envelope, p: CapsulePolicy) returns (result: PolicyResult)
    ensures forall rule :: rule in result.violations <==> Violated(rule, e, p)
    ensures forall rule :: rule in result.warnings <==> Warned(rule, e, p)
    ensures result.IsValid() <==> forall rule :: !Violated(rule, e, p)
  {
    hide Reports, RecipientCount, ApprovalCount, Note, HasProject;
    ProjectMeaning(e);
    result := LintCryptography(e, p);
    result := Check(result, RequireMetadataProfile, p.requireMetadataProfile, false, e, p);
    result := Check(result, RequirePadding, p.requirePadding, false, e, p);
    result := Check(result, PublicLabelAllowed, !p.publicLabelAllowed && e.publicLabel.Some?, false, e, p);
    result := Check(result, CreatedByRequired,
      p.createdByRequired && (e.releaseMetadata.None? || e.releaseMetadata.value.projectName.None?),
        p.createdByRequired, e, p);
    result := Check(result, RecipientCountMin, RecipientCount(e) < p.requireRecipientCountMin, false, e, p);
    result := Check(result, ApprovalSignaturesMin, ApprovalCount(e) < p.requireApprovalSignaturesMin,
      p.requireApprovalSignaturesMin > 0, e, p);
    AllChecked(result, e, p);
  }

  lemma ProjectMeaning(e: Envelope)
    ensures HasProject(e) <==> e.releaseMetadata.Some? && e.releaseMetadata.value.projectName.Some?
  {
  }

  /** The three-way comparison of strengths amounts to one threshold per minimum. */
  lemma MinKdfAgrees(kdf: KdfParams, min: MinKdfProfile)
    ensures FailsMinKdf(kdf, min) == KdfTooWeak(kdf, min)
  {
  }

  lemma NothingChecked(e: Envelope, p: CapsulePolicy)
    ensures Reports(PolicyResult([], []), 0, e, p)
  {
  }

  lemma AllChecked(result: PolicyResult, e: Envelope, p: CapsulePolicy)
    requires Reports(result, 13, e, p)
    ensures forall rule :: rule in result.violations <==> Violated(rule, e, p)
    ensures forall rule :: rule in result.warnings <==> Warned(rule, e, p)
    ensures result.IsValid() <==> forall rule :: !Violated(rule, e, p)
  {
    hide Violated, Warned, Position;
    if result.violations != [] { assert result.violations[0] in result.violations; }
  }

  // ---- Annotation steps and lint ----

  /** Nothing that was fine becomes a violation. */
  ghost predicate NoNewViolation(before: Envelope, after: Envelope, p: CapsulePolicy) {
    forall rule :: Violated(rule, after, p) ==> Violated(rule, before, p)
  }

  lemma SigningAddsNoViolation(e: Envelope, s: EnvelopeSignature, p: CapsulePolicy)
    ensures NoNewViolation(e, e.(signature := Some(s)), p)
  {
  }

  lemma RecoveryAddsNoViolation(e: Envelope, data: bytes, p: CapsulePolicy)
    ensures NoNewViolation(e, e.(recoveryMetadata := Some(data)), p)
  {
  }

  lemma ApproversGrow(approvals: seq<ApprovalSignature>, a: ApprovalSignature)
    ensures Approvers(approvals + [a]) == Approvers(approvals) + {a.signerFingerprint}
  {
    var more := approvals + [a];
    forall k | 0 <= k < |approvals| ensures approvals[k].signerFingerprint in Approvers(more) {
      assert more[k] == approvals[k];
    }
    assert more[|approvals|] == a;
  }

  lemma {:induction false} ApproversBound(approvals: seq<ApprovalSignature>)
    ensures |Approvers(approvals)| <= |approvals|
  {
    if approvals != [] {
      var last := |approvals| - 1;
      ApproversBound(approvals[..last]);
      ApproversGrow(approvals[..last], approvals[last]);
      assert approvals[..last] + [approvals[last]] == approvals;
    }
  }

  lemma ApprovingAddsNoViolation(e: Envelope, a: ApprovalSignature, p: CapsulePolicy)
    requires |e.approvals| < U32_MAX
    ensures NoNewViolation(e, e.(approvals := e.approvals + [a]), p)
  {
    hide Lists, KdfTooWeak, CipherName, HasExperimentalRecipient, ApprovalCount, RecipientCount, HasProject;
    ApprovalCountGrows(e, a);
    SameHeaderCounts(e, e.(approvals := e.approvals + [a]));
  }

  lemma ApprovalCountGrows(e: Envelope, a: ApprovalSignature)
    requires |e.approvals| < U32_MAX
    ensures ApprovalCount(e.(approvals := e.approvals + [a])) >= ApprovalCount(e)
  {
    ApproversGrow(e.approvals, a);
    ApproversBound(e.approvals + [a]);
    ApproversBound(e.approvals);
    SubsetCard(Approvers(e.approvals), Approvers(e.approvals + [a]));
  }

  /** A further seal raises the count exactly when its fingerprint is new, by one. */
  lemma ApprovalCountIff(e: Envelope, a: ApprovalSignature)
    requires |e.approvals| < U32_MAX
    ensures ApprovalCount(e.(approvals := [])) == 0
    ensures ApprovalCount(e.(approvals := e.approvals + [a])) == ApprovalCount(e) +
      if exists k :: 0 <= k < |e.approvals| && e.approvals[k].signerFingerprint == a.signerFingerprint then 0 else 1
  {
    ApproversGrow(e.approvals, a);
    ApproversBound(e.approvals + [a]);
    ApproversBound(e.approvals);
    assert a.signerFingerprint in Approvers(e.approvals) <==>
      exists k :: 0 <= k < |e.approvals| && e.approvals[k].signerFingerprint == a.signerFingerprint;
    if a.signerFingerprint in Approvers(e.approvals) {
      assert Approvers(e.approvals) + {a.signerFingerprint} == Approvers(e.approvals);
    }
  }

  lemma SubsetCard<T>(a: set<T>, b: set<T>)
    requires a <= b
    ensures |a| <= |b|
  {
    assert b == a + (b - a);
  }

  /** Attaching release metadata adds a violation exactly when it takes a project
      name away from a policy that demands one. */
  lemma ReleaseAddsViolationIff(e: Envelope, m: ReleaseMetadata, p: CapsulePolicy)
    ensures NoNewViolation(e, e.(releaseMetadata := Some(m)), p)
       <==> !(p.createdByRequired && HasProject(e) && m.projectName.None?)
  {
    hide Lists, KdfTooWeak, CipherName, HasExperimentalRecipient, ApprovalCount, RecipientCount;
    var after := e.(releaseMetadata := Some(m));
    SameCounts(e, m);
    if p.createdByRequired && HasProject(e) && m.projectName.None? {
      assert Violated(CreatedByRequired, after, p) && !Violated(CreatedByRequired, e, p);
    }
  }

  lemma SameHeaderCounts(a: Envelope, b: Envelope)
    requires a.header == b.header && a.releaseMetadata == b.releaseMetadata
    ensures RecipientCount(a) == RecipientCount(b) && HasExperimentalRecipient(a) == HasExperimentalRecipient(b)
    ensures HasProject(a) == HasProject(b)
  {
  }

  lemma SameCounts(e: Envelope, m: ReleaseMetadata)
    ensures var after := e.(releaseMetadata := Some(m));
      && ApprovalCount(after) == ApprovalCount(e) && RecipientCount(after) == RecipientCount(e)
      && HasExperimentalRecipient(after) == HasExperimentalRecipient(e)
  {
  }
}
