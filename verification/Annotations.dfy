/** Runs of annotation steps on a capsule file: signing, approving, attaching
    release metadata and attaching recovery metadata, in any order and number. */
module Annotations {
  import opened Bytes
  import opened Capsule
  import opened Policy
  import opened Primitives
  import opened Protocol
  import opened Wire
  import Release
  import Signing

  datatype Step =
    | Sign(key: b32, createdAt: Option<Str>, comment: Option<Str>)
    | Approve(key: b32, comment: Option<Str>)
    | AttachRelease(metadata: ReleaseMetadata)
    | AttachRecovery(data: bytes)

  /** One step on a capsule file; None is any failure. */
  function Apply(crypto: Crypto, step: Step, data: bytes): Option<bytes> {
    match step
    case Sign(key, createdAt, comment) => ToOption(Signing.SignCapsule(crypto, data, key, createdAt, comment))
    case Approve(key, comment) => ToOption(Signing.ApproveCapsule(crypto, data, key, comment))
    case AttachRelease(metadata) => ToOption(Release.AttachRelease(crypto, data, metadata))
    case AttachRecovery(recovery) => ToOption(Release.AttachRecovery(crypto, data, recovery))
  }

  function ToOption<T, E>(r: Result<T, E>): Option<T> {
    if r.Ok? then Some(r.value) else None
  }

  /** A run: every step must succeed. */
  function Run(crypto: Crypto, steps: seq<Step>, data: bytes): Option<bytes> {
    if steps == [] then Some(data)
    else
      var next :- Apply(crypto, steps[0], data);
      Run(crypto, steps[1..], next)
  }

  /** What a step makes of the envelope. */
  function Annotated(crypto: Crypto, step: Step, e: Envelope, ciphertext: bytes): Envelope {
    match step
    case Sign(key, createdAt, comment) => Signing.SignedEnvelope(crypto, e, ciphertext, key, createdAt, comment)
    case Approve(key, comment) => Signing.ApprovedEnvelope(crypto, e, ciphertext, key, comment)
    case AttachRelease(metadata) => e.(releaseMetadata := Some(metadata))
    case AttachRecovery(recovery) => e.(recoveryMetadata := Some(recovery))
  }

  /** All that decryption looks at. */
  ghost predicate SameCore(a: Envelope, b: Envelope) {
    SameCommitted(a, b) && a.aadHash == b.aadHash
  }

  lemma SameCoreAcceptable(crypto: Crypto, a: Envelope, b: Envelope)
    requires SameCore(a, b) && Acceptable(crypto, a)
    ensures Acceptable(crypto, b)
  {
    hide CommittedCodec, HeaderCodec;
    assert CommittedOf(a) == CommittedOf(b);
  }

  // ---- The three framing decoders agree ----

  /** The crypto, signing and release layers accept the same files, with the same
      envelope and the same split, and that split undoes the length framing. */
  lemma FramingDecodersAgree(crypto: Crypto, data: bytes)
    ensures OpenCapsule(crypto, data).Ok? <==> Signing.DecodeCapsuleParts(crypto, data).Ok?
    ensures OpenCapsule(crypto, data).Ok? <==> Release.DecodeCapsuleEnvelope(crypto, data).Ok?
    ensures OpenCapsule(crypto, data).Ok? ==>
      var (e, ciphertext) := OpenCapsule(crypto, data).value;
      && Signing.DecodeCapsuleParts(crypto, data).value == (e, ciphertext)
      && Release.DecodeCapsuleEnvelope(crypto, data).value == (e, |data| - |ciphertext|)
      && ciphertext == data[|data| - |ciphertext|..]
      && Acceptable(crypto, e)
      && exists encoded :: 0 < |encoded| <= MAX_ENVELOPE_SIZE && data == Framed(encoded, ciphertext)
           && DecodeEnvelopeBytes(crypto, encoded) == Ok(e)
  {
    hide DecodeEnvelopeBytes, Acceptable, Framed;
    if OpenCapsule(crypto, data).Ok? {
      FramedOfUnframe(data);
      DecodedIsAcceptable(crypto, Unframe(data).value.0);
    }
  }

  // ---- One step ----

  lemma BuiltIsSmall(e: Envelope, ciphertext: bytes)
    requires BuildCapsule(e, ciphertext).Some?
    ensures |EnvelopeCodec().enc(e)| <= MAX_ENVELOPE_SIZE
  {
    hide EnvelopeCodec;
  }

  lemma AnnotatedCore(crypto: Crypto, step: Step, e: Envelope, ciphertext: bytes)
    ensures SameCore(e, Annotated(crypto, step, e, ciphertext))
  {
    hide Signing.AuthorMessage, Signing.NewApproval, Signing.Fingerprint;
  }

  /** Every step decodes, annotates and encodes again. */
  lemma StepBuilds(crypto: Crypto, step: Step, data: bytes)
    requires Apply(crypto, step, data).Some?
    ensures OpenCapsule(crypto, data).Ok?
    ensures var (e, ciphertext) := OpenCapsule(crypto, data).value;
      BuildCapsule(Annotated(crypto, step, e, ciphertext), ciphertext) == Apply(crypto, step, data)
  {
    hide OpenCapsule, BuildCapsule, Signing.DecodeCapsuleParts, Release.DecodeCapsuleEnvelope, Signing.SignedEnvelope,
      Signing.ApprovedEnvelope,
      Acceptable, Framed, DecodeEnvelopeBytes;
    FramingDecodersAgree(crypto, data);
  }

  /** A successful step rewrites the envelope and nothing else: the file still
      decodes, to the annotated envelope and the same ciphertext. */
  lemma StepDecodes(crypto: Crypto, step: Step, data: bytes)
    requires Apply(crypto, step, data).Some?
    ensures OpenCapsule(crypto, data).Ok?
    ensures var (e, ciphertext) := OpenCapsule(crypto, data).value;
      && OpenCapsule(crypto, Apply(crypto, step, data).value) ==
           Ok((Annotated(crypto, step, e, ciphertext), ciphertext))
      && SameCore(e, Annotated(crypto, step, e, ciphertext))
      && |Annotated(crypto, step, e, ciphertext).approvals| < MAX_ENVELOPE_SIZE
  {
    hide EnvelopeCodec, Acceptable, OpenCapsule, BuildCapsule, Apply, Annotated, SameCore, Framed, DecodeEnvelopeBytes;
    StepBuilds(crypto, step, data);
    FramingDecodersAgree(crypto, data);
    var (e, ciphertext) := OpenCapsule(crypto, data).value;
    var after := Annotated(crypto, step, e, ciphertext);
    AnnotatedCore(crypto, step, e, ciphertext);
    SameCoreAcceptable(crypto, e, after);
    CapsuleRoundTrip(crypto, after, ciphertext);
    EnvelopeHoldsApprovals(after);
    BuiltIsSmall(after, ciphertext);
  }

  // ---- Runs ----

  /** For every finite run of successful steps: the ciphertext, the header and the
      payload commitment with all fields under it are unchanged, and the file
      still decodes. */
  lemma {:induction false} RunPreservesCore(crypto: Crypto, steps: seq<Step>, data: bytes)
    requires OpenCapsule(crypto, data).Ok? && Run(crypto, steps, data).Some?
    ensures var (e, ciphertext) := OpenCapsule(crypto, data).value;
      var final := OpenCapsule(crypto, Run(crypto, steps, data).value);
      final.Ok? && final.value.1 == ciphertext && SameCore(e, final.value.0)
    decreases |steps|
  {
    hide OpenCapsule, Apply, Annotated;
    if steps != [] {
      StepDecodes(crypto, steps[0], data);
      RunPreservesCore(crypto, steps[1..], Apply(crypto, steps[0], data).value);
    }
  }

  // ---- Signature stability ----

  predicate OnlyApprovals(steps: seq<Step>) {
    forall k :: 0 <= k < |steps| ==> steps[k].Approve?
  }

  /** A later approval leaves the message of every approval as it was. */
  lemma ApprovingKeepsApprovalMessages(crypto: Crypto, e: Envelope, ciphertext: bytes, key: b32, comment: Option<Str>,
                                       a: ApprovalSignature)
    ensures Signing.ApprovalMessage(crypto, Signing.ApprovedEnvelope(crypto, e, ciphertext, key, comment), ciphertext,
      a)
         == Signing.ApprovalMessage(crypto, e, ciphertext, a)
  {
    hide EnvelopeCodec, StrOption, Signing.NewApproval;
    assert Signing.ApprovedEnvelope(crypto, e, ciphertext, key, comment).(approvals := []) == e.(approvals := []);
  }

  /** An approval leaves the author message as it was exactly since version 2. */
  lemma ApprovingKeepsAuthorMessageIff(crypto: Crypto, e: Envelope, ciphertext: bytes, key: b32, comment: Option<Str>)
    requires e.signature.Some? && |Signing.AuthorMessage(e, ciphertext).value| <= U64_MAX
    ensures var approved := Signing.ApprovedEnvelope(crypto, e, ciphertext, key, comment);
      Signing.AuthorMessage(approved, ciphertext) == Signing.AuthorMessage(e, ciphertext)
      <==> e.header.version >= CURRENT_VERSION
  {
    hide EnvelopeCodec, StrOption, Signing.NewApproval, Signing.AuthorDomain;
    var after := Signing.ApprovedEnvelope(crypto, e, ciphertext, key, comment);
    if e.header.version >= CURRENT_VERSION {
      assert Signing.Statement(after) == Signing.Statement(e);
    } else {
      Signing.LegacyAuthorMessageCoverage(e, ciphertext, after, ciphertext);
      assert |after.approvals| != |e.approvals|;
    }
  }

  /** The step leaves every field under a v2 author signature as it is. */
  predicate Harmless(crypto: Crypto, step: Step, e: Envelope)
    requires e.signature.Some?
  {
    match step
    case Sign(key, createdAt, comment) =>
      var s := e.signature.value;
      (s.signerFingerprint, s.createdAt, s.comment) ==
        (Signing.Fingerprint(crypto, crypto.ed25519.publicKey(key)), createdAt, comment)
    case Approve(_, _) => true
    case AttachRelease(metadata) => e.releaseMetadata == Some(metadata)
    case AttachRecovery(recovery) => e.recoveryMetadata == Some(recovery)
  }

  /** A step leaves the v2 author message as it was exactly when it changes nothing
      that the signature covers; approving never does. */
  lemma StepKeepsAuthorMessageIff(crypto: Crypto, step: Step, e: Envelope, ciphertext: bytes)
    requires e.header.version >= CURRENT_VERSION && e.signature.Some?
    requires |Signing.AuthorMessage(e, ciphertext).value| <= U64_MAX
    ensures var annotated := Annotated(crypto, step, e, ciphertext);
      Signing.AuthorMessage(annotated, ciphertext) == Signing.AuthorMessage(e, ciphertext)
      <==> Harmless(crypto, step, e)
  {
    hide EnvelopeCodec, StrOption, Signing.AuthorDomain, Signing.NewApproval, Signing.AuthorMessage;
    var after := Annotated(crypto, step, e, ciphertext);
    Signing.AuthorMessageCoverage(e, ciphertext, after, ciphertext);
    assert Signing.SameStatement(after, e) <==> Harmless(crypto, step, e);
  }

  /** An author signature verifies on this envelope. */
  ghost predicate Verifies(crypto: Crypto, e: Envelope, ciphertext: bytes, verifyKey: b32) {
    && e.signature.Some?
    && |e.signature.value.signature| == 64
    && e.signature.value.signerFingerprint == crypto.sha256(verifyKey)
    && Signing.AuthorMessage(e, ciphertext).Ok?
    && crypto.ed25519.verify(verifyKey, Signing.AuthorMessage(e, ciphertext).value, e.signature.value.signature)
  }

  lemma VerifiesIff(crypto: Crypto, data: bytes, verifyKey: b32)
    ensures Signing.VerifySignature(crypto, data, verifyKey).Ok? <==>
      OpenCapsule(crypto, data).Ok? &&
        Verifies(crypto, OpenCapsule(crypto, data).value.0, OpenCapsule(crypto, data).value.1, verifyKey)
  {
    hide OpenCapsule, Signing.DecodeCapsuleParts, Signing.AuthorMessage, Acceptable, Framed, DecodeEnvelopeBytes,
      Release.DecodeCapsuleEnvelope;
    FramingDecodersAgree(crypto, data);
  }

  /** What an author signs, verifies. */
  lemma SignedVerifies(crypto: Crypto, e: Envelope, ciphertext: bytes, key: b32, createdAt: Option<Str>,
                       comment: Option<Str>)
    requires crypto.Lawful()
    ensures Verifies(crypto, Signing.SignedEnvelope(crypto, e, ciphertext, key, createdAt, comment), ciphertext,
      crypto.ed25519.publicKey(key))
  {
    hide EnvelopeCodec, Signing.AuthorDomain;
    var after := Signing.SignedEnvelope(crypto, e, ciphertext, key, createdAt, comment);
    var unsigned := e.(signature := Some(after.signature.value.(signature := [])));
    if e.header.version >= CURRENT_VERSION {
      assert Signing.Statement(after) == Signing.Statement(unsigned);
    } else {
      assert after.(signature := None) == unsigned.(signature := None);
    }
  }

  lemma {:induction false} ApprovalsKeepVerifies(crypto: Crypto, steps: seq<Step>, data: bytes, verifyKey: b32)
    requires OpenCapsule(crypto, data).Ok? && Run(crypto, steps, data).Some? && OnlyApprovals(steps)
    requires OpenCapsule(crypto, data).value.0.header.version >= CURRENT_VERSION
    requires Signing.VerifySignature(crypto, data, verifyKey).Ok?
    ensures Signing.VerifySignature(crypto, Run(crypto, steps, data).value, verifyKey).Ok?
    decreases |steps|
  {
    hide OpenCapsule, Apply, Signing.VerifySignature, EnvelopeCodec, Signing.NewApproval, Signing.AuthorDomain;
    if steps != [] {
      var next := Apply(crypto, steps[0], data).value;
      StepDecodes(crypto, steps[0], data);
      var (e, ciphertext) := OpenCapsule(crypto, data).value;
      VerifiesIff(crypto, data, verifyKey);
      var after := Annotated(crypto, steps[0], e, ciphertext);
      assert Signing.Statement(after) == Signing.Statement(e);
      VerifiesIff(crypto, next, verifyKey);
      ApprovalsKeepVerifies(crypto, steps[1..], next, verifyKey);
    }
  }

  /** For version 2: a capsule signed by an author stays verifiable with the
      author's key after any number of approvals. */
  lemma AuthorSignatureSurvivesApprovals(crypto: Crypto, data: bytes, key: b32, createdAt: Option<Str>,
                                         comment: Option<Str>, steps: seq<Step>)
    requires crypto.Lawful() && OpenCapsule(crypto, data).Ok?
    requires OpenCapsule(crypto, data).value.0.header.version >= CURRENT_VERSION
    requires Run(crypto, [Sign(key, createdAt, comment)] + steps, data).Some? && OnlyApprovals(steps)
    ensures Signing.VerifySignature(crypto, Run(crypto, [Sign(key, createdAt, comment)] + steps, data).value,
      crypto.ed25519.publicKey(key)).Ok?
  {
    hide OpenCapsule, Apply, Signing.VerifySignature, Signing.SignedEnvelope;
    var sign := Sign(key, createdAt, comment);
    assert ([sign] + steps)[1..] == steps;
    var next := Apply(crypto, sign, data).value;
    StepDecodes(crypto, sign, data);
    var (e, ciphertext) := OpenCapsule(crypto, data).value;
    SignedVerifies(crypto, e, ciphertext, key, createdAt, comment);
    VerifiesIff(crypto, next, crypto.ed25519.publicKey(key));
    ApprovalsKeepVerifies(crypto, steps, next, crypto.ed25519.publicKey(key));
  }

  // ---- Approvals accumulate ----

  lemma ApprovedIff(crypto: Crypto, data: bytes, verifyKey: b32)
    ensures Signing.Approved(crypto, data, verifyKey) <==>
      && OpenCapsule(crypto, data).Ok?
      && exists k :: 0 <= k < |OpenCapsule(crypto, data).value.0.approvals| &&
           Signing.ValidApproval(crypto, OpenCapsule(crypto, data).value.0, OpenCapsule(crypto, data).value.1,
             OpenCapsule(crypto, data).value.0.approvals[k], verifyKey)
  {
    hide OpenCapsule, Signing.DecodeCapsuleParts, Signing.ValidApproval, Acceptable, Framed, DecodeEnvelopeBytes,
      Release.DecodeCapsuleEnvelope;
    FramingDecodersAgree(crypto, data);
  }

  /** The step leaves every field but the approvals as it was. */
  predicate LeavesArtifact(crypto: Crypto, step: Step, e: Envelope, ciphertext: bytes) {
    match step
    case Sign(key, createdAt, comment) => e.signature ==
      Signing.SignedEnvelope(crypto, e, ciphertext, key, createdAt, comment).signature
    case Approve(_, _) => true
    case AttachRelease(metadata) => e.releaseMetadata == Some(metadata)
    case AttachRecovery(recovery) => e.recoveryMetadata == Some(recovery)
  }

  /** What v2 approvals cover is unchanged by a step exactly when the step leaves every
      field but the approvals as it was. */
  lemma StepKeepsArtifactIff(crypto: Crypto, step: Step, e: Envelope, ciphertext: bytes)
    requires |Signing.ArtifactBytes(e, ciphertext)| <= U64_MAX
    ensures var annotated := Annotated(crypto, step, e, ciphertext);
      Signing.ArtifactBytes(annotated, ciphertext) == Signing.ArtifactBytes(e, ciphertext)
      <==> LeavesArtifact(crypto, step, e, ciphertext)
  {
    hide EnvelopeCodec, StrOption, Signing.AuthorMessage, Signing.NewApproval, Signing.ArtifactBytes,
      Signing.Fingerprint;
    var after := Annotated(crypto, step, e, ciphertext);
    Signing.ArtifactCoverage(e, ciphertext, after, ciphertext);
    assert Signing.SameArtifact(e, after) <==> LeavesArtifact(crypto, step, e, ciphertext);
  }

  /** The steps under which no approval of the capsule is invalidated: those that leave
      the artifact as it was, and in v1, whose seals cover the commitment only, all. */
  predicate KeepsApprovals(crypto: Crypto, step: Step, e: Envelope, ciphertext: bytes) {
    e.header.version < CURRENT_VERSION || LeavesArtifact(crypto, step, e, ciphertext)
  }

  lemma StepKeepsApprovalMessage(crypto: Crypto, step: Step, e: Envelope, ciphertext: bytes, a: ApprovalSignature)
    requires KeepsApprovals(crypto, step, e, ciphertext)
    ensures Signing.ApprovalMessage(crypto, Annotated(crypto, step, e, ciphertext), ciphertext, a) ==
      Signing.ApprovalMessage(crypto, e, ciphertext, a)
    ensures e.approvals <= Annotated(crypto, step, e, ciphertext).approvals
  {
    hide EnvelopeCodec, StrOption, Signing.NewApproval, Signing.AuthorMessage, Signing.Fingerprint;
    var after := Annotated(crypto, step, e, ciphertext);
    assert e.header.version >= CURRENT_VERSION ==> after.(approvals := []) == e.(approvals := []);
  }

  lemma StepKeepsApproved(crypto: Crypto, step: Step, data: bytes, verifyKey: b32)
    requires OpenCapsule(crypto, data).Ok? && Apply(crypto, step, data).Some?
    requires KeepsApprovals(crypto, step, OpenCapsule(crypto, data).value.0, OpenCapsule(crypto, data).value.1)
    requires Signing.Approved(crypto, data, verifyKey)
    ensures Signing.Approved(crypto, Apply(crypto, step, data).value, verifyKey)
  {
    hide OpenCapsule, Apply, Annotated, Signing.Approved, Signing.ApprovalMessage, SameCore, KeepsApprovals;
    var next := Apply(crypto, step, data).value;
    StepDecodes(crypto, step, data);
    ApprovedIff(crypto, data, verifyKey);
    var (e, ciphertext) := OpenCapsule(crypto, data).value;
    var k :| 0 <= k < |e.approvals| && Signing.ValidApproval(crypto, e, ciphertext, e.approvals[k], verifyKey);
    StepKeepsApprovalMessage(crypto, step, e, ciphertext, e.approvals[k]);
    var after := Annotated(crypto, step, e, ciphertext);
    assert after.approvals[k] == e.approvals[k];
    assert Signing.ValidApproval(crypto, after, ciphertext, after.approvals[k], verifyKey);
    ApprovedIff(crypto, next, verifyKey);
  }

  /** What an approver seals, verifies. */
  lemma ApproveApproves(crypto: Crypto, data: bytes, key: b32, comment: Option<Str>)
    requires crypto.Lawful() && Apply(crypto, Approve(key, comment), data).Some?
    ensures Signing.Approved(crypto, Apply(crypto, Approve(key, comment), data).value, crypto.ed25519.publicKey(key))
  {
    hide OpenCapsule, Apply, Signing.Approved, Signing.ApprovalMessage, SameCore;
    var next := Apply(crypto, Approve(key, comment), data).value;
    StepDecodes(crypto, Approve(key, comment), data);
    var (e, ciphertext) := OpenCapsule(crypto, data).value;
    var a := Signing.NewApproval(crypto, e, ciphertext, key, comment);
    var after := Signing.ApprovedEnvelope(crypto, e, ciphertext, key, comment);
    var unsigned := a.(signature := []);
    ApprovingKeepsApprovalMessages(crypto, e, ciphertext, key, comment, a);
    MessageIgnoresSignature(crypto, e, ciphertext, a);
    assert after.approvals[|e.approvals|] == a;
    assert Signing.ValidApproval(crypto, after, ciphertext, after.approvals[|e.approvals|],
      crypto.ed25519.publicKey(key));
    ApprovedIff(crypto, next, crypto.ed25519.publicKey(key));
  }

  lemma MessageIgnoresSignature(crypto: Crypto, e: Envelope, ciphertext: bytes, a: ApprovalSignature)
    ensures Signing.ApprovalMessage(crypto, e, ciphertext, a) ==
      Signing.ApprovalMessage(crypto, e, ciphertext, a.(signature := []))
  {
  }

  /** Every step of the run keeps the approvals there are when it is taken. */
  predicate RunKeepsApprovals(crypto: Crypto, steps: seq<Step>, data: bytes)
    decreases |steps|
  {
    steps == [] ||
    (&& OpenCapsule(crypto, data).Ok?
     && KeepsApprovals(crypto, steps[0], OpenCapsule(crypto, data).value.0, OpenCapsule(crypto, data).value.1)
     && (Apply(crypto, steps[0], data).Some? ==>
          RunKeepsApprovals(crypto, steps[1..], Apply(crypto, steps[0], data).value)))
  }

  /** Runs of approvals are such runs, and for v1 capsules all runs are. */
  lemma {:induction false} ApprovingRunsKeepApprovals(crypto: Crypto, steps: seq<Step>, data: bytes)
    requires OpenCapsule(crypto, data).Ok?
    requires OnlyApprovals(steps) || OpenCapsule(crypto, data).value.0.header.version < CURRENT_VERSION
    ensures RunKeepsApprovals(crypto, steps, data)
    decreases |steps|
  {
    hide OpenCapsule, Apply, Annotated;
    if steps != [] && Apply(crypto, steps[0], data).Some? {
      StepDecodes(crypto, steps[0], data);
      var (e, ciphertext) := OpenCapsule(crypto, data).value;
      ApprovingRunsKeepApprovals(crypto, steps[1..], Apply(crypto, steps[0], data).value);
    }
  }

  lemma {:induction false} RunKeepsApproved(crypto: Crypto, steps: seq<Step>, data: bytes, verifyKey: b32)
    requires OpenCapsule(crypto, data).Ok? && Run(crypto, steps, data).Some?
    requires RunKeepsApprovals(crypto, steps, data)
    requires Signing.Approved(crypto, data, verifyKey)
    ensures Signing.Approved(crypto, Run(crypto, steps, data).value, verifyKey)
    decreases |steps|
  {
    hide OpenCapsule, Apply, Annotated, Signing.Approved, KeepsApprovals, SameCore;
    if steps != [] {
      StepDecodes(crypto, steps[0], data);
      StepKeepsApproved(crypto, steps[0], data, verifyKey);
      RunKeepsApproved(crypto, steps[1..], Apply(crypto, steps[0], data).value, verifyKey);
    }
  }

  /** After a run that keeps approvals every approver's seal verifies, the first as well
      as the last. */
  lemma {:induction false} ApprovalsAccumulate(crypto: Crypto, steps: seq<Step>, data: bytes, k: nat)
    requires crypto.Lawful() && OpenCapsule(crypto, data).Ok? && Run(crypto, steps, data).Some?
    requires RunKeepsApprovals(crypto, steps, data)
    requires k < |steps| && steps[k].Approve?
    ensures Signing.Approved(crypto, Run(crypto, steps, data).value, crypto.ed25519.publicKey(steps[k].key))
    decreases |steps|
  {
    hide OpenCapsule, Apply, Annotated, Signing.Approved, KeepsApprovals, SameCore;
    var next := Apply(crypto, steps[0], data).value;
    StepDecodes(crypto, steps[0], data);
    if k == 0 {
      ApproveApproves(crypto, data, steps[0].key, steps[0].comment);
      RunKeepsApproved(crypto, steps[1..], next, crypto.ed25519.publicKey(steps[0].key));
    } else {
      ApprovalsAccumulate(crypto, steps[1..], next, k - 1);
    }
  }

  // ---- Lint along runs ----

  /** The step takes no project name away from a policy that demands one. */
  predicate KeepsProject(step: Step, p: CapsulePolicy) {
    step.AttachRelease? && p.createdByRequired ==> step.metadata.projectName.Some?
  }

  lemma StepAddsNoViolation(crypto: Crypto, step: Step, data: bytes, p: CapsulePolicy)
    requires Apply(crypto, step, data).Some? && KeepsProject(step, p)
    ensures OpenCapsule(crypto, data).Ok?
    ensures var (e, ciphertext) := OpenCapsule(crypto, data).value;
      NoNewViolation(e, Annotated(crypto, step, e, ciphertext), p)
  {
    hide OpenCapsule, Apply, NoNewViolation, Signing.AuthorMessage, Signing.NewApproval, Signing.Fingerprint;
    StepDecodes(crypto, step, data);
    var (e, ciphertext) := OpenCapsule(crypto, data).value;
    match step
    case Sign(key, createdAt, comment) =>
      SigningAddsNoViolation(e, Signing.SignedEnvelope(crypto, e, ciphertext, key, createdAt, comment).signature.value,
        p);
    case Approve(key, comment) =>
      ApprovingAddsNoViolation(e, Signing.NewApproval(crypto, e, ciphertext, key, comment), p);
    case AttachRelease(metadata) =>
      ReleaseAddsViolationIff(e, metadata, p);
    case AttachRecovery(recovery) =>
      RecoveryAddsNoViolation(e, recovery, p);
  }

  lemma NoNewViolationTransitive(a: Envelope, b: Envelope, c: Envelope, p: CapsulePolicy)
    requires NoNewViolation(a, b, p) && NoNewViolation(b, c, p)
    ensures NoNewViolation(a, c, p)
  {
    hide Violated;
  }

  /** A capsule that passes a policy passes it after any run of steps that takes no
      required project name away. */
  lemma {:induction false} RunAddsNoViolation(crypto: Crypto, steps: seq<Step>, data: bytes, p: CapsulePolicy)
    requires OpenCapsule(crypto, data).Ok? && Run(crypto, steps, data).Some?
    requires forall k :: 0 <= k < |steps| ==> KeepsProject(steps[k], p)
    ensures OpenCapsule(crypto, Run(crypto, steps, data).value).Ok?
    ensures NoNewViolation(OpenCapsule(crypto, data).value.0,
      OpenCapsule(crypto, Run(crypto, steps, data).value).value.0, p)
    decreases |steps|
  {
    hide OpenCapsule, Apply, Annotated, NoNewViolation, KeepsProject;
    var e := OpenCapsule(crypto, data).value.0;
    if steps == [] {
      NothingChanges(e, p);
    } else {
      var next := Apply(crypto, steps[0], data).value;
      StepDecodes(crypto, steps[0], data);
      StepAddsNoViolation(crypto, steps[0], data, p);
      RunAddsNoViolation(crypto, steps[1..], next, p);
      NoNewViolationTransitive(e, OpenCapsule(crypto, next).value.0,
        OpenCapsule(crypto, Run(crypto, steps, data).value).value.0, p);
    }
  }

  lemma NothingChanges(e: Envelope, p: CapsulePolicy)
    ensures NoNewViolation(e, e, p)
  {
  }
}
