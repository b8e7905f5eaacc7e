/** Author signatures and approval seals over a capsule. */
module Signing {
  import opened Bytes
  import opened Capsule
  import opened Files
  import opened Postcard
  import opened Primitives
  import opened Protocol
  import opened Wire

  datatype SigningError = Io | VerificationFailed | InvalidEnvelope | OutputExists | NotSigned

  function AuthorDomain(): bytes { Ascii("Lvau author signature v2\0") }
  function ApprovalDomain(): bytes { Ascii("Lvau approval signature v2\0") }
  function ArtifactDomain(): bytes { Ascii("Lvau approval artifact v2\0") }

  function Fingerprint(crypto: Crypto, verifyKey: b32): b32 { crypto.sha256(verifyKey) }

  /** The signing layer's own framing decoder. */
  function DecodeCapsuleParts(crypto: Crypto, data: bytes): (r: Result<(Envelope, bytes), SigningError>)
    ensures r.Err? ==> r.error == InvalidEnvelope
  {
    if |data| < 4 then Err(InvalidEnvelope)
    else
      var n := FromLe(data[..4]);
      if n == 0 || n > MAX_ENVELOPE_SIZE then Err(InvalidEnvelope)
      else
        var end := 4 + n;
        if |data| < end then Err(InvalidEnvelope)
        else match DecodeEnvelopeBytes(crypto, data[4..end])
          case Ok(e) => Ok((e, data[end..]))
          case Err(_) => Err(InvalidEnvelope)
  }

  // ---- Messages ----

  /** What a v2 author signature covers of the envelope: all of it, without the
      signature bytes and without the approvals. */
  function Statement(e: Envelope): Envelope
    requires e.signature.Some?
  {
    e.(signature := Some(e.signature.value.(signature := [])), approvals := [])
  }

  function AuthorMessage(e: Envelope, ciphertext: bytes): Result<bytes, SigningError> {
    if e.header.version >= CURRENT_VERSION then
      if e.signature.None? then Err(NotSigned)
      else Ok(AuthorDomain() + EnvelopeCodec().enc(Statement(e)) + ciphertext)
    else Ok(EnvelopeCodec().enc(e.(signature := None)) + ciphertext)
  }

  function ArtifactBytes(e: Envelope, ciphertext: bytes): bytes {
    ArtifactDomain() + EnvelopeCodec().enc(e.(approvals := [])) + ciphertext
  }

  function ApprovalMessage(crypto: Crypto, e: Envelope, ciphertext: bytes, a: ApprovalSignature): bytes {
    if e.header.version < CURRENT_VERSION then e.aadHash
    else
      ApprovalDomain() + crypto.sha256(ArtifactBytes(e, ciphertext)) + a.signerFingerprint + StrOption().enc(a.comment)
  }

  // ---- Signing and approving ----

  function SignedEnvelope(crypto: Crypto, e: Envelope, ciphertext: bytes, key: b32, createdAt: Option<Str>,
                          comment: Option<Str>): Envelope {
    var unsigned := EnvelopeSignature(Fingerprint(crypto, crypto.ed25519.publicKey(key)), [], createdAt, comment);
    var statement := e.(signature := Some(unsigned));
    var signature := crypto.ed25519.sign(key, AuthorMessage(statement, ciphertext).value);
    statement.(signature := Some(unsigned.(signature := signature)))
  }

  function NewApproval(crypto: Crypto, e: Envelope, ciphertext: bytes, key: b32,
                       comment: Option<Str>): ApprovalSignature {
    var unsigned := ApprovalSignature(Fingerprint(crypto, crypto.ed25519.publicKey(key)), [], comment);
    unsigned.(signature := crypto.ed25519.sign(key, ApprovalMessage(crypto, e, ciphertext, unsigned)))
  }

  function ApprovedEnvelope(crypto: Crypto, e: Envelope, ciphertext: bytes, key: b32, comment: Option<Str>): Envelope {
    e.(approvals := e.approvals + [NewApproval(crypto, e, ciphertext, key, comment)])
  }

  function SignCapsule(crypto: Crypto, data: bytes, key: b32, createdAt: Option<Str>,
                       comment: Option<Str>): Result<bytes, SigningError> {
    var (e, ciphertext) :- DecodeCapsuleParts(crypto, data);
    match BuildCapsule(SignedEnvelope(crypto, e, ciphertext, key, createdAt, comment), ciphertext)
    case Some(output) => Ok(output)
    case None => Err(InvalidEnvelope)
  }

  function ApproveCapsule(crypto: Crypto, data: bytes, key: b32, comment: Option<Str>): Result<bytes, SigningError> {
    var (e, ciphertext) :- DecodeCapsuleParts(crypto, data);
    match BuildCapsule(ApprovedEnvelope(crypto, e, ciphertext, key, comment), ciphertext)
    case Some(output) => Ok(output)
    case None => Err(InvalidEnvelope)
  }

  /** A file is written only if the whole annotation succeeded, and never over an
      existing one without `force`. */
  ghost predicate WroteOnly(before: map<Path, bytes>, after: map<Path, bytes>, outFile: Path, force: bool,
                            present: bool, canFail: bool, expected: Result<bytes, SigningError>,
                            r: Result<(), SigningError>) {
    && (r.Ok? ==> expected.Ok? && after == before[outFile := expected.value] && (!present || force))
    && (r.Err? ==> after == before)
    && (r == Err(OutputExists) <==> present && !force)
    && (r.Err? && r.error != OutputExists && r.error != Io ==> expected == Err(r.error))
    && (r == Err(Io) ==> canFail)
  }

  method WriteAtomic(fs: FileSystem, outFile: Path, data: bytes, force: bool) returns (r: Result<(), SigningError>)
    modifies fs`files
    ensures r.Ok? ==> fs.files == old(fs.files)[outFile := data]
    ensures r.Err? ==> fs.files == old(fs.files)
    ensures r == Err(OutputExists) <==> old(fs.Exists(outFile)) && !force
    ensures r.Err? && r.error != OutputExists ==> r.error == Io && fs.CanFail(outFile)
  {
    if fs.Exists(outFile) && !force { return Err(OutputExists); }
    var written := fs.Persist(outFile, data);
    r := if written.Err? then Err(Io) else Ok(());
  }

  method SignFile(crypto: Crypto, fs: FileSystem, inFile: Path, outFile: Path, key: b32, createdAt: Option<Str>,
                  comment: Option<Str>, force: bool)
    returns (r: Result<(), SigningError>)
    modifies fs`files
    ensures inFile in old(fs.files) ==>
      WroteOnly(old(fs.files), fs.files, outFile, force, old(fs.Exists(outFile)), fs.CanFail(outFile),
      SignCapsule(crypto, old(fs.files)[inFile], key, createdAt, comment), r)
    ensures inFile !in old(fs.files) ==> r.Err? && fs.files == old(fs.files)
  {
    hide EnvelopeCodec, DecodeCapsuleParts, BuildCapsule, AuthorDomain;
    if fs.Exists(outFile) && !force { return Err(OutputExists); }
    var data := fs.ReadFile(inFile);
    if data.Err? { return Err(Io); }
    var parts := DecodeCapsuleParts(crypto, data.value);
    if parts.Err? { return Err(parts.error); }
    var envelope, ciphertext := parts.value.0, parts.value.1;
    var fingerprint := Fingerprint(crypto, crypto.ed25519.publicKey(key));
    envelope := envelope.(signature := Some(EnvelopeSignature(fingerprint, [], createdAt, comment)));
    var message := AuthorMessage(envelope, ciphertext);
    var signature := crypto.ed25519.sign(key, message.value);
    envelope := envelope.(signature := Some(envelope.signature.value.(signature := signature)));
    var output := BuildCapsule(envelope, ciphertext);
    if output.None? { return Err(InvalidEnvelope); }
    r := WriteAtomic(fs, outFile, output.value, force);
  }

  method AddApprovalSeal(crypto: Crypto, fs: FileSystem, inFile: Path, outFile: Path, key: b32, comment: Option<Str>,
                         force: bool)
    returns (r: Result<(), SigningError>)
    modifies fs`files
    ensures inFile in old(fs.files) ==>
      WroteOnly(old(fs.files), fs.files, outFile, force, old(fs.Exists(outFile)), fs.CanFail(outFile),
      ApproveCapsule(crypto, old(fs.files)[inFile], key, comment), r)
    ensures inFile !in old(fs.files) ==> r.Err? && fs.files == old(fs.files)
  {
    hide EnvelopeCodec, DecodeCapsuleParts, BuildCapsule, ApprovalMessage;
    if fs.Exists(outFile) && !force { return Err(OutputExists); }
    var data := fs.ReadFile(inFile);
    if data.Err? { return Err(Io); }
    var parts := DecodeCapsuleParts(crypto, data.value);
    if parts.Err? { return Err(parts.error); }
    var envelope, ciphertext := parts.value.0, parts.value.1;
    var approval := ApprovalSignature(Fingerprint(crypto, crypto.ed25519.publicKey(key)), [], comment);
    var message := ApprovalMessage(crypto, envelope, ciphertext, approval);
    approval := approval.(signature := crypto.ed25519.sign(key, message));
    envelope := envelope.(approvals := envelope.approvals + [approval]);
    var output := BuildCapsule(envelope, ciphertext);
    if output.None? { return Err(InvalidEnvelope); }
    r := WriteAtomic(fs, outFile, output.value, force);
  }

  // ---- Verifying ----

  function VerifySignature(crypto: Crypto, data: bytes, verifyKey: b32): Result<b32, SigningError> {
    var (e, ciphertext) :- DecodeCapsuleParts(crypto, data);
    if e.signature.None? then Err(NotSigned)
    else
      var sig := e.signature.value;
      if |sig.signature| != 64 || sig.signerFingerprint != Fingerprint(crypto, verifyKey) then Err(VerificationFailed)
      else
        var message :- AuthorMessage(e, ciphertext);
        if crypto.ed25519.verify(verifyKey, message, sig.signature) then Ok(sig.signerFingerprint)
        else Err(VerificationFailed)
  }

  predicate ValidApproval(crypto: Crypto, e: Envelope, ciphertext: bytes, a: ApprovalSignature, verifyKey: b32) {
    && a.signerFingerprint == Fingerprint(crypto, verifyKey)
    && |a.signature| == 64
    && crypto.ed25519.verify(verifyKey, ApprovalMessage(crypto, e, ciphertext, a), a.signature)
  }

  predicate Approved(crypto: Crypto, data: bytes, verifyKey: b32) {
    var parts := DecodeCapsuleParts(crypto, data);
    && parts.Ok?
    && exists k :: 0 <= k < |parts.value.0.approvals| &&
         ValidApproval(crypto, parts.value.0, parts.value.1, parts.value.0.approvals[k], verifyKey)
  }

  /** True exactly when some approval of the given key is valid, wherever it
      stands in the list. */
  method VerifyApprovals(crypto: Crypto, data: bytes, verifyKey: b32) returns (r: Result<bool, SigningError>)
    ensures r.Ok? <==> DecodeCapsuleParts(crypto, data).Ok?
    ensures r.Ok? ==> r.value == Approved(crypto, data, verifyKey)
  {
    hide EnvelopeCodec, DecodeCapsuleParts, ApprovalMessage;
    var parts := DecodeCapsuleParts(crypto, data);
    if parts.Err? { return Err(parts.error); }
    var envelope, ciphertext := parts.value.0, parts.value.1;
    var fingerprint := Fingerprint(crypto, verifyKey);
    var foundValid := false;
    for k := 0 to |envelope.approvals|
      invariant foundValid <==>
        exists j :: 0 <= j < k && ValidApproval(crypto, envelope, ciphertext, envelope.approvals[j], verifyKey)
    {
      var approval := envelope.approvals[k];
      if approval.signerFingerprint == fingerprint && |approval.signature| == 64 {
        var message := ApprovalMessage(crypto, envelope, ciphertext, approval);
        if crypto.ed25519.verify(verifyKey, message, approval.signature) {
          foundValid := true;
        }
      }
    }
    r := Ok(foundValid);
  }

  // ---- What the messages cover ----

  /** Everything outside signature, approvals and what they are about is equal. */
  predicate SameContent(a: Envelope, b: Envelope) {
    && a.header == b.header && a.plaintextLen == b.plaintextLen && a.nonce == b.nonce
    && a.secondaryNonce == b.secondaryNonce && a.aadHash == b.aadHash && a.metadata == b.metadata
    && a.contentType == b.contentType && a.publicLabel == b.publicLabel && a.releaseMetadata == b.releaseMetadata
    && a.policyOverridden == b.policyOverridden && a.recoveryMetadata == b.recoveryMetadata
  }

  /** What a v2 author signature is to cover: all but its own bytes and the approvals. */
  predicate SameStatement(a: Envelope, b: Envelope)
    requires a.signature.Some? && b.signature.Some?
  {
    && SameContent(a, b)
    && a.signature.value.signerFingerprint == b.signature.value.signerFingerprint
    && a.signature.value.createdAt == b.signature.value.createdAt
    && a.signature.value.comment == b.signature.value.comment
  }

  /** What a v2 approval is to cover: all but the approvals. */
  predicate SameArtifact(a: Envelope, b: Envelope) { SameContent(a, b) && a.signature == b.signature }

  /** The author message determines the statement and the ciphertext: it changes
      with any change to the envelope other than to the signature bytes and the
      approvals, and with any change to the ciphertext. */
  lemma AuthorMessageCoverage(a: Envelope, ctA: bytes, b: Envelope, ctB: bytes)
    requires a.header.version >= CURRENT_VERSION && b.header.version >= CURRENT_VERSION
    requires a.signature.Some? && b.signature.Some?
    requires |AuthorMessage(a, ctA).value| <= U64_MAX
    ensures AuthorMessage(a, ctA) == AuthorMessage(b, ctB) <==> SameStatement(a, b) && ctA == ctB
  {
    hide EnvelopeCodec, AuthorDomain;
    EnvelopeGood();
    assert Statement(a) == Statement(b) <==> SameStatement(a, b);
    if AuthorMessage(a, ctA) == AuthorMessage(b, ctB) {
      var d, x, y := AuthorDomain(), EnvelopeCodec().enc(Statement(a)), EnvelopeCodec().enc(Statement(b));
      AfterDomain(d, x, ctA);
      AfterDomain(d, y, ctB);
      SelfDelimiting(EnvelopeCodec(), Statement(a), ctA, Statement(b), ctB);
    }
  }

  lemma AfterDomain(domain: bytes, x: bytes, ciphertext: bytes)
    ensures (domain + x + ciphertext)[|domain|..] == x + ciphertext
  {
  }

  /** A v1 statement leaves out the whole signature but keeps the approvals. */
  lemma LegacyAuthorMessageCoverage(a: Envelope, ctA: bytes, b: Envelope, ctB: bytes)
    requires a.header.version < CURRENT_VERSION && b.header.version < CURRENT_VERSION
    requires |AuthorMessage(a, ctA).value| <= U64_MAX
    ensures AuthorMessage(a, ctA) == AuthorMessage(b, ctB) <==>
      SameContent(a, b) && a.approvals == b.approvals && ctA == ctB
  {
    hide EnvelopeCodec;
    EnvelopeGood();
    assert a.(signature := None) == b.(signature := None) <==> SameContent(a, b) && a.approvals == b.approvals;
    if AuthorMessage(a, ctA) == AuthorMessage(b, ctB) {
      SelfDelimiting(EnvelopeCodec(), a.(signature := None), ctA, b.(signature := None), ctB);
    }
  }

  /** An approval covers, under a hash, the ciphertext and every field of the envelope
      but the approvals. */
  lemma ArtifactCoverage(a: Envelope, ctA: bytes, b: Envelope, ctB: bytes)
    requires |ArtifactBytes(a, ctA)| <= U64_MAX
    ensures ArtifactBytes(a, ctA) == ArtifactBytes(b, ctB) <==> SameArtifact(a, b) && ctA == ctB
  {
    hide EnvelopeCodec, ArtifactDomain;
    EnvelopeGood();
    assert a.(approvals := []) == b.(approvals := []) <==> SameArtifact(a, b);
    if ArtifactBytes(a, ctA) == ArtifactBytes(b, ctB) {
      var d, x, y := ArtifactDomain(), EnvelopeCodec().enc(a.(approvals := [])),
        EnvelopeCodec().enc(b.(approvals := []));
      AfterDomain(d, x, ctA);
      AfterDomain(d, y, ctB);
      SelfDelimiting(EnvelopeCodec(), a.(approvals := []), ctA, b.(approvals := []), ctB);
    }
  }

  /** The hash does not confuse the two artifacts. */
  predicate HashedApart(crypto: Crypto, a: Envelope, ctA: bytes, b: Envelope, ctB: bytes) {
    crypto.sha256(ArtifactBytes(a, ctA)) == crypto.sha256(ArtifactBytes(b, ctB)) ==>
      ArtifactBytes(a, ctA) == ArtifactBytes(b, ctB)
  }

  /** The message of a v2 approval covers, where the hash tells artifacts apart, the
      ciphertext, every field of the envelope but the approvals, the approver's
      fingerprint and the comment. */
  lemma ApprovalMessageCoverage(crypto: Crypto, a: Envelope, ctA: bytes, s: ApprovalSignature,
                                b: Envelope, ctB: bytes, t: ApprovalSignature)
    requires a.header.version >= CURRENT_VERSION && b.header.version >= CURRENT_VERSION
    requires |ArtifactBytes(a, ctA)| <= U64_MAX && |StrOption().enc(s.comment)| <= U64_MAX
    requires HashedApart(crypto, a, ctA, b, ctB)
    ensures ApprovalMessage(crypto, a, ctA, s) == ApprovalMessage(crypto, b, ctB, t) <==>
      && SameArtifact(a, b) && ctA == ctB
      && s.signerFingerprint == t.signerFingerprint && s.comment == t.comment
  {
    hide EnvelopeCodec, ArtifactBytes, ApprovalDomain, StrOption, SameArtifact;
    ArtifactCoverage(a, ctA, b, ctB);
    AnnotationsGood();
    var digestA, digestB := crypto.sha256(ArtifactBytes(a, ctA)), crypto.sha256(ArtifactBytes(b, ctB));
    var x, y := StrOption().enc(s.comment), StrOption().enc(t.comment);
    if ApprovalMessage(crypto, a, ctA, s) == ApprovalMessage(crypto, b, ctB, t) {
      MessageParts(ApprovalDomain(), digestA, s.signerFingerprint, x, digestB, t.signerFingerprint, y);
      assert x + [] == y + [];
      SelfDelimiting(StrOption(), s.comment, [], t.comment, []);
    }
  }

  lemma MessageParts(domain: bytes, d: b32, f: b32, x: bytes, d': b32, f': b32, x': bytes)
    requires domain + d + f + x == domain + d' + f' + x'
    ensures d == d' && f == f' && x == x'
  {
    var a, b, n := domain + d + f + x, domain + d' + f' + x', |domain|;
    assert d == a[n..n + 32] && f == a[n + 32..n + 64] && x == a[n + 64..];
    assert d' == b[n..n + 32] && f' == b[n + 32..n + 64] && x' == b[n + 64..];
  }

  /** No author message is an approval message, and no artifact is hashed like a payload
      commitment. */
  lemma DomainsApart(crypto: Crypto, a: Envelope, ctA: bytes, b: Envelope, ctB: bytes, s: ApprovalSignature)
    requires a.header.version >= CURRENT_VERSION && b.header.version >= CURRENT_VERSION && a.signature.Some?
    ensures AuthorMessage(a, ctA) != Ok(ApprovalMessage(crypto, b, ctB, s))
    ensures a.header.version == CURRENT_VERSION ==> Some(ArtifactBytes(b, ctB)) != CommitmentPreimage(a)
  {
    hide EnvelopeCodec, StrOption, CommittedCodec, AuthorDomain, ApprovalDomain, ArtifactDomain, PayloadAadDomain;
    DomainLetters();
    AuthorStarts(a, ctA);
    ApprovalStarts(crypto, b, ctB, s);
    hide AuthorMessage, ApprovalMessage;
    assert ArtifactBytes(b, ctB)[5] == ArtifactDomain()[5];
    hide ArtifactBytes;
    if a.header.version == CURRENT_VERSION { assert CommitmentPreimage(a).value[5] == PayloadAadDomain()[5]; }
  }

  lemma AuthorStarts(e: Envelope, ciphertext: bytes)
    requires e.header.version >= CURRENT_VERSION && e.signature.Some? && |AuthorDomain()| > 6
    ensures |AuthorMessage(e, ciphertext).value| > 6 && AuthorMessage(e, ciphertext).value[6] == AuthorDomain()[6]
  {
    hide EnvelopeCodec, AuthorDomain;
  }

  lemma ApprovalStarts(crypto: Crypto, e: Envelope, ciphertext: bytes, a: ApprovalSignature)
    requires e.header.version >= CURRENT_VERSION && |ApprovalDomain()| > 6
    ensures var message := ApprovalMessage(crypto, e, ciphertext, a);
      |message| > 6 && message[6] == ApprovalDomain()[6]
  {
    hide ArtifactBytes, StrOption, ApprovalDomain;
  }

  lemma DomainLetters()
    ensures |AuthorDomain()| > 6 && |ApprovalDomain()| > 6 && |ArtifactDomain()| > 6 && |PayloadAadDomain()| > 6
    ensures AuthorDomain()[6] == 117 && ApprovalDomain()[6] == 112
    ensures ArtifactDomain()[5] == 97 && PayloadAadDomain()[5] == 112
  {
  }

  // ---- Copied signatures ----

  /** The signature on one message does not verify for the other. */
  predicate Binds(s: Signer, key: b32, made: bytes, read: bytes) {
    s.verify(s.publicKey(key), read, s.sign(key, made)) ==> made == read
  }

  /** A seal made for one v2 capsule and copied into another is valid there exactly if
      both have the same ciphertext and the same fields but for the approvals. */
  lemma CopiedSealIff(crypto: Crypto, e: Envelope, ciphertext: bytes, key: b32, comment: Option<Str>,
                      f: Envelope, other: bytes)
    requires crypto.Lawful() && e.header.version >= CURRENT_VERSION && f.header.version >= CURRENT_VERSION
    requires |ArtifactBytes(e, ciphertext)| <= U64_MAX && |StrOption().enc(comment)| <= U64_MAX
    requires HashedApart(crypto, e, ciphertext, f, other)
    requires var seal := NewApproval(crypto, e, ciphertext, key, comment);
      Binds(crypto.ed25519, key, ApprovalMessage(crypto, e, ciphertext, seal), ApprovalMessage(crypto, f, other, seal))
    ensures var seal := NewApproval(crypto, e, ciphertext, key, comment);
      ValidApproval(crypto, f, other, seal, crypto.ed25519.publicKey(key)) <==>
        SameArtifact(e, f) && ciphertext == other
  {
    hide ApprovalMessage, ArtifactBytes, StrOption, SameArtifact, HashedApart;
    var seal := NewApproval(crypto, e, ciphertext, key, comment);
    SignedMessage(crypto, e, ciphertext, key, comment);
    ApprovalMessageCoverage(crypto, e, ciphertext, seal, f, other, seal);
  }

  lemma SignedMessage(crypto: Crypto, e: Envelope, ciphertext: bytes, key: b32, comment: Option<Str>)
    ensures var seal := NewApproval(crypto, e, ciphertext, key, comment);
      && seal.signature == crypto.ed25519.sign(key, ApprovalMessage(crypto, e, ciphertext, seal))
      && seal.comment == comment && seal.signerFingerprint == crypto.sha256(crypto.ed25519.publicKey(key))
  {
    hide StrOption, ArtifactBytes, ApprovalDomain;
  }

  /** In v1 it is valid exactly if the payload commitments are equal: fields that v1 does
      not commit to, and the ciphertext, are not covered. */
  lemma CopiedLegacySealIff(crypto: Crypto, e: Envelope, ciphertext: bytes, key: b32, comment: Option<Str>,
                            f: Envelope, other: bytes)
    requires crypto.Lawful() && e.header.version < CURRENT_VERSION && f.header.version < CURRENT_VERSION
    requires Binds(crypto.ed25519, key, e.aadHash, f.aadHash)
    ensures var seal := NewApproval(crypto, e, ciphertext, key, comment);
      ValidApproval(crypto, f, other, seal, crypto.ed25519.publicKey(key)) <==> e.aadHash == f.aadHash
  {
    hide ArtifactBytes, StrOption, ApprovalDomain;
    var seal := NewApproval(crypto, e, ciphertext, key, comment);
    assert seal.signature == crypto.ed25519.sign(key, e.aadHash);
    assert ApprovalMessage(crypto, f, other, seal) == f.aadHash;
  }

  /** On files: a capsule whose only seals by a key are copies of one made for another
      capsule is approved by that key exactly if it is the same artifact. */
  lemma CopiedSealApprovesIff(crypto: Crypto, e: Envelope, ciphertext: bytes, key: b32, comment: Option<Str>,
                              data: bytes, f: Envelope, other: bytes)
    requires crypto.Lawful() && e.header.version >= CURRENT_VERSION && f.header.version >= CURRENT_VERSION
    requires |ArtifactBytes(e, ciphertext)| <= U64_MAX && |StrOption().enc(comment)| <= U64_MAX
    requires HashedApart(crypto, e, ciphertext, f, other)
    requires var seal := NewApproval(crypto, e, ciphertext, key, comment);
      && Binds(crypto.ed25519, key, ApprovalMessage(crypto, e, ciphertext, seal),
           ApprovalMessage(crypto, f, other, seal))
      && seal in f.approvals
      && forall a :: a in f.approvals && a.signerFingerprint == seal.signerFingerprint ==> a == seal
    requires DecodeCapsuleParts(crypto, data) == Ok((f, other))
    ensures Approved(crypto, data, crypto.ed25519.publicKey(key)) <==> SameArtifact(e, f) && ciphertext == other
  {
    hide ApprovalMessage, ArtifactBytes, StrOption, SameArtifact, HashedApart, DecodeCapsuleParts, Binds, NewApproval;
    var seal := NewApproval(crypto, e, ciphertext, key, comment);
    CopiedSealIff(crypto, e, ciphertext, key, comment, f, other);
    SignedMessage(crypto, e, ciphertext, key, comment);
    var verifyKey := crypto.ed25519.publicKey(key);
    var i :| 0 <= i < |f.approvals| && f.approvals[i] == seal;
    forall k | 0 <= k < |f.approvals| && ValidApproval(crypto, f, other, f.approvals[k], verifyKey)
      ensures f.approvals[k] == seal
    {
      assert f.approvals[k] in f.approvals;
    }
  }

  /** An author signature copied into another v2 capsule verifies there exactly if both
      have the same ciphertext, content, signer, timestamp and comment. */
  lemma CopiedSignatureVerifiesIff(crypto: Crypto, e: Envelope, ciphertext: bytes, key: b32, createdAt: Option<Str>,
                                   comment: Option<Str>, data: bytes, f: Envelope, other: bytes)
    requires crypto.Lawful() && e.header.version >= CURRENT_VERSION && f.header.version >= CURRENT_VERSION
    requires var signed := SignedEnvelope(crypto, e, ciphertext, key, createdAt, comment);
      && f.signature == signed.signature && AuthorMessage(signed, ciphertext).Ok? && AuthorMessage(f, other).Ok?
      && |AuthorMessage(signed, ciphertext).value| <= U64_MAX
      && Binds(crypto.ed25519, key, AuthorMessage(signed, ciphertext).value, AuthorMessage(f, other).value)
    requires DecodeCapsuleParts(crypto, data) == Ok((f, other))
    ensures VerifySignature(crypto, data, crypto.ed25519.publicKey(key)).Ok? <==>
      SameContent(e, f) && ciphertext == other
  {
    hide EnvelopeCodec, AuthorDomain, DecodeCapsuleParts, SameContent;
    var signed := SignedEnvelope(crypto, e, ciphertext, key, createdAt, comment);
    SignedStatement(crypto, e, ciphertext, key, createdAt, comment);
    AuthorMessageCoverage(signed, ciphertext, f, other);
    SameContentKept(e, signed, f);
  }

  lemma SameContentKept(e: Envelope, signed: Envelope, f: Envelope)
    requires SameContent(e, signed)
    ensures SameContent(e, f) <==> SameContent(signed, f)
  {
  }

  lemma SignedStatement(crypto: Crypto, e: Envelope, ciphertext: bytes, key: b32, createdAt: Option<Str>,
                        comment: Option<Str>)
    requires e.header.version >= CURRENT_VERSION
    ensures var signed := SignedEnvelope(crypto, e, ciphertext, key, createdAt, comment);
      && signed.signature.Some? && SameContent(e, signed)
      && signed.signature.value.signature == crypto.ed25519.sign(key, AuthorMessage(signed, ciphertext).value)
      && signed.signature.value.signerFingerprint == crypto.sha256(crypto.ed25519.publicKey(key))
      && signed.signature.value.createdAt == createdAt && signed.signature.value.comment == comment
  {
    hide EnvelopeCodec, AuthorDomain;
    var signed := SignedEnvelope(crypto, e, ciphertext, key, createdAt, comment);
    var unsigned := e.(signature := Some(signed.signature.value.(signature := [])));
    assert Statement(signed) == Statement(unsigned);
  }

  // ---- The hypotheses can be met ----

  function SignatureMark(made: bytes, m: bytes): b64 { seq(64, _ => if m == made then 1 else 0) }

  /** A signer that tells one message from all others. */
  function TellingSigner(made: bytes): Signer {
    Signer(key => key, (key: b32, m: bytes) => SignatureMark(made, m),
      (key: b32, m: bytes, s: b64) => s == SignatureMark(made, m))
  }

  lemma TellingSignerBinds(made: bytes, key: b32, read: bytes)
    ensures TellingSigner(made).Lawful() && Binds(TellingSigner(made), key, made, read)
  {
    if made != read { assert SignatureMark(made, made)[0] != SignatureMark(made, read)[0]; }
  }

  /** Primitives that tell one artifact and its seal from all others. */
  function SealTelling(e: Envelope, ciphertext: bytes, key: b32, comment: Option<Str>): Crypto {
    var artifact := ArtifactBytes(e, ciphertext);
    var hashing := ToyCrypto().(sha256 := (m: bytes) => Marked(if m == artifact then 1 else 0));
    var unsigned := ApprovalSignature(Fingerprint(hashing, key), [], comment);
    hashing.(ed25519 := TellingSigner(ApprovalMessage(hashing, e, ciphertext, unsigned)))
  }

  /** For every seal and every other v2 capsule there are lawful primitives whose hash
      tells the artifacts apart and whose signature binds the message. */
  lemma CopiedSealIsSatisfiable(e: Envelope, ciphertext: bytes, key: b32, comment: Option<Str>, f: Envelope,
                                other: bytes)
    ensures var crypto := SealTelling(e, ciphertext, key, comment);
      var seal := NewApproval(crypto, e, ciphertext, key, comment);
      && crypto.Lawful() && HashedApart(crypto, e, ciphertext, f, other)
      && Binds(crypto.ed25519, key, ApprovalMessage(crypto, e, ciphertext, seal),
           ApprovalMessage(crypto, f, other, seal))
  {
    hide ArtifactBytes, StrOption, ApprovalDomain, Binds;
    var crypto := SealTelling(e, ciphertext, key, comment);
    var seal := NewApproval(crypto, e, ciphertext, key, comment);
    LawsAreSatisfiable();
    assert Marked(1)[0] != Marked(0)[0];
    var made := ApprovalMessage(crypto, e, ciphertext, seal);
    assert crypto.ed25519 == TellingSigner(made);
    TellingSignerBinds(made, key, ApprovalMessage(crypto, f, other, seal));
  }

  /** So a seal copied into a v2 capsule with another ciphertext or another field is not
      valid there. */
  lemma CopiedSealRefused(e: Envelope, ciphertext: bytes, key: b32, comment: Option<Str>, f: Envelope, other: bytes)
    requires e.header.version >= CURRENT_VERSION && f.header.version >= CURRENT_VERSION
    requires |ArtifactBytes(e, ciphertext)| <= U64_MAX && |StrOption().enc(comment)| <= U64_MAX
    requires !SameContent(e, f) || e.signature != f.signature || ciphertext != other
    ensures var crypto := SealTelling(e, ciphertext, key, comment);
      var seal := NewApproval(crypto, e, ciphertext, key, comment);
      && crypto.Lawful() && ValidApproval(crypto, e, ciphertext, seal, crypto.ed25519.publicKey(key))
      && !ValidApproval(crypto, f, other, seal, crypto.ed25519.publicKey(key))
  {
    hide ArtifactBytes, StrOption, ApprovalMessage, Binds, HashedApart, SealTelling, NewApproval, ValidApproval,
      SameContent;
    var crypto := SealTelling(e, ciphertext, key, comment);
    CopiedSealIsSatisfiable(e, ciphertext, key, comment, e, ciphertext);
    CopiedSealIsSatisfiable(e, ciphertext, key, comment, f, other);
    CopiedSealIff(crypto, e, ciphertext, key, comment, e, ciphertext);
    CopiedSealIff(crypto, e, ciphertext, key, comment, f, other);
    SameAsItself(e);
  }

  lemma SameAsItself(e: Envelope)
    ensures SameContent(e, e)
  {
  }
}
