/** Encryption, annotation and decryption together: annotating a capsule any number
    of times never costs its plaintext. */
module EndToEnd {
  import opened Annotations
  import opened Bytes
  import opened Capsule
  import opened Errors
  import opened FileCrypto
  import opened FileOps
  import opened Files
  import opened Policy
  import opened Primitives
  import opened Protocol
  import Release
  import Signing

  /** Both ways of decrypting look at nothing but the core and the ciphertext. */
  lemma CoreDecidesDecryption(crypto: Crypto, a: Envelope, b: Envelope, password: bytes, seed: Option<bytes>,
                              fileKey: bytes, ciphertext: bytes)
    requires SameCore(a, b)
    ensures a.header == b.header
    ensures PasswordFileKey(crypto, a, password, seed) == PasswordFileKey(crypto, b, password, seed)
    ensures ReadPayload(crypto, a, fileKey, ciphertext) == ReadPayload(crypto, b, fileKey, ciphertext)
  {
    hide PasswordFileKey, ReadPayload;
    ReadPayloadCore(crypto, a, b, fileKey, ciphertext);
    PasswordCore(crypto, a, b, password, seed);
  }

  lemma ReadPayloadCore(crypto: Crypto, a: Envelope, b: Envelope, fileKey: bytes, ciphertext: bytes)
    requires SameCore(a, b)
    ensures ReadPayload(crypto, a, fileKey, ciphertext) == ReadPayload(crypto, b, fileKey, ciphertext)
  {
    assert PayloadContext(crypto, a, fileKey) == PayloadContext(crypto, b, fileKey);
  }

  lemma PasswordCore(crypto: Crypto, a: Envelope, b: Envelope, password: bytes, seed: Option<bytes>)
    requires a.header == b.header
    ensures PasswordFileKey(crypto, a, password, seed) == PasswordFileKey(crypto, b, password, seed)
  {
  }

  /** For every capsule and every run of successful steps, decryption with a
      password gives the same result before and after: plaintext or error. */
  lemma RunPreservesPasswordDecryption(crypto: Crypto, steps: seq<Step>, data: bytes, password: bytes,
                                       seed: Option<bytes>)
    requires OpenCapsule(crypto, data).Ok? && Run(crypto, steps, data).Some?
    ensures DecryptWithPassword(crypto, Run(crypto, steps, data).value, password, seed) ==
      DecryptWithPassword(crypto, data, password, seed)
  {
    hide OpenCapsule, Run, PasswordFileKey, ReadPayload, SameCore;
    RunPreservesCore(crypto, steps, data);
    var (e, ciphertext) := OpenCapsule(crypto, data).value;
    var final := OpenCapsule(crypto, Run(crypto, steps, data).value).value.0;
    var fileKey := PasswordFileKey(crypto, e, password, seed);
    CoreDecidesDecryption(crypto, e, final, password, seed, if fileKey.Ok? then fileKey.value else [], ciphertext);
  }

  /** The same for key pairs. */
  lemma RunPreservesKeypairDecryption(crypto: Crypto, steps: seq<Step>, data: bytes, key: PrivateKey)
    requires OpenCapsule(crypto, data).Ok? && Run(crypto, steps, data).Some?
    ensures DecryptWithKeypair(crypto, Run(crypto, steps, data).value, key) == DecryptWithKeypair(crypto, data, key)
  {
    hide OpenCapsule, Run, FirstOpening, ReadPayload, SameCore;
    RunPreservesCore(crypto, steps, data);
    var (e, ciphertext) := OpenCapsule(crypto, data).value;
    var final := OpenCapsule(crypto, Run(crypto, steps, data).value).value.0;
    var fileKey := FirstOpening(crypto, e.header.recipients, key);
    CoreDecidesDecryption(crypto, e, final, [], None, if fileKey.Some? then fileKey.value else [], ciphertext);
  }

  /** Encrypt with a password, annotate in any way, decrypt: the plaintext is back. */
  lemma PasswordEndToEnd(crypto: Crypto, password: bytes, seed: Option<bytes>, profile: SecurityProfile,
                         rnd: Randomness, plaintext: bytes, contentType: Option<ContentType>, overridden: bool,
                         steps: seq<Step>)
    requires crypto.Lawful() && |plaintext| <= U64_MAX
    requires PasswordCapsule(crypto, password, seed, profile, rnd, plaintext, contentType, overridden).Some?
    requires Run(crypto, steps,
      PasswordCapsule(crypto, password, seed, profile, rnd, plaintext, contentType, overridden).value).Some?
    ensures var capsule := PasswordCapsule(crypto, password, seed, profile, rnd, plaintext, contentType,
      overridden).value;
      DecryptWithPassword(crypto, Run(crypto, steps, capsule).value, password, seed) == Ok(plaintext)
  {
    hide PasswordCapsule, OpenCapsule, Run, DecryptWithPassword;
    PasswordRoundTrip(crypto, password, seed, profile, rnd, plaintext, contentType, overridden);
    RunPreservesPasswordDecryption(crypto, steps,
      PasswordCapsule(crypto, password, seed, profile, rnd, plaintext, contentType, overridden).value, password, seed);
  }

  /** Encrypt for key pairs, annotate in any way, decrypt as any recipient. */
  lemma KeypairEndToEnd(crypto: Crypto, publics: seq<PublicKey>, coins: seq<SlotRandomness>, profile: SecurityProfile,
                        rnd: Randomness, plaintext: bytes, contentType: Option<ContentType>, overridden: bool,
                        key: PrivateKey, i: nat, steps: seq<Step>)
    requires crypto.Lawful() && Committing(crypto.xchacha) && |coins| == |publics| && |plaintext| <= U64_MAX
    requires KeypairCapsule(crypto, publics, coins, profile, rnd, plaintext, contentType, overridden).Some?
    requires Run(crypto, steps,
      KeypairCapsule(crypto, publics, coins, profile, rnd, plaintext, contentType, overridden).value).Some?
    requires i < |publics| && publics[i] == PublicOf(crypto, key)
    ensures var capsule := KeypairCapsule(crypto, publics, coins, profile, rnd, plaintext, contentType,
      overridden).value;
      DecryptWithKeypair(crypto, Run(crypto, steps, capsule).value, key) == Ok(plaintext)
  {
    hide KeypairCapsule, OpenCapsule, Run, DecryptWithKeypair;
    KeypairRoundTrip(crypto, publics, coins, profile, rnd, plaintext, contentType, overridden, key, i);
    RunPreservesKeypairDecryption(crypto, steps,
      KeypairCapsule(crypto, publics, coins, profile, rnd, plaintext, contentType, overridden).value, key);
  }

  // ---- On files ----

  /** One annotation step on a file in place. */
  method AnnotateFile(crypto: Crypto, fs: FileSystem, file: Path, step: Step) returns (done: bool)
    requires file in fs.files
    modifies fs`files
    ensures done ==>
      && Apply(crypto, step, old(fs.files)[file]).Some?
      && fs.files == old(fs.files)[file := Apply(crypto, step, old(fs.files)[file]).value]
    ensures !done ==> fs.files == old(fs.files)
    ensures !done ==> fs.CanFail(file) || Apply(crypto, step, old(fs.files)[file]).None?
  {
    hide Signing.SignCapsule, Signing.ApproveCapsule, Release.AttachRelease, Release.AttachRecovery;
    match step
    case Sign(key, createdAt, comment) =>
      var signed := Signing.SignFile(crypto, fs, file, file, key, createdAt, comment, true);
      done := signed.Ok?;
    case Approve(key, comment) =>
      var approved := Signing.AddApprovalSeal(crypto, fs, file, file, key, comment, true);
      done := approved.Ok?;
    case AttachRelease(metadata) =>
      var attached := Release.AttachReleaseMetadata(crypto, fs, file, file, metadata);
      done := attached.Ok?;
    case AttachRecovery(recovery) =>
      var attached := Release.AttachRecoveryMetadata(crypto, fs, file, file, recovery);
      done := attached.Ok?;
  }

  lemma {:induction false} RunSnoc(crypto: Crypto, steps: seq<Step>, step: Step, data: bytes)
    requires Run(crypto, steps, data).Some?
    ensures Run(crypto, steps + [step], data) == Apply(crypto, step, Run(crypto, steps, data).value)
    decreases |steps|
  {
    hide Apply;
    if steps == [] {
      assert [step][1..] == [];
    } else {
      RunSnoc(crypto, steps[1..], step, Apply(crypto, steps[0], data).value);
      assert (steps + [step])[1..] == steps[1..] + [step];
    }
  }

  /** The steps one after the other, up to the first that fails: the file is then as
      after a successful run of the steps before it. */
  method AnnotateInPlace(crypto: Crypto, fs: FileSystem, file: Path, steps: seq<Step>) returns (done: nat)
    requires file in fs.files
    modifies fs`files
    ensures done <= |steps|
    ensures Run(crypto, steps[..done], old(fs.files)[file]).Some?
    ensures fs.files == old(fs.files)[file := Run(crypto, steps[..done], old(fs.files)[file]).value]
    ensures done < |steps| ==> fs.CanFail(file) || Apply(crypto, steps[done], fs.files[file]).None?
  {
    hide Apply;
    ghost var data := fs.files[file];
    done := 0;
    while done < |steps|
      invariant done <= |steps|
      invariant Run(crypto, steps[..done], data).Some?
      invariant fs.files == old(fs.files)[file := Run(crypto, steps[..done], data).value]
    {
      var ok := AnnotateFile(crypto, fs, file, steps[done]);
      if !ok { return; }
      RunSnoc(crypto, steps[..done], steps[done], data);
      assert steps[..done + 1] == steps[..done] + [steps[done]];
      done := done + 1;
    }
  }

  /** Encrypt a file, annotate the capsule with any list of steps, failing ones
      included, and decrypt it: the content of the input file comes out. */
  method EncryptAnnotateDecrypt(crypto: Crypto, fs: FileSystem, inFile: Path, capsule: Path, outFile: Path,
                                password: bytes, seed: Option<bytes>, profile: SecurityProfile,
                                policy: Option<CapsulePolicy>, overridden: bool, contentType: Option<ContentType>,
                                rnd: Randomness, steps: seq<Step>)
    returns (encrypted: bool, decrypted: bool)
    requires crypto.Lawful()
    requires inFile in fs.files ==> |fs.files[inFile]| <= U64_MAX  // file lengths are u64
    modifies fs`files
    ensures encrypted && !fs.CanFail(outFile) ==> decrypted
    ensures decrypted ==> inFile in old(fs.files) && outFile in fs.files && fs.files[outFile] == old(fs.files)[inFile]
    ensures forall p :: p in old(fs.files) && p != capsule && p != outFile ==>
      p in fs.files && fs.files[p] == old(fs.files)[p]
  {
    hide PasswordCapsule, PasswordEncrypted, DecryptWithPassword, Run, Apply, OpenCapsule, ValidSecrets;
    ghost var files := fs.files;
    var sealing := EncryptFilePassword(crypto, fs, inFile, capsule, password, seed, profile, policy, overridden,
      contentType, rnd);
    if sealing.Err? {
      if inFile in files && ValidSecrets(password, seed) {
        SealedFile(crypto, files, fs.files, capsule, fs.CanFail(capsule), files[inFile], password, seed, profile,
          policy, overridden, contentType, rnd, sealing);
      }
      return false, false;
    }
    SealedFile(crypto, files, fs.files, capsule, fs.CanFail(capsule), files[inFile], password, seed, profile, policy,
      overridden, contentType, rnd, sealing);
    ghost var data := fs.files[capsule];
    var done := AnnotateInPlace(crypto, fs, capsule, steps);
    RunPreservesPasswordDecryption(crypto, steps[..done], data, password, seed);
    var unsealing := DecryptFilePassword(crypto, fs, capsule, outFile, password, seed);
    return true, unsealing.Ok?;
  }

  /** A successful encryption leaves a capsule that decrypts; a failing one, nothing. */
  lemma SealedFile(crypto: Crypto, before: map<Path, bytes>, after: map<Path, bytes>, capsule: Path, canFail: bool,
                   content: bytes, password: bytes, seed: Option<bytes>, profile: SecurityProfile,
                   policy: Option<CapsulePolicy>, overridden: bool, contentType: Option<ContentType>, rnd: Randomness,
                   r: Result<(), CryptoError>)
    requires crypto.Lawful() && |content| <= U64_MAX
    requires PasswordEncrypted(crypto, before, after, capsule, canFail, content, password, seed, profile, policy,
      overridden, contentType, rnd, r)
    ensures r.Err? ==> after == before
    ensures r.Ok? ==>
      && capsule in after && after == before[capsule := after[capsule]]
      && OpenCapsule(crypto, after[capsule]).Ok? &&
           DecryptWithPassword(crypto, after[capsule], password, seed) == Ok(content)
  {
    hide PasswordCapsule, PasswordAllowed, DecryptWithPassword, OpenCapsule;
    if r.Ok? { PasswordRoundTrip(crypto, password, seed, profile, rnd, content, contentType, overridden); }
  }
}
