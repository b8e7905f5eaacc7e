/** Encryption and decryption of files on disk: a capsule or a plaintext appears
    under its name only once it is complete. */
module FileOps {
  import opened Bytes
  import opened Capsule
  import opened ChunkCipher
  import opened Errors
  import opened FileCrypto
  import opened Files
  import opened Frames
  import opened Io
  import opened Policy
  import opened Primitives
  import opened Protocol
  import Parallel

  /** Length, envelope and frames go to a temporary file, which is then renamed. */
  method WriteEnvelopeAndPayload(crypto: Crypto, fs: FileSystem, outFile: Path, e: Envelope, fileKey: bytes,
                                 reader: Reader)
    returns (r: Result<(), CryptoError>)
    requires Usable(PayloadContext(crypto, e, fileKey)) && |reader.rest| <= U64_MAX
    modifies fs`files, reader`rest
    ensures r.Ok? ==>
      && BuildCapsule(e, WritePayload(crypto, e, fileKey, old(reader.rest))).Some?
      && fs.files == old(fs.files)[outFile := BuildCapsule(e, WritePayload(crypto, e, fileKey, old(reader.rest))).value]
    ensures r.Err? ==> fs.files == old(fs.files)
    ensures r.Err? ==>
      || (r.error == CryptoError.Io && (fs.CanFail(outFile) || reader.faulty))
      || (r.error == Validation && EncodeEnvelopeChecked(e).None?)
  {
    hide EncodeEnvelopeChecked, PayloadFrames;
    ghost var plaintext := reader.rest;
    var encoded := EncodeEnvelopeChecked(e);
    if encoded.None? { return Err(Validation); }
    var temp := new Writer(fs.faulty);
    var ok := temp.WriteAll(Le(|encoded.value|, 4));
    if ok.Err? { return Err(CryptoError.Io); }
    ok := temp.WriteAll(encoded.value);
    if ok.Err? { return Err(CryptoError.Io); }
    var streamed := Parallel.StreamEncryptPayload(PAYLOAD_PARAMS, PayloadContext(crypto, e, fileKey), e.header.version,
      reader, temp);
    if streamed.Err? { return Err(streamed.error); }
    assert temp.written == Framed(encoded.value, WritePayload(crypto, e, fileKey, plaintext));
    var persisted := fs.Persist(outFile, temp.written);
    r := if persisted.Err? then Err(CryptoError.Io) else Ok(());
  }

  ghost predicate PolicyAllows(e: Envelope, policy: Option<CapsulePolicy>, overridden: bool) {
    policy.None? || overridden || forall rule :: !Violated(rule, e, policy.value)
  }

  method CheckPolicy(e: Envelope, policy: Option<CapsulePolicy>, overridden: bool) returns (allowed: bool)
    ensures allowed <==> PolicyAllows(e, policy, overridden)
  {
    if policy.None? { return true; }
    var result := LintEnvelope(e, policy.value);
    allowed := result.IsValid() || overridden;
  }

  /** Secrets must not be empty. */
  predicate ValidSecrets(password: bytes, seed: Option<bytes>) {
    password != [] && seed != Some([])
  }

  /** The output file becomes the specified capsule, or nothing changes. Where
      writing cannot fail it becomes it whenever there is one and the policy allows it. */
  ghost predicate Encrypted(before: map<Path, bytes>, after: map<Path, bytes>, outFile: Path, canFail: bool,
                            capsule: Option<bytes>, allowed: bool, r: Result<(), CryptoError>) {
    && (r.Ok? ==> capsule.Some? && allowed && after == before[outFile := capsule.value])
    && (r.Err? ==> after == before && (canFail || capsule.None? || !allowed))
  }

  /** Lint the envelope, then write it and the payload. */
  method EncryptUnderPolicy(crypto: Crypto, fs: FileSystem, outFile: Path, e: Envelope, fileKey: bytes, reader: Reader,
                            policy: Option<CapsulePolicy>, overridden: bool)
    returns (r: Result<(), CryptoError>)
    requires Usable(PayloadContext(crypto, e, fileKey)) && |reader.rest| <= U64_MAX && (reader.faulty ==> fs.faulty)
    modifies fs`files, reader`rest
    ensures Encrypted(old(fs.files), fs.files, outFile, fs.CanFail(outFile),
      BuildCapsule(e, WritePayload(crypto, e, fileKey, old(reader.rest))), PolicyAllows(e, policy, overridden), r)
  {
    hide BuildCapsule, PolicyAllows, WritePayload, Usable, EncodeEnvelopeChecked;
    var allowed := CheckPolicy(e, policy, overridden);
    if !allowed { return Err(PolicyViolation); }
    UnbuiltWithoutEncoding(e);
    r := WriteEnvelopeAndPayload(crypto, fs, outFile, e, fileKey, reader);
  }

  ghost predicate PasswordAllowed(crypto: Crypto, password: bytes, seed: Option<bytes>, profile: SecurityProfile,
                                  rnd: Randomness, plaintextLen: u64, contentType: Option<ContentType>,
                                  policy: Option<CapsulePolicy>, overridden: bool) {
    var e := PasswordEnvelope(crypto, password, seed, profile, rnd, plaintextLen, contentType, overridden);
    e.Some? && PolicyAllows(e.value, policy, overridden)
  }

  ghost predicate PasswordEncrypted(crypto: Crypto, before: map<Path, bytes>, after: map<Path, bytes>, outFile: Path,
                                    canFail: bool, content: bytes, password: bytes, seed: Option<bytes>,
                                    profile: SecurityProfile, policy: Option<CapsulePolicy>, overridden: bool,
                                    contentType: Option<ContentType>, rnd: Randomness, r: Result<(), CryptoError>)
    requires |content| <= U64_MAX
  {
    Encrypted(before, after, outFile, canFail,
      PasswordCapsule(crypto, password, seed, profile, rnd, content, contentType, overridden),
      PasswordAllowed(crypto, password, seed, profile, rnd, |content|, contentType, policy, overridden), r)
  }

  method EncryptFilePassword(crypto: Crypto, fs: FileSystem, inFile: Path, outFile: Path, password: bytes,
                             seed: Option<bytes>, profile: SecurityProfile, policy: Option<CapsulePolicy>,
                             overridden: bool, contentType: Option<ContentType>, rnd: Randomness)
    returns (r: Result<(), CryptoError>)
    requires crypto.Lawful()
    requires inFile in fs.files ==> |fs.files[inFile]| <= U64_MAX  // file lengths are u64
    modifies fs`files
    ensures inFile in old(fs.files) && ValidSecrets(password, seed) ==>
      PasswordEncrypted(crypto, old(fs.files), fs.files, outFile, fs.CanFail(outFile), old(fs.files)[inFile], password,
        seed, profile, policy, overridden,
        contentType, rnd, r)
    ensures !(inFile in old(fs.files) && ValidSecrets(password, seed)) ==> r.Err? && fs.files == old(fs.files)
  {
    hide Acceptable, BuildCapsule, PasswordEnvelope, PolicyAllows, WritePayload, Usable;
    if password == [] { return Err(Validation); }
    if seed.Some? && seed.value == [] { return Err(Validation); }
    var content := fs.ReadFile(inFile);
    if content.Err? { return Err(CryptoError.Io); }
    var reader := new Reader(content.value, fs.faulty);
    var envelope := PasswordEnvelope(crypto, password, seed, profile, rnd, |content.value|, contentType, overridden);
    if envelope.None? { return Err(DecryptionFailed); }
    PasswordEnvelopeAcceptable(crypto, password, seed, profile, rnd, |content.value|, contentType, overridden);
    r := EncryptUnderPolicy(crypto, fs, outFile, envelope.value, rnd.fileKey, reader, policy, overridden);
  }

  lemma UnbuiltWithoutEncoding(e: Envelope)
    ensures EncodeEnvelopeChecked(e).None? ==> forall ciphertext :: BuildCapsule(e, ciphertext).None?
  {
  }

  /** The decrypted bytes go to a temporary file; the output path changes only after
      the whole payload was accepted. */
  method WriteDecryptedPayloadAtomic(crypto: Crypto, fs: FileSystem, outFile: Path, e: Envelope, fileKey: bytes,
                                     reader: Reader)
    returns (r: Result<(), CryptoError>)
    requires crypto.Lawful()
    modifies fs`files, reader`rest
    ensures r.Ok? ==>
      && ReadPayload(crypto, e, fileKey, old(reader.rest)).Some?
      && fs.files == old(fs.files)[outFile := ReadPayload(crypto, e, fileKey, old(reader.rest)).value]
    ensures r.Err? ==> fs.files == old(fs.files)
    ensures r.Err? ==> fs.CanFail(outFile) || reader.faulty || ReadPayload(crypto, e, fileKey, old(reader.rest)).None?
  {
    hide Accepted;
    var temp := new Writer(fs.faulty);
    var streamed, _ := Parallel.StreamDecryptPayload(PAYLOAD_PARAMS, PayloadContext(crypto, e, fileKey),
      e.header.version, e.plaintextLen, reader, temp);
    if streamed.Err? { return Err(streamed.error); }
    ghost var plaintext := ReadPayload(crypto, e, fileKey, old(reader.rest)).value;
    assert [] + plaintext == plaintext;
    var persisted := fs.Persist(outFile, temp.written);
    r := if persisted.Err? then Err(CryptoError.Io) else Ok(());
  }

  /** The output file receives exactly the specified plaintext, or nothing changes. */
  ghost predicate Decrypted(before: map<Path, bytes>, after: map<Path, bytes>, outFile: Path, canFail: bool,
                            expected: Result<bytes, CryptoError>, r: Result<(), CryptoError>) {
    && (r.Ok? ==> expected.Ok? && after == before[outFile := expected.value])
    && (r.Err? ==> after == before && (canFail || expected.Err?))
  }

  method DecryptFilePassword(crypto: Crypto, fs: FileSystem, inFile: Path, outFile: Path, password: bytes,
                             seed: Option<bytes>)
    returns (r: Result<(), CryptoError>)
    requires crypto.Lawful()
    modifies fs`files
    ensures inFile in old(fs.files) ==>
      Decrypted(old(fs.files), fs.files, outFile, fs.CanFail(outFile),
        DecryptWithPassword(crypto, old(fs.files)[inFile], password, seed), r)
    ensures inFile !in old(fs.files) ==> r == Err(CryptoError.Io) && fs.files == old(fs.files)
  {
    hide OpenCapsule, ReadPayload, PasswordFileKey;
    var content := fs.ReadFile(inFile);
    if content.Err? { return Err(CryptoError.Io); }
    var reader := new Reader(content.value, fs.faulty);
    var envelope := ReadEnvelope(crypto, reader);
    if envelope.Err? { return Err(envelope.error); }
    var fileKey := PasswordFileKey(crypto, envelope.value, password, seed);
    if fileKey.Err? { return Err(fileKey.error); }
    r := WriteDecryptedPayloadAtomic(crypto, fs, outFile, envelope.value, fileKey.value, reader);
  }

  method DecryptFileKeypair(crypto: Crypto, fs: FileSystem, inFile: Path, outFile: Path, key: PrivateKey)
    returns (r: Result<(), CryptoError>)
    requires crypto.Lawful()
    modifies fs`files
    ensures inFile in old(fs.files) ==>
      Decrypted(old(fs.files), fs.files, outFile, fs.CanFail(outFile),
        DecryptWithKeypair(crypto, old(fs.files)[inFile], key), r)
    ensures inFile !in old(fs.files) ==> r == Err(CryptoError.Io) && fs.files == old(fs.files)
  {
    hide OpenCapsule, ReadPayload, FirstOpening;
    var content := fs.ReadFile(inFile);
    if content.Err? { return Err(CryptoError.Io); }
    var reader := new Reader(content.value, fs.faulty);
    var envelope := ReadEnvelope(crypto, reader);
    if envelope.Err? { return Err(envelope.error); }
    var fileKey := UnwrapKeypairFileKey(crypto, envelope.value, key);
    if fileKey.Err? { return Err(fileKey.error); }
    r := WriteDecryptedPayloadAtomic(crypto, fs, outFile, envelope.value, fileKey.value, reader);
  }

  /** Wrap the file key once per recipient, in order. */
  method WrapRecipients(crypto: Crypto, fileKey: b32, publics: seq<PublicKey>, coins: seq<SlotRandomness>)
    returns (r: Result<seq<Recipient>, CryptoError>)
    requires |coins| == |publics|
    ensures r == match WrapForAll(crypto, fileKey, publics, coins)
      case Some(slots) => Ok(slots)
      case None => Err(Validation)
  {
    hide WrapFor;
    var slots: seq<Recipient> := [];
    assert publics[0..] == publics && coins[0..] == coins;
    ghost var all := WrapForAll(crypto, fileKey, publics, coins);
    if all.Some? { assert slots + all.value == all.value; }
    for k := 0 to |publics|
      invariant WrapForAll(crypto, fileKey, publics, coins) ==
        match WrapForAll(crypto, fileKey, publics[k..], coins[k..])
        case Some(more) => Some(slots + more)
        case None => None
    {
      var slot := WrapFor(crypto, fileKey, publics[k], coins[k]);
      assert publics[k..][1..] == publics[k + 1..] && coins[k..][1..] == coins[k + 1..];
      if slot.None? { return Err(Validation); }
      ghost var rest := WrapForAll(crypto, fileKey, publics[k + 1..], coins[k + 1..]);
      if rest.Some? { assert slots + ([slot.value] + rest.value) == slots + [slot.value] + rest.value; }
      slots := slots + [slot.value];
    }
    assert slots + [] == slots;
    r := Ok(slots);
  }

  ghost predicate KeypairAllowed(crypto: Crypto, publics: seq<PublicKey>, coins: seq<SlotRandomness>,
                                 profile: SecurityProfile, rnd: Randomness, plaintextLen: u64,
                                 contentType: Option<ContentType>, policy: Option<CapsulePolicy>, overridden: bool)
    requires |coins| == |publics|
  {
    var slots := WrapForAll(crypto, rnd.fileKey, publics, coins);
    slots.Some? &&
      PolicyAllows(NewEnvelope(crypto, KeypairHeader(profile, slots.value), plaintextLen, rnd, contentType, overridden),
        policy, overridden)
  }

  ghost predicate KeypairEncrypted(crypto: Crypto, before: map<Path, bytes>, after: map<Path, bytes>, outFile: Path,
                                   canFail: bool, content: bytes, publics: seq<PublicKey>, coins: seq<SlotRandomness>,
                                   profile: SecurityProfile, policy: Option<CapsulePolicy>, overridden: bool,
                                   contentType: Option<ContentType>, rnd: Randomness, r: Result<(), CryptoError>)
    requires |coins| == |publics| && |content| <= U64_MAX
  {
    Encrypted(before, after, outFile, canFail,
      KeypairCapsule(crypto, publics, coins, profile, rnd, content, contentType, overridden),
      KeypairAllowed(crypto, publics, coins, profile, rnd, |content|, contentType, policy, overridden), r)
  }

  method EncryptFileKeypairs(crypto: Crypto, fs: FileSystem, inFile: Path, outFile: Path, publics: seq<PublicKey>,
                             coins: seq<SlotRandomness>, profile: SecurityProfile, policy: Option<CapsulePolicy>,
                             overridden: bool, contentType: Option<ContentType>, rnd: Randomness)
    returns (r: Result<(), CryptoError>)
    requires crypto.Lawful() && |coins| == |publics|
    requires inFile in fs.files ==> |fs.files[inFile]| <= U64_MAX  // file lengths are u64
    modifies fs`files
    ensures inFile in old(fs.files) ==>
      KeypairEncrypted(crypto, old(fs.files), fs.files, outFile, fs.CanFail(outFile), old(fs.files)[inFile], publics,
        coins, profile, policy, overridden,
        contentType, rnd, r)
    ensures inFile !in old(fs.files) ==> r.Err? && fs.files == old(fs.files)
  {
    hide Acceptable, BuildCapsule, NewEnvelope, PolicyAllows, WritePayload, Usable, WrapForAll, ValidResources;
    var content := fs.ReadFile(inFile);
    if content.Err? { return Err(CryptoError.Io); }
    var reader := new Reader(content.value, fs.faulty);
    var wrapped := WrapRecipients(crypto, rnd.fileKey, publics, coins);
    if wrapped.Err? { return Err(wrapped.error); }
    var envelope := NewEnvelope(crypto, KeypairHeader(profile, wrapped.value), |content.value|, rnd, contentType,
      overridden);
    KeypairEnvelopeAcceptableIff(crypto, publics, coins, profile, rnd, |content.value|, contentType, overridden);
    if !ValidResources(envelope) { return Err(Validation); }
    r := EncryptUnderPolicy(crypto, fs, outFile, envelope, rnd.fileKey, reader, policy, overridden);
  }
}
