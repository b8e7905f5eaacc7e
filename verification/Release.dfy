/** Attaching release and recovery metadata to a finished capsule. */
module Release {
  import opened Bytes
  import opened Capsule
  import opened Files
  import opened Primitives
  import opened Protocol
  import opened Wire

  datatype ReleaseError = Io | EnvelopeError

  /** The release layer's own framing decoder: the envelope and where it ends. */
  function DecodeCapsuleEnvelope(crypto: Crypto, data: bytes): (r: Result<(Envelope, nat), ReleaseError>)
    ensures r.Ok? ==> r.value.1 <= |data|
    ensures r.Err? ==> r.error == EnvelopeError
  {
    if |data| < 4 then Err(EnvelopeError)
    else
      var n := FromLe(data[..4]);
      if n == 0 || n > MAX_ENVELOPE_SIZE then Err(EnvelopeError)
      else
        var end := 4 + n;
        if |data| < end then Err(EnvelopeError)
        else match DecodeEnvelopeBytes(crypto, data[4..end])
          case Ok(e) => Ok((e, end))
          case Err(_) => Err(EnvelopeError)
  }

  function AttachRelease(crypto: Crypto, data: bytes, m: ReleaseMetadata): Result<bytes, ReleaseError> {
    var (e, end) :- DecodeCapsuleEnvelope(crypto, data);
    match BuildCapsule(e.(releaseMetadata := Some(m)), data[end..])
    case Some(output) => Ok(output)
    case None => Err(EnvelopeError)
  }

  function AttachRecovery(crypto: Crypto, data: bytes, recovery: bytes): Result<bytes, ReleaseError> {
    var (e, end) :- DecodeCapsuleEnvelope(crypto, data);
    match BuildCapsule(e.(recoveryMetadata := Some(recovery)), data[end..])
    case Some(output) => Ok(output)
    case None => Err(EnvelopeError)
  }

  /** The output is replaced as a whole, and only on success. */
  ghost predicate Replaced(before: map<Path, bytes>, after: map<Path, bytes>, outFile: Path, canFail: bool,
                           expected: Result<bytes, ReleaseError>, r: Result<(), ReleaseError>) {
    && (r.Ok? ==> expected.Ok? && after == before[outFile := expected.value])
    && (r.Err? ==> after == before)
    && (r.Err? && r.error != Io ==> expected == Err(r.error))
    && (r == Err(Io) ==> canFail)
  }

  method AttachReleaseMetadata(crypto: Crypto, fs: FileSystem, inFile: Path, outFile: Path, m: ReleaseMetadata)
    returns (r: Result<(), ReleaseError>)
    modifies fs`files
    ensures inFile in old(fs.files) ==>
      Replaced(old(fs.files), fs.files, outFile, fs.CanFail(outFile), AttachRelease(crypto, old(fs.files)[inFile], m),
        r)
    ensures inFile !in old(fs.files) ==> r == Err(Io) && fs.files == old(fs.files)
  {
    hide EnvelopeCodec, BuildCapsule, DecodeCapsuleEnvelope;
    var data := fs.ReadFile(inFile);
    if data.Err? { return Err(Io); }
    var parts := DecodeCapsuleEnvelope(crypto, data.value);
    if parts.Err? { return Err(parts.error); }
    var envelope, end := parts.value.0, parts.value.1;
    envelope := envelope.(releaseMetadata := Some(m));
    var output := BuildCapsule(envelope, data.value[end..]);
    if output.None? { return Err(EnvelopeError); }
    var written := fs.Persist(outFile, output.value);
    r := if written.Err? then Err(Io) else Ok(());
  }

  method AttachRecoveryMetadata(crypto: Crypto, fs: FileSystem, inFile: Path, outFile: Path, recovery: bytes)
    returns (r: Result<(), ReleaseError>)
    modifies fs`files
    ensures inFile in old(fs.files) ==>
      Replaced(old(fs.files), fs.files, outFile, fs.CanFail(outFile),
        AttachRecovery(crypto, old(fs.files)[inFile], recovery), r)
    ensures inFile !in old(fs.files) ==> r == Err(Io) && fs.files == old(fs.files)
  {
    hide EnvelopeCodec, BuildCapsule, DecodeCapsuleEnvelope;
    var data := fs.ReadFile(inFile);
    if data.Err? { return Err(Io); }
    var parts := DecodeCapsuleEnvelope(crypto, data.value);
    if parts.Err? { return Err(parts.error); }
    var envelope, end := parts.value.0, parts.value.1;
    envelope := envelope.(recoveryMetadata := Some(recovery));
    var output := BuildCapsule(envelope, data.value[end..]);
    if output.None? { return Err(EnvelopeError); }
    var written := fs.Persist(outFile, output.value);
    r := if written.Err? then Err(Io) else Ok(());
  }
}
