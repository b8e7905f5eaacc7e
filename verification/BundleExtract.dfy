/** Opening, verifying and extracting a bundle: nothing is written before every
    file verified, and every file appears under its name complete. */
module BundleExtract {
  import opened Bytes
  import opened BundleFormat
  import opened BundleLayout
  import opened BundlePaths
  import opened Errors
  import opened FileCrypto
  import opened FileOps
  import opened Files
  import opened Io
  import opened Primitives
  import opened Protocol
  import BundlePack
  import Capsule
  import ChunkCipher
  import Frames

  /** The decrypted payload in its private temporary directory. */
  datatype DecryptedBundle = DecryptedBundle(file: Reader, manifest: BundleManifest, dataStart: u64, payloadLen: u64) {
    ghost predicate Valid(lower: bytes -> bytes) {
      && payloadLen == |file.content| && dataStart <= payloadLen
      && OpenPayload(lower, file.content) == Some((manifest, dataStart))
      && EntriesInside(manifest.entries, dataStart, |file.content|)
    }
  }

  // ---- Opening ----

  /** A file is as long as its declared u64 length. */
  lemma PlaintextFits(crypto: Crypto, data: bytes, password: bytes, seed: Option<bytes>)
    requires crypto.Lawful() && DecryptWithPassword(crypto, data, password, seed).Ok?
    ensures |DecryptWithPassword(crypto, data, password, seed).value| <= U64_MAX
  {
    hide Capsule.OpenCapsule, PasswordFileKey, Frames.Accepted;
    var (e, ciphertext) := Capsule.OpenCapsule(crypto, data).value;
    var fileKey := PasswordFileKey(crypto, e, password, seed).value;
    AcceptedLength(crypto, e, fileKey, ciphertext);
  }

  lemma AcceptedLength(crypto: Crypto, e: Envelope, fileKey: bytes, ciphertext: bytes)
    requires crypto.Lawful() && ReadPayload(crypto, e, fileKey, ciphertext).Some?
    ensures |ReadPayload(crypto, e, fileKey, ciphertext).value| <= U64_MAX
  {
    hide Frames.SequentialOpen, Frames.PayloadFrames;
    var ctx := PayloadContext(crypto, e, fileKey);
    if ChunkCipher.Usable(ctx) {
      Frames.AcceptedLanguage(ctx, Frames.PAYLOAD_PARAMS.chunkSize, e.header.version, e.plaintextLen, ciphertext,
        ReadPayload(crypto, e, fileKey, ciphertext).value);
    }
  }

  /** The checks on a decrypted payload. */
  method OpenPlaintext(lower: bytes -> bytes, file: Reader) returns (r: Result<DecryptedBundle, BundleError>)
    requires file.rest == file.content && |file.content| <= U64_MAX
    modifies file`rest
    ensures r.Ok? ==> r.value.file == file && r.value.Valid(lower)
    ensures r.Err? ==> file.faulty || OpenPayload(lower, file.content).None?
    ensures r.Err? ==> r.error in {BundleError.Io, BundleError.Serialization, PathTraversal, ManifestError}
  {
    hide ManifestCodec, ValidLayout;
    ghost var payload := file.content;
    var payloadLen: u64 := |file.content|;
    if payloadLen < 4 { return Err(ManifestError); }
    var length := Capsule.ReadExact(file, 4);
    if length.Err? { return Err(BundleError.Io); }
    var manifestLen := FromLe(length.value);
    if manifestLen == 0 || manifestLen > MAX_MANIFEST { return Err(ManifestError); }
    var dataStart := 4 + manifestLen;
    if dataStart > payloadLen { return Err(ManifestError); }
    assert file.rest == payload[4..];
    var encoded := Capsule.ReadExact(file, manifestLen);
    if encoded.Err? { return Err(BundleError.Io); }
    assert encoded.value == payload[4..4 + manifestLen];
    var decoded := ManifestCodec().dec(encoded.value);
    if decoded.None? { return Err(BundleError.Serialization); }
    var (manifest, remaining) := decoded.value;
    if remaining != [] { return Err(ManifestError); }
    var layout := ValidateLayout(lower, manifest, dataStart, payloadLen);
    if layout.Err? { return Err(layout.error); }
    LayoutInside(lower, manifest, dataStart, payloadLen);
    r := Ok(DecryptedBundle(file, manifest, dataStart, payloadLen));
  }

  lemma LayoutInside(lower: bytes -> bytes, m: BundleManifest, dataStart: nat, payloadLen: nat)
    requires ValidLayout(lower, m, dataStart, payloadLen)
    ensures EntriesInside(m.entries, dataStart, payloadLen) && PathsValid(m.entries)
  {
  }

  /** What `decrypt_and_open` makes of a capsule file: the payload and the opened
      bundle. No seed is asked for. */
  function OpenBundle(crypto: Crypto, lower: bytes -> bytes, data: bytes, password: bytes)
    : (r: Option<(bytes, BundleManifest, nat)>)
    ensures r.Some? ==> r.value.2 <= |r.value.0| && EntriesInside(r.value.1.entries, r.value.2, |r.value.0|)
    ensures r.Some? ==> PathsValid(r.value.1.entries) && PathsDistinct(lower, r.value.1.entries)
  {
    match DecryptWithPassword(crypto, data, password, None)
    case Err(_) => None
    case Ok(payload) =>
      var (m, dataStart) :- OpenPayload(lower, payload);
      Some((payload, m, dataStart))
  }

  const PLAINTEXT_NAME: Path := [[98]]

  method DecryptAndOpen(crypto: Crypto, lower: bytes -> bytes, fs: FileSystem, inFile: Path, password: bytes)
    returns (r: Result<DecryptedBundle, BundleError>)
    requires crypto.Lawful()
    ensures r.Ok? ==>
      && fresh(r.value.file) && r.value.Valid(lower) && inFile in fs.files
      && OpenBundle(crypto, lower, fs.files[inFile], password) ==
           Some((r.value.file.content, r.value.manifest, r.value.dataStart))
      && (r.value.file.faulty ==> fs.faulty)
    ensures r.Err? ==> fs.faulty || inFile !in fs.files || OpenBundle(crypto, lower, fs.files[inFile], password).None?
    ensures r.Err? ==> r.error != BundleError.OutputExists
  {
    hide DecryptWithPassword, OpenPayload;
    var content := fs.ReadFile(inFile);
    if content.Err? { return Err(BundleError.Crypto(CryptoError.Io)); }
    // A temporary directory of its own, which nothing else sees.
    var scratch := new FileSystem(fs.faulty, map[inFile := content.value], {[]});
    var decrypted := DecryptFilePassword(crypto, scratch, inFile, PLAINTEXT_NAME, password, None);
    if decrypted.Err? { return Err(BundleError.Crypto(decrypted.error)); }
    PlaintextFits(crypto, content.value, password, None);
    var plaintext := scratch.ReadFile(PLAINTEXT_NAME);
    if plaintext.Err? { return Err(BundleError.Io); }
    var file := new Reader(plaintext.value, fs.faulty);
    r := OpenPlaintext(lower, file);
  }

  // ---- Verifying ----

  predicate EntryVerifies(crypto: Crypto, payload: bytes, dataStart: nat, e: BundleEntry)
    requires dataStart + e.offset + e.size <= |payload|
  {
    crypto.blake3(EntryBytes(payload, dataStart, e)) == e.blake3Hash
  }

  method VerifyEntry(crypto: Crypto, file: Reader, dataStart: u64, entry: BundleEntry)
    returns (r: Result<(), BundleError>)
    requires dataStart + entry.offset + entry.size <= |file.content| <= U64_MAX
    modifies file`rest
    ensures r.Ok? ==> EntryVerifies(crypto, file.content, dataStart, entry)
    ensures r.Err? ==> file.faulty || !EntryVerifies(crypto, file.content, dataStart, entry)
    ensures r.Err? ==> r.error in {BundleError.Io, ManifestError}
  {
    var start := dataStart + entry.offset;
    file.Seek(start);
    assert file.rest[..entry.size] == EntryBytes(file.content, dataStart, entry);
    var actual :- BundlePack.HashReader(crypto, file, entry.size);
    if actual != entry.blake3Hash { return Err(ManifestError); }
    r := Ok(());
  }

  /** Succeeds exactly when every file has the content it was listed with. */
  method VerifyAll(crypto: Crypto, lower: bytes -> bytes, bundle: DecryptedBundle) returns (r: Result<(), BundleError>)
    requires bundle.Valid(lower)
    modifies bundle.file`rest
    ensures r.Ok? ==> AllVerify(crypto, bundle.file.content, bundle.manifest, bundle.dataStart)
    ensures r.Err? ==> bundle.file.faulty || !AllVerify(crypto, bundle.file.content, bundle.manifest, bundle.dataStart)
    ensures r.Err? ==> r.error in {BundleError.Io, PathTraversal, ManifestError}
  {
    hide ValidLayout, OpenPayload, EntryBytes;
    var layout := ValidateLayout(lower, bundle.manifest, bundle.dataStart, bundle.payloadLen);
    if layout.Err? { return Err(ManifestError); }
    for k := 0 to |bundle.manifest.entries|
      invariant forall j :: 0 <= j < k ==>
        EntryVerifies(crypto, bundle.file.content, bundle.dataStart, bundle.manifest.entries[j])
    {
      var verified := VerifyEntry(crypto, bundle.file, bundle.dataStart, bundle.manifest.entries[k]);
      if verified.Err? { return Err(verified.error); }
    }
    r := Ok(());
  }

  ghost predicate Authentic(crypto: Crypto, lower: bytes -> bytes, data: bytes, password: bytes) {
    var opening := OpenBundle(crypto, lower, data, password);
    opening.Some? && AllVerify(crypto, opening.value.0, opening.value.1, opening.value.2)
  }

  /** `list_bundle` and `verify_bundle`: the manifest, exactly of an authentic
      bundle. */
  method ListBundle(crypto: Crypto, lower: bytes -> bytes, fs: FileSystem, inFile: Path, password: bytes)
    returns (r: Result<BundleManifest, BundleError>)
    requires crypto.Lawful()
    ensures r.Ok? ==>
      && inFile in fs.files && Authentic(crypto, lower, fs.files[inFile], password)
      && r.value == OpenBundle(crypto, lower, fs.files[inFile], password).value.1
    ensures r.Err? ==> fs.faulty || inFile !in fs.files || !Authentic(crypto, lower, fs.files[inFile], password)
  {
    hide OpenBundle, AllVerify, OpenPayload;
    var bundle := DecryptAndOpen(crypto, lower, fs, inFile, password);
    if bundle.Err? { return Err(bundle.error); }
    var verified := VerifyAll(crypto, lower, bundle.value);
    if verified.Err? { return Err(verified.error); }
    r := Ok(bundle.value.manifest);
  }

  // ---- Directories ----

  method ValidateExtractionDirectory(fs: FileSystem, path: Path) returns (r: Result<(), BundleError>)
    ensures r.Ok? <==> path in fs.dirs
    ensures r.Err? ==> r.error == if path in fs.files then SpecialFileRejected else BundleError.Io
  {
    if path in fs.dirs { return Ok(()); }
    r := Err(if path in fs.files then SpecialFileRejected else BundleError.Io);
  }

  /** Create what is missing of `base` joined with `names`, one level at a time. */
  method EnsureDirectories(fs: FileSystem, base: Path, names: seq<bytes>) returns (r: Result<(), BundleError>)
    modifies fs`dirs
    ensures r.Ok? ==> forall k :: 0 <= k <= |names| ==> base + names[..k] in fs.dirs
    ensures old(fs.dirs) <= fs.dirs
    ensures forall d :: d in fs.dirs && d !in old(fs.dirs) ==> base < d <= base + names && d !in fs.files
    ensures r.Err? ==> r.error != BundleError.OutputExists
    ensures r.Err? ==>
      fs.faulty || base !in old(fs.dirs) || exists k :: 0 < k <= |names| && base + names[..k] in fs.files
  {
    var valid := ValidateExtractionDirectory(fs, base);
    if valid.Err? { return Err(valid.error); }
    assert base + names[..0] == base;
    for k := 0 to |names|
      invariant forall j :: 0 <= j <= k ==> base + names[..j] in fs.dirs
      invariant old(fs.dirs) <= fs.dirs
      invariant forall d :: d in fs.dirs && d !in old(fs.dirs) ==> base < d <= base + names && d !in fs.files
    {
      var current := base + names[..k + 1];
      assert Parent(current) == base + names[..k];
      assert base < current <= base + names;
      if fs.Exists(current) {
        valid := ValidateExtractionDirectory(fs, current);
        if valid.Err? { return Err(valid.error); }
      } else {
        var created := fs.CreateDir(current);
        if created.Err? { return Err(BundleError.Io); }
        valid := ValidateExtractionDirectory(fs, current);
        if valid.Err? { return Err(BundleError.Io); }
      }
    }
    r := Ok(());
  }

  // ---- Writing one file ----

  /** Copy one file's range into the temporary output with a bounded buffer. */
  method CopyEntry(source: Reader, dataStart: u64, entry: BundleEntry, output: Writer)
    returns (r: Result<(), BundleError>)
    requires dataStart + entry.offset + entry.size <= |source.content| <= U64_MAX
    modifies source`rest, output`written
    ensures r.Ok? ==> output.written == old(output.written) + EntryBytes(source.content, dataStart, entry)
    ensures r.Err? ==> (source.faulty || output.faulty) && r.error == BundleError.Io
  {
    var start := dataStart + entry.offset;
    source.Seek(start);
    ghost var all := output.written + source.rest[..entry.size];
    var remaining: int := entry.size;
    var buffer := new byte[BundlePack.COPY_BUFFER](_ => 0);
    while remaining > 0
      invariant 0 <= remaining <= |source.rest|
      invariant output.written + source.rest[..remaining] == all
    {
      var requested := Min(remaining, BundlePack.COPY_BUFFER);
      ghost var rest, before := source.rest, output.written;
      var read := source.Read(buffer, 0, requested);
      if read.Err? { return Err(BundleError.Io); }
      if read.value == 0 { return Err(ManifestError); }
      var written := output.WriteAll(buffer[..read.value]);
      if written.Err? { return Err(BundleError.Io); }
      assert buffer[..read.value] == rest[..read.value];
      BundlePack.MovesOver(before, rest, remaining, read.value);
      remaining := remaining - read.value;
    }
    assert output.written + source.rest[..0] == output.written;
    r := Ok(());
  }

  /** A file is replaced only with `force`, and never anything but a file. */
  method PersistOutput(fs: FileSystem, target: Path, content: bytes, force: bool) returns (r: Result<(), BundleError>)
    modifies fs`files
    ensures r.Ok? ==> fs.files == old(fs.files)[target := content] && target !in fs.dirs
    ensures r.Ok? && target in old(fs.files) ==> force
    ensures r.Err? ==> fs.files == old(fs.files)
    ensures r.Err? ==> fs.CanFail(target) || (old(target in fs.files) && !force)
  {
    if force && fs.Exists(target) {
      if target !in fs.files { return Err(SpecialFileRejected); }
      var persisted := fs.Persist(target, content);
      r := if persisted.Err? then Err(BundleError.Io) else Ok(());
    } else {
      if fs.Exists(target) { return Err(BundleError.OutputExists); }
      var persisted := fs.Persist(target, content);
      r := if persisted.Err? then Err(BundleError.Io) else Ok(());
    }
  }

  function NamesOf(e: BundleEntry): Path
    requires ValidPath(e.relativePath)
  {
    ValidateRelativePath(e.relativePath).value
  }

  function Target(outDir: Path, e: BundleEntry): Path
    requires ValidPath(e.relativePath)
  {
    outDir + NamesOf(e)
  }

  /** What can stand in the way of one output. */
  predicate Obstructed(files: map<Path, bytes>, dirs: set<Path>, outDir: Path, e: BundleEntry, force: bool)
    requires ValidPath(e.relativePath)
  {
    var names := NamesOf(e);
    || outDir !in dirs || !EndsInName(e.relativePath)
    || (exists k :: 0 < k < |names| && outDir + names[..k] in files)
    || outDir + names in dirs
    || (outDir + names in files && !force)
  }

  /** One file of the bundle: its target gets its bytes, all of them, or no file
      changes; directories only appear on the way to the target. */
  method ExtractEntry(fs: FileSystem, file: Reader, dataStart: u64, outDir: Path, entry: BundleEntry, force: bool)
    returns (r: Result<(), BundleError>)
    requires ValidPath(entry.relativePath) && dataStart + entry.offset + entry.size <= |file.content| <= U64_MAX
    requires file.faulty ==> fs.faulty
    modifies fs`files, fs`dirs, file`rest
    ensures r.Ok? ==>
      && fs.files == old(fs.files)[Target(outDir, entry) := EntryBytes(file.content, dataStart, entry)]
      && (Target(outDir, entry) in old(fs.files) ==> force) && EndsInName(entry.relativePath)
      && (forall k :: 0 <= k < |NamesOf(entry)| ==> outDir + NamesOf(entry)[..k] in fs.dirs)
    ensures old(fs.Tidy()) ==> fs.Tidy()
    ensures r.Err? ==> fs.files == old(fs.files)
    ensures old(fs.dirs) <= fs.dirs
    ensures forall d :: d in fs.dirs && d !in old(fs.dirs) ==> outDir < d < Target(outDir, entry)
    ensures r.Err? ==> fs.faulty || Obstructed(old(fs.files), old(fs.dirs), outDir, entry, force)
  {
    hide ValidateRelativePath, EntryBytes, EndsInName;
    AcceptedPaths(entry.relativePath);
    var names := NamesOf(entry);
    var target, above := outDir + names, Parent(names);
    assert Parent(target) == outDir + above;
    assert outDir + above < target;
    assert forall k :: 0 <= k <= |above| ==> above[..k] == names[..k];
    var ensured := EnsureDirectories(fs, outDir, above);
    if ensured.Err? { return Err(ensured.error); }
    assert above[..|above|] == above;
    if fs.Exists(target) {
      if !force { return Err(BundleError.OutputExists); }
      if target !in fs.files { return Err(SpecialFileRejected); }
    }
    // The system renames no file to a name with a slash or a dot at its end.
    if !EndsInName(entry.relativePath) { return Err(BundleError.Io); }
    var output := new Writer(fs.faulty);
    var copied := CopyEntry(file, dataStart, entry, output);
    if copied.Err? { return Err(copied.error); }
    assert [] + EntryBytes(file.content, dataStart, entry) == EntryBytes(file.content, dataStart, entry);
    r := PersistOutput(fs, target, output.written, force);
  }

  // ---- Extracting ----

  /** The files after the first n outputs. */
  function Overlay(files: map<Path, bytes>, outDir: Path, payload: bytes, dataStart: nat, entries: seq<BundleEntry>,
                   n: nat): map<Path, bytes>
    requires n <= |entries| && PathsValid(entries) && EntriesInside(entries, dataStart, |payload|)
  {
    if n == 0 then files
    else Overlay(files, outDir, payload, dataStart, entries, n - 1)
           [Target(outDir, entries[n - 1]) := EntryBytes(payload, dataStart, entries[n - 1])]
  }

  /** The state in the middle or at the end of an extraction: the first n outputs
      are there, complete, and nothing else changed; without `force` each was new. */
  ghost predicate Extracted(before: map<Path, bytes>, after: map<Path, bytes>, outDir: Path, payload: bytes,
                            dataStart: nat, entries: seq<BundleEntry>, n: nat, force: bool)
    requires PathsValid(entries) && EntriesInside(entries, dataStart, |payload|)
  {
    && n <= |entries|
    && after == Overlay(before, outDir, payload, dataStart, entries, n)
    && (force || forall k :: 0 <= k < n ==>
         Target(outDir, entries[k]) !in Overlay(before, outDir, payload, dataStart, entries, k))
  }

  lemma ExtractedStep(before: map<Path, bytes>, after: map<Path, bytes>, outDir: Path, payload: bytes, dataStart: nat,
                      entries: seq<BundleEntry>, n: nat, force: bool)
    requires PathsValid(entries) && EntriesInside(entries, dataStart, |payload|)
    requires Extracted(before, after, outDir, payload, dataStart, entries, n, force) && n < |entries|
    requires Target(outDir, entries[n]) in after ==> force
    ensures Extracted(before, after[Target(outDir, entries[n]) := EntryBytes(payload, dataStart, entries[n])],
      outDir, payload, dataStart, entries, n + 1, force)
  {
    hide ValidateRelativePath, EntryBytes, Overlay, Target, PathsValid, EntriesInside;
    OverlayStep(before, outDir, payload, dataStart, entries, n);
  }

  lemma OverlayStep(files: map<Path, bytes>, outDir: Path, payload: bytes, dataStart: nat, entries: seq<BundleEntry>,
                    n: nat)
    requires n < |entries| && PathsValid(entries) && EntriesInside(entries, dataStart, |payload|)
    ensures Overlay(files, outDir, payload, dataStart, entries, n + 1)
         == Overlay(files, outDir, payload, dataStart, entries, n)[Target(outDir, entries[n]) :=
           EntryBytes(payload, dataStart, entries[n])]
  {
  }

  lemma OverlayNothing(files: map<Path, bytes>, outDir: Path, payload: bytes, dataStart: nat, entries: seq<BundleEntry>)
    requires PathsValid(entries) && EntriesInside(entries, dataStart, |payload|)
    ensures Overlay(files, outDir, payload, dataStart, entries, 0) == files
  {
  }

  // ---- Nothing in the way ----

  /** All paths end in a name, no output is a directory on the way to another, and
      without `force` no two are the same. */
  ghost predicate Compatible(entries: seq<BundleEntry>, force: bool)
    requires PathsValid(entries)
  {
    && AllEndInName(entries, |entries|)
    && forall j, k :: 0 <= j < |entries| && 0 <= k < |entries| && j != k ==>
         !(NamesOf(entries[j]) < NamesOf(entries[k])) && (force || NamesOf(entries[j]) != NamesOf(entries[k]))
  }

  ghost predicate AllEndInName(entries: seq<BundleEntry>, n: nat) {
    n <= |entries| && forall k :: 0 <= k < n ==> EndsInName(entries[k].relativePath)
  }

  /** Neither on the way to the directory nor below it. */
  predicate Apart(p: Path, dir: Path) { !(p <= dir) && !(dir <= p) }

  /** Nothing is below the output directory yet, and it can be created. */
  ghost predicate FreeDirectory(files: map<Path, bytes>, dirs: set<Path>, outDir: Path) {
    && [] in dirs
    && (forall p :: p in files ==> Apart(p, outDir))
    && (forall d :: d in dirs && outDir <= d ==> d == outDir)
  }

  /** Neither what is there nor the outputs themselves get in an output's way. */
  ghost predicate Unobstructed(files: map<Path, bytes>, dirs: set<Path>, outDir: Path, entries: seq<BundleEntry>,
                               force: bool)
    requires PathsValid(entries)
  {
    FreeDirectory(files, dirs, outDir) && Compatible(entries, force)
  }

  /** How far an extraction has got: only outputs 0..n-1 and directories on the way
      to them were added. */
  ghost predicate Progress(files: map<Path, bytes>, dirs: set<Path>, outDir: Path, entries: seq<BundleEntry>, n: nat,
                           filesNow: map<Path, bytes>, dirsNow: set<Path>)
    requires PathsValid(entries)
  {
    && n <= |entries|
    && outDir in dirsNow
    && (forall p :: p in filesNow ==> p in files || exists k :: 0 <= k < n && p == Target(outDir, entries[k]))
    && (forall d :: d in dirsNow ==>
         d in dirs || d <= outDir || exists k :: 0 <= k < n && outDir < d < Target(outDir, entries[k]))
  }

  lemma NotObstructed(files: map<Path, bytes>, dirs: set<Path>, outDir: Path, entries: seq<BundleEntry>, n: nat,
                      filesNow: map<Path, bytes>, dirsNow: set<Path>, force: bool)
    requires PathsValid(entries) && n < |entries|
    requires Unobstructed(files, dirs, outDir, entries, force)
    requires Progress(files, dirs, outDir, entries, n, filesNow, dirsNow)
    ensures !Obstructed(filesNow, dirsNow, outDir, entries[n], force)
  {
    hide ValidateRelativePath, EndsInName;
    AcceptedPaths(entries[n].relativePath);
    var names := NamesOf(entries[n]);
    forall j, k | 0 <= j < n && 0 < k <= |names|
      ensures outDir + names[..k] == Target(outDir, entries[j]) ==> k == |names| && force
      ensures !(outDir + names < Target(outDir, entries[j]))
    {
      var other := NamesOf(entries[j]);
      BelowSame(outDir, names[..k], other);
      BelowSame(outDir, names, other);
      assert !(other < names) && !(names < other) && (force || other != names);
    }
    assert forall k :: 0 < k <= |names| ==> outDir < outDir + names[..k];
    assert names[..|names|] == names;
  }

  lemma BelowSame(base: Path, a: Path, b: Path)
    ensures base + a <= base + b <==> a <= b
    ensures base + a == base + b <==> a == b
  {
    assert (base + a)[|base|..] == a && (base + b)[|base|..] == b;
    if base + a <= base + b {
      assert (base + b)[..|base + a|] == base + a;
      assert b[..|a|] == (base + b)[..|base + a|][|base|..] == a;
    }
  }

  lemma ProgressStep(files: map<Path, bytes>, dirs: set<Path>, outDir: Path, entries: seq<BundleEntry>, n: nat,
                     filesNow: map<Path, bytes>, dirsNow: set<Path>, filesNext: map<Path, bytes>, dirsNext: set<Path>)
    requires PathsValid(entries) && n < |entries|
    requires Progress(files, dirs, outDir, entries, n, filesNow, dirsNow)
    requires filesNext.Keys == filesNow.Keys + {Target(outDir, entries[n])} && dirsNow <= dirsNext
    requires forall d :: d in dirsNext && d !in dirsNow ==> outDir < d < Target(outDir, entries[n])
    ensures Progress(files, dirs, outDir, entries, n + 1, filesNext, dirsNext)
  {
    hide Target;
    forall p | p in filesNext ensures p in files || exists k :: 0 <= k < n + 1 && p == Target(outDir, entries[k]) {
      if p in filesNow && p !in files {
        var k :| 0 <= k < n && p == Target(outDir, entries[k]);
        assert p == Target(outDir, entries[k]);
      } else if p !in files {
        assert p == Target(outDir, entries[n]);
      }
    }
    forall d | d in dirsNext
      ensures d in dirs || d <= outDir || exists k :: 0 <= k < n + 1 && outDir < d < Target(outDir, entries[k])
    {
      if d in dirsNow && d !in dirs && !(d <= outDir) {
        var k :| 0 <= k < n && outDir < d < Target(outDir, entries[k]);
        assert outDir < d < Target(outDir, entries[k]);
      } else if d !in dirsNow {
        assert outDir < d < Target(outDir, entries[n]);
      }
    }
  }

  lemma ProgressStart(files: map<Path, bytes>, dirs: set<Path>, outDir: Path, entries: seq<BundleEntry>)
    requires PathsValid(entries) && outDir in dirs
    ensures Progress(files, dirs, outDir, entries, 0, files, dirs)
  {
  }

  lemma NothingExtracted(files: map<Path, bytes>, outDir: Path, payload: bytes, dataStart: nat,
                         entries: seq<BundleEntry>, force: bool)
    requires PathsValid(entries) && EntriesInside(entries, dataStart, |payload|)
    ensures Extracted(files, files, outDir, payload, dataStart, entries, 0, force)
  {
  }

  /** All levels above the first n targets are directories. */
  ghost predicate Paved(dirs: set<Path>, outDir: Path, entries: seq<BundleEntry>, n: nat)
    requires PathsValid(entries)
  {
    n <= |entries| && forall j, k :: 0 <= j < n && 0 <= k < |NamesOf(entries[j])| ==>
      outDir + NamesOf(entries[j])[..k] in dirs
  }

  /** A finished extraction into a tidy file system shows that no output was a
      directory on the way to another, and without `force` none another's target. */
  lemma CompletedIsCompatible(before: map<Path, bytes>, after: map<Path, bytes>, dirs: set<Path>, outDir: Path,
                              payload: bytes, dataStart: nat, entries: seq<BundleEntry>, force: bool)
    requires PathsValid(entries) && EntriesInside(entries, dataStart, |payload|)
    requires Extracted(before, after, outDir, payload, dataStart, entries, |entries|, force)
    requires Paved(dirs, outDir, entries, |entries|) && AllEndInName(entries, |entries|) && after.Keys !! dirs
    ensures Compatible(entries, force)
  {
    hide ValidateRelativePath, EntryBytes, Overlay, LastOf, EndsInName;
    forall j, k | 0 <= j < |entries| && 0 <= k < |entries| && j != k
      ensures !(NamesOf(entries[j]) < NamesOf(entries[k])) && (force || NamesOf(entries[j]) != NamesOf(entries[k]))
    {
      OutputKept(before, outDir, payload, dataStart, entries, |entries|, force, j);
      var a, b := NamesOf(entries[j]), NamesOf(entries[k]);
      if !force {
        SameTargetTwice(before, outDir, payload, dataStart, entries, if j < k then j else k, if j < k then k else j);
      }
      assert Target(outDir, entries[j]) == outDir + a && outDir + a !in dirs;
      assert |a| < |b| ==> outDir + b[..|a|] in dirs;
      NotOnTheWay(a, b);
    }
  }

  lemma NotOnTheWay(a: Path, b: Path)
    requires |a| < |b| ==> a != b[..|a|]
    ensures !(a < b)
  {
  }

  lemma SameTargetTwice(before: map<Path, bytes>, outDir: Path, payload: bytes, dataStart: nat,
                        entries: seq<BundleEntry>, j: nat, k: nat)
    requires PathsValid(entries) && EntriesInside(entries, dataStart, |payload|) && j < k < |entries|
    requires forall i :: 0 <= i < |entries| ==>
      Target(outDir, entries[i]) !in Overlay(before, outDir, payload, dataStart, entries, i)
    ensures NamesOf(entries[j]) != NamesOf(entries[k])
  {
    hide ValidateRelativePath, EntryBytes, Overlay;
    OutputKept(before, outDir, payload, dataStart, entries, k, false, j);
  }

  /** The outputs, one after the other. */
  method ExtractEntries(lower: bytes -> bytes, fs: FileSystem, bundle: DecryptedBundle, outDir: Path, force: bool)
    returns (r: Result<(), BundleError>, ghost done: nat)
    requires bundle.Valid(lower) && PathsValid(bundle.manifest.entries) && outDir in fs.dirs
    requires |bundle.file.content| <= U64_MAX && (bundle.file.faulty ==> fs.faulty)
    modifies fs`files, fs`dirs, bundle.file`rest
    ensures Extracted(old(fs.files), fs.files, outDir, bundle.file.content, bundle.dataStart, bundle.manifest.entries,
      done, force)
    ensures r.Ok? ==> done == |bundle.manifest.entries|
    ensures Paved(fs.dirs, outDir, bundle.manifest.entries, done) && AllEndInName(bundle.manifest.entries, done)
    ensures old(fs.Tidy()) ==> fs.Tidy()
    ensures r.Err? ==> fs.faulty || exists n, filesNow, dirsNow | 0 <= n < |bundle.manifest.entries| ::
      && Progress(old(fs.files), old(fs.dirs), outDir, bundle.manifest.entries, n, filesNow, dirsNow)
      && Obstructed(filesNow, dirsNow, outDir, bundle.manifest.entries[n], force)
  {
    hide Target, OpenPayload, ValidateRelativePath, EntryBytes, Obstructed, Extracted, Progress, EndsInName;
    var entries := bundle.manifest.entries;
    done := 0;
    NothingExtracted(fs.files, outDir, bundle.file.content, bundle.dataStart, entries, force);
    ProgressStart(fs.files, fs.dirs, outDir, entries);
    for k := 0 to |entries|
      invariant done == k
      invariant Extracted(old(fs.files), fs.files, outDir, bundle.file.content, bundle.dataStart, entries, k, force)
      invariant Progress(old(fs.files), old(fs.dirs), outDir, entries, k, fs.files, fs.dirs)
      invariant Paved(fs.dirs, outDir, entries, k) && AllEndInName(entries, k)
      invariant old(fs.Tidy()) ==> fs.Tidy()
    {
      ghost var filesNow, dirsNow := fs.files, fs.dirs;
      var extracted := ExtractEntry(fs, bundle.file, bundle.dataStart, outDir, entries[k], force);
      if extracted.Err? {
        r := Err(extracted.error);
        assert fs.faulty || Obstructed(filesNow, dirsNow, outDir, entries[k], force);
        return;
      }
      ExtractedStep(old(fs.files), filesNow, outDir, bundle.file.content, bundle.dataStart, entries, k, force);
      ProgressStep(old(fs.files), old(fs.dirs), outDir, entries, k, filesNow, dirsNow, fs.files, fs.dirs);
      done := k + 1;
    }
    r := Ok(());
  }

  /** The outcome on a bundle that opens, with every file verified. */
  ghost predicate AuthenticOutcome(crypto: Crypto, lower: bytes -> bytes, data: bytes, password: bytes,
                                   before: map<Path, bytes>, after: map<Path, bytes>, outDir: Path, n: nat,
                                   force: bool) {
    var opening := OpenBundle(crypto, lower, data, password);
    && opening.Some?
    && AllVerify(crypto, opening.value.0, opening.value.1, opening.value.2)
    && Extracted(before, after, outDir, opening.value.0, opening.value.2, opening.value.1.entries, n, force)
  }

  ghost predicate Extractable(crypto: Crypto, lower: bytes -> bytes, data: bytes, password: bytes,
                              files: map<Path, bytes>, dirs: set<Path>, outDir: Path, force: bool) {
    var opening := OpenBundle(crypto, lower, data, password);
    && opening.Some?
    && AllVerify(crypto, opening.value.0, opening.value.1, opening.value.2)
    && Unobstructed(files, dirs, outDir, opening.value.1.entries, force)
  }

  lemma DirectoriesUnobstructed(files: map<Path, bytes>, dirs: set<Path>, dirsNow: set<Path>, outDir: Path,
                                entries: seq<BundleEntry>, force: bool)
    requires PathsValid(entries) && Unobstructed(files, dirs, outDir, entries, force)
    requires dirs <= dirsNow && forall d :: d in dirsNow && d !in dirs ==> [] < d <= [] + outDir
    ensures Unobstructed(files, dirsNow, outDir, entries, force)
  {
    assert [] + outDir == outDir;
  }

  lemma CreatableWhenUnobstructed(files: map<Path, bytes>, dirs: set<Path>, outDir: Path, entries: seq<BundleEntry>,
                                  force: bool)
    requires PathsValid(entries) && Unobstructed(files, dirs, outDir, entries, force)
    ensures [] in dirs && forall k :: 0 < k <= |outDir| ==> [] + outDir[..k] !in files
  {
    forall k | 0 < k <= |outDir| ensures [] + outDir[..k] !in files {
      assert [] + outDir[..k] <= outDir;
    }
  }

  /** `extract_bundle`. Nothing is written unless the bundle opens and every file of
      it verifies; at any exit, also a failing one, the files are as after some
      number of complete outputs; and where nothing is in the way and no device
      fails, all outputs are there. */
  method ExtractBundle(crypto: Crypto, lower: bytes -> bytes, fs: FileSystem, inFile: Path, outDir: Path,
                       password: bytes, force: bool, dryRun: bool)
    returns (r: Result<BundleManifest, BundleError>, ghost done: nat)
    requires crypto.Lawful()
    modifies fs`files, fs`dirs
    ensures fs.files != old(fs.files) || r.Ok? ==>
      && inFile in old(fs.files)
      && AuthenticOutcome(crypto, lower, old(fs.files)[inFile], password, old(fs.files), fs.files, outDir, done, force)
    ensures r.Ok? ==>
      && r.value == OpenBundle(crypto, lower, old(fs.files)[inFile], password).value.1
      && done == if dryRun then 0 else |r.value.entries|
    ensures r.Ok? && !dryRun && old(fs.Tidy()) ==> Compatible(r.value.entries, force)
    ensures r.Err? && inFile in old(fs.files) ==>
      fs.faulty || !Extractable(crypto, lower, old(fs.files)[inFile], password, old(fs.files), old(fs.dirs), outDir,
        force)
  {
    hide OpenBundle, AllVerify, OpenPayload, Extracted, Unobstructed, Obstructed, ValidateRelativePath;
    ghost var files, dirs := fs.files, fs.dirs;
    done := 0;
    var opening := DecryptAndOpen(crypto, lower, fs, inFile, password);
    if opening.Err? { r := Err(opening.error); return; }
    var bundle := opening.value;
    var verified := VerifyAll(crypto, lower, bundle);
    if verified.Err? { r := Err(verified.error); return; }
    ghost var entries := bundle.manifest.entries;
    NothingExtracted(files, outDir, bundle.file.content, bundle.dataStart, entries, force);
    if dryRun { r := Ok(bundle.manifest); return; }
    var created := EnsureDirectories(fs, [], outDir);
    if created.Err? {
      if Unobstructed(files, dirs, outDir, entries, force) {
        CreatableWhenUnobstructed(files, dirs, outDir, entries, force);
      }
      r := Err(created.error);
      return;
    }
    assert [] + outDir[..|outDir|] == outDir;
    ghost var dirsThen := fs.dirs;
    if Unobstructed(files, dirs, outDir, entries, force) {
      DirectoriesUnobstructed(files, dirs, dirsThen, outDir, entries, force);
    }
    var extracted;
    extracted, done := ExtractEntries(lower, fs, bundle, outDir, force);
    if extracted.Err? {
      r := Err(extracted.error);
      if !fs.faulty && Unobstructed(files, dirs, outDir, entries, force) {
        var n, filesNow, dirsNow :| 0 <= n < |entries|
          && Progress(files, dirsThen, outDir, entries, n, filesNow, dirsNow)
          && Obstructed(filesNow, dirsNow, outDir, entries[n], force);
        NotObstructed(files, dirsThen, outDir, entries, n, filesNow, dirsNow, force);
      }
      return;
    }
    if old(fs.Tidy()) {
      CompletedIsCompatible(files, fs.files, fs.dirs, outDir, bundle.file.content, bundle.dataStart, entries, force);
    }
    r := Ok(bundle.manifest);
  }

  // ---- Safety of every run ----

  lemma {:induction false} OverlayFiles(before: map<Path, bytes>, outDir: Path, payload: bytes, dataStart: nat,
                                        entries: seq<BundleEntry>, n: nat, p: Path)
    requires PathsValid(entries) && EntriesInside(entries, dataStart, |payload|) && n <= |entries|
    ensures var after := Overlay(before, outDir, payload, dataStart, entries, n);
      && (p in after <==> p in before || exists k :: 0 <= k < n && p == Target(outDir, entries[k]))
      && (p in after ==>
            || (p in before && after[p] == before[p])
            || exists k :: 0 <= k < n && p == Target(outDir, entries[k]) &&
                 after[p] == EntryBytes(payload, dataStart, entries[k]))
  {
    hide Target, EntryBytes, Overlay, ValidateRelativePath;
    if n == 0 {
      OverlayNothing(before, outDir, payload, dataStart, entries);
    } else {
      OverlayFiles(before, outDir, payload, dataStart, entries, n - 1, p);
      OverlayStep(before, outDir, payload, dataStart, entries, n - 1);
      assert p == Target(outDir, entries[n - 1]) ==> 0 <= n - 1 < n && p == Target(outDir, entries[n - 1]);
    }
  }

  /** Whenever extraction stops: no file is lost, every file that appeared or
      changed holds the complete bytes of a file of the bundle under its name, and
      without `force` no file that was there changed. */
  lemma ExtractionSafety(before: map<Path, bytes>, after: map<Path, bytes>, outDir: Path, payload: bytes,
                         dataStart: nat, entries: seq<BundleEntry>, n: nat, force: bool, p: Path)
    requires PathsValid(entries) && EntriesInside(entries, dataStart, |payload|)
    requires Extracted(before, after, outDir, payload, dataStart, entries, n, force)
    ensures p in before ==> p in after
    ensures p in after && (p in before ==> after[p] != before[p]) ==>
      exists k :: 0 <= k < n && p == Target(outDir, entries[k]) &&
        after[p] == EntryBytes(payload, dataStart, entries[k])
    ensures !force && p in before ==> after[p] == before[p]
  {
    hide Target, EntryBytes;
    OverlayFiles(before, outDir, payload, dataStart, entries, n, p);
    if !force && p in before {
      OldFilesKept(before, outDir, payload, dataStart, entries, n, p);
    }
  }

  lemma {:induction false} OldFilesKept(before: map<Path, bytes>, outDir: Path, payload: bytes, dataStart: nat,
                                        entries: seq<BundleEntry>, n: nat, p: Path)
    requires PathsValid(entries) && EntriesInside(entries, dataStart, |payload|) && n <= |entries| && p in before
    requires forall k :: 0 <= k < n ==>
      Target(outDir, entries[k]) !in Overlay(before, outDir, payload, dataStart, entries, k)
    ensures p in Overlay(before, outDir, payload, dataStart, entries, n)
    ensures Overlay(before, outDir, payload, dataStart, entries, n)[p] == before[p]
  {
    hide Target, EntryBytes, Overlay, PathsValid, EntriesInside;
    if n == 0 {
      OverlayNothing(before, outDir, payload, dataStart, entries);
    } else {
      OldFilesKept(before, outDir, payload, dataStart, entries, n - 1, p);
      OverlayStep(before, outDir, payload, dataStart, entries, n - 1);
    }
  }

  // ---- Outputs that share a target ----

  /** The last of the first n entries with the given target. */
  function LastOf(outDir: Path, entries: seq<BundleEntry>, n: nat, target: Path): (r: nat)
    requires 0 < n <= |entries| && PathsValid(entries)
    ensures r < n
  {
    if n == 1 || Target(outDir, entries[n - 1]) == target then n - 1 else LastOf(outDir, entries, n - 1, target)
  }

  /** Every target holds the bytes of the last entry that has it. */
  lemma {:induction false} LastOutputStays(before: map<Path, bytes>, outDir: Path, payload: bytes, dataStart: nat,
                                           entries: seq<BundleEntry>, n: nat, k: nat)
    requires PathsValid(entries) && EntriesInside(entries, dataStart, |payload|) && k < n <= |entries|
    ensures var (target, after) :=
      (Target(outDir, entries[k]), Overlay(before, outDir, payload, dataStart, entries, n));
      var last := LastOf(outDir, entries, n, target);
      && k <= last && Target(outDir, entries[last]) == target
      && target in after && after[target] == EntryBytes(payload, dataStart, entries[last])
    decreases n
  {
    hide Target, EntryBytes, Overlay, ValidateRelativePath;
    OverlayStep(before, outDir, payload, dataStart, entries, n - 1);
    if k < n - 1 { LastOutputStays(before, outDir, payload, dataStart, entries, n - 1, k); }
  }

  /** Output k, once written, keeps its bytes exactly if the last entry with its target
      has the same; so always without `force`. */
  lemma OutputKept(before: map<Path, bytes>, outDir: Path, payload: bytes, dataStart: nat, entries: seq<BundleEntry>,
                   n: nat, force: bool, k: nat)
    requires PathsValid(entries) && EntriesInside(entries, dataStart, |payload|) && k < n <= |entries|
    requires Extracted(before, Overlay(before, outDir, payload, dataStart, entries, n), outDir, payload, dataStart,
      entries, n, force)
    ensures var (target, after) :=
      (Target(outDir, entries[k]), Overlay(before, outDir, payload, dataStart, entries, n));
      var last := LastOf(outDir, entries, n, target);
      && target in after
      && (after[target] == EntryBytes(payload, dataStart, entries[k]) <==>
            EntryBytes(payload, dataStart, entries[last]) == EntryBytes(payload, dataStart, entries[k]))
      && (!force ==> last == k)
  {
    hide Target, EntryBytes, Overlay, EntriesInside, ValidateRelativePath;
    LastOutputStays(before, outDir, payload, dataStart, entries, n, k);
    var last := LastOf(outDir, entries, n, Target(outDir, entries[k]));
    if !force && k < last {
      LastOutputStays(before, outDir, payload, dataStart, entries, last, k);
    }
  }

  /** Every one of the first n targets holds its entry's bytes. */
  ghost predicate AllKept(after: map<Path, bytes>, outDir: Path, payload: bytes, dataStart: nat,
                          entries: seq<BundleEntry>, n: nat)
    requires PathsValid(entries) && EntriesInside(entries, dataStart, |payload|) && n <= |entries|
  {
    forall k :: 0 <= k < n ==>
      Target(outDir, entries[k]) in after &&
        after[Target(outDir, entries[k])] == EntryBytes(payload, dataStart, entries[k])
  }

  /** Entries with one target have the same bytes. */
  ghost predicate SharingAgrees(outDir: Path, payload: bytes, dataStart: nat, entries: seq<BundleEntry>, n: nat)
    requires PathsValid(entries) && EntriesInside(entries, dataStart, |payload|) && n <= |entries|
  {
    forall j, k :: 0 <= j < k < n && Target(outDir, entries[j]) == Target(outDir, entries[k]) ==>
      EntryBytes(payload, dataStart, entries[j]) == EntryBytes(payload, dataStart, entries[k])
  }

  /** No file is lost among the outputs exactly if those that share a target agree. */
  lemma {:induction false} AllKeptIff(before: map<Path, bytes>, outDir: Path, payload: bytes, dataStart: nat,
                                      entries: seq<BundleEntry>, n: nat)
    requires PathsValid(entries) && EntriesInside(entries, dataStart, |payload|) && n <= |entries|
    ensures AllKept(Overlay(before, outDir, payload, dataStart, entries, n), outDir, payload, dataStart, entries, n)
       <==> SharingAgrees(outDir, payload, dataStart, entries, n)
  {
    hide Target, EntryBytes, Overlay, ValidateRelativePath;
    forall k | 0 <= k < n
      ensures var (target, after) :=
        (Target(outDir, entries[k]), Overlay(before, outDir, payload, dataStart, entries, n));
        var last := LastOf(outDir, entries, n, target);
        && k <= last && Target(outDir, entries[last]) == target
        && target in after && after[target] == EntryBytes(payload, dataStart, entries[last])
    {
      LastOutputStays(before, outDir, payload, dataStart, entries, n, k);
    }
  }

  /** What can be checked on the manifest: canonical paths that differ, in whatever way
      case is folded, have different targets. */
  lemma CanonicalTargetsDiffer(lower: bytes -> bytes, outDir: Path, entries: seq<BundleEntry>, j: nat, k: nat)
    requires PathsValid(entries) && PathsDistinct(lower, entries) && j < k < |entries|
    requires Canonical(entries[j].relativePath) && Canonical(entries[k].relativePath)
    ensures Target(outDir, entries[j]) != Target(outDir, entries[k])
  {
    hide ValidateRelativePath, Canonical;
    CanonicalDistinct(entries[j].relativePath, entries[k].relativePath);
    BelowSame(outDir, NamesOf(entries[j]), NamesOf(entries[k]));
  }
}
