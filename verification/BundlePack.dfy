/** Packing a directory: sources are hashed, listed, copied with bounded buffers,
    padded, and the result is encrypted as a capsule. */
module BundlePack {
  import opened Bytes
  import opened BundleFormat
  import opened BundlePaths
  import opened Errors
  import opened FileCrypto
  import opened FileOps
  import opened Files
  import opened Io
  import opened Policy
  import opened Primitives
  import opened Protocol
  import Sorting

  const COPY_BUFFER: nat := 64 * 1024

  datatype SourceFile = SourceFile(relativePath: Str, absolutePath: Path, size: u64, blake3Hash: b32)

  /** One component of a real path. */
  type Name = s: Str | s != [] && s != CURRENT && s != PARENT && SLASH !in s witness OneLetter()

  function OneLetter(): Str {
    AsciiIsUtf8([97]);
    [97]
  }

  /** The components, joined with slashes. */
  function JoinNames(names: seq<Name>): Str {
    if names == [] then []
    else
      JoinIsUtf8(names);
      Join(names)
  }

  lemma {:induction false} JoinIsUtf8(names: seq<Name>)
    requires names != []
    ensures IsUtf8(Join(names))
  {
    if |names| > 1 {
      JoinIsUtf8(names[1..]);
      AsciiIsUtf8([SLASH]);
      Utf8Append(names[0], [SLASH]);
      Utf8Append(names[0] + [SLASH], Join(names[1..]));
    }
  }

  /** What the directory walk yields for one file: the components of its path below
      the packed directory, and where it is. */
  datatype Walked = Walked(names: seq<Name>, absolutePath: Path) {
    const relativePath: Str := JoinNames(names)
  }

  lemma {:induction false} NamesInJoin(names: seq<Name>, k: nat, b: byte)
    requires k < |names| && b in names[k]
    ensures b in Join(names)
  {
    if k > 0 { NamesInJoin(names[1..], k - 1, b); }
  }

  /** Walked paths are canonical, and validation finds their components again. */
  lemma WalkedPath(w: Walked)
    requires ValidPath(w.relativePath)
    ensures ValidateRelativePath(w.relativePath) == Ok(w.names) && Canonical(w.relativePath)
  {
    hide Join, Canonical, Components;
    var names := w.names;
    forall k | 0 <= k < |names| ensures PlainName(names[k]) {
      if BACKSLASH in names[k] { NamesInJoin(names, k, BACKSLASH); }
    }
    CanonicalRoundTrip(names);
    CanonicalIff(w.relativePath);
  }

  // ---- Hashing ----

  /** The hash of exactly the next `expectedLen` bytes, whatever the read sizes. */
  method HashReader(crypto: Crypto, reader: Reader, expectedLen: u64) returns (r: Result<b32, BundleError>)
    modifies reader`rest
    ensures r.Ok? ==>
      && expectedLen <= |old(reader.rest)| && r.value == crypto.blake3(old(reader.rest)[..expectedLen])
      && reader.rest == old(reader.rest)[expectedLen..]
    ensures r.Err? ==>
      || (r.error == BundleError.Io && reader.faulty)
      || (r.error == ManifestError && |old(reader.rest)| < expectedLen)
  {
    var remaining: int := expectedLen;
    var buffer := new byte[COPY_BUFFER](_ => 0);
    var hashed: bytes := [];
    while remaining > 0
      invariant 0 <= remaining <= expectedLen && expectedLen - remaining <= |old(reader.rest)|
      invariant hashed == old(reader.rest)[..expectedLen - remaining]
      invariant reader.rest == old(reader.rest)[expectedLen - remaining..]
    {
      var requested := Min(remaining, COPY_BUFFER);
      var read := reader.Read(buffer, 0, requested);
      if read.Err? { return Err(BundleError.Io); }
      if read.value == 0 { return Err(ManifestError); }
      hashed := hashed + buffer[..read.value];
      remaining := remaining - read.value;
    }
    r := Ok(crypto.blake3(hashed));
  }

  /** Nothing may be left after the size the file had when it was opened. */
  method HashFile(crypto: Crypto, fs: FileSystem, path: Path) returns (r: Result<(u64, b32), BundleError>)
    requires path in fs.files ==> |fs.files[path]| <= U64_MAX  // file lengths are u64
    ensures r.Ok? ==> path in fs.files && r.value == (|fs.files[path]|, crypto.blake3(fs.files[path]))
    ensures r.Err? ==> r.error in {BundleError.Io, ManifestError} && (fs.faulty || path !in fs.files)
  {
    var content := fs.ReadFile(path);
    if content.Err? { return Err(BundleError.Io); }
    var file := new Reader(content.value, fs.faulty);
    var size := |content.value|;
    var hash :- HashReader(crypto, file, size);
    var trailing := new byte[1](_ => 0);
    var read := file.Read(trailing, 0, 1);
    if read.Err? { return Err(BundleError.Io); }
    if read.value != 0 { return Err(ManifestError); }
    assert content.value[..size] == content.value;
    r := Ok((size, hash));
  }

  // ---- Collecting ----

  ghost predicate Described(crypto: Crypto, files: map<Path, bytes>, w: Walked, s: SourceFile) {
    && ValidPath(w.relativePath) && s.relativePath == w.relativePath && s.absolutePath == w.absolutePath
    && w.absolutePath in files && s.size == |files[w.absolutePath]| &&
         s.blake3Hash == crypto.blake3(files[w.absolutePath])
  }

  ghost predicate AllDescribed(crypto: Crypto, files: map<Path, bytes>, walked: seq<Walked>, sources: seq<SourceFile>) {
    |sources| == |walked| && forall k :: 0 <= k < |walked| ==> Described(crypto, files, walked[k], sources[k])
  }

  predicate FilesFit(files: map<Path, bytes>) {
    forall p :: p in files ==> |files[p]| <= U64_MAX
  }

  function PathOrder(): (Walked, Walked) -> bool {
    Sorting.ByKey((w: Walked) => w.relativePath)
  }

  /** A file of the walk has an invalid path or is not there. */
  ghost predicate Unreadable(files: map<Path, bytes>, walked: seq<Walked>) {
    exists w :: w in walked && !(ValidPath(w.relativePath) && w.absolutePath in files)
  }

  /** The files of the walk in path order, each with its size and hash. */
  method CollectSources(crypto: Crypto, fs: FileSystem, walked: seq<Walked>)
    returns (r: Result<seq<SourceFile>, BundleError>, ghost sorted: seq<Walked>)
    requires FilesFit(fs.files)
    ensures r.Ok? ==>
      && multiset(sorted) == multiset(walked) && Sorting.Sorted(PathOrder(), sorted)
      && AllDescribed(crypto, fs.files, sorted, r.value)
    ensures r.Err? ==> r.error in {BundleError.Io, ManifestError, PathTraversal}
    ensures r.Err? ==> fs.faulty || Unreadable(fs.files, walked)
  {
    hide Sorting.Sorted, Sorting.ByKey, ValidateRelativePath, JoinNames;
    for k := 0 to |walked|
      invariant forall j :: 0 <= j < k ==> ValidPath(walked[j].relativePath)
    {
      if !ValidPath(walked[k].relativePath) { r, sorted := Err(PathTraversal), []; return; }
    }
    Sorting.ByKeyIsPreorder((w: Walked) => w.relativePath);
    var paths := Sorting.Sort(PathOrder(), walked);
    sorted := paths;
    forall k | 0 <= k < |paths| ensures paths[k] in walked { assert paths[k] in multiset(paths); }
    var sources: seq<SourceFile> := [];
    for k := 0 to |paths|
      invariant AllDescribed(crypto, fs.files, paths[..k], sources)
    {
      assert paths[..k + 1] == paths[..k] + [paths[k]];
      var hashed := HashFile(crypto, fs, paths[k].absolutePath);
      if hashed.Err? { r := Err(hashed.error); return; }
      sources := sources + [SourceFile(paths[k].relativePath, paths[k].absolutePath, hashed.value.0, hashed.value.1)];
    }
    assert paths[..|paths|] == paths;
    r := Ok(sources);
  }

  // ---- The manifest ----

  /** The files as the bundle format sees them. */
  function SourcesAt(files: map<Path, bytes>, walked: seq<Walked>): (r: seq<Source>)
    requires forall k :: 0 <= k < |walked| ==> walked[k].absolutePath in files
    ensures |r| == |walked|
  {
    seq(|walked|, k requires 0 <= k < |walked| => Source(walked[k].relativePath, files[walked[k].absolutePath]))
  }

  /** Offsets are prefix sums; the one failure is a u64 overflow of the sizes. */
  method BuildManifest(crypto: Crypto, sources: seq<SourceFile>, createdAt: Option<Str>, toolVersion: Option<Str>,
                       ghost files: map<Path, bytes>, ghost walked: seq<Walked>)
    returns (r: Result<BundleManifest, BundleError>)
    requires AllDescribed(crypto, files, walked, sources)
    ensures r == match ManifestOf(crypto, SourcesAt(files, walked), createdAt, toolVersion)
      case Some(m) => Ok(m)
      case None => Err(ManifestError)
  {
    hide EntriesFrom, TotalSize, JoinNames, ValidateRelativePath;
    var offset: u64 := 0;
    var entries: seq<BundleEntry> := [];
    ghost var all := SourcesAt(files, walked);
    assert all[0..] == all;
    for k := 0 to |sources|
      invariant |entries| == k
      invariant offset + TotalSize(all[k..]) == TotalSize(all)
      invariant TotalSize(all) <= U64_MAX ==>
        entries + EntriesFrom(crypto, all[k..], offset) == EntriesFrom(crypto, all, 0)
    {
      var source := sources[k];
      assert Described(crypto, files, walked[k], source);
      ManifestStep(crypto, all, k, offset);
      var entry := BundleEntry(source.relativePath, source.size, source.blake3Hash, offset);
      entries := entries + [entry];
      if offset + source.size > U64_MAX { return Err(ManifestError); }
      offset := offset + source.size;
      if TotalSize(all) <= U64_MAX {
        AppendFirst(entries[..k], entry, EntriesFrom(crypto, all[k + 1..], offset));
        assert entries[..k] + [entry] == entries;
      }
    }
    ManifestEnd(crypto, all[|sources|..], offset);
    r := Ok(BundleManifest(entries, createdAt, toolVersion));
  }

  lemma ManifestStep(crypto: Crypto, all: seq<Source>, k: nat, offset: nat)
    requires k < |all|
    ensures TotalSize(all[k..]) == |all[k].content| + TotalSize(all[k + 1..])
    ensures offset + TotalSize(all[k..]) <= U64_MAX ==>
      EntriesFrom(crypto, all[k..], offset)
        == [BundleEntry(all[k].path, |all[k].content|, crypto.blake3(all[k].content), offset)]
           + EntriesFrom(crypto, all[k + 1..], offset + |all[k].content|)
  {
    assert all[k..][0] == all[k] && all[k..][1..] == all[k + 1..];
  }

  lemma ManifestEnd(crypto: Crypto, none: seq<Source>, offset: u64)
    requires none == []
    ensures TotalSize(none) == 0 &&
      forall entries: seq<BundleEntry> :: entries + EntriesFrom(crypto, none, offset) == entries
  {
  }

  lemma AppendFirst<T>(a: seq<T>, x: T, b: seq<T>)
    ensures a + ([x] + b) == (a + [x]) + b
  {
  }

  // ---- Copying ----

  lemma CopiedOn(before: bytes, copied: bytes, more: bytes, all: bytes)
    requires copied + more == all
    ensures before + copied + more == before + all
  {
  }

  /** Copying some of what is due leaves written and due bytes together the same. */
  lemma MovesOver(written: bytes, rest: bytes, remaining: nat, n: nat)
    requires n <= remaining <= |rest|
    ensures (written + rest[..n]) + rest[n..][..remaining - n] == written + rest[..remaining]
  {
    assert rest[..n] + rest[n..][..remaining - n] == rest[..remaining];
  }

  /** The file, copied, provided it still is what was hashed. */
  method CopySourceChecked(crypto: Crypto, fs: FileSystem, source: SourceFile, output: Writer)
    returns (r: Result<(), BundleError>)
    modifies output`written
    ensures r.Ok? ==>
      && source.absolutePath in fs.files
      && source.size == |fs.files[source.absolutePath]| &&
           source.blake3Hash == crypto.blake3(fs.files[source.absolutePath])
      && output.written == old(output.written) + fs.files[source.absolutePath]
    ensures r.Err? ==> r.error in {BundleError.Io, ManifestError}
    ensures r.Err? ==>
      || fs.faulty || output.faulty || source.absolutePath !in fs.files
      || source.size != |fs.files[source.absolutePath]| ||
           source.blake3Hash != crypto.blake3(fs.files[source.absolutePath])
  {
    var content := fs.ReadFile(source.absolutePath);
    if content.Err? { return Err(BundleError.Io); }
    ghost var whole := content.value;
    if |content.value| != source.size { return Err(ManifestError); }
    var input := new Reader(content.value, fs.faulty);
    var remaining: int := source.size;
    var buffer := new byte[COPY_BUFFER](_ => 0);
    var hashed: bytes := [];
    while remaining > 0
      invariant 0 <= remaining <= source.size
      invariant hashed == whole[..source.size - remaining]
      invariant input.rest == whole[source.size - remaining..]
      invariant output.written == old(output.written) + hashed
    {
      var requested := Min(remaining, COPY_BUFFER);
      var read := input.Read(buffer, 0, requested);
      if read.Err? { return Err(BundleError.Io); }
      if read.value == 0 { return Err(ManifestError); }
      ghost var copied := hashed;
      hashed := hashed + buffer[..read.value];
      var written := output.WriteAll(buffer[..read.value]);
      if written.Err? { return Err(BundleError.Io); }
      CopiedOn(old(output.written), copied, buffer[..read.value], hashed);
      remaining := remaining - read.value;
    }
    assert whole[..source.size] == whole;
    var trailing := new byte[1](_ => 0);
    var extra := input.Read(trailing, 0, 1);
    if extra.Err? { return Err(BundleError.Io); }
    if extra.value != 0 || crypto.blake3(hashed) != source.blake3Hash { return Err(ManifestError); }
    r := Ok(());
  }

  method WriteZeroPadding(output: Writer, count: u64) returns (r: Result<(), BundleError>)
    modifies output`written
    ensures r.Ok? ==> output.written == old(output.written) + Zeroes(count)
    ensures r.Err? ==> r.error == BundleError.Io && output.faulty
  {
    var zeroes := new byte[COPY_BUFFER](_ => 0);
    var left: int := count;
    while left > 0
      invariant 0 <= left <= count
      invariant zeroes[..] == Zeroes(COPY_BUFFER)
      invariant output.written == old(output.written) + Zeroes(count - left)
    {
      var n := Min(left, COPY_BUFFER);
      var written := output.WriteAll(zeroes[..n]);
      if written.Err? { return Err(BundleError.Io); }
      assert zeroes[..n] == zeroes[..][..n] == Zeroes(n);
      assert Zeroes(count - left) + Zeroes(n) == Zeroes(count - left + n);
      assert old(output.written) + Zeroes(count - left) + zeroes[..n] ==
        old(output.written) + (Zeroes(count - left) + zeroes[..n]);
      left := left - n;
    }
    r := Ok(());
  }

  lemma {:induction false} ContentsSnoc(all: seq<Source>, k: nat)
    requires k < |all|
    ensures Contents(all[..k + 1]) == Contents(all[..k]) + all[k].content
    decreases k
  {
    hide Contents;
    ContentsFirst(all[..k + 1]);
    if k == 0 {
      NoContents();
      assert all[..1][1..] == [] && all[..0] == [];
    } else {
      ContentsFirst(all[..k]);
      ContentsSnoc(all[1..], k - 1);
      assert all[..k + 1][1..] == all[1..][..k] && all[..k][1..] == all[1..][..k - 1];
    }
  }

  lemma ContentsFirst(all: seq<Source>)
    requires all != []
    ensures Contents(all) == all[0].content + Contents(all[1..])
  {
  }

  /** The unpadded payload: manifest length, manifest, then every file's content. */
  method WriteUnpadded(crypto: Crypto, fs: FileSystem, sources: seq<SourceFile>, ghost walked: seq<Walked>,
                       encoded: bytes, output: Writer)
    returns (r: Result<(), BundleError>)
    requires AllDescribed(crypto, fs.files, walked, sources) && output.written == []
    modifies output`written
    ensures r.Ok? ==> output.written == Le(|encoded|, 4) + encoded + Contents(SourcesAt(fs.files, walked))
    ensures r.Err? ==> r.error in {BundleError.Io, ManifestError} && (fs.faulty || output.faulty)
  {
    hide Contents, Le, ValidateRelativePath;
    var written := output.WriteAll(Le(|encoded|, 4));
    if written.Err? { return Err(BundleError.Io); }
    written := output.WriteAll(encoded);
    if written.Err? { return Err(BundleError.Io); }
    ghost var all, front := SourcesAt(fs.files, walked), Le(|encoded|, 4) + encoded;
    NoContents();
    for k := 0 to |sources|
      invariant output.written == front + Contents(all[..k])
    {
      assert Described(crypto, fs.files, walked[k], sources[k]);
      ContentsSnoc(all, k);
      var copied := CopySourceChecked(crypto, fs, sources[k], output);
      if copied.Err? { return Err(copied.error); }
      CopiedOn(front, Contents(all[..k]), all[k].content, Contents(all[..k + 1]));
    }
    assert all[..|sources|] == all;
    r := Ok(());
  }

  lemma NoContents()
    ensures Contents([]) == []
  {
  }

  /** The plaintext of the capsule, written to the temporary file. No file is longer
      than a u64 can say. */
  method AssemblePayload(crypto: Crypto, fs: FileSystem, sources: seq<SourceFile>, ghost walked: seq<Walked>,
                         manifest: BundleManifest, padding: PaddingProfile, output: Writer)
    returns (r: Result<(), BundleError>)
    requires AllDescribed(crypto, fs.files, walked, sources) && output.written == []
    requires ManifestOf(crypto, SourcesAt(fs.files, walked), manifest.createdAt, manifest.toolVersion) == Some(manifest)
    modifies output`written
    ensures r.Ok? ==>
      PackedPayload(crypto, SourcesAt(fs.files, walked), padding, manifest.createdAt, manifest.toolVersion) ==
        Some(output.written)
    ensures r.Err? ==> r.error in {BundleError.Io, ManifestError}
    ensures r.Err? ==>
      || fs.faulty || output.faulty
      || PackedPayload(crypto, SourcesAt(fs.files, walked), padding, manifest.createdAt, manifest.toolVersion).None?
  {
    hide ManifestOf, ManifestCodec, Contents, PaddingTarget, Le;
    var encoded := ManifestCodec().enc(manifest);
    ManifestNotEmpty(manifest);
    if encoded == [] || |encoded| > MAX_MANIFEST { return Err(ManifestError); }
    var body := WriteUnpadded(crypto, fs, sources, walked, encoded, output);
    if body.Err? { return Err(body.error); }
    var currentLen := |output.written|;
    if currentLen > U64_MAX { return Err(BundleError.Io); }
    var target := PaddingTarget(currentLen, padding);
    if target.None? { return Err(ManifestError); }
    r := WriteZeroPadding(output, target.value - currentLen);
  }

  // ---- The whole of packing ----

  datatype EncryptCredential =
    | Password(password: bytes, seed: Option<bytes>)
    | Keypairs(publics: seq<PublicKey>, coins: seq<SlotRandomness>)
  {
    predicate Valid() { Keypairs? ==> |coins| == |publics| }
  }

  function BundleCapsule(crypto: Crypto, credential: EncryptCredential, profile: SecurityProfile, rnd: Randomness,
                         payload: bytes, overridden: bool): Option<bytes>
    requires credential.Valid() && |payload| <= U64_MAX
  {
    match credential
    case Password(password, seed) =>
      if !ValidSecrets(password, seed) then None
      else PasswordCapsule(crypto, password, seed, profile, rnd, payload, Some(ContentType.Bundle), overridden)
    case Keypairs(publics, coins) =>
      KeypairCapsule(crypto, publics, coins, profile, rnd, payload, Some(ContentType.Bundle), overridden)
  }

  ghost predicate BundleAllowed(crypto: Crypto, credential: EncryptCredential, profile: SecurityProfile,
                                rnd: Randomness, payloadLen: u64, policy: Option<CapsulePolicy>, overridden: bool)
    requires credential.Valid()
  {
    match credential
    case Password(password, seed) =>
      PasswordAllowed(crypto, password, seed, profile, rnd, payloadLen, Some(ContentType.Bundle), policy, overridden)
    case Keypairs(publics, coins) =>
      KeypairAllowed(crypto, publics, coins, profile, rnd, payloadLen, Some(ContentType.Bundle), policy, overridden)
  }

  method EncryptBundle(crypto: Crypto, fs: FileSystem, inFile: Path, outFile: Path, credential: EncryptCredential,
                       profile: SecurityProfile, policy: Option<CapsulePolicy>, overridden: bool, rnd: Randomness)
    returns (r: Result<(), CryptoError>)
    requires crypto.Lawful() && credential.Valid()
    requires inFile in fs.files && |fs.files[inFile]| <= U64_MAX
    modifies fs`files
    ensures Encrypted(old(fs.files), fs.files, outFile, fs.CanFail(outFile),
      BundleCapsule(crypto, credential, profile, rnd, old(fs.files)[inFile], overridden),
      BundleAllowed(crypto, credential, profile, rnd, |old(fs.files)[inFile]|, policy, overridden), r)
  {
    hide PasswordCapsule, KeypairCapsule, PasswordAllowed, KeypairAllowed;
    match credential
    case Password(password, seed) =>
      r := EncryptFilePassword(crypto, fs, inFile, outFile, password, seed, profile, policy, overridden,
        Some(ContentType.Bundle), rnd);
    case Keypairs(publics, coins) =>
      r := EncryptFileKeypairs(crypto, fs, inFile, outFile, publics, coins, profile, policy, overridden,
        Some(ContentType.Bundle), rnd);
  }

  /** The output is the capsule of the packed payload of the files, in path order, with
      the padding that was asked for. */
  ghost predicate Packed(crypto: Crypto, before: map<Path, bytes>, after: map<Path, bytes>, outFile: Path,
                         sorted: seq<Walked>, padding: PaddingProfile, credential: EncryptCredential,
                         profile: SecurityProfile, rnd: Randomness, overridden: bool, m: BundleManifest)
    requires credential.Valid()
  {
    && (forall k :: 0 <= k < |sorted| ==> ValidPath(sorted[k].relativePath) && sorted[k].absolutePath in before)
    && var sources := SourcesAt(before, sorted);
    && ManifestOf(crypto, sources, m.createdAt, m.toolVersion) == Some(m)
    && var payload := PackedPayload(crypto, sources, padding, m.createdAt, m.toolVersion);
    && payload.Some? && Padded(padding, BodyLength(m, sources), payload.value)
    && var capsule := BundleCapsule(crypto, credential, profile, rnd, payload.value, overridden);
    && capsule.Some? && after == before[outFile := capsule.value]
  }

  /** What packing refuses when every file of the walk is there: sizes that overflow,
      an oversized manifest, unusable credentials, or a policy that does not allow
      the envelope. */
  ghost predicate Refused(crypto: Crypto, files: map<Path, bytes>, sorted: seq<Walked>, padding: PaddingProfile,
                          credential: EncryptCredential, profile: SecurityProfile, policy: Option<CapsulePolicy>,
                          overridden: bool, createdAt: Option<Str>, toolVersion: Option<Str>, rnd: Randomness)
    requires credential.Valid()
  {
    && (forall k :: 0 <= k < |sorted| ==> sorted[k].absolutePath in files)
    && var payload := PackedPayload(crypto, SourcesAt(files, sorted), padding, createdAt, toolVersion);
    || payload.None?
    || BundleCapsule(crypto, credential, profile, rnd, payload.value, overridden).None?
    || !BundleAllowed(crypto, credential, profile, rnd, |payload.value|, policy, overridden)
  }

  /** `pack_directory`. The plaintext lives under a fresh temporary name next to the
      output and is gone at the end; only the output file changes, and only on
      success. */
  method PackDirectory(crypto: Crypto, fs: FileSystem, walked: seq<Walked>, outFile: Path,
                       credential: EncryptCredential, profile: SecurityProfile, padding: PaddingProfile, force: bool,
                       policy: Option<CapsulePolicy>, overridden: bool, createdAt: Option<Str>,
                       toolVersion: Option<Str>, rnd: Randomness, temp: Path)
    returns (r: Result<BundleManifest, BundleError>, ghost sorted: seq<Walked>)
    requires crypto.Lawful() && credential.Valid() && FilesFit(fs.files)
    requires temp != outFile && !fs.Exists(temp)
    modifies fs`files
    ensures r.Ok? ==>
      && multiset(sorted) == multiset(walked) && Sorting.Sorted(PathOrder(), sorted)
      && Packed(crypto, old(fs.files), fs.files, outFile, sorted, padding, credential, profile, rnd, overridden,
           r.value)
      && (old(fs.Exists(outFile)) ==> force)
    ensures r.Err? ==> fs.files == old(fs.files)
    ensures r == Err(BundleError.OutputExists) <==> old(fs.Exists(outFile)) && !force
    ensures r.Err? && r.error != BundleError.OutputExists ==>
      || old(fs.CanFail(temp)) || old(fs.CanFail(outFile))
      || Unreadable(old(fs.files), walked)
      || Refused(crypto, old(fs.files), sorted, padding, credential, profile, policy, overridden, createdAt,
           toolVersion, rnd)
  {
    hide Packed, ManifestOf, Sorting.Sorted, Refused, Unreadable;
    sorted := [];
    if fs.Exists(outFile) && !force { r := Err(BundleError.OutputExists); return; }
    ghost var before := fs.files;
    var sources;
    sources, sorted := CollectSources(crypto, fs, walked);
    if sources.Err? { r := Err(sources.error); return; }
    ghost var files := SourcesAt(before, sorted);
    var manifest := BuildManifest(crypto, sources.value, createdAt, toolVersion, before, sorted);
    if manifest.Err? {
      NoManifestNoPayload(crypto, before, sorted, sources.value, padding, credential, profile, policy, overridden,
        createdAt, toolVersion, rnd);
      r := Err(manifest.error);
      return;
    }
    var encrypted := EncryptPayload(crypto, fs, sources.value, sorted, manifest.value, padding, outFile, credential,
      profile, policy, overridden, rnd, temp);
    r := if encrypted.Err? then Err(encrypted.error) else Ok(manifest.value);
  }

  method EncryptPayload(crypto: Crypto, fs: FileSystem, sources: seq<SourceFile>, ghost sorted: seq<Walked>,
                        manifest: BundleManifest, padding: PaddingProfile, outFile: Path, credential: EncryptCredential,
                        profile: SecurityProfile, policy: Option<CapsulePolicy>, overridden: bool, rnd: Randomness,
                        temp: Path)
    returns (r: Result<(), BundleError>)
    requires crypto.Lawful() && credential.Valid() && temp != outFile && !fs.Exists(temp)
    requires AllDescribed(crypto, fs.files, sorted, sources)
    requires ManifestOf(crypto, SourcesAt(fs.files, sorted), manifest.createdAt, manifest.toolVersion) == Some(manifest)
    modifies fs`files
    ensures r.Ok? ==> Packed(crypto, old(fs.files), fs.files, outFile, sorted, padding, credential, profile, rnd,
      overridden, manifest)
    ensures r.Err? ==> fs.files == old(fs.files) && r.error != BundleError.OutputExists
    ensures r.Err? ==>
      || old(fs.CanFail(temp)) || old(fs.CanFail(outFile))
      || Refused(crypto, old(fs.files), sorted, padding, credential, profile, policy, overridden, manifest.createdAt,
           manifest.toolVersion, rnd)
  {
    hide PackedPayload, ManifestOf, BundleCapsule, BundleAllowed, ValidateRelativePath, SourcesAt, AllDescribed, Packed;
    AllPresent(crypto, fs.files, sorted, sources);
    ghost var before := fs.files;
    var plaintext := new Writer(fs.faulty);
    var assembled := AssemblePayload(crypto, fs, sources, sorted, manifest, padding, plaintext);
    if assembled.Err? { return Err(assembled.error); }
    var encrypted := EncryptTemporary(crypto, fs, plaintext.written, outFile, credential, profile, policy, overridden,
      rnd, temp);
    if encrypted.Err? { return Err(encrypted.error); }
    PackedFromParts(crypto, before, fs.files, outFile, sorted, padding, credential, profile, rnd, overridden, manifest);
    r := Ok(());
  }

  lemma PackedFromParts(crypto: Crypto, before: map<Path, bytes>, after: map<Path, bytes>, outFile: Path,
                        sorted: seq<Walked>, padding: PaddingProfile, credential: EncryptCredential,
                        profile: SecurityProfile, rnd: Randomness, overridden: bool, m: BundleManifest)
    requires credential.Valid()
    requires forall k :: 0 <= k < |sorted| ==> ValidPath(sorted[k].relativePath) && sorted[k].absolutePath in before
    requires ManifestOf(crypto, SourcesAt(before, sorted), m.createdAt, m.toolVersion) == Some(m)
    requires var payload := PackedPayload(crypto, SourcesAt(before, sorted), padding, m.createdAt, m.toolVersion);
      && payload.Some?
      && var capsule := BundleCapsule(crypto, credential, profile, rnd, payload.value, overridden);
      && capsule.Some? && after == before[outFile := capsule.value]
    ensures Packed(crypto, before, after, outFile, sorted, padding, credential, profile, rnd, overridden, m)
  {
    hide PackedPayload, ManifestOf, BundleCapsule, ValidateRelativePath, SourcesAt, Padded, BodyLength;
    PackedIsPadded(crypto, SourcesAt(before, sorted), padding, m.createdAt, m.toolVersion);
  }

  lemma AllPresent(crypto: Crypto, files: map<Path, bytes>, sorted: seq<Walked>, sources: seq<SourceFile>)
    requires AllDescribed(crypto, files, sorted, sources)
    ensures forall k :: 0 <= k < |sorted| ==> ValidPath(sorted[k].relativePath) && sorted[k].absolutePath in files
  {
    hide ValidateRelativePath;
    assert forall k :: 0 <= k < |sorted| ==> Described(crypto, files, sorted[k], sources[k]);
  }

  /** Store the plaintext under its temporary name, encrypt it from there, delete it. */
  method EncryptTemporary(crypto: Crypto, fs: FileSystem, plaintext: bytes, outFile: Path,
                          credential: EncryptCredential, profile: SecurityProfile, policy: Option<CapsulePolicy>,
                          overridden: bool, rnd: Randomness, temp: Path)
    returns (r: Result<(), BundleError>)
    requires crypto.Lawful() && credential.Valid() && temp != outFile && !fs.Exists(temp) && |plaintext| <= U64_MAX
    modifies fs`files
    ensures r.Ok? ==>
      && BundleCapsule(crypto, credential, profile, rnd, plaintext, overridden).Some?
      && fs.files == old(fs.files)[outFile :=
           BundleCapsule(crypto, credential, profile, rnd, plaintext, overridden).value]
    ensures r.Err? ==> fs.files == old(fs.files) && r.error != BundleError.OutputExists
    ensures r.Err? ==>
      || old(fs.CanFail(temp)) || old(fs.CanFail(outFile))
      || BundleCapsule(crypto, credential, profile, rnd, plaintext, overridden).None?
      || !BundleAllowed(crypto, credential, profile, rnd, |plaintext|, policy, overridden)
  {
    hide BundleCapsule, BundleAllowed;
    ghost var before := fs.files;
    var stored := fs.Persist(temp, plaintext);
    if stored.Err? { return Err(BundleError.Io); }
    var encrypted := EncryptBundle(crypto, fs, temp, outFile, credential, profile, policy, overridden, rnd);
    ghost var capsule := BundleCapsule(crypto, credential, profile, rnd, plaintext, overridden);
    TemporaryGone(before, temp, plaintext, outFile, if capsule.Some? then capsule.value else []);
    fs.Remove(temp);
    r := if encrypted.Err? then Err(BundleError.Crypto(encrypted.error)) else Ok(());
  }

  lemma NoManifestNoPayload(crypto: Crypto, files: map<Path, bytes>, sorted: seq<Walked>, sources: seq<SourceFile>,
                            padding: PaddingProfile, credential: EncryptCredential, profile: SecurityProfile,
                            policy: Option<CapsulePolicy>, overridden: bool, createdAt: Option<Str>,
                            toolVersion: Option<Str>, rnd: Randomness)
    requires credential.Valid() && AllDescribed(crypto, files, sorted, sources)
    requires ManifestOf(crypto, SourcesAt(files, sorted), createdAt, toolVersion).None?
    ensures Refused(crypto, files, sorted, padding, credential, profile, policy, overridden, createdAt, toolVersion,
      rnd)
  {
    hide BundleCapsule, BundleAllowed, ManifestOf, ValidateRelativePath, PackedPayload, SourcesAt, AllDescribed;
    AllPresent(crypto, files, sorted, sources);
    if PackedPayload(crypto, SourcesAt(files, sorted), padding, createdAt, toolVersion).Some? {
      PackedHasManifest(crypto, SourcesAt(files, sorted), padding, createdAt, toolVersion);
    }
  }

  lemma TemporaryGone(before: map<Path, bytes>, temp: Path, content: bytes, outFile: Path, capsule: bytes)
    requires temp !in before && temp != outFile
    ensures before[temp := content] - {temp} == before
    ensures before[temp := content][outFile := capsule] - {temp} == before[outFile := capsule]
  {
  }
}
