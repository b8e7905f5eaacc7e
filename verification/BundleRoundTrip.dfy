/** Packing, encrypting, opening and extracting a bundle gives every source file
    back. */
module BundleRoundTrip {
  import opened Bytes
  import opened BundleCredentials
  import opened BundleExtract
  import opened BundleFormat
  import opened BundleLayout
  import opened BundlePack
  import opened BundlePaths
  import opened FileCrypto
  import opened Files
  import opened Policy
  import opened Primitives
  import opened Protocol
  import Sorting

  // ---- Extraction gives the sources back ----

  function NamesAt(s: Source): Path
    requires ValidPath(s.path)
  {
    ValidateRelativePath(s.path).value
  }

  /** No source is a directory on the way to another; so in any real directory. */
  ghost predicate NoneOnTheWay(sources: seq<Source>)
    requires SourcesValid(sources)
  {
    forall j, k :: 0 <= j < |sources| && 0 <= k < |sources| ==> !(NamesAt(sources[j]) < NamesAt(sources[k]))
  }

  ghost predicate NamesDistinct(sources: seq<Source>)
    requires SourcesValid(sources)
  {
    forall j, k :: 0 <= j < k < |sources| ==> NamesAt(sources[j]) != NamesAt(sources[k])
  }

  ghost predicate AllCanonical(sources: seq<Source>) {
    forall k :: 0 <= k < |sources| ==> Canonical(sources[k].path)
  }

  lemma HeldPaths(crypto: Crypto, payload: bytes, m: BundleManifest, dataStart: nat, sources: seq<Source>, force: bool)
    requires Holds(crypto, payload, m, dataStart, sources) && SourcesValid(sources)
    ensures PathsValid(m.entries)
    ensures NoneOnTheWay(sources) && NamesDistinct(sources) && AllCanonical(sources) ==> Compatible(m.entries, force)
  {
    hide AllVerify, EntryBytes, ValidateRelativePath, EndsInName, Canonical;
    if AllCanonical(sources) {
      forall k | 0 <= k < |sources| ensures EndsInName(sources[k].path) { CanonicalEndsInName(sources[k].path); }
    }
    assert forall k :: 0 <= k < |sources| ==> m.entries[k].relativePath == sources[k].path;
  }

  /** The source is at its path below the output directory. */
  ghost predicate RestoredAt(after: map<Path, bytes>, outDir: Path, s: Source)
    requires ValidPath(s.path)
  {
    outDir + NamesAt(s) in after && after[outDir + NamesAt(s)] == s.content
  }

  /** After a complete extraction every source file is at its path below the output
      directory, byte for byte, exactly if sources with one target have one content; so
      always without `force` and always where names are distinct. */
  lemma SourcesRestored(crypto: Crypto, payload: bytes, m: BundleManifest, dataStart: nat, sources: seq<Source>,
                        before: map<Path, bytes>, after: map<Path, bytes>, outDir: Path, force: bool)
    requires Holds(crypto, payload, m, dataStart, sources) && SourcesValid(sources)
    requires PathsValid(m.entries)
    requires Extracted(before, after, outDir, payload, dataStart, m.entries, |m.entries|, force)
    ensures (forall k :: 0 <= k < |sources| ==> RestoredAt(after, outDir, sources[k])) <==>
      forall j, k :: 0 <= j < k < |sources| && NamesAt(sources[j]) == NamesAt(sources[k]) ==>
        sources[j].content == sources[k].content
    ensures !force || NamesDistinct(sources) ==> forall k :: 0 <= k < |sources| ==>
      RestoredAt(after, outDir, sources[k])
  {
    hide AllVerify, EntryBytes, Overlay, ValidateRelativePath, LastOf;
    var n := |m.entries|;
    AllKeptIff(before, outDir, payload, dataStart, m.entries, n);
    forall j, k | 0 <= j < n && 0 <= k < n
      ensures Target(outDir, m.entries[j]) == Target(outDir, m.entries[k]) <==>
        NamesAt(sources[j]) == NamesAt(sources[k])
    {
      BelowSame(outDir, NamesOf(m.entries[j]), NamesOf(m.entries[k]));
    }
    assert AllKept(after, outDir, payload, dataStart, m.entries, n) <==>
      forall k :: 0 <= k < |sources| ==> RestoredAt(after, outDir, sources[k]);
    if !force {
      forall k | 0 <= k < n ensures RestoredAt(after, outDir, sources[k]) {
        OutputKept(before, outDir, payload, dataStart, m.entries, n, force, k);
      }
    }
  }

  // ---- With force, files that share a target are lost ----

  /** The payload of the two files that share a target. */
  function SharedPayload(crypto: Crypto): Option<bytes> { PackedPayload(crypto, Sharing(), NoPadding, None, None) }

  lemma SharedOpening(crypto: Crypto, lower: bytes -> bytes, data: bytes, password: bytes)
    requires lower(DOUBLED) != lower(SINGLE) && SharedPayload(crypto).Some?
    requires DecryptWithPassword(crypto, data, password, None) == Result.Ok(SharedPayload(crypto).value)
    ensures OpenBundle(crypto, lower, data, password).Some? && Authentic(crypto, lower, data, password)
    ensures var (payload, m, dataStart) := OpenBundle(crypto, lower, data, password).value;
      Holds(crypto, payload, m, dataStart, Sharing())
  {
    hide DecryptWithPassword, PackedPayload, OpenPayload, ManifestOf, ManifestCodec, AllVerify, ValidateRelativePath;
    SharingOpens(crypto, lower);
    PackedOpensIff(crypto, lower, Sharing(), NoPadding, None, None);
    PackedHolds(crypto, Sharing(), NoPadding, None, None);
  }

  /** The payload exists; a capsule that decrypts to it is an authentic bundle; with
      `force` and a healthy device its extraction to a free directory is sure to
      complete; and then the first of its two files is nowhere. */
  lemma ForceLosesFile(crypto: Crypto, lower: bytes -> bytes, data: bytes, password: bytes, files: map<Path, bytes>,
                       dirs: set<Path>, outDir: Path, after: map<Path, bytes>)
    requires lower(DOUBLED) != lower(SINGLE)
    ensures SharedPayload(crypto).Some?
    ensures DecryptWithPassword(crypto, data, password, None) == Result.Ok(SharedPayload(crypto).value) ==>
      && Authentic(crypto, lower, data, password)
      && (FreeDirectory(files, dirs, outDir) ==> Extractable(crypto, lower, data, password, files, dirs, outDir, true))
      && (AuthenticOutcome(crypto, lower, data, password, files, after, outDir, 2, true) <==>
            after == files[outDir + [[97], [98]] := [2]])
  {
    hide DecryptWithPassword, PackedPayload, OpenPayload, AllVerify, ValidateRelativePath, OpenBundle, EntryBytes,
      Authentic;
    SharingOpens(crypto, lower);
    if DecryptWithPassword(crypto, data, password, None) == Result.Ok(SharedPayload(crypto).value) {
      SharedOpening(crypto, lower, data, password);
      DistinctStringsSameTarget();
      var (payload, m, dataStart) := OpenBundle(crypto, lower, data, password).value;
      SharedNames(crypto, payload, m, dataStart);
      OverlaysOnce(files, outDir, payload, dataStart, m.entries);
      AuthenticParts(crypto, lower, data, password);
    }
  }

  lemma AuthenticParts(crypto: Crypto, lower: bytes -> bytes, data: bytes, password: bytes)
    requires Authentic(crypto, lower, data, password)
    ensures var opening := OpenBundle(crypto, lower, data, password);
      opening.Some? && AllVerify(crypto, opening.value.0, opening.value.1, opening.value.2)
  {
    hide AllVerify, OpenBundle;
  }

  lemma SharedNames(crypto: Crypto, payload: bytes, m: BundleManifest, dataStart: nat)
    requires Holds(crypto, payload, m, dataStart, Sharing()) && PathsValid(m.entries)
    ensures |m.entries| == 2 && NamesOf(m.entries[0]) == NamesOf(m.entries[1]) == [[97], [98]]
    ensures EntryBytes(payload, dataStart, m.entries[1]) == [2]
    ensures Compatible(m.entries, true)
  {
    hide AllVerify, EntryBytes, ValidateRelativePath, EndsInName, Canonical;
    DistinctStringsSameTarget();
    assert m.entries[0].relativePath == Sharing()[0].path == DOUBLED;
    assert m.entries[1].relativePath == Sharing()[1].path == SINGLE;
  }

  lemma OverlaysOnce(files: map<Path, bytes>, outDir: Path, payload: bytes, dataStart: nat, entries: seq<BundleEntry>)
    requires PathsValid(entries) && EntriesInside(entries, dataStart, |payload|) && |entries| == 2
    requires Target(outDir, entries[0]) == Target(outDir, entries[1])
    ensures Overlay(files, outDir, payload, dataStart, entries, 2)
         == files[Target(outDir, entries[1]) := EntryBytes(payload, dataStart, entries[1])]
  {
    hide Target, EntryBytes, Overlay, ValidateRelativePath;
    OverlayNothing(files, outDir, payload, dataStart, entries);
    OverlayStep(files, outDir, payload, dataStart, entries, 0);
    OverlayStep(files, outDir, payload, dataStart, entries, 1);
  }

  // ---- The whole trip through the file system ----

  /** The files of a walk are distinct, do not collide after case folding, and none
      is a directory on the way to another. */
  ghost predicate Separable(lower: bytes -> bytes, walked: seq<Walked>) {
    && (forall w :: w in walked ==> multiset(walked)[w] == 1)
    && (forall v, w :: v in walked && w in walked && v != w ==> lower(v.relativePath) != lower(w.relativePath))
    && (forall v, w :: v in walked && w in walked ==> !(v.names < w.names))
  }

  lemma SeparableSources(lower: bytes -> bytes, files: map<Path, bytes>, walked: seq<Walked>, sorted: seq<Walked>)
    requires Separable(lower, walked) && multiset(sorted) == multiset(walked)
    requires forall k :: 0 <= k < |sorted| ==> ValidPath(sorted[k].relativePath) && sorted[k].absolutePath in files
    ensures SourcesValid(SourcesAt(files, sorted)) && SourcesDistinct(lower, SourcesAt(files, sorted))
    ensures NoneOnTheWay(SourcesAt(files, sorted))
  {
    hide ValidateRelativePath, JoinNames;
    forall k | 0 <= k < |sorted|
      ensures sorted[k] in walked && NamesAt(SourcesAt(files, sorted)[k]) == sorted[k].names
    {
      assert sorted[k] in multiset(sorted);
      WalkedPath(sorted[k]);
    }
    forall j, k | 0 <= j < k < |sorted| ensures sorted[j] != sorted[k] {
      if sorted[j] == sorted[k] { Sorting.RepeatedCounts(sorted, j, k); }
    }
  }

  /** Walked paths are canonical, so where none collide all targets are different. */
  lemma WalkedNamesDistinct(lower: bytes -> bytes, files: map<Path, bytes>, sorted: seq<Walked>)
    requires forall k :: 0 <= k < |sorted| ==> ValidPath(sorted[k].relativePath) && sorted[k].absolutePath in files
    requires SourcesDistinct(lower, SourcesAt(files, sorted))
    ensures SourcesValid(SourcesAt(files, sorted)) && NamesDistinct(SourcesAt(files, sorted))
    ensures AllCanonical(SourcesAt(files, sorted))
  {
    hide ValidateRelativePath, JoinNames, Canonical;
    var sources := SourcesAt(files, sorted);
    forall k | 0 <= k < |sources| ensures Canonical(sources[k].path) { WalkedPath(sorted[k]); }
    forall j, k | 0 <= j < k < |sources| ensures NamesAt(sources[j]) != NamesAt(sources[k]) {
      WalkedPath(sorted[j]);
      WalkedPath(sorted[k]);
      CanonicalDistinct(sources[j].path, sources[k].path);
    }
  }

  lemma SortedHas(walked: seq<Walked>, sorted: seq<Walked>, w: Walked) returns (k: nat)
    requires multiset(sorted) == multiset(walked) && w in walked
    ensures k < |sorted| && sorted[k] == w
  {
    assert w in multiset(sorted);
    k :| 0 <= k < |sorted| && sorted[k] == w;
  }

  /** Nothing is in the way of extracting to `outDir`. */
  ghost predicate FreeFor(files: map<Path, bytes>, dirs: set<Path>, archive: Path, outDir: Path) {
    Apart(archive, outDir) && FreeDirectory(files, dirs, outDir)
  }

  /** The archive opens to the manifest that was packed, and holds the files. */
  ghost predicate Archived(crypto: Crypto, lower: bytes -> bytes, files: map<Path, bytes>, middle: map<Path, bytes>,
                           archive: Path, sorted: seq<Walked>, password: bytes, m: BundleManifest) {
    && (forall k :: 0 <= k < |sorted| ==> ValidPath(sorted[k].relativePath) && sorted[k].absolutePath in files)
    && archive in middle && middle == files[archive := middle[archive]]
    && var sources := SourcesAt(files, sorted);
    && SourcesValid(sources)
    && var opening := OpenBundle(crypto, lower, middle[archive], password);
    && opening.Some? && opening.value.1 == m && Holds(crypto, opening.value.0, m, opening.value.2, sources)
  }

  /** If the archive opens, it opens to what was packed. */
  ghost predicate OpensAsPacked(crypto: Crypto, lower: bytes -> bytes, files: map<Path, bytes>,
                                middle: map<Path, bytes>, archive: Path, sorted: seq<Walked>, password: bytes,
                                m: BundleManifest)
    requires archive in middle
  {
    var opening := OpenBundle(crypto, lower, middle[archive], password);
    opening.Some? ==> Archived(crypto, lower, files, middle, archive, sorted, password, m) && opening.value.1 == m
  }

  lemma PackedParts(crypto: Crypto, files: map<Path, bytes>, middle: map<Path, bytes>, archive: Path,
                    sorted: seq<Walked>, padding: PaddingProfile, credential: EncryptCredential,
                    profile: SecurityProfile, rnd: Randomness, overridden: bool, m: BundleManifest)
    requires credential.Valid()
    requires Packed(crypto, files, middle, archive, sorted, padding, credential, profile, rnd, overridden, m)
    ensures forall k :: 0 <= k < |sorted| ==> ValidPath(sorted[k].relativePath) && sorted[k].absolutePath in files
    ensures archive in middle && middle == files[archive := middle[archive]]
    ensures var sources := SourcesAt(files, sorted);
      && SourcesValid(sources)
      && ManifestOf(crypto, sources, m.createdAt, m.toolVersion) == Some(m)
      && BundleFile(crypto, sources, padding, m.createdAt, m.toolVersion, credential, profile, rnd, overridden, []) ==
           Some(middle[archive])
  {
    hide ValidateRelativePath, PackedPayload, ManifestOf, BundleCapsule, SourcesAt, SourcesValid, Padded, BodyLength;
    SourcesAreValid(files, sorted);
  }

  lemma SourcesAreValid(files: map<Path, bytes>, sorted: seq<Walked>)
    requires forall k :: 0 <= k < |sorted| ==> ValidPath(sorted[k].relativePath) && sorted[k].absolutePath in files
    ensures SourcesValid(SourcesAt(files, sorted))
  {
    hide ValidateRelativePath;
  }

  /** The archive opens exactly when the password unlocks it and no paths collide. */
  lemma PackedOpensExactly(crypto: Crypto, lower: bytes -> bytes, files: map<Path, bytes>, middle: map<Path, bytes>,
                           archive: Path, sorted: seq<Walked>, padding: PaddingProfile, credential: EncryptCredential,
                           profile: SecurityProfile, rnd: Randomness, overridden: bool, m: BundleManifest,
                           password: bytes)
    requires credential.Valid() && Decided(crypto, credential, password)
    requires Packed(crypto, files, middle, archive, sorted, padding, credential, profile, rnd, overridden, m)
    requires forall k :: 0 <= k < |sorted| ==> ValidPath(sorted[k].relativePath) && sorted[k].absolutePath in files
    requires archive in middle
    ensures OpenBundle(crypto, lower, middle[archive], password).Some?
       <==> Unlocks(crypto, credential, password, profile, rnd) && SourcesDistinct(lower, SourcesAt(files, sorted))
    ensures OpensAsPacked(crypto, lower, files, middle, archive, sorted, password, m)
  {
    hide ValidateRelativePath, Packed, BundleFile, OpenBundle, Authentic, Holds, SourcesValid, SourcesDistinct,
      SourcesAt, Unlocks, Decided, ManifestOf;
    PackedParts(crypto, files, middle, archive, sorted, padding, credential, profile, rnd, overridden, m);
    BundleEndToEnd(crypto, lower, SourcesAt(files, sorted), padding, m.createdAt, m.toolVersion, credential, profile,
      rnd, overridden, [], password);
  }

  lemma ArchivedIsExtractable(crypto: Crypto, lower: bytes -> bytes, files: map<Path, bytes>, middle: map<Path, bytes>,
                              archive: Path, walked: seq<Walked>, sorted: seq<Walked>, password: bytes,
                              m: BundleManifest, dirs: set<Path>, outDir: Path, force: bool)
    requires Archived(crypto, lower, files, middle, archive, sorted, password, m)
    requires Separable(lower, walked) && multiset(sorted) == multiset(walked) && FreeFor(files, dirs, archive, outDir)
    ensures Extractable(crypto, lower, middle[archive], password, middle, dirs, outDir, force)
  {
    hide OpenBundle, AllVerify, EntryBytes, ValidateRelativePath, NoneOnTheWay, NamesDistinct, AllCanonical, Compatible,
      SourcesAt,
      Separable, SourcesDistinct;
    var opening := OpenBundle(crypto, lower, middle[archive], password).value;
    SeparableSources(lower, files, walked, sorted);
    WalkedNamesDistinct(lower, files, sorted);
    HeldPaths(crypto, opening.0, m, opening.2, SourcesAt(files, sorted), force);
  }

  /** The file of the walk is at its path below the output directory. */
  ghost predicate Restored(files: map<Path, bytes>, after: map<Path, bytes>, outDir: Path, w: Walked) {
    && w.absolutePath in files
    && outDir + w.names in after && after[outDir + w.names] == files[w.absolutePath]
  }

  /** An archive that opened has no two sources with one target. */
  lemma ArchivedDistinct(crypto: Crypto, lower: bytes -> bytes, files: map<Path, bytes>, middle: map<Path, bytes>,
                         archive: Path, sorted: seq<Walked>, password: bytes, m: BundleManifest)
    requires Archived(crypto, lower, files, middle, archive, sorted, password, m)
    ensures NamesDistinct(SourcesAt(files, sorted))
  {
    hide OpenBundle, AllVerify, EntryBytes, ValidateRelativePath, NamesDistinct;
    var sources := SourcesAt(files, sorted);
    assert forall k :: 0 <= k < |sources| ==> m.entries[k].relativePath == sources[k].path;
    assert SourcesDistinct(lower, sources);
    WalkedNamesDistinct(lower, files, sorted);
  }

  lemma ArchivedIsRestored(crypto: Crypto, lower: bytes -> bytes, files: map<Path, bytes>, middle: map<Path, bytes>,
                           after: map<Path, bytes>, archive: Path, walked: seq<Walked>, sorted: seq<Walked>,
                           password: bytes, m: BundleManifest, outDir: Path, force: bool, w: Walked)
    requires Archived(crypto, lower, files, middle, archive, sorted, password, m)
    requires multiset(sorted) == multiset(walked)
    requires AuthenticOutcome(crypto, lower, middle[archive], password, middle, after, outDir, |m.entries|, force)
    requires w in walked
    ensures Restored(files, after, outDir, w)
  {
    hide OpenBundle, AllVerify, ValidateRelativePath, Holds, Extracted, NamesDistinct, JoinNames;
    var opening := OpenBundle(crypto, lower, middle[archive], password).value;
    var k := SortedHas(walked, sorted, w);
    ArchivedDistinct(crypto, lower, files, middle, archive, sorted, password, m);
    SourcesRestored(crypto, opening.0, m, opening.2, SourcesAt(files, sorted), middle, after, outDir, force);
    assert RestoredAt(after, outDir, SourcesAt(files, sorted)[k]);
    WalkedPath(w);
  }

  /** Extraction may write here: only with `force`, and only at a target. */
  ghost predicate Replaceable(walked: seq<Walked>, outDir: Path, force: bool, p: Path) {
    force && exists w :: w in walked && p == outDir + w.names
  }

  lemma OtherFilesKept(crypto: Crypto, lower: bytes -> bytes, files: map<Path, bytes>, middle: map<Path, bytes>,
                       after: map<Path, bytes>, archive: Path, walked: seq<Walked>, sorted: seq<Walked>,
                       password: bytes, m: BundleManifest, outDir: Path, n: nat, force: bool, p: Path)
    requires Archived(crypto, lower, files, middle, archive, sorted, password, m)
    requires multiset(sorted) == multiset(walked)
    requires AuthenticOutcome(crypto, lower, middle[archive], password, middle, after, outDir, n, force) && p in middle
    ensures p in after && (after[p] == middle[p] || Replaceable(walked, outDir, force, p))
  {
    hide OpenBundle, AllVerify, Overlay, EntryBytes, ValidateRelativePath, JoinNames;
    var opening := OpenBundle(crypto, lower, middle[archive], password).value;
    ExtractionSafety(middle, after, outDir, opening.0, opening.2, opening.1.entries, n, force, p);
    if after[p] != middle[p] {
      var k :| 0 <= k < n && p == Target(outDir, m.entries[k]);
      WalkedPath(sorted[k]);
      assert sorted[k] in multiset(sorted);
      assert sorted[k] in walked && p == outDir + sorted[k].names;
    }
  }

  /** Extraction is sure to complete: the password unlocks the archive, the files of
      the walk can be told apart, and nothing is in their way. */
  ghost predicate SureToComplete(crypto: Crypto, lower: bytes -> bytes, files: map<Path, bytes>, dirs: set<Path>,
                                 walked: seq<Walked>, archive: Path, credential: EncryptCredential,
                                 profile: SecurityProfile, rnd: Randomness, password: bytes, outDir: Path) {
    Unlocks(crypto, credential, password, profile, rnd) && Separable(lower, walked) &&
      FreeFor(files, dirs, archive, outDir)
  }

  /** Extract an archive that was just packed. */
  method ExtractArchive(crypto: Crypto, lower: bytes -> bytes, fs: FileSystem, archive: Path, outDir: Path,
                        password: bytes, force: bool, ghost files: map<Path, bytes>, ghost walked: seq<Walked>,
                        ghost sorted: seq<Walked>, ghost m: BundleManifest)
    returns (r: Result<BundleManifest, BundleError>)
    requires crypto.Lawful() && archive in fs.files && multiset(sorted) == multiset(walked)
    requires OpensAsPacked(crypto, lower, files, fs.files, archive, sorted, password, m)
    modifies fs`files, fs`dirs
    ensures r.Ok? ==> r.value == m && OpenBundle(crypto, lower, old(fs.files)[archive], password).Some?
    ensures r.Ok? ==> forall w :: w in walked ==> Restored(files, fs.files, outDir, w)
    ensures r.Err? && !fs.faulty ==>
      !Extractable(crypto, lower, old(fs.files)[archive], password, old(fs.files), old(fs.dirs), outDir, force)
    ensures forall p :: p in old(fs.files) ==>
      p in fs.files && (fs.files[p] == old(fs.files)[p] || Replaceable(walked, outDir, force, p))
  {
    hide Extractable, AuthenticOutcome, ValidateRelativePath, Archived, Restored, OpenBundle, Replaceable;
    ghost var middle := fs.files;
    ghost var done;
    r, done := ExtractBundle(crypto, lower, fs, archive, outDir, password, force, false);
    if r.Ok? || fs.files != middle {
      OutcomeOpens(crypto, lower, middle[archive], password, middle, fs.files, outDir, done, force);
      forall p | p in middle
        ensures p in fs.files && (fs.files[p] == middle[p] || Replaceable(walked, outDir, force, p))
      {
        OtherFilesKept(crypto, lower, files, middle, fs.files, archive, walked, sorted, password, m, outDir, done,
          force, p);
      }
    }
    if r.Ok? {
      forall w | w in walked ensures Restored(files, fs.files, outDir, w) {
        ArchivedIsRestored(crypto, lower, files, middle, fs.files, archive, walked, sorted, password, m, outDir, force,
          w);
      }
    }
  }

  /** Pack a directory into an archive, with any credential, then extract the archive
      with a password, into any place. Once packing succeeded: extraction fails if the
      password does not unlock the archive, as for all key pairs; it succeeds with the
      same manifest if it is sure to complete and no device fails; and whenever it
      succeeds, every file of the walk is at its path below the output directory, byte
      for byte, with `force` as well. Whatever happens, no other file changes, and
      without `force` none but the archive. */
  method PackThenExtract(crypto: Crypto, lower: bytes -> bytes, fs: FileSystem, walked: seq<Walked>, archive: Path,
                         credential: EncryptCredential, profile: SecurityProfile, padding: PaddingProfile,
                         policy: Option<CapsulePolicy>, overridden: bool, createdAt: Option<Str>,
                         toolVersion: Option<Str>, rnd: Randomness, temp: Path, outDir: Path, password: bytes,
                         force: bool)
    returns (packed: Result<BundleManifest, BundleError>, extracted: Result<BundleManifest, BundleError>)
    requires crypto.Lawful() && credential.Valid() && Decided(crypto, credential, password)
    requires FilesFit(fs.files) && temp != archive && !fs.Exists(temp)
    modifies fs`files, fs`dirs
    ensures packed.Ok? && extracted.Ok? ==> Unlocks(crypto, credential, password, profile, rnd) && extracted == packed
    ensures packed.Ok? && extracted.Err? && !fs.faulty ==>
      !SureToComplete(crypto, lower, old(fs.files), old(fs.dirs), walked, archive, credential, profile, rnd, password,
        outDir)
    ensures packed.Ok? && extracted.Ok? ==> forall w :: w in walked ==> Restored(old(fs.files), fs.files, outDir, w)
    ensures forall p :: p in old(fs.files) && p != archive ==>
      p in fs.files && (fs.files[p] == old(fs.files)[p] || Replaceable(walked, outDir, force, p))
  {
    hide Packed, Extractable, Replaceable, FilesFit, BundleFile, ManifestOf, SourcesValid, ValidateRelativePath,
      Archived, Restored, OpenBundle, Decided, SureToComplete, SourcesAt, SourcesDistinct,
      Unlocks, Refused, Unreadable, Sorting.Sorted, Sorting.ByKey, PathOrder;
    ghost var files, dirs := fs.files, fs.dirs;
    ghost var sorted;
    packed, sorted := PackDirectory(crypto, fs, walked, archive, credential, profile, padding, false, policy,
      overridden,
      createdAt, toolVersion, rnd, temp);
    if packed.Err? { extracted := packed; return; }
    ghost var middle := fs.files;
    PackedParts(crypto, files, middle, archive, sorted, padding, credential, profile, rnd, overridden, packed.value);
    PackedOpensExactly(crypto, lower, files, middle, archive, sorted, padding, credential, profile, rnd, overridden,
      packed.value, password);
    if SureToComplete(crypto, lower, files, dirs, walked, archive, credential, profile, rnd, password, outDir) {
      SureIsExtractable(crypto, lower, files, middle, archive, walked, sorted, credential, profile, rnd, password,
        packed.value, dirs, outDir, force);
    }
    extracted := ExtractArchive(crypto, lower, fs, archive, outDir, password, force, files, walked, sorted,
      packed.value);
  }

  lemma OutcomeOpens(crypto: Crypto, lower: bytes -> bytes, data: bytes, password: bytes, before: map<Path, bytes>,
                     after: map<Path, bytes>, outDir: Path, n: nat, force: bool)
    requires AuthenticOutcome(crypto, lower, data, password, before, after, outDir, n, force)
    ensures OpenBundle(crypto, lower, data, password).Some?
  {
    hide OpenBundle, AllVerify, Extracted;
  }

  /** Files that can be told apart do not collide, so the archive opens and nothing is
      in the way. */
  lemma SureIsExtractable(crypto: Crypto, lower: bytes -> bytes, files: map<Path, bytes>, middle: map<Path, bytes>,
                          archive: Path, walked: seq<Walked>, sorted: seq<Walked>, credential: EncryptCredential,
                          profile: SecurityProfile, rnd: Randomness, password: bytes, m: BundleManifest,
                          dirs: set<Path>, outDir: Path, force: bool)
    requires SureToComplete(crypto, lower, files, dirs, walked, archive, credential, profile, rnd, password, outDir)
    requires multiset(sorted) == multiset(walked) && archive in middle
    requires forall k :: 0 <= k < |sorted| ==> ValidPath(sorted[k].relativePath) && sorted[k].absolutePath in files
    requires Unlocks(crypto, credential, password, profile, rnd) && SourcesDistinct(lower, SourcesAt(files, sorted)) ==>
      Archived(crypto, lower, files, middle, archive, sorted, password, m)
    ensures Extractable(crypto, lower, middle[archive], password, middle, dirs, outDir, force)
  {
    hide Separable, Extractable, Archived, FreeFor, ValidateRelativePath, SourcesAt, SourcesDistinct, SourcesValid,
      NoneOnTheWay, Unlocks;
    SeparableSources(lower, files, walked, sorted);
    ArchivedIsExtractable(crypto, lower, files, middle, archive, walked, sorted, password, m, dirs, outDir, force);
  }
}
