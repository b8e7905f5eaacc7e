/** The plaintext of a bundle: manifest length, manifest, file contents one after
    the other, zero padding. */
module BundleFormat {
  import opened Bytes
  import opened BundleLayout
  import opened BundlePaths
  import opened Postcard
  import opened Primitives
  import opened Protocol
  import opened Wire

  const MAX_MANIFEST: nat := 16 * 1024 * 1024

  datatype PaddingProfile = NoPadding | Bucket | Fixed(size: u64)

  // ---- The manifest on the wire ----

  type EntryParts = (Str, (u64, (b32, u64)))

  function EntryMake(t: EntryParts): BundleEntry { BundleEntry(t.0, t.1.0, t.1.1.0, t.1.1.1) }
  function EntrySplit(e: BundleEntry): EntryParts { (e.relativePath, (e.size, (e.blake3Hash, e.offset))) }

  function EntryCodec(): Codec<BundleEntry> {
    MapCodec(PairCodec(StrCodec(), PairCodec(U64Codec(), PairCodec(B32Codec(), U64Codec()))), EntryMake, EntrySplit)
  }

  type ManifestParts = (seq<BundleEntry>, (Option<Str>, Option<Str>))

  function ManifestMake(t: ManifestParts): BundleManifest { BundleManifest(t.0, t.1.0, t.1.1) }
  function ManifestSplit(m: BundleManifest): ManifestParts { (m.entries, (m.createdAt, m.toolVersion)) }

  function ManifestCodec(): Codec<BundleManifest> {
    MapCodec(PairCodec(VecCodec(EntryCodec()), PairCodec(StrOption(), StrOption())), ManifestMake, ManifestSplit)
  }

  lemma EntryGood()
    ensures Good(EntryCodec()) && NonEmpty(EntryCodec())
  {
    assert NonEmpty(StrCodec());
    hide Good, NonEmpty, PairCodec, MapCodec, StrCodec, U64Codec, B32Codec;
    StringsGood();
    IntegersGood();
    FixedGood();
    var c1 := PairCodec(B32Codec(), U64Codec());
    var c2 := PairCodec(U64Codec(), c1);
    PairGood(B32Codec(), U64Codec());
    PairGood(U64Codec(), c1);
    PairGood(StrCodec(), c2);
    MapGood(PairCodec(StrCodec(), c2), EntryMake, EntrySplit);
  }

  lemma ManifestGood()
    ensures Good(ManifestCodec())
  {
    hide Good, NonEmpty, PairCodec, MapCodec, VecCodec, EntryCodec, StrOption;
    EntryGood();
    AnnotationsGood();
    VecGood(EntryCodec());
    var c1 := PairCodec(StrOption(), StrOption());
    PairGood(StrOption(), StrOption());
    PairGood(VecCodec(EntryCodec()), c1);
    MapGood(PairCodec(VecCodec(EntryCodec()), c1), ManifestMake, ManifestSplit);
  }

  lemma ManifestNotEmpty(m: BundleManifest)
    ensures ManifestCodec().enc(m) != []
  {
    hide EntryCodec, StrOption, VecCodec, PairCodec;
    EntryGood();
    VecLength(EntryCodec(), m.entries);
    var parts := ManifestSplit(m);
    PairLength(VecCodec(EntryCodec()), PairCodec(StrOption(), StrOption()), parts.0, parts.1);
    assert ManifestCodec().enc(m) == PairCodec(VecCodec(EntryCodec()), PairCodec(StrOption(), StrOption())).enc(parts);
  }

  // ---- Padding ----

  /** The first of p, 2p, 4p, ... that is at least n. */
  function DoubledUpTo(n: nat, p: nat): (r: nat)
    requires p > 0
    ensures r >= n && r >= p
    ensures r > p ==> r < 2 * n
    decreases n - p
  {
    if p >= n then p else DoubledUpTo(n, 2 * p)
  }

  function NextPowerOfTwo(n: nat): nat { DoubledUpTo(n, 1) }

  ghost predicate IsPowerOfTwo(x: nat) { exists k: nat :: x == Pow2(k) }

  lemma {:induction false} DoublingStaysPower(n: nat, k: nat)
    ensures IsPowerOfTwo(DoubledUpTo(n, Pow2(k)))
    decreases n - Pow2(k)
  {
    if Pow2(k) < n {
      assert Pow2(k + 1) == 2 * Pow2(k);
      DoublingStaysPower(n, k + 1);
    }
  }

  lemma {:induction false} PowersBelow(j: nat, k: nat)
    ensures j <= k ==> Pow2(j) <= Pow2(k)
    ensures j < k ==> 2 * Pow2(j) <= Pow2(k)
    decreases k
  {
    if j < k {
      PowersBelow(j, k - 1);
    }
  }

  /** The least power of two that holds n. */
  lemma NextPowerOfTwoIsLeast(n: nat, x: nat)
    ensures IsPowerOfTwo(NextPowerOfTwo(n)) && NextPowerOfTwo(n) >= n
    ensures IsPowerOfTwo(x) && x >= n ==> x >= NextPowerOfTwo(n)
  {
    DoublingStaysPower(n, 0);
    if IsPowerOfTwo(x) && x >= n {
      var j: nat :| NextPowerOfTwo(n) == Pow2(j);
      var k: nat :| x == Pow2(k);
      PowersBelow(k, j);
      PowersBelow(j, k);
    }
  }

  function PaddingTarget(currentLen: u64, padding: PaddingProfile): (r: Option<u64>)
    ensures r.Some? ==> r.value >= currentLen
  {
    match padding
    case NoPadding => Some(currentLen)
    case Bucket => if NextPowerOfTwo(currentLen) <= U64_MAX then Some(NextPowerOfTwo(currentLen)) else None
    case Fixed(size) => Some(if currentLen >= size then currentLen else size)
  }

  // ---- Packing ----

  /** A source file: its path in the bundle and its content. */
  datatype Source = Source(path: Str, content: bytes)

  function TotalSize(sources: seq<Source>): nat {
    if sources == [] then 0 else |sources[0].content| + TotalSize(sources[1..])
  }

  function EntriesFrom(crypto: Crypto, sources: seq<Source>, offset: nat): (r: seq<BundleEntry>)
    requires offset + TotalSize(sources) <= U64_MAX
    ensures |r| == |sources|
  {
    if sources == [] then []
    else
      var s := sources[0];
      [BundleEntry(s.path, |s.content|, crypto.blake3(s.content), offset)] +
        EntriesFrom(crypto, sources[1..], offset + |s.content|)
  }

  function Contents(sources: seq<Source>): (r: bytes)
    ensures |r| == TotalSize(sources)
  {
    if sources == [] then [] else sources[0].content + Contents(sources[1..])
  }

  /** The u64 offsets hold exactly when the sizes do not overflow. */
  function ManifestOf(crypto: Crypto, sources: seq<Source>, createdAt: Option<Str>,
                      toolVersion: Option<Str>): (r: Option<BundleManifest>)
    ensures r.Some? ==> r.value.createdAt == createdAt && r.value.toolVersion == toolVersion
  {
    if TotalSize(sources) > U64_MAX then None
    else Some(BundleManifest(EntriesFrom(crypto, sources, 0), createdAt, toolVersion))
  }

  function Unpadded(m: BundleManifest, contents: bytes): bytes {
    Le(|ManifestCodec().enc(m)|, 4) + ManifestCodec().enc(m) + contents
  }

  function PackedPayload(crypto: Crypto, sources: seq<Source>, padding: PaddingProfile, createdAt: Option<Str>,
                         toolVersion: Option<Str>): (r: Option<bytes>)
    ensures r.Some? ==> |r.value| <= U64_MAX
  {
    var m :- ManifestOf(crypto, sources, createdAt, toolVersion);
    if |ManifestCodec().enc(m)| > MAX_MANIFEST then None
    else
      var body := Unpadded(m, Contents(sources));
      if |body| > U64_MAX then None
      else
        var target :- PaddingTarget(|body|, padding);
        Some(body + Zeroes(target - |body|))
  }

  /** The payload is a body of that length and then zeroes, as many as the profile asks
      for: none; up to the least power of two that holds the body; up to a fixed size,
      unless the body is longer. */
  ghost predicate Padded(padding: PaddingProfile, bodyLen: nat, payload: bytes) {
    && bodyLen <= |payload|
    && (forall i :: bodyLen <= i < |payload| ==> payload[i] == 0)
    && match padding
       case NoPadding => |payload| == bodyLen
       case Bucket =>
         IsPowerOfTwo(|payload|) && forall x: nat :: IsPowerOfTwo(x) && bodyLen <= x ==> |payload| <= x
       case Fixed(size) => if bodyLen <= size then |payload| == size else |payload| == bodyLen
  }

  /** What is before the padding: manifest length, manifest, contents. */
  function BodyLength(m: BundleManifest, sources: seq<Source>): nat {
    4 + |ManifestCodec().enc(m)| + TotalSize(sources)
  }

  /** A packed payload is the body and exactly the padding that the profile asks for. */
  lemma PackedIsPadded(crypto: Crypto, sources: seq<Source>, padding: PaddingProfile, createdAt: Option<Str>,
                       toolVersion: Option<Str>)
    requires PackedPayload(crypto, sources, padding, createdAt, toolVersion).Some?
    ensures ManifestOf(crypto, sources, createdAt, toolVersion).Some?
    ensures var m := ManifestOf(crypto, sources, createdAt, toolVersion).value;
      var payload := PackedPayload(crypto, sources, padding, createdAt, toolVersion).value;
      && Padded(padding, BodyLength(m, sources), payload)
      && payload[..BodyLength(m, sources)] ==
           Le(|ManifestCodec().enc(m)|, 4) + ManifestCodec().enc(m) + Contents(sources)
  {
    hide ManifestCodec, ManifestOf, Contents, TotalSize, Le, NextPowerOfTwo, IsPowerOfTwo;
    var m := ManifestOf(crypto, sources, createdAt, toolVersion).value;
    var n := BodyLength(m, sources);
    assert |Unpadded(m, Contents(sources))| == n;
    NextPowerOfTwoIsLeast(n, n);
    forall x: nat | IsPowerOfTwo(x) && n <= x ensures NextPowerOfTwo(n) <= x { NextPowerOfTwoIsLeast(n, x); }
  }

  /** Exactly when sources can be packed: no size overflows, the manifest is not too long,
      and bucket padding finds a power of two that a u64 can say. */
  lemma PackedIff(crypto: Crypto, sources: seq<Source>, padding: PaddingProfile, createdAt: Option<Str>,
                  toolVersion: Option<Str>)
    ensures PackedPayload(crypto, sources, padding, createdAt, toolVersion).Some? <==>
      && TotalSize(sources) <= U64_MAX
      && var m := BundleManifest(EntriesFrom(crypto, sources, 0), createdAt, toolVersion);
      && |ManifestCodec().enc(m)| <= 0x100_0000 && BodyLength(m, sources) <= U64_MAX
      && (padding.Bucket? ==> exists x: nat :: IsPowerOfTwo(x) && BodyLength(m, sources) <= x <= U64_MAX)
  {
    hide ManifestCodec, EntriesFrom, Contents, TotalSize, Le, NextPowerOfTwo, IsPowerOfTwo;
    if TotalSize(sources) <= U64_MAX {
      var m := BundleManifest(EntriesFrom(crypto, sources, 0), createdAt, toolVersion);
      var n := BodyLength(m, sources);
      assert |Unpadded(m, Contents(sources))| == n;
      NextPowerOfTwoIsLeast(n, n);
      forall x: nat | IsPowerOfTwo(x) && n <= x ensures NextPowerOfTwo(n) <= x { NextPowerOfTwoIsLeast(n, x); }
    }
  }

  // ---- Opening ----

  function DecodeManifest(input: bytes): Option<BundleManifest> {
    DecodeExact(ManifestCodec(), input)
  }

  /** Where the manifest ends, by the length before it. */
  function DataStart(payload: bytes): (r: Option<nat>)
    ensures r.Some? ==> 4 < r.value <= |payload|
  {
    if |payload| < 4 then None
    else
      var n := FromLe(payload[..4]);
      if n == 0 || n > MAX_MANIFEST || 4 + n > |payload| then None else Some(4 + n)
  }

  /** The manifest and where the file contents start, if the payload passes all
      checks that do not look at the contents. */
  function OpenPayload(lower: bytes -> bytes, payload: bytes): (r: Option<(BundleManifest, nat)>)
    ensures r.Some? ==> 4 < r.value.1 <= |payload| && ValidLayout(lower, r.value.0, r.value.1, |payload|)
  {
    var dataStart :- DataStart(payload);
    var m :- DecodeManifest(payload[4..dataStart]);
    if ValidLayout(lower, m, dataStart, |payload|) then Some((m, dataStart)) else None
  }

  function EntryBytes(payload: bytes, dataStart: nat, e: BundleEntry): bytes
    requires dataStart + e.offset + e.size <= |payload|
  {
    payload[dataStart + e.offset..dataStart + e.offset + e.size]
  }

  /** Every file has the content its manifest entry was hashed from. */
  predicate AllVerify(crypto: Crypto, payload: bytes, m: BundleManifest, dataStart: nat)
    requires EntriesInside(m.entries, dataStart, |payload|)
  {
    forall k :: 0 <= k < |m.entries| ==>
      crypto.blake3(EntryBytes(payload, dataStart, m.entries[k])) == m.entries[k].blake3Hash
  }

  // ---- Packing and opening undo each other ----

  predicate SourcesValid(sources: seq<Source>) {
    forall k :: 0 <= k < |sources| ==> ValidPath(sources[k].path)
  }

  predicate SourcesDistinct(lower: bytes -> bytes, sources: seq<Source>) {
    forall j, k :: 0 <= j < k < |sources| ==> lower(sources[j].path) != lower(sources[k].path)
  }

  /** Entry k describes source k, and its range in the contents holds it. */
  predicate Describes(crypto: Crypto, e: BundleEntry, s: Source, contents: bytes, offset: nat) {
    && e.relativePath == s.path && e.size == |s.content| && e.blake3Hash == crypto.blake3(s.content)
    && offset <= e.offset && e.offset - offset + e.size <= |contents|
    && contents[e.offset - offset..e.offset - offset + e.size] == s.content
  }

  lemma {:induction false} EntryDescribes(crypto: Crypto, sources: seq<Source>, offset: nat, k: nat)
    requires offset + TotalSize(sources) <= U64_MAX && k < |sources|
    ensures Describes(crypto, EntriesFrom(crypto, sources, offset)[k], sources[k], Contents(sources), offset)
    decreases k
  {
    hide Describes, EntriesFrom;
    var head, rest := sources[0].content, Contents(sources[1..]);
    EntriesFirst(crypto, sources, offset);
    if k == 0 {
      FirstDescribes(crypto, sources[0], rest, offset);
    } else {
      var next := offset + |head|;
      EntryDescribes(crypto, sources[1..], next, k - 1);
      LaterDescribes(crypto, EntriesFrom(crypto, sources[1..], next)[k - 1], sources[k], head, rest, offset);
    }
  }

  lemma EntriesFirst(crypto: Crypto, sources: seq<Source>, offset: nat)
    requires sources != [] && offset + TotalSize(sources) <= U64_MAX
    ensures var s := sources[0];
      EntriesFrom(crypto, sources, offset) ==
        [BundleEntry(s.path, |s.content|, crypto.blake3(s.content), offset)] +
          EntriesFrom(crypto, sources[1..], offset + |s.content|)
  {
  }

  lemma FirstDescribes(crypto: Crypto, s: Source, rest: bytes, offset: u64)
    requires |s.content| <= U64_MAX
    ensures Describes(crypto, BundleEntry(s.path, |s.content|, crypto.blake3(s.content), offset), s, s.content + rest,
      offset)
  {
    assert (s.content + rest)[0..|s.content|] == s.content;
  }

  lemma LaterDescribes(crypto: Crypto, e: BundleEntry, s: Source, head: bytes, rest: bytes, offset: nat)
    requires Describes(crypto, e, s, rest, offset + |head|)
    ensures Describes(crypto, e, s, head + rest, offset)
  {
    var from := e.offset - offset - |head|;
    ShiftedSlice(head, rest, from, from + e.size);
  }

  lemma ShiftedSlice(head: bytes, rest: bytes, from: nat, to: nat)
    requires from <= to <= |rest|
    ensures (head + rest)[|head| + from..|head| + to] == rest[from..to]
  {
  }

  /** Files are laid out one after the other. */
  lemma {:induction false} EntriesOrdered(crypto: Crypto, sources: seq<Source>, offset: nat, j: nat, k: nat)
    requires offset + TotalSize(sources) <= U64_MAX && j < k < |sources|
    ensures var entries := EntriesFrom(crypto, sources, offset);
      entries[j].offset + entries[j].size <= entries[k].offset
    decreases j
  {
    var next := offset + |sources[0].content|;
    if j == 0 {
      EntryDescribes(crypto, sources[1..], next, k - 1);
    } else {
      EntriesOrdered(crypto, sources[1..], next, j - 1, k - 1);
    }
  }

  lemma PackedLayout(crypto: Crypto, lower: bytes -> bytes, sources: seq<Source>, createdAt: Option<Str>,
                     toolVersion: Option<Str>, dataStart: nat, payloadLen: nat)
    requires ManifestOf(crypto, sources, createdAt, toolVersion).Some?
    requires dataStart + TotalSize(sources) <= payloadLen
    ensures ValidLayout(lower, ManifestOf(crypto, sources, createdAt, toolVersion).value, dataStart, payloadLen)
       <==> SourcesValid(sources) && SourcesDistinct(lower, sources)
  {
    hide EntriesFrom, TotalSize, Contents, ValidPath, Disjoint;
    var m := ManifestOf(crypto, sources, createdAt, toolVersion).value;
    forall k | 0 <= k < |sources|
      ensures m.entries[k].relativePath == sources[k].path
      ensures dataStart + m.entries[k].offset + m.entries[k].size <= payloadLen
    {
      EntryDescribes(crypto, sources, 0, k);
    }
    forall j, k | 0 <= j < k < |sources|
      ensures m.entries[j].offset + m.entries[j].size <= m.entries[k].offset
    {
      EntriesOrdered(crypto, sources, 0, j, k);
    }
    assert PathsValid(m.entries) <==> SourcesValid(sources);
    assert PathsDistinct(lower, m.entries) <==> SourcesDistinct(lower, sources);
    OrderedEntriesDisjoint(m.entries, dataStart);
  }

  lemma OrderedEntriesDisjoint(entries: seq<BundleEntry>, dataStart: nat)
    requires forall j, k :: 0 <= j < k < |entries| ==> entries[j].offset + entries[j].size <= entries[k].offset
    ensures EntriesDisjoint(entries, dataStart)
  {
  }

  lemma UnpaddedParts(encoded: bytes, contents: bytes, zeroes: bytes)
    requires 0 < |encoded| <= MAX_MANIFEST
    ensures var payload := Le(|encoded|, 4) + encoded + contents + zeroes;
      && FromLe(payload[..4]) == |encoded|
      && payload[4..4 + |encoded|] == encoded
      && payload[4 + |encoded|..4 + |encoded| + |contents|] == contents
  {
    hide Le, FromLe;
    ConcatParts(Le(|encoded|, 4), encoded, contents, zeroes);
    Pow256Values();
    FromLeOfLe(|encoded|, 4);
  }

  lemma ConcatParts(a: bytes, b: bytes, c: bytes, d: bytes)
    ensures (a + b + c + d)[..|a|] == a
    ensures (a + b + c + d)[|a|..|a| + |b|] == b
    ensures (a + b + c + d)[|a| + |b|..|a| + |b| + |c|] == c
  {
  }

  lemma PackedHasManifest(crypto: Crypto, sources: seq<Source>, padding: PaddingProfile, createdAt: Option<Str>,
                          toolVersion: Option<Str>)
    requires PackedPayload(crypto, sources, padding, createdAt, toolVersion).Some?
    ensures ManifestOf(crypto, sources, createdAt, toolVersion).Some?
  {
    hide ManifestOf, ManifestCodec, PaddingTarget;
  }

  /** What packing writes opens again exactly when all paths are valid and no two
      of them collide after case folding; the manifest is then the one packed. */
  lemma PackedOpensIff(crypto: Crypto, lower: bytes -> bytes, sources: seq<Source>, padding: PaddingProfile,
                       createdAt: Option<Str>, toolVersion: Option<Str>)
    requires PackedPayload(crypto, sources, padding, createdAt, toolVersion).Some?
    ensures var payload := PackedPayload(crypto, sources, padding, createdAt, toolVersion).value;
      var m := ManifestOf(crypto, sources, createdAt, toolVersion).value;
      && (OpenPayload(lower, payload).Some? <==> SourcesValid(sources) && SourcesDistinct(lower, sources))
      && (OpenPayload(lower, payload).Some? ==> OpenPayload(lower, payload).value == (m, 4 + |ManifestCodec().enc(m)|))
  {
    hide ManifestCodec, ValidLayout, ManifestOf, SourcesValid, SourcesDistinct, PackedPayload, Contents, DataStart,
      EntriesFrom, TotalSize;
    PackedHasManifest(crypto, sources, padding, createdAt, toolVersion);
    PackedShape(crypto, sources, padding, createdAt, toolVersion);
    var m := ManifestOf(crypto, sources, createdAt, toolVersion).value;
    var encoded := ManifestCodec().enc(m);
    var payload := PackedPayload(crypto, sources, padding, createdAt, toolVersion).value;
    ManifestGood();
    DecodeExactOfEncode(ManifestCodec(), m);
    assert DecodeManifest(payload[4..4 + |encoded|]) == Some(m);
    PackedLayout(crypto, lower, sources, createdAt, toolVersion, 4 + |encoded|, |payload|);
  }

  /** Where the parts of a packed payload are. */
  lemma PackedShape(crypto: Crypto, sources: seq<Source>, padding: PaddingProfile, createdAt: Option<Str>,
                    toolVersion: Option<Str>)
    requires PackedPayload(crypto, sources, padding, createdAt, toolVersion).Some?
    requires ManifestOf(crypto, sources, createdAt, toolVersion).Some?
    ensures var payload := PackedPayload(crypto, sources, padding, createdAt, toolVersion).value;
      var encoded := ManifestCodec().enc(ManifestOf(crypto, sources, createdAt, toolVersion).value);
      && 0 < |encoded| <= MAX_MANIFEST
      && 4 + |encoded| + |Contents(sources)| <= |payload|
      && DataStart(payload) == Some(4 + |encoded|)
      && payload[4..4 + |encoded|] == encoded
      && payload[4 + |encoded|..4 + |encoded| + |Contents(sources)|] == Contents(sources)
  {
    hide ManifestCodec, ManifestOf, PaddingTarget, Contents, Le, FromLe, EntriesFrom, TotalSize;
    var m := ManifestOf(crypto, sources, createdAt, toolVersion).value;
    var encoded, contents := ManifestCodec().enc(m), Contents(sources);
    var payload := PackedPayload(crypto, sources, padding, createdAt, toolVersion).value;
    var zeroes := payload[|Unpadded(m, contents)|..];
    assert payload == Unpadded(m, contents) + zeroes == Le(|encoded|, 4) + encoded + contents + zeroes;
    ManifestNotEmpty(m);
    UnpaddedParts(encoded, contents, zeroes);
  }

  /** Two empty files whose paths, "A" and "a", differ in case only. */
  const COLLIDING: seq<Source> := [Source([65], []), Source([97], [])]

  lemma CollidingEntries(crypto: Crypto)
    ensures TotalSize(COLLIDING) == 0 && Contents(COLLIDING) == []
    ensures var hash := crypto.blake3([]);
      EntriesFrom(crypto, COLLIDING, 0) == [BundleEntry([65], 0, hash, 0), BundleEntry([97], 0, hash, 0)]
  {
    var tail := [Source([97], [])];
    assert COLLIDING[1..] == tail && tail[1..] == [];
    assert EntriesFrom(crypto, tail, 0) == [BundleEntry([97], 0, crypto.blake3([]), 0)] + EntriesFrom(crypto, [], 0);
  }

  /** Packing itself checks no collision: on a case-folding reader these files pack
      into a bundle that never opens again. */
  lemma CaseCollisionCounterexample(crypto: Crypto, lower: bytes -> bytes)
    requires lower([65]) == lower([97])
    ensures SourcesValid(COLLIDING)
    ensures PackedPayload(crypto, COLLIDING, NoPadding, None, None).Some?
    ensures OpenPayload(lower, PackedPayload(crypto, COLLIDING, NoPadding, None, None).value).None?
  {
    hide OpenPayload, EntriesFrom, TotalSize, Contents, ManifestCodec, ValidateRelativePath, Le;
    CollidingEntries(crypto);
    var m := ManifestOf(crypto, COLLIDING, None, None).value;
    TinyManifest(m, m.entries[0], m.entries[1]);
    OneLetterPath(65);
    OneLetterPath(97);
    assert COLLIDING[0].path == [65] && COLLIDING[1].path == [97];
    PackedOpensIff(crypto, lower, COLLIDING, NoPadding, None, None);
  }

  lemma OneLetterPath(letter: byte)
    requires letter in {65, 97}
    ensures ValidPath([letter])
  {
    var names := [[letter]];
    assert Join(names) == [letter];
    CanonicalRoundTrip(names);
  }

  lemma TinyManifest(m: BundleManifest, e0: BundleEntry, e1: BundleEntry)
    requires m == BundleManifest([e0, e1], None, None)
    requires forall e :: e in m.entries ==> |e.relativePath| <= 4 && e.size <= 1 && e.offset <= 1
    ensures |ManifestCodec().enc(m)| <= 100
  {
    TinyEntry(e0);
    TinyEntry(e1);
    hide EntryCodec, StrCodec;
    assert m.entries[1..] == [e1] && [e1][1..] == [];
    assert EncAll(EntryCodec(), [e1]) == EntryCodec().enc(e1) + EncAll(EntryCodec(), []);
    assert EncAll(EntryCodec(), m.entries) == EntryCodec().enc(e0) + EncAll(EntryCodec(), [e1]);
    var parts := ManifestSplit(m);
    PairLength(VecCodec(EntryCodec()), PairCodec(StrOption(), StrOption()), parts.0, parts.1);
    PairLength(StrOption(), StrOption(), parts.1.0, parts.1.1);
    assert StrOption().enc(None) == [0];
    assert |VecCodec(EntryCodec()).enc(m.entries)| == 1 + |EncAll(EntryCodec(), m.entries)|;
  }

  lemma TinyEntry(e: BundleEntry)
    requires |e.relativePath| <= 4 && e.size <= 1 && e.offset <= 1
    ensures |EntryCodec().enc(e)| == 35 + |e.relativePath|
  {
    var parts := EntrySplit(e);
    var c1 := PairCodec(B32Codec(), U64Codec());
    var c2 := PairCodec(U64Codec(), c1);
    PairLength(B32Codec(), U64Codec(), parts.1.1.0, parts.1.1.1);
    PairLength(U64Codec(), c1, parts.1.0, parts.1.1);
    PairLength(StrCodec(), c2, parts.0, parts.1);
    assert |EncVarint(e.size)| == 1 && |EncVarint(e.offset)| == 1 && |EncVarint(|e.relativePath|)| == 1;
  }

  /** Two files of one byte each, whose paths differ and name the same target. */
  function Sharing(): seq<Source> {
    AsciiIsUtf8(DOUBLED);
    AsciiIsUtf8(SINGLE);
    [Source(DOUBLED, [1]), Source(SINGLE, [2])]
  }

  lemma SharingEntries(crypto: Crypto)
    ensures TotalSize(Sharing()) == 2
    ensures EntriesFrom(crypto, Sharing(), 0) ==
      [BundleEntry(Sharing()[0].path, 1, crypto.blake3([1]), 0),
        BundleEntry(Sharing()[1].path, 1, crypto.blake3([2]), 1)]
  {
    var all := Sharing();
    var tail := [all[1]];
    assert all[1..] == tail && tail[1..] == [];
    assert EntriesFrom(crypto, tail, 1) ==
      [BundleEntry(all[1].path, 1, crypto.blake3([2]), 1)] + EntriesFrom(crypto, [], 2);
  }

  /** They can be packed, and the payload opens unless case folding makes them equal. */
  lemma SharingOpens(crypto: Crypto, lower: bytes -> bytes)
    requires lower(DOUBLED) != lower(SINGLE)
    ensures SourcesValid(Sharing()) && PackedPayload(crypto, Sharing(), NoPadding, None, None).Some?
    ensures ManifestOf(crypto, Sharing(), None, None).Some?
    ensures OpenPayload(lower, PackedPayload(crypto, Sharing(), NoPadding, None, None).value).Some?
  {
    hide OpenPayload, EntriesFrom, TotalSize, Contents, ManifestCodec, ValidateRelativePath, Le;
    SharingEntries(crypto);
    var m := ManifestOf(crypto, Sharing(), None, None).value;
    TinyManifest(m, m.entries[0], m.entries[1]);
    DistinctStringsSameTarget();
    assert Sharing()[0].path == DOUBLED && Sharing()[1].path == SINGLE;
    PackedOpensIff(crypto, lower, Sharing(), NoPadding, None, None);
  }

  /** The manifest lists the sources, every file verifies, and its range holds
      exactly its content. */
  ghost predicate Holds(crypto: Crypto, payload: bytes, m: BundleManifest, dataStart: nat, sources: seq<Source>) {
    && |m.entries| == |sources|
    && EntriesInside(m.entries, dataStart, |payload|)
    && AllVerify(crypto, payload, m, dataStart)
    && forall k :: 0 <= k < |sources| ==>
         m.entries[k].relativePath == sources[k].path &&
           EntryBytes(payload, dataStart, m.entries[k]) == sources[k].content
  }

  lemma PackedHolds(crypto: Crypto, sources: seq<Source>, padding: PaddingProfile, createdAt: Option<Str>,
                    toolVersion: Option<Str>)
    requires PackedPayload(crypto, sources, padding, createdAt, toolVersion).Some?
    ensures var m := ManifestOf(crypto, sources, createdAt, toolVersion).value;
      Holds(crypto, PackedPayload(crypto, sources, padding, createdAt, toolVersion).value, m,
        4 + |ManifestCodec().enc(m)|, sources)
  {
    hide ManifestCodec, PackedPayload, Contents, EntriesFrom, DataStart;
    PackedHasManifest(crypto, sources, padding, createdAt, toolVersion);
    PackedShape(crypto, sources, padding, createdAt, toolVersion);
    var m := ManifestOf(crypto, sources, createdAt, toolVersion).value;
    var contents := Contents(sources);
    var payload := PackedPayload(crypto, sources, padding, createdAt, toolVersion).value;
    var dataStart := 4 + |ManifestCodec().enc(m)|;
    forall k | 0 <= k < |sources|
      ensures dataStart + m.entries[k].offset + m.entries[k].size <= |payload|
      ensures EntryBytes(payload, dataStart, m.entries[k]) == sources[k].content
      ensures m.entries[k].relativePath == sources[k].path
      ensures m.entries[k].blake3Hash == crypto.blake3(sources[k].content)
    {
      EntryDescribes(crypto, sources, 0, k);
      SliceOfSlice(payload, dataStart, contents, m.entries[k].offset, m.entries[k].size);
    }
  }

  lemma SliceOfSlice(payload: bytes, dataStart: nat, contents: bytes, offset: nat, size: nat)
    requires dataStart + |contents| <= |payload| && payload[dataStart..dataStart + |contents|] == contents
    requires offset + size <= |contents|
    ensures payload[dataStart + offset..dataStart + offset + size] == contents[offset..offset + size]
  {
    var slice := payload[dataStart + offset..dataStart + offset + size];
    forall i | 0 <= i < size ensures slice[i] == contents[offset..offset + size][i] {
      assert slice[i] == payload[dataStart..dataStart + |contents|][offset + i];
    }
  }
}
