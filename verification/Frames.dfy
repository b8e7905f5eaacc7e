/** The payload as a sequence of frames: the sequential specification that the
    batched engine is proved against, and the language it accepts. */
module Frames {
  import opened Bytes
  import opened ChunkCipher
  import opened Primitives
  import opened Protocol
  import Framing
  import Lco

  /** Chunk and batch sizes. The format fixes PAYLOAD_PARAMS; nothing below
      depends on its numbers. */
  datatype Params = Params(chunkSize: nat, batchChunks: nat) {
    predicate Valid() { chunkSize > 0 && batchChunks > 0 }
  }

  const PAYLOAD_PARAMS := Params(1024 * 1024, 32)

  // ---- Writing ----

  /** Full chunks, then what is left over. */
  function Chunks(chunkSize: nat, plaintext: bytes): (r: seq<bytes>)
    requires chunkSize > 0
    ensures |r| <= |plaintext|
    ensures Flatten(r) == plaintext
    decreases |plaintext|
  {
    if plaintext == [] then []
    else
      var n := Min(chunkSize, |plaintext|);
      [plaintext[..n]] + Chunks(chunkSize, plaintext[n..])
  }

  /** What a version writes: since v2 an empty payload still has one frame. */
  function PayloadChunks(chunkSize: nat, version: u16, plaintext: bytes): (r: seq<bytes>)
    requires chunkSize > 0
    ensures Flatten(r) == plaintext
    ensures |plaintext| <= U64_MAX ==> |r| <= U64_MAX
  {
    if plaintext == [] && version >= CURRENT_VERSION then [[]] else Chunks(chunkSize, plaintext)
  }

  predicate IndicesFit(start: nat, count: nat) { start + count <= U64_MAX + 1 }

  /** The concatenation over i of the frame for chunk i at index start + i. */
  function SealAll(ctx: Context, start: nat, chunks: seq<bytes>): bytes
    requires Usable(ctx) && IndicesFit(start, |chunks|)
    decreases |chunks|
  {
    if chunks == [] then [] else Seal(ctx, start, chunks[0]) + SealAll(ctx, start + 1, chunks[1..])
  }

  function PayloadFrames(ctx: Context, chunkSize: nat, version: u16, plaintext: bytes): bytes
    requires Usable(ctx) && chunkSize > 0 && |plaintext| <= U64_MAX
  {
    SealAll(ctx, 0, PayloadChunks(chunkSize, version, plaintext))
  }

  lemma {:induction false} SealAllAppend(ctx: Context, start: nat, a: seq<bytes>, b: seq<bytes>)
    requires Usable(ctx) && IndicesFit(start, |a| + |b|)
    ensures SealAll(ctx, start, a + b) == SealAll(ctx, start, a) + SealAll(ctx, start + |a|, b)
    decreases |a|
  {
    hide Seal, Open;
    if a == [] {
      assert a + b == b;
    } else {
      SealAllAppend(ctx, start + 1, a[1..], b);
      assert (a + b)[0] == a[0] && (a + b)[1..] == a[1..] + b;
    }
  }

  // ---- How long a payload is ----

  lemma {:induction false} ChunkCount(chunkSize: nat, plaintext: bytes)
    requires chunkSize > 0
    ensures |Chunks(chunkSize, plaintext)| == (|plaintext| + chunkSize - 1) / chunkSize
    decreases |plaintext|
  {
    var n := |plaintext|;
    if n > chunkSize {
      ChunkCount(chunkSize, plaintext[chunkSize..]);
      OneMore(n - 1, chunkSize);
    } else if n > 0 {
      assert plaintext[n..] == [];
      OneMore(n - 1, chunkSize);
      assert (n - 1) / chunkSize == 0;
    } else {
      assert (chunkSize - 1) / chunkSize == 0;
    }
  }

  lemma OneMore(x: nat, d: nat)
    requires d > 0
    ensures (x + d) / d == x / d + 1
  {
    QuotientIs(x + d, d, x / d + 1, x % d);
  }

  lemma {:induction false} SealedLength(ctx: Context, start: nat, chunks: seq<bytes>)
    requires Usable(ctx) && ctx.crypto.Lawful() && IndicesFit(start, |chunks|)
    ensures |SealAll(ctx, start, chunks)| == |Flatten(chunks)| + |chunks| * TagSize(ctx.algorithm)
    decreases |chunks|
  {
    hide Seal, Open;
    if chunks != [] {
      FrameLaw(ctx, start, chunks[0], []);
      SealedLength(ctx, start + 1, chunks[1..]);
      var t := TagSize(ctx.algorithm);
      assert |chunks| * t == t + (|chunks| - 1) * t;
    }
  }

  /** The frames are as many as chunks are begun, one for an empty payload since v2, and
      each adds the tags of its layers. */
  lemma PayloadSize(ctx: Context, chunkSize: nat, version: u16, plaintext: bytes)
    requires Usable(ctx) && ctx.crypto.Lawful() && chunkSize > 0 && |plaintext| <= U64_MAX
    ensures var frames := if plaintext != [] then (|plaintext| + chunkSize - 1) / chunkSize
        else if version >= CURRENT_VERSION then 1 else 0;
      |PayloadFrames(ctx, chunkSize, version, plaintext)| == |plaintext| + frames * TagSize(ctx.algorithm)
  {
    hide Chunks, SealAll, TagSize;
    var chunks := PayloadChunks(chunkSize, version, plaintext);
    if plaintext == [] { NoChunks(chunkSize); }
    ChunkCount(chunkSize, plaintext);
    SealedLength(ctx, 0, chunks);
  }

  lemma NoChunks(chunkSize: nat)
    requires chunkSize > 0
    ensures Chunks(chunkSize, []) == []
  {
  }

  // ---- Reading, one frame after the other ----

  /** Frame sizes come from the number of plaintext bytes still due. */
  function SequentialOpen(ctx: Context, chunkSize: nat, index: nat, remaining: nat, input: bytes): Option<bytes>
    requires Usable(ctx) && chunkSize > 0 && index + remaining <= U64_MAX
    decreases remaining
  {
    if remaining == 0 then if input == [] then Some([]) else None
    else
      var size := Min(remaining, chunkSize);
      var frameSize := size + TagSize(ctx.algorithm);
      if |input| < frameSize then None
      else
        var chunk :- Open(ctx, index, input[..frameSize]);
        var tail :- SequentialOpen(ctx, chunkSize, index + 1, remaining - size, input[frameSize..]);
        Some(chunk + tail)
  }

  /** What decryption makes of an input, for every declared length. An empty input
      with declared length 0 is taken as it is, in both versions. */
  function Accepted(ctx: Context, chunkSize: nat, version: u16, declared: u64, input: bytes): Option<bytes>
    requires chunkSize > 0
  {
    if !IsPayloadAlgorithm(ctx.algorithm) then None
    else if declared == 0 && input == [] then Some([])
    else if !Usable(ctx) then None
    else if declared == 0 then
      if version >= CURRENT_VERSION && |input| == TagSize(ctx.algorithm) then Open(ctx, 0, input) else None
    else SequentialOpen(ctx, chunkSize, 0, declared, input)
  }

  // ---- The accepted language ----

  lemma ChunksCons(chunkSize: nat, head: bytes, tail: bytes)
    requires chunkSize > 0 && head != [] && |head| == Min(chunkSize, |head| + |tail|)
    ensures Chunks(chunkSize, head + tail) == [head] + Chunks(chunkSize, tail)
  {
    var p := head + tail;
    assert p[..|head|] == head && p[|head|..] == tail;
  }

  lemma ChunksStep(ctx: Context, chunkSize: nat, index: nat, head: bytes, tail: bytes)
    requires Usable(ctx) && chunkSize > 0 && index + |head| + |tail| <= U64_MAX
    requires head != [] && |head| == Min(chunkSize, |head| + |tail|)
    ensures Chunks(chunkSize, head + tail) == [head] + Chunks(chunkSize, tail)
    ensures SealAll(ctx, index, Chunks(chunkSize, head + tail))
         == Seal(ctx, index, head) + SealAll(ctx, index + 1, Chunks(chunkSize, tail))
  {
    hide Seal;
    ChunksCons(chunkSize, head, tail);
    assert ([head] + Chunks(chunkSize, tail))[1..] == Chunks(chunkSize, tail);
  }

  lemma {:induction false} SequentialSound(ctx: Context, chunkSize: nat, index: nat, remaining: nat, input: bytes)
    requires Usable(ctx) && ctx.crypto.Lawful() && chunkSize > 0 && index + remaining <= U64_MAX
    requires SequentialOpen(ctx, chunkSize, index, remaining, input).Some?
    ensures var plaintext := SequentialOpen(ctx, chunkSize, index, remaining, input).value;
      |plaintext| == remaining && input == SealAll(ctx, index, Chunks(chunkSize, plaintext))
    decreases remaining
  {
    hide Seal, Open, SealAll, Chunks, SequentialOpen, Usable;
    if remaining > 0 {
      SequentialParts(ctx, chunkSize, index, remaining, input);
      var size := Min(remaining, chunkSize);
      var frameSize := size + TagSize(ctx.algorithm);
      var frame, rest := input[..frameSize], input[frameSize..];
      var chunk := Open(ctx, index, frame).value;
      FrameLaw(ctx, index, chunk, frame);
      SequentialSound(ctx, chunkSize, index + 1, remaining - size, rest);
      SoundStep(ctx, chunkSize, index, chunk, SequentialOpen(ctx, chunkSize, index + 1, remaining - size, rest).value,
        input, frame, rest);
    } else {
      NothingSealed(ctx, chunkSize, index, input);
    }
  }

  lemma NothingSealed(ctx: Context, chunkSize: nat, index: nat, input: bytes)
    requires Usable(ctx) && chunkSize > 0 && index <= U64_MAX
    requires SequentialOpen(ctx, chunkSize, index, 0, input).Some?
    ensures SequentialOpen(ctx, chunkSize, index, 0, input).value == []
    ensures input == SealAll(ctx, index, Chunks(chunkSize, []))
  {
  }

  lemma SequentialParts(ctx: Context, chunkSize: nat, index: nat, remaining: nat, input: bytes)
    requires Usable(ctx) && chunkSize > 0 && index + remaining <= U64_MAX && remaining > 0
    requires SequentialOpen(ctx, chunkSize, index, remaining, input).Some?
    ensures var size := Min(remaining, chunkSize);
      var frameSize := size + TagSize(ctx.algorithm);
      && |input| >= frameSize && Open(ctx, index, input[..frameSize]).Some?
      && SequentialOpen(ctx, chunkSize, index + 1, remaining - size, input[frameSize..]).Some?
      && SequentialOpen(ctx, chunkSize, index, remaining, input).value ==
         Open(ctx, index, input[..frameSize]).value + SequentialOpen(ctx, chunkSize, index + 1, remaining - size,
           input[frameSize..]).value
  {
    hide Open;
  }

  lemma SoundStep(ctx: Context, chunkSize: nat, index: nat, chunk: bytes, tail: bytes, input: bytes, frame: bytes,
                  rest: bytes)
    requires Usable(ctx) && chunkSize > 0 && index + |chunk| + |tail| <= U64_MAX
    requires chunk != [] && |chunk| == Min(chunkSize, |chunk| + |tail|)
    requires input == frame + rest && frame == Seal(ctx, index, chunk)
    requires rest == SealAll(ctx, index + 1, Chunks(chunkSize, tail))
    ensures input == SealAll(ctx, index, Chunks(chunkSize, chunk + tail))
  {
    hide Seal, Chunks, SealAll;
    ChunksStep(ctx, chunkSize, index, chunk, tail);
  }

  lemma {:induction false} SequentialComplete(ctx: Context, chunkSize: nat, index: nat, plaintext: bytes)
    requires Usable(ctx) && ctx.crypto.Lawful() && chunkSize > 0 && index + |plaintext| <= U64_MAX
    ensures SequentialOpen(ctx, chunkSize, index, |plaintext|, SealAll(ctx, index, Chunks(chunkSize, plaintext))) ==
      Some(plaintext)
    decreases |plaintext|
  {
    hide Seal, Open;
    if plaintext != [] {
      var size := Min(|plaintext|, chunkSize);
      var head, tail := plaintext[..size], plaintext[size..];
      assert plaintext == head + tail;
      ChunksStep(ctx, chunkSize, index, head, tail);
      var frame, rest := Seal(ctx, index, head), SealAll(ctx, index + 1, Chunks(chunkSize, tail));
      FrameLaw(ctx, index, head, frame);
      assert (frame + rest)[..|frame|] == frame && (frame + rest)[|frame|..] == rest;
      SequentialComplete(ctx, chunkSize, index + 1, tail);
    }
  }

  lemma SequentialLanguage(ctx: Context, chunkSize: nat, index: nat, remaining: nat, input: bytes, plaintext: bytes)
    requires Usable(ctx) && ctx.crypto.Lawful() && chunkSize > 0 && index + remaining <= U64_MAX
    ensures SequentialOpen(ctx, chunkSize, index, remaining, input) == Some(plaintext)
       <==> |plaintext| == remaining && input == SealAll(ctx, index, Chunks(chunkSize, plaintext))
  {
    if SequentialOpen(ctx, chunkSize, index, remaining, input).Some? {
      SequentialSound(ctx, chunkSize, index, remaining, input);
    }
    if |plaintext| == remaining {
      SequentialComplete(ctx, chunkSize, index, plaintext);
    }
  }

  /** Decryption succeeds with `plaintext` exactly when the input is the writer's
      own frames of that plaintext, in order and with nothing after them, and the
      plaintext has the declared length. The one exception is spelled out: with
      declared length 0 the empty input is accepted as well. */
  lemma AcceptedLanguage(ctx: Context, chunkSize: nat, version: u16, declared: u64, input: bytes, plaintext: bytes)
    requires Usable(ctx) && ctx.crypto.Lawful() && chunkSize > 0
    ensures Accepted(ctx, chunkSize, version, declared, input) == Some(plaintext)
       <==> && |plaintext| == declared
            && (input == PayloadFrames(ctx, chunkSize, version, plaintext) || (declared == 0 && input == []))
  {
    if declared > 0 {
      SequentialLanguage(ctx, chunkSize, 0, declared, input, plaintext);
    } else if version >= CURRENT_VERSION {
      assert SealAll(ctx, 0, [[]]) == Seal(ctx, 0, []) + SealAll(ctx, 1, []);
      FrameLaw(ctx, 0, [], input);
      if |input| == TagSize(ctx.algorithm) && Open(ctx, 0, input).Some? {
        FrameLaw(ctx, 0, Open(ctx, 0, input).value, input);
      }
    }
  }

  /** The streaming round trip on the specification. */
  lemma RoundTrip(ctx: Context, chunkSize: nat, version: u16, plaintext: bytes)
    requires Usable(ctx) && ctx.crypto.Lawful() && chunkSize > 0 && |plaintext| <= U64_MAX
    ensures Accepted(ctx, chunkSize, version, |plaintext|, PayloadFrames(ctx, chunkSize, version, plaintext)) ==
      Some(plaintext)
  {
    AcceptedLanguage(ctx, chunkSize, version, |plaintext|, PayloadFrames(ctx, chunkSize, version, plaintext),
      plaintext);
  }

  /** Exactly when a version's reader demands the authenticated frame its writer
      emits: whenever the declared length is positive. For declared length 0 the
      stripped payload passes under every key, nonce and commitment. */
  lemma FrameDemandedIffNonEmpty(ctx: Context, chunkSize: nat, version: u16, declared: u64)
    requires IsPayloadAlgorithm(ctx.algorithm) && chunkSize > 0
    ensures Accepted(ctx, chunkSize, version, declared, []).None? <==> declared > 0
  {
  }

  lemma EmptyPayloadCounterexample(ctx: Context)
    requires Usable(ctx) && ctx.crypto.Lawful()
    ensures PayloadFrames(ctx, PAYLOAD_PARAMS.chunkSize, CURRENT_VERSION, []) != []
    ensures Accepted(ctx, PAYLOAD_PARAMS.chunkSize, CURRENT_VERSION, 0, []) == Some([])
  {
    FrameLaw(ctx, 0, [], []);
    assert SealAll(ctx, 0, [[]]) == Seal(ctx, 0, []) + SealAll(ctx, 1, []);
  }

  // ---- Consequences: no truncation, no extension, no reordering ----

  lemma {:induction false} FramesLengthFromPlaintextLength(ctx: Context, chunkSize: nat, index: nat, p: bytes, q: bytes)
    requires Usable(ctx) && ctx.crypto.Lawful() && chunkSize > 0
    requires |p| == |q| && index + |p| <= U64_MAX
    ensures |Chunks(chunkSize, p)| == |Chunks(chunkSize, q)|
    ensures |SealAll(ctx, index, Chunks(chunkSize, p))| == |SealAll(ctx, index, Chunks(chunkSize, q))|
    decreases |p|
  {
    hide Seal, Open;
    if p != [] {
      var n := Min(chunkSize, |p|);
      FramesLengthFromPlaintextLength(ctx, chunkSize, index + 1, p[n..], q[n..]);
      FrameLaw(ctx, index, p[..n], []);
      FrameLaw(ctx, index, q[..n], []);
    }
  }

  /** All inputs accepted for one positive declared length have the same length,
      so no proper prefix and no extension of an accepted payload is accepted. */
  lemma NoTruncationNoExtension(ctx: Context, chunkSize: nat, version: u16, declared: u64, a: bytes, b: bytes)
    requires Usable(ctx) && ctx.crypto.Lawful() && chunkSize > 0 && declared > 0
    requires Accepted(ctx, chunkSize, version, declared, a).Some?
    requires Accepted(ctx, chunkSize, version, declared, b).Some?
    ensures |a| == |b| && (a <= b ==> a == b)
  {
    var p, q := Accepted(ctx, chunkSize, version, declared, a).value,
      Accepted(ctx, chunkSize, version, declared, b).value;
    AcceptedLanguage(ctx, chunkSize, version, declared, a, p);
    AcceptedLanguage(ctx, chunkSize, version, declared, b, q);
    FramesLengthFromPlaintextLength(ctx, chunkSize, 0, p, q);
  }

  /** No frame is authentic at two positions (the index is in nonce and AAD). */
  ghost predicate PositionBound(ctx: Context)
    requires Usable(ctx)
  {
    forall i: u64, j: u64, m, n :: Seal(ctx, i, m) == Seal(ctx, j, n) ==> i == j
  }

  /** The last 16 bytes: the outermost authentication tag. */
  function TagOf(frame: bytes): bytes { frame[SaturatingSub(|frame|, TAG_LEN)..] }

  /** No authentication tag occurs at two positions. */
  ghost predicate TagBound(ctx: Context)
    requires Usable(ctx)
  {
    forall i: u64, j: u64, m, n :: TagOf(Seal(ctx, i, m)) == TagOf(Seal(ctx, j, n)) ==> i == j
  }

  lemma TagBoundBindsPositions(ctx: Context)
    requires Usable(ctx) && TagBound(ctx)
    ensures PositionBound(ctx)
  {
    hide Seal;
    forall i: u64, j: u64, m, n | Seal(ctx, i, m) == Seal(ctx, j, n) ensures i == j {
      assert TagOf(Seal(ctx, i, m)) == TagOf(Seal(ctx, j, n));
    }
  }

  // ---- The hypotheses can be met ----

  /** A tag that shows `mark` in a finished frame of the algorithm: under LCO, masked
      with the keystream of the all-zero key. */
  function Veiled(algorithm: AlgorithmId, mark: b16, nonce: bytes, len: nat): b16 {
    if algorithm.TripleCascadeAesXChaChaLco? then
      seq(TAG_LEN, i requires 0 <= i < TAG_LEN => Xor(mark[i], Lco.KeystreamByte(Zeroes(32), nonce, len + i)))
    else mark
  }

  lemma UnveiledByLco(algorithm: AlgorithmId, mark: b16, nonce: bytes, m: bytes)
    requires algorithm.TripleCascadeAesXChaChaLco?
    ensures TagOf(Lco.Apply(m + Veiled(algorithm, mark, nonce, |m|), Zeroes(32), nonce)) == mark
  {
    hide Lco.KeystreamByte, Xor;
    var frame := m + Veiled(algorithm, mark, nonce, |m|);
    var end := TagOf(Lco.Apply(frame, Zeroes(32), nonce));
    forall i | 0 <= i < TAG_LEN ensures end[i] == mark[i] {
      XorTwice(mark[i], Lco.KeystreamByte(Zeroes(32), nonce, |m| + i));
      assert frame[|m| + i] == Veiled(algorithm, mark, nonce, |m|)[i];
    }
  }

  /** A mark of key, nonce, associated data and message of the outermost AEAD layer. */
  type Marking = (b32, bytes, bytes, bytes) -> b16

  /** The tagging that shows a mark in finished frames of the algorithm that belongs to
      the associated data. */
  function Showing(algorithm: bytes -> AlgorithmId, mark: Marking): Tagging {
    (k, n, a, m) => Veiled(algorithm(a), mark(k, n, a, m), n, |m|)
  }

  /** What the outermost AEAD layer of a frame is run on. */
  function OuterKey(ctx: Context): b32 {
    ctx.Subkey(if ctx.algorithm.XChaCha20Poly1305? then Payload else CascadeXChaCha)
  }

  function OuterMessage(ctx: Context, index: u64, chunk: bytes): bytes
    requires Usable(ctx)
  {
    if ctx.algorithm.XChaCha20Poly1305? then chunk
    else
      ctx.crypto.aesgcm.seal(ctx.Subkey(CascadeAes), Framing.AesNonceFor(ctx.secondaryNonce.value, index),
        Framing.ChunkAadFor(ctx.commitment, index), chunk)
  }

  lemma ShownMark(ctx: Context, algorithm: bytes -> AlgorithmId, mark: Marking, index: u64, chunk: bytes)
    requires Usable(ctx) && ctx.crypto.xchacha == TaggedAead(Showing(algorithm, mark))
    requires ctx.Subkey(LegacyLco) == Zeroes(32)
    requires algorithm(Framing.ChunkAadFor(ctx.commitment, index)) == ctx.algorithm
    ensures TagOf(Seal(ctx, index, chunk)) == mark(OuterKey(ctx), Framing.XChaChaNonceFor(ctx.nonce, index),
      Framing.ChunkAadFor(ctx.commitment, index), OuterMessage(ctx, index, chunk))
  {
    hide Framing.NonceFor, Framing.ChunkAadFor, Lco.Apply, TagOf;
    var nonce, aad := Framing.XChaChaNonceFor(ctx.nonce, index), Framing.ChunkAadFor(ctx.commitment, index);
    var message := OuterMessage(ctx, index, chunk);
    var shown := mark(OuterKey(ctx), nonce, aad, message);
    if ctx.algorithm.TripleCascadeAesXChaChaLco? {
      UnveiledByLco(ctx.algorithm, shown, nonce, message);
    } else {
      TagAtEnd(message, shown);
    }
  }

  lemma TagAtEnd(m: bytes, mark: b16)
    ensures TagOf(m + mark) == mark
  {
  }

  /** Lawful primitives for an algorithm whose frames end in the start of their nonce. */
  function WitnessCrypto(algorithm: AlgorithmId): Crypto {
    ToyCrypto().(xchacha := TaggedAead(Showing(_ => algorithm, NonceTag)))
  }

  lemma WitnessIsLawful(algorithm: AlgorithmId)
    ensures WitnessCrypto(algorithm).Lawful()
  {
    LawsAreSatisfiable();
    TaggedIsLawful(Showing(_ => algorithm, NonceTag));
  }

  /** For every algorithm there are lawful primitives that bind tags, and so frames, to
      their position: nonces of different indices differ at the start. */
  lemma TagBoundIsSatisfiable(ctx: Context)
    requires Usable(ctx) && ctx.crypto == WitnessCrypto(ctx.algorithm)
    ensures ctx.crypto.Lawful() && TagBound(ctx) && PositionBound(ctx)
  {
    hide Seal, TagOf, Showing, OuterKey, OuterMessage;
    WitnessIsLawful(ctx.algorithm);
    forall i: u64, j: u64, m, n | TagOf(Seal(ctx, i, m)) == TagOf(Seal(ctx, j, n))
      ensures i == j
    {
      ShownMark(ctx, _ => ctx.algorithm, NonceTag, i, m);
      ShownMark(ctx, _ => ctx.algorithm, NonceTag, j, n);
      NonceTagsDiffer(ctx, i, m, j, n);
    }
    TagBoundBindsPositions(ctx);
  }

  lemma NonceTagsDiffer(ctx: Context, i: u64, m: bytes, j: u64, n: bytes)
    requires Usable(ctx)
    requires var (key, a, b) := (OuterKey(ctx), Framing.XChaChaNonceFor(ctx.nonce, i),
                                 Framing.XChaChaNonceFor(ctx.nonce, j));
      NonceTag(key, a, Framing.ChunkAadFor(ctx.commitment, i), OuterMessage(ctx, i, m)) ==
        NonceTag(key, b, Framing.ChunkAadFor(ctx.commitment, j), OuterMessage(ctx, j, n))
    ensures i == j
  {
    hide Framing.NonceFor, Framing.ChunkAadFor, OuterMessage, OuterKey;
    var a, b := Framing.XChaChaNonceFor(ctx.nonce, i), Framing.XChaChaNonceFor(ctx.nonce, j);
    assert a[..Framing.INDEX_BYTES] == (a + Zeroes(TAG_LEN))[..TAG_LEN][..Framing.INDEX_BYTES];
    assert b[..Framing.INDEX_BYTES] == (b + Zeroes(TAG_LEN))[..TAG_LEN][..Framing.INDEX_BYTES];
    Framing.NonceInjective(ctx.nonce, i, j);
  }

  // ---- Rearranging frames ----

  predicate PicksFrom(chunks: seq<bytes>, pick: seq<nat>) {
    forall i :: 0 <= i < |pick| ==> pick[i] < |chunks|
  }

  /** The writer's frames of `chunks`, rearranged: frame pick[i] goes to place i. */
  function Rearranged(ctx: Context, chunks: seq<bytes>, pick: seq<nat>): bytes
    requires Usable(ctx) && IndicesFit(0, |chunks|) && PicksFrom(chunks, pick)
  {
    if pick == [] then [] else Seal(ctx, pick[0], chunks[pick[0]]) + Rearranged(ctx, chunks, pick[1..])
  }

  // ---- Unrolling a batch ----

  /** Plaintext bytes still due after k frames, as the reader computes it. */
  function Left(chunkSize: nat, remaining: nat, k: nat): nat { SaturatingSub(remaining, k * chunkSize) }

  lemma LeftStep(chunkSize: nat, remaining: nat, k: nat)
    requires k > 0
    ensures Left(chunkSize, remaining, k) == Left(chunkSize, remaining - Min(remaining, chunkSize), k - 1)
  {
    assert k * chunkSize == (k - 1) * chunkSize + chunkSize;
  }

  /** Every frame has the size fixed by what is due when it is read. */
  predicate Sized(chunkSize: nat, tag: nat, remaining: nat, frames: seq<bytes>)
    decreases |frames|
  {
    frames == [] ||
    (&& remaining > 0
     && |frames[0]| == Min(remaining, chunkSize) + tag
     && Sized(chunkSize, tag, remaining - Min(remaining, chunkSize), frames[1..]))
  }

  lemma {:induction false} SizedSnoc(chunkSize: nat, tag: nat, remaining: nat, frames: seq<bytes>, frame: bytes)
    requires Sized(chunkSize, tag, remaining, frames)
    requires Left(chunkSize, remaining, |frames|) > 0
    requires |frame| == Min(Left(chunkSize, remaining, |frames|), chunkSize) + tag
    ensures Sized(chunkSize, tag, remaining, frames + [frame])
    decreases |frames|
  {
    if frames != [] {
      LeftStep(chunkSize, remaining, |frames|);
      SizedSnoc(chunkSize, tag, remaining - Min(remaining, chunkSize), frames[1..], frame);
      assert (frames + [frame])[1..] == frames[1..] + [frame];
    }
  }

  function OpenAll(ctx: Context, start: nat, frames: seq<bytes>): Option<seq<bytes>>
    requires Usable(ctx) && IndicesFit(start, |frames|)
    decreases |frames|
  {
    if frames == [] then Some([])
    else
      var chunk :- Open(ctx, start, frames[0]);
      var rest :- OpenAll(ctx, start + 1, frames[1..]);
      Some([chunk] + rest)
  }

  /** Batch results do not depend on the order in which they ran: they are
      determined slot by slot, slot k at index start + k. */
  lemma {:induction false} OpenAllPointwise(ctx: Context, start: nat, frames: seq<bytes>, chunks: seq<bytes>)
    requires Usable(ctx) && IndicesFit(start, |frames|)
    ensures OpenAll(ctx, start, frames) == Some(chunks) <==>
      |chunks| == |frames| && forall k :: 0 <= k < |frames| ==> Open(ctx, start + k, frames[k]) == Some(chunks[k])
    decreases |frames|
  {
    hide Seal, Open;
    if frames != [] && chunks != [] {
      OpenAllPointwise(ctx, start + 1, frames[1..], chunks[1..]);
      assert chunks == [chunks[0]] + chunks[1..];
      if OpenAll(ctx, start, frames) == Some(chunks) {
        forall k | 0 <= k < |frames|
          ensures Open(ctx, start + k, frames[k]) == Some(chunks[k])
        {
          if k > 0 { assert frames[k] == frames[1..][k - 1] && chunks[k] == chunks[1..][k - 1]; }
        }
      }
      if |chunks| == |frames| && forall k :: 0 <= k < |frames| ==> Open(ctx, start + k, frames[k]) == Some(chunks[k]) {
        forall k | 0 <= k < |frames[1..]|
          ensures Open(ctx, start + 1 + k, frames[1..][k]) == Some(chunks[1..][k])
        {
          assert Open(ctx, start + (k + 1), frames[k + 1]) == Some(chunks[k + 1]);
        }
      }
    }
  }

  lemma OpenAllFails(ctx: Context, start: nat, frames: seq<bytes>, k: nat)
    requires Usable(ctx) && IndicesFit(start, |frames|)
    requires k < |frames| && Open(ctx, start + k, frames[k]).None?
    ensures OpenAll(ctx, start, frames).None?
  {
    if OpenAll(ctx, start, frames).Some? {
      OpenAllPointwise(ctx, start, frames, OpenAll(ctx, start, frames).value);
    }
  }

  function Prepend(head: bytes, tail: Option<bytes>): Option<bytes> {
    if tail.None? then None else Some(head + tail.value)
  }

  lemma PrependTwice(a: bytes, b: bytes, tail: Option<bytes>)
    ensures Prepend(a, Prepend(b, tail)) == Prepend(a + b, tail)
  {
    if tail.Some? {
      assert a + (b + tail.value) == a + b + tail.value;
    }
  }

  lemma {:induction false} IndexAfter(chunkSize: nat, tag: nat, index: nat, remaining: nat, frames: seq<bytes>)
    requires chunkSize > 0 && Sized(chunkSize, tag, remaining, frames)
    ensures index + |frames| + Left(chunkSize, remaining, |frames|) <= index + remaining
    decreases |frames|
  {
    if frames != [] {
      LeftStep(chunkSize, remaining, |frames|);
      IndexAfter(chunkSize, tag, index + 1, remaining - Min(remaining, chunkSize), frames[1..]);
    }
  }

  /** Reading a batch of well-sized frames and then the rest is reading it all. */
  lemma {:induction false} Unroll(ctx: Context, chunkSize: nat, index: nat, remaining: nat, frames: seq<bytes>,
                                  rest: bytes)
    requires Usable(ctx) && chunkSize > 0 && index + remaining <= U64_MAX
    requires Sized(chunkSize, TagSize(ctx.algorithm), remaining, frames)
    requires index + |frames| + Left(chunkSize, remaining, |frames|) <= U64_MAX
    ensures SequentialOpen(ctx, chunkSize, index, remaining, Flatten(frames) + rest) ==
      if OpenAll(ctx, index, frames).None? then None
      else Prepend(Flatten(OpenAll(ctx, index, frames).value),
        SequentialOpen(ctx, chunkSize, index + |frames|, Left(chunkSize, remaining, |frames|), rest))
    decreases |frames|
  {
    hide Seal, Open, SequentialOpen, Left, Prepend;
    if frames == [] {
      assert Flatten(frames) + rest == rest;
      NothingPrepended(chunkSize, remaining, SequentialOpen(ctx, chunkSize, index, remaining, rest));
    } else {
      var size := Min(remaining, chunkSize);
      var later := Flatten(frames[1..]) + rest;
      assert Flatten(frames) + rest == frames[0] + later;
      SequentialStep(ctx, chunkSize, index, remaining, frames[0], later);
      LeftStep(chunkSize, remaining, |frames|);
      Unroll(ctx, chunkSize, index + 1, remaining - size, frames[1..], rest);
      if Open(ctx, index, frames[0]).Some? {
        UnrollMore(Open(ctx, index, frames[0]).value, OpenAll(ctx, index + 1, frames[1..]),
          SequentialOpen(ctx, chunkSize, index + |frames|, Left(chunkSize, remaining, |frames|), rest));
      }
    }
  }

  lemma NothingPrepended(chunkSize: nat, remaining: nat, tail: Option<bytes>)
    requires chunkSize > 0
    ensures Left(chunkSize, remaining, 0) == remaining && Prepend([], tail) == tail
  {
    if tail.Some? { assert [] + tail.value == tail.value; }
  }

  lemma UnrollMore(chunk: bytes, more: Option<seq<bytes>>, tail: Option<bytes>)
    ensures more.None? ==> Prepend(chunk, None) == None
    ensures more.Some? ==>
      Prepend(chunk, Prepend(Flatten(more.value), tail)) == Prepend(Flatten([chunk] + more.value), tail)
  {
    if more.Some? {
      assert Flatten([chunk] + more.value) == chunk + Flatten(more.value);
      PrependTwice(chunk, Flatten(more.value), tail);
    }
  }

  lemma SequentialStep(ctx: Context, chunkSize: nat, index: nat, remaining: nat, frame: bytes, later: bytes)
    requires Usable(ctx) && chunkSize > 0 && index + remaining <= U64_MAX
    requires remaining > 0 && |frame| == Min(remaining, chunkSize) + TagSize(ctx.algorithm)
    ensures SequentialOpen(ctx, chunkSize, index, remaining, frame + later) ==
      if Open(ctx, index, frame).None? then None
      else Prepend(Open(ctx, index, frame).value,
        SequentialOpen(ctx, chunkSize, index + 1, remaining - Min(remaining, chunkSize), later))
  {
    hide Open;
    assert (frame + later)[..|frame|] == frame && (frame + later)[|frame|..] == later;
  }

  /** An opened batch: its frames are the seals of its chunks, and it accounts for
      exactly the bytes no longer due. */
  lemma {:induction false} OpenedBatch(ctx: Context, chunkSize: nat, index: nat, remaining: nat, frames: seq<bytes>)
    requires Usable(ctx) && ctx.crypto.Lawful() && chunkSize > 0 && IndicesFit(index, |frames|)
    requires Sized(chunkSize, TagSize(ctx.algorithm), remaining, frames)
    requires OpenAll(ctx, index, frames).Some?
    ensures var chunks := OpenAll(ctx, index, frames).value;
      && |chunks| == |frames|
      && SealAll(ctx, index, chunks) == Flatten(frames)
      && |Flatten(chunks)| == remaining - Left(chunkSize, remaining, |frames|)
      && |chunks| <= |Flatten(chunks)|
    decreases |frames|
  {
    hide Seal, Open;
    if frames != [] {
      var chunk, more := Open(ctx, index, frames[0]).value, OpenAll(ctx, index + 1, frames[1..]).value;
      FrameLaw(ctx, index, chunk, frames[0]);
      LeftStep(chunkSize, remaining, |frames|);
      OpenedBatch(ctx, chunkSize, index + 1, remaining - Min(remaining, chunkSize), frames[1..]);
      assert ([chunk] + more)[1..] == more;
    }
  }

  // ---- Rearranged payloads ----

  /** As many frames as there were, each as long as the one whose place it takes. */
  predicate SameShape(chunks: seq<bytes>, pick: seq<nat>) {
    && |pick| == |chunks| && PicksFrom(chunks, pick)
    && forall i :: 0 <= i < |pick| ==> |chunks[pick[i]]| == |chunks[i]|
  }

  /** The frames of a rearranged payload, one by one. */
  function MovedFrames(ctx: Context, chunks: seq<bytes>, pick: seq<nat>): (r: seq<bytes>)
    requires Usable(ctx) && IndicesFit(0, |chunks|) && PicksFrom(chunks, pick)
    ensures |r| == |pick|
  {
    seq(|pick|, i requires 0 <= i < |pick| => Seal(ctx, pick[i], chunks[pick[i]]))
  }

  lemma {:induction false} RearrangedIsFlat(ctx: Context, chunks: seq<bytes>, pick: seq<nat>)
    requires Usable(ctx) && IndicesFit(0, |chunks|) && PicksFrom(chunks, pick)
    ensures Rearranged(ctx, chunks, pick) == Flatten(MovedFrames(ctx, chunks, pick))
  {
    hide Seal;
    if pick != [] {
      RearrangedIsFlat(ctx, chunks, pick[1..]);
      assert MovedFrames(ctx, chunks, pick)[1..] == MovedFrames(ctx, chunks, pick[1..]);
    }
  }

  /** Frames as long as those of a payload fit its declared length, and use it up. */
  lemma {:induction false} ShapeFits(chunkSize: nat, tag: nat, p: bytes, frames: seq<bytes>)
    requires chunkSize > 0 && |frames| == |Chunks(chunkSize, p)|
    requires forall i :: 0 <= i < |frames| ==> |frames[i]| == |Chunks(chunkSize, p)[i]| + tag
    ensures Sized(chunkSize, tag, |p|, frames) && Left(chunkSize, |p|, |frames|) == 0
    decreases |p|
  {
    if p != [] {
      var n := Min(chunkSize, |p|);
      ShapeFits(chunkSize, tag, p[n..], frames[1..]);
      LeftStep(chunkSize, |p|, |frames|);
    }
  }

  lemma {:induction false} OpenAllIff(ctx: Context, start: nat, frames: seq<bytes>)
    requires Usable(ctx) && IndicesFit(start, |frames|)
    ensures OpenAll(ctx, start, frames).Some? <==>
      forall k :: 0 <= k < |frames| ==> Open(ctx, start + k, frames[k]).Some?
    decreases |frames|
  {
    hide Open;
    if OpenAll(ctx, start, frames).Some? {
      OpenAllPointwise(ctx, start, frames, OpenAll(ctx, start, frames).value);
    } else {
      OpenAllIff(ctx, start + 1, frames[1..]);
      if Open(ctx, start, frames[0]).Some? {
        var k :| 0 <= k < |frames[1..]| && Open(ctx, start + 1 + k, frames[1..][k]).None?;
        assert Open(ctx, start + (k + 1), frames[k + 1]).None?;
      } else {
        assert Open(ctx, start + 0, frames[0]).None?;
      }
    }
  }

  /** Rearranging the frames of a payload, repeating some and losing others, is
      accepted exactly when every frame is authentic at its new place. */
  lemma RearrangedAcceptedIff(ctx: Context, chunkSize: nat, version: u16, plaintext: bytes, pick: seq<nat>)
    requires Usable(ctx) && ctx.crypto.Lawful()
    requires chunkSize > 0 && 0 < |plaintext| <= U64_MAX && SameShape(Chunks(chunkSize, plaintext), pick)
    ensures var chunks := Chunks(chunkSize, plaintext);
      Accepted(ctx, chunkSize, version, |plaintext|, Rearranged(ctx, chunks, pick)).Some?
      <==> forall i :: 0 <= i < |pick| ==> Open(ctx, i, Seal(ctx, pick[i], chunks[pick[i]])).Some?
  {
    hide Seal, Open, Chunks, Accepted, Rearranged, Left, Sized, Flatten, OpenAll, MovedFrames;
    var chunks := Chunks(chunkSize, plaintext);
    var frames := MovedFrames(ctx, chunks, pick);
    MovedSizes(ctx, chunks, pick);
    ShapeFits(chunkSize, TagSize(ctx.algorithm), plaintext, frames);
    RearrangedIsFlat(ctx, chunks, pick);
    FullBatchAcceptedIff(ctx, chunkSize, version, |plaintext|, frames);
    MovedOpenIff(ctx, chunks, pick);
  }

  lemma MovedSizes(ctx: Context, chunks: seq<bytes>, pick: seq<nat>)
    requires Usable(ctx) && ctx.crypto.Lawful() && IndicesFit(0, |chunks|) && SameShape(chunks, pick)
    ensures forall i :: 0 <= i < |pick| ==> |MovedFrames(ctx, chunks, pick)[i]| == |chunks[i]| + TagSize(ctx.algorithm)
  {
    hide Seal;
    forall i | 0 <= i < |pick| ensures |MovedFrames(ctx, chunks, pick)[i]| == |chunks[i]| + TagSize(ctx.algorithm) {
      FrameLaw(ctx, pick[i], chunks[pick[i]], []);
    }
  }

  lemma MovedOpenIff(ctx: Context, chunks: seq<bytes>, pick: seq<nat>)
    requires Usable(ctx) && IndicesFit(0, |chunks|) && PicksFrom(chunks, pick) && |pick| == |chunks|
    ensures OpenAll(ctx, 0, MovedFrames(ctx, chunks, pick)).Some? <==>
      forall i :: 0 <= i < |pick| ==> Open(ctx, i, Seal(ctx, pick[i], chunks[pick[i]])).Some?
  {
    hide Seal, Open, OpenAll;
    var frames := MovedFrames(ctx, chunks, pick);
    OpenAllIff(ctx, 0, frames);
    assert forall i :: 0 <= i < |pick| ==> frames[i] == Seal(ctx, pick[i], chunks[pick[i]]) && 0 + i == i;
  }

  /** Well-sized frames that use up the declared length are accepted exactly when all
      of them open. */
  lemma FullBatchAcceptedIff(ctx: Context, chunkSize: nat, version: u16, declared: u64, frames: seq<bytes>)
    requires Usable(ctx) && chunkSize > 0 && 0 < declared && |frames| <= declared
    requires Sized(chunkSize, TagSize(ctx.algorithm), declared, frames) && Left(chunkSize, declared, |frames|) == 0
    ensures Accepted(ctx, chunkSize, version, declared, Flatten(frames)).Some? <==> OpenAll(ctx, 0, frames).Some?
  {
    hide Open, OpenAll, SequentialOpen, Left, Sized, Flatten;
    Unroll(ctx, chunkSize, 0, declared, frames, []);
    assert Flatten(frames) + [] == Flatten(frames);
    NothingDue(ctx, chunkSize, |frames|);
  }

  lemma NothingDue(ctx: Context, chunkSize: nat, index: nat)
    requires Usable(ctx) && chunkSize > 0 && index <= U64_MAX
    ensures SequentialOpen(ctx, chunkSize, index, 0, []) == Some([])
  {
  }

  /** With frames bound to their position, a payload whose frames are as many and as
      long as before is accepted only unmoved. */
  lemma NoReorderingInShape(ctx: Context, chunkSize: nat, version: u16, plaintext: bytes, pick: seq<nat>)
    requires Usable(ctx) && ctx.crypto.Lawful() && PositionBound(ctx)
    requires chunkSize > 0 && 0 < |plaintext| <= U64_MAX && SameShape(Chunks(chunkSize, plaintext), pick)
    ensures Accepted(ctx, chunkSize, version, |plaintext|, Rearranged(ctx, Chunks(chunkSize, plaintext), pick)).Some?
       <==> Unmoved(pick, |pick|)
  {
    hide Seal, Open, Chunks, Accepted, Rearranged;
    var chunks := Chunks(chunkSize, plaintext);
    RearrangedAcceptedIff(ctx, chunkSize, version, plaintext, pick);
    forall i | 0 <= i < |pick| ensures Open(ctx, i, Seal(ctx, pick[i], chunks[pick[i]])).Some? <==> pick[i] == i {
      var frame := Seal(ctx, pick[i], chunks[pick[i]]);
      FrameLaw(ctx, i, chunks[pick[i]], frame);
      var opening := Open(ctx, i, frame);
      if opening.Some? { FrameLaw(ctx, i, opening.value, frame); }
    }
  }

  // ---- Rearrangements of any number and sizes of frames ----

  predicate Unmoved(pick: seq<nat>, n: nat) {
    |pick| == n && forall i :: 0 <= i < n ==> pick[i] == i
  }

  lemma {:induction false} RearrangedSnoc(ctx: Context, chunks: seq<bytes>, pick: seq<nat>)
    requires Usable(ctx) && IndicesFit(0, |chunks|) && PicksFrom(chunks, pick) && pick != []
    ensures var last := pick[|pick| - 1];
      Rearranged(ctx, chunks, pick) == Rearranged(ctx, chunks, pick[..|pick| - 1]) + Seal(ctx, last, chunks[last])
    decreases |pick|
  {
    hide Seal;
    if |pick| == 1 {
      assert pick[..0] == [] && pick[1..] == [];
    } else {
      RearrangedSnoc(ctx, chunks, pick[1..]);
      assert pick[1..][..|pick| - 2] == pick[..|pick| - 1][1..];
    }
  }

  lemma SealAllSnoc(ctx: Context, chunks: seq<bytes>, n: nat)
    requires Usable(ctx) && IndicesFit(0, |chunks|) && 0 < n <= |chunks|
    ensures SealAll(ctx, 0, chunks[..n]) == SealAll(ctx, 0, chunks[..n - 1]) + Seal(ctx, n - 1, chunks[n - 1])
  {
    hide Seal;
    SealAllAppend(ctx, 0, chunks[..n - 1], [chunks[n - 1]]);
    assert chunks[..n] == chunks[..n - 1] + [chunks[n - 1]];
    assert SealAll(ctx, n - 1, [chunks[n - 1]]) == Seal(ctx, n - 1, chunks[n - 1]) + SealAll(ctx, n, []);
  }

  lemma {:induction false} UnmovedIsSealed(ctx: Context, chunks: seq<bytes>, n: nat, pick: seq<nat>)
    requires Usable(ctx) && IndicesFit(0, |chunks|) && n <= |chunks| && Unmoved(pick, n)
    ensures PicksFrom(chunks, pick) && Rearranged(ctx, chunks, pick) == SealAll(ctx, 0, chunks[..n])
    decreases n
  {
    hide Seal, SealAll, Rearranged;
    if n > 0 {
      RearrangedSnoc(ctx, chunks, pick);
      SealAllSnoc(ctx, chunks, n);
      UnmovedIsSealed(ctx, chunks, n - 1, pick[..n - 1]);
    } else {
      NothingRearranged(ctx, chunks);
    }
  }

  lemma NothingRearranged(ctx: Context, chunks: seq<bytes>)
    requires Usable(ctx) && IndicesFit(0, |chunks|)
    ensures Rearranged(ctx, chunks, []) == [] && SealAll(ctx, 0, chunks[..0]) == []
  {
  }

  /** Chunk lists of the same number and sizes. */
  predicate Alike(a: seq<bytes>, b: seq<bytes>) {
    |a| == |b| && forall k :: 0 <= k < |a| ==> |a[k]| == |b[k]|
  }

  lemma {:induction false} ChunksAlike(chunkSize: nat, version: u16, p: bytes, q: bytes)
    requires chunkSize > 0 && |p| == |q|
    ensures Alike(Chunks(chunkSize, p), Chunks(chunkSize, q))
    ensures Alike(PayloadChunks(chunkSize, version, p), PayloadChunks(chunkSize, version, q))
    decreases |p|
  {
    if p != [] {
      var n := Min(chunkSize, |p|);
      ChunksAlike(chunkSize, version, p[n..], q[n..]);
    }
  }

  /** Two byte strings that end in a frame each and are equal: the tags are, too. */
  lemma SameEnd(a: bytes, x: bytes, b: bytes, y: bytes)
    requires a + x == b + y && |x| >= TAG_LEN && |y| >= TAG_LEN
    ensures TagOf(x) == TagOf(y)
    ensures |x| == |y| ==> a == b
  {
    assert TagOf(a + x) == TagOf(x) && TagOf(b + y) == TagOf(y);
    if |x| == |y| { assert a == (a + x)[..|a|] && b == (b + y)[..|b|]; }
  }

  /** From the last frame to the first: where tags are bound to positions, frames of
      one chunk list equal the frames of a list alike only if they were not moved. */
  lemma {:induction false} TagsDecide(ctx: Context, chunks: seq<bytes>, other: seq<bytes>, n: nat, pick: seq<nat>)
    requires Usable(ctx) && ctx.crypto.Lawful() && TagBound(ctx)
    requires IndicesFit(0, |chunks|) && Alike(chunks, other) && n <= |chunks| && PicksFrom(chunks, pick)
    requires Rearranged(ctx, chunks, pick) == SealAll(ctx, 0, other[..n])
    ensures Unmoved(pick, n)
    decreases n
  {
    hide Seal, SealAll, Rearranged, TagOf;
    if pick != [] { RearrangedSnoc(ctx, chunks, pick); }
    if n > 0 { SealAllSnoc(ctx, other, n); }
    NothingRearranged(ctx, chunks);
    NothingRearranged(ctx, other);
    if pick != [] {
      var last := pick[|pick| - 1];
      FrameLaw(ctx, last, chunks[last], []);
      if n > 0 {
        FrameLaw(ctx, n - 1, other[n - 1], []);
        var before, earlier := Rearranged(ctx, chunks, pick[..|pick| - 1]), SealAll(ctx, 0, other[..n - 1]);
        SameEnd(before, Seal(ctx, last, chunks[last]), earlier, Seal(ctx, n - 1, other[n - 1]));
        TagsDecide(ctx, chunks, other, n - 1, pick[..|pick| - 1]);
      }
    } else if n > 0 {
      FrameLaw(ctx, n - 1, other[n - 1], []);
    }
  }

  /** No reordering, no loss, no repetition: with tags bound to positions, of all
      payloads that can be put together from the frames of one, whatever their number
      and sizes, exactly the payload itself is accepted; and for an empty plaintext
      the stripped one. */
  lemma NoReordering(ctx: Context, chunkSize: nat, version: u16, plaintext: bytes, pick: seq<nat>)
    requires Usable(ctx) && ctx.crypto.Lawful() && TagBound(ctx)
    requires chunkSize > 0 && |plaintext| <= U64_MAX && PicksFrom(PayloadChunks(chunkSize, version, plaintext), pick)
    ensures var chunks := PayloadChunks(chunkSize, version, plaintext);
      Accepted(ctx, chunkSize, version, |plaintext|, Rearranged(ctx, chunks, pick)).Some?
      <==> Unmoved(pick, |chunks|) || (plaintext == [] && pick == [])
  {
    hide Seal, Open, Chunks, Accepted, Rearranged, PayloadChunks, SealAll;
    var chunks := PayloadChunks(chunkSize, version, plaintext);
    var input := Rearranged(ctx, chunks, pick);
    assert chunks[..|chunks|] == chunks;
    NothingRearranged(ctx, chunks);
    if Unmoved(pick, |chunks|) {
      UnmovedIsSealed(ctx, chunks, |chunks|, pick);
      RoundTrip(ctx, chunkSize, version, plaintext);
    } else if plaintext == [] && pick == [] {
      AcceptedLanguage(ctx, chunkSize, version, 0, input, []);
    }
    var opening := Accepted(ctx, chunkSize, version, |plaintext|, input);
    if opening.Some? {
      var other := PayloadChunks(chunkSize, version, opening.value);
      AcceptedLanguage(ctx, chunkSize, version, |plaintext|, input, opening.value);
      ChunksAlike(chunkSize, version, plaintext, opening.value);
      assert other[..|chunks|] == other;
      if input == SealAll(ctx, 0, other) {
        TagsDecide(ctx, chunks, other, |chunks|, pick);
      } else if pick != [] {
        RearrangedSnoc(ctx, chunks, pick);
        FrameLaw(ctx, pick[|pick| - 1], chunks[pick[|pick| - 1]], []);
      }
    }
  }

  // ---- One payload, two contexts ----

  /** No authentication tag of one context is a tag of the other. */
  ghost predicate TagsApart(a: Context, b: Context)
    requires Usable(a) && Usable(b)
  {
    forall i: u64, j: u64, m, n :: TagOf(Seal(a, i, m)) != TagOf(Seal(b, j, n))
  }

  /** Whatever is accepted and not empty ends in a tag of its context. */
  lemma AcceptedEndsInTag(ctx: Context, chunkSize: nat, version: u16, declared: u64, input: bytes)
    returns (index: u64, chunk: bytes)
    requires Usable(ctx) && ctx.crypto.Lawful() && chunkSize > 0 && input != []
    requires Accepted(ctx, chunkSize, version, declared, input).Some?
    ensures TagOf(input) == TagOf(Seal(ctx, index, chunk))
  {
    hide Seal, Open, Chunks, Accepted, SealAll, PayloadChunks, TagOf;
    var plaintext := Accepted(ctx, chunkSize, version, declared, input).value;
    AcceptedLanguage(ctx, chunkSize, version, declared, input, plaintext);
    var chunks := PayloadChunks(chunkSize, version, plaintext);
    var none: seq<bytes> := [];
    NothingRearranged(ctx, none);
    assert none[..0] == none && chunks[..|chunks|] == chunks;
    index, chunk := |chunks| - 1, chunks[|chunks| - 1];
    SealAllSnoc(ctx, chunks, |chunks|);
    FrameLaw(ctx, index, chunk, []);
    EndsInLast(SealAll(ctx, 0, chunks[..|chunks| - 1]), Seal(ctx, index, chunk));
  }

  lemma EndsInLast(earlier: bytes, last: bytes)
    requires |last| >= TAG_LEN
    ensures TagOf(earlier + last) == TagOf(last)
  {
  }

  /** Where tags tell two contexts apart, both accept an input, for whatever declared
      lengths, exactly when it is empty and both declare nothing. */
  lemma BothAcceptIff(a: Context, b: Context, chunkSize: nat, versionA: u16, versionB: u16, declaredA: u64,
                      declaredB: u64, input: bytes)
    requires Usable(a) && Usable(b) && a.crypto.Lawful() && b.crypto.Lawful() && TagsApart(a, b) && chunkSize > 0
    ensures var (byA, byB) := (Accepted(a, chunkSize, versionA, declaredA, input),
                               Accepted(b, chunkSize, versionB, declaredB, input));
      byA.Some? && byB.Some? <==> input == [] && declaredA == 0 && declaredB == 0
  {
    hide Accepted, Seal, TagOf;
    if input == [] {
      FrameDemandedIffNonEmpty(a, chunkSize, versionA, declaredA);
      FrameDemandedIffNonEmpty(b, chunkSize, versionB, declaredB);
    } else if && Accepted(a, chunkSize, versionA, declaredA, input).Some?
              && Accepted(b, chunkSize, versionB, declaredB, input).Some? {
      var i, m := AcceptedEndsInTag(a, chunkSize, versionA, declaredA, input);
      var j, n := AcceptedEndsInTag(b, chunkSize, versionB, declaredB, input);
    }
  }
}
