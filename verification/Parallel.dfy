/** The batching payload engine: chunks are read with short reads, a batch is
    processed by tasks that may finish in any order, and results are written in
    order. Both directions are proved against the sequential specification. */
module Parallel {
  import opened Bytes
  import opened ChunkCipher
  import opened Errors
  import opened Frames
  import opened Io
  import opened Protocol

  // ---- A batch of tasks ----

  /** Local indices of a batch of n. */
  function Tasks(n: nat): (s: set<nat>)
    ensures forall k: nat :: k in s <==> k < n
  {
    if n == 0 then {} else Tasks(n - 1) + {n - 1}
  }

  /** Seal a batch: any pending task may run next. */
  method SealBatch(ctx: Context, start: nat, batch: seq<bytes>) returns (r: Result<seq<bytes>, CryptoError>)
    requires IsPayloadAlgorithm(ctx.algorithm) && IndicesFit(start, |batch|)
    ensures r.Ok? <==> Usable(ctx) || batch == []
    ensures r.Ok? ==> |r.value| == |batch| && forall k :: 0 <= k < |batch| ==>
      r.value[k] == Seal(ctx, start + k, batch[k])
    ensures r.Err? ==> r.error == MissingSecondaryNonce
  {
    var slots := new bytes[|batch|](_ => []);
    var pending := Tasks(|batch|);
    assert batch != [] ==> 0 in pending;
    while pending != {}
      invariant pending <= Tasks(|batch|)
      invariant Usable(ctx) || batch == [] || pending != {}
      invariant Usable(ctx) ==> forall k :: 0 <= k < |batch| && k !in pending ==>
        slots[k] == Seal(ctx, start + k, batch[k])
      decreases pending
    {
      var local :| local in pending;
      pending := pending - {local};
      if NeedsSecondaryNonce(ctx.algorithm) && ctx.secondaryNonce.None? {
        return Err(MissingSecondaryNonce);
      }
      var frame := SealChunk(ctx, start + local, batch[local]);
      slots[local] := frame;
    }
    r := Ok(slots[..]);
  }

  /** Open a batch: any pending task may run next, and the first failure that
      happens to be seen is reported. */
  method OpenBatch(ctx: Context, start: nat, batch: seq<bytes>) returns (r: Result<seq<bytes>, CryptoError>)
    requires IsPayloadAlgorithm(ctx.algorithm) && IndicesFit(start, |batch|)
    ensures !Usable(ctx) ==> r == if batch == [] then Ok([]) else Err(MissingSecondaryNonce)
    ensures Usable(ctx) ==>
      r == match OpenAll(ctx, start, batch) case Some(chunks) => Ok(chunks) case None => Err(DecryptionFailed)
  {
    var slots := new bytes[|batch|](_ => []);
    var pending := Tasks(|batch|);
    assert batch != [] ==> 0 in pending;
    while pending != {}
      invariant pending <= Tasks(|batch|)
      invariant Usable(ctx) || batch == [] || pending != {}
      invariant Usable(ctx) ==> forall k :: 0 <= k < |batch| && k !in pending ==>
        Open(ctx, start + k, batch[k]) == Some(slots[k])
      decreases pending
    {
      var local :| local in pending;
      pending := pending - {local};
      if NeedsSecondaryNonce(ctx.algorithm) && ctx.secondaryNonce.None? {
        return Err(MissingSecondaryNonce);
      }
      var chunk := OpenChunk(ctx, start + local, batch[local]);
      if chunk.None? {
        OpenAllFails(ctx, start, batch, local);
        return Err(DecryptionFailed);
      }
      slots[local] := chunk.value;
    }
    if Usable(ctx) { OpenAllPointwise(ctx, start, batch, slots[..]); }
    assert batch == [] ==> slots[..] == [];
    r := Ok(slots[..]);
  }

  /** Some prefix of `data` was written after `before`. */
  ghost predicate PartlyWritten(before: bytes, data: bytes, now: bytes) {
    exists n :: 0 <= n <= |data| && now == before + data[..n]
  }

  lemma WhollyWritten(before: bytes, data: bytes, now: bytes)
    requires now == before + data
    ensures PartlyWritten(before, data, now)
  {
    assert data[..|data|] == data;
  }

  lemma LaterPartlyWritten(before: bytes, a: bytes, b: bytes, now: bytes)
    requires PartlyWritten(before + a, b, now)
    ensures PartlyWritten(before, a + b, now)
  {
    var n :| 0 <= n <= |b| && now == before + a + b[..n];
    assert (a + b)[..|a| + n] == a + b[..n];
  }

  method WriteAllInOrder(writer: Writer, parts: seq<bytes>) returns (r: Result<(), CryptoError>)
    modifies writer`written
    ensures r.Ok? ==> writer.written == old(writer.written) + Flatten(parts)
    ensures r.Err? ==> r.error == Io && writer.faulty
    ensures r.Err? ==> PartlyWritten(old(writer.written), Flatten(parts), writer.written)
  {
    ghost var before := writer.written;
    for k := 0 to |parts|
      invariant writer.written == before + Flatten(parts[..k])
    {
      var ok := writer.WriteAll(parts[k]);
      assert parts == parts[..k] + [parts[k]] + parts[k + 1..];
      FlattenSnoc(parts[..k], parts[k]);
      FlattenAppend(parts[..k] + [parts[k]], parts[k + 1..]);
      if ok.Err? {
        ghost var n :| 0 <= n <= |parts[k]| && writer.written == before + Flatten(parts[..k]) + parts[k][..n];
        ghost var m := |Flatten(parts[..k])| + n;
        assert Flatten(parts)[..m] == Flatten(parts[..k]) + parts[k][..n];
        return Err(Io);
      }
      assert parts[..k + 1] == parts[..k] + [parts[k]];
    }
    assert parts[..|parts|] == parts;
    r := Ok(());
  }

  // ---- Encryption ----

  /** Read up to one batch of chunks, short reads or not. */
  method ReadPlainBatch(params: Params, reader: Reader) returns (r: Result<seq<bytes>, CryptoError>)
    requires params.Valid()
    modifies reader`rest
    ensures r.Err? ==> r.error == Io && reader.faulty
    ensures r.Ok? ==>
      && PlainSplit(params.chunkSize, old(reader.rest), r.value, reader.rest)
      && (|Flatten(r.value)| < params.batchChunks * params.chunkSize ==> reader.rest == [])
  {
    var batch: seq<bytes> := [];
    ghost var start := reader.rest;
    assert PlainSplit(params.chunkSize, start, batch, reader.rest);
    for n := 0 to params.batchChunks
      invariant PlainSplit(params.chunkSize, start, batch, reader.rest)
      invariant |Flatten(batch)| == n * params.chunkSize
    {
      ghost var rest := reader.rest;
      var chunk := ReadUpTo(reader, params.chunkSize);
      if chunk.Err? { return Err(Io); }
      if |chunk.value| > 0 {
        assert rest == chunk.value + reader.rest;
        PlainSplitStep(params.chunkSize, start, batch, chunk.value, reader.rest);
        batch := batch + [chunk.value];
      }
      if |chunk.value| < params.chunkSize { break; }
      MulStep(n, params.chunkSize);
    }
    r := Ok(batch);
  }

  lemma MulStep(n: nat, size: nat)
    ensures (n + 1) * size == n * size + size
  {
  }

  /** The chunks read so far and what is left to read. */
  ghost predicate PlainSplit(chunkSize: nat, start: bytes, batch: seq<bytes>, rest: bytes)
    requires chunkSize > 0
  {
    && Chunks(chunkSize, start) == batch + Chunks(chunkSize, rest)
    && start == Flatten(batch) + rest
  }

  lemma PlainSplitStep(chunkSize: nat, start: bytes, batch: seq<bytes>, chunk: bytes, rest: bytes)
    requires chunkSize > 0 && PlainSplit(chunkSize, start, batch, chunk + rest)
    requires chunk != [] && |chunk| == Min(chunkSize, |chunk + rest|)
    ensures PlainSplit(chunkSize, start, batch + [chunk], rest)
    ensures |Flatten(batch + [chunk])| == |Flatten(batch)| + |chunk|
  {
    hide Chunks, Flatten;
    FlattenSnoc(batch, chunk);
    ChunksCons(chunkSize, chunk, rest);
    var later := Chunks(chunkSize, rest);
    assert batch + ([chunk] + later) == batch + [chunk] + later;
    assert Flatten(batch) + (chunk + rest) == Flatten(batch) + chunk + rest;
  }

  /** Where encryption stands: `done` has been sealed and written, `rest` is unread. */
  ghost predicate EncryptProgress(ctx: Context, chunkSize: nat, version: u16, plaintext: bytes, before: bytes,
                                  done: seq<bytes>, rest: bytes, written: bytes)
    requires chunkSize > 0
  {
    && |done| <= U64_MAX
    && (done == [] ==> rest == plaintext)
    && (if done == [] && plaintext == [] then true
        else PayloadChunks(chunkSize, version, plaintext) == done + Chunks(chunkSize, rest))
    && (Usable(ctx) ==> written == before + SealAll(ctx, 0, done))
    && (!Usable(ctx) ==> written == before && done == [])
  }

  lemma EncryptStart(ctx: Context, chunkSize: nat, version: u16, plaintext: bytes, before: bytes)
    requires chunkSize > 0
    ensures EncryptProgress(ctx, chunkSize, version, plaintext, before, [], plaintext, before)
  {
    assert Usable(ctx) ==> before == before + SealAll(ctx, 0, []);
    assert Chunks(chunkSize, plaintext) == [] + Chunks(chunkSize, plaintext);
  }

  lemma ProgressBounds(ctx: Context, chunkSize: nat, version: u16, plaintext: bytes, before: bytes,
                       done: seq<bytes>, rest: bytes, written: bytes)
    requires chunkSize > 0 && |plaintext| <= U64_MAX
    requires EncryptProgress(ctx, chunkSize, version, plaintext, before, done, rest, written)
    ensures |done| + |Chunks(chunkSize, rest)| <= U64_MAX
  {
  }

  lemma PlainSplitFacts(chunkSize: nat, start: bytes, batch: seq<bytes>, rest: bytes)
    requires chunkSize > 0 && PlainSplit(chunkSize, start, batch, rest)
    ensures |start| == |Flatten(batch)| + |rest|
    ensures batch == [] ==> start == rest
    ensures |batch| <= |Chunks(chunkSize, start)|
  {
    assert batch == [] ==> Flatten(batch) + rest == rest;
  }

  /** The chunks still to come after a batch. */
  lemma BatchAccounting(ctx: Context, chunkSize: nat, version: u16, plaintext: bytes, before: bytes,
                        done: seq<bytes>, rest: bytes, batch: seq<bytes>, later: bytes, written: bytes)
    requires chunkSize > 0
    requires EncryptProgress(ctx, chunkSize, version, plaintext, before, done, rest, written)
    requires PlainSplit(chunkSize, rest, batch, later) && batch != []
    ensures PayloadChunks(chunkSize, version, plaintext) == done + batch + Chunks(chunkSize, later)
  {
    hide SealAll, Usable;
    var due := Chunks(chunkSize, later);
    assert done + (batch + due) == done + batch + due;
  }

  lemma EncryptStep(ctx: Context, chunkSize: nat, version: u16, plaintext: bytes, before: bytes,
                    done: seq<bytes>, rest: bytes, batch: seq<bytes>, later: bytes, written: bytes)
    requires chunkSize > 0 && |plaintext| <= U64_MAX
    requires EncryptProgress(ctx, chunkSize, version, plaintext, before, done, rest, written)
    requires batch != []
    requires IsNextBatch(chunkSize, version, |done|, rest, batch, later)
    ensures |rest| == |Flatten(batch)| + |later|
    ensures |done| + |batch| <= U64_MAX
    ensures PayloadChunks(chunkSize, version, plaintext) == done + batch + Chunks(chunkSize, later)
    ensures Usable(ctx) ==>
      EncryptProgress(ctx, chunkSize, version, plaintext, before, done + batch, later,
        written + SealAll(ctx, |done|, batch))
  {
    hide Seal, SealAll;
    var due := Chunks(chunkSize, later);
    var all := PayloadChunks(chunkSize, version, plaintext);
    if PlainSplit(chunkSize, rest, batch, later) {
      BatchAccounting(ctx, chunkSize, version, plaintext, before, done, rest, batch, later, written);
    }
    assert |all| == |done| + |batch| + |due|;
    if Usable(ctx) {
      SealedSoFar(ctx, before, done, batch, written);
      ProgressFromParts(ctx, chunkSize, version, plaintext, before, done + batch, later,
        written + SealAll(ctx, |done|, batch));
    }
  }

  lemma SealedSoFar(ctx: Context, before: bytes, done: seq<bytes>, batch: seq<bytes>, written: bytes)
    requires Usable(ctx) && |done| + |batch| <= U64_MAX
    requires written == before + SealAll(ctx, 0, done)
    ensures written + SealAll(ctx, |done|, batch) == before + SealAll(ctx, 0, done + batch)
  {
    hide Seal, SealAll;
    SealAllAppend(ctx, 0, done, batch);
    var a, b := SealAll(ctx, 0, done), SealAll(ctx, |done|, batch);
    assert before + a + b == before + (a + b);
  }

  lemma ProgressFromParts(ctx: Context, chunkSize: nat, version: u16, plaintext: bytes, before: bytes,
                          done: seq<bytes>, rest: bytes, written: bytes)
    requires chunkSize > 0 && 0 < |done| <= U64_MAX
    requires PayloadChunks(chunkSize, version, plaintext) == done + Chunks(chunkSize, rest)
    requires Usable(ctx) && written == before + SealAll(ctx, 0, done)
    ensures EncryptProgress(ctx, chunkSize, version, plaintext, before, done, rest, written)
  {
    hide Seal, SealAll, Chunks, PayloadChunks;
  }

  lemma EncryptDone(ctx: Context, chunkSize: nat, version: u16, plaintext: bytes, before: bytes, done: seq<bytes>,
                    written: bytes)
    requires chunkSize > 0 && |plaintext| <= U64_MAX
    requires EncryptProgress(ctx, chunkSize, version, plaintext, before, done, [], written)
    requires done == [] ==> version < CURRENT_VERSION
    ensures Usable(ctx) ==> written == before + PayloadFrames(ctx, chunkSize, version, plaintext)
    ensures !Usable(ctx) ==> written == before && PayloadChunks(chunkSize, version, plaintext) == []
  {
    hide Seal;
    assert done + Chunks(chunkSize, []) == done;
  }

  lemma PositiveProduct(a: nat, b: nat)
    requires a > 0 && b > 0
    ensures a * b > 0
  {
  }

  /** One turn of the encryption loop: read a batch, seal it, write it in order.
      An empty result means that there was nothing left to do. */
  method EncryptBatch(params: Params, ctx: Context, version: u16, globalChunkIndex: u64, reader: Reader, writer: Writer)
    returns (r: Result<seq<bytes>, CryptoError>)
    requires params.Valid() && IsPayloadAlgorithm(ctx.algorithm)
    requires globalChunkIndex + |Chunks(params.chunkSize, reader.rest)| <= U64_MAX
    modifies reader`rest, writer`written
    ensures r.Ok? && r.value == [] ==>
      old(reader.rest) == reader.rest == [] && writer.written == old(writer.written)
      && (version < CURRENT_VERSION || globalChunkIndex > 0)
    ensures r.Ok? && r.value != [] ==>
      && Usable(ctx) && IndicesFit(globalChunkIndex, |r.value|)
      && writer.written == old(writer.written) + SealAll(ctx, globalChunkIndex, r.value)
      && (|Flatten(r.value)| < params.batchChunks * params.chunkSize ==> reader.rest == [])
      && IsNextBatch(params.chunkSize, version, globalChunkIndex, old(reader.rest), r.value, reader.rest)
    ensures r.Err? ==>
      (r.error == Io && (reader.faulty || writer.faulty)) || (r.error == MissingSecondaryNonce && !Usable(ctx))
  {
    hide Seal, SealAll, Chunks, Flatten, PlainSplit, Usable;
    var fill := ReadPlainBatch(params, reader);
    if fill.Err? { return Err(Io); }
    var batch := fill.value;
    PlainSplitFacts(params.chunkSize, old(reader.rest), batch, reader.rest);
    PositiveProduct(params.batchChunks, params.chunkSize);
    if batch == [] {
      if version >= CURRENT_VERSION && globalChunkIndex == 0 {
        batch := [[]];
      } else {
        return Ok([]);
      }
    }
    var frames :- SealBatch(ctx, globalChunkIndex, batch);
    SealedBatch(ctx, globalChunkIndex, batch, frames);
    var ok := WriteAllInOrder(writer, frames);
    r := if ok.Err? then Err(Io) else Ok(batch);
  }

  /** A batch read from `rest`, or the one empty chunk of an empty v2 payload. */
  ghost predicate IsNextBatch(chunkSize: nat, version: u16, index: nat, rest: bytes, batch: seq<bytes>, later: bytes)
    requires chunkSize > 0
  {
    || PlainSplit(chunkSize, rest, batch, later)
    || (batch == [[]] && index == 0 && rest == later == [] && version >= CURRENT_VERSION)
  }

  /** On success the writer holds, after what it held before, the frames of the
      whole plaintext in order, whatever the short reads, the batch size and the
      order in which tasks finished. */
  method StreamEncryptPayload(params: Params, ctx: Context, version: u16, reader: Reader, writer: Writer)
    returns (r: Result<u64, CryptoError>)
    requires params.Valid()
    requires |reader.rest| <= U64_MAX  // the byte counter is a u64
    modifies reader`rest, writer`written
    ensures !IsPayloadAlgorithm(ctx.algorithm) ==>
      r == Err(UnsupportedProfile) && reader.rest == old(reader.rest) && writer.written == old(writer.written)
    ensures r.Ok? ==> r.value == |old(reader.rest)| && reader.rest == []
    ensures r.Ok? && Usable(ctx) ==>
      writer.written == old(writer.written) + PayloadFrames(ctx, params.chunkSize, version, old(reader.rest))
    ensures r.Ok? && !Usable(ctx) ==>
      writer.written == old(writer.written) && PayloadChunks(params.chunkSize, version, old(reader.rest)) == []
    ensures Usable(ctx) && !reader.faulty && !writer.faulty ==> r.Ok?
    ensures r.Err? && IsPayloadAlgorithm(ctx.algorithm) ==>
      (r.error == Io && (reader.faulty || writer.faulty)) || (r.error == MissingSecondaryNonce && !Usable(ctx))
  {
    if !IsPayloadAlgorithm(ctx.algorithm) { return Err(UnsupportedProfile); }
    hide Seal, SealAll, Chunks, PayloadChunks, PayloadFrames, Flatten, EncryptProgress, IsNextBatch, Usable;
    PositiveProduct(params.batchChunks, params.chunkSize);
    ghost var plaintext, before := reader.rest, writer.written;
    ghost var done: seq<bytes> := [];
    var totalBytesRead: u64 := 0;
    var globalChunkIndex: u64 := 0;
    EncryptStart(ctx, params.chunkSize, version, plaintext, before);
    while true
      invariant globalChunkIndex == |done|
      invariant totalBytesRead + |reader.rest| == |plaintext|
      invariant EncryptProgress(ctx, params.chunkSize, version, plaintext, before, done, reader.rest, writer.written)
      decreases |reader.rest|
    {
      ghost var rest, written := reader.rest, writer.written;
      ProgressBounds(ctx, params.chunkSize, version, plaintext, before, done, rest, written);
      var batch :- EncryptBatch(params, ctx, version, globalChunkIndex, reader, writer);
      if batch == [] { break; }
      EncryptStep(ctx, params.chunkSize, version, plaintext, before, done, rest, batch, reader.rest, written);
      var batchBytesRead := |Flatten(batch)|;
      totalBytesRead := totalBytesRead + batchBytesRead;
      globalChunkIndex := globalChunkIndex + |batch|;  // the checked addition: it never overflows
      done := done + batch;
      if batchBytesRead < params.batchChunks * params.chunkSize { break; }
    }
    EncryptDone(ctx, params.chunkSize, version, plaintext, before, done, writer.written);
    r := Ok(totalBytesRead);
  }

  lemma {:induction false} SealedBatch(ctx: Context, start: nat, batch: seq<bytes>, frames: seq<bytes>)
    requires Usable(ctx) && IndicesFit(start, |batch|)
    requires |frames| == |batch| && forall k :: 0 <= k < |batch| ==> frames[k] == Seal(ctx, start + k, batch[k])
    ensures Flatten(frames) == SealAll(ctx, start, batch)
    decreases |batch|
  {
    hide Seal;
    if batch != [] {
      forall k | 0 <= k < |batch[1..]|
        ensures frames[1..][k] == Seal(ctx, start + 1 + k, batch[1..][k])
      {
        assert frames[k + 1] == Seal(ctx, start + (k + 1), batch[k + 1]);
      }
      SealedBatch(ctx, start + 1, batch[1..], frames[1..]);
    }
  }

  // ---- Decryption ----

  /** The reader makes an exception for the one frame of an empty v2 payload. */
  predicate IsEmptyFrame(version: u16, declared: nat, index: nat) {
    version >= CURRENT_VERSION && declared == 0 && index == 0
  }

  /** A frame is cut off: well-sized frames, then fewer bytes than the next needs. */
  ghost predicate IsTorn(chunkSize: nat, tag: nat, remaining: nat, input: bytes, frames: seq<bytes>, tail: bytes) {
    && Sized(chunkSize, tag, remaining, frames)
    && input == Flatten(frames) + tail
    && Left(chunkSize, remaining, |frames|) > 0
    && 0 < |tail| < Min(Left(chunkSize, remaining, |frames|), chunkSize) + tag
  }

  /** The empty frame was read, or the input had ended before it. */
  predicate EmptyFrameRead(tag: nat, input: bytes, frames: seq<bytes>, rest: bytes) {
    if input == [] then frames == [] && rest == []
    else |input| >= tag && frames == [input[..tag]] && rest == input[tag..]
  }

  /** A batch of frames was read from `input`, up to `rest`. */
  predicate FramesRead(params: Params, tag: nat, version: u16, declared: nat, totalWritten: nat, index: nat,
                       input: bytes, frames: seq<bytes>, rest: bytes, eof: bool)
    requires totalWritten <= declared
  {
    if IsEmptyFrame(version, declared, index) then
      eof && EmptyFrameRead(tag, input, frames, rest)
    else
      && Sized(params.chunkSize, tag, declared - totalWritten, frames)
      && input == Flatten(frames) + rest
      && (eof ==> Left(params.chunkSize, declared - totalWritten, |frames|) == 0 || rest == [])
      && (!eof ==> |frames| == params.batchChunks)
  }

  lemma FrameRead(start: bytes, frames: seq<bytes>, frame: bytes, rest: bytes)
    requires start == Flatten(frames) + (frame + rest)
    ensures start == Flatten(frames + [frame]) + rest
  {
    FlattenSnoc(frames, frame);
    assert Flatten(frames) + (frame + rest) == Flatten(frames) + frame + rest;
  }

  /** Read up to one batch of frames, each of the size the declared length fixes.
      All u64 sums stay below the declared length, so none of them overflows and
      the saturating subtraction never saturates early. */
  method ReadFrameBatch(params: Params, tag: nat, version: u16, declared: u64, totalWritten: u64, index: u64,
                        reader: Reader)
    returns (r: Result<seq<bytes>, CryptoError>, eof: bool, ghost torn: (seq<bytes>, bytes))
    requires params.Valid() && tag > 0 && totalWritten <= declared
    modifies reader`rest
    ensures r.Err? ==> (r.error == Io && reader.faulty) || r.error == DecryptionFailed
    ensures r.Err? && r.error == DecryptionFailed ==>
      if IsEmptyFrame(version, declared, index) then 0 < |old(reader.rest)| < tag
      else IsTorn(params.chunkSize, tag, declared - totalWritten, old(reader.rest), torn.0, torn.1)
    ensures r.Ok? ==>
      FramesRead(params, tag, version, declared, totalWritten, index, old(reader.rest), r.value, reader.rest, eof)
  {
    var frames: seq<bytes> := [];
    eof, torn := false, ([], []);
    ghost var start := reader.rest;
    assert start == Flatten(frames) + start;
    for n := 0 to params.batchChunks
      invariant Sized(params.chunkSize, tag, declared - totalWritten, frames)
      invariant start == Flatten(frames) + reader.rest
      invariant totalWritten + |frames| * params.chunkSize <= declared
      invariant eof ==> reader.rest == []
      invariant !eof ==> |frames| == n
      invariant n == 0 ==> frames == [] && !eof && reader.rest == start
      invariant IsEmptyFrame(version, declared, index) ==> n == 0
    {
      var accounted: u64 := totalWritten + |frames| * params.chunkSize;
      var remaining := SaturatingSub(declared, accounted);
      assert remaining == Left(params.chunkSize, declared - totalWritten, |frames|);
      var isEmptyFrame := IsEmptyFrame(version, declared, index) && frames == [];
      if remaining == 0 && !isEmptyFrame {
        eof := true;
        break;
      }
      var expected :=
        if isEmptyFrame then tag
        else if remaining < params.chunkSize then remaining + tag
        else params.chunkSize + tag;
      ghost var rest := reader.rest;
      var chunk := ReadUpTo(reader, expected);
      if chunk.Err? { return Err(Io), eof, torn; }
      if chunk.value == [] {
        eof := true;
      } else if |chunk.value| < expected {
        torn := (frames, rest);
        return Err(DecryptionFailed), eof, torn;
      } else {
        assert rest == chunk.value + reader.rest;
        FrameRead(start, frames, chunk.value, reader.rest);
        if !isEmptyFrame { SizedSnoc(params.chunkSize, tag, declared - totalWritten, frames, chunk.value); }
        MulStep(|frames|, params.chunkSize);
        frames := frames + [chunk.value];
      }
      if isEmptyFrame || remaining < params.chunkSize {
        eof := true;
        break;
      }
    }
    r := Ok(frames);
  }

  /** The chunks are authentic, their frames are the next ones of the input, and
      what remains to be decided is whether the rest is accepted. */
  ghost predicate BatchOpened(ctx: Context, chunkSize: nat, index: nat, remaining: nat, input: bytes,
                              chunks: seq<bytes>, rest: bytes)
    requires Usable(ctx) && chunkSize > 0 && index + remaining <= U64_MAX
  {
    && |chunks| <= |Flatten(chunks)| <= remaining
    && input == SealAll(ctx, index, chunks) + rest
    && SequentialOpen(ctx, chunkSize, index, remaining, input) ==
       Prepend(Flatten(chunks), SequentialOpen(ctx, chunkSize, index + |chunks|, remaining - |Flatten(chunks)|, rest))
  }

  lemma BatchOpenedFromFrames(ctx: Context, chunkSize: nat, index: nat, remaining: nat, frames: seq<bytes>,
                              chunks: seq<bytes>, rest: bytes)
    requires Usable(ctx) && ctx.crypto.Lawful() && chunkSize > 0 && index + remaining <= U64_MAX
    requires Sized(chunkSize, TagSize(ctx.algorithm), remaining, frames)
    ensures IndicesFit(index, |frames|)
    ensures OpenAll(ctx, index, frames) == Some(chunks) ==>
      && BatchOpened(ctx, chunkSize, index, remaining, Flatten(frames) + rest, chunks, rest)
      && |chunks| == |frames| && |Flatten(chunks)| == remaining - Left(chunkSize, remaining, |frames|)
    ensures OpenAll(ctx, index, frames).None? ==>
      SequentialOpen(ctx, chunkSize, index, remaining, Flatten(frames) + rest).None?
  {
    hide Seal, Open, OpenAll, SealAll, SequentialOpen, Sized;
    IndexAfter(chunkSize, TagSize(ctx.algorithm), index, remaining, frames);
    Unroll(ctx, chunkSize, index, remaining, frames, rest);
    if OpenAll(ctx, index, frames).Some? {
      OpenedBatch(ctx, chunkSize, index, remaining, frames);
    }
  }

  lemma TornRejected(ctx: Context, chunkSize: nat, index: nat, remaining: nat, input: bytes, frames: seq<bytes>,
                     tail: bytes)
    requires Usable(ctx) && chunkSize > 0 && index + remaining <= U64_MAX
    requires IsTorn(chunkSize, TagSize(ctx.algorithm), remaining, input, frames, tail)
    ensures SequentialOpen(ctx, chunkSize, index, remaining, input).None?
  {
    hide Seal, Open, OpenAll;
    IndexAfter(chunkSize, TagSize(ctx.algorithm), index, remaining, frames);
    Unroll(ctx, chunkSize, index, remaining, frames, tail);
  }

  lemma BatchOpenedCompose(ctx: Context, chunkSize: nat, remaining: nat, input: bytes,
                           a: seq<bytes>, middle: bytes, b: seq<bytes>, rest: bytes)
    requires Usable(ctx) && chunkSize > 0 && remaining <= U64_MAX
    requires BatchOpened(ctx, chunkSize, 0, remaining, input, a, middle)
    requires BatchOpened(ctx, chunkSize, |a|, remaining - |Flatten(a)|, middle, b, rest)
    ensures BatchOpened(ctx, chunkSize, 0, remaining, input, a + b, rest)
  {
    hide Seal, SealAll, SequentialOpen, Flatten;
    FlattenAppend(a, b);
    SealAllAppend(ctx, 0, a, b);
    var x, y := SealAll(ctx, 0, a), SealAll(ctx, |a|, b);
    assert x + (y + rest) == (x + y) + rest;
    PrependTwice(Flatten(a), Flatten(b),
      SequentialOpen(ctx, chunkSize, |a| + |b|, remaining - |Flatten(a)| - |Flatten(b)|, rest));
  }

  ghost predicate WholeBatches(params: Params, count: nat) {
    exists k: nat :: count == k * params.batchChunks
  }

  /** Where decryption stands: `chunks` have been authenticated, `rest` is next,
      `ended` says that the engine looks no further. */
  ghost predicate DecryptProgress(params: Params, ctx: Context, version: u16, declared: u64, input: bytes,
                                  chunks: seq<bytes>, rest: bytes, ended: bool)
    requires params.Valid()
  {
    && (!ended ==> WholeBatches(params, |chunks|))
    && if IsEmptyFrame(version, declared, 0) then
         || (chunks == [] && rest == input && (ended ==> input == []))
         || (Usable(ctx) && ended && chunks == [[]] && input == Seal(ctx, 0, []) + rest)
       else if Usable(ctx) then
         && BatchOpened(ctx, params.chunkSize, 0, declared, input, chunks, rest)
         && (ended ==> |Flatten(chunks)| == declared || rest == [])
       else
         chunks == [] && rest == input && (ended ==> declared == 0 || rest == [])
  }

  /** Fewer frames than bytes, but for the one empty frame: no index overflows. */
  lemma ProgressIndex(params: Params, ctx: Context, version: u16, declared: u64, input: bytes, chunks: seq<bytes>,
                      rest: bytes, ended: bool)
    requires params.Valid() && DecryptProgress(params, ctx, version, declared, input, chunks, rest, ended)
    ensures |chunks| <= Max(1, |Flatten(chunks)|)
  {
    hide Seal, SealAll, SequentialOpen, Flatten;
  }

  lemma DecryptStart(params: Params, ctx: Context, version: u16, declared: u64, input: bytes)
    requires params.Valid()
    ensures DecryptProgress(params, ctx, version, declared, input, [], input, false)
  {
    hide Seal;
    assert 0 == 0 * params.batchChunks;
    if Usable(ctx) {
      assert input == SealAll(ctx, 0, []) + input;
      var all := SequentialOpen(ctx, params.chunkSize, 0, declared, input);
      if all.Some? { assert [] + all.value == all.value; }
    }
  }

  /** What the final checks make of a finished run. */
  lemma DecryptDecided(params: Params, ctx: Context, version: u16, declared: u64, input: bytes, chunks: seq<bytes>,
                       rest: bytes)
    requires params.Valid() && ctx.crypto.Lawful() && IsPayloadAlgorithm(ctx.algorithm)
    requires DecryptProgress(params, ctx, version, declared, input, chunks, rest, true)
    ensures Accepted(ctx, params.chunkSize, version, declared, input) ==
      if |Flatten(chunks)| == declared && rest == [] then Some(Flatten(chunks)) else None
  {
    if IsEmptyFrame(version, declared, 0) {
      if chunks == [[]] {
        FrameLaw(ctx, 0, [], input);
        assert Flatten([[]]) == [];
        if rest == [] { assert input == Seal(ctx, 0, []); }
      }
    } else if Usable(ctx) {
      assert Flatten(chunks) + [] == Flatten(chunks);
      if declared == 0 { assert SealAll(ctx, 0, chunks) + rest == rest; }
    }
  }

  lemma {:induction false} MoreBatches(params: Params, count: nat)
    requires WholeBatches(params, count)
    ensures WholeBatches(params, count + params.batchChunks)
  {
    var k: nat :| count == k * params.batchChunks;
    MulStep(k, params.batchChunks);
  }

  /** The frames of one batch that failed to authenticate, or were cut off, decide
      the whole input. */
  lemma BatchRejected(params: Params, ctx: Context, version: u16, declared: u64, input: bytes, chunks: seq<bytes>,
                      rest: bytes)
    requires params.Valid() && Usable(ctx) && !IsEmptyFrame(version, declared, 0)
    requires DecryptProgress(params, ctx, version, declared, input, chunks, rest, false)
    requires SequentialOpen(ctx, params.chunkSize, |chunks|, declared - |Flatten(chunks)|, rest).None?
    ensures Accepted(ctx, params.chunkSize, version, declared, input).None?
  {
    hide Seal, Open;
  }

  lemma ReadRejected(params: Params, ctx: Context, version: u16, declared: u64, input: bytes, chunks: seq<bytes>,
                     rest: bytes, frames: seq<bytes>, tail: bytes)
    requires params.Valid() && IsPayloadAlgorithm(ctx.algorithm)
    requires DecryptProgress(params, ctx, version, declared, input, chunks, rest, false)
    requires |Flatten(chunks)| <= declared
    requires if IsEmptyFrame(version, declared, |chunks|) then 0 < |rest| < TagSize(ctx.algorithm)
      else IsTorn(params.chunkSize, TagSize(ctx.algorithm), declared - |Flatten(chunks)|, rest, frames, tail)
    ensures Accepted(ctx, params.chunkSize, version, declared, input).None?
  {
    hide Seal, Open, SealAll, SequentialOpen, Sized;
    if Usable(ctx) && !IsEmptyFrame(version, declared, 0) {
      TornRejected(ctx, params.chunkSize, |chunks|, declared - |Flatten(chunks)|, rest, frames, tail);
      BatchRejected(params, ctx, version, declared, input, chunks, rest);
    }
  }

  /** All frames of a batch authenticated. */
  ghost predicate BatchRead(params: Params, ctx: Context, version: u16, declared: u64, input: bytes, chunks: seq<bytes>,
                            rest: bytes, frames: seq<bytes>, batch: seq<bytes>, later: bytes, eof: bool)
    requires params.Valid()
  {
    && DecryptProgress(params, ctx, version, declared, input, chunks, rest, false)
    && |Flatten(chunks)| <= declared
    && FramesRead(params, TagSize(ctx.algorithm), version, declared, |Flatten(chunks)|, |chunks|, rest, frames, later,
         eof)
    && if Usable(ctx) then IndicesFit(|chunks|, |frames|) && OpenAll(ctx, |chunks|, frames) == Some(batch)
       else frames == batch == []
  }

  ghost predicate BatchAccepted(params: Params, ctx: Context, version: u16, declared: u64, input: bytes,
                                chunks: seq<bytes>, batch: seq<bytes>, later: bytes, eof: bool)
    requires params.Valid()
  {
    && DecryptProgress(params, ctx, version, declared, input, chunks + batch, later, eof)
    && |Flatten(chunks + batch)| == |Flatten(chunks)| + |Flatten(batch)| <= declared
    && |batch| <= Max(1, |Flatten(batch)|)
    && (batch == [] ==> eof)
    && (!eof ==> |batch| == params.batchChunks && |Flatten(batch)| > 0)
  }

  lemma BatchAdvances(params: Params, ctx: Context, version: u16, declared: u64, input: bytes, chunks: seq<bytes>,
                      rest: bytes, frames: seq<bytes>, batch: seq<bytes>, later: bytes, eof: bool)
    requires params.Valid() && ctx.crypto.Lawful() && IsPayloadAlgorithm(ctx.algorithm)
    requires BatchRead(params, ctx, version, declared, input, chunks, rest, frames, batch, later, eof)
    ensures BatchAccepted(params, ctx, version, declared, input, chunks, batch, later, eof)
  {
    hide BatchRead, BatchAccepted, Usable;
    if IsEmptyFrame(version, declared, 0) {
      EmptyBatchAdvances(params, ctx, version, declared, input, chunks, rest, frames, batch, later, eof);
    } else if Usable(ctx) {
      UsableBatchAdvances(params, ctx, version, declared, input, chunks, rest, frames, batch, later, eof);
    } else {
      UnusableBatchAdvances(params, ctx, version, declared, input, chunks, rest, frames, batch, later, eof);
    }
  }

  lemma EmptyBatchAdvances(params: Params, ctx: Context, version: u16, declared: u64, input: bytes, chunks: seq<bytes>,
                           rest: bytes, frames: seq<bytes>, batch: seq<bytes>, later: bytes, eof: bool)
    requires params.Valid() && ctx.crypto.Lawful() && IsPayloadAlgorithm(ctx.algorithm)
    requires BatchRead(params, ctx, version, declared, input, chunks, rest, frames, batch, later, eof)
    requires IsEmptyFrame(version, declared, 0)
    ensures BatchAccepted(params, ctx, version, declared, input, chunks, batch, later, eof)
  {
    hide Seal, Open, OpenAll, BatchOpened, Sized, WholeBatches, Flatten;
    FlattenNil();
    assert chunks == [] && rest == input && eof;
    EmptyFrameAdvances(ctx, rest, frames, batch, later);
    assert chunks + batch == batch;
  }

  lemma UsableBatchAdvances(params: Params, ctx: Context, version: u16, declared: u64, input: bytes, chunks: seq<bytes>,
                            rest: bytes, frames: seq<bytes>, batch: seq<bytes>, later: bytes, eof: bool)
    requires params.Valid() && ctx.crypto.Lawful() && Usable(ctx)
    requires BatchRead(params, ctx, version, declared, input, chunks, rest, frames, batch, later, eof)
    requires !IsEmptyFrame(version, declared, 0)
    ensures BatchAccepted(params, ctx, version, declared, input, chunks, batch, later, eof)
  {
    hide Seal, Open, OpenAll, BatchOpened, Sized, WholeBatches, Flatten, Usable, EmptyFrameRead;
    SizedBatchAdvances(params, ctx, declared, input, chunks, rest, frames, batch, later, eof);
    if !eof { MoreBatches(params, |chunks|); }
  }

  lemma UnusableBatchAdvances(params: Params, ctx: Context, version: u16, declared: u64, input: bytes,
                              chunks: seq<bytes>, rest: bytes, frames: seq<bytes>, batch: seq<bytes>, later: bytes,
                              eof: bool)
    requires params.Valid() && !Usable(ctx)
    requires BatchRead(params, ctx, version, declared, input, chunks, rest, frames, batch, later, eof)
    requires !IsEmptyFrame(version, declared, 0)
    ensures BatchAccepted(params, ctx, version, declared, input, chunks, batch, later, eof)
  {
    hide Seal, Open, OpenAll, BatchOpened, Sized, Flatten, EmptyFrameRead;
    FlattenNil();
    assert chunks + batch == [];
    assert Flatten(frames) + later == later;
  }

  lemma SizedBatchAdvances(params: Params, ctx: Context, declared: u64, input: bytes, chunks: seq<bytes>, rest: bytes,
                           frames: seq<bytes>, batch: seq<bytes>, later: bytes, eof: bool)
    requires params.Valid() && ctx.crypto.Lawful() && Usable(ctx)
    requires |Flatten(chunks)| <= declared && rest == Flatten(frames) + later
    requires BatchOpened(ctx, params.chunkSize, 0, declared, input, chunks, rest)
    requires Sized(params.chunkSize, TagSize(ctx.algorithm), declared - |Flatten(chunks)|, frames)
    requires eof ==> Left(params.chunkSize, declared - |Flatten(chunks)|, |frames|) == 0 || later == []
    requires !eof ==> |frames| == params.batchChunks
    requires IndicesFit(|chunks|, |frames|) && OpenAll(ctx, |chunks|, frames) == Some(batch)
    ensures BatchOpened(ctx, params.chunkSize, 0, declared, input, chunks + batch, later)
    ensures eof ==> |Flatten(chunks + batch)| == declared || later == []
    ensures |Flatten(chunks + batch)| == |Flatten(chunks)| + |Flatten(batch)|
    ensures |batch| <= |Flatten(batch)| <= declared - |Flatten(chunks)|
    ensures !eof ==> |batch| == params.batchChunks
    ensures batch == [] ==> eof
  {
    hide Seal, Open, OpenAll, SealAll, SequentialOpen, Sized, Flatten, Usable;
    var remaining := declared - |Flatten(chunks)|;
    BatchOpenedFromFrames(ctx, params.chunkSize, |chunks|, remaining, frames, batch, later);
    BatchOpenedCompose(ctx, params.chunkSize, declared, input, chunks, rest, batch, later);
    FlattenAppend(chunks, batch);
  }

  lemma EmptyFrameAdvances(ctx: Context, input: bytes, frames: seq<bytes>, batch: seq<bytes>, rest: bytes)
    requires IsPayloadAlgorithm(ctx.algorithm) && ctx.crypto.Lawful()
    requires EmptyFrameRead(TagSize(ctx.algorithm), input, frames, rest)
    requires if Usable(ctx) then IndicesFit(0, |frames|) && OpenAll(ctx, 0, frames) == Some(batch)
      else frames == batch == []
    ensures if frames == [] then input == rest == [] && batch == []
      else Usable(ctx) && batch == [[]] && input == Seal(ctx, 0, []) + rest
    ensures Flatten(batch) == []
  {
    hide Seal, Open;
    if frames != [] {
      assert frames[1..] == [];
      var chunk := Open(ctx, 0, frames[0]).value;
      FrameLaw(ctx, 0, chunk, frames[0]);
      assert batch == [chunk];
      assert input == frames[0] + rest;
    }
  }

  /** Some frame of a batch did not authenticate, or could not be tried. */
  lemma BatchFails(params: Params, ctx: Context, version: u16, declared: u64, input: bytes, chunks: seq<bytes>,
                   rest: bytes, frames: seq<bytes>, later: bytes, eof: bool)
    requires params.Valid() && ctx.crypto.Lawful() && IsPayloadAlgorithm(ctx.algorithm)
    requires DecryptProgress(params, ctx, version, declared, input, chunks, rest, false)
    requires |Flatten(chunks)| <= declared
    requires FramesRead(params, TagSize(ctx.algorithm), version, declared, |Flatten(chunks)|, |chunks|, rest, frames,
      later, eof)
    requires if Usable(ctx) then IndicesFit(|chunks|, |frames|) && OpenAll(ctx, |chunks|, frames).None?
      else frames != []
    ensures Accepted(ctx, params.chunkSize, version, declared, input).None?
  {
    hide Seal, Open, OpenAll, SealAll, SequentialOpen;
    if IsEmptyFrame(version, declared, 0) {
      EmptyFrameFails(ctx, version, rest, frames, later, params.chunkSize);
    } else if Usable(ctx) {
      var remaining := declared - |Flatten(chunks)|;
      BatchOpenedFromFrames(ctx, params.chunkSize, |chunks|, remaining, frames, [], later);
      BatchRejected(params, ctx, version, declared, input, chunks, rest);
    }
  }

  lemma EmptyFrameFails(ctx: Context, version: u16, input: bytes, frames: seq<bytes>, rest: bytes, chunkSize: nat)
    requires chunkSize > 0 && IsPayloadAlgorithm(ctx.algorithm) && version >= CURRENT_VERSION
    requires EmptyFrameRead(TagSize(ctx.algorithm), input, frames, rest)
    requires if Usable(ctx) then IndicesFit(0, |frames|) && OpenAll(ctx, 0, frames).None? else frames != []
    ensures Accepted(ctx, chunkSize, version, 0, input).None?
  {
    hide Seal, Open;
    if Usable(ctx) {
      assert frames != [] && frames[1..] == [];
      assert OpenAll(ctx, 1, []) == Some([]);
      assert Open(ctx, 0, frames[0]).None?;
      if |input| == TagSize(ctx.algorithm) { assert input[..|input|] == input; }
    }
  }

  lemma IndexRoom(params: Params, ctx: Context, version: u16, declared: u64, input: bytes, chunks: seq<bytes>,
                  rest: bytes, frames: seq<bytes>, later: bytes, eof: bool)
    requires params.Valid()
    requires DecryptProgress(params, ctx, version, declared, input, chunks, rest, false)
    requires |Flatten(chunks)| <= declared
    requires FramesRead(params, TagSize(ctx.algorithm), version, declared, |Flatten(chunks)|, |chunks|, rest, frames,
      later, eof)
    ensures IndicesFit(|chunks|, |frames|)
  {
    hide Seal, SealAll, SequentialOpen;
    if !IsEmptyFrame(version, declared, |chunks|) {
      IndexAfter(params.chunkSize, TagSize(ctx.algorithm), |chunks|, declared - |Flatten(chunks)|, frames);
    }
  }

  /** One turn of the decryption loop: read a batch of frames, open it, write the
      chunks in order. Nothing is written before the whole batch is authentic. */
  method DecryptBatch(params: Params, ctx: Context, version: u16, declared: u64, totalWritten: u64, index: u64,
                      reader: Reader, writer: Writer, ghost input: bytes, ghost chunks: seq<bytes>)
    returns (r: Result<bool, CryptoError>, batch: seq<bytes>, ghost after: bytes, ghost ended: bool)
    requires params.Valid() && ctx.crypto.Lawful() && IsPayloadAlgorithm(ctx.algorithm)
    requires DecryptProgress(params, ctx, version, declared, input, chunks, reader.rest, false)
    requires totalWritten == |Flatten(chunks)| <= declared && index == |chunks|
    modifies reader`rest, writer`written
    ensures DecryptProgress(params, ctx, version, declared, input, chunks + batch, after, ended)
    ensures |Flatten(chunks + batch)| == totalWritten + |Flatten(batch)| <= declared
    ensures |batch| <= Max(1, |Flatten(batch)|)
    ensures r.Ok? ==>
      && after == reader.rest && ended == r.value && (batch == [] ==> ended)
      && writer.written == old(writer.written) + Flatten(batch)
    ensures r.Ok? && !r.value ==> |batch| == params.batchChunks && |Flatten(batch)| > 0
    ensures r.Err? ==> PartlyWritten(old(writer.written), Flatten(batch), writer.written)
    ensures r.Err? && !writer.faulty ==> batch == [] && writer.written == old(writer.written)
    ensures r.Err? ==>
      || (r.error == Io && (reader.faulty || writer.faulty))
      || (r.error in {DecryptionFailed, MissingSecondaryNonce} &&
           Accepted(ctx, params.chunkSize, version, declared, input).None?)
  {
    hide Seal, Open, OpenAll, SealAll, SequentialOpen, Sized, BatchOpened;
    FlattenNil();
    WhollyWritten(writer.written, [], writer.written);
    assert chunks + [] == chunks;
    after, ended, batch := reader.rest, false, [];
    ghost var before := reader.rest;
    var fill, eof, torn := ReadFrameBatch(params, TagSize(ctx.algorithm), version, declared, totalWritten, index,
      reader);
    if fill.Err? {
      if fill.error == DecryptionFailed {
        ReadRejected(params, ctx, version, declared, input, chunks, before, torn.0, torn.1);
      }
      return Err(fill.error), batch, after, ended;
    }
    var frames := fill.value;
    IndexRoom(params, ctx, version, declared, input, chunks, before, frames, reader.rest, eof);
    var opening := OpenBatch(ctx, index, frames);
    if opening.Err? {
      BatchFails(params, ctx, version, declared, input, chunks, before, frames, reader.rest, eof);
      return Err(opening.error), batch, after, ended;
    }
    BatchAdvances(params, ctx, version, declared, input, chunks, before, frames, opening.value, reader.rest, eof);
    after, ended, batch := reader.rest, eof, opening.value;
    var ok := WriteAllInOrder(writer, batch);
    r := if ok.Err? then Err(Io) else Ok(eof);
  }

  function Max(a: int, b: int): int { if a >= b then a else b }

  /** The batches, until the end of the input or the declared length: how many bytes
      were written, and which chunks they are. */
  method DecryptLoop(params: Params, ctx: Context, version: u16, declared: u64, reader: Reader, writer: Writer)
    returns (r: Result<u64, CryptoError>, ghost chunks: seq<bytes>)
    requires params.Valid() && ctx.crypto.Lawful() && IsPayloadAlgorithm(ctx.algorithm)
    modifies reader`rest, writer`written
    ensures r.Ok? ==>
      && DecryptProgress(params, ctx, version, declared, old(reader.rest), chunks, reader.rest, true)
      && r.value == |Flatten(chunks)| && writer.written == old(writer.written) + Flatten(chunks)
    ensures AuthenticPrefix(params, ctx, declared, old(reader.rest), chunks)
    ensures r.Err? ==> PartlyWritten(old(writer.written), Flatten(chunks), writer.written)
    ensures r.Err? && !writer.faulty ==> writer.written == old(writer.written) + Flatten(chunks)
    ensures r.Err? ==>
      || (r.error == Io && (reader.faulty || writer.faulty))
      || (r.error in {DecryptionFailed, MissingSecondaryNonce} &&
           Accepted(ctx, params.chunkSize, version, declared, old(reader.rest)).None?)
  {
    hide Accepted, Flatten, DecryptProgress, Usable, AuthenticPrefix, PartlyWritten;
    chunks := [];
    FlattenNil();
    ghost var input, before := reader.rest, writer.written;
    var totalWritten: u64 := 0;
    var globalChunkIndex: u64 := 0;
    var eof := false;
    DecryptStart(params, ctx, version, declared, input);
    while !eof
      invariant DecryptProgress(params, ctx, version, declared, input, chunks, reader.rest, eof)
      invariant totalWritten == |Flatten(chunks)| <= declared && globalChunkIndex == |chunks|
      invariant globalChunkIndex <= Max(1, totalWritten)
      invariant writer.written == before + Flatten(chunks)
      decreases declared - totalWritten, !eof
    {
      var turn, batch, after, ended :=
        DecryptBatch(params, ctx, version, declared, totalWritten, globalChunkIndex, reader, writer, input, chunks);
      ghost var earlier := chunks;
      chunks := chunks + batch;
      ProgressIsAuthentic(params, ctx, version, declared, input, chunks, after, ended);
      ProgressIndex(params, ctx, version, declared, input, chunks, after, ended);
      FlattenAppend(earlier, batch);
      if turn.Err? {
        assert batch == [] ==> chunks == earlier;
        LaterPartlyWritten(before, Flatten(earlier), Flatten(batch), writer.written);
        return Err(turn.error), chunks;
      }
      eof := turn.value;
      if batch == [] { break; }
      totalWritten := totalWritten + |Flatten(batch)|;
      globalChunkIndex := globalChunkIndex + |batch|;  // the checked addition: it never overflows
    }
    ProgressIsAuthentic(params, ctx, version, declared, input, chunks, reader.rest, eof);
    r := Ok(totalWritten);
  }

  /** Decryption succeeds exactly on the accepted language, with the accepted
      plaintext, for every declared length, all short reads, every batch size and
      every order of tasks. Whatever happens, what has been written is a prefix of
      authenticated chunks: their frames start the input, and on an error that is
      not the writer's own, exactly the chunks of whole batches were written. */
  method StreamDecryptPayload(params: Params, ctx: Context, version: u16, declared: u64, reader: Reader, writer: Writer)
    returns (r: Result<(), CryptoError>, ghost chunks: seq<bytes>)
    requires params.Valid() && ctx.crypto.Lawful()
    modifies reader`rest, writer`written
    ensures r.Ok? ==>
      && Accepted(ctx, params.chunkSize, version, declared, old(reader.rest)).Some?
      && writer.written == old(writer.written) + Accepted(ctx, params.chunkSize, version, declared,
           old(reader.rest)).value
    ensures r.Err? && r.error != Io ==> Accepted(ctx, params.chunkSize, version, declared, old(reader.rest)).None?
    ensures r == Err(Io) ==> reader.faulty || writer.faulty
    ensures r.Err? ==> r.error in {Io, DecryptionFailed, MissingSecondaryNonce, UnsupportedProfile}
    ensures AuthenticPrefix(params, ctx, declared, old(reader.rest), chunks)
    ensures !writer.faulty ==> writer.written == old(writer.written) + Flatten(chunks)
    ensures PartlyWritten(old(writer.written), Flatten(chunks), writer.written)
  {
    chunks := [];
    FlattenNil();
    WhollyWritten(writer.written, Flatten(chunks), writer.written);
    if !IsPayloadAlgorithm(ctx.algorithm) {
      return Err(UnsupportedProfile), chunks;
    }
    hide Accepted, Flatten, DecryptProgress, Usable, AuthenticPrefix, PartlyWritten;
    ghost var input, before := reader.rest, writer.written;
    var total;
    total, chunks := DecryptLoop(params, ctx, version, declared, reader, writer);
    if total.Err? { return Err(total.error), chunks; }
    DecryptDecided(params, ctx, version, declared, input, chunks, reader.rest);
    WhollyWritten(before, Flatten(chunks), writer.written);
    r := FinalChecks(total.value, declared, reader);
  }

  /** The declared length was reached and nothing trails the last frame. */
  method FinalChecks(totalWritten: u64, declared: u64, reader: Reader) returns (r: Result<(), CryptoError>)
    modifies reader`rest
    ensures r.Ok? ==> totalWritten == declared && old(reader.rest) == []
    ensures r.Err? ==>
      || (r.error == Io && reader.faulty)
      || (r.error == DecryptionFailed && !(totalWritten == declared && old(reader.rest) == []))
  {
    if totalWritten != declared {
      return Err(DecryptionFailed);
    }
    var trailing := ReadUpTo(reader, 1);
    if trailing.Err? { return Err(Io); }
    r := if trailing.value != [] then Err(DecryptionFailed) else Ok(());
  }

  /** The frames of `chunks` start the input, no more than the declared length was
      released, and it was released in whole batches unless the end was reached. */
  ghost predicate AuthenticPrefix(params: Params, ctx: Context, declared: u64, input: bytes, chunks: seq<bytes>)
    requires params.Valid()
  {
    && |Flatten(chunks)| <= declared
    && (chunks != [] ==>
         && Usable(ctx) && IndicesFit(0, |chunks|)
         && SealAll(ctx, 0, chunks) <= input
         && (WholeBatches(params, |chunks|) || |Flatten(chunks)| == declared || SealAll(ctx, 0, chunks) == input))
  }

  lemma ProgressIsAuthentic(params: Params, ctx: Context, version: u16, declared: u64, input: bytes, chunks: seq<bytes>,
                            rest: bytes, ended: bool)
    requires params.Valid() && |Flatten(chunks)| <= declared
    requires DecryptProgress(params, ctx, version, declared, input, chunks, rest, ended)
    ensures AuthenticPrefix(params, ctx, declared, input, chunks)
  {
    hide Seal, SequentialOpen;
    if chunks != [] {
      if IsEmptyFrame(version, declared, 0) {
        assert SealAll(ctx, 0, [[]]) == Seal(ctx, 0, []) + SealAll(ctx, 1, []);
      } else if ended && rest == [] {
        assert SealAll(ctx, 0, chunks) + [] == SealAll(ctx, 0, chunks);
      }
    }
  }

  /** The streaming round trip, through both loops: whatever the plaintext, the
      algorithm, the version, the sizes of reads, chunks and batches and the order
      in which tasks finish, decryption writes exactly what was encrypted. */
  method EncryptThenDecrypt(params: Params, ctx: Context, version: u16, plaintext: bytes) returns (result: bytes)
    requires params.Valid() && ctx.crypto.Lawful() && Usable(ctx)
    requires |plaintext| <= U64_MAX  // the byte counter is a u64
    ensures result == plaintext
  {
    hide PayloadFrames, Accepted, Flatten, AuthenticPrefix, PartlyWritten, Usable;
    var input := new Reader(plaintext, false);
    var encrypted := new Writer(false);
    var sent := StreamEncryptPayload(params, ctx, version, input, encrypted);
    assert [] + PayloadFrames(ctx, params.chunkSize, version, plaintext) ==
      PayloadFrames(ctx, params.chunkSize, version, plaintext);
    RoundTrip(ctx, params.chunkSize, version, plaintext);
    var frames := new Reader(encrypted.written, false);
    var output := new Writer(false);
    var received, _ := StreamDecryptPayload(params, ctx, version, sent.value, frames, output);
    assert [] + plaintext == plaintext;
    result := output.written;
  }
}
