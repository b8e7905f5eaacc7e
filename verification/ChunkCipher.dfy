/** One payload frame: how a chunk is sealed and opened under each algorithm. */
module ChunkCipher {
  import opened Bytes
  import opened Primitives
  import opened Protocol
  import Framing
  import Lco

  datatype KeyPurpose = Payload | CascadeAes | CascadeXChaCha | LegacyLco | KeyWrap

  function Label(purpose: KeyPurpose): bytes {
    match purpose
    case Payload => Ascii("Lvau-file-encryption")
    case CascadeAes => Ascii("Lvau-Cascade-AES")
    case CascadeXChaCha => Ascii("Lvau-Cascade-XChaCha")
    case LegacyLco => Ascii("Lvau-Cascade-LCO")
    case KeyWrap => Ascii("Lvau-Key-Wrap")
  }

  /** No two purposes share a label. */
  lemma LabelsDistinct(p: KeyPurpose, q: KeyPurpose)
    requires Label(p) == Label(q)
    ensures p == q
  {
    assert Label(Payload)[5] == 102 && Label(CascadeXChaCha)[5] == 67;
    assert Label(CascadeAes)[13] == 65 && Label(LegacyLco)[13] == 76;
  }

  function DeriveSubkey(crypto: Crypto, rootKey: bytes, purpose: KeyPurpose): b32 {
    crypto.hkdf([], rootKey, Label(purpose))
  }

  /** Everything a frame depends on besides its index and contents. */
  datatype Context = Context(
    crypto: Crypto,
    algorithm: AlgorithmId,
    rootKey: bytes,
    nonce: b24,
    secondaryNonce: Option<b12>,
    commitment: b32)
  {
    function Subkey(purpose: KeyPurpose): b32 { DeriveSubkey(crypto, rootKey, purpose) }
  }

  predicate IsPayloadAlgorithm(algorithm: AlgorithmId) {
    algorithm.XChaCha20Poly1305? || NeedsSecondaryNonce(algorithm)
  }

  predicate NeedsSecondaryNonce(algorithm: AlgorithmId) {
    algorithm.CascadeAesGcmXChaCha? || algorithm.TripleCascadeAesXChaChaLco?
  }

  /** Frames can be processed at all. */
  predicate Usable(ctx: Context) {
    IsPayloadAlgorithm(ctx.algorithm) && (NeedsSecondaryNonce(ctx.algorithm) ==> ctx.secondaryNonce.Some?)
  }

  /** What a frame is longer than its chunk. */
  function TagSize(algorithm: AlgorithmId): nat {
    match algorithm
    case XChaCha20Poly1305 => 16
    case CascadeAesGcmXChaCha => 32
    case TripleCascadeAesXChaChaLco => 32
    case _ => 0
  }

  function CascadeSeal(ctx: Context, index: u64, chunk: bytes): bytes
    requires ctx.secondaryNonce.Some?
  {
    var aad := Framing.ChunkAadFor(ctx.commitment, index);
    var inner := ctx.crypto.aesgcm.seal(ctx.Subkey(CascadeAes), Framing.AesNonceFor(ctx.secondaryNonce.value, index),
      aad, chunk);
    ctx.crypto.xchacha.seal(ctx.Subkey(CascadeXChaCha), Framing.XChaChaNonceFor(ctx.nonce, index), aad, inner)
  }

  function CascadeOpen(ctx: Context, index: u64, frame: bytes): Option<bytes>
    requires ctx.secondaryNonce.Some?
  {
    var aad := Framing.ChunkAadFor(ctx.commitment, index);
    var inner :- ctx.crypto.xchacha.open(ctx.Subkey(CascadeXChaCha), Framing.XChaChaNonceFor(ctx.nonce, index), aad,
      frame);
    ctx.crypto.aesgcm.open(ctx.Subkey(CascadeAes), Framing.AesNonceFor(ctx.secondaryNonce.value, index), aad, inner)
  }

  function Obfuscate(ctx: Context, index: u64, data: bytes): bytes {
    Lco.Apply(data, ctx.Subkey(LegacyLco), Framing.XChaChaNonceFor(ctx.nonce, index))
  }

  /** The frame that carries `chunk` at position `index`. */
  function Seal(ctx: Context, index: u64, chunk: bytes): bytes
    requires Usable(ctx)
  {
    match ctx.algorithm
    case CascadeAesGcmXChaCha => CascadeSeal(ctx, index, chunk)
    case TripleCascadeAesXChaChaLco => Obfuscate(ctx, index, CascadeSeal(ctx, index, chunk))
    case _ =>
      ctx.crypto.xchacha.seal(ctx.Subkey(Payload), Framing.XChaChaNonceFor(ctx.nonce, index),
        Framing.ChunkAadFor(ctx.commitment, index), chunk)
  }

  /** The chunk that `frame` carries at position `index`, if it is authentic there. */
  function Open(ctx: Context, index: u64, frame: bytes): Option<bytes>
    requires Usable(ctx)
  {
    match ctx.algorithm
    case CascadeAesGcmXChaCha => CascadeOpen(ctx, index, frame)
    case TripleCascadeAesXChaChaLco => CascadeOpen(ctx, index, Obfuscate(ctx, index, frame))
    case _ =>
      ctx.crypto.xchacha.open(ctx.Subkey(Payload), Framing.XChaChaNonceFor(ctx.nonce, index),
        Framing.ChunkAadFor(ctx.commitment, index), frame)
  }

  lemma CascadeLaw(ctx: Context, index: u64, chunk: bytes, frame: bytes)
    requires ctx.secondaryNonce.Some? && ctx.crypto.Lawful()
    ensures CascadeOpen(ctx, index, frame) == Some(chunk) <==> frame == CascadeSeal(ctx, index, chunk)
    ensures |CascadeSeal(ctx, index, chunk)| == |chunk| + 32
  {
    var aad := Framing.ChunkAadFor(ctx.commitment, index);
    var aesKey, aesNonce := ctx.Subkey(CascadeAes), Framing.AesNonceFor(ctx.secondaryNonce.value, index);
    var xKey, xNonce := ctx.Subkey(CascadeXChaCha), Framing.XChaChaNonceFor(ctx.nonce, index);
    var inner := ctx.crypto.aesgcm.seal(aesKey, aesNonce, aad, chunk);
    OpenIffSealed(ctx.crypto.aesgcm, aesKey, aesNonce, aad, inner, chunk);
    OpenIffSealed(ctx.crypto.xchacha, xKey, xNonce, aad, frame, inner);
    var middle := ctx.crypto.xchacha.open(xKey, xNonce, aad, frame);
    if middle.Some? {
      OpenIffSealed(ctx.crypto.aesgcm, aesKey, aesNonce, aad, middle.value, chunk);
    }
  }

  /** Every algorithm inherits the AEAD laws: a frame opens to a chunk exactly
      when it is the sealed form of that chunk at that index, and sealing adds
      exactly the tag size. */
  lemma FrameLaw(ctx: Context, index: u64, chunk: bytes, frame: bytes)
    requires Usable(ctx) && ctx.crypto.Lawful()
    ensures Open(ctx, index, frame) == Some(chunk) <==> frame == Seal(ctx, index, chunk)
    ensures |Seal(ctx, index, chunk)| == |chunk| + TagSize(ctx.algorithm)
  {
    if ctx.algorithm.XChaCha20Poly1305? {
      OpenIffSealed(ctx.crypto.xchacha, ctx.Subkey(Payload), Framing.XChaChaNonceFor(ctx.nonce, index),
        Framing.ChunkAadFor(ctx.commitment, index), frame, chunk);
    } else if ctx.algorithm.CascadeAesGcmXChaCha? {
      CascadeLaw(ctx, index, chunk, frame);
    } else {
      var key, nonce := ctx.Subkey(LegacyLco), Framing.XChaChaNonceFor(ctx.nonce, index);
      CascadeLaw(ctx, index, chunk, Obfuscate(ctx, index, frame));
      Lco.Involution(CascadeSeal(ctx, index, chunk), key, nonce);
      Lco.Involution(frame, key, nonce);
    }
  }

  // ---- The layers by hand ----

  /** What any reader of the format gets out of a frame, layer by layer: nonces and
      associated data from the index, keys from the root key and the label of each
      layer. */
  function OpenByHand(ctx: Context, index: u64, frame: bytes): Option<bytes>
    requires Usable(ctx)
  {
    var nonce := Framing.NonceFor(ctx.nonce, index);
    var aad := ctx.commitment + Le(index, 8);
    if ctx.algorithm.XChaCha20Poly1305? then
      ctx.crypto.xchacha.open(ctx.crypto.hkdf([], ctx.rootKey, Ascii("Lvau-file-encryption")), nonce, aad, frame)
    else
      var keystreamKey := ctx.crypto.hkdf([], ctx.rootKey, Ascii("Lvau-Cascade-LCO"));
      var outer := if ctx.algorithm.CascadeAesGcmXChaCha? then frame else Lco.Apply(frame, keystreamKey, nonce);
      var inner :-
        ctx.crypto.xchacha.open(ctx.crypto.hkdf([], ctx.rootKey, Ascii("Lvau-Cascade-XChaCha")), nonce, aad, outer);
      ctx.crypto.aesgcm.open(ctx.crypto.hkdf([], ctx.rootKey, Ascii("Lvau-Cascade-AES")),
        Framing.NonceFor(ctx.secondaryNonce.value, index), aad, inner)
  }

  /** The writer's frames are exactly those that open by hand. */
  lemma SealedByHand(ctx: Context, index: u64, chunk: bytes, frame: bytes)
    requires Usable(ctx) && ctx.crypto.Lawful()
    ensures OpenByHand(ctx, index, frame) == Some(chunk) <==> frame == Seal(ctx, index, chunk)
  {
    hide Framing.NonceFor, Lco.Apply;
    FrameLaw(ctx, index, chunk, frame);
    assert Framing.ChunkAadFor(ctx.commitment, index) == ctx.commitment + Le(index, 8);
    assert OpenByHand(ctx, index, frame) == Open(ctx, index, frame);
  }

  // ---- What one parallel job does, built from the in-place helpers ----

  method ObfuscateCopy(ctx: Context, index: u64, data: bytes, nonce: b24) returns (r: bytes)
    requires nonce == Framing.XChaChaNonceFor(ctx.nonce, index)
    ensures r == Obfuscate(ctx, index, data)
  {
    var buffer := new byte[|data|](k requires 0 <= k < |data| => data[k]);
    assert buffer[..] == data;
    Lco.ApplyInPlace(buffer, ctx.Subkey(LegacyLco), nonce);
    r := buffer[..];
  }

  method SealChunk(ctx: Context, index: u64, chunk: bytes) returns (frame: bytes)
    requires Usable(ctx)
    ensures frame == Seal(ctx, index, chunk)
  {
    var nonce := Framing.XorIndex(ctx.nonce, index);
    var aad := Framing.ChunkAad(ctx.commitment, index);
    if ctx.algorithm.XChaCha20Poly1305? {
      frame := ctx.crypto.xchacha.seal(ctx.Subkey(Payload), nonce, aad, chunk);
    } else {
      var aesNonce := Framing.XorIndex(ctx.secondaryNonce.value, index);
      var inner := ctx.crypto.aesgcm.seal(ctx.Subkey(CascadeAes), aesNonce, aad, chunk);
      frame := ctx.crypto.xchacha.seal(ctx.Subkey(CascadeXChaCha), nonce, aad, inner);
      if ctx.algorithm.TripleCascadeAesXChaChaLco? {
        frame := ObfuscateCopy(ctx, index, frame, nonce);
      }
    }
  }

  method OpenChunk(ctx: Context, index: u64, frame: bytes) returns (chunk: Option<bytes>)
    requires Usable(ctx)
    ensures chunk == Open(ctx, index, frame)
  {
    var nonce := Framing.XorIndex(ctx.nonce, index);
    var aad := Framing.ChunkAad(ctx.commitment, index);
    if ctx.algorithm.XChaCha20Poly1305? {
      chunk := ctx.crypto.xchacha.open(ctx.Subkey(Payload), nonce, aad, frame);
    } else {
      var aesNonce := Framing.XorIndex(ctx.secondaryNonce.value, index);
      var outer := frame;
      if ctx.algorithm.TripleCascadeAesXChaChaLco? {
        outer := ObfuscateCopy(ctx, index, frame, nonce);
      }
      var inner := ctx.crypto.xchacha.open(ctx.Subkey(CascadeXChaCha), nonce, aad, outer);
      if inner.None? { return None; }
      chunk := ctx.crypto.aesgcm.open(ctx.Subkey(CascadeAes), aesNonce, aad, inner.value);
    }
  }
}
