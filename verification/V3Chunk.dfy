/** The chunk primitive of format v3. */
module V3Chunk {
  import opened Bytes
  import opened Errors
  import opened Primitives
  import Protocol

  const TAG: nat := 16
  const MAX_CHUNK: nat := 1024 * 1024

  datatype Suite = XChaCha | AesGcmSivXChaCha
  datatype Layer = Single | Inner | Outer
  datatype KeyPurpose =
    | PayloadSingle | PayloadInner | PayloadOuter | RecipientWrap
    | EnvelopeCommitment | BundleManifest | Padding | Exporter

  datatype Descriptor = Descriptor(index: u64, plaintextLen: u32, final: bool)

  function SuiteCode(s: Suite): byte { if s.XChaCha? then 1 else 2 }

  function LayerCode(l: Layer): byte { match l case Single => 1 case Inner => 2 case Outer => 3 }

  function SuiteName(s: Suite): bytes { Protocol.Ascii(if s.XChaCha? then "LV3-XC20P" else "LV3-AESGCMSIV-XC20P") }

  function Label(p: KeyPurpose): bytes {
    match p
    case PayloadSingle => Protocol.Ascii("payload-single")
    case PayloadInner => Protocol.Ascii("payload-inner-aes-256-gcm-siv")
    case PayloadOuter => Protocol.Ascii("payload-outer-xchacha20-poly1305")
    case RecipientWrap => Protocol.Ascii("recipient-wrap")
    case EnvelopeCommitment => Protocol.Ascii("envelope-commitment")
    case BundleManifest => Protocol.Ascii("bundle-manifest")
    case Padding => Protocol.Ascii("padding")
    case Exporter => Protocol.Ascii("exporter")
  }

  // ---- Key, nonce and associated data ----

  function SubkeyInfo(s: Suite, p: KeyPurpose): bytes {
    Protocol.Ascii("Lvau v3 subkey\0") + SuiteName(s) + [0] + Label(p)
  }

  function NonceInfo(s: Suite, l: Layer, index: u64): bytes {
    [SuiteCode(s), LayerCode(l)] + Le(index, 8)
  }

  function AadDomain(): bytes { Protocol.Ascii("Lvau v3 chunk AAD\0") }

  function AadFor(s: Suite, l: Layer, commitment: b32, d: Descriptor, innerLen: u32, ciphertextLen: u32): bytes {
    AadDomain() + [SuiteCode(s), LayerCode(l)] + commitment + Le(d.index, 8) + Le(d.plaintextLen, 4)
      + Le(innerLen, 4) + Le(ciphertextLen, 4) + [if d.final then 1 else 0]
  }

  function DeriveSubkey(crypto: Crypto, rootKey: b32, s: Suite, p: KeyPurpose): b32 {
    crypto.hkdf(Protocol.Ascii("Lvau v3 key schedule\0"), rootKey, SubkeyInfo(s, p))
  }

  function DeriveXChaChaNonce(crypto: Crypto, baseNonce: b24, s: Suite, l: Layer, index: u64): b24 {
    crypto.hkdf24(Protocol.Ascii("Lvau v3 nonce schedule\0"), baseNonce, NonceInfo(s, l, index))
  }

  method BuildAad(s: Suite, l: Layer, commitment: b32, d: Descriptor, innerLen: u32, ciphertextLen: u32)
    returns (aad: bytes)
    ensures aad == AadFor(s, l, commitment, d, innerLen, ciphertextLen)
  {
    hide Le;
    aad := AadDomain();
    aad := aad + [SuiteCode(s)];
    aad := aad + [LayerCode(l)];
    assert aad == AadDomain() + [SuiteCode(s), LayerCode(l)];
    aad := aad + commitment;
    aad := aad + Le(d.index, 8);
    aad := aad + Le(d.plaintextLen, 4);
    aad := aad + Le(innerLen, 4);
    aad := aad + Le(ciphertextLen, 4);
    aad := aad + [if d.final then 1 else 0];
  }

  method BuildNonceInfo(s: Suite, l: Layer, index: u64) returns (info: bytes)
    ensures info == NonceInfo(s, l, index)
  {
    hide Le;
    var buffer := new byte[10](_ => 0);
    buffer[0] := SuiteCode(s);
    buffer[1] := LayerCode(l);
    var indexBytes := Le(index, 8);
    forall k | 0 <= k < 8 { buffer[2 + k] := indexBytes[k]; }
    info := buffer[..];
  }

  // ---- They separate all their inputs ----

  /** The associated data determines every one of the eight values in it. */
  lemma AadInjective(s: Suite, l: Layer, c: b32, d: Descriptor, i: u32, t: u32, s': Suite, l': Layer, c': b32,
                     d': Descriptor, i': u32, t': u32)
    requires AadFor(s, l, c, d, i, t) == AadFor(s', l', c', d', i', t')
    ensures s == s' && l == l' && c == c' && d == d' && i == i' && t == t'
  {
    hide Le, AadDomain;
    Pow256Values();
    AadFields(s, l, c, d, i, t);
    AadFields(s', l', c', d', i', t');
    LeInjective(d.index, d'.index, 8);
    LeInjective(d.plaintextLen, d'.plaintextLen, 4);
    LeInjective(i, i', 4);
    LeInjective(t, t', 4);
  }

  lemma AadFields(s: Suite, l: Layer, c: b32, d: Descriptor, i: u32, t: u32)
    ensures var aad := AadFor(s, l, c, d, i, t);
      var n := |AadDomain()|;
      && |aad| == n + 55
      && aad[n] == SuiteCode(s) && aad[n + 1] == LayerCode(l) && aad[n + 2..n + 34] == c
      && aad[n + 34..n + 42] == Le(d.index, 8) && aad[n + 42..n + 46] == Le(d.plaintextLen, 4)
      && aad[n + 46..n + 50] == Le(i, 4) && aad[n + 50..n + 54] == Le(t, 4)
      && aad[n + 54] == if d.final then 1 else 0
  {
    hide Le, AadDomain;
  }

  lemma NonceInfoInjective(s: Suite, l: Layer, i: u64, s': Suite, l': Layer, i': u64)
    requires NonceInfo(s, l, i) == NonceInfo(s', l', i')
    ensures s == s' && l == l' && i == i'
  {
    hide Le;
    var a, b := NonceInfo(s, l, i), NonceInfo(s', l', i');
    assert a[0] == SuiteCode(s) && a[1] == LayerCode(l) && a[2..] == Le(i, 8);
    assert b[0] == SuiteCode(s') && b[1] == LayerCode(l') && b[2..] == Le(i', 8);
    Pow256Values();
    LeInjective(i, i', 8);
  }

  /** No two suites or purposes share a key derivation input. */
  lemma SubkeyInfoInjective(s: Suite, p: KeyPurpose, s': Suite, p': KeyPurpose)
    requires SubkeyInfo(s, p) == SubkeyInfo(s', p')
    ensures s == s' && p == p'
  {
    SuiteMarks(s, p);
    SuiteMarks(s', p');
    var front := Protocol.Ascii("Lvau v3 subkey\0") + SuiteName(s) + [0];
    assert Label(p) == SubkeyInfo(s, p)[|front|..] == SubkeyInfo(s', p')[|front|..] == Label(p');
    LabelsDistinct(p, p');
  }

  lemma SuiteMarks(s: Suite, p: KeyPurpose)
    ensures |SubkeyInfo(s, p)| > 19 && (SubkeyInfo(s, p)[19] == 88 <==> s.XChaCha?)
  {
    assert SubkeyInfo(s, p)[19] == SuiteName(s)[4];
  }

  lemma LabelsDistinct(p: KeyPurpose, q: KeyPurpose)
    requires Label(p) == Label(q)
    ensures p == q
  {
    assert Label(PayloadSingle)[0] == 112 && Label(RecipientWrap)[0] == 114;
  }

  // ---- Chunks ----

  predicate ValidLength(plaintextLen: nat) { plaintextLen <= MAX_CHUNK }

  function NewDescriptor(index: u64, plaintextLen: nat, final: bool): Result<Descriptor, CryptoError> {
    if plaintextLen > U32_MAX then Err(Validation)
    else if !ValidLength(plaintextLen) then Err(Validation)
    else Ok(Descriptor(index, plaintextLen, final))
  }

  function EncryptChunk(crypto: Crypto, rootKey: b32, baseNonce: b24, commitment: b32, d: Descriptor,
                        plaintext: bytes): Result<bytes, CryptoError> {
    if !ValidLength(d.plaintextLen) then Err(Validation)
    else if |plaintext| != d.plaintextLen then Err(Validation)
    else if d.plaintextLen + TAG > U32_MAX then Err(Validation)
    else
      Ok(crypto.xchacha.seal(
        DeriveSubkey(crypto, rootKey, XChaCha, PayloadSingle),
        DeriveXChaChaNonce(crypto, baseNonce, XChaCha, Single, d.index),
        AadFor(XChaCha, Single, commitment, d, 0, d.plaintextLen + TAG), plaintext))
  }

  function DecryptChunk(crypto: Crypto, rootKey: b32, baseNonce: b24, commitment: b32, d: Descriptor,
                        ciphertext: bytes): Result<bytes, CryptoError> {
    if !ValidLength(d.plaintextLen) then Err(Validation)
    else if d.plaintextLen + TAG > U32_MAX then Err(Validation)
    else if |ciphertext| > U32_MAX then Err(Validation)
    else if |ciphertext| != d.plaintextLen + TAG then Err(DecryptionFailed)
    else
      match crypto.xchacha.open(
        DeriveSubkey(crypto, rootKey, XChaCha, PayloadSingle),
        DeriveXChaChaNonce(crypto, baseNonce, XChaCha, Single, d.index),
        AadFor(XChaCha, Single, commitment, d, 0, d.plaintextLen + TAG), ciphertext)
      case None => Err(DecryptionFailed)
      case Some(plaintext) => if |plaintext| != d.plaintextLen then Err(DecryptionFailed) else Ok(plaintext)
  }

  /** Encryption accepts exactly a plaintext of the described length up to 1 MiB,
      and decryption inverts it: a ciphertext decrypts to a plaintext exactly when
      that plaintext encrypts to it. */
  lemma ChunkInverse(crypto: Crypto, rootKey: b32, baseNonce: b24, commitment: b32, d: Descriptor, plaintext: bytes,
                     ciphertext: bytes)
    requires crypto.Lawful()
    ensures EncryptChunk(crypto, rootKey, baseNonce, commitment, d, plaintext).Ok? <==>
      |plaintext| == d.plaintextLen <= MAX_CHUNK
    ensures DecryptChunk(crypto, rootKey, baseNonce, commitment, d, ciphertext) == Ok(plaintext)
       <==> EncryptChunk(crypto, rootKey, baseNonce, commitment, d, plaintext) == Ok(ciphertext)
  {
    hide AadFor, DeriveSubkey, DeriveXChaChaNonce;
    if ValidLength(d.plaintextLen) {
      OpenIffSealed(crypto.xchacha, DeriveSubkey(crypto, rootKey, XChaCha, PayloadSingle),
        DeriveXChaChaNonce(crypto, baseNonce, XChaCha, Single, d.index),
        AadFor(XChaCha, Single, commitment, d, 0, d.plaintextLen + TAG), ciphertext, plaintext);
    }
  }

  /** Every descriptor the constructor gives out can be used. */
  lemma DescribedRoundTrip(crypto: Crypto, rootKey: b32, baseNonce: b24, commitment: b32, index: u64, plaintext: bytes,
                           final: bool)
    requires crypto.Lawful()
    ensures NewDescriptor(index, |plaintext|, final).Ok? <==> |plaintext| <= MAX_CHUNK
    ensures |plaintext| <= MAX_CHUNK ==>
      var d := NewDescriptor(index, |plaintext|, final).value;
      var c := EncryptChunk(crypto, rootKey, baseNonce, commitment, d, plaintext);
      c.Ok? && DecryptChunk(crypto, rootKey, baseNonce, commitment, d, c.value) == Ok(plaintext)
  {
    hide EncryptChunk, DecryptChunk;
    if |plaintext| <= MAX_CHUNK {
      var d := NewDescriptor(index, |plaintext|, final).value;
      var c := EncryptChunk(crypto, rootKey, baseNonce, commitment, d, plaintext);
      ChunkInverse(crypto, rootKey, baseNonce, commitment, d, plaintext, if c.Ok? then c.value else []);
    }
  }

  // ---- By hand ----

  /** The documented associated data of a single-layer chunk. */
  function AadByHand(commitment: b32, d: Descriptor): bytes {
    Protocol.Ascii("Lvau v3 chunk AAD\0") + [1, 1] + commitment + Le(d.index, 8) + Le(d.plaintextLen, 4) + Le(0, 4)
      + Le(d.plaintextLen + 16, 4) + [if d.final then 1 else 0]
  }

  /** What any reader of the format gets out of a chunk, with the primitives spelled
      out. */
  function OpenByHand(crypto: Crypto, rootKey: b32, baseNonce: b24, commitment: b32, d: Descriptor,
                      ciphertext: bytes): Option<bytes> {
    var info := Protocol.Ascii("Lvau v3 subkey\0") + Protocol.Ascii("LV3-XC20P") + [0]
      + Protocol.Ascii("payload-single");
    crypto.xchacha.open(crypto.hkdf(Protocol.Ascii("Lvau v3 key schedule\0"), rootKey, info),
      crypto.hkdf24(Protocol.Ascii("Lvau v3 nonce schedule\0"), baseNonce, [1, 1] + Le(d.index, 8)),
      AadByHand(commitment, d), ciphertext)
  }

  /** A plaintext encrypts to a chunk exactly if it has the described length, up to
      1 MiB, and the chunk opens to it by hand. */
  lemma EncryptedByHand(crypto: Crypto, rootKey: b32, baseNonce: b24, commitment: b32, d: Descriptor,
                        plaintext: bytes, ciphertext: bytes)
    requires crypto.Lawful()
    ensures EncryptChunk(crypto, rootKey, baseNonce, commitment, d, plaintext) == Ok(ciphertext) <==>
      && |plaintext| == d.plaintextLen <= 0x10_0000
      && OpenByHand(crypto, rootKey, baseNonce, commitment, d, ciphertext) == Some(plaintext)
  {
    hide Le, Protocol.Ascii;
    if ValidLength(d.plaintextLen) {
      assert AadFor(XChaCha, Single, commitment, d, 0, d.plaintextLen + TAG) == AadByHand(commitment, d);
      OpenIffSealed(crypto.xchacha, DeriveSubkey(crypto, rootKey, XChaCha, PayloadSingle),
        DeriveXChaChaNonce(crypto, baseNonce, XChaCha, Single, d.index), AadByHand(commitment, d), ciphertext,
        plaintext);
    }
  }

  // ---- Everything a chunk depends on, told apart ----

  function ChunkMark(commitment: b32, d: Descriptor, key: b32, nonce: bytes, aad: bytes): b16 {
    if key == Marked(1) && nonce == Marked(1)[..24] && aad == AadByHand(commitment, d) then Marked(1)[..16]
    else Zeroes(16)
  }

  /** Primitives whose tags show whether a chunk was made with this root key, base nonce,
      commitment and descriptor. */
  function ChunkTelling(rootKey: b32, baseNonce: b24, commitment: b32, d: Descriptor): Crypto {
    ToyCrypto().(
      xchacha := TaggedAead((k, n, a, m) => ChunkMark(commitment, d, k, n, a)),
      hkdf := (salt: bytes, input: bytes, info: bytes) => Marked(if input == rootKey then 1 else 0),
      hkdf24 := (salt: bytes, input: bytes, info: bytes) =>
        if input == baseNonce && info == [1, 1] + Le(d.index, 8) then Marked(1)[..24] else Zeroes(24))
  }

  lemma ChunkTellingIsLawful(rootKey: b32, baseNonce: b24, commitment: b32, d: Descriptor)
    ensures ChunkTelling(rootKey, baseNonce, commitment, d).Lawful()
  {
    LawsAreSatisfiable();
    TaggedIsLawful((k, n, a, m) => ChunkMark(commitment, d, k, n, a));
  }

  /** The tag of any chunk under these primitives. */
  lemma ToldChunk(rootKey: b32, baseNonce: b24, commitment: b32, d: Descriptor,
                  rootKey': b32, baseNonce': b24, commitment': b32, d': Descriptor, plaintext: bytes)
    requires |plaintext| == d'.plaintextLen <= MAX_CHUNK && d.plaintextLen <= MAX_CHUNK
    ensures var crypto := ChunkTelling(rootKey, baseNonce, commitment, d);
      EncryptChunk(crypto, rootKey', baseNonce', commitment', d', plaintext) == Ok(plaintext +
        if (rootKey, baseNonce, commitment, d) == (rootKey', baseNonce', commitment', d') then Marked(1)[..16]
        else Zeroes(16))
  {
    hide Le, Protocol.Ascii, AadDomain;
    var aad := AadFor(XChaCha, Single, commitment, d, 0, d.plaintextLen + TAG);
    var aad' := AadFor(XChaCha, Single, commitment', d', 0, d'.plaintextLen + TAG);
    assert aad == AadByHand(commitment, d) by { DomainByHand(); }
    if aad == aad' {
      AadInjective(XChaCha, Single, commitment, d, 0, d.plaintextLen + TAG, XChaCha, Single, commitment', d', 0,
        d'.plaintextLen + TAG);
    }
    assert [SuiteCode(XChaCha), LayerCode(Single)] + Le(d.index, 8) == [1, 1] + Le(d.index, 8);
    assert Marked(1)[0] == 1 && Marked(0)[0] == 0 && Marked(1)[..24][0] == 1 && Zeroes(24)[0] == 0;
  }

  lemma DomainByHand()
    ensures AadDomain() == Protocol.Ascii("Lvau v3 chunk AAD\0")
  {
  }

  /** A chunk does not decrypt under another root key, base nonce, commitment, index,
      length or final flag: for any two such inputs that differ there are lawful
      primitives under which what was encrypted with the one is refused with the
      other. */
  lemma OtherChunkRefused(rootKey: b32, baseNonce: b24, commitment: b32, d: Descriptor,
                          rootKey': b32, baseNonce': b24, commitment': b32, d': Descriptor, plaintext: bytes)
    requires |plaintext| == d.plaintextLen <= MAX_CHUNK && d'.plaintextLen <= MAX_CHUNK
    requires (rootKey, baseNonce, commitment, d) != (rootKey', baseNonce', commitment', d')
    ensures var crypto := ChunkTelling(rootKey, baseNonce, commitment, d);
      var chunk := EncryptChunk(crypto, rootKey, baseNonce, commitment, d, plaintext);
      && crypto.Lawful() && chunk.Ok?
      && DecryptChunk(crypto, rootKey, baseNonce, commitment, d, chunk.value) == Ok(plaintext)
      && DecryptChunk(crypto, rootKey', baseNonce', commitment', d', chunk.value) == Err(DecryptionFailed)
  {
    hide EncryptChunk, DecryptChunk, ChunkTelling;
    var crypto := ChunkTelling(rootKey, baseNonce, commitment, d);
    ChunkTellingIsLawful(rootKey, baseNonce, commitment, d);
    ToldChunk(rootKey, baseNonce, commitment, d, rootKey, baseNonce, commitment, d, plaintext);
    var chunk := plaintext + Marked(1)[..16];
    ChunkInverse(crypto, rootKey, baseNonce, commitment, d, plaintext, chunk);
    var other := DecryptChunk(crypto, rootKey', baseNonce', commitment', d', chunk);
    DecryptErrors(crypto, rootKey', baseNonce', commitment', d', chunk);
    if other.Ok? {
      ChunkInverse(crypto, rootKey', baseNonce', commitment', d', other.value, chunk);
      ToldChunk(rootKey, baseNonce, commitment, d, rootKey', baseNonce', commitment', d', other.value);
      TagsDiffer(plaintext, other.value);
    }
  }

  lemma TagsDiffer(p: bytes, q: bytes)
    ensures p + Marked(1)[..16] != q + Zeroes(16)
  {
    var a, b := p + Marked(1)[..16], q + Zeroes(16);
    assert a[|a| - 1] == 1 && b[|b| - 1] == 0;
  }

  /** Within the lengths a descriptor allows, decryption fails in one way only. */
  lemma DecryptErrors(crypto: Crypto, rootKey: b32, baseNonce: b24, commitment: b32, d: Descriptor, ciphertext: bytes)
    requires d.plaintextLen <= MAX_CHUNK && |ciphertext| <= U32_MAX
    ensures var r := DecryptChunk(crypto, rootKey, baseNonce, commitment, d, ciphertext);
      r.Err? ==> r == Err(DecryptionFailed)
  {
    hide AadFor, DeriveSubkey, DeriveXChaChaNonce;
  }

  // ---- The chunk functions themselves ----

  method EncryptXChaChaChunk(crypto: Crypto, rootKey: b32, baseNonce: b24, commitment: b32, d: Descriptor,
                             plaintext: bytes)
    returns (r: Result<bytes, CryptoError>)
    ensures r == EncryptChunk(crypto, rootKey, baseNonce, commitment, d, plaintext)
  {
    hide AadFor, NonceInfo, SubkeyInfo;
    if !ValidLength(d.plaintextLen) { return Err(Validation); }
    if |plaintext| != d.plaintextLen { return Err(Validation); }
    var ciphertextLen := d.plaintextLen + TAG;
    if ciphertextLen > U32_MAX { return Err(Validation); }
    var aad := BuildAad(XChaCha, Single, commitment, d, 0, ciphertextLen);
    var key := DeriveSubkey(crypto, rootKey, XChaCha, PayloadSingle);
    var info := BuildNonceInfo(XChaCha, Single, d.index);
    var nonce := crypto.hkdf24(Protocol.Ascii("Lvau v3 nonce schedule\0"), baseNonce, info);
    r := Ok(crypto.xchacha.seal(key, nonce, aad, plaintext));
  }

  method DecryptXChaChaChunk(crypto: Crypto, rootKey: b32, baseNonce: b24, commitment: b32, d: Descriptor,
                             ciphertext: bytes)
    returns (r: Result<bytes, CryptoError>)
    ensures r == DecryptChunk(crypto, rootKey, baseNonce, commitment, d, ciphertext)
  {
    hide AadFor, NonceInfo, SubkeyInfo;
    if !ValidLength(d.plaintextLen) { return Err(Validation); }
    var expectedLen := d.plaintextLen + TAG;
    if expectedLen > U32_MAX { return Err(Validation); }
    if |ciphertext| > U32_MAX { return Err(Validation); }
    if |ciphertext| != expectedLen { return Err(DecryptionFailed); }
    var aad := BuildAad(XChaCha, Single, commitment, d, 0, expectedLen);
    var key := DeriveSubkey(crypto, rootKey, XChaCha, PayloadSingle);
    var info := BuildNonceInfo(XChaCha, Single, d.index);
    var nonce := crypto.hkdf24(Protocol.Ascii("Lvau v3 nonce schedule\0"), baseNonce, info);
    var plaintext := crypto.xchacha.open(key, nonce, aad, ciphertext);
    if plaintext.None? { return Err(DecryptionFailed); }
    if |plaintext.value| != d.plaintextLen { return Err(DecryptionFailed); }
    r := Ok(plaintext.value);
  }
}
