/** The cryptographic crates, as abstract functions with stated laws. A value of
    type Crypto is one possible behaviour of all of them; a theorem about every
    lawful Crypto holds whatever the crates compute inside those laws. */
module Primitives {
  import opened Bytes

  const TAG_LEN: nat := 16

  /** Section 8 of FIPS 203: ciphertext size of ML-KEM-768. */
  const MLKEM_CIPHERTEXT_LEN: nat := 1088

  /** An AEAD in the sense of RFC 5116, arguments in the order key, nonce,
      associated data, message. */
  datatype Aead = Aead(
    seal: (b32, bytes, bytes, bytes) -> bytes,
    open: (b32, bytes, bytes, bytes) -> Option<bytes>)
  {
    /** RFC 5116 sections 2.1 and 2.2, with the 16-byte tag of RFC 8439
        section 2.8: decryption undoes encryption, and accepts only what
        encryption gives under the same key, nonce and associated data. */
    ghost predicate Lawful() {
      && (forall k, n, a, m :: |seal(k, n, a, m)| == |m| + TAG_LEN)
      && (forall k, n, a, m :: open(k, n, a, seal(k, n, a, m)) == Some(m))
      && (forall k, n, a, c :: open(k, n, a, c).Some? ==> c == seal(k, n, a, open(k, n, a, c).value))
    }
  }

  /** Signatures in the shape of Ed25519 (RFC 8032): secret seed, public key. */
  datatype Signer = Signer(
    publicKey: b32 -> b32,
    sign: (b32, bytes) -> b64,
    verify: (b32, bytes, b64) -> bool)
  {
    ghost predicate Lawful() {
      forall k, m :: verify(publicKey(k), m, sign(k, m))
    }
  }

  /** The hybrid recipient key agreement: X25519 and ML-KEM-768. */
  datatype KeyAgreement = KeyAgreement(
    x25519Base: b32 -> b32,
    x25519: (b32, b32) -> b32,
    contributory: b32 -> bool,
    mlkemPublic: bytes -> bytes,
    encapsulate: (bytes, bytes) -> (bytes, bytes),
    decapsulate: (bytes, bytes) -> bytes)
  {
    ghost predicate Lawful() {
      && (forall a, b :: x25519(a, x25519Base(b)) == x25519(b, x25519Base(a)))
      && (forall a :: x25519Base(a) != Zeroes(32))
      && (forall public, coins :: |encapsulate(public, coins).0| == MLKEM_CIPHERTEXT_LEN)
      && (forall sk, coins ::
            decapsulate(sk, encapsulate(mlkemPublic(sk), coins).0) == encapsulate(mlkemPublic(sk), coins).1)
    }
  }

  /** One behaviour of all primitives the program calls. */
  datatype Crypto = Crypto(
    xchacha: Aead,
    aesgcm: Aead,
    hkdf: (bytes, bytes, bytes) -> b32,    // salt, input key, info
    hkdf24: (bytes, bytes, bytes) -> b24,
    argon2: (bytes, Option<bytes>, u32, u32, u32, b16) -> Option<b32>,
    sha256: bytes -> b32,
    blake3: bytes -> b32,
    ed25519: Signer,
    kem: KeyAgreement)
  {
    ghost predicate Lawful() {
      xchacha.Lawful() && aesgcm.Lawful() && ed25519.Lawful() && kem.Lawful()
    }
  }

  /** A ciphertext determines its message, whatever the key. This is no law of
      RFC 5116; theorems that need it ask for it by name. */
  ghost predicate Committing(p: Aead) {
    forall k, k', n, a, m, m' :: p.seal(k, n, a, m) == p.seal(k', n, a, m') ==> m == m'
  }

  lemma OpenIffSealed(p: Aead, key: b32, nonce: bytes, aad: bytes, c: bytes, m: bytes)
    requires p.Lawful()
    ensures p.open(key, nonce, aad, c) == Some(m) <==> c == p.seal(key, nonce, aad, m)
  {
  }

  // ---- The laws are satisfiable ----

  /** A tag of key, nonce, associated data and message. */
  type Tagging = (b32, bytes, bytes, bytes) -> b16

  /** A message in the clear, followed by its tag. */
  function TaggedSeal(tag: Tagging, k: b32, n: bytes, a: bytes, m: bytes): bytes {
    m + tag(k, n, a, m)
  }

  function TaggedOpen(tag: Tagging, k: b32, n: bytes, a: bytes, c: bytes): Option<bytes> {
    if |c| < TAG_LEN then None
    else
      var m := c[..|c| - TAG_LEN];
      if c[|c| - TAG_LEN..] == tag(k, n, a, m) then Some(m) else None
  }

  function TaggedAead(tag: Tagging): Aead {
    Aead((k, n, a, m) => TaggedSeal(tag, k, n, a, m), (k, n, a, c) => TaggedOpen(tag, k, n, a, c))
  }

  /** Whatever the tag function, all AEAD laws hold. */
  lemma TaggedIsLawful(tag: Tagging)
    ensures TaggedAead(tag).Lawful() && Committing(TaggedAead(tag))
  {
    var p := TaggedAead(tag);
    forall k: b32, n, a, m
      ensures |p.seal(k, n, a, m)| == |m| + TAG_LEN && p.open(k, n, a, p.seal(k, n, a, m)) == Some(m)
    {
      var c := TaggedSeal(tag, k, n, a, m);
      assert c[..|c| - TAG_LEN] == m;
    }
    forall k: b32, n, a, c | p.open(k, n, a, c).Some?
      ensures c == p.seal(k, n, a, p.open(k, n, a, c).value)
    {
      assert c == c[..|c| - TAG_LEN] + c[|c| - TAG_LEN..];
    }
    forall k: b32, k': b32, n, a, m, m' | p.seal(k, n, a, m) == p.seal(k', n, a, m')
      ensures m == m'
    {
      var c := TaggedSeal(tag, k, n, a, m);
      assert m == c[..|c| - TAG_LEN] == m';
    }
  }

  /** The start of the nonce as the tag. */
  function NonceTag(k: b32, n: bytes, a: bytes, m: bytes): b16 { (n + Zeroes(TAG_LEN))[..TAG_LEN] }

  /** The start of the key as the tag. */
  function KeyTag(k: b32, n: bytes, a: bytes, m: bytes): b16 { k[..TAG_LEN] }

  /** The first 1088 bytes, zeroes where there are fewer. */
  function Fitted(coins: bytes): (r: bytes)
    ensures |r| == MLKEM_CIPHERTEXT_LEN
  {
    (coins + Zeroes(MLKEM_CIPHERTEXT_LEN))[..MLKEM_CIPHERTEXT_LEN]
  }

  /** Primitives whose frames carry their nonce. */
  function ToyCrypto(): Crypto {
    Crypto(TaggedAead(NonceTag), TaggedAead(NonceTag),
      (s, k, i) => Zeroes(32), (s, k, i) => Zeroes(24),
      (pw, seed, m, t, p, salt) => Some(Zeroes(32)),
      m => Zeroes(32), m => Zeroes(32),
      Signer(k => k, (k, m) => Zeroes(64), (pk, m, s) => true),
      KeyAgreement(a => seq(32, _ => 1), (a, b) => Zeroes(32), s => true,
        sk => sk, (pk, coins) => (Fitted(coins), Fitted(coins)), (sk, c) => c))
  }

  /** The laws do not contradict one another, nor the committing hypothesis: this
      instance meets all of them. */
  lemma LawsAreSatisfiable()
    ensures ToyCrypto().Lawful() && Committing(ToyCrypto().xchacha) && Committing(ToyCrypto().aesgcm)
  {
    TaggedIsLawful(NonceTag);
    ToyAgreement();
  }

  lemma ToyAgreement()
    ensures ToyCrypto().kem.Lawful()
  {
    var kem := ToyCrypto().kem;
    forall a: b32 ensures kem.x25519Base(a) != Zeroes(32) {
      assert kem.x25519Base(a)[0] == 1 && Zeroes(32)[0] == 0;
    }
  }

  function Marked(mark: byte): (k: b32) { seq(32, _ => mark) }

  /** Primitives that tell keys apart: a wrong key opens nothing. Derived keys repeat
      the first byte of their input, which for passwords says whether there was a
      seed. */
  function KeyedCrypto(): Crypto {
    ToyCrypto().(xchacha := TaggedAead(KeyTag), aesgcm := TaggedAead(KeyTag),
      hkdf := (s: bytes, input: bytes, info: bytes) => Marked(if input == [] then 0 else input[0]),
      argon2 := (password: bytes, seed: Option<bytes>, m: u32, t: u32, p: u32, salt: b16) =>
        Some(Marked(if seed.Some? then 1 else 0)))
  }

  lemma KeyedCryptoIsLawful()
    ensures KeyedCrypto().Lawful() && Committing(KeyedCrypto().xchacha)
  {
    TaggedIsLawful(KeyTag);
    ToyAgreement();
  }
}
