/** Per-chunk nonces and associated data of formats v1 and v2. */
module Framing {
  import opened Bytes

  const INDEX_BYTES: nat := 8

  // ---- Specification ----

  /** The base nonce with the index's eight little-endian bytes XORed into its
      first eight bytes. */
  function NonceFor(base: bytes, index: u64): (nonce: bytes)
    requires |base| >= INDEX_BYTES
    ensures |nonce| == |base|
  {
    seq(|base|, k requires 0 <= k < |base| =>
      if k < INDEX_BYTES then Xor(base[k], Le(index, INDEX_BYTES)[k]) else base[k])
  }

  function XChaChaNonceFor(base: b24, index: u64): b24 { NonceFor(base, index) }

  function AesNonceFor(base: b12, index: u64): b12 { NonceFor(base, index) }

  function ChunkAadFor(commitment: b32, index: u64): (aad: bytes)
    ensures |aad| == 40
  {
    commitment + Le(index, INDEX_BYTES)
  }

  // ---- No nonce and no associated data is ever used twice ----

  /** Distinct chunk indices give nonces that differ within their first eight
      bytes (the uniqueness RFC 5116 section 3.1 asks for). */
  lemma NonceInjective(base: bytes, i: u64, j: u64)
    requires |base| >= INDEX_BYTES
    requires NonceFor(base, i)[..INDEX_BYTES] == NonceFor(base, j)[..INDEX_BYTES]
    ensures i == j
  {
    var a, b := Le(i, INDEX_BYTES), Le(j, INDEX_BYTES);
    forall k | 0 <= k < INDEX_BYTES
      ensures a[k] == b[k]
    {
      assert NonceFor(base, i)[..INDEX_BYTES][k] == NonceFor(base, i)[k];
      assert NonceFor(base, j)[..INDEX_BYTES][k] == NonceFor(base, j)[k];
      XorCancel(base[k], a[k], b[k]);
    }
    Pow256Values();
    LeInjective(i, j, INDEX_BYTES);
  }

  /** For one index, different base nonces give different nonces. */
  lemma NonceBaseInjective(a: bytes, b: bytes, index: u64)
    requires |a| == |b| >= INDEX_BYTES && NonceFor(a, index) == NonceFor(b, index)
    ensures a == b
  {
    hide Xor;
    var x := Le(index, INDEX_BYTES);
    forall k | 0 <= k < |a| ensures a[k] == b[k] {
      assert NonceFor(a, index)[k] == NonceFor(b, index)[k];
      if k < INDEX_BYTES {
        XorTwice(a[k], x[k]);
        XorTwice(b[k], x[k]);
      }
    }
  }

  lemma ChunkAadInjective(c1: b32, i: u64, c2: b32, j: u64)
    requires ChunkAadFor(c1, i) == ChunkAadFor(c2, j)
    ensures c1 == c2 && i == j
  {
    assert c1 == ChunkAadFor(c1, i)[..32] && c2 == ChunkAadFor(c2, j)[..32];
    assert Le(i, INDEX_BYTES) == ChunkAadFor(c1, i)[32..] && Le(j, INDEX_BYTES) == ChunkAadFor(c2, j)[32..];
    Pow256Values();
    LeInjective(i, j, INDEX_BYTES);
  }

  // ---- The loops that build them ----

  method XorIndex(base: bytes, index: u64) returns (nonce: bytes)
    requires |base| >= INDEX_BYTES
    ensures nonce == NonceFor(base, index)
  {
    var buffer := new byte[|base|](k requires 0 <= k < |base| => base[k]);
    var indexBytes := Le(index, INDEX_BYTES);
    for k := 0 to INDEX_BYTES
      invariant forall m :: 0 <= m < k ==> buffer[m] == Xor(base[m], indexBytes[m])
      invariant forall m :: k <= m < |base| ==> buffer[m] == base[m]
    {
      buffer[k] := Xor(buffer[k], indexBytes[k]);
    }
    nonce := buffer[..];
  }

  method ChunkAad(commitment: b32, index: u64) returns (aad: bytes)
    ensures aad == ChunkAadFor(commitment, index)
  {
    var buffer := new byte[40](_ => 0);
    var indexBytes := Le(index, INDEX_BYTES);
    forall k | 0 <= k < 32 { buffer[k] := commitment[k]; }
    forall k | 0 <= k < INDEX_BYTES { buffer[32 + k] := indexBytes[k]; }
    aad := buffer[..];
  }
}
