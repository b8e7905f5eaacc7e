/** Bytes, machine-width integers and the little-endian layout used by every
    wire format of the capsule. Rust strings are their UTF-8 bytes. */
module Bytes {

  type byte = x: int | 0 <= x < 256
  type bytes = seq<byte>

  const U16_MAX: int := 0xFFFF
  const U32_MAX: int := 0xFFFF_FFFF
  const U64_MAX: int := 0xFFFF_FFFF_FFFF_FFFF

  type u16 = x: int | 0 <= x <= U16_MAX
  type u32 = x: int | 0 <= x <= U32_MAX
  type u64 = x: int | 0 <= x <= U64_MAX

  // Rust's fixed-size byte arrays.
  type b4 = s: bytes | |s| == 4 witness [0, 0, 0, 0]
  type b12 = s: bytes | |s| == 12 witness Zeroes(12)
  type b16 = s: bytes | |s| == 16 witness Zeroes(16)
  type b24 = s: bytes | |s| == 24 witness Zeroes(24)
  type b32 = s: bytes | |s| == 32 witness Zeroes(32)
  type b64 = s: bytes | |s| == 64 witness Zeroes(64)

  datatype Option<+T> = None | Some(value: T) {
    predicate IsFailure() { None? }
    function PropagateFailure<U>(): Option<U> requires None? { None }
    function Extract(): T requires Some? { value }
  }

  datatype Result<+T, +E> = Ok(value: T) | Err(error: E) {
    predicate IsFailure() { Err? }
    function PropagateFailure<U>(): Result<U, E> requires Err? { Err(error) }
    function Extract(): T requires Ok? { value }
  }

  // ---- Strings ----

  predicate IsContinuation(s: bytes, k: nat) { k < |s| && 0x80 <= s[k] < 0xC0 }

  /** Well-formed UTF-8 (section 4 of RFC 3629). */
  predicate IsUtf8(s: bytes) {
    if s == [] then true
    else if s[0] < 0x80 then IsUtf8(s[1..])
    else if 0xC2 <= s[0] < 0xE0 then IsContinuation(s, 1) && IsUtf8(s[2..])
    else if 0xE0 <= s[0] < 0xF0 then
      && IsContinuation(s, 1) && IsContinuation(s, 2)
      && (s[0] == 0xE0 ==> s[1] >= 0xA0) && (s[0] == 0xED ==> s[1] < 0xA0)
      && IsUtf8(s[3..])
    else if 0xF0 <= s[0] < 0xF5 then
      && IsContinuation(s, 1) && IsContinuation(s, 2) && IsContinuation(s, 3)
      && (s[0] == 0xF0 ==> s[1] >= 0x90) && (s[0] == 0xF4 ==> s[1] < 0x90)
      && IsUtf8(s[4..])
    else false
  }

  /** A Rust string: its UTF-8 bytes. */
  type Str = s: bytes | IsUtf8(s) witness []

  lemma {:induction false} Utf8Append(a: bytes, b: bytes)
    requires IsUtf8(a) && IsUtf8(b)
    ensures IsUtf8(a + b)
  {
    if a == [] {
      assert a + b == b;
    } else {
      var n := if a[0] < 0x80 then 1 else if a[0] < 0xE0 then 2 else if a[0] < 0xF0 then 3 else 4;
      Utf8Append(a[n..], b);
      assert (a + b)[n..] == a[n..] + b;
      assert forall k :: 0 <= k < |a| ==> (a + b)[k] == a[k];
    }
  }

  lemma {:induction false} AsciiIsUtf8(s: bytes)
    requires forall k :: 0 <= k < |s| ==> s[k] < 0x80
    ensures IsUtf8(s)
  {
    if s != [] { AsciiIsUtf8(s[1..]); }
  }

  /** A Unicode scalar value. */
  predicate IsScalar(c: nat) { c < 0xD800 || 0xE000 <= c < 0x110000 }

  /** Its UTF-8 encoding (section 3 of RFC 3629). */
  function EncodeScalar(c: nat): bytes
    requires IsScalar(c)
  {
    if c < 0x80 then [c]
    else if c < 0x800 then [0xC0 + c / 0x40, 0x80 + c % 0x40]
    else if c < 0x10000 then [0xE0 + c / 0x1000, 0x80 + c / 0x40 % 0x40, 0x80 + c % 0x40]
    else [0xF0 + c / 0x40000, 0x80 + c / 0x1000 % 0x40, 0x80 + c / 0x40 % 0x40, 0x80 + c % 0x40]
  }

  predicate AllScalars(text: seq<nat>) { forall k :: 0 <= k < |text| ==> IsScalar(text[k]) }

  function EncodeText(text: seq<nat>): bytes
    requires AllScalars(text)
  {
    if text == [] then [] else EncodeScalar(text[0]) + EncodeText(text[1..])
  }

  lemma {:induction false} TextIsUtf8(text: seq<nat>)
    requires AllScalars(text)
    ensures IsUtf8(EncodeText(text))
  {
    if text != [] {
      TextIsUtf8(text[1..]);
      ScalarIsUtf8(text[0]);
      Utf8Append(EncodeScalar(text[0]), EncodeText(text[1..]));
    }
  }

  lemma ScalarIsUtf8(c: nat)
    requires IsScalar(c)
    ensures IsUtf8(EncodeScalar(c))
  {
    var s := EncodeScalar(c);
    assert IsUtf8(s[|s|..]);
  }

  lemma TwoBytes(h: nat, x: nat)
    requires 2 <= h < 0x20 && x < 0x40
    ensures EncodeScalar(h * 0x40 + x) == [0xC0 + h, 0x80 + x]
  {
  }

  lemma ThreeBytes(h: nat, x: nat, y: nat)
    requires h < 0x10 && x < 0x40 && y < 0x40 && (h == 0 ==> x >= 0x20) && (h == 0xD ==> x < 0x20)
    ensures var c := h * 0x1000 + x * 0x40 + y;
      IsScalar(c) && EncodeScalar(c) == [0xE0 + h, 0x80 + x, 0x80 + y]
  {
  }

  lemma FourBytes(h: nat, x: nat, y: nat, z: nat)
    requires h < 5 && x < 0x40 && y < 0x40 && z < 0x40 && (h == 0 ==> x >= 0x10) && (h == 4 ==> x < 0x10)
    ensures var c := h * 0x40000 + x * 0x1000 + y * 0x40 + z;
      IsScalar(c) && EncodeScalar(c) == [0xF0 + h, 0x80 + x, 0x80 + y, 0x80 + z]
  {
    var upper := h * 0x40 + x;
    var middle := upper * 0x40 + y;
    var c := middle * 0x40 + z;
    Quotient(middle, z);
    Quotient(upper, y);
    Quotient(h, x);
    assert c / 0x1000 == upper;
    assert c / 0x40000 == h;
  }

  lemma Quotient(a: nat, b: nat)
    requires b < 0x40
    ensures (a * 0x40 + b) / 0x40 == a && (a * 0x40 + b) % 0x40 == b
  {
  }

  lemma OneByte(c: nat)
    requires c < 0x80
    ensures EncodeScalar(c) == [c]
  {
  }

  lemma FirstScalar(s: bytes) returns (c: nat)
    requires IsUtf8(s) && s != []
    ensures IsScalar(c) && EncodeScalar(c) != [] && EncodeScalar(c) <= s && IsUtf8(s[|EncodeScalar(c)|..])
  {
    hide EncodeScalar;
    var head: int := s[0];
    if head < 0x80 {
      c := head;
      OneByte(c);
    } else {
      var x: int := s[1] - 0x80;
      if head < 0xE0 {
        c := (head - 0xC0) * 0x40 + x;
        TwoBytes(head - 0xC0, x);
      } else {
        var y: int := s[2] - 0x80;
        if head < 0xF0 {
          c := (head - 0xE0) * 0x1000 + x * 0x40 + y;
          ThreeBytes(head - 0xE0, x, y);
        } else {
          var z: int := s[3] - 0x80;
          c := (head - 0xF0) * 0x40000 + x * 0x1000 + y * 0x40 + z;
          FourBytes(head - 0xF0, x, y, z);
        }
      }
    }
  }

  lemma {:induction false} TextOf(s: bytes) returns (text: seq<nat>)
    requires IsUtf8(s)
    ensures AllScalars(text)
    ensures EncodeText(text) == s
  {
    hide IsUtf8, EncodeScalar;
    if s == [] {
      text := [];
    } else {
      var c := FirstScalar(s);
      var n := |EncodeScalar(c)|;
      var more := TextOf(s[n..]);
      text := [c] + more;
      assert text[1..] == more;
      assert s == s[..n] + s[n..];
    }
  }

  /** Strings are exactly the encodings of texts. */
  lemma Utf8Iff(s: bytes)
    ensures IsUtf8(s) <==> exists text :: AllScalars(text) && EncodeText(text) == s
  {
    if IsUtf8(s) {
      var text := TextOf(s);
    } else if text :| AllScalars(text) && EncodeText(text) == s {
      TextIsUtf8(text);
    }
  }

  function Zeroes(n: nat): (s: bytes)
    ensures |s| == n && forall k :: 0 <= k < n ==> s[k] == 0
  {
    seq(n, _ => 0)
  }

  function Min(a: int, b: int): int { if a <= b then a else b }

  /** Rust's `saturating_sub` on unsigned integers. */
  function SaturatingSub(a: nat, b: nat): nat { if a <= b then 0 else a - b }

  // ---- Concatenation of a list of byte strings ----

  function Flatten(parts: seq<bytes>): bytes {
    if parts == [] then [] else parts[0] + Flatten(parts[1..])
  }

  lemma {:induction false} FlattenAppend(a: seq<bytes>, b: seq<bytes>)
    ensures Flatten(a + b) == Flatten(a) + Flatten(b)
  {
    hide Flatten;
    if a == [] {
      FlattenNil();
      assert a + b == b && [] + Flatten(b) == Flatten(b);
    } else {
      FlattenAppend(a[1..], b);
      FlattenFirst(a);
      FlattenFirst(a + b);
      assert (a + b)[0] == a[0] && (a + b)[1..] == a[1..] + b;
      assert a[0] + (Flatten(a[1..]) + Flatten(b)) == (a[0] + Flatten(a[1..])) + Flatten(b);
    }
  }

  lemma FlattenFirst(parts: seq<bytes>)
    requires parts != []
    ensures Flatten(parts) == parts[0] + Flatten(parts[1..])
  {
  }

  lemma FlattenNil()
    ensures Flatten([]) == []
  {
  }

  lemma FlattenSnoc(a: seq<bytes>, x: bytes)
    ensures Flatten(a + [x]) == Flatten(a) + x
  {
    FlattenAppend(a, [x]);
    assert Flatten([x]) == x + Flatten([]);
  }

  // ---- Little-endian integers ----

  function Pow256(n: nat): (p: nat)
    ensures p >= 1
  {
    if n == 0 then 1 else 256 * Pow256(n - 1)
  }

  lemma Pow256Values()
    ensures Pow256(4) == U32_MAX + 1
    ensures Pow256(8) == U64_MAX + 1
  {
    assert Pow256(2) == 0x1_0000;
    assert Pow256(4) == 0x1_0000_0000;
    assert Pow256(6) == 0x1_0000_0000_0000;
  }

  /** The n low bytes of x, least significant first (`to_le_bytes`). */
  function Le(x: nat, n: nat): (s: bytes)
    ensures |s| == n
  {
    if n == 0 then [] else [x % 256] + Le(x / 256, n - 1)
  }

  /** The inverse reading (`from_le_bytes`). */
  function FromLe(s: bytes): (x: nat)
    ensures x < Pow256(|s|)
  {
    if s == [] then 0 else s[0] + 256 * FromLe(s[1..])
  }

  lemma LowByte(low: byte, high: nat)
    ensures (low + 256 * high) % 256 == low && (low + 256 * high) / 256 == high
  {
  }

  lemma LeFirst(x: nat, n: nat)
    requires n > 0
    ensures Le(x, n) == [x % 256] + Le(x / 256, n - 1)
  {
  }

  lemma FromLeFirst(low: byte, rest: bytes)
    ensures FromLe([low] + rest) == low + 256 * FromLe(rest)
  {
    assert ([low] + rest)[1..] == rest;
  }

  lemma {:induction false} FromLeOfLe(x: nat, n: nat)
    requires x < Pow256(n)
    ensures FromLe(Le(x, n)) == x
  {
    if n > 0 {
      FromLeOfLe(x / 256, n - 1);
      hide Le, FromLe;
      LeFirst(x, n);
      FromLeFirst(x % 256, Le(x / 256, n - 1));
    }
  }

  lemma {:induction false} LeOfFromLe(s: bytes)
    ensures Le(FromLe(s), |s|) == s
  {
    if s != [] {
      LeOfFromLe(s[1..]);
      hide Le, FromLe;
      var high := FromLe(s[1..]);
      assert s == [s[0]] + s[1..];
      FromLeFirst(s[0], s[1..]);
      LowByte(s[0], high);
      LeFirst(s[0] + 256 * high, |s|);
    }
  }

  lemma LeInjective(x: nat, y: nat, n: nat)
    requires x < Pow256(n) && y < Pow256(n)
    requires Le(x, n) == Le(y, n)
    ensures x == y
  {
    FromLeOfLe(x, n);
    FromLeOfLe(y, n);
  }

  // ---- Exclusive or ----

  function Pow2(n: nat): (p: nat)
    ensures p >= 1
  {
    if n == 0 then 1 else 2 * Pow2(n - 1)
  }

  lemma {:induction false} Pow2Sum(a: nat, b: nat)
    ensures Pow2(a) * Pow2(b) == Pow2(a + b)
    decreases a
  {
    if a > 0 {
      Pow2Sum(a - 1, b);
      assert 2 * Pow2(a - 1) * Pow2(b) == 2 * (Pow2(a - 1) * Pow2(b));
    }
  }

  /** Exclusive or of the n low bits, bit by bit. */
  function BitXor(a: nat, b: nat, n: nat): (r: nat)
    ensures r < Pow2(n)
  {
    if n == 0 then 0 else (a + b) % 2 + 2 * BitXor(a / 2, b / 2, n - 1)
  }

  lemma ParityTwice(a: nat, b: nat, high: nat)
    ensures ((a + b) % 2 + 2 * high) / 2 == high
    ensures ((a + b) % 2 + 2 * high + b) % 2 == a % 2
  {
    var low := (a + b) % 2;
    assert a + b == 2 * ((a + b) / 2) + low;
    assert low + 2 * high + b == a + 2 * (high + b - (a + b) / 2);
  }

  lemma {:induction false} BitXorTwice(a: nat, b: nat, n: nat)
    requires a < Pow2(n)
    ensures BitXor(BitXor(a, b, n), b, n) == a
  {
    if n > 0 {
      ParityTwice(a, b, BitXor(a / 2, b / 2, n - 1));
      BitXorTwice(a / 2, b / 2, n - 1);
    }
  }

  lemma {:induction false} BitXorSymmetric(a: nat, b: nat, n: nat)
    ensures BitXor(a, b, n) == BitXor(b, a, n)
  {
    if n > 0 {
      BitXorSymmetric(a / 2, b / 2, n - 1);
    }
  }

  lemma Pow2Of8()
    ensures Pow2(8) == 256
  {
    assert Pow2(4) == 16;
  }

  function Xor(a: byte, b: byte): byte {
    Pow2Of8();
    BitXor(a, b, 8)
  }

  /** Bit k of the exclusive or is set exactly where one of both is. */
  lemma XorBits(a: byte, b: byte, k: nat)
    requires k < 8
    ensures Xor(a, b) / Pow2(k) % 2 == (a / Pow2(k) + b / Pow2(k)) % 2
  {
    BitXorBits(a, b, 8, k);
    ShiftedDivides(a, k);
    ShiftedDivides(b, k);
    ShiftedDivides(Xor(a, b), k);
  }

  function Shifted(x: nat, k: nat): nat {
    if k == 0 then x else Shifted(x / 2, k - 1)
  }

  lemma {:induction false} ShiftedDivides(x: nat, k: nat)
    ensures Shifted(x, k) == x / Pow2(k)
    decreases k
  {
    if k > 0 {
      ShiftedDivides(x / 2, k - 1);
      HalvesDivide(x, k);
    }
  }

  lemma {:induction false} BitXorBits(a: nat, b: nat, n: nat, k: nat)
    requires k < n
    ensures Shifted(BitXor(a, b, n), k) % 2 == (Shifted(a, k) + Shifted(b, k)) % 2
    decreases k
  {
    hide BitXor;
    BitXorFirst(a, b, n);
    if k > 0 { BitXorBits(a / 2, b / 2, n - 1, k - 1); }
  }

  lemma BitXorFirst(a: nat, b: nat, n: nat)
    requires n > 0
    ensures BitXor(a, b, n) % 2 == (a + b) % 2 && BitXor(a, b, n) / 2 == BitXor(a / 2, b / 2, n - 1)
  {
    ParityTwice(a, b, BitXor(a / 2, b / 2, n - 1));
  }

  lemma HalvesDivide(x: nat, k: nat)
    requires k > 0
    ensures x / Pow2(k) == x / 2 / Pow2(k - 1)
  {
    var p := Pow2(k - 1);
    var q := x / 2 / p;
    assert x / 2 == q * p + x / 2 % p;
    assert x == 2 * (x / 2) + x % 2;
    assert x == q * (2 * p) + (2 * (x / 2 % p) + x % 2);
    QuotientIs(x, 2 * p, q, 2 * (x / 2 % p) + x % 2);
  }

  lemma QuotientIs(x: nat, d: nat, q: nat, r: nat)
    requires d > 0 && r < d && x == q * d + r
    ensures x / d == q
  {
    var e := x / d - q;
    assert x == (x / d) * d + x % d;
    assert e * d == r - x % d;
    assert e > 0 ==> e * d >= d;
    assert e < 0 ==> e * d + d <= 0;
  }

  lemma XorTwice(a: byte, b: byte)
    ensures Xor(Xor(a, b), b) == a
  {
    Pow2Of8();
    BitXorTwice(a, b, 8);
  }

  lemma XorCancel(a: byte, b: byte, c: byte)
    requires Xor(a, b) == Xor(a, c)
    ensures b == c
  {
    BitXorSymmetric(a, b, 8);
    BitXorSymmetric(a, c, 8);
    XorTwice(b, a);
    XorTwice(c, a);
  }
}
