/** The postcard wire format, as composable codecs. A codec is good when decoding
    undoes encoding and returns exactly the bytes that follow, for every encoding
    that fits a 64-bit address space. */
module Postcard {
  import opened Bytes

  datatype Codec<!T> = Codec(enc: T -> bytes, dec: bytes -> Option<(T, bytes)>)

  ghost predicate Good<T(!new)>(c: Codec<T>) {
    forall x: T, rest: bytes :: |c.enc(x)| + |rest| <= U64_MAX ==> c.dec(c.enc(x) + rest) == Some((x, rest))
  }

  /** No value is encoded as nothing. */
  ghost predicate NonEmpty<T(!new)>(c: Codec<T>) {
    forall x: T :: |c.enc(x)| > 0
  }

  lemma DecodeOfEncode<T(!new)>(c: Codec<T>, x: T, rest: bytes)
    requires Good(c) && |c.enc(x)| + |rest| <= U64_MAX
    ensures c.dec(c.enc(x) + rest) == Some((x, rest))
  {
  }

  /** A good codec is self-delimiting: what follows an encoding cannot change
      where it ends. */
  lemma SelfDelimiting<T(!new)>(c: Codec<T>, x: T, restX: bytes, y: T, restY: bytes)
    requires Good(c) && |c.enc(x)| + |restX| <= U64_MAX
    requires c.enc(x) + restX == c.enc(y) + restY
    ensures x == y && restX == restY
  {
    DecodeOfEncode(c, x, restX);
    assert |c.enc(y) + restY| == |c.enc(y)| + |restY|;
    DecodeOfEncode(c, y, restY);
  }

  /** Decode a value that must fill the input. */
  function DecodeExact<T>(c: Codec<T>, input: bytes): Option<T> {
    var (value, rest) :- c.dec(input);
    if rest == [] then Some(value) else None
  }

  lemma DecodeExactOfEncode<T(!new)>(c: Codec<T>, x: T)
    requires Good(c) && |c.enc(x)| <= U64_MAX
    ensures DecodeExact(c, c.enc(x)) == Some(x)
  {
    DecodeOfEncode(c, x, []);
    assert c.enc(x) + [] == c.enc(x);
  }

  // ---- Variable-length integers ----

  function EncVarint(x: nat): (s: bytes)
    ensures |s| > 0
  {
    if x < 128 then [x] else [x % 128 + 128] + EncVarint(x / 128)
  }

  function DecVarint(s: bytes, maxBytes: nat): Option<(nat, bytes)>
    decreases maxBytes
  {
    if s == [] || maxBytes == 0 then None
    else if s[0] < 128 then Some((s[0], s[1..]))
    else
      var (high, rest) :- DecVarint(s[1..], maxBytes - 1);
      Some((s[0] - 128 + 128 * high, rest))
  }

  function DecBounded(s: bytes, maxBytes: nat, max: nat): (r: Option<(nat, bytes)>)
    ensures r.Some? ==> r.value.0 <= max
  {
    var (x, rest) :- DecVarint(s, maxBytes);
    if x <= max then Some((x, rest)) else None
  }

  function Pow128(n: nat): (p: nat)
    ensures p >= 1
  {
    if n == 0 then 1 else 128 * Pow128(n - 1)
  }

  lemma {:induction false} VarintRoundTrip(x: nat, maxBytes: nat, rest: bytes)
    requires maxBytes > 0 && x < Pow128(maxBytes)
    ensures DecVarint(EncVarint(x) + rest, maxBytes) == Some((x, rest))
    decreases maxBytes
  {
    var s := EncVarint(x) + rest;
    if x < 128 {
      assert s[1..] == rest;
    } else {
      assert Pow128(1) == 128;
      assert s[1..] == EncVarint(x / 128) + rest;
      VarintRoundTrip(x / 128, maxBytes - 1, rest);
    }
  }

  lemma Pow128Values()
    ensures Pow128(3) > U16_MAX && Pow128(5) > U32_MAX && Pow128(10) > U64_MAX
  {
    assert Pow128(2) == 0x4000;
    assert Pow128(4) == 0x1000_0000;
    assert Pow128(6) == 0x400_0000_0000;
    assert Pow128(8) == 0x100_0000_0000_0000;
  }

  function U16Codec(): Codec<u16> {
    Codec((x: u16) => EncVarint(x),
      s => match DecBounded(s, 3, U16_MAX) case Some((x, r)) => Some((x, r)) case None => None)
  }

  function U32Codec(): Codec<u32> {
    Codec((x: u32) => EncVarint(x),
      s => match DecBounded(s, 5, U32_MAX) case Some((x, r)) => Some((x, r)) case None => None)
  }

  function U64Codec(): Codec<u64> {
    Codec((x: u64) => EncVarint(x),
      s => match DecBounded(s, 10, U64_MAX) case Some((x, r)) => Some((x, r)) case None => None)
  }

  lemma IntegersGood()
    ensures Good(U16Codec()) && Good(U32Codec()) && Good(U64Codec())
  {
    Pow128Values();
    forall x: u16, rest: bytes ensures U16Codec().dec(U16Codec().enc(x) + rest) == Some((x, rest)) {
      VarintRoundTrip(x, 3, rest);
    }
    forall x: u32, rest: bytes ensures U32Codec().dec(U32Codec().enc(x) + rest) == Some((x, rest)) {
      VarintRoundTrip(x, 5, rest);
    }
    forall x: u64, rest: bytes ensures U64Codec().dec(U64Codec().enc(x) + rest) == Some((x, rest)) {
      VarintRoundTrip(x, 10, rest);
    }
  }

  // ---- Booleans, fixed arrays, byte strings, UTF-8 strings ----

  function BoolCodec(): Codec<bool> {
    Codec((x: bool) => [if x then 1 else 0],
      s => if s != [] && s[0] <= 1 then Some((s[0] == 1, s[1..])) else None)
  }

  function Take(s: bytes, n: nat): (r: Option<(bytes, bytes)>)
    ensures r.Some? ==> |r.value.0| == n
  {
    if |s| >= n then Some((s[..n], s[n..])) else None
  }

  lemma TakeOf(a: bytes, rest: bytes)
    ensures Take(a + rest, |a|) == Some((a, rest))
  {
    assert (a + rest)[..|a|] == a && (a + rest)[|a|..] == rest;
  }

  function B4Codec(): Codec<b4> {
    Codec((x: b4) => x, s => match Take(s, 4) case Some((x, r)) => Some((x, r)) case None => None)
  }

  function B12Codec(): Codec<b12> {
    Codec((x: b12) => x, s => match Take(s, 12) case Some((x, r)) => Some((x, r)) case None => None)
  }

  function B16Codec(): Codec<b16> {
    Codec((x: b16) => x, s => match Take(s, 16) case Some((x, r)) => Some((x, r)) case None => None)
  }

  function B24Codec(): Codec<b24> {
    Codec((x: b24) => x, s => match Take(s, 24) case Some((x, r)) => Some((x, r)) case None => None)
  }

  function B32Codec(): Codec<b32> {
    Codec((x: b32) => x, s => match Take(s, 32) case Some((x, r)) => Some((x, r)) case None => None)
  }

  lemma FixedGood()
    ensures Good(BoolCodec()) && Good(B4Codec()) && Good(B12Codec()) && Good(B16Codec()) && Good(B24Codec())
    ensures Good(B32Codec())
  {
    forall x: bytes, rest: bytes ensures Take(x + rest, |x|) == Some((x, rest)) { TakeOf(x, rest); }
    forall x: bool, rest: bytes ensures BoolCodec().dec(BoolCodec().enc(x) + rest) == Some((x, rest)) {
      assert (BoolCodec().enc(x) + rest)[1..] == rest;
    }
  }

  function EncBlob(x: bytes): bytes { EncVarint(|x|) + x }

  function DecBlob(s: bytes): Option<(bytes, bytes)> {
    var (n, r) :- DecBounded(s, 10, U64_MAX);
    Take(r, n)
  }

  lemma BlobRoundTrip(x: bytes, rest: bytes)
    requires |x| <= U64_MAX
    ensures DecBlob(EncBlob(x) + rest) == Some((x, rest))
  {
    Pow128Values();
    assert EncBlob(x) + rest == EncVarint(|x|) + (x + rest);
    VarintRoundTrip(|x|, 10, x + rest);
    TakeOf(x, rest);
  }

  function BlobCodec(): Codec<bytes> {
    Codec(x => EncBlob(x), s => DecBlob(s))
  }

  function StrCodec(): Codec<Str> {
    Codec((x: Str) => EncBlob(x),
      s => match DecBlob(s) case Some((x, r)) => (if IsUtf8(x) then Some((x, r)) else None) case None => None)
  }

  lemma StringsGood()
    ensures Good(BlobCodec()) && Good(StrCodec())
  {
    forall x: bytes, rest: bytes | |EncBlob(x)| + |rest| <= U64_MAX
      ensures DecBlob(EncBlob(x) + rest) == Some((x, rest))
    {
      BlobRoundTrip(x, rest);
    }
  }

  // ---- Combinators ----

  function EnumCodec<T(!new)>(toIndex: T -> nat, fromIndex: nat -> Option<T>): Codec<T> {
    Codec(x => EncVarint(toIndex(x)),
      s => match DecBounded(s, 5, U32_MAX)
        case None => None
        case Some((k, r)) => match fromIndex(k) case Some(x) => Some((x, r)) case None => None)
  }

  lemma EnumGood<T(!new)>(toIndex: T -> nat, fromIndex: nat -> Option<T>)
    requires forall x :: toIndex(x) <= U32_MAX && fromIndex(toIndex(x)) == Some(x)
    ensures Good(EnumCodec(toIndex, fromIndex))
  {
    hide DecBounded, EncVarint;
    var c := EnumCodec(toIndex, fromIndex);
    forall x: T, rest: bytes ensures c.dec(c.enc(x) + rest) == Some((x, rest)) {
      BoundedRoundTrip(toIndex(x), rest);
    }
  }

  /** A variant index. */
  lemma BoundedRoundTrip(k: nat, rest: bytes)
    requires k <= U32_MAX
    ensures DecBounded(EncVarint(k) + rest, 5, U32_MAX) == Some((k, rest))
  {
    Pow128Values();
    VarintRoundTrip(k, 5, rest);
  }

  function PairCodec<A, B>(a: Codec<A>, b: Codec<B>): Codec<(A, B)> {
    Codec((x: (A, B)) => a.enc(x.0) + b.enc(x.1),
      s => match a.dec(s)
        case None => None
        case Some((x, r)) => match b.dec(r) case Some((y, t)) => Some(((x, y), t)) case None => None)
  }

  lemma PairGood<A(!new), B(!new)>(a: Codec<A>, b: Codec<B>)
    requires Good(a) && Good(b)
    ensures Good(PairCodec(a, b))
    ensures NonEmpty(a) ==> NonEmpty(PairCodec(a, b))
  {
    var c := PairCodec(a, b);
    forall x: (A, B), rest: bytes | |c.enc(x)| + |rest| <= U64_MAX
      ensures c.dec(c.enc(x) + rest) == Some((x, rest))
    {
      var first, second := a.enc(x.0), b.enc(x.1);
      Reassociate(first, second, rest);
      DecodeOfEncode(a, x.0, second + rest);
      DecodeOfEncode(b, x.1, rest);
    }
  }

  lemma Reassociate(a: bytes, b: bytes, c: bytes)
    ensures a + b + c == a + (b + c)
  {
  }

  function MapCodec<A, B>(c: Codec<A>, make: A -> B, parts: B -> A): Codec<B> {
    Codec((x: B) => c.enc(parts(x)),
      s => match c.dec(s) case Some((x, r)) => Some((make(x), r)) case None => None)
  }

  lemma MapGood<A(!new), B(!new)>(c: Codec<A>, make: A -> B, parts: B -> A)
    requires Good(c) && forall x :: make(parts(x)) == x
    ensures Good(MapCodec(c, make, parts))
    ensures NonEmpty(c) ==> NonEmpty(MapCodec(c, make, parts))
  {
    var m := MapCodec(c, make, parts);
    forall x: B, rest: bytes | |m.enc(x)| + |rest| <= U64_MAX
      ensures m.dec(m.enc(x) + rest) == Some((x, rest))
    {
      DecodeOfEncode(c, parts(x), rest);
    }
  }

  function OptionCodec<T>(c: Codec<T>): Codec<Option<T>> {
    Codec((x: Option<T>) => match x case None => [0] case Some(v) => [1] + c.enc(v),
      s => if s == [] then None
        else if s[0] == 0 then Some((None, s[1..]))
        else if s[0] == 1 then (match c.dec(s[1..]) case Some((v, r)) => Some((Some(v), r)) case None => None)
        else None)
  }

  lemma OptionGood<T(!new)>(c: Codec<T>)
    requires Good(c)
    ensures Good(OptionCodec(c))
  {
    var o := OptionCodec(c);
    forall x: Option<T>, rest: bytes | |o.enc(x)| + |rest| <= U64_MAX
      ensures o.dec(o.enc(x) + rest) == Some((x, rest))
    {
      OptionRoundTrip(c, x, rest);
    }
  }

  lemma OptionRoundTrip<T(!new)>(c: Codec<T>, x: Option<T>, rest: bytes)
    requires Good(c) && |OptionCodec(c).enc(x)| + |rest| <= U64_MAX
    ensures OptionCodec(c).dec(OptionCodec(c).enc(x) + rest) == Some((x, rest))
  {
    match x
    case None =>
      assert [0] + rest == OptionCodec(c).enc(x) + rest && ([0] + rest)[1..] == rest;
    case Some(v) =>
      var input := [1] + (c.enc(v) + rest);
      assert OptionCodec(c).enc(x) + rest == input && input[1..] == c.enc(v) + rest;
      DecodeOfEncode(c, v, rest);
  }

  datatype Either<+A, +B> = Left(left: A) | Right(right: B)

  /** A two-variant enum with fields: the variant index, then the variant. */
  function EitherCodec<A, B>(a: Codec<A>, b: Codec<B>): Codec<Either<A, B>> {
    Codec((x: Either<A, B>) => match x case Left(v) => EncVarint(0) + a.enc(v) case Right(v) => EncVarint(1) + b.enc(v),
      s => match DecBounded(s, 5, U32_MAX)
        case None => None
        case Some((k, r)) =>
          if k == 0 then (match a.dec(r) case Some((v, t)) => Some((Left(v), t)) case None => None)
          else if k == 1 then (match b.dec(r) case Some((v, t)) => Some((Right(v), t)) case None => None)
          else None)
  }

  lemma EitherGood<A(!new), B(!new)>(a: Codec<A>, b: Codec<B>)
    requires Good(a) && Good(b)
    ensures Good(EitherCodec(a, b)) && NonEmpty(EitherCodec(a, b))
  {
    hide DecBounded, EncVarint;
    var e := EitherCodec(a, b);
    forall x: Either<A, B>, rest: bytes | |e.enc(x)| + |rest| <= U64_MAX
      ensures e.dec(e.enc(x) + rest) == Some((x, rest))
    {
      match x
      case Left(v) =>
        Reassociate(EncVarint(0), a.enc(v), rest);
        BoundedRoundTrip(0, a.enc(v) + rest);
        DecodeOfEncode(a, v, rest);
      case Right(v) =>
        Reassociate(EncVarint(1), b.enc(v), rest);
        BoundedRoundTrip(1, b.enc(v) + rest);
        DecodeOfEncode(b, v, rest);
    }
  }

  function EncAll<T>(c: Codec<T>, xs: seq<T>): bytes {
    if xs == [] then [] else c.enc(xs[0]) + EncAll(c, xs[1..])
  }

  function DecAll<T>(c: Codec<T>, n: nat, s: bytes): Option<(seq<T>, bytes)> {
    if n == 0 then Some(([], s))
    else
      var (x, r) :- c.dec(s);
      var (xs, t) :- DecAll(c, n - 1, r);
      Some(([x] + xs, t))
  }

  lemma {:induction false} DecAllOfEncAll<T(!new)>(c: Codec<T>, xs: seq<T>, rest: bytes)
    requires Good(c) && |EncAll(c, xs)| + |rest| <= U64_MAX
    ensures DecAll(c, |xs|, EncAll(c, xs) + rest) == Some((xs, rest))
  {
    if xs == [] {
      assert [] + rest == rest;
    } else {
      var first, more := c.enc(xs[0]), EncAll(c, xs[1..]);
      Reassociate(first, more, rest);
      DecodeOfEncode(c, xs[0], more + rest);
      DecAllOfEncAll(c, xs[1..], rest);
      assert [xs[0]] + xs[1..] == xs;
      assert DecAll(c, |xs|, first + (more + rest)) == Some(([xs[0]] + xs[1..], rest));
    }
  }

  lemma {:induction false} EncAllLength<T(!new)>(c: Codec<T>, xs: seq<T>)
    requires NonEmpty(c)
    ensures |EncAll(c, xs)| >= |xs|
  {
    if xs != [] {
      EncAllLength(c, xs[1..]);
    }
  }

  function VecCodec<T>(c: Codec<T>): Codec<seq<T>> {
    Codec((xs: seq<T>) => EncVarint(|xs|) + EncAll(c, xs),
      s => match DecBounded(s, 10, U64_MAX) case Some((n, r)) => DecAll(c, n, r) case None => None)
  }

  lemma VecGood<T(!new)>(c: Codec<T>)
    requires Good(c) && NonEmpty(c)
    ensures Good(VecCodec(c))
  {
    Pow128Values();
    var v := VecCodec(c);
    forall xs: seq<T>, rest: bytes | |v.enc(xs)| + |rest| <= U64_MAX
      ensures v.dec(v.enc(xs) + rest) == Some((xs, rest))
    {
      var count, items := EncVarint(|xs|), EncAll(c, xs);
      EncAllLength(c, xs);
      Reassociate(count, items, rest);
      VarintRoundTrip(|xs|, 10, items + rest);
      DecAllOfEncAll(c, xs, rest);
    }
  }

  lemma VecLength<T(!new)>(c: Codec<T>, xs: seq<T>)
    requires NonEmpty(c)
    ensures |VecCodec(c).enc(xs)| > |xs|
  {
    EncAllLength(c, xs);
  }
}
