/** The LCO layer: a key schedule that shuffles 256 bytes, and a keystream that is
    XORed into the data in place. */
module Lco {
  import opened Bytes

  const STATE_SIZE: nat := 256

  type Box = s: bytes | |s| == STATE_SIZE witness Zeroes(STATE_SIZE)

  function WrappingAdd(a: byte, b: byte): byte { (a + b) % 256 }

  function RotateLeft(x: byte, r: nat): byte
    decreases r
  {
    if r == 0 then x else RotateLeft(x % 128 * 2 + x / 128, r - 1)
  }

  function RotateRight(x: byte, r: nat): byte
    decreases r
  {
    if r == 0 then x else RotateRight(x % 2 * 128 + x / 2, r - 1)
  }

  function Swap(s: Box, i: byte, j: byte): Box {
    s[i := s[j]][j := s[i]]
  }

  // ---- Specification: key schedule, keystream, XOR ----

  function Identity(): Box { seq(STATE_SIZE, k requires 0 <= k < STATE_SIZE => k) }

  /** The key and nonce byte mixed in at step i; an empty nonce contributes 0. */
  function Mix(key: b32, nonce: bytes, i: nat): byte {
    var nonceByte := if nonce == [] then 0 else nonce[i % |nonce|];
    RotateLeft(WrappingAdd(key[i % 32], nonceByte), i % 8)
  }

  datatype Schedule = Schedule(box: Box, j: byte)

  /** The state after the first n steps of the key schedule. */
  function KeySchedule(key: b32, nonce: bytes, n: nat): Schedule
    requires n <= STATE_SIZE
  {
    if n == 0 then Schedule(Identity(), 0)
    else
      var s := KeySchedule(key, nonce, n - 1);
      var j := WrappingAdd(WrappingAdd(s.j, s.box[n - 1]), Mix(key, nonce, n - 1));
      Schedule(Swap(s.box, n - 1, j), j)
  }

  datatype Stream = Stream(box: Box, i: byte, j: byte)

  function Advance(s: Stream): Stream {
    var i := WrappingAdd(s.i, 1);
    var j := WrappingAdd(s.j, s.box[i]);
    Stream(Swap(s.box, i, j), i, j)
  }

  function Output(s: Stream): byte {
    RotateRight(s.box[WrappingAdd(s.box[s.i], s.box[s.j])], s.j % 8)
  }

  /** The generator after n bytes. It never sees the data. */
  function StreamAt(key: b32, nonce: bytes, n: nat): Stream {
    if n == 0 then Stream(KeySchedule(key, nonce, STATE_SIZE).box, 0, 0)
    else Advance(StreamAt(key, nonce, n - 1))
  }

  function KeystreamByte(key: b32, nonce: bytes, k: nat): byte {
    Output(StreamAt(key, nonce, k + 1))
  }

  function Apply(data: bytes, key: b32, nonce: bytes): (r: bytes)
    ensures |r| == |data|
  {
    seq(|data|, k requires 0 <= k < |data| => Xor(data[k], KeystreamByte(key, nonce, k)))
  }

  // ---- What the layer is for ----

  /** LCO is its own inverse, for every key and every nonce, the empty one included. */
  lemma Involution(data: bytes, key: b32, nonce: bytes)
    ensures Apply(Apply(data, key, nonce), key, nonce) == data
  {
    forall k | 0 <= k < |data|
      ensures Apply(Apply(data, key, nonce), key, nonce)[k] == data[k]
    {
      XorTwice(data[k], KeystreamByte(key, nonce, k));
    }
  }

  /** LCO works byte by byte: a prefix of the result is the result on the prefix. */
  lemma PrefixCompatible(a: bytes, b: bytes, key: b32, nonce: bytes)
    ensures Apply(a, key, nonce) == Apply(a + b, key, nonce)[..|a|]
  {
  }

  ghost predicate IsPermutation(s: Box) {
    multiset(s) == multiset(Identity())
  }

  lemma SwapPermutes(s: Box, i: byte, j: byte)
    ensures multiset(Swap(s, i, j)) == multiset(s)
  {
  }

  /** Both loops keep the state a permutation of 0..255. */
  lemma {:induction false} ScheduleStaysPermutation(key: b32, nonce: bytes, n: nat)
    requires n <= STATE_SIZE
    ensures IsPermutation(KeySchedule(key, nonce, n).box)
  {
    if n > 0 {
      ScheduleStaysPermutation(key, nonce, n - 1);
      var s := KeySchedule(key, nonce, n - 1);
      SwapPermutes(s.box, n - 1, KeySchedule(key, nonce, n).j);
    }
  }

  lemma AdvancePermutes(s: Stream)
    ensures multiset(Advance(s).box) == multiset(s.box)
  {
    var i := WrappingAdd(s.i, 1);
    SwapPermutes(s.box, i, WrappingAdd(s.j, s.box[i]));
  }

  lemma {:induction false} StreamStaysPermutation(key: b32, nonce: bytes, n: nat)
    ensures IsPermutation(StreamAt(key, nonce, n).box)
  {
    hide Advance, KeySchedule, Identity;
    if n == 0 {
      ScheduleStaysPermutation(key, nonce, STATE_SIZE);
    } else {
      StreamStaysPermutation(key, nonce, n - 1);
      AdvancePermutes(StreamAt(key, nonce, n - 1));
    }
  }

  // ---- What the state depends on ----

  function Bit(x: byte, k: nat): nat { x / Pow2(k) % 2 }

  lemma {:induction false} LeftMovesBits(x: byte, r: nat, k: nat)
    requires k < 8
    ensures Bit(RotateLeft(x, r), (k + r) % 8) == Bit(x, k)
    decreases r
  {
    hide Bit;
    if r > 0 {
      var left: byte := x % 128 * 2 + x / 128;
      assert RotateLeft(x, r) == RotateLeft(left, r - 1);
      hide RotateLeft;
      LeftOnce(x, k);
      LeftMovesBits(left, r - 1, (k + 1) % 8);
      AroundOnce(k, r);
    }
  }

  lemma {:induction false} RightMovesBits(x: byte, r: nat, k: nat)
    requires k < 8
    ensures Bit(RotateRight(x, r), k) == Bit(x, (k + r) % 8)
    decreases r
  {
    hide Bit;
    if r > 0 {
      var right: byte := x % 2 * 128 + x / 2;
      assert RotateRight(x, r) == RotateRight(right, r - 1);
      hide RotateRight;
      RightMovesBits(right, r - 1, k);
      LeftOnce(right, (k + r - 1) % 8);
      LeftOfRight(x);
      AroundOnce(k, r);
    }
  }

  lemma AroundOnce(k: nat, r: nat)
    requires k < 8 && r > 0
    ensures ((k + 1) % 8 + (r - 1)) % 8 == (k + r) % 8 && ((k + r - 1) % 8 + 1) % 8 == (k + r) % 8
  {
    AroundAdds(k + 1, r - 1);
    AroundAdds(k + r - 1, 1);
  }

  lemma AroundAdds(a: nat, b: nat)
    ensures (a % 8 + b) % 8 == (a + b) % 8
  {
  }

  lemma LeftOfRight(x: byte)
    ensures var right: byte := x % 2 * 128 + x / 2; right % 128 * 2 + right / 128 == x
  {
  }

  lemma LeftOnce(x: byte, k: nat)
    requires k < 8
    ensures Bit(x % 128 * 2 + x / 128, (k + 1) % 8) == Bit(x, k)
  {
    if k < 7 {
      LeftLow(x, k);
    } else {
      LeftTop(x);
    }
  }

  lemma LeftTop(x: byte)
    ensures Bit(x % 128 * 2 + x / 128, 0) == Bit(x, 7)
  {
    Pow2Of8();
    assert Pow2(8) == 2 * Pow2(7);
  }

  lemma LeftLow(x: byte, k: nat)
    requires k < 7
    ensures Bit(x % 128 * 2 + x / 128, k + 1) == Bit(x, k)
  {
    PowersFit(k);
    hide Pow2;
    HalvedIsLow(x);
    HalvesDivide(x % 128 * 2 + x / 128, k + 1);
    if x >= 128 { UpperBitAside(x - 128, Pow2(k), Pow2(7 - k)); }
  }

  lemma HalvedIsLow(x: byte)
    ensures (x % 128 * 2 + x / 128) / 2 == x % 128 == if x >= 128 then x - 128 else x
  {
  }

  lemma PowersFit(k: nat)
    requires k < 7
    ensures Pow2(7 - k) * Pow2(k) == 128 && Pow2(7 - k) % 2 == 0
  {
    Pow2Sum(7 - k, k);
    Pow2Of8();
    assert Pow2(8) == 2 * Pow2(7) && Pow2(7 - k) == 2 * Pow2(6 - k);
  }

  lemma UpperBitAside(low: nat, p: nat, m: nat)
    requires p > 0 && m * p == 128 && m % 2 == 0
    ensures (128 + low) / p % 2 == low / p % 2
  {
    var q, r := low / p, low % p;
    assert low == q * p + r;
    assert 128 + low == (m + q) * p + r;
    QuotientIs(128 + low, p, m + q, r);
  }

  /** Rotating left by r moves bit k to bit k + r, rotating right moves it back, around
      the byte. */
  lemma RotationMovesBits(x: byte, r: nat, k: nat)
    requires k < 8
    ensures Bit(RotateLeft(x, r), (k + r) % 8) == Bit(x, k)
    ensures Bit(RotateRight(x, r), k) == Bit(x, (k + r) % 8)
  {
    LeftMovesBits(x, r, k);
    RightMovesBits(x, r, k);
  }

  lemma {:induction false} RotationsInjective(x: byte, y: byte, r: nat)
    ensures RotateLeft(x, r) == RotateLeft(y, r) ==> x == y
    ensures RotateRight(x, r) == RotateRight(y, r) ==> x == y
    decreases r
  {
    if r > 0 {
      var leftX, leftY: byte := x % 128 * 2 + x / 128, y % 128 * 2 + y / 128;
      var rightX, rightY: byte := x % 2 * 128 + x / 2, y % 2 * 128 + y / 2;
      RotationsInjective(leftX, leftY, r - 1);
      RotationsInjective(rightX, rightY, r - 1);
      assert RotateLeft(x, r) == RotateLeft(leftX, r - 1) && RotateLeft(y, r) == RotateLeft(leftY, r - 1);
      assert RotateRight(x, r) == RotateRight(rightX, r - 1) && RotateRight(y, r) == RotateRight(rightY, r - 1);
      hide RotateLeft, RotateRight;
      OnceInjective(x, y);
    }
  }

  lemma OnceInjective(x: byte, y: byte)
    ensures x % 128 * 2 + x / 128 == y % 128 * 2 + y / 128 ==> x == y
    ensures x % 2 * 128 + x / 2 == y % 2 * 128 + y / 2 ==> x == y
  {
    LeftOfRight(x);
    LeftOfRight(y);
    RightOfLeft(x);
    RightOfLeft(y);
  }

  lemma RightOfLeft(x: byte)
    ensures var left: byte := x % 128 * 2 + x / 128; left % 2 * 128 + left / 2 == x
  {
  }

  /** The mixed-in byte depends on the key byte and on the nonce byte of its step. */
  lemma MixIff(key: b32, key': b32, nonce: bytes, i: nat)
    ensures Mix(key, nonce, i) == Mix(key', nonce, i) <==> key[i % 32] == key'[i % 32]
  {
    hide RotateLeft;
    var a := if nonce == [] then 0 else nonce[i % |nonce|];
    RotationsInjective(WrappingAdd(key[i % 32], a), WrappingAdd(key'[i % 32], a), i % 8);
    AddCancels(key[i % 32], key'[i % 32], a);
  }

  lemma MixNonceIff(key: b32, nonce: bytes, nonce': bytes, i: nat)
    requires nonce != [] && |nonce'| == |nonce|
    ensures Mix(key, nonce, i) == Mix(key, nonce', i) <==> nonce[i % |nonce|] == nonce'[i % |nonce|]
  {
    hide RotateLeft;
    var k, a, b := key[i % 32], nonce[i % |nonce|], nonce'[i % |nonce|];
    RotationsInjective(WrappingAdd(k, a), WrappingAdd(k, b), i % 8);
    AddCancels(a, b, k);
  }

  lemma ScheduleStep(key: b32, nonce: bytes, n: nat)
    requires n < STATE_SIZE
    ensures var s := KeySchedule(key, nonce, n);
      var j := WrappingAdd(WrappingAdd(s.j, s.box[n]), Mix(key, nonce, n));
      KeySchedule(key, nonce, n + 1) == Schedule(Swap(s.box, n, j), j)
  {
    hide Mix, Swap, WrappingAdd;
  }

  /** Keys show in the schedule: where two keys first differ, the schedules part. */
  lemma {:induction false} FirstDifferenceShows(key: b32, key': b32, nonce: bytes, n: nat)
    requires n < 32 && key[..n] == key'[..n] && key[n] != key'[n]
    ensures KeySchedule(key, nonce, n) == KeySchedule(key', nonce, n)
    ensures KeySchedule(key, nonce, n + 1).j != KeySchedule(key', nonce, n + 1).j
  {
    hide Mix, Swap, KeySchedule, WrappingAdd;
    SamePrefix(key, key', nonce, n);
    ScheduleStep(key, nonce, n);
    ScheduleStep(key', nonce, n);
    MixIff(key, key', nonce, n);
    var s := KeySchedule(key, nonce, n);
    AddCancels(Mix(key, nonce, n), Mix(key', nonce, n), WrappingAdd(s.j, s.box[n]));
  }

  lemma {:induction false} SamePrefix(key: b32, key': b32, nonce: bytes, n: nat)
    requires n <= 32 && key[..n] == key'[..n]
    ensures KeySchedule(key, nonce, n) == KeySchedule(key', nonce, n)
    decreases n
  {
    hide Mix, Swap, KeySchedule, WrappingAdd;
    if n > 0 {
      assert key[n - 1] == key[..n][n - 1] == key'[..n][n - 1] == key'[n - 1];
      assert key[..n - 1] == key[..n][..n - 1] && key'[..n - 1] == key'[..n][..n - 1];
      SamePrefix(key, key', nonce, n - 1);
      ScheduleStep(key, nonce, n - 1);
      ScheduleStep(key', nonce, n - 1);
      MixIff(key, key', nonce, n - 1);
    } else {
      NoSteps(key, nonce);
      NoSteps(key', nonce);
    }
  }

  lemma NoSteps(key: b32, nonce: bytes)
    ensures KeySchedule(key, nonce, 0) == Schedule(Identity(), 0)
  {
  }

  /** The generator forgets nothing: its step can be undone, so generators in different
      states never meet. */
  lemma AdvanceInjective(s: Stream, t: Stream)
    requires Advance(s) == Advance(t)
    ensures s == t
  {
    hide WrappingAdd;
    AddCancels(s.i, t.i, 1);
    var i, j := Advance(s).i, Advance(s).j;
    SwapUndone(s.box, i, j);
    SwapUndone(t.box, i, j);
    AddCancels(s.j, t.j, s.box[i]);
  }

  lemma AddCancels(a: byte, b: byte, c: byte)
    ensures WrappingAdd(a, c) == WrappingAdd(b, c) ==> a == b
    ensures WrappingAdd(c, a) == WrappingAdd(c, b) ==> a == b
  {
  }

  lemma SwapUndone(s: Box, i: byte, j: byte)
    ensures Swap(Swap(s, i, j), i, j) == s
  {
  }

  /** Every byte is the output of some state whose box is a permutation; the keystream
      is not confined to some of them. */
  lemma OutputTakesAll(b: byte)
    ensures IsPermutation(Identity()) && Output(Stream(Identity(), b, 0)) == b
  {
    assert RotateRight(b, 0) == b;
  }

  /** In one state of the counters, different boxes at the selected place give different
      outputs. */
  lemma OutputShowsBox(s: Stream, t: Stream)
    requires s.i == t.i && s.j == t.j && s.box[s.i] == t.box[s.i] && s.box[s.j] == t.box[s.j]
    ensures Output(s) == Output(t) <==>
      var k := WrappingAdd(s.box[s.i], s.box[s.j]); s.box[k] == t.box[k]
  {
    hide RotateRight;
    var k := WrappingAdd(s.box[s.i], s.box[s.j]);
    RotationsInjective(s.box[k], t.box[k], s.j % 8);
  }

  // ---- The in-place implementation ----

  method SwapInPlace(state: array<byte>, i: byte, j: byte)
    requires state.Length == STATE_SIZE
    modifies state
    ensures state[..] == Swap(old(state[..]), i, j)
  {
    state[i], state[j] := state[j], state[i];
  }

  method InitState(key: b32, nonce: bytes) returns (state: array<byte>)
    ensures fresh(state) && state.Length == STATE_SIZE
    ensures state[..] == KeySchedule(key, nonce, STATE_SIZE).box
  {
    state := new byte[STATE_SIZE](k requires 0 <= k < STATE_SIZE => k);
    assert state[..] == Identity();
    var j: byte := 0;
    for i := 0 to STATE_SIZE
      invariant state[..] == KeySchedule(key, nonce, i).box && j == KeySchedule(key, nonce, i).j
    {
      var keyByte := key[i % 32];
      var nonceByte := if nonce == [] then 0 else nonce[i % |nonce|];
      var mix := RotateLeft(WrappingAdd(keyByte, nonceByte), i % 8);
      j := WrappingAdd(WrappingAdd(j, state[i]), mix);
      SwapInPlace(state, i, j);
    }
  }

  /** One turn of the generator: the state moves on and yields one byte. */
  method NextByte(state: array<byte>, i: byte, j: byte) returns (nextI: byte, nextJ: byte, output: byte)
    requires state.Length == STATE_SIZE
    modifies state
    ensures Stream(state[..], nextI, nextJ) == Advance(Stream(old(state[..]), i, j))
    ensures output == Output(Stream(state[..], nextI, nextJ))
  {
    hide Swap, RotateRight;
    nextI := WrappingAdd(i, 1);
    nextJ := WrappingAdd(j, state[nextI]);
    SwapInPlace(state, nextI, nextJ);
    var k := WrappingAdd(state[nextI], state[nextJ]);
    output := RotateRight(state[k], nextJ % 8);
  }

  /** The buffer ends as the specification applied to what it held. */
  method ApplyInPlace(data: array<byte>, key: b32, nonce: bytes)
    modifies data
    ensures data[..] == Apply(old(data[..]), key, nonce)
  {
    hide Advance, Output, Xor;
    var state := InitState(key, nonce);
    var i: byte, j: byte := 0, 0;
    for n := 0 to data.Length
      modifies data, state
      invariant Stream(state[..], i, j) == StreamAt(key, nonce, n)
      invariant forall k :: 0 <= k < n ==> data[k] == Xor(old(data[k]), KeystreamByte(key, nonce, k))
      invariant forall k :: n <= k < data.Length ==> data[k] == old(data[k])
    {
      var keystreamByte;
      i, j, keystreamByte := NextByte(state, i, j);
      data[n] := Xor(data[n], keystreamByte);
    }
  }
}
