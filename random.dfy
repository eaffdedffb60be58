/** Random.java (Parallel Java 2): a counter-based pseudorandom generator. Its whole state
    is a hashed seed and a counter; each value is the hash of `seed + counter` after the
    counter is advanced, so skipping ahead costs nothing. Java `long`s are `Int64`s whose
    overflow is `Wrap64`; the hash works on the unsigned reading of the bit pattern, a
    `Word`, with multiplication, shifts and exclusive or written out modulo 2^64. */
module Prng {

  import opened JavaInt

  /** A 64-bit word: the unsigned reading of a `long`'s bit pattern. */
  type Word = w: int | 0 <= w < 0x1_0000_0000_0000_0000

  /** The bit pattern of a `long`. */
  function Bits(x: Int64): Word {
    x % TWO_64
  }

  /** The `long` whose bit pattern is `w`: negative exactly when the top bit is set. */
  function Signed(w: Word): (x: Int64)
    ensures x >= 0 <==> w < 0x8000_0000_0000_0000
  {
    if w < 0x8000_0000_0000_0000 then w else w - TWO_64
  }

  /** Reading a bit pattern as a `long` and back loses nothing, either way round. */
  lemma BitsSignedInverse(x: Int64, w: Word)
    ensures Signed(Bits(x)) == x
    ensures Bits(Signed(w)) == w
  {
  }

  /** `2^n`. */
  function Pow2(n: nat): (p: nat)
    ensures p >= 1
  {
    if n == 0 then 1 else 2 * Pow2(n - 1)
  }

  /** Bitwise exclusive or of the low `width` bits of `a` and `b`. */
  function Xor(a: nat, b: nat, width: nat): (r: nat)
    ensures r < Pow2(width)
  {
    if width == 0 then 0
    else (if a % 2 == b % 2 then 0 else 1) + 2 * Xor(a / 2, b / 2, width - 1)
  }

  lemma {:induction false} Pow2Add(m: nat, n: nat)
    ensures Pow2(m + n) == Pow2(m) * Pow2(n)
  {
    if m > 0 {
      Pow2Add(m - 1, n);
    }
  }

  lemma Pow2Of32()
    ensures Pow2(32) == 0x1_0000_0000
  {
    assert Pow2(8) == 0x100 by {
      assert Pow2(4) == 16;
      Pow2Add(4, 4);
    }
    assert Pow2(16) == 0x1_0000 by { Pow2Add(8, 8); }
    calc {
      Pow2(32);
      { Pow2Add(16, 16); }
      Pow2(16) * Pow2(16);
      0x1_0000 * 0x1_0000;
    }
  }

  lemma Pow2Of64()
    ensures Pow2(64) == TWO_64
  {
    assert Pow2(32) == 0x1_0000_0000 by { Pow2Of32(); }
    calc {
      Pow2(64);
      { Pow2Add(32, 32); }
      Pow2(32) * Pow2(32);
      0x1_0000_0000 * 0x1_0000_0000;
    }
  }

  /** `x ^ (x >>> n)` on a word: the logical shift drops the low `n` bits. */
  function XorShiftRight(x: Word, n: nat): Word {
    Pow2Of64();
    Xor(x, x / Pow2(n), 64)
  }

  /** `x ^ (x << n)` on a word: the left shift drops the bits pushed past bit 63. */
  function XorShiftLeft(x: Word, n: nat): Word {
    Pow2Of64();
    Xor(x, (x * Pow2(n)) % TWO_64, 64)
  }

  /** One statement of `hash`: `x = m * x + a`, `x = x ^ (x >>> n)` or `x = x ^ (x << n)`. */
  datatype HashStep = MulAdd(m: nat, a: nat) | XorRight(r: nat) | XorLeft(l: nat)

  function StepOf(step: HashStep, x: Word): Word {
    match step
    case MulAdd(m, a) => (m * x + a) % TWO_64
    case XorRight(n) => XorShiftRight(x, n)
    case XorLeft(n) => XorShiftLeft(x, n)
  }

  /** The eight statements of `hash`, in order. */
  const HASH_STEPS: seq<HashStep> := [
    MulAdd(3935559000370003845, 2691343689449507681), XorRight(21), XorLeft(37), XorRight(4),
    MulAdd(4768777513237032717, 0), XorLeft(20), XorRight(41), XorLeft(5)]

  /** Runs `steps` in order on `x`. */
  function Run(steps: seq<HashStep>, x: Word): Word {
    if steps == [] then x else StepOf(steps[|steps| - 1], Run(steps[..|steps| - 1], x))
  }

  /** `hash(x)`. */
  function Hash(x: Word): Word {
    Run(HASH_STEPS, x)
  }

  /** The `long` that `next()` returns when it has moved the counter to `counter`: the
      hash of the `long` sum `seed + counter`. */
  function ValueAt(seed: Int64, counter: Int64): Int64 {
    Signed(Hash(Bits(Wrap64(seed + counter))))
  }

  /** The value at position `n` of the stream seeded with `s`: what `next()` returns once
      the counter of a generator seeded with `s` has reached `n` (modulo 2^64). */
  function Output(s: Int64, n: int): (v: Int64)
    ensures 0 <= n <= LONG_MAX ==> v == ValueAt(HashLong(s), n)
    ensures v == ValueAt(HashLong(s), Wrap64(n + TWO_64))
  {
    Wrap64Shift(n, 1);
    ValueAt(HashLong(s), Wrap64(n))
  }

  /** `hash` on `long`s. */
  function HashLong(x: Int64): Int64 {
    Signed(Hash(Bits(x)))
  }

  // ---------------------------------------------------------------------------
  // The values derived from one 64-bit output

  /** `nextBoolean()`: whether the output is non-negative, that is, whether its top bit
      is clear. */
  predicate BooleanOf(v: Int64)
    ensures BooleanOf(v) <==> Bits(v) < 0x8000_0000_0000_0000
  {
    v >= 0
  }

  /** `nextByte()`: the cast `(byte) v`. */
  function ByteOf(v: Int64): (r: int)
    ensures -0x80 <= r < 0x80 && (v - r) % 0x100 == 0
  {
    Wrap8(v)
  }

  /** `nextUnsignedByte()`: `v & 0xFF`, which for a two's-complement value is its
      non-negative remainder modulo 256. */
  function UnsignedByteOf(v: Int64): (r: int)
    ensures 0 <= r < 0x100 && (v - r) % 0x100 == 0
  {
    v % 0x100
  }

  /** `nextShort()`: the cast `(short) v`. */
  function ShortOf(v: Int64): (r: int)
    ensures -0x8000 <= r < 0x8000 && (v - r) % 0x1_0000 == 0
  {
    Wrap16(v)
  }

  /** `nextUnsignedShort()`: `v & 0xFFFF`. */
  function UnsignedShortOf(v: Int64): (r: int)
    ensures 0 <= r < 0x1_0000 && (v - r) % 0x1_0000 == 0
  {
    v % 0x1_0000
  }

  /** `nextInteger()`: the cast `(int) v`. */
  function IntegerOf(v: Int64): (r: Int32)
    ensures INT_MIN <= v <= INT_MAX ==> r == v
  {
    Wrap32(v)
  }

  /** The unsigned reading of the low 8 bits agrees with the signed one. */
  lemma UnsignedByteAgrees(v: Int64)
    ensures UnsignedByteOf(v) == (if ByteOf(v) < 0 then ByteOf(v) + 0x100 else ByteOf(v))
  {
    var b := Wrap8(v);
    var q := (v + 0x80) / 0x100;
    assert v == 0x100 * q + b;
    if b < 0 {
      assert v == 0x100 * (q - 1) + (b + 0x100);
    }
  }

  /** The unsigned reading of the low 16 bits agrees with the signed one. */
  lemma UnsignedShortAgrees(v: Int64)
    ensures UnsignedShortOf(v) == (if ShortOf(v) < 0 then ShortOf(v) + 0x1_0000 else ShortOf(v))
  {
    var s := Wrap16(v);
    var q := (v + 0x8000) / 0x1_0000;
    assert v == 0x1_0000 * q + s;
    if s < 0 {
      assert v == 0x1_0000 * (q - 1) + (s + 0x1_0000);
    }
  }

  // ---------------------------------------------------------------------------
  // The generator

  class Random {
    /** The hash of the seed. */
    var seed: Int64
    /** How many values have been consumed (moved by `skip` and `skipTo`). */
    var counter: Int64

    /** `new Random(seed)`: `setSeed(seed)`. */
    constructor (seed: Int64)
      ensures this.seed == HashLong(seed) && counter == 0
    {
      this.seed := HashLong(seed);
      counter := 0;
    }

    /** `setSeed(seed)`: stores the hash of the seed and restarts the counter. */
    method SetSeed(seed: Int64)
      modifies this
      ensures this.seed == HashLong(seed) && counter == 0
    {
      this.seed := HashLong(seed);
      counter := 0;
    }

    /** `skip()`: advances the counter by one. */
    method Skip()
      modifies this
      ensures seed == old(seed) && counter == Wrap64(old(counter) + 1)
    {
      counter := Wrap64(counter + 1);
    }

    /** `skip(skip)`: advances the counter by `skip`; a negative `skip` changes nothing. */
    method SkipBy(skip: Int64)
      modifies this
      ensures seed == old(seed)
      ensures counter == if skip >= 0 then Wrap64(old(counter) + skip) else old(counter)
    {
      if skip >= 0 {
        counter := Wrap64(counter + skip);
      }
    }

    /** `skipTo(skip)`: sets the counter to `skip`; a negative `skip` changes nothing. */
    method SkipTo(skip: Int64)
      modifies this
      ensures seed == old(seed)
      ensures counter == if skip >= 0 then skip else old(counter)
    {
      if skip >= 0 {
        counter := skip;
      }
    }

    /** `next()`: advances the counter, then hashes `seed + counter`. */
    method Next() returns (v: Int64)
      modifies this
      ensures seed == old(seed) && counter == Wrap64(old(counter) + 1)
      ensures v == ValueAt(seed, counter)
    {
      counter := Wrap64(counter + 1);
      v := ValueAt(seed, counter);
    }

    method NextBoolean() returns (b: bool)
      modifies this
      ensures seed == old(seed) && counter == Wrap64(old(counter) + 1)
      ensures b == BooleanOf(ValueAt(seed, counter))
    {
      var v := Next();
      b := v >= 0;
    }

    method NextByte() returns (b: int)
      modifies this
      ensures seed == old(seed) && counter == Wrap64(old(counter) + 1)
      ensures b == ByteOf(ValueAt(seed, counter))
    {
      var v := Next();
      b := Wrap8(v);
    }

    method NextUnsignedByte() returns (b: int)
      modifies this
      ensures seed == old(seed) && counter == Wrap64(old(counter) + 1)
      ensures b == UnsignedByteOf(ValueAt(seed, counter))
    {
      var v := Next();
      b := v % 0x100;
    }

    /** `nextCharacter()`: a Java `char` is an unsigned 16-bit code unit (surrogates
        included), so `(char) v` has the value of `v & 0xFFFF`. */
    method NextCharacter() returns (c: int)
      modifies this
      ensures seed == old(seed) && counter == Wrap64(old(counter) + 1)
      ensures c == UnsignedShortOf(ValueAt(seed, counter))
    {
      var v := Next();
      c := v % 0x1_0000;
    }

    method NextShort() returns (s: int)
      modifies this
      ensures seed == old(seed) && counter == Wrap64(old(counter) + 1)
      ensures s == ShortOf(ValueAt(seed, counter))
    {
      var v := Next();
      s := Wrap16(v);
    }

    method NextUnsignedShort() returns (s: int)
      modifies this
      ensures seed == old(seed) && counter == Wrap64(old(counter) + 1)
      ensures s == UnsignedShortOf(ValueAt(seed, counter))
    {
      var v := Next();
      s := v % 0x1_0000;
    }

    method NextInteger() returns (i: Int32)
      modifies this
      ensures seed == old(seed) && counter == Wrap64(old(counter) + 1)
      ensures i == IntegerOf(ValueAt(seed, counter))
    {
      var v := Next();
      i := Wrap32(v);
    }

    method NextLong() returns (v: Int64)
      modifies this
      ensures seed == old(seed) && counter == Wrap64(old(counter) + 1)
      ensures v == ValueAt(seed, counter)
    {
      v := Next();
    }

    /** `nextInt(n)`: a non-positive bound is the IllegalArgumentException and leaves the
        generator as it was; otherwise one value is consumed (the `int` scaled from it by
        floating point is not modelled). */
    method NextInt(n: Int32) returns (ok: bool)
      modifies this
      ensures ok <==> n > 0
      ensures seed == old(seed)
      ensures counter == if ok then Wrap64(old(counter) + 1) else old(counter)
    {
      if n <= 0 {
        return false;
      }
      var _ := Next();
      ok := true;
    }
  }

  // ---------------------------------------------------------------------------
  // Skipping and generating agree

  /** After seeding with `s`, `skip(k)` and then `next()` give the value of position
      `k + 1`, the same value the `(k + 1)`-th `next()` gives (see `FirstOutputs`); a
      negative `k` skips nothing. */
  method SkipThenNext(s: Int64, k: Int64) returns (v: Int64)
    ensures v == Output(s, if k >= 0 then k + 1 else 1)
  {
    var g := new Random(s);
    g.SkipBy(k);
    v := g.Next();
  }

  /** The first `n` values after seeding with `s` are the values of positions `1 .. n`. */
  method FirstOutputs(s: Int64, n: nat) returns (vs: seq<Int64>)
    ensures |vs| == n
    ensures forall i :: 0 <= i < n ==> vs[i] == Output(s, i + 1)
  {
    var g := new Random(s);
    vs := [];
    var i := 0;
    while i < n
      invariant i == |vs| <= n
      invariant g.seed == HashLong(s) && g.counter == Wrap64(i)
      invariant forall j :: 0 <= j < i ==> vs[j] == Output(s, j + 1)
    {
      Wrap64Add(i, 1);
      var v := g.Next();
      assert v == Output(s, i + 1);
      vs := vs + [v];
      i := i + 1;
    }
  }

  /** `skipTo(k)` positions the generator at `k` whatever it did before: after any number
      `m` of values, `skipTo(k)` and `next()` give the value of position `k + 1`. */
  method DrawThenSkipTo(s: Int64, m: nat, k: Int64) returns (v: Int64)
    requires k >= 0
    ensures v == Output(s, k + 1)
  {
    var g := new Random(s);
    var i := 0;
    while i < m
      invariant g.seed == HashLong(s)
    {
      var _ := g.Next();
      i := i + 1;
    }
    g.SkipTo(k);
    v := g.Next();
  }

  /** Reseeding restarts the stream: two generators given the same seed produce the same
      values, even when one of them was used before `setSeed`. */
  method SameSeedSameValues(s: Int64, t: Int64, m: nat, n: nat) returns (xs: seq<Int64>, ys: seq<Int64>)
    ensures xs == ys && |xs| == n
  {
    var a := new Random(t);
    var i := 0;
    while i < m
      invariant a.seed == HashLong(t)
    {
      var _ := a.Next();
      i := i + 1;
    }
    a.SetSeed(s);
    var b := new Random(s);
    xs, ys := [], [];
    while |xs| < n
      invariant |xs| == |ys| <= n
      invariant a.seed == b.seed && a.counter == b.counter
      invariant xs == ys
    {
      var x := a.Next();
      var y := b.Next();
      xs, ys := xs + [x], ys + [y];
    }
  }
}
