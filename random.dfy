/**
  The integer pseudo-random generators of random.h / random.cpp.

  - `Random32`: a 32-bit linear congruential generator whose output is the
    new seed rotated by 16 bits;
  - `Random48`: the 48-bit generator of drand48 and java.util.Random;
  - `Random::nextInt(n)`: a draw reduced to [0, n), shared by both;
  - `RandomMz`: the Marsaglia-Zaman generator, of which only the integer
    seed reduction and the bookkeeping of its two lag indices are modelled
    (its table `u[]` and the carry `c` are floating point).

  The C++ `int`/`long long` arithmetic here overflows on purpose; the model
  writes every wrap-around out, and the bitwise operators are spelled out on
  the two's complement representation.
 */
module Random {
  import opened Ints

  const TWO48: int := 0x1_0000_0000_0000
  const TWO63: int := 0x8000_0000_0000_0000
  const TWO64: int := 0x1_0000_0000_0000_0000

  type int64 = x: int | -TWO63 <= x < TWO63

  function Pow2(k: nat): (p: nat)
    ensures p >= 1
  {
    if k == 0 then 1 else 2 * Pow2(k - 1)
  }

  lemma Pow2Of32()
    ensures Pow2(31) == TWO31 && Pow2(32) == TWO32
  {
    assert Pow2(4) == 16 by {
      assert Pow2(1) == 2;
      assert Pow2(2) == 4;
      assert Pow2(3) == 8;
    }
    Pow2Add(4, 4);
    Pow2Add(8, 8);
    Pow2Add(16, 16);
    assert Pow2(32) == 2 * Pow2(31);
  }

  lemma Pow2Of64()
    ensures Pow2(35) == 0x8_0000_0000 && Pow2(48) == TWO48 && Pow2(63) == TWO63 && Pow2(64) == TWO64
  {
    Pow2Of32();
    Pow2Add(32, 3);
    Pow2Add(32, 16);
    Pow2Add(32, 32);
    assert Pow2(64) == 2 * Pow2(63);
  }

  lemma {:induction false} Pow2Add(i: nat, j: nat)
    ensures Pow2(i + j) == Pow2(i) * Pow2(j)
  {
    if i > 0 {
      Pow2Add(i - 1, j);
      assert Pow2(i + j) == 2 * Pow2(i - 1 + j);
    }
  }

  /** Multiplying by a positive number keeps a strict order. */
  lemma MulBelow(a: nat, b: nat, c: nat)
    requires a > 0 && b < c
    ensures a * b < a * c
  {
    assert a * c == a * b + a * (c - b);
    MulAtLeast(a, c - b);
  }

  /** x < p*q gives x / q < p. */
  lemma DivBelow(x: nat, p: nat, q: nat)
    requires q > 0 && x < p * q
    ensures x / q < p
  {
    assert (x / q) * q <= x;
  }

  lemma {:induction false} Pow2Below(i: nat, j: nat)
    requires i < j
    ensures Pow2(i) < Pow2(j)
  {
    if i + 1 < j {
      Pow2Below(i, j - 1);
    }
  }

  /** `x >> k` for a non-negative x. */
  function Shr(x: nat, k: nat): (r: nat)
    ensures r <= x
  {
    if k == 0 then x else Shr(x / 2, k - 1)
  }

  /** A number below 2^(a+b), shifted right by b bits, is below 2^a. */
  lemma {:induction false} ShiftBelow(x: nat, a: nat, b: nat)
    requires x < Pow2(a + b)
    ensures Shr(x, b) < Pow2(a)
  {
    if b > 0 {
      assert Pow2(a + b) == 2 * Pow2(a + b - 1);
      ShiftBelow(x / 2, a, b - 1);
    }
  }

  // ---------------------------------------------------------------------
  // Bitwise operators on non-negative numbers, one bit at a time.

  function Xor(a: nat, b: nat): nat
    decreases a + b
  {
    if a == 0 && b == 0 then 0 else (if a % 2 == b % 2 then 0 else 1) + 2 * Xor(a / 2, b / 2)
  }

  function And(a: nat, b: nat): nat
    decreases a + b
  {
    if a == 0 || b == 0 then 0 else (if a % 2 == 1 && b % 2 == 1 then 1 else 0) + 2 * And(a / 2, b / 2)
  }

  lemma {:induction false} XorBound(a: nat, b: nat, k: nat)
    requires a < Pow2(k) && b < Pow2(k)
    ensures Xor(a, b) < Pow2(k)
    decreases a + b
  {
    if !(a == 0 && b == 0) {
      assert k > 0;
      XorBound(a / 2, b / 2, k - 1);
    }
  }

  /** Xor with the same mask twice gives the number back. */
  lemma {:induction false} XorTwice(a: nat, b: nat)
    ensures Xor(Xor(a, b), b) == a
    decreases a + b
  {
    if !(a == 0 && b == 0) {
      var x := Xor(a, b);
      assert x % 2 == (if a % 2 == b % 2 then 0 else 1) && x / 2 == Xor(a / 2, b / 2);
      XorTwice(a / 2, b / 2);
    }
  }

  /** Two numbers whose bits below k are complementary share no bit. */
  lemma {:induction false} AndComplement(a: nat, k: nat)
    requires a < Pow2(k)
    ensures And(a, Pow2(k) - 1 - a) == 0
  {
    if k > 0 && a != 0 && Pow2(k) - 1 - a != 0 {
      var b := Pow2(k) - 1 - a;
      assert b % 2 != a % 2 && b / 2 == Pow2(k - 1) - 1 - a / 2;
      AndComplement(a / 2, k - 1);
    }
  }

  /** The largest power of two dividing n. */
  function LowBit(n: nat): (r: nat)
    requires n > 0
    ensures r >= 1
  {
    if n % 2 == 1 then 1 else 2 * LowBit(n / 2)
  }

  predicate PowerOfTwo(n: nat)
  {
    n == 1 || (n > 1 && n % 2 == 0 && PowerOfTwo(n / 2))
  }

  /** The two's complement negation of n in k bits shares with n exactly its lowest set bit. */
  lemma {:induction false} AndNegation(n: nat, k: nat)
    requires 0 < n < Pow2(k)
    ensures And(n, Pow2(k) - n) == LowBit(n)
  {
    var m := Pow2(k) - n;
    assert k > 0 && m > 0;
    if n % 2 == 1 {
      assert m % 2 == 1 && m / 2 == Pow2(k - 1) - 1 - n / 2;
      AndComplement(n / 2, k - 1);
    } else {
      assert m % 2 == 0 && m / 2 == Pow2(k - 1) - n / 2;
      AndNegation(n / 2, k - 1);
    }
  }

  lemma {:induction false} LowBitIsSelf(n: nat)
    requires n > 0
    ensures LowBit(n) == n <==> PowerOfTwo(n)
  {
    if n % 2 == 0 {
      LowBitIsSelf(n / 2);
    }
  }

  lemma {:induction false} PowerOfTwoIsPow2(n: nat)
    requires PowerOfTwo(n)
    ensures exists k: nat :: Pow2(k) == n
  {
    if n == 1 {
      assert Pow2(0) == 1;
    } else {
      PowerOfTwoIsPow2(n / 2);
      var k: nat :| Pow2(k) == n / 2;
      assert Pow2(k + 1) == n;
    }
  }

  lemma {:induction false} Pow2IsPowerOfTwo(k: nat)
    ensures PowerOfTwo(Pow2(k))
  {
    if k > 0 {
      Pow2IsPowerOfTwo(k - 1);
    }
  }

  // ---------------------------------------------------------------------
  // Two's complement views of `int` and `long long`.

  function ToUnsigned64(x: int64): (u: nat)
    ensures u < TWO64
  {
    x % TWO64
  }

  function ToSigned64(u: nat): int64
    requires u < TWO64
  {
    if u < TWO63 then u else u - TWO64
  }

  /** `a ^ b` on `int`. */
  function Xor32(a: int32, b: int32): (r: int32)
  {
    ToSigned(XorBelow32(ToUnsigned(a), ToUnsigned(b)))
  }

  function XorBelow32(a: uint32, b: uint32): (r: uint32)
  {
    Pow2Of32();
    XorBound(a, b, 32);
    Xor(a, b)
  }

  /** `a & b` on `int`. */
  function And32(a: int32, b: int32): int32
  {
    ToSigned(AndBelow(ToUnsigned(a), ToUnsigned(b)))
  }

  function AndBelow(a: uint32, b: uint32): (r: uint32)
  {
    AndBound(a, b);
    And(a, b)
  }

  lemma {:induction false} AndBound(a: nat, b: nat)
    ensures And(a, b) <= a
    decreases a + b
  {
    if a != 0 && b != 0 {
      AndBound(a / 2, b / 2);
    }
  }

  /** `a ^ b` on `long long`. */
  function Xor64(a: int64, b: int64): int64
  {
    ToSigned64(XorBelow64(ToUnsigned64(a), ToUnsigned64(b)))
  }

  function XorBelow64(a: nat, b: nat): (r: nat)
    requires a < TWO64 && b < TWO64
    ensures r < TWO64
  {
    Pow2Of64();
    XorBound(a, b, 64);
    Xor(a, b)
  }

  lemma Unsigned64RoundTrip(u: nat)
    requires u < TWO64
    ensures ToUnsigned64(ToSigned64(u)) == u
  {
  }

  lemma Signed64RoundTrip(x: int64)
    ensures ToSigned64(ToUnsigned64(x)) == x
  {
    if x < 0 {
      DivUnique(x, TWO64, -1, x + TWO64);
    } else {
      DivUnique(x, TWO64, 0, x);
    }
  }

  lemma Xor32Twice(a: int32, b: int32)
    ensures Xor32(Xor32(a, b), b) == a
  {
    UnsignedSignedRoundTrip(XorBelow32(ToUnsigned(a), ToUnsigned(b)), a);
    XorTwice(ToUnsigned(a), ToUnsigned(b));
  }

  lemma Xor64Twice(a: int64, b: int64)
    ensures Xor64(Xor64(a, b), b) == a
  {
    var ua, ub := ToUnsigned64(a), ToUnsigned64(b);
    var c := XorBelow64(ua, ub);
    Unsigned64RoundTrip(c);
    assert ToUnsigned64(Xor64(a, b)) == c;
    XorTwice(ua, ub);
    assert XorBelow64(c, ub) == ua;
    Signed64RoundTrip(a);
  }

  // ---------------------------------------------------------------------
  // Random::nextInt, given the values its calls to next(31) return.

  /** C++ `a % b` for a non-negative a: the remainder takes the sign of a. */
  function CRem(a: nat, b: int): (r: nat)
    requires b != 0
    ensures b > 0 ==> r < b
  {
    a % (if b < 0 then -b else b)
  }

  /** `(n & -n) == n`, the test the source uses for "n is a power of 2". */
  predicate PowerTest(n: int32)
  {
    And32(n, Wrap32(-(n as int))) == n
  }

  /** For a positive n the test is exact. */
  lemma PowerTestMeaning(n: int32)
    requires n > 0
    ensures PowerTest(n) <==> PowerOfTwo(n)
  {
    Pow2Of32();
    assert ToUnsigned(Wrap32(-(n as int))) == Pow2(32) - n;
    AndNegation(n, 32);
    LowBitIsSelf(n);
    AndBound(n, Pow2(32) - n);
  }

  /** The power-of-two branch: the top bits of n * bits, as a `long long` shifted right by 31. */
  function ScaledDraw(n: int32, bits: int): int32
  {
    Wrap32((n * bits) / TWO31)
  }

  /** The do-while condition: a draw from the incomplete last block of size n is drawn again. */
  predicate Rejects(n: int32, bits: int, val: int)
  {
    Wrap32(bits - val + (n - 1)) < 0
  }

  /**
    `Random::nextInt(n)` when its calls to next(31) return `draws` in order:
    the result and the number of draws it used, or None when it would need
    more draws than given.
   */
  function NextIntFrom(n: int32, draws: seq<int>): (r: Option<(int32, nat)>)
    requires forall i :: 0 <= i < |draws| ==> 0 <= draws[i] < TWO31
    ensures r.Some? ==> 1 <= r.value.1 <= |draws|
    ensures r.Some? && n > 0 ==> 0 <= r.value.0 < n
  {
    if |draws| == 0 then None
    else if PowerTest(n) then
      ScaledBelowIfPositive(n, draws[0]);
      Some((ScaledDraw(n, draws[0]), 1))
    else RejectLoop(n, draws, 0)
  }

  lemma ScaledBelowIfPositive(n: int32, bits: int)
    requires 0 <= bits < TWO31
    ensures n > 0 ==> 0 <= ScaledDraw(n, bits) < n
  {
    if n > 0 {
      MulBelow(n as nat, bits, TWO31);
      DivBelow(n * bits, n, TWO31);
    }
  }

  function RejectLoop(n: int32, draws: seq<int>, i: nat): (r: Option<(int32, nat)>)
    requires !PowerTest(n) && i <= |draws|
    requires forall i :: 0 <= i < |draws| ==> 0 <= draws[i] < TWO31
    ensures r.Some? ==> i < r.value.1 <= |draws|
    ensures r.Some? && n > 0 ==> 0 <= r.value.0 < n
    decreases |draws| - i
  {
    if i == |draws| then None
    else
      assert n != 0 by {
        assert And(0, 0) == 0;
      }
      var bits := draws[i];
      var val := CRem(bits, n);
      if Rejects(n, bits, val) then RejectLoop(n, draws, i + 1) else Some((val as int32, i + 1))
  }

  lemma NextIntFromCases(n: int32, draws: seq<int>)
    requires |draws| > 0
    requires forall i :: 0 <= i < |draws| ==> 0 <= draws[i] < TWO31
    ensures PowerTest(n) ==> NextIntFrom(n, draws) == Some((ScaledDraw(n, draws[0]), 1))
    ensures !PowerTest(n) ==> NextIntFrom(n, draws) == RejectLoop(n, draws, 0)
  {
  }

  /** One round of the do-while loop. */
  lemma RejectLoopStep(n: int32, draws: seq<int>, i: nat)
    requires !PowerTest(n) && i < |draws|
    requires forall i :: 0 <= i < |draws| ==> 0 <= draws[i] < TWO31
    ensures n != 0 && CRem(draws[i], n) < TWO31
    ensures RejectLoop(n, draws, i) ==
      if Rejects(n, draws[i], CRem(draws[i], n)) then RejectLoop(n, draws, i + 1)
      else Some((CRem(draws[i], n) as int32, i + 1))
  {
    assert And(0, 0) == 0;
  }

  /** For n = 2^k, one draw is used and the result is its top k bits. */
  lemma NextIntPowerOfTwo(k: nat, draws: seq<int>)
    requires k <= 30 && |draws| >= 1
    requires forall i :: 0 <= i < |draws| ==> 0 <= draws[i] < TWO31
    ensures Pow2(k) < TWO31
    ensures var r := NextIntFrom(Pow2(k), draws);
      r.Some? && r.value.0 == Shr(draws[0], 31 - k) && r.value.1 == 1
  {
    var n, b := Pow2(k), draws[0];
    Pow2Of32();
    Pow2Below(k, 31);
    Pow2IsPowerOfTwo(k);
    PowerTestMeaning(n);
    Pow2Add(k, 31 - k);
    DivCancel(n, b, Pow2(31 - k));
    ShrIsDiv(b, 31 - k);
    assert ScaledDraw(n, b) == Shr(b, 31 - k);
  }

  lemma DivUnique(x: int, d: int, q: int, r: int)
    requires d > 0 && x == d * q + r && 0 <= r < d
    ensures x / d == q && x % d == r
  {
    var q2, r2 := x / d, x % d;
    assert d * (q - q2) == r2 - r;
    if q > q2 {
      MulAtLeast(d, q - q2);
    } else if q < q2 {
      MulAtLeast(d, q2 - q);
    }
  }

  lemma MulAtLeast(d: nat, k: int)
    requires k >= 1
    ensures d * k >= d
  {
    assert d * k == d + d * (k - 1);
  }

  lemma DivCancel(c: nat, b: nat, d: nat)
    requires c > 0 && d > 0
    ensures (c * b) / (c * d) == b / d
  {
    var q, r := b / d, b % d;
    assert c * b == (c * d) * q + c * r by {
      assert b == d * q + r;
    }
    assert c * r < c * d;
    DivUnique(c * b, c * d, q, c * r);
  }

  /** Shifting right by m bits is dividing by 2^m. */
  lemma {:induction false} ShrIsDiv(x: nat, m: nat)
    ensures Shr(x, m) == x / Pow2(m)
  {
    if m > 0 {
      ShrIsDiv(x / 2, m - 1);
      var p := Pow2(m - 1);
      var q, r := (x / 2) / p, (x / 2) % p;
      assert x == 2 * (x / 2) + x % 2;
      assert x / 2 == p * q + r;
      assert 2 * (p * q + r) == (2 * p) * q + 2 * r;
      assert x == (2 * p) * q + (2 * r + x % 2);
      DivUnique(x, 2 * p, q, 2 * r + x % 2);
    }
  }

  /**
    For any other positive n the result is the first accepted draw modulo
    n, and a draw is accepted iff its whole block of n values lies below
    2^31, so that every remainder is equally likely.
   */
  lemma {:induction false} NextIntOther(n: int32, draws: seq<int>, i: nat)
    requires n > 0 && !PowerOfTwo(n) && i <= |draws|
    requires forall i :: 0 <= i < |draws| ==> 0 <= draws[i] < TWO31
    ensures !PowerTest(n)
    ensures var r := RejectLoop(n, draws, i);
      && (r.Some? ==> r.value.0 == draws[r.value.1 - 1] % n && n * (draws[r.value.1 - 1] / n + 1) <= TWO31)
      && (forall j :: i <= j < (if r.Some? then r.value.1 - 1 else |draws|) ==> n * (draws[j] / n + 1) > TWO31)
    decreases |draws| - i
  {
    PowerTestMeaning(n);
    if i < |draws| {
      RejectsMeaning(n, draws[i]);
      var val := CRem(draws[i], n);
      if Rejects(n, draws[i], val) {
        NextIntOther(n, draws, i + 1);
      }
    }
  }

  lemma RejectsMeaning(n: int32, bits: int)
    requires n > 0 && 0 <= bits < TWO31
    ensures Rejects(n, bits, bits % n) <==> n * (bits / n + 1) > TWO31
  {
    var q := bits / n;
    assert bits - bits % n == n * q;
    assert n * q <= bits;
    assert 0 <= n * q + (n - 1) < TWO31 + TWO31;
  }

  lemma NextIntIsRejectLoop(n: int32, draws: seq<int>)
    requires n > 0 && !PowerOfTwo(n) && |draws| > 0
    requires forall i :: 0 <= i < |draws| ==> 0 <= draws[i] < TWO31
    ensures !PowerTest(n) && NextIntFrom(n, draws) == RejectLoop(n, draws, 0)
  {
    PowerTestMeaning(n);
  }

  // ---------------------------------------------------------------------
  // Random32.

  /** The `0xffffFFFF & (seed * mul + add)` update, stored back in an `int`. */
  function Step32(seed: int32, mul: int32, add: int32): int32
  {
    Wrap32(seed * mul + add)
  }

  /** The seed as an `unsigned int` is (seed * mul + add) mod 2^32. */
  lemma Step32Mod(seed: int32, mul: int32, add: int32)
    ensures ToUnsigned(Step32(seed, mul, add)) == (seed * mul + add) % TWO32
  {
    WrapUnsigned(seed * mul + add);
  }

  lemma WrapUnsigned(x: int)
    ensures ToUnsigned(Wrap32(x)) == x % TWO32
  {
  }

  /** `(ret << 16) | (ret >> 16)` on an `unsigned int`. */
  function Rot16(u: uint32): uint32
  {
    (u % 65536) * 65536 + u / 65536
  }

  lemma Rot16Twice(u: uint32)
    ensures Rot16(Rot16(u)) == u
  {
    var v := Rot16(u);
    assert v % 65536 == u / 65536 && v / 65536 == u % 65536;
  }

  /** What `next(bits)` returns for the new seed: the rotated seed's top `bits` bits, as an `int`. */
  function Out32(seed: int32, bits: int): int32
    requires 1 <= bits <= 32
  {
    ToSigned(Shr(Rot16(ToUnsigned(seed)), 32 - bits))
  }

  /** What `nextInline(bits)` returns: the same without the rotation. */
  function OutInline32(seed: int32, bits: int): int32
    requires 1 <= bits <= 32
  {
    ToSigned(Shr(ToUnsigned(seed), 32 - bits))
  }

  /** Up to 31 bits, both outputs lie in [0, 2^bits). */
  lemma Out32Range(seed: int32, bits: int)
    requires 1 <= bits <= 31
    ensures 0 <= Out32(seed, bits) < Pow2(bits)
    ensures 0 <= OutInline32(seed, bits) < Pow2(bits)
  {
    Pow2Of32();
    ShiftBelow(Rot16(ToUnsigned(seed)), bits, 32 - bits);
    ShiftBelow(ToUnsigned(seed), bits, 32 - bits);
    if bits < 31 {
      Pow2Below(bits, 31);
    }
  }

  function Iter32(seed: int32, mul: int32, add: int32, i: nat): int32
  {
    if i == 0 then seed else Step32(Iter32(seed, mul, add, i - 1), mul, add)
  }

  /** The values the first k calls of next(31) return. */
  function Draws32(seed: int32, mul: int32, add: int32, k: nat): (r: seq<int>)
    ensures |r| == k
    ensures forall i :: 0 <= i < k ==> 0 <= r[i] < TWO31
  {
    seq(k, i requires 0 <= i < k => Out31(Iter32(seed, mul, add, i + 1)))
  }

  lemma DrawIs32(seed: int32, mul: int32, add: int32, k: nat, i: nat)
    requires i < k
    ensures Draws32(seed, mul, add, k)[i] == Out32(Step32(Iter32(seed, mul, add, i), mul, add), 31)
  {
  }

  /** What `next(31)` returns. */
  function Out31(seed: int32): (r: int)
    ensures 0 <= r < TWO31
  {
    Out32Range(seed, 31);
    Pow2Of32();
    Out32(seed, 31)
  }

  const Seed32Mask: int32 := 0x7fce66d0

  class Random32 {
    var seed: int32
    var mul: int32
    var add: int32
    /** The field of the base class `Random`. */
    var haveNextNextGaussian: bool

    /** `Random32(int s = 1)`. */
    constructor (s: int32)
      ensures seed == Xor32(s, Seed32Mask) && mul == 69069 && add == 1
      ensures !haveNextNextGaussian
    {
      haveNextNextGaussian := false;
      new;
      SetSeed(s);
    }

    /** The default argument of the constructor. */
    constructor Default()
      ensures seed == Xor32(1, Seed32Mask) && mul == 69069 && add == 1
      ensures !haveNextNextGaussian
    {
      haveNextNextGaussian := false;
      new;
      SetSeed(1);
    }

    method SetSeed(nSeed: int32)
      modifies this
      ensures seed == Xor32(nSeed, Seed32Mask) && mul == 69069 && add == 1
      ensures Xor32(seed, Seed32Mask) == nSeed
      ensures haveNextNextGaussian == old(haveNextNextGaussian)
    {
      seed := Xor32(nSeed, Seed32Mask);
      mul := 69069;
      add := 1;
      Xor32Twice(nSeed, Seed32Mask);
    }

    method SetParameters(nSeed: int32, nMul: int32, nAdd: int32)
      modifies this
      ensures seed == nSeed && mul == nMul && add == nAdd
      ensures haveNextNextGaussian == old(haveNextNextGaussian)
    {
      seed, mul, add := nSeed, nMul, nAdd;
    }

    method Next(bits: int) returns (r: int32)
      requires 1 <= bits <= 32
      modifies this
      ensures seed == Step32(old(seed), mul, add) && r == Out32(seed, bits)
      ensures mul == old(mul) && add == old(add) && haveNextNextGaussian == old(haveNextNextGaussian)
    {
      seed := Wrap32(seed * mul + add);
      var ret: uint32 := ToUnsigned(seed);
      ret := Rot16(ret);
      r := ToSigned(Shr(ret, 32 - bits));
    }

    method NextInline(bits: int) returns (r: int32)
      requires 1 <= bits <= 32
      modifies this
      ensures seed == Step32(old(seed), mul, add) && r == OutInline32(seed, bits)
      ensures mul == old(mul) && add == old(add) && haveNextNextGaussian == old(haveNextNextGaussian)
    {
      seed := Wrap32(seed * mul + add);
      var ret: uint32 := ToUnsigned(seed);
      r := ToSigned(Shr(ret, 32 - bits));
    }

    /**
      `Random::nextInt(n)` on this generator.  The rejection loop has no
      bound in the source; here it gives up with None after `fuel` draws.
     */
    method NextInt(n: int32, fuel: nat) returns (r: Option<int32>)
      modifies this
      ensures var x := NextIntFrom(n, Draws32(old(seed), mul, add, fuel));
        && (x.None? ==> r.None?)
        && (x.Some? ==> r == Some(x.value.0) && seed == Iter32(old(seed), mul, add, x.value.1))
      ensures mul == old(mul) && add == old(add) && haveNextNextGaussian == old(haveNextNextGaussian)
    {
      r := None;
      if fuel == 0 {
        return;
      }
      ghost var ds := Draws32(seed, mul, add, fuel);
      NextIntFromCases(n, ds);
      if PowerTest(n) {
        var b := Next(31);
        DrawIs32(old(seed), mul, add, fuel, 0);
        r := Some(ScaledDraw(n, b));
      } else {
        r := RejectDraws(n, fuel);
      }
    }

    /** The do-while loop of `nextInt`, for an n that fails the power-of-two test. */
    method RejectDraws(n: int32, fuel: nat) returns (r: Option<int32>)
      requires !PowerTest(n)
      modifies this
      ensures var x := RejectLoop(n, Draws32(old(seed), mul, add, fuel), 0);
        && (x.None? ==> r.None?)
        && (x.Some? ==> r == Some(x.value.0) && seed == Iter32(old(seed), mul, add, x.value.1))
      ensures mul == old(mul) && add == old(add) && haveNextNextGaussian == old(haveNextNextGaussian)
    {
      ghost var s0 := seed;
      ghost var ds := Draws32(s0, mul, add, fuel);
      r := None;
      var i := 0;
      while i < fuel
        invariant 0 <= i <= fuel && seed == Iter32(s0, mul, add, i)
        invariant RejectLoop(n, ds, 0) == RejectLoop(n, ds, i)
        invariant mul == old(mul) && add == old(add) && haveNextNextGaussian == old(haveNextNextGaussian)
        decreases fuel - i
      {
        var bits := Next(31);
        DrawIs32(s0, mul, add, fuel, i);
        assert seed == Iter32(s0, mul, add, i + 1);
        RejectLoopStep(n, ds, i);
        var val := CRem(bits, n);
        i := i + 1;
        if !Rejects(n, bits, val) {
          r := Some(val as int32);
          return;
        }
      }
    }
  }

  // ---------------------------------------------------------------------
  // Random48.

  const Multiplier48: int64 := 0x5_DEEC_E66D

  /**
    `(seed * multiplier + 0xB) & mask48`.  The `long long` product may wrap
    around, but masking to 48 bits keeps the value modulo 2^48 either way.
   */
  function Step48(seed: int64): (r: int64)
    ensures 0 <= r < TWO48
  {
    (seed * Multiplier48 + 0xB) % TWO48
  }

  /** `(int)(seed >> (48 - bits))`. */
  function Out48(seed: int64, bits: int): int32
    requires -15 <= bits <= 48 && seed >= 0
  {
    Wrap32(Shr(seed, 48 - bits))
  }

  lemma Out48Range(seed: int64, bits: int)
    requires 1 <= bits <= 31 && 0 <= seed < TWO48
    ensures 0 <= Out48(seed, bits) < Pow2(bits)
  {
    Pow2Of64();
    ShiftBelow(seed, bits, 48 - bits);
    if bits < 31 {
      Pow2Below(bits, 31);
    }
  }

  function Iter48(seed: int64, i: nat): (r: int64)
    ensures i > 0 ==> 0 <= r < TWO48
  {
    if i == 0 then seed else Step48(Iter48(seed, i - 1))
  }

  function Draws48(seed: int64, k: nat): (r: seq<int>)
    ensures |r| == k
    ensures forall i :: 0 <= i < k ==> 0 <= r[i] < TWO31
  {
    seq(k, i requires 0 <= i < k => Out48of31(Iter48(seed, i + 1)))
  }

  lemma DrawIs48(seed: int64, k: nat, i: nat)
    requires i < k
    ensures Draws48(seed, k)[i] == Out48(Step48(Iter48(seed, i)), 31)
  {
  }

  function Out48of31(seed: int64): (r: int)
    requires 0 <= seed < TWO48
    ensures 0 <= r < TWO31
  {
    Out48Range(seed, 31);
    Pow2Of32();
    Out48(seed, 31)
  }

  /** What `setSeed(nSeed)` stores: nSeed, widened to `long long`, xor the multiplier. */
  function Seeded48(nSeed: int32): int64
  {
    Xor64(nSeed, Multiplier48)
  }

  /** A non-negative argument gives a seed below 2^35, far inside the 48-bit state. */
  lemma Seeded48Range(nSeed: int32)
    requires nSeed >= 0
    ensures 0 <= Seeded48(nSeed) < Pow2(35)
  {
    Pow2Of64();
    Pow2Of32();
    Pow2Below(31, 35);
    assert ToUnsigned64(nSeed) == nSeed;
    assert ToUnsigned64(Multiplier48) == Multiplier48;
    XorBound(nSeed, Multiplier48, 35);
  }

  class Random48 {
    var seed: int64
    var haveNextNextGaussian: bool

    /** `Random48(int s = 1)`. */
    constructor (s: int32)
      ensures seed == Seeded48(s) && !haveNextNextGaussian
    {
      haveNextNextGaussian := false;
      new;
      SetSeed(s);
    }

    constructor Default()
      ensures seed == Seeded48(1) && !haveNextNextGaussian
    {
      haveNextNextGaussian := false;
      new;
      SetSeed(1);
    }

    method SetSeed(nSeed: int32)
      modifies this
      ensures seed == Seeded48(nSeed) && haveNextNextGaussian == old(haveNextNextGaussian)
      ensures Xor64(seed, Multiplier48) == nSeed
    {
      seed := Xor64(nSeed, Multiplier48);
      Xor64Twice(nSeed, Multiplier48);
    }

    method Next(bits: int) returns (r: int32)
      requires -15 <= bits <= 48
      modifies this
      ensures seed == Step48(old(seed)) && r == Out48(seed, bits)
      ensures haveNextNextGaussian == old(haveNextNextGaussian)
    {
      seed := (seed * Multiplier48 + 0xB) % TWO48;
      r := Wrap32(Shr(seed, 48 - bits));
    }

    /** `Random::nextInt(n)` on this generator, giving up after `fuel` draws. */
    method NextInt(n: int32, fuel: nat) returns (r: Option<int32>)
      modifies this
      ensures var x := NextIntFrom(n, Draws48(old(seed), fuel));
        && (x.None? ==> r.None?)
        && (x.Some? ==> r == Some(x.value.0) && seed == Iter48(old(seed), x.value.1))
      ensures haveNextNextGaussian == old(haveNextNextGaussian)
    {
      r := None;
      if fuel == 0 {
        return;
      }
      ghost var ds := Draws48(seed, fuel);
      NextIntFromCases(n, ds);
      if PowerTest(n) {
        var b := Next(31);
        DrawIs48(old(seed), fuel, 0);
        r := Some(ScaledDraw(n, b));
      } else {
        r := RejectDraws(n, fuel);
      }
    }

    /** The do-while loop of `nextInt`, for an n that fails the power-of-two test. */
    method RejectDraws(n: int32, fuel: nat) returns (r: Option<int32>)
      requires !PowerTest(n)
      modifies this
      ensures var x := RejectLoop(n, Draws48(old(seed), fuel), 0);
        && (x.None? ==> r.None?)
        && (x.Some? ==> r == Some(x.value.0) && seed == Iter48(old(seed), x.value.1))
      ensures haveNextNextGaussian == old(haveNextNextGaussian)
    {
      ghost var s0 := seed;
      ghost var ds := Draws48(s0, fuel);
      r := None;
      var i := 0;
      while i < fuel
        invariant 0 <= i <= fuel && seed == Iter48(s0, i)
        invariant RejectLoop(n, ds, 0) == RejectLoop(n, ds, i)
        invariant haveNextNextGaussian == old(haveNextNextGaussian)
        decreases fuel - i
      {
        var bits := Next(31);
        DrawIs48(s0, fuel, i);
        assert seed == Iter48(s0, i + 1);
        RejectLoopStep(n, ds, i);
        var val := CRem(bits, n);
        i := i + 1;
        if !Rejects(n, bits, val) {
          r := Some(val as int32);
          return;
        }
      }
    }
  }

  // ---------------------------------------------------------------------
  // RandomMz: seed reduction and the two lag indices.

  /** `0xffff & (seed >> 16)`: the shift rounds toward minus infinity on a negative seed. */
  function HighHalf(seed: int32): int
  {
    (seed / 65536) % 65536
  }

  /** `0xffff & seed`. */
  function LowHalf(seed: int32): int
  {
    seed % 65536
  }

  /** What `while (x > m) x -= m;` leaves of x. */
  function Reduced(x: int, m: int): int
    requires m > 0
  {
    if x <= m then x else (x - 1) % m + 1
  }

  /**
    The seed range reduction at the start of `RandomMz::setSeed`: the two
    16-bit halves brought into the ranges the generator is defined for.
   */
  method ReduceSeeds(seed: int32) returns (ij: int, kl: int)
    ensures 0 <= ij <= 31328 && 0 <= kl <= 30081
    ensures ij == Reduced(HighHalf(seed), 31328) && kl == Reduced(LowHalf(seed), 30081)
  {
    ij := (seed / 65536) % 65536;
    kl := seed % 65536;
    while ij > 31328
      invariant 0 <= ij <= 65535
      invariant Reduced(ij, 31328) == Reduced(HighHalf(seed), 31328)
      decreases ij
    {
      ij := ij - 31328;
    }
    while kl > 30081
      invariant 0 <= kl <= 65535
      invariant Reduced(kl, 30081) == Reduced(LowHalf(seed), 30081)
      decreases kl
    {
      kl := kl - 30081;
    }
  }

  /** The starting values of the four small generators that fill `u[]`. */
  function InnerSeeds(ij: int, kl: int): (r: (int, int, int, int))
    requires 0 <= ij <= 31328 && 0 <= kl <= 30081
    ensures 2 <= r.0 <= 178 && 2 <= r.1 <= 178 && 1 <= r.2 <= 178 && 0 <= r.3 <= 168
  {
    ((ij / 177) % 177 + 2, ij % 177 + 2, (kl / 169) % 178 + 1, kl % 169)
  }

  /** The decrement-and-wrap of `i97` and `j97` in `nextDouble`. */
  function Down97(i: int): int
  {
    if i - 1 == 0 then 97 else i - 1
  }

  function DownN(i: int, n: nat): int
  {
    if n == 0 then i else Down97(DownN(i, n - 1))
  }

  /** After n calls an index has moved down n places around the cycle 97, 96, ..., 1. */
  lemma {:induction false} DownNClosedForm(i: int, n: nat)
    requires 1 <= i <= 97
    ensures DownN(i, n) == (i - 1 - n) % 97 + 1
  {
    if n > 0 {
      DownNClosedForm(i, n - 1);
    }
  }

  /** The two indices stay 64 apart modulo 97, the lag distance 97 - 33 of the generator. */
  lemma {:induction false} LagKept(n: nat)
    ensures (DownN(97, n) - DownN(33, n)) % 97 == 64
  {
    DownNClosedForm(97, n);
    DownNClosedForm(33, n);
  }

  class RandomMz {
    var i97: int
    var j97: int
    var haveNextNextGaussian: bool
    /** The reduced seeds `ij` and `kl` that the `u[]` fill of the last `setSeed` starts from. */
    ghost var seedIJ: int
    ghost var seedKL: int
    /** The starting values i, j, k and l of the four small generators that fill `u[]`. */
    ghost var innerStart: (int, int, int, int)

    /** `u[i97-1]` and `u[j97-1]` are inside the 97 entries of `u`. */
    predicate Valid()
      reads this
    {
      1 <= i97 <= 97 && 1 <= j97 <= 97
    }

    /** `RandomMz(int s = 1)`. */
    constructor (s: int32)
      ensures Valid() && i97 == 97 && j97 == 33 && !haveNextNextGaussian
      ensures seedIJ == Reduced(HighHalf(s), 31328) && seedKL == Reduced(LowHalf(s), 30081)
      ensures innerStart == InnerSeeds(seedIJ, seedKL)
    {
      haveNextNextGaussian := false;
      new;
      SetSeed(s);
    }

    /** `RandomMz()`: the default argument 1. */
    constructor Default()
      ensures Valid() && i97 == 97 && j97 == 33 && !haveNextNextGaussian
      ensures seedIJ == Reduced(HighHalf(1), 31328) && seedKL == Reduced(LowHalf(1), 30081)
      ensures innerStart == InnerSeeds(seedIJ, seedKL)
    {
      haveNextNextGaussian := false;
      new;
      SetSeed(1);
    }

    method SetSeed(seed: int32)
      modifies this
      ensures Valid() && i97 == 97 && j97 == 33
      ensures seedIJ == Reduced(HighHalf(seed), 31328) && seedKL == Reduced(LowHalf(seed), 30081)
      ensures 0 <= seedIJ <= 31328 && 0 <= seedKL <= 30081
      ensures innerStart == InnerSeeds(seedIJ, seedKL)
      ensures haveNextNextGaussian == old(haveNextNextGaussian)
    {
      var ij, kl := ReduceSeeds(seed);
      seedIJ, seedKL := ij, kl;
      innerStart := InnerSeeds(ij, kl);
      i97 := 97;
      j97 := 33;
    }

    /** The index bookkeeping of `nextDouble`. */
    method NextIndices()
      requires Valid()
      modifies this
      ensures Valid() && i97 == Down97(old(i97)) && j97 == Down97(old(j97))
      ensures haveNextNextGaussian == old(haveNextNextGaussian)
    {
      i97 := i97 - 1;
      if i97 == 0 {
        i97 := 97;
      }
      j97 := j97 - 1;
      if j97 == 0 {
        j97 := 97;
      }
    }
  }
}
