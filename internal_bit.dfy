/**
 * Bit helpers of the zephyr library: lowest set bit, power-of-two test,
 * hamming weight and the branch-free abs/max/min.
 *
 * lowbit, is_power_of2 and bsf_constexpr work on the 32-bit word of a C++
 * `unsigned int` or `int`, modelled as `bv32` (the sign of an `int` is bit
 * 31); popcount works on the 64-bit word of a `long long`, a `bv64`.
 * abs, max and min depend on signed comparison through the sign of a
 * difference, so they are modelled on the values of an `int` (Dafny `int`
 * in the 32-bit range) with two's complement `&`, `|`, `^`, `~` and the
 * arithmetic shift `>> 31` defined on integers.
 *
 * Bit-vector facts are proved in small lemmas of a few operations each:
 * the solver decides each one quickly, but not many of them at once.
 */
module InternalBit {

  /** INT_MIN, the only 32-bit value whose negation overflows. */
  const IntMin: bv32 := 0x8000_0000

  /** The word, read as a signed `int`, is negative. */
  predicate IsNeg(n: bv32) {
    n & IntMin != 0
  }

  /** Bit `x` of `n` is set. */
  predicate Bit(n: bv32, x: nat)
    requires x < 32
  {
    n & (1 << x) != 0
  }

  /** The word with exactly bit `k` set. */
  function Pow2(k: nat): bv32
    requires k < 32
  {
    1 << k
  }

  /** The word with the `x` lowest bits set. */
  function LowMask(x: nat): bv32
    requires x <= 32
  {
    if x == 32 then 0xFFFF_FFFF else (1 << x) - 1
  }

  lemma LowMaskStep(n: bv32, x: nat)
    requires x < 32
    requires n & LowMask(x) == 0 && !Bit(n, x)
    ensures n & LowMask(x + 1) == 0
  {
  }

  lemma LowMaskFull(n: bv32)
    requires n & LowMask(32) == 0
    ensures n == 0
  {
  }

  /** A non-zero word has a set bit among its 32 bits. */
  lemma MaskBound(n: bv32, x: nat)
    requires x <= 32 && n != 0 && n & LowMask(x) == 0
    ensures x < 32
  {
    if x == 32 {
      LowMaskFull(n);
    }
  }

  lemma LowMaskDown(n: bv32, x: nat)
    requires 0 < x <= 32 && n & LowMask(x) == 0
    ensures n & LowMask(x - 1) == 0
  {
  }

  lemma LowMaskTop(n: bv32, x: nat)
    requires 0 < x <= 32 && n & LowMask(x) == 0
    ensures !Bit(n, x - 1)
  {
  }

  lemma {:induction false} MaskBit(n: bv32, x: nat, y: nat)
    requires y < x <= 32 && n & LowMask(x) == 0
    ensures !Bit(n, y)
    decreases x
  {
    if y == x - 1 {
      LowMaskTop(n, x);
    } else {
      LowMaskDown(n, x);
      MaskBit(n, x - 1, y);
    }
  }

  lemma MaskMeansNoBits(n: bv32, x: nat)
    requires x <= 32 && n & LowMask(x) == 0
    ensures forall y :: 0 <= y < x ==> !Bit(n, y)
  {
    forall y | 0 <= y < x
      ensures !Bit(n, y)
    {
      MaskBit(n, x, y);
    }
  }

  lemma {:induction false} NoBitsMeansMask(n: bv32, x: nat)
    requires x <= 32
    requires forall y :: 0 <= y < x ==> !Bit(n, y)
    ensures n & LowMask(x) == 0
  {
    if x > 0 {
      NoBitsMeansMask(n, x - 1);
      LowMaskStep(n, x - 1);
    }
  }

  /**
   * bsf_constexpr: the index of the lowest set bit of a non-zero word,
   * found by probing bit 0, 1, 2, ... in turn; at most 32 probes.
   */
  method BsfConstexpr(n: bv32) returns (x: nat)
    requires n != 0
    ensures x < 32 && Bit(n, x)
    ensures forall y :: 0 <= y < x ==> !Bit(n, y)
  {
    x := 0;
    while !Bit(n, x)
      invariant x < 32
      invariant n & LowMask(x) == 0
      decreases 32 - x
    {
      LowMaskStep(n, x);
      MaskBound(n, x + 1);
      x := x + 1;
    }
    MaskMeansNoBits(n, x);
  }

  /**
   * lowbit(int): `n & -n`.  For n != 0 the result has exactly one bit
   * set, that bit is set in `n`, and `n` has no set bit below it.  At
   * INT_MIN the C++ negation is a signed overflow; the word negation here
   * takes it as the two's-complement wrap.
   */
  function LowBit(n: bv32): (r: bv32)
    ensures n == 0 ==> r == 0
    ensures n != 0 ==> r != 0 && r & (r - 1) == 0 && n & r == r && n & (r - 1) == 0
  {
    n & -n
  }

  lemma LowBitOfMask(n: bv32, x: nat)
    requires x < 32 && Bit(n, x) && n & LowMask(x) == 0
    ensures LowBit(n) == Pow2(x)
  {
  }

  /** lowbit(n) is 2 to the power bsf(n): the result of BsfConstexpr determines it. */
  lemma LowBitIsPow2OfBsf(n: bv32, x: nat)
    requires x < 32 && Bit(n, x)
    requires forall y :: 0 <= y < x ==> !Bit(n, y)
    ensures LowBit(n) == Pow2(x)
  {
    NoBitsMeansMask(n, x);
    LowBitOfMask(n, x);
  }

  lemma Pow2Facts(k: nat)
    requires k < 31
    ensures Pow2(k) != 0 && !IsNeg(Pow2(k)) && Pow2(k) & (Pow2(k) - 1) == 0
  {
  }

  lemma SingleBit(n: bv32, x: nat)
    requires x < 32 && Bit(n, x) && n & LowMask(x) == 0 && n & (n - 1) == 0
    ensures n == Pow2(x)
  {
  }

  lemma NoSignBit(n: bv32)
    requires !IsNeg(n)
    ensures !Bit(n, 31)
  {
  }

  /** A positive word with `n & (n - 1) == 0` is 2^k for the first set bit k at or above x. */
  lemma {:induction false} PowerWitness(n: bv32, x: nat) returns (k: nat)
    requires x < 32 && n != 0 && !IsNeg(n) && n & (n - 1) == 0
    requires n & LowMask(x) == 0
    ensures x <= k < 31 && n == Pow2(k)
    decreases 32 - x
  {
    NoSignBit(n);
    if Bit(n, x) {
      SingleBit(n, x);
      k := x;
    } else {
      LowMaskStep(n, x);
      MaskBound(n, x + 1);
      k := PowerWitness(n, x + 1);
    }
  }

  /** is_power_of2(int): true exactly for 2^0 .. 2^30, the positive powers of two of an `int`. */
  function IsPowerOf2(n: bv32): (b: bool)
    ensures b <==> exists k :: 0 <= k < 31 && n == Pow2(k)
  {
    PowerOf2Iff(n);
    !IsNeg(n) && n != 0 && n & (n - 1) == 0
  }

  lemma PowerOf2Only(n: bv32)
    requires !IsNeg(n) && n != 0 && n & (n - 1) == 0
    ensures exists k :: 0 <= k < 31 && n == Pow2(k)
  {
    var k := PowerWitness(n, 0);
  }

  lemma PowerOf2All(n: bv32)
    requires exists k :: 0 <= k < 31 && n == Pow2(k)
    ensures !IsNeg(n) && n != 0 && n & (n - 1) == 0
  {
    var k :| 0 <= k < 31 && n == Pow2(k);
    Pow2Facts(k);
  }

  lemma PowerOf2Iff(n: bv32)
    ensures (!IsNeg(n) && n != 0 && n & (n - 1) == 0) <==> exists k :: 0 <= k < 31 && n == Pow2(k)
  {
    if !IsNeg(n) && n != 0 && n & (n - 1) == 0 {
      PowerOf2Only(n);
    }
    if exists k :: 0 <= k < 31 && n == Pow2(k) {
      PowerOf2All(n);
    }
  }

  // ---------------------------------------------------------------------
  // abs, max and min over the values of a C++ `int`

  /** Smallest and largest value of a 32-bit C++ `int`. */
  const IntMinValue: int := -0x8000_0000
  const IntMaxValue: int := 0x7FFF_FFFF

  /** The value fits in a 32-bit `int`; an arithmetic result outside is a signed overflow. */
  predicate InInt(x: int) {
    IntMinValue <= x <= IntMaxValue
  }

  /** Two's complement `~x`. */
  function Not(x: int): int {
    -x - 1
  }

  /** Distance from the nearer of the two fixed points 0 and -1 of halving. */
  function Mag(x: int): nat {
    if x >= 0 then x else -x - 1
  }

  lemma HalfMag(x: int)
    ensures Mag(x / 2) <= Mag(x)
    ensures x != 0 && x != -1 ==> Mag(x / 2) < Mag(x)
  {
  }

  /**
   * Two's complement `x & y` of unbounded integers, bit 0 first: every
   * integer is an infinite bit string that ends in all zeros (x >= 0) or
   * all ones (x < 0), so 0 and -1 are the strings without a lowest digit to
   * peel off.
   */
  function And(x: int, y: int): int
    decreases Mag(x) + Mag(y)
  {
    if (x == 0 || x == -1) && (y == 0 || y == -1) then
      (if x == -1 && y == -1 then -1 else 0)
    else
      HalfMag(x);
      HalfMag(y);
      2 * And(x / 2, y / 2) + (x % 2) * (y % 2)
  }

  /** `x | y`, by De Morgan. */
  function Or(x: int, y: int): int {
    Not(And(Not(x), Not(y)))
  }

  /** `x ^ y`: the bits set in exactly one of x and y. */
  function Xor(x: int, y: int): int {
    Or(And(x, Not(y)), And(Not(x), y))
  }

  /** `x >> 31` on a signed `int`: an arithmetic shift, which is division rounding down. */
  function ShiftRight31(x: int): int {
    x / 0x8000_0000
  }

  lemma ShiftRight31Sign(x: int)
    requires InInt(x)
    ensures ShiftRight31(x) == if x < 0 then -1 else 0
  {
  }

  lemma {:induction false} AndZero(x: int)
    ensures And(x, 0) == 0 && And(0, x) == 0
    decreases Mag(x)
  {
    if x != 0 && x != -1 {
      HalfMag(x);
      AndZero(x / 2);
    }
  }

  lemma {:induction false} AndAllOnes(x: int)
    ensures And(x, -1) == x && And(-1, x) == x
    decreases Mag(x)
  {
    if x != 0 && x != -1 {
      HalfMag(x);
      AndAllOnes(x / 2);
    }
  }

  /** Or and Xor with the masks 0 and -1 that `>> 31` produces. */
  lemma MaskFacts(x: int)
    ensures Or(x, 0) == x && Or(0, x) == x
    ensures Xor(x, 0) == x && Xor(x, -1) == Not(x)
  {
    AndAllOnes(Not(x));
    AndZero(Not(x));
    AndAllOnes(x);
    AndZero(x);
  }

  /**
   * abs(int): `(n ^ (n >> 31)) - (n >> 31)`.  For every `int` but INT_MIN
   * the result is the absolute value of n and is again an `int`.
   */
  function Abs(n: int): (r: int)
    requires InInt(n) && n != IntMinValue
    ensures r == if n < 0 then -n else n
    ensures 0 <= r && InInt(r)
  {
    ShiftRight31Sign(n);
    MaskFacts(n);
    Xor(n, ShiftRight31(n)) - ShiftRight31(n)
  }

  /** At INT_MIN the formula yields 2^31, which overflows an `int`: the reason INT_MIN is excluded. */
  lemma AbsIntMinOverflows()
    ensures Xor(IntMinValue, ShiftRight31(IntMinValue)) - ShiftRight31(IntMinValue) == 0x8000_0000
    ensures !InInt(0x8000_0000)
  {
    ShiftRight31Sign(IntMinValue);
    MaskFacts(IntMinValue);
  }

  /**
   * Picking a word with the masks of the difference d: `(x & (d >> 31)) |
   * (y & (~d >> 31))` is x when d < 0 and y otherwise.
   */
  lemma SelectBySign(x: int, y: int, d: int)
    requires InInt(d)
    ensures Or(And(x, ShiftRight31(d)), And(y, ShiftRight31(Not(d)))) == if d < 0 then x else y
  {
    ShiftRight31Sign(d);
    ShiftRight31Sign(Not(d));
    AndZero(x);
    AndZero(y);
    AndAllOnes(x);
    AndAllOnes(y);
    MaskFacts(x);
    MaskFacts(y);
  }

  /**
   * max(int, int): `(b & ((a - b) >> 31)) | (a & (~(a - b) >> 31))`, the
   * larger argument, whenever `a - b` does not overflow.
   */
  function Max(a: int, b: int): (r: int)
    requires InInt(a) && InInt(b) && InInt(a - b)
    ensures r == a || r == b
    ensures a <= r && b <= r
  {
    SelectBySign(b, a, a - b);
    Or(And(b, ShiftRight31(a - b)), And(a, ShiftRight31(Not(a - b))))
  }

  /**
   * min(int, int): `(a & ((a - b) >> 31)) | (b & (~(a - b) >> 31))`, the
   * smaller argument, whenever `a - b` does not overflow.
   */
  function Min(a: int, b: int): (r: int)
    requires InInt(a) && InInt(b) && InInt(a - b)
    ensures r == a || r == b
    ensures r <= a && r <= b
  {
    SelectBySign(a, b, a - b);
    Or(And(a, ShiftRight31(a - b)), And(b, ShiftRight31(Not(a - b))))
  }

  // ---------------------------------------------------------------------
  // 64-bit part: lowbit<long long> and popcount(long long)

  /**
   * The template lowbit<long long>: `n & -n` on a 64-bit word.  At
   * LLONG_MIN the C++ negation is a signed overflow, taken here as the
   * two's-complement wrap.
   */
  function LowBit64(n: bv64): (r: bv64)
    ensures n == 0 ==> r == 0
    ensures n != 0 ==> r != 0 && r & (r - 1) == 0 && n & r == r && n & (r - 1) == 0
  {
    n & -n
  }

  /** Number of set bits of a 64-bit word, counted from bit 0 upward. */
  function BitCount(n: bv64): nat
  {
    if n == 0 then 0 else LowBitValue(n) + BitCount(n >> 1)
  }

  /** Bit 0 of the word, as a number. */
  function LowBitValue(n: bv64): nat
  {
    if n & 1 == 1 then 1 else 0
  }

  /** Number of binary digits: the termination measure of the bit-by-bit proofs. */
  function Width(n: bv64): nat
  {
    if n == 0 then 0 else 1 + Width(n >> 1)
  }

  lemma ZeroShift(n: bv64)
    requires n == 0
    ensures n >> 1 == 0 && n & 1 == 0
  {
  }

  lemma BitCountStep(m: bv64)
    ensures BitCount(m) == LowBitValue(m) + BitCount(m >> 1)
  {
    if m == 0 {
      ZeroShift(m);
    }
  }

  lemma EvenClearShift(n: bv64)
    requires n != 0 && n & 1 == 0
    ensures (n & (n - 1)) >> 1 == (n >> 1) & ((n >> 1) - 1)
    ensures n >> 1 != 0
    ensures (n & (n - 1)) & 1 == 0
  {
  }

  lemma OddClear(n: bv64)
    requires n & 1 == 1
    ensures n & (n - 1) == n - 1
    ensures (n - 1) >> 1 == n >> 1
    ensures (n - 1) & 1 == 0
  {
  }

  /** Clearing the lowest set bit removes exactly one set bit. */
  lemma {:induction false} ClearLowest(n: bv64)
    requires n != 0
    ensures BitCount(n & (n - 1)) + 1 == BitCount(n)
    decreases Width(n), 1
  {
    if n & 1 == 1 {
      ClearLowestOdd(n);
    } else {
      ClearLowestEven(n);
    }
  }

  lemma ClearLowestOdd(n: bv64)
    requires n & 1 == 1
    ensures BitCount(n & (n - 1)) + 1 == BitCount(n)
  {
    BitCountStep(n);
    OddClear(n);
    BitCountStep(n - 1);
  }

  lemma EvenCount(n: bv64)
    requires n & 1 == 0
    ensures BitCount(n) == BitCount(n >> 1)
  {
    BitCountStep(n);
  }

  lemma EvenClearCount(n: bv64)
    requires n != 0 && n & 1 == 0
    ensures BitCount(n & (n - 1)) == BitCount((n >> 1) & ((n >> 1) - 1))
  {
    EvenClearShift(n);
    BitCountStep(n & (n - 1));
  }

  lemma {:induction false} ClearLowestEven(n: bv64)
    requires n != 0 && n & 1 == 0
    ensures BitCount(n & (n - 1)) + 1 == BitCount(n)
    decreases Width(n), 0
  {
    EvenCount(n);
    EvenClearCount(n);
    EvenClearShift(n);
    ClearLowest(n >> 1);
  }

  lemma SubLowBit(n: bv64)
    ensures n - LowBit64(n) == n & (n - 1)
  {
  }

  /** Subtracting lowbit(n) removes exactly one set bit. */
  lemma SubLowBitCount(n: bv64)
    requires n != 0
    ensures BitCount(n - LowBit64(n)) + 1 == BitCount(n)
  {
    SubLowBit(n);
    ClearLowest(n);
  }

  /**
   * popcount(long long): repeatedly subtracts lowbit(n) and counts the
   * rounds.  For n >= 0 the count is the number of set bits of n.  For a
   * negative `n` the last round negates LLONG_MIN, a signed overflow in
   * C++; the model takes that step as the two's-complement wrap, so it
   * counts the bits of the 64-bit word.
   */
  method Popcount(n: bv64) returns (cnt: nat)
    ensures cnt == BitCount(n)
  {
    cnt := 0;
    var m := n;
    while m != 0
      invariant cnt + BitCount(m) == BitCount(n)
      decreases BitCount(m)
    {
      SubLowBitCount(m);
      cnt := cnt + 1;
      m := m - LowBit64(m);
    }
  }
}
