/**
 * Modular exponentiation by squaring: zephyr's pow_by_mod.
 *
 * The base and the running result are C++ `long long`, the exponent and
 * the modulus `unsigned long long`.  In `x % mod` with a signed `x` the
 * usual arithmetic conversions turn `x` into an `unsigned long long`
 * first, that is `x` modulo 2^64; the model writes this conversion out as
 * `ToUnsigned`.  Products are computed on unbounded integers and the
 * method asserts that each one fits in a `long long`.
 */
module ZephyrMath {

  const LLMin: int := -0x8000_0000_0000_0000
  const LLMax: int := 0x7FFF_FFFF_FFFF_FFFF
  const ULLRange: int := 0x1_0000_0000_0000_0000

  /** The value fits in a `long long`; a product outside is a signed overflow. */
  predicate InLL(x: int) {
    LLMin <= x <= LLMax
  }

  /** Conversion of a `long long` to `unsigned long long`. */
  function ToUnsigned(x: int): (u: int)
    requires InLL(x)
    ensures 0 <= u < ULLRange
    ensures x >= 0 ==> u == x
    ensures x < 0 ==> u == x + ULLRange
  {
    x % ULLRange
  }

  /** b to the power e. */
  function Pow(b: int, e: nat): int
    decreases e
  {
    if e == 0 then 1 else b * Pow(b, e - 1)
  }

  lemma MulAtLeast(d: int, m: int)
    requires m > 0 && d >= 1
    ensures d * m >= m
  {
  }

  /** Euclidean division is unique: a quotient and remainder in [0, m) are y / m and y % m. */
  lemma DivModUnique(y: int, m: int, q: int, r: int)
    requires m > 0 && 0 <= r < m && y == q * m + r
    ensures y / m == q && y % m == r
  {
    var q', r' := y / m, y % m;
    assert y == q' * m + r';
    if q > q' {
      MulAtLeast(q - q', m);
    } else if q < q' {
      MulAtLeast(q' - q, m);
    }
  }

  lemma ModAddMultiple(x: int, k: int, m: int)
    requires m > 0
    ensures (k * m + x) % m == x % m
  {
    var q, r := x / m, x % m;
    assert k * m + x == (k + q) * m + r;
    DivModUnique(k * m + x, m, k + q, r);
  }

  lemma ModMulLeft(a: int, b: int, m: int)
    requires m > 0
    ensures (a * b) % m == ((a % m) * b) % m
  {
    var q, r := a / m, a % m;
    assert a * b == (q * b) * m + r * b;
    ModAddMultiple(r * b, q * b, m);
  }

  lemma ModMulRight(a: int, b: int, m: int)
    requires m > 0
    ensures (a * b) % m == (a * (b % m)) % m
  {
    ModMulLeft(b, a, m);
  }

  /** The modulus of a product depends only on the moduli of its factors. */
  lemma ModMul(a: int, b: int, m: int)
    requires m > 0
    ensures (a * b) % m == ((a % m) * (b % m)) % m
  {
    ModMulLeft(a, b, m);
    ModMulRight(a % m, b, m);
  }

  lemma {:induction false} PowAdd(b: int, i: nat, j: nat)
    ensures Pow(b, i + j) == Pow(b, i) * Pow(b, j)
    decreases i
  {
    if i > 0 {
      PowAdd(b, i - 1, j);
    }
  }

  lemma {:induction false} PowSquare(b: int, k: nat)
    ensures Pow(b * b, k) == Pow(b, 2 * k)
    decreases k
  {
    if k > 0 {
      PowSquare(b, k - 1);
      PowAdd(b, 2, 2 * k - 2);
    }
  }

  lemma {:induction false} PowMod(b: int, k: nat, m: int)
    requires m > 0
    ensures Pow(b % m, k) % m == Pow(b, k) % m
    decreases k
  {
    if k > 0 {
      calc {
        Pow(b % m, k) % m;
        ((b % m) * Pow(b % m, k - 1)) % m;
        { ModMulRight(b % m, Pow(b % m, k - 1), m); }
        ((b % m) * (Pow(b % m, k - 1) % m)) % m;
        { PowMod(b, k - 1, m); }
        ((b % m) * (Pow(b, k - 1) % m)) % m;
        { ModMul(b, Pow(b, k - 1), m); ModMul(b % m, Pow(b, k - 1), m); }
        (b * Pow(b, k - 1)) % m;
      }
    }
  }

  lemma PowNonNegative(b: int, k: nat)
    requires b >= 0
    ensures Pow(b, k) >= 0
  {
  }

  /** Number of binary digits of n: the number of rounds of the loop. */
  function BitLength(n: nat): nat
  {
    if n == 0 then 0 else 1 + BitLength(n / 2)
  }

  /** A positive n has BitLength(n) = floor(log2 n) + 1 digits: 2^(len-1) <= n < 2^len. */
  lemma {:induction false} BitLengthBounds(n: nat)
    requires n >= 1
    ensures BitLength(n) >= 1
    ensures Pow(2, BitLength(n) - 1) <= n < Pow(2, BitLength(n))
  {
    if n >= 2 {
      BitLengthBounds(n / 2);
    }
  }

  /**
   * What pow_by_mod returns.  For p >= 0 it is p^n mod mod.  For a
   * negative p and an odd n the first multiplication `result * p` is
   * negative and is reduced as the unsigned number p + 2^64.
   */
  function Expected(p: int, n: nat, mod: nat): int
    requires InLL(p) && mod >= 1
  {
    if p < 0 && n % 2 == 1 then (ToUnsigned(p) * Pow(p, n - 1)) % mod else Pow(p, n) % mod
  }

  /** One squaring step of the loop preserves the target residue. */
  lemma StepPreserves(result: int, b: int, n: nat, mod: int, target: int)
    requires mod > 0 && n >= 1
    requires (result * Pow(b, n)) % mod == target
    ensures n % 2 == 1 ==> ((result * b) % mod * Pow((b * b) % mod, n / 2)) % mod == target
    ensures n % 2 == 0 ==> (result * Pow((b * b) % mod, n / 2)) % mod == target
  {
    PowMod(b * b, n / 2, mod);
    PowSquare(b, n / 2);
    if n % 2 == 1 {
      PowAdd(b, 1, 2 * (n / 2));
      assert Pow(b, n) == b * Pow(b, 2 * (n / 2));
      calc {
        ((result * b) % mod * Pow((b * b) % mod, n / 2)) % mod;
        { ModMulLeft(result * b, Pow((b * b) % mod, n / 2), mod); }
        (result * b * Pow((b * b) % mod, n / 2)) % mod;
        { ModMulRight(result * b, Pow((b * b) % mod, n / 2), mod);
          ModMulRight(result * b, Pow(b, 2 * (n / 2)), mod); }
        (result * b * Pow(b, 2 * (n / 2))) % mod;
        { assert result * b * Pow(b, 2 * (n / 2)) == result * Pow(b, n); }
        target;
      }
    } else {
      assert n == 2 * (n / 2);
      calc {
        (result * Pow((b * b) % mod, n / 2)) % mod;
        { ModMulRight(result, Pow((b * b) % mod, n / 2), mod);
          ModMulRight(result, Pow(b, n), mod); }
        (result * Pow(b, n)) % mod;
      }
    }
  }

  /**
   * The state of the loop of pow_by_mod: before the first round it is
   * the initial state; afterwards `b` and `result` are reduced modulo
   * `mod` (`result` may still be the initial 1) and result * b^k has the
   * residue of the final answer.
   */
  ghost predicate LoopInv(p: int, n: nat, mod: nat, first: bool, result: int, b: int, k: nat)
    requires InLL(p) && mod >= 1
  {
    (first ==> result == 1 && b == p && k == n) &&
    (!first ==> 0 <= b < mod && (0 <= result < mod || result == 1) &&
                (result * Pow(b, k)) % mod == Expected(p, n, mod))
  }

  /** No product of a round overflows a `long long`. */
  lemma RoundNoOverflow(p: int, n: nat, mod: nat, first: bool, result: int, b: int, k: nat)
    requires InLL(p) && 1 <= mod && (n >= 1 ==> InLL(p * p)) && (mod - 1) * (mod - 1) <= LLMax
    requires LoopInv(p, n, mod, first, result, b, k) && k != 0
    ensures InLL(result * b) && InLL(b * b)
  {
    if !first {
      MulMono(b, b, mod - 1);
      if result != 1 {
        MulMono(result, b, mod - 1);
      }
    }
  }

  /** One round of the loop keeps LoopInv. */
  lemma RoundPreserves(p: int, n: nat, mod: nat, first: bool, result: int, b: int, k: nat)
    requires InLL(p) && 1 <= mod && (n >= 1 ==> InLL(p * p))
    requires LoopInv(p, n, mod, first, result, b, k) && k != 0
    requires InLL(result * b) && InLL(b * b)
    ensures LoopInv(p, n, mod, false,
                    if k % 2 == 1 then ToUnsigned(result * b) % mod else result,
                    ToUnsigned(b * b) % mod, k / 2)
  {
    if first {
      FirstRound(p, n, mod);
    } else {
      assert ToUnsigned(b * b) == b * b;
      assert ToUnsigned(result * b) == result * b;
      StepPreserves(result, b, k, mod, Expected(p, n, mod));
    }
  }

  /**
   * pow_by_mod(p, n, mod) computed by squaring: `result` picks up `p` for
   * every set bit of `n`, `p` is squared modulo `mod` each round, and `n`
   * is halved.  Returns p^n mod mod for p >= 0 (1 % mod for n == 0), and
   * the loop runs BitLength(n) times.  Overflow of `long long` is excluded
   * by bounding the first square and the modulus.
   */
  method PowByMod(p: int, n: nat, mod: nat) returns (r: int, ghost rounds: nat)
    requires InLL(p) && n < ULLRange && 1 <= mod < ULLRange
    requires n >= 1 ==> InLL(p * p)
    requires (mod - 1) * (mod - 1) <= LLMax
    ensures 0 <= r < mod
    ensures r == Expected(p, n, mod)
    ensures p >= 0 ==> r == Pow(p, n) % mod
    ensures n == 0 ==> r == 1 % mod
    ensures rounds == BitLength(n)
  {
    var result := 1;
    var b := p;
    var k := n;
    ghost var first := true;
    rounds := 0;
    while k != 0
      invariant LoopInv(p, n, mod, first, result, b, k)
      invariant rounds + BitLength(k) == BitLength(n)
      decreases k
    {
      RoundNoOverflow(p, n, mod, first, result, b, k);
      RoundPreserves(p, n, mod, first, result, b, k);
      if k % 2 == 1 {
        result := ToUnsigned(result * b) % mod;
      }
      k := k / 2;
      b := ToUnsigned(b * b) % mod;
      first := false;
      rounds := rounds + 1;
    }
    FinalResidue(p, n, mod, first, result, b);
    r := ToUnsigned(result) % mod;
  }

  /** When the loop stops, `result % mod` is the answer. */
  lemma FinalResidue(p: int, n: nat, mod: nat, first: bool, result: int, b: int)
    requires InLL(p) && 1 <= mod && (mod - 1) * (mod - 1) <= LLMax
    requires LoopInv(p, n, mod, first, result, b, 0)
    ensures InLL(result) && result >= 0 && result % mod == Expected(p, n, mod)
    ensures p >= 0 ==> Expected(p, n, mod) == Pow(p, n) % mod
  {
    if mod >= 2 {
      MulMono(1, mod - 1, mod - 1);
    }
  }

  lemma MulMono(x: int, y: int, bound: int)
    requires 0 <= x <= bound && 0 <= y <= bound
    ensures 0 <= x * y <= bound * bound
  {
    assert x * y <= bound * y;
    assert bound * y <= bound * bound;
  }

  /** The first round, whose base may still be negative, lands on the target residue. */
  lemma FirstRound(p: int, n: nat, mod: nat)
    requires InLL(p) && 1 <= mod && n >= 1
    requires InLL(p * p)
    ensures n % 2 == 1 ==> ((ToUnsigned(p) % mod) * Pow(ToUnsigned(p * p) % mod, n / 2)) % mod == Expected(p, n, mod)
    ensures n % 2 == 0 ==> Pow(ToUnsigned(p * p) % mod, n / 2) % mod == Expected(p, n, mod)
  {
    assert ToUnsigned(p * p) == p * p;
    PowMod(p * p, n / 2, mod);
    PowSquare(p, n / 2);
    if n % 2 == 1 {
      assert 2 * (n / 2) == n - 1;
      FirstRoundOdd(p, n, mod, Pow((p * p) % mod, n / 2), Pow(p, n - 1));
    } else {
      assert n == 2 * (n / 2);
    }
  }

  lemma FirstRoundOdd(p: int, n: nat, mod: nat, e: int, w: int)
    requires InLL(p) && 1 <= mod && n % 2 == 1
    requires w == Pow(p, n - 1) && e % mod == w % mod
    ensures ((ToUnsigned(p) % mod) * e) % mod == Expected(p, n, mod)
  {
    var u := ToUnsigned(p);
    calc {
      ((u % mod) * e) % mod;
      { ModMulRight(u % mod, e, mod); }
      ((u % mod) * (w % mod)) % mod;
      { ModMul(u, w, mod); }
      (u * w) % mod;
    }
    if p >= 0 {
      assert Pow(p, n) == p * w;
    }
  }

  /**
   * For a negative base the unsigned conversion changes the answer:
   * pow_by_mod(-1, 1, 3) returns 0, while (-1)^1 is 2 modulo 3.
   */
  lemma NegativeBaseDiffers()
    ensures Expected(-1, 1, 3) == 0
    ensures Pow(-1, 1) % 3 == 2
  {
  }

  /**
   * pow_by_mod with the base first reduced into [0, mod), as
   * `((p % (long long)mod) + mod) % mod` would: p^n mod mod for every
   * `long long` base, negative ones included.
   */
  method PowByModReduced(p: int, n: nat, mod: nat) returns (r: int)
    requires InLL(p) && n < ULLRange && 1 <= mod < ULLRange
    requires (mod - 1) * (mod - 1) <= LLMax
    ensures 0 <= r < mod
    ensures r == Pow(p, n) % mod
  {
    var b := p % mod;
    MulMono(b, b, mod - 1);
    ghost var rounds;
    r, rounds := PowByMod(b, n, mod);
    PowMod(p, n, mod);
  }
}
