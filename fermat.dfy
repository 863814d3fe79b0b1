/**
 * Number theory behind the RSA cross-check and the Miller-Rabin test:
 * Euclid's lemma, Fermat's little theorem (proved through the binomial
 * theorem), square roots of 1 modulo a prime, and uniqueness of the
 * Chinese-remainder representative.
 */
module Fermat {
  import opened Arith

  // ---------------------------------------------------------------------
  // Primes and coprimality

  /** A residue that is not a multiple of the prime `p` is coprime to it. */
  lemma PrimeCoprime(p: int, a: nat)
    requires IsPrime(p) && a % p != 0
    ensures Gcd(a, p) == 1
  {
    var g := Gcd(a, p);
    assert Divides(g, a) && Divides(g, p);
    if g > p {
      ModUnique(p, g, 0, p);
    }
    assert !(2 <= g < p);
  }

  /** Euclid's lemma: `m` coprime to `a` and dividing `a*x` divides `x`. */
  lemma CoprimeDivides(m: pos, a: nat, x: int)
    requires Gcd(a, m) == 1 && (a * x) % m == 0
    ensures x % m == 0
  {
    var r := ExtGcd(a, m);
    assert a * r.1 + m * r.2 == 1;
    MulModZero(m, 1);
    assert x == (a * x) * r.1 + m * (x * r.2);
    DividesLinear(m, a * x, m, r.1, x * r.2);
  }

  /** A prime dividing a product divides one of the factors. */
  lemma PrimeDividesProduct(p: int, a: int, b: int)
    requires IsPrime(p) && (a * b) % p == 0
    ensures a % p == 0 || b % p == 0
  {
    if a % p != 0 {
      PrimeCoprime(p, a % p);
      MulModLeft(a, b, p);
      CoprimeDivides(p, a % p, b);
    }
  }

  /** Two distinct primes are coprime. */
  lemma DistinctPrimesCoprime(p: int, q: int)
    requires IsPrime(p) && IsPrime(q) && p != q
    ensures Gcd(p, q) == 1
  {
    if q > p {
      ModUnique(p, q, 0, p);
    } else {
      assert !Divides(q, p);
    }
    PrimeCoprime(q, p);
  }

  // ---------------------------------------------------------------------
  // Binomial coefficients

  /** Pascal's triangle. */
  function Binom(n: nat, k: nat): nat
  {
    if k == 0 then 1
    else if n == 0 then 0
    else Binom(n - 1, k - 1) + Binom(n - 1, k)
  }

  lemma {:induction false} BinomAbove(n: nat, k: nat)
    requires k > n
    ensures Binom(n, k) == 0
  {
    if n > 0 {
      BinomAbove(n - 1, k - 1);
      BinomAbove(n - 1, k);
    }
  }

  lemma {:induction false} BinomDiagonal(n: nat)
    ensures Binom(n, n) == 1
  {
    if n > 0 {
      BinomDiagonal(n - 1);
      BinomAbove(n - 1, n);
    }
  }

  /** The absorption identity `k * C(n, k) == n * C(n-1, k-1)`. */
  lemma {:induction false} Absorption(n: nat, k: nat)
    requires 1 <= k && 1 <= n
    ensures k * Binom(n, k) == n * Binom(n - 1, k - 1)
  {
    if n == 1 {
      if k > 1 {
        BinomAbove(1, k);
        BinomAbove(0, k - 1);
      }
    } else if k == 1 {
      Absorption(n - 1, 1);
      assert Binom(n, 1) == 1 + Binom(n - 1, 1);
    } else {
      Absorption(n - 1, k);
      Absorption(n - 1, k - 1);
      AbsorptionStep(n, k, Binom(n - 1, k - 1), Binom(n - 1, k), Binom(n - 2, k - 2), Binom(n - 2, k - 1));
    }
  }

  /** The algebra of one induction step of `Absorption`. */
  lemma AbsorptionStep(n: int, k: int, a: int, b: int, c: int, d: int)
    requires a == c + d && k * b == (n - 1) * d && (k - 1) * a == (n - 1) * c
    ensures k * (a + b) == n * a
  {
    assert k * (a + b) == (k - 1) * a + a + k * b;
    assert (n - 1) * c + (n - 1) * d == (n - 1) * a;
  }

  /** A prime `p` divides `C(p, k)` for `0 < k < p`. */
  lemma PrimeDividesBinom(p: int, k: nat)
    requires IsPrime(p) && 0 < k < p
    ensures Binom(p, k) % p == 0
  {
    Absorption(p, k);
    MulModZero(p, Binom(p - 1, k - 1));
    ModUnique(k, p, 0, k);
    PrimeCoprime(p, k);
    CoprimeDivides(p, k, Binom(p, k));
  }

  // ---------------------------------------------------------------------
  // The binomial theorem for (a + 1)^n

  /** The partial sum `C(n,0)*a^0 + ... + C(n,j-1)*a^(j-1)`. */
  function BinomSum(n: nat, a: int, j: nat): int
  {
    if j == 0 then 0 else BinomSum(n, a, j - 1) + Binom(n, j - 1) * Pow(a, j - 1)
  }

  lemma {:induction false} PascalSum(n: nat, a: int, j: nat)
    ensures BinomSum(n + 1, a, j + 1) == a * BinomSum(n, a, j) + BinomSum(n, a, j + 1)
  {
    if j > 0 {
      PascalSum(n, a, j - 1);
      PascalStep(a, BinomSum(n, a, j - 1), BinomSum(n, a, j), Binom(n, j - 1), Binom(n, j),
                 Pow(a, j - 1), Pow(a, j), BinomSum(n + 1, a, j));
    }
  }

  /** The algebra of one induction step of `PascalSum`. */
  lemma PascalStep(a: int, s0: int, s1: int, c0: int, c1: int, p0: int, pj: int, t: int)
    requires t == a * s0 + s1 && s1 == s0 + c0 * p0 && pj == a * p0
    ensures t + (c0 + c1) * pj == a * s1 + (s1 + c1 * pj)
  {
    assert (c0 + c1) * pj == c0 * pj + c1 * pj;
    assert a * s1 == a * s0 + a * (c0 * p0);
    assert c0 * pj == c0 * (a * p0);
    assert c0 * (a * p0) == a * (c0 * p0);
  }

  /** `(a + 1)^n == C(n,0) + C(n,1)*a + ... + C(n,n)*a^n`. */
  lemma {:induction false} BinomialTheorem(n: nat, a: int)
    ensures Pow(a + 1, n) == BinomSum(n, a, n + 1)
  {
    if n > 0 {
      BinomialTheorem(n - 1, a);
      PascalSum(n - 1, a, n);
      BinomAbove(n - 1, n);
      var s := BinomSum(n - 1, a, n);
      assert BinomSum(n - 1, a, n + 1) == s + Binom(n - 1, n) * Pow(a, n);
      assert Pow(a + 1, n) == (a + 1) * s;
      Distribute(a, s);
    }
  }

  lemma Distribute(a: int, s: int)
    ensures (a + 1) * s == a * s + s
  {
  }

  /** Every middle coefficient of the expansion of `(a + 1)^p` is a multiple of `p`. */
  lemma {:induction false} MiddleTermsVanish(p: int, a: int, j: nat)
    requires IsPrime(p) && 1 <= j <= p
    ensures (BinomSum(p, a, j) - 1) % p == 0
  {
    if j == 1 {
      MulModZero(p, 0);
    } else {
      var x, y, z := BinomSum(p, a, j - 1) - 1, Binom(p, j - 1), Pow(a, j - 1);
      MiddleTermsVanish(p, a, j - 1);
      PrimeDividesBinom(p, j - 1);
      assert BinomSum(p, a, j) - 1 == x + y * z;
      SumOfMultiples(x, y, z, p);
    }
  }

  lemma SumOfMultiples(x: int, y: int, z: int, p: pos)
    requires x % p == 0 && y % p == 0
    ensures (x + y * z) % p == 0
  {
    var u := y * z;
    MulModLeft(y, z, p);
    assert (y % p) * z == 0;
    assert u % p == 0;
    AddMod(x, u, p);
  }

  /** `(a + 1)^p == a^p + 1 (mod p)` for a prime `p`. */
  lemma FreshmansDream(p: int, a: int)
    requires IsPrime(p)
    ensures Pow(a + 1, p) % p == (Pow(a, p) + 1) % p
  {
    BinomialTheorem(p, a);
    MiddleTermsVanish(p, a, p);
    BinomDiagonal(p);
    var w := (BinomSum(p, a, p) - 1) / p;
    assert BinomSum(p, a, p) - 1 == p * w;
    assert Pow(a + 1, p) == (Pow(a, p) + 1) + p * w;
    AddMulMod(Pow(a, p) + 1, p, w);
  }

  // ---------------------------------------------------------------------
  // Fermat's little theorem

  lemma {:induction false} FermatNat(p: int, a: nat)
    requires IsPrime(p)
    ensures Pow(a, p) % p == a % p
  {
    if a == 0 {
      PowZero(p);
    } else {
      FermatNat(p, a - 1);
      FreshmansDream(p, a - 1);
      AddMod(Pow(a - 1, p), 1, p);
      AddMod(a - 1, 1, p);
    }
  }

  /** Fermat's little theorem: `c^p == c (mod p)` for every integer `c`. */
  lemma Fermat(p: int, c: int)
    requires IsPrime(p)
    ensures Pow(c, p) % p == c % p
  {
    PowMod(c, p, p);
    FermatNat(p, c % p);
    ModMod(c, p);
  }

  /** `c^(p-1) == 1 (mod p)` when the prime `p` does not divide `c`. */
  lemma FermatUnit(p: int, c: int)
    requires IsPrime(p) && c % p != 0
    ensures Pow(c, p - 1) % p == 1
  {
    var x := Pow(c, p - 1);
    Fermat(p, c);
    assert Pow(c, p) == c * x;
    CancelUnit(p, c, x);
  }

  /** From `c * x == c (mod p)` with `p` prime and `p` not dividing `c`, `x == 1 (mod p)`. */
  lemma CancelUnit(p: int, c: int, x: int)
    requires IsPrime(p) && c % p != 0 && (c * x) % p == c % p
    ensures x % p == 1
  {
    assert c * (x - 1) == c * x - c;
    SameModIffDivides(c * x, c, p);
    PrimeDividesProduct(p, c, x - 1);
    SameModIffDivides(x, 1, p);
    ModUnique(1, p, 0, 1);
  }

  /** `c^(1 + t*(p-1)) == c (mod p)` for a prime `p`, whether or not `p` divides `c`. */
  lemma {:induction false} FermatPower(p: int, c: int, t: nat)
    requires IsPrime(p)
    ensures Pow(c, 1 + t * (p - 1)) % p == c % p
  {
    if t == 0 {
    } else {
      FermatPower(p, c, t - 1);
      var e := 1 + (t - 1) * (p - 1);
      assert 1 + t * (p - 1) == e + (p - 1);
      PowAdd(c, e, p - 1);
      MulModLeft(Pow(c, e), Pow(c, p - 1), p);
      MulModLeft(c, Pow(c, p - 1), p);
      Fermat(p, c);
    }
  }

  /**
   * Exponents may be reduced modulo `p - 1`, provided the reduced exponent is
   * not 0 (for `p | c` the power `c^0 == 1` would differ from `c^d == 0`).
   */
  lemma ReduceExponent(p: int, c: int, d: nat)
    requires IsPrime(p) && d % (p - 1) != 0
    ensures Pow(c, d) % p == Pow(c, d % (p - 1)) % p
  {
    var t, r := d / (p - 1), d % (p - 1);
    assert d == (r - 1) + (1 + t * (p - 1));
    PowAdd(c, r - 1, 1 + t * (p - 1));
    FermatPower(p, c, t);
    MulMod(Pow(c, r - 1), Pow(c, 1 + t * (p - 1)), p);
    MulMod(Pow(c, r - 1), c, p);
    assert Pow(c, r) == Pow(c, r - 1) * c by {
      PowAdd(c, r - 1, 1);
    }
  }

  // ---------------------------------------------------------------------
  // Square roots of one, and the Chinese remainder theorem

  /** Modulo a prime, the only square roots of 1 are 1 and -1. */
  lemma SquareRootOfOne(p: int, x: int)
    requires IsPrime(p) && (x * x) % p == 1
    ensures x % p == 1 || x % p == p - 1
  {
    assert (x - 1) * (x + 1) == x * x - 1;
    SameModIffDivides(x * x, 1, p);
    ModUnique(1, p, 0, 1);
    PrimeDividesProduct(p, x - 1, x + 1);
    SameModIffDivides(x, 1, p);
    if (x + 1) % p == 0 {
      AddMulMod(x + 1, p, 0 - 1);
      assert x - (p - 1) == (x + 1) + p * (0 - 1);
      SameModIffDivides(x, p - 1, p);
      ModUnique(p - 1, p, 0, p - 1);
    }
  }

  /**
   * Two residues below `p*q` that agree modulo the coprime `p` and `q` are
   * equal.
   */
  lemma CrtUnique(p: pos, q: pos, x: int, y: int)
    requires Gcd(p, q) == 1
    requires 0 <= x < p * q && 0 <= y < p * q
    requires x % p == y % p && x % q == y % q
    ensures x == y
  {
    SameModIffDivides(x, y, p);
    SameModIffDivides(x, y, q);
    var u := (x - y) / p;
    assert x - y == p * u;
    CoprimeDivides(q, p, u);
    ProductMultiple(p, q, u, x - y);
  }

  /** `p * u` with `q | u` and `|p * u| < p * q` is 0. */
  lemma ProductMultiple(p: pos, q: pos, u: int, z: int)
    requires z == p * u && u % q == 0 && 0 - p * q < z < p * q
    ensures z == 0
  {
    var v := u / q;
    assert u == q * v;
    assert z == (p * q) * v;
    MulSmallIsZero(p * q, v);
  }

  /** Reducing modulo `p*q` first does not change the residue modulo `p`. */
  lemma ModOfProduct(z: int, p: pos, q: pos)
    ensures (z % (p * q)) % p == z % p
  {
    var k := z / (p * q);
    assert z % (p * q) == z - p * (q * k);
    AddMulMod(z % (p * q), p, q * k);
  }

  /** Coprimality does not depend on the order of the arguments. */
  lemma CoprimeSymmetric(a: nat, b: nat)
    requires Gcd(a, b) == 1
    ensures Gcd(b, a) == 1
  {
    var g := Gcd(b, a);
    assert Divides(g, 1);
  }

  // ---------------------------------------------------------------------
  // Trial division

  /** No odd `d` in `lo, lo + 2, ..., <= hi` divides `n`. */
  predicate NoOddDivisorFrom(n: int, lo: int, hi: int)
    decreases hi - lo
  {
    lo > hi || (lo > 0 && n % lo != 0 && NoOddDivisorFrom(n, lo + 2, hi))
  }

  lemma {:induction false} NoOddDivisorAt(n: int, lo: int, hi: int, d: int)
    requires NoOddDivisorFrom(n, lo, hi) && lo <= d <= hi && (d - lo) % 2 == 0
    ensures n % d != 0
    decreases d - lo
  {
    if d > lo {
      NoOddDivisorAt(n, lo + 2, hi, d);
    }
  }

  /** Two adjacent ranges of trial divisors join into one. */
  lemma {:induction false} NoOddDivisorJoin(n: int, lo: int, mid: int, hi: int)
    requires lo <= mid + 2 && (mid + 2 - lo) % 2 == 0
    requires NoOddDivisorFrom(n, lo, mid) && NoOddDivisorFrom(n, mid + 2, hi)
    ensures NoOddDivisorFrom(n, lo, hi)
    decreases mid + 2 - lo
  {
    if lo < mid + 2 {
      NoOddDivisorJoin(n, lo + 2, mid, hi);
    }
  }

  /** An odd `n` below `(s + 1)^2` with no odd divisor in `[3, s]` is prime. */
  lemma TrialDivision(n: int, s: int)
    requires n >= 3 && n % 2 == 1 && s >= 0 && n < (s + 1) * (s + 1)
    requires NoOddDivisorFrom(n, 3, s)
    ensures IsPrime(n)
  {
    forall e | 3 <= e <= s && e % 2 == 1
      ensures n % e != 0
    {
      NoOddDivisorAt(n, 3, s, e);
    }
    forall d | 2 <= d < n
      ensures !Divides(d, n)
    {
      if n % d == 0 {
        var k := n / d;
        assert n == d * k;
        SmallOddFactor(n, d, k, s);
      }
    }
  }

  /** A factorisation `n == d * k` of an odd `n < (s + 1)^2` has an odd factor in `[3, s]`. */
  lemma SmallOddFactor(n: int, d: int, k: int, s: int)
    requires n % 2 == 1 && 2 <= d < n && s >= 0 && n < (s + 1) * (s + 1) && n == d * k
    ensures exists e :: 3 <= e <= s && e % 2 == 1 && n % e == 0
  {
    assert n == k * d;
    assert d * (k - 1) == n - d;
    SignOfProduct(d, k - 1);
    MulMod(d, k, 2);
    MulMod(k, d, 2);
    FactorBelowRoot(n, d, k, s);
    ModUnique(n, d, k, 0);
    ModUnique(n, k, d, 0);
    if d <= s {
      assert 3 <= d <= s && d % 2 == 1 && n % d == 0;
    } else {
      assert 3 <= k <= s && k % 2 == 1 && n % k == 0;
    }
  }

  /** Of two non-negative factors of `n < (s + 1)^2`, one is at most `s`. */
  lemma FactorBelowRoot(n: int, d: int, k: int, s: int)
    requires n == d * k && d >= 0 && k >= 0 && s >= 0 && n < (s + 1) * (s + 1)
    ensures d <= s || k <= s
  {
    if d > s {
      var t := s + 1;
      var a := d - t;
      assert a * k >= 0;
      assert n == t * k + a * k;
      assert t * (t - k) == t * t - t * k;
      SignOfProduct(t, t - k);
    }
  }
}
