/**
 * Integer arithmetic shared by all four scripts: Python's `pow(b, e, m)`,
 * `pow(x, -1, m)` and `math.gcd`, stated over Dafny's unbounded integers.
 *
 * For a positive modulus Dafny's Euclidean `%` agrees with Python's floored
 * `%`: both give a remainder in [0, m). Every modulus here is positive.
 */
module Arith {
  import opened Wrappers

  /** A positive integer, the type of every modulus. */
  type pos = x: int | x > 0 witness 1

  /** `b` raised to the power `e`, Python's `b ** e` for `e >= 0`. */
  function Pow(b: int, e: nat): int
  {
    if e == 0 then 1 else b * Pow(b, e - 1)
  }

  /** Python's three-argument `pow(b, e, m)` for `e >= 0` and `m > 0`. */
  function ModPow(b: int, e: nat, m: pos): (r: nat)
    ensures r < m
  {
    Pow(b, e) % m
  }

  /** `d` is a positive divisor of `n`. */
  predicate Divides(d: int, n: int)
  {
    d > 0 && n % d == 0
  }

  /** `y` is an inverse of `x` modulo `m` (for `m == 1` every `y` is one). */
  predicate IsInverse(x: int, y: int, m: pos)
  {
    (x * y) % m == 1 % m
  }

  /** `n` is prime: at least 2 and without a divisor strictly between 1 and `n`. */
  predicate IsPrime(n: int)
  {
    n >= 2 && forall d :: 2 <= d < n ==> !Divides(d, n)
  }

  // ---------------------------------------------------------------------
  // Euclidean division and remainder

  lemma MulBounds(m: pos, t: int)
    ensures t >= 1 ==> m * t >= m
    ensures t <= -1 ==> m * t <= 0 - m
  {
    if t >= 1 {
      assert m * t == m * (t - 1) + m;
      assert m * (t - 1) >= 0;
    } else if t <= -1 {
      assert m * t == m * (t + 1) - m;
      assert m * (t + 1) <= 0;
    }
  }

  lemma SignOfProduct(m: pos, t: int)
    ensures m * t > 0 <==> t > 0
  {
    MulBounds(m, t);
  }

  /** The only multiple of `m` strictly between `-m` and `m` is 0. */
  lemma MulSmallIsZero(m: pos, t: int)
    requires 0 - m < m * t < m
    ensures t == 0
  {
    MulBounds(m, t);
  }

  /** Quotient and remainder are determined by `x == m * k + r`, `0 <= r < m`. */
  lemma ModUnique(x: int, m: pos, k: int, r: int)
    requires x == m * k + r && 0 <= r < m
    ensures x % m == r && x / m == k
  {
    var q, s := x / m, x % m;
    assert x == m * q + s;
    assert m * (k - q) == s - r;
    MulSmallIsZero(m, k - q);
  }

  lemma MulModZero(m: pos, k: int)
    ensures (m * k) % m == 0
  {
    ModUnique(m * k, m, k, 0);
  }

  lemma AddMulMod(x: int, m: pos, k: int)
    ensures (x + m * k) % m == x % m
  {
    var q, s := x / m, x % m;
    assert x + m * k == m * (q + k) + s;
    ModUnique(x + m * k, m, q + k, s);
  }

  lemma ModMod(x: int, m: pos)
    ensures (x % m) % m == x % m
  {
    ModUnique(x % m, m, 0, x % m);
  }

  /** Two integers with the same remainder differ by a multiple of `m`, and conversely. */
  lemma SameModIffDivides(x: int, y: int, m: pos)
    ensures x % m == y % m <==> (x - y) % m == 0
  {
    var qx, rx := x / m, x % m;
    var qy, ry := y / m, y % m;
    assert x - y == m * (qx - qy) + (rx - ry);
    if rx >= ry {
      ModUnique(x - y, m, qx - qy, rx - ry);
    } else {
      assert x - y == m * (qx - qy - 1) + (m + rx - ry);
      ModUnique(x - y, m, qx - qy - 1, m + rx - ry);
    }
  }

  lemma AddMod(a: int, b: int, m: pos)
    ensures (a + b) % m == ((a % m) + (b % m)) % m
  {
    var qa, qb := a / m, b / m;
    assert a + b == (a % m) + (b % m) + m * (qa + qb);
    AddMulMod((a % m) + (b % m), m, qa + qb);
  }

  lemma SubMod(a: int, b: int, m: pos)
    ensures (a - b) % m == ((a % m) - (b % m)) % m
  {
    var qa, qb := a / m, b / m;
    assert a - b == (a % m) - (b % m) + m * (qa - qb);
    AddMulMod((a % m) - (b % m), m, qa - qb);
  }

  lemma MulModLeft(a: int, b: int, m: pos)
    ensures (a * b) % m == ((a % m) * b) % m
  {
    var qa := a / m;
    assert a == m * qa + a % m;
    assert a * b == (a % m) * b + m * (qa * b);
    AddMulMod((a % m) * b, m, qa * b);
  }

  lemma MulMod(a: int, b: int, m: pos)
    ensures (a * b) % m == ((a % m) * (b % m)) % m
  {
    MulModLeft(a, b, m);
    MulModLeft(b, a % m, m);
    assert (a % m) * b == b * (a % m);
    assert (b % m) * (a % m) == (a % m) * (b % m);
  }

  /** A positive common divisor of `x` and `y` divides every combination of them. */
  lemma DividesLinear(d: pos, x: int, y: int, s: int, t: int)
    requires x % d == 0 && y % d == 0
    ensures (x * s + y * t) % d == 0
  {
    var i, j := x / d, y / d;
    assert x == d * i;
    assert y == d * j;
    assert x * s + y * t == d * (i * s + j * t);
    MulModZero(d, i * s + j * t);
  }

  // ---------------------------------------------------------------------
  // Exponent laws

  lemma {:induction false} PowAdd(b: int, e1: nat, e2: nat)
    ensures Pow(b, e1 + e2) == Pow(b, e1) * Pow(b, e2)
  {
    if e1 > 0 {
      PowAdd(b, e1 - 1, e2);
      assert Pow(b, e1 + e2) == b * Pow(b, e1 - 1 + e2);
    }
  }

  lemma {:induction false} PowMul(b: int, e1: nat, e2: nat)
    ensures Pow(b, e1 * e2) == Pow(Pow(b, e1), e2)
  {
    if e2 > 0 {
      PowMul(b, e1, e2 - 1);
      assert e1 * e2 == e1 * (e2 - 1) + e1;
      PowAdd(b, e1 * (e2 - 1), e1);
    }
  }

  lemma {:induction false} PowMod(b: int, e: nat, m: pos)
    ensures Pow(b, e) % m == Pow(b % m, e) % m
  {
    if e > 0 {
      PowMod(b, e - 1, m);
      calc {
        Pow(b, e) % m;
        (b * Pow(b, e - 1)) % m;
        { MulMod(b, Pow(b, e - 1), m); }
        ((b % m) * (Pow(b, e - 1) % m)) % m;
        { ModMod(b, m); }
        (((b % m) % m) * (Pow(b % m, e - 1) % m)) % m;
        { MulMod(b % m, Pow(b % m, e - 1), m); }
        Pow(b % m, e) % m;
      }
    }
  }

  lemma {:induction false} PowZero(e: nat)
    requires e > 0
    ensures Pow(0, e) == 0
  {
  }

  lemma {:induction false} PowPositive(b: pos, e: nat)
    ensures Pow(b, e) > 0
  {
    if e > 0 {
      PowPositive(b, e - 1);
    }
  }

  /** Reducing between two exponentiations does not change the result. */
  lemma ModPowModPow(b: int, e: nat, f: nat, m: pos)
    ensures ModPow(ModPow(b, e, m), f, m) == ModPow(b, e * f, m)
  {
    PowMod(Pow(b, e), f, m);
    PowMul(b, e, f);
  }

  /** `(b^e mod m)^f == (b^f mod m)^e (mod m)`: the exponents commute. */
  lemma ModPowCommute(b: int, e: nat, f: nat, m: pos)
    ensures ModPow(ModPow(b, e, m), f, m) == ModPow(ModPow(b, f, m), e, m)
  {
    ModPowModPow(b, e, f, m);
    ModPowModPow(b, f, e, m);
    assert e * f == f * e;
  }

  // ---------------------------------------------------------------------
  // Greatest common divisor, extended Euclid and the modular inverse

  /**
   * Extended Euclid: `(g, s, t)` with Bezout's identity `g == a*s + b*t`,
   * `g` dividing both `a` and `b`, and `g == 0` only for `a == b == 0`.
   */
  function ExtGcd(a: nat, b: nat): (r: (nat, int, int))
    decreases b
    ensures r.0 == a * r.1 + b * r.2
    ensures r.0 == 0 <==> a == 0 && b == 0
    ensures r.0 > 0 ==> a % r.0 == 0 && b % r.0 == 0
  {
    if b == 0 then
      (a, 1, 0)
    else
      var r' := ExtGcd(b, a % b);
      EuclidStep(a, b, r'.0, r'.1, r'.2);
      (r'.0, r'.2, r'.1 - (a / b) * r'.2)
  }

  /** One step of extended Euclid: Bezout and divisibility carry over from `(b, a % b)` to `(a, b)`. */
  lemma EuclidStep(a: nat, b: pos, g: nat, s: int, t: int)
    requires g == b * s + (a % b) * t
    requires g > 0 ==> b % g == 0 && (a % b) % g == 0
    ensures g == a * t + b * (s - (a / b) * t)
    ensures g > 0 ==> a % g == 0
  {
    var k := a / b;
    assert a == b * k + a % b;
    assert (a % b) * t == a * t - (b * k) * t;
    assert (b * k) * t == b * (k * t);
    if g > 0 {
      DividesLinear(g, b, a % b, k, 1);
    }
  }

  /** Python's `math.gcd` on non-negative arguments. */
  function Gcd(a: nat, b: nat): (g: nat)
    ensures a == 0 && b == 0 ==> g == 0
    ensures !(a == 0 && b == 0) ==> Divides(g, a) && Divides(g, b)
    ensures forall d :: Divides(d, a) && Divides(d, b) ==> Divides(d, g)
  {
    var r := ExtGcd(a, b);
    forall d | Divides(d, a) && Divides(d, b)
      ensures Divides(d, r.0)
    {
      DividesLinear(d, a, b, r.1, r.2);
    }
    r.0
  }

  /** Zero is not a unit modulo any `p > 1`. */
  lemma ZeroNotUnit(p: pos)
    requires p > 1
    ensures Gcd(0, p) != 1
  {
    MulModZero(p, 1);
    ModUnique(1, p, 0, 1);
    assert Divides(p, 0) && Divides(p, p);
  }

  /**
   * Python's `pow(x, -1, m)`: the inverse of `x` modulo `m` in [0, m), or
   * `None` where Python raises `ValueError` because `x` has no inverse.
   */
  function ModInverse(x: int, m: pos): (r: Option<nat>)
    ensures r.Some? ==> r.value < m && IsInverse(x, r.value, m)
    ensures r.None? ==> forall y :: !IsInverse(x, y, m)
    ensures r.Some? <==> Gcd(x % m, m) == 1
  {
    var e := ExtGcd(x % m, m);
    if e.0 == 1 then
      InverseFromBezout(x, m, e.1, e.2);
      Some(e.1 % m)
    else
      forall y ensures !IsInverse(x, y, m) {
        NoInverseWithoutCoprime(x, y, m, e.0);
      }
      None
  }

  lemma InverseFromBezout(x: int, m: pos, s: int, t: int)
    requires (x % m) * s + m * t == 1
    ensures IsInverse(x, s % m, m)
  {
    calc {
      (x * (s % m)) % m;
      { MulMod(x, s % m, m); ModMod(s, m); MulMod(x, s, m); }
      (x * s) % m;
      { MulModLeft(x, s, m); }
      ((x % m) * s) % m;
      { AddMulMod((x % m) * s, m, t); }
      ((x % m) * s + m * t) % m;
      1 % m;
    }
  }

  lemma NoInverseWithoutCoprime(x: int, y: int, m: pos, g: pos)
    requires (x % m) % g == 0 && m % g == 0 && g != 1
    ensures !IsInverse(x, y, m)
  {
    if IsInverse(x, y, m) {
      // g divides x, hence x*y, hence the remainder of x*y modulo m
      assert x == (x % m) * 1 + m * (x / m);
      DividesLinear(g, x % m, m, 1, x / m);
      DividesLinear(g, x, m, y, 0 - (x * y) / m);
      assert (x * y) % m == x * y + m * (0 - (x * y) / m);
      // ... which is 1 % m; with g dividing m this forces g | 1
      if m == 1 {
        ModUnique(1, g, 0, 1);
      } else {
        ModUnique(1, m, 0, 1);
        ModUnique(1, g, 0, 1);
      }
    }
  }

  /** Inverses multiply: a product of invertible residues is invertible. */
  lemma InverseOfProduct(x: int, r: int, y: int, s: int, m: pos)
    requires IsInverse(x, r, m) && IsInverse(y, s, m)
    ensures IsInverse(x * y, r * s, m)
  {
    calc {
      ((x * y) * (r * s)) % m;
      { assert (x * y) * (r * s) == (x * r) * (y * s); }
      ((x * r) * (y * s)) % m;
      { MulMod(x * r, y * s, m); }
      ((1 % m) * (1 % m)) % m;
      { MulMod(1, 1, m); }
      1 % m;
    }
  }

  /** A power of an invertible residue is invertible. */
  lemma {:induction false} InverseOfPow(x: int, r: int, e: nat, m: pos)
    requires IsInverse(x, r, m)
    ensures IsInverse(Pow(x, e), Pow(r, e), m)
  {
    if e == 0 {
      assert Pow(x, 0) * Pow(r, 0) == 1;
    } else {
      InverseOfPow(x, r, e - 1, m);
      InverseOfProduct(x, r, Pow(x, e - 1), Pow(r, e - 1), m);
    }
  }

  /** Invertibility depends only on the residue. */
  lemma InverseOfResidue(x: int, r: int, m: pos)
    requires IsInverse(x, r, m)
    ensures IsInverse(x % m, r, m)
  {
    MulModLeft(x, r, m);
  }

  /** Multiplying by `x` and then by its inverse gives back the residue. */
  lemma CancelInverse(x: int, r: int, v: int, m: pos)
    requires IsInverse(x, r, m)
    ensures ((x * v) * r) % m == v % m
  {
    calc {
      ((x * v) * r) % m;
      { assert (x * v) * r == (x * r) * v; }
      ((x * r) * v) % m;
      { MulModLeft(x * r, v, m); }
      ((1 % m) * v) % m;
      { MulModLeft(1, v, m); }
      v % m;
    }
  }

  /** Anything with an inverse modulo `m` is coprime to `m`. */
  lemma UnitOfInverse(x: int, y: int, m: pos)
    requires IsInverse(x, y, m)
    ensures Gcd(x % m, m) == 1
  {
    var r := ModInverse(x, m);
    assert r.Some?;
  }

  /** A unit cancels: `r * k == m * k (mod q)` with `r`, `m` in `[0, q)` gives `r == m`. */
  lemma UnitCancel(k: int, r: int, m: int, q: pos)
    requires Gcd(k % q, q) == 1 && 0 <= r < q && 0 <= m < q
    requires (r * k) % q == (m * k) % q
    ensures r == m
  {
    var kInv := ModInverse(k, q).value;
    assert r * k == k * r && m * k == k * m;
    CancelInverse(k, kInv, r, q);
    CancelInverse(k, kInv, m, q);
    MulModLeft(k * r, kInv, q);
    MulModLeft(k * m, kInv, q);
    ModUnique(r, q, 0, r);
    ModUnique(m, q, 0, m);
  }
}
