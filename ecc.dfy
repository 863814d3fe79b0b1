/**
 * Elliptic-curve arithmetic of ecc.py over a prime field `F_p`: the
 * on-curve test, affine point addition and doubling (Stallings' chord and
 * tangent rules), and double-and-add scalar multiplication.
 *
 * The point at infinity, which the script encodes as `(math.inf, math.inf)`,
 * is its own constructor. Doubling reads the module-level `a` of the script
 * rather than the curve's coefficient, so it is a separate parameter
 * `globalA` of every operation that can double.
 */
module Ecc {
  import opened Wrappers
  import opened Arith

  /** The curve `y^2 = x^3 + a*x + b` over `F_p`. */
  datatype Curve = Curve(p: pos, a: int, b: int)

  datatype Point = Infinity | Affine(x: int, y: int)

  datatype EccError =
    | AssertionFailed  // an `assert` of the script fails
    | NotInvertible    // `pow(x, -1, p)` raises ValueError

  /**
   * `is_point_on_curve`: `pow(y, 2, p) == (pow(x, 3, p) + a*x + b) % p`,
   * which holds exactly when `y^2 == x^3 + a*x + b (mod p)`. The point at
   * infinity fails the script's `isinstance(..., int)` assertion.
   */
  function IsOnCurve(c: Curve, pt: Point): (r: Result<bool, EccError>)
    ensures pt.Infinity? <==> r == Failure(AssertionFailed)
    ensures pt.Affine? ==>
              r.Success? &&
              (r.value <==> (pt.y * pt.y - (pt.x * pt.x * pt.x + c.a * pt.x + c.b)) % c.p == 0)
  {
    match pt
    case Infinity => Failure(AssertionFailed)
    case Affine(x, y) =>
      CurveCongruence(c, x, y);
      Success(ModPow(y, 2, c.p) == (ModPow(x, 3, c.p) + c.a * x + c.b) % c.p)
  }

  lemma CurveCongruence(c: Curve, x: int, y: int)
    ensures ModPow(y, 2, c.p) == (ModPow(x, 3, c.p) + c.a * x + c.b) % c.p <==>
            (y * y - (x * x * x + c.a * x + c.b)) % c.p == 0
  {
    SquareAndCube(x);
    SquareAndCube(y);
    var cube, linear := x * x * x, c.a * x + c.b;
    assert ModPow(x, 3, c.p) + c.a * x + c.b == cube % c.p + linear;
    assert x * x * x + c.a * x + c.b == cube + linear;
    ReducedSum(y * y, cube, linear, c.p);
  }

  lemma SquareAndCube(x: int)
    ensures Pow(x, 2) == x * x && Pow(x, 3) == x * x * x
  {
    assert Pow(x, 1) == x;
  }

  /** `u == v % p + w (mod p)` exactly when `p` divides `u - (v + w)`. */
  lemma ReducedSum(u: int, v: int, w: int, p: pos)
    ensures u % p == (v % p + w) % p <==> (u - (v + w)) % p == 0
  {
    AddMod(v, w, p);
    AddMod(v % p, w, p);
    ModMod(v, p);
    SameModIffDivides(u, v + w, p);
  }

  // ---------------------------------------------------------------------
  // Addition

  /** `m` is the slope of the chord through distinct `P`, `Q`: `m * (xq - xp) == yq - yp (mod p)`. */
  predicate IsChordSlope(c: Curve, xp: int, yp: int, xq: int, yq: int, m: int)
  {
    (m * (xq - xp)) % c.p == (yq - yp) % c.p
  }

  /** `m` is the slope of the tangent at `P`: `m * 2yp == 3xp^2 + a (mod p)`. */
  predicate IsTangentSlope(c: Curve, globalA: int, xp: int, yp: int, m: int)
  {
    (m * (2 * yp)) % c.p == (3 * (xp * xp) + globalA) % c.p
  }

  /**
   * `R` is the reflection of the third point where the line of slope `m`
   * through `P` and `Q` meets the curve: `xr == m^2 - xp - xq` and
   * `yr == m*(xp - xr) - yp` modulo `p`, both reduced.
   */
  predicate IsThirdPoint(c: Curve, xp: int, yp: int, xq: int, m: int, r: Point)
  {
    r.Affine? && 0 <= r.x < c.p && 0 <= r.y < c.p &&
    (r.x + xp + xq) % c.p == (m * m) % c.p &&
    (r.y + yp) % c.p == (m * (xp - r.x)) % c.p
  }

  /** `pow(xq - xp, -1, p)` times `yq - yp`, reduced: the chord slope, if `xq - xp` is a unit. */
  function ChordSlope(c: Curve, xp: int, yp: int, xq: int, yq: int): (r: Option<nat>)
    ensures r.Some? <==> Gcd((xq - xp) % c.p, c.p) == 1
    ensures r.Some? ==> r.value < c.p && IsChordSlope(c, xp, yp, xq, yq, r.value)
  {
    match ModInverse(xq - xp, c.p)
    case None => None
    case Some(inv) =>
      SlopeFromInverse(xq - xp, inv, yq - yp, c.p);
      Some(((yq - yp) * inv) % c.p)
  }

  /** `(3xp^2 + a) * pow(2yp, -1, p)`, reduced: the tangent slope, if `2yp` is a unit. */
  function TangentSlope(c: Curve, globalA: int, xp: int, yp: int): (r: Option<nat>)
    ensures r.Some? <==> Gcd((2 * yp) % c.p, c.p) == 1
    ensures r.Some? ==> r.value < c.p && IsTangentSlope(c, globalA, xp, yp, r.value)
  {
    match ModInverse(2 * yp, c.p)
    case None => None
    case Some(inv) =>
      SlopeFromInverse(2 * yp, inv, 3 * (xp * xp) + globalA, c.p);
      Some(((3 * (xp * xp) + globalA) * inv) % c.p)
  }

  /** `(e * d^-1 mod p) * d == e (mod p)`. */
  lemma SlopeFromInverse(d: int, inv: int, e: int, p: pos)
    requires IsInverse(d, inv, p)
    ensures (((e * inv) % p) * d) % p == e % p
  {
    var w := e * inv;
    MulModLeft(w, d, p);
    assert w * d == (d * e) * inv;
    CancelInverse(d, inv, e, p);
  }

  /** The point `(m^2 - xp - xq mod p, -yp + m*(xp - xr) mod p)` of lines 70-71 and 77-78. */
  function ThirdPoint(c: Curve, xp: int, yp: int, xq: int, m: int): (r: Point)
    ensures IsThirdPoint(c, xp, yp, xq, m, r)
  {
    var xr := (m * m - xp - xq) % c.p;
    var yr := (0 - yp + m * (xp - xr)) % c.p;
    ThirdPointResidues(c.p, xp, yp, xq, m, xr, yr);
    Affine(xr, yr)
  }

  lemma ThirdPointResidues(p: pos, xp: int, yp: int, xq: int, m: int, xr: int, yr: int)
    requires xr == (m * m - xp - xq) % p && yr == (0 - yp + m * (xp - xr)) % p
    ensures (xr + xp + xq) % p == (m * m) % p && (yr + yp) % p == (m * (xp - xr)) % p
  {
    ModMod(m * m - xp - xq, p);
    AddMod(m * m - xp - xq, xp + xq, p);
    AddMod(xr, xp + xq, p);
    ModMod(0 - yp + m * (xp - xr), p);
    AddMod(0 - yp + m * (xp - xr), yp, p);
    AddMod(yr, yp, p);
  }

  /**
   * `Point.__add__`: infinity is a two-sided identity; two different finite
   * points use the chord, a point added to itself the tangent. The result is
   * the reflected third intersection of that line with the curve; the
   * addition fails when the slope's denominator is not a unit modulo `p`.
   */
  function Add(c: Curve, globalA: int, pt: Point, other: Point): (r: Result<Point, EccError>)
    ensures pt.Infinity? ==> r == Success(other)
    ensures pt.Affine? && other.Infinity? ==> r == Success(pt)
    ensures r.Failure? ==> r.error == NotInvertible
  {
    match (pt, other)
    case (Infinity, _) => Success(other)
    case (_, Infinity) => Success(pt)
    case (Affine(xp, yp), Affine(xq, yq)) =>
      if pt != other then
        match ChordSlope(c, xp, yp, xq, yq)
        case None => Failure(NotInvertible)
        case Some(m) => Success(ThirdPoint(c, xp, yp, xq, m))
      else
        match TangentSlope(c, globalA, xp, yp)
        case None => Failure(NotInvertible)
        case Some(m) => Success(ThirdPoint(c, xp, yp, xq, m))
  }

  /**
   * Two different finite points: the sum exists exactly when `xq - xp` is
   * a unit modulo `p`, and is then the third point on their chord.
   */
  lemma AddDistinct(c: Curve, globalA: int, pt: Point, other: Point)
    requires pt.Affine? && other.Affine? && pt != other
    ensures Add(c, globalA, pt, other).Success? <==> Gcd((other.x - pt.x) % c.p, c.p) == 1
    ensures Add(c, globalA, pt, other).Success? ==>
              exists m :: 0 <= m < c.p && IsChordSlope(c, pt.x, pt.y, other.x, other.y, m) &&
                          IsThirdPoint(c, pt.x, pt.y, other.x, m, Add(c, globalA, pt, other).value)
  {
    var s := ChordSlope(c, pt.x, pt.y, other.x, other.y);
    if s.Some? {
      assert IsThirdPoint(c, pt.x, pt.y, other.x, s.value, Add(c, globalA, pt, other).value);
    }
  }

  /**
   * Doubling a finite point: the result exists exactly when `2y` is a unit
   * modulo `p`, and is then the third point on the tangent, whose slope uses
   * `globalA` in place of the curve's own coefficient.
   */
  lemma AddDouble(c: Curve, globalA: int, pt: Point)
    requires pt.Affine?
    ensures Add(c, globalA, pt, pt).Success? <==> Gcd((2 * pt.y) % c.p, c.p) == 1
    ensures Add(c, globalA, pt, pt).Success? ==>
              exists m :: 0 <= m < c.p && IsTangentSlope(c, globalA, pt.x, pt.y, m) &&
                          IsThirdPoint(c, pt.x, pt.y, pt.x, m, Add(c, globalA, pt, pt).value)
  {
    var s := TangentSlope(c, globalA, pt.x, pt.y);
    if s.Some? {
      assert IsThirdPoint(c, pt.x, pt.y, pt.x, s.value, Add(c, globalA, pt, pt).value);
    }
  }

  /** Adding two different finite points does not depend on their order. */
  lemma AddCommutes(c: Curve, globalA: int, pt: Point, other: Point)
    requires pt != other
    ensures Add(c, globalA, pt, other) == Add(c, globalA, other, pt)
  {
    if pt.Affine? && other.Affine? {
      var s := ChordSlope(c, pt.x, pt.y, other.x, other.y);
      ChordSlopeSwap(c, pt.x, pt.y, other.x, other.y);
      if s.Some? {
        ChordSymmetric(c, pt.x, pt.y, other.x, other.y, s.value);
      }
    }
  }

  /** The chord through two points has one slope whichever point comes first. */
  lemma ChordSlopeSwap(c: Curve, xp: int, yp: int, xq: int, yq: int)
    ensures ChordSlope(c, xp, yp, xq, yq) == ChordSlope(c, xq, yq, xp, yp)
  {
    var s1 := ChordSlope(c, xp, yp, xq, yq);
    var s2 := ChordSlope(c, xq, yq, xp, yp);
    assert xp - xq == 0 - (xq - xp) && yp - yq == 0 - (yq - yp);
    NegatedUnit(xq - xp, c.p);
    if s1.Some? {
      SlopeUnique(s1.value, s2.value, xq - xp, yq - yp, c.p);
    }
  }

  /** A unit `d` fixes the solution of `m * d == e (mod p)` in `[0, p)`, also when written as `m * (-d) == -e`. */
  lemma SlopeUnique(m1: int, m2: int, d: int, e: int, p: pos)
    requires Gcd(d % p, p) == 1 && 0 <= m1 < p && 0 <= m2 < p
    requires (m1 * d) % p == e % p && (m2 * (0 - d)) % p == (0 - e) % p
    ensures m1 == m2
  {
    assert m2 * (0 - d) == 0 - m2 * d;
    SameModIffDivides(0 - m2 * d, 0 - e, p);
    assert (0 - m2 * d) - (0 - e) == e - m2 * d;
    SameModIffDivides(e, m2 * d, p);
    UnitCancel(d, m1, m2, p);
  }

  /** `-x` is a unit exactly when `x` is. */
  lemma NegatedUnit(x: int, p: pos)
    ensures Gcd((0 - x) % p, p) == 1 <==> Gcd(x % p, p) == 1
  {
    if Gcd(x % p, p) == 1 {
      var inv: int := ModInverse(x, p).value;
      NegatedInverse(x, inv, p);
      UnitOfInverse(0 - x, 0 - inv, p);
    }
    if Gcd((0 - x) % p, p) == 1 {
      var inv: int := ModInverse(0 - x, p).value;
      NegatedInverse(0 - x, inv, p);
      assert 0 - (0 - x) == x;
      UnitOfInverse(x, 0 - inv, p);
    }
  }

  lemma NegatedInverse(x: int, y: int, p: pos)
    requires IsInverse(x, y, p)
    ensures IsInverse(0 - x, 0 - y, p)
  {
    assert (0 - x) * (0 - y) == x * y;
  }

  /** With a common slope, the chord rule gives the same point whichever point comes first. */
  lemma ChordSymmetric(c: Curve, xp: int, yp: int, xq: int, yq: int, m: int)
    requires IsChordSlope(c, xp, yp, xq, yq, m)
    ensures ThirdPoint(c, xp, yp, xq, m) == ThirdPoint(c, xq, yq, xp, m)
  {
    var xr := (m * m - xp - xq) % c.p;
    assert (m * m - xq - xp) % c.p == xr;
    OrdinateSwap(c.p, m, xp, yp, xq, yq, xr);
  }

  lemma OrdinateSwap(p: pos, m: int, xp: int, yp: int, xq: int, yq: int, xr: int)
    requires (m * (xq - xp)) % p == (yq - yp) % p
    ensures (0 - yp + m * (xp - xr)) % p == (0 - yq + m * (xq - xr)) % p
  {
    var u, v := 0 - yp + m * (xp - xr), 0 - yq + m * (xq - xr);
    assert m * (xp - xr) - m * (xq - xr) == 0 - m * (xq - xp);
    assert u - v == (yq - yp) - m * (xq - xp);
    SameModIffDivides(yq - yp, m * (xq - xp), p);
    SameModIffDivides(u, v, p);
  }

  /** `P + (-P)` with the chord rule: the denominator `xq - xp` is a multiple of `p`, so the script fails. */
  lemma OppositePointsFail(c: Curve, globalA: int, x: int, y: int, y': int)
    requires c.p > 1 && y != y'
    ensures Add(c, globalA, Affine(x, y), Affine(x, y')) == Failure(NotInvertible)
  {
    assert (x - x) % c.p == 0;
  }

  /** Doubling a finite point with `y == 0 (mod p)`: `2y` has no inverse, so the script fails. */
  lemma DoublingVerticalFails(c: Curve, globalA: int, x: int, y: int)
    requires c.p > 1 && y % c.p == 0
    ensures Add(c, globalA, Affine(x, y), Affine(x, y)) == Failure(NotInvertible)
  {
    MulModLeft(y, 2, c.p);
    assert 2 * y == y * 2;
    ZeroNotUnit(c.p);
    AddDouble(c, globalA, Affine(x, y));
  }

  // ---------------------------------------------------------------------
  // Scalar multiplication

  /** The binary digits of `k`, least significant first, without leading zeros: `reversed(bin(k)[2:])`. */
  function Bits(k: nat): (r: seq<bool>)
    ensures k == 0 <==> r == []
    ensures r != [] ==> r[|r| - 1]
  {
    if k == 0 then [] else [k % 2 == 1] + Bits(k / 2)
  }

  /** The number whose digits, least significant first, are `bits`. */
  function Value(bits: seq<bool>): nat
  {
    if bits == [] then 0 else (if bits[0] then 1 else 0) + 2 * Value(bits[1..])
  }

  /** The digits the loop walks spell `k`: `sum(bit_i * 2^i) == k`. */
  lemma {:induction false} BitsValue(k: nat)
    ensures Value(Bits(k)) == k
    decreases k
  {
    if k > 0 {
      BitsValue(k / 2);
      assert Bits(k)[1..] == Bits(k / 2);
    }
  }

  /** `|Bits(k)|` is the bit length of `k`: `2^(|Bits(k)| - 1) <= k < 2^|Bits(k)|`. */
  lemma {:induction false} BitsLength(k: nat)
    requires k > 0
    ensures Pow(2, |Bits(k)| - 1) <= k < Pow(2, |Bits(k)|)
    decreases k
  {
    if k > 1 {
      BitsLength(k / 2);
    }
  }

  /**
   * What the loop of `__mul__` computes from `result` and `addend` over the
   * remaining digits: on a 1-digit `result += addend`, then on every digit
   * `addend += addend`; the first addition that fails aborts the loop.
   */
  function Ladder(c: Curve, globalA: int, result: Point, addend: Point, bits: seq<bool>): Result<Point, EccError>
    decreases |bits|
  {
    if bits == [] then Success(result)
    else
      var sum := if bits[0] then Add(c, globalA, result, addend) else Success(result);
      if sum.Failure? then Failure(sum.error)
      else
        var doubled := Add(c, globalA, addend, addend);
        if doubled.Failure? then Failure(doubled.error)
        else Ladder(c, globalA, sum.value, doubled.value, bits[1..])
  }

  /** `k * P` as `__mul__` (and `__rmul__`) define it: `k > 0` is asserted, then the ladder runs from infinity. */
  function MulSpec(c: Curve, globalA: int, pt: Point, k: int): Result<Point, EccError>
  {
    if k <= 0 then Failure(AssertionFailed)
    else Ladder(c, globalA, Infinity, pt, Bits(k))
  }

  /** `Point.__mul__`: the double-and-add loop over the digits of `k`, least significant first. */
  method Mul(c: Curve, globalA: int, pt: Point, k: int) returns (r: Result<Point, EccError>)
    ensures r == MulSpec(c, globalA, pt, k)
  {
    if k <= 0 {
      return Failure(AssertionFailed);
    }
    var bits := Bits(k);
    var result, addend := Infinity, pt;
    for i := 0 to |bits|
      invariant Ladder(c, globalA, Infinity, pt, bits) == Ladder(c, globalA, result, addend, bits[i..])
    {
      assert bits[i..][1..] == bits[i + 1..];
      if bits[i] {
        var sum := Add(c, globalA, result, addend);
        if sum.Failure? {
          return Failure(sum.error);
        }
        result := sum.value;
      }
      var doubled := Add(c, globalA, addend, addend);
      if doubled.Failure? {
        return Failure(doubled.error);
      }
      addend := doubled.value;
    }
    assert bits[|bits|..] == [];
    r := Success(result);
  }

  /** A failed multiplication failed in `pow(..., -1, p)`, or `k <= 0`. */
  lemma {:induction false} LadderFailure(c: Curve, globalA: int, result: Point, addend: Point, bits: seq<bool>)
    ensures Ladder(c, globalA, result, addend, bits).Failure? ==>
              Ladder(c, globalA, result, addend, bits).error == NotInvertible
    decreases |bits|
  {
    if bits != [] {
      var sum := if bits[0] then Add(c, globalA, result, addend) else Success(result);
      var doubled := Add(c, globalA, addend, addend);
      if sum.Success? && doubled.Success? {
        LadderFailure(c, globalA, sum.value, doubled.value, bits[1..]);
      }
    }
  }

  lemma MulFailure(c: Curve, globalA: int, pt: Point, k: int)
    ensures MulSpec(c, globalA, pt, k) == Failure(AssertionFailed) <==> k <= 0
    ensures MulSpec(c, globalA, pt, k).Failure? && k > 0 ==> MulSpec(c, globalA, pt, k).error == NotInvertible
  {
    if k > 0 {
      LadderFailure(c, globalA, Infinity, pt, Bits(k));
    }
  }

  /** Every multiple of the point at infinity is the point at infinity. */
  lemma {:induction false} LadderAtInfinity(c: Curve, globalA: int, bits: seq<bool>)
    ensures Ladder(c, globalA, Infinity, Infinity, bits) == Success(Infinity)
    decreases |bits|
  {
    if bits != [] {
      LadderAtInfinity(c, globalA, bits[1..]);
    }
  }

  lemma MulInfinity(c: Curve, globalA: int, k: int)
    requires k > 0
    ensures MulSpec(c, globalA, Infinity, k) == Success(Infinity)
  {
    LadderAtInfinity(c, globalA, Bits(k));
  }

  /**
   * `1 * P` is `P` only when `P + P` succeeds: the loop doubles `addend`
   * after the last digit too, so a point whose doubling fails cannot even
   * be multiplied by 1.
   */
  lemma MulOne(c: Curve, globalA: int, pt: Point)
    ensures Add(c, globalA, pt, pt).Success? ==> MulSpec(c, globalA, pt, 1) == Success(pt)
    ensures Add(c, globalA, pt, pt).Failure? ==> MulSpec(c, globalA, pt, 1) == Failure(NotInvertible)
  {
    var bits := Bits(1);
    assert bits == [true] && bits[1..] == [];
    var d := Add(c, globalA, pt, pt);
    assert Add(c, globalA, Infinity, pt) == Success(pt);
    if d.Success? {
      assert Ladder(c, globalA, pt, d.value, []) == Success(pt);
    }
  }

  /** A 0-digit only doubles: `(2k) * P == k * (P + P)`. */
  lemma MulEven(c: Curve, globalA: int, pt: Point, k: int)
    requires k > 0
    ensures Add(c, globalA, pt, pt).Success? ==>
              MulSpec(c, globalA, pt, 2 * k) == MulSpec(c, globalA, Add(c, globalA, pt, pt).value, k)
    ensures Add(c, globalA, pt, pt).Failure? ==> MulSpec(c, globalA, pt, 2 * k) == Failure(NotInvertible)
  {
    assert Bits(2 * k) == [false] + Bits(k);
    assert Bits(2 * k)[1..] == Bits(k);
  }

  // ---------------------------------------------------------------------
  // A small curve

  /** `y^2 = x^3 + 2x + 2` over `F_17`, whose point `(5, 1)` generates a group of order 19. */
  const Toy := Curve(17, 2, 2)

  lemma ToyPoints()
    ensures IsOnCurve(Toy, Affine(5, 1)) == Success(true)
    ensures IsOnCurve(Toy, Affine(6, 3)) == Success(true)
    ensures IsOnCurve(Toy, Affine(15, 15)) == Success(false)
  {
  }

  /** The tangent slope is the one solution in `[0, p)` of its equation. */
  lemma TangentSlopeIs(c: Curve, globalA: int, x: int, y: int, m: int)
    requires Gcd((2 * y) % c.p, c.p) == 1 && 0 <= m < c.p && IsTangentSlope(c, globalA, x, y, m)
    ensures TangentSlope(c, globalA, x, y) == Some(m)
  {
    var s := TangentSlope(c, globalA, x, y).value;
    UnitCancel(2 * y, s, m, c.p);
  }

  /** Doubling gives the third point on the tangent of any slope that solves the tangent equation. */
  lemma DoubleIs(c: Curve, globalA: int, x: int, y: int, m: int)
    requires Gcd((2 * y) % c.p, c.p) == 1 && 0 <= m < c.p && IsTangentSlope(c, globalA, x, y, m)
    ensures Add(c, globalA, Affine(x, y), Affine(x, y)) == Success(ThirdPoint(c, x, y, x, m))
  {
    TangentSlopeIs(c, globalA, x, y, m);
  }

  /** The third point in closed form, for given residues of its coordinates. */
  lemma ThirdPointIs(c: Curve, xp: int, yp: int, xq: int, m: int, xr: int, yr: int)
    requires (m * m - xp - xq) % c.p == xr && (0 - yp + m * (xp - xr)) % c.p == yr
    ensures ThirdPoint(c, xp, yp, xq, m) == Affine(xr, yr)
  {
  }

  lemma ToyDoubleCurveA(c: Curve)
    requires c == Toy
    ensures Add(c, 2, Affine(5, 1), Affine(5, 1)) == Success(Affine(6, 3))
  {
    UnitOfInverse(2, 9, c.p);
    ModUnique(13 * (2 * 1), 17, 1, 9);
    ModUnique(3 * (5 * 5) + 2, 17, 4, 9);
    DoubleIs(c, 2, 5, 1, 13);
    ModUnique(13 * 13 - 5 - 5, 17, 9, 6);
    ModUnique(0 - 1 + 13 * (5 - 6), 17, -1, 3);
    ThirdPointIs(c, 5, 1, 5, 13, 6, 3);
  }

  lemma ToyDoubleGlobalA(c: Curve)
    requires c == Toy
    ensures Add(c, 0, Affine(5, 1), Affine(5, 1)) == Success(Affine(15, 15))
  {
    UnitOfInverse(2, 9, c.p);
    ModUnique(12 * (2 * 1), 17, 1, 7);
    ModUnique(3 * (5 * 5) + 0, 17, 4, 7);
    DoubleIs(c, 0, 5, 1, 12);
    ModUnique(12 * 12 - 5 - 5, 17, 7, 15);
    ModUnique(0 - 1 + 12 * (5 - 15), 17, -8, 15);
    ThirdPointIs(c, 5, 1, 5, 12, 15, 15);
  }
}
