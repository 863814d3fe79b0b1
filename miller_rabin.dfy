/**
 * One round of the Miller-Rabin test of miller_rabin.py, with the random
 * witness `a` passed in by the caller.
 *
 * The script's `for j in range(1, k)` never looks at `j == 0`, so a witness
 * with `a^q == n - 1 (mod n)` is not accepted; `Test` reproduces that
 * (`AsWrittenRejectsSeven`). `TestFromZero` is the round as published, with
 * the scan started at `j == 0`, and `FromZeroAcceptsPrimes` proves that it
 * never calls a prime composite.
 */
module MillerRabin {
  import opened Wrappers
  import opened Arith
  import opened Fermat

  /** The two strings `test` returns. */
  datatype Verdict = Inconclusive | Composite

  /** `random.randint(2, n - 2)` raises `ValueError` for `n < 4`. */
  datatype TestError = NoWitnessRange

  /** The split of `m != 0` into `2^k * q` with `q` odd, found by halving. */
  function TwoAdic(m: int): (r: (nat, int))
    requires m != 0
    decreases if m < 0 then -m else m
    ensures m == Pow(2, r.0) * r.1 && r.1 % 2 == 1
    ensures m > 0 ==> r.1 > 0
  {
    if m % 2 == 1 then (0, m)
    else
      var r' := TwoAdic(m / 2);
      (r'.0 + 1, r'.1)
  }

  /** The split is unique: any `2^k * q` with `q` odd is the one halving finds. */
  lemma {:induction false} TwoAdicUnique(m: int, k: nat, q: int)
    requires m == Pow(2, k) * q && q % 2 == 1
    ensures m != 0 && TwoAdic(m) == (k, q)
    decreases k
  {
    PowPositive(2, k);
    SignOfProduct(Pow(2, k), q);
    SignOfProduct(Pow(2, k), 0 - q);
    if k > 0 {
      assert m == 2 * (Pow(2, k - 1) * q);
      TwoAdicUnique(m / 2, k - 1, q);
    } else {
      assert m == q;
    }
  }

  /** An even `m` has at least one factor 2: for odd `n`, `k >= 1`. */
  lemma TwoAdicOfEven(m: int)
    requires m != 0 && m % 2 == 0
    ensures TwoAdic(m).0 >= 1
  {
  }

  /** `a^(2^j * q) mod n`, the value step 5 of the round compares with `n - 1`. */
  function Square(n: pos, a: int, q: nat, j: nat): (r: nat)
    ensures r < n
  {
    PowPositive(2, j);
    ModPow(a, Pow(2, j) * q, n)
  }

  /**
   * The verdict of one round for `n >= 4` and witness `a`, scanning
   * `j` from `first` to `k - 1`: inconclusive iff `a^q mod n == 1` or some
   * scanned `j` has `a^(2^j * q) mod n == n - 1`.
   */
  function RoundVerdict(n: int, a: int, first: nat): Verdict
    requires n >= 4
  {
    var (k, q) := TwoAdic(n - 1);
    if ModPow(a, q, n) == 1 || exists j :: first <= j < k && Square(n, a, q, j) == n - 1
    then Inconclusive
    else Composite
  }

  /** Step 1 of the round: halve `m` until it is odd, counting the halvings. */
  method Halve(m: int) returns (k: nat, q: int)
    requires m != 0
    ensures (k, q) == TwoAdic(m)
  {
    k, q := 0, m;
    while q % 2 == 0
      invariant q != 0
      invariant TwoAdic(m) == (k + TwoAdic(q).0, TwoAdic(q).1)
      decreases if q < 0 then -q else q
    {
      k := k + 1;
      q := q / 2;
    }
  }

  /** Steps 4 and 5: is there a `j` in `[first, k)` with `a^(2^j * q) mod n == n - 1`? */
  method ScanSquares(n: pos, a: int, q: nat, first: nat, k: nat) returns (found: bool)
    ensures found <==> exists j :: first <= j < k && Square(n, a, q, j) == n - 1
  {
    found := false;
    var j := first;
    while j < k
      invariant first <= j || k <= first
      invariant forall i :: first <= i < j ==> Square(n, a, q, i) != n - 1
    {
      PowPositive(2, j);
      if ModPow(a, Pow(2, j) * q, n) == n - 1 {
        assert Square(n, a, q, j) == n - 1;
        return true;
      }
      j := j + 1;
    }
  }

  /** `test(n)` of miller_rabin.py as written, with the witness `a` as a parameter. */
  method Test(n: int, a: int) returns (r: Result<Verdict, TestError>)
    requires n != 1                          // the halving loop never ends for n == 1
    requires n >= 4 ==> 2 <= a <= n - 2      // the witness comes from randint(2, n - 2)
    ensures n == 3 ==> r == Success(Inconclusive)
    ensures n < 3 ==> r == Failure(NoWitnessRange)
    ensures n >= 4 ==> r == Success(RoundVerdict(n, a, 1))
  {
    if n == 3 {
      return Success(Inconclusive);
    }
    var k, q := Halve(n - 1);
    if n < 4 {
      return Failure(NoWitnessRange);
    }
    VerdictOfRound(n, a, 1, k, q);
    if ModPow(a, q, n) == 1 {
      return Success(Inconclusive);
    }
    var found := ScanSquares(n, a, q, 1, k);
    r := if found then Success(Inconclusive) else Success(Composite);
  }

  /** The verdict in terms of the split `(k, q)` that `Halve` returns. */
  lemma VerdictOfRound(n: int, a: int, first: nat, k: nat, q: int)
    requires n >= 4 && (k, q) == TwoAdic(n - 1)
    ensures q > 0
    ensures RoundVerdict(n, a, first) ==
              if ModPow(a, q, n) == 1 || exists j :: first <= j < k && Square(n, a, q, j) == n - 1
              then Inconclusive else Composite
  {
  }

  /** The round as Stallings and FIPS 186-4 (appendix C.3.1) state it: the scan starts at `j == 0`. */
  method TestFromZero(n: int, a: int) returns (r: Result<Verdict, TestError>)
    requires n != 1
    requires n >= 4 ==> 2 <= a <= n - 2
    ensures n == 3 ==> r == Success(Inconclusive)
    ensures n < 3 ==> r == Failure(NoWitnessRange)
    ensures n >= 4 ==> r == Success(RoundVerdict(n, a, 0))
  {
    if n == 3 {
      return Success(Inconclusive);
    }
    var k, q := Halve(n - 1);
    if n < 4 {
      return Failure(NoWitnessRange);
    }
    VerdictOfRound(n, a, 0, k, q);
    if ModPow(a, q, n) == 1 {
      return Success(Inconclusive);
    }
    var found := ScanSquares(n, a, q, 0, k);
    r := if found then Success(Inconclusive) else Success(Composite);
  }

  // ---------------------------------------------------------------------
  // Properties of the round

  /** For even `n` there is no halving and no scan: only `a^(n-1) mod n == 1` passes. */
  lemma EvenCandidate(n: int, a: int, first: nat)
    requires n >= 4 && n % 2 == 0
    ensures RoundVerdict(n, a, first) == if ModPow(a, n - 1, n) == 1 then Inconclusive else Composite
  {
    TwoAdicUnique(n - 1, 0, n - 1);
  }

  /** Squaring one term of the chain gives the next. */
  lemma SquareStep(n: pos, a: int, q: nat, j: nat)
    requires j > 0
    ensures Square(n, a, q, j) == (Square(n, a, q, j - 1) * Square(n, a, q, j - 1)) % n
  {
    PowPositive(2, j - 1);
    var e := Pow(2, j - 1) * q;
    assert Pow(2, j) * q == e + e;
    PowAdd(a, e, e);
    MulMod(Pow(a, e), Pow(a, e), n);
  }

  /**
   * Modulo a prime, if the chain reaches 1 at `j`, then either it starts at 1
   * or an earlier term is `n - 1`.
   */
  lemma {:induction false} ChainReachesOne(n: int, a: int, q: nat, j: nat)
    requires IsPrime(n) && Square(n, a, q, j) == 1
    ensures ModPow(a, q, n) == 1 || exists i :: 0 <= i < j && Square(n, a, q, i) == n - 1
  {
    if j == 0 {
      assert Pow(2, 0) * q == q;
    } else {
      var x := Square(n, a, q, j - 1);
      SquareStep(n, a, q, j);
      ModUnique(x, n, 0, x);
      SquareRootOfOne(n, x);
      if x != n - 1 {
        ChainReachesOne(n, a, q, j - 1);
      }
    }
  }

  /** The round that starts its scan at `j == 0` never rejects a prime. */
  lemma FromZeroAcceptsPrimes(n: int, a: int)
    requires IsPrime(n) && n >= 4 && 2 <= a <= n - 2
    ensures RoundVerdict(n, a, 0) == Inconclusive
  {
    var (k, q) := TwoAdic(n - 1);
    ModUnique(a, n, 0, a);
    FermatUnit(n, a);
    assert Square(n, a, q, k) == 1;
    ChainReachesOne(n, a, q, k);
  }

  /** The script as written rejects the prime 7 with the witness 3: `3^3 mod 7 == 6`, `k == 1`. */
  lemma AsWrittenRejectsSeven()
    ensures IsPrime(7)
    ensures RoundVerdict(7, 3, 1) == Composite
    ensures RoundVerdict(7, 3, 0) == Inconclusive
  {
    assert !Divides(2, 7) && !Divides(3, 7) && !Divides(4, 7) && !Divides(5, 7) && !Divides(6, 7);
    TwoAdicUnique(6, 1, 3);
    assert ModPow(3, 3, 7) == 6;
    assert Square(7, 3, 3, 0) == 6;
  }

  /**
   * Starting the scan at 1 only loses witnesses: whatever the script
   * accepts, the published round accepts, and the two disagree exactly when
   * `a^q mod n == n - 1` is the only witness.
   */
  lemma AsWrittenIsStricter(n: int, a: int)
    requires n >= 4
    ensures RoundVerdict(n, a, 1) == Inconclusive ==> RoundVerdict(n, a, 0) == Inconclusive
    ensures RoundVerdict(n, a, 1) != RoundVerdict(n, a, 0) <==>
              RoundVerdict(n, a, 1) == Composite && TwoAdic(n - 1).0 >= 1 &&
              ModPow(a, TwoAdic(n - 1).1, n) == n - 1
  {
    var (k, q) := TwoAdic(n - 1);
    assert Pow(2, 0) * q == q;
    assert Square(n, a, q, 0) == ModPow(a, q, n);
    if k >= 1 && ModPow(a, q, n) == n - 1 {
      assert RoundVerdict(n, a, 0) == Inconclusive;
    }
    if RoundVerdict(n, a, 0) == Inconclusive && ModPow(a, q, n) != 1 {
      var j :| 0 <= j < k && Square(n, a, q, j) == n - 1;
      if j >= 1 {
        assert RoundVerdict(n, a, 1) == Inconclusive;
      }
    }
  }

  /** Once the chain meets `n - 1` at `j == 0`, every later term is 1, never `n - 1`. */
  lemma {:induction false} OnesAfterMinusOne(n: int, a: int, q: nat, j: nat)
    requires n >= 4 && j >= 1 && Square(n, a, q, 0) == n - 1
    ensures Square(n, a, q, j) == 1
    decreases j
  {
    SquareStep(n, a, q, j);
    if j == 1 {
      assert (n - 1) * (n - 1) == n * (n - 2) + 1;
      ModUnique((n - 1) * (n - 1), n, n - 2, 1);
    } else {
      OnesAfterMinusOne(n, a, q, j - 1);
      ModUnique(1 * 1, n, 0, 1);
    }
  }

  /** The round as written calls `n` composite whenever `a^q mod n == n - 1`. */
  lemma AsWrittenRejectsMinusOne(n: int, a: int)
    requires n >= 4 && ModPow(a, TwoAdic(n - 1).1, n) == n - 1
    ensures RoundVerdict(n, a, 1) == Composite
  {
    var (k, q) := TwoAdic(n - 1);
    assert Pow(2, 0) * q == q;
    assert Square(n, a, q, 0) == n - 1;
    forall j | 1 <= j < k
      ensures Square(n, a, q, j) != n - 1
    {
      OnesAfterMinusOne(n, a, q, j);
    }
  }

  /**
   * On a prime, the round as written is inconclusive exactly when
   * `a^q mod n != n - 1`: a witness the script meets at `j == 0` is the only
   * way it rejects a prime.
   */
  lemma AsWrittenOnPrimes(n: int, a: int)
    requires IsPrime(n) && n >= 4 && 2 <= a <= n - 2
    ensures RoundVerdict(n, a, 1) == Inconclusive <==> ModPow(a, TwoAdic(n - 1).1, n) != n - 1
  {
    if ModPow(a, TwoAdic(n - 1).1, n) == n - 1 {
      AsWrittenRejectsMinusOne(n, a);
    } else {
      FromZeroAcceptsPrimes(n, a);
      AsWrittenIsStricter(n, a);
    }
  }
}
