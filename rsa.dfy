/**
 * RSA key generation and CRT decryption of rsa.py: the prime search over a
 * stream of 1024-bit candidates, the derivation of `(e, n)` and `(d, p, q)`,
 * and decryption through the Chinese remainder theorem.
 *
 * The random candidates and the random witnesses of the seven Miller-Rabin
 * rounds are parameters: `candidates` is the sequence of values drawn by
 * `random.randint`, and `witnesses(i, t)` is the witness of round `t` for
 * candidate `i`.
 *
 * The search and the key derivation are modelled as written, beside the
 * corrections of two defects: the Miller-Rabin round that skips `j == 0`
 * (`Passes` takes the first scanned `j` as a parameter; `PrimesAsWritten`
 * and `PrimesSurvive` compare the two searches), and the public exponent
 * 65337 where 65537 is meant (`AsWrittenExponentRejects`).
 */
module Rsa {
  import opened Wrappers
  import opened Arith
  import opened Fermat
  import MillerRabin

  /** Number of Miller-Rabin rounds a candidate must survive. */
  const Rounds := 7

  /** The public exponent as the script writes it. */
  const PublicExponent := 65337

  /** The public exponent of the PKCS #1 convention, the Fermat prime 2^16 + 1. */
  const FermatExponent := 65537

  /** The range `random.randint(2**1023 + 1, 2**1024 - 1)` draws from. */
  const CandidateLow := 0x8000000000000000000000000000000000000000000000000000000000000000000000000000000000000000000000000000000000000000000000000000000000000000000000000000000000000000000000000000000000000000000000000000000000000000000000000000000000000000000000000000000000000001
  const CandidateHigh := 0xffffffffffffffffffffffffffffffffffffffffffffffffffffffffffffffffffffffffffffffffffffffffffffffffffffffffffffffffffffffffffffffffffffffffffffffffffffffffffffffffffffffffffffffffffffffffffffffffffffffffffffffffffffffffffffffffffffffffffffffffffffffffffffffff

  predicate InRange(n: int)
  {
    CandidateLow <= n <= CandidateHigh
  }

  datatype RsaError =
    | SearchExhausted        // the candidate stream ended before two survivors were found
    | PublicExponentInvalid  // the assertion `1 < e < phi and gcd(e, phi) == 1` fails
    | NotInvertible          // `pow(x, -1, m)` raises ValueError

  datatype PublicKey = PublicKey(e: int, n: int)
  datatype PrivateKey = PrivateKey(d: nat, p: int, q: int)
  datatype Keys = Keys(public: PublicKey, private: PrivateKey)

  // ---------------------------------------------------------------------
  // The prime search

  predicate AllInRange(candidates: seq<int>)
  {
    forall i :: 0 <= i < |candidates| ==> InRange(candidates[i])
  }

  /** Every witness lies in `[2, n - 2]`, as `random.randint(2, n - 2)` guarantees. */
  predicate WitnessesInRange(candidates: seq<int>, witnesses: (nat, nat) -> int)
  {
    forall i: nat, t: nat :: i < |candidates| && t < Rounds ==>
      2 <= witnesses(i, t) <= candidates[i] - 2
  }

  /**
   * Candidate `i` is odd and no round of the test calls it composite, each
   * round scanning `j` from `first`: 1 is the round the script runs, 0 the
   * corrected one.
   */
  predicate Passes(candidates: seq<int>, witnesses: (nat, nat) -> int, i: nat, first: nat)
    requires i < |candidates| && AllInRange(candidates)
  {
    candidates[i] % 2 == 1 &&
    forall t :: 0 <= t < Rounds ==>
      MillerRabin.RoundVerdict(candidates[i], witnesses(i, t), first) == MillerRabin.Inconclusive
  }

  /** The candidates among the first `k` that pass, in the order they were drawn. */
  function Survivors(candidates: seq<int>, witnesses: (nat, nat) -> int, k: nat, first: nat): seq<int>
    requires k <= |candidates| && AllInRange(candidates)
  {
    if k == 0 then []
    else if Passes(candidates, witnesses, k - 1, first) then
      Survivors(candidates, witnesses, k - 1, first) + [candidates[k - 1]]
    else Survivors(candidates, witnesses, k - 1, first)
  }

  /** Drawing more candidates only extends the list of survivors. */
  lemma {:induction false} SurvivorsPrefix(candidates: seq<int>, witnesses: (nat, nat) -> int, i: nat, j: nat, first: nat)
    requires i <= j <= |candidates| && AllInRange(candidates)
    ensures Survivors(candidates, witnesses, i, first) <= Survivors(candidates, witnesses, j, first)
    decreases j
  {
    if i < j {
      SurvivorsPrefix(candidates, witnesses, i, j - 1, first);
    }
  }

  /**
   * `generate_primes`: draw candidates, skip the even ones, run seven rounds
   * of the test on each odd one and keep the first two that no round calls
   * composite. The rounds are `MillerRabin.Test` as written, which can
   * throw a prime away (`PrimesAsWritten`).
   */
  method GeneratePrimes(candidates: seq<int>, witnesses: (nat, nat) -> int)
    returns (r: Result<(int, int), RsaError>)
    requires AllInRange(candidates)
    requires WitnessesInRange(candidates, witnesses)
    ensures var s := Survivors(candidates, witnesses, |candidates|, 1);
            if |s| >= 2 then r == Success((s[0], s[1])) else r == Failure(SearchExhausted)
  {
    var p: Option<int> := None;
    var q: Option<int> := None;
    var i := 0;
    while i < |candidates|
      invariant 0 <= i <= |candidates|
      invariant var s := Survivors(candidates, witnesses, i, 1);
                |s| <= 1 && q.None? && (if |s| == 0 then p.None? else p == Some(s[0]))
    {
      var n := candidates[i];
      if n % 2 == 0 {
        i := i + 1;
        continue;
      }
      var results: seq<MillerRabin.Verdict> := [];
      for t := 0 to Rounds
        invariant |results| == t
        invariant forall s :: 0 <= s < t ==> results[s] == MillerRabin.RoundVerdict(n, witnesses(i, s), 1)
      {
        var result := MillerRabin.Test(n, witnesses(i, t));
        results := results + [result.value];
      }
      if MillerRabin.Composite !in results {
        if p.None? {
          p := Some(n);
        } else if q.None? {
          q := Some(n);
        }
      }
      assert Passes(candidates, witnesses, i, 1) <==> MillerRabin.Composite !in results;
      if p.Some? && q.Some? {
        SurvivorsPrefix(candidates, witnesses, i + 1, |candidates|, 1);
        return Success((p.value, q.value));
      }
      i := i + 1;
    }
    return Failure(SearchExhausted);
  }

  /** A value survives exactly when some candidate equal to it passes. */
  lemma {:induction false} SurvivorsExactly(candidates: seq<int>, witnesses: (nat, nat) -> int, k: nat, first: nat, x: int)
    requires k <= |candidates| && AllInRange(candidates)
    ensures x in Survivors(candidates, witnesses, k, first) <==>
              exists i: nat :: i < k && candidates[i] == x && Passes(candidates, witnesses, i, first)
  {
    if k > 0 {
      SurvivorsExactly(candidates, witnesses, k - 1, first, x);
    }
  }

  /** The search does not check `p != q`: a candidate drawn twice becomes both primes. */
  lemma RepeatedCandidate(x: int, witnesses: (nat, nat) -> int, first: nat)
    requires InRange(x) && Passes([x, x], witnesses, 0, first) && Passes([x, x], witnesses, 1, first)
    ensures Survivors([x, x], witnesses, 2, first) == [x, x]
  {
    assert Survivors([x, x], witnesses, 1, first) == [x];
  }

  /**
   * The search as written throws a prime away exactly when one of its rounds
   * draws a witness with `a^q mod n == n - 1`; a prime drawn only once is
   * then not among the survivors.
   */
  lemma PrimesAsWritten(candidates: seq<int>, witnesses: (nat, nat) -> int, i: nat)
    requires AllInRange(candidates) && WitnessesInRange(candidates, witnesses)
    requires i < |candidates| && IsPrime(candidates[i])
    ensures var n := candidates[i];
            Passes(candidates, witnesses, i, 1) <==>
              forall t :: 0 <= t < Rounds ==> ModPow(witnesses(i, t), MillerRabin.TwoAdic(n - 1).1, n) != n - 1
    ensures (forall j :: 0 <= j < |candidates| && candidates[j] == candidates[i] ==> j == i) ==>
              (candidates[i] in Survivors(candidates, witnesses, |candidates|, 1) <==> Passes(candidates, witnesses, i, 1))
  {
    var n := candidates[i];
    assert !Divides(2, n);
    forall t | 0 <= t < Rounds
      ensures MillerRabin.RoundVerdict(n, witnesses(i, t), 1) == MillerRabin.Inconclusive <==>
                ModPow(witnesses(i, t), MillerRabin.TwoAdic(n - 1).1, n) != n - 1
    {
      MillerRabin.AsWrittenOnPrimes(n, witnesses(i, t));
    }
    SurvivorsExactly(candidates, witnesses, |candidates|, 1, n);
  }

  /**
   * With the corrected round no prime is thrown away: every prime candidate
   * passes all seven rounds and so is among the survivors.
   */
  lemma PrimesSurvive(candidates: seq<int>, witnesses: (nat, nat) -> int, i: nat)
    requires AllInRange(candidates) && WitnessesInRange(candidates, witnesses)
    requires i < |candidates| && IsPrime(candidates[i])
    ensures Passes(candidates, witnesses, i, 0)
    ensures candidates[i] in Survivors(candidates, witnesses, |candidates|, 0)
  {
    var n := candidates[i];
    assert !Divides(2, n);
    forall t | 0 <= t < Rounds
      ensures MillerRabin.RoundVerdict(n, witnesses(i, t), 0) == MillerRabin.Inconclusive
    {
      MillerRabin.FromZeroAcceptsPrimes(n, witnesses(i, t));
    }
    SurvivorsExactly(candidates, witnesses, |candidates|, 0, n);
  }

  // ---------------------------------------------------------------------
  // Key derivation

  /**
   * Steps 2 to 5 of `generate_keys` for primes `p`, `q` and public exponent
   * `e`: `n = p*q`, `phi = (p-1)*(q-1)`, the assertion on `e`, and
   * `d = pow(e, -1, phi)`.
   */
  function DeriveKeys(p: int, q: int, e: int): (r: Result<Keys, RsaError>)
    ensures var phi := (p - 1) * (q - 1);
            r.Success? <==> 1 < e < phi && Gcd(e, phi as nat) == 1
    ensures r.Failure? ==> r.error == PublicExponentInvalid
    ensures r.Success? ==>
              var phi := (p - 1) * (q - 1);
              r.value.public == PublicKey(e, p * q) &&
              r.value.private.p == p && r.value.private.q == q &&
              phi > 1 && r.value.private.d < phi && (e * r.value.private.d) % phi == 1
  {
    var n := p * q;
    var phi := (p - 1) * (q - 1);
    if !(1 < e < phi && Gcd(e, phi as nat) == 1) then
      Failure(PublicExponentInvalid)
    else
      ModUnique(e, phi, 0, e);
      match ModInverse(e, phi)
      case None => Failure(NotInvertible)
      case Some(d) =>
        assert (e * d) % phi == 1 % phi;
        ModUnique(1, phi, 0, 1);
        Success(Keys(PublicKey(e, n), PrivateKey(d, p, q)))
  }

  /** `generate_keys` after `generate_primes` has returned `(p, q)`, with the public exponent 65537. */
  function GenerateKeys(p: int, q: int): Result<Keys, RsaError>
  {
    DeriveKeys(p, q, FermatExponent)
  }

  /** `generate_keys` as written, with the public exponent 65337. */
  function GenerateKeysAsWritten(p: int, q: int): Result<Keys, RsaError>
  {
    DeriveKeys(p, q, PublicExponent)
  }

  /**
   * A key pair's private exponent is never a multiple of `p - 1` for `p >= 3`:
   * `e * d == 1 (mod (p-1)(q-1))` would otherwise make `p - 1` divide 1.
   */
  lemma KeyExponentReducible(p: int, q: int, e: int, d: int)
    requires p >= 3 && q >= 2 && (e * d) % ((p - 1) * (q - 1)) == 1
    ensures d % (p - 1) != 0
  {
    ModOfProduct(e * d, p - 1, q - 1);
    ModUnique(1, p - 1, 0, 1);
    MulMod(e, d, p - 1);
  }

  // ---------------------------------------------------------------------
  // Decryption

  /**
   * `crt_decrypt`: `c^(d mod (p-1)) mod p` and `c^(d mod (q-1)) mod q`
   * combined with Garner's formula `m2 + q * (q^-1 (m1 - m2) mod p)`; it
   * fails where Python's `pow(q, -1, p)` raises.
   */
  function CrtDecrypt(c: int, d: int, p: int, q: int): (r: Result<int, RsaError>)
    requires p >= 2 && q >= 2
    ensures r.Success? <==> Gcd(q % p, p) == 1
    ensures r.Failure? ==> r.error == NotInvertible
    ensures r.Success? ==>
              0 <= r.value < p * q &&
              r.value % p == ModPow(c, d % (p - 1), p) &&
              r.value % q == ModPow(c, d % (q - 1), q)
  {
    var dp := d % (p - 1);
    var dq := d % (q - 1);
    match ModInverse(q, p)
    case None => Failure(NotInvertible)
    case Some(qInv) =>
      var m1 := ModPow(c, dp, p);
      var m2 := ModPow(c, dq, q);
      var h := (qInv * (m1 - m2)) % p;
      Garner(p, q, qInv, m1, m2, h);
      Success(m2 + h * q)
  }

  /**
   * The search may return `p == q` (`RepeatedCandidate`); decryption then
   * fails, because `pow(q, -1, p)` has no inverse to find.
   */
  lemma SamePrimeFails(c: int, d: int, p: int)
    requires p >= 2
    ensures CrtDecrypt(c, d, p, p) == Failure(NotInvertible)
  {
    ModUnique(p, p, 1, 0);
    ZeroNotUnit(p);
  }

  /** Garner's combination is the representative below `p*q` of `m1 (mod p)` and `m2 (mod q)`. */
  lemma Garner(p: pos, q: pos, qInv: int, m1: int, m2: int, h: int)
    requires IsInverse(q, qInv, p) && 0 <= m1 < p && 0 <= m2 < q
    requires h == (qInv * (m1 - m2)) % p
    ensures 0 <= m2 + h * q < p * q
    ensures (m2 + h * q) % p == m1 && (m2 + h * q) % q == m2
  {
    GarnerBound(p, q, m2, h);
    ModUnique(m2 + h * q, q, h, m2);
    GarnerResidue(p, q, qInv, m1 - m2, h);
    AddMod(m2, h * q, p);
    AddMod(m2, m1 - m2, p);
    ModUnique(m1, p, 0, m1);
  }

  lemma GarnerBound(p: pos, q: pos, m2: int, h: int)
    requires 0 <= m2 < q && 0 <= h < p
    ensures 0 <= m2 + h * q < p * q
  {
    var u := p - 1 - h;
    assert u * q >= 0;
    assert p * q == m2 + h * q + u * q + (q - m2);
  }

  /** `q * (q^-1 * v mod p)` is `v` modulo `p`. */
  lemma GarnerResidue(p: pos, q: int, qInv: int, v: int, h: int)
    requires IsInverse(q, qInv, p) && h == (qInv * v) % p
    ensures (h * q) % p == v % p
  {
    MulModLeft(qInv * v, q, p);
    assert (qInv * v) * q == (q * v) * qInv;
    CancelInverse(q, qInv, v, p);
  }

  // ---------------------------------------------------------------------
  // Correctness of decryption

  /** With `x == 1 (mod (p-1)(q-1))`, Fermat's little theorem gives `m^x == m (mod p)`. */
  lemma FermatForKey(p: int, q: int, m: int, x: nat)
    requires IsPrime(p) && q >= 2 && x % ((p - 1) * (q - 1)) == 1
    ensures Pow(m, x) % p == m % p
  {
    var phi := (p - 1) * (q - 1);
    var t := x / phi;
    assert x == phi * t + 1;
    var u: nat := t * (q - 1);
    assert x == 1 + u * (p - 1);
    FermatPower(p, m, u);
  }

  /** Textbook RSA inverts itself: `(m^e mod n)^d mod n == m` for every `m` in `[0, n)`. */
  lemma RoundTrip(p: int, q: int, e: int, m: int)
    requires IsPrime(p) && IsPrime(q) && p != q && DeriveKeys(p, q, e).Success?
    requires 0 <= m < p * q
    ensures var k := DeriveKeys(p, q, e).value;
            ModPow(ModPow(m, k.public.e, k.public.n), k.private.d, k.public.n) == m
  {
    var k := DeriveKeys(p, q, e).value;
    InverseExponents(p, q, e, k.private.d, m);
  }

  /** The round trip for any `e`, `d` with `e * d == 1 (mod (p-1)(q-1))`. */
  lemma InverseExponents(p: int, q: int, e: nat, d: nat, m: int)
    requires IsPrime(p) && IsPrime(q) && p != q
    requires (e * d) % ((p - 1) * (q - 1)) == 1
    requires 0 <= m < p * q
    ensures ModPow(ModPow(m, e, p * q), d, p * q) == m
  {
    ModPowModPow(m, e, d, p * q);
    var x: nat := e * d;
    var z := Pow(m, x) % (p * q);
    ResidueOfKeyPower(p, q, m, x);
    ResidueOfKeyPower(q, p, m, x);
    assert z % q == m % q;
    assert ModPow(m, x, p * q) == z;
    DistinctPrimesCoprime(p, q);
    CrtUnique(p, q, z, m);
  }

  /** Modulo the prime factor `p` of `n`, `m^x mod n` is `m` when `x == 1 (mod (p-1)(q-1))`. */
  lemma ResidueOfKeyPower(p: int, q: int, m: int, x: nat)
    requires IsPrime(p) && IsPrime(q)
    requires x % ((p - 1) * (q - 1)) == 1 || x % ((q - 1) * (p - 1)) == 1
    ensures (Pow(m, x) % (p * q)) % p == m % p
    ensures (Pow(m, x) % (q * p)) % p == m % p
  {
    assert (q - 1) * (p - 1) == (p - 1) * (q - 1);
    assert p * q == q * p;
    ModOfProduct(Pow(m, x), p, q);
    FermatForKey(p, q, m, x);
  }

  /** Distinct primes: neither is a multiple of the other. */
  lemma PrimeNotMultiple(p: int, q: int)
    requires IsPrime(p) && IsPrime(q) && p != q
    ensures q % p != 0
  {
    if p < q {
      assert !Divides(p, q);
    } else {
      ModUnique(q, p, 0, q);
    }
  }

  /**
   * For distinct primes and an exponent that neither `p - 1` nor `q - 1`
   * divides, CRT decryption equals direct decryption `pow(c, d, n)`.
   */
  lemma CrtMatchesDirect(c: int, d: nat, p: int, q: int)
    requires IsPrime(p) && IsPrime(q) && p != q
    requires d % (p - 1) != 0 && d % (q - 1) != 0
    ensures CrtDecrypt(c, d, p, q) == Success(ModPow(c, d, p * q))
  {
    PrimeNotMultiple(p, q);
    ModMod(q, p);
    PrimeCoprime(p, q % p);
    var m := CrtDecrypt(c, d, p, q).value;
    var z := ModPow(c, d, p * q);
    ModOfProduct(Pow(c, d), p, q);
    ReduceExponent(p, c, d);
    assert p * q == q * p;
    ModOfProduct(Pow(c, d), q, p);
    ReduceExponent(q, c, d);
    DistinctPrimesCoprime(p, q);
    CrtUnique(p, q, m, z);
  }

  /**
   * The closing assertion of rsa.py: for keys built from two distinct odd
   * primes, `crt_decrypt(c, d, p, q) == pow(c, d, n)` for every `c`.
   */
  lemma CrossCheck(p: int, q: int, e: int, c: int)
    requires IsPrime(p) && IsPrime(q) && p != q && p >= 3 && q >= 3
    requires DeriveKeys(p, q, e).Success?
    ensures var k := DeriveKeys(p, q, e).value;
            CrtDecrypt(c, k.private.d, p, q) == Success(ModPow(c, k.private.d, k.public.n))
  {
    var k := DeriveKeys(p, q, e).value;
    CrtMatchesKey(p, q, e, k.private.d, c);
  }

  /** CRT and direct decryption agree for any `d` inverse to some `e` modulo `(p-1)(q-1)`. */
  lemma CrtMatchesKey(p: int, q: int, e: int, d: nat, c: int)
    requires IsPrime(p) && IsPrime(q) && p != q && p >= 3 && q >= 3
    requires (e * d) % ((p - 1) * (q - 1)) == 1
    ensures CrtDecrypt(c, d, p, q) == Success(ModPow(c, d, p * q))
  {
    KeyExponentReducible(p, q, e, d);
    assert (q - 1) * (p - 1) == (p - 1) * (q - 1);
    KeyExponentReducible(q, p, e, d);
    CrtMatchesDirect(c, d, p, q);
  }

  /** Encrypting with `(e, n)` and decrypting through the CRT gives the message back. */
  lemma CrtRoundTrip(p: int, q: int, e: int, m: int)
    requires IsPrime(p) && IsPrime(q) && p != q && p >= 3 && q >= 3
    requires DeriveKeys(p, q, e).Success?
    requires 0 <= m < p * q
    ensures var k := DeriveKeys(p, q, e).value;
            CrtDecrypt(ModPow(m, k.public.e, k.public.n), k.private.d, p, q) == Success(m)
  {
    var k := DeriveKeys(p, q, e).value;
    CrossCheck(p, q, e, ModPow(m, k.public.e, k.public.n));
    RoundTrip(p, q, e, m);
  }

  // ---------------------------------------------------------------------
  // The public exponent

  /**
   * With `e = 65337 = 3 * 29 * 751`, key derivation fails for every `p`
   * with `p == 1 (mod 3)`, since 3 then divides both `e` and `phi`.
   */
  lemma AsWrittenExponentRejects(p: int, q: int)
    requires p % 3 == 1
    ensures GenerateKeysAsWritten(p, q).Failure?
  {
    var phi := (p - 1) * (q - 1);
    MulMod(p - 1, q - 1, 3);
    if 1 < PublicExponent < phi {
      ThreeDividesGcd(phi);
    }
  }

  /** 3 divides 65337, so it divides `gcd(65337, phi)` whenever it divides `phi`. */
  lemma ThreeDividesGcd(phi: nat)
    requires phi % 3 == 0
    ensures Gcd(PublicExponent, phi) != 1
  {
    assert Divides(3, PublicExponent) && Divides(3, phi);
  }

  /**
   * With the prime `e = 65537`, key derivation succeeds whenever
   * `phi > e` and neither `p - 1` nor `q - 1` is a multiple of `e`.
   */
  lemma FermatExponentAccepts(p: int, q: int)
    requires (p - 1) * (q - 1) > FermatExponent
    requires (p - 1) % FermatExponent != 0 && (q - 1) % FermatExponent != 0
    ensures GenerateKeys(p, q).Success?
  {
    var phi := (p - 1) * (q - 1);
    Prime65537();
    if phi % FermatExponent == 0 {
      PrimeDividesProduct(FermatExponent, p - 1, q - 1);
    }
    PrimeCoprime(FermatExponent, phi);
    CoprimeSymmetric(phi, FermatExponent);
  }

  /** 65537 is prime, by trial division with the odd numbers up to 265. */
  lemma Prime65537()
    ensures IsPrime(FermatExponent)
  {
    NoOddDivisor3To25();
    NoOddDivisor27To49();
    NoOddDivisor51To73();
    NoOddDivisor75To97();
    NoOddDivisor99To121();
    NoOddDivisor123To145();
    NoOddDivisor147To169();
    NoOddDivisor171To193();
    NoOddDivisor195To217();
    NoOddDivisor219To241();
    NoOddDivisor243To265();
    NoOddDivisorJoin(FermatExponent, 219, 241, 265);
    NoOddDivisorJoin(FermatExponent, 195, 217, 265);
    NoOddDivisorJoin(FermatExponent, 171, 193, 265);
    NoOddDivisorJoin(FermatExponent, 147, 169, 265);
    NoOddDivisorJoin(FermatExponent, 123, 145, 265);
    NoOddDivisorJoin(FermatExponent, 99, 121, 265);
    NoOddDivisorJoin(FermatExponent, 75, 97, 265);
    NoOddDivisorJoin(FermatExponent, 51, 73, 265);
    NoOddDivisorJoin(FermatExponent, 27, 49, 265);
    NoOddDivisorJoin(FermatExponent, 3, 25, 265);
    TrialDivision(FermatExponent, 265);
  }

  lemma NoOddDivisor3To25() ensures NoOddDivisorFrom(FermatExponent, 3, 25) { }
  lemma NoOddDivisor27To49() ensures NoOddDivisorFrom(FermatExponent, 27, 49) { }
  lemma NoOddDivisor51To73() ensures NoOddDivisorFrom(FermatExponent, 51, 73) { }
  lemma NoOddDivisor75To97() ensures NoOddDivisorFrom(FermatExponent, 75, 97) { }
  lemma NoOddDivisor99To121() ensures NoOddDivisorFrom(FermatExponent, 99, 121) { }
  lemma NoOddDivisor123To145() ensures NoOddDivisorFrom(FermatExponent, 123, 145) { }
  lemma NoOddDivisor147To169() ensures NoOddDivisorFrom(FermatExponent, 147, 169) { }
  lemma NoOddDivisor171To193() ensures NoOddDivisorFrom(FermatExponent, 171, 193) { }
  lemma NoOddDivisor195To217() ensures NoOddDivisorFrom(FermatExponent, 195, 217) { }
  lemma NoOddDivisor219To241() ensures NoOddDivisorFrom(FermatExponent, 219, 241) { }
  lemma NoOddDivisor243To265() ensures NoOddDivisorFrom(FermatExponent, 243, 265) { }
}
