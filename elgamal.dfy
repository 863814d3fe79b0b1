/**
 * ElGamal encryption of elgamal.py over the group of residues modulo the
 * prime 89 with generator 13, and the known-plaintext attack that the fixed
 * ephemeral exponent `k = 41` allows.
 *
 * The private exponent drawn by `random.randint(2, q - 2)` is a parameter.
 */
module ElGamal {
  import opened Wrappers
  import opened Arith
  import opened Fermat

  /** The modulus, the generator and the (fixed) ephemeral exponent of the script. */
  const Q := 89
  const Generator := 13
  const Ephemeral := 41

  datatype PublicKey = PublicKey(q: int, a: int, ya: int)
  datatype Keys = Keys(xa: nat, public: PublicKey)
  datatype Ciphertext = Ciphertext(c1: int, c2: int)

  datatype ElGamalError =
    | AssertionFailed  // one of the assertions of `encrypt` fails
    | ZeroModulus      // `pow(b, e, 0)` raises ValueError
    | NotInvertible    // `pow(x, -1, q)` raises ValueError

  /** The one-time key `K = Y^k mod q` for exponent `k`. */
  function Mask(y: int, k: nat, q: pos): (m: nat)
    ensures m < q
  {
    ModPow(y, k, q)
  }

  /**
   * `generate_keys`: `Y_A = 13^X_A mod 89` for the private `X_A` drawn from
   * `[2, 87]`. Since 13 is a unit modulo 89, `Y_A` is never 0.
   */
  function GenerateKeys(xa: int): (r: Keys)
    requires 2 <= xa <= Q - 2
    ensures r.xa == xa && r.public.q == Q && r.public.a == Generator
    ensures r.public.ya == ModPow(Generator, xa, Q) && 1 <= r.public.ya < Q
  {
    var ya := ModPow(Generator, xa, Q);
    GeneratorIsUnit();
    UnitPower(Generator, xa, Q);
    Keys(xa, PublicKey(Q, Generator, ya))
  }

  /** 48 is the inverse of 13 modulo 89, so 13 is coprime to 89. */
  lemma GeneratorIsUnit()
    ensures IsInverse(Generator, 48, Q) && Gcd(Generator % Q, Q) == 1
  {
    assert Generator * 48 == 7 * Q + 1;
    ModUnique(Generator * 48, Q, 7, 1);
    ModUnique(1, Q, 0, 1);
    assert ModInverse(Generator, Q).Some?;
  }

  /** A power of a unit is a unit, and so is never 0 modulo `q > 1`. */
  lemma UnitPower(a: int, e: nat, q: pos)
    requires Gcd(a % q, q) == 1
    ensures Gcd(ModPow(a, e, q) % q, q) == 1
    ensures q > 1 ==> ModPow(a, e, q) != 0
  {
    var s := ModInverse(a, q).value;
    InverseOfPow(a, s, e, q);
    InverseOfResidue(Pow(a, e), Pow(s, e), q);
    InverseOfResidue(ModPow(a, e, q), Pow(s, e), q);
    assert ModInverse(ModPow(a, e, q), q).Some?;
    if q > 1 {
      ModUnique(1, q, 0, 1);
    }
  }

  /**
   * `encrypt`: the assertions `a < q`, `Y_A < q` and `0 <= M <= q - 1`, then
   * `C_1 = a^41 mod q` and `C_2 = K * M mod q` with `K = Y_A^41 mod q`.
   */
  function Encrypt(m: int, pub: PublicKey): (r: Result<Ciphertext, ElGamalError>)
    ensures r.Success? <==> pub.a < pub.q && pub.ya < pub.q && 0 <= m <= pub.q - 1
    ensures r.Failure? ==> r.error == AssertionFailed
    ensures r.Success? ==> 0 <= r.value.c1 < pub.q && 0 <= r.value.c2 < pub.q
  {
    if !(pub.a < pub.q && pub.ya < pub.q && 0 <= m <= pub.q - 1) then
      Failure(AssertionFailed)
    else
      var k := Mask(pub.ya, Ephemeral, pub.q);
      Success(Ciphertext(ModPow(pub.a, Ephemeral, pub.q), (k * m) % pub.q))
  }

  /**
   * `decrypt`: recover `K = C_1^X_A mod q` and return `C_2 * K^-1 mod q`,
   * the unique residue whose product with `K` is `C_2`.
   */
  function Decrypt(c: Ciphertext, keys: Keys): (r: Result<int, ElGamalError>)
    requires keys.public.q >= 0
    ensures keys.public.q == 0 ==> r == Failure(ZeroModulus)
    ensures keys.public.q > 0 ==>
              (r.Success? <==> Gcd(Mask(c.c1, keys.xa, keys.public.q), keys.public.q) == 1)
    ensures keys.public.q > 0 && r.Failure? ==> r.error == NotInvertible
    ensures r.Success? ==>
              keys.public.q > 0 && 0 <= r.value < keys.public.q &&
              (r.value * Mask(c.c1, keys.xa, keys.public.q)) % keys.public.q == c.c2 % keys.public.q
  {
    var q := keys.public.q;
    if q == 0 then
      Failure(ZeroModulus)
    else
      var k := Mask(c.c1, keys.xa, q);
      ModUnique(k, q, 0, k);
      match ModInverse(k, q)
      case None => Failure(NotInvertible)
      case Some(kInv) =>
        var m := (c.c2 * kInv) % q;
        Unmask(k, kInv, c.c2, q);
        Success(m)
  }

  /** Multiplying `v * K^-1 mod q` by `K` gives back `v` modulo `q`. */
  lemma Unmask(k: int, kInv: int, v: int, q: pos)
    requires IsInverse(k, kInv, q)
    ensures (((v * kInv) % q) * k) % q == v % q
  {
    var w := v * kInv;
    MulModLeft(w, k, q);
    assert w * k == (k * v) * kInv;
    CancelInverse(k, kInv, v, q);
  }

  // ---------------------------------------------------------------------
  // Correctness

  /** Both sides derive the same one-time key: `(a^X)^k == (a^k)^X (mod q)`. */
  lemma SharedMask(a: int, xa: nat, q: pos)
    ensures Mask(ModPow(a, xa, q), Ephemeral, q) == Mask(ModPow(a, Ephemeral, q), xa, q)
  {
    ModPowCommute(a, xa, Ephemeral, q);
  }

  /**
   * Decryption inverts encryption for every key pair whose generator is a
   * unit modulo `q` and whose public part is `Y_A = a^X_A mod q`.
   */
  lemma RoundTrip(keys: Keys, m: int)
    requires keys.public.q >= 1 && keys.public.a < keys.public.q
    requires Gcd(keys.public.a % keys.public.q, keys.public.q) == 1
    requires keys.public.ya == ModPow(keys.public.a, keys.xa, keys.public.q)
    requires 0 <= m < keys.public.q
    ensures Encrypt(m, keys.public).Success?
    ensures Decrypt(Encrypt(m, keys.public).value, keys) == Success(m)
  {
    var pub := keys.public;
    var q: pos := pub.q;
    var c := Encrypt(m, pub).value;
    var k := Mask(pub.ya, Ephemeral, q);
    SharedMask(pub.a, keys.xa, q);
    assert Mask(c.c1, keys.xa, q) == k;
    ModPowModPow(pub.a, keys.xa, Ephemeral, q);
    UnitPower(pub.a, keys.xa * Ephemeral, q);
    ModUnique(k, q, 0, k);
    var r := Decrypt(c, keys).value;
    MulModLeft(k * m, 1, q);
    MaskedResidue(k, m, r, q);
  }

  /** If `r * K == K * m (mod q)` for a unit `K` and both lie in `[0, q)`, then `r == m`. */
  lemma MaskedResidue(k: int, m: int, r: int, q: pos)
    requires Gcd(k % q, q) == 1 && 0 <= m < q && 0 <= r < q
    requires (r * k) % q == ((k * m) % q) % q
    ensures r == m
  {
    ModMod(k * m, q);
    assert k * m == m * k;
    UnitCancel(k, r, m, q);
  }

  /** The script's keys satisfy `RoundTrip` for every private exponent it can draw. */
  lemma ScriptRoundTrip(xa: int, m: int)
    requires 2 <= xa <= Q - 2 && 0 <= m < Q
    ensures Encrypt(m, GenerateKeys(xa).public).Success?
    ensures Decrypt(Encrypt(m, GenerateKeys(xa).public).value, GenerateKeys(xa)) == Success(m)
  {
    GeneratorIsUnit();
    RoundTrip(GenerateKeys(xa), m);
  }

  // ---------------------------------------------------------------------
  // The known-plaintext attack

  /** `computed_m2 = (pow(c21, -1, q) * (c22 * m1)) % q`. */
  function KnownPlaintext(c21: int, c22: int, m1: int, q: pos): (r: Result<int, ElGamalError>)
    ensures r.Success? <==> Gcd(c21 % q, q) == 1
    ensures r.Failure? ==> r.error == NotInvertible
    ensures r.Success? ==> 0 <= r.value < q && (r.value * c21) % q == (c22 * m1) % q
  {
    match ModInverse(c21, q)
    case None => Failure(NotInvertible)
    case Some(inv) =>
      var m2 := (inv * (c22 * m1)) % q;
      assert (c22 * m1) * inv == inv * (c22 * m1);
      Unmask(c21, inv, c22 * m1, q);
      Success(m2)
  }

  /** Two encryptions under the same key share `C_1` and the mask `K`. */
  lemma SameEphemeral(pub: PublicKey, m1: int, m2: int)
    requires Encrypt(m1, pub).Success? && Encrypt(m2, pub).Success?
    ensures Encrypt(m1, pub).value.c1 == Encrypt(m2, pub).value.c1
    ensures var k := Mask(pub.ya, Ephemeral, pub.q);
            Encrypt(m1, pub).value.c2 == (k * m1) % pub.q &&
            Encrypt(m2, pub).value.c2 == (k * m2) % pub.q
  {
  }

  /**
   * Knowing `m1` and the second components of the encryptions of `m1` and
   * `m2` reveals `m2`, provided `K` and `m1` are units.
   */
  lemma KnownPlaintextRecovers(pub: PublicKey, m1: int, m2: int)
    requires pub.q >= 1 && Encrypt(m1, pub).Success? && Encrypt(m2, pub).Success?
    requires Gcd(Mask(pub.ya, Ephemeral, pub.q), pub.q) == 1 && Gcd(m1 % pub.q, pub.q) == 1
    ensures KnownPlaintext(Encrypt(m1, pub).value.c2, Encrypt(m2, pub).value.c2, m1, pub.q) == Success(m2)
  {
    var q: pos := pub.q;
    var k := Mask(pub.ya, Ephemeral, q);
    ModUnique(k, q, 0, k);
    UnitProduct(k, m1, q);
    var r := KnownPlaintext((k * m1) % q, (k * m2) % q, m1, q).value;
    Cancel(k, m1, m2, r, q);
  }

  /** The product of two units is a unit, also after reduction. */
  lemma UnitProduct(x: int, y: int, q: pos)
    requires Gcd(x % q, q) == 1 && Gcd(y % q, q) == 1
    ensures Gcd(((x * y) % q) % q, q) == 1
  {
    var xInv := ModInverse(x, q).value;
    var yInv := ModInverse(y, q).value;
    InverseOfProduct(x, xInv, y, yInv, q);
    InverseOfResidue(x * y, xInv * yInv, q);
    InverseOfResidue((x * y) % q, xInv * yInv, q);
    assert ModInverse((x * y) % q, q).Some?;
  }

  /** `r * (K m1) == (K m2) * m1 (mod q)` with `K m1` a unit and `r, m2` in `[0, q)` forces `r == m2`. */
  lemma Cancel(k: int, m1: int, m2: int, r: int, q: pos)
    requires Gcd(((k * m1) % q) % q, q) == 1 && 0 <= m2 < q && 0 <= r < q
    requires (r * ((k * m1) % q)) % q == (((k * m2) % q) * m1) % q
    ensures r == m2
  {
    var u := (k * m1) % q;
    MulModLeft(k * m2, m1, q);
    assert (k * m2) * m1 == (k * m1) * m2;
    MulModLeft(k * m1, m2, q);
    assert (u * m2) % q == (r * u) % q;
    ModMod(u * m2, q);
    MaskedResidue(u, m2, r, q);
  }

  /** Modulo the prime 89, every key the script can draw and every nonzero `m1` allow the attack. */
  lemma ScriptKnownPlaintext(xa: int, m1: int, m2: int)
    requires 2 <= xa <= Q - 2 && 1 <= m1 < Q && 0 <= m2 < Q
    ensures var pub := GenerateKeys(xa).public;
            KnownPlaintext(Encrypt(m1, pub).value.c2, Encrypt(m2, pub).value.c2, m1, Q) == Success(m2)
  {
    ScriptMaskIsUnit(xa);
    MessageIsUnit(m1);
    KnownPlaintextRecovers(GenerateKeys(xa).public, m1, m2);
  }

  lemma ScriptMaskIsUnit(xa: int)
    requires 2 <= xa <= Q - 2
    ensures Gcd(Mask(GenerateKeys(xa).public.ya, Ephemeral, Q), Q) == 1
  {
    var ya := GenerateKeys(xa).public.ya;
    GeneratorIsUnit();
    UnitPower(Generator, xa, Q);
    UnitPower(ya, Ephemeral, Q);
    var k := Mask(ya, Ephemeral, Q);
    ModUnique(k, Q, 0, k);
  }

  lemma MessageIsUnit(m: int)
    requires 1 <= m < Q
    ensures Gcd(m % Q, Q) == 1
  {
    PrimeQ();
    ModUnique(m, Q, 0, m);
    PrimeCoprime(Q, m);
  }

  /** 89 is prime. */
  lemma PrimeQ()
    ensures IsPrime(Q)
  {
    assert NoOddDivisorFrom(Q, 3, 9);
    TrialDivision(Q, 9);
  }
}
