# CSI4108 Assignment 3 in Dafny

A model of the public-key scripts of CSI4108 Assignment 3, with proofs of what they compute:

- **`miller_rabin.py`** — one round of the Miller–Rabin primality test (module `MillerRabin`).
- **`rsa.py`** — RSA key generation and decryption. This covers the search for two probable primes, deriving `(e, n)` and `(d, p, q)`, and decryption through the Chinese remainder theorem (module `Rsa`).
- **`elgamal.py`** — ElGamal key generation, encryption and decryption modulo 89, and the known-plaintext attack that its fixed ephemeral exponent allows (module `ElGamal`).
- **`ecc.py`**:
  - elliptic-curve point addition, doubling and double-and-add scalar multiplication (module `Ecc`);
  - the `itoh`/`htoi` hexadecimal helpers (module `HexText`);
  - the ordinary Diffie–Hellman agreement (module `DiffieHellman`).

Shared modules:

- `Wrappers` holds `Option` and `Result`.
- `Arith` is Python's integer toolkit: `pow(b, e, m)`, `pow(x, -1, m)`, `math.gcd` and the facts used about remainders.
- `Fermat` holds number theory: Fermat's little theorem (via the binomial theorem), Euclid's lemma, uniqueness of CRT residues, and primality by trial division.

How the scripts' features are modelled:

- **Integers.** All integers are unbounded, as in Python. Every modulus is positive, and for a positive modulus Dafny's `%` agrees with Python's.
- **Errors.** Where the scripts fail on an `assert` or a `ValueError`, the model returns a `Failure` naming the cause.
- **Randomness.** Random choices are parameters: the Miller–Rabin witness, the stream of RSA candidates and their witnesses, `X_A`, and the Diffie–Hellman exponents.
- **Point at infinity.** The scripts encode it as `(math.inf, math.inf)`. Here it is the constructor `Ecc.Infinity`.
- **`a` in doubling.** `Point.__add__` doubles with the module-level `a` of ecc.py, not with the curve's own coefficient. `Ecc.Add` therefore takes that value as a separate argument `globalA`. For secp160k1 both are 0. `Ecc.ToyDoubleGlobalA` shows that on a curve with `a ≠ 0`, the line as written leaves the curve.
- **RSA defects.** The prime search is modelled as written, with the Miller–Rabin round that starts its scan at `j == 1` (`Rsa.GeneratePrimes`). `Rsa.PrimesAsWritten` states which primes it throws away, and `Rsa.PrimesSurvive` states that the search with the corrected round keeps every prime. Key derivation is modelled for any public exponent: `Rsa.GenerateKeysAsWritten` uses the script's 65337, and `Rsa.GenerateKeys` the intended 65537 (see "## Findings").

## Model

| member | source | states |
|---|---|---|
| Arith.Gcd | rsa.py:64 | `math.gcd(a, b)` divides both arguments and is divisible by every common divisor |
| Arith.ModInverse | rsa.py:67 | `pow(x, -1, m)` is an inverse of `x` in `[0, m)`; it exists exactly when `gcd(x mod m, m) == 1`; otherwise no inverse exists |
| MillerRabin.TwoAdic | miller_rabin.py:11-16 | `m == 2^k * q` with `q` odd, and `q > 0` when `m > 0` |
| MillerRabin.TwoAdicOfEven | miller_rabin.py:11-16 | for odd `n`, `n - 1` is even, so the split has `k >= 1` |
| MillerRabin.TwoAdicUnique | miller_rabin.py:11-16 | any split `m == 2^k * q` with `q` odd is the one halving finds |
| MillerRabin.Halve | miller_rabin.py:12-16 | the halving loop ends with exactly that split of `n - 1` |
| MillerRabin.ScanSquares | miller_rabin.py:26-30 | the scan reports true iff some `j` in `[first, k)` has `a^(2^j q) mod n == n - 1` |
| MillerRabin.Test | miller_rabin.py:7-33 | `n == 3` is inconclusive; `n < 3` has no witness range; otherwise the verdict is inconclusive iff `a^q ≡ 1` or `a^(2^j q) ≡ n - 1` for some `j` in `[1, k)` |
| MillerRabin.TestFromZero | miller_rabin.py:26-30 | the same round with the scan starting at `j == 0` |
| MillerRabin.RoundVerdict | miller_rabin.py:22-33 | the verdict of one round for `n >= 4`, scanning `j` from a given start; no contract of its own, `Test`, `TestFromZero` and the lemmas below state its meaning |
| MillerRabin.EvenCandidate | miller_rabin.py:11-30 | for even `n` there is no halving: only `a^(n-1) ≡ 1 (mod n)` gives inconclusive |
| MillerRabin.SquareStep | miller_rabin.py:29 | each term of the chain `a^(2^j q) mod n` is the square of the previous one |
| MillerRabin.ChainReachesOne | miller_rabin.py:22-30 | modulo a prime, a chain that reaches 1 starts at 1 or passes through `n - 1` |
| MillerRabin.FromZeroAcceptsPrimes | miller_rabin.py:22-33 | the round scanning from `j == 0` never calls a prime composite, for any witness in `[2, n - 2]` |
| MillerRabin.AsWrittenRejectsSeven | miller_rabin.py:27 | 7 is prime, yet the round as written calls it composite with witness 3 |
| MillerRabin.AsWrittenIsStricter | miller_rabin.py:23-30 | whatever the round as written accepts, the corrected round accepts; they differ exactly when `a^q ≡ n - 1` is the only witness and `k >= 1` |
| MillerRabin.OnesAfterMinusOne | miller_rabin.py:26-30 | once `a^q ≡ n - 1`, every later term `a^(2^j q)` of the chain is 1, never `n - 1` |
| MillerRabin.AsWrittenRejectsMinusOne | miller_rabin.py:23-33 | the round as written calls `n` composite whenever `a^q ≡ n - 1` |
| MillerRabin.AsWrittenOnPrimes | miller_rabin.py:23-33 | on a prime, the round as written is inconclusive iff `a^q mod n != n - 1` |
| Rsa.Passes | rsa.py:25-33 | a candidate is kept when it is odd and none of its seven rounds, each scanning from a given `j`, says composite; a definition, with no contract of its own |
| Rsa.Survivors | rsa.py:21-37 | the candidates that pass, in the order drawn; a definition, with no contract of its own |
| Rsa.GeneratePrimes | rsa.py:19-42 | the search as written, with `miller_rabin.test` scanning from `j == 1`, returns the first two odd candidates that pass all seven rounds, in the order drawn, or fails when fewer than two pass |
| Rsa.SurvivorsPrefix | rsa.py:21-40 | drawing more candidates only extends the list of survivors |
| Rsa.SurvivorsExactly | rsa.py:28-37 | a value survives iff a candidate equal to it passes every round |
| Rsa.RepeatedCandidate | rsa.py:33-37 | the search does not require `p != q`: a passing candidate drawn twice becomes both primes |
| Rsa.PrimesAsWritten | rsa.py:28-37 | the search as written keeps a prime candidate iff none of its seven witnesses has `a^q ≡ n - 1`; a prime drawn once is a survivor exactly then |
| Rsa.PrimesSurvive | miller_rabin.py:26-30 | with the round corrected to scan from `j == 0`, every prime candidate passes every round and is among the survivors |
| Rsa.DeriveKeys | rsa.py:56-72 | keys exist iff `1 < e < phi` and `gcd(e, phi) == 1`; then `n == p q`, `d < phi` and `e d ≡ 1 (mod phi)` with `phi == (p-1)(q-1)` |
| Rsa.GenerateKeysAsWritten | rsa.py:53-72 | `generate_keys` as written, `DeriveKeys` with `e = 65337`; a definition, whose meaning `DeriveKeys` and `AsWrittenExponentRejects` state |
| Rsa.GenerateKeys | rsa.py:62-67 | the intended key derivation, `DeriveKeys` with `e = 65537`, which the script does not use; a definition, whose meaning `DeriveKeys` and `FermatExponentAccepts` state |
| Rsa.KeyExponentReducible | rsa.py:66-67 | for `p >= 3`, a private exponent is never a multiple of `p - 1` |
| Rsa.CrtDecrypt | rsa.py:81-105 | CRT decryption succeeds iff `q` is invertible modulo `p`; its result is in `[0, p q)` and agrees with `c^(d mod (p-1)) mod p` and `c^(d mod (q-1)) mod q` |
| Rsa.Garner | rsa.py:99-103 | `m2 + q * h` is the representative in `[0, p q)` of `m1 mod p` and `m2 mod q` |
| Rsa.FermatForKey | rsa.py:60-67 | if `x ≡ 1 (mod (p-1)(q-1))` then `m^x ≡ m (mod p)`, for every `m` |
| Rsa.InverseExponents | rsa.py:60-67 | exponents inverse modulo `(p-1)(q-1)` undo each other on every `m` in `[0, p q)` |
| Rsa.RoundTrip | rsa.py:57-71 | encrypting with the public key and then decrypting with `d` modulo `n` returns `m`, for distinct primes |
| Rsa.CrtMatchesDirect | rsa.py:81-105 | for distinct primes and `d` not a multiple of `p - 1` or `q - 1`, CRT decryption equals `pow(c, d, n)` |
| Rsa.CrtMatchesKey | rsa.py:84-103 | CRT and direct decryption agree for every private exponent of odd distinct primes |
| Rsa.CrossCheck | rsa.py:140 | the closing assertion `crt_decrypt(c, d, p, q) == pow(c, d, n)` holds for every `c` with keys derived from odd distinct primes |
| Rsa.SamePrimeFails | rsa.py:91 | when the search returns `p == q`, decryption fails, because `pow(q, -1, p)` has no inverse |
| Rsa.CrtRoundTrip | rsa.py:81-105 | CRT decryption of `m^e mod n` returns `m` |
| Rsa.AsWrittenExponentRejects | rsa.py:63-64 | with `e = 65337`, the key assertion fails for every `p ≡ 1 (mod 3)` |
| Rsa.ThreeDividesGcd | rsa.py:63-64 | 3 divides `gcd(65337, phi)` whenever it divides `phi` |
| Rsa.FermatExponentAccepts | rsa.py:62-67 | with `e = 65537`, keys are derived whenever `phi > e` and `e` divides neither `p - 1` nor `q - 1` |
| Rsa.Prime65537 | rsa.py:63 | 65537 is prime |
| ElGamal.GenerateKeys | elgamal.py:7-20 | `Y_A == 13^X_A mod 89`, and it lies in `[1, 89)` |
| ElGamal.GeneratorIsUnit | elgamal.py:8-9 | 48 is the inverse of 13 modulo 89 |
| ElGamal.PrimeQ | elgamal.py:8 | 89 is prime |
| ElGamal.Mask | elgamal.py:40-41 | the one-time key `K = Y^k mod q` lies in `[0, q)` |
| ElGamal.Encrypt | elgamal.py:23-48 | encryption succeeds iff `a < q`, `Y_A < q` and `0 <= M <= q - 1`; both components lie in `[0, q)` |
| ElGamal.Decrypt | elgamal.py:51-66 | decryption fails on `q == 0`; it succeeds iff `K = C_1^X_A mod q` is a unit; the result is the residue in `[0, q)` whose product with `K` is `C_2` |
| ElGamal.SharedMask | elgamal.py:41-61 | sender and receiver derive the same one-time key: `(a^X)^k ≡ (a^k)^X` |
| ElGamal.RoundTrip | elgamal.py:23-66 | for a unit generator and `Y_A = a^X_A mod q`, decrypting the encryption of `m` in `[0, q)` returns `m` |
| ElGamal.ScriptRoundTrip | elgamal.py:7-66 | the round trip holds for every key the script can draw and every `m` in `[0, 89)` |
| ElGamal.KnownPlaintext | elgamal.py:85 | the computed `m2` exists iff `c21` is a unit; it lies in `[0, q)` and satisfies `m2 c21 ≡ c22 m1` |
| ElGamal.SameEphemeral | elgamal.py:38-47 | two encryptions under one key share `C_1` and the mask `K` |
| ElGamal.KnownPlaintextRecovers | elgamal.py:75-85 | knowing `m1` and the second components of both encryptions reveals `m2`, when `K` and `m1` are units |
| ElGamal.ScriptKnownPlaintext | elgamal.py:79-85 | with the script's keys, the attack recovers every `m2` from any nonzero `m1` |
| Ecc.IsOnCurve | ecc.py:32-39 | fails on the point at infinity; otherwise true iff `y^2 ≡ x^3 + a x + b (mod p)` |
| Ecc.CurveCongruence | ecc.py:36-39 | the script's comparison of reduced powers is exactly that congruence |
| Ecc.ChordSlope | ecc.py:68 | the slope exists iff `xq - xp` is a unit; it lies in `[0, p)` and satisfies `m (xq - xp) ≡ yq - yp` |
| Ecc.TangentSlope | ecc.py:75 | the slope exists iff `2 yp` is a unit; it lies in `[0, p)` and satisfies `m (2 yp) ≡ 3 xp^2 + a` |
| Ecc.TangentSlopeIs | ecc.py:75 | the tangent slope is the only solution of its equation in `[0, p)` |
| Ecc.DoubleIs | ecc.py:74-80 | when `2y` is a unit, doubling `(x, y)` gives the third point on the tangent of any slope in `[0, p)` that solves the tangent equation |
| Ecc.ThirdPoint | ecc.py:70-71 | `xr + xp + xq ≡ m^2` and `yr + yp ≡ m (xp - xr)`, with both coordinates in `[0, p)` |
| Ecc.Add | ecc.py:53-80 | infinity is a two-sided identity, and every failure is a missing inverse |
| Ecc.AddDistinct | ecc.py:67-73 | two different finite points add iff `xq - xp` is a unit, and the sum is the third point on their chord |
| Ecc.AddDouble | ecc.py:74-80 | doubling succeeds iff `2 y` is a unit, and the result is the third point on the tangent with slope `(3 x^2 + a) / 2 y`, where `a` is the global |
| Ecc.AddCommutes | ecc.py:67-73 | adding two different points does not depend on their order |
| Ecc.ChordSlopeSwap | ecc.py:68 | the chord slope is the same from either end |
| Ecc.ChordSymmetric | ecc.py:70-71 | with a common slope, the third-point formulas agree for either order of the points |
| Ecc.OppositePointsFail | ecc.py:67-68 | `P + (-P)` (same `x`, different `y`) fails, because `xq - xp` has no inverse |
| Ecc.DoublingVerticalFails | ecc.py:75 | doubling a point with `y ≡ 0` fails |
| Ecc.Bits | ecc.py:88 | `k == 0` iff there are no digits, and the most significant digit is 1 |
| Ecc.BitsValue | ecc.py:88 | the digits the loop walks, least significant first, add up to `k`: `Σ bit_i 2^i == k` |
| Ecc.BitsLength | ecc.py:88 | the number of digits is the bit length of `k` |
| Ecc.Ladder | ecc.py:88-92 | the double-and-add walk over a list of digits, least significant first; a definition whose meaning `Mul`, `MulFailure`, `MulOne` and `MulEven` state |
| Ecc.MulSpec | ecc.py:82-95 | `k * P`: fails on `k <= 0`, otherwise the walk from infinity over the digits of `k`; a definition whose meaning `MulFailure`, `MulInfinity`, `MulOne` and `MulEven` state |
| Ecc.Mul | ecc.py:82-95 | the double-and-add loop returns exactly `MulSpec`: fail unless `k > 0`, otherwise the ladder from infinity over the digits of `k` |
| Ecc.MulFailure | ecc.py:83-91 | multiplication fails on the assertion iff `k <= 0`; any other failure is a missing inverse |
| Ecc.MulInfinity | ecc.py:85-92 | every positive multiple of the point at infinity is the point at infinity |
| Ecc.MulOne | ecc.py:88-91 | `1 * P == P` only when `P + P` succeeds, because the loop doubles after the last digit too |
| Ecc.MulEven | ecc.py:88-91 | `(2k) * P == k * (P + P)`, and it fails when `P + P` fails |
| Ecc.ToyPoints | ecc.py:36-39 | on `y^2 = x^3 + 2x + 2` over `F_17`, `(5, 1)` and `(6, 3)` lie on the curve and `(15, 15)` does not |
| Ecc.ToyDoubleCurveA | ecc.py:75-80 | doubling `(5, 1)` with the curve's own `a = 2` gives `(6, 3)` |
| Ecc.ToyDoubleGlobalA | ecc.py:75-80 | doubling `(5, 1)` with the script's global `a = 0` gives `(15, 15)`, which is off the curve |
| HexText.DigitValue | ecc.py:103 | a digit value is below 16; upper-case digits have one and the space does not |
| HexText.HexDigit | ecc.py:107 | the digit written for `d` is upper case and reads back as `d` |
| HexText.Hex | ecc.py:107 | `format(i, "x").upper()` is non-empty, upper case, `"0"` for 0, and has no leading zero otherwise |
| HexText.ValueOfHex | ecc.py:103-107 | reading back the digits of `i` gives `i` |
| HexText.Wrap | ecc.py:108 | `textwrap.wrap` of a text without whitespace: consecutive pieces of the given width; a definition whose meaning `WrapPieces` states |
| HexText.WrapPieces | ecc.py:108 | `textwrap.wrap` cuts the text into pieces that concatenate back to it, all of width 8 except a last piece of 1 to 8 |
| HexText.ConcatReverseEach | ecc.py:108-109 | reversing each piece and the list of pieces reverses the whole text |
| HexText.BlocksOfHex | ecc.py:106-110 | the blocks of `itoh(i)` spell the hex digits of `i`; every block has 8 digits except the leftmost, which has 1 to 8 |
| HexText.RemoveSpaces | ecc.py:103 | `h.replace(" ", "")` contains no space |
| HexText.AllHexWithoutSpaces | ecc.py:103 | after removing spaces the text is all digits iff every non-space character is a digit, and it is empty iff the text was only spaces |
| HexText.HtoiDefined | ecc.py:102-103 | `htoi` fails exactly on a text of spaces only, or one with a character that is neither a space nor a hex digit |
| HexText.HtoiIgnoresSpaces | ecc.py:102-103 | inserting a space anywhere does not change what `htoi` reads |
| HexText.RemoveSpacesJoin | ecc.py:103-110 | removing the spaces of space-joined blocks concatenates the blocks |
| HexText.Itoh | ecc.py:106-110 | `itoh(i)` for `i >= 0`: the blocks joined by single spaces; a definition whose meaning `BlocksOfHex` and `HtoiItoh` state |
| HexText.Htoi | ecc.py:102-103 | `htoi(h)`: the value of the text without spaces, or none where `int(_, 16)` raises; a definition whose meaning `HtoiDefined`, `HtoiIgnoresSpaces` and `HtoiItoh` state |
| HexText.HtoiItoh | ecc.py:102-110 | `htoi(itoh(i)) == i` for every `i >= 0` |
| DiffieHellman.Power | ecc.py:199-211 | `pow(base, X, q)`, both the public value `Y = alpha^X mod q` and the shared key `K = Y^X mod q`, lies in `[0, q)` |
| DiffieHellman.Agreement | ecc.py:207-221 | both parties derive the same key, `alpha^(X_A X_B) mod q` |

## Left out

- File I/O and caching: the `rsa_parameters.json` read and write (rsa.py:13-17, 48-51, 74-76) and the `10000.txt` lookup are left out; persistence is not logic.
- Printing and timing (`print`, `time.perf_counter_ns`), including the debug print of `test`, are left out: they do not affect results.
- The demo code is covered only through the properties it asserts or prints. The code that runs on import (miller_rabin.py:36-61, elgamal.py:69-86) and the `__main__` blocks (rsa.py:108-140, ecc.py:113-221) are otherwise left out. Those properties are `Rsa.CrossCheck` for rsa.py:140, `ElGamal.ScriptKnownPlaintext` for elgamal.py:75-86, and `DiffieHellman.Agreement` for ecc.py:221.
- Randomness: `random.seed` and `random.randint` are replaced by parameters constrained to the ranges `randint` guarantees.
- Rsa.GeneratePrimes: the endless `while` loop over random draws is modelled as a finite stream of candidates, with failure when the stream runs out before two survivors.
- Rsa.GeneratePrimes: the candidates' range is the precondition `AllInRange`. The witness oracle gives each round's `randint(2, n - 2)` result.
- MillerRabin.Test: `n == 1` is excluded by precondition, because the halving loop never ends on `q == 0`.
- Rsa.CrtDecrypt: requires `p, q >= 2`. For `p == 1` or `q == 1`, Python reduces modulo 0 and raises.
- ElGamal.Decrypt: requires `q >= 0` and a non-negative `X_A`. Python would also accept a negative modulus or a negative exponent (as an inverse); the script never produces either.
- Ecc.Add: the group law itself is left out because it needs heavy nonlinear modular algebra. This covers closure (the sum lies on the curve), associativity, and the ECDH assertion `k_A == k_B` (ecc.py:172).
- The `g`, `n` and `h` fields of `Curve` are left out because no modelled operation reads them.
- The `math.inf` float encoding of the point at infinity is replaced by a constructor. There is no float arithmetic.
- HexText.Htoi: models `int(_, 16)` on ASCII hex digits of either case only. Python also accepts a sign, a `0x` prefix, underscores between digits, surrounding whitespace other than spaces, and non-ASCII Unicode decimal digits such as Arabic-Indic digits.
- HexText.Itoh: defined for `i >= 0` only. For a negative `i`, `format` writes a minus sign, which the model does not handle.
- The concrete 160-bit secp160k1 and 1024-bit RFC 5114 constants are not evaluated. They are too large to compute with in proofs; a small curve over `F_17` is used in the example lemmas instead.
- Miller–Rabin's error probability is left out: it is a claim about randomness, not about the code.

## Findings

| source | as written | input that shows it | evidently intended | confidence | as-written member | corrected member |
|---|---|---|---|---|---|---|
| miller_rabin.py:27 | the scan `for j in range(1, k)` skips `j == 0`, so a witness with `a^q ≡ n - 1 (mod n)` is not accepted | `n = 7`, `a = 3`: `6 = 2^1 * 3` and `3^3 mod 7 == 6`, so the prime 7 is called composite | the scan from `j == 0` of the published test, which never rejects a prime | not executed | MillerRabin.AsWrittenRejectsSeven | MillerRabin.FromZeroAcceptsPrimes |
| rsa.py:63 | the public exponent is `65337 = 3 * 29 * 751` | `p = 7`, `q = 65537`: `phi = 6 * 65536` is a multiple of 3, so `gcd(e, phi) == 3` and the assertion fails; the same failure follows for every `p ≡ 1 (mod 3)` | the prime `65537 = 2^16 + 1`, coprime to `phi` unless it divides `p - 1` or `q - 1` | not executed | Rsa.AsWrittenExponentRejects | Rsa.FermatExponentAccepts |
