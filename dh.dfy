/**
 * The ordinary Diffie-Hellman exchange at the end of ecc.py: each party
 * publishes `alpha^X mod q` for a private `X` and raises the other's public
 * value to its own private exponent. The group of RFC 5114, section 2.1, is
 * a parameter here; the private exponents the script draws with
 * `random.randint(1, q - 1)` are parameters too.
 */
module DiffieHellman {
  import opened Arith

  /**
   * `pow(base, X, q)` for a party's private exponent `X`: with `base = alpha`
   * it is the party's public value `Y`, with the other party's `Y` the
   * shared key `K`.
   */
  function Power(base: int, x: nat, q: pos): (y: nat)
    ensures y < q
  {
    ModPow(base, x, q)
  }

  /**
   * `K_A == K_B`: both parties derive `alpha^(X_A * X_B) mod q`, whatever
   * the group and the private exponents.
   */
  lemma Agreement(alpha: int, xa: nat, xb: nat, q: pos)
    ensures var ya, yb := Power(alpha, xa, q), Power(alpha, xb, q);
            var ka, kb := Power(yb, xa, q), Power(ya, xb, q);
            ka == kb && ka == Power(alpha, xa * xb, q)
  {
    ModPowCommute(alpha, xb, xa, q);
    ModPowModPow(alpha, xa, xb, q);
  }
}
