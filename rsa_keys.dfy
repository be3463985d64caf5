/**
 * The crypto/rsa key values the core reads. Big integers are non-negative
 * (`nat`); the public exponent is a Go `int`.
 */
module RsaKeys {
  import opened Go

  /** `rsa.PublicKey`. */
  datatype PublicKey = PublicKey(n: nat, e: int64)

  /** `rsa.PrecomputedValues`: the CRT values Dp, Dq and Qinv. */
  datatype PrecomputedValues = PrecomputedValues(dp: nat, dq: nat, qinv: nat)

  /** `rsa.PrivateKey`, which embeds its public half. */
  datatype PrivateKey = PrivateKey(
    publicKey: PublicKey,
    d: nat,
    primes: seq<nat>,
    precomputed: PrecomputedValues)

  /**
   * The two-prime relations of section 3.2 of RFC 8017: p * q = n,
   * dp = d mod (p - 1), dq = d mod (q - 1) and qinv * q = 1 mod p.
   * crypto/x509 and crypto/rsa establish them; nothing in the repository checks them.
   */
  ghost predicate ValidTwoPrimeKey(k: PrivateKey)
  {
    |k.primes| == 2
    && var p, q := k.primes[0], k.primes[1];
    p > 1 && q > 1 && p * q == k.publicKey.n
    && k.precomputed.dp == k.d % (p - 1)
    && k.precomputed.dq == k.d % (q - 1)
    && k.precomputed.qinv < p && (q * k.precomputed.qinv) % p == 1
  }
}
