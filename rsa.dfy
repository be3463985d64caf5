/** The RSA builders of internal/key/rsa.go: which JWK members each key kind produces. */
module RsaJwk {
  import opened Go
  import opened Wrappers
  import opened Json
  import opened Conv
  import opened BigEndian
  import opened Base64
  import opened Jwk
  import opened RsaKeys
  import opened Config

  /**
   * `rsaPublicKeyToJWK`: kty "RSA", n the minimal magnitude of N, e from
   * `IntToBigEndian(E)`, nothing else. The Go function's error result is always nil.
   */
  function RsaPublicKeyToJWK(pub: PublicKey): (j: JSONWebKey)
    ensures j.keyType == KeyTypeRSA
    ensures j.modulus.Some? && BigInt(j.modulus.value) == pub.n
    ensures NoLeadingZero(j.modulus.value)
    ensures j.publicExponent.Some? <==> pub.e != 0
    ensures j.publicExponent.Some? ==> BigInt(j.publicExponent.value) == Uint64Of(pub.e)
    ensures j.publicExponent.Some? ==> NoLeadingZero(j.publicExponent.value)
    ensures j.algorithm == j.crv == j.use == j.keyID == "" && j.symmetricKey == []
    ensures j.privateExponent.None? && j.prime0.None? && j.prime1.None?
    ensures j.dp.None? && j.dq.None? && j.qi.None?
  {
    JSONWebKey(
      keyType := KeyTypeRSA,
      algorithm := "", crv := "", use := "", keyID := "",
      symmetricKey := [],
      modulus := NewBytes(Slice(MagnitudeBytes(pub.n))),
      publicExponent := NewBytes(IntToBigEndian(pub.e)),
      privateExponent := None, prime0 := None, prime1 := None,
      dp := None, dq := None, qi := None)
  }

  /**
   * `rsaPrivateKeyToJWK`: the public members plus d, p, q from `Primes[0]` and
   * `Primes[1]`, and dp, dq, qi copied from `Precomputed`. Fewer than two primes
   * make the Go code panic on the index.
   */
  function RsaPrivateKeyToJWK(k: PrivateKey): (j: JSONWebKey)
    requires |k.primes| >= 2
    ensures j.keyType == KeyTypeRSA
    ensures j.modulus == RsaPublicKeyToJWK(k.publicKey).modulus
    ensures j.publicExponent == RsaPublicKeyToJWK(k.publicKey).publicExponent
    ensures j.privateExponent.Some? && BigInt(j.privateExponent.value) == k.d && NoLeadingZero(j.privateExponent.value)
    ensures j.prime0.Some? && BigInt(j.prime0.value) == k.primes[0] && NoLeadingZero(j.prime0.value)
    ensures j.prime1.Some? && BigInt(j.prime1.value) == k.primes[1] && NoLeadingZero(j.prime1.value)
    ensures j.dp.Some? && BigInt(j.dp.value) == k.precomputed.dp && NoLeadingZero(j.dp.value)
    ensures j.dq.Some? && BigInt(j.dq.value) == k.precomputed.dq && NoLeadingZero(j.dq.value)
    ensures j.qi.Some? && BigInt(j.qi.value) == k.precomputed.qinv && NoLeadingZero(j.qi.value)
    ensures j.algorithm == j.crv == j.use == j.keyID == "" && j.symmetricKey == []
  {
    JSONWebKey(
      keyType := KeyTypeRSA,
      algorithm := "", crv := "", use := "", keyID := "",
      symmetricKey := [],
      modulus := NewBytes(Slice(MagnitudeBytes(k.publicKey.n))),
      publicExponent := NewBytes(IntToBigEndian(k.publicKey.e)),
      privateExponent := NewBytes(Slice(MagnitudeBytes(k.d))),
      prime0 := NewBytes(Slice(MagnitudeBytes(k.primes[0]))),
      prime1 := NewBytes(Slice(MagnitudeBytes(k.primes[1]))),
      dp := NewBytes(Slice(MagnitudeBytes(k.precomputed.dp))),
      dq := NewBytes(Slice(MagnitudeBytes(k.precomputed.dq))),
      qi := NewBytes(Slice(MagnitudeBytes(k.precomputed.qinv))))
  }

  /** A public key's JWK holds kty and n, and e unless E is 0 (then `IntToBigEndian` is nil). */
  lemma PublicJwkMembers(pub: PublicKey, f: Field)
    ensures JsonName(f) in Names(SerializeAsWritten(RsaPublicKeyToJWK(pub))) <==> f == Kty || f == N || (f == E && pub.e != 0)
  {
    PublicJwkPresent(pub, f);
    SerializedField(RsaPublicKeyToJWK(pub), Std, true, f);
  }

  /** A private key's JWK holds exactly kty, n, e (unless E is 0), d, p, q, dp, dq and qi. */
  lemma PrivateJwkMembers(k: PrivateKey, f: Field)
    requires |k.primes| >= 2
    ensures JsonName(f) in Names(SerializeAsWritten(RsaPrivateKeyToJWK(k))) <==>
              (f == Kty || IsNumeric(f)) && (f == E ==> k.publicKey.e != 0)
  {
    PrivateJwkPresent(k, f);
    SerializedField(RsaPrivateKeyToJWK(k), Std, true, f);
  }

  /** Which fields a record of the public builder's shape keeps. */
  lemma PublicShapePresent(j: JSONWebKey, f: Field, hasE: bool)
    requires j.algorithm == j.crv == j.use == j.keyID == "" && j.symmetricKey == []
    requires j.modulus.Some? && (j.publicExponent.Some? <==> hasE)
    requires j.privateExponent.None? && j.prime0.None? && j.prime1.None?
    requires j.dp.None? && j.dq.None? && j.qi.None?
    ensures Present(j, f) <==> f == Kty || f == N || (f == E && hasE)
  {
  }

  /** Which fields a record of the private builder's shape keeps. */
  lemma PrivateShapePresent(j: JSONWebKey, f: Field, hasE: bool)
    requires j.algorithm == j.crv == j.use == j.keyID == "" && j.symmetricKey == []
    requires j.modulus.Some? && (j.publicExponent.Some? <==> hasE)
    requires j.privateExponent.Some? && j.prime0.Some? && j.prime1.Some?
    requires j.dp.Some? && j.dq.Some? && j.qi.Some?
    ensures Present(j, f) <==> (f == Kty || IsNumeric(f)) && (f == E ==> hasE)
  {
  }

  lemma PublicJwkPresent(pub: PublicKey, f: Field)
    ensures Present(RsaPublicKeyToJWK(pub), f) <==> f == Kty || f == N || (f == E && pub.e != 0)
  {
    PublicShapePresent(RsaPublicKeyToJWK(pub), f, pub.e != 0);
  }

  lemma PrivateJwkPresent(k: PrivateKey, f: Field)
    requires |k.primes| >= 2
    ensures Present(RsaPrivateKeyToJWK(k), f) <==> (f == Kty || IsNumeric(f)) && (f == E ==> k.publicKey.e != 0)
  {
    PrivateShapePresent(RsaPrivateKeyToJWK(k), f, k.publicKey.e != 0);
  }

  /** Primes beyond the first two do not reach the JWK. */
  lemma ExtraPrimesIgnored(k: PrivateKey, more: seq<nat>)
    requires |k.primes| >= 2
    ensures RsaPrivateKeyToJWK(k.(primes := k.primes + more)) == RsaPrivateKeyToJWK(k)
  {
  }

  /**
   * For a key that satisfies the RFC 8017 relations, the members read back as
   * numbers satisfy them too: p * q = n, dp = d mod (p - 1), dq = d mod (q - 1),
   * qi * q = 1 mod p.
   */
  lemma ValidKeyJwkRelations(k: PrivateKey)
    requires ValidTwoPrimeKey(k)
    ensures var j := RsaPrivateKeyToJWK(k);
            var n, d, p, q := BigInt(j.modulus.value), BigInt(j.privateExponent.value),
                              BigInt(j.prime0.value), BigInt(j.prime1.value);
            p > 1 && q > 1 && p * q == n
            && BigInt(j.dp.value) == d % (p - 1) && BigInt(j.dq.value) == d % (q - 1)
            && (q * BigInt(j.qi.value)) % p == 1
  {
  }
}
