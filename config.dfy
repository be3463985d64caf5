/** The string constants of internal/config/constants.go. */
module Config {
  const KeyTypeRSA := "RSA"
  const KeyTypeRSAPublicKey := "RSA PUBLIC KEY"
  const KeyTypeRSAPrivateKey := "RSA PRIVATE KEY"

  /**
   * `KeyTypeSymmetric`. Its value is not part of this model; "oct" is the key
   * type section 6.1 of RFC 7518 gives symmetric keys. The lemmas only use that
   * it differs from "RSA".
   */
  const KeyTypeSymmetric := "oct"

  const KeyFormatPEM := "PEM"
  const KeyFormatDER := "DER"
  const KeyFormatJWK := "JWK"
}
