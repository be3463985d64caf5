/**
 * The library routines the core calls without implementing them: PEM armour
 * (RFC 7468), PKCS#1 DER (appendix A.1 of RFC 8017) and encoding/json's text
 * layout. Each is a function value in `Codecs`, so every property of the core
 * holds for every behaviour of these routines.
 */
module Library {
  import opened Go
  import opened Wrappers
  import opened Json
  import opened RsaKeys

  /** `pem.Block`, without its headers, which the core never reads. */
  datatype PemBlock = PemBlock(blockType: string, bytes: seq<byte>)

  datatype Codecs = Codecs(
    /** `pem.Decode`: the first PEM block in the input, if any. */
    pemDecode: seq<byte> -> Option<PemBlock>,
    /** `pem.EncodeToMemory`. */
    pemEncode: PemBlock -> seq<byte>,
    /** `x509.ParsePKCS1PrivateKey`, with the error's text. */
    parsePKCS1Private: seq<byte> -> Result<PrivateKey>,
    /** `x509.ParsePKCS1PublicKey`, with the error's text. */
    parsePKCS1Public: seq<byte> -> Result<PublicKey>,
    /** `x509.MarshalPKCS1PrivateKey`. */
    marshalPKCS1Private: PrivateKey -> seq<byte>,
    /** `x509.MarshalPKCS1PublicKey`. */
    marshalPKCS1Public: PublicKey -> seq<byte>,
    /** The indented text `json.MarshalIndent(_, "", "\t")` writes for an object's members. */
    indentedJson: seq<Member> -> seq<byte>)
}
