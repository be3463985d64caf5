/**
 * `parseKey` (cmd/common.go): recognise an RSA key given as a PEM block, as
 * PKCS#1 private-key DER or as PKCS#1 public-key DER, in that order.
 */
module ParseKey {
  import opened Go
  import opened Wrappers
  import opened RsaKeys
  import opened Library
  import opened Config

  /** `ParsedKey`; `None` stands for a nil pointer or a nil slice. */
  datatype ParsedKey = ParsedKey(
    kind: string,
    privateKey: Option<PrivateKey>,
    publicKey: Option<PublicKey>,
    pkcs1: seq<byte>,
    jwk: Option<seq<byte>>)

  const UnrecognizedFormat := "unrecognized key format (not PEM or PKCS#1 DER)"

  function PrivateParsed(lib: Codecs, prv: PrivateKey): ParsedKey
  {
    ParsedKey(KeyTypeRSAPrivateKey, Some(prv), None, lib.marshalPKCS1Private(prv), None)
  }

  function PublicParsed(lib: Codecs, pub: PublicKey): ParsedKey
  {
    ParsedKey(KeyTypeRSAPublicKey, None, Some(pub), lib.marshalPKCS1Public(pub), None)
  }

  /** A successful result: one of the two labels, the matching key alone, its re-marshalled PKCS#1 bytes, no JWK. */
  predicate WellFormed(lib: Codecs, p: ParsedKey)
  {
    p.jwk.None?
    && (p.kind == KeyTypeRSAPrivateKey || p.kind == KeyTypeRSAPublicKey)
    && (p.kind == KeyTypeRSAPrivateKey <==> p.privateKey.Some?)
    && (p.kind == KeyTypeRSAPublicKey <==> p.publicKey.Some?)
    && (p.privateKey.Some? ==> p.pkcs1 == lib.marshalPKCS1Private(p.privateKey.value))
    && (p.publicKey.Some? ==> p.pkcs1 == lib.marshalPKCS1Public(p.publicKey.value))
  }

  /** `parseKey`. */
  function ParseKey(lib: Codecs, data: seq<byte>): (r: Result<ParsedKey>)
    ensures r.Ok? ==> WellFormed(lib, r.value)
    ensures r.Ok? && r.value.privateKey.Some? ==>
              lib.parsePKCS1Private(data) == Ok(r.value.privateKey.value)
              || (lib.pemDecode(data).Some? && lib.pemDecode(data).value.blockType == KeyTypeRSAPrivateKey
                  && lib.parsePKCS1Private(lib.pemDecode(data).value.bytes) == Ok(r.value.privateKey.value))
    ensures r.Ok? && r.value.publicKey.Some? ==>
              lib.parsePKCS1Public(data) == Ok(r.value.publicKey.value)
              || (lib.pemDecode(data).Some? && lib.pemDecode(data).value.blockType == KeyTypeRSAPublicKey
                  && lib.parsePKCS1Public(lib.pemDecode(data).value.bytes) == Ok(r.value.publicKey.value))
  {
    match lib.pemDecode(data)
    case Some(block) =>
      if block.blockType == KeyTypeRSAPrivateKey then
        match lib.parsePKCS1Private(block.bytes)
        case Err(e) => Err("parse PKCS#1 private key: " + e)
        case Ok(prv) => Ok(PrivateParsed(lib, prv))
      else if block.blockType == KeyTypeRSAPublicKey then
        match lib.parsePKCS1Public(block.bytes)
        case Err(e) => Err("parse PKCS#1 public key: " + e)
        case Ok(pub) => Ok(PublicParsed(lib, pub))
      else
        Err("unsupported PEM block type: " + block.blockType)
    case None =>
      match lib.parsePKCS1Private(data)
      case Ok(prv) => Ok(PrivateParsed(lib, prv))
      case Err(_) =>
        match lib.parsePKCS1Public(data)
        case Ok(pub) => Ok(PublicParsed(lib, pub))
        case Err(_) => Err(UnrecognizedFormat)
  }

  /**
   * A PEM block decides the outcome: its label picks the parser, a parse failure
   * is reported with the parser's message, any other label is an error.
   */
  lemma PemLabelDispatch(lib: Codecs, data: seq<byte>, block: PemBlock)
    requires lib.pemDecode(data) == Some(block)
    ensures block.blockType == KeyTypeRSAPrivateKey ==>
              ParseKey(lib, data) == match lib.parsePKCS1Private(block.bytes)
                                     case Ok(prv) => Ok(PrivateParsed(lib, prv))
                                     case Err(e) => Err("parse PKCS#1 private key: " + e)
    ensures block.blockType == KeyTypeRSAPublicKey ==>
              ParseKey(lib, data) == match lib.parsePKCS1Public(block.bytes)
                                     case Ok(pub) => Ok(PublicParsed(lib, pub))
                                     case Err(e) => Err("parse PKCS#1 public key: " + e)
    ensures block.blockType != KeyTypeRSAPrivateKey && block.blockType != KeyTypeRSAPublicKey ==>
              ParseKey(lib, data) == Err("unsupported PEM block type: " + block.blockType)
  {
  }

  /**
   * Once a PEM block is found, the input is never parsed as DER: replacing how
   * the parsers treat anything but the block's bytes changes nothing.
   */
  lemma NoDerFallbackAfterPem(lib: Codecs, other: Codecs, data: seq<byte>, block: PemBlock)
    requires lib.pemDecode(data) == Some(block) && other.pemDecode(data) == Some(block)
    requires other.parsePKCS1Private(block.bytes) == lib.parsePKCS1Private(block.bytes)
    requires other.parsePKCS1Public(block.bytes) == lib.parsePKCS1Public(block.bytes)
    requires other.marshalPKCS1Private == lib.marshalPKCS1Private
    requires other.marshalPKCS1Public == lib.marshalPKCS1Public
    ensures ParseKey(other, data) == ParseKey(lib, data)
  {
  }

  /**
   * Without a PEM block: private-key DER is tried first and wins when it parses,
   * then public-key DER; when neither parses, the result is the
   * "unrecognized key format" error.
   */
  lemma DerOrder(lib: Codecs, data: seq<byte>)
    requires lib.pemDecode(data).None?
    ensures lib.parsePKCS1Private(data).Ok? ==>
              ParseKey(lib, data) == Ok(PrivateParsed(lib, lib.parsePKCS1Private(data).value))
    ensures lib.parsePKCS1Private(data).Err? && lib.parsePKCS1Public(data).Ok? ==>
              ParseKey(lib, data) == Ok(PublicParsed(lib, lib.parsePKCS1Public(data).value))
    ensures ParseKey(lib, data).Err? <==>
              lib.parsePKCS1Private(data).Err? && lib.parsePKCS1Public(data).Err?
    ensures ParseKey(lib, data).Err? ==> ParseKey(lib, data).error == UnrecognizedFormat
  {
  }

  /** Every failure carries one of the four messages `parseKey` produces. */
  lemma ErrorMessages(lib: Codecs, data: seq<byte>)
    ensures ParseKey(lib, data).Err? ==>
              var msg := ParseKey(lib, data).error;
              msg == UnrecognizedFormat
              || (exists e :: msg == "parse PKCS#1 private key: " + e)
              || (exists e :: msg == "parse PKCS#1 public key: " + e)
              || (lib.pemDecode(data).Some? && msg == "unsupported PEM block type: " + lib.pemDecode(data).value.blockType)
  {
  }
}
