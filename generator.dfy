/**
 * `RSAKeyGenerator` (internal/generator/generator.go): pick the marshaller and
 * file-name suffix from the output format, then write the private key and the
 * public key, in that order, stopping at the first error.
 */
module Generator {
  import opened Go
  import opened Wrappers
  import opened Json
  import opened RsaKeys
  import opened Library
  import opened Config
  import KeyJson

  /** `filepath.Join(dir, name)`, kept as its two parts. */
  datatype FilePath = FilePath(dir: string, name: string)

  /** One completed `os.WriteFile` call. */
  datatype FileWrite = FileWrite(path: FilePath, data: seq<byte>, mode: nat)

  /** Why a write of the key pair stopped. */
  datatype WriteError =
    | FormatError(message: string)   // the marshaller's error
    | WriteFailed(path: FilePath)    // os.WriteFile's *PathError

  const PrivateKeyMode: nat := 0x180  // 0600
  const PublicKeyMode: nat := 0x1a4   // 0644

  /** The file system as far as the generator sees it: which paths refuse writes, and what was written. */
  class FileSystem {
    /** Paths where `os.WriteFile` fails. */
    const refused: set<FilePath>
    /** The completed writes, oldest first. */
    var written: seq<FileWrite>

    constructor (refused: set<FilePath>)
      ensures this.refused == refused && written == []
    {
      this.refused := refused;
      written := [];
    }

    /** `os.WriteFile`. */
    method WriteFile(path: FilePath, data: seq<byte>, mode: nat) returns (ok: bool)
      modifies this
      ensures ok <==> path !in refused
      ensures written == old(written) + if ok then [FileWrite(path, data, mode)] else []
    {
      ok := path !in refused;
      if ok {
        written := written + [FileWrite(path, data, mode)];
      }
    }
  }

  /** The result of writing one file: the writes made and the error returned. */
  function WriteOutcome(path: FilePath, data: Result<seq<byte>>, mode: nat, refused: set<FilePath>): (seq<FileWrite>, Option<WriteError>)
  {
    match data
    case Err(e) => ([], Some(FormatError(e)))
    case Ok(bytes) => if path in refused then ([], Some(WriteFailed(path))) else ([FileWrite(path, bytes, mode)], None)
  }

  class RSAKeyGenerator {
    const outputDir: string
    const format: string

    constructor (outputDir: string, format: string)
      ensures this.outputDir == outputDir && this.format == format
    {
      this.outputDir := outputDir;
      this.format := format;
    }

    /** `fileName`: the suffix the format calls for; an unknown format keeps the bare name. */
    function FileName(def: string): (r: string)
      ensures |def| <= |r| && r[..|def|] == def
    {
      if format == KeyFormatPEM then def
      else if format == KeyFormatDER then def + ".der"
      else if format == KeyFormatJWK then def + ".json"
      else def
    }

    function PrivateKeyPath(): FilePath
    {
      FilePath(outputDir, FileName("id_rsa"))
    }

    function PublicKeyPath(): FilePath
    {
      FilePath(outputDir, FileName("id_rsa.pub"))
    }

    /**
     * `marshalPrivateKey`: PKCS#1 DER, that DER inside a "RSA PRIVATE KEY" PEM
     * block, or the indented JWK; any other format string is an error. The JWK
     * builder panics on a key with fewer than two primes.
     */
    function MarshalPrivateKey(lib: Codecs, k: PrivateKey): (r: Result<seq<byte>>)
      requires format == KeyFormatJWK ==> |k.primes| >= 2
      ensures r.Err? <==> format !in [KeyFormatPEM, KeyFormatDER, KeyFormatJWK]
      ensures r.Err? ==> r.error == "unsupported format: " + format
      ensures format == KeyFormatDER ==> r == Ok(lib.marshalPKCS1Private(k))
      ensures format == KeyFormatPEM ==>
                r == Ok(lib.pemEncode(PemBlock(KeyTypeRSAPrivateKey, lib.marshalPKCS1Private(k))))
      ensures format == KeyFormatJWK ==>
                r == Ok(lib.indentedJson(KeyJson.MarshalJSON(KeyJson.Key(KeyJson.RsaPrivate(k), "", "", "")).value))
    {
      if format == KeyFormatDER then Ok(lib.marshalPKCS1Private(k))
      else if format == KeyFormatPEM then Ok(lib.pemEncode(PemBlock(KeyTypeRSAPrivateKey, lib.marshalPKCS1Private(k))))
      else if format == KeyFormatJWK then
        match KeyJson.MarshalJSON(KeyJson.Key(KeyJson.RsaPrivate(k), "", "", ""))
        case Ok(members) => Ok(lib.indentedJson(members))
        case Err(e) => Err(e)
      else Err("unsupported format: " + format)
    }

    /** `marshalPublicKey`: as `marshalPrivateKey`, with the public PKCS#1 form and the "RSA PUBLIC KEY" label. */
    function MarshalPublicKey(lib: Codecs, pub: PublicKey): (r: Result<seq<byte>>)
      ensures r.Err? <==> format !in [KeyFormatPEM, KeyFormatDER, KeyFormatJWK]
      ensures r.Err? ==> r.error == "unsupported format: " + format
      ensures format == KeyFormatDER ==> r == Ok(lib.marshalPKCS1Public(pub))
      ensures format == KeyFormatPEM ==>
                r == Ok(lib.pemEncode(PemBlock(KeyTypeRSAPublicKey, lib.marshalPKCS1Public(pub))))
      ensures format == KeyFormatJWK ==>
                r == Ok(lib.indentedJson(KeyJson.MarshalJSON(KeyJson.Key(KeyJson.RsaPublic(pub), "", "", "")).value))
    {
      if format == KeyFormatDER then Ok(lib.marshalPKCS1Public(pub))
      else if format == KeyFormatPEM then Ok(lib.pemEncode(PemBlock(KeyTypeRSAPublicKey, lib.marshalPKCS1Public(pub))))
      else if format == KeyFormatJWK then
        match KeyJson.MarshalJSON(KeyJson.Key(KeyJson.RsaPublic(pub), "", "", ""))
        case Ok(members) => Ok(lib.indentedJson(members))
        case Err(e) => Err(e)
      else Err("unsupported format: " + format)
    }

    /** What `WriteKeyPair` does: the private key's write, then, only if it succeeded, the public key's. */
    function KeyPairOutcome(lib: Codecs, k: PrivateKey, refused: set<FilePath>): (seq<FileWrite>, Option<WriteError>)
      requires format == KeyFormatJWK ==> |k.primes| >= 2
    {
      var (first, err) := WriteOutcome(PrivateKeyPath(), MarshalPrivateKey(lib, k), PrivateKeyMode, refused);
      if err.Some? then (first, err)
      else
        var (second, err') := WriteOutcome(PublicKeyPath(), MarshalPublicKey(lib, k.publicKey), PublicKeyMode, refused);
        (first + second, err')
    }

    /** `writePrivateKey`. */
    method WritePrivateKey(lib: Codecs, fs: FileSystem, k: PrivateKey) returns (err: Option<WriteError>)
      requires format == KeyFormatJWK ==> |k.primes| >= 2
      modifies fs
      ensures fs.written == old(fs.written) + WriteOutcome(PrivateKeyPath(), MarshalPrivateKey(lib, k), PrivateKeyMode, fs.refused).0
      ensures err == WriteOutcome(PrivateKeyPath(), MarshalPrivateKey(lib, k), PrivateKeyMode, fs.refused).1
    {
      var path := FilePath(outputDir, FileName("id_rsa"));
      var data := MarshalPrivateKey(lib, k);
      if data.Err? {
        return Some(FormatError(data.error));
      }
      var ok := fs.WriteFile(path, data.value, PrivateKeyMode);
      err := if ok then None else Some(WriteFailed(path));
    }

    /** `writePublicKey`. */
    method WritePublicKey(lib: Codecs, fs: FileSystem, pub: PublicKey) returns (err: Option<WriteError>)
      modifies fs
      ensures fs.written == old(fs.written) + WriteOutcome(PublicKeyPath(), MarshalPublicKey(lib, pub), PublicKeyMode, fs.refused).0
      ensures err == WriteOutcome(PublicKeyPath(), MarshalPublicKey(lib, pub), PublicKeyMode, fs.refused).1
    {
      var path := FilePath(outputDir, FileName("id_rsa.pub"));
      var data := MarshalPublicKey(lib, pub);
      if data.Err? {
        return Some(FormatError(data.error));
      }
      var ok := fs.WriteFile(path, data.value, PublicKeyMode);
      err := if ok then None else Some(WriteFailed(path));
    }

    /** `WriteKeyPair`: the writes and the error are those `KeyPairOutcome` gives. */
    method WriteKeyPair(lib: Codecs, fs: FileSystem, k: PrivateKey) returns (err: Option<WriteError>)
      requires format == KeyFormatJWK ==> |k.primes| >= 2
      modifies fs
      ensures fs.written == old(fs.written) + KeyPairOutcome(lib, k, fs.refused).0
      ensures err == KeyPairOutcome(lib, k, fs.refused).1
    {
      err := WritePrivateKey(lib, fs, k);
      if err.Some? {
        return;
      }
      err := WritePublicKey(lib, fs, k.publicKey);
    }

    /**
     * The file names: PEM and any unrecognised format keep the bare name, DER adds
     * ".der", JWK adds ".json"; the private and public files never share a name.
     */
    lemma FileNames(def: string)
      ensures format == KeyFormatDER ==> FileName(def) == def + ".der"
      ensures format == KeyFormatJWK ==> FileName(def) == def + ".json"
      ensures format !in [KeyFormatDER, KeyFormatJWK] ==> FileName(def) == def
      ensures PrivateKeyPath() != PublicKeyPath()
    {
      var a, b := FileName("id_rsa"), FileName("id_rsa.pub");
      assert a[6..] != b[6..] by {
        assert |b| > 6 && b[6] == '.';
        if |a| > 6 {
          assert a[6] == '.' && a[7] != b[7];
        }
      }
    }

    /**
     * The format strings are exact: "pem", "der", "jwk" and every other variant
     * are refused by both marshallers, and then nothing is written at all.
     */
    lemma UnsupportedFormatWritesNothing(lib: Codecs, k: PrivateKey, refused: set<FilePath>)
      requires format !in [KeyFormatPEM, KeyFormatDER, KeyFormatJWK]
      ensures KeyPairOutcome(lib, k, refused) == ([], Some(FormatError("unsupported format: " + format)))
    {
    }

    /**
     * The private key comes first, at id_rsa with mode 0600; if it fails nothing
     * more happens; otherwise the public file follows at id_rsa.pub with mode 0644,
     * holding the private key's own public half.
     */
    lemma KeyPairOrder(lib: Codecs, k: PrivateKey, refused: set<FilePath>)
      requires format == KeyFormatJWK ==> |k.primes| >= 2
      ensures var (writes, err) := KeyPairOutcome(lib, k, refused);
              |writes| <= 2
              && (|writes| >= 1 ==> writes[0] == FileWrite(PrivateKeyPath(), MarshalPrivateKey(lib, k).value, PrivateKeyMode))
              && (|writes| == 2 ==> writes[1] == FileWrite(PublicKeyPath(), MarshalPublicKey(lib, k.publicKey).value, PublicKeyMode))
              && (err.None? <==> |writes| == 2)
              && (MarshalPrivateKey(lib, k).Err? || PrivateKeyPath() in refused ==> writes == [])
    {
    }
  }
}
