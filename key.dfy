/**
 * `Key` and its `MarshalJSON` (internal/key/key.go): dispatch on the kind of key
 * value held, build the JWK record, copy the metadata onto it, serialise it.
 */
module KeyJson {
  import opened Go
  import opened Wrappers
  import opened Json
  import opened Conv
  import opened Jwk
  import opened RsaKeys
  import opened RsaJwk
  import opened Config
  import opened Base64

  /** The dynamic type behind `Key.Value`, which is an `any`. */
  datatype KeyValue =
    | RsaPublic(pub: PublicKey)      // *rsa.PublicKey
    | RsaPrivate(priv: PrivateKey)   // *rsa.PrivateKey
    | Symmetric(bytes: seq<byte>)    // []byte
    | Unsupported                    // any other dynamic type

  /** `Key`. */
  datatype Key = Key(value: KeyValue, algorithm: string, keyID: string, use: string)

  /** `symmetricKeyToJWK`: kty from the configuration, k the key bytes, nothing else. */
  function SymmetricKeyToJWK(key: seq<byte>): (j: JSONWebKey)
    ensures j.keyType == KeyTypeSymmetric && j.keyType != KeyTypeRSA
    ensures j.symmetricKey == key
    ensures j.algorithm == j.crv == j.use == j.keyID == ""
    ensures forall f :: IsNumeric(f) ==> NumericMember(j, f).None?
  {
    JSONWebKey(
      keyType := KeyTypeSymmetric,
      algorithm := "", crv := "", use := "", keyID := "",
      symmetricKey := key,
      modulus := None, publicExponent := None, privateExponent := None,
      prime0 := None, prime1 := None, dp := None, dq := None, qi := None)
  }

  /** Which fields the symmetric builder's record keeps: kty, and k when the key is non-empty. */
  lemma SymmetricJwkPresent(key: seq<byte>, f: Field)
    ensures Present(SymmetricKeyToJWK(key), f) <==> f == Kty || (f == K && key != [])
  {
    SymmetricShapePresent(SymmetricKeyToJWK(key), f);
  }

  lemma SymmetricShapePresent(j: JSONWebKey, f: Field)
    requires j.algorithm == j.crv == j.use == j.keyID == ""
    requires forall g :: IsNumeric(g) ==> NumericMember(j, g).None?
    ensures Present(j, f) <==> f == Kty || (f == K && j.symmetricKey != [])
  {
    if IsNumeric(f) {
      assert NumericMember(j, f).None?;
    }
  }

  /**
   * `bigEndianFromInt`: the eight-byte big-endian pattern of `uint64(i)` with its
   * leading zero bytes trimmed, written out a second time in key.go.
   */
  function BigEndianFromInt(i: int64): (r: ByteSlice)
    ensures BigEndianValue(r.Bytes()) == Uint64Of(i)
    ensures r.Nil? <==> i == 0
  {
    TrimLeftZeros(PutUint64(Uint64Of(i)))
  }

  /** `bigEndianFromInt` and `IntToBigEndian` agree on every input. */
  lemma BigEndianFromIntIsIntToBigEndian(i: int64)
    ensures BigEndianFromInt(i) == IntToBigEndian(i)
    ensures BigEndianFromInt(i).Bytes() == MagnitudeBytes(Uint64Of(i))
  {
    IntToBigEndianIsMinimal(i);
  }

  /** The JWK record for the held value, before the metadata is copied on. */
  function BuildJWK(value: KeyValue): (r: Result<JSONWebKey>)
    requires value.RsaPrivate? ==> |value.priv.primes| >= 2
    ensures r.Err? <==> value.Unsupported?
  {
    match value
    case RsaPublic(pub) => Ok(RsaPublicKeyToJWK(pub))
    case RsaPrivate(priv) => Ok(RsaPrivateKeyToJWK(priv))
    case Symmetric(bytes) => Ok(SymmetricKeyToJWK(bytes))
    case Unsupported => Err("unsupported key type")
  }

  /**
   * The record `Key.MarshalJSON` hands to `json.Marshal`: the built JWK with
   * `Use`, `Algorithm` and `KeyID` assigned from the key.
   */
  function KeyToJWK(k: Key): (r: Result<JSONWebKey>)
    requires k.value.RsaPrivate? ==> |k.value.priv.primes| >= 2
    ensures r.Err? <==> k.value.Unsupported?
  {
    match BuildJWK(k.value)
    case Err(e) => Err(e)
    case Ok(j) => Ok(j.(use := k.use, algorithm := k.algorithm, keyID := k.keyID))
  }

  /**
   * `Key.MarshalJSON`: the members `json.Marshal` writes for the record, or the
   * error. `k` comes out in padded standard base64, as encoding/json writes any
   * `[]byte`. An `*rsa.PrivateKey` with fewer than two primes panics in the builder.
   */
  function MarshalJSON(k: Key): (r: Result<seq<Member>>)
    requires k.value.RsaPrivate? ==> |k.value.priv.primes| >= 2
    ensures r.Err? <==> k.value.Unsupported?
    ensures r.Err? ==> r.error == "unsupported key type"
  {
    match KeyToJWK(k)
    case Err(e) => Err(e)
    case Ok(j) => Ok(SerializeAsWritten(j))
  }

  /** `Key.MarshalJSON` with `k` corrected to unpadded base64url; every other member is unchanged. */
  function MarshalJSONBase64Url(k: Key): (r: Result<seq<Member>>)
    requires k.value.RsaPrivate? ==> |k.value.priv.primes| >= 2
    ensures r.Err? <==> k.value.Unsupported?
    ensures r.Err? ==> r.error == "unsupported key type"
  {
    match KeyToJWK(k)
    case Err(e) => Err(e)
    case Ok(j) => Ok(Serialize(j))
  }

  /**
   * A non-empty symmetric key is written as `k` in padded standard base64; the
   * corrected output writes it in base64url, which decodes back to the key.
   */
  lemma SymmetricKeyMember(k: Key)
    requires k.value.Symmetric? && k.value.bytes != []
    ensures Lookup(MarshalJSON(k).value, "k") == Some(Str(Encode(Std, true, k.value.bytes)))
    ensures Lookup(MarshalJSONBase64Url(k).value, "k") == Some(Str(Encode(Url, false, k.value.bytes)))
    ensures DecodeRawUrl(Encode(Url, false, k.value.bytes)) == Decoded(k.value.bytes, true)
  {
    var j := KeyToJWK(k).value;
    assert MarshalJSON(k).value == SerializeWith(j, Std, true);
    assert MarshalJSONBase64Url(k).value == SerializeWith(j, Url, false);
    assert j.symmetricKey == k.value.bytes;
    LookupSerialize(j, Std, true, K);
    LookupSerialize(j, Url, false, K);
    assert JsonName(K) == "k";
    RoundTrip(k.value.bytes);
  }

  /** The correction changes only `k`: same names, same value for every other member. */
  lemma CorrectionChangesOnlyK(k: Key, f: Field)
    requires k.value.RsaPrivate? ==> |k.value.priv.primes| >= 2
    requires !k.value.Unsupported?
    ensures Names(MarshalJSON(k).value) == Names(MarshalJSONBase64Url(k).value)
    ensures f != K ==> Lookup(MarshalJSON(k).value, JsonName(f)) == Lookup(MarshalJSONBase64Url(k).value, JsonName(f))
  {
    EncodingsDifferOnlyInK(KeyToJWK(k).value, f);
  }

  /**
   * Dispatch: a public key goes to the public builder, a private key to the
   * private builder, bytes to a symmetric JWK holding them; in every case the
   * metadata is copied verbatim and nothing else of the built record changes.
   */
  lemma Dispatch(k: Key)
    requires k.value.RsaPrivate? ==> |k.value.priv.primes| >= 2
    ensures k.value.RsaPublic? ==>
              KeyToJWK(k) == Ok(RsaPublicKeyToJWK(k.value.pub).(use := k.use, algorithm := k.algorithm, keyID := k.keyID))
    ensures k.value.RsaPrivate? ==>
              KeyToJWK(k) == Ok(RsaPrivateKeyToJWK(k.value.priv).(use := k.use, algorithm := k.algorithm, keyID := k.keyID))
    ensures k.value.Symmetric? ==>
              KeyToJWK(k) == Ok(SymmetricKeyToJWK(k.value.bytes).(use := k.use, algorithm := k.algorithm, keyID := k.keyID))
    ensures KeyToJWK(k).Ok? ==>
              var j := KeyToJWK(k).value;
              j.use == k.use && j.algorithm == k.algorithm && j.keyID == k.keyID
  {
  }

  /** `use`, `alg` and `kid` appear in the output exactly when the key's metadata is non-empty, with its text. */
  lemma MetadataCopied(k: Key)
    requires k.value.RsaPrivate? ==> |k.value.priv.primes| >= 2
    requires !k.value.Unsupported?
    ensures Lookup(MarshalJSON(k).value, "use") == if k.use == "" then None else Some(Str(k.use))
    ensures Lookup(MarshalJSON(k).value, "alg") == if k.algorithm == "" then None else Some(Str(k.algorithm))
    ensures Lookup(MarshalJSON(k).value, "kid") == if k.keyID == "" then None else Some(Str(k.keyID))
  {
    var j := KeyToJWK(k).value;
    assert MarshalJSON(k).value == SerializeWith(j, Std, true);
    assert j.use == k.use && j.algorithm == k.algorithm && j.keyID == k.keyID;
    LookupMetadata(j, Std, true);
  }

  /** A public key's output has none of the private members d, p, q, dp, dq, qi, and no k. */
  lemma PublicKeyHasNoPrivateMembers(k: Key, f: Field)
    requires k.value.RsaPublic?
    requires f == K || Position(f) >= Position(D)
    ensures JsonName(f) !in Names(MarshalJSON(k).value)
    ensures Lookup(MarshalJSON(k).value, JsonName(f)) == None
  {
    var j := KeyToJWK(k).value;
    assert MarshalJSON(k).value == SerializeWith(j, Std, true);
    assert j.symmetricKey == [] && j.privateExponent.None? && j.prime0.None? && j.prime1.None?;
    assert j.dp.None? && j.dq.None? && j.qi.None?;
    NoPrivateFieldKept(j, f);
    AbsentField(j, Std, true, f);
  }

  lemma NoPrivateFieldKept(j: JSONWebKey, f: Field)
    requires f == K || Position(f) >= Position(D)
    requires j.symmetricKey == [] && j.privateExponent.None? && j.prime0.None? && j.prime1.None?
    requires j.dp.None? && j.dq.None? && j.qi.None?
    ensures !Present(j, f)
  {
  }

  /** A symmetric key's output has no numeric member, in particular no n or e; k is written when the key is non-empty. */
  lemma SymmetricKeyHasNoNumericMembers(k: Key, f: Field)
    requires k.value.Symmetric?
    ensures IsNumeric(f) ==> JsonName(f) !in Names(MarshalJSON(k).value)
    ensures JsonName(K) in Names(MarshalJSON(k).value) <==> k.value.bytes != []
    ensures Lookup(MarshalJSON(k).value, "kty") == Some(Str(KeyTypeSymmetric))
  {
    var j := KeyToJWK(k).value;
    assert MarshalJSON(k).value == SerializeWith(j, Std, true);
    assert j.keyType == KeyTypeSymmetric && j.symmetricKey == k.value.bytes;
    assert forall g :: IsNumeric(g) ==> NumericMember(j, g).None?;
    SymmetricRecordMembers(j, f);
  }

  lemma SymmetricRecordMembers(j: JSONWebKey, f: Field)
    requires forall g :: IsNumeric(g) ==> NumericMember(j, g).None?
    ensures IsNumeric(f) ==> JsonName(f) !in Names(SerializeWith(j, Std, true))
    ensures JsonName(K) in Names(SerializeWith(j, Std, true)) <==> j.symmetricKey != []
    ensures Lookup(SerializeWith(j, Std, true), "kty") == Some(Str(j.keyType))
  {
    SerializedField(j, Std, true, K);
    if IsNumeric(f) {
      assert NumericMember(j, f).None?;
      AbsentField(j, Std, true, f);
    }
    LookupKeyType(j, Std, true);
  }

  /** An RSA key's output has kty "RSA" and never a k member. */
  lemma RsaKeyHasTypeRsa(k: Key)
    requires k.value.RsaPublic? || (k.value.RsaPrivate? && |k.value.priv.primes| >= 2)
    ensures Lookup(MarshalJSON(k).value, "kty") == Some(Str(KeyTypeRSA))
    ensures "k" !in Names(MarshalJSON(k).value)
  {
    var j := KeyToJWK(k).value;
    assert MarshalJSON(k).value == SerializeWith(j, Std, true);
    assert j.keyType == KeyTypeRSA && j.symmetricKey == [];
    RsaRecordMembers(j);
  }

  lemma RsaRecordMembers(j: JSONWebKey)
    requires j.keyType == KeyTypeRSA && j.symmetricKey == []
    ensures Lookup(SerializeWith(j, Std, true), "kty") == Some(Str(KeyTypeRSA))
    ensures "k" !in Names(SerializeWith(j, Std, true))
  {
    LookupKeyType(j, Std, true);
    AbsentField(j, Std, true, K);
    assert JsonName(K) == "k";
  }
}
