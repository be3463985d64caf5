# RSA key formats, modelled in Dafny

A model of the key-format core of `tuanta7/rsa`, an RSA key conversion and
inspection toolkit written in Go. The toolkit reads an RSA key as a PEM block or
as PKCS#1 DER, and writes a key pair as PEM, DER or a JSON Web Key (JWK,
RFC 7517 and RFC 7518). The model covers:

- the integer codec: `IntToBigEndian` and its twin `bigEndianFromInt`, which turn
  a Go `int` into a minimal big-endian byte string (`conv.dfy`, `key.dfy`);
- the `Bytes` wrapper, which carries such a string through JSON as unpadded
  base64url, the "Base64urlUInt" convention of section 2 of RFC 7518
  (`big_endian.dfy`). The base64 encoder and the `RawURLEncoding` decoder it
  relies on are written out in `base64.dfy`;
- the `JSONWebKey` record and what encoding/json writes for it: which members
  `omitempty` keeps, in which order, and with which values (`jwk.dfy`);
- the JWK builders for RSA public and private keys (`rsa.dfy`), and the
  dispatch in `Key.MarshalJSON` (`key.dfy`);
- `parseKey`, which detects PEM, PKCS#1 private DER and PKCS#1 public DER in
  that order (`common.dfy`);
- `RSAKeyGenerator`, which picks a marshaller and a file suffix from the format
  and writes the private key, then the public key (`generator.dfy`).

Go's integers are unbounded here, so the model writes out the 64-bit
two's-complement cast `uint64(i)` and the eight-byte buffer of
`binary.BigEndian.PutUint64` (`go_types.dfy`, `conv.dfy`). Go's nil slice is
kept apart from the empty slice (`Go.ByteSlice`), because `bytes.TrimLeft` returns nil
when it trims everything, and `NewBytes` turns nil into a nil pointer, which
`omitempty` then drops. The library routines the core calls without
implementing them (`pem.Decode`, `pem.EncodeToMemory`, `x509.ParsePKCS1*`,
`x509.MarshalPKCS1*`, the indentation of `json.MarshalIndent`) are function
values in `Library.Codecs`. Every property about `parseKey` and the generator
therefore holds whatever those routines do. The file system is a
`Generator.FileSystem` object holding the set of paths that refuse writes and
the log of completed writes.

The model follows the code where the code and the rest of the repository
disagree. The generator matches format names exactly and case-sensitively
(internal/generator/generator.go:40-51). The `generate` command upper-cases
the format before its own copy of the dispatch (cmd/generate.go:78 and 116), and its flag
help lists them in lower case (cmd/generate.go:149). `KeyJson.MarshalJSON`
writes `k` as encoding/json writes any `[]byte`, in padded standard base64. A
corrected variant, `KeyJson.MarshalJSONBase64Url`, writes it in base64url (see
"## Findings"). The CRT values dp, dq and qi are copied from the parsed key, and
no RSA relation is checked anywhere: `RsaKeys.ValidTwoPrimeKey` is a ghost
predicate that only appears as a hypothesis.

The repository defines `rsaPublicKeyToJWK` and `rsaPrivateKeyToJWK` twice in the
same package, in internal/key/key.go and internal/key/rsa.go. The model follows
the rsa.go form, which goes through `NewBytes` and `IntToBigEndian`, consistent
with big_endian.go. The `bigEndian` type of the `JSONWebKey` members is not
declared in the repository. It is taken to be `*Bytes`, the type the rsa.go
builders assign.

## Model

| member | source | states |
|---|---|---|
| Go.Uint64Of | internal/key/conv.go:12 | `uint64(i)` is `i` for i ≥ 0 and at least 2^63 for i < 0 |
| Go.Int64Of | internal/key/big_endian.go:45-47 | `int(u)` is the `int` whose 64-bit pattern is `u` (inverts `uint64(_)`) |
| Conv.PutUint64 | internal/key/conv.go:11-12 | the buffer holds exactly 8 bytes, and read big-endian they are `x` |
| Conv.FixedWidthOfValue | internal/key/big_endian.go:41-43 | a w-byte string is the w-byte pattern of its own value, so the fixed-width reading is one-to-one |
| Conv.TrimLeftZeros | internal/key/conv.go:13 | the result is nil exactly when every byte is zero (value 0); otherwise it is non-empty with a non-zero first byte; the value is unchanged |
| Conv.MagnitudeBytes | internal/key/rsa.go:12 | math/big's `Bytes`: read back it is `x`; empty exactly for 0; no leading zero |
| Conv.MinimalEncodingUnique | internal/key/conv.go:13 | a byte string without a leading zero is the only minimal encoding of its value |
| Conv.LeadingZerosIgnored | internal/key/big_endian.go:49-51 | leading zero bytes do not change the big-endian value |
| Conv.IntToBigEndian | internal/key/conv.go:10-14 | at most 8 bytes, no leading zero, value `uint64(i)`, nil exactly when i = 0 |
| Conv.IntToBigEndianIsMinimal | internal/key/conv.go:10-14 | the result is the minimal magnitude of `uint64(i)` |
| Conv.NegativeKeepsEightBytes | internal/key/conv.go:12-13 | a negative `i` keeps all 8 bytes and the first is ≥ 0x80 (two's complement) |
| Conv.IntToBigEndianExamples | internal/key/conv.go:10-14 | 65537 ↦ 01 00 01 and 3 ↦ 03 |
| Base64.Sextet | internal/key/big_endian.go:37 | a decoded character is a 6-bit value that encodes back to that character |
| Base64.UrlAlphabetIsUrlSafe | internal/key/big_endian.go:22 | the URL-safe decoder accepts exactly A–Z, a–z, 0–9, '-' and '_' (section 5 of RFC 4648) |
| Base64.EncodedLength | internal/key/big_endian.go:22 | unpadded output has ⌈4n/3⌉ characters, padded output 4⌈n/3⌉ |
| Base64.UrlEncodingIsUrlSafe | internal/key/big_endian.go:22 | `RawURLEncoding` writes only URL-safe characters and never '=' |
| Base64.DecodeQuanta | internal/key/big_endian.go:37 | a successful decode yields ⌊3m/4⌋ bytes for m characters; a failed one yields a multiple of three bytes |
| Base64.FailureKeepsDecodedGroups | internal/key/big_endian.go:37-38 | on failure the bytes returned, which `UnmarshalJSON` stores, are exactly the successful decoding of the whole groups before the faulty one |
| Base64.DecodeQuantum | internal/key/big_endian.go:21-24 | a group of four characters written for three bytes lies in the alphabet and decodes to those three bytes |
| Base64.DecodeEncode | internal/key/big_endian.go:21-24 | decoding what the unpadded encoder wrote restores the bytes, in either alphabet |
| Base64.RoundTrip | internal/key/big_endian.go:21-24 | `RawURLEncoding` decode after encode is the identity, with no error |
| Base64.RejectsOutsideUrlAlphabet | internal/key/big_endian.go:37-38 | any character outside the URL-safe alphabet except a line break makes decoding fail |
| Base64.InvalidCharacterRejected | internal/key/big_endian.go:37-38 | a character outside the alphabet anywhere in the text makes the decoding loop fail |
| Base64.RejectsStandardAlphabetAndPadding | internal/key/big_endian.go:37-38 | '+', '/' and '=' are rejected |
| Base64.LoneFinalCharacterRejected | internal/key/big_endian.go:37-38 | a final group of one character is an error |
| Base64.NonCanonicalTextAccepted | internal/key/big_endian.go:37 | the decoder is not strict: "QR" decodes like "QQ" to 41 |
| BigEndian.NewBytes | internal/key/big_endian.go:14-19 | nil exactly when the input is nil; otherwise it wraps the input unchanged, even when empty |
| BigEndian.Bytes.constructor | internal/key/big_endian.go:10-12 | a `Bytes` object holds the given byte string in its one field |
| BigEndian.MarshalJSON | internal/key/big_endian.go:21-24 | a JSON string over the URL-safe alphabet, without '=', ⌈4n/3⌉ characters long |
| BigEndian.Bytes.UnmarshalJSON | internal/key/big_endian.go:26-39 | the new field value and the error are `Unmarshalled` of the old value: null and "" keep it, a non-string is an error, bad base64url is an error that still overwrites the field |
| BigEndian.UnmarshalMarshal | internal/key/big_endian.go:21-39 | unmarshalling `MarshalJSON(b)` restores b for every non-empty b |
| BigEndian.UnmarshalEmptyKeepsBytes | internal/key/big_endian.go:33-35 | "" and null succeed and leave the stored bytes as they were |
| BigEndian.UnmarshalErrors | internal/key/big_endian.go:28-31 | a non-string value, or text with a character outside the URL-safe alphabet, gives an error |
| BigEndian.ExponentThreeReadsBack | internal/key/big_endian.go:21-51 | exponent 3 is written "Aw", and "Aw" reads back as the integer 3 |
| BigEndian.Uint64 | internal/key/big_endian.go:41-43 | the inverse of `PutUint64` on the first eight bytes: writing the result back gives exactly those bytes |
| BigEndian.Int | internal/key/big_endian.go:45-47 | `Int` has the same 64-bit pattern as `Uint64` |
| BigEndian.BigInt | internal/key/big_endian.go:49-51 | below 256^len, and math/big's `Bytes` gives back the input with its leading zeros trimmed |
| BigEndian.Uint64ReadsFirstEight | internal/key/big_endian.go:41-43 | `Uint64` reads the first eight bytes only |
| BigEndian.IntInvertsPutUint64 | internal/key/big_endian.go:45-47 | `Int` inverts the full eight-byte pattern of `PutUint64(uint64(i))` |
| BigEndian.FixedReadersVersusMinimalEncoding | internal/key/big_endian.go:41-47 | every 0 ≤ i < 2^56 encodes to fewer than 8 bytes, too short for `Uint64`/`Int`; negative values keep 8 bytes and round-trip through `Int` |
| BigEndian.BigIntReadsMagnitude | internal/key/big_endian.go:49-51 | `BigInt` ignores leading zeros, returns i for `IntToBigEndian(i)` with i ≥ 0, and inverts math/big's `Bytes` |
| Jwk.JsonNameInjective | internal/key/jwk.go:8-21 | two fields share a JSON name exactly when they are the same field |
| Jwk.FieldOrderPositions | internal/key/jwk.go:8-21 | the field list holds every field, each at its declaration position |
| Jwk.PresentFieldsOrdered | internal/key/jwk.go:8-21 | dropping the fields `omitempty` omits keeps the rest in declaration order |
| Jwk.MembersFor | internal/key/jwk.go:8-21 | one member per kept field, in order, named by the field's tag, with the field's JSON value |
| Jwk.SerializeAsWritten | internal/key/jwk.go:13 | the members as written, with `k` in padded standard base64 |
| Jwk.SerializeWith | internal/key/jwk.go:7-22 | one member per kept field, in declaration order, for either encoding of `k` |
| Jwk.Serialize | internal/key/jwk.go:7-22 | the corrected members, with `k` in unpadded base64url |
| Jwk.SerializedField | internal/key/jwk.go:8-21 | for either encoding of `k`, a field's member is written exactly when `omitempty` keeps it; `kty` always |
| Jwk.SerializedNames | internal/key/jwk.go:8-21 | the written names are exactly the tags of the kept fields |
| Jwk.SerializedOrder | internal/key/jwk.go:8-21 | `kty` is first; members follow declaration order; no name repeats |
| Jwk.NumericMembersAreBase64Url | internal/key/jwk.go:3-6 | whatever the encoding of `k`, every numeric member is a base64url string that reads back as the member's bytes |
| Jwk.SymmetricKeyIsBase64Url | internal/key/jwk.go:13 | with the correction, `k` decodes as base64url to the key bytes |
| Jwk.SymmetricKeyAsWrittenIsNotBase64Url | internal/key/jwk.go:13 | as written, key bytes FB FF are emitted as "+/8=", which base64url rejects |
| Jwk.LookupMembersFor | internal/key/jwk.go:8-21 | looking up a field's name finds its value exactly when the field is kept |
| Jwk.LookupSerialize | internal/key/jwk.go:8-21 | the same for the written record |
| Jwk.AbsentField | internal/key/jwk.go:9-21 | a dropped field is neither listed nor found |
| Jwk.LookupMetadata | internal/key/jwk.go:9-12 | `use`, `alg` and `kid` are found, with their text, exactly when non-empty |
| Jwk.LookupKeyType | internal/key/jwk.go:8 | `kty` is always found, holding the record's key type |
| Jwk.EncodingsDifferOnlyInK | internal/key/jwk.go:13 | the two encodings of `k` write the same names and agree on every member other than `k` |
| RsaJwk.RsaPublicKeyToJWK | internal/key/rsa.go:9-15 | kty "RSA"; n present with value N and no leading zero; e present exactly when E ≠ 0, with value `uint64(E)` and no leading zero; every other field empty. Value and no leading zero fix the bytes (`Conv.MinimalEncodingUnique`) |
| RsaJwk.RsaPrivateKeyToJWK | internal/key/rsa.go:17-29 | n and e as for the public half; d, p, q, dp, dq, qi present with the values of D, `Primes[0]`, `Primes[1]` and the precomputed Dp, Dq, Qinv, each without a leading zero, as `big.Int.Bytes` writes them; the rest empty |
| RsaJwk.PublicJwkMembers | internal/key/rsa.go:9-15 | a public key's JWK holds exactly kty, n, and e unless E = 0 |
| RsaJwk.PrivateJwkMembers | internal/key/rsa.go:17-29 | a private key's JWK holds exactly kty, n, e (unless E = 0), d, p, q, dp, dq, qi |
| RsaJwk.PublicJwkPresent | internal/key/rsa.go:9-15 | the public builder leaves exactly kty, n, and e unless E = 0, to be written |
| RsaJwk.PrivateJwkPresent | internal/key/rsa.go:17-29 | the private builder leaves kty and every numeric member to be written, e only when E ≠ 0 |
| RsaJwk.ExtraPrimesIgnored | internal/key/rsa.go:23-24 | primes after the first two do not change the JWK |
| RsaJwk.ValidKeyJwkRelations | internal/key/rsa.go:17-29 | for a key satisfying section 3.2 of RFC 8017, the members read back satisfy p·q = n, dp = d mod (p−1), dq = d mod (q−1), qi·q ≡ 1 mod p |
| KeyJson.SymmetricKeyToJWK | internal/key/key.go:67-72 | kty is the symmetric key type (not "RSA"), k is the key bytes, no numeric member, no metadata |
| KeyJson.SymmetricJwkPresent | internal/key/key.go:67-72 | the symmetric builder leaves kty, and k when the key is non-empty, to be written, nothing else |
| KeyJson.BigEndianFromIntIsIntToBigEndian | internal/key/key.go:74-78 | `bigEndianFromInt` equals `IntToBigEndian` on every input, and is the minimal magnitude of `uint64(i)` |
| KeyJson.BigEndianFromInt | internal/key/key.go:74-78 | reads back as `uint64(i)`, and is nil exactly when i = 0 |
| KeyJson.BuildJWK | internal/key/key.go:23-32 | an error exactly for an unsupported value type |
| KeyJson.KeyToJWK | internal/key/key.go:20-41 | an error exactly for an unsupported value type |
| KeyJson.MarshalJSON | internal/key/key.go:20-43 | fails exactly for an unsupported value type, with "unsupported key type"; otherwise the members `json.Marshal` writes, `k` in padded standard base64 |
| KeyJson.MarshalJSONBase64Url | internal/key/key.go:20-43 | the same outcome and errors, with `k` corrected to base64url |
| KeyJson.SymmetricKeyMember | internal/key/key.go:28-29 | a non-empty `[]byte` key is written as `k` in padded standard base64; corrected, in base64url, which decodes back to the key |
| KeyJson.CorrectionChangesOnlyK | internal/key/key.go:42 | the correction writes the same names and changes the value of no member other than `k` |
| KeyJson.Dispatch | internal/key/key.go:23-40 | public key → public builder, private key → private builder, bytes → symmetric builder; `Use`, `Algorithm` and `KeyID` copied verbatim |
| KeyJson.MetadataCopied | internal/key/key.go:38-40 | `use`, `alg` and `kid` are written with the key's text exactly when non-empty |
| KeyJson.PublicKeyHasNoPrivateMembers | internal/key/key.go:24-25 | a public key's output has no d, p, q, dp, dq, qi and no k |
| KeyJson.SymmetricKeyHasNoNumericMembers | internal/key/key.go:28-29 | a symmetric key's output has no n, e or other numeric member; k is written exactly when the key is non-empty |
| KeyJson.RsaKeyHasTypeRsa | internal/key/key.go:24-27 | an RSA key's output has kty "RSA" and no k |
| ParseKey.ParseKey | cmd/common.go:27-74 | on success, the kind is one of the two labels, exactly the matching key is set, PKCS1 is its re-marshalling, JWK is nil, and the key is what a PKCS#1 parser returned for the input or for the PEM block with the matching label |
| ParseKey.PemLabelDispatch | cmd/common.go:29-53 | with a PEM block, "RSA PRIVATE KEY" and "RSA PUBLIC KEY" pick the parser, its failure is wrapped in "parse PKCS#1 … key: ", any other label is "unsupported PEM block type: " + label |
| ParseKey.NoDerFallbackAfterPem | cmd/common.go:29-54 | once a PEM block is found, the result does not depend on parsing the input as DER |
| ParseKey.DerOrder | cmd/common.go:56-73 | without PEM, private DER wins, then public DER; the result is an error exactly when both fail, and it is "unrecognized key format (not PEM or PKCS#1 DER)" |
| ParseKey.ErrorMessages | cmd/common.go:33-73 | every failure carries one of the four messages |
| Generator.FileSystem.WriteFile | internal/generator/generator.go:36 | succeeds exactly on a path that accepts writes, and then appends exactly that write to the log |
| Generator.RSAKeyGenerator.MarshalPrivateKey | internal/generator/generator.go:39-53 | exactly "PEM", "DER" and "JWK" succeed; DER is PKCS#1, PEM wraps it as "RSA PRIVATE KEY", JWK indents `Key.MarshalJSON`; other formats fail with "unsupported format: " + format |
| Generator.RSAKeyGenerator.MarshalPublicKey | internal/generator/generator.go:65-79 | the same, with the public PKCS#1 form and "RSA PUBLIC KEY" |
| Generator.RSAKeyGenerator.WritePrivateKey | internal/generator/generator.go:29-37 | marshals first and writes nothing on error; otherwise writes id_rsa plus suffix with mode 0600 |
| Generator.RSAKeyGenerator.WritePublicKey | internal/generator/generator.go:55-63 | the same for id_rsa.pub plus suffix, mode 0644 |
| Generator.RSAKeyGenerator.WriteKeyPair | internal/generator/generator.go:21-27 | appends exactly the writes of the key-pair outcome and returns its error |
| Generator.RSAKeyGenerator.FileNames | internal/generator/generator.go:81-92 | DER adds ".der", JWK adds ".json", PEM and unknown formats keep the name; the private and public files never share a path |
| Generator.RSAKeyGenerator.FileName | internal/generator/generator.go:81-92 | the file name starts with the default name, followed by the format's suffix |
| Generator.RSAKeyGenerator.UnsupportedFormatWritesNothing | internal/generator/generator.go:21-53 | any format other than the exact three strings writes nothing and fails with "unsupported format: " + format |
| Generator.RSAKeyGenerator.KeyPairOrder | internal/generator/generator.go:21-37 | at most two writes: the private file first (0600), then the public file (0644) holding the key's own public half; the second happens only if the first succeeded; success exactly when both were written |

## Left out

- PEM armour, PKCS#1 DER encoding and parsing, and JSON indentation are library code. They are function values in `Library.Codecs`, and no property of them is assumed.
- encoding/json's text layout (quoting, escaping, whitespace) is not modelled. A serialised object is its list of members, and a JSON value passed to `UnmarshalJSON` is an abstract `Json.JsonValue`.
- encoding/json only calls `UnmarshalJSON` on syntactically valid JSON. Malformed JSON text is therefore not an input of `Bytes.UnmarshalJSON`.
- Key generation (`rsa.GenerateKey` with `crypto/rand`) is randomness and prime search; it is not modelled.
- RSA validity checks happen inside crypto/x509, not in the repository. `RsaKeys.ValidTwoPrimeKey` states the relations of section 3.2 of RFC 8017 as a hypothesis only.
- `filepath.Join` is not modelled: a path is kept as its directory and file name.
- `os.WriteFile` either writes the whole file or nothing. A write that fails part-way is not modelled.
- The command-line wiring (cmd/root.go, cmd/sign.go), `os.ReadFile` and `os.Create` are I/O and are not modelled.
- cmd/inspect.go only prints; it also calls `parseKey` with a different result count, from another variant of the code.
- cmd/convert.go builds its own JWK map and is not modelled.
- cmd/generate.go repeats the generator's dispatch on top of `os.Create`; the generator is modelled instead.
- internal/domain/jwk.go and internal/domain/info.go are unused declarations.
- The key.go copies of `rsaPublicKeyToJWK` and `rsaPrivateKeyToJWK` clash with the rsa.go ones; only the rsa.go form is modelled.
- `config.KeyTypeSymmetric` has no value in the repository. `Config.KeyTypeSymmetric` uses "oct", the key type section 6.1 of RFC 7518 gives symmetric keys. The lemmas only use that it differs from "RSA".
- Negative `big.Int` values are not modelled: RSA integers are natural numbers.
- Go panics become preconditions: `Primes[1]` on a key with fewer than two primes (`RsaJwk.RsaPrivateKeyToJWK`, and the JWK path of `KeyJson.MarshalJSON` and the generator), and `binary.BigEndian.Uint64` on fewer than 8 bytes (`BigEndian.Uint64`, `BigEndian.Int`).
- Nil `*rsa.PublicKey` and `*rsa.PrivateKey` pointers, and the panics they would cause, are not modelled.
- Nil `*big.Int` fields are not modelled: `N`, `D`, `Primes[i]`, and `Precomputed.Dp`, `Dq` and `Qinv` when `Precompute` was never called, would panic in `Bytes()` at internal/key/rsa.go:12-27. The model always has a number for each of them.
- The generator's `OutputDir` and `Format` fields are exported and could be reassigned between calls. The model keeps them fixed for the life of the object.

## Findings

| source | as written | input that shows it | evidently intended | confidence | as-written member | corrected member |
|---|---|---|---|---|---|---|
| internal/key/jwk.go:13 | `SymmetricKey` is a plain `[]byte`, which encoding/json writes as padded standard base64 | key bytes FB FF give `"k": "+/8="`, which contains '+', '/' and '=' and which a base64url decoder rejects | `k` in base64url, as section 6.4.1 of RFC 7518 requires of the key value of a symmetric key; FB FF would be "-_8" | not executed | Jwk.SymmetricKeyAsWrittenIsNotBase64Url | Jwk.SymmetricKeyIsBase64Url |
