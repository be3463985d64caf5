/**
 * The `JSONWebKey` record of internal/key/jwk.go and what encoding/json makes of
 * it: which members appear, in which order, and the JSON value of each.
 */
module Jwk {
  import opened Go
  import opened Wrappers
  import opened Json
  import opened Base64
  import opened BigEndian

  /**
   * The record. `symmetricKey` is a plain `[]byte`; the numeric members are
   * `*Bytes` pointers, `None` being nil.
   */
  datatype JSONWebKey = JSONWebKey(
    keyType: string,
    algorithm: string,
    crv: string,
    use: string,
    keyID: string,
    symmetricKey: seq<byte>,
    modulus: Option<seq<byte>>,
    publicExponent: Option<seq<byte>>,
    privateExponent: Option<seq<byte>>,
    prime0: Option<seq<byte>>,
    prime1: Option<seq<byte>>,
    dp: Option<seq<byte>>,
    dq: Option<seq<byte>>,
    qi: Option<seq<byte>>)

  /** The record's fields, one constructor each, in declaration order. */
  datatype Field = Kty | Alg | Crv | Use | Kid | K | N | E | D | P | Q | Dp | Dq | Qi

  /** The JSON member name each field's tag gives it. */
  function JsonName(f: Field): string
  {
    match f
    case Kty => "kty" case Alg => "alg" case Crv => "crv" case Use => "use"
    case Kid => "kid" case K => "k" case N => "n" case E => "e" case D => "d"
    case P => "p" case Q => "q" case Dp => "dp" case Dq => "dq" case Qi => "qi"
  }

  /** Distinct fields carry distinct JSON names. */
  lemma JsonNameInjective(f: Field, g: Field)
    ensures JsonName(f) == JsonName(g) <==> f == g
  {
    if f != g {
      var a, b := JsonName(f), JsonName(g);
      if |a| == |b| {
        if a[0] == b[0] {
          assert a[1] != b[1];
        }
      }
    }
  }

  /** The declaration position of a field: encoding/json writes members in this order. */
  function Position(f: Field): nat
  {
    match f
    case Kty => 0 case Alg => 1 case Crv => 2 case Use => 3 case Kid => 4 case K => 5
    case N => 6 case E => 7 case D => 8 case P => 9 case Q => 10 case Dp => 11
    case Dq => 12 case Qi => 13
  }

  const FieldOrder: seq<Field> := [Kty, Alg, Crv, Use, Kid, K, N, E, D, P, Q, Dp, Dq, Qi]

  /** `FieldOrder` lists every field, each at its declaration position. */
  lemma FieldOrderPositions()
    ensures forall k :: 0 <= k < |FieldOrder| ==> Position(FieldOrder[k]) == k
    ensures forall f :: f in FieldOrder
  {
    forall f ensures f in FieldOrder {
      assert FieldOrder[Position(f)] == f;
    }
  }

  /** The fields whose values are unsigned big-endian integers (RFC 7518 sections 6.3.1 and 6.3.2). */
  predicate IsNumeric(f: Field)
  {
    Position(f) >= Position(N)
  }

  /** The `*Bytes` member stored in a numeric field. */
  function NumericMember(j: JSONWebKey, f: Field): Option<seq<byte>>
  {
    match f
    case N => j.modulus
    case E => j.publicExponent
    case D => j.privateExponent
    case P => j.prime0
    case Q => j.prime1
    case Dp => j.dp
    case Dq => j.dq
    case Qi => j.qi
    case _ => None
  }

  /**
   * The `omitempty` rule: `kty` carries no tag and is always written; a string
   * member is left out when empty, `k` when it holds no bytes, a `*Bytes` member
   * when nil.
   */
  predicate Present(j: JSONWebKey, f: Field)
  {
    match f
    case Kty => true
    case Alg => j.algorithm != ""
    case Crv => j.crv != ""
    case Use => j.use != ""
    case Kid => j.keyID != ""
    case K => j.symmetricKey != []
    case _ => NumericMember(j, f).Some?
  }

  /**
   * The JSON value written for a field: strings as themselves, `k` in the given
   * base64 form, numeric members through `(*Bytes).MarshalJSON`.
   */
  function MemberValue(j: JSONWebKey, f: Field, kAlphabet: Alphabet, kPadded: bool): JsonValue
  {
    match f
    case Kty => Str(j.keyType)
    case Alg => Str(j.algorithm)
    case Crv => Str(j.crv)
    case Use => Str(j.use)
    case Kid => Str(j.keyID)
    case K => Str(Encode(kAlphabet, kPadded, j.symmetricKey))
    case _ =>
      match NumericMember(j, f)
      case Some(s) => MarshalJSON(s)
      case None => Null
  }

  /** The fields of `fields` that `omitempty` keeps, in their order. */
  function PresentFields(j: JSONWebKey, fields: seq<Field>): seq<Field>
  {
    if fields == [] then []
    else (if Present(j, fields[0]) then [fields[0]] else []) + PresentFields(j, fields[1..])
  }

  lemma {:induction false} InPresentFields(j: JSONWebKey, fields: seq<Field>, f: Field)
    ensures f in PresentFields(j, fields) <==> f in fields && Present(j, f)
  {
    if fields != [] {
      InPresentFields(j, fields[1..], f);
      assert fields == [fields[0]] + fields[1..];
    }
  }

  /** Fields listed in strictly increasing declaration position. */
  predicate InDeclarationOrder(fields: seq<Field>)
  {
    forall a, b :: 0 <= a < b < |fields| ==> Position(fields[a]) < Position(fields[b])
  }

  /** Dropping fields keeps the rest in declaration order. */
  lemma {:induction false} PresentFieldsOrdered(j: JSONWebKey, fields: seq<Field>)
    requires InDeclarationOrder(fields)
    ensures InDeclarationOrder(PresentFields(j, fields))
  {
    if fields != [] {
      var tail := fields[1..];
      assert InDeclarationOrder(tail) by {
        forall a, b | 0 <= a < b < |tail| ensures Position(tail[a]) < Position(tail[b]) {
          assert tail[a] == fields[a + 1] && tail[b] == fields[b + 1];
        }
      }
      PresentFieldsOrdered(j, tail);
      var q := PresentFields(j, tail);
      forall f | f in q ensures Position(fields[0]) < Position(f) {
        InPresentFields(j, tail, f);
        var k :| 0 <= k < |tail| && tail[k] == f;
        assert fields[k + 1] == f;
      }
      if Present(j, fields[0]) {
        var p := [fields[0]] + q;
        forall a, b | 0 <= a < b < |p| ensures Position(p[a]) < Position(p[b]) {
          assert p[b] == q[b - 1] && p[b] in q;
          if a > 0 {
            assert p[a] == q[a - 1];
          }
        }
      }
    }
  }

  /**
   * What encoding/json does with the record: walk the fields in declaration order
   * and write a `name: value` member for each one `omitempty` keeps, with `k` in
   * the given base64 form.
   */
  function MembersFor(j: JSONWebKey, fields: seq<Field>, kAlphabet: Alphabet, kPadded: bool): (r: seq<Member>)
    ensures |r| == |PresentFields(j, fields)|
    ensures forall i :: 0 <= i < |r| ==>
              var f := PresentFields(j, fields)[i]; r[i] == Member(JsonName(f), MemberValue(j, f, kAlphabet, kPadded))
  {
    if fields == [] then []
    else
      var f := fields[0];
      var rest := MembersFor(j, fields[1..], kAlphabet, kPadded);
      if Present(j, f) then [Member(JsonName(f), MemberValue(j, f, kAlphabet, kPadded))] + rest else rest
  }

  /** The members written for the whole record, with `k` in the given base64 form. */
  function SerializeWith(j: JSONWebKey, kAlphabet: Alphabet, kPadded: bool): (r: seq<Member>)
    ensures |r| == |PresentFields(j, FieldOrder)|
    ensures forall i :: 0 <= i < |r| ==>
              var f := PresentFields(j, FieldOrder)[i]; r[i] == Member(JsonName(f), MemberValue(j, f, kAlphabet, kPadded))
  {
    MembersFor(j, FieldOrder, kAlphabet, kPadded)
  }

  /**
   * The members `json.Marshal` writes for the record, with `k` encoded as the
   * source does it: `SymmetricKey` is a plain `[]byte`, and encoding/json writes
   * a `[]byte` as standard, padded base64.
   */
  function SerializeAsWritten(j: JSONWebKey): (r: seq<Member>)
    ensures |r| == |PresentFields(j, FieldOrder)|
    ensures forall i :: 0 <= i < |r| ==>
              var f := PresentFields(j, FieldOrder)[i]; r[i] == Member(JsonName(f), MemberValue(j, f, Std, true))
  {
    SerializeWith(j, Std, true)
  }

  /**
   * The members with `k` in unpadded base64url, as section 6.4.1 of RFC 7518
   * requires of the key value of a symmetric key.
   */
  function Serialize(j: JSONWebKey): (r: seq<Member>)
    ensures |r| == |PresentFields(j, FieldOrder)|
    ensures forall i :: 0 <= i < |r| ==>
              var f := PresentFields(j, FieldOrder)[i]; r[i] == Member(JsonName(f), MemberValue(j, f, Url, false))
  {
    SerializeWith(j, Url, false)
  }

  /** One field at a time: its member is written exactly when `omitempty` keeps it. */
  lemma SerializedField(j: JSONWebKey, kAlphabet: Alphabet, kPadded: bool, f: Field)
    ensures JsonName(f) in Names(SerializeWith(j, kAlphabet, kPadded)) <==> Present(j, f)
  {
    var r, pf := SerializeWith(j, kAlphabet, kPadded), PresentFields(j, FieldOrder);
    InPresentFields(j, FieldOrder, f);
    assert f in FieldOrder;
    if Present(j, f) {
      var i :| 0 <= i < |pf| && pf[i] == f;
      assert Names(r)[i] == JsonName(f);
    }
    if JsonName(f) in Names(r) {
      var i :| 0 <= i < |r| && Names(r)[i] == JsonName(f);
      JsonNameInjective(pf[i], f);
      assert pf[i] in pf;
    }
  }

  /** The written names are exactly the names of the fields `omitempty` keeps. */
  lemma SerializedNames(j: JSONWebKey, kAlphabet: Alphabet, kPadded: bool, name: string)
    ensures name in Names(SerializeWith(j, kAlphabet, kPadded)) <==> exists f :: JsonName(f) == name && Present(j, f)
  {
    var r, pf := SerializeWith(j, kAlphabet, kPadded), PresentFields(j, FieldOrder);
    if name in Names(r) {
      var i :| 0 <= i < |r| && Names(r)[i] == name;
      InPresentFields(j, FieldOrder, pf[i]);
      assert pf[i] in pf;
      assert JsonName(pf[i]) == name && Present(j, pf[i]);
    }
    if exists f :: JsonName(f) == name && Present(j, f) {
      var f :| JsonName(f) == name && Present(j, f);
      SerializedField(j, kAlphabet, kPadded, f);
    }
  }

  /**
   * `kty` is written first and always, and the members follow the declaration
   * order, so no name is written twice.
   */
  lemma SerializedOrder(j: JSONWebKey, kAlphabet: Alphabet, kPadded: bool)
    ensures var r := SerializeWith(j, kAlphabet, kPadded);
      |r| > 0 && r[0] == Member("kty", Str(j.keyType))
    ensures forall a, b :: 0 <= a < b < |PresentFields(j, FieldOrder)| ==>
              Position(PresentFields(j, FieldOrder)[a]) < Position(PresentFields(j, FieldOrder)[b])
    ensures var r := SerializeWith(j, kAlphabet, kPadded);
      forall a, b :: 0 <= a < b < |r| ==> r[a].name != r[b].name
  {
    var r, pf := SerializeWith(j, kAlphabet, kPadded), PresentFields(j, FieldOrder);
    FieldOrderPositions();
    PresentFieldsOrdered(j, FieldOrder);
    InPresentFields(j, FieldOrder, Kty);
    assert Kty in FieldOrder;
    var i :| 0 <= i < |pf| && pf[i] == Kty;
    if i > 0 {
      assert Position(pf[0]) < Position(pf[i]);
    }
    forall a, b | 0 <= a < b < |r| ensures r[a].name != r[b].name {
      JsonNameInjective(pf[a], pf[b]);
    }
  }

  /**
   * Every numeric member is written as unpadded base64url text that reads back,
   * through `UnmarshalJSON`, as the member's bytes, however `k` is encoded.
   */
  lemma NumericMembersAreBase64Url(j: JSONWebKey, kAlphabet: Alphabet, kPadded: bool, i: nat)
    requires i < |PresentFields(j, FieldOrder)| && IsNumeric(PresentFields(j, FieldOrder)[i])
    ensures NumericMember(j, PresentFields(j, FieldOrder)[i]).Some?
    ensures SerializeWith(j, kAlphabet, kPadded)[i].value == MarshalJSON(NumericMember(j, PresentFields(j, FieldOrder)[i]).value)
    ensures Unmarshalled([], SerializeWith(j, kAlphabet, kPadded)[i].value) == (NumericMember(j, PresentFields(j, FieldOrder)[i]).value, None)
  {
    var f := PresentFields(j, FieldOrder)[i];
    assert f in PresentFields(j, FieldOrder);
    InPresentFields(j, FieldOrder, f);
    NumericMemberValue(j, kAlphabet, kPadded, f);
    UnmarshalMarshal([], NumericMember(j, f).value);
  }

  /** A present numeric field is written through `(*Bytes).MarshalJSON`. */
  lemma NumericMemberValue(j: JSONWebKey, kAlphabet: Alphabet, kPadded: bool, f: Field)
    requires IsNumeric(f) && Present(j, f)
    ensures NumericMember(j, f).Some?
    ensures MemberValue(j, f, kAlphabet, kPadded) == MarshalJSON(NumericMember(j, f).value)
  {
  }

  /** With the correction, `k` reads back as the key bytes through the base64url decoder. */
  lemma SymmetricKeyIsBase64Url(j: JSONWebKey, i: nat)
    requires i < |Serialize(j)| && Serialize(j)[i].name == "k"
    ensures Serialize(j)[i].value.Str?
    ensures DecodeRawUrl(Serialize(j)[i].value.text) == Decoded(j.symmetricKey, true)
  {
    JsonNameInjective(PresentFields(j, FieldOrder)[i], K);
    RoundTrip(j.symmetricKey);
  }

  /**
   * As written, a symmetric key whose bytes are FB FF is emitted as "+/8=":
   * standard-alphabet characters and padding, which the base64url decoder rejects.
   */
  lemma SymmetricKeyAsWrittenIsNotBase64Url(j: JSONWebKey)
    requires j.symmetricKey == [0xfb, 0xff]
    ensures Member("k", Str("+/8=")) in SerializeAsWritten(j)
    ensures !DecodeRawUrl("+/8=").ok
  {
    PresentMemberWritten(j, K);
    StandardPaddedFbFf();
    assert JsonName(K) == "k";
    RejectsStandardAlphabetAndPadding("+/8=");
  }

  /** Every present field has its member among those written. */
  lemma PresentMemberWritten(j: JSONWebKey, f: Field)
    requires Present(j, f)
    ensures Member(JsonName(f), MemberValue(j, f, Std, true)) in SerializeAsWritten(j)
  {
    var pf := PresentFields(j, FieldOrder);
    FieldOrderPositions();
    InPresentFields(j, FieldOrder, f);
    var i :| 0 <= i < |pf| && pf[i] == f;
    assert SerializeAsWritten(j)[i] == Member(JsonName(f), MemberValue(j, f, Std, true));
  }

  /** The padded standard encoding of FB FF. */
  lemma StandardPaddedFbFf()
    ensures Encode(Std, true, [0xfb, 0xff]) == "+/8="
  {
    var k: seq<byte> := [0xfb, 0xff];
    assert k[0] / 4 == 62 && k[0] % 4 * 16 + k[1] / 16 == 63 && k[1] % 16 * 4 == 60;
    assert Char(Std, 62) == '+' && Char(Std, 63) == '/' && Char(Std, 60) == '8';
  }

  /** Looking a member up by name finds the value the rules give it, or nothing when it is omitted. */
  lemma {:induction false} LookupMembersFor(j: JSONWebKey, fields: seq<Field>, kAlphabet: Alphabet, kPadded: bool, f: Field)
    ensures Lookup(MembersFor(j, fields, kAlphabet, kPadded), JsonName(f))
         == if f in fields && Present(j, f) then Some(MemberValue(j, f, kAlphabet, kPadded)) else None
  {
    if fields != [] {
      LookupMembersFor(j, fields[1..], kAlphabet, kPadded, f);
      assert fields == [fields[0]] + fields[1..];
      JsonNameInjective(fields[0], f);
      var rest := MembersFor(j, fields[1..], kAlphabet, kPadded);
      if Present(j, fields[0]) {
        var m := [Member(JsonName(fields[0]), MemberValue(j, fields[0], kAlphabet, kPadded))];
        assert (m + rest)[1..] == rest;
      }
    }
  }

  /** `Lookup` on the serialised record: the field's value when `omitempty` keeps it. */
  lemma LookupSerialize(j: JSONWebKey, kAlphabet: Alphabet, kPadded: bool, f: Field)
    ensures Lookup(SerializeWith(j, kAlphabet, kPadded), JsonName(f))
         == if Present(j, f) then Some(MemberValue(j, f, kAlphabet, kPadded)) else None
  {
    assert f in FieldOrder;
    LookupMembersFor(j, FieldOrder, kAlphabet, kPadded, f);
  }

  /** A field `omitempty` drops is neither listed nor found by `Lookup`. */
  lemma AbsentField(j: JSONWebKey, kAlphabet: Alphabet, kPadded: bool, f: Field)
    requires !Present(j, f)
    ensures JsonName(f) !in Names(SerializeWith(j, kAlphabet, kPadded))
    ensures Lookup(SerializeWith(j, kAlphabet, kPadded), JsonName(f)) == None
  {
    SerializedField(j, kAlphabet, kPadded, f);
    LookupSerialize(j, kAlphabet, kPadded, f);
  }

  /** `use`, `alg` and `kid` are found with their text exactly when they are non-empty. */
  lemma LookupMetadata(j: JSONWebKey, kAlphabet: Alphabet, kPadded: bool)
    ensures Lookup(SerializeWith(j, kAlphabet, kPadded), "use") == if j.use == "" then None else Some(Str(j.use))
    ensures Lookup(SerializeWith(j, kAlphabet, kPadded), "alg") == if j.algorithm == "" then None else Some(Str(j.algorithm))
    ensures Lookup(SerializeWith(j, kAlphabet, kPadded), "kid") == if j.keyID == "" then None else Some(Str(j.keyID))
  {
    LookupSerialize(j, kAlphabet, kPadded, Use);
    LookupSerialize(j, kAlphabet, kPadded, Alg);
    LookupSerialize(j, kAlphabet, kPadded, Kid);
  }

  /** `kty` is always found, with the record's key type. */
  lemma LookupKeyType(j: JSONWebKey, kAlphabet: Alphabet, kPadded: bool)
    ensures Lookup(SerializeWith(j, kAlphabet, kPadded), "kty") == Some(Str(j.keyType))
  {
    LookupSerialize(j, kAlphabet, kPadded, Kty);
    assert JsonName(Kty) == "kty";
  }

  /**
   * The two encodings of `k` write the same names, and agree on the value of
   * every member other than `k`.
   */
  lemma EncodingsDifferOnlyInK(j: JSONWebKey, f: Field)
    ensures Names(SerializeAsWritten(j)) == Names(Serialize(j))
    ensures f != K ==> Lookup(SerializeAsWritten(j), JsonName(f)) == Lookup(Serialize(j), JsonName(f))
  {
    var r, c := SerializeAsWritten(j), Serialize(j);
    assert forall i :: 0 <= i < |r| ==> Names(r)[i] == Names(c)[i];
    LookupSerialize(j, Std, true, f);
    LookupSerialize(j, Url, false, f);
  }
}
