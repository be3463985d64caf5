/**
 * The `Bytes` wrapper of internal/key/big_endian.go: a big-endian byte string
 * that travels through JSON as unpadded base64url text, the "Base64urlUInt"
 * convention of section 2 of RFC 7518.
 */
module BigEndian {
  import opened Go
  import opened Wrappers
  import opened Json
  import opened Conv
  import opened Base64

  /**
   * `NewBytes`: a nil slice gives a nil `*Bytes`; any other slice, even an empty
   * one, is wrapped unchanged. `None` stands for the nil pointer.
   */
  function NewBytes(s: ByteSlice): (r: Option<seq<byte>>)
    ensures r.None? <==> s.Nil?
    ensures r.Some? ==> r.value == s.Bytes()
  {
    match s
    case Nil => None
    case Slice(elems) => Some(elems)
  }

  /** `(*Bytes).MarshalJSON`: a JSON string holding the RawURLEncoding of the bytes. */
  function MarshalJSON(s: seq<byte>): (r: JsonValue)
    ensures r.Str?
    ensures forall c :: c in r.text ==> IsUrlSafe(c)
    ensures '=' !in r.text
    ensures |r.text| == (4 * |s| + 2) / 3
  {
    UrlEncodingIsUrlSafe(s);
    EncodedLength(Url, s);
    Str(Encode(Url, false, s))
  }

  /** Why `UnmarshalJSON` failed. */
  datatype UnmarshalError =
    | NotAString   // json.Unmarshal into a string met a number, bool, array or object
    | CorruptInput // base64.CorruptInputError

  /**
   * The field value and the error `UnmarshalJSON` leaves behind, given the field's
   * value before the call. JSON `null` and the empty string leave the field as it
   * was; text that is not valid base64url still overwrites the field, with the
   * bytes decoded before the bad group.
   */
  function Unmarshalled(prior: seq<byte>, data: JsonValue): (seq<byte>, Option<UnmarshalError>)
  {
    match data
    case Null => (prior, None)
    case Str(text) =>
      if text == "" then (prior, None)
      else
        var d := DecodeRawUrl(text);
        (d.bytes, if d.ok then None else Some(CorruptInput))
    case _ => (prior, Some(NotAString))
  }

  /** The `Bytes` object, whose `UnmarshalJSON` assigns its field in place. */
  class Bytes {
    var bigEndianSequence: seq<byte>

    constructor (s: seq<byte>)
      ensures bigEndianSequence == s
    {
      bigEndianSequence := s;
    }

    /** `(*Bytes).UnmarshalJSON`. */
    method UnmarshalJSON(data: JsonValue) returns (err: Option<UnmarshalError>)
      modifies this
      ensures (bigEndianSequence, err) == Unmarshalled(old(bigEndianSequence), data)
    {
      if !data.Str? {
        if data.Null? {
          return None;
        }
        return Some(NotAString);
      }
      var encoded := data.text;
      if encoded == "" {
        return None;
      }
      var d := DecodeRawUrl(encoded);
      bigEndianSequence := d.bytes;
      err := if d.ok then None else Some(CorruptInput);
    }
  }

  /** Unmarshalling what `MarshalJSON` wrote restores the bytes, for every non-empty input. */
  lemma UnmarshalMarshal(prior: seq<byte>, s: seq<byte>)
    ensures s != [] ==> Unmarshalled(prior, MarshalJSON(s)) == (s, None)
    ensures Unmarshalled([], MarshalJSON(s)) == (s, None)
  {
    RoundTrip(s);
    EncodedLength(Url, s);
  }

  /** JSON `null` and `""` succeed and leave the stored bytes untouched. */
  lemma UnmarshalEmptyKeepsBytes(prior: seq<byte>)
    ensures Unmarshalled(prior, Str("")) == (prior, None)
    ensures Unmarshalled(prior, Null) == (prior, None)
  {
  }

  /**
   * The error cases: a non-string value, and text holding a character outside the
   * URL-safe alphabet (such as '+', '/' or '=').
   */
  lemma UnmarshalErrors(prior: seq<byte>, data: JsonValue, k: nat)
    ensures (data.Number? || data.Bool? || data.Array? || data.Object?) ==>
              Unmarshalled(prior, data) == (prior, Some(NotAString))
    ensures data.Str? && k < |data.text| && data.text[k] != '\n' && data.text[k] != '\r'
            && !IsUrlSafe(data.text[k]) ==>
              Unmarshalled(prior, data).1 == Some(CorruptInput)
  {
    if data.Str? && k < |data.text| && data.text[k] != '\n' && data.text[k] != '\r' && !IsUrlSafe(data.text[k]) {
      RejectsOutsideUrlAlphabet(data.text, k);
    }
  }

  /** The public exponent 3 of a JWK, "Aw", reads back as the integer 3. */
  lemma ExponentThreeReadsBack()
    ensures MarshalJSON([0x03]) == Str("Aw")
    ensures Unmarshalled([], Str("Aw")) == ([0x03], None)
    ensures BigInt([0x03]) == 3
  {
    UnmarshalMarshal([], [0x03]);
    assert [0x03][..0] == [];
  }

  /**
   * `(*Bytes).Uint64`: `binary.BigEndian.Uint64`, which reads the first eight bytes
   * and panics on a shorter slice.
   */
  function Uint64(s: seq<byte>): (r: uint64)
    requires |s| >= 8
    ensures PutUint64(r) == s[..8]
  {
    FixedWidthOfValue(s[..8]);
    BigEndianValueBound(s[..8]);
    assert Pow256(8) == TwoTo64;
    BigEndianValue(s[..8])
  }

  /** `(*Bytes).Int`: the same 64 bits, read as a signed Go `int`. */
  function Int(s: seq<byte>): (r: int64)
    requires |s| >= 8
    ensures Uint64Of(r) == Uint64(s)
  {
    Int64Of(Uint64(s))
  }

  /**
   * `(*Bytes).BigInt`: `new(big.Int).SetBytes`, the unsigned big-endian magnitude.
   * Below 256^len, and math/big writes it back as the input without its leading zeros.
   */
  function BigInt(s: seq<byte>): (r: nat)
    ensures r < Pow256(|s|)
    ensures MagnitudeBytes(r) == StripLeadingZeros(s)
  {
    var t := StripLeadingZeros(s);
    BigEndianValueBound(s);
    LeadingZerosIgnored(|s| - |t|, t);
    MinimalEncodingUnique(t);
    BigEndianValue(s)
  }

  /** `Uint64` reads exactly the first eight bytes: what follows them does not matter. */
  lemma Uint64ReadsFirstEight(s: seq<byte>, t: seq<byte>)
    requires |s| >= 8
    ensures Uint64(s + t) == Uint64(s)
  {
    assert (s + t)[..8] == s[..8];
  }

  /** `Int` inverts the full eight-byte pattern `PutUint64` writes. */
  lemma IntInvertsPutUint64(i: int64)
    ensures Int(PutUint64(Uint64Of(i))) == i
  {
    var s := PutUint64(Uint64Of(i));
    assert s[..8] == s;
  }

  /**
   * `Uint64` and `Int` do not invert the minimal encoding: every non-negative value
   * below 2^56 encodes to fewer than eight bytes, too short for them to read.
   * Negative values keep all eight bytes and do round-trip.
   */
  lemma FixedReadersVersusMinimalEncoding(i: int64)
    ensures 0 <= i < 0x100_0000_0000_0000 ==> |IntToBigEndian(i).Bytes()| < 8
    ensures i < 0 ==> |IntToBigEndian(i).Bytes()| == 8 && Int(IntToBigEndian(i).Bytes()) == i
  {
    if 0 <= i < 0x100_0000_0000_0000 {
      var s := IntToBigEndian(i).Bytes();
      if s != [] {
        LeadingByteLowerBound(s);
        PowStrictlyIncreasing(|s| - 1, 7);
        assert Pow256(7) == 0x100_0000_0000_0000;
      }
    }
    if i < 0 {
      NegativeKeepsEightBytes(i);
      var s := IntToBigEndian(i).Bytes();
      assert s[..8] == s;
      assert Uint64(s) == Uint64Of(i);
    }
  }

  /** A byte string with a non-zero first byte is worth at least 256^(len-1). */
  lemma LeadingByteLowerBound(s: seq<byte>)
    requires s != [] && s[0] != 0
    ensures BigEndianValue(s) >= Pow256(|s| - 1)
  {
    assert s == [s[0]] + s[1..];
    BigEndianValueCons(s[0], s[1..]);
  }

  lemma {:induction false} PowStrictlyIncreasing(j: nat, k: nat)
    ensures j < k <==> Pow256(j) < Pow256(k)
  {
    if j > 0 && k > 0 {
      PowStrictlyIncreasing(j - 1, k - 1);
    } else if j > 0 {
      assert Pow256(j) == 256 * Pow256(j - 1);
    } else if k > 0 {
      assert Pow256(k) == 256 * Pow256(k - 1);
    }
  }

  /** `BigInt` ignores leading zero bytes and inverts `IntToBigEndian` on i >= 0 and math/big's `Bytes`. */
  lemma BigIntReadsMagnitude(z: nat, s: seq<byte>, i: int64, x: nat)
    ensures BigInt(Zeros(z) + s) == BigInt(s)
    ensures i >= 0 ==> BigInt(IntToBigEndian(i).Bytes()) == i
    ensures BigInt(MagnitudeBytes(x)) == x
  {
    LeadingZerosIgnored(z, s);
  }
}
