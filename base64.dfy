/**
 * Base64 as encoding/base64 performs it: the alphabets of RFC 4648 section 4
 * (standard) and section 5 (URL- and filename-safe), an encoder with or without
 * `=` padding, and the decoder of `RawURLEncoding` (no padding, not strict).
 */
module Base64 {
  import opened Go
  import opened Wrappers

  datatype Alphabet = Std | Url

  /** The character that stands for the 6-bit value `v`. */
  function Char(a: Alphabet, v: nat): char
    requires v < 64
  {
    if v < 26 then ('A' as int + v) as char
    else if v < 52 then ('a' as int + (v - 26)) as char
    else if v < 62 then ('0' as int + (v - 52)) as char
    else if v == 62 then (if a == Url then '-' else '+')
    else if a == Url then '_' else '/'
  }

  /** The decoder's table: the 6-bit value of `c`, or None outside the alphabet. */
  function Sextet(a: Alphabet, c: char): (r: Option<nat>)
    ensures r.Some? ==> r.value < 64 && Char(a, r.value) == c
  {
    if 'A' <= c <= 'Z' then Some(c as int - 'A' as int)
    else if 'a' <= c <= 'z' then Some(c as int - 'a' as int + 26)
    else if '0' <= c <= '9' then Some(c as int - '0' as int + 52)
    else if c == (if a == Url then '-' else '+') then Some(62)
    else if c == (if a == Url then '_' else '/') then Some(63)
    else None
  }

  /** The table inverts the alphabet. */
  lemma SextetOfChar(a: Alphabet, v: nat)
    requires v < 64
    ensures Sextet(a, Char(a, v)) == Some(v)
  {
  }

  /** The 65 characters of RFC 4648 section 5 (A-Z, a-z, 0-9, '-', '_'), listed on their own. */
  predicate IsUrlSafe(c: char)
  {
    'A' <= c <= 'Z' || 'a' <= c <= 'z' || '0' <= c <= '9' || c == '-' || c == '_'
  }

  /** Every character of the URL-safe alphabet decodes, and no other does. */
  lemma UrlAlphabetIsUrlSafe(c: char)
    ensures Sextet(Url, c).Some? <==> IsUrlSafe(c)
  {
  }

  /** Four characters for three bytes. */
  function Quantum(a: Alphabet, b0: byte, b1: byte, b2: byte): (r: string)
    ensures |r| == 4
  {
    [Char(a, b0 / 4), Char(a, b0 % 4 * 16 + b1 / 16), Char(a, b1 % 16 * 4 + b2 / 64), Char(a, b2 % 64)]
  }

  /**
   * `Encoding.EncodeToString`: whole 3-byte groups first, then a tail of one or two
   * bytes written as two or three characters, followed by `=` padding when the
   * encoding pads.
   */
  function Encode(a: Alphabet, padded: bool, s: seq<byte>): string
  {
    if |s| == 0 then ""
    else if |s| == 1 then
      [Char(a, s[0] / 4), Char(a, s[0] % 4 * 16)] + (if padded then "==" else "")
    else if |s| == 2 then
      [Char(a, s[0] / 4), Char(a, s[0] % 4 * 16 + s[1] / 16), Char(a, s[1] % 16 * 4)]
      + (if padded then "=" else "")
    else
      Quantum(a, s[0], s[1], s[2]) + Encode(a, padded, s[3..])
  }

  /** Unpadded output has ceil(4n/3) characters; padded output 4 * ceil(n/3). */
  lemma {:induction false} EncodedLength(a: Alphabet, s: seq<byte>)
    ensures |Encode(a, false, s)| == (4 * |s| + 2) / 3
    ensures |Encode(a, true, s)| == 4 * ((|s| + 2) / 3)
  {
    if |s| >= 3 {
      EncodedLength(a, s[3..]);
      assert |Encode(a, false, s)| == 4 + |Encode(a, false, s[3..])|;
      assert |Encode(a, true, s)| == 4 + |Encode(a, true, s[3..])|;
      assert (4 * |s| + 2) / 3 == 4 + (4 * |s[3..]| + 2) / 3;
      assert (|s| + 2) / 3 == 1 + (|s[3..]| + 2) / 3;
    }
  }

  /** Unpadded output uses only characters of the chosen alphabet; in particular no '='. */
  lemma {:induction false} EncodedAlphabet(a: Alphabet, s: seq<byte>)
    ensures forall k :: 0 <= k < |Encode(a, false, s)| ==> Sextet(a, Encode(a, false, s)[k]).Some?
  {
    if |s| >= 3 {
      EncodedAlphabet(a, s[3..]);
      var q, rest := Quantum(a, s[0], s[1], s[2]), Encode(a, false, s[3..]);
      assert Encode(a, false, s) == q + rest;
      forall k | 0 <= k < |q + rest|
        ensures Sextet(a, (q + rest)[k]).Some?
      {
        if k >= 4 {
          assert (q + rest)[k] == rest[k - 4];
        }
      }
    }
  }

  /** RawURLEncoding output is URL-safe text without padding. */
  lemma UrlEncodingIsUrlSafe(s: seq<byte>)
    ensures forall c :: c in Encode(Url, false, s) ==> IsUrlSafe(c)
    ensures '=' !in Encode(Url, false, s)
  {
    EncodedAlphabet(Url, s);
    forall c | c in Encode(Url, false, s)
      ensures IsUrlSafe(c)
    {
      UrlAlphabetIsUrlSafe(c);
    }
  }

  /** The decoder skips '\r' and '\n' wherever they stand. */
  function StripNewlines(t: string): (r: string)
    ensures |r| <= |t|
  {
    if t == [] then []
    else (if t[0] == '\n' || t[0] == '\r' then [] else [t[0]]) + StripNewlines(t[1..])
  }

  /**
   * What `Decode` returns: the bytes it wrote before stopping, and whether it
   * finished without a CorruptInputError.
   */
  datatype Decoded = Decoded(bytes: seq<byte>, ok: bool)

  predicate AllInAlphabet(a: Alphabet, u: string)
  {
    forall k :: 0 <= k < |u| ==> Sextet(a, u[k]).Some?
  }

  /**
   * The unpadded, non-strict decoding loop over newline-free text. Each group of
   * four characters gives three bytes; a final group of two or three characters
   * gives one or two bytes and its leftover low bits are ignored. A character
   * outside the alphabet, or a final group of one character, stops decoding with
   * an error; the bytes of the groups before it have already been written.
   */
  function DecodeQuanta(a: Alphabet, u: string): (r: Decoded)
    ensures r.ok ==> |r.bytes| == |u| * 3 / 4
    ensures !r.ok ==> |r.bytes| % 3 == 0 && |r.bytes| <= |u| / 4 * 3
  {
    if |u| == 0 then Decoded([], true)
    else
      var m := if |u| < 4 then |u| else 4;
      if m == 1 || !AllInAlphabet(a, u[..m]) then Decoded([], false)
      else if m < 4 then Decoded(DecodeGroup(a, u[..m]), true)
      else
        var rest := DecodeQuanta(a, u[4..]);
        assert |u| * 3 / 4 == 3 + |u[4..]| * 3 / 4 && |u| / 4 * 3 == 3 + |u[4..]| / 4 * 3;
        Decoded(DecodeGroup(a, u[..4]) + rest.bytes, rest.ok)
  }

  /**
   * The bytes of one group of two to four characters: their 6-bit values laid
   * end to end, cut into bytes, with the bits left over at the end dropped.
   */
  function DecodeGroup(a: Alphabet, g: string): (r: seq<byte>)
    requires 2 <= |g| <= 4 && AllInAlphabet(a, g)
    ensures |r| == |g| - 1
  {
    var v0, v1 := Sextet(a, g[0]).value, Sextet(a, g[1]).value;
    var b0 := v0 * 4 + v1 / 16;
    if |g| == 2 then [b0]
    else
      var v2 := Sextet(a, g[2]).value;
      var b1 := v1 % 16 * 16 + v2 / 4;
      if |g| == 3 then [b0, b1]
      else
        var v3 := Sextet(a, g[3]).value;
        [b0, b1, v2 % 4 * 64 + v3]
  }

  /** `RawURLEncoding.DecodeString`. */
  function DecodeRawUrl(t: string): Decoded
  {
    DecodeQuanta(Url, StripNewlines(t))
  }

  lemma StripNewlinesIdentity(t: string)
    requires '\n' !in t && '\r' !in t
    ensures StripNewlines(t) == t
  {
  }

  /** Decoding one full group restores the three bytes that were encoded. */
  lemma QuantumRestores(b0: byte, b1: byte, b2: byte)
    ensures b0 / 4 * 4 + (b0 % 4 * 16 + b1 / 16) / 16 == b0
    ensures (b0 % 4 * 16 + b1 / 16) % 16 * 16 + (b1 % 16 * 4 + b2 / 64) / 4 == b1
    ensures (b1 % 16 * 4 + b2 / 64) % 4 * 64 + b2 % 64 == b2
  {
  }

  /** A full group of four characters decodes to the three bytes it encodes. */
  lemma DecodeQuantum(a: Alphabet, b0: byte, b1: byte, b2: byte)
    ensures AllInAlphabet(a, Quantum(a, b0, b1, b2))
    ensures DecodeGroup(a, Quantum(a, b0, b1, b2)) == [b0, b1, b2]
  {
    var v0, v1, v2, v3 := b0 / 4, b0 % 4 * 16 + b1 / 16, b1 % 16 * 4 + b2 / 64, b2 % 64;
    var q := Quantum(a, b0, b1, b2);
    assert q == [Char(a, v0), Char(a, v1), Char(a, v2), Char(a, v3)];
    SextetOfChar(a, v0);
    SextetOfChar(a, v1);
    SextetOfChar(a, v2);
    SextetOfChar(a, v3);
    QuantumRestores(b0, b1, b2);
    GroupOfSextets(a, q, v0, v1, v2, v3);
  }

  /** A group of four characters whose values are known decodes by the bit layout. */
  lemma GroupOfSextets(a: Alphabet, g: string, v0: nat, v1: nat, v2: nat, v3: nat)
    requires |g| == 4
    requires Sextet(a, g[0]) == Some(v0) && Sextet(a, g[1]) == Some(v1)
    requires Sextet(a, g[2]) == Some(v2) && Sextet(a, g[3]) == Some(v3)
    ensures AllInAlphabet(a, g)
    ensures DecodeGroup(a, g) == [v0 * 4 + v1 / 16, v1 % 16 * 16 + v2 / 4, v2 % 4 * 64 + v3]
  {
  }

  /** The decoder's view of a group that starts with four characters of the alphabet. */
  lemma DecodeFullGroup(a: Alphabet, b0: byte, b1: byte, b2: byte, rest: string)
    ensures DecodeQuanta(a, Quantum(a, b0, b1, b2) + rest)
         == Decoded([b0, b1, b2] + DecodeQuanta(a, rest).bytes, DecodeQuanta(a, rest).ok)
  {
    var q := Quantum(a, b0, b1, b2);
    var u := q + rest;
    assert u[..4] == q && u[4..] == rest;
    DecodeQuantum(a, b0, b1, b2);
  }

  /** Decoding restores every byte string the unpadded encoder produced. */
  lemma {:induction false} DecodeEncode(a: Alphabet, s: seq<byte>)
    ensures DecodeQuanta(a, Encode(a, false, s)) == Decoded(s, true)
  {
    if |s| >= 3 {
      DecodeEncodeStep(a, s);
      DecodeEncode(a, s[3..]);
      assert s == s[..3] + s[3..];
    } else if |s| > 0 {
      DecodeEncodeTail(a, s);
    }
  }

  /** The first three bytes come back from the first group, the rest from the rest of the text. */
  lemma DecodeEncodeStep(a: Alphabet, s: seq<byte>)
    requires |s| >= 3
    ensures DecodeQuanta(a, Encode(a, false, s))
         == Decoded(s[..3] + DecodeQuanta(a, Encode(a, false, s[3..])).bytes, DecodeQuanta(a, Encode(a, false, s[3..])).ok)
  {
    var rest := Encode(a, false, s[3..]);
    assert Encode(a, false, s) == Quantum(a, s[0], s[1], s[2]) + rest;
    assert s[..3] == [s[0], s[1], s[2]];
    DecodeFullGroup(a, s[0], s[1], s[2], rest);
  }

  /** A tail of one or two bytes comes back from the last group. */
  lemma DecodeEncodeTail(a: Alphabet, s: seq<byte>)
    requires 1 <= |s| <= 2
    ensures DecodeQuanta(a, Encode(a, false, s)) == Decoded(s, true)
  {
    if |s| == 1 {
      assert s == [s[0]];
      DecodeOneByte(a, s[0]);
    } else {
      assert s == [s[0], s[1]];
      DecodeTwoBytes(a, s[0], s[1]);
    }
  }

  /** A final group of two characters gives back its one byte. */
  lemma DecodeOneByte(a: Alphabet, b0: byte)
    ensures DecodeQuanta(a, Encode(a, false, [b0])) == Decoded([b0], true)
  {
    var u := Encode(a, false, [b0]);
    SextetOfChar(a, b0 / 4);
    SextetOfChar(a, b0 % 4 * 16);
    assert u[..2] == u;
    QuantumRestores(b0, 0, 0);
  }

  /** A final group of three characters gives back its two bytes. */
  lemma DecodeTwoBytes(a: Alphabet, b0: byte, b1: byte)
    ensures DecodeQuanta(a, Encode(a, false, [b0, b1])) == Decoded([b0, b1], true)
  {
    var v0, v1, v2 := b0 / 4, b0 % 4 * 16 + b1 / 16, b1 % 16 * 4;
    var u := Encode(a, false, [b0, b1]);
    assert u == [Char(a, v0), Char(a, v1), Char(a, v2)];
    SextetOfChar(a, v0);
    SextetOfChar(a, v1);
    SextetOfChar(a, v2);
    assert AllInAlphabet(a, u) && u[..3] == u;
    QuantumRestores(b0, b1, 0);
  }

  /** `RawURLEncoding.DecodeString(RawURLEncoding.EncodeToString(s))` is `s`, without error. */
  lemma RoundTrip(s: seq<byte>)
    ensures DecodeRawUrl(Encode(Url, false, s)) == Decoded(s, true)
  {
    UrlEncodingIsUrlSafe(s);
    StripNewlinesIdentity(Encode(Url, false, s));
    DecodeEncode(Url, s);
  }
  /** A character outside the alphabet makes the decoding loop fail. */
  lemma {:induction false} InvalidCharacterRejected(a: Alphabet, u: string, k: nat)
    requires k < |u| && Sextet(a, u[k]).None?
    ensures !DecodeQuanta(a, u).ok
  {
    if |u| > 1 {
      var m := if |u| < 4 then |u| else 4;
      if k < m {
        assert u[..m][k] == u[k];
      } else if AllInAlphabet(a, u[..m]) {
        InvalidCharacterRejected(a, u[4..], k - 4);
      }
    }
  }

  /** Every character other than '\r' and '\n' reaches the decoding loop. */
  lemma {:induction false} StripNewlinesKeeps(t: string, k: nat)
    requires k < |t| && t[k] != '\n' && t[k] != '\r'
    ensures t[k] in StripNewlines(t)
  {
    if k > 0 {
      StripNewlinesKeeps(t[1..], k - 1);
    }
  }

  /** Text holding a character outside RFC 4648 section 5 (other than a line break) is rejected. */
  lemma RejectsOutsideUrlAlphabet(t: string, k: nat)
    requires k < |t| && t[k] != '\n' && t[k] != '\r' && !IsUrlSafe(t[k])
    ensures !DecodeRawUrl(t).ok
  {
    StripNewlinesKeeps(t, k);
    var u := StripNewlines(t);
    var j :| 0 <= j < |u| && u[j] == t[k];
    UrlAlphabetIsUrlSafe(u[j]);
    InvalidCharacterRejected(Url, u, j);
  }

  /** The standard alphabet's '+' and '/', and the padding '=', are all rejected. */
  lemma RejectsStandardAlphabetAndPadding(t: string)
    requires '+' in t || '/' in t || '=' in t
    ensures !DecodeRawUrl(t).ok
  {
    var k :| 0 <= k < |t| && t[k] in "+/=";
    RejectsOutsideUrlAlphabet(t, k);
  }

  /**
   * On failure the bytes returned are exactly the successful decoding of the
   * whole groups before the faulty one.
   */
  lemma {:induction false} FailureKeepsDecodedGroups(a: Alphabet, u: string)
    requires !DecodeQuanta(a, u).ok
    ensures var r := DecodeQuanta(a, u); var n := |r.bytes| / 3 * 4;
      n < |u| && DecodeQuanta(a, u[..n]) == Decoded(r.bytes, true)
  {
    var r := DecodeQuanta(a, u);
    if |u| >= 4 && AllInAlphabet(a, u[..4]) {
      var rest := DecodeQuanta(a, u[4..]);
      FailureKeepsDecodedGroups(a, u[4..]);
      var n' := |rest.bytes| / 3 * 4;
      var n := n' + 4;
      assert |r.bytes| / 3 * 4 == n;
      var v := u[..n];
      assert v[..4] == u[..4] && v[4..] == u[4..][..n'];
    } else {
      assert r.bytes == [] && u[..0] == [];
    }
  }

  /** A last group of a single character cannot stand for any byte and is rejected. */
  lemma {:induction false} LoneFinalCharacterRejected(a: Alphabet, u: string)
    requires |u| % 4 == 1
    ensures !DecodeQuanta(a, u).ok
  {
    if |u| > 1 && AllInAlphabet(a, u[..4]) {
      LoneFinalCharacterRejected(a, u[4..]);
    }
  }

  /**
   * The decoder is not strict: it ignores the leftover bits of a final group, so
   * "QR", which the encoder never writes, decodes like "QQ" (RFC 4648 section 3.5
   * lets a decoder accept this).
   */
  lemma NonCanonicalTextAccepted()
    ensures Encode(Url, false, [0x41]) == "QQ"
    ensures DecodeRawUrl("QR") == Decoded([0x41], true)
    ensures DecodeRawUrl("QQ") == Decoded([0x41], true)
  {
    assert StripNewlines("QR") == "QR";
    assert StripNewlines("QQ") == "QQ";
    assert AllInAlphabet(Url, "QR"[..2]);
    assert AllInAlphabet(Url, "QQ"[..2]);
  }
}
