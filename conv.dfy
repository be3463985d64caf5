/**
 * Integers as big-endian byte strings: the unsigned reading of a byte string,
 * Go's fixed-width `binary.BigEndian.PutUint64`, `bytes.TrimLeft(_, "\x00")`,
 * math/big's minimal magnitude encoding, and the repository's `IntToBigEndian`.
 */
module Conv {
  import opened Go

  function Pow256(k: nat): (r: nat)
    ensures r > 0
  {
    if k == 0 then 1 else 256 * Pow256(k - 1)
  }

  /** The unsigned big-endian magnitude a byte string stands for. */
  function BigEndianValue(s: seq<byte>): nat
  {
    if s == [] then 0 else BigEndianValue(s[..|s| - 1]) * 256 + s[|s| - 1]
  }

  /** Reading a byte string from its first byte: the first byte weighs 256^(len-1). */
  lemma {:induction false} BigEndianValueCons(b: byte, s: seq<byte>)
    ensures BigEndianValue([b] + s) == b * Pow256(|s|) + BigEndianValue(s)
  {
    if s != [] {
      var t := [b] + s;
      assert t[..|t| - 1] == [b] + s[..|s| - 1];
      BigEndianValueCons(b, s[..|s| - 1]);
      calc {
        BigEndianValue(t);
        BigEndianValue([b] + s[..|s| - 1]) * 256 + s[|s| - 1];
        (b * Pow256(|s| - 1) + BigEndianValue(s[..|s| - 1])) * 256 + s[|s| - 1];
        b * (256 * Pow256(|s| - 1)) + (BigEndianValue(s[..|s| - 1]) * 256 + s[|s| - 1]);
      }
    }
  }

  /** A byte string of length k reads as a number below 256^k. */
  lemma {:induction false} BigEndianValueBound(s: seq<byte>)
    ensures BigEndianValue(s) < Pow256(|s|)
  {
    if s != [] {
      BigEndianValueBound(s[..|s| - 1]);
    }
  }

  /** Leading zero bytes do not change the value. */
  lemma {:induction false} LeadingZerosIgnored(z: nat, s: seq<byte>)
    ensures BigEndianValue(Zeros(z) + s) == BigEndianValue(s)
  {
    if z > 0 {
      assert Zeros(z) + s == [0] + (Zeros(z - 1) + s);
      BigEndianValueCons(0, Zeros(z - 1) + s);
      assert 0 * Pow256(|Zeros(z - 1) + s|) == 0;
      LeadingZerosIgnored(z - 1, s);
    } else {
      assert Zeros(z) + s == s;
    }
  }

  /** A byte string that starts with a non-zero byte has a non-zero value. */
  lemma NonZeroLeadingByte(s: seq<byte>)
    requires s != [] && s[0] != 0
    ensures BigEndianValue(s) > 0
  {
    assert s == [s[0]] + s[1..];
    BigEndianValueCons(s[0], s[1..]);
  }

  function Zeros(z: nat): (r: seq<byte>)
    ensures |r| == z && forall k :: 0 <= k < z ==> r[k] == 0
  {
    if z == 0 then [] else [0] + Zeros(z - 1)
  }

  /** The `w`-byte big-endian pattern of `x`; `PutUint64` is the case w = 8. */
  function FixedWidth(x: nat, w: nat): (r: seq<byte>)
    requires x < Pow256(w)
    ensures |r| == w && BigEndianValue(r) == x
  {
    if w == 0 then []
    else
      var r := FixedWidth(x / 256, w - 1) + [x % 256];
      assert r[..|r| - 1] == FixedWidth(x / 256, w - 1);
      r
  }

  /** A `w`-byte string is the `w`-byte pattern of its own value. */
  lemma {:induction false} FixedWidthOfValue(t: seq<byte>)
    ensures BigEndianValue(t) < Pow256(|t|)
    ensures FixedWidth(BigEndianValue(t), |t|) == t
  {
    BigEndianValueBound(t);
    if t != [] {
      var p, b := t[..|t| - 1], t[|t| - 1];
      FixedWidthOfValue(p);
      var v := BigEndianValue(t);
      assert v / 256 == BigEndianValue(p) && v % 256 == b;
      assert t == p + [b];
    }
  }

  /** `binary.BigEndian.PutUint64` into a fresh 8-byte buffer. */
  function PutUint64(x: uint64): (r: seq<byte>)
    ensures |r| == 8 && BigEndianValue(r) == x
  {
    assert Pow256(8) == TwoTo64;
    FixedWidth(x, 8)
  }

  /** The bytes left after removing every leading 0x00. */
  function StripLeadingZeros(s: seq<byte>): (r: seq<byte>)
    ensures r == [] || r[0] != 0
    ensures |r| <= |s| && s == Zeros(|s| - |r|) + r
  {
    if s == [] then []
    else if s[0] == 0 then
      var r := StripLeadingZeros(s[1..]);
      assert s == [0] + (Zeros(|s[1..]| - |r|) + r);
      assert [0] + Zeros(|s[1..]| - |r|) == Zeros(|s| - |r|);
      r
    else s
  }

  /**
   * `bytes.TrimLeft(s, "\x00")`. Go returns nil, not an empty slice,
   * when nothing is left.
   */
  function TrimLeftZeros(s: seq<byte>): (r: ByteSlice)
    ensures r.Nil? <==> forall k :: 0 <= k < |s| ==> s[k] == 0
    ensures r.Nil? <==> BigEndianValue(s) == 0
    ensures r.Slice? ==> r.elems != [] && r.elems[0] != 0
    ensures BigEndianValue(r.Bytes()) == BigEndianValue(s)
  {
    var t := StripLeadingZeros(s);
    LeadingZerosIgnored(|s| - |t|, t);
    if t == [] then Nil
    else
      assert s[|s| - |t|] == t[0];
      NonZeroLeadingByte(t);
      Slice(t)
  }

  /**
   * math/big's `(*Int).Bytes` on a non-negative value: the minimal big-endian
   * magnitude, empty for zero.
   */
  function MagnitudeBytes(x: nat): (r: seq<byte>)
    ensures BigEndianValue(r) == x
    ensures r == [] <==> x == 0
    ensures r != [] ==> r[0] != 0
  {
    if x == 0 then []
    else
      var r := MagnitudeBytes(x / 256) + [x % 256];
      assert r[..|r| - 1] == MagnitudeBytes(x / 256);
      r
  }

  /** The fewest octets for the value: empty, or a non-zero first byte. */
  predicate NoLeadingZero(s: seq<byte>)
  {
    s == [] || s[0] != 0
  }

  /** A byte string without a leading zero is the one minimal encoding of its value. */
  lemma {:induction false} MinimalEncodingUnique(s: seq<byte>)
    requires s == [] || s[0] != 0
    ensures MagnitudeBytes(BigEndianValue(s)) == s
  {
    if s != [] {
      var p, b := s[..|s| - 1], s[|s| - 1];
      BigEndianValueCons(s[0], s[1..]);
      assert s == [s[0]] + s[1..];
      assert BigEndianValue(s) > 0;
      var v := BigEndianValue(s);
      assert v == BigEndianValue(p) * 256 + b;
      assert v / 256 == BigEndianValue(p) && v % 256 == b;
      if p != [] {
        assert p[0] == s[0];
      }
      MinimalEncodingUnique(p);
      assert s == p + [b];
    }
  }

  /**
   * `IntToBigEndian` (internal/key/conv.go): write `uint64(i)` into eight bytes
   * big-endian, then trim the leading zero bytes.
   */
  function IntToBigEndian(i: int64): (r: ByteSlice)
    ensures |r.Bytes()| <= 8
    ensures r.Bytes() == [] || r.Bytes()[0] != 0
    ensures BigEndianValue(r.Bytes()) == Uint64Of(i)
    ensures r.Nil? <==> i == 0
  {
    TrimLeftZeros(PutUint64(Uint64Of(i)))
  }

  /** The encoding is math/big's minimal magnitude of `uint64(i)`. */
  lemma IntToBigEndianIsMinimal(i: int64)
    ensures IntToBigEndian(i).Bytes() == MagnitudeBytes(Uint64Of(i))
  {
    MinimalEncodingUnique(IntToBigEndian(i).Bytes());
  }

  /** A negative `i` keeps all eight bytes of its two's-complement pattern, sign bit set. */
  lemma NegativeKeepsEightBytes(i: int64)
    requires i < 0
    ensures |IntToBigEndian(i).Bytes()| == 8
    ensures IntToBigEndian(i).Bytes()[0] >= 0x80
  {
    var s := PutUint64(Uint64Of(i));
    assert s == [s[0]] + s[1..];
    BigEndianValueCons(s[0], s[1..]);
    BigEndianValueBound(s[1..]);
    assert Pow256(7) == 0x100_0000_0000_0000;
    assert s[0] >= 0x80;
    assert StripLeadingZeros(s) == s;
  }

  /** Concrete values: the usual RSA public exponent, and a small one. */
  lemma IntToBigEndianExamples()
    ensures IntToBigEndian(65537) == Slice([0x01, 0x00, 0x01])
    ensures IntToBigEndian(3) == Slice([0x03])
  {
    var s: seq<byte> := [0x01, 0x00, 0x01];
    assert s[..2] == [1, 0] && s[..2][..1] == [1] && s[..2][..1][..0] == [];
    assert BigEndianValue([1]) == 1;
    assert BigEndianValue([1, 0]) == 256;
    assert BigEndianValue(s) == 65537;
    MinimalEncodingUnique(s);
    IntToBigEndianIsMinimal(65537);
    var t: seq<byte> := [0x03];
    assert t[..0] == [];
    assert BigEndianValue(t) == 3;
    MinimalEncodingUnique(t);
    IntToBigEndianIsMinimal(3);
  }
}
