/** The Go basic types the core works with, with their widths made explicit. */
module Go {

  type byte = x: int | 0 <= x < 256

  const TwoTo63: nat := 0x8000_0000_0000_0000
  const TwoTo64: nat := 0x1_0000_0000_0000_0000

  /** Go's `int` on a 64-bit platform. */
  type int64 = x: int | -0x8000_0000_0000_0000 <= x < 0x8000_0000_0000_0000

  /** Go's `uint64`. */
  type uint64 = x: int | 0 <= x < TwoTo64

  /** A Go `[]byte`: `nil` and a non-nil empty slice are different values. */
  datatype ByteSlice = Nil | Slice(elems: seq<byte>) {

    /** The bytes the slice holds; `nil` holds none. */
    function Bytes(): seq<byte> {
      if Nil? then [] else elems
    }
  }

  /** The conversion `uint64(i)`: the 64-bit two's-complement pattern of `i`. */
  function Uint64Of(i: int64): (u: uint64)
    ensures i >= 0 ==> u == i
    ensures i < 0 ==> u >= TwoTo63
  {
    if i >= 0 then i else i + TwoTo64
  }

  /** The conversion `int(u)`: reinterprets the 64-bit pattern as a signed value. */
  function Int64Of(u: uint64): (i: int64)
    ensures Uint64Of(i) == u
  {
    if u < TwoTo63 then u else u - TwoTo64
  }
}
