/** Vocabulary shared by every buffer of the package: Go's `byte`, the two
    `error` values the buffers can observe, the outcome of a Go index
    expression, and Go's built-in `copy`. */
module Bytes {

  /** A Go `byte`. */
  type byte = b: int | 0 <= b < 0x100

  /** The `error` values the buffers hold: nil, or io.EOF. */
  datatype Error = NoError | EOF

  /** The outcome of a Go index expression `s[i]`: the element, or the
      run-time panic "index out of range". */
  datatype Access<T> = InRange(value: T) | OutOfRange

  function Min(a: int, b: int): int {
    if a <= b then a else b
  }

  /** Go's `copy(dst[dstLo:dstLo+count], src[srcLo:srcLo+count])`. All
      elements are read before any is written, so `dst` and `src` may be the
      same array with overlapping ranges, as with Go's `copy`. */
  method Copy<T>(dst: array<T>, dstLo: nat, src: array<T>, srcLo: nat, count: nat)
    requires dstLo + count <= dst.Length && srcLo + count <= src.Length
    modifies dst
    ensures dst[dstLo..dstLo + count] == old(src[srcLo..srcLo + count])
    ensures dst[..dstLo] == old(dst[..dstLo])
    ensures dst[dstLo + count..] == old(dst[dstLo + count..])
  {
    forall k | 0 <= k < count {
      dst[dstLo + k] := src[srcLo + k];
    }
  }
}
