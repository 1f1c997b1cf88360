/** reader.go: a pull source over an in-memory slice. The element type is a
    parameter so that the same source can stand for the `Read` callback of the
    generic buffer; `Reader<byte>` is the package's `Reader`. */
module Readers {
  import opened Bytes

  class Reader<T> {
    /** The underlying slice; `Read` never writes to it. */
    const buf: seq<T>
    /** Index of the next element to hand out. */
    var pos: nat

    ghost predicate Valid()
      reads this
    {
      pos <= |buf|
    }

    /** What has been handed out so far, and what is still to come. */
    ghost function Consumed(): seq<T>
      reads this
      requires Valid()
    {
      buf[..pos]
    }

    ghost function Remaining(): seq<T>
      reads this
      requires Valid()
    {
      buf[pos..]
    }

    /** NewReader. */
    constructor (buf: seq<T>)
      ensures Valid() && this.buf == buf && pos == 0
    {
      this.buf := buf;
      pos := 0;
    }

    /** `Read(b[lo:hi])`: copies as much of the rest of `buf` as fits into the
        region, advances `pos` past it, and reports io.EOF only when nothing is
        left and the region is not empty. */
    method Read(b: array<T>, lo: nat, hi: nat) returns (n: nat, err: Error)
      requires Valid() && lo <= hi <= b.Length
      modifies this, b
      ensures Valid()
      ensures lo == hi ==> n == 0 && err == NoError
      ensures lo < hi && old(pos) >= |buf| ==> n == 0 && err == EOF
      ensures lo < hi && old(pos) < |buf| ==> 0 < n == Min(hi - lo, |buf| - old(pos)) && err == NoError
      ensures pos == old(pos) + n
      ensures b[lo..lo + n] == buf[old(pos)..pos]
      ensures b[..lo] == old(b[..lo]) && b[lo + n..] == old(b[lo + n..])
    {
      if lo == hi {
        return 0, NoError;
      }
      if pos >= |buf| {
        return 0, EOF;
      }
      n := Min(hi - lo, |buf| - pos);
      forall k | 0 <= k < n {
        b[lo + k] := buf[pos + k];
      }
      pos := pos + n;
      err := NoError;
    }

    /** The whole underlying slice, whatever has been read of it. */
    function Bytes(): (s: seq<T>)
      reads this
      requires Valid()
      ensures s == Consumed() + Remaining()
    {
      buf
    }
  }

  /** Reads `r` to the end in chunks of `chunk` bytes, as `ioutil.ReadAll`
      does: the successive non-empty reads, concatenated, are exactly what was
      left of the slice. */
  method ReadAll(r: Reader<byte>, chunk: nat) returns (all: seq<byte>)
    requires r.Valid() && chunk > 0
    modifies r
    ensures r.Valid() && r.pos == |r.buf|
    ensures all == old(r.Remaining())
  {
    var b := new byte[chunk];
    all := [];
    var n: nat, err: Error := r.Read(b, 0, chunk);
    while err != EOF
      invariant r.Valid()
      invariant b.Length == chunk
      invariant n <= chunk
      invariant old(r.pos) <= r.pos - n
      invariant err == EOF ==> n == 0 && r.pos == |r.buf|
      invariant all + b[..n] == r.buf[old(r.pos)..r.pos]
      invariant err == NoError ==> 0 < n
      decreases |r.buf| - r.pos, n
    {
      all := all + b[..n];
      n, err := r.Read(b, 0, chunk);
    }
    assert b[..n] == [] && all + [] == all;
    assert r.buf[old(r.pos)..r.pos] == r.buf[old(r.pos)..];
  }
}
