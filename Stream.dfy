/** What the two streaming buffers, the Lexer and the Shifter, share: the
    refill step that carries the unfinished bytes to the front of a buffer and
    reads after them, and the facts a peek gives about the byte stream, which
    `PeekRune` puts together. A buffer holding `len` bytes from stream offset
    `base` on is the stretch `input[base..base + len]` of the stream. */
module Streams {
  import opened Bytes
  import opened Utf8
  import opened Readers

  /** lexer.go, lines 118-122 (and shifter.go, lines 73-77, and
      generic/buffer.go, lines 25-27): the unfinished elements `src[pos:len]`
      are copied to the front of `nb`, which may be `src` itself, and the
      reader fills `nb[d:cap]` after them. */
  method CarryAndRead<T>(nb: array<T>, src: array<T>, pos: nat, len: nat, r: Reader<T>,
                         ghost input: seq<T>, ghost base: nat)
    returns (n: nat, err: Error)
    requires pos <= len <= src.Length && len - pos <= nb.Length && r.Valid()
    requires base + len <= |input| && src[..len] == input[base..base + len]
    requires r.buf == input && r.pos == base + len
    modifies nb, r
    ensures r.Valid() && r.pos == base + len + n && n <= nb.Length - (len - pos)
    ensures nb[..len - pos + n] == input[base + pos..r.pos]
    ensures n == nb.Length - (len - pos) || r.pos == |input|
    ensures n > 0 <==> err == NoError && nb.Length > len - pos && base + len < |input|
    ensures err == EOF ==> r.pos == |input|
  {
    var d := len - pos;
    assert src[pos..len] == input[base + pos..base + len] by {
      assert src[pos..len] == src[..len][pos..];
    }
    Copy(nb, 0, src, pos, d);
    n, err := r.Read(nb, d, nb.Length);
    assert nb[..d + n] == nb[..d] + nb[d..d + n];
    assert input[base + pos..r.pos] == input[base + pos..base + len] + input[base + len..r.pos];
  }

  /** A stretch of the buffered bytes is the stream between the matching
      positions. */
  lemma SubWindow<T>(b: seq<T>, input: seq<T>, base: nat, len: nat, i: nat, j: nat)
    requires len <= |b| && base + len <= |input| && b[..len] == input[base..base + len]
    requires i <= j <= len
    ensures b[i..j] == input[base + i..base + j]
  {
    forall k | i <= k < j
      ensures b[k] == input[base + k]
    {
      assert b[..len][k] == input[base..base + len][k];
    }
  }


  /** What a peek at stream position `j` tells once `buffered` bytes of
      `input` are buffered and `e` is recorded: a byte of the stream, or a 0
      that only a recorded error yields. */
  ghost predicate Seen(input: seq<byte>, c: Access<byte>, j: int, buffered: int, e: Error) {
    c.InRange? ==> 0 <= j && (j < buffered ==> j < |input| && c.value == input[j]) && (j >= buffered ==> e == EOF)
  }

  /** A byte seen earlier is the stream's byte at its position once that
      position is buffered: the buffered extent only grows, and not at all
      after EOF. */
  lemma SeenLater(input: seq<byte>, c: byte, j: int, b0: int, e0: Error, b: int, e: Error)
    requires Seen(input, InRange(c), j, b0, e0) && b0 <= b && (e0 == EOF ==> e == EOF && b == b0)
    ensures Seen(input, InRange(c), j, b, e)
  {
  }

  /** Each of `cs` is what a peek at its position from `j` on tells. */
  ghost predicate SeenAll(input: seq<byte>, cs: seq<byte>, j: int, buffered: int, e: Error)
    decreases |cs|
  {
    |cs| > 0 ==> Seen(input, InRange(cs[0]), j, buffered, e) && SeenAll(input, cs[1..], j + 1, buffered, e)
  }

  lemma {:induction false} SeenAllEach(input: seq<byte>, cs: seq<byte>, j: int, buffered: int, e: Error)
    requires SeenAll(input, cs, j, buffered, e)
    ensures forall m | 0 <= m < |cs| :: Seen(input, InRange(cs[m]), j + m, buffered, e)
    decreases |cs|
  {
    if |cs| > 0 {
      SeenAllEach(input, cs[1..], j + 1, buffered, e);
      forall m | 1 <= m < |cs|
        ensures Seen(input, InRange(cs[m]), j + m, buffered, e)
      {
        assert cs[m] == cs[1..][m - 1];
      }
    }
  }

  /** The `n` stream bytes from `j` on, for a rune length `n`; the same
      bytes as `input[j..j + n]` (SpanIsSlice), written out. */
  function Span(input: seq<byte>, j: int, n: int): seq<byte>
    requires 0 <= j && 1 <= n <= 4 && j + n <= |input|
  {
    if n == 1 then [input[j]]
    else if n == 2 then [input[j], input[j + 1]]
    else if n == 3 then [input[j], input[j + 1], input[j + 2]]
    else [input[j], input[j + 1], input[j + 2], input[j + 3]]
  }

  lemma SpanIsSlice(input: seq<byte>, j: int, n: int)
    requires 0 <= j && 1 <= n <= 4 && j + n <= |input|
    ensures Span(input, j, n) == input[j..j + n]
  {
  }

  /** A lead byte and the continuation bytes after it, each seen at its
      position while all of them are buffered, decode to the rune those
      stream bytes spell. */
  lemma DecodedAt(input: seq<byte>, c: byte, cs: seq<byte>, j: int, b: int, e: Error)
    requires Seen(input, InRange(c), j, b, e) && 0xC0 <= c && |cs| == RuneLen(c) - 1 && b <= |input|
    requires SeenAll(input, cs, j + 1, b, e)
    ensures var r := Decode([c] + cs);
      0 <= j && j + r.size <= b ==> r.size == RuneLen(input[j]) && r == Decode(Span(input, j, r.size))
  {
    var n := 1 + |cs|;
    SeenAllEach(input, cs, j + 1, b, e);
    if 0 <= j && j + n <= b {
      assert Seen(input, InRange(if |cs| == 0 then c else cs[|cs| - 1]), j + |cs|, b, e);
      forall m | 0 <= m < |cs|
        ensures input[j + 1 + m] == cs[m]
      {
        assert Seen(input, InRange(cs[m]), j + 1 + m, b, e);
      }
      assert Span(input, j, n) == [c] + cs;
    }
  }
}
