/** mem_lexer.go: the MemLexer, which holds the whole input in memory behind
    a NUL sentinel and keeps a selection `buf[start:pos]` by index arithmetic
    alone: nothing is ever refilled, shifted out or freed. */
module MemLexers {
  import opened Bytes
  import opened Utf8
  import opened Readers

  /** mem_lexer.go, lines 34-37: the input with a 0 byte appended, unless it
      is empty or ends in 0 already. Either way the bytes are kept, and a
      non-empty buffer ends in 0. */
  function Terminated(b: seq<byte>): (t: seq<byte>)
    ensures |b| <= |t| <= |b| + 1 && t[..|b|] == b
    ensures |t| == 0 <==> |b| == 0
    ensures |t| > 0 ==> t[|t| - 1] == 0
    ensures |t| == |b| + 1 <==> |b| > 0 && b[|b| - 1] != 0
  {
    if |b| > 0 && b[|b| - 1] != 0 then b + [0] else b
  }

  class MemLexer {
    /** The input and its sentinel; never written after construction. */
    const buf: seq<byte>
    /** The input as the reader delivered it, before the sentinel. */
    ghost const Input: seq<byte>
    /** End of the selection (index in buf). */
    var pos: int
    /** Start of the selection (index in buf). */
    var start: int

    ghost predicate Valid() {
      buf == Terminated(Input)
    }

    /** NewMemLexer for a reader with a `Bytes` method: those bytes, with the
        sentinel. */
    constructor FromBytes(bytes: seq<byte>)
      ensures Valid() && Input == bytes && pos == 0 && start == 0
    {
      buf := Terminated(bytes);
      Input := bytes;
      pos, start := 0, 0;
    }

    /** NewMemLexer for any other reader: all it has still to deliver, read
        in the 512-byte chunks `ioutil.ReadAll` starts with, and the
        sentinel. */
    constructor FromReader(r: Reader<byte>)
      requires r.Valid()
      modifies r
      ensures Valid() && Input == old(r.Remaining()) && pos == 0 && start == 0
      ensures r.Valid() && r.pos == |r.buf|
    {
      var b := ReadAll(r, 512);
      buf := Terminated(b);
      Input := b;
      pos, start := 0, 0;
    }

    /** `Err()`: EOF once the selection's end reaches the last byte of the
        buffer. In terms of the input: at once for empty input, when every
        input byte is behind `pos`, and (for input that ends in 0 and so got
        no sentinel) already at that final 0. */
    function Err(): (e: Error)
      reads this
      requires Valid()
      ensures Input == [] && pos >= 0 ==> e == EOF
      ensures |Input| > 0 && Input[|Input| - 1] != 0 ==> (e == EOF <==> pos >= |Input|)
      ensures |Input| > 0 && Input[|Input| - 1] == 0 ==> (e == EOF <==> pos >= |Input| - 1)
    {
      if pos >= |buf| - 1 then EOF else NoError
    }

    /** `Peek(i)`: the byte `i` places after the selection's end, or a panic.
        In range are the input bytes and the appended sentinel, which reads
        as 0. */
    function Peek(i: int): (v: Access<byte>)
      reads this
      requires Valid()
      ensures v.InRange? <==> 0 <= pos + i < |Input| || (pos + i == |Input| && |Input| > 0 && Input[|Input| - 1] != 0)
      ensures 0 <= pos + i < |Input| ==> v == InRange(Input[pos + i])
      ensures v.InRange? && pos + i >= |Input| ==> v.value == 0
    {
      var k := pos + i;
      if 0 <= k < |buf| then InRange(buf[k]) else OutOfRange
    }

    /** `PeekRune(i)`: the rune at `i` past the selection's end, decoded from
        the lead byte and as many following bytes as it announces; a panic
        when the lead byte or the last of them is out of range. Inside the
        input it is the decoding of the stream bytes there. */
    function PeekRune(i: int): (rv: Access<Rune>)
      reads this
      requires Valid()
      ensures rv.InRange? ==> Peek(i).InRange? && rv.value.size == RuneLen(Peek(i).value)
      ensures rv.InRange? ==> pos + i + rv.value.size <= |buf|
      ensures Peek(i).InRange? && pos + i + RuneLen(Peek(i).value) <= |buf| ==> rv.InRange?
      ensures var j := pos + i;
        rv.InRange? && j + rv.value.size <= |Input| ==> rv.value == Decode(Input[j..j + rv.value.size])
    {
      var c := Peek(i);
      if c.OutOfRange? then
        OutOfRange
      else if c.value < 0xC0 then
        InRange(Rune(c.value, 1))
      else
        var j, n := pos + i, RuneLen(c.value);
        if j + n <= |buf| then InRange(Decode(buf[j..j + n])) else OutOfRange
    }

    /** `Move(n)`: advances the selection's end by `n`, unchecked. */
    method Move(n: int)
      modifies this
      ensures pos == old(pos) + n && start == old(start)
    {
      pos := pos + n;
    }

    /** `Pos()`: the length of the selection, a mark for Rewind; inside the
        input, the number of input bytes selected. */
    function Pos(): (p: int)
      reads this
      ensures 0 <= start <= pos <= |Input| ==> p == |Input[start..pos]|
    {
      pos - start
    }

    /** `Rewind(n)`: sets the selection's end to mark `n`; Pos() is then `n`,
        so rewinding to Pos() changes nothing. */
    method Rewind(n: int)
      modifies this
      ensures Pos() == n && start == old(start)
      ensures n == old(Pos()) ==> pos == old(pos)
    {
      pos := start + n;
    }

    /** `Lexeme()`: the selection `buf[start:pos]`, or a panic; inside the
        input it is the input between the two positions. */
    function Lexeme(): (s: Access<seq<byte>>)
      reads this
      requires Valid()
      ensures s.InRange? <==> 0 <= start <= pos <= |buf|
      ensures s.InRange? ==> |s.value| == Pos()
      ensures s.InRange? && pos <= |Input| ==> s.value == Input[start..pos]
    {
      if 0 <= start <= pos <= |buf| then InRange(buf[start..pos]) else OutOfRange
    }

    /** `Skip()`: the selection becomes empty at its end. */
    method Skip()
      modifies this
      ensures start == old(pos) && pos == old(pos) && Pos() == 0
    {
      start := pos;
    }

    /** `Shift()`: the selection, after which it is empty at its old end.
        When slicing the selection panics, the start stays where it was. */
    method Shift() returns (s: Access<seq<byte>>)
      requires Valid()
      modifies this
      ensures s == old(Lexeme()) && pos == old(pos)
      ensures s.InRange? ==> start == old(pos) && Pos() == 0 && Lexeme() == InRange([])
      ensures s.OutOfRange? ==> unchanged(this)
    {
      s := Lexeme();
      if s.InRange? {
        start := pos;
      }
    }

    /** `Free(n)`: nothing to do, as the whole input stays in memory. */
    method Free(n: int)
      ensures unchanged(this)
    {
    }
  }

  /** A rune whose UTF-8 encoding starts `i` bytes past the selection's end
      is peeked as that code point with that length. */
  lemma PeekRuneEncoded(m: MemLexer, i: int, cp: int)
    requires m.Valid() && 0 <= cp < 0x110000
    requires 0 <= m.pos + i && m.pos + i + |Encode(cp)| <= |m.Input|
    requires m.Input[m.pos + i..m.pos + i + |Encode(cp)|] == Encode(cp)
    ensures m.PeekRune(i) == InRange(Rune(cp, |Encode(cp)|))
  {
    var j, e := m.pos + i, Encode(cp);
    assert m.Input[j] == e[0] by {
      assert m.Input[j..j + |e|][0] == e[0];
    }
    DecodeEncode(cp);
  }
}
