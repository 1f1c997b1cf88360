/** shifter.go: the Shifter, a buffered reader with a selection `buf[pos:end]`
    that is shifted whenever a token is complete. Unlike the Lexer it has no
    pool: a refill slides the unfinished bytes to the front of the same buffer,
    or moves them to a new, larger one when they fill more than half of it.

    As for the Lexer, the ghost fields `Input` (the whole byte stream) and
    `Base` (the stream offset of `buf[0]`) tie the buffer to the stream. */
module Shifters {
  import opened Bytes
  import opened Utf8
  import opened Readers
  import opened Streams

  /** shifter.go, line 12: the initial capacity of a Shifter's buffer. */
  const MinBuf: nat := 4096

  /** shifter.go, lines 65-72: the capacity of the buffer a refill reads
      into, when `d` unfinished bytes are carried over from a buffer of
      capacity `capacity` for a peek `ahead` bytes past the selection's start.
      The buffer is reused while those bytes fill at most half of it; else a
      new one gets twice the capacity plus the bytes asked for, so that the
      peeked index then fits. */
  function NextCapacity(capacity: nat, d: nat, ahead: nat): (size: nat)
    requires d <= capacity && d <= ahead
    ensures capacity <= size && 2 * d <= size
    ensures size > capacity <==> 2 * d > capacity
    ensures size > capacity ==> ahead < size
  {
    if 2 * d > capacity then 2 * capacity + ahead else capacity
  }

  class Shifter {
    /** The source; null for a Shifter over bytes already in memory. */
    var r: Reader?<byte>
    var err: Error
    var eof: bool
    /** `buf` is Go's slice: its first `len` elements, capacity `buf.Length`. */
    var buf: array<byte>
    var len: nat
    /** Start of the selection (index in buf). */
    var pos: int
    /** End of the selection (index in buf); Move may take it past `len`. */
    var end: int
    /** The whole stream, and the stream offset of `buf[0]`. */
    ghost var Input: seq<byte>
    ghost var Base: nat

    /** The buffer and the reader agree with the stream, and `eof` records
        whether the error is EOF. */
    ghost predicate Valid()
      reads this, r, buf
    {
      && len <= buf.Length && Base + len <= |Input|
      && buf[..len] == Input[Base..Base + len]
      && (r == null ==> err == EOF)
      && (r != null ==> r.Valid() && r.buf == Input && r.pos == Base + len)
      && (eof <==> err == EOF)
      // EOF is recorded once the stream is exhausted, or when the buffer has
      // no room at all to read into
      && (err == EOF ==> Base + len == |Input| || buf.Length == 0)
    }

    /** The stream position of the selection's end. */
    ghost function Frontier(): int
      reads this
    {
      Base + end
    }

    /** NewShifter for a reader without a `Bytes` method, with `MinBuf` set
        to `minBuf`: an empty buffer of that capacity, filled by a first
        `Peek(0)`. The stream is what the reader has still to deliver. */
    constructor FromReader(r: Reader<byte>, minBuf: nat)
      requires r.Valid()
      modifies r
      ensures Valid() && this.r == r && fresh(buf)
      ensures Input == r.buf && Base == old(r.pos) && pos == 0 && end == 0
      ensures buf.Length == minBuf
      ensures len == minBuf || Base + len == |Input|
      ensures err == NoError <==> len > 0
    {
      this.r := r;
      err, eof := NoError, false;
      buf := new byte[minBuf];
      len, pos, end := 0, 0, 0;
      Input, Base := r.buf, r.pos;
      new;
      var _ := Peek(0);
    }

    /** NewShifter for a reader with a `Bytes` method: the Shifter works on
        that slice directly and has seen EOF already. The slice is `bytes`,
        and `spare` is what its backing array holds past them, up to its
        capacity. */
    constructor FromBytes(bytes: seq<byte>, spare: seq<byte>)
      ensures Valid() && fresh(buf) && r == null && err == EOF && eof
      ensures Input == bytes && Base == 0 && len == |bytes| && pos == 0 && end == 0
      ensures buf[..] == bytes + spare
    {
      r := null;
      err, eof := EOF, true;
      var all := bytes + spare;
      buf := new byte[|all|](i requires 0 <= i < |all| => all[i]);
      len, pos, end := |bytes|, 0, 0;
      Input, Base := bytes, 0;
      new;
      assert buf[..len] == bytes;
    }

    /** `read(e)`, called when index `e` is not buffered. A recorded error
        makes it return 0 and change nothing. Otherwise the unfinished
        `buf[pos:len]` moves to the front of a buffer of `NextCapacity` bytes
        (the same one while it is at most half full), the reader fills the
        rest, and `pos`, `end` (and `e`) drop by the old `pos`. A refill that
        reads nothing records EOF and yields 0; else the result is the byte at
        `e`, or a panic when the refill fell short. */
    method Refill(e: int) returns (v: Access<byte>)
      requires Valid() && e >= len
      requires err == NoError ==> 0 <= pos <= len
      modifies this, r, buf
      ensures Valid() && Input == old(Input) && r == old(r)
      ensures Base + pos == old(Base + pos) && Base + end == old(Base + end)
      ensures buf == old(buf) || fresh(buf)
      ensures old(err) != NoError ==>
        && v == InRange(0) && err == old(err) && buf == old(buf) && buf[..] == old(buf[..])
        && len == old(len) && pos == old(pos) && end == old(end) && Base == old(Base)
      ensures old(err) == NoError ==>
        && pos == 0 && Base == old(Base + pos) && old(Base + len) <= Base + len
        && buf.Length == NextCapacity(old(buf.Length), old(len - pos), e - old(pos))
        && (buf == old(buf) <==> 2 * old(len - pos) <= old(buf.Length))
        && (len == buf.Length || Base + len == |Input|)
        && (err == NoError <==> Base + len > old(Base + len))
      ensures var j := old(Base) + e;
        v == if j < Base + len then InRange(Input[j]) else if err == NoError then OutOfRange else InRange(0)
    {
      if err != NoError {
        return InRange(0);
      }

      // reallocate a new buffer (possibly larger)
      var nb := buf;
      if 2 * (len - pos) > buf.Length {
        nb := new byte[2 * buf.Length + e - pos];
      }
      v := Install(nb, e);
    }

    /** shifter.go, lines 73-89: the rest of `read`, once the buffer `nb` to
        read into is chosen. The unfinished bytes move to its front, the
        reader fills the rest, and the selection (and `e`) shift down by the
        old `pos`. */
    method Install(nb: array<byte>, e: int) returns (v: Access<byte>)
      requires Valid() && err == NoError && 0 <= pos <= len <= e
      requires 2 * (len - pos) <= nb.Length
      modifies this, r, nb
      ensures Valid() && Input == old(Input) && r == old(r) && buf == nb
      ensures pos == 0 && Base == old(Base + pos) && end == old(end - pos)
      ensures old(Base + len) <= Base + len && (len == buf.Length || Base + len == |Input|)
      ensures err == NoError <==> Base + len > old(Base + len)
      ensures var j := old(Base) + e;
        v == if j < Base + len then InRange(Input[j]) else if err == NoError then OutOfRange else InRange(0)
    {
      var d := len - pos;
      ghost var b0 := Base + pos;
      var n, e2 := CarryAndRead(nb, buf, pos, len, r, Input, Base);
      // a refill that reads nothing is EOF, whatever the reader said
      var k := e - pos;
      v := if n == 0 then InRange(0) else if k < d + n then InRange(nb[k]) else OutOfRange;
      if n > 0 && k < d + n {
        assert nb[..d + n][k] == nb[k];
      }
      Commit(nb, d, n, if n == 0 then EOF else e2, b0);
    }

    /** shifter.go, lines 78-86: the bookkeeping that ends a refill, once
        `nb` holds the `d + n` stream bytes from `b0` on: the selection drops
        by `pos`, and `eof` follows the error. */
    method Commit(nb: array<byte>, d: nat, n: nat, e: Error, ghost b0: nat)
      requires r != null && r.Valid() && r.buf == Input && r.pos == b0 + d + n
      requires d + n <= nb.Length && nb[..d + n] == Input[b0..b0 + d + n]
      requires e == EOF ==> b0 + d + n == |Input| || nb.Length == 0
      modifies this
      ensures Valid() && Input == old(Input) && r == old(r) && buf == nb
      ensures pos == 0 && end == old(end - pos) && len == d + n && Base == b0
      ensures err == e && eof == (e == EOF)
    {
      end, pos, buf, len, Base := end - pos, 0, nb, d + n, b0;
      err, eof := e, e == EOF;
    }

    /** `Peek(i)`: the byte `i` places after the selection's end, refilling
        the buffer when that is past the buffered bytes. In stream terms the
        result is the stream byte at `Frontier() + i` when the buffer holds it
        afterwards, 0 when an error was recorded, and a panic otherwise. Once
        `IsEOF()` holds, the buffer is neither replaced nor overwritten, so
        the slices Bytes and Shift returned stay valid. */
    method Peek(i: int) returns (v: Access<byte>)
      requires Valid()
      requires end + i >= len && err == NoError ==> 0 <= pos <= len
      modifies this, r, buf
      ensures Valid() && Input == old(Input) && r == old(r)
      ensures Base + pos == old(Base + pos) && Frontier() == old(Frontier()) && old(Base) <= Base
      ensures old(Base + len) <= Base + len
      ensures old(0 <= pos <= len) ==> 0 <= pos <= len
      ensures old(err) == EOF ==> err == EOF && Base + len == old(Base + len)
      ensures old(eof) ==> buf == old(buf) && buf[..] == old(buf[..])
      ensures buf == old(buf) || fresh(buf)
      ensures old(end) + i < old(len) || old(err) != NoError ==>
        && err == old(err) && buf == old(buf) && buf[..] == old(buf[..]) && len == old(len)
        && pos == old(pos) && end == old(end) && Base == old(Base)
      ensures old(end) + i >= old(len) && old(err) == NoError ==>
        && pos == 0 && Base == old(Base + pos) && old(Base + len) <= Base + len
        && buf.Length == NextCapacity(old(buf.Length), old(len - pos), old(end - pos) + i)
        && (buf == old(buf) <==> 2 * old(len - pos) <= old(buf.Length))
        && (len == buf.Length || Base + len == |Input|)
        && (err == NoError <==> Base + len > old(Base + len))
      ensures var j := old(Frontier()) + i;
        v == if j < Base then OutOfRange
             else if j < Base + len then InRange(Input[j])
             else if err == NoError then OutOfRange
             else InRange(0)
    {
      var e := i + end;
      if e >= len {
        v := Refill(e);
        return;
      }
      v := if e < 0 then OutOfRange else InRange(buf[e]);
    }

    /** `Err()`: nil while a recorded EOF still has buffered bytes at or after
        the selection's end, otherwise the recorded error. Once the stream is
        exhausted that is: EOF exactly when the selection's end is at or past
        the end of the stream. */
    function Err(): (e: Error)
      reads this, r, buf
      requires Valid()
      ensures err == NoError ==> e == NoError
      ensures e == EOF ==> err == EOF && Frontier() >= Base + len
      ensures err == EOF && buf.Length > 0 ==> (e == EOF <==> Frontier() >= |Input|)
    {
      if eof && end < len then NoError else err
    }

    /** `IsEOF()`: EOF has been met, so the last of the stream is in the
        buffer (a buffer of capacity 0 aside, which can hold nothing). */
    function IsEOF(): (b: bool)
      reads this, r, buf
      requires Valid()
      ensures b <==> err == EOF
      ensures b ==> Base + len == |Input| || buf.Length == 0
    {
      eof
    }

    /** `Move(n)`: advances the selection's end by `n`, unchecked. */
    method Move(n: int)
      modifies this
      ensures end == old(end) + n
      ensures pos == old(pos) && buf == old(buf) && len == old(len) && err == old(err) && eof == old(eof)
      ensures Base == old(Base) && Input == old(Input) && r == old(r)
    {
      end := end + n;
    }

    /** `Pos()`: the length of the selection, a mark for MoveTo. In stream
        terms it is the distance from the selection's start to its end, which
        a refill keeps. */
    function Pos(): (p: int)
      reads this
      ensures Base + pos + p == Frontier()
    {
      end - pos
    }

    /** `MoveTo(n)`: sets the selection's end to mark `n`; Pos() is then `n`. */
    method MoveTo(n: int)
      modifies this
      ensures Pos() == n && Frontier() == Base + pos + n
      ensures pos == old(pos) && buf == old(buf) && len == old(len) && err == old(err) && eof == old(eof)
      ensures Base == old(Base) && Input == old(Input) && r == old(r)
    {
      end := pos + n;
    }

    /** `Bytes()`: the selection `buf[pos:end]`, which may reach past the
        buffered bytes up to the capacity (a panic beyond it). When it lies in
        the buffered bytes it is the stream between the two positions. */
    method Bytes() returns (s: Access<seq<byte>>)
      requires Valid()
      ensures s.InRange? <==> 0 <= pos <= end <= buf.Length
      ensures s.InRange? ==> |s.value| == Pos()
      ensures s.InRange? && end <= len ==> s.value == Input[Base + pos..Frontier()]
    {
      if 0 <= pos <= end <= buf.Length {
        s := InRange(buf[pos..end]);
        if end <= len {
          SubWindow(buf[..], Input, Base, len, pos, end);
          assert buf[pos..end] == buf[..][pos..end];
        }
      } else {
        s := OutOfRange;
      }
    }

    /** `Shift()`: the selection, after which the selection is empty and
        starts at the old end. When slicing the selection panics, the start
        stays where it was. */
    method Shift() returns (s: Access<seq<byte>>)
      requires Valid()
      modifies this
      ensures Valid() && end == old(end) && buf == old(buf) && len == old(len) && err == old(err) && eof == old(eof)
      ensures Base == old(Base) && Input == old(Input) && r == old(r)
      ensures s.InRange? <==> 0 <= old(pos) <= end <= buf.Length
      ensures s.InRange? ==> Pos() == 0 && Base + pos == old(Frontier()) && pos == old(pos) + |s.value|
      ensures s.InRange? && end <= len ==> s.value == Input[old(Base + pos)..Frontier()]
      ensures s.OutOfRange? ==> unchanged(this)
    {
      s := Bytes();
      if s.InRange? {
        pos := end;
      }
    }

    /** `Skip()`: Shift without the result; a second Skip changes nothing. */
    method Skip()
      modifies this
      ensures Pos() == 0 && pos == old(end) && end == old(end)
      ensures buf == old(buf) && len == old(len) && err == old(err) && eof == old(eof)
      ensures Base == old(Base) && Input == old(Input) && r == old(r)
    {
      pos := end;
    }

    /** `PeekRune(i)`: the rune starting `i` bytes after the selection's end
        and its length in bytes, from the lead byte and as many continuation
        bytes as it announces; any of the peeks may refill the buffer or
        panic. When the buffer holds those bytes afterwards the result is
        their decoding. */
    method PeekRune(i: int) returns (rv: Access<Rune>)
      requires Valid()
      requires end + i + 3 >= len && err == NoError ==> 0 <= pos <= len
      modifies this, r, buf
      ensures Valid() && Input == old(Input) && r == old(r)
      ensures Base + pos == old(Base + pos) && Frontier() == old(Frontier())
      ensures rv.InRange? ==> 1 <= rv.value.size <= 4
      ensures old(err) == EOF && old(Base) <= old(Frontier()) + i ==> rv.InRange?
      ensures old(err) == EOF ==>
        && err == EOF && Base + len == old(Base + len) && Base == old(Base)
        && buf == old(buf) && buf[..] == old(buf[..])
      ensures buf == old(buf) || fresh(buf)
      ensures var j := old(Frontier()) + i;
        rv.InRange? && Base <= j < Base + len ==> rv.value.size == RuneLen(Input[j])
      ensures var j := old(Frontier()) + i;
        rv.InRange? && Base <= j && j + rv.value.size <= Base + len ==>
          rv.value.size == RuneLen(Input[j]) && rv.value == Decode(Span(Input, j, rv.value.size))
    {
      var c := PeekSeen(i);
      if c.OutOfRange? {
        rv := OutOfRange;
      } else if c.value < 0xC0 {
        rv := InRange(Rune(c.value, 1));
      } else {
        rv := PeekTail(i, c.value);
      }
    }

    /** The rest of `PeekRune` once the lead byte `c` at `i` announces
        continuation bytes: they are peeked, and the rune decoded. */
    method PeekTail(i: int, c: byte) returns (rv: Access<Rune>)
      requires Valid() && 0xC0 <= c && Seen(Input, InRange(c), Frontier() + i, Base + len, err)
      requires end + i + 3 >= len && err == NoError ==> 0 <= pos <= len
      modifies this, r, buf
      ensures Valid() && Input == old(Input) && r == old(r)
      ensures Base + pos == old(Base + pos) && Frontier() == old(Frontier())
      ensures rv.InRange? ==> 2 <= rv.value.size <= 4
      ensures old(err) == EOF && old(Base) <= old(Frontier()) + i ==> rv.InRange?
      ensures old(err) == EOF ==>
        && err == EOF && Base + len == old(Base + len) && Base == old(Base)
        && buf == old(buf) && buf[..] == old(buf[..])
      ensures buf == old(buf) || fresh(buf)
      ensures var j := old(Frontier()) + i;
        rv.InRange? && Base <= j < Base + len ==> rv.value.size == RuneLen(Input[j])
      ensures var j := old(Frontier()) + i;
        rv.InRange? && Base <= j && j + rv.value.size <= Base + len ==>
          rv.value.size == RuneLen(Input[j]) && rv.value == Decode(Span(Input, j, rv.value.size))
    {
      ghost var j := Frontier() + i;
      ghost var b0, e0 := Base + len, err;
      var cs := PeekBytes(i + 1, RuneLen(c) - 1);
      SeenLater(Input, c, j, b0, e0, Base + len, err);
      if cs.OutOfRange? {
        rv := OutOfRange;
      } else {
        rv := InRange(Decode([c] + cs.value));
        DecodedAt(Input, c, cs.value, j, Base + len, err);
      }
    }

    /** A peek as `PeekRune` uses it: what the result tells about the
        stream, and how far the state may have moved. */
    method PeekSeen(i: int) returns (c: Access<byte>)
      requires Valid()
      requires end + i >= len && err == NoError ==> 0 <= pos <= len
      modifies this, r, buf
      ensures Valid() && Input == old(Input) && r == old(r)
      ensures Base + pos == old(Base + pos) && Frontier() == old(Frontier())
      ensures old(Base + len) <= Base + len
      ensures old(0 <= pos <= len) ==> 0 <= pos <= len
      ensures old(err) == EOF ==>
        && err == EOF && Base + len == old(Base + len) && Base == old(Base)
        && buf == old(buf) && buf[..] == old(buf[..])
      ensures buf == old(buf) || fresh(buf)
      ensures Seen(Input, c, old(Frontier()) + i, Base + len, err)
      ensures old(err) == EOF && old(Base) <= old(Frontier()) + i ==> c.InRange?
    {
      c := Peek(i);
    }

    /** The `k` bytes from `i` on, peeked one after the other as the
        continuation bytes of `PeekRune`; a panic in any of the peeks is the
        outcome. Each byte is what a peek at its position yields. */
    method PeekBytes(i: int, k: nat) returns (bs: Access<seq<byte>>)
      requires Valid()
      requires k > 0 && end + i + k > len && err == NoError ==> 0 <= pos <= len
      modifies this, r, buf
      ensures Valid() && Input == old(Input) && r == old(r)
      ensures Base + pos == old(Base + pos) && Frontier() == old(Frontier())
      ensures old(Base + len) <= Base + len
      ensures old(err) == EOF ==>
        && err == EOF && Base + len == old(Base + len) && Base == old(Base)
        && buf == old(buf) && buf[..] == old(buf[..])
      ensures buf == old(buf) || fresh(buf)
      ensures bs.InRange? ==> |bs.value| == k
      ensures old(err) == EOF && old(Base) <= old(Frontier()) + i ==> bs.InRange?
      ensures bs.InRange? ==> SeenAll(Input, bs.value, old(Frontier()) + i, Base + len, err)
      decreases k
    {
      if k == 0 {
        return InRange([]);
      }
      ghost var j := Frontier() + i;
      var c := PeekSeen(i);
      if c.OutOfRange? {
        return OutOfRange;
      }
      ghost var b0, e0 := Base + len, err;
      var rest := PeekBytes(i + 1, k - 1);
      if rest.OutOfRange? {
        return OutOfRange;
      }
      SeenLater(Input, c.value, j, b0, e0, Base + len, err);
      bs := InRange([c.value] + rest.value);
      assert bs.value[1..] == rest.value;
    }
  }
}
