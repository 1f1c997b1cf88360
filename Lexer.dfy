/** lexer.go, lines 67-202: the streaming Lexer. It reads its input from a
    Reader into a buffer and keeps a selection `buf[pos:end]`; when a peek
    runs past the buffered bytes, `read` hands the already-shifted prefix to
    the BufferPool, takes back an empty buffer (possibly larger), moves the
    unfinished selection to its front and fills the rest from the reader.

    The model keeps two ghost fields beside the Go ones: `Input`, the whole
    byte stream the reader delivers, and `Base`, the stream offset of
    `buf[0]`. `Base + pos` and `Base + end` are then absolute stream
    positions, which a refill leaves where they were. */
module Lexers {
  import opened Bytes
  import opened Utf8
  import opened Readers
  import opened Pool
  import opened Streams

  /** lexer.go, lines 112-116: the capacity `read` asks the pool for when `d`
      unfinished bytes are carried over from a buffer of capacity `capacity`.
      Go tests `2*d > c`, and `c` is not a local of `read`; the threshold here
      is the capacity, as the comment on line 114 and the same rule in
      shifter.go (line 68) say. */
  function NextSize(capacity: nat, d: nat): (size: nat)
    requires d <= capacity
    ensures capacity <= size && 2 * d <= size
    ensures size > capacity <==> 2 * d > capacity
  {
    if 2 * d > capacity then 2 * capacity + d else capacity
  }

  /** lexer.go, lines 112-116 as the package's test build compiles them: `c`
      resolves to the package-level counter of shifter_test.go (line 140),
      which is 0 unless a benchmark has run. */
  function NextSizeAsWritten(capacity: nat, d: nat, c: int): (size: nat)
    ensures capacity <= size
    ensures size > capacity <==> 2 * d > c && capacity + d > 0
  {
    if 2 * d > c then 2 * capacity + d else capacity
  }

  /** With the counter at 0, a refill that carries over a single byte of a
      4096-byte buffer doubles the buffer, although the unfinished token is far
      from filling half of it; the capacity threshold keeps the size. */
  lemma AsWrittenGrowsOnEveryCarry()
    ensures NextSizeAsWritten(4096, 1, 0) == 8193
    ensures NextSize(4096, 1) == 4096
    ensures !(2 * 1 > 4096)
  {
  }

  class Lexer {
    /** The source; null for a Lexer over bytes already in memory. */
    var r: Reader?<byte>
    var err: Error
    const pool: BufferPool
    /** `buf` is Go's slice: its first `len` elements, capacity `buf.Length`. */
    var buf: array<byte>
    var len: nat
    /** Start of the selection (index in buf). */
    var pos: int
    /** End of the selection (index in buf); Move may take it past `len`. */
    var end: int
    /** The whole stream, and the stream offset of `buf[0]`. */
    ghost var Input: seq<byte>
    ghost var Base: nat

    /** The buffer and the reader agree with the stream. */
    ghost predicate Window()
      reads this, r, buf
    {
      && len <= buf.Length && Base + len <= |Input|
      && buf[..len] == Input[Base..Base + len]
      && (r == null ==> err == EOF)
      && (r != null ==> r.Valid() && r.buf == Input && r.pos == Base + len)
      // EOF is recorded once the stream is exhausted, or when the buffer has
      // no room at all to read into
      && (err == EOF ==> Base + len == |Input| || buf.Length == 0)
    }

    ghost predicate Valid()
      reads this, pool, r, buf
    {
      pool.Valid() && buf !in pool.Arrays && Window()
    }

    /** The stream position of the selection's end. */
    ghost function Frontier(): int
      reads this
    {
      Base + end
    }

    /** NewLexerSize for a reader without a `Bytes` method: an empty buffer
        of capacity `size`, filled by a first `Peek(0)`. The stream is what
        the reader has still to deliver. */
    constructor FromReader(r: Reader<byte>, size: nat)
      requires r.Valid()
      modifies r
      ensures Valid() && fresh(pool) && fresh(buf) && this.r == r
      ensures Input == r.buf && Base == old(r.pos) && pos == 0 && end == 0
      ensures buf.Length == size
      ensures pool.pool == [] && pool.Chain == [] && pool.pos == 0 && pool.Arrays == {}
      ensures len == buf.Length || Base + len == |Input|
      ensures err == NoError <==> len > 0
    {
      this.r := r;
      err := NoError;
      pool := new BufferPool();
      buf := new byte[size];
      len, pos, end := 0, 0, 0;
      Input, Base := r.buf, r.pos;
      new;
      var _ := Peek(0);
    }

    /** NewLexerSize for a reader with a `Bytes` method: the Lexer works on
        that slice directly and has seen EOF already. The slice is `bytes`,
        and `spare` is what its backing array holds past them, up to its
        capacity. */
    constructor FromBytes(bytes: seq<byte>, spare: seq<byte>)
      ensures Valid() && fresh(pool) && fresh(buf) && r == null && err == EOF
      ensures Input == bytes && Base == 0 && len == |bytes| && pos == 0 && end == 0
      ensures buf[..] == bytes + spare
      ensures pool.pool == [] && pool.Chain == [] && pool.pos == 0 && pool.Arrays == {}
    {
      r := null;
      err := EOF;
      pool := new BufferPool();
      var all := bytes + spare;
      buf := new byte[|all|](i requires 0 <= i < |all| => all[i]);
      len, pos, end := |bytes|, 0, 0;
      Input, Base := bytes, 0;
      new;
      assert buf[..len] == bytes;
    }

    /** `read(e)`, called when index `e` is not buffered. A recorded error
        makes it return 0 and change nothing. Otherwise the shifted prefix
        `buf[:pos]` goes to the pool in exchange for a buffer of at least
        `NextSize` bytes, the unfinished `buf[pos:len]` moves to its front,
        the reader fills the rest, and `pos`, `end` (and `e`) drop by the old
        `pos`. A refill that reads nothing records EOF and yields 0; else the
        result is the byte at `e`, or a panic when the refill fell short. */
    method Refill(e: int) returns (v: Access<byte>)
      requires Valid() && e >= len
      requires err == NoError ==> 0 <= pos <= len
      modifies this, pool, r, buf, pool.Arrays
      ensures Valid() && Input == old(Input) && r == old(r)
      ensures Base + pos == old(Base + pos) && Base + end == old(Base + end)
      ensures buf == old(buf) || fresh(buf) || buf in old(pool.Arrays)
      ensures pool.Arrays <= old(pool.Arrays) + {old(buf)}
      ensures old(err) != NoError ==>
        && v == InRange(0) && err == old(err) && buf == old(buf) && buf[..] == old(buf[..]) && len == old(len)
        && pos == old(pos) && end == old(end) && Base == old(Base)
        && pool.pool == old(pool.pool) && pool.Chain == old(pool.Chain) && pool.pos == old(pool.pos)
      ensures old(err) == NoError ==>
        && pos == 0 && Base == old(Base + pos) && old(Base + len) <= Base + len
        && NextSize(old(buf.Length), old(len - pos)) <= buf.Length
        && (len == buf.Length || Base + len == |Input|)
        && (err == NoError <==> Base + len > old(Base + len))
        && (buf == old(buf) || old(buf)[..] == old(buf[..]))
      // where the shifted prefix went: back into service when the chain is
      // empty and all of it is freed, else onto the chain as its head
      ensures old(err) == NoError ==>
        var size := NextSize(old(buf.Length), old(len - pos));
        buf == old(buf) <==>
          && FirstFit(old(pool.pool), size) == |old(pool.pool)| && old(pool.tail) == 0
          && old(pool.pos) >= old(pos) && size <= old(buf.Length)
      ensures old(err) == NoError && buf == old(buf) ==>
        pool.pool == old(pool.pool) && pool.Chain == old(pool.Chain) == [] && pool.pos == old(pool.pos - pos)
      ensures old(err) == NoError && buf != old(buf) ==>
        && pool.Chain == old(pool.Chain) + [pool.head - 1] && pool.head > 0
        && pool.pool[pool.head - 1] == Block(old(buf), old(pos), 0, true) && pool.pos == old(pool.pos)
      // the new buffer: the first free block that fits, else a new one of the requested size
      ensures old(err) == NoError ==>
        var size := NextSize(old(buf.Length), old(len - pos));
        var f := FirstFit(old(pool.pool), size);
        && (f < |old(pool.pool)| ==> buf == old(pool.pool)[f].buf && |pool.pool| == |old(pool.pool)|)
        && (f == |old(pool.pool)| && buf != old(buf) ==> fresh(buf) && buf.Length == size)
      // the blocks on the chain keep their slots, arrays, lengths and bytes
      ensures KeepsActive(old(pool.pool), pool.pool)
      ensures forall s | 0 <= s < |old(pool.pool)| && old(pool.pool)[s].active :: unchanged(old(pool.pool)[s].buf)
      ensures var j := old(Base) + e;
        v == if j < Base + len then InRange(Input[j]) else if err == NoError then OutOfRange else InRange(0)
    {
      if err != NoError {
        return InRange(0);
      }

      // get new buffer
      var nb := Trade(NextSize(buf.Length, len - pos));
      v := Install(nb, e);
    }

    /** lexer.go, line 117: the shifted prefix `buf[:pos]` goes to the pool
        in exchange for an empty buffer of at least `size` bytes that no block
        on the chain holds. The prefix comes back into service when the chain
        is empty, no free block fits and all of it is freed; otherwise it
        becomes the head of the chain. */
    method Trade(size: nat) returns (nb: array<byte>)
      requires Valid() && 0 <= pos <= len
      modifies pool
      ensures pool.Valid() && nb !in pool.Arrays && size <= nb.Length
      ensures nb == buf || fresh(nb) || nb in old(pool.Arrays)
      ensures pool.Arrays <= old(pool.Arrays) + {buf}
      ensures nb == buf <==>
        && FirstFit(old(pool.pool), size) == |old(pool.pool)| && old(pool.tail) == 0
        && old(pool.pos) >= pos && size <= buf.Length
      ensures nb == buf ==>
        pool.pool == old(pool.pool) && pool.Chain == old(pool.Chain) == [] && pool.pos == old(pool.pos) - pos
      ensures nb != buf ==>
        && pool.Chain == old(pool.Chain) + [pool.head - 1] && pool.head > 0
        && pool.pool[pool.head - 1] == Block(buf, pos, 0, true) && pool.pos == old(pool.pos)
      // which buffer comes back: the first free block that fits, else a new one
      ensures var f := FirstFit(old(pool.pool), size);
        f < |old(pool.pool)| ==> nb == old(pool.pool)[f].buf && |pool.pool| == |old(pool.pool)|
      ensures FirstFit(old(pool.pool), size) == |old(pool.pool)| && nb != buf ==> fresh(nb) && nb.Length == size
      ensures KeepsActive(old(pool.pool), pool.pool)
      ensures forall s | 0 <= s < |old(pool.pool)| && old(pool.pool)[s].active :: old(pool.pool)[s].buf != nb
    {
      nb := pool.Swap(buf, pos, size);
    }

    /** lexer.go, lines 118-132: the rest of `read`, once the new buffer `nb`
        is in hand. The unfinished bytes move to its front, the reader fills
        the rest, and the selection (and `e`) shift down by the old `pos`. */
    method Install(nb: array<byte>, e: int) returns (v: Access<byte>)
      requires Window() && err == NoError && 0 <= pos <= len <= e
      requires NextSize(buf.Length, len - pos) <= nb.Length
      modifies this, r, nb
      ensures Window() && Input == old(Input) && r == old(r) && buf == nb
      ensures pos == 0 && Base == old(Base + pos) && end == old(end - pos)
      ensures old(Base + len) <= Base + len && (len == buf.Length || Base + len == |Input|)
      ensures err == NoError <==> Base + len > old(Base + len)
      ensures var j := old(Base) + e;
        v == if j < Base + len then InRange(Input[j]) else if err == NoError then OutOfRange else InRange(0)
    {
      var d := len - pos;
      ghost var b0 := Base + pos;
      var n, e2 := CarryAndRead(nb, buf, pos, len, r, Input, Base);
      // a refill that reads nothing is EOF, whatever the reader said
      var k := e - pos;
      v := if n == 0 then InRange(0) else if k < d + n then InRange(nb[k]) else OutOfRange;
      if n > 0 && k < d + n {
        assert nb[..d + n][k] == nb[k];
      }
      Commit(nb, d, n, if n == 0 then EOF else e2, b0);
    }

    /** lexer.go, lines 123-130: the bookkeeping that ends a refill, once
        `nb` holds the `d + n` stream bytes from `b0` on: the selection drops
        by `pos`. */
    method Commit(nb: array<byte>, d: nat, n: nat, e: Error, ghost b0: nat)
      requires r != null && r.Valid() && r.buf == Input && r.pos == b0 + d + n
      requires d + n <= nb.Length && nb[..d + n] == Input[b0..b0 + d + n]
      requires e == EOF ==> b0 + d + n == |Input| || nb.Length == 0
      modifies this
      ensures Window() && Input == old(Input) && r == old(r) && buf == nb
      ensures pos == 0 && end == old(end - pos) && len == d + n && Base == b0 && err == e
    {
      end, pos, buf, len, Base := end - pos, 0, nb, d + n, b0;
      err := e;
    }

    /** `Peek(i)`: the byte `i` places after the selection's end, refilling
        the buffer when that is past the buffered bytes. In stream terms the
        result is the stream byte at `Frontier() + i` when the buffer holds it
        afterwards, 0 when an error was recorded, and a panic otherwise (a
        negative index, or a refill that fell short). */
    method Peek(i: int) returns (v: Access<byte>)
      requires Valid()
      requires end + i >= len && err == NoError ==> 0 <= pos <= len
      modifies this, pool, r, buf, pool.Arrays
      ensures Valid() && Input == old(Input) && r == old(r)
      ensures Base + pos == old(Base + pos) && Frontier() == old(Frontier()) && old(Base) <= Base
      ensures old(Base + len) <= Base + len
      ensures old(0 <= pos <= len) ==> 0 <= pos <= len
      ensures old(err) == EOF ==> err == EOF && Base + len == old(Base + len)
      ensures buf == old(buf) || fresh(buf) || buf in old(pool.Arrays)
      ensures pool.Arrays <= old(pool.Arrays) + {old(buf)}
      ensures old(end) + i < old(len) || old(err) != NoError ==>
        && err == old(err) && buf == old(buf) && buf[..] == old(buf[..]) && len == old(len)
        && pos == old(pos) && end == old(end) && Base == old(Base)
        && pool.pool == old(pool.pool) && pool.Chain == old(pool.Chain) && pool.pos == old(pool.pos)
      ensures old(end) + i >= old(len) && old(err) == NoError ==>
        && pos == 0 && Base == old(Base + pos) && old(Base + len) <= Base + len
        && NextSize(old(buf.Length), old(len - pos)) <= buf.Length
        && (len == buf.Length || Base + len == |Input|)
        && (err == NoError <==> Base + len > old(Base + len))
        && (buf == old(buf) || old(buf)[..] == old(buf[..]))
      // a refill trades the shifted prefix with the pool as `Trade` says
      ensures old(end) + i >= old(len) && old(err) == NoError ==>
        var size := NextSize(old(buf.Length), old(len - pos));
        buf == old(buf) <==>
          && FirstFit(old(pool.pool), size) == |old(pool.pool)| && old(pool.tail) == 0
          && old(pool.pos) >= old(pos) && size <= old(buf.Length)
      ensures old(end) + i >= old(len) && old(err) == NoError && buf == old(buf) ==>
        pool.pool == old(pool.pool) && pool.Chain == old(pool.Chain) == [] && pool.pos == old(pool.pos - pos)
      ensures old(end) + i >= old(len) && old(err) == NoError && buf != old(buf) ==>
        && pool.Chain == old(pool.Chain) + [pool.head - 1] && pool.head > 0
        && pool.pool[pool.head - 1] == Block(old(buf), old(pos), 0, true) && pool.pos == old(pool.pos)
      ensures old(end) + i >= old(len) && old(err) == NoError ==>
        var size := NextSize(old(buf.Length), old(len - pos));
        var f := FirstFit(old(pool.pool), size);
        && (f < |old(pool.pool)| ==> buf == old(pool.pool)[f].buf && |pool.pool| == |old(pool.pool)|)
        && (f == |old(pool.pool)| && buf != old(buf) ==> fresh(buf) && buf.Length == size)
      ensures KeepsActive(old(pool.pool), pool.pool)
      ensures forall s | 0 <= s < |old(pool.pool)| && old(pool.pool)[s].active :: unchanged(old(pool.pool)[s].buf)
      ensures var j := old(Frontier()) + i;
        v == if j < Base then OutOfRange
             else if j < Base + len then InRange(Input[j])
             else if err == NoError then OutOfRange
             else InRange(0)
    {
      var e := i + end;
      if e >= len {
        v := Refill(e);
        return;
      }
      v := if e < 0 then OutOfRange else InRange(buf[e]);
    }

    /** `Err()`: nil while a recorded EOF still has buffered bytes at or after
        the selection's end, otherwise the recorded error. Once the stream is
        exhausted that is: EOF exactly when the selection's end is at or past
        the end of the stream. */
    function Err(): (e: Error)
      reads this, pool, r, buf
      requires Valid()
      ensures err == NoError ==> e == NoError
      ensures e == EOF ==> err == EOF && Frontier() >= Base + len
      ensures err == EOF && buf.Length > 0 ==> (e == EOF <==> Frontier() >= |Input|)
    {
      if err == EOF && end < len then NoError else err
    }

    /** `Move(n)`: advances the selection's end by `n`, unchecked. */
    method Move(n: int)
      modifies this
      ensures end == old(end) + n
      ensures pos == old(pos) && buf == old(buf) && len == old(len) && err == old(err)
      ensures Base == old(Base) && Input == old(Input) && r == old(r)
    {
      end := end + n;
    }

    /** `Pos()`: the length of the selection, a mark for MoveTo. In stream
        terms it is the distance from the selection's start to its end, which
        a refill keeps. */
    function Pos(): (p: int)
      reads this
      ensures Base + pos + p == Frontier()
    {
      end - pos
    }

    /** `MoveTo(n)`: sets the selection's end to mark `n`; Pos() is then `n`. */
    method MoveTo(n: int)
      modifies this
      ensures Pos() == n && Frontier() == Base + pos + n
      ensures pos == old(pos) && buf == old(buf) && len == old(len) && err == old(err)
      ensures Base == old(Base) && Input == old(Input) && r == old(r)
    {
      end := pos + n;
    }

    /** `Bytes()`: the selection `buf[pos:end]`, which may reach past the
        buffered bytes up to the capacity (a panic beyond it). When it lies in
        the buffered bytes it is the stream between the two positions. */
    method Bytes() returns (s: Access<seq<byte>>)
      requires Valid()
      ensures s.InRange? <==> 0 <= pos <= end <= buf.Length
      ensures s.InRange? ==> |s.value| == Pos()
      ensures s.InRange? && end <= len ==> s.value == Input[Base + pos..Frontier()]
    {
      if 0 <= pos <= end <= buf.Length {
        s := InRange(buf[pos..end]);
        if end <= len {
          SubWindow(buf[..], Input, Base, len, pos, end);
          assert buf[pos..end] == buf[..][pos..end];
        }
      } else {
        s := OutOfRange;
      }
    }

    /** `Shift()`: the selection, after which the selection is empty and
        starts at the old end. When slicing the selection panics, the start
        stays where it was. */
    method Shift() returns (s: Access<seq<byte>>)
      requires Valid()
      modifies this
      ensures Valid() && end == old(end) && buf == old(buf) && len == old(len) && err == old(err)
      ensures Base == old(Base) && Input == old(Input) && r == old(r)
      ensures s.InRange? <==> 0 <= old(pos) <= end <= buf.Length
      ensures s.InRange? ==> Pos() == 0 && Base + pos == old(Frontier()) && pos == old(pos) + |s.value|
      ensures s.InRange? && end <= len ==> s.value == Input[old(Base + pos)..Frontier()]
      ensures s.OutOfRange? ==> unchanged(this)
    {
      s := Bytes();
      if s.InRange? {
        pos := end;
      }
    }

    /** `Skip()`: Shift without the result; a second Skip changes nothing. */
    method Skip()
      modifies this
      ensures Pos() == 0 && pos == old(end) && end == old(end)
      ensures buf == old(buf) && len == old(len) && err == old(err)
      ensures Base == old(Base) && Input == old(Input) && r == old(r)
    {
      pos := end;
    }

    /** `Free(n)`: `n` more bytes of the shifted selections will not be looked
        at again; the pool retires the blocks they cover completely. */
    method Free(n: int)
      requires Valid()
      modifies pool
      ensures Valid()
      ensures Freed(old(pool.pool), old(pool.Chain), old(pool.pos) + n, pool.Chain, pool.pos)
      ensures Retired(pool.pool, old(pool.pool)) && Stopped(pool.pool, pool.Chain, pool.tail, pool.pos)
      ensures pool.Arrays == old(pool.Arrays)
    {
      pool.Free(n);
    }

    /** `PeekRune(i)`: the rune starting `i` bytes after the selection's end
        and its length in bytes, from the lead byte and as many continuation
        bytes as it announces; any of the peeks may refill the buffer or
        panic. When the buffer holds those bytes afterwards the result is
        their decoding. */
    method PeekRune(i: int) returns (rv: Access<Rune>)
      requires Valid()
      requires end + i + 3 >= len && err == NoError ==> 0 <= pos <= len
      modifies this, pool, r, buf, pool.Arrays
      ensures Valid() && Input == old(Input) && r == old(r)
      ensures Swapped(old(pool.pool), old(pool.Chain), old(pool.pos), pool.pool, pool.Chain, pool.pos)
      ensures forall s | 0 <= s < |old(pool.pool)| && old(pool.pool)[s].active :: unchanged(old(pool.pool)[s].buf)
      ensures buf == old(buf) || fresh(buf) || buf in old(pool.Arrays)
      ensures forall a | a in pool.Arrays :: a == old(buf) || fresh(a) || a in old(pool.Arrays)
      ensures Base + pos == old(Base + pos) && Frontier() == old(Frontier())
      ensures rv.InRange? ==> 1 <= rv.value.size <= 4
      ensures old(err) == EOF && old(Base) <= old(Frontier()) + i ==> rv.InRange?
      ensures old(err) == EOF ==>
        && err == EOF && Base + len == old(Base + len) && Base == old(Base)
        && buf == old(buf) && buf[..] == old(buf[..])
      ensures var j := old(Frontier()) + i;
        rv.InRange? && Base <= j < Base + len ==> rv.value.size == RuneLen(Input[j])
      ensures var j := old(Frontier()) + i;
        rv.InRange? && Base <= j && j + rv.value.size <= Base + len ==>
          rv.value.size == RuneLen(Input[j]) && rv.value == Decode(Span(Input, j, rv.value.size))
    {
      var c := PeekSeen(i);
      if c.OutOfRange? {
        rv := OutOfRange;
      } else if c.value < 0xC0 {
        rv := InRange(Rune(c.value, 1));
      } else {
        rv := PeekTail(i, c.value);
      }
    }

    /** The rest of `PeekRune` once the lead byte `c` at `i` announces
        continuation bytes: they are peeked, and the rune decoded. */
    method PeekTail(i: int, c: byte) returns (rv: Access<Rune>)
      requires Valid() && 0xC0 <= c && Seen(Input, InRange(c), Frontier() + i, Base + len, err)
      requires end + i + 3 >= len && err == NoError ==> 0 <= pos <= len
      modifies this, pool, r, buf, pool.Arrays
      ensures Valid() && Input == old(Input) && r == old(r)
      ensures Swapped(old(pool.pool), old(pool.Chain), old(pool.pos), pool.pool, pool.Chain, pool.pos)
      ensures forall s | 0 <= s < |old(pool.pool)| && old(pool.pool)[s].active :: unchanged(old(pool.pool)[s].buf)
      ensures buf == old(buf) || fresh(buf) || buf in old(pool.Arrays)
      ensures forall a | a in pool.Arrays :: a == old(buf) || fresh(a) || a in old(pool.Arrays)
      ensures Base + pos == old(Base + pos) && Frontier() == old(Frontier())
      ensures rv.InRange? ==> 2 <= rv.value.size <= 4
      ensures old(err) == EOF && old(Base) <= old(Frontier()) + i ==> rv.InRange?
      ensures old(err) == EOF ==>
        && err == EOF && Base + len == old(Base + len) && Base == old(Base)
        && buf == old(buf) && buf[..] == old(buf[..])
      ensures var j := old(Frontier()) + i;
        rv.InRange? && Base <= j < Base + len ==> rv.value.size == RuneLen(Input[j])
      ensures var j := old(Frontier()) + i;
        rv.InRange? && Base <= j && j + rv.value.size <= Base + len ==>
          rv.value.size == RuneLen(Input[j]) && rv.value == Decode(Span(Input, j, rv.value.size))
    {
      ghost var j := Frontier() + i;
      ghost var b0, e0 := Base + len, err;
      var cs := PeekBytes(i + 1, RuneLen(c) - 1);
      SeenLater(Input, c, j, b0, e0, Base + len, err);
      if cs.OutOfRange? {
        rv := OutOfRange;
      } else {
        rv := InRange(Decode([c] + cs.value));
        DecodedAt(Input, c, cs.value, j, Base + len, err);
      }
    }

    /** A peek as `PeekRune` uses it: what the result tells about the
        stream, and how far the state may have moved. */
    method PeekSeen(i: int) returns (c: Access<byte>)
      requires Valid()
      requires end + i >= len && err == NoError ==> 0 <= pos <= len
      modifies this, pool, r, buf, pool.Arrays
      ensures Valid() && Input == old(Input) && r == old(r)
      ensures Swapped(old(pool.pool), old(pool.Chain), old(pool.pos), pool.pool, pool.Chain, pool.pos)
      ensures forall s | 0 <= s < |old(pool.pool)| && old(pool.pool)[s].active :: unchanged(old(pool.pool)[s].buf)
      ensures Base + pos == old(Base + pos) && Frontier() == old(Frontier())
      ensures old(Base + len) <= Base + len
      ensures old(0 <= pos <= len) ==> 0 <= pos <= len
      ensures old(err) == EOF ==>
        && err == EOF && Base + len == old(Base + len) && Base == old(Base)
        && buf == old(buf) && buf[..] == old(buf[..])
      ensures buf == old(buf) || fresh(buf) || buf in old(pool.Arrays)
      ensures pool.Arrays <= old(pool.Arrays) + {old(buf)}
      ensures Seen(Input, c, old(Frontier()) + i, Base + len, err)
      ensures old(err) == EOF && old(Base) <= old(Frontier()) + i ==> c.InRange?
    {
      c := Peek(i);
    }

    /** The `k` bytes from `i` on, peeked one after the other as the
        continuation bytes of `PeekRune`; a panic in any of the peeks is the
        outcome. Each byte is what a peek at its position yields. */
    method PeekBytes(i: int, k: nat) returns (bs: Access<seq<byte>>)
      requires Valid()
      requires k > 0 && end + i + k > len && err == NoError ==> 0 <= pos <= len
      modifies this, pool, r, buf, pool.Arrays
      ensures Valid() && Input == old(Input) && r == old(r)
      ensures Swapped(old(pool.pool), old(pool.Chain), old(pool.pos), pool.pool, pool.Chain, pool.pos)
      ensures forall s | 0 <= s < |old(pool.pool)| && old(pool.pool)[s].active :: unchanged(old(pool.pool)[s].buf)
      ensures buf == old(buf) || fresh(buf) || buf in old(pool.Arrays)
      ensures forall a | a in pool.Arrays :: a == old(buf) || fresh(a) || a in old(pool.Arrays)
      ensures Base + pos == old(Base + pos) && Frontier() == old(Frontier())
      ensures old(Base + len) <= Base + len
      ensures old(err) == EOF ==>
        && err == EOF && Base + len == old(Base + len) && Base == old(Base)
        && buf == old(buf) && buf[..] == old(buf[..])
      ensures bs.InRange? ==> |bs.value| == k
      ensures old(err) == EOF && old(Base) <= old(Frontier()) + i ==> bs.InRange?
      ensures bs.InRange? ==> SeenAll(Input, bs.value, old(Frontier()) + i, Base + len, err)
      decreases k, 1
    {
      if k == 0 {
        return InRange([]);
      }
      ghost var p0, c0, f0 := pool.pool, pool.Chain, pool.pos;
      var c := PeekSeen(i);
      if c.OutOfRange? {
        return OutOfRange;
      }
      ghost var p1, c1, f1 := pool.pool, pool.Chain, pool.pos;
      bs := PeekAfter(i, k, c.value);
      SwappedTrans(p0, c0, f0, p1, c1, f1, pool.pool, pool.Chain, pool.pos);
    }

    /** `PeekBytes` once its first byte `c` is peeked: the other `k - 1`
        bytes follow it. */
    method PeekAfter(i: int, k: nat, c: byte) returns (bs: Access<seq<byte>>)
      requires Valid() && k > 0 && Seen(Input, InRange(c), Frontier() + i, Base + len, err)
      requires k > 1 && end + i + k > len && err == NoError ==> 0 <= pos <= len
      modifies this, pool, r, buf, pool.Arrays
      ensures Valid() && Input == old(Input) && r == old(r)
      ensures Swapped(old(pool.pool), old(pool.Chain), old(pool.pos), pool.pool, pool.Chain, pool.pos)
      ensures forall s | 0 <= s < |old(pool.pool)| && old(pool.pool)[s].active :: unchanged(old(pool.pool)[s].buf)
      ensures buf == old(buf) || fresh(buf) || buf in old(pool.Arrays)
      ensures forall a | a in pool.Arrays :: a == old(buf) || fresh(a) || a in old(pool.Arrays)
      ensures Base + pos == old(Base + pos) && Frontier() == old(Frontier())
      ensures old(Base + len) <= Base + len
      ensures old(err) == EOF ==>
        && err == EOF && Base + len == old(Base + len) && Base == old(Base)
        && buf == old(buf) && buf[..] == old(buf[..])
      ensures bs.InRange? ==> |bs.value| == k
      ensures old(err) == EOF && old(Base) <= old(Frontier()) + i ==> bs.InRange?
      ensures bs.InRange? ==> SeenAll(Input, bs.value, old(Frontier()) + i, Base + len, err)
      decreases k, 0
    {
      ghost var j, b0, e0 := Frontier() + i, Base + len, err;
      var rest := PeekBytes(i + 1, k - 1);
      if rest.OutOfRange? {
        return OutOfRange;
      }
      SeenLater(Input, c, j, b0, e0, Base + len, err);
      bs := InRange([c] + rest.value);
      assert bs.value[1..] == rest.value;
    }
  }
}
