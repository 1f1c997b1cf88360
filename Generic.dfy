/** generic/buffer.go: a refill buffer with a single cursor over elements of
    any type, fed by a `Read` callback. Peeking past the buffered elements
    slides the unread ones to the front of the buffer (or of a buffer twice
    its size, when they fill more than half of it) and lets `Read` fill the
    rest. The callback is a `Reader<T>` whose error result is dropped, as Go's
    `Read func([]T) int` has none.

    As for the byte lexers, the ghost fields `Input` (all the callback will
    ever deliver) and `Base` (the stream offset of `buf[0]`) tie the buffer
    to the stream. */
module Generic {
  import opened Bytes
  import opened Readers
  import opened Streams

  /** generic/buffer.go, lines 17-24: the capacity after a refill that
      carries `d` unread elements over from a buffer of capacity `capacity`:
      unchanged while they fill at most half of it, else exactly twice. */
  function GrownCapacity(capacity: nat, d: nat): (size: nat)
    requires d <= capacity
    ensures capacity <= size <= 2 * capacity && 2 * d <= size
    ensures size > capacity <==> 2 * d > capacity
    ensures size > capacity ==> size == 2 * capacity
  {
    if 2 * d > capacity then 2 * capacity else capacity
  }

  class Buffer<T(0)> {
    /** `buf` is Go's slice: its first `len` elements, capacity `buf.Length`. */
    var buf: array<T>
    var len: nat
    /** The cursor (index in buf). */
    var pos: nat
    /** The `Read` callback. */
    const src: Reader<T>
    /** The whole stream, and the stream offset of `buf[0]`. */
    ghost const Input: seq<T>
    ghost var Base: nat

    /** The cursor lies in the buffered elements, which are the stream from
        `Base` on, and the callback delivers the stream after them. */
    ghost predicate Valid()
      reads this, src, buf
    {
      && pos <= len <= buf.Length && Base + len <= |Input|
      && buf[..len] == Input[Base..Base + len]
      && src.Valid() && src.buf == Input && src.pos == Base + len
    }

    /** generic/buffer.go, lines 5-10: a Buffer value with an empty slice of
        capacity `size` and the callback `src`. */
    constructor (src: Reader<T>, size: nat)
      requires src.Valid()
      ensures Valid() && this.src == src && Input == src.buf && Base == src.pos
      ensures buf.Length == size && len == 0 && pos == 0
    {
      this.src := src;
      buf := new T[size];
      len, pos := 0, 0;
      Input, Base := src.buf, src.pos;
    }

    /** `Peek(i)`: the element `i` places after the cursor, refilling the
        buffer when that is past the buffered elements; a panic when it is
        not buffered afterwards ("Peeking past an error will panic"). In
        stream terms it is the stream element at the cursor's stream position
        plus `i`. A buffer of capacity 0 never yields an element. */
    method Peek(i: int) returns (v: Access<T>)
      requires Valid()
      modifies this, src, buf
      ensures Valid() && Base + pos == old(Base + pos) && old(Base + len) <= Base + len
      ensures buf == old(buf) || fresh(buf)
      ensures old(pos) + i < old(len) ==>
        && buf == old(buf) && buf[..] == old(buf[..]) && len == old(len) && pos == old(pos) && Base == old(Base)
      ensures old(pos) + i >= old(len) ==>
        && pos == 0 && buf.Length == GrownCapacity(old(buf.Length), old(len - pos))
        && (buf == old(buf) <==> 2 * old(len - pos) <= old(buf.Length))
        && (len == buf.Length || Base + len == |Input|)
      ensures var j := old(Base + pos) + i;
        v == if Base <= j < Base + len then InRange(Input[j]) else OutOfRange
      ensures old(buf.Length) == 0 ==> v == OutOfRange
    {
      var e := pos + i;
      if e >= len {
        e := e - pos;
        Refill();
      }
      v := if 0 <= e < len then InRange(buf[e]) else OutOfRange;
      if 0 <= e < len {
        SubWindow(buf[..], Input, Base, len, e, e + 1);
        assert buf[e] == buf[..][e..e + 1][0];
      }
    }

    /** generic/buffer.go, lines 17-29: the refill inside `Peek`. The unread
        `buf[pos:len]` moves to the front of a buffer of `GrownCapacity`
        elements (the same one unless it is more than half full), `Read`
        fills the rest, and the cursor moves to 0; no element is lost. */
    method Refill()
      requires Valid()
      modifies this, src, buf
      ensures Valid() && pos == 0 && Base == old(Base + pos) && old(Base + len) <= Base + len
      ensures buf.Length == GrownCapacity(old(buf.Length), old(len - pos))
      ensures buf == old(buf) <==> 2 * old(len - pos) <= old(buf.Length)
      ensures buf == old(buf) || fresh(buf)
      ensures len == buf.Length || Base + len == |Input|
    {
      var nb := buf;
      if 2 * (len - pos) > buf.Length {
        nb := new T[2 * buf.Length];
      }
      var n, _ := CarryAndRead(nb, buf, pos, len, src, Input, Base);
      Commit(nb, len - pos, n, Base + pos);
    }

    /** generic/buffer.go, line 29: the bookkeeping that ends a refill, once
        `nb` holds the `d + n` stream elements from `b0` on. */
    method Commit(nb: array<T>, d: nat, n: nat, ghost b0: nat)
      requires src.Valid() && src.buf == Input && src.pos == b0 + d + n
      requires d + n <= nb.Length && nb[..d + n] == Input[b0..b0 + d + n]
      modifies this
      ensures Valid() && buf == nb && pos == 0 && len == d + n && Base == b0
    {
      pos, buf, len, Base := 0, nb, d + n, b0;
    }

    /** `Shift()`: the element at the cursor, after which the cursor moves
        one on; a panic, with the cursor where it was, when the stream is
        exhausted or the buffer has no capacity. */
    method Shift() returns (t: Access<T>)
      requires Valid()
      modifies this, src, buf
      ensures Valid() && (buf == old(buf) || fresh(buf))
      ensures t.OutOfRange? <==> old(Base + pos) == |Input| || old(buf.Length) == 0
      ensures t.InRange? ==> t.value == Input[old(Base + pos)] && Base + pos == old(Base + pos) + 1
      ensures t.OutOfRange? ==> Base + pos == old(Base + pos)
    {
      t := Peek(0);
      if t.InRange? {
        pos := pos + 1;
      }
    }
  }
}
