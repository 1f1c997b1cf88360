/** The runs of shifter_test.go, carried out on the model: each method builds
    a Shifter as the test does and its postcondition states what the test
    expects to observe. */
module ShifterScenarios {
  import opened Bytes
  import opened Utf8
  import opened Readers
  import opened Streams
  import opened Shifters

  /** The bytes of an ASCII string: the low byte of each character. */
  function Ascii(s: string): (b: seq<byte>)
    ensures |b| == |s| && forall k | 0 <= k < |s| :: b[k] == (s[k] as int) % 0x100
  {
    seq(|s|, k requires 0 <= k < |s| => (s[k] as int) % 0x100)
  }

  /** The text of shifter_test.go, line 28. */
  const Lorem: string := "Lorem " + "ipsum dolor sit amet, " + "consectetur adipiscing elit."

  /** shifter_test.go, lines 28-34: a Shifter over a reader with a `Bytes`
      method is at EOF from the start, at position 0, and peeks the first
      bytes. */
  method InMemoryStart() returns (eof: bool, p: int, c0: Access<byte>, c1: Access<byte>)
    ensures eof && p == 0
    ensures c0 == InRange('L' as int) && c1 == InRange('o' as int)
  {
    var b := new Shifter.FromBytes(Ascii(Lorem), []);
    eof := b.IsEOF();
    p := b.Pos();
    c0 := b.Peek(0);
    c1 := b.Peek(1);
  }

  /** shifter_test.go, lines 36-42: moving the selection's end moves what
      Peek sees. */
  method MoveAndPeek() returns (c0: Access<byte>, c1: Access<byte>)
    ensures c0 == InRange('o' as int) && c1 == InRange('i' as int)
  {
    var b := new Shifter.FromBytes(Ascii(Lorem), []);
    b.Move(1);
    c0 := b.Peek(0);
    b.MoveTo(6);
    c1 := b.Peek(0);
  }

  /** shifter_test.go, lines 44-48: the selection "Lorem " is read and
      shifted out, after which the selection is empty and starts at 'i'. */
  method ShiftSelection() returns (sel: Access<seq<byte>>, shifted: Access<seq<byte>>, p: int,
                                   c: Access<byte>, e: Error)
    ensures sel == InRange(Ascii("Lorem ")) && shifted == sel
    ensures p == 0 && c == InRange('i' as int) && e == NoError
  {
    var b := new Shifter.FromBytes(Ascii(Lorem), []);
    b.MoveTo(6);
    sel := b.Bytes();
    forall k | 0 <= k < 6
      ensures Ascii(Lorem)[k] == Ascii("Lorem ")[k]
    {
    }
    assert Ascii(Lorem)[0..6] == Ascii("Lorem ");
    shifted := b.Shift();
    p := b.Pos();
    c := b.Peek(0);
    e := b.Err();
  }

  /** shifter_test.go, lines 50-57: Err is nil just before the end, EOF one
      past it, and nil again after moving back. */
  method ErrAtTheEnd() returns (before: Error, past: Error, back: Error)
    ensures before == NoError && past == EOF && back == NoError
  {
    var b := new Shifter.FromBytes(Ascii(Lorem), []);
    b.MoveTo(6);
    b.Skip();
    b.Move(|Lorem| - 6 - 1);
    before := b.Err();
    b.Skip();
    b.Move(1);
    past := b.Err();
    b.Move(-1);
    back := b.Err();
  }

  /** shifter_test.go, lines 60-65: with a 4-byte initial buffer the first
      refill reads "abcd"; peeking index 8 carries those 4 bytes, which fill
      the buffer, into a new one of 2*4+8 bytes and reads the rest. */
  method SmallBuffer() returns (c: Access<byte>, capacity: nat)
    ensures c == InRange('i' as int) && capacity == 16
  {
    var r := new Reader(Ascii("abcdefghi"));
    var b := new Shifter.FromReader(r, 4);
    c := b.Peek(8);
    capacity := b.buf.Length;
  }

  /** shifter_test.go, lines 67-81: the runes of "aæ†\U00100000" are peeked
      with lengths 1, 2, 3 and 4. */
  method Runes() returns (r0: Access<Rune>, r1: Access<Rune>, r3: Access<Rune>, r6: Access<Rune>)
    ensures r0 == InRange(Rune(0x61, 1)) && r1 == InRange(Rune(0xE6, 2))
    ensures r3 == InRange(Rune(0x2020, 3)) && r6 == InRange(Rune(0x100000, 4))
  {
    var input: seq<byte> := [0x61, 0xC3, 0xA6, 0xE2, 0x80, 0xA0, 0xF4, 0x80, 0x80, 0x80];
    r0 := PeekRuneIn(input, 0);
    r1 := PeekRuneIn(input, 1);
    r3 := PeekRuneIn(input, 3);
    r6 := PeekRuneIn(input, 6);
  }

  /** `PeekRune(i)` on a new Shifter over `input` held in memory: the rune
      decoded from the bytes at `i`. */
  method PeekRuneIn(input: seq<byte>, i: nat) returns (rv: Access<Rune>)
    requires i < |input|
    ensures rv.InRange? && rv.value.size == RuneLen(input[i])
    ensures i + rv.value.size <= |input| ==> rv.value == Decode(Span(input, i, rv.value.size))
  {
    var b := new Shifter.FromBytes(input, []);
    rv := b.PeekRune(i);
  }

  /** shifter_test.go, lines 83-86: over an empty reader the first peek
      yields 0, and EOF is recorded. */
  method ZeroLength() returns (c: Access<byte>, e: Error)
    ensures c == InRange(0) && e == EOF
  {
    var r := new Reader([]);
    var b := new Shifter.FromReader(r, MinBuf);
    c := b.Peek(0);
    e := b.Err();
  }
}
