# buffer — lexer input buffers, modelled in Dafny

The Go package `buffer` (tdewolff/buffer) provides input buffers for
hand-written lexers. Each one keeps a selection — a token start and a scan
frontier — over a byte buffer, lets the lexer peek ahead of the frontier, and
shifts the finished token out. This project models the package's five buffers
and proves what they promise:

- **Lexer** and **BufferPool** (`lexer.go`). The streaming lexer reads from an
  `io.Reader`. When a peek runs past the buffered bytes, the already-shifted
  prefix goes to a pool of retired buffers in exchange for an empty buffer,
  which may be larger. The unfinished token moves to the front of that buffer,
  and the reader fills the rest. `Free` tells the pool how many shifted bytes
  will never be looked at again. The pool is an arena of blocks; its active
  blocks form a linked chain whose links are stored as "slot plus one".
- **Shifter** (`shifter.go`). The same selection over a single buffer and no
  pool. A refill slides the unfinished bytes to the front of the same buffer,
  or to a larger one when they fill more than half of it. An `eof` flag says
  when the whole stream is in memory.
- **MemLexer** (`mem_lexer.go`). The whole input is held in memory behind an
  appended NUL sentinel, and the selection is pure index arithmetic.
- **generic Buffer** (`generic/buffer.go`). A single-cursor refill buffer over
  any element type, fed by a `Read` callback.
- **Reader** (`reader.go`). A pull source over an in-memory slice. It is also
  the reader the models of the streaming buffers read from.

Go slices with spare capacity are an `array` plus a length field, and Go's
`copy` is `Bytes.Copy`. Each streaming buffer also carries two ghost fields:
`Input`, the whole stream the reader delivers, and `Base`, the stream offset
of the first buffered byte. Through them the contracts say what a peek,
selection or refill means in stream terms. A refill keeps the stream positions
of the selection where they were, so `Pos()` does not change and no
unfinished byte is lost. A Go index panic ("index out of range") is the
outcome `OutOfRange` of the `Access` datatype; the model does not substitute
a value for it.

The three `PeekRune` methods share one pure decoder, `Utf8.Decode`. It follows
the bit layout of section 3 of RFC 3629 but validates nothing. It is proved
exact on the byte sequences section 4 of RFC 3629 admits, and lenient on
others.

Two places deserve a note, because the package's comments and its code
point different ways:

- `lexer.go` line 114 compares against an identifier `c` that `read` never
  declares. Here the model follows the comment, not the code: `NextSize` uses
  the buffer's capacity as the threshold, as the comment on that line and the
  same rule in `shifter.go` (line 68) do. The code as written is modelled
  separately (see Findings).
- The generic Buffer grows to exactly twice its capacity, whatever index is
  peeked. Here the model follows the code. A buffer of capacity 0 therefore
  never yields an element.

## Model

| member | source | states |
|---|---|---|
| `Bytes.Copy` | lexer.go:118 | Go's `copy`: the destination range receives the old source range, which may overlap it, and the rest of the destination is unchanged |
| `Utf8.Decode` | lexer.go:158-170 | the decoded length is the number of bytes the lead byte announces, the code point fits in 21 bits, and a single byte decodes as itself |
| `Utf8.DecodeEncode` | shifter.go:103-115 | decoding the RFC 3629 encoding of any code point below U+110000 gives back that code point and the encoding's length |
| `Utf8.EncodeDecode` | mem_lexer.go:64-75 | on a well-formed UTF-8 sequence the length matches its lead byte, the code point is a Unicode scalar value, and re-encoding it gives the same bytes |
| `Utf8.EncodeDecode2` | lexer.go:164 | the two-byte case of the round trip: the code point lies in 0x80..0x7FF and encodes back to the two bytes |
| `Utf8.EncodeDecode3` | lexer.go:166 | the three-byte case: the code point lies in 0x800..0xFFFF, is no surrogate, and encodes back to the three bytes |
| `Utf8.EncodeDecode4` | lexer.go:168 | the four-byte case: the code point lies in 0x10000..0x10FFFF and encodes back to the four bytes |
| `Utf8.DecodeIsLenient` | shifter.go:106-114 | no validation: a stray continuation byte decodes as itself, an overlong form decodes like the byte it spells, and a surrogate encoding decodes to the surrogate |
| `Utf8.DecodeExamples` | shifter_test.go:67-81 | 'a', 'æ', '†' and U+100000 decode from their bytes with lengths 1, 2, 3 and 4 |
| `Readers.Reader.constructor` | reader.go:12-16 | a new Reader starts at position 0 over the given slice |
| `Readers.Reader.Read` | reader.go:19-29 | an empty destination reads nothing without error; an exhausted reader gives EOF and reads nothing; otherwise it copies min(room, rest) elements, which are the next ones of the slice, advances by that count, and leaves the rest of the destination alone |
| `Readers.Reader.Bytes` | reader.go:32-34 | the whole slice, whatever has been read: what was consumed followed by what remains |
| `Readers.ReadAll` | mem_lexer.go:29 | successive non-empty reads until EOF, concatenated, give exactly what was left of the slice, and leave the reader exhausted |
| `Pool.FirstFit` | lexer.go:21-27 | the first slot whose block is inactive and large enough, or the arena's length when there is none: no earlier slot fits |
| `Pool.FindFree` | lexer.go:21-27 | the search loop returns the first fitting slot, or -1 when none fits |
| `Pool.Link` | lexer.go:41-44 | block `b` goes into slot `slot` (a new slot when it is one past the end); no other slot's array, length or activity changes, and the previous head, if any, now links to the slot |
| `Pool.LinkKeepsChain` | lexer.go:41-48 | parking a buffer in a free or new slot appends that slot to the chain and makes it the head (and the tail when the chain was empty), and the chain stays well formed |
| `Pool.LinkSlots` | lexer.go:41-44 | parking changes no other slot's array or activity, keeps the arrays distinct, and trades the slot's old array for the parked one |
| `Pool.RetireKeepsChain` | lexer.go:56-60 | retiring the tail block drops it from the chain, and the slot it linked to becomes the tail |
| `Pool.FreeStep` | lexer.go:56-61 | one turn of the free loop moves one block further along the original chain and subtracts exactly that block's length |
| `Pool.DrainedStops` | lexer.go:56 | freeing stops at the first block the remaining count does not cover |
| `Pool.DrainedBlockIsReused` | lexer.go:23 | a `FirstFit` fact: a block that free has retired fits every request of no more than its capacity, so the search stops at it or at an earlier free block. Through the first-fit clauses of `Swap`, `Trade`, `Refill` and `Peek`, the next refill of no more than its capacity hands it out again, or an earlier free block |
| `Pool.Drain` | lexer.go:53-65 | the free loop drains exactly the blocks the count covers, from the tail, leaves the rest of the chain well formed, retires blocks without moving them, and stops with the chain empty or short of the tail block |
| `Pool.BufferPool.constructor` | lexer.go:11-17 | the zero pool has no blocks and an empty chain |
| `Pool.BufferPool.Swap` | lexer.go:19-51 | hands out a buffer of capacity at least `size` that no active block holds. It is the first fitting free block; or the old buffer itself, exactly when no free block fits, the chain is empty, the whole old buffer is freed and it is large enough (the freed count drops by its length); or a new block of exactly `size`. Otherwise the old buffer, with its length, becomes the new head of the chain. Active blocks stay active with their arrays and lengths |
| `Pool.BufferPool.Park` | lexer.go:38-50 | the retired buffer takes the chosen slot as the new head, and becomes the tail when the chain was empty |
| `Pool.BufferPool.Free` | lexer.go:53-65 | adds `n` to the freed count and retires, from the tail, every block the count covers; it stops with the chain empty or with fewer freed bytes than the tail block holds, and the chain stays well formed |
| `Streams.CarryAndRead` | lexer.go:118-122 | the unfinished bytes move to the front of the new buffer, which may be the old one, and the reader appends after them. The buffer then holds the stream from the old selection start on; it is full, or the stream is exhausted |
| `Streams.DecodedAt` | lexer.go:160-168 | a lead byte and the continuation bytes peeked after it, all buffered, decode to the rune the stream bytes there spell |
| `Lexers.NextSize` | lexer.go:112-116 | the requested capacity never shrinks, leaves room for twice the carried bytes, and grows exactly when those bytes fill more than half the buffer |
| `Lexers.NextSizeAsWritten` | lexer.go:112-116 | as compiled in the test build (`c` is the test counter), the buffer grows whenever `2*d > c`, unless it is empty with nothing carried |
| `Lexers.AsWrittenGrowsOnEveryCarry` | lexer.go:114 | with the counter at 0, carrying 1 byte of a 4096-byte buffer asks for 8193 bytes, where the capacity threshold keeps 4096 |
| `Lexers.Lexer.FromReader` | lexer.go:98-103 | an empty buffer of capacity `size` filled by a first peek. With the pool still empty, that refill reuses the buffer in place, so the capacity stays `size` and the pool ends up with no blocks, an empty chain and nothing freed. The buffer is full or holds the whole stream, and EOF is recorded exactly when nothing was read |
| `Lexers.Lexer.FromBytes` | lexer.go:90-97 | over in-memory bytes the lexer starts at EOF with all bytes buffered and an empty selection at 0; the buffer's capacity past the bytes holds `spare`, the rest of the caller's slice; the pool is empty |
| `Lexers.Lexer.Refill` | lexer.go:106-133 | `read` is sticky: with an error recorded it yields 0 and changes nothing (buffer, bytes, selection and pool). Otherwise the pool supplies a buffer of at least `NextSize`: the first free block that fits, with the pool not growing, or else the old buffer or a new array of exactly `NextSize`. The stream positions of the selection stay put, no unfinished byte is lost, and the buffer ends up full or at the end of the stream. A refill that reads nothing records EOF and yields 0; otherwise the result is the stream byte at the index, or a panic. The old buffer is reused exactly when `Trade` says so; otherwise it is parked as the new head of the pool's chain with length equal to the old start. Active pool blocks keep their arrays, lengths and bytes |
| `Lexers.Lexer.Trade` | lexer.go:117 | the swap with the pool: the new buffer has capacity at least the requested size and no active block holds it. It is the first free block that fits, and then the pool does not grow; when none fits, it is the old buffer or a new array of exactly the requested size. It is the old buffer exactly when no free block fits, the chain is empty, the freed count covers the old start and the capacity suffices; then the freed count drops by the old start. Otherwise the shifted prefix is parked as the new head of the chain, and the freed count is kept |
| `Lexers.Lexer.Install` | lexer.go:117-132 | with the new buffer in hand, the selection drops by the old start, the buffered extent only grows, and the result is as for `read` |
| `Lexers.Lexer.Commit` | lexer.go:123-130 | the end of `read`: the new buffer, length `d + n`, start 0 and the end moved down, with the stream still agreeing |
| `Lexers.Lexer.Peek` | lexer.go:149-155 | the stream byte `i` past the selection's end when it is buffered afterwards, 0 once an error is recorded, else a panic; a refill happens exactly when the index is past the buffered bytes and no error is recorded. Without a refill the buffer, its bytes up to its capacity and the pool are untouched; with one, the pool changes as `Trade` says: the new buffer is the first free block that fits, else the old buffer or a new array of exactly `NextSize`, and active pool blocks keep their arrays, lengths and bytes |
| `Lexers.Lexer.Err` | lexer.go:140-145 | nil while no error is recorded. With EOF recorded it is EOF exactly when the selection's end is at or past the end of the stream (for a buffer of non-zero capacity) |
| `Lexers.Lexer.Move` | lexer.go:173-175 | the end moves by `n`, unchecked, and nothing else changes |
| `Lexers.Lexer.MoveTo` | lexer.go:178-180 | `Pos()` becomes `n`, and the selection's end is `n` stream bytes past its start |
| `Lexers.Lexer.Pos` | lexer.go:183-185 | the mark is the selection's length in stream terms: start plus `Pos()` is the stream position of the end |
| `Lexers.Lexer.Bytes` | lexer.go:188-190 | the selection, of length `Pos()`, in range up to the capacity; inside the buffered bytes it is the stream between the two positions |
| `Lexers.Lexer.Shift` | lexer.go:193-197 | returns the selection as `Bytes` does. When that is in range, the selection is afterwards empty and starts where it ended; when the slice panics, nothing changes |
| `Lexers.Lexer.Skip` | lexer.go:200-202 | the selection becomes empty at its end; a second Skip changes nothing |
| `Lexers.Lexer.Free` | lexer.go:135-137 | the pool retires exactly the blocks the freed count covers, and keeps its arrays, so peeks may follow |
| `Lexers.Lexer.PeekRune` | lexer.go:158-170 | the rune at `i` past the end has 1 to 4 bytes, as many as its lead byte announces; when those bytes are buffered it is their decoding, and after EOF it never panics and keeps the buffer and its bytes. The buffer is the old one, a new one, or one from the pool. Across its peeks the pool's chain only grows, the freed count only drops, and active pool blocks keep their arrays, lengths and bytes |
| `Lexers.Lexer.PeekTail` | lexer.go:163-169 | the multi-byte branches: the continuation bytes are peeked and the rune decoded; the pool changes as for `PeekRune` |
| `Lexers.Lexer.PeekSeen` | lexer.go:160 | a peek yields a stream byte, or a 0 that only a recorded EOF explains; the pool changes as for `PeekRune` |
| `Lexers.Lexer.PeekBytes` | lexer.go:164-168 | the continuation peeks, one after another: each byte is what the stream holds at its position, or a 0 after EOF; the pool changes as for `PeekRune` |
| `Lexers.Lexer.PeekAfter` | lexer.go:164-168 | the continuation peeks after the first one, with the first byte put in front: the same promise as `PeekBytes` |
| `Shifters.NextCapacity` | shifter.go:64-72 | the buffer is kept while the carried bytes fill at most half of it; otherwise the new one is larger than the peeked index |
| `Shifters.Shifter.FromReader` | shifter.go:37-42 | an empty buffer of capacity `MinBuf` filled by a first peek: full or holding the whole stream, and EOF exactly when nothing was read |
| `Shifters.Shifter.FromBytes` | shifter.go:28-36 | over in-memory bytes the shifter starts with EOF and `eof` set, everything buffered and an empty selection at 0; the buffer's capacity past the bytes holds `spare` |
| `Shifters.Shifter.Refill` | shifter.go:59-90 | sticky after an error. Otherwise the capacity is `NextCapacity`, and the same buffer is reused exactly when the carried bytes fit in half of it. Stream positions stay put, the buffer ends up full or at the end of the stream, a read of nothing records EOF and yields 0, and the result is the stream byte or a panic |
| `Shifters.Shifter.Install` | shifter.go:73-89 | the carried bytes move to the front and the reader fills the rest; the result is the stream byte at the index, 0, or a panic |
| `Shifters.Shifter.Commit` | shifter.go:78-86 | the end of `read`: start 0, end moved down, length `d + n`, and `eof` set exactly when the error is EOF |
| `Shifters.Shifter.Peek` | shifter.go:94-100 | the stream byte `i` past the end when buffered, 0 after an error, else a panic; without a refill the buffer and its bytes are untouched, and once `IsEOF()` holds the buffer is neither replaced nor overwritten |
| `Shifters.Shifter.Err` | shifter.go:46-51 | nil while no error is recorded. After EOF it is EOF exactly when the selection's end is at or past the end of the stream |
| `Shifters.Shifter.IsEOF` | shifter.go:55-57 | true exactly when EOF is recorded, and then the last of the stream is in memory |
| `Shifters.Shifter.Move` | shifter.go:118-120 | the end moves by `n`, unchecked, and nothing else changes |
| `Shifters.Shifter.MoveTo` | shifter.go:123-125 | `Pos()` becomes `n` |
| `Shifters.Shifter.Pos` | shifter.go:128-130 | start plus `Pos()` is the stream position of the selection's end |
| `Shifters.Shifter.Bytes` | shifter.go:133-135 | the selection, of length `Pos()`; inside the buffered bytes, the stream between the two positions |
| `Shifters.Shifter.Shift` | shifter.go:138-142 | the selection; when it is in range, the selection is afterwards empty and starts at the old end; when the slice panics, nothing changes |
| `Shifters.Shifter.Skip` | shifter.go:145-147 | the selection becomes empty at its end; idempotent |
| `Shifters.Shifter.PeekRune` | shifter.go:103-115 | 1 to 4 bytes, as many as the lead byte announces; when those bytes are buffered, their decoding; after EOF it never panics and keeps the buffer and its bytes |
| `Shifters.Shifter.PeekTail` | shifter.go:108-114 | the multi-byte branches of PeekRune |
| `Shifters.Shifter.PeekSeen` | shifter.go:105 | a peek yields a stream byte, or a 0 that only a recorded EOF explains |
| `Shifters.Shifter.PeekBytes` | shifter.go:109-113 | the continuation peeks: each byte is the stream's at its position, or a 0 after EOF |
| `ShifterScenarios.InMemoryStart` | shifter_test.go:28-34 | over in-memory text the shifter is at EOF, at position 0, and peeks 'L' and 'o' |
| `ShifterScenarios.MoveAndPeek` | shifter_test.go:36-41 | after Move(1) the peek sees 'o'; after MoveTo(6) it sees 'i' |
| `ShifterScenarios.ShiftSelection` | shifter_test.go:43-48 | the selection reads "Lorem ", Shift returns it, `Pos()` is then 0, the next byte is 'i' and Err is nil |
| `ShifterScenarios.ErrAtTheEnd` | shifter_test.go:50-57 | Err is nil just before the end, EOF one past it, and nil again after moving back |
| `ShifterScenarios.SmallBuffer` | shifter_test.go:60-65 | with a 4-byte buffer, peeking index 8 of "abcdefghi" grows the buffer to 16 bytes and yields 'i' |
| `ShifterScenarios.Runes` | shifter_test.go:67-81 | PeekRune at 0, 1, 3 and 6 of "aæ†\U00100000" gives 'a'/1, 'æ'/2, '†'/3 and U+100000/4 |
| `ShifterScenarios.PeekRuneIn` | shifter_test.go:68 | over in-memory bytes PeekRune never panics and decodes the bytes at its index |
| `ShifterScenarios.ZeroLength` | shifter_test.go:83-86 | over an empty reader the first peek yields 0 and EOF is recorded |
| `MemLexers.Terminated` | mem_lexer.go:34-37 | the bytes are kept, at most one byte is added, a non-empty result ends in 0, and a byte is added exactly when the input is non-empty and does not end in 0 |
| `MemLexers.MemLexer.FromBytes` | mem_lexer.go:23-40 | the buffer is the given bytes with the sentinel, and the selection is empty at 0 |
| `MemLexers.MemLexer.FromReader` | mem_lexer.go:27-40 | the buffer is everything the reader had left, with the sentinel, and the reader is exhausted |
| `MemLexers.MemLexer.Err` | mem_lexer.go:44-49 | EOF at once for empty input, otherwise exactly when every input byte is behind the end; for input ending in 0, which gets no sentinel, already at that final 0 |
| `MemLexers.MemLexer.Peek` | mem_lexer.go:58-61 | in range exactly on the input bytes and the appended sentinel; the input byte there, or 0 at the sentinel |
| `MemLexers.MemLexer.PeekRune` | mem_lexer.go:64-75 | the length is what the lead byte announces; inside the input the rune is the decoding of the bytes there; in range exactly when the lead byte and all the bytes it announces are in the buffer |
| `MemLexers.PeekRuneEncoded` | mem_lexer.go:64-75 | where the UTF-8 encoding of a code point starts, PeekRune returns that code point and the encoding's length |
| `MemLexers.MemLexer.Move` | mem_lexer.go:78-80 | the end moves by `n`, unchecked |
| `MemLexers.MemLexer.Pos` | mem_lexer.go:83-85 | inside the input, `Pos()` is the length of the input between the start and the end of the selection |
| `MemLexers.MemLexer.Rewind` | mem_lexer.go:88-90 | `Pos()` becomes `n`, and rewinding to `Pos()` leaves the position unchanged |
| `MemLexers.MemLexer.Lexeme` | mem_lexer.go:93-95 | the selection, of length `Pos()`; inside the input, the input between the two positions |
| `MemLexers.MemLexer.Skip` | mem_lexer.go:98-100 | the selection becomes empty at its end |
| `MemLexers.MemLexer.Shift` | mem_lexer.go:104-108 | returns the lexeme; when it is in range, the start moves to the end and the lexeme is empty; when the slice panics, nothing changes |
| `MemLexers.MemLexer.Free` | mem_lexer.go:53-54 | changes nothing |
| `Generic.GrownCapacity` | generic/buffer.go:17-24 | the capacity stays unless the carried elements fill more than half of it, and then it is exactly doubled |
| `Generic.Buffer.constructor` | generic/buffer.go:5-10 | an empty buffer of the given capacity, with the cursor at 0 |
| `Generic.Buffer.Peek` | generic/buffer.go:14-32 | the stream element `i` past the cursor when it is buffered afterwards, else a panic; an in-range peek changes nothing; a refill sets the capacity to `GrownCapacity`, reusing the buffer exactly when it does not grow; a buffer of capacity 0 always panics |
| `Generic.Buffer.Refill` | generic/buffer.go:17-29 | the unread elements move to the front, the cursor goes to 0, no element is lost, and the buffer ends up full or at the end of the stream |
| `Generic.Buffer.Commit` | generic/buffer.go:29 | start 0, length `d + n`, the new buffer in place |
| `Generic.Buffer.Shift` | generic/buffer.go:35-39 | the element at the cursor, after which the cursor advances by exactly one. It panics, leaving the cursor in place, exactly when the stream is exhausted or the capacity is 0 |

## Left out

- `Lexers.Lexer.Peek`, `Lexers.Lexer.PeekRune`, `Shifters.Shifter.Peek` and `Shifters.Shifter.PeekRune`: the model requires `0 <= pos <= len` when a peek can refill. A start past the buffered bytes (after `Move` past the end and `Skip`) makes Go panic on a negative slice bound: `z.buf[:d]` at shifter.go:70, and `buf[:d]` at lexer.go:118, where `swap` (line 117) has already parked the prefix. A negative start panics on the slices of `z.pos` itself. None of these panics is an outcome of the model. For `PeekRune` the requirement covers every peek up to 3 bytes past the index, so it also applies to a rune whose lead byte is ASCII, which peeks once and may never refill.
- `MemLexers.MemLexer.Lexeme`: in the model the buffer's capacity is its length. `append` in Go may leave spare capacity, which a slice past the length could expose instead of panicking. (The `FromBytes` constructors of Lexer and Shifter take that spare capacity as a parameter.)
- Slice aliasing: `Bytes`, `Shift` and `Lexeme` return copies (sequences), where Go returns views of the buffer. What the aliasing means is kept as a fact: once `IsEOF()` holds, `Shifter.Peek` neither replaces nor overwrites the buffer.
- The runtime check for a `Bytes()` method in the constructors is two explicit constructors, `FromBytes` and `FromReader`. `FromReader` takes the `Reader` model as a stand-in for any `io.Reader` without `Bytes()`. The package's own `Reader` has `Bytes()`, and Go would take the `FromBytes` path for it.
- Reader errors other than EOF, and readers that deliver fewer bytes than the room and the rest allow: only the `Reader` model feeds the buffers. The mock reader of shifter_test.go (lines 13-23) also reports EOF together with a short read. The peeked byte in `SmallBuffer` is the same either way; the recorded error is not.
- `ioutil.ReadAll` is modelled as 512-byte reads until EOF (`ReadAll`); its way of growing its buffer is not modelled, and its error is ignored, as in Go.
- `NewLexer` and the package globals of buffer.go and util.go (`defaultBufSize`, `MinBuf`, `MaxBuf`, `ErrExceeded`): sizes are constructor parameters, and `MinBuf` is the constant `Shifters.MinBuf`.
- The `prevStart` field of `MemLexer`, which no code reads or writes.
- Go's fixed-width `int` and `rune`: integers are unbounded. Decoded code points stay below 0x200000, which fits a `rune`.
- The generic Buffer's `Read` callback is a `Reader<T>`, and its error result is dropped. `Peek` returns the element, not a pointer to it.
- The continuation peeks of `PeekRune` are `PeekBytes` (with `PeekAfter` in the Lexer), the same peeks in the same order, one call each.
- Concurrency (the remark at lexer.go:59), writer_test.go (its `Writer` is not part of this model), and the benchmarks and helpers of shifter_test.go.

## Findings

| source | as written | input that shows it | evidently intended | confidence | as-written member | corrected member |
|---|---|---|---|---|---|---|
| lexer.go:114 | `if 2*d > c`, where `c` is not declared in `read`; it compiles only in the test build, where it is the package counter `var c = 0` of shifter_test.go:140 | capacity 4096 with 1 unfinished byte and the counter at 0: the new size is 8193, although the token fills far less than half the buffer | `2*d > size`, the capacity, as the comment on line 114 and shifter.go:68 say | high; not executed | `Lexers.NextSizeAsWritten`, `Lexers.AsWrittenGrowsOnEveryCarry` | `Lexers.NextSize` |
