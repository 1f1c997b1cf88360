/** lexer.go, lines 5-65: the pool of retired buffers behind the streaming
    Lexer. The pool is an arena of blocks; the active ones form a singly
    linked chain from `tail` (oldest) to `head` (newest), with links stored as
    "slot index plus one" so that 0 means none. `pos` counts the bytes already
    freed inside the tail block. */
module Pool {
  import opened Bytes

  /** One arena slot (Go's `block`): `len` is `len(buf)`, the array's Length
      is `cap(buf)`, and `next` is the slot of the next block plus one. */
  datatype Block = Block(buf: array<byte>, len: nat, next: nat, active: bool)

  /** A slot `swap` may hand out for a request of `size` bytes. */
  predicate Fits(b: Block, size: int) {
    !b.active && size <= b.buf.Length
  }

  /** The first slot that fits a request of `size` bytes, or `|blocks|` when
      none does. */
  function FirstFit(blocks: seq<Block>, size: int): (i: nat)
    ensures i <= |blocks|
    ensures i < |blocks| ==> Fits(blocks[i], size)
    ensures forall j | 0 <= j < i :: !Fits(blocks[j], size)
  {
    if blocks == [] then 0
    else if Fits(blocks[0], size) then 0
    else 1 + FirstFit(blocks[1..], size)
  }

  /** Following the links from `link` visits exactly the slots of `chain`, in
      order, each of them active, and then reaches 0. */
  ghost predicate Follows(blocks: seq<Block>, chain: seq<nat>, link: nat)
    decreases |chain|
  {
    if chain == [] then link == 0
    else
      && link == chain[0] + 1 && chain[0] < |blocks| && blocks[chain[0]].active
      && Follows(blocks, chain[1..], blocks[chain[0]].next)
  }

  /** `chain` lists the active slots in link order, from `tail` to `head`:
      a slot is on it exactly when its block is active, no slot appears
      twice, the links lead from `tail` through all of them, and `head` is
      the last. */
  ghost predicate Chained(blocks: seq<Block>, chain: seq<nat>, head: nat, tail: nat) {
    && Follows(blocks, chain, tail)
    && (forall k | 0 <= k < |chain| :: chain[k] < |blocks|)
    && (forall k {:trigger blocks[chain[k]]} | 0 <= k < |chain| :: blocks[chain[k]].active)
    && (forall s {:trigger OnChain(blocks, s)} | 0 <= s < |blocks| :: OnChain(blocks, s) ==> s in chain)
    && Distinct(chain)
    && (chain != [] ==> head == chain[|chain| - 1] + 1)
  }

  /** No slot appears twice in `chain`. */
  ghost predicate Distinct(chain: seq<nat>) {
    chain == [] || (chain[0] !in chain[1..] && Distinct(chain[1..]))
  }

  /** A slot not yet on a chain can be appended to it. */
  lemma {:induction false} DistinctSnoc(chain: seq<nat>, slot: nat)
    requires Distinct(chain) && slot !in chain
    ensures Distinct(chain + [slot])
  {
    if chain != [] {
      assert (chain + [slot])[1..] == chain[1..] + [slot];
      assert chain[0] != slot;
      DistinctSnoc(chain[1..], slot);
    }
  }

  /** The last slot of a distinct chain appears nowhere before it. */
  lemma {:induction false} DistinctLast(chain: seq<nat>, k: nat)
    requires Distinct(chain) && k < |chain| - 1
    ensures chain[k] != chain[|chain| - 1]
  {
    if k == 0 {
      assert chain[|chain| - 1] == chain[1..][|chain| - 2];
    } else {
      DistinctLast(chain[1..], k - 1);
    }
  }

  /** Slot `s` holds a block that is in use. Only the statement that every
      such slot is on the chain mentions it, so that statement is instantiated
      only where a proof asks for it. */
  ghost predicate OnChain(blocks: seq<Block>, s: nat)
    requires s < |blocks|
  {
    blocks[s].active
  }

  /** Links are all `Follows` looks at: another arena that agrees on the
      chain's slots' links and keeps them active is followed the same way. */
  lemma {:induction false} FollowsFrame(a: seq<Block>, b: seq<Block>, chain: seq<nat>, link: nat)
    requires Follows(a, chain, link)
    requires forall k | 0 <= k < |chain| :: chain[k] < |a| && chain[k] < |b| && b[chain[k]].active && b[chain[k]].next == a[chain[k]].next
    ensures Follows(b, chain, link)
  {
    if chain != [] {
      FollowsFrame(a, b, chain[1..], a[chain[0]].next);
    }
  }

  /** Appending `slot` to a followed chain: the old last block now links to
      `slot`, which is active and links nowhere. */
  lemma {:induction false} FollowsSnoc(a: seq<Block>, r: seq<Block>, chain: seq<nat>, link: nat, slot: nat)
    requires Follows(a, chain, link)
    requires forall k | 0 <= k < |chain| :: chain[k] < |a| && chain[k] < |r| && r[chain[k]].active
    requires forall k | 0 <= k < |chain| - 1 :: r[chain[k]].next == a[chain[k]].next
    requires chain != [] ==> r[chain[|chain| - 1]].next == slot + 1
    requires slot < |r| && r[slot].next == 0 && r[slot].active
    ensures Follows(r, chain + [slot], if chain == [] then slot + 1 else link)
  {
    assert [slot][1..] == [];
    if chain != [] {
      assert (chain + [slot])[1..] == chain[1..] + [slot];
      if |chain| > 1 {
        FollowsSnoc(a, r, chain[1..], a[chain[0]].next, slot);
      }
    }
  }

  /** No two slots share a backing array. */
  ghost predicate DistinctBuffers(blocks: seq<Block>) {
    forall s, t | 0 <= s < t < |blocks| :: blocks[s].buf != blocks[t].buf
  }

  /** lexer.go, lines 41-44: block `b` goes into slot `slot` (one past the end
      means a new slot), and the previous head, if any, links to it. */
  function Link(blocks: seq<Block>, head: nat, slot: nat, b: Block): (r: seq<Block>)
    requires slot <= |blocks| && head <= |blocks|
    ensures |r| == if slot == |blocks| then |blocks| + 1 else |blocks|
    ensures r[slot].buf == b.buf && r[slot].len == b.len && r[slot].active == b.active
    ensures head != slot + 1 ==> r[slot] == b
    ensures forall s | 0 <= s < |r| && s != slot ::
      r[s].buf == blocks[s].buf && r[s].len == blocks[s].len && r[s].active == blocks[s].active
    ensures forall s | 0 <= s < |r| && s != slot && s != head - 1 :: r[s] == blocks[s]
    ensures head > 0 ==> r[head - 1].next == slot + 1
  {
    var placed := if slot == |blocks| then blocks + [b] else blocks[slot := b];
    if head == 0 then placed else placed[head - 1 := placed[head - 1].(next := slot + 1)]
  }

  /** Linking a retired buffer into a free (or new) slot extends the chain by
      that slot, which becomes the head, and also the tail when the chain was
      empty. */
  lemma LinkKeepsChain(blocks: seq<Block>, chain: seq<nat>, head: nat, tail: nat, slot: nat, buf: array<byte>, len: nat)
    requires Chained(blocks, chain, head, tail) && (chain == [] ==> head == 0)
    requires slot <= |blocks| && (slot < |blocks| ==> !blocks[slot].active)
    ensures head <= |blocks| && head != slot + 1
    ensures Link(blocks, head, slot, Block(buf, len, 0, true))[slot] == Block(buf, len, 0, true)
    ensures Chained(Link(blocks, head, slot, Block(buf, len, 0, true)), chain + [slot], slot + 1,
                    if tail == 0 then slot + 1 else tail)
  {
    var r := Link(blocks, head, slot, Block(buf, len, 0, true));
    DistinctSnoc(chain, slot);
    forall k | 0 <= k < |chain| - 1
      ensures r[chain[k]].next == blocks[chain[k]].next
    {
      DistinctLast(chain, k);
    }
    FollowsSnoc(blocks, r, chain, tail, slot);
    forall s | 0 <= s < |r| && OnChain(r, s)
      ensures s in chain + [slot]
    {
      if s != slot {
        assert OnChain(blocks, s);
      }
    }
  }

  /** Linking `b` into `slot` changes no other slot's array or activity, so
      the arrays stay distinct when `b.buf` is new to the arena, and the
      arena's footprint trades the array the slot held for `b.buf`. */
  lemma LinkSlots(blocks: seq<Block>, head: nat, slot: nat, b: Block, arrays: set<array<byte>>)
    requires slot <= |blocks| && head <= |blocks|
    requires DistinctBuffers(blocks) && forall s | 0 <= s < |blocks| :: blocks[s].buf != b.buf
    requires forall s | 0 <= s < |blocks| :: blocks[s].buf in arrays
    ensures var r := Link(blocks, head, slot, b);
      && r[slot] == b.(next := r[slot].next)
      && (forall s | 0 <= s < |r| && s != slot :: r[s].buf == blocks[s].buf && r[s].active == blocks[s].active)
      && DistinctBuffers(r)
      && forall s | 0 <= s < |r| ::
           r[s].buf in arrays - (if slot < |blocks| then {blocks[slot].buf} else {}) + {b.buf}
  {
    var r := Link(blocks, head, slot, b);
    forall s | 0 <= s < |r| && s != slot
      ensures r[s].buf in arrays - (if slot < |blocks| then {blocks[slot].buf} else {})
    {
      assert r[s].buf == blocks[s].buf;
    }
  }

  /** Retiring the tail block drops it from the front of the chain; the new
      tail is the slot it linked to. */
  lemma RetireKeepsChain(blocks: seq<Block>, chain: seq<nat>, head: nat, tail: nat)
    requires Chained(blocks, chain, head, tail) && chain != []
    ensures Chained(blocks[chain[0] := blocks[chain[0]].(active := false)], chain[1..], head, blocks[chain[0]].next)
  {
    var r := blocks[chain[0] := blocks[chain[0]].(active := false)];
    forall k | 0 <= k < |chain| - 1
      ensures chain[1..][k] != chain[0]
    {
      assert chain[1..][k] in chain[1..];
    }
    FollowsFrame(blocks, r, chain[1..], blocks[chain[0]].next);
    forall s | 0 <= s < |r| && OnChain(r, s)
      ensures s in chain[1..]
    {
      assert OnChain(blocks, s);
      assert s in chain && s != chain[0] && chain == [chain[0]] + chain[1..];
    }
  }

  /** `a` is the arena `b` with some blocks retired: the same slots holding
      the same blocks, and active only where `b` is. */
  ghost predicate Retired(a: seq<Block>, b: seq<Block>) {
    && |a| == |b|
    && forall s | 0 <= s < |a| ::
         a[s].buf == b[s].buf && a[s].len == b[s].len && a[s].next == b[s].next && (a[s].active ==> b[s].active)
  }

  /** Every block active in `a` is still active in `b`, in the same slot,
      with the same array and length: what parking a buffer leaves alone. */
  ghost predicate KeepsActive(a: seq<Block>, b: seq<Block>) {
    && |a| <= |b|
    && forall s | 0 <= s < |a| && a[s].active :: b[s].active && b[s].buf == a[s].buf && b[s].len == a[s].len
  }

  /** The arena `b` with chain `cb` and freed count `pb` is what any number
      of `swap`s make of `a`, `ca` and `pa`: the blocks active before keep
      their slots, arrays and lengths, the chain only grows at its head, and
      the freed count drops only while the chain is empty. */
  ghost predicate Swapped(a: seq<Block>, ca: seq<nat>, pa: int, b: seq<Block>, cb: seq<nat>, pb: int) {
    KeepsActive(a, b) && ca <= cb && pb <= pa && (ca != [] ==> pb == pa)
  }

  lemma SwappedTrans(a: seq<Block>, ca: seq<nat>, pa: int, b: seq<Block>, cb: seq<nat>, pb: int,
                     c: seq<Block>, cc: seq<nat>, pc: int)
    requires Swapped(a, ca, pa, b, cb, pb) && Swapped(b, cb, pb, c, cc, pc)
    ensures Swapped(a, ca, pa, c, cc, pc)
  {
  }

  /** One turn of `free`'s loop: the tail block of the current chain is
      covered, so retiring it moves one step further along the original
      chain `oc` and accounts for its length. */
  lemma FreeStep(a: seq<Block>, oc: seq<nat>, p0: int, k: nat,
                 blocks: seq<Block>, chain: seq<nat>, head: nat, tail: nat, p: int)
    requires Chained(blocks, chain, head, tail) && Retired(blocks, a)
    requires forall j | 0 <= j < |oc| :: oc[j] < |a|
    requires k <= |oc| && chain == oc[k..] && tail != 0
    requires p == p0 - LenSum(a, oc[..k]) && p >= blocks[tail - 1].len
    requires Drained(a, oc, p0) == k + Drained(a, chain, p)
    ensures tail - 1 == chain[0] && k < |oc|
    ensures var t := tail - 1;
      && Chained(blocks[t := blocks[t].(active := false)], chain[1..], head, blocks[t].next)
      && Retired(blocks[t := blocks[t].(active := false)], a)
      && chain[1..] == oc[k + 1..]
      && p - blocks[t].len == p0 - LenSum(a, oc[..k + 1])
      && Drained(a, oc, p0) == k + 1 + Drained(a, chain[1..], p - blocks[t].len)
  {
    var t := tail - 1;
    RetireKeepsChain(blocks, chain, head, tail);
    RetireSame(blocks, a, t);
    assert oc[k] == t && oc[..k + 1][..k] == oc[..k];
    assert oc[k..][1..] == oc[k + 1..];
  }

  /** Arenas with the same arrays slot by slot have distinct arrays together. */
  lemma RetiredDistinct(a: seq<Block>, b: seq<Block>)
    requires Retired(a, b) && DistinctBuffers(b)
    ensures DistinctBuffers(a)
  {
  }

  lemma RetireSame(blocks: seq<Block>, a: seq<Block>, t: nat)
    requires t < |blocks| && Retired(blocks, a)
    ensures Retired(blocks[t := blocks[t].(active := false)], a)
  {
  }

  /** The total length of the blocks in `slots`. */
  ghost function LenSum(blocks: seq<Block>, slots: seq<nat>): int
    requires forall k | 0 <= k < |slots| :: slots[k] < |blocks|
  {
    if slots == [] then 0 else LenSum(blocks, slots[..|slots| - 1]) + blocks[slots[|slots| - 1]].len
  }

  /** How many blocks, from the front of `chain`, a freed count of `p` bytes
      covers completely. */
  ghost function Drained(blocks: seq<Block>, chain: seq<nat>, p: int): nat
    requires forall k | 0 <= k < |chain| :: chain[k] < |blocks|
  {
    if chain == [] || p < blocks[chain[0]].len then 0
    else 1 + Drained(blocks, chain[1..], p - blocks[chain[0]].len)
  }

  /** Freeing `p0` bytes from the front of `chain` drained its first blocks
      and left `rest` on the chain, with `p` bytes freed inside its tail. */
  ghost predicate Freed(blocks: seq<Block>, chain: seq<nat>, p0: int, rest: seq<nat>, p: int)
    requires forall k | 0 <= k < |chain| :: chain[k] < |blocks|
  {
    var k := Drained(blocks, chain, p0);
    && k <= |chain| && rest == chain[k..]
    && p == p0 - LenSum(blocks, chain[..k])
  }

  /** Freeing stopped: the chain is empty, or the freed count `p` falls short
      of the tail block's length. */
  ghost predicate Stopped(blocks: seq<Block>, chain: seq<nat>, tail: nat, p: int) {
    chain == [] || (0 < tail <= |blocks| && p < blocks[tail - 1].len)
  }

  /** Draining stops at the first block the remaining count does not cover:
      every drained block was covered, and the block after them, if any, is
      longer than what is left. */
  lemma {:induction false} DrainedStops(blocks: seq<Block>, chain: seq<nat>, p: int)
    requires forall k | 0 <= k < |chain| :: chain[k] < |blocks|
    ensures Drained(blocks, chain, p) <= |chain|
    ensures var k := Drained(blocks, chain, p);
      k < |chain| ==> p - LenSum(blocks, chain[..k]) < blocks[chain[k]].len
  {
    if chain != [] && p >= blocks[chain[0]].len {
      var b0 := blocks[chain[0]].len;
      DrainedStops(blocks, chain[1..], p - b0);
      var k := Drained(blocks, chain, p);
      if k < |chain| {
        LenSumFront(blocks, chain, k);
      }
    }
  }

  /** The length of a prefix, split after its first block. */
  lemma {:induction false} LenSumFront(blocks: seq<Block>, chain: seq<nat>, k: nat)
    requires forall j | 0 <= j < |chain| :: chain[j] < |blocks|
    requires 0 < k <= |chain|
    ensures LenSum(blocks, chain[..k]) == blocks[chain[0]].len + LenSum(blocks, chain[1..][..k - 1])
  {
    if k > 1 {
      LenSumFront(blocks, chain, k - 1);
      assert chain[..k][..k - 1] == chain[..k - 1];
      assert chain[1..][..k - 1][..k - 2] == chain[1..][..k - 2];
    } else {
      assert chain[..k][..0] == [];
    }
  }

  class BufferPool {
    var pool: seq<Block>
    var head: nat
    var tail: nat
    var pos: int
    /** The active slots, from tail to head. */
    ghost var Chain: seq<nat>
    /** Every array the arena may hold: the pool's footprint. */
    ghost var Arrays: set<array<byte>>

    ghost predicate Valid()
      reads this
    {
      && Chained(pool, Chain, head, tail)
      && (Chain == [] ==> head == 0)
      && DistinctBuffers(pool)
      && (forall s | 0 <= s < |pool| :: pool[s].buf in Arrays)
    }

    /** The zero BufferPool: no blocks, no chain. */
    constructor ()
      ensures Valid() && pool == [] && Chain == [] && head == 0 && tail == 0 && pos == 0
      ensures Arrays == {}
    {
      pool, head, tail, pos := [], 0, 0, 0;
      Chain, Arrays := [], {};
    }

    /** `swap(oldBuf[:oldLen], size)`: hands out an empty buffer of capacity at
        least `size` and parks the retired `oldBuf` on the chain. The buffer is
        the first free block that fits; failing that, `oldBuf` itself when the
        chain is empty and all of its `oldLen` bytes are freed; failing that, a
        new block of exactly `size` bytes. */
    method Swap(oldBuf: array<byte>, oldLen: nat, size: nat) returns (newBuf: array<byte>)
      requires Valid() && oldLen <= oldBuf.Length && oldBuf !in Arrays
      modifies this
      ensures Valid()
      ensures size <= newBuf.Length && newBuf !in Arrays
      ensures var f := FirstFit(old(pool), size);
        f < |old(pool)| ==>
          && newBuf == old(pool)[f].buf
          && pool == Link(old(pool), old(head), f, Block(oldBuf, oldLen, 0, true))
          && Chain == old(Chain) + [f] && pos == old(pos)
      ensures FirstFit(old(pool), size) == |old(pool)| && old(tail) == 0 && old(pos) >= oldLen && size <= oldBuf.Length ==>
          && newBuf == oldBuf
          && pool == old(pool) && Chain == old(Chain) == [] && head == tail == 0
          && pos == old(pos) - oldLen
      ensures FirstFit(old(pool), size) == |old(pool)| && !(old(tail) == 0 && old(pos) >= oldLen && size <= oldBuf.Length) ==>
          && fresh(newBuf) && newBuf.Length == size
          && pool == Link(old(pool), old(head), |old(pool)|, Block(oldBuf, oldLen, 0, true))
          && Chain == old(Chain) + [|old(pool)|] && pos == old(pos)
      ensures newBuf != oldBuf ==>
        && head == Chain[|Chain| - 1] + 1
        && tail == (if old(tail) == 0 then head else old(tail))
      ensures newBuf == oldBuf || fresh(newBuf) || newBuf in old(Arrays)
      ensures forall s | 0 <= s < |old(pool)| && old(pool)[s].active :: old(pool)[s].buf != newBuf
      ensures Arrays <= old(Arrays) + {oldBuf}
      ensures newBuf == oldBuf <==>
        FirstFit(old(pool), size) == |old(pool)| && old(tail) == 0 && old(pos) >= oldLen && size <= oldBuf.Length
      ensures newBuf != oldBuf ==>
        && Chain == old(Chain) + [head - 1] && head > 0 && pool[head - 1] == Block(oldBuf, oldLen, 0, true)
        && pos == old(pos)
      ensures KeepsActive(old(pool), pool)
    {
      var swap := FindFree(pool, size);
      if swap == -1 && tail == 0 && pos >= oldLen && size <= oldBuf.Length {
        // no block is on the chain and oldBuf is entirely freed: reuse it
        pos := pos - oldLen;
        return oldBuf;
      }
      var slot := swap;
      if swap == -1 {
        // allocate a new block, in a new slot
        newBuf := new byte[size];
        slot := |pool|;
      } else {
        newBuf := pool[swap].buf;
      }

      // put the retired buffer into the pool, as the new head
      Park(oldBuf, oldLen, slot);
    }

    /** The end of `swap`: the retired buffer takes slot `slot` (a free one,
        or a new one at the end) as the new head of the chain. */
    method Park(oldBuf: array<byte>, oldLen: nat, slot: nat)
      requires Valid() && oldBuf !in Arrays
      requires slot <= |pool| && (slot < |pool| ==> !pool[slot].active)
      modifies this
      ensures Valid()
      ensures pool == Link(old(pool), old(head), slot, Block(oldBuf, oldLen, 0, true))
      ensures Chain == old(Chain) + [slot] && head == slot + 1 && pool[slot] == Block(oldBuf, oldLen, 0, true)
      ensures tail == (if old(tail) == 0 then slot + 1 else old(tail)) && pos == old(pos)
      ensures Arrays == old(Arrays) - (if slot < |old(pool)| then {old(pool)[slot].buf} else {}) + {oldBuf}
    {
      var blocks := Link(pool, head, slot, Block(oldBuf, oldLen, 0, true));
      var t := if tail == 0 then slot + 1 else tail;
      ghost var chain := Chain + [slot];
      ghost var arrays := Arrays - (if slot < |pool| then {pool[slot].buf} else {}) + {oldBuf};
      LinkKeepsChain(pool, Chain, head, tail, slot, oldBuf, oldLen);
      LinkSlots(pool, head, slot, Block(oldBuf, oldLen, 0, true), Arrays);
      pool, head, tail := blocks, slot + 1, t;
      Chain, Arrays := chain, arrays;
    }

    /** `free(n)`: `n` more bytes will never be looked at again. Retires, from
        the tail, every block those bytes cover completely; stops with the
        chain empty or with fewer freed bytes than the tail block holds. */
    method Free(n: int)
      requires Valid()
      modifies this
      ensures Valid()
      ensures Freed(old(pool), old(Chain), old(pos) + n, Chain, pos)
      ensures Retired(pool, old(pool)) && Arrays == old(Arrays)
      ensures Stopped(pool, Chain, tail, pos)
    {
      var blocks, h, t, p, rest := Drain(pool, Chain, head, tail, pos + n);
      RetiredDistinct(blocks, pool);
      pool, head, tail, pos := blocks, h, t, p;
      Chain := rest;
    }
  }

  /** The search loop of `swap`: the first slot whose block is inactive and
      large enough, or -1. */
  method FindFree(blocks: seq<Block>, size: int) returns (swap: int)
    ensures swap == if FirstFit(blocks, size) < |blocks| then FirstFit(blocks, size) else -1
  {
    swap := -1;
    var i := 0;
    while i < |blocks|
      invariant 0 <= i <= |blocks| && swap == -1
      invariant forall j | 0 <= j < i :: !Fits(blocks[j], size)
    {
      if Fits(blocks[i], size) {
        swap := i;
        break;
      }
      i := i + 1;
    }
  }

  /** The loop of `free`, on the arena's value: while the freed count `p`
      covers the tail block, retire that block, subtract its length and move
      the tail to the block it links to; an emptied chain resets `head`. */
  method Drain(blocks: seq<Block>, ghost chain: seq<nat>, head: nat, tail: nat, p0: int)
    returns (r: seq<Block>, h: nat, t: nat, p: int, ghost rest: seq<nat>)
    requires Chained(blocks, chain, head, tail) && (chain == [] ==> head == 0)
    ensures Freed(blocks, chain, p0, rest, p)
    ensures Chained(r, rest, h, t) && (rest == [] ==> h == 0)
    ensures Retired(r, blocks)
    ensures Stopped(r, rest, t, p)
  {
    DrainedStops(blocks, chain, p0);
    r, t, p := blocks, tail, p0;
    rest := chain;
    ghost var k := 0;
    // move the tail over to the next blocks
    while t != 0 && p >= r[t - 1].len
      invariant Chained(r, rest, head, t) && Retired(r, blocks)
      invariant if rest == [] then t == 0 else t == rest[0] + 1
      invariant 0 <= k <= |chain| && rest == chain[k..]
      invariant p == p0 - LenSum(blocks, chain[..k])
      invariant Drained(blocks, chain, p0) == k + Drained(blocks, rest, p)
      decreases |rest|
    {
      FreeStep(blocks, chain, p0, k, r, rest, head, t, p);
      var b := r[t - 1];
      p := p - b.len;
      r := r[t - 1 := b.(active := false)];
      t := b.next;
      rest, k := rest[1..], k + 1;
    }
    assert Drained(blocks, rest, p) == 0;
    h := if t == 0 then 0 else head;
  }

  /** A block that `free` has drained is handed out again by the next `swap`
      of no more than its capacity, or an earlier free block is: no new block
      is allocated. */
  lemma DrainedBlockIsReused(blocks: seq<Block>, s: nat, size: int)
    requires s < |blocks| && !blocks[s].active && size <= blocks[s].buf.Length
    ensures FirstFit(blocks, size) <= s < |blocks|
  {
  }
}
