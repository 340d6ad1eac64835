// The transaction arena as the linked structure the program builds: blocks owning byte
// buffers, doubly linked, with head, roving tail and growth size updated in place.
module MemPools {
  import opened CTypes
  import opened PoolSpec

  class Block {
    const buff: array<byte>
    var used: nat
    var prev: Block?
    var next: Block?

    constructor (size: nat)
      ensures buff.Length == size && used == 0 && prev == null && next == null
      ensures fresh(buff)
    {
      buff := new byte[size];
      used, prev, next := 0, null, null;
    }

    // memblock_alloc: zeroes and claims the next n bytes; -1 when they are not there.
    method Claim(n: nat) returns (offset: int)
      requires used <= buff.Length
      modifies this`used, buff
      ensures offset == if old(buff.Length - used) < n then -1 else old(used)
      ensures used == (if offset < 0 then old(used) else old(used) + n) <= buff.Length
      ensures buff[..used] == old(buff[..used]) + if offset < 0 then [] else Zeros(n)
    {
      if buff.Length - used < n {
        return -1;
      }
      offset := used;
      forall k | used <= k < used + n {
        buff[k] := 0;
      }
      used := used + n;
    }
  }

  // A pointer into a block, with the number of bytes behind it; Null for a failed request.
  datatype Mem = Null | Mem(block: Block, offset: nat, len: nat)

  // The well-formedness of a list of blocks, in parts that depend on as little as possible.

  ghost predicate Distinct(bs: seq<Block>) {
    forall i, j :: 0 <= i < j < |bs| ==> bs[i] != bs[j]
  }

  ghost predicate OwnBuffers(bs: seq<Block>) {
    forall i, j :: 0 <= i < j < |bs| ==> bs[i].buff != bs[j].buff
  }

  ghost function At(bs: seq<Block>, i: int): Block? {
    if 0 <= i < |bs| then bs[i] else null
  }

  ghost predicate Linked(bs: seq<Block>)
    reads bs`prev, bs`next
  {
    && Distinct(bs)
    && (forall i {:trigger bs[i].prev} :: 0 <= i < |bs| ==>
          bs[i].prev == if i == 0 then null else bs[i - 1])
    && (forall i {:trigger bs[i].next} :: 0 <= i < |bs| ==>
          bs[i].next == if i + 1 == |bs| then null else bs[i + 1])
  }

  ghost predicate Shaped(bs: seq<Block>, shapes: seq<BlockS>)
    reads bs`used
  {
    |bs| == |shapes| && forall i :: 0 <= i < |bs| ==> shapes[i] == BlockS(bs[i].buff.Length, bs[i].used)
  }

  // `contents` are the bytes handed out, block by block.
  ghost predicate Holds(bs: seq<Block>, contents: seq<seq<byte>>)
    reads bs`used, set b | b in bs :: b.buff
  {
    && |contents| == |bs|
    && forall i :: 0 <= i < |bs| ==>
         bs[i].used <= bs[i].buff.Length && contents[i] == bs[i].buff[..bs[i].used]
  }

  // `contents` with more bytes at the end of block i.
  ghost function Extend(contents: seq<seq<byte>>, i: nat, bytes: seq<byte>): seq<seq<byte>>
    requires i < |contents|
  {
    contents[i := contents[i] + bytes]
  }

  lemma BlockAt(bs: seq<Block>, shapes: seq<BlockS>, contents: seq<seq<byte>>, k: nat)
    requires Linked(bs) && Shaped(bs, shapes) && Holds(bs, contents) && k < |bs|
    ensures |shapes| == |bs| == |contents|
    ensures bs[k].buff.Length == shapes[k].cap && bs[k].used == shapes[k].used <= shapes[k].cap
    ensures contents[k] == bs[k].buff[..bs[k].used]
    ensures bs[k].next == At(bs, k + 1)
  {}

  lemma Next(bs: seq<Block>, k: nat)
    requires Linked(bs) && k < |bs|
    ensures bs[k].next == At(bs, k + 1)
  {}

  lemma Neighbours(bs: seq<Block>, k: nat)
    requires Linked(bs) && 0 < k < |bs|
    ensures bs[k] != bs[k - 1]
  {}

  lemma SameLength(bs: seq<Block>, shapes: seq<BlockS>, contents: seq<seq<byte>>)
    requires Shaped(bs, shapes) && Holds(bs, contents)
    ensures |shapes| == |bs| == |contents|
  {}

  // Adding a fresh, empty block at the end.
  lemma OneMore(bs: seq<Block>, shapes: seq<BlockS>, contents: seq<seq<byte>>, block: Block)
    requires OwnBuffers(bs) && Shaped(bs, shapes) && Holds(bs, contents) && block.used == 0
    requires forall i :: 0 <= i < |bs| ==> bs[i].buff != block.buff
    ensures OwnBuffers(bs + [block])
    ensures Shaped(bs + [block], shapes + [BlockS(block.buff.Length, 0)])
    ensures Holds(bs + [block], contents + [[]])
  {}

  lemma Apart(bs: seq<Block>, k: nat)
    requires Distinct(bs) && OwnBuffers(bs) && k < |bs|
    ensures forall i | 0 <= i < |bs| && i != k :: bs[i] != bs[k] && bs[i].buff != bs[k].buff
  {}

  // What is known of every block but the k-th.
  ghost predicate Rest(bs: seq<Block>, shapes: seq<BlockS>, contents: seq<seq<byte>>, k: nat)
    reads set i | 0 <= i < |bs| && i != k :: bs[i]
    reads set i | 0 <= i < |bs| && i != k :: bs[i].buff
  {
    && |shapes| == |bs| == |contents|
    && forall i | 0 <= i < |bs| && i != k ::
         && shapes[i] == BlockS(bs[i].buff.Length, bs[i].used)
         && bs[i].used <= bs[i].buff.Length && contents[i] == bs[i].buff[..bs[i].used]
  }

  lemma ToRest(bs: seq<Block>, shapes: seq<BlockS>, contents: seq<seq<byte>>, k: nat)
    requires Shaped(bs, shapes) && Holds(bs, contents)
    ensures Rest(bs, shapes, contents, k)
  {}

  lemma FromRest(bs: seq<Block>, shapes: seq<BlockS>, contents: seq<seq<byte>>, k: nat, c: seq<byte>)
    requires Rest(bs, shapes, contents, k) && k < |bs|
    requires bs[k].used <= bs[k].buff.Length && c == bs[k].buff[..bs[k].used]
    ensures Shaped(bs, shapes[k := BlockS(bs[k].buff.Length, bs[k].used)])
    ensures Holds(bs, contents[k := c])
  {}

  lemma Capacities(bs: seq<Block>, shapes: seq<BlockS>)
    requires Shaped(bs, shapes)
    ensures |shapes| == |bs| && forall i :: 0 <= i < |bs| ==> shapes[i].cap == bs[i].buff.Length
  {}

  lemma Emptied(bs: seq<Block>, shapes: seq<BlockS>, contents: seq<seq<byte>>)
    requires |shapes| == |bs| == |contents|
    requires forall i :: 0 <= i < |bs| ==>
               bs[i].used == 0 && shapes[i] == BlockS(bs[i].buff.Length, 0) && contents[i] == []
    ensures Shaped(bs, shapes) && Holds(bs, contents)
  {}

  lemma SpliceDistinct(bs: seq<Block>, src: Block, i: nat)
    requires Distinct(bs) && src !in bs && i <= |bs|
    ensures Distinct(bs[..i] + [src] + bs[i..])
  {}

  // mempool_insert: splices `src` next to `dst` (after or before), or makes it a list of its
  // own when `dst` is null.  `i` is the place where it ends up.
  method Insert(dst: Block?, src: Block, after: bool, ghost bs: seq<Block>, ghost i: nat)
    requires Linked(bs) && src !in bs && i <= |bs|
    requires dst == null ==> bs == []
    requires dst != null && after ==> i > 0 && dst == bs[i - 1]
    requires dst != null && !after ==> i < |bs| && dst == bs[i]
    modifies src`prev, src`next, bs`prev, bs`next
    ensures Linked(bs[..i] + [src] + bs[i..])
  {
    SpliceDistinct(bs, src, i);
    var other: Block? := null;
    if after {
      if dst != null {
        other := dst.next;
        dst.next := src;
      }
      src.prev, src.next := dst, other;
      if other != null {
        other.prev := src;
      }
    } else {
      if dst != null {
        other := dst.prev;
        dst.prev := src;
      }
      src.prev, src.next := other, dst;
      if other != null {
        other.next := src;
      }
    }
  }

  // What is left without the i-th block, place by place.
  lemma Removed(bs: seq<Block>, i: nat)
    requires Distinct(bs) && i < |bs|
    ensures var rest := bs[..i] + bs[i + 1..];
            && Distinct(rest) && bs[i] !in rest
            && forall k :: 0 <= k < |rest| ==> rest[k] == bs[if k < i then k else k + 1]
  {}

  // mempool_remove: unlinks the block and answers its old successor.
  method Remove(block: Block, ghost bs: seq<Block>, ghost i: nat) returns (next: Block?)
    requires Linked(bs) && i < |bs| && block == bs[i]
    modifies bs`prev, bs`next
    ensures Linked(bs[..i] + bs[i + 1..]) && Linked([block])
    ensures next == if i + 1 == |bs| then null else bs[i + 1]
  {
    Removed(bs, i);
    hide Distinct;
    var before := block.prev;
    next := block.next;
    if before != null {
      before.next := next;
    }
    if next != null {
      next.prev := before;
    }
    block.prev, block.next := null, null;
  }

  // mempool_append: walks to the last block and splices there.
  method AppendLast(dst: Block?, src: Block, ghost bs: seq<Block>, ghost i: nat)
    requires Linked(bs) && src !in bs
    requires if dst == null then bs == [] else i < |bs| && dst == bs[i]
    modifies src`prev, src`next, bs`prev, bs`next
    ensures Linked(bs + [src])
  {
    if dst == null {
      src.prev, src.next := null, null;
      return;
    }
    var cur: Block := dst;
    ghost var k := i;
    while cur.next != null
      invariant i <= k < |bs| && cur == bs[k]
      decreases |bs| - k
    {
      cur, k := cur.next, k + 1;
    }
    Insert(cur, src, true, bs, |bs|);
    assert bs[..|bs|] + [src] + bs[|bs|..] == bs + [src];
  }

  class MemPool {
    var head: Block?
    var tail: Block?
    var initSize: nat
    var growSize: nat
    ghost var Blocks: seq<Block>         // the list
    ghost var State: PoolS               // the pool as a value
    ghost var Contents: seq<seq<byte>>   // the bytes handed out so far, block by block

    ghost predicate Valid()
      reads this, Blocks, Buffers()
    {
      && Linked(Blocks) && OwnBuffers(Blocks)
      && Shaped(Blocks, State.blocks) && Holds(Blocks, Contents)
      && ValidPool(State) && State.initSize == initSize
      && head == At(Blocks, 0) && tail == At(Blocks, State.tail)
    }

    ghost function Buffers(): set<array<byte>>
      reads this, Blocks
    {
      set b | b in Blocks :: b.buff
    }

    constructor (size: nat)
      requires size < TWO_32
      ensures Valid() && Blocks == [] && State == EmptyPool(Max(size, 32))
    {
      initSize := if size < MEMPOOL_MIN_SIZE then MEMPOOL_MIN_SIZE else size;
      growSize := 1024;
      head, tail, Blocks, Contents := null, null, [], [];
      State := EmptyPool(Max(size, MEMPOOL_MIN_SIZE));
    }

    // `moves` counts how often the tail is set to another block.
    method CheckIdleSize(n: nat) returns (ok: bool, ghost moves: nat)
      requires Valid() && n < TWO_32
      modifies this`tail, this`State
      ensures Valid() && (State, ok) == CheckIdle(old(State), n)
      ensures moves == TailMoves(old(State), n)
    {
      hide CheckIdle, Linked, OwnBuffers, Shaped, Holds, ValidPool;
      ghost var k: int, p := State.tail, State;
      PoolBounds(p);
      SameLength(Blocks, p.blocks, Contents);
      var block: Block? := tail;
      ok, moves := false, 0;
      while block != null && !ok
        invariant State == p.(tail := State.tail) && tail == At(Blocks, State.tail)
        invariant p.tail <= k <= |Blocks| && (p.tail < 0 ==> k == p.tail)
        invariant State.tail == if k == p.tail || ok then k else k - 1
        invariant moves == if p.tail < 0 then 0 else State.tail - p.tail
        invariant ok ==> 0 <= k < |Blocks| && Idle(p.blocks[k]) >= n
        invariant block == At(Blocks, k)
        invariant forall j :: 0 <= p.tail <= j < k ==> Idle(p.blocks[j]) < n
        decreases |Blocks| - k, !ok
      {
        BlockAt(Blocks, p.blocks, Contents, k);
        if k > p.tail { Neighbours(Blocks, k); }
        moves := if tail == block then moves else moves + 1;
        tail, State := block, State.(tail := k);
        if block.buff.Length - block.used >= n {
          ok := true;
        } else {
          block, k := block.next, k + 1;
        }
      }
      if ok {
        CheckIdleStops(p, n, k);
      } else {
        CheckIdleFails(p, n);
      }
    }

    // append_memblock, first half: the size to ask malloc for, with the 32-bit sums as the
    // code computes them.
    method NextSize(n: nat) returns (size: nat)
      requires Valid() && State.tail == |Blocks| - 1
      modifies this`growSize
      ensures Valid() && size == SIZEOF_BLOCK + NewCapacity(State, n)
    {
      hide Linked, OwnBuffers, Holds;
      size := U32(SIZEOF_BLOCK + n);
      if tail == null {
        if size < initSize { size := initSize; }
      } else {
        growSize := U32(SIZEOF_BLOCK + 2 * tail.buff.Length);
        if size < growSize { size := growSize; }
      }
      if size < SIZEOF_BLOCK { size := SIZEOF_BLOCK; }
    }

    // The list starts with `was` and goes on with new blocks.
    twostate predicate Extends(was: seq<Block>)
      reads this
    {
      && was <= Blocks
      && forall i | |was| <= i < |Blocks| :: fresh(Blocks[i]) && fresh(Blocks[i].buff)
    }

    // append_memblock; `heap` is malloc's answer.
    method AppendMemblock(n: nat, heap: bool) returns (ok: bool)
      requires Valid() && State.tail == |Blocks| - 1
      modifies this, Blocks`prev, Blocks`next
      ensures Valid() && ok == heap && Extends(old(Blocks))
      ensures State == if heap then Append(old(State), n) else old(State)
      ensures Contents == if heap then old(Contents) + [[]] else old(Contents)
    {
      hide Linked, OwnBuffers, Shaped, Holds, ValidPool, Append, NewCapacity;
      SameLength(Blocks, State.blocks, Contents);
      AppendFacts(State, n);
      ghost var q := Append(State, n);
      var size := NextSize(n);
      ok := heap;
      if heap {
        var block := new Block(size - SIZEOF_BLOCK);
        Link(block, q);
      }
    }

    // append_memblock, last step: the new block becomes the tail (and the head of an empty list).
    method Link(block: Block, ghost q: PoolS)
      requires Valid() && State.tail == |Blocks| - 1 && block !in Blocks && block.used == 0
      requires forall i :: 0 <= i < |Blocks| ==> Blocks[i].buff != block.buff
      requires ValidPool(q) && q.initSize == initSize && q.tail == |Blocks|
      requires q.blocks == State.blocks + [BlockS(block.buff.Length, 0)]
      modifies this`head, this`tail, this`Blocks, this`State, this`Contents
      modifies block`prev, block`next, Blocks`prev, Blocks`next
      ensures Valid() && Blocks == old(Blocks) + [block] && State == q
      ensures Contents == old(Contents) + [[]]
    {
      hide Linked, OwnBuffers, Shaped, Holds, ValidPool;
      ghost var bs, more, bytes := Blocks, Blocks + [block], Contents + [[]];
      assert bs[..|bs|] + [block] + bs[|bs|..] == more;
      OneMore(bs, State.blocks, Contents, block);
      Insert(tail, block, true, bs, |bs|);
      assert Shaped(more, q.blocks) && Holds(more, bytes);
      if tail == null {
        head := block;
      }
      tail, Blocks, State, Contents := block, more, q, bytes;
    }

    // Where a value-level region lies in memory.
    ghost function Place(r: Option<Region>): Mem
      reads this`Blocks
    {
      if r.Some? && r.value.block < |Blocks|
      then Mem(Blocks[r.value.block], r.value.offset, r.value.len)
      else Null
    }

    // memblock_alloc on the tail block.
    method ClaimTail(n: nat) returns (m: Mem)
      requires Valid() && tail != null
      modifies this`State, this`Contents, tail`used, tail.buff
      ensures Valid()
      ensures State == Take(old(State), n).0 && m == Place(Take(old(State), n).1)
      ensures Contents == if m.Null? then old(Contents)
                          else Extend(old(Contents), old(State).tail, Zeros(n))
    {
      hide OwnBuffers, Shaped, Holds, ValidPool, Rest, Take;
      ghost var bs, p, k := Blocks, State, State.tail;
      PoolBounds(p);
      Apart(bs, k);
      ToRest(bs, p.blocks, Contents, k);
      BlockAt(bs, p.blocks, Contents, k);
      TakeParts(p, n);
      var offset := tail.Claim(n);
      ghost var c := tail.buff[..tail.used];
      FromRest(bs, p.blocks, Contents, k, c);
      assert c == if offset < 0 then Contents[k] else Contents[k] + Zeros(n);
      assert offset < 0 ==> Contents[k := c] == Contents;
      State, Contents := Take(p, n).0, Contents[k := c];
      m := if offset < 0 then Null else Mem(tail, offset, n);
    }

    // What alloc does to the bytes handed out: possibly one more, empty, block, then n zeros.
    static ghost function Allocated(contents: seq<seq<byte>>, q: PoolS, r: Option<Region>)
      : seq<seq<byte>>
    {
      var longer := if |contents| < |q.blocks| then contents + [[]] else contents;
      if r.Some? && r.value.block < |longer|
      then Extend(longer, r.value.block, Zeros(r.value.len)) else longer
    }

    lemma Lengths()
      requires Valid()
      ensures ValidPool(State)
      ensures |State.blocks| == |Blocks| == |Contents| && -1 <= State.tail < |Blocks|
      ensures State.tail >= 0 ==> tail == Blocks[State.tail]
    {}

    lemma Sizes()
      requires Valid()
      ensures forall i :: 0 <= i < |Contents| == |State.blocks| ==> |Contents[i]| == State.blocks[i].used
    {}

    // What the value-level contents say is what is in memory.
    lemma InMemory(k: nat)
      requires Valid() && k < |Contents| == |Blocks|
      ensures Blocks[k].used <= Blocks[k].buff.Length
      ensures Contents[k] == Blocks[k].buff[..Blocks[k].used]
    {}

    // alloc, first half: find room or append a block.
    method Prepare(n: nat, heap: bool) returns (ok: bool, ghost moves: nat)
      requires Valid()
      modifies this, Blocks`prev, Blocks`next
      ensures Valid() && (State, ok) == PoolSpec.Prepare(old(State), n, heap)
      ensures Contents == Allocated(old(Contents), State, None) && Extends(old(Blocks))
      ensures moves == TailMoves(old(State), n)
    {
      hide Valid, ValidPool, CheckIdle, Append;
      Lengths();
      CheckIdleTruncates(State, n);
      ok, moves := CheckIdleSize(U32(n));
      if !ok {
        Lengths();
        AppendFacts(State, n);
        ok := AppendMemblock(n, heap);
      }
    }

    // alloc: nothing handed out earlier changes, the new bytes are zero, and blocks and region
    // are those of the value-level arena.
    method Alloc(n: nat, heap: bool) returns (m: Mem, ghost moves: nat)
      requires Valid() && n > 0
      modifies this, Blocks, Buffers()
      ensures Valid() && Extends(old(Blocks))
      ensures var (q, r) := PoolSpec.Alloc(old(State), n, heap);
              State == q && m == Place(r) && Contents == Allocated(old(Contents), q, r)
      ensures moves == TailMoves(old(State), n)
    {
      hide Valid, PoolSpec.Prepare, Take, PoolSpec.Alloc, ValidPool;
      Lengths();
      AllocParts(old(State), n, heap);
      var ok;
      ok, moves := Prepare(n, heap);
      m := Null;
      if ok {
        Lengths();
        TakeParts(State, n);
        assert State.tail < |old(Blocks)| ==> tail.buff in old(Buffers());
        m := ClaimTail(n);
      }
    }

    // memcpy into memory handed out earlier.
    method Store(block: Block, ghost k: nat, at: nat, bytes: seq<byte>)
      requires Valid() && k < |Blocks| == |Contents| && block == Blocks[k]
      requires at + |bytes| <= |Contents[k]|
      modifies this`Contents, block.buff
      ensures Valid() && Contents == old(Contents)[k := Put(old(Contents)[k], at, bytes)]
    {
      hide OwnBuffers, Shaped, Holds, ValidPool, Rest;
      ghost var bs, p, c := Blocks, State, Put(Contents[k], at, bytes);
      Apart(bs, k);
      ToRest(bs, p.blocks, Contents, k);
      BlockAt(bs, p.blocks, Contents, k);
      CopyInto(block.buff, at, bytes);
      FromRest(bs, p.blocks, Contents, k, c);
      Contents := Contents[k := c];
    }

    // free: every block empties, memory and list stay, the tail returns to the head.
    method Free()
      requires Valid()
      modifies this`tail, this`State, this`Contents, Blocks`used
      ensures Valid() && State == PoolSpec.Free(old(State))
    {
      hide Linked, OwnBuffers, Shaped, Holds, ValidPool;
      ghost var bs, p := Blocks, State;
      SameLength(bs, p.blocks, Contents);
      Capacities(bs, p.blocks);
      var block := head;
      ghost var k := 0;
      while block != null
        invariant Linked(bs) && 0 <= k <= |bs| && State == p && Blocks == bs && block == At(bs, k)
        invariant forall i :: 0 <= i < k ==> bs[i].used == 0
        decreases |bs| - k
      {
        Next(bs, k);
        block.used := 0;
        block, k := block.next, k + 1;
      }
      tail, State, Contents := head, PoolSpec.Free(State), seq(|Blocks|, _ => []);
      Emptied(bs, State.blocks, Contents);
    }
  }
}
