// The transaction arena on values: a list of blocks, a roving tail and the effect of
// `alloc` and `free` on them.  The class MemPool is proved to behave as described here.
module PoolSpec {
  import opened CTypes

  const SIZEOF_BLOCK: int := 32        // sizeof(st_memblock) on LP64
  const MEMPOOL_MIN_SIZE: int := 32
  const MEMPOOL_INIT_SIZE: int := 4096
  const MAX_CAPACITY: int := TWO_32 - 1 - SIZEOF_BLOCK

  datatype BlockS = BlockS(cap: nat, used: nat)

  // `tail` is the index of m_tail_ptr's block, -1 for a null pointer.
  datatype PoolS = PoolS(blocks: seq<BlockS>, tail: int, initSize: nat)

  // Bytes [offset, offset + len) of one block.
  datatype Region = Region(block: nat, offset: nat, len: nat)

  predicate ValidPool(p: PoolS) {
    && MEMPOOL_MIN_SIZE <= p.initSize < TWO_32
    && (p.blocks == [] <==> p.tail == -1)
    && -1 <= p.tail < |p.blocks|
    && (forall i :: 0 <= i < |p.blocks| ==> p.blocks[i].used <= p.blocks[i].cap <= MAX_CAPACITY)
    && (forall i :: p.tail < i < |p.blocks| ==> p.blocks[i].used == 0)
  }

  lemma PoolBounds(p: PoolS)
    requires ValidPool(p)
    ensures -1 <= p.tail < |p.blocks| && (p.blocks == [] <==> p.tail == -1)
  {}

  function EmptyPool(initSize: nat): PoolS {
    PoolS([], -1, initSize)
  }

  function Idle(b: BlockS): int { b.cap - b.used }

  // First block at or after `from` with `n` idle bytes; |blocks| when there is none.
  function Seek(blocks: seq<BlockS>, from: nat, n: nat): (i: nat)
    requires from <= |blocks|
    ensures from <= i <= |blocks|
    ensures i < |blocks| ==> Idle(blocks[i]) >= n
    ensures forall j :: from <= j < i ==> Idle(blocks[j]) < n
    decreases |blocks| - from
  {
    if from == |blocks| || Idle(blocks[from]) >= n then from else Seek(blocks, from + 1, n)
  }

  // check_idle_size: the tail walks to the first block with room, else to the last block.
  function CheckIdle(p: PoolS, n: nat): (r: (PoolS, bool))
    requires ValidPool(p)
    ensures ValidPool(r.0) && r.0.blocks == p.blocks && r.0.initSize == p.initSize
    ensures p.tail <= r.0.tail
    ensures r.1 ==> p.blocks != [] && Idle(p.blocks[r.0.tail]) >= U32(n)
    ensures !r.1 ==> r.0.tail == |p.blocks| - 1
  {
    var i := Seek(p.blocks, Max(p.tail, 0), U32(n));
    if i < |p.blocks| then (p.(tail := i), true) else (p.(tail := |p.blocks| - 1), false)
  }

  // How many times check_idle_size moves m_tail_ptr to another block.
  function TailMoves(p: PoolS, n: nat): nat
    requires ValidPool(p)
  {
    if p.tail < 0 then 0 else CheckIdle(p, n).0.tail - p.tail
  }

  lemma SeekFinds(blocks: seq<BlockS>, from: nat, n: nat, k: nat)
    requires from <= k <= |blocks| && (k < |blocks| ==> Idle(blocks[k]) >= n)
    requires forall j :: from <= j < k ==> Idle(blocks[j]) < n
    ensures Seek(blocks, from, n) == k
  {
    assert !(from <= Seek(blocks, from, n) < k);
  }

  lemma CheckIdleStops(p: PoolS, n: nat, k: nat)
    requires ValidPool(p) && n < TWO_32 && 0 <= p.tail <= k < |p.blocks| && Idle(p.blocks[k]) >= n
    requires forall j :: p.tail <= j < k ==> Idle(p.blocks[j]) < n
    ensures CheckIdle(p, n) == (p.(tail := k), true)
  {
    SeekFinds(p.blocks, p.tail, n, k);
  }

  lemma CheckIdleFails(p: PoolS, n: nat)
    requires ValidPool(p) && n < TWO_32
    requires forall j :: 0 <= p.tail <= j < |p.blocks| ==> Idle(p.blocks[j]) < n
    ensures CheckIdle(p, n) == (p.(tail := |p.blocks| - 1), false)
  {
    SeekFinds(p.blocks, Max(p.tail, 0), n, |p.blocks|);
  }

  // check_idle_size takes an unsigned int.
  lemma CheckIdleTruncates(p: PoolS, n: nat)
    requires ValidPool(p)
    ensures CheckIdle(p, U32(n)) == CheckIdle(p, n)
  {}

  // Payload capacity of the block that append_memblock asks for, 32-bit wrap included.
  function NewCapacity(p: PoolS, n: nat): (cap: nat)
    requires ValidPool(p)
    ensures cap <= MAX_CAPACITY
  {
    var floor := if p.blocks == [] then p.initSize
                 else U32(SIZEOF_BLOCK + 2 * p.blocks[|p.blocks| - 1].cap);
    Max(Max(U32(SIZEOF_BLOCK + n), floor), SIZEOF_BLOCK) - SIZEOF_BLOCK
  }

  function Append(p: PoolS, n: nat): (q: PoolS)
    requires ValidPool(p) && p.tail == |p.blocks| - 1
    ensures ValidPool(q)
  {
    p.(blocks := p.blocks + [BlockS(NewCapacity(p, n), 0)], tail := |p.blocks|)
  }

  lemma AppendFacts(p: PoolS, n: nat)
    requires ValidPool(p) && p.tail == |p.blocks| - 1
    ensures var q := Append(p, n);
            && ValidPool(q) && q.initSize == p.initSize && q.tail == |p.blocks|
            && q.blocks == p.blocks + [BlockS(NewCapacity(p, n), 0)]
  {}

  // memblock_alloc on the tail block.
  function Take(p: PoolS, n: nat): (r: (PoolS, Option<Region>))
    requires ValidPool(p) && p.tail >= 0
    ensures ValidPool(r.0)
  {
    var b := p.blocks[p.tail];
    if Idle(b) < n then (p, None)
    else
      (p.(blocks := p.blocks[p.tail := BlockS(b.cap, b.used + n)]), Some(Region(p.tail, b.used, n)))
  }

  // First half of alloc: find a block with room or append one; `heap` is malloc's answer.
  function Prepare(p: PoolS, n: nat, heap: bool): (r: (PoolS, bool))
    requires ValidPool(p)
    ensures ValidPool(r.0) && (r.1 ==> r.0.tail >= 0)
  {
    var (q, ok) := CheckIdle(p, n);
    if ok then (q, true) else if heap then (Append(q, n), true) else (q, false)
  }

  // `alloc(n)`.
  function Alloc(p: PoolS, n: nat, heap: bool): (r: (PoolS, Option<Region>))
    requires ValidPool(p)
    ensures ValidPool(r.0)
  {
    var (q, ok) := Prepare(p, n, heap);
    if ok then Take(q, n) else (q, None)
  }

  lemma AllocParts(p: PoolS, n: nat, heap: bool)
    requires ValidPool(p)
    ensures var (q, ok) := Prepare(p, n, heap);
            if ok then ValidPool(q) && q.tail >= 0 && Alloc(p, n, heap) == Take(q, n)
            else Alloc(p, n, heap) == (q, None)
  {}

  lemma TakeParts(p: PoolS, n: nat)
    requires ValidPool(p) && p.tail >= 0
    ensures var (q, r) := Take(p, n); var b := p.blocks[p.tail];
            && |q.blocks| == |p.blocks| && q.tail == p.tail && q.initSize == p.initSize
            && r == (if Idle(b) < n then None else Some(Region(p.tail, b.used, n)))
            && q.blocks == p.blocks[p.tail := BlockS(b.cap, if r.None? then b.used else b.used + n)]
  {}

  function Free(p: PoolS): (q: PoolS)
    requires ValidPool(p)
    ensures ValidPool(q)
  {
    PoolS(seq(|p.blocks|, i requires 0 <= i < |p.blocks| => BlockS(p.blocks[i].cap, 0)),
          if p.blocks == [] then -1 else 0, p.initSize)
  }
}
