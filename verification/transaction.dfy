// CMdbTransaction: an undo stack whose records live in the arena.
module Transactions {
  import opened CTypes
  import opened RecordSpec
  import opened MemPools
  import PoolSpec
  import PoolTheorems

  const DB_OPT_TYPE_INSERT: byte := 48
  const DB_OPT_TYPE_UPDATE: byte := 49
  const DB_OPT_TYPE_DELETE: byte := 50

  predicate ValidOp(op: byte) {
    op == DB_OPT_TYPE_INSERT || op == DB_OPT_TYPE_UPDATE || op == DB_OPT_TYPE_DELETE
  }

  // A record handed to the arena: where it lies and what was pushed.
  datatype Issue = Issue(region: PoolSpec.Region, entry: Entry)

  // The arena's bytes at the record's place are exactly the record pushed.
  ghost predicate Intact(contents: seq<seq<byte>>, x: Issue) {
    var r := x.region;
    && Representable(x.entry) && r.len == SIZEOF_RECORD + |x.entry.data|
    && r.block < |contents| && r.offset + r.len <= |contents[r.block]|
    && contents[r.block][r.offset..r.offset + r.len] == Encode(x.entry)
  }

  ghost predicate AllIntact(contents: seq<seq<byte>>, xs: set<Issue>) {
    forall x | x in xs :: Intact(contents, x)
  }

  // `c` grown at the end of some blocks, or by whole blocks.
  ghost predicate Grown(c: seq<seq<byte>>, d: seq<seq<byte>>) {
    |c| <= |d| && forall i :: 0 <= i < |c| ==> c[i] <= d[i]
  }

  lemma StayIntact(c: seq<seq<byte>>, d: seq<seq<byte>>, xs: set<Issue>)
    requires AllIntact(c, xs) && Grown(c, d)
    ensures AllIntact(d, xs)
  {
    forall x | x in xs ensures Intact(d, x) {
      var r := x.region;
      assert c[r.block] <= d[r.block];
      assert d[r.block][r.offset..r.offset + r.len] == c[r.block][r.offset..r.offset + r.len];
    }
  }

  // Fills in a freshly claimed record, field by field.
  method WriteRecord(pool: MemPool, m: Mem, ghost r: PoolSpec.Region, e: Entry)
    requires pool.Valid() && Representable(e) && m.Mem?
    requires r.block < |pool.Blocks| == |pool.Contents| && m == pool.Place(Some(r))
    requires r.len == SIZEOF_RECORD + |e.data|
    requires r.offset + r.len == |pool.Contents[r.block]|
    requires pool.Contents[r.block][r.offset..] == Zeros(r.len)
    modifies pool`Contents, m.block.buff
    ensures pool.Valid()
    ensures pool.Contents ==
            old(pool.Contents)[r.block := old(pool.Contents)[r.block][..r.offset] + Encode(e)]
  {
    hide MemPool.Valid, Put, Encode;
    ghost var k, s := r.block, pool.Contents[r.block];
    var p := m.offset;
    Laid(s, p, e);
    pool.Store(m.block, k, p, Clip(e.db));
    pool.Store(m.block, k, p + 64, Clip(e.tb));
    pool.Store(m.block, k, p + 132, EncodeU32(e.uid));
    pool.Store(m.block, k, p + 128, [e.op]);
    pool.Store(m.block, k, p + SIZEOF_RECORD, e.data);
    pool.Store(m.block, k, p + 144, EncodeU32(U32(|e.data|)));
  }

  // Where alloc puts n bytes: at the end of one block, zeroed, everything else untouched.
  lemma Landing(c: seq<seq<byte>>, p: PoolSpec.PoolS, n: nat, heap: bool, bytes: seq<byte>)
    requires PoolSpec.ValidPool(p) && |c| == |p.blocks| && |bytes| == n
    requires forall i :: 0 <= i < |c| ==> |c[i]| == p.blocks[i].used
    ensures var (q, r) := PoolSpec.Alloc(p, n, heap);
            var d := MemPool.Allocated(c, q, r);
            && Grown(c, d)
            && (r.Some? ==>
                  var k, at := r.value.block, r.value.offset;
                  && r.value.len == n && k < |d| == |q.blocks| && at + n == |d[k]|
                  && d[k][at..] == Zeros(n) && Grown(c, d[k := d[k][..at] + bytes]))
  {
    hide PoolSpec.ValidPool, PoolSpec.Take, PoolSpec.Alloc;
    var (q, ok) := PoolSpec.Prepare(p, n, heap);
    PoolSpec.AllocParts(p, n, heap);
    if ok {
      PoolSpec.TakeParts(q, n);
    }
  }

  // Claims room for a record in the arena and writes it there.
  method SaveRecord(pool: MemPool, e: Entry, heap: bool) returns (m: Mem)
    requires pool.Valid() && Representable(e)
    modifies pool, pool.Blocks, pool.Buffers()
    ensures pool.Valid() && pool.Extends(old(pool.Blocks))
    ensures Grown(old(pool.Contents), pool.Contents)
    ensures var (q, r) := PoolSpec.Alloc(old(pool.State), SIZEOF_RECORD + |e.data|, heap);
            && pool.State == q && m == pool.Place(r) && (m.Null? <==> r.None?)
            && (r.Some? ==> Intact(pool.Contents, Issue(r.value, e)))
  {
    hide MemPool.Valid, MemPool.Allocated, PoolSpec.ValidPool, PoolSpec.Alloc, PoolSpec.TailMoves, Grown, Intact, Encode;
    var n := SIZEOF_RECORD + |e.data|;
    pool.Lengths();
    pool.Sizes();
    Landing(pool.Contents, pool.State, n, heap, Encode(e));
    ghost var r := PoolSpec.Alloc(pool.State, n, heap).1;
    ghost var moves;
    m, moves := pool.Alloc(n, heap);
    pool.Lengths();
    if m.Mem? {
      Written(pool.Contents, r.value, e);
      WriteRecord(pool, m, r.value, e);
    }
  }

  lemma Written(c: seq<seq<byte>>, r: PoolSpec.Region, e: Entry)
    requires Representable(e) && r.block < |c| && r.len == SIZEOF_RECORD + |e.data|
    requires r.offset + r.len == |c[r.block]|
    ensures Intact(c[r.block := c[r.block][..r.offset] + Encode(e)], Issue(r, e))
  {
    hide Encode;
    var s := c[r.block][..r.offset] + Encode(e);
    assert s[r.offset..r.offset + r.len] == Encode(e);
  }

  ghost predicate RoomFor(p: PoolSpec.PoolS, n: nat) {
    exists i | Max(p.tail, 0) <= i < |p.blocks| :: PoolSpec.Idle(p.blocks[i]) >= n
  }

  // n bytes and a block header can be counted in 32 bits, and a block has room or malloc succeeds.
  ghost predicate Servable(p: PoolSpec.PoolS, n: nat, heap: bool) {
    n + PoolSpec.SIZEOF_BLOCK < TWO_32 && (heap || RoomFor(p, n))
  }

  lemma Served(p: PoolSpec.PoolS, n: nat, heap: bool)
    requires PoolSpec.ValidPool(p)
    ensures PoolSpec.Alloc(p, n, heap).1.Some? <==> Servable(p, n, heap)
  {
    PoolTheorems.ServedExactly(p, n, heap);
  }

  class Transaction {
    var records: seq<Mem>          // m_transac_record_stack, top last
    var pool: MemPool?             // m_mempool_ptr
    ghost var stack: seq<Issue>    // the same stack with what each record must hold
    ghost var issued: set<Issue>   // everything pushed since the last clear, popped or not

    ghost function Blocks(): seq<Block>
      reads this, pool
    {
      if pool == null then [] else pool.Blocks
    }

    ghost function Buffers(): set<array<byte>>
      reads this, pool
    {
      set b | b in Blocks() :: b.buff
    }

    ghost function Contents(): seq<seq<byte>>
      reads this, pool
    {
      if pool == null then [] else pool.Contents
    }

    // The arena the next record goes to; it is created on first use.
    ghost function Arena(): PoolSpec.PoolS
      reads this, pool
    {
      if pool == null then PoolSpec.EmptyPool(PoolSpec.MEMPOOL_INIT_SIZE) else pool.State
    }

    ghost predicate OnStack()
      reads this, pool
    {
      && |stack| == |records|
      && forall i :: 0 <= i < |stack| ==>
           && stack[i] in issued && stack[i].region.block < |Blocks()|
           && pool != null && records[i] == pool.Place(Some(stack[i].region))
    }

    ghost predicate Valid()
      reads this, pool, Blocks(), Buffers()
    {
      && (pool != null ==> pool.Valid())
      && AllIntact(Contents(), issued)
      && OnStack()
    }

    constructor ()
      ensures Valid() && stack == [] && issued == {} && pool == null
    {
      records, pool, stack, issued := [], null, [], {};
    }

    // What the transaction may write to has only grown by fresh memory.
    twostate predicate Grows()
      reads this, pool
    {
      && (old(pool) != null ==> pool == old(pool)) && (old(pool) == null && pool != null ==> fresh(pool))
      && old(Blocks()) <= Blocks()
      && forall i | |old(Blocks())| <= i < |Blocks()| :: fresh(Blocks()[i]) && fresh(Blocks()[i].buff)
    }

    // The arena is created on first use.
    method EnsurePool(newPool: bool) returns (ok: bool)
      requires Valid()
      modifies this`pool
      ensures Valid() && Grows() && Arena() == old(Arena()) && ok == (old(pool) != null || newPool)
      ensures if old(pool) != null || !ok then pool == old(pool)
              else pool != null && fresh(pool) && pool.Blocks == []
    {
      ok := pool != null || newPool;
      if pool == null && newPool {
        pool := new MemPool(PoolSpec.MEMPOOL_INIT_SIZE);
      }
    }

    // The allocation step: all records issued so far survive it.
    method Keep(e: Entry, heap: bool) returns (m: Mem)
      requires Valid() && pool != null && Representable(e)
      modifies pool, pool.Blocks, Buffers()
      ensures Valid() && pool.Extends(old(pool.Blocks)) && PoolSpec.ValidPool(old(pool.State))
      ensures var (q, r) := PoolSpec.Alloc(old(pool.State), SIZEOF_RECORD + |e.data|, heap);
              && pool.State == q && m == pool.Place(r) && (m.Null? <==> r.None?)
              && (r.Some? ==> Intact(pool.Contents, Issue(r.value, e)))
    {
      hide MemPool.Valid, PoolSpec.ValidPool, PoolSpec.Alloc, AllIntact, Intact;
      pool.Lengths();
      ghost var c := pool.Contents;
      m := SaveRecord(pool, e, heap);
      StayIntact(c, pool.Contents, issued);
    }

    method Remember(m: Mem, ghost x: Issue)
      requires Valid() && pool != null && Intact(pool.Contents, x) && m.Mem?
      requires m == pool.Place(Some(x.region))
      modifies this`records, this`stack, this`issued
      ensures Valid() && stack == old(stack) + [x] && issued == old(issued) + {x}
    {
      hide Intact;
      records, stack, issued := records + [m], stack + [x], issued + {x};
    }

    // push_record once the arguments are accepted.
    method PushChecked(e: Entry, newPool: bool, heap: bool) returns (rc: int)
      requires Valid() && Representable(e)
      modifies this, pool, Blocks(), Buffers()
      ensures Valid() && Grows()
      ensures rc == if old(pool) == null && !newPool then -2000
                    else if Servable(old(Arena()), SIZEOF_RECORD + |e.data|, heap) then 0 else -3000
      ensures if rc == 0 then Pushed(e) else stack == old(stack) && issued == old(issued)
      ensures rc == -2000 ==> pool == null
    {
      hide Valid, PoolSpec.ValidPool, PoolSpec.Alloc, Intact, Servable;
      ArenaValid();
      Served(Arena(), SIZEOF_RECORD + |e.data|, heap);
      var ok := EnsurePool(newPool);
      if !ok {
        return -2000;
      }
      ghost var r := if PoolSpec.ValidPool(Arena())
                     then PoolSpec.Alloc(Arena(), SIZEOF_RECORD + |e.data|, heap).1 else None;
      var m := Keep(e, heap);
      if m.Null? {
        return -3000;
      }
      Remember(m, Issue(r.value, e));
      rc := 0;
    }

    // One more record on top, holding `e`.
    twostate predicate Pushed(e: Entry)
      reads this
    {
      && |stack| == |old(stack)| + 1 && stack[..|old(stack)|] == old(stack)
      && stack[|old(stack)|].entry == e && issued == old(issued) + {stack[|old(stack)|]}
    }

    // push_record: `newPool` and `heap` are the answers of the two allocations it may make.
    method PushRecord(e: Entry, newPool: bool, heap: bool) returns (rc: int)
      requires Valid() && e.uid < TWO_32
      modifies this, pool, Blocks(), Buffers()
      ensures Valid() && Grows()
      ensures var n := SIZEOF_RECORD + |e.data|;
              rc == if |e.data| == 0 then -1000
                    else if !ValidOp(e.op) then -1001
                    else if old(pool) == null && !newPool then -2000
                    else if Servable(old(Arena()), n, heap) then 0 else -3000
      ensures e.data != [] ==> (rc == -1001 <==> e.op != 48 && e.op != 49 && e.op != 50)
      ensures 0 < |e.data| < TWO_32 - 184 && (old(pool) != null || newPool) && heap ==>
                (rc == 0 <==> e.op == 48 || e.op == 49 || e.op == 50)
      ensures if rc == 0 then Pushed(e) else stack == old(stack) && issued == old(issued)
      ensures rc in {-1000, -1001, -2000} ==> pool == old(pool) && Arena() == old(Arena())
    {
      if e.data == [] {
        return -1000;
      }
      if !ValidOp(e.op) {
        return -1001;
      }
      assert |e.data| < TWO_32 - 184 && heap ==> Servable(Arena(), SIZEOF_RECORD + |e.data|, heap);
      hide MemPool.Valid, AllIntact, Intact, OnStack, Valid, Servable;
      rc := PushChecked(e, newPool, heap);
    }

    lemma ArenaValid()
      requires Valid()
      ensures PoolSpec.ValidPool(Arena())
    {
      if pool != null { pool.Lengths(); }
    }

    // pop_record: the top record, whose bytes in memory are still those pushed.
    method PopRecord() returns (m: Mem)
      requires Valid()
      modifies this`records, this`stack
      ensures Valid()
      ensures old(stack) == [] ==> m == Null && stack == []
      ensures old(stack) != [] ==>
                var top := old(stack)[|old(stack)| - 1];
                && stack == old(stack)[..|old(stack)| - 1]
                && pool != null && m.Mem? && m == pool.Place(Some(top.region))
                && m.offset + m.len <= m.block.buff.Length
                && m.block.buff[m.offset..m.offset + m.len] == Encode(top.entry)
    {
      hide AllIntact, Intact, Linked, OwnBuffers, Shaped, Holds, PoolSpec.ValidPool;
      if records == [] {
        return Null;
      }
      var n := |records| - 1;
      m := records[n];
      InMemory(stack[n]);
      records, stack := records[..n], stack[..n];
    }

    lemma InMemory(x: Issue)
      requires Valid() && x in issued && pool != null
      ensures var m := pool.Place(Some(x.region));
              && m.Mem? && m.offset + m.len <= m.block.buff.Length
              && m.block.buff[m.offset..m.offset + m.len] == Encode(x.entry)
    {
      hide MemPool.Valid;
      pool.Lengths();
      pool.InMemory(x.region.block);
      assert Intact(pool.Contents, x);
    }

    // clear_records: the stack empties and the arena is reset for reuse.
    method ClearRecords()
      requires Valid()
      modifies this`records, this`stack, this`issued, pool, Blocks()
      ensures Valid() && stack == [] && issued == {} && pool == old(pool)
      ensures pool != null ==>
                pool.Blocks == old(pool.Blocks) && pool.State == PoolSpec.Free(old(pool.State))
    {
      hide Linked, OwnBuffers, Shaped, Holds, PoolSpec.ValidPool;
      ArenaValid();
      records, stack, issued := [], [], {};
      if pool != null {
        pool.Free();
      }
    }
  }
}
