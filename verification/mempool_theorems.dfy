// What every run of the transaction arena keeps: where regions lie, that they never overlap,
// when a request is refused, how capacity grows, and that a freed arena replays itself.
module PoolTheorems {
  import opened CTypes
  import opened PoolSpec

  // ---------- one allocation ----------

  ghost predicate Grows(p: PoolS, q: PoolS) {
    && p.initSize == q.initSize
    && p.tail <= q.tail
    && |p.blocks| <= |q.blocks|
    && forall i :: 0 <= i < |p.blocks| ==>
         q.blocks[i].cap == p.blocks[i].cap && p.blocks[i].used <= q.blocks[i].used
  }

  // The region is the newest used part of its block and starts where `p` had stopped.
  ghost predicate Fresh(p: PoolS, q: PoolS, r: Region) {
    && r.block < |q.blocks|
    && r.offset + r.len <= q.blocks[r.block].used
    && (r.block < |p.blocks| ==> p.blocks[r.block].used <= r.offset)
  }

  lemma AllocGrows(p: PoolS, n: nat, heap: bool)
    requires ValidPool(p)
    ensures Grows(p, Alloc(p, n, heap).0)
    ensures var (q, r) := Alloc(p, n, heap); r.Some? ==> r.value.len == n && Fresh(p, q, r.value)
  {
    hide CheckIdle, Append, Take, NewCapacity;
    var (q, ok) := CheckIdle(p, n);
    if ok {
      TakeParts(q, n);
    } else if heap {
      AppendFacts(q, n);
      TakeParts(Append(q, n), n);
    }
  }

  // A request is refused exactly when it cannot be represented together with the block header
  // in 32 bits, or no block from the tail on has room and malloc fails.
  lemma ServedExactly(p: PoolS, n: nat, heap: bool)
    requires ValidPool(p)
    ensures Alloc(p, n, heap).1.Some? <==>
              && n + SIZEOF_BLOCK < TWO_32
              && (heap || exists i :: Max(p.tail, 0) <= i < |p.blocks| && Idle(p.blocks[i]) >= n)
  {
    hide CheckIdle, Append, Take, NewCapacity;
    var (q, ok) := CheckIdle(p, n);
    FoundExactly(p, n);
    if ok {
      TakeParts(q, n);
    } else if heap {
      AppendFacts(q, n);
      TakeParts(Append(q, n), n);
      CapacityFits(q, n);
    }
  }

  lemma CapacityFits(p: PoolS, n: nat)
    requires ValidPool(p)
    ensures NewCapacity(p, n) >= n <==> n + SIZEOF_BLOCK < TWO_32
  {}

  // check_idle_size answers truthfully for every size an unsigned int can hold.
  lemma FoundExactly(p: PoolS, n: nat)
    requires ValidPool(p)
    ensures var (q, ok) := CheckIdle(p, n);
            && (n < TWO_32 ==>
                  (ok <==> exists i :: Max(p.tail, 0) <= i < |p.blocks| && Idle(p.blocks[i]) >= n))
            && (ok && n < TWO_32 ==> Idle(p.blocks[q.tail]) >= n)
            && forall i :: 0 <= i < |p.blocks| ==> Idle(p.blocks[i]) + SIZEOF_BLOCK < TWO_32
  {
    var i := Seek(p.blocks, Max(p.tail, 0), U32(n));
    assert n < TWO_32 ==> U32(n) == n;
  }

  // ---------- runs of allocations ----------

  datatype Request = Request(size: nat, heap: bool)

  function Run(p: PoolS, reqs: seq<Request>): (r: (PoolS, seq<Option<Region>>))
    requires ValidPool(p)
    ensures ValidPool(r.0) && |r.1| == |reqs|
    decreases |reqs|
  {
    if reqs == [] then (p, [])
    else
      var (q, a) := Alloc(p, reqs[0].size, reqs[0].heap);
      var (z, rest) := Run(q, reqs[1..]);
      (z, [a] + rest)
  }

  lemma {:induction false} RunGrows(p: PoolS, reqs: seq<Request>)
    requires ValidPool(p)
    ensures Grows(p, Run(p, reqs).0)
    decreases |reqs|
  {
    if reqs != [] {
      AllocGrows(p, reqs[0].size, reqs[0].heap);
      RunGrows(Alloc(p, reqs[0].size, reqs[0].heap).0, reqs[1..]);
    }
  }

  ghost predicate Disjoint(a: Region, b: Region) {
    a.block == b.block ==> a.offset + a.len <= b.offset || b.offset + b.len <= a.offset
  }

  // Every region of a run has the length asked for, lies inside its block and avoids whatever
  // was in use before the run.
  lemma {:induction false} RunRegions(p: PoolS, reqs: seq<Request>, k: nat)
    requires ValidPool(p) && k < |reqs|
    ensures var (q, rs) := Run(p, reqs);
            rs[k].Some? ==> rs[k].value.len == reqs[k].size && Fresh(p, q, rs[k].value)
                            && q.blocks[rs[k].value.block].used <= q.blocks[rs[k].value.block].cap
    decreases |reqs|
  {
    hide Alloc;
    var (q, a) := Alloc(p, reqs[0].size, reqs[0].heap);
    AllocGrows(p, reqs[0].size, reqs[0].heap);
    RunGrows(q, reqs[1..]);
    if k > 0 {
      RunRegions(q, reqs[1..], k - 1);
    }
  }

  // No two regions handed out during a run share a byte.
  lemma {:induction false} RunDisjoint(p: PoolS, reqs: seq<Request>, i: nat, j: nat)
    requires ValidPool(p) && i < j < |reqs|
    ensures var rs := Run(p, reqs).1;
            rs[i].Some? && rs[j].Some? ==> Disjoint(rs[i].value, rs[j].value)
    decreases |reqs|
  {
    hide Alloc, ValidPool;
    var (q, a) := Alloc(p, reqs[0].size, reqs[0].heap);
    if i > 0 {
      RunDisjoint(q, reqs[1..], i - 1, j - 1);
    } else {
      AllocGrows(p, reqs[0].size, reqs[0].heap);
      RunRegions(q, reqs[1..], j - 1);
    }
  }

  // ---------- replay after free ----------

  // The served requests of a run, asked again with a heap that never answers.
  function Retry(reqs: seq<Request>, replies: seq<Option<Region>>): seq<Request>
    requires |reqs| == |replies|
  {
    if reqs == [] then []
    else (if replies[0].Some? then [Request(reqs[0].size, false)] else [])
         + Retry(reqs[1..], replies[1..])
  }

  function Granted(replies: seq<Option<Region>>): seq<Option<Region>> {
    if replies == [] then []
    else (if replies[0].Some? then [replies[0]] else []) + Granted(replies[1..])
  }

  ghost predicate Representable(reqs: seq<Request>) {
    forall i :: 0 <= i < |reqs| ==> reqs[i].size + SIZEOF_BLOCK < TWO_32
  }

  // None of the blocks of `p` from `from` to just before `to` has `n` idle bytes.
  ghost predicate NoRoom(p: PoolS, from: nat, to: nat, n: nat) {
    forall b :: from <= b < to && b < |p.blocks| ==> Idle(p.blocks[b]) < n
  }

  // Read off the first run alone: whenever a request is served, no block between the one that
  // served last and the one that serves now could have taken it.  Refused requests may leave
  // blocks behind, and those are the blocks that can be skipped here and found by a replay.
  ghost predicate NothingSkipped(p: PoolS, last: nat, reqs: seq<Request>)
    requires ValidPool(p)
    decreases |reqs|
  {
    reqs == [] ||
    var (q, a) := Alloc(p, reqs[0].size, reqs[0].heap);
    if a.None? then NothingSkipped(q, last, reqs[1..])
    else NoRoom(p, last, a.value.block, reqs[0].size) && NothingSkipped(q, a.value.block, reqs[1..])
  }

  // The block that served last, `last` when none did.
  function LastServed(last: nat, replies: seq<Option<Region>>): nat
    decreases |replies|
  {
    if replies == [] then last
    else LastServed(if replies[0].Some? then replies[0].value.block else last, replies[1..])
  }

  // `r` is `p` plus blocks still to come in the first run, all of them unused, with the tail
  // on the block that served last.
  ghost predicate Shadows(r: PoolS, p: PoolS, last: nat) {
    && |p.blocks| <= |r.blocks| && r.initSize == p.initSize
    && (forall i :: 0 <= i < |p.blocks| ==> r.blocks[i] == p.blocks[i])
    && (forall i :: |p.blocks| <= i < |r.blocks| ==> r.blocks[i].used == 0)
    && last <= Max(p.tail, 0)
    && r.tail == if r.blocks == [] then -1 else last
  }

  // With the tail on the last block a served request stays there or opens the next block.
  lemma AllocAtEnd(p: PoolS, n: nat, heap: bool)
    requires ValidPool(p) && p.tail == |p.blocks| - 1 && n + SIZEOF_BLOCK < TWO_32
    ensures var (q, a) := Alloc(p, n, heap);
            if p.blocks != [] && Idle(p.blocks[p.tail]) >= n then (q, a) == Take(p, n)
            else if heap then
              && |q.blocks| == |p.blocks| + 1 && q.blocks[..|p.blocks|] == p.blocks
              && q.blocks[|p.blocks|].used == n <= q.blocks[|p.blocks|].cap
              && q.tail == |p.blocks| && q.initSize == p.initSize
              && a == Some(Region(|p.blocks|, 0, n))
            else (q, a) == (p, None)
  {
    var end := |p.blocks| - 1;
    assert p.(tail := end) == p;
    if p.blocks != [] && Idle(p.blocks[end]) >= n {
      CheckIdleStops(p, n, end);
    } else {
      CheckIdleFails(p, n);
      AppendFacts(p, n);
      CapacityFits(p, n);
      hide CheckIdle, Append, NewCapacity;
      if heap {
        TakeParts(Append(p, n), n);
      }
    }
  }

  // A refused request may move the tail on and may append one unused block.
  ghost predicate Refused(p: PoolS, q: PoolS) {
    && p.initSize == q.initSize && p.tail <= q.tail && |p.blocks| <= |q.blocks|
    && (forall i :: 0 <= i < |p.blocks| ==> q.blocks[i] == p.blocks[i])
    && (forall i :: |p.blocks| <= i < |q.blocks| ==> q.blocks[i].used == 0)
  }

  lemma RefusedSo(p: PoolS, n: nat, heap: bool)
    requires ValidPool(p) && Alloc(p, n, heap).1.None?
    ensures Refused(p, Alloc(p, n, heap).0)
  {
    hide CheckIdle, Append, Take, NewCapacity;
    var (q, ok) := CheckIdle(p, n);
    if ok {
      TakeParts(q, n);
    } else if heap {
      AppendFacts(q, n);
      TakeParts(Append(q, n), n);
    }
  }

  ghost predicate SameCaps(r: PoolS, p: PoolS) {
    && |r.blocks| == |p.blocks|
    && forall i :: 0 <= i < |r.blocks| ==> r.blocks[i].cap == p.blocks[i].cap
  }

  // When block k has room, the search from the tail ends there iff no block before has room.
  lemma AllocStops(r: PoolS, n: nat, k: nat)
    requires ValidPool(r) && n < TWO_32 && 0 <= r.tail <= k < |r.blocks| && Idle(r.blocks[k]) >= n
    ensures ValidPool(r.(tail := k))
    ensures var (s, a) := Alloc(r, n, false);
            if NoRoom(r, r.tail, k, n) then (s, a) == Take(r.(tail := k), n)
            else a.Some? && a.value.block < k
  {
    var i := Seek(r.blocks, r.tail, n);
    assert i <= k;
    CheckIdleStops(r, n, i);
    hide CheckIdle, Append, NewCapacity, Seek;
    assert NoRoom(r, r.tail, k, n) <==> i == k;
  }

  function UsedIn(p: PoolS, k: nat): nat {
    if k < |p.blocks| then p.blocks[k].used else 0
  }

  // Block k, which lies at or behind the tail and may be new, got n bytes more.
  ghost predicate Served(p: PoolS, n: nat, q: PoolS, k: nat) {
    && p.initSize == q.initSize && p.tail <= q.tail == k <= |p.blocks|
    && |q.blocks| == Max(|p.blocks|, k + 1)
    && (forall i :: 0 <= i < |p.blocks| && i != k ==> q.blocks[i] == p.blocks[i])
    && q.blocks[k].used == UsedIn(p, k) + n <= q.blocks[k].cap
    && (k < |p.blocks| ==> q.blocks[k].cap == p.blocks[k].cap)
  }

  lemma ServedSo(p: PoolS, n: nat, heap: bool)
    requires ValidPool(p) && Alloc(p, n, heap).1.Some?
    ensures var (q, a) := Alloc(p, n, heap); var k := a.value.block;
            && n + SIZEOF_BLOCK < TWO_32 && Served(p, n, q, k) && a == Some(Region(k, UsedIn(p, k), n))
  {
    ServedExactly(p, n, heap);
    hide CheckIdle, Append, Take, NewCapacity;
    var (q, ok) := CheckIdle(p, n);
    if ok {
      TakeParts(q, n);
    } else if heap {
      AppendFacts(q, n);
      TakeParts(Append(q, n), n);
    }
  }

  // Where the first run served a request the replay has room too, and the blocks before agree.
  lemma ShadowRoom(r: PoolS, p: PoolS, last: nat, n: nat, q: PoolS, k: nat)
    requires Shadows(r, p, last) && Served(p, n, q, k)
    requires k < |r.blocks| && r.blocks[k].cap == q.blocks[k].cap
    ensures r.tail == last <= k && Idle(r.blocks[k]) >= n && r.blocks[k].used == UsedIn(p, k)
    ensures NoRoom(r, last, k, n) <==> NoRoom(p, last, k, n)
  {
    assert forall b :: 0 <= b < k ==> r.blocks[b] == p.blocks[b];
  }

  lemma ShadowTake(r: PoolS, p: PoolS, last: nat, n: nat, q: PoolS, k: nat, s: PoolS)
    requires Shadows(r, p, last) && Served(p, n, q, k)
    requires k < |r.blocks| && r.blocks[k].cap == q.blocks[k].cap
    requires s == PoolS(r.blocks[k := BlockS(r.blocks[k].cap, r.blocks[k].used + n)], k, r.initSize)
    ensures Shadows(s, q, k)
  {}

  // One served request: the replay serves it from the same place iff no block was skipped.
  lemma ShadowStep(r: PoolS, p: PoolS, last: nat, n: nat, heap: bool, end: PoolS)
    requires ValidPool(p) && ValidPool(r) && Shadows(r, p, last)
    requires Alloc(p, n, heap).1.Some? && Grows(Alloc(p, n, heap).0, end) && SameCaps(r, end)
    ensures var (q, a) := Alloc(p, n, heap); var (s, c) := Alloc(r, n, false);
            if NoRoom(p, last, a.value.block, n)
            then c == a && Shadows(s, q, a.value.block) && SameCaps(s, end)
            else c != a
  {
    hide Alloc, Take, ValidPool, NoRoom, Shadows, Served;
    var (q, a) := Alloc(p, n, heap);
    var k := a.value.block;
    ServedSo(p, n, heap);
    InPlace(p, n, q, k);
    assert r.blocks[k].cap == end.blocks[k].cap == q.blocks[k].cap;
    ShadowRoom(r, p, last, n, q, k);
    AllocStops(r, n, k);
    if NoRoom(p, last, k, n) {
      var t := r.(tail := k);
      TakeParts(t, n);
      ShadowTake(r, p, last, n, q, k, Take(t, n).0);
    }
  }

  lemma InPlace(p: PoolS, n: nat, q: PoolS, k: nat)
    requires Served(p, n, q, k)
    ensures k < |q.blocks|
  {}

  // A refused request may add a block, which the replay has from the start.
  lemma ShadowKept(r: PoolS, p: PoolS, last: nat, q: PoolS, end: PoolS)
    requires Shadows(r, p, last) && Refused(p, q) && Grows(q, end) && SameCaps(r, end)
    ensures Shadows(r, q, last)
  {
    forall i | 0 <= i < |q.blocks|
      ensures r.blocks[i] == q.blocks[i]
    {
      assert r.blocks[i].cap == end.blocks[i].cap == q.blocks[i].cap;
      assert i < |p.blocks| || r.blocks[i].used == q.blocks[i].used == 0;
      assert i < |p.blocks| ==> q.blocks[i] == p.blocks[i] == r.blocks[i];
    }
  }

  // What the replay leaves behind when nothing was skipped: the same blocks, with the tail on
  // the one that served last.
  function AfterReplay(end: PoolS, last: nat, replies: seq<Option<Region>>): PoolS {
    end.(tail := if end.blocks == [] then -1 else LastServed(last, replies))
  }

  lemma RunCons(p: PoolS, req: Request, reqs: seq<Request>)
    requires ValidPool(p)
    ensures var (q, a) := Alloc(p, req.size, req.heap); var (z, rest) := Run(q, reqs);
            Run(p, [req] + reqs) == (z, [a] + rest)
  {
    hide Alloc, ValidPool;
    assert ([req] + reqs)[1..] == reqs;
  }

  lemma SameHead<T>(x: T, y: T, xs: seq<T>, ys: seq<T>)
    ensures [x] + xs == [y] + ys <==> x == y && xs == ys
  {
    assert ([x] + xs)[1..] == xs && ([y] + ys)[1..] == ys;
    assert ([x] + xs)[0] == x && ([y] + ys)[0] == y;
  }

  lemma {:induction false} ReplayFrom(r: PoolS, p: PoolS, last: nat, reqs: seq<Request>)
    requires ValidPool(p) && ValidPool(r) && Shadows(r, p, last)
    requires SameCaps(r, Run(p, reqs).0)
    ensures var (end, replies) := Run(p, reqs); var (s, again) := Run(r, Retry(reqs, replies));
            && (again == Granted(replies) <==> NothingSkipped(p, last, reqs))
            && (NothingSkipped(p, last, reqs) ==> s == AfterReplay(end, last, replies))
    decreases |reqs|
  {
    hide Alloc, ValidPool, Shadows, NoRoom;
    if reqs == [] {
      ShadowEnd(r, p, last);
    } else {
      var n, heap := reqs[0].size, reqs[0].heap;
      var (q, a) := Alloc(p, n, heap);
      var (end, rest) := Run(q, reqs[1..]);
      var replies := [a] + rest;
      assert replies[1..] == rest;
      RunGrows(q, reqs[1..]);
      if a.Some? {
        ShadowStep(r, p, last, n, heap, end);
        var (s, c) := Alloc(r, n, false);
        RunCons(r, Request(n, false), Retry(reqs[1..], rest));
        SameHead(c, a, Run(s, Retry(reqs[1..], rest)).1, Granted(rest));
        if c == a {
          ReplayFrom(s, q, a.value.block, reqs[1..]);
        }
      } else {
        RefusedSo(p, n, heap);
        ShadowKept(r, p, last, q, end);
        ReplayFrom(r, q, last, reqs[1..]);
        assert Retry(reqs, replies) == Retry(reqs[1..], rest);
        assert Granted(replies) == Granted(rest);
      }
    }
  }

  lemma ShadowEnd(r: PoolS, p: PoolS, last: nat)
    requires Shadows(r, p, last) && SameCaps(r, p)
    ensures r == AfterReplay(p, last, [])
  {
    assert r.blocks == p.blocks;
  }

  // The arenas a run starts in: the empty one and any that was freed.
  lemma Starts(initSize: nat, p: PoolS)
    requires MEMPOOL_MIN_SIZE <= initSize < TWO_32 && ValidPool(p)
    ensures EmptyPool(initSize) == Free(EmptyPool(initSize))
    ensures Free(p) == Free(Free(p))
  {
    assert Free(p).blocks == Free(Free(p)).blocks;
  }

  // A run starts in an arena that is empty or was freed.  Freeing it again and asking for what
  // was served returns the very same regions in the same order, never touching the heap, iff
  // the run skipped no block that could have served; the blocks are then those of the run.
  lemma ReplayExactly(start: PoolS, reqs: seq<Request>)
    requires ValidPool(start) && start == Free(start)
    ensures var (p, replies) := Run(start, reqs);
            var (s, again) := Run(Free(p), Retry(reqs, replies));
            && (again == Granted(replies) <==> NothingSkipped(start, 0, reqs))
            && (NothingSkipped(start, 0, reqs) ==> s == AfterReplay(p, 0, replies))
  {
    hide Run, Alloc;
    var p := Run(start, reqs).0;
    RunGrows(start, reqs);
    assert forall i :: 0 <= i < |start.blocks| ==> start.blocks[i] == Free(start).blocks[i];
    ReplayFrom(Free(p), start, 0, reqs);
  }

  // A run in which nothing was refused skips nothing: its tail is always on the block that
  // served last.
  lemma {:induction false} ServedSkipsNothing(p: PoolS, last: nat, reqs: seq<Request>)
    requires ValidPool(p) && last == Max(p.tail, 0)
    requires forall i :: 0 <= i < |reqs| ==> Run(p, reqs).1[i].Some?
    ensures NothingSkipped(p, last, reqs)
    ensures var (end, replies) := Run(p, reqs); AfterReplay(end, last, replies) == end
    decreases |reqs|
  {
    hide Alloc, ValidPool;
    PoolBounds(p);
    if reqs != [] {
      var (q, a) := Alloc(p, reqs[0].size, reqs[0].heap);
      var rest := Run(q, reqs[1..]).1;
      assert Run(p, reqs).1 == [a] + rest && Run(p, reqs).1[0].Some?;
      assert forall i :: 0 <= i < |rest| ==> rest[i] == Run(p, reqs).1[i + 1];
      FirstRoom(p, reqs[0].size, reqs[0].heap);
      ServedSo(p, reqs[0].size, reqs[0].heap);
      ServedSkipsNothing(q, a.value.block, reqs[1..]);
      assert ([a] + rest)[1..] == rest;
    }
  }

  // A served request takes the first block with room from the tail on.
  lemma FirstRoom(p: PoolS, n: nat, heap: bool)
    requires ValidPool(p) && Alloc(p, n, heap).1.Some?
    ensures NoRoom(p, Max(p.tail, 0), Alloc(p, n, heap).1.value.block, n)
  {
    ServedExactly(p, n, heap);
    var i := Seek(p.blocks, Max(p.tail, 0), n);
    hide Append, Take, NewCapacity, Seek;
    var (q, ok) := CheckIdle(p, n);
    if ok {
      TakeParts(q, n);
    } else if heap {
      AppendFacts(q, n);
      TakeParts(Append(q, n), n);
    }
  }

  // So does a run from the empty pool whose requests all fit 32 bits with their header.
  lemma {:induction false} RepresentableSkipsNothing(p: PoolS, last: nat, reqs: seq<Request>)
    requires ValidPool(p) && Representable(reqs) && p.tail == |p.blocks| - 1 && last == Max(p.tail, 0)
    ensures NothingSkipped(p, last, reqs)
    ensures var (end, replies) := Run(p, reqs); AfterReplay(end, last, replies) == end
    decreases |reqs|
  {
    hide Alloc, ValidPool;
    if reqs != [] {
      var n, heap := reqs[0].size, reqs[0].heap;
      var (q, a) := Alloc(p, n, heap);
      AllocAtEnd(p, n, heap);
      if a.Some? {
        FirstRoom(p, n, heap);
        ServedSo(p, n, heap);
        RepresentableSkipsNothing(q, a.value.block, reqs[1..]);
      } else {
        RepresentableSkipsNothing(q, last, reqs[1..]);
      }
      var rest := Run(q, reqs[1..]).1;
      assert ([a] + rest)[1..] == rest;
    }
  }

  // The two plain cases: the replay is exact and rebuilds the same pool when nothing was
  // refused, and from the empty pool also when every request fits 32 bits.
  lemma Replay(start: PoolS, reqs: seq<Request>)
    requires ValidPool(start) && start == Free(start)
    ensures var (p, replies) := Run(start, reqs);
            (forall i :: 0 <= i < |replies| ==> replies[i].Some?) || (start.blocks == [] && Representable(reqs))
            ==> Run(Free(p), Retry(reqs, replies)) == (p, Granted(replies))
  {
    hide Run, Alloc, NothingSkipped, AfterReplay, Granted, Retry, Representable;
    var replies := Run(start, reqs).1;
    ReplayExactly(start, reqs);
    if forall i :: 0 <= i < |replies| ==> replies[i].Some? {
      ServedSkipsNothing(start, 0, reqs);
    } else if start.blocks == [] && Representable(reqs) {
      RepresentableSkipsNothing(start, 0, reqs);
    }
  }

  // An oversize request is refused but still leaves a block behind, which pushes every later
  // request that would have fitted into a different block.
  lemma OversizeShifts(p: PoolS, big: nat, n: nat)
    requires ValidPool(p) && p.blocks != [] && p.tail == |p.blocks| - 1
    requires TWO_32 - SIZEOF_BLOCK <= big < TWO_32 && n <= Idle(p.blocks[p.tail])
    ensures var (q, none) := Alloc(p, big, true);
            && none.None? && |q.blocks| == |p.blocks| + 1
            && Alloc(p, n, true).1 == Some(Region(p.tail, p.blocks[p.tail].used, n))
            && Alloc(q, n, true).1.Some? && Alloc(q, n, true).1.value.block > p.tail
  {
    OversizeAppends(p, big);
    var q := Append(p, big);
    AppendFacts(p, big);
    AllocAtEnd(p, n, true);
    AllocAtEnd(q, n, true);
    TakeParts(p, n);
    if Idle(q.blocks[q.tail]) >= n {
      TakeParts(q, n);
    }
    hide Alloc, Take, Append, ValidPool;
  }

  lemma OversizeAppends(p: PoolS, big: nat)
    requires ValidPool(p) && p.tail == |p.blocks| - 1 && TWO_32 - SIZEOF_BLOCK <= big < TWO_32
    ensures Alloc(p, big, true) == (Append(p, big), None)
  {
    assert U32(big) == big;
    assert NewCapacity(p, big) <= MAX_CAPACITY < big;
  }

  // Ten bytes in a block with room for ten more, whatever the heap.
  lemma TenMore(p: PoolS, heap: bool)
    requires ValidPool(p) && p.tail >= 0 && Idle(p.blocks[p.tail]) >= 10
    ensures var (q, a) := Alloc(p, 10, heap); var b := p.blocks[p.tail];
            && a == Some(Region(p.tail, b.used, 10)) && q.tail == p.tail && |q.blocks| == |p.blocks|
            && q.blocks[p.tail] == BlockS(b.cap, b.used + 10)
            && forall i :: 0 <= i < |p.blocks| ==> q.blocks[i].cap == p.blocks[i].cap
  {
    CheckIdleStops(p, 10, p.tail);
  }

  lemma FirstTen()
    ensures var (q, a) := Alloc(EmptyPool(MEMPOOL_INIT_SIZE), 10, true);
            a == Some(Region(0, 0, 10)) && q == PoolS([BlockS(4064, 10)], 0, MEMPOOL_INIT_SIZE)
  {}

  lemma RunOne(p: PoolS, a: Request)
    requires ValidPool(p)
    ensures Run(p, [a]) == (Alloc(p, a.size, a.heap).0, [Alloc(p, a.size, a.heap).1])
  {
    hide Alloc, ValidPool;
    var q := Alloc(p, a.size, a.heap).0;
    var x := Alloc(p, a.size, a.heap).1;
    assert [a][1..] == [] && Run(q, []) == (q, []) && [x] + [] == [x];
  }

  lemma RunTwo(p: PoolS, a: Request, b: Request)
    requires ValidPool(p)
    ensures var (q, x) := Alloc(p, a.size, a.heap); var (r, y) := Alloc(q, b.size, b.heap);
            Run(p, [a, b]) == (r, [x, y])
  {
    hide Run, Alloc, ValidPool;
    RunCons(p, a, [b]);
    var (q, x) := Alloc(p, a.size, a.heap);
    RunOne(q, b);
    var y := Alloc(q, b.size, b.heap).1;
    assert [a] + [b] == [a, b] && [x] + [y] == [x, y];
  }

  lemma RunThree(p: PoolS, a: Request, b: Request, c: Request)
    requires ValidPool(p)
    ensures var (q, x) := Alloc(p, a.size, a.heap); var (r, y) := Alloc(q, b.size, b.heap);
            var (s, z) := Alloc(r, c.size, c.heap);
            Run(p, [a, b, c]) == (s, [x, y, z])
  {
    hide Run, Alloc, ValidPool;
    RunCons(p, a, [b, c]);
    var (q, x) := Alloc(p, a.size, a.heap);
    RunTwo(q, b, c);
    var rest := Run(q, [b, c]).1;
    assert [a] + [b, c] == [a, b, c] && [x] + rest == [x, rest[0], rest[1]];
  }

  // Ten bytes, an oversize request, ten bytes: the second ten lie in the block that the refused
  // request left behind, and the replay puts them into the first block instead.
  lemma ReplayFails()
    ensures var reqs := [Request(10, true), Request(TWO_32 - SIZEOF_BLOCK, true), Request(10, true)];
            var (p, replies) := Run(EmptyPool(MEMPOOL_INIT_SIZE), reqs);
            && replies == [Some(Region(0, 0, 10)), None, Some(Region(1, 0, 10))]
            && Run(Free(p), Retry(reqs, replies)).1 == [Some(Region(0, 0, 10)), Some(Region(0, 10, 10))]
  {
    var a, big := Request(10, true), Request(TWO_32 - SIZEOF_BLOCK, true);
    var p := EmptyPool(MEMPOOL_INIT_SIZE);
    var q := Alloc(p, 10, true).0;
    FirstTen();
    OversizeAppends(q, big.size);
    var r := Append(q, big.size);
    assert r.blocks[1] == BlockS(8128, 0) && r.blocks[0] == BlockS(4064, 10);
    TenMore(r, true);
    RunThree(p, a, big, a);
    RetryThree(a, big, Some(Region(0, 0, 10)), Some(Region(1, 0, 10)));
    SecondTime(Alloc(r, 10, true).0);
  }

  lemma RetryThree(a: Request, big: Request, x: Option<Region>, z: Option<Region>)
    requires x.Some? && z.Some?
    ensures Retry([a, big, a], [x, None, z]) == [Request(a.size, false), Request(a.size, false)]
  {
    assert [a, big, a][1..] == [big, a] && [big, a][1..] == [a] && [a][1..] == [];
    assert [x, None, z][1..] == [None, z] && [None, z][1..] == [z] && [z][1..] == [];
    assert Retry([a], [z]) == [Request(a.size, false)];
    assert Retry([big, a], [None, z]) == [Request(a.size, false)];
  }

  lemma SecondTime(p: PoolS)
    requires ValidPool(p) && p.blocks != [] && p.blocks[0].cap >= 20
    ensures Run(Free(p), [Request(10, false), Request(10, false)]).1
         == [Some(Region(0, 0, 10)), Some(Region(0, 10, 10))]
  {
    var f := Free(p);
    TenMore(f, false);
    var g := Alloc(f, 10, false).0;
    TenMore(g, false);
    RunTwo(f, Request(10, false), Request(10, false));
    hide Alloc;
  }

  // A refusal by malloc moves the tail as well: in an arena that was freed, the request after
  // it lands behind a block with room, where the replay puts it.
  lemma MallocFailureExample()
    ensures var start := PoolS([BlockS(4064, 0), BlockS(8128, 0)], 0, MEMPOOL_INIT_SIZE);
            var reqs := [Request(10000, false), Request(10, true)];
            && ValidPool(start) && start == Free(start)
            && Run(start, reqs).1 == [None, Some(Region(1, 0, 10))] && !NothingSkipped(start, 0, reqs)
  {
    var start := PoolS([BlockS(4064, 0), BlockS(8128, 0)], 0, MEMPOOL_INIT_SIZE);
    var a, b := Request(10000, false), Request(10, true);
    hide Alloc, Run, NothingSkipped;
    MallocFails(start, 10000);
    var q := start.(tail := 1);
    TenMore(q, true);
    RunTwo(start, a, b);
    assert Idle(q.blocks[0]) >= 10 && !NoRoom(q, 0, 1, 10);
    SkipAfterRefusal(start, 0, a, b);
  }

  lemma MallocFails(p: PoolS, n: nat)
    requires ValidPool(p) && n < TWO_32
    requires forall j :: 0 <= p.tail <= j < |p.blocks| ==> Idle(p.blocks[j]) < n
    ensures Alloc(p, n, false) == (p.(tail := |p.blocks| - 1), None)
  {
    hide CheckIdle;
    CheckIdleFails(p, n);
  }

  lemma SkipAfterRefusal(p: PoolS, last: nat, a: Request, b: Request)
    requires ValidPool(p) && Alloc(p, a.size, a.heap).1.None?
    ensures var q := Alloc(p, a.size, a.heap).0; var x := Alloc(q, b.size, b.heap).1;
            NothingSkipped(p, last, [a, b]) ==> x.None? || NoRoom(q, last, x.value.block, b.size)
  {
    hide Alloc, NoRoom, ValidPool;
    assert [a, b][1..] == [b];
    if NothingSkipped(p, last, [a, b]) {
      assert NothingSkipped(Alloc(p, a.size, a.heap).0, last, [b]);
    }
  }

  // ---------- growth ----------

  datatype Step = Ask(req: Request) | Release

  function Life(p: PoolS, steps: seq<Step>): (q: PoolS)
    requires ValidPool(p)
    ensures ValidPool(q)
    decreases |steps|
  {
    if steps == [] then p
    else Life(if steps[0].Release? then Free(p)
              else Alloc(p, steps[0].req.size, steps[0].req.heap).0, steps[1..])
  }

  // Each block is at least twice as large as its predecessor exactly while header plus double
  // still fits in 32 bits.
  ghost predicate Doubling(p: PoolS) {
    forall i :: 0 < i < |p.blocks| ==>
      (p.blocks[i].cap >= 2 * p.blocks[i - 1].cap <==> SIZEOF_BLOCK + 2 * p.blocks[i - 1].cap < TWO_32)
  }

  lemma AppendDoubling(p: PoolS, n: nat)
    requires ValidPool(p) && p.tail == |p.blocks| - 1 && Doubling(p)
    ensures Doubling(Append(p, n))
  {
    if p.blocks != [] {
      var last := p.blocks[p.tail].cap;
      assert NewCapacity(p, n) >= 2 * last <==> SIZEOF_BLOCK + 2 * last < TWO_32;
    }
  }

  lemma AllocDoubling(p: PoolS, n: nat, heap: bool)
    requires ValidPool(p) && Doubling(p)
    ensures Doubling(Alloc(p, n, heap).0)
  {
    hide CheckIdle, Append;
    var (q, ok) := CheckIdle(p, n);
    if !ok && heap {
      AppendDoubling(q, n);
    }
  }

  // Every pool reachable by any mix of alloc and free is well formed and doubles.
  lemma {:induction false} ReachableDoubles(p: PoolS, steps: seq<Step>)
    requires ValidPool(p) && Doubling(p)
    ensures Doubling(Life(p, steps))
    decreases |steps|
  {
    if steps != [] {
      if steps[0].Release? {
        ReachableDoubles(Free(p), steps[1..]);
      } else {
        AllocDoubling(p, steps[0].req.size, steps[0].req.heap);
        ReachableDoubles(Alloc(p, steps[0].req.size, steps[0].req.heap).0, steps[1..]);
      }
    }
  }

  // The capacity that a request of n bytes, or twice a capacity of n / 2, makes a new block have:
  // n, unless n and the 32 header bytes overflow 32 bits.
  function Wrapped(n: nat): (cap: nat)
    ensures n + 32 < TWO_32 ==> cap == n
  {
    var size := (n + 32) % 0x1_0000_0000;
    if size < 32 then 0 else size - 32
  }

  // The block that a request appends is as large as the request or as twice the last block (at
  // first: as the initial size less its header), whichever is more.
  lemma NewBlockExactly(p: PoolS, n: nat, heap: bool)
    requires ValidPool(p)
    ensures var q := Alloc(p, n, heap).0; var k := |p.blocks|;
            |q.blocks| != k ==>
              && |q.blocks| == k + 1
              && q.blocks[k].cap
                 == Max(Wrapped(n), if k == 0 then Max(0, p.initSize - 32) else Wrapped(2 * p.blocks[k - 1].cap))
  {
    hide CheckIdle, Append, Take, NewCapacity, Wrapped, Idle;
    var (q, ok) := CheckIdle(p, n);
    if ok {
      TakeParts(q, n);
    } else if heap {
      AppendFacts(q, n);
      CapacityExactly(q, n);
      var k := |p.blocks|;
      var z := Append(q, n);
      TakeParts(z, n);
      assert z.blocks[k].cap == NewCapacity(q, n);
    }
  }

  lemma CapacityExactly(p: PoolS, n: nat)
    requires ValidPool(p)
    ensures var k := |p.blocks|;
            NewCapacity(p, n)
            == Max(Wrapped(n), if k == 0 then Max(0, p.initSize - 32) else Wrapped(2 * p.blocks[k - 1].cap))
  {}

  // Some request of the steps makes a block that large.
  ghost predicate Forced(steps: seq<Step>, cap: nat) {
    exists i :: 0 <= i < |steps| && steps[i].Ask? && cap == Wrapped(steps[i].req.size)
  }

  // Block i is exactly twice its predecessor, or the first one, or as a request forced it.
  ghost predicate TightAt(p: PoolS, initSize: nat, steps: seq<Step>, i: nat)
    requires i < |p.blocks|
  {
    || Forced(steps, p.blocks[i].cap)
    || p.blocks[i].cap == if i == 0 then initSize - 32 else Wrapped(2 * p.blocks[i - 1].cap)
  }

  ghost predicate Tight(p: PoolS, initSize: nat, steps: seq<Step>) {
    p.initSize == initSize && forall i :: 0 <= i < |p.blocks| ==> TightAt(p, initSize, steps, i)
  }

  lemma TightNext(p: PoolS, initSize: nat, steps: seq<Step>, req: Request)
    requires ValidPool(p) && initSize >= 32 && Tight(p, initSize, steps) && Ask(req) in steps
    ensures Tight(Alloc(p, req.size, req.heap).0, initSize, steps)
  {
    hide Alloc, Forced, Wrapped;
    var q, k := Alloc(p, req.size, req.heap).0, |p.blocks|;
    AllocGrows(p, req.size, req.heap);
    NewBlockExactly(p, req.size, req.heap);
    OneForced(steps, req);
    forall i | 0 <= i < |q.blocks| ensures TightAt(q, initSize, steps, i) {
      assert 0 < i ==> q.blocks[i - 1].cap == p.blocks[i - 1].cap;
      if i < k {
        assert TightAt(p, initSize, steps, i) && q.blocks[i].cap == p.blocks[i].cap;
      } else {
        assert i == k && |q.blocks| == k + 1;
      }
    }
  }

  lemma OneForced(steps: seq<Step>, req: Request)
    requires Ask(req) in steps
    ensures Forced(steps, Wrapped(req.size))
  {
    var i :| 0 <= i < |steps| && steps[i] == Ask(req);
    assert steps[i].Ask? && Wrapped(req.size) == Wrapped(steps[i].req.size);
  }

  lemma {:induction false} TightFrom(p: PoolS, initSize: nat, all: seq<Step>, steps: seq<Step>)
    requires ValidPool(p) && initSize >= 32 && Tight(p, initSize, all) && forall s :: s in steps ==> s in all
    ensures Tight(Life(p, steps), initSize, all)
    decreases |steps|
  {
    hide Alloc, Tight;
    if steps != [] {
      var rest := steps[1..];
      assert forall s :: s in rest ==> s in steps;
      if steps[0].Release? {
        FreedTight(p, initSize, all);
        TightFrom(Free(p), initSize, all, rest);
      } else {
        assert steps[0] in steps && steps[0] == Ask(steps[0].req);
        TightNext(p, initSize, all, steps[0].req);
        TightFrom(Alloc(p, steps[0].req.size, steps[0].req.heap).0, initSize, all, rest);
      }
    }
  }

  lemma FreedTight(p: PoolS, initSize: nat, steps: seq<Step>)
    requires ValidPool(p) && Tight(p, initSize, steps)
    ensures Tight(Free(p), initSize, steps)
  {
    hide Forced, Wrapped;
    var q := Free(p);
    forall i | 0 <= i < |q.blocks| ensures TightAt(q, initSize, steps, i) {
      assert TightAt(p, initSize, steps, i) && q.blocks[i].cap == p.blocks[i].cap;
      assert i > 0 ==> q.blocks[i - 1].cap == p.blocks[i - 1].cap;
    }
  }

  // In every arena reached by any mix of alloc and free, a block that no request forced is
  // exactly twice its predecessor while header plus double fits in 32 bits.
  lemma ReachableTight(initSize: nat, steps: seq<Step>, i: nat)
    requires MEMPOOL_MIN_SIZE <= initSize < TWO_32
    requires i < |Life(EmptyPool(initSize), steps).blocks|
    requires forall j :: 0 <= j < |steps| && steps[j].Ask? ==>
               Life(EmptyPool(initSize), steps).blocks[i].cap != Wrapped(steps[j].req.size)
    ensures var bs := Life(EmptyPool(initSize), steps).blocks;
            && (i == 0 ==> bs[i].cap == initSize - 32)
            && (i > 0 && 2 * bs[i - 1].cap + 32 < TWO_32 ==> bs[i].cap == 2 * bs[i - 1].cap)
  {
    hide Life, Wrapped;
    var p := Life(EmptyPool(initSize), steps);
    TightFrom(EmptyPool(initSize), initSize, steps, steps);
    assert TightAt(p, initSize, steps, i);
  }

  function Pow2(k: nat): nat { if k == 0 then 1 else 2 * Pow2(k - 1) }

  function TotalCap(blocks: seq<BlockS>): nat {
    if blocks == [] then 0 else TotalCap(blocks[..|blocks| - 1]) + blocks[|blocks| - 1].cap
  }

  lemma Doubled(c: int, e: int, last: int, next: int, total: int)
    requires last >= e * c && next >= 2 * last && total >= (2 * e - 1) * c
    ensures next >= 2 * e * c && total + next >= (4 * e - 1) * c
  {}

  // k doubling blocks hold at least 2^k - 1 times the first, so a pool of bounded size has
  // logarithmically many blocks.
  lemma {:induction false} GeometricCapacity(blocks: seq<BlockS>)
    requires blocks != []
    requires forall i :: 0 < i < |blocks| ==> blocks[i].cap >= 2 * blocks[i - 1].cap
    ensures blocks[|blocks| - 1].cap >= Pow2(|blocks| - 1) * blocks[0].cap
    ensures TotalCap(blocks) >= (Pow2(|blocks|) - 1) * blocks[0].cap
  {
    var k := |blocks| - 1;
    if k == 0 {
      assert Pow2(1) == 2 * Pow2(0);
    } else {
      var front := blocks[..k];
      GeometricCapacity(front);
      var c: int, e: int := blocks[0].cap, Pow2(k - 1);
      assert Pow2(k + 1) == 2 * Pow2(k) == 4 * e;
      assert blocks[k].cap >= 2 * blocks[k - 1].cap;
      Doubled(c, e, blocks[k - 1].cap, blocks[k].cap, TotalCap(front));
    }
  }

  // The arena after any mix of alloc and free, as long as the doubled size of every block
  // that has a successor still fits in 32 bits with its header.
  lemma ReachableCapacity(initSize: nat, steps: seq<Step>)
    requires MEMPOOL_MIN_SIZE <= initSize < TWO_32
    ensures var bs := Life(EmptyPool(initSize), steps).blocks;
            bs != [] && (forall i :: 0 <= i < |bs| - 1 ==> SIZEOF_BLOCK + 2 * bs[i].cap < TWO_32) ==>
              TotalCap(bs) >= (Pow2(|bs|) - 1) * bs[0].cap
  {
    hide Life;
    ReachableDoubles(EmptyPool(initSize), steps);
    var bs := Life(EmptyPool(initSize), steps).blocks;
    if bs != [] && forall i :: 0 <= i < |bs| - 1 ==> SIZEOF_BLOCK + 2 * bs[i].cap < TWO_32 {
      GeometricCapacity(bs);
    }
  }

  // ---------- amortised cost of the tail walk ----------

  function RunMoves(p: PoolS, reqs: seq<Request>): nat
    requires ValidPool(p)
    decreases |reqs|
  {
    if reqs == [] then 0
    else TailMoves(p, reqs[0].size)
         + RunMoves(Alloc(p, reqs[0].size, reqs[0].heap).0, reqs[1..])
  }

  lemma StepMoves(p: PoolS, n: nat, heap: bool)
    requires ValidPool(p)
    ensures TailMoves(p, n) <= Max(Alloc(p, n, heap).0.tail, 0) - Max(p.tail, 0)
  {}

  // Between two `free` calls all the walks together pass each block at most once.
  lemma {:induction false} TailWalksOnce(p: PoolS, reqs: seq<Request>)
    requires ValidPool(p)
    ensures RunMoves(p, reqs) <= Max(0, |Run(p, reqs).0.blocks| - 1 - Max(p.tail, 0))
    decreases |reqs|
  {
    hide ValidPool, Alloc, TailMoves;
    if reqs != [] {
      var q := Alloc(p, reqs[0].size, reqs[0].heap).0;
      StepMoves(p, reqs[0].size, reqs[0].heap);
      TailWalksOnce(q, reqs[1..]);
      TailStays(q, reqs[1..]);
    }
  }

  lemma TailStays(p: PoolS, reqs: seq<Request>)
    requires ValidPool(p)
    ensures p.tail <= |Run(p, reqs).0.blocks| - 1
  {
    RunGrows(p, reqs);
  }
}
