// mxx_varmem_t: a bounded byte buffer edited in place.
module VarMems {
  import opened CTypes

  const EVARMEM_OUT_OF_MEMORY: int := -101

  // The one length whose count, as a signed int, reads like the refusal.
  const LOOKS_REFUSED: int := TWO_32 - 101

  datatype Op =
    | Append(data: seq<byte>)
    | Insert(pos: nat, data: seq<byte>)
    | Fill(pos: nat, ch: byte, n: nat)
    | Erase(pos: nat, n: nat)
    | Replace(pos: nat, data: seq<byte>)
    | Clear

  // `new` laid over `v` from p on, lengthening it if it sticks out.
  function Overlay(v: seq<byte>, p: nat, piece: seq<byte>): (r: seq<byte>)
    requires p <= |v|
    ensures |r| == Max(|v|, p + |piece|)
  {
    v[..p] + piece + if p + |piece| < |v| then v[p + |piece|..] else []
  }

  // The edits as operations on a byte sequence of bounded length, with the answer of the call.
  function Apply(cap: nat, v: seq<byte>, op: Op): (r: (seq<byte>, int))
    requires |v| <= cap
    ensures |r.0| <= cap
  {
    match op
    case Append(data) =>
      if data == [] then (v, 0)
      else if cap - |v| < |data| then (v, EVARMEM_OUT_OF_MEMORY)
      else (v + data, Int32(|data|))
    case Insert(pos, data) =>
      if data == [] then (v, 0)
      else if cap - |v| < |data| then (v, EVARMEM_OUT_OF_MEMORY)
      else var p := Min(pos, |v|); (v[..p] + data + v[p..], Int32(|data|))
    case Fill(pos, ch, n) =>
      if n == 0 then (v, 0)
      else var p := Min(pos, |v|);
           var k := Min(n, cap - p);
           (Overlay(v, p, seq(k, _ => ch)), Int32(k))
    case Erase(pos, n) =>
      if pos >= |v| then (v, 0)
      else var k := Min(n, |v| - pos); (v[..pos] + v[pos + k..], 0)
    case Replace(pos, data) =>
      if data == [] || pos >= |v| then (v, 0)
      else var k := Min(|data|, cap - pos); (Overlay(v, pos, data[..k]), Int32(k))
    case Clear => ([], 0)
  }

  // What insert does to the first n bytes of the buffer `mem`.  The count of bytes to move is a
  // signed int, so a tail of 2^31 bytes or more is overwritten instead.
  function AfterInsert(cap: nat, mem: seq<byte>, n: nat, pos: nat, data: seq<byte>): seq<byte>
    requires n <= cap <= |mem|
  {
    var p := Min(pos, n);
    if data == [] || cap - n < |data| || n - p < TWO_31 then Apply(cap, mem[..n], Op.Insert(pos, data)).0
    else Put(mem[..n + |data|], p, data)
  }

  // What erase does.  A tail of 2^31 bytes or more stays and the end is cut off instead.
  function AfterErase(cap: nat, v: seq<byte>, pos: nat, len: nat): (r: seq<byte>)
    requires |v| <= cap
    ensures pos + len <= |v| ==> |r| == |v| - len
  {
    var k := if pos < |v| then Min(len, |v| - pos) else 0;
    if |v| - pos - k < TWO_31 then Apply(cap, v, Op.Erase(pos, len)).0 else v[..|v| - k]
  }

  // The buffer from the outside: all its bytes and how many of them are data.
  datatype Buffer = Buffer(mem: seq<byte>, n: nat)

  // What an edit leaves in the view.
  function Effect(cap: nat, b: Buffer, op: Op): seq<byte>
    requires b.n <= cap <= |b.mem|
  {
    match op
    case Insert(pos, data) => AfterInsert(cap, b.mem, b.n, pos, data)
    case Erase(pos, len) => AfterErase(cap, b.mem[..b.n], pos, len)
    case _ => Apply(cap, b.mem[..b.n], op).0
  }

  class VarMem {
    const size: nat
    var length: nat
    const databuff: array<byte>

    ghost predicate Valid()
      reads this
    {
      length <= size <= databuff.Length && size < TWO_32
    }

    ghost function View(): seq<byte>
      requires Valid()
      reads this, databuff
    {
      databuff[..length]
    }

    ghost function State(): Buffer
      reads this, databuff
    {
      Buffer(databuff[..], length)
    }

    // The stored size has 32 bits, so a larger buffer is used in part only.
    constructor (size: nat)
      ensures Valid() && this.size == U32(size) && View() == [] && fresh(databuff)
      ensures databuff[..] == Zeros(size)
    {
      this.size := U32(size);
      databuff := new byte[size](_ => 0);
      length := 0;
    }

    // mxx_varmem_create; `heap` is malloc's answer.
    static method Create(size: nat, heap: bool) returns (m: VarMem?)
      ensures m == null <==> size == 0 || !heap
      ensures m != null ==> fresh(m) && fresh(m.databuff) && m.Valid() && m.size == U32(size) && m.View() == []
    {
      m := null;
      if size > 0 && heap {
        m := new VarMem(size);
      }
    }

    method Clear()
      requires Valid()
      modifies this, databuff
      ensures Valid() && View() == Apply(size, old(View()), Op.Clear).0 == []
    {
      length := 0;
      forall k | 0 <= k < size {
        databuff[k] := 0;
      }
    }

    method Append(data: seq<byte>) returns (rc: int)
      requires Valid()
      modifies this, databuff
      ensures Valid() && (View(), rc) == Apply(size, old(View()), Op.Append(data))
      ensures View() == old(View()) + if |data| <= size - |old(View())| then data else []
      ensures rc == EVARMEM_OUT_OF_MEMORY <==> size - |old(View())| < |data| || |data| == LOOKS_REFUSED
    {
      Int32Refused(|data|);
      if data == [] {
        return 0;
      }
      if size - length < |data| {
        return EVARMEM_OUT_OF_MEMORY;
      }
      CopyInto(databuff, length, data);
      length := length + |data|;
      rc := Int32(|data|);
    }

    // Inserts by moving the tail up one byte at a time, last byte first.  The count of bytes to
    // move is a signed int, so a tail of 2^31 bytes or more is overwritten instead.
    method Insert(startpos: nat, data: seq<byte>) returns (rc: int)
      requires Valid()
      modifies this, databuff
      ensures Valid()
      ensures View() == AfterInsert(size, old(databuff[..]), old(length), startpos, data)
      ensures rc == Apply(size, old(View()), Op.Insert(startpos, data)).1
      ensures size - |old(View())| < |data| ==> View() == old(View())
      ensures rc == EVARMEM_OUT_OF_MEMORY <==> size - |old(View())| < |data| || |data| == LOOKS_REFUSED
    {
      Int32Refused(|data|);
      hide Int32, Put;
      if data == [] {
        return 0;
      }
      if size - length < |data| {
        return EVARMEM_OUT_OF_MEMORY;
      }
      InsertAt(if startpos > length then length else startpos, data);
      rc := Int32(|data|);
    }

    method InsertAt(p: nat, data: seq<byte>)
      requires Valid() && p <= length && |data| <= size - length
      modifies this, databuff
      ensures Valid()
      ensures var v := old(View());
              View() == if |v| - p < TWO_31 then v[..p] + data + v[p..]
                        else Put(old(databuff[..])[..|v| + |data|], p, data)
    {
      hide Put;
      ghost var mem, v := databuff[..], View();
      assert v <= mem;
      MoveTail(p, |data|);
      ghost var moved := databuff[..];
      CopyInto(databuff, p, data);
      ghost var now := databuff[..];
      InsertedAt(mem, v, p, data, moved, now);
      length := length + |data|;
      assert View() == now[..|v| + |data|];
    }

    // Moves the bytes from p on up by n, if their number fits a signed int.
    method MoveTail(p: nat, n: nat)
      requires Valid() && p <= length && n <= size - length
      modifies databuff
      ensures databuff[..] == if length - p < TWO_31
                              then Put(old(databuff[..]), p + n, old(databuff[..])[p..length])
                              else old(databuff[..])
    {
      hide Int32, Put;
      ghost var was := databuff[..];
      Int32Of(length - p);
      var count := Int32(length - p);
      CopyUp(length - 1, n, count);
      ghost var now := databuff[..];
      if count > 0 {
        forall k | 0 <= k < |was|
          ensures now[k] == if length - 1 + n - count < k <= length - 1 + n then was[k - n] else was[k]
        {
          assert now[k] == databuff[k];
        }
        MovedUp(was, now, length - 1, n, count);
      } else {
        assert now == was;
        PutNothing(was, p + n, p, length);
      }
    }

    // The backward copy: `count` bytes ending at index `last` go n places up.
    method CopyUp(last: int, n: nat, count: int)
      requires -1 <= last && last + n < databuff.Length && count <= last + 1
      modifies databuff
      ensures forall k :: 0 <= k < databuff.Length ==>
                databuff[k] == if last + n - Max(count, 0) < k <= last + n then old(databuff[k - n])
                               else old(databuff[k])
    {
      var src, dst, left := last, last + n, count;
      while left > 0
        invariant dst == src + n && -1 <= src <= last
        invariant if count > 0 then left == count - (last - src) >= 0 else left == count && src == last
        invariant forall k :: dst < k <= last + n ==> databuff[k] == old(databuff[k - n])
        invariant forall k :: 0 <= k <= dst ==> databuff[k] == old(databuff[k])
        invariant forall k :: last + n < k < databuff.Length ==> databuff[k] == old(databuff[k])
        decreases left
      {
        databuff[dst] := databuff[src];
        src, dst, left := src - 1, dst - 1, left - 1;
      }
    }

    method Fill(startpos: nat, ch: byte, len: nat) returns (rc: int)
      requires Valid()
      modifies this, databuff
      ensures Valid() && (View(), rc) == Apply(size, old(View()), Op.Fill(startpos, ch, len))
    {
      hide Int32, Put;
      if len == 0 {
        return 0;
      }
      var p := if startpos > length then length else startpos;
      var n := if p + len > size then size - p else len;
      CopyOver(p, seq(n, _ => ch));
      rc := Int32(n);
    }

    method Replace(startpos: nat, data: seq<byte>) returns (rc: int)
      requires Valid()
      modifies this, databuff
      ensures Valid() && (View(), rc) == Apply(size, old(View()), Op.Replace(startpos, data))
    {
      hide Int32, Put;
      if data == [] || startpos >= length {
        return 0;
      }
      var n := if startpos + |data| > size then size - startpos else |data|;
      CopyOver(startpos, data[..n]);
      rc := Int32(n);
    }

    // Copies bytes over the buffer from p on; the length grows if they stick out.
    method CopyOver(p: nat, bytes: seq<byte>)
      requires Valid() && p <= length && p + |bytes| <= size
      modifies this, databuff
      ensures Valid() && View() == Overlay(old(View()), p, bytes)
    {
      CopyInto(databuff, p, bytes);
      if p + |bytes| > length {
        length := p + |bytes|;
      }
    }

    // Removes by moving the tail down; the count of bytes to move is a signed int, so a tail of
    // 2^31 bytes or more stays where it is and the end is cut off instead.
    method Erase(startpos: nat, len: nat)
      requires Valid()
      modifies this, databuff
      ensures Valid()
      ensures View() == AfterErase(size, old(View()), startpos, len)
      ensures old(length) - startpos - len >= TWO_31 && len > 0 ==>
                databuff[..] == old(databuff[..])[old(length) - len := 0]
    {
      hide Int32, Put;
      if startpos >= length {
        return;
      }
      var k := if length - startpos < len then length - startpos else len;
      if k > 0 {
        EraseAt(startpos, k);
      }
    }

    method EraseAt(startpos: nat, k: nat)
      requires Valid() && 0 < k && startpos + k <= length
      modifies this, databuff
      ensures Valid()
      ensures var v := old(View());
              View() == if |v| - startpos - k < TWO_31 then v[..startpos] + v[startpos + k..]
                        else v[..|v| - k]
      ensures old(length) - startpos - k >= TWO_31 ==>
                databuff[..] == old(databuff[..])[old(length) - k := 0]
    {
      hide Int32, Put;
      ghost var v := databuff[..length];
      Int32Of(length - startpos - k);
      var count := Int32(length - startpos - k);
      if count > 0 {
        CopyInto(databuff, startpos, databuff[startpos + k..startpos + k + count]);
      }
      Erased(v, startpos, k, databuff[..length]);
      length := length - k;
      databuff[length] := 0;
    }

    // Any edit does to the view what it does to a byte string of bounded length, exactly when
    // the tail it moves is short or the bytes it fails to move are there already.
    method Perform(op: Op)
      requires Valid()
      modifies this, databuff
      ensures Valid() && View() == Effect(size, old(State()), op)
      ensures View() == Apply(size, old(View()), op).0 <==> Unharmed(size, old(State()), op)
    {
      hide Int32, Put, Apply, AfterInsert, AfterErase, Unharmed;
      UnharmedExactly(size, State(), op);
      assert State().mem[..length] == View();
      match op {
        case Append(data) => var _ := Append(data);
        case Insert(pos, data) => var _ := Insert(pos, data);
        case Fill(pos, ch, n) => var _ := Fill(pos, ch, n);
        case Erase(pos, n) => Erase(pos, n);
        case Replace(pos, data) => var _ := Replace(pos, data);
        case Clear => Clear();
      }
    }

    // A run of edits leads through the buffers `trail`, each with the effect of its edit on the
    // one before; when all the tails are short the whole run acts as on a byte string.
    method PerformAll(ops: seq<Op>) returns (ghost trail: seq<Buffer>)
      requires Valid()
      modifies this, databuff
      ensures Valid() && Steps(size, trail, ops) && trail[0] == old(State()) && trail[|ops|] == State()
      ensures ShortTails(size, old(View()), ops) ==> View() == Run(size, old(View()), ops)
    {
      hide Apply, Effect, ShortTail;
      ghost var v, short := View(), ShortTails(size, View(), ops);
      trail := [State()];
      for i := 0 to |ops|
        invariant Valid() && Steps(size, trail, ops[..i]) && trail[0] == old(State()) && trail[i] == State()
        invariant short ==> ShortTails(size, View(), ops[i..]) && Run(size, v, ops) == Run(size, View(), ops[i..])
      {
        assert ops[i..][0] == ops[i] && ops[i..][1..] == ops[i + 1..] && ops[..i + 1] == ops[..i] + [ops[i]];
        if short { ShortUnharmed(size, State(), ops[i]); }
        Perform(ops[i]);
        trail := trail + [State()];
      }
      assert ops[..|ops|] == ops;
    }

    // Erasing what was just inserted restores the view exactly when the tail is short, or long but
    // overwritten with the bytes that were there.
    method InsertThenErase(p: nat, data: seq<byte>)
      requires Valid() && p <= length && |data| <= size - length
      modifies this, databuff
      ensures Valid()
      ensures View() == old(View()) <==> old(length) - p < TWO_31 || data == old(View())[p..p + |data|]
    {
      hide Put, Int32, AfterInsert, AfterErase;
      assert databuff[..][..length] == View();
      InsertErased(size, databuff[..], length, p, data);
      var _ := Insert(p, data);
      Erase(p, |data|);
    }

    // Erasing and inserting as many bytes replaces them exactly when the tail is short, or the byte
    // that erase zeroes behind the shortened data was zero; so erasing bytes and inserting them
    // again restores the view in the same cases.
    method EraseThenInsert(p: nat, data: seq<byte>)
      requires Valid() && p + |data| <= length
      modifies this, databuff
      ensures Valid()
      ensures View() == Overlay(old(View()), p, data) <==> Mended(old(View()), p, data)
      ensures data == old(View())[p..p + |data|] ==> (View() == old(View()) <==> Mended(old(View()), p, data))
    {
      hide Put, Int32, AfterInsert, AfterErase, Overlay, Mended;
      ghost var was, n, v := databuff[..], length, View();
      assert was[..n] == v;
      OverlaySame(v, p, data);
      Erase(p, |data|);
      assert databuff[..][..length] == View();
      EraseInserted(size, was, n, databuff[..], p, data);
      var _ := Insert(p, data);
    }

    // Lengthens the view over whatever the buffer holds there.
    method Skip(len: nat) returns (rc: int)
      requires Valid()
      modifies this
      ensures Valid()
      ensures var k := Min(len, size - old(length));
              View() == old(View()) + databuff[old(length)..old(length) + k] && rc == Int32(k)
    {
      if len == 0 {
        return 0;
      }
      var n := if length + len > size then size - length else len;
      length := length + n;
      rc := Int32(n);
    }
  }

  ghost predicate Steps(cap: nat, trail: seq<Buffer>, ops: seq<Op>) {
    && |trail| == |ops| + 1
    && (forall i :: 0 <= i < |trail| ==> trail[i].n <= cap <= |trail[i].mem|)
    && forall i :: 0 <= i < |ops| ==> trail[i + 1].mem[..trail[i + 1].n] == Effect(cap, trail[i], ops[i])
  }

  lemma Int32Refused(n: nat)
    ensures n < TWO_32 ==> (Int32(n) == EVARMEM_OUT_OF_MEMORY <==> n == LOOKS_REFUSED)
  {
    if n < TWO_32 { Int32Of(n); }
  }

  lemma PutNothing(was: seq<byte>, at: nat, p: nat, n: nat)
    requires at <= |was| && p <= n <= |was|
    ensures p == n ==> Put(was, at, was[p..n]) == was
  {}

  lemma MovedUp(was: seq<byte>, now: seq<byte>, last: int, n: nat, c: nat)
    requires -1 <= last && c <= last + 1 && last + n < |was| == |now|
    requires forall k {:trigger now[k]} :: 0 <= k < |was| ==>
               now[k] == if last + n - c < k <= last + n then was[k - n] else was[k]
    ensures now == Put(was, last + 1 - c + n, was[last + 1 - c..last + 1])
  {
    var at, t := last + 1 - c + n, Put(was, last + 1 - c + n, was[last + 1 - c..last + 1]);
    forall k | 0 <= k < |was| ensures now[k] == t[k] {
      if at <= k < at + c {
        assert was[last + 1 - c..last + 1][k - at] == was[k - n];
      }
    }
  }

  lemma InsertedAt(mem: seq<byte>, v: seq<byte>, p: nat, data: seq<byte>, moved: seq<byte>, now: seq<byte>)
    requires v <= mem && p <= |v| && |v| + |data| <= |mem|
    requires moved == if |v| - p < TWO_31 then Put(mem, p + |data|, mem[p..|v|]) else mem
    requires now == Put(moved, p, data)
    ensures now[..|v| + |data|] == if |v| - p < TWO_31 then v[..p] + data + v[p..]
                                   else Put(mem[..|v| + |data|], p, data)
  {
    var n := |v|;
    assert mem[..n] == v;
    if n - p < TWO_31 {
      Inserted(mem, n, p, data);
    } else {
      Overwritten(mem, n + |data|, p, data);
    }
  }

  // What the buffer holds after the tail has been moved and the data copied in.
  lemma Inserted(was: seq<byte>, length: nat, p: nat, data: seq<byte>)
    requires p <= length && length + |data| <= |was|
    ensures Put(Put(was, p + |data|, was[p..length]), p, data)[..length + |data|]
         == was[..length][..p] + data + was[..length][p..]
  {}

  lemma Overwritten(was: seq<byte>, n: nat, p: nat, data: seq<byte>)
    requires p + |data| <= n <= |was|
    ensures Put(was, p, data)[..n] == Put(was[..n], p, data)
  {}

  lemma Erased(v: seq<byte>, p: nat, k: nat, now: seq<byte>)
    requires p + k <= |v|
    requires now == (if |v| - p - k < TWO_31 then Put(v, p, v[p + k..]) else v)
    ensures now[..|v| - k] == if |v| - p - k < TWO_31 then v[..p] + v[p + k..] else v[..|v| - k]
  {}

  // ---------- laws ----------

  function Run(cap: nat, v: seq<byte>, ops: seq<Op>): (r: seq<byte>)
    requires |v| <= cap
    ensures |r| <= cap
    decreases |ops|
  {
    if ops == [] then v else Run(cap, Apply(cap, v, ops[0]).0, ops[1..])
  }

  predicate Refused(cap: nat, v: seq<byte>, op: Op)
    requires |v| <= cap
  {
    match op
    case Append(data) => |data| > cap - |v|
    case Insert(_, data) => |data| > cap - |v|
    case _ => false
  }

  // The number of bytes the edit moves fits a signed int.
  predicate ShortTail(v: seq<byte>, op: Op) {
    match op
    case Insert(pos, _) => |v| - Min(pos, |v|) < TWO_31
    case Erase(pos, n) => |v| - pos - n < TWO_31
    case _ => true
  }

  // The tail is short, or already repeated where the edit should have moved it to.
  predicate Unharmed(cap: nat, b: Buffer, op: Op)
    requires b.n <= cap <= |b.mem|
  {
    ShortTail(b.mem[..b.n], op) ||
    match op
    case Insert(pos, data) =>
      var p, m := Min(pos, b.n), |data|;
      m == 0 || cap - b.n < m || b.mem[p + m..b.n + m] == b.mem[p..b.n]
    case Erase(pos, len) =>
      var v := b.mem[..b.n];
      v[pos..|v| - len] == v[pos + len..]
    case _ => true
  }

  lemma UnharmedExactly(cap: nat, b: Buffer, op: Op)
    requires b.n <= cap <= |b.mem|
    ensures Effect(cap, b, op) == Apply(cap, b.mem[..b.n], op).0 <==> Unharmed(cap, b, op)
  {
    match op
    case Insert(pos, data) => InsertUnharmed(cap, b, pos, data);
    case Erase(pos, len) => EraseUnharmed(cap, b, pos, len);
    case _ =>
  }

  lemma InsertUnharmed(cap: nat, b: Buffer, pos: nat, data: seq<byte>)
    requires b.n <= cap <= |b.mem|
    ensures var op := Op.Insert(pos, data);
            AfterInsert(cap, b.mem, b.n, pos, data) == Apply(cap, b.mem[..b.n], op).0 <==> Unharmed(cap, b, op)
  {
    hide Apply, Put;
    if data != [] && cap - b.n >= |data| && b.n - Min(pos, b.n) >= TWO_31 {
      Pasted(cap, b.mem[..b.n], pos, data);
      InsertHarm(b.mem, b.n, Min(pos, b.n), data);
    }
  }

  lemma EraseUnharmed(cap: nat, b: Buffer, pos: nat, len: nat)
    requires b.n <= cap <= |b.mem|
    ensures var op := Op.Erase(pos, len);
            AfterErase(cap, b.mem[..b.n], pos, len) == Apply(cap, b.mem[..b.n], op).0 <==> Unharmed(cap, b, op)
  {
    hide Apply;
    if b.n - pos - len >= TWO_31 {
      var v := b.mem[..b.n];
      Cut(cap, v, pos, len);
      EraseHarm(v, pos, len);
    }
  }

  lemma InsertHarm(mem: seq<byte>, n: nat, p: nat, data: seq<byte>)
    requires p <= n && n + |data| <= |mem|
    ensures Put(mem[..n + |data|], p, data) == mem[..n][..p] + data + mem[..n][p..]
            <==> mem[p + |data|..n + |data|] == mem[p..n]
  {
    var w, z := Put(mem[..n + |data|], p, data), mem[..n][..p] + data + mem[..n][p..];
    assert w[p + |data|..] == mem[p + |data|..n + |data|] && z[p + |data|..] == mem[p..n];
    assert w[..p + |data|] == z[..p + |data|];
    assert w == w[..p + |data|] + w[p + |data|..] && z == z[..p + |data|] + z[p + |data|..];
  }

  lemma EraseHarm(v: seq<byte>, p: nat, k: nat)
    requires p + k <= |v|
    ensures v[..|v| - k] == v[..p] + v[p + k..] <==> v[p..|v| - k] == v[p + k..]
  {
    var w, z := v[..|v| - k], v[..p] + v[p + k..];
    assert w[p..] == v[p..|v| - k] && z[p..] == v[p + k..] && w[..p] == z[..p];
    assert w == w[..p] + w[p..] && z == z[..p] + z[p..];
  }

  lemma ShortUnharmed(cap: nat, b: Buffer, op: Op)
    requires b.n <= cap <= |b.mem| && ShortTail(b.mem[..b.n], op)
    ensures Unharmed(cap, b, op)
  {}

  // Erasing the first of 2^31 + 1 bytes, a one before zeros, leaves the one in place.
  lemma LongTailExample()
    ensures var v := [1] + Zeros(TWO_31);
            && AfterErase(|v|, v, 0, 1) == [1] + Zeros(TWO_31 - 1)
            && Apply(|v|, v, Op.Erase(0, 1)).0 == Zeros(TWO_31)
            && AfterErase(|v|, v, 0, 1) != Apply(|v|, v, Op.Erase(0, 1)).0
  {
    var v, w := [1] + Zeros(TWO_31), [1] + Zeros(TWO_31 - 1);
    assert v[..|v| - 1] == w;
    assert v[..0] + v[1..] == Zeros(TWO_31);
    assert w[0] == 1 && Zeros(TWO_31)[0] == 0;
  }

  predicate ShortTails(cap: nat, v: seq<byte>, ops: seq<Op>)
    requires |v| <= cap
    decreases |ops|
  {
    ops == [] || (ShortTail(v, ops[0]) && ShortTails(cap, Apply(cap, v, ops[0]).0, ops[1..]))
  }

  // Every edit of a buffer below 2^31 bytes moves a short tail.
  lemma {:induction false} SmallShort(cap: nat, v: seq<byte>, ops: seq<Op>)
    requires |v| <= cap < TWO_31
    ensures ShortTails(cap, v, ops)
    decreases |ops|
  {
    if ops != [] {
      SmallShort(cap, Apply(cap, v, ops[0]).0, ops[1..]);
    }
  }

  // An accepted append keeps what was there, puts the data behind it and counts it; it is the same
  // as inserting at the end.  Data that does not fit changes nothing.
  lemma AppendLaw(cap: nat, v: seq<byte>, data: seq<byte>)
    requires |v| <= cap
    ensures var (w, rc) := Apply(cap, v, Op.Append(data));
            if |data| <= cap - |v| then
              && |w| == |v| + |data| && w[..|v|] == v && w[|v|..] == data
              && (|data| < TWO_31 ==> rc == |data|)
              && (w, rc) == Apply(cap, v, Op.Insert(|v|, data))
            else w == v && rc == -101
  {
    assert v[..|v|] + data + v[|v|..] == v + data;
    if data == [] {
      assert v + data == v;
    }
  }

  // The pieces, one after another, that still fit into `room` bytes when their turn comes.
  function Fitting(room: nat, pieces: seq<seq<byte>>): seq<byte>
    decreases |pieces|
  {
    if pieces == [] then []
    else if |pieces[0]| > room then Fitting(room, pieces[1..])
    else pieces[0] + Fitting(room - |pieces[0]|, pieces[1..])
  }

  function AppendOps(pieces: seq<seq<byte>>): seq<Op>
    decreases |pieces|
  {
    if pieces == [] then [] else [Op.Append(pieces[0])] + AppendOps(pieces[1..])
  }

  // A run of appends stores the pieces that fit, in order.
  lemma {:induction false} AppendsConcatenate(cap: nat, v: seq<byte>, pieces: seq<seq<byte>>)
    requires |v| <= cap
    ensures Run(cap, v, AppendOps(pieces)) == v + Fitting(cap - |v|, pieces)
    decreases |pieces|
  {
    hide Apply;
    if pieces == [] {
      assert v + [] == v;
    } else {
      var w := Apply(cap, v, Op.Append(pieces[0])).0;
      AppendLaw(cap, v, pieces[0]);
      var ops := AppendOps(pieces);
      assert ops[0] == Op.Append(pieces[0]) && ops[1..] == AppendOps(pieces[1..]);
      AppendsConcatenate(cap, w, pieces[1..]);
      if |pieces[0]| <= cap - |v| {
        assert w == v + pieces[0];
        assert v + pieces[0] + Fitting(cap - |w|, pieces[1..]) == v + (pieces[0] + Fitting(cap - |w|, pieces[1..]));
      }
    }
  }

  function Repeated(n: nat, ch: byte): (s: seq<byte>)
    ensures |s| == n && forall i :: 0 <= i < n ==> s[i] == ch
  {
    seq(n, _ => ch)
  }

  // Filling within the data is replacing by as many copies, filling at its end (or behind it) is
  // appending as many of them as fit.
  lemma FillLaw(cap: nat, v: seq<byte>, pos: nat, ch: byte, n: nat)
    requires |v| <= cap
    ensures Apply(cap, v, Op.Fill(pos, ch, n))
         == if pos < |v| then Apply(cap, v, Op.Replace(pos, Repeated(n, ch)))
            else Apply(cap, v, Op.Append(Repeated(Min(n, cap - |v|), ch)))
  {
    if n > 0 {
      if pos < |v| {
        var k := Min(n, cap - pos);
        assert Repeated(n, ch)[..k] == seq(k, _ => ch);
      } else {
        var k := Min(n, cap - |v|);
        assert Repeated(k, ch) == seq(k, _ => ch);
        assert v[..|v|] + seq(k, _ => ch) + [] == v + seq(k, _ => ch);
        if k == 0 {
          assert v + seq(k, _ => ch) == v;
        }
      }
    }
  }

  // Clearing is erasing everything.
  lemma ClearLaw(cap: nat, v: seq<byte>)
    requires |v| <= cap
    ensures Apply(cap, v, Op.Clear).0 == Apply(cap, v, Op.Erase(0, |v|)).0
  {
    assert v != [] ==> v[..0] + v[|v|..] == [];
  }

  // Erasing takes out the bytes from `pos` on, as many as there are.
  lemma EraseLaw(cap: nat, v: seq<byte>, pos: nat, n: nat)
    requires |v| <= cap
    ensures Apply(cap, v, Op.Erase(pos, n)).0 == v[..Min(pos, |v|)] + v[Min(pos + n, |v|)..]
  {
    if pos >= |v| {
      assert v[..|v|] + v[|v|..] == v;
    }
  }

  // Replacing keeps every byte outside the range and puts the data there, as far as it fits.
  lemma ReplaceLaw(cap: nat, v: seq<byte>, pos: nat, data: seq<byte>)
    requires |v| <= cap
    ensures pos >= |v| ==> Apply(cap, v, Op.Replace(pos, data)) == (v, 0)
    ensures pos < |v| ==>
            var (w, k) := (Apply(cap, v, Op.Replace(pos, data)).0, Min(|data|, cap - pos));
            && |w| == Max(|v|, pos + k) && w[..pos] == v[..pos] && w[pos..pos + k] == data[..k]
            && forall i :: pos + k <= i < |w| ==> w[i] == v[i]
  {}

  lemma InsertErased(cap: nat, mem: seq<byte>, n: nat, p: nat, data: seq<byte>)
    requires p <= n && n + |data| <= cap <= |mem| && cap < TWO_32
    ensures var w := AfterInsert(cap, mem, n, p, data);
            && |w| <= cap
            && (AfterErase(cap, w, p, |data|) == mem[..n]
                <==> n - p < TWO_31 || data == mem[..n][p..p + |data|])
  {
    var v := mem[..n];
    if data == [] {
      EraseNothing(cap, v, p);
    } else if n - p < TWO_31 {
      hide Put;
      EraseUndoesInsert(cap, v, p, data);
      RunTwo(cap, v, Op.Insert(p, data), Op.Erase(p, |data|));
      hide Apply;
    } else {
      hide Put, Apply;
      LongInsert(mem, n, p, data);
    }
  }

  lemma EraseNothing(cap: nat, v: seq<byte>, p: nat)
    requires |v| <= cap
    ensures AfterErase(cap, v, p, 0) == v && Apply(cap, v, Op.Insert(p, [])).0 == v
  {
    assert p < |v| ==> v[..p] + v[p + 0..] == v;
  }

  lemma LongInsert(mem: seq<byte>, n: nat, p: nat, data: seq<byte>)
    requires p + |data| <= n && n + |data| <= |mem|
    ensures Put(mem[..n + |data|], p, data)[..n] == mem[..n] <==> data == mem[..n][p..p + |data|]
  {
    var w := Put(mem[..n + |data|], p, data);
    if w[..n] == mem[..n] {
      assert w[..n][p..p + |data|] == data;
    }
  }

  // The tail is short, or the byte that erase zeroes behind the shortened data is zero anyway.
  predicate Mended(v: seq<byte>, p: nat, data: seq<byte>)
    requires p + |data| <= |v|
  {
    data == [] || |v| - p - |data| < TWO_31 || v[|v| - |data|] == 0
  }

  // `now` is the buffer after the erase.
  lemma EraseInserted(cap: nat, mem: seq<byte>, n: nat, now: seq<byte>, p: nat, data: seq<byte>)
    requires p + |data| <= n <= cap <= |mem| == |now| && cap < TWO_32
    requires now[..n - |data|] == AfterErase(cap, mem[..n], p, |data|)
    requires n - p - |data| >= TWO_31 && data != [] ==> now == mem[n - |data| := 0]
    ensures AfterInsert(cap, now, n - |data|, p, data) == Overlay(mem[..n], p, data) <==> Mended(mem[..n], p, data)
  {
    hide Put, Overlay, Apply, Run;
    var v := mem[..n];
    if data == [] {
      OverlayNothing(v, p);
      EraseNothing(cap, v, p);
    } else if n - p - |data| < TWO_31 {
      ShortReplace(cap, v, p, data);
    } else {
      LongReplace(mem, n, p, data);
    }
  }

  lemma OverlayNothing(v: seq<byte>, p: nat)
    requires p <= |v|
    ensures Overlay(v, p, []) == v
  {}

  lemma ShortReplace(cap: nat, v: seq<byte>, p: nat, data: seq<byte>)
    requires |v| <= cap && p + |data| <= |v| && data != []
    ensures var w := Apply(cap, v, Op.Erase(p, |data|)).0;
            |w| <= cap && Apply(cap, w, Op.Insert(p, data)).0 == Overlay(v, p, data)
  {
    hide Run;
    ReplaceIsEraseInsert(cap, v, p, data);
    RunTwo(cap, v, Op.Erase(p, |data|), Op.Insert(p, data));
    RunOne(cap, v, Op.Replace(p, data));
    assert data[..|data|] == data;
  }

  lemma RunOne(cap: nat, v: seq<byte>, a: Op)
    requires |v| <= cap
    ensures Run(cap, v, [a]) == Apply(cap, v, a).0
  {
    var w := Apply(cap, v, a).0;
    assert [a][1..] == [] && Run(cap, w, []) == w;
  }

  lemma LongReplace(mem: seq<byte>, n: nat, p: nat, data: seq<byte>)
    requires 0 < |data| && p + |data| <= n - |data| && n <= |mem|
    ensures Put(mem[n - |data| := 0][..n], p, data) == Overlay(mem[..n], p, data) <==> mem[n - |data|] == 0
  {
    var w, z := Put(mem[n - |data| := 0][..n], p, data), Overlay(mem[..n], p, data);
    assert w[n - |data|] == 0 && z[n - |data|] == mem[n - |data|];
    if mem[n - |data|] == 0 {
      assert mem[n - |data| := 0] == mem;
    }
  }

  // Erasing what was inserted restores the view.
  lemma EraseUndoesInsert(cap: nat, v: seq<byte>, p: nat, data: seq<byte>)
    requires |v| <= cap && p <= |v| && !Refused(cap, v, Op.Insert(p, data))
    ensures Run(cap, v, [Op.Insert(p, data), Op.Erase(p, |data|)]) == v
  {
    var w := Apply(cap, v, Op.Insert(p, data)).0;
    var z := Apply(cap, w, Op.Erase(p, |data|)).0;
    RunTwo(cap, v, Op.Insert(p, data), Op.Erase(p, |data|));
    assert w == v[..p] + data + v[p..];
    assert z == v;
  }

  // Replacing within the data is erasing as much and inserting the new bytes.
  lemma ReplaceIsEraseInsert(cap: nat, v: seq<byte>, p: nat, data: seq<byte>)
    requires |v| <= cap && p + |data| <= |v|
    ensures Run(cap, v, [Op.Replace(p, data)]) == Run(cap, v, [Op.Erase(p, |data|), Op.Insert(p, data)])
  {
    hide Apply;
    RunTwo(cap, v, Op.Erase(p, |data|), Op.Insert(p, data));
    RunOne(cap, v, Op.Replace(p, data));
    Cut(cap, v, p, |data|);
    var w := v[..p] + v[p + |data|..];
    if data == [] {
      assert w == v;
      EraseNothing(cap, v, p);
      ReplaceNothing(cap, v, p);
    } else {
      Pasted(cap, w, p, data);
      assert w[..p] == v[..p] && w[p..] == v[p + |data|..];
      Replaced(cap, v, p, data);
    }
  }

  lemma Cut(cap: nat, v: seq<byte>, p: nat, k: nat)
    requires |v| <= cap && p + k <= |v|
    ensures Apply(cap, v, Op.Erase(p, k)).0 == v[..p] + v[p + k..]
  {}

  lemma Pasted(cap: nat, w: seq<byte>, p: nat, data: seq<byte>)
    requires |w| + |data| <= cap && data != []
    ensures var at := Min(p, |w|); Apply(cap, w, Op.Insert(p, data)).0 == w[..at] + data + w[at..]
  {}

  lemma Replaced(cap: nat, v: seq<byte>, p: nat, data: seq<byte>)
    requires |v| <= cap && p + |data| <= |v| && data != []
    ensures Apply(cap, v, Op.Replace(p, data)).0 == v[..p] + data + v[p + |data|..]
  {
    assert data[..|data|] == data;
    assert p + |data| == |v| ==> v[..p] + data + [] == v[..p] + data + v[p + |data|..];
  }

  lemma ReplaceNothing(cap: nat, v: seq<byte>, p: nat)
    requires |v| <= cap
    ensures Apply(cap, v, Op.Replace(p, [])).0 == v
  {}

  // So erasing bytes and inserting them again restores the view.
  lemma OverlaySame(v: seq<byte>, p: nat, data: seq<byte>)
    requires p + |data| <= |v|
    ensures data == v[p..p + |data|] ==> Overlay(v, p, data) == v
  {}

  lemma RunTwo(cap: nat, v: seq<byte>, a: Op, b: Op)
    requires |v| <= cap
    ensures Run(cap, v, [a, b]) == Apply(cap, Apply(cap, v, a).0, b).0
  {
    var w := Apply(cap, v, a).0;
    assert [a, b][1..] == [b] && Run(cap, w, [b]) == Apply(cap, w, b).0;
  }
}
