// The receiving thread: mxx_read_event, do_read_data and the queue of received packets.
module Receiver {
  import opened CTypes
  import opened NetSpec
  import opened BinPacks

  class Socket {
    var world: World

    constructor (w: World)
      ensures world == w
    {
      world := w;
    }

    method Recv(max: nat, peek: bool) returns (r: Reply)
      modifies this
      ensures (world, r) == NetSpec.Recv(old(world), max, peek)
    {
      var (w, reply) := NetSpec.Recv(world, max, peek);
      world, r := w, reply;
    }

    method Malloc() returns (ok: bool)
      modifies this
      ensures (world, ok) == NetSpec.Malloc(old(world))
    {
      var (w, answer) := NetSpec.Malloc(world);
      world, ok := w, answer;
    }
  }

  // ST_SOCKET_BUFF_INFO
  class BuffInfo {
    var buff: BinPack?
    var buffSize: int
    var dataLen: int
    var totalProcLen: int

    constructor ()
      ensures buff == null
    {
      buff, buffSize, dataLen, totalProcLen := null, 0, 0, 0;
    }
  }

  // What a received buffer carries: its own header word stays 0, its size tells the length.
  ghost predicate Carries(b: BinPack, packet: seq<byte>)
    reads b, b.body
  {
    b.Valid() && b.binDataLen == 0 && b.body[..] == packet
  }

  // The rest of a receive loop that already holds `got`.
  function After(got: seq<byte>, r: (World, seq<byte>, int)): (World, seq<byte>, int) {
    (r.0, got + r.1, r.2)
  }

  lemma AfterAfter(a: seq<byte>, b: seq<byte>, r: (World, seq<byte>, int))
    ensures After(a, After(b, r)) == After(a + b, r) && After([], r) == r
    ensures After(a, (r.0, [], r.2)) == (r.0, a, r.2)
  {
    assert a + (b + r.1) == (a + b) + r.1 && [] + r.1 == r.1 && a + [] == a;
  }

  lemma OneReceive(w: World, need: nat)
    requires need > 0
    ensures var (v, r) := Recv(w, need, false);
            ReadBody(w, need) ==
            match r
            case Data(bytes) => if |bytes| <= need then After(bytes, ReadBody(v, need - |bytes|)) else (v, [], 0)
            case Again => ReadBody(v, need)
            case Intr => ReadBody(v, need)
            case Err => (v, [], MXX_ERROR_SOCKET_RECV_FAILED)
            case Closed => (v, [], MXX_ERR_CONN_CLOSE)
  {
    hide Recv;
    RecvFacts(w, need, false);
  }

  // The receive loop: fills `body` until it is full or the connection gives up.
  method ReadInto(s: Socket, body: array<byte>) returns (left: nat, rc: int)
    modifies s, body
    ensures var (w, got, code) := ReadBody(old(s.world), body.Length);
            && s.world == w && rc == code && |got| <= body.Length && left == body.Length - |got|
            && body[..|got|] == got
  {
    hide ReadBody, NetSpec.Recv, After;
    ghost var w0 := s.world;
    var n := body.Length;
    left, rc := n, 0;
    var at := 0;
    AfterAfter([], [], ReadBody(w0, n));
    while left > 0
      invariant at + left == n && rc == 0
      invariant ReadBody(w0, n) == After(body[..at], ReadBody(s.world, left))
      decreases |s.world.script|, left
    {
      RecvFacts(s.world, left, false);
      OneReceive(s.world, left);
      ghost var was := body[..at];
      var r := s.Recv(left, false);
      AfterAfter(was, Consumed(r, false), ReadBody(s.world, left - |Consumed(r, false)|));
      if r.Again? || r.Intr? {
        continue;
      } else if r.Err? {
        rc := MXX_ERROR_SOCKET_RECV_FAILED;
        AfterAfter(was, [], (s.world, [], rc));
        break;
      } else if r.Closed? {
        rc := MXX_ERR_CONN_CLOSE;
        AfterAfter(was, [], (s.world, [], rc));
        break;
      }
      CopyInto(body, at, r.bytes);
      at, left := at + |r.bytes|, left - |r.bytes|;
      assert body[..at] == was + r.bytes;
    }
    if left == 0 {
      Full(s.world);
      AfterAfter(body[..at], [], (s.world, [], 0));
    }
  }

  lemma Full(w: World)
    ensures ReadBody(w, 0) == (w, [], 0)
  {}

  // mxx_read_event for a new packet (`info.buff` null).
  method ReadEvent(s: Socket, info: BuffInfo) returns (rc: int)
    requires info.buff == null
    modifies s, info
    ensures var (w, code, packet) := NetSpec.ReadEvent(old(s.world));
            && s.world == w && rc == code
            && (if packet.None? then info.buff == null
                else info.buff != null && fresh(info.buff) && fresh(info.buff.body)
                     && Carries(info.buff, packet.value)
                     && info.buffSize == HEAD + |packet.value|
                     && info.dataLen == info.totalProcLen == |packet.value|)
  {
    hide ReadBody, NetSpec.Recv;
    RecvFacts(s.world, HEAD, false);
    var r := s.Recv(HEAD, false);
    if r.Closed? {
      return MXX_ERR_CONN_CLOSE;
    }
    if !r.Data? || |r.bytes| < HEAD {
      return MXX_ERR_BIN_PACK_HEAD_UNCOMPLETE;
    }
    var len := DecodeU32(r.bytes[..HEAD]);
    if len < BIN_PACK_MIN_SIZE {
      return MXX_ERR_BIN_PACK_HEAD_TOSMALL;
    } else if len > BIN_PACK_MAX_SIZE {
      return MXX_ERR_BIN_PACK_HEAD_TOLONG;
    }
    MallocFacts(s.world);
    var ok := s.Malloc();
    if !ok {
      return MXX_ERR_BIN_PACK_ALLOC_FAILED;
    }
    var pack := new BinPack(len);
    ReadBodyFacts(s.world, len);
    var left;
    left, rc := ReadInto(s, pack.body);
    if left == 0 {
      info.buff, info.buffSize, info.dataLen := pack, pack.size, len;
      info.totalProcLen := info.dataLen;
    }
  }

  // The queue of received packets; each operation runs under the queue's mutex.
  class RecvQue {
    var que: seq<BinPack>
    ghost var packets: seq<seq<byte>>   // what the queued buffers carry

    ghost predicate Valid()
      reads this, que, set b | b in que :: b.body
    {
      |que| == |packets| && forall i :: 0 <= i < |que| ==> Carries(que[i], packets[i])
    }

    constructor ()
      ensures Valid() && packets == []
    {
      que, packets := [], [];
    }

    method Push(b: BinPack?, ghost packet: seq<byte>)
      requires Valid() && (b != null ==> Carries(b, packet))
      modifies this
      ensures Valid() && packets == old(packets) + if b == null then [] else [packet]
      ensures que == old(que) + if b == null then [] else [b]
    {
      if b != null {
        que, packets := que + [b], packets + [packet];
      }
    }

    method Pop() returns (b: BinPack?)
      requires Valid()
      modifies this
      ensures Valid()
      ensures if old(packets) == [] then b == null && packets == []
              else b != null && Carries(b, old(packets)[0]) && packets == old(packets)[1..]
    {
      b := null;
      if |que| > 0 {
        b := que[0];
        que, packets := que[1..], packets[1..];
      }
    }
  }

  // The rest of a do_read_data call that has already queued `q`.
  function Resumed(q: seq<seq<byte>>, o: Outcome): Outcome {
    o.(queued := q + o.queued)
  }

  lemma ResumedTwice(a: seq<seq<byte>>, b: seq<seq<byte>>, o: Outcome)
    ensures Resumed(a, Resumed(b, o)) == Resumed(a + b, o) && Resumed([], o) == o
    ensures Resumed(a, o.(queued := [])) == o.(queued := a)
  {
    assert a + (b + o.queued) == (a + b) + o.queued && [] + o.queued == o.queued && a + [] == a;
  }

  lemma OnePacket(w: World)
    ensures var (v, r) := Recv(w, HEAD, true);
            DoRead(w) ==
            if r.Err? || r.Closed? then Outcome(v, true, [], 0)
            else if !r.Data? || |r.bytes| < HEAD then Outcome(v, false, [], 0)
            else
              var (z, rc, packet) := NetSpec.ReadEvent(v);
              if rc != 0 then Outcome(z, rc == MXX_ERR_CONN_CLOSE, [], rc)
              else Resumed([packet.GetOr([])], DoRead(z))
  {
    hide Recv, NetSpec.ReadEvent;
  }

  // do_read_data; `known` says whether the connection table has the socket.
  method DoReadData(so: int, known: bool, s: Socket, que: RecvQue) returns (rc: int, close: bool)
    requires que.Valid()
    modifies s, que
    ensures que.Valid()
    ensures rc == if so <= 0 then -1 else if !known then -2 else 0
    ensures if rc != 0 then s.world == old(s.world) && que.packets == old(que.packets) && !close
            else var o := DoRead(old(s.world));
                 s.world == o.world && close == o.close && que.packets == old(que.packets) + o.queued
  {
    hide DoRead, NetSpec.Recv, NetSpec.ReadEvent;
    close := false;
    if so <= 0 {
      return -1, close;
    }
    if !known {
      return -2, close;
    }
    rc := 0;
    ghost var w0, q := s.world, [];
    ResumedTwice([], [], DoRead(w0));
    while true
      invariant que.Valid() && !close && que.packets == old(que.packets) + q
      invariant DoRead(w0) == Resumed(q, DoRead(s.world))
      decreases |s.world.script| + |Unread(s.world)|
    {
      ghost var w := s.world;
      OnePacket(w);
      var r := s.Recv(HEAD, true);
      if r.Again? || r.Intr? {
        break;
      } else if r.Err? || r.Closed? {
        close := true;
        break;
      } else if |r.bytes| < HEAD {
        break;
      }
      var info := new BuffInfo();
      var code := ReadEvent(s, info);
      if code != 0 {
        close := code == MXX_ERR_CONN_CLOSE;
        break;
      }
      Shrinks(w);
      ReadEventExactly(NetSpec.Recv(w, HEAD, true).0);
      ghost var packet := NetSpec.ReadEvent(NetSpec.Recv(w, HEAD, true).0).2.value;
      que.Push(info.buff, packet);
      ResumedTwice(q, [packet], DoRead(s.world));
      q := q + [packet];
    }
  }
}
