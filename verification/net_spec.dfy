// The receiving side on values: a kernel receive buffer fed by bytes still in flight, and the
// code that reads length-prefixed packets from it.
module NetSpec {
  import opened CTypes

  const MXX_ERROR_SOCKET_RECV_FAILED: int := -1000
  const MXX_ERR_CONN_CLOSE: int := -1001
  const MXX_ERR_BIN_PACK_HEAD_UNCOMPLETE: int := -1002
  const MXX_ERR_BIN_PACK_HEAD_TOSMALL: int := -1003
  const MXX_ERR_BIN_PACK_HEAD_TOLONG: int := -1004
  const MXX_ERR_BIN_PACK_ALLOC_FAILED: int := -1005

  const BIN_PACK_MIN_SIZE: int := 1
  const BIN_PACK_MAX_SIZE: int := 10240
  const HEAD: int := 4              // sizeof(ST_BIN_DATA_HEAD)

  // What happens on the network when recv is called: some bytes arrive first, a signal
  // interrupts the call, the socket fails, or the peer has hung up.
  datatype Event = Arrive(n: nat) | Interrupt | Fail | Hangup

  // `script` says how the network answers the coming calls (the peer hangs up at its end) and
  // `heap` how malloc answers (it succeeds at its end).
  datatype World = World(inflight: seq<byte>, buffered: seq<byte>, script: seq<Event>, heap: seq<bool>)

  // recv's answer: data, EAGAIN, EINTR, another errno, or 0 for a closed connection.
  datatype Reply = Data(bytes: seq<byte>) | Again | Intr | Err | Closed

  function Unread(w: World): seq<byte> { w.buffered + w.inflight }

  // The next event, and what recv answers if it leaves no data to read.
  function Next(w: World): (World, Reply) {
    var e := if w.script == [] then Hangup else w.script[0];
    var v := w.(script := if w.script == [] then [] else w.script[1..]);
    match e
    case Interrupt => (v, Intr)
    case Fail => (v, Err)
    case Hangup => (v, Closed)
    case Arrive(k) =>
      var m := Min(k, |v.inflight|);
      (v.(buffered := v.buffered + v.inflight[..m], inflight := v.inflight[m..]), Again)
  }

  // recv, with MSG_PEEK when `peek`: buffered data is delivered even after a hang-up.
  function Recv(w: World, max: nat, peek: bool): (World, Reply) {
    var (v, empty) := Next(w);
    if empty.Intr? || empty.Err? || v.buffered == [] then (v, empty)
    else
      var n := Min(max, |v.buffered|);
      (if peek then v else v.(buffered := v.buffered[n..]), Data(v.buffered[..n]))
  }

  // The bytes recv removes from the stream.
  function Consumed(r: Reply, peek: bool): seq<byte> {
    if r.Data? && !peek then r.bytes else []
  }

  lemma NextFacts(w: World)
    ensures var (v, r) := Next(w);
            && Unread(w) == Unread(v) && !r.Data? && v.heap == w.heap
            && (if w.script == [] then v == w && r == Closed else |v.script| < |w.script|)
            && (r.Closed? ==> v.buffered == w.buffered) && w.buffered <= v.buffered
  {
    if w.script != [] && w.script[0].Arrive? {
      var m := Min(w.script[0].n, |w.inflight|);
      assert w.inflight[..m] + w.inflight[m..] == w.inflight;
    }
  }

  lemma RecvFacts(w: World, max: nat, peek: bool)
    requires max > 0
    ensures var (v, r) := Recv(w, max, peek);
            && Unread(w) == Consumed(r, peek) + Unread(v)
            && (r.Data? ==> 0 < |r.bytes| <= max && r.bytes <= Unread(w))
            && (if w.script == [] then v.script == [] && (r.Data? || r.Closed?)
                else |v.script| < |w.script|)
            && v.heap == w.heap
            && (r.Data? && peek ==> r.bytes <= v.buffered)
            && (r.Data? ==> |r.bytes| >= Min(max, |w.buffered|))
            && (r.Closed? ==> w.buffered == [])
  {
    hide Next;
    NextFacts(w);
    var v := Next(w).0;
    var n := Min(max, |v.buffered|);
    assert v.buffered[..n] + v.buffered[n..] == v.buffered;
  }

  // Receive loop of mxx_read_event: what it got and the code it ends with.  The loop goes on
  // after EAGAIN and EINTR; its timeout test compares a counter that nothing advances.
  function ReadBody(w: World, need: nat): (World, seq<byte>, int)
    decreases |w.script|, need
  {
    if need == 0 then (w, [], 0)
    else
      RecvFacts(w, need, false);
      var (v, r) := Recv(w, need, false);
      match r
      case Data(bytes) =>
        var (z, rest, rc) := ReadBody(v, need - |bytes|);
        (z, bytes + rest, rc)
      case Again => ReadBody(v, need)
      case Intr => ReadBody(v, need)
      case Err => (v, [], MXX_ERROR_SOCKET_RECV_FAILED)
      case Closed => (v, [], MXX_ERR_CONN_CLOSE)
  }

  function Malloc(w: World): (World, bool) {
    if w.heap == [] then (w, true) else (w.(heap := w.heap[1..]), w.heap[0])
  }

  lemma MallocFacts(w: World)
    ensures var (v, ok) := Malloc(w); Unread(v) == Unread(w) && v.script == w.script
  {}

  // mxx_read_event for a new packet.
  function ReadEvent(w: World): (World, int, Option<seq<byte>>) {
    var (v, r) := Recv(w, HEAD, false);
    if r.Closed? then (v, MXX_ERR_CONN_CLOSE, None)
    else if !r.Data? || |r.bytes| < HEAD then (v, MXX_ERR_BIN_PACK_HEAD_UNCOMPLETE, None)
    else
      var len := DecodeU32(r.bytes[..HEAD]);
      if len < BIN_PACK_MIN_SIZE then (v, MXX_ERR_BIN_PACK_HEAD_TOSMALL, None)
      else if len > BIN_PACK_MAX_SIZE then (v, MXX_ERR_BIN_PACK_HEAD_TOLONG, None)
      else
        var (u, ok) := Malloc(v);
        if !ok then (u, MXX_ERR_BIN_PACK_ALLOC_FAILED, None)
        else
          var (z, body, rc) := ReadBody(u, len);
          (z, rc, if rc == 0 then Some(body) else None)
  }

  lemma {:induction false} ReadBodyFacts(w: World, need: nat)
    ensures var (z, got, rc) := ReadBody(w, need);
            && Unread(w) == got + Unread(z) && |got| <= need
            && (rc == 0 <==> |got| == need)
            && rc in {0, MXX_ERROR_SOCKET_RECV_FAILED, MXX_ERR_CONN_CLOSE}
            && |z.script| <= |w.script|
    decreases |w.script|, need
  {
    hide Recv, Unread;
    if need > 0 {
      RecvFacts(w, need, false);
      var (v, r) := Recv(w, need, false);
      if r.Data? {
        ReadBodyFacts(v, need - |r.bytes|);
        var (z, rest, rc) := ReadBody(v, need - |r.bytes|);
        assert r.bytes + (rest + Unread(z)) == (r.bytes + rest) + Unread(z);
      } else if r.Again? || r.Intr? {
        ReadBodyFacts(v, need);
      }
    }
  }

  // The length announced by the next header.
  function NextLen(u: seq<byte>): int {
    if |u| < HEAD then -1 else DecodeU32(u[..HEAD])
  }

  predicate InRange(len: int) { BIN_PACK_MIN_SIZE <= len <= BIN_PACK_MAX_SIZE }

  // mxx_read_event succeeds exactly when it has consumed a header announcing a length in range
  // and exactly that many bytes; they are the packet.  Otherwise it keeps no buffer, and it
  // never consumes a byte of the frame after the one it reads.
  lemma ReadEventExactly(w: World)
    ensures var (z, rc, packet) := ReadEvent(w);
            var u, len := Unread(w), NextLen(Unread(w));
            var c := |u| - |Unread(z)|;
            && c >= 0 && Unread(z) == u[c..]
            && (rc == 0 <==> c >= HEAD && InRange(len) && c == HEAD + len)
            && (packet.Some? <==> rc == 0) && (rc == 0 ==> packet.value == u[HEAD..c])
            && c <= HEAD + (if InRange(len) then len else 0)
  {
    hide Recv, ReadBody, Unread;
    RecvFacts(w, HEAD, false);
    var (v, r) := Recv(w, HEAD, false);
    if r.Data? && |r.bytes| == HEAD {
      var u := Unread(w);
      assert r.bytes == u[..HEAD] && Unread(v) == u[HEAD..];
      var len := NextLen(u);
      MallocFacts(v);
      if InRange(len) {
        ReadBodyFacts(Malloc(v).0, len);
      }
    }
  }

  // Which answer mxx_read_event gives: the first recv decides unless it delivers a whole header,
  // then the length in it, then malloc, then the receive loop.
  lemma ReadEventCodes(w: World)
    ensures var rc := ReadEvent(w).1;
            var (v, r) := Recv(w, 4, false);
            if r.Data? && |r.bytes| == 4 then
              var b0: int, b1: int, b2: int, b3: int := r.bytes[0], r.bytes[1], r.bytes[2], r.bytes[3];
              var len := b0 + 0x100 * b1 + 0x1_0000 * b2 + 0x100_0000 * b3;
              && (rc == -1003 <==> len < 1)
              && (rc == -1004 <==> len > 10240)
              && (rc == -1005 <==> 1 <= len <= 10240 && !Malloc(v).1)
              && rc in {0, -1000, -1001, -1003, -1004, -1005}
            else rc == if r.Closed? then -1001 else -1002
  {
    hide Recv, ReadBody;
    RecvFacts(w, HEAD, false);
    var (v, r) := Recv(w, HEAD, false);
    if r.Data? && |r.bytes| == HEAD {
      assert r.bytes[..HEAD] == r.bytes;
      var len := DecodeU32(r.bytes);
      if InRange(len) {
        ReadBodyFacts(Malloc(v).0, len);
      }
    }
  }

  // Everything a call of do_read_data leaves behind: the network, whether the connection is to
  // be closed, the packets queued in order, and the code of its last mxx_read_event (0 when the
  // loop ended at the peek).
  datatype Outcome = Outcome(world: World, close: bool, queued: seq<seq<byte>>, last: int)

  lemma Shrinks(w: World)
    requires var (v, r) := Recv(w, HEAD, true); r.Data? && ReadEvent(v).1 == 0
    ensures var z := ReadEvent(Recv(w, HEAD, true).0).0;
            |z.script| + |Unread(z)| < |w.script| + |Unread(w)|
  {
    hide Recv, ReadEvent;
    RecvFacts(w, HEAD, true);
    ReadEventExactly(Recv(w, HEAD, true).0);
    ReadEventScript(Recv(w, HEAD, true).0);
  }

  lemma ReadEventScript(w: World)
    ensures |ReadEvent(w).0.script| <= |w.script|
  {
    hide Recv, ReadBody;
    RecvFacts(w, HEAD, false);
    var (v, r) := Recv(w, HEAD, false);
    MallocFacts(v);
    if r.Data? && |r.bytes| == HEAD && InRange(DecodeU32(r.bytes)) {
      ReadBodyFacts(Malloc(v).0, DecodeU32(r.bytes));
    }
  }

  // do_read_data: peek for a header, read one packet, again.
  function DoRead(w: World): Outcome
    decreases |w.script| + |Unread(w)|
  {
    var (v, r) := Recv(w, HEAD, true);
    if r.Err? || r.Closed? then Outcome(v, true, [], 0)
    else if !r.Data? || |r.bytes| < HEAD then Outcome(v, false, [], 0)
    else
      var (z, rc, packet) := ReadEvent(v);
      if rc != 0 then Outcome(z, rc == MXX_ERR_CONN_CLOSE, [], rc)
      else
        Shrinks(w);
        var o := DoRead(z);
        o.(queued := [packet.GetOr([])] + o.queued)
  }
}
