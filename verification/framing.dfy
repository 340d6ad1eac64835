// Length-prefixed framing end to end: what the receiver queues is what was framed, in order.
module Framing {
  import opened CTypes
  import opened NetSpec

  function Frame(p: seq<byte>): seq<byte> { EncodeU32(U32(|p|)) + p }

  function Wire(ps: seq<seq<byte>>): seq<byte> {
    if ps == [] then [] else Frame(ps[0]) + Wire(ps[1..])
  }

  // A frame is the payload behind its length, which is four bytes, the lowest first.
  lemma FrameLayout(p: seq<byte>)
    requires |p| < TWO_32
    ensures var f := Frame(p);
            && |f| == 4 + |p| && f[4..] == p
            && var b0: int, b1: int, b2: int, b3: int := f[0], f[1], f[2], f[3];
               b0 + 0x100 * b1 + 0x1_0000 * b2 + 0x100_0000 * b3 == |p|
  {
    U32RoundTrip(|p|);
    hide EncodeU32;
    var f := Frame(p);
    assert f[..4] == EncodeU32(|p|);
    assert f[0] == f[..4][0] && f[1] == f[..4][1] && f[2] == f[..4][2] && f[3] == f[..4][3];
  }

  // Payloads a sender can frame: clear + append leave 1 to 10240 bytes in a packet.
  ghost predicate Payloads(ps: seq<seq<byte>>) {
    forall i :: 0 <= i < |ps| ==> InRange(|ps[i]|)
  }

  lemma {:induction false} WireConcat(ps: seq<seq<byte>>, qs: seq<seq<byte>>)
    ensures Wire(ps + qs) == Wire(ps) + Wire(qs)
  {
    if ps == [] {
      assert ps + qs == qs;
    } else {
      assert (ps + qs)[1..] == ps[1..] + qs;
      WireConcat(ps[1..], qs);
    }
  }

  lemma FirstHeader(ps: seq<seq<byte>>, u: seq<byte>)
    requires Payloads(ps) && u <= Wire(ps) && |u| >= HEAD
    ensures ps != [] && NextLen(u) == |ps[0]|
    ensures forall n :: HEAD <= n <= HEAD + |ps[0]| && n <= |u| ==> u[HEAD..n] == ps[0][..n - HEAD]
  {
    HeaderOf(ps[0], Wire(ps[1..]), u);
  }

  lemma HeaderOf(p: seq<byte>, rest: seq<byte>, u: seq<byte>)
    requires |p| < TWO_32 && u <= Frame(p) + rest && |u| >= HEAD
    ensures NextLen(u) == |p|
    ensures forall n :: HEAD <= n <= HEAD + |p| && n <= |u| ==> u[HEAD..n] == p[..n - HEAD]
  {
    hide EncodeU32, DecodeU32;
    U32RoundTrip(|p|);
    var f := Frame(p) + rest;
    assert u[..HEAD] == f[..HEAD] == EncodeU32(|p|);
    forall n | HEAD <= n <= HEAD + |p| && n <= |u|
      ensures u[HEAD..n] == p[..n - HEAD]
    {
      assert u[HEAD..n] == f[HEAD..n];
    }
  }

  // Frames can be told apart: the byte stream determines the payloads.
  lemma {:induction false} WireInjective(ps: seq<seq<byte>>, qs: seq<seq<byte>>)
    requires Payloads(ps) && Payloads(qs) && Wire(ps) == Wire(qs)
    ensures ps == qs
  {
    if ps == [] || qs == [] {
      assert Wire(ps) == Wire(qs) == [];
    } else {
      var u := Wire(ps);
      FirstHeader(ps, u);
      FirstHeader(qs, u);
      var n := HEAD + |ps[0]|;
      assert u[HEAD..n] == ps[0][..|ps[0]|] == qs[0][..|qs[0]|];
      assert Wire(ps[1..]) == u[n..] == Wire(qs[1..]);
      WireInjective(ps[1..], qs[1..]);
    }
  }

  // Once a header has been seen by the peek, reading the packet either leaves the stream alone
  // or takes at least the header.
  lemma AfterPeek(w: World)
    requires |w.buffered| >= HEAD
    ensures var (z, rc, packet) := ReadEvent(w);
            var c := |Unread(w)| - |Unread(z)|;
            if rc == MXX_ERR_BIN_PACK_HEAD_UNCOMPLETE then c == 0 else c >= HEAD
    ensures ReadEvent(w).1 in {0, MXX_ERR_BIN_PACK_HEAD_UNCOMPLETE, MXX_ERR_BIN_PACK_HEAD_TOSMALL,
      MXX_ERR_BIN_PACK_HEAD_TOLONG, MXX_ERR_BIN_PACK_ALLOC_FAILED, MXX_ERROR_SOCKET_RECV_FAILED,
      MXX_ERR_CONN_CLOSE}
    ensures ReadEvent(w).1 in {MXX_ERR_BIN_PACK_HEAD_TOSMALL, MXX_ERR_BIN_PACK_HEAD_TOLONG} ==>
              !InRange(NextLen(Unread(w)))
  {
    hide Recv, ReadBody;
    RecvFacts(w, HEAD, false);
    var (v, r) := Recv(w, HEAD, false);
    MallocFacts(v);
    if r.Data? && InRange(DecodeU32(r.bytes)) {
      ReadBodyFacts(Malloc(v).0, DecodeU32(r.bytes));
    }
  }

  // The codes after which the stream is still at the start of a frame.
  predicate InStep(rc: int) { rc == 0 || rc == MXX_ERR_BIN_PACK_HEAD_UNCOMPLETE }

  // The first packet of a framed stream, read after a peek.
  lemma ReadFirst(w: World, ps: seq<seq<byte>>)
    requires Payloads(ps) && Unread(w) <= Wire(ps) && |w.buffered| >= HEAD
    ensures ps != []
    ensures var (z, rc, packet) := ReadEvent(w);
            var c := |Unread(w)| - |Unread(z)|;
            && c >= 0 && Unread(z) == Unread(w)[c..]
            && (rc == 0 ==> packet == Some(ps[0]) && c == |Frame(ps[0])|)
            && (rc == MXX_ERR_BIN_PACK_HEAD_UNCOMPLETE ==> c == 0)
            && (!InStep(rc) ==> 0 < c < |Frame(ps[0])|)
            && rc in {0, MXX_ERR_BIN_PACK_HEAD_UNCOMPLETE, MXX_ERR_BIN_PACK_ALLOC_FAILED,
                      MXX_ERROR_SOCKET_RECV_FAILED, MXX_ERR_CONN_CLOSE}
  {
    hide ReadEvent;
    FirstHeader(ps, Unread(w));
    ReadEventExactly(w);
    AfterPeek(w);
    assert ps[0][..|ps[0]|] == ps[0];
    if ReadEvent(w).1 == 0 {
      assert Unread(w)[HEAD..HEAD + |ps[0]|] == ps[0];
    }
  }

  lemma TailOfWire(ps: seq<seq<byte>>, u: seq<byte>)
    requires ps != [] && u <= Wire(ps) && |u| >= |Frame(ps[0])|
    ensures u[|Frame(ps[0])|..] <= Wire(ps[1..])
  {}

  // What one call of do_read_data does to a framed stream.  It queues a prefix of the payloads,
  // and has consumed exactly their frames if it stopped for lack of data; after a failed
  // allocation, receive error or hang-up it has stopped strictly inside the next frame.
  ghost predicate InOrder(u: seq<byte>, ps: seq<seq<byte>>, o: Outcome) {
    var n, c := |Wire(o.queued)|, |u| - |Unread(o.world)|;
    && o.queued <= ps && n <= c && Unread(o.world) == u[c..]
    && (InStep(o.last) <==> c == n)
    && (!InStep(o.last) ==> |o.queued| < |ps| && c < n + |Frame(ps[|o.queued|])|)
    && o.last in {0, MXX_ERR_BIN_PACK_HEAD_UNCOMPLETE, MXX_ERR_BIN_PACK_ALLOC_FAILED,
                  MXX_ERROR_SOCKET_RECV_FAILED, MXX_ERR_CONN_CLOSE}
    && (!InStep(o.last) ==> (o.close <==> o.last == MXX_ERR_CONN_CLOSE))
  }

  lemma InOrderCons(u: seq<byte>, ps: seq<seq<byte>>, o: Outcome)
    requires ps != [] && |u| >= |Frame(ps[0])| && InOrder(u[|Frame(ps[0])|..], ps[1..], o)
    ensures InOrder(u, ps, o.(queued := [ps[0]] + o.queued))
  {
    var q := [ps[0]] + o.queued;
    assert q[1..] == o.queued;
    assert |Wire(q)| == |Frame(ps[0])| + |Wire(o.queued)|;
  }

  lemma {:induction false} DoReadInOrder(w: World, ps: seq<seq<byte>>)
    requires Payloads(ps) && Unread(w) <= Wire(ps)
    ensures InOrder(Unread(w), ps, DoRead(w))
    decreases |w.script| + |Unread(w)|
  {
    hide Recv, ReadEvent, Wire, Frame, Unread;
    RecvFacts(w, HEAD, true);
    EmptyWire();
    var (v, r) := Recv(w, HEAD, true);
    if r.Data? && |r.bytes| == HEAD {
      ReadFirst(v, ps);
      var (z, rc, packet) := ReadEvent(v);
      if rc == 0 {
        Shrinks(w);
        TailOfWire(ps, Unread(w));
        DoReadInOrder(z, ps[1..]);
        InOrderCons(Unread(w), ps, DoRead(z));
      }
    }
  }

  lemma EmptyWire()
    ensures Wire([]) == []
  {}

  // ---------- any number of calls ----------

  function Send(w: World, bytes: seq<byte>): World {
    w.(inflight := w.inflight + bytes)
  }

  lemma SendUnread(w: World, bytes: seq<byte>)
    ensures Unread(Send(w, bytes)) == Unread(w) + bytes
  {}

  function Concat(ss: seq<seq<byte>>): seq<byte> {
    if ss == [] then [] else ss[0] + Concat(ss[1..])
  }

  // The peer sends some bytes, do_read_data is called, and so on until a call ends out of step.
  function Session(w: World, sends: seq<seq<byte>>): Outcome
    decreases |sends|
  {
    if sends == [] then Outcome(w, false, [], 0)
    else
      var o := DoRead(Send(w, sends[0]));
      if !InStep(o.last) then o
      else
        var rest := Session(o.world, sends[1..]);
        rest.(queued := o.queued + rest.queued)
  }

  // The queue is a prefix of the payloads and `left` is the stream after their frames.
  ghost predicate InSync(total: seq<byte>, ps: seq<seq<byte>>, queued: seq<seq<byte>>, left: seq<byte>) {
    && queued <= ps && |Wire(queued)| <= |total| && left == total[|Wire(queued)|..]
  }

  lemma AfterQueued(total: seq<byte>, ps: seq<seq<byte>>, q: seq<seq<byte>>, left: seq<byte>)
    requires total <= Wire(ps) && InSync(total, ps, q, left)
    ensures left <= Wire(ps[|q|..])
  {
    WireConcat(q, ps[|q|..]);
    assert q + ps[|q|..] == ps;
  }

  lemma SyncTwice(total: seq<byte>, ps: seq<seq<byte>>, q: seq<seq<byte>>, mid: seq<byte>,
                  r: seq<seq<byte>>, left: seq<byte>)
    requires InSync(total, ps, q, mid) && InSync(mid, ps[|q|..], r, left)
    ensures InSync(total, ps, q + r, left)
  {
    WireConcat(q, r);
  }

  // However the stream is cut up and however many calls are made, the queue is a prefix of the
  // payloads framed, in order; and as long as no allocation, receive or connection fails inside
  // a frame, what is left of the stream is exactly the frames not yet queued.
  lemma {:induction false} SessionInOrder(w: World, sends: seq<seq<byte>>, ps: seq<seq<byte>>)
    requires Payloads(ps) && Unread(w) + Concat(sends) <= Wire(ps)
    ensures var o := Session(w, sends);
            && o.queued <= ps
            && (InStep(o.last) ==> InSync(Unread(w) + Concat(sends), ps, o.queued, Unread(o.world)))
    decreases |sends|
  {
    hide DoRead, Wire, Unread, Send, InSync;
    var total := Unread(w) + Concat(sends);
    if sends == [] {
      NothingYet(total, ps);
      assert total == Unread(w);
    } else {
      var v, more := Send(w, sends[0]), Concat(sends[1..]);
      SendUnread(w, sends[0]);
      assert total == Unread(v) + more;
      DoReadInOrder(v, ps);
      var o := DoRead(v);
      if InStep(o.last) {
        var mid := Unread(o.world) + more;
        CallInSync(v, ps, more);
        AfterQueued(total, ps, o.queued, mid);
        SessionInOrder(o.world, sends[1..], ps[|o.queued|..]);
        var rest := Session(o.world, sends[1..]);
        if InStep(rest.last) {
          SyncTwice(total, ps, o.queued, mid, rest.queued, Unread(rest.world));
        }
      }
    }
  }

  lemma NothingYet(total: seq<byte>, ps: seq<seq<byte>>)
    ensures InSync(total, ps, [], total)
  {}

  lemma CallInSync(v: World, ps: seq<seq<byte>>, more: seq<byte>)
    requires InOrder(Unread(v), ps, DoRead(v)) && InStep(DoRead(v).last)
    ensures InSync(Unread(v) + more, ps, DoRead(v).queued, Unread(DoRead(v).world) + more)
  {
    hide DoRead, Wire, Unread;
  }

  // ---------- nothing received is left behind ----------

  ghost predicate Calm(w: World) {
    && w.inflight == []
    && (forall i :: 0 <= i < |w.script| ==> w.script[i].Arrive?)
    && (forall i :: 0 <= i < |w.heap| ==> w.heap[i])
  }

  lemma CalmUnread(w: World)
    requires Calm(w)
    ensures Unread(w) == w.buffered
  {}

  lemma CalmRecv(w: World, max: nat, peek: bool)
    requires Calm(w) && max > 0
    ensures var (v, r) := Recv(w, max, peek);
            Calm(v) && !r.Err? && !r.Intr? && (w.buffered != [] ==> r.Data?)
  {}

  lemma {:induction false} CalmBody(w: World, need: nat)
    requires Calm(w) && |w.buffered| >= need
    ensures ReadBody(w, need).2 == 0 && Calm(ReadBody(w, need).0)
    decreases |w.script|, need
  {
    if need > 0 {
      hide Recv;
      CalmRecv(w, need, false);
      RecvFacts(w, need, false);
      var (v, r) := Recv(w, need, false);
      assert |Unread(v)| == |Unread(w)| - |r.bytes|;
      CalmBody(v, need - |r.bytes|);
    }
  }

  lemma CalmEvent(w: World, len: nat)
    requires Calm(w) && |w.buffered| >= HEAD + len && InRange(len) && NextLen(Unread(w)) == len
    ensures ReadEvent(w).1 == 0 && Calm(ReadEvent(w).0)
  {
    hide Recv, ReadBody;
    CalmRecv(w, HEAD, false);
    RecvFacts(w, HEAD, false);
    var (v, r) := Recv(w, HEAD, false);
    assert r.bytes == Unread(w)[..HEAD];
    MallocFacts(v);
    assert Calm(Malloc(v).0) && Malloc(v).1;
    CalmBody(Malloc(v).0, len);
  }

  lemma BehindFirst(ps: seq<seq<byte>>)
    requires Payloads(ps) && ps != []
    ensures |Wire(ps)| >= |Frame(ps[0])| == HEAD + |ps[0]|
    ensures Wire(ps)[|Frame(ps[0])|..] == Wire(ps[1..])
  {}

  lemma BehindNone()
    ensures Wire([]) == []
  {}

  // When whole frames have been received and nothing fails, one call queues all of them.
  lemma {:induction false} DoReadDrains(w: World, ps: seq<seq<byte>>)
    requires Payloads(ps) && Calm(w) && w.buffered == Wire(ps)
    ensures DoRead(w).queued == ps && Unread(DoRead(w).world) == []
    decreases |w.script| + |Unread(w)|
  {
    hide Recv, ReadEvent, Calm, Unread, Wire, Frame, NextLen;
    RecvFacts(w, HEAD, true);
    CalmRecv(w, HEAD, true);
    CalmUnread(w);
    var (v, r) := Recv(w, HEAD, true);
    CalmUnread(v);
    if ps == [] {
      BehindNone();
    } else {
      BehindFirst(ps);
      ReadFirst(v, ps);
      FirstHeader(ps, Unread(v));
      CalmEvent(v, |ps[0]|);
      Shrinks(w);
      var z := ReadEvent(v).0;
      CalmUnread(z);
      DoReadDrains(z, ps[1..]);
    }
  }
}
