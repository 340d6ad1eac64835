// The sending side: mxx_socket_send and the client's clear, append, send loop.
module Sender {
  import opened CTypes
  import opened NetSpec
  import opened Framing
  import opened BinPacks

  // The kernel's answers to send: it takes up to n bytes, or fails with EAGAIN, EINTR or
  // another errno.  Calls beyond the end of a script fail.
  datatype Answer = Took(n: nat) | Busy | Interrupted | Broken

  const MAX_RETRY: int := 3

  // mxx_socket_send from the point where `buf` is left and `retries` EAGAINs have been seen:
  // how many of these bytes go out, whether the call answers -1, and the script left.
  datatype Sent = Sent(count: nat, failed: bool, script: seq<Answer>)

  function SendLoop(script: seq<Answer>, buf: seq<byte>, retries: nat): (r: Sent)
    ensures r.count <= |buf|
    decreases |script|
  {
    if script == [] then Sent(0, true, [])
    else
      match script[0]
      case Interrupted => Sent(0, true, script[1..])
      case Broken => Sent(0, true, script[1..])
      case Busy =>
        if retries + 1 > MAX_RETRY then Sent(0, false, script[1..])
        else SendLoop(script[1..], buf, retries + 1)
      case Took(k) =>
        var n := Min(k, |buf|);
        if n == |buf| then Sent(n, false, script[1..])
        else
          var r := SendLoop(script[1..], buf[n..], retries);
          r.(count := n + r.count)
  }

  // The answer of mxx_socket_send is the length exactly when every byte went out.
  lemma {:induction false} CompleteExactly(script: seq<Answer>, buf: seq<byte>, retries: nat)
    requires buf != []
    ensures var r := SendLoop(script, buf, retries);
            (if r.failed then -1 else r.count) == |buf| <==> r.count == |buf|
    decreases |script|
  {
    if script != [] {
      match script[0]
      case Busy =>
        if retries + 1 <= MAX_RETRY { CompleteExactly(script[1..], buf, retries + 1); }
      case Took(k) =>
        if k < |buf| { CompleteExactly(script[1..], buf[k..], retries); }
      case _ =>
    }
  }

  lemma OneSend(script: seq<Answer>, buf: seq<byte>, retries: nat)
    ensures SendLoop(script, buf, retries) ==
            if script == [] then Sent(0, true, [])
            else if script[0].Took? then
              var n := Min(script[0].n, |buf|);
              if n == |buf| then Sent(n, false, script[1..])
              else Ahead(n, SendLoop(script[1..], buf[n..], retries))
            else if script[0].Busy? && retries < MAX_RETRY then SendLoop(script[1..], buf, retries + 1)
            else Sent(0, !script[0].Busy?, script[1..])
  {}

  // ---------- which scripts a send survives ----------

  // Bytes the kernel offers to take in the answers of a script.
  function Taken(script: seq<Answer>): nat {
    if script == [] then 0 else (if script[0].Took? then script[0].n else 0) + Taken(script[1..])
  }

  function Busies(script: seq<Answer>): nat {
    if script == [] then 0 else (if script[0].Busy? then 1 else 0) + Busies(script[1..])
  }

  // After the first i answers bytes are left to send, no error has come and at most three EAGAINs.
  ghost predicate OnWay(script: seq<Answer>, n: nat, retries: nat, i: nat) {
    && i <= |script| && Taken(script[..i]) < n && retries + Busies(script[..i]) <= 3
    && forall j :: 0 <= j < i ==> !script[j].Interrupted? && !script[j].Broken?
  }

  // The i-th answer takes the last of the n bytes.
  ghost predicate GoesOutAt(script: seq<Answer>, n: nat, i: nat) {
    OnWay(script, n, 0, i) && i < |script| && script[i].Took? && Taken(script[..i]) + script[i].n >= n
  }

  lemma CountFirst(script: seq<Answer>, i: nat)
    requires i < |script|
    ensures Taken(script[..i + 1]) == (if script[0].Took? then script[0].n else 0) + Taken(script[1..][..i])
    ensures Busies(script[..i + 1]) == (if script[0].Busy? then 1 else 0) + Busies(script[1..][..i])
  {
    var a := script[..i + 1];
    assert a[0] == script[0] && a[1..] == script[1..][..i];
  }

  lemma OnWayLater(script: seq<Answer>, n: nat, retries: nat, i: nat)
    requires i < |script| && !script[0].Interrupted? && !script[0].Broken?
    requires script[0].Took? ==> script[0].n < n
    ensures var m := if script[0].Took? then n - script[0].n else n;
            var more := if script[0].Busy? then 1 else 0;
            OnWay(script, n, retries, i + 1) <==> OnWay(script[1..], m, retries + more, i)
  {
    CountFirst(script, i);
    var rest := script[1..];
    assert forall j :: 0 <= j < i ==> rest[j] == script[j + 1];
    if OnWay(rest, if script[0].Took? then n - script[0].n else n, retries + if script[0].Busy? then 1 else 0, i) {
      forall j | 0 <= j < i + 1 ensures !script[j].Interrupted? && !script[j].Broken? {
        assert j > 0 ==> rest[j - 1] == script[j];
      }
    }
  }

  // What a call that stops at answer i has sent and answers.
  ghost predicate StopsAt(script: seq<Answer>, n: nat, retries: nat, i: nat, r: Sent) {
    && OnWay(script, n, retries, i)
    && if i == |script| then r == Sent(Taken(script[..i]), true, [])
       else
         && r.script == script[i + 1..]
         && match script[i]
            case Took(k) => Taken(script[..i]) + k >= n && r.count == n && !r.failed
            case Busy => retries + Busies(script[..i]) == 3 && r.count == Taken(script[..i]) && !r.failed
            case _ => r.count == Taken(script[..i]) && r.failed
  }

  lemma StopsNow(script: seq<Answer>, buf: seq<byte>, retries: nat)
    requires buf != [] && retries <= 3
    requires script == [] || !script[0].Busy? || retries == 3
    requires script != [] && script[0].Took? ==> script[0].n >= |buf|
    ensures StopsAt(script, |buf|, retries, 0, SendLoop(script, buf, retries))
  {
    assert script[..0] == [];
  }

  lemma StopsLater(script: seq<Answer>, n: nat, retries: nat, i: nat, r: Sent)
    requires script != [] && !script[0].Interrupted? && !script[0].Broken?
    requires script[0].Took? ==> script[0].n < n
    requires var m := if script[0].Took? then n - script[0].n else n;
             var more := if script[0].Busy? then 1 else 0;
             StopsAt(script[1..], m, retries + more, i, r)
    ensures StopsAt(script, n, retries, i + 1, Ahead(if script[0].Took? then script[0].n else 0, r))
  {
    CountFirst(script, i);
    OnWayLater(script, n, retries, i);
    assert script[1..][..i] == script[1..i + 1];
    if i < |script| - 1 {
      assert script[1..][i] == script[i + 1] && script[1..][i + 1..] == script[i + 2..];
    }
  }

  // Every call stops at some answer: the one that takes the last byte, the fourth EAGAIN, the
  // first error, or the end of the script.
  lemma {:induction false} SendStops(script: seq<Answer>, buf: seq<byte>, retries: nat) returns (i: nat)
    requires buf != [] && retries <= 3
    ensures StopsAt(script, |buf|, retries, i, SendLoop(script, buf, retries))
    decreases |script|
  {
    hide StopsAt;
    OneSend(script, buf, retries);
    if script == [] || script[0].Interrupted? || script[0].Broken? || (script[0].Busy? && retries == 3)
       || (script[0].Took? && script[0].n >= |buf|) {
      i := 0;
      StopsNow(script, buf, retries);
    } else if script[0].Busy? {
      i := SendStops(script[1..], buf, retries + 1);
      StopsLater(script, |buf|, retries, i, SendLoop(script[1..], buf, retries + 1));
      i := i + 1;
    } else {
      var rest := buf[script[0].n..];
      i := SendStops(script[1..], rest, retries);
      StopsLater(script, |buf|, retries, i, SendLoop(script[1..], rest, retries));
      i := i + 1;
    }
  }

  lemma {:induction false} CountsGrow(script: seq<Answer>, i: nat, j: nat)
    requires i < j <= |script|
    ensures Taken(script[..i]) + (if script[i].Took? then script[i].n else 0) <= Taken(script[..j])
    ensures Busies(script[..i]) + (if script[i].Busy? then 1 else 0) <= Busies(script[..j])
  {
    if i == 0 {
      assert script[..0] == [];
      CountFirst(script, j - 1);
    } else {
      CountFirst(script, i - 1);
      CountFirst(script, j - 1);
      CountsGrow(script[1..], i - 1, j - 1);
      assert script[1..][i - 1] == script[i];
    }
  }

  // A non-empty buffer goes out whole exactly when some answer takes its last byte before any
  // error and before a fourth EAGAIN; the call then leaves the answers behind that one.
  lemma SentExactly(script: seq<Answer>, buf: seq<byte>)
    requires buf != []
    ensures var r := SendLoop(script, buf, 0);
            (r.count == |buf| <==> exists i :: GoesOutAt(script, |buf|, i))
    ensures forall i :: GoesOutAt(script, |buf|, i) ==>
              SendLoop(script, buf, 0) == Sent(|buf|, false, script[i + 1..])
  {
    hide SendLoop;
    var k := SendStops(script, buf, 0);
    var r := SendLoop(script, buf, 0);
    forall i | GoesOutAt(script, |buf|, i) ensures i == k {
      if i < k { CountsGrow(script, i, k); }
      if k < i { CountsGrow(script, k, i); }
    }
    if r.count == |buf| {
      assert GoesOutAt(script, |buf|, k);
    }
  }

  lemma SendMeans(script: seq<Answer>, buf: seq<byte>) returns (stop: nat)
    ensures buf != [] ==> StopsAt(script, |buf|, 0, stop, SendLoop(script, buf, 0))
    ensures var r := SendLoop(script, buf, 0);
            buf != [] ==> ((if r.failed then -1 else r.count) == |buf| <==> exists i :: GoesOutAt(script, |buf|, i))
  {
    hide SendLoop, StopsAt, GoesOutAt;
    stop := 0;
    if buf != [] {
      stop := SendStops(script, buf, 0);
      SentExactly(script, buf);
      CompleteExactly(script, buf, 0);
    }
  }

  function Ahead(n: nat, r: Sent): Sent { r.(count := n + r.count) }

  class Peer {
    var script: seq<Answer>
    var wire: seq<byte>        // everything sent so far

    constructor (answers: seq<Answer>)
      ensures script == answers && wire == []
    {
      script, wire := answers, [];
    }

    // send: the number of bytes taken, or a negative number.
    method Take(buf: seq<byte>) returns (a: Answer)
      modifies this
      ensures a == if old(script) == [] then Broken
                   else if old(script)[0].Took? then Took(Min(old(script)[0].n, |buf|)) else old(script)[0]
      ensures script == if old(script) == [] then [] else old(script)[1..]
      ensures wire == old(wire) + if a.Took? then buf[..a.n] else []
    {
      a := if script == [] then Broken
           else if script[0].Took? then Took(Min(script[0].n, |buf|)) else script[0];
      script := if script == [] then [] else script[1..];
      wire := wire + if a.Took? then buf[..a.n] else [];
    }

    // `stop` is the answer at which the call ends.
    method SocketSend(buf: seq<byte>) returns (rc: int, ghost stop: nat)
      modifies this
      ensures var r := SendLoop(old(script), buf, 0);
              && wire == old(wire) + buf[..r.count] && script == r.script
              && rc == if r.failed then -1 else r.count
      ensures buf != [] ==> StopsAt(old(script), |buf|, 0, stop, SendLoop(old(script), buf, 0))
      ensures buf != [] ==> (rc == |buf| <==> exists i :: GoesOutAt(old(script), |buf|, i))
    {
      hide SendLoop, StopsAt, GoesOutAt;
      stop := SendMeans(script, buf);
      var total, p, retries := |buf|, 0, 0;
      assert buf[0..] == buf;
      while true
        invariant p + total == |buf| && 0 <= p <= |buf| && 0 <= retries <= MAX_RETRY
        invariant wire == old(wire) + buf[..p]
        invariant SendLoop(old(script), buf, 0) == Ahead(p, SendLoop(script, buf[p..], retries))
        decreases |script|
      {
        OneSend(script, buf[p..], retries);
        ghost var left := buf[p..];
        var a := Take(buf[p..]);
        if a.Interrupted? || a.Broken? {
          rc := -1;
          return;
        }
        if a.Busy? {
          retries := retries + 1;
          if retries > MAX_RETRY {
            break;
          }
          continue;
        }
        assert buf[..p] + left[..a.n] == buf[..p + a.n];
        if a.n == total {
          rc := |buf|;
          return;
        }
        assert left[a.n..] == buf[p + a.n..];
        total, p := total - a.n, p + a.n;
      }
      rc := |buf| - total;
    }
  }

  // ---------- the client ----------

  // The payloads the client means to send: its non-empty lines, as far as the packet holds them.
  function Clips(cap: nat, lines: seq<seq<byte>>): seq<seq<byte>> {
    if lines == [] then []
    else (if lines[0] == [] then [] else [First(cap, lines[0])]) + Clips(cap, lines[1..])
  }

  // What reaches the wire, and whether every packet was sent whole.  The client stops at a
  // failed send but only logs a partial one.
  function Transmit(script: seq<Answer>, cap: nat, lines: seq<seq<byte>>): (seq<byte>, bool)
    decreases |lines|
  {
    if lines == [] then ([], true)
    else if lines[0] == [] then Transmit(script, cap, lines[1..])
    else
      var f := Frame(First(cap, lines[0]));
      var r := SendLoop(script, f, 0);
      if r.failed then (f[..r.count], false)
      else
        var (rest, whole) := Transmit(r.script, cap, lines[1..]);
        (f[..r.count] + rest, whole && r.count == |f|)
  }

  // The wire carries the frames of all the lines exactly when every send was complete.
  lemma {:induction false} TransmitExactly(script: seq<Answer>, cap: nat, lines: seq<seq<byte>>)
    ensures var (wire, whole) := Transmit(script, cap, lines);
            && |wire| <= |Wire(Clips(cap, lines))|
            && (whole <==> |wire| == |Wire(Clips(cap, lines))|)
            && (whole <==> wire == Wire(Clips(cap, lines)))
    decreases |lines|
  {
    if lines != [] {
      hide Frame, SendLoop;
      var f := Frame(First(cap, lines[0]));
      var r := SendLoop(script, f, 0);
      FrameNotEmpty(First(cap, lines[0]));
      CompleteExactly(script, f, 0);
      var next := if lines[0] == [] then script else r.script;
      TransmitExactly(next, cap, lines[1..]);
      assert f[..|f|] == f;
      var rest := Clips(cap, lines[1..]);
      assert ([First(cap, lines[0])] + rest)[1..] == rest && [] + rest == rest;
      if r.failed {
        assert r.count < |f|;
      }
    }
  }

  // Every frame goes out whole, each by the answers that the one before left over.
  ghost predicate AllGoOut(script: seq<Answer>, payloads: seq<seq<byte>>)
    decreases |payloads|
  {
    payloads == [] ||
    var n := 4 + |payloads[0]|;
    exists i :: GoesOutAt(script, n, i) && AllGoOut(script[i + 1..], payloads[1..])
  }

  // So the script alone decides whether the client's lines all reach the wire.
  lemma {:induction false} AllSentExactly(script: seq<Answer>, cap: nat, lines: seq<seq<byte>>)
    ensures Transmit(script, cap, lines).1 <==> AllGoOut(script, Clips(cap, lines))
    decreases |lines|
  {
    hide SendLoop, GoesOutAt, Frame;
    if lines != [] {
      var rest := Clips(cap, lines[1..]);
      if lines[0] == [] {
        assert [] + rest == rest;
        AllSentExactly(script, cap, lines[1..]);
      } else {
        var p := First(cap, lines[0]);
        FrameNotEmpty(p);
        SentExactly(script, Frame(p));
        assert ([p] + rest)[0] == p && ([p] + rest)[1..] == rest;
        AllSentExactly(SendLoop(script, Frame(p), 0).script, cap, lines[1..]);
      }
    }
  }

  // A frame of which only k bytes go out before the fourth EAGAIN is cut short for good: the next
  // frame follows right behind.
  lemma PartialSend(k: nat, rest: seq<Answer>, cap: nat, line: seq<byte>, lines: seq<seq<byte>>)
    requires line != [] && k < |Frame(First(cap, line))|
    ensures Transmit([Took(k), Busy, Busy, Busy, Busy] + rest, cap, [line] + lines)
         == (Frame(First(cap, line))[..k] + Transmit(rest, cap, lines).0, false)
  {
    var script, f := [Took(k), Busy, Busy, Busy, Busy] + rest, Frame(First(cap, line));
    assert ([line] + lines)[1..] == lines;
    hide Frame, Transmit, First;
    OneLine(script, cap, [line] + lines);
    FourBusy(rest, f[k..]);
    OneSend(script, f, 0);
    assert script[1..] == [Busy, Busy, Busy, Busy] + rest;
  }

  lemma FourBusy(rest: seq<Answer>, buf: seq<byte>)
    ensures SendLoop([Busy, Busy, Busy, Busy] + rest, buf, 0) == Sent(0, false, rest)
  {
    var s4, s3, s2 := [Busy, Busy, Busy, Busy] + rest, [Busy, Busy, Busy] + rest, [Busy, Busy] + rest;
    assert s4[1..] == s3 && s3[1..] == s2 && s2[1..] == [Busy] + rest && ([Busy] + rest)[1..] == rest;
    hide SendLoop;
    OneSend(s4, buf, 0);
    OneSend(s3, buf, 1);
    OneSend(s2, buf, 2);
    OneSend([Busy] + rest, buf, 3);
  }

  // After an error the client stops: nothing of the later lines is sent.
  lemma FailedSend(k: nat, error: Answer, rest: seq<Answer>, cap: nat, line: seq<byte>, lines: seq<seq<byte>>)
    requires line != [] && k < |Frame(First(cap, line))| && (error.Interrupted? || error.Broken?)
    ensures Transmit([Took(k), error] + rest, cap, [line] + lines) == (Frame(First(cap, line))[..k], false)
  {
    var script, f := [Took(k), error] + rest, Frame(First(cap, line));
    hide Frame, Transmit, First, SendLoop;
    OneLine(script, cap, [line] + lines);
    assert script[1..] == [error] + rest;
    OneSend([error] + rest, f[k..], 0);
    OneSend(script, f, 0);
  }

  lemma FrameNotEmpty(p: seq<byte>)
    ensures |Frame(p)| == 4 + |p|
  {}

  lemma {:induction false} ClipsArePayloads(cap: nat, lines: seq<seq<byte>>)
    requires InRange(cap)
    ensures Payloads(Clips(cap, lines))
  {
    if lines != [] {
      ClipsArePayloads(cap, lines[1..]);
    }
  }

  // End to end: if the answers to send let every frame out, then whatever part of the stream the
  // network has delivered and however it was cut up, the receiver's queue is a prefix of the
  // client's lines, in order, and all of them once nothing is left unread.
  lemma EndToEnd(script: seq<Answer>, cap: nat, lines: seq<seq<byte>>, w: World, sends: seq<seq<byte>>)
    requires InRange(cap) && AllGoOut(script, Clips(cap, lines))
    requires Unread(w) + Concat(sends) == Transmit(script, cap, lines).0
    ensures var o := Session(w, sends);
            && o.queued <= Clips(cap, lines)
            && (InStep(o.last) && Unread(o.world) == [] ==> o.queued == Clips(cap, lines))
  {
    hide Transmit, Session, Wire, AllGoOut;
    var ps := Clips(cap, lines);
    AllSentExactly(script, cap, lines);
    TransmitExactly(script, cap, lines);
    ClipsArePayloads(cap, lines);
    SessionInOrder(w, sends, ps);
    var o := Session(w, sends);
    if InStep(o.last) && Unread(o.world) == [] {
      assert Wire(o.queued) <= Wire(ps) by {
        WireConcat(o.queued, ps[|o.queued|..]);
        assert o.queued + ps[|o.queued|..] == ps;
      }
      assert Wire(o.queued) == Wire(ps);
      assert Payloads(o.queued);
      WireInjective(o.queued, ps);
    }
  }

  // The rest of a transmission that has already put `out` on the wire.
  function Joined(out: seq<byte>, whole: bool, r: (seq<byte>, bool)): (seq<byte>, bool) {
    (out + r.0, whole && r.1)
  }

  lemma JoinedTwice(a: seq<byte>, u: bool, b: seq<byte>, v: bool, r: (seq<byte>, bool))
    ensures Joined(a, u, Joined(b, v, r)) == Joined(a + b, u && v, r)
    ensures Joined([], true, r) == r && Joined(a, u, ([], true)) == (a, u)
    ensures Joined(a, u, (b, v)) == (a + b, u && v)
  {
    assert a + (b + r.0) == (a + b) + r.0 && [] + r.0 == r.0 && a + [] == a;
  }

  lemma OneLine(script: seq<Answer>, cap: nat, lines: seq<seq<byte>>)
    ensures Transmit(script, cap, lines) ==
            if lines == [] then ([], true)
            else if lines[0] == [] then Transmit(script, cap, lines[1..])
            else
              var f := Frame(First(cap, lines[0]));
              var r := SendLoop(script, f, 0);
              if r.failed then (f[..r.count], false)
              else Joined(f[..r.count], r.count == |f|, Transmit(r.script, cap, lines[1..]))
  {
    hide SendLoop, Frame;
  }

  lemma AppendFirst(cap: nat, data: seq<byte>)
    requires cap > 0 && data != []
    ensures AppendOne(cap, [], data).0 == First(cap, data)
  {}

  // One line is put into the cleared packet and sent.
  method SendLine(line: seq<byte>, pack: BinPack, peer: Peer) returns (rc: int, len: nat)
    requires pack.Valid() && line != []
    modifies pack, pack.body, peer
    ensures pack.Valid() && pack.size == old(pack.size)
    ensures var f := Frame(First(pack.body.Length, line));
            var r := SendLoop(old(peer.script), f, 0);
            && peer.wire == old(peer.wire) + f[..r.count] && peer.script == r.script
            && rc == (if r.failed then -1 else r.count) && len == |f|
  {
    hide SendLoop, Frame, StopsAt, GoesOutAt, AppendOne, First;
    AppendFirst(pack.body.Length, line);
    pack.Clear();
    var _ := pack.Append(line);
    var bytes := pack.Packet();
    len := |bytes|;
    ghost var stop;
    rc, stop := peer.SocketSend(bytes);
  }

  // The client's loop over the lines typed in.
  method ClientLoop(lines: seq<seq<byte>>, pack: BinPack, peer: Peer) returns (whole: bool)
    requires pack.Valid()
    modifies pack, pack.body, peer
    ensures pack.Valid()
    ensures var (wire, ok) := Transmit(old(peer.script), pack.body.Length, lines);
            peer.wire == old(peer.wire) + wire && whole == ok
  {
    hide Transmit, Joined, SendLoop, Frame, StopsAt, GoesOutAt;
    whole := true;
    ghost var out, cap := [], pack.body.Length;
    var k := 0;
    assert lines[0..] == lines;
    JoinedTwice([], true, [], true, Transmit(peer.script, cap, lines));
    while k < |lines|
      invariant 0 <= k <= |lines| && pack.Valid() && pack.size == old(pack.size)
      invariant peer.wire == old(peer.wire) + out
      invariant Transmit(old(peer.script), cap, lines)
             == Joined(out, whole, Transmit(peer.script, cap, lines[k..]))
    {
      var line := lines[k];
      OneLine(peer.script, cap, lines[k..]);
      assert lines[k..][1..] == lines[k + 1..];
      k := k + 1;
      if line == [] {
        continue;
      }
      ghost var bytes := Frame(First(cap, line));
      ghost var r := SendLoop(peer.script, bytes, 0);
      var rc, len := SendLine(line, pack, peer);
      JoinedTwice(out, whole, bytes[..r.count], r.count == |bytes|, Transmit(peer.script, cap, lines[k..]));
      JoinedTwice(out, whole, bytes[..r.count], false, ([], true));
      out := out + bytes[..r.count];
      if rc < 0 {
        return false;
      } else if rc != len {
        whole := false;
      }
    }
    OneLine(peer.script, cap, lines[k..]);
    JoinedTwice(out, whole, [], true, ([], true));
  }
}
