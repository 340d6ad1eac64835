// When do_read_data leaves an open connection in the middle of a frame.
module Boundary {
  import opened CTypes
  import opened NetSpec
  import opened Framing

  // ---------- which scripts fail a packet ----------

  // Bytes that arrive during the calls of a script.
  function Arrived(script: seq<Event>): nat {
    if script == [] then 0
    else (if script[0].Arrive? then script[0].n else 0) + Arrived(script[1..])
  }

  // Some call of the script gets past EINTR.
  ghost predicate Woke(script: seq<Event>) {
    exists i :: 0 <= i < |script| && !script[i].Interrupt?
  }

  // What the first i calls of a receive loop for `need` bytes have received, while none failed.
  ghost function Received(w: World, need: nat, i: nat): int
    requires i <= |w.script|
  {
    if Woke(w.script[..i]) then Min(need, |w.buffered| + Min(Arrived(w.script[..i]), |w.inflight|)) else 0
  }

  // The connection is still up after the first i calls: none failed, and a hang-up came at most
  // while there was data left to read.
  ghost predicate StillUp(w: World, i: nat)
    requires i <= |w.script|
  {
    forall j :: 0 <= j < i ==>
      !w.script[j].Fail? && (w.script[j].Hangup? ==> w.buffered != [] && !Woke(w.script[..j]))
  }

  // The i-th call fails before the `need` bytes are there.
  ghost predicate FailsAt(w: World, need: nat, i: int) {
    0 <= i < |w.script| && w.script[i].Fail? && StillUp(w, i) && Received(w, need, i) < need
  }

  lemma ArrivedFirst(s: seq<Event>, i: nat)
    requires i < |s|
    ensures Arrived(s[..i + 1]) == (if s[0].Arrive? then s[0].n else 0) + Arrived(s[1..][..i])
    ensures Woke(s[..i + 1]) <==> !s[0].Interrupt? || Woke(s[1..][..i])
  {
    var a, b := s[..i + 1], s[1..][..i];
    assert a[1..] == b && a[0] == s[0];
    if Woke(b) {
      var k :| 0 <= k < |b| && !b[k].Interrupt?;
      assert !a[k + 1].Interrupt?;
    }
    if Woke(a) && s[0].Interrupt? {
      var k :| 0 <= k < |a| && !a[k].Interrupt?;
      assert b[k - 1] == a[k];
    }
  }

  lemma {:induction false} AsleepNothing(s: seq<Event>)
    requires !Woke(s)
    ensures Arrived(s) == 0
  {
    if s != [] {
      assert s[0].Interrupt?;
      forall k | 0 <= k < |s[1..]| ensures s[1..][k].Interrupt? {
        assert s[1..][k] == s[k + 1];
      }
      AsleepNothing(s[1..]);
    }
  }

  // One call that neither fails nor finds the connection closed.
  lemma OneCall(w: World, need: nat)
    requires need > 0 && w.script != []
    ensures var (v, r) := Recv(w, need, false);
            var e := w.script[0];
            var a := if e.Arrive? then Min(e.n, |w.inflight|) else 0;
            var n := if e.Interrupt? then 0 else Min(need, |w.buffered| + a);
            && v.script == w.script[1..]
            && (r.Err? <==> e.Fail?) && (r.Closed? <==> e.Hangup? && w.buffered == [])
            && (!r.Err? && !r.Closed? ==>
                  && (r.Data? ==> |r.bytes| == n) && (!r.Data? ==> n == 0)
                  && |v.buffered| == |w.buffered| + a - n && |v.inflight| == |w.inflight| - a)
  {}

  // What is received up to a call is the same seen from one call later.
  lemma ReceivedLater(w: World, need: nat, i: nat)
    requires need > 0 && i < |w.script|
    requires !w.script[0].Fail? && !(w.script[0].Hangup? && w.buffered == [])
    ensures var (v, r) := Recv(w, need, false);
            var n := if r.Data? then |r.bytes| else 0;
            && n <= need && i <= |v.script|
            && (Received(w, need, i + 1) < need <==> Received(v, need - n, i) < need - n)
  {
    OneCall(w, need);
    ArrivedFirst(w.script, i);
    if !Woke(w.script[1..][..i]) {
      AsleepNothing(w.script[1..][..i]);
    }
  }

  lemma UpLater(w: World, need: nat, i: nat)
    requires need > 0 && i < |w.script|
    requires !w.script[0].Fail? && !(w.script[0].Hangup? && w.buffered == [])
    requires var (v, r) := Recv(w, need, false); r.Data? ==> |r.bytes| < need
    ensures var v := Recv(w, need, false).0;
            i <= |v.script| && (StillUp(w, i + 1) <==> StillUp(v, i))
  {
    OneCall(w, need);
    var v := Recv(w, need, false).0;
    if StillUp(w, i + 1) {
      forall j | 0 <= j < i
        ensures !v.script[j].Fail? && (v.script[j].Hangup? ==> v.buffered != [] && !Woke(v.script[..j]))
      {
        assert v.script[j] == w.script[j + 1];
        ArrivedFirst(w.script, j);
      }
    }
    if StillUp(v, i) {
      forall j | 0 <= j < i + 1
        ensures !w.script[j].Fail? && (w.script[j].Hangup? ==> w.buffered != [] && !Woke(w.script[..j]))
      {
        if j > 0 {
          assert v.script[j - 1] == w.script[j];
          ArrivedFirst(w.script, j - 1);
        }
      }
    }
  }

  lemma FailsLater(w: World, need: nat, i: int)
    requires need > 0 && w.script != []
    requires !w.script[0].Fail? && !(w.script[0].Hangup? && w.buffered == [])
    ensures var (v, r) := Recv(w, need, false);
            var n := if r.Data? then |r.bytes| else 0;
            n <= need && (FailsAt(w, need, i) <==> FailsAt(v, need - n, i - 1))
  {
    OneCall(w, need);
    hide Recv, Received, StillUp;
    var (v, r) := Recv(w, need, false);
    if 0 < i < |w.script| {
      ReceivedLater(w, need, i - 1);
      if !r.Data? || |r.bytes| < need {
        UpLater(w, need, i - 1);
      }
    }
  }

  // A receive loop ends in an error exactly when some call fails before it has all its bytes.
  lemma {:induction false} FailsExactly(w: World, need: nat)
    ensures ReadBody(w, need).2 == MXX_ERROR_SOCKET_RECV_FAILED <==> exists i :: FailsAt(w, need, i)
    decreases |w.script|, need
  {
    hide FailsAt;
    if need == 0 {
      NeverFails(w);
    } else if w.script == [] {
      ScriptOver(w, need);
    } else {
      OneCall(w, need);
      hide Recv;
      if w.script[0].Fail? {
        FailsAtOnce(w, need);
      } else if w.script[0].Hangup? && w.buffered == [] {
        ClosedAtOnce(w, need);
      } else {
        var (v, r) := Recv(w, need, false);
        var left: nat := need - if r.Data? then |r.bytes| else 0;
        FailsExactly(v, left);
        SomeFailsLater(w, need, v, left);
      }
    }
  }

  lemma {:induction false} ScriptOver(w: World, need: nat)
    requires w.script == []
    ensures ReadBody(w, need).2 != MXX_ERROR_SOCKET_RECV_FAILED && forall i :: !FailsAt(w, need, i)
    decreases need
  {
    if need > 0 {
      RecvFacts(w, need, false);
      hide Recv;
      var (v, r) := Recv(w, need, false);
      if r.Data? {
        ScriptOver(v, need - |r.bytes|);
      }
    }
  }

  lemma SomeFailsLater(w: World, need: nat, v: World, left: nat)
    requires need > 0 && w.script != []
    requires !w.script[0].Fail? && !(w.script[0].Hangup? && w.buffered == [])
    requires var (u, r) := Recv(w, need, false);
             u == v && left == need - if r.Data? then |r.bytes| else 0
    ensures (exists i :: FailsAt(w, need, i)) <==> exists i :: FailsAt(v, left, i)
  {
    hide Recv, FailsAt;
    if i :| FailsAt(w, need, i) {
      FailsLater(w, need, i);
    }
    if i :| FailsAt(v, left, i) {
      FailsLater(w, need, i + 1);
    }
  }

  lemma NeverFails(w: World)
    ensures forall i :: !FailsAt(w, 0, i)
  {}

  lemma FailsAtOnce(w: World, need: nat)
    requires need > 0 && w.script != [] && w.script[0].Fail?
    ensures FailsAt(w, need, 0)
  {}

  lemma ClosedAtOnce(w: World, need: nat)
    requires w.script != [] && w.script[0].Hangup? && w.buffered == []
    ensures forall i :: !FailsAt(w, need, i)
  {}

  // ---------- which packet is left half read ----------

  // malloc's next answer is null.
  predicate Refuses(w: World) { w.heap != [] && !w.heap[0] }

  // The header in the buffer is read, and then memory for the packet is refused, or a call for its
  // body fails too early.
  ghost predicate Strands(v: World) {
    && (v.script == [] || v.script[0].Arrive? || v.script[0].Hangup?)
    && var u := Recv(v, HEAD, false).0;
       Refuses(u) || exists i :: FailsAt(Malloc(u).0, Max(0, NextLen(Unread(v))), i)
  }

  // The codes after which the connection stays open inside a frame.
  predicate HalfRead(rc: int) { rc == MXX_ERR_BIN_PACK_ALLOC_FAILED || rc == MXX_ERROR_SOCKET_RECV_FAILED }

  lemma StrandsExactly(v: World)
    requires |v.buffered| >= HEAD && InRange(NextLen(Unread(v)))
    ensures HalfRead(ReadEvent(v).1) <==> Strands(v)
  {
    var (u, r) := Recv(v, HEAD, false);
    HeaderRead(v);
    hide Recv, ReadBody, FailsAt, Unread;
    if r.Data? {
      var len := NextLen(Unread(v));
      assert r.bytes[..HEAD] == r.bytes && DecodeU32(r.bytes) == len;
      ReadBodyFacts(Malloc(u).0, len);
      FailsExactly(Malloc(u).0, len);
      assert Refuses(u) ==> ReadEvent(v).1 == MXX_ERR_BIN_PACK_ALLOC_FAILED;
      assert !Refuses(u) ==> ReadEvent(v).1 == ReadBody(Malloc(u).0, len).2;
      assert Max(0, len) == len;
      assert !Refuses(u) ==> (Strands(v) <==> exists i :: FailsAt(Malloc(u).0, len, i));
    } else {
      assert ReadEvent(v).1 == MXX_ERR_BIN_PACK_HEAD_UNCOMPLETE;
    }
  }

  lemma HeaderRead(v: World)
    requires |v.buffered| >= HEAD
    ensures var (u, r) := Recv(v, HEAD, false);
            && (r.Data? <==> v.script == [] || v.script[0].Arrive? || v.script[0].Hangup?)
            && (r.Data? ==> r.bytes == Unread(v)[..HEAD]) && !r.Closed?
  {
    RecvFacts(v, HEAD, false);
  }

  // The world at the start of a call's k-th round, if the rounds before it read their packets.
  function Round(w: World, k: nat): Option<World>
    decreases k
  {
    if k == 0 then Some(w)
    else
      var (v, r) := Recv(w, HEAD, true);
      if !r.Data? || |r.bytes| < HEAD || ReadEvent(v).1 != 0 then None else Round(ReadEvent(v).0, k - 1)
  }

  // The k-th round sees a header and strands.
  ghost predicate RoundStrands(w: World, k: nat) {
    Round(w, k).Some? && var (v, r) := Recv(Round(w, k).value, HEAD, true);
    r.Data? && |r.bytes| == HEAD && Strands(v)
  }

  lemma OneRound(w: World, k: nat)
    ensures var (v, r) := Recv(w, HEAD, true);
            var seen := r.Data? && |r.bytes| == HEAD;
            && (RoundStrands(w, 0) <==> seen && Strands(v))
            && (RoundStrands(w, k + 1) <==> seen && ReadEvent(v).1 == 0 && RoundStrands(ReadEvent(v).0, k))
  {
    RecvFacts(w, HEAD, true);
    hide Recv, ReadEvent, Strands;
  }

  lemma NoHeaderNoStrand(w: World)
    requires var (v, r) := Recv(w, HEAD, true); !(r.Data? && |r.bytes| == HEAD)
    ensures forall k :: !RoundStrands(w, k)
  {
    hide Recv, RoundStrands;
    forall k: nat ensures !RoundStrands(w, k) {
      OneRound(w, if k > 0 then k - 1 else 0);
    }
  }

  lemma RoundsFromNext(w: World)
    requires var (v, r) := Recv(w, HEAD, true); r.Data? && |r.bytes| == HEAD
    ensures var v := Recv(w, HEAD, true).0;
            (exists k :: RoundStrands(w, k)) <==>
              Strands(v) || (ReadEvent(v).1 == 0 && exists k :: RoundStrands(ReadEvent(v).0, k))
  {
    hide Recv, ReadEvent, Strands, RoundStrands;
    var v := Recv(w, HEAD, true).0;
    var z := ReadEvent(v).0;
    OneRound(w, 0);
    if k: nat :| RoundStrands(w, k) {
      OneRound(w, if k > 0 then k - 1 else 0);
    }
    if k: nat :| RoundStrands(z, k) {
      OneRound(w, k);
    }
  }

  // One packet of a framed stream, its header in the buffer.
  lemma OnePacket(v: World, ps: seq<seq<byte>>)
    requires Payloads(ps) && Unread(v) <= Wire(ps) && |v.buffered| >= HEAD
    ensures HalfRead(ReadEvent(v).1) <==> Strands(v)
    ensures ps != [] && (ReadEvent(v).1 == 0 ==> Unread(ReadEvent(v).0) <= Wire(ps[1..]))
  {
    hide Recv, ReadEvent, Wire, Frame, Strands;
    ReadFirst(v, ps);
    FirstHeader(ps, Unread(v));
    StrandsExactly(v);
    if ReadEvent(v).1 == 0 {
      TailOfWire(ps, Unread(v));
    }
  }

  lemma {:induction false} LastExactly(w: World, ps: seq<seq<byte>>)
    requires Payloads(ps) && Unread(w) <= Wire(ps)
    ensures HalfRead(DoRead(w).last) <==> exists k :: RoundStrands(w, k)
    decreases |w.script| + |Unread(w)|
  {
    RecvFacts(w, HEAD, true);
    hide Recv, ReadEvent, Wire, Frame, Strands, RoundStrands, Unread;
    var (v, r) := Recv(w, HEAD, true);
    if r.Data? && |r.bytes| == HEAD {
      OnePacket(v, ps);
      RoundsFromNext(w);
      if ReadEvent(v).1 == 0 {
        Shrinks(w);
        LastExactly(ReadEvent(v).0, ps[1..]);
      }
    } else {
      NoHeaderNoStrand(w);
    }
  }

  // A call leaves the connection open and the stream inside a frame exactly when one of its rounds
  // sees a header and then has its memory refused or its receive fail within the body.
  lemma OffBoundaryExactly(w: World, ps: seq<seq<byte>>)
    requires Payloads(ps) && Unread(w) <= Wire(ps)
    ensures var o := DoRead(w);
            !o.close && |Unread(w)| - |Unread(o.world)| != |Wire(o.queued)|
            <==> exists k :: RoundStrands(w, k)
  {
    DoReadInOrder(w, ps);
    LastExactly(w, ps);
    hide DoRead, Wire, RoundStrands;
  }

  // ---------- when the connection is to be closed ----------

  // The k-th round finds the connection closed or failed at the peek, or closed within the packet.
  ghost predicate RoundCloses(w: World, k: nat) {
    Round(w, k).Some? && var (v, r) := Recv(Round(w, k).value, HEAD, true);
    r.Err? || r.Closed? || (r.Data? && |r.bytes| == HEAD && ReadEvent(v).1 == -1001)
  }

  lemma ClosesLater(w: World, k: nat)
    ensures var (v, r) := Recv(w, HEAD, true);
            var seen := r.Data? && |r.bytes| == HEAD;
            && (RoundCloses(w, 0) <==> r.Err? || r.Closed? || (seen && ReadEvent(v).1 == -1001))
            && (RoundCloses(w, k + 1) <==> seen && ReadEvent(v).1 == 0 && RoundCloses(ReadEvent(v).0, k))
  {
    RecvFacts(w, HEAD, true);
    hide Recv, ReadEvent;
  }

  lemma ClosesFromNext(w: World)
    ensures var (v, r) := Recv(w, HEAD, true);
            var seen := r.Data? && |r.bytes| == HEAD;
            (exists k :: RoundCloses(w, k)) <==>
              || r.Err? || r.Closed? || (seen && ReadEvent(v).1 == -1001)
              || (seen && ReadEvent(v).1 == 0 && exists k :: RoundCloses(ReadEvent(v).0, k))
  {
    hide Recv, ReadEvent, RoundCloses;
    ClosesLater(w, 0);
    var z := ReadEvent(Recv(w, HEAD, true).0).0;
    if k: nat :| RoundCloses(w, k) {
      ClosesLater(w, if k > 0 then k - 1 else 0);
    }
    if k: nat :| RoundCloses(z, k) {
      ClosesLater(w, k);
    }
  }

  // A call asks for the connection to be closed exactly when one of its rounds finds it so; this
  // holds for any stream, framed or not.
  lemma {:induction false} ClosesExactly(w: World)
    ensures DoRead(w).close <==> exists k :: RoundCloses(w, k)
    decreases |w.script| + |Unread(w)|
  {
    RecvFacts(w, HEAD, true);
    hide Recv, ReadEvent, RoundCloses, Unread;
    var (v, r) := Recv(w, HEAD, true);
    ClosesFromNext(w);
    if r.Data? && |r.bytes| == HEAD && ReadEvent(v).1 == 0 {
      Shrinks(w);
      ClosesExactly(ReadEvent(v).0);
    }
  }

  // ---------- nothing fails ----------

  ghost predicate Quiet(w: World) {
    && (forall i :: 0 <= i < |w.script| ==> !w.script[i].Fail?)
    && (forall i :: 0 <= i < |w.heap| ==> w.heap[i])
  }

  lemma QuietRecv(w: World, max: nat, peek: bool)
    requires Quiet(w)
    ensures Quiet(Recv(w, max, peek).0)
  {}

  lemma {:induction false} QuietBody(w: World, need: nat)
    requires Quiet(w)
    ensures Quiet(ReadBody(w, need).0)
    decreases |w.script|, need
  {
    if need > 0 {
      RecvFacts(w, need, false);
      QuietRecv(w, need, false);
      hide Recv, Quiet;
      var (v, r) := Recv(w, need, false);
      if r.Data? {
        QuietBody(v, need - |r.bytes|);
      } else if r.Again? || r.Intr? {
        QuietBody(v, need);
      }
    }
  }

  lemma QuietEvent(v: World)
    requires Quiet(v)
    ensures Quiet(ReadEvent(v).0)
  {
    QuietRecv(v, HEAD, false);
    var (u, r) := Recv(v, HEAD, false);
    QuietMalloc(u);
    hide Recv, ReadBody, Quiet;
    if r.Data? && |r.bytes| == HEAD && InRange(DecodeU32(r.bytes)) {
      QuietBody(Malloc(u).0, DecodeU32(r.bytes));
    }
    RecvFacts(v, HEAD, false);
    assert r.Data? && |r.bytes| == HEAD ==> r.bytes[..HEAD] == r.bytes;
  }

  lemma QuietMalloc(w: World)
    requires Quiet(w)
    ensures Quiet(Malloc(w).0) && Malloc(w).1
  {}

  lemma {:induction false} QuietRounds(w: World, k: nat)
    requires Quiet(w)
    ensures !RoundStrands(w, k)
    decreases k
  {
    var (v, r) := Recv(w, HEAD, true);
    QuietRecv(w, HEAD, true);
    QuietNotStranded(v);
    QuietEvent(v);
    OneRound(w, if k > 0 then k - 1 else 0);
    hide Recv, ReadEvent, Quiet, RoundStrands;
    if k > 0 {
      QuietRounds(ReadEvent(v).0, k - 1);
    }
  }

  lemma QuietNotStranded(v: World)
    requires Quiet(v)
    ensures !Strands(v)
  {
    QuietRecv(v, HEAD, false);
    QuietMalloc(Recv(v, HEAD, false).0);
    hide Recv;
  }

  // With no receive error and no refused memory, an open connection is at a frame boundary.
  lemma OnBoundaryWhenQuiet(w: World, ps: seq<seq<byte>>)
    requires Payloads(ps) && Unread(w) <= Wire(ps) && Quiet(w)
    ensures var o := DoRead(w);
            !o.close ==> |Unread(w)| - |Unread(o.world)| == |Wire(o.queued)|
  {
    OffBoundaryExactly(w, ps);
    hide DoRead, Wire, RoundStrands;
    forall k: nat ensures !RoundStrands(w, k) {
      QuietRounds(w, k);
    }
  }

  // One frame, whose memory is refused: the connection stays open with the payload unread.
  lemma RefusedExample(p: seq<byte>)
    requires InRange(|p|)
    ensures var o := DoRead(World([], Frame(p), [Arrive(0), Arrive(0)], [false]));
            !o.close && o.queued == [] && Unread(o.world) == p
  {
    U32RoundTrip(|p|);
    var f := Frame(p);
    assert f[..HEAD] == EncodeU32(|p|) && f[HEAD..] == p;
  }

  lemma NoMoreArrives(w: World, rest: seq<Event>, max: nat, peek: bool)
    requires w.script == [Arrive(0)] + rest && w.buffered != []
    ensures var n := Min(max, |w.buffered|);
            var after := w.(script := rest, buffered := w.buffered[if peek then 0 else n..]);
            Recv(w, max, peek) == (after, Data(w.buffered[..n]))
  {
    assert w.script[1..] == rest;
    assert w.buffered + w.inflight[..0] == w.buffered && w.inflight[0..] == w.inflight;
    assert w.buffered[0..] == w.buffered;
  }

  // One frame, with a receive error after its first byte: the same, with that byte lost.
  lemma FailedExample(p: seq<byte>)
    requires InRange(|p|) && |p| > 1
    ensures var o := DoRead(World(p[1..], Frame(p)[..HEAD + 1], [Arrive(0), Arrive(0), Arrive(0), Fail], []));
            !o.close && o.queued == [] && Unread(o.world) == p[1..]
  {
    U32RoundTrip(|p|);
    var f := Frame(p)[..HEAD + 1];
    var w := World(p[1..], f, [Arrive(0), Arrive(0), Arrive(0), Fail], []);
    assert f[..HEAD] == EncodeU32(|p|) && f[HEAD..] == [p[0]] && f[0..] == f;
    assert w.script == [Arrive(0)] + [Arrive(0), Arrive(0), Fail];
    NoMoreArrives(w, [Arrive(0), Arrive(0), Fail], HEAD, true);
    FailedEvent(p, f);
    hide ReadEvent, Recv;
  }

  lemma FailedEvent(p: seq<byte>, f: seq<byte>)
    requires InRange(|p|) && |p| > 1 && |f| == HEAD + 1 && f[..HEAD] == EncodeU32(|p|) && f[HEAD..] == [p[0]]
    ensures ReadEvent(World(p[1..], f, [Arrive(0), Arrive(0), Fail], []))
         == (World(p[1..], [], [], []), MXX_ERROR_SOCKET_RECV_FAILED, None)
  {
    U32RoundTrip(|p|);
    var v := World(p[1..], f, [Arrive(0), Arrive(0), Fail], []);
    assert v.script == [Arrive(0)] + [Arrive(0), Fail];
    NoMoreArrives(v, [Arrive(0), Fail], HEAD, false);
    FailedBody(p);
    hide ReadBody, Recv;
    assert f[..HEAD][..HEAD] == f[..HEAD];
  }

  lemma FailedBody(p: seq<byte>)
    requires |p| > 1
    ensures ReadBody(World(p[1..], [p[0]], [Arrive(0), Fail], []), |p|)
         == (World(p[1..], [], [], []), [p[0]], MXX_ERROR_SOCKET_RECV_FAILED)
  {
    var w := World(p[1..], [p[0]], [Arrive(0), Fail], []);
    var v := World(p[1..], [], [Fail], []);
    assert w.script == [Arrive(0)] + [Fail];
    NoMoreArrives(w, [Fail], |p|, false);
    assert v.script[1..] == [];
    assert Recv(v, |p| - 1, false) == (World(p[1..], [], [], []), Err);
    assert ReadBody(v, |p| - 1) == (World(p[1..], [], [], []), [], MXX_ERROR_SOCKET_RECV_FAILED);
    assert [p[0]] + [] == [p[0]];
  }
}
