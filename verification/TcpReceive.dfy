// What the receiving side takes in and what tcp_recv hands out.
module TcpReceive {
  import opened Bytes
  import opened SeqNum
  import opened TcpSender
  import opened TcpSpec

  // ----- which segments are acceptable -----

  predicate InWindow(t: Tcb, x: u32) {
    Off(t.rcvNxt, x) < t.wnd
  }

  // RFC 793, section 3.3: some octet of the segment falls in the receive window.
  ghost predicate MeetsWindow(t: Tcb, s: Segment) {
    exists k: nat :: k < SegLen(s) && InWindow(t, Add(s.sn, k))
  }

  // What the test should answer for a segment no longer than the window.
  ghost predicate ShouldAccept(t: Tcb, s: Segment) {
    if SegLen(s) == 0 then InWindow(t, s.sn) else MeetsWindow(t, s)
  }

  lemma WindowEdge(t: Tcb, x: u32)
    requires t.rcvNxt + t.wnd < M32
    ensures Sncmp(t.rcvNxt, Le, x, Ls, Add(t.rcvNxt, t.wnd)) <==> InWindow(t, x)
  {
    OffCases(t.rcvNxt, x);
  }

  // process_received_seq looks at the first and the last octet only, which is enough for
  // a segment no longer than the window, even one that wraps.
  lemma AcceptableMeetsWindow(t: Tcb, s: Segment)
    requires t.wnd > 0 && t.rcvNxt + t.wnd < M32 && SegLen(s) <= t.wnd
    ensures Acceptable(t, s) <==> ShouldAccept(t, s)
  {
    var n := SegLen(s);
    WindowEdge(t, s.sn);
    if n > 0 {
      WindowEdge(t, Add(s.sn, n - 1));
      assert Add(s.sn, 0) == s.sn;
      if InWindow(t, s.sn) {
        assert InWindow(t, Add(s.sn, 0));
      }
      if MeetsWindow(t, s) {
        var k: nat :| k < n && InWindow(t, Add(s.sn, k));
        OffShift(t.rcvNxt, s.sn, k);
        OffShift(t.rcvNxt, s.sn, n - 1);
      }
    }
  }

  lemma OffShift(base: u32, x: u32, k: nat)
    requires k < M32
    ensures var d := Off(base, x) + k; Off(base, Add(x, k)) == if d < M32 then d else d - M32
  {
    OffCases(base, x);
    OffCases(base, Add(x, k));
  }

  // A closed window accepts nothing.
  lemma ClosedWindow(t: Tcb, s: Segment)
    requires t.wnd == 0
    ensures !Acceptable(t, s)
  {
  }

  // In a window that wraps it accepts exactly the complement: a segment with an end outside.
  lemma WrappedWindow(t: Tcb, s: Segment)
    requires t.wnd > 0 && t.rcvNxt + t.wnd >= M32
    ensures Acceptable(t, s) <==>
            !InWindow(t, s.sn) || (SegLen(s) > 0 && !InWindow(t, Add(s.sn, SegLen(s) - 1)))
  {
    OffCases(t.rcvNxt, s.sn);
    OffCases(t.rcvNxt, Add(s.sn, SegLen(s) - 1));
  }

  // The test is right for all such segments exactly when the window does not wrap: at a
  // wrapped window even the very next expected octet is refused.
  lemma AcceptanceRightIff(t: Tcb)
    requires t.wnd > 0
    ensures (forall s :: SegLen(s) <= t.wnd ==> (Acceptable(t, s) <==> ShouldAccept(t, s)))
       <==> t.rcvNxt + t.wnd < M32
  {
    if t.rcvNxt + t.wnd < M32 {
      forall s | SegLen(s) <= t.wnd ensures Acceptable(t, s) <==> ShouldAccept(t, s) {
        AcceptableMeetsWindow(t, s);
      }
    } else {
      var s := CtrlSegment(t.rcvNxt, 0, ACK);
      assert SegLen(s) == 0 && ShouldAccept(t, s) && !Acceptable(t, s);
    }
  }

  // For a segment of any length the two octets are enough exactly when the segment does not
  // cover the window on both sides.
  lemma CoveringRefusedIff(t: Tcb, s: Segment)
    requires t.wnd > 0 && t.rcvNxt + t.wnd < M32 && SegLen(s) < M32
    ensures var d := Off(s.sn, t.rcvNxt);
            (Acceptable(t, s) <==> ShouldAccept(t, s)) <==> !(0 < d && d + t.wnd < SegLen(s))
  {
    var n, d := SegLen(s), Off(s.sn, t.rcvNxt);
    WindowEdge(t, s.sn);
    if n > 0 {
      WindowEdge(t, Add(s.sn, n - 1));
      OffBack(s.sn, t.rcvNxt);
      OffShift(t.rcvNxt, s.sn, n - 1);
      assert Add(s.sn, 0) == s.sn;
      if d < n {
        AddOff(s.sn, t.rcvNxt);
        assert InWindow(t, Add(s.sn, d));
      } else if MeetsWindow(t, s) {
        var k: nat :| k < n && InWindow(t, Add(s.sn, k));
        OffShift(t.rcvNxt, s.sn, k);
      }
    }
  }

  lemma OffBack(x: u32, y: u32)
    ensures Off(y, x) == if x == y then 0 else M32 - Off(x, y)
  {
    OffCases(x, y);
    OffCases(y, x);
  }

  // ----- tcp_send's answer -----

  // tcp_send reports every byte it was given, but a node keeps its size in 16 bits: the
  // report equals what was queued exactly for sends shorter than 65536 bytes.
  lemma SendReportsQueuedIff(t: Tcb, data: seq<byte>, env: Env)
    requires t.state == Established
    ensures SendResult(t, data, env) == |Sent(t, data, env).accepted| - |t.accepted|
       <==> !env.buf || |data| < M16
  {
    if |data| < M16 {
      assert |data| % M16 == |data|;
    }
  }

  // ----- tcp_recv -----

  function Avail(c: RxChunk): nat {
    |c.bytes| - c.offset
  }

  // The destination after recv_when_established: each chunk is copied to the start of it.
  function Fill(buf: seq<byte>, q: seq<RxChunk>, n: nat): (r: seq<byte>)
    requires n <= |buf|
    ensures |r| == |buf|
    decreases |q|
  {
    if q == [] || n == 0 then buf
    else
      var k := Min(Avail(q[0]), n);
      var b := q[0].bytes[q[0].offset..q[0].offset + k] + buf[k..];
      if Avail(q[0]) < n then Fill(b, q[1..], n - Avail(q[0])) else b
  }

  function Count(q: seq<RxChunk>, n: nat): nat {
    Min(n, |Unread(q)|)
  }

  // Reading n bytes drops exactly min(n, unread) bytes of the unread stream.
  lemma {:induction false} DropUnread(q: seq<RxChunk>, n: nat)
    ensures Unread(Drop(q, n)) == Unread(q)[Count(q, n)..]
    decreases |q|
  {
    if q == [] || n == 0 {
    } else {
      var head, rest, d := q[0].bytes[q[0].offset..], Unread(q[1..]), Drop(q, n);
      assert Unread(q) == head + rest;
      if Avail(q[0]) < n {
        assert d == Drop(q[1..], n - |head|);
        DropUnread(q[1..], n - |head|);
        hide Unread, Drop;
        DropPast(head, rest, Count(q[1..], n - |head|));
      } else {
        assert d[1..] == q[1..] && Unread(d) == d[0].bytes[d[0].offset..] + rest;
        hide Unread, Drop;
        DropAppend(head, rest, n);
        assert q[0].bytes[q[0].offset..][n..] == q[0].bytes[q[0].offset + n..];
      }
    }
  }

  // What is unread is always the tail of all that was ever queued.
  predicate UnreadIsTail(t: Tcb) {
    IsTail(Unread(t.rxData), t.enqueued)
  }

  predicate IsTail(unread: seq<byte>, all: seq<byte>) {
    |unread| <= |all| && unread == all[|all| - |unread|..]
  }

  lemma TailKept(t: Tcb, u: Tcb)
    requires UnreadIsTail(t) && ReceivedSame(t, u)
    ensures UnreadIsTail(u)
  {
  }

  lemma {:induction false} UnreadAppend(q: seq<RxChunk>, c: RxChunk)
    ensures Unread(q + [c]) == Unread(q) + c.bytes[c.offset..]
    decreases |q|
  {
    if q == [] {
      assert q + [c] == [c];
    } else {
      UnreadAppend(q[1..], c);
      assert (q + [c])[1..] == q[1..] + [c];
    }
  }

  lemma UnreadHandleData(t: Tcb, a: Arrival, env: Env)
    requires UnreadIsTail(t)
    ensures UnreadIsTail(HandleData(t, a, env))
  {
    var u := HandleData(t, a, env);
    if u.rxData != t.rxData {
      var b := CopiedBytes(a, t.wnd);
      UnreadAppend(t.rxData, RxNode.RxChunk(b, 0));
      DropAppend(t.enqueued, b, |t.enqueued| - |Unread(t.rxData)|);
    }
  }

  predicate ReceivedSame(t: Tcb, u: Tcb) {
    u.rxData == t.rxData && u.enqueued == t.enqueued
  }

  lemma UnreadAccepted(t: Tcb, a: Arrival, env: Env)
    requires UnreadIsTail(t)
    ensures UnreadIsTail(AcceptedWhenEstablished(t, a, env))
  {
    var t1 := if TxIsFin(t) then t else HandleAckOfData(t, a.seg, env);
    TailKept(t, t1);
    UnreadHandleData(t1, a, env);
    var t2 := HandleData(t1, a, env);
    HandleFinAckSends(t2, a.seg, env);
    TailKept(t2, AcceptedWhenEstablished(t, a, env));
  }

  lemma OthersReceiveNothing(t: Tcb, a: Arrival, env: Env)
    requires t.state != Established
    ensures ReceivedSame(t, Received(t, a, env))
  {
    match t.state
    case Listen => ListenReceivesNothing(t, a.seg, env);
    case SynReceived => var c := SynReceivedSends(t, a.seg, env);
    case SynSent => var c := SynSentSends(t, a.seg, env);
    case FinWait1 => ClosingReceivesNothing(t, a.seg, FinWait2, env);
    case LastAck => ClosingReceivesNothing(t, a.seg, Closed, env);
    case _ => WaitingReceivesNothing(t, a.seg, env);
  }

  lemma ListenReceivesNothing(t: Tcb, s: Segment, env: Env)
    ensures ReceivedSame(t, ReceivedWhenListen(t, s, env))
  {
  }

  lemma ClosingReceivesNothing(t: Tcb, s: Segment, next: State, env: Env)
    ensures ReceivedSame(t, ReceivedWhenClosing(t, Some(s), next, env))
  {
    hide HandleAckOfData, SendCtrl;
    AckReceivesNothing(t, s, env);
  }

  lemma AckReceivesNothing(t: Tcb, s: Segment, env: Env)
    ensures ReceivedSame(t, HandleAckOfData(t, s, env))
  {
  }

  lemma WaitingReceivesNothing(t: Tcb, s: Segment, env: Env)
    ensures ReceivedSame(t, ReceivedWhenFinWait2(t, s, env)) && ReceivedSame(t, ReceivedWhenWaiting(t, s, env))
  {
    HandleFinAckSends(t.(state := TimeWait, tmr := Some(t.timeWaitSeconds)), s, env);
    HandleFinAckSends(t, s, env);
  }

  lemma UnreadReceived(t: Tcb, a: Arrival, env: Env)
    requires UnreadIsTail(t)
    ensures UnreadIsTail(Received(t, a, env))
  {
    if t.state != Established {
      OthersReceiveNothing(t, a, env);
      TailKept(t, Received(t, a, env));
    } else if !Acceptable(t, a.seg) {
      TailKept(t, Refuse(t, a.seg, env));
    } else if !a.seg.flags.rst && a.seg.flags.ack {
      UnreadAccepted(t, a, env);
    }
  }

  // Conservation over every run: queued = already read + still unread, in order.
  lemma {:induction false} UnreadRun(passive: bool, isn: u32, env: Env, es: seq<Event>)
    ensures UnreadIsTail(Run(Opened(passive, isn, env), es))
  {
    if es != [] {
      var p, e := es[..|es| - 1], es[|es| - 1];
      UnreadRun(passive, isn, env, p);
      var t := Run(Opened(passive, isn, env), p);
      UnreadStep(t, e);
    }
  }

  lemma UnreadStep(t: Tcb, e: Event)
    requires UnreadIsTail(t)
    ensures UnreadIsTail(Step(t, e))
  {
    hide Received, TimedOut, ClosedByUser, Sent, UnreadIsTail;
    match e
    case Arrive(a, v) => UnreadReceived(t, a, v);
    case Recv(n) => UnreadRead(t, n);
    case _ =>
      QuietReceivesNothing(t, e);
      TailKept(t, Step(t, e));
  }

  lemma UnreadRead(t: Tcb, n: nat)
    requires UnreadIsTail(t)
    ensures UnreadIsTail(Read(t, n))
  {
    DropUnread(t.rxData, n);
  }

  lemma QuietReceivesNothing(t: Tcb, e: Event)
    requires !e.Arrive? && !e.Recv?
    ensures ReceivedSame(t, Step(t, e))
  {
  }

  // The first k bytes of what a chunk has left, laid over the start of the buffer.
  function Over(buf: seq<byte>, c: RxChunk, k: nat): (r: seq<byte>)
    requires k <= Avail(c) && k <= |buf|
    ensures |r| == |buf|
  {
    c.bytes[c.offset..c.offset + k] + buf[k..]
  }

  lemma OverNothing(buf: seq<byte>, c: RxChunk)
    ensures Over(buf, c, 0) == buf
  {
  }

  lemma FillCons(buf: seq<byte>, a: RxChunk, q: seq<RxChunk>, n: nat)
    requires 0 < n <= |buf|
    ensures var b := Over(buf, a, Min(Avail(a), n));
            if Avail(a) < n
            then Fill(buf, [a] + q, n) == Fill(b, q, n - Avail(a)) && Count([a] + q, n) == Avail(a) + Count(q, n - Avail(a))
            else Fill(buf, [a] + q, n) == b && Count([a] + q, n) == n
  {
    CountCons(a, q, n);
    assert ([a] + q)[0] == a && ([a] + q)[1..] == q;
    FillUnfolds(buf, [a] + q, n);
    hide Unread, Fill, Over;
  }

  lemma FillUnfolds(buf: seq<byte>, q: seq<RxChunk>, n: nat)
    requires 0 < n <= |buf| && q != []
    ensures var b := Over(buf, q[0], Min(Avail(q[0]), n));
            Fill(buf, q, n) == if Avail(q[0]) < n then Fill(b, q[1..], n - Avail(q[0])) else b
  {
    hide Unread;
  }

  lemma CountCons(a: RxChunk, q: seq<RxChunk>, n: nat)
    requires 0 < n
    ensures Count([a] + q, n) == if Avail(a) < n then Avail(a) + Count(q, n - Avail(a)) else n
  {
    assert ([a] + q)[1..] == q;
  }

  lemma FillNone(buf: seq<byte>, q: seq<RxChunk>, n: nat)
    requires n <= |buf| && (q == [] || n == 0)
    ensures Fill(buf, q, n) == buf && Count(q, n) == 0
  {
  }

  // The buffer after a read, chunk by chunk: each one is laid over the start of the buffer
  // with as much of it as the request has left.
  lemma {:induction false} FillSnoc(buf: seq<byte>, q: seq<RxChunk>, c: RxChunk, n: nat)
    requires n <= |buf|
    ensures Fill(buf, q + [c], n) == Over(Fill(buf, q, n), c, Min(Avail(c), n - Count(q, n)))
    decreases |q|
  {
    hide Fill, Unread, Over;
    if n == 0 {
      FillNone(buf, q, n);
      FillNone(buf, q + [c], n);
      OverNothing(buf, c);
    } else if q == [] {
      FillNone(buf, q, n);
      FillCons(buf, c, [], n);
      assert q + [c] == [c] + [];
      var b := Over(buf, c, Min(Avail(c), n));
      if Avail(c) < n {
        FillNone(b, [], n - Avail(c));
      }
    } else {
      var a, t := q[0], q[1..];
      assert q == [a] + t && q + [c] == [a] + (t + [c]);
      FillCons(buf, a, t, n);
      FillCons(buf, a, t + [c], n);
      var b := Over(buf, a, Min(Avail(a), n));
      if Avail(a) < n {
        FillSnoc(b, t, c, n - Avail(a));
      } else {
        OverNothing(b, c);
      }
    }
  }

  // The bytes behind the answer stay.
  lemma {:induction false} FillRest(buf: seq<byte>, q: seq<RxChunk>, n: nat)
    requires n <= |buf|
    ensures Fill(buf, q, n)[Count(q, n)..] == buf[Count(q, n)..]
    decreases |q|
  {
    hide Fill, Unread, Over;
    if q == [] || n == 0 {
      FillNone(buf, q, n);
    } else {
      var a, t := q[0], q[1..];
      assert q == [a] + t;
      FillCons(buf, a, t, n);
      var k := Min(Avail(a), n);
      var b := Over(buf, a, k);
      OverRest(buf, a, k, Count(q, n));
      if Avail(a) < n {
        var f, m := Fill(b, t, n - Avail(a)), Count(t, n - Avail(a));
        FillRest(b, t, n - Avail(a));
        assert f[m..][k..] == f[m + k..] && b[m..][k..] == b[m + k..];
      }
    }
  }

  lemma OverRest(buf: seq<byte>, c: RxChunk, k: nat, m: nat)
    requires k <= Avail(c) && k <= m <= |buf|
    ensures Over(buf, c, k)[m..] == buf[m..]
  {
  }

  // At most one chunk contributes to a read of n bytes.
  predicate OneChunkServes(q: seq<RxChunk>, n: nat) {
    q == [] || n == 0
    || (if Avail(q[0]) == 0 then OneChunkServes(q[1..], n) else Avail(q[0]) >= n || Unread(q[1..]) == [])
  }

  // The caller's buffer holds the stream prefix.
  predicate BufferRight(buf: seq<byte>, q: seq<RxChunk>, n: nat)
    requires n <= |buf|
  {
    Fill(buf, q, n)[..Count(q, n)] == Unread(q)[..Count(q, n)]
  }

  lemma EmptyChunk(buf: seq<byte>, c: RxChunk, q: seq<RxChunk>, n: nat)
    requires n <= |buf| && Avail(c) == 0
    ensures Fill(buf, [c] + q, n) == Fill(buf, q, n) && Unread([c] + q) == Unread(q)
    ensures BufferRight(buf, [c] + q, n) == BufferRight(buf, q, n)
  {
    assert ([c] + q)[1..] == q;
    assert c.bytes[c.offset..c.offset] + buf[0..] == buf;
    assert c.bytes[c.offset..] == [];
  }

  lemma {:induction false} FillNothing(buf: seq<byte>, q: seq<RxChunk>, n: nat)
    requires n <= |buf| && Unread(q) == []
    ensures Fill(buf, q, n) == buf
    decreases |q|
  {
    if q != [] && n > 0 {
      assert Avail(q[0]) == 0;
      assert q[0].bytes[q[0].offset..q[0].offset] + buf[0..] == buf;
      FillNothing(buf, q[1..], n);
    }
  }

  lemma {:induction false} OneChunkFills(buf: seq<byte>, q: seq<RxChunk>, n: nat)
    requires n <= |buf| && OneChunkServes(q, n)
    ensures BufferRight(buf, q, n)
    decreases |q|
  {
    if q != [] && n > 0 {
      var c := q[0];
      if Avail(c) == 0 {
        OneChunkFills(buf, q[1..], n);
        EmptyChunk(buf, c, q[1..], n);
        assert [c] + q[1..] == q;
      } else {
        FirstChunkFills(buf, q, n);
      }
    }
  }

  lemma FirstChunkFills(buf: seq<byte>, q: seq<RxChunk>, n: nat)
    requires 0 < n <= |buf| && q != [] && 0 < Avail(q[0]) && (Avail(q[0]) >= n || Unread(q[1..]) == [])
    ensures BufferRight(buf, q, n)
  {
    var c, k := q[0], Min(Avail(q[0]), n);
    var x := c.bytes[c.offset..c.offset + k];
    var b, rest := x + buf[k..], Unread(q[1..]);
    if Avail(c) < n {
      FillNothing(b, q[1..], n - Avail(c));
    }
    assert Fill(buf, q, n) == b && Unread(q) == c.bytes[c.offset..] + rest;
    hide Fill, Unread;
    TakeWithin(x, buf[k..], k);
    TakeWithin(c.bytes[c.offset..], rest, k);
    SliceTake(c.bytes, c.offset, k, k);
  }

  // The same queue with every byte replaced.
  function Paint(q: seq<RxChunk>, b: byte): (r: seq<RxChunk>)
    ensures |r| == |q|
  {
    if q == [] then [] else
      var c := RxNode.RxChunk(seq(|q[0].bytes|, _ => b), q[0].offset);
      [c] + Paint(q[1..], b)
  }

  predicate SameShape(q: seq<RxChunk>, r: seq<RxChunk>) {
    |q| == |r| && forall i :: 0 <= i < |q| ==> |q[i].bytes| == |r[i].bytes| && q[i].offset == r[i].offset
  }

  lemma {:induction false} PaintShape(q: seq<RxChunk>, b: byte)
    ensures SameShape(q, Paint(q, b)) && |Unread(Paint(q, b))| == |Unread(q)|
    decreases |q|
  {
    if q != [] {
      PaintShape(q[1..], b);
    }
  }

  // The first chunk of a painted queue, laid over a buffer.
  lemma PaintedHead(buf: seq<byte>, q: seq<RxChunk>, n: nat, b: byte)
    requires 0 < n <= |buf| && q != []
    ensures var p := Paint(q, b);
            && p[1..] == Paint(q[1..], b) && Avail(p[0]) == Avail(q[0])
            && Over(buf, p[0], Min(Avail(p[0]), n))[0] == (if Avail(p[0]) == 0 then buf[0] else b)
    ensures Avail(q[0]) == 0 ==> Unread(q) == Unread(q[1..])
  {
    assert Avail(q[0]) == 0 ==> q[0].bytes[q[0].offset..] == [];
  }

  // Painted bytes that are read reach the first byte of the buffer.
  lemma {:induction false} FillPainted(buf: seq<byte>, q: seq<RxChunk>, n: nat, b: byte)
    requires 0 < n <= |buf| && (Unread(q) != [] || buf[0] == b)
    ensures Fill(buf, Paint(q, b), n)[0] == b
    decreases |q|
  {
    if q == [] {
      FillNone(buf, [], n);
    } else {
      hide Fill, Unread, Over, Paint;
      PaintedHead(buf, q, n, b);
      var p := Paint(q, b);
      FillUnfolds(buf, p, n);
      if Avail(p[0]) < n {
        FillPainted(Over(buf, p[0], Avail(p[0])), q[1..], n - Avail(p[0]), b);
      }
    }
  }

  // A queue of the same shape on which the buffer comes out wrong.
  lemma {:induction false} ManyChunksSpoil(buf: seq<byte>, q: seq<RxChunk>, n: nat) returns (r: seq<RxChunk>)
    requires n <= |buf| && !OneChunkServes(q, n)
    ensures SameShape(q, r) && !BufferRight(buf, r, n)
    decreases |q|
  {
    var c := q[0];
    if Avail(c) == 0 {
      var r1 := ManyChunksSpoil(buf, q[1..], n);
      r := [c] + r1;
      EmptyChunk(buf, c, r1, n);
      ShapeCons(c, c, q[1..], r1);
      assert [c] + q[1..] == q;
    } else {
      var z := RxNode.RxChunk(seq(|c.bytes|, _ => 0), c.offset);
      r := [z] + Paint(q[1..], 1);
      PaintShape(q[1..], 1);
      ShapeCons(c, z, q[1..], Paint(q[1..], 1));
      assert [c] + q[1..] == q;
      SpoiledFirstByte(buf, z, q[1..], n);
    }
  }

  lemma SpoiledFirstByte(buf: seq<byte>, z: RxChunk, q: seq<RxChunk>, n: nat)
    requires 0 < Avail(z) < n <= |buf| && z.bytes[z.offset] == 0 && Unread(q) != []
    ensures !BufferRight(buf, [z] + Paint(q, 1), n)
  {
    var r := [z] + Paint(q, 1);
    assert r[1..] == Paint(q, 1);
    var b := z.bytes[z.offset..z.offset + Avail(z)] + buf[Avail(z)..];
    FillPainted(b, q, n - Avail(z), 1);
    assert Fill(buf, r, n)[0] == 1;
    assert Unread(r)[0] == 0;
    assert Fill(buf, r, n)[..Count(r, n)][0] != Unread(r)[..Count(r, n)][0];
  }

  lemma ShapeCons(c: RxChunk, d: RxChunk, q: seq<RxChunk>, r: seq<RxChunk>)
    requires SameShape(q, r) && |c.bytes| == |d.bytes| && c.offset == d.offset
    ensures SameShape([c] + q, [d] + r)
  {
  }

  // tcp_recv fills the buffer with the stream prefix, whatever the bytes are, exactly when
  // at most one chunk contributes: the destination pointer is not advanced between chunks.
  lemma BufferRightIff(buf: seq<byte>, q: seq<RxChunk>, n: nat)
    requires n <= |buf|
    ensures (forall r :: SameShape(q, r) ==> BufferRight(buf, r, n)) <==> OneChunkServes(q, n)
  {
    if OneChunkServes(q, n) {
      forall r | SameShape(q, r) ensures BufferRight(buf, r, n) {
        ServesShape(q, r, n);
        OneChunkFills(buf, r, n);
      }
    } else {
      var r := ManyChunksSpoil(buf, q, n);
    }
  }

  lemma {:induction false} ServesShape(q: seq<RxChunk>, r: seq<RxChunk>, n: nat)
    requires SameShape(q, r)
    ensures OneChunkServes(q, n) == OneChunkServes(r, n) && |Unread(q)| == |Unread(r)|
    decreases |q|
  {
    if q != [] {
      assert SameShape(q[1..], r[1..]);
      ServesShape(q[1..], r[1..], n);
    }
  }
}
