// A chunk longer than the peer's window is never completed.
module TcpWindow {
  import opened Bytes
  import opened SeqNum
  import opened TcpLink
  import opened TcpRuns
  import opened TcpSender
  import opened TcpSpec
  import opened TcpStall
  import opened TcpStream
  import opened TcpWorld

  // ----- one endpoint as a sender -----

  // No segment on the wire starts behind the first byte of what is outstanding, and only
  // that one ends behind it.
  ghost predicate Starts(t: Tcb) {
    forall g :: g in t.out && g.payload != [] ==>
      && Off(Base(t), g.sn) <= Acked(t)
      && (Off(Base(t), g.sn) + |g.payload| <= Acked(t) || (t.txSeg.Some? && g == Wire(t)))
  }

  // What is outstanding in u is what was in t.
  ghost predicate StillOut(t: Tcb, u: Tcb) {
    t.txSeg.Some? && u.txSeg.Some? && Wire(u) == Wire(t) && Acked(u) == Acked(t) && (Waiting(u) ==> Waiting(t))
  }

  // From t to u no text has gone out but what is outstanding in u, and that is the same as
  // in t or was loaded when t had nothing unacknowledged left.
  ghost predicate Tracks(t: Tcb, u: Tcb) {
    && u.iss == t.iss && Acked(t) <= Acked(u)
    && (forall g :: g in u.out ==>
          g in t.out || g.payload == [] || (u.txSeg.Some? && g == Wire(u) && Off(Base(t), g.sn) <= Acked(u)))
    && (StillOut(t, u) || Transmitted(t) <= Acked(u))
  }

  lemma StartsKept(t: Tcb, u: Tcb, r: Tcb)
    requires Starts(t) && Tracks(t, u) && OutHonest(t, r)
    ensures Starts(u)
  {
    if t.txSeg.Some? {
      assert Honest(Wire(t), t, r);
    }
    hide Honest, OutHonest;
  }

  lemma TracksConstruct(t: Tcb, env: Env)
    requires Sender(t) && env.dataSeg && |t.accepted| < M32 - 1
    ensures Tracks(t, ConstructData(t, env))
  {
    if t.txSeg.None? && t.txData != [] {
      var o := Transmitted(t);
      assert Flatten(t.txData) == t.txData[0] + Flatten(t.txData[1..]);
      AddAdd(t.iss, 1, o);
      OffAdd(Base(t), o);
    }
  }

  lemma TracksAck(t: Tcb, s: Segment, env: Env)
    requires Sender(t) && env.dataSeg && |t.accepted| < M32 - 1
    ensures Tracks(t, HandleAckOfData(t, s, env))
  {
    if HandleAckOfData(t, s, env) != t {
      var v := TxComplete(t.(una := s.ackNo));
      assert Acked(v) == Transmitted(v) == Transmitted(t);
      TracksConstruct(v, env);
    }
  }

  // From h to u only segments without text have gone out.
  ghost predicate Control(h: Tcb, u: Tcb) {
    && u.iss == h.iss && Acked(u) == Acked(h) && Transmitted(u) == Transmitted(h)
    && (forall g :: g in u.out ==> g in h.out || g.payload == [])
    && u.txSeg.Some? == h.txSeg.Some? && (u.txSeg.Some? ==> Wire(u) == Wire(h)) && (Waiting(u) ==> Waiting(h))
  }

  lemma ControlAfter(t: Tcb, h: Tcb, u: Tcb)
    requires Tracks(t, h) && Control(h, u)
    ensures Tracks(t, u)
  {
  }

  lemma ControlTracks(t: Tcb, u: Tcb)
    requires Control(t, u)
    ensures Tracks(t, u)
  {
  }

  lemma ControlData(h: Tcb, a: Arrival, env: Env)
    requires h.state == Established
    ensures Control(h, HandleData(h, a, env)) && HandleData(h, a, env).state == Established
  {
    HandleDataSends(h, a, env);
    hide HandleData;
  }

  lemma ControlFinAck(h: Tcb, s: Segment, env: Env, x: State)
    requires x == h.state || (h.state == Established && x == CloseWait)
    ensures Control(h, HandleFinAck(h, s, env).(state := x))
  {
    HandleFinAckSends(h, s, env);
    hide HandleFinAck;
  }

  lemma TracksEstablished(t: Tcb, a: Arrival, env: Env)
    requires Alive(t) && t.state == Established && env.dataSeg && |t.accepted| < M32 - 1
    ensures Tracks(t, ReceivedWhenEstablished(t, a, env))
  {
    SenderOf(t);
    if !Acceptable(t, a.seg) {
      ControlTracks(t, Refuse(t, a.seg, env));
    } else if !a.seg.flags.rst && a.seg.flags.ack {
      TracksAck(t, a.seg, env);
      var h := HandleAckOfData(t, a.seg, env);
      assert h.state == Established;
      hide HandleAckOfData, HandleData, HandleFinAck, Acceptable, Alive, Sender, Tracks, Control;
      ControlData(h, a, env);
      var t2 := HandleData(h, a, env);
      ControlAfter(t, h, t2);
      if a.seg.flags.fin {
        ControlFinAck(t2, a.seg, env, CloseWait);
        ControlAfter(t, t2, HandleFinAck(t2, a.seg, env).(state := CloseWait));
      }
    } else {
      ControlTracks(t, t);
    }
  }

  lemma TracksFin(t: Tcb, env: Env)
    ensures Tracks(t, ConstructFin(t, env))
  {
  }

  lemma FinAfter(t: Tcb, h: Tcb, env: Env)
    requires Tracks(t, h)
    ensures Tracks(t, ConstructFin(h, env))
  {
  }

  lemma TracksClosing(t: Tcb, s: Segment, next: State, env: Env)
    requires Alive(t) && t.state in {FinWait1, LastAck} && next in {FinWait2, Closed} && env.dataSeg && |t.accepted| < M32 - 1
    ensures Tracks(t, ReceivedWhenClosing(t, Some(s), next, env))
  {
    if s.flags.ack && !TxIsFin(t) {
      SenderOf(t);
      TracksAck(t, s, env);
      hide HandleAckOfData, Tracks, ConstructFin;
      FinAfter(t, HandleAckOfData(t, s, env), env);
    } else {
      TracksFin(t, env);
    }
  }

  lemma TracksSynSent(t: Tcb, s: Segment, env: Env)
    requires Alive(t) && t.state == SynSent
    ensures Tracks(t, ReceivedWhenSynSent(t, s, env))
  {
    var c := SynSentSends(t, s, env);
    assert Wire(t).payload == [];
    hide ReceivedWhenSynSent, OneOutstanding, Stream, Alive;
  }

  lemma TracksSynReceived(t: Tcb, s: Segment, env: Env)
    requires t.state == SynReceived && t.txSeg.None?
    ensures Tracks(t, ReceivedWhenSynReceived(t, s, env))
  {
    var c := SynReceivedSends(t, s, env);
    hide ReceivedWhenSynReceived;
  }

  lemma TracksReceived(t: Tcb, a: Arrival, env: Env)
    requires Alive(t) && t.state != Closing && env.dataSeg && |t.accepted| < M32 - 1
    ensures Tracks(t, Received(t, a, env))
  {
    hide ReceivedWhenSynSent, ReceivedWhenSynReceived, ReceivedWhenEstablished, ReceivedWhenClosing, HandleFinAck;
    hide OneOutstanding, Stream, Tracks, Control;
    match t.state
    case Established => TracksEstablished(t, a, env);
    case FinWait1 => TracksClosing(t, a.seg, FinWait2, env);
    case LastAck => TracksClosing(t, a.seg, Closed, env);
    case SynSent => TracksSynSent(t, a.seg, env);
    case SynReceived => PassiveIdle(t); TracksSynReceived(t, a.seg, env);
    case Listen => TracksListen(t, a.seg, env);
    case FinWait2 => TracksFinWait2(t, a.seg, env);
    case TimeWait => TracksWaiting(t, a.seg, env);
    case CloseWait => TracksWaiting(t, a.seg, env);
    case Closed => ControlSame(t); ControlTracks(t, t);
  }

  lemma TracksListen(t: Tcb, s: Segment, env: Env)
    requires t.state == Listen
    ensures Tracks(t, ReceivedWhenListen(t, s, env))
  {
  }

  lemma TracksFinWait2(t: Tcb, s: Segment, env: Env)
    requires t.state == FinWait2
    ensures Tracks(t, ReceivedWhenFinWait2(t, s, env))
  {
    HandleFinAckSends(t.(state := TimeWait, tmr := Some(t.timeWaitSeconds)), s, env);
    hide HandleFinAck;
  }

  lemma TracksWaiting(t: Tcb, s: Segment, env: Env)
    requires t.state in {TimeWait, CloseWait}
    ensures Tracks(t, ReceivedWhenWaiting(t, s, env))
  {
    ControlFinAck(t, s, env, t.state);
    ControlSame(t);
    assert HandleFinAck(t, s, env).(state := t.state) == HandleFinAck(t, s, env) by { HandleFinAckSends(t, s, env); }
    hide HandleFinAck;
  }

  lemma ControlSame(t: Tcb)
    ensures Control(t, t)
  {
  }

  lemma TracksSend(t: Tcb, data: seq<byte>, env: Env)
    requires Alive(t) && env.dataSeg && |Sent(t, data, env).accepted| < M32 - 1
    ensures Tracks(t, Sent(t, data, env))
  {
    if t.state == Established {
      SenderOf(t);
      var q := Queued(data);
      var v := if env.buf then t.(txData := t.txData + [q], accepted := t.accepted + q) else t;
      if env.buf {
        FlattenAppend(t.txData, [q]);
        FlattenSingle(q);
        TakesInData(t, v, q);
      }
      hide Sender, Data, Alive, Queued, Flatten;
      TracksConstruct(v, env);
    }
  }

  lemma TracksTimeout(t: Tcb, env: Env)
    requires t.txSeg.Some? && Wire(t).payload != [] ==> Off(Base(t), Wire(t).sn) <= Acked(t)
    ensures Tracks(t, TimedOut(t, env))
  {
    TimeoutMoves(t, env);
    hide TimedOut;
  }

  lemma TracksClose(t: Tcb, env: Env)
    ensures Tracks(t, ClosedByUser(t, env))
  {
  }

  lemma TracksRecv(t: Tcb, size: nat)
    ensures Tracks(t, Read(t, size))
  {
  }

  lemma TracksStep(t: Tcb, r: Tcb, e: Event)
    requires Alive(t) && OutHonest(t, r) && t.state != Closing && EventEnv(e)
    requires |t.accepted| < M32 - 1 && |Step(t, e).accepted| < M32 - 1
    ensures Tracks(t, Step(t, e))
  {
    hide Alive, Tracks, Received, Sent, TimedOut, ClosedByUser, Read;
    match e
    case Arrive(a, env) => TracksReceived(t, a, env);
    case Send(data, env) => TracksSend(t, data, env);
    case Timeout(env) => TracksTimeout(t, env);
    case Close(env) => TracksClose(t, env);
    case Recv(size) => TracksRecv(t, size);
  }

  // ----- both endpoints -----

  // s has an outstanding chunk that is longer than the window of r.
  ghost predicate Long(s: Tcb, r: Tcb) {
    Waiting(s) && |Wire(s).payload| > r.wnd
  }

  // tcp_send on an idle connection leads there exactly when it queues more than the window.
  lemma SendLongIff(t: Tcb, r: Tcb, data: seq<byte>, env: Env)
    requires t.state == Established && t.txSeg.None? && t.txData == []
    ensures Long(Sent(t, data, env), r) <==> env.buf && env.dataSeg && |data| % M16 > r.wnd
  {
    if env.buf {
      var u := t.(txData := t.txData + [Queued(data)], accepted := t.accepted + Queued(data));
      assert u.txData == [Queued(data)];
    }
  }

  // Of such a chunk r has queued no more than its window.
  ghost predicate Held(s: Tcb, r: Tcb) {
    Long(s, r) ==> |r.enqueued| <= Acked(s) + r.wnd
  }

  lemma HeldAtReceiver(s: Tcb, r: Tcb, a: Arrival, env: Env)
    requires Dir(s, r) && OutHonest(s, r) && Starts(s) && Held(s, r) && a.seg in s.out
    ensures Held(s, Received(r, a, env))
  {
    FixedReceived(r, a, env);
    GrowsReceived(r, a, env);
    if Waiting(s) && r.state == Established && Takes(r, a, env) {
      EstablishedIs(r, a, env);
      GrowsEstablished(r, a, env);
      assert Honest(a.seg, s, r);
      AddAdd(s.iss, 1, |r.enqueued|);
      OffAdd(Base(s), |r.enqueued|);
      SynOff(s.iss);
      hide Received, ReceivedWhenEstablished;
    } else if Waiting(s) && r.state == Established {
      EstablishedIs(r, a, env);
      GrowsEstablished(r, a, env);
    }
  }

  lemma HeldAtSender(s: Tcb, r: Tcb, e: Event)
    requires Dir(s, r) && Held(s, r) && Tracks(s, Step(s, e))
    ensures Held(Step(s, e), r)
  {
    if Finishing(s) {
      FinishingStep(s, e);
    }
    hide Step;
  }

  // The peer acknowledges the chunk only when it has all of it, which its window prevents.
  lemma NotCompleted(s: Tcb, r: Tcb, g: Segment, env: Env)
    requires Four(s, r) && Alive(s) && Long(s, r) && Held(s, r) && g in r.out && g.flags.ack
    ensures g.ackNo != s.nxt && HandleAckOfData(s, g, env) == s
  {
    SenderOf(s);
    if g.ackNo == s.nxt {
      AckMeans(r, s, g);
    }
  }

  // The outstanding chunk and what it starts from stay.
  ghost predicate Stays(t: Tcb, u: Tcb)
    requires t.txSeg.Some?
  {
    Waiting(u) && SameSegment(t, u) && Acked(u) == Acked(t)
  }

  lemma StaysUnlessAcked(t: Tcb, e: Event)
    requires Waiting(t) && (e.Arrive? && e.a.seg.flags.ack ==> HandleAckOfData(t, e.a.seg, e.env) == t)
    ensures Stays(t, Step(t, e))
  {
    match e
    case Arrive(a, env) => StaysReceived(t, a, env);
    case Send(data, env) =>
      FlattenAppend(t.txData, [Queued(data)]);
      FlattenSingle(Queued(data));
    case _ =>
  }

  lemma StaysReceived(t: Tcb, a: Arrival, env: Env)
    requires Waiting(t) && (a.seg.flags.ack ==> HandleAckOfData(t, a.seg, env) == t)
    ensures Stays(t, Received(t, a, env))
  {
    hide HandleAckOfData, Acceptable, ReceivedWhenEstablished;
    match t.state
    case Established => StaysEstablished(t, a, env);
    case CloseWait => HandleFinAckSends(t, a.seg, env);
    case _ =>
  }

  lemma StaysEstablished(t: Tcb, a: Arrival, env: Env)
    requires Waiting(t) && t.state == Established && (a.seg.flags.ack ==> HandleAckOfData(t, a.seg, env) == t)
    ensures Stays(t, ReceivedWhenEstablished(t, a, env))
  {
    hide HandleAckOfData, Acceptable, HandleData, HandleFinAck;
    HandleDataSends(t, a, env);
    HandleFinAckSends(HandleData(t, a, env), a.seg, env);
  }

  lemma LongStep(s: Tcb, r: Tcb, e: Event)
    requires Four(s, r) && Alive(s) && Long(s, r) && Held(s, r) && (e.Arrive? ==> e.a.seg in r.out)
    ensures Stays(s, Step(s, e))
  {
    if e.Arrive? && e.a.seg.flags.ack {
      NotCompleted(s, r, e.a.seg, e.env);
    }
    hide Four, Alive, Held, Step, HandleAckOfData;
    StaysUnlessAcked(s, e);
  }

  // ----- over whole plays -----

  ghost predicate Windowed(w: World) {
    && w.a.wnd == w.b.wnd == 1500
    && Starts(w.a) && Starts(w.b) && Held(w.a, w.b) && Held(w.b, w.a)
  }

  // r moves, hearing only what s sent.
  lemma WindowedMove(s: Tcb, r: Tcb, e: Event)
    requires Four(s, r) && Alive(r) && r.state != Closing && EventEnv(e) && (e.Arrive? ==> e.a.seg in s.out)
    requires Starts(s) && Starts(r) && Held(s, r) && Held(r, s) && |Step(r, e).accepted| < M32 - 1
    ensures Starts(Step(r, e)) && Held(s, Step(r, e)) && Held(Step(r, e), s) && Step(r, e).wnd == r.wnd
  {
    FixedStep(r, e);
    assert |r.accepted| < M32 - 1;
    hide Alive, Honest, Delivered, Receiving, Step;
    TracksStep(r, s, e);
    StartsKept(r, Step(r, e), s);
    HeldAtSender(r, s, e);
    HeldWhenMoved(s, r, e);
  }

  lemma HeldWhenMoved(s: Tcb, r: Tcb, e: Event)
    requires Dir(s, r) && OutHonest(s, r) && Starts(s) && Held(s, r) && (e.Arrive? ==> e.a.seg in s.out)
    ensures Held(s, Step(r, e))
  {
    if e.Arrive? {
      HeldAtReceiver(s, r, e.a, e.env);
    }
  }

  lemma WindowedStep(w: World, m: Move)
    requires Linked(w) && Windowed(w) && Permitted(w, m)
    requires |Next(w, m).a.accepted| < M32 - 1 && |Next(w, m).b.accepted| < M32 - 1
    ensures Windowed(Next(w, m))
  {
    FourTurned(w.a, w.b);
    hide Four, Alive, Starts, Held, Step;
    if m.side == A {
      WindowedMove(w.b, w.a, m.e);
    } else {
      WindowedMove(w.a, w.b, m.e);
    }
  }

  lemma StartWindowed(isnA: u32, isnB: u32, env: Env)
    ensures Windowed(Start(isnA, isnB, env))
  {
  }

  lemma {:induction false} PlayWindowed(isnA: u32, isnB: u32, env: Env, ms: seq<Move>)
    requires PermittedPlay(Start(isnA, isnB, env), ms) && isnA != M32 - 1
    requires var w := Play(Start(isnA, isnB, env), ms); |w.a.accepted| < M32 - 1 && |w.b.accepted| < M32 - 1
    ensures var w := Play(Start(isnA, isnB, env), ms); Linked(w) && Windowed(w)
  {
    PlayInvariant(isnA, isnB, env, ms);
    if ms == [] {
      StartWindowed(isnA, isnB, env);
    } else {
      var p, m := ms[..|ms| - 1], ms[|ms| - 1];
      var w := Play(Start(isnA, isnB, env), p);
      GrowsStep(w.a, m.e);
      GrowsStep(w.b, m.e);
      PlayWindowed(isnA, isnB, env, p);
      hide Linked, Windowed, Step;
      WindowedStep(w, m);
    }
  }

  // The side that waits, its peer, and one move of the two.
  lemma LongMove(w: World, m: Move, side: Side)
    requires Linked(w) && Windowed(w) && Permitted(w, m) && Long(At(w, side), Peer(w, side))
    ensures Stays(At(w, side), At(Next(w, m), side))
  {
    FourTurned(w.a, w.b);
    hide Four, Alive, Starts, Held, Step;
    if m.side == side {
      LongStep(At(w, side), Peer(w, side), m.e);
    }
  }

  lemma LongMeans(isnA: u32, isnB: u32, env: Env, ms: seq<Move>, side: Side)
    requires PermittedPlay(Start(isnA, isnB, env), ms)
    requires var w := Play(Start(isnA, isnB, env), ms);
             && |w.a.accepted| < M32 - 1 && |w.b.accepted| < M32 - 1
             && Waiting(At(w, side)) && |Wire(At(w, side)).payload| > 1500
    ensures var w := Play(Start(isnA, isnB, env), ms);
            && Linked(w) && Windowed(w) && Long(At(w, side), Peer(w, side))
            && |Peer(w, side).enqueued| <= Acked(At(w, side)) + 1500
  {
    PlayInvariant(isnA, isnB, env, ms);
    if isnA != M32 - 1 {
      PlayWindowed(isnA, isnB, env, ms);
      hide Linked;
    }
  }

  lemma LongAfter(isnA: u32, isnB: u32, env: Env, ms: seq<Move>, m: Move, side: Side)
    requires PermittedPlay(Start(isnA, isnB, env), ms) && Permitted(Play(Start(isnA, isnB, env), ms), m)
    requires var w := Play(Start(isnA, isnB, env), ms);
             && |w.a.accepted| < M32 - 1 && |w.b.accepted| < M32 - 1
             && Waiting(At(w, side)) && |Wire(At(w, side)).payload| > 1500
    ensures var w := Play(Start(isnA, isnB, env), ms); Stays(At(w, side), At(Next(w, m), side))
  {
    LongMeans(isnA, isnB, env, ms, side);
    hide Linked, Windowed, Long, Step, Permitted, Waiting, Play, PermittedPlay;
    LongMove(Play(Start(isnA, isnB, env), ms), m, side);
  }

  // Main result: from the moment a chunk longer than the peer's 1500-byte window is
  // outstanding it stays outstanding over every continuation, and the peer's user is queued
  // the bytes before it and at most its first 1500.
  lemma {:induction false} LongChunkNeverCompletes(isnA: u32, isnB: u32, env: Env, ms: seq<Move>, ns: seq<Move>, side: Side)
    requires PermittedPlay(Start(isnA, isnB, env), ms + ns)
    requires var w := Play(Start(isnA, isnB, env), ms + ns); |w.a.accepted| < M32 - 1 && |w.b.accepted| < M32 - 1
    requires var s := At(Play(Start(isnA, isnB, env), ms), side); Waiting(s) && |Wire(s).payload| > 1500
    ensures var s, w := At(Play(Start(isnA, isnB, env), ms), side), Play(Start(isnA, isnB, env), ms + ns);
            && Stays(s, At(w, side))
            && |Peer(w, side).enqueued| <= Acked(s) + 1500
  {
    if ns == [] {
      assert ms + ns == ms;
    } else {
      var n, m := ns[..|ns| - 1], ns[|ns| - 1];
      LastMove(Start(isnA, isnB, env), ms, ns);
      var w := Play(Start(isnA, isnB, env), ms + n);
      GrowsStep(w.a, m.e);
      GrowsStep(w.b, m.e);
      hide Play, PermittedPlay, Permitted, Step, Waiting;
      LongChunkNeverCompletes(isnA, isnB, env, ms, n, side);
      LongAfter(isnA, isnB, env, ms + n, m, side);
    }
    LongMeans(isnA, isnB, env, ms + ns, side);
    hide *;
  }

  lemma LastMove(w: World, ms: seq<Move>, ns: seq<Move>)
    requires ns != [] && PermittedPlay(w, ms + ns)
    ensures var p, m := ms + ns[..|ns| - 1], ns[|ns| - 1];
            PermittedPlay(w, p) && Permitted(Play(w, p), m) && Play(w, ms + ns) == Next(Play(w, p), m)
  {
    assert (ms + ns)[..|ms + ns| - 1] == ms + ns[..|ns| - 1];
  }
}
