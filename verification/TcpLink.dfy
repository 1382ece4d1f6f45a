// What two connections and everything in flight between them keep over every play.
module TcpLink {
  import opened Bytes
  import opened SeqNum
  import opened TcpRuns
  import opened TcpSender
  import opened TcpSpec
  import opened TcpWorld

  // ----- the truth on the wire -----

  // s may acknowledge n to r: it has queued everything below n, or the FIN of r is out,
  // which takes one number, and s has queued everything r ever accepted.
  ghost predicate AckOk(n: u32, s: Tcb, r: Tcb) {
    Off(Base(r), n) <= |s.enqueued| || (Finishing(r) && |r.accepted| <= |s.enqueued|)
  }

  // A FIN of s stands after everything s accepted, all of which r has queued. (With the
  // initial number 2^32-1 a passive side may send it at the number of its SYN.)
  ghost predicate FinOk(g: Segment, s: Tcb, r: Tcb) {
    && g.payload == [] && Finishing(s) && |s.accepted| <= |r.enqueued|
    && (g.sn == Add(Base(s), |s.accepted|) || g.sn == s.iss)
  }

  ghost predicate Honest(g: Segment, s: Tcb, r: Tcb) {
    && (g.flags.rst ==> !g.flags.ack)
    && (g.flags.syn ==> g.sn == s.iss && g.payload == [] && !g.flags.fin)
    && (g.flags.fin ==> FinOk(g, s, r))
    && (g.flags.ack ==> AckOk(g.ackNo, s, r))
    && (g.payload != [] ==>
          var o := Off(Base(s), g.sn);
          o + |g.payload| <= Transmitted(s) <= |s.accepted| && g.payload == s.accepted[o..o + |g.payload|])
  }

  ghost predicate OutHonest(s: Tcb, r: Tcb) {
    && (forall g :: g in s.out ==> Honest(g, s, r))
    && (s.txSeg.Some? ==> Honest(s.txSeg.value.wire, s, r))
  }

  ghost predicate Grown(r: Tcb, u: Tcb) {
    && u.iss == r.iss && r.accepted <= u.accepted && |r.enqueued| <= |u.enqueued|
    && Transmitted(r) <= Transmitted(u) <= |u.accepted|
    && (Finishing(r) ==> Finishing(u) && u.accepted == r.accepted)
  }

  lemma HonestOut(g: Segment, r: Tcb, u: Tcb, s: Tcb)
    requires Honest(g, r, s) && Grown(r, u)
    ensures Honest(g, u, s)
  {
  }

  lemma HonestIn(g: Segment, s: Tcb, r: Tcb, u: Tcb)
    requires Honest(g, s, r) && Grown(r, u)
    ensures Honest(g, s, u)
  {
  }

  lemma HonestKept(s: Tcb, r: Tcb, u: Tcb, c: Segment)
    requires OutHonest(s, r) && OutHonest(r, s) && Grown(r, u)
    requires u.out == r.out || (u.out == r.out + [c] && Honest(c, u, s))
    requires u.txSeg.Some? ==> Honest(u.txSeg.value.wire, u, s) || (r.txSeg.Some? && u.txSeg.value.wire == r.txSeg.value.wire)
    ensures OutHonest(s, u) && OutHonest(u, s)
  {
    forall g | Honest(g, r, s) ensures Honest(g, u, s) {
      HonestOut(g, r, u, s);
    }
    forall g | Honest(g, s, r) ensures Honest(g, s, u) {
      HonestIn(g, s, r, u);
    }
    hide Honest, Grown;
  }

  // ----- one direction, from s to r -----

  // r has queued a prefix of what s accepted, or all of it and the byte that follows the
  // FIN in memory.
  ghost predicate Delivered(s: Tcb, r: Tcb) {
    || (|r.enqueued| <= Transmitted(s) && r.enqueued == s.accepted[..|r.enqueued|])
    || (&& Finishing(s) && |r.enqueued| == |s.accepted| + 1 && r.enqueued[..|s.accepted|] == s.accepted
        && r.state in {CloseWait, LastAck, Closed})
  }

  ghost predicate Receiving(s: Tcb, r: Tcb) {
    && (r.state in {SynReceived, Established} ==> r.rcvNxt == Add(Base(s), |r.enqueued|))
    && (r.state in {Listen, SynSent, SynReceived} ==> r.enqueued == [])
    && (r.state !in {Listen, SynSent, Closed} ==> AckOk(r.rcvNxt, r, s))
  }

  ghost predicate InTransfer(t: Tcb) {
    t.state in {Established, CloseWait, FinWait1, LastAck} && !TxIsFin(t)
  }

  ghost predicate Progress(s: Tcb, r: Tcb) {
    && 0 <= Transmitted(s) <= |s.accepted| < M32 - 1
    && (InTransfer(s) ==> Acked(s) <= |r.enqueued|)
    && (Finishing(s) ==> |s.accepted| <= |r.enqueued|)
  }

  ghost predicate Dir(s: Tcb, r: Tcb) {
    Delivered(s, r) && Receiving(s, r) && Progress(s, r)
  }

  ghost predicate Four(s: Tcb, r: Tcb) {
    Dir(s, r) && Dir(r, s) && OutHonest(s, r) && OutHonest(r, s)
  }

  // An endpoint moves without accepting or queueing bytes.
  lemma Quiet(s: Tcb, r: Tcb, u: Tcb, c: Segment)
    requires Four(s, r)
    requires u.iss == r.iss && u.accepted == r.accepted && u.enqueued == r.enqueued && Transmitted(r) <= Transmitted(u) <= |u.accepted|
    requires Finishing(r) ==> Finishing(u)
    requires u.out == r.out || (u.out == r.out + [c] && Honest(c, u, s))
    requires u.txSeg.Some? ==> Honest(u.txSeg.value.wire, u, s) || (r.txSeg.Some? && u.txSeg.value.wire == r.txSeg.value.wire)
    requires Receiving(s, u) && Progress(u, s)
    requires r.state in {CloseWait, LastAck, Closed} ==> u.state in {CloseWait, LastAck, Closed}
    ensures Four(s, u)
  {
    HonestKept(s, r, u, c);
    hide Honest, OutHonest, Receiving;
  }

  ghost predicate Local(t: Tcb) {
    OneOutstanding(t) && Stream(t)
  }

  // A passive side with initial number 2^32-1, which never establishes.
  ghost predicate Dead(t: Tcb) {
    && t.iss == M32 - 1 && t.passive && t.accepted == [] && t.txData == [] && NoFinYet(t)
    && t.state in {Listen, SynReceived, CloseWait, LastAck, Closed}
    && (t.state in {Listen, SynReceived, CloseWait} ==> t.txSeg.None?)
    && (t.state in {SynReceived, CloseWait, LastAck} && t.txSeg.None? ==> t.una == t.iss && t.nxt == 0)
    && (t.state == Listen ==> t.una == t.nxt == t.iss)
    && (t.state == LastAck && t.txSeg.Some? ==> TxIsFin(t))
  }

  ghost predicate NoFinYet(t: Tcb) {
    t.state in {Listen, SynReceived, CloseWait} || (t.state == LastAck && t.txSeg.None?) ==> NoFin(t.out)
  }

  ghost predicate Alive(t: Tcb) {
    if t.iss == M32 - 1 && t.passive then Dead(t) else Local(t)
  }

  // What sending data rests on.
  ghost predicate Sender(t: Tcb) {
    && InTransfer(t) && Data(t) && WireAgrees(t)
    && (t.txSeg.None? ==> t.una == t.nxt || (t.una == t.iss && t.txData == [] && t.accepted == []))
  }

  lemma SenderOf(t: Tcb)
    requires Alive(t) && InTransfer(t)
    ensures Sender(t)
  {
    if t.iss == M32 - 1 && t.passive {
      assert Flatten(t.txData) == [] && t.accepted[0..] == [];
    }
  }

  // A bare acknowledgment of rcv.nxt.
  lemma AckOut(s: Tcb, r: Tcb, u: Tcb, c: Segment)
    requires Four(s, r) && r.state !in {Listen, SynSent, Closed}
    requires u == r.(out := u.out) && (u.out == r.out || u.out == r.out + [c])
    requires c.flags == ACK && c.payload == [] && c.ackNo == r.rcvNxt
    ensures Four(s, u)
  {
    assert Honest(c, u, s);
    Quiet(s, r, u, c);
  }

  // The queue hands over its first chunk.
  lemma ConstructKept(s: Tcb, r: Tcb, env: Env)
    requires Four(s, r) && Sender(r) && env.dataSeg
    ensures Four(s, ConstructData(r, env))
  {
    if r.txSeg.None? && r.txData != [] {
      assert r.una == r.nxt;
      var u := ConstructData(r, env);
      ConstructHonest(s, r, env);
      hide Honest, OutHonest, Data, Flatten;
      Quiet(s, r, u, u.txSeg.value.wire);
    }
  }

  lemma ConstructHonest(s: Tcb, r: Tcb, env: Env)
    requires Dir(s, r) && Dir(r, s) && Sender(r) && r.txSeg.None? && r.txData != [] && r.una == r.nxt && env.dataSeg
    ensures var u := ConstructData(r, env);
            && Transmitted(r) <= Transmitted(u) <= |u.accepted| && Acked(u) == Transmitted(r)
            && Honest(u.txSeg.value.wire, u, s)
  {
    assert AckOk(r.rcvNxt, r, s);
    hide OutHonest, Delivered, Receiving, Finishing, AckOk;
    var u := ConstructData(r, env);
    var o, w := Transmitted(r), u.txSeg.value.wire;
    assert Flatten(r.txData) == r.txData[0] + Flatten(r.txData[1..]);
    AddAdd(r.iss, 1, o);
    OffAdd(Base(r), o);
    SliceTake(r.accepted, o, |w.payload|, |w.payload|);
  }

  // An acknowledgment that completes the outstanding data means the peer has it all.
  lemma AckKept(s: Tcb, r: Tcb, g: Segment, env: Env)
    requires Four(s, r) && Sender(r) && g in s.out && g.flags.ack && env.dataSeg
    ensures Four(s, HandleAckOfData(r, g, env))
  {
    if HandleAckOfData(r, g, env) != r {
      var v := TxComplete(r.(una := g.ackNo));
      AckMeans(s, r, g);
      assert Acked(v) == Transmitted(r);
      Quiet(s, r, v, g);
      ConstructKept(s, v, env);
    }
  }

  lemma AckMeans(s: Tcb, r: Tcb, g: Segment)
    requires Dir(r, s) && OutHonest(s, r) && Sender(r) && g in s.out && g.flags.ack && g.ackNo == r.nxt
    ensures Transmitted(r) <= |s.enqueued|
  {
    assert Honest(g, s, r);
    AddAdd(r.iss, 1, Transmitted(r));
    OffAdd(Base(r), Transmitted(r));
  }

  // The FIN is built when everything has been sent and acknowledged.
  lemma FinKept(s: Tcb, r: Tcb, env: Env)
    requires Four(s, r) && r.state in {FinWait1, LastAck} && (TxIsFin(r) || Sender(r))
    ensures Four(s, ConstructFin(r, env))
  {
    var u := ConstructFin(r, env);
    if u != r {
      assert Flatten(r.txData) == [] && Transmitted(r) == |r.accepted|;
      AddAdd(r.iss, 1, |r.accepted|);
      assert Honest(u.txSeg.value.wire, u, s);
      Quiet(s, r, u, u.txSeg.value.wire);
    }
  }

  // ----- an endpoint r that hears from its peer s -----

  // What is copied from an in-order segment without FIN is the next stretch of bytes.
  lemma InOrder(s: Tcb, r: Tcb, a: Arrival)
    requires Dir(s, r) && OutHonest(s, r) && r.state == Established && a.seg in s.out && !a.seg.flags.fin
    requires a.seg.sn == r.rcvNxt && SegLen(a.seg) > 0
    ensures var n, b := |r.enqueued|, CopiedBytes(a, r.wnd);
            n + |b| <= Transmitted(s) && b == s.accepted[n..n + |b|]
  {
    var n := |r.enqueued|;
    assert Honest(a.seg, s, r);
    AddAdd(s.iss, 1, n);
    OffAdd(Base(s), n);
    SynOff(s.iss);
    assert a.seg.payload != [];
    var b := CopiedBytes(a, r.wnd);
    assert b == a.seg.payload[..|b|];
    SliceTake(s.accepted, n, |a.seg.payload|, |b|);
  }

  lemma DataKept(s: Tcb, r: Tcb, a: Arrival, env: Env)
    requires Four(s, r) && r.state == Established && a.seg in s.out && !a.seg.flags.fin
    ensures Four(s, HandleData(r, a, env))
  {
    var u := HandleData(r, a, env);
    if u != r {
      InOrder(s, r, a);
      HandleDataSends(r, a, env);
      Queues(s, r, u, CopiedBytes(a, r.wnd), CtrlSegment(r.una, u.rcvNxt, ACK));
    }
  }

  lemma Queues(s: Tcb, r: Tcb, u: Tcb, b: seq<byte>, c: Segment)
    requires Four(s, r) && r.state == Established
    requires |r.enqueued| + |b| <= Transmitted(s) && b == s.accepted[|r.enqueued|..|r.enqueued| + |b|]
    requires u == r.(rcvNxt := u.rcvNxt, rxData := u.rxData, txSeg := u.txSeg, out := u.out, enqueued := r.enqueued + b,
                     nxt := u.nxt)
    requires u.rcvNxt == Add(r.rcvNxt, |b|) && u.txSeg.Some? == r.txSeg.Some? && TxIsFin(u) == TxIsFin(r)
    requires u.txSeg.Some? ==> u.txSeg.value.wire == r.txSeg.value.wire
    requires c.flags == ACK && c.payload == [] && c.ackNo == u.rcvNxt && (u.out == r.out || u.out == r.out + [c])
    ensures Four(s, u)
  {
    var n := |r.enqueued| + |b|;
    assert u.enqueued == s.accepted[..n];
    AddAdd(Base(s), |r.enqueued|, |b|);
    OffAdd(Base(s), n);
    assert Honest(c, u, s);
    HonestKept(s, r, u, c);
    hide Honest, OutHonest;
  }

  // The FIN of s arrives in ESTABLISHED: everything before it is there already.
  lemma FinTaken(s: Tcb, r: Tcb, a: Arrival, env: Env)
    requires Four(s, r) && r.state == Established && a.seg in s.out && a.seg.flags.fin && r.wnd > 0
    ensures Four(s, HandleData(r, a, env).(state := CloseWait))
  {
    assert Honest(a.seg, s, r);
    assert r.enqueued == s.accepted;
    var u := HandleData(r, a, env).(state := CloseWait);
    HandleDataSends(r, a, env);
    var b := CopiedBytes(a, r.wnd);
    assert |b| == 1;
    if a.seg.sn == r.rcvNxt && env.buf {
      FinQueues(s, r, u, b, CtrlSegment(r.una, u.rcvNxt, ACK));
    } else {
      Quiet(s, r, u, a.seg);
    }
  }

  lemma FinQueues(s: Tcb, r: Tcb, u: Tcb, b: seq<byte>, c: Segment)
    requires Four(s, r) && r.state == Established && Finishing(s) && r.enqueued == s.accepted && |b| == 1
    requires u == r.(state := CloseWait, rcvNxt := u.rcvNxt, rxData := u.rxData, txSeg := u.txSeg, out := u.out,
                     enqueued := r.enqueued + b, nxt := u.nxt)
    requires u.txSeg.Some? == r.txSeg.Some? && TxIsFin(u) == TxIsFin(r)
    requires u.txSeg.Some? ==> u.txSeg.value.wire == r.txSeg.value.wire
    requires c.flags == ACK && c.payload == [] && c.ackNo == u.rcvNxt && (u.out == r.out || u.out == r.out + [c])
    ensures Four(s, u)
  {
    assert u.enqueued[..|s.accepted|] == s.accepted;
    assert Honest(c, u, s);
    HonestKept(s, r, u, c);
    hide Honest, OutHonest;
  }

  // A FIN after which rcv.nxt stands just behind it.
  lemma FinAckKept(s: Tcb, r: Tcb, g: Segment, env: Env)
    requires Four(s, r) && r.state in {CloseWait, TimeWait} && g in s.out && g.flags.fin
    ensures Four(s, HandleFinAck(r, g, env))
  {
    assert Honest(g, s, r);
    HandleFinAckSends(r, g, env);
    var u := HandleFinAck(r, g, env);
    var c := CtrlSegment(u.una, u.rcvNxt, ACK);
    assert AckOk(u.rcvNxt, u, s);
    assert Honest(c, u, s);
    hide HandleFinAck, Honest, OutHonest;
    Quiet(s, r, u, c);
  }

  lemma StateApart(t: Tcb, x: State, g: Segment, env: Env)
    ensures HandleFinAck(t.(state := x), g, env) == HandleFinAck(t, g, env).(state := x)
  {
  }

  // Text and FIN, after the acknowledgment.
  lemma TextAndFin(s: Tcb, h: Tcb, a: Arrival, env: Env)
    requires Four(s, h) && h.state == Established && a.seg in s.out && h.wnd > 0
    ensures Four(s, if a.seg.flags.fin then HandleFinAck(HandleData(h, a, env), a.seg, env).(state := CloseWait)
                    else HandleData(h, a, env))
  {
    hide HandleData, HandleFinAck, Four;
    if a.seg.flags.fin {
      FinTaken(s, h, a, env);
      var t2 := HandleData(h, a, env);
      FinAckKept(s, t2.(state := CloseWait), a.seg, env);
      StateApart(t2, CloseWait, a.seg, env);
    } else {
      DataKept(s, h, a, env);
    }
  }

  lemma EstablishedKept(s: Tcb, r: Tcb, a: Arrival, env: Env)
    requires Four(s, r) && Alive(r) && r.state == Established && a.seg in s.out && env.dataSeg
    ensures Four(s, ReceivedWhenEstablished(r, a, env))
  {
    SenderOf(r);
    RefuseKept(s, r, a.seg, env);
    hide Four, Sender, Alive, InTransfer, AcceptedWhenEstablished, Refuse;
    if Acceptable(r, a.seg) && !a.seg.flags.rst && a.seg.flags.ack {
      AcceptedKept(s, r, a, env);
    }
  }

  lemma RefuseKept(s: Tcb, r: Tcb, g: Segment, env: Env)
    requires Four(s, r) && r.state !in {Listen, SynSent, Closed}
    ensures Four(s, Refuse(r, g, env))
  {
    hide Four;
    AckOut(s, r, Refuse(r, g, env), CtrlSegment(r.nxt, r.rcvNxt, ACK));
  }

  lemma AcceptedKept(s: Tcb, r: Tcb, a: Arrival, env: Env)
    requires Four(s, r) && Sender(r) && r.state == Established && a.seg in s.out && a.seg.flags.ack && env.dataSeg && r.wnd > 0
    ensures Four(s, AcceptedWhenEstablished(r, a, env))
  {
    hide Four, HandleData, HandleFinAck, Data, WireAgrees;
    AckKept(s, r, a.seg, env);
    var h := HandleAckOfData(r, a.seg, env);
    assert h.state == Established && h.wnd == r.wnd;
    hide HandleAckOfData;
    TextAndFin(s, h, a, env);
  }

  // FIN_WAIT_1 and LAST_ACK
  lemma ClosingKept(s: Tcb, r: Tcb, g: Segment, next: State, env: Env)
    requires Four(s, r) && Alive(r) && g in s.out && env.dataSeg
    requires (r.state == FinWait1 && next == FinWait2) || (r.state == LastAck && next == Closed)
    ensures Four(s, ReceivedWhenClosing(r, Some(g), next, env))
  {
    if TxIsFin(r) {
      if g.flags.ack && AcksFin(r, g) {
        Quiet(s, r, TxComplete(r).(state := next), g);
      }
    } else {
      SenderOf(r);
      if g.flags.ack {
        AckKept(s, r, g, env);
        StillSender(r, g, env);
        hide HandleAckOfData, Four, Alive, Sender;
        FinKept(s, HandleAckOfData(r, g, env), env);
      } else {
        FinKept(s, r, env);
      }
    }
  }

  lemma StillSender(r: Tcb, g: Segment, env: Env)
    requires Sender(r) && Alive(r) && env.dataSeg
    ensures var h := HandleAckOfData(r, g, env); Sender(h) && h.state == r.state
  {
    if r.txSeg.Some? {
      DataAck(r, g, env);
      OneOutstandingData(r, g, env);
    }
  }

  lemma ArriveKept(s: Tcb, r: Tcb, a: Arrival, env: Env)
    requires Four(s, r) && Alive(r) && r.state !in {Listen, SynSent, SynReceived, Closing} && a.seg in s.out && env.dataSeg
    ensures Four(s, Received(r, a, env))
  {
    match r.state
    case Established => EstablishedKept(s, r, a, env);
    case FinWait1 => ClosingKept(s, r, a.seg, FinWait2, env);
    case LastAck => ClosingKept(s, r, a.seg, Closed, env);
    case FinWait2 =>
      if a.seg.flags.ack && a.seg.flags.fin {
        var v := r.(state := TimeWait, tmr := Some(r.timeWaitSeconds));
        Quiet(s, r, v, a.seg);
        FinAckKept(s, v, a.seg, env);
      }
    case TimeWait => if a.seg.flags.ack && a.seg.flags.fin { FinAckKept(s, r, a.seg, env); }
    case CloseWait => if a.seg.flags.ack && a.seg.flags.fin { FinAckKept(s, r, a.seg, env); }
    case _ =>
  }

  // ----- its user and its timer -----

  lemma CloseKept(s: Tcb, r: Tcb, env: Env)
    requires Four(s, r) && Alive(r)
    ensures Four(s, ClosedByUser(r, env))
  {
    if r.state in {Established, CloseWait} {
      SenderOf(r);
      var x := if r.state == Established then FinWait1 else LastAck;
      hide Alive, Data, WireAgrees;
      Leaves(s, r, x);
      FinApart(r, x, env);
      hide Four, Sender, ConstructFin;
      FinKept(s, r.(state := x), env);
    }
  }

  lemma Leaves(s: Tcb, r: Tcb, x: State)
    requires Four(s, r) && Sender(r) && ((r.state == Established && x == FinWait1) || (r.state == CloseWait && x == LastAck))
    ensures Four(s, r.(state := x)) && Sender(r.(state := x))
  {
    LeavesSender(r, x);
    hide Honest, OutHonest, Sender, Data, WireAgrees, Delivered, Flatten;
    Quiet(s, r, r.(state := x), CtrlSegment(0, 0, RST));
  }

  lemma LeavesSender(r: Tcb, x: State)
    requires Sender(r) && x in {FinWait1, LastAck}
    ensures Sender(r.(state := x)) && InTransfer(r) && Acked(r.(state := x)) == Acked(r)
  {
  }

  lemma FinApart(t: Tcb, x: State, env: Env)
    ensures ConstructFin(t.(state := x), env) == ConstructFin(t, env).(state := x)
  {
  }

  lemma TimeoutKept(s: Tcb, r: Tcb, env: Env)
    requires Four(s, r) && r.state != Closing
    ensures Four(s, TimedOut(r, env))
  {
    var u := TimedOut(r, env);
    TimeoutMoves(r, env);
    var c := if r.txSeg.Some? then r.txSeg.value.wire else CtrlSegment(0, 0, RST);
    if r.txSeg.Some? {
      assert Grown(r, u);
      HonestOut(c, r, u, s);
    }
    hide TimedOut, Honest, OutHonest;
    Quiet(s, r, u, c);
  }

  lemma TimeoutMoves(r: Tcb, env: Env)
    ensures var u := TimedOut(r, env);
            && u == r.(tmr := u.tmr, out := u.out, state := u.state)
            && (u.state == r.state || (r.state == TimeWait && u.state == Closed))
            && (u.out == r.out || (r.txSeg.Some? && u.out == r.out + [r.txSeg.value.wire]))
  {
    RetransmitMoves(r.(tmr := None), env);
    hide Retransmit;
  }

  lemma RetransmitMoves(r: Tcb, env: Env)
    ensures var u := Retransmit(r, env);
            && u == r.(tmr := u.tmr, out := u.out)
            && (u.out == r.out || (r.txSeg.Some? && u.out == r.out + [r.txSeg.value.wire]))
  {
  }

  lemma SendKept(s: Tcb, r: Tcb, data: seq<byte>, env: Env)
    requires Four(s, r) && Alive(r) && r.state == Established && env.dataSeg && |Sent(r, data, env).accepted| < M32 - 1
    ensures Four(s, Sent(r, data, env))
  {
    SenderOf(r);
    hide Four, Sender, ConstructData, Queued, Local, Dead;
    if env.buf {
      var v := r.(txData := r.txData + [Queued(data)], accepted := r.accepted + Queued(data));
      assert Sent(r, data, env) == ConstructData(v, env);
      TakesIn(s, r, v, Queued(data));
      ConstructKept(s, v, env);
    } else {
      ConstructKept(s, r, env);
    }
  }

  lemma TakesIn(s: Tcb, r: Tcb, v: Tcb, q: seq<byte>)
    requires Four(s, r) && Alive(r) && Sender(r) && r.state == Established && |r.accepted| + |q| < M32 - 1
    requires v == r.(txData := r.txData + [q], accepted := r.accepted + q)
    ensures Four(s, v) && Sender(v)
  {
    FlattenAppend(r.txData, [q]);
    FlattenSingle(q);
    TakesInData(r, v, q);
    hide Data, Stream, OneOutstanding, WireAgrees, Flatten, Honest;
    HonestKept(s, r, v, CtrlSegment(0, 0, RST));
    hide OutHonest;
  }

  lemma TakesInData(r: Tcb, v: Tcb, q: seq<byte>)
    requires Alive(r) && Sender(r) && r.state == Established && Flatten(r.txData + [q]) == Flatten(r.txData) + q
    requires v == r.(txData := r.txData + [q], accepted := r.accepted + q)
    ensures Sender(v) && Transmitted(v) == Transmitted(r)
  {
    assert Local(r);
    hide Data, OutInPlace;
    DataAccept(r, v, q);
  }

  lemma ReadKept(s: Tcb, r: Tcb, size: nat)
    requires Four(s, r)
    ensures Four(s, Read(r, size))
  {
    Quiet(s, r, Read(r, size), CtrlSegment(0, 0, RST));
  }

  // ----- what each endpoint keeps by itself -----

  // A peer that has accepted and queued nothing beyond the handshake acknowledges only it.
  ghost predicate Tame(t: Tcb, e: Event) {
    e.Arrive? ==>
      !e.a.seg.flags.rst && (t.state in {SynReceived, CloseWait} && e.a.seg.flags.ack ==> e.a.seg.ackNo == 0)
  }

  lemma DeadStep(t: Tcb, e: Event)
    requires Dead(t) && Tame(t, e)
    ensures Dead(Step(t, e))
  {
    match e
    case Arrive(a, env) => DeadReceived(t, a, env);
    case _ =>
  }

  lemma DeadReceived(t: Tcb, a: Arrival, env: Env)
    requires Dead(t) && Tame(t, Arrive(a, env))
    ensures Dead(Received(t, a, env))
  {
    match t.state
    case SynReceived => DeadSynReceived(t, a.seg, env);
    case LastAck => DeadLastAck(t, a.seg, env);
    case _ =>
  }

  lemma DeadSynReceived(t: Tcb, s: Segment, env: Env)
    requires Dead(t) && t.state == SynReceived && !s.flags.rst && (s.flags.ack ==> s.ackNo == 0)
    ensures Dead(ReceivedWhenSynReceived(t, s, env))
  {
  }

  lemma DeadLastAck(t: Tcb, s: Segment, env: Env)
    requires Dead(t) && t.state == LastAck
    ensures Dead(ReceivedWhenClosing(t, Some(s), Closed, env))
  {
  }

  // An acknowledgment for a side that has accepted nothing.
  lemma AcksNothing(g: Segment, s: Tcb, r: Tcb)
    requires Four(s, r) && g in s.out && g.flags.ack && r.accepted == [] && Transmitted(r) == 0 && !Finishing(r)
    ensures g.ackNo == Base(r)
  {
    assert Honest(g, s, r);
    AddOff(Base(r), g.ackNo);
  }

  lemma AliveStep(s: Tcb, r: Tcb, e: Event)
    requires Four(s, r) && Alive(r) && EventEnv(e) && r.state != Closing && (r.state == SynReceived ==> r.passive)
    requires e.Arrive? ==> e.a.seg in s.out && (r.passive ==> !e.a.seg.flags.rst)
    ensures Alive(Step(r, e)) && Step(r, e).iss == r.iss && Step(r, e).passive == r.passive
  {
    FixedStep(r, e);
    assert r.txData == [] ==> Flatten(r.txData) == [];
    if e.Arrive? && r.state in {SynReceived, CloseWait} && e.a.seg.flags.ack && r.accepted == [] && r.txData == [] && !Finishing(r) {
      AcksNothing(e.a.seg, s, r);
    }
    if r.iss == M32 - 1 && r.passive {
      DeadStep(r, e);
    } else {
      PoliteHere(s, r, e);
      OneOutstandingStep(r, e);
      StreamStep(r, e);
    }
  }

  lemma PoliteHere(s: Tcb, r: Tcb, e: Event)
    requires Four(s, r) && Local(r) && (r.passive ==> r.iss != M32 - 1) && (r.state == SynReceived ==> r.passive)
    requires e.Arrive? ==> e.a.seg in s.out && (r.passive ==> !e.a.seg.flags.rst)
    ensures Polite(r, e)
  {
    if r.state == SynReceived && e.Arrive? && e.a.seg.flags.ack {
      assert r.txData == [] && Flatten(r.txData) == [];
      AcksNothing(e.a.seg, s, r);
    }
  }

  // ----- the pair -----

  ghost predicate NoRst(out: seq<Segment>) {
    forall g :: g in out ==> !g.flags.rst
  }

  ghost predicate Linked(w: World) {
    && Four(w.a, w.b) && Alive(w.a) && Alive(w.b)
    && !w.a.passive && w.b.passive && w.a.iss != M32 - 1 && NoRst(w.a.out)
    && w.a.state !in {Listen, SynReceived, Closing} && w.b.state !in {SynSent, Closing}
    && (w.a.state == SynSent ==> w.b.state in {Listen, SynReceived} && forall g :: g in w.a.out ==> g.flags == SYN)
    && (w.b.state == Listen ==> w.b.out == [] && w.a.state == SynSent)
  }

  // What an endpoint past the handshake puts on the wire never resets.
  lemma NoRstStep(t: Tcb, e: Event)
    requires Local(t) && NoRst(t.out) && t.state !in {Listen, SynSent, SynReceived, Closing}
    ensures NoRst(Step(t, e).out)
  {
    hide Local, Received, TimedOut, ClosedByUser, Sent;
    match e
    case Arrive(a, env) => NoRstReceived(t, a, env);
    case Timeout(env) => NoRstTimeout(t, env);
    case _ => NoRstUser(t, e);
  }

  lemma NoRstTimeout(t: Tcb, env: Env)
    requires Local(t) && NoRst(t.out) && t.state !in {Listen, SynSent, SynReceived, Closing}
    ensures NoRst(TimedOut(t, env).out)
  {
    if t.state in {Established, FinWait1, LastAck} && t.txSeg.Some? {
      assert !t.txSeg.value.wire.flags.rst;
    }
  }

  lemma NoRstUser(t: Tcb, e: Event)
    requires NoRst(t.out) && !e.Arrive? && !e.Timeout?
    ensures NoRst(Step(t, e).out)
  {
  }

  lemma NoRstReceived(t: Tcb, a: Arrival, env: Env)
    requires Local(t) && NoRst(t.out) && t.state !in {Listen, SynSent, SynReceived, Closing}
    ensures NoRst(Received(t, a, env).out)
  {
    match t.state
    case Established => NoRstEstablished(t, a, env);
    case FinWait1 => NoRstClosing(t, a.seg, FinWait2, env);
    case LastAck => NoRstClosing(t, a.seg, Closed, env);
    case FinWait2 => HandleFinAckSends(t.(state := TimeWait, tmr := Some(t.timeWaitSeconds)), a.seg, env);
    case TimeWait => HandleFinAckSends(t, a.seg, env);
    case CloseWait => HandleFinAckSends(t, a.seg, env);
    case _ =>
  }

  lemma NoRstAck(t: Tcb, s: Segment, env: Env)
    requires NoRst(t.out)
    ensures NoRst(HandleAckOfData(t, s, env).out)
  {
  }

  lemma NoRstClosing(t: Tcb, s: Segment, next: State, env: Env)
    requires NoRst(t.out)
    ensures NoRst(ReceivedWhenClosing(t, Some(s), next, env).out)
  {
    NoRstAck(t, s, env);
    hide HandleAckOfData;
  }

  lemma NoRstEstablished(t: Tcb, a: Arrival, env: Env)
    requires NoRst(t.out)
    ensures NoRst(ReceivedWhenEstablished(t, a, env).out)
  {
    hide HandleAckOfData, HandleData, HandleFinAck, Acceptable;
    NoRstAck(t, a.seg, env);
    var h := if TxIsFin(t) then t else HandleAckOfData(t, a.seg, env);
    HandleDataSends(h, a, env);
    HandleFinAckSends(HandleData(h, a, env), a.seg, env);
  }

  // The listener hears a SYN.
  lemma ListenKept(w: World, a: Arrival, env: Env)
    requires Linked(w) && w.b.state == Listen && a.seg in w.a.out
    ensures var u := Received(w.b, a, env);
            Four(w.a, u) && u.state in {Listen, SynReceived} && (u.state == Listen ==> u.out == [])
  {
    assert Honest(a.seg, w.a, w.b);
    var u := Received(w.b, a, env);
    var c := CtrlSegment(w.b.iss, u.rcvNxt, SYNACK);
    OffAdd(Base(w.a), 0);
    assert Honest(c, u, w.a);
    hide Honest, OutHonest;
    Quiet(w.a, w.b, u, c);
  }

  // The responder waits for the acknowledgment of its SYN.
  lemma SynReceivedKept(w: World, a: Arrival, env: Env)
    requires Linked(w) && w.b.state == SynReceived && a.seg in w.a.out
    ensures var u := Received(w.b, a, env);
            Four(w.a, u) && u.state in {SynReceived, Established, CloseWait}
            && (!a.seg.flags.ack ==> u.state == SynReceived || a.seg.flags.fin)
  {
    var u := Received(w.b, a, env);
    SynReceivedMoves(w.b, a.seg, env);
    var c := if u.out == w.b.out then CtrlSegment(0, w.b.rcvNxt, ACK) else u.out[|w.b.out|];
    assert Honest(c, u, w.a);
    hide Honest, OutHonest, ReceivedWhenSynReceived;
    Quiet(w.a, w.b, u, c);
  }

  lemma SynReceivedMoves(t: Tcb, s: Segment, env: Env)
    requires t.state == SynReceived && !s.flags.rst
    ensures var u := ReceivedWhenSynReceived(t, s, env);
            && u == t.(una := u.una, state := u.state, out := u.out) && u.state in {SynReceived, Established, CloseWait}
            && (!s.flags.ack ==> u.state == SynReceived)
            && (u.out == t.out || (|u.out| == |t.out| + 1 && u.out == t.out + [u.out[|t.out|]]
                && var c := u.out[|t.out|]; c.payload == [] && (c.flags == RST || (c.flags == ACK && c.ackNo == t.rcvNxt))))
  {
  }

  // The initiator waits for SYN,ACK.
  lemma SynSentKept(w: World, a: Arrival, env: Env)
    requires Linked(w) && w.a.state == SynSent && a.seg in w.b.out
    ensures var u := Received(w.a, a, env);
            Four(w.b, u) && NoRst(u.out) && (u == w.a || (u.state == SynSent && u.out == w.a.out) || (u.state == Established && w.b.state != Listen))
  {
    var u := Received(w.a, a, env);
    if u != w.a {
      Answer(w, a, env);
      var c := CtrlSegment(a.seg.ackNo, Base(w.b), ACK);
      OffAdd(Base(w.b), 0);
      assert Honest(c, u, w.b);
      hide Honest, OutHonest, ReceivedWhenSynSent;
      Quiet(w.b, w.a, u, c);
    }
  }

  lemma Answer(w: World, a: Arrival, env: Env)
    requires Linked(w) && w.a.state == SynSent && a.seg in w.b.out && Received(w.a, a, env) != w.a
    ensures var u := Received(w.a, a, env);
            && u == w.a.(una := u.una, rcvNxt := Base(w.b), irs := u.irs, state := u.state, txSeg := u.txSeg,
                         tmr := u.tmr, out := u.out, nxt := u.nxt)
            && ((u.state == SynSent && u.out == w.a.out && u.txSeg == w.a.txSeg)
                || (u.state == Established && u.txSeg.None? && w.b.state != Listen
                    && u.out == w.a.out + [CtrlSegment(a.seg.ackNo, Base(w.b), ACK)]))
  {
    assert Honest(a.seg, w.b, w.a);
    assert w.b.enqueued == [];
    AddOff(Base(w.a), a.seg.ackNo);
    hide OutHonest, Delivered;
  }

  // ----- one move -----

  lemma StepKept(s: Tcb, r: Tcb, e: Event)
    requires Four(s, r) && Alive(r) && EventEnv(e) && r.state != Closing && |Step(r, e).accepted| < M32 - 1
    requires e.Arrive? ==> e.a.seg in s.out && r.state !in {Listen, SynSent, SynReceived}
    ensures Four(s, Step(r, e))
  {
    hide Four, Alive, Received, TimedOut, ClosedByUser, Sent, Read;
    match e
    case Arrive(a, env) => ArriveKept(s, r, a, env);
    case Timeout(env) => TimeoutKept(s, r, env);
    case Close(env) => CloseKept(s, r, env);
    case Send(data, env) =>
      if r.state == Established {
        SendKept(s, r, data, env);
      } else {
        SendsNothing(r, data, env);
      }
    case Recv(size) => ReadKept(s, r, size);
  }

  lemma SendsNothing(t: Tcb, data: seq<byte>, env: Env)
    requires t.state != Established
    ensures Sent(t, data, env) == t
  {
  }

  // Before the SYN is answered only the timer does anything.
  lemma SynSentMoves(t: Tcb, e: Event)
    requires t.state == SynSent && Local(t) && !e.Arrive?
    ensures var u := Step(t, e);
            u == t.(tmr := u.tmr, out := u.out) && (u.out == t.out || u.out == t.out + [t.txSeg.value.wire])
            && t.txSeg.Some? && t.txSeg.value.wire.flags == SYN
  {
  }

  lemma PassiveWaits(t: Tcb, e: Event)
    requires t.state in {Listen, SynReceived} && !e.Arrive?
    ensures var u := Step(t, e); u == t.(tmr := u.tmr, out := u.out) && (t.txSeg.None? ==> u.out == t.out)
  {
  }

  // Where the initiator may be after a move.
  ghost predicate RightState(w: World, u: Tcb) {
    && NoRst(u.out) && u.state !in {Listen, SynReceived, Closing}
    && (u.state == SynSent ==> w.b.state in {Listen, SynReceived} && forall g :: g in u.out ==> g.flags == SYN)
    && (w.b.state == Listen ==> u.state == SynSent)
  }

  lemma SynSentMove(w: World, e: Event)
    requires Linked(w) && EventEnv(e) && (e.Arrive? ==> e.a.seg in w.b.out) && w.a.state == SynSent && |Step(w.a, e).accepted| < M32 - 1
    ensures Four(w.b, Step(w.a, e)) && RightState(w, Step(w.a, e))
  {
    if e.Arrive? {
      SynSentKept(w, e.a, e.env);
    } else {
      SynSentMoves(w.a, e);
      FourTurned(w.a, w.b);
      StepKept(w.b, w.a, e);
    }
    hide Four, Alive, Step;
  }

  lemma LeaderMove(w: World, e: Event)
    requires Linked(w) && EventEnv(e) && (e.Arrive? ==> e.a.seg in w.b.out) && w.a.state != SynSent && |Step(w.a, e).accepted| < M32 - 1
    ensures Four(w.b, Step(w.a, e)) && RightState(w, Step(w.a, e))
  {
    FourTurned(w.a, w.b);
    StepKept(w.b, w.a, e);
    StepFollows(w.a, e);
    NoRstStep(w.a, e);
    hide Four, Alive, Step, NoRst;
  }

  lemma LinkedStepA(w: World, e: Event)
    requires Linked(w) && EventEnv(e) && (e.Arrive? ==> e.a.seg in w.b.out) && |Step(w.a, e).accepted| < M32 - 1
    ensures Linked(w.(a := Step(w.a, e)))
  {
    hide Alive, Four, Step;
    FourTurned(w.a, w.b);
    AliveStep(w.b, w.a, e);
    if w.a.state == SynSent {
      SynSentMove(w, e);
    } else {
      LeaderMove(w, e);
    }
    FourTurned(w.b, Step(w.a, e));
  }

  lemma FourTurned(s: Tcb, r: Tcb)
    ensures Four(s, r) == Four(r, s)
  {
  }

  // Where the responder may be after a move.
  ghost predicate RightPlace(w: World, u: Tcb) {
    && u.state !in {SynSent, Closing}
    && (w.a.state == SynSent ==> u.state in {Listen, SynReceived})
    && (u.state == Listen ==> u.out == [] && w.a.state == SynSent)
  }

  lemma ListenMove(w: World, e: Event)
    requires Linked(w) && EventEnv(e) && (e.Arrive? ==> e.a.seg in w.a.out) && w.b.state == Listen && |Step(w.b, e).accepted| < M32 - 1
    ensures Four(w.a, Step(w.b, e)) && RightPlace(w, Step(w.b, e))
  {
    if e.Arrive? {
      ListenKept(w, e.a, e.env);
    } else {
      StepKept(w.a, w.b, e);
      PassiveWaits(w.b, e);
      PassiveIdle(w.b);
    }
    hide Four, Alive, Step;
  }

  lemma SynReceivedMove(w: World, e: Event)
    requires Linked(w) && EventEnv(e) && (e.Arrive? ==> e.a.seg in w.a.out) && w.b.state == SynReceived && |Step(w.b, e).accepted| < M32 - 1
    ensures Four(w.a, Step(w.b, e)) && RightPlace(w, Step(w.b, e))
  {
    if e.Arrive? {
      SynReceivedKept(w, e.a, e.env);
    } else {
      StepKept(w.a, w.b, e);
      PassiveWaits(w.b, e);
    }
    hide Four, Alive, Step;
  }

  lemma LaterState(t: Tcb, e: Event)
    requires t.state !in {Listen, SynSent, SynReceived, Closing}
    ensures Step(t, e).state !in {Listen, SynSent, SynReceived, Closing}
  {
    hide Step;
    StepFollows(t, e);
  }

  lemma LaterMove(w: World, e: Event)
    requires Linked(w) && EventEnv(e) && (e.Arrive? ==> e.a.seg in w.a.out) && w.b.state !in {Listen, SynReceived}
    requires |Step(w.b, e).accepted| < M32 - 1
    ensures Four(w.a, Step(w.b, e)) && RightPlace(w, Step(w.b, e))
  {
    hide Four, Alive, Step;
    StepKept(w.a, w.b, e);
    LaterState(w.b, e);
  }

  lemma LinkedStepB(w: World, e: Event)
    requires Linked(w) && EventEnv(e) && (e.Arrive? ==> e.a.seg in w.a.out) && |Step(w.b, e).accepted| < M32 - 1
    ensures Linked(w.(b := Step(w.b, e)))
  {
    hide Alive, Four, Step;
    AliveStep(w.a, w.b, e);
    if w.b.state == Listen {
      ListenMove(w, e);
    } else if w.b.state == SynReceived {
      SynReceivedMove(w, e);
    } else {
      LaterMove(w, e);
    }
  }

  lemma PassiveIdle(t: Tcb)
    requires Alive(t) && t.state in {Listen, SynReceived}
    ensures t.txSeg.None?
  {
  }

  // ----- whole plays -----

  lemma StartLinked(isnA: u32, isnB: u32, env: Env)
    ensures var w := Start(isnA, isnB, env);
            if isnA == M32 - 1 then StuckPair(w) && w.b.passive else Linked(w)
  {
  }

  lemma {:induction false} PlayInvariant(isnA: u32, isnB: u32, env: Env, ms: seq<Move>)
    requires PermittedPlay(Start(isnA, isnB, env), ms)
    requires var w := Play(Start(isnA, isnB, env), ms); |w.a.accepted| < M32 - 1 && |w.b.accepted| < M32 - 1
    ensures var w := Play(Start(isnA, isnB, env), ms);
            if isnA == M32 - 1 then StuckPair(w) && w.b.passive else Linked(w)
  {
    if ms == [] {
      StartLinked(isnA, isnB, env);
    } else {
      var p, m := ms[..|ms| - 1], ms[|ms| - 1];
      var w := Play(Start(isnA, isnB, env), p);
      GrowsStep(w.a, m.e);
      GrowsStep(w.b, m.e);
      PlayInvariant(isnA, isnB, env, p);
      hide Linked, StuckPair, Step;
      if isnA == M32 - 1 {
        TcpWorld.StuckStep(w, m);
      } else if m.side == A {
        LinkedStepA(w, m.e);
      } else {
        LinkedStepB(w, m.e);
      }
    }
  }
}
