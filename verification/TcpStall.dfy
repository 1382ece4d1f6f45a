// When the sender stops for good, when it falls silent, and when what it would send again
// is out of date.
module TcpStall {
  import opened Bytes
  import opened SeqNum
  import opened TcpSender
  import opened TcpSpec

  // A segment of data waits for its acknowledgment.
  ghost predicate Waiting(t: Tcb) {
    t.state in {Established, CloseWait, FinWait1, LastAck} && t.txSeg.Some? && !TxIsFin(t)
  }

  function Wire(t: Tcb): Segment
    requires t.txSeg.Some?
  {
    t.txSeg.value.wire
  }

  predicate BareAck(s: Segment) {
    s.flags == ACK && s.payload == []
  }

  // From t to u nothing went out but bare acknowledgments and, if again is set, the
  // outstanding segment as it was packed.
  ghost predicate OnlyRepeats(t: Tcb, u: Tcb, again: bool)
    requires t.txSeg.Some?
  {
    && |t.out| <= |u.out| && u.out[..|t.out|] == t.out
    && forall i :: |t.out| <= i < |u.out| ==> BareAck(u.out[i]) || (again && u.out[i] == Wire(t))
  }

  // The same segment is still outstanding.
  ghost predicate SameSegment(t: Tcb, u: Tcb)
    requires t.txSeg.Some?
  {
    u.txSeg.Some? && Wire(u) == Wire(t) && u.nxt == t.nxt
  }

  lemma RepeatsTwice(t: Tcb, u: Tcb, v: Tcb, again: bool)
    requires t.txSeg.Some? && SameSegment(t, u) && OnlyRepeats(t, u, again) && OnlyRepeats(u, v, again)
    ensures OnlyRepeats(t, v, again)
  {
    assert v.out[..|t.out|] == v.out[..|u.out|][..|t.out|];
    forall i | |t.out| <= i < |v.out| ensures BareAck(v.out[i]) || (again && v.out[i] == Wire(t)) {
      if i < |u.out| {
        assert v.out[i] == v.out[..|u.out|][i];
      }
    }
  }

  // ----- the stall -----

  // The acknowledgment of all that is outstanding completes it exactly when snd.nxt has
  // not wrapped and the segment is not empty: this is the strict/non-strict branch of sncmp.
  lemma AckCompletesIff(t: Tcb, s: Segment, env: Env)
    requires t.txSeg.Some? && s.ackNo == t.nxt
    ensures HandleAckOfData(t, s, env) != t <==> t.una < t.nxt
  {
    if t.una < t.nxt {
      assert HandleAckOfData(t, s, env).una == t.nxt;
    }
  }

  ghost predicate Wedged(t: Tcb) {
    Waiting(t) && t.nxt <= t.una
  }

  lemma WedgedAck(t: Tcb, s: Segment, env: Env)
    requires t.txSeg.Some? && t.nxt <= t.una
    ensures HandleAckOfData(t, s, env) == t
  {
  }

  // A FIN,ACK may move snd.una, but not below snd.nxt.
  lemma WedgedFinAck(t: Tcb, s: Segment, env: Env)
    requires t.nxt <= t.una
    ensures var u := HandleFinAck(t, s, env); u.nxt == t.nxt <= u.una
  {
  }

  lemma WedgedEstablished(t: Tcb, a: Arrival, env: Env)
    requires Wedged(t) && t.state == Established
    ensures var u := ReceivedWhenEstablished(t, a, env); Wedged(u) && SameSegment(t, u) && OnlyRepeats(t, u, true)
  {
    if Acceptable(t, a.seg) && !a.seg.flags.rst && a.seg.flags.ack {
      WedgedAck(t, a.seg, env);
      var t2 := HandleData(t, a, env);
      assert t2 == t.(rxData := t2.rxData, enqueued := t2.enqueued, rcvNxt := t2.rcvNxt, txSeg := t2.txSeg);
      assert SameSegment(t, t2) && !TxIsFin(t2);
      WedgedFinAck(t2, a.seg, env);
      HandleFinAckSends(t2, a.seg, env);
    }
  }

  lemma WedgedReceived(t: Tcb, a: Arrival, env: Env)
    requires Wedged(t)
    ensures var u := Received(t, a, env); Wedged(u) && SameSegment(t, u) && OnlyRepeats(t, u, true)
  {
    WedgedAck(t, a.seg, env);
    match t.state
    case Established => WedgedEstablished(t, a, env);
    case CloseWait =>
      WedgedFinAck(t, a.seg, env);
      HandleFinAckSends(t, a.seg, env);
    case _ =>
  }

  lemma WedgedStep(t: Tcb, e: Event)
    requires Wedged(t)
    ensures var u := Step(t, e); Wedged(u) && SameSegment(t, u) && OnlyRepeats(t, u, true)
  {
    match e
    case Arrive(a, env) => WedgedReceived(t, a, env);
    case _ =>
  }

  // Main result: once snd.nxt is not ahead of snd.una as a number, nothing that arrives and
  // nothing the user does completes the segment. It is all that is ever sent again; no new
  // data and no FIN follow, and the connection never gets past FIN_WAIT_1 and LAST_ACK.
  lemma {:induction false} WedgedForever(t: Tcb, es: seq<Event>)
    requires Wedged(t)
    ensures var u := Run(t, es); Wedged(u) && SameSegment(t, u) && OnlyRepeats(t, u, true)
  {
    if es != [] {
      var p := es[..|es| - 1];
      WedgedForever(t, p);
      WedgedStep(Run(t, p), es[|es| - 1]);
      hide Step, Wedged;
      RepeatsTwice(t, Run(t, p), Run(t, es), true);
    }
  }

  // Some continuation completes the outstanding segment if and only if snd.nxt is ahead.
  lemma CompletesIff(t: Tcb)
    requires Waiting(t) && t.wnd > 0
    ensures (exists es :: Run(t, es).txSeg.None?) <==> t.una < t.nxt
  {
    if t.nxt <= t.una {
      forall es ensures Run(t, es).txSeg.Some? {
        WedgedForever(t, es);
      }
    } else {
      var es := Completing(t);
    }
  }

  // A number the window test lets through, also where the window wraps.
  function Admitted(t: Tcb): u32 {
    var edge := Add(t.rcvNxt, t.wnd);
    if t.rcvNxt <= edge then t.rcvNxt else edge
  }

  lemma AdmittedIsAcceptable(t: Tcb, ackNo: u32)
    requires t.wnd > 0
    ensures Acceptable(t, Segment(Admitted(t), ackNo, ACK, []))
  {
  }

  lemma AckCompletes(t: Tcb, env: Env)
    requires Waiting(t) && t.state != CloseWait && t.wnd > 0 && t.una < t.nxt && !env.dataSeg && !env.finSeg
    ensures Received(t, Arrival(Segment(Admitted(t), t.nxt, ACK, []), 0, 0), env).txSeg.None?
  {
    AdmittedIsAcceptable(t, t.nxt);
    hide Acceptable, Admitted;
  }

  // A peer that acknowledges everything, after the user has closed where that is needed.
  lemma Completing(t: Tcb) returns (es: seq<Event>)
    requires Waiting(t) && t.wnd > 0 && t.una < t.nxt
    ensures Run(t, es).txSeg.None?
  {
    var none := Env(false, false, false, false, false, false, false);
    var u, p := t, [];
    if t.state == CloseWait {
      p := [Close(none)];
      RunSnoc(t, [], Close(none));
      assert [] + p == p;
      u := Step(t, Close(none));
    }
    AckCompletes(u, none);
    var e := Arrive(Arrival(Segment(Admitted(u), u.nxt, ACK, []), 0, 0), none);
    hide Received;
    RunSnoc(t, p, e);
    es := p + [e];
  }

  // Loading a chunk when nothing is outstanding wedges the connection exactly when the
  // chunk is empty or its end reaches 2^32.
  lemma ConstructWedgesIff(t: Tcb, env: Env)
    requires t.state in {Established, CloseWait, FinWait1, LastAck} && t.txSeg.None? && t.una == t.nxt
    requires t.txData != [] && |t.txData[0]| < M16
    ensures Wedged(ConstructData(t, env)) <==>
            env.dataSeg && (t.txData[0] == [] || t.una + |t.txData[0]| >= M32)
  {
  }

  // So does tcp_send on an idle connection: with a multiple of 65536 bytes, zero included,
  // or across the wrap.
  lemma SendWedgesIff(t: Tcb, data: seq<byte>, env: Env)
    requires t.state == Established && t.txSeg.None? && t.txData == [] && t.una == t.nxt
    ensures Wedged(Sent(t, data, env)) <==>
            env.buf && env.dataSeg && (|data| % M16 == 0 || t.una + |data| % M16 >= M32)
  {
    if env.buf {
      var u := t.(txData := t.txData + [Queued(data)], accepted := t.accepted + Queued(data));
      assert u.txData == [Queued(data)];
      ConstructWedgesIff(u, env);
    }
  }

  // Every connection that can establish gets there by sending zero bytes first, and one
  // that starts just below the wrap by any send that crosses it.
  lemma FirstSendWedgesIff(isn: u32, data: seq<byte>, env: Env, answer: Env, send: Env)
    requires isn != M32 - 1 && answer.ackSent && send.buf && send.dataSeg
    ensures var es := [Arrive(Arrival(Segment(0, isn + 1, SYNACK, []), 0, 0), answer), Send(data, send)];
            Wedged(Run(Opened(false, isn, env), es)) <==> |data| % M16 == 0 || isn + 1 + |data| % M16 >= M32
  {
    var e := Arrive(Arrival(Segment(0, isn + 1, SYNACK, []), 0, 0), answer);
    var t := Opened(false, isn, env);
    RunSnoc(t, [], e);
    RunSnoc(t, [e], Send(data, send));
    assert [] + [e] == [e] && [e] + [Send(data, send)] == [e, Send(data, send)];
    Answered(isn, env, answer);
    SendWedgesIff(Step(t, e), data, send);
  }

  lemma Answered(isn: u32, env: Env, answer: Env)
    requires isn != M32 - 1 && answer.ackSent
    ensures var t := Step(Opened(false, isn, env), Arrive(Arrival(Segment(0, isn + 1, SYNACK, []), 0, 0), answer));
            t.state == Established && t.txSeg.None? && t.txData == [] && t.una == t.nxt == isn + 1
  {
  }

  // ----- silence in CLOSE_WAIT -----

  // The timer of the outstanding segment is gone.
  ghost predicate Silent(t: Tcb) {
    t.state in {CloseWait, LastAck} && t.txSeg.Some? && !TxIsFin(t) && t.tmr.None?
  }

  // The one event that ends it: after the user has closed, an acknowledgment that
  // completes the segment.
  ghost predicate Releases(t: Tcb, e: Event) {
    t.state == LastAck && e.Arrive? && e.a.seg.flags.ack && e.a.seg.ackNo == t.nxt && t.una < t.nxt
  }

  lemma CloseWaitFallsSilent(t: Tcb, env: Env)
    requires t.state == CloseWait && Waiting(t)
    ensures Silent(Step(t, Timeout(env))) && Step(t, Timeout(env)).out == t.out
  {
  }

  lemma SilentStepIff(t: Tcb, e: Event)
    requires Silent(t)
    ensures var u := Step(t, e);
            && (Silent(u) <==> !Releases(t, e))
            && (Silent(u) ==> SameSegment(t, u) && OnlyRepeats(t, u, false))
  {
    match e
    case Arrive(a, env) =>
      if t.state == CloseWait {
        HandleFinAckSends(t, a.seg, env);
      } else {
        SilentLastAck(t, a.seg, env);
      }
    case _ =>
  }

  lemma SilentLastAck(t: Tcb, s: Segment, env: Env)
    requires Silent(t) && t.state == LastAck
    ensures var u := ReceivedWhenClosing(t, Some(s), Closed, env);
            if s.flags.ack && s.ackNo == t.nxt && t.una < t.nxt then !Silent(u) else u == t
  {
    if s.ackNo == t.nxt {
      AckCompletesIff(t, s, env);
    }
  }

  // Main result: after the timer has expired in CLOSE_WAIT the outstanding segment is not
  // sent again on any run, until the user has closed and an acknowledgment of snd.nxt
  // arrives; bare acknowledgments are all that goes out.
  lemma {:induction false} SilentUntilReleased(t: Tcb, es: seq<Event>)
    requires Silent(t) && forall i :: 0 <= i < |es| ==> !Releases(Run(t, es[..i]), es[i])
    ensures var u := Run(t, es); Silent(u) && SameSegment(t, u) && OnlyRepeats(t, u, false)
  {
    if es != [] {
      var n := |es| - 1;
      var p := es[..n];
      forall i | 0 <= i < |p| ensures !Releases(Run(t, p[..i]), p[i]) {
        assert p[..i] == es[..i];
      }
      SilentUntilReleased(t, p);
      assert !Releases(Run(t, es[..n]), es[n]);
      SilentStepIff(Run(t, p), es[n]);
      hide Step, Silent;
      RepeatsTwice(t, Run(t, p), Run(t, es), false);
    }
  }

  // ----- the acknowledgment number of what is sent again -----

  // What a retransmission would put on the wire acknowledges all that has been received.
  ghost predicate FreshAck(t: Tcb) {
    t.txSeg.Some? ==> Wire(t).ackNo == t.rcvNxt
  }

  // The acknowledgment of all that is outstanding, where it is taken for that.
  ghost predicate Completes(t: Tcb, s: Segment) {
    t.txSeg.Some? && s.ackNo == t.nxt && t.una < t.nxt
  }

  // After the acknowledgment in s something is outstanding: what was, or the next chunk.
  ghost predicate StaysBusy(t: Tcb, s: Segment, env: Env) {
    t.txSeg.Some? && (Completes(t, s) ==> t.txData != [] && env.dataSeg)
  }

  // The segment moves rcv.nxt: by its FIN, which counts only where its acknowledgment is
  // in the interval of sncmp, and otherwise by being next in order.
  ghost predicate MovesOn(t: Tcb, s: Segment, env: Env)
    requires StaysBusy(t, s, env)
  {
    if s.flags.fin && (if Completes(t, s) then Add(t.nxt, |t.txData[0]|) < t.nxt else Sncmp(t.una, Ls, s.ackNo, Le, t.nxt))
    then Add(s.sn, 1) != t.rcvNxt
    else s.sn == t.rcvNxt && SegLen(s) > 0 && env.buf
  }

  // tcp_handle_data updates the fields of the outstanding segment and not its packed
  // image. In ESTABLISHED the image goes out of date in exactly one way.
  lemma GoesStaleIff(t: Tcb, e: Event)
    requires t.state == Established && FreshAck(t) && !TxIsFin(t)
    ensures !FreshAck(Step(t, e)) <==>
            e.Arrive? && var s := e.a.seg;
                         Acceptable(t, s) && !s.flags.rst && s.flags.ack && StaysBusy(t, s, e.env) && MovesOn(t, s, e.env)
  {
    hide StaysBusy, MovesOn, Acceptable, Received;
    if e.Arrive? {
      assert Received(t, e.a, e.env) == ReceivedWhenEstablished(t, e.a, e.env) by { EstablishedIs(t, e.a, e.env); }
      StaleReceived(t, e.a, e.env);
    }
  }

  lemma StaleReceived(t: Tcb, a: Arrival, env: Env)
    requires t.state == Established && FreshAck(t) && !TxIsFin(t)
    ensures !FreshAck(ReceivedWhenEstablished(t, a, env)) <==>
            && Acceptable(t, a.seg) && !a.seg.flags.rst && a.seg.flags.ack
            && StaysBusy(t, a.seg, env) && MovesOn(t, a.seg, env)
  {
    if Acceptable(t, a.seg) && !a.seg.flags.rst && a.seg.flags.ack {
      var h := HandleAckOfData(t, a.seg, env);
      BusyAfterAck(t, a.seg, env);
      hide HandleAckOfData, Acceptable, Completes, StaysBusy, Sncmp;
      StaleData(h, a, env);
      HandleDataSends(h, a, env);
      var t2 := HandleData(h, a, env);
      hide HandleData;
      HandleFinAckSends(t2, a.seg, env);
    }
  }

  // What tcp_handle_ack_of_data leaves to the handling of text and FIN.
  lemma BusyAfterAck(t: Tcb, s: Segment, env: Env)
    requires FreshAck(t)
    ensures var h := HandleAckOfData(t, s, env);
            && FreshAck(h) && h.rcvNxt == t.rcvNxt && h.wnd == t.wnd && (h.txSeg.Some? <==> StaysBusy(t, s, env))
            && (h.txSeg.Some? ==>
                  (Sncmp(h.una, Ls, s.ackNo, Le, h.nxt) <==>
                   if Completes(t, s) then Add(t.nxt, |t.txData[0]|) < t.nxt else Sncmp(t.una, Ls, s.ackNo, Le, t.nxt)))
  {
  }

  lemma StaleData(h: Tcb, a: Arrival, env: Env)
    requires h.wnd > 0
    ensures HandleData(h, a, env).rcvNxt == h.rcvNxt <==> !(a.seg.sn == h.rcvNxt && SegLen(a.seg) > 0 && env.buf)
  {
    var n := |CopiedBytes(a, h.wnd)|;
    assert SegLen(a.seg) > 0 ==> 0 < n < M32;
    OffAdd(h.rcvNxt, n);
  }

  // ----- what is sent only once -----

  // The peer's FIN has been answered, or there is nothing left with which it could be.
  ghost predicate Answers(t: Tcb, u: Tcb) {
    && u.state in {TimeWait, CloseWait, Closed} && u.una == u.nxt && u.out == t.out
    && (u.state == CloseWait ==> t.state == CloseWait)
  }

  // In TIME_WAIT and CLOSE_WAIT a repeated FIN,ACK is compared against the interval from
  // snd.una to snd.nxt. It is answered after it has been answered once exactly when its
  // acknowledgment is above snd.nxt as a number, which sncmp takes only in a wrapped interval.
  lemma AnswersAgainIff(t: Tcb, a: Arrival, env: Env, b: Arrival, again: Env)
    requires t.state in {TimeWait, CloseWait} && a.seg.flags.ack && a.seg.flags.fin && again.finAckSent
    requires Sncmp(t.una, Ls, a.seg.ackNo, Le, t.nxt) && b.seg == a.seg
    ensures var u := Received(t, a, env);
            Received(u, b, again).out != u.out <==> t.nxt < a.seg.ackNo
  {
    var u := HandleFinAck(t, a.seg, env);
    assert u == Received(t, a, env) && u.una == a.seg.ackNo && u.nxt == t.nxt && u.state == t.state;
  }

  lemma QuietStep(t: Tcb, u: Tcb, e: Event)
    requires Answers(t, u) && (e.Close? ==> u.state != CloseWait)
    ensures Answers(t, Step(u, e)) && Step(u, e).rcvNxt == u.rcvNxt
  {
  }

  // Main result: with nothing unacknowledged, TIME_WAIT and CLOSE_WAIT send nothing on any
  // run until the user closes in CLOSE_WAIT: a peer that did not get the acknowledgment of
  // its FIN repeats it in vain.
  lemma {:induction false} LastAckOnce(t: Tcb, es: seq<Event>)
    requires t.state in {TimeWait, CloseWait} && t.una == t.nxt
    requires t.state == CloseWait ==> forall e :: e in es ==> !e.Close?
    ensures Run(t, es).out == t.out && Run(t, es).state in {t.state, Closed} && Run(t, es).rcvNxt == t.rcvNxt
    ensures Answers(t, Run(t, es))
  {
    if es != [] {
      LastAckOnce(t, es[..|es| - 1]);
      QuietStep(t, Run(t, es[..|es| - 1]), es[|es| - 1]);
      hide Step;
    }
  }

  // Past the first answer to a SYN.
  ghost predicate PastSyn(t: Tcb) {
    t.state !in {Listen, SynSent} && (t.txSeg.Some? ==> !Wire(t).flags.syn)
  }

  // From t to u no SYN went out.
  ghost predicate NoSynSince(t: Tcb, u: Tcb) {
    && |t.out| <= |u.out| && u.out[..|t.out|] == t.out
    && forall i :: |t.out| <= i < |u.out| ==> !u.out[i].flags.syn
  }

  lemma NoSynTwice(t: Tcb, u: Tcb, v: Tcb)
    requires NoSynSince(t, u) && NoSynSince(u, v)
    ensures NoSynSince(t, v)
  {
    assert v.out[..|t.out|] == v.out[..|u.out|][..|t.out|];
    forall i | |t.out| <= i < |v.out| ensures !v.out[i].flags.syn {
      if i < |u.out| {
        assert v.out[i] == v.out[..|u.out|][i];
      }
    }
  }

  lemma OneMore(t: Tcb, u: Tcb, c: Segment)
    requires (u.out == t.out || u.out == t.out + [c]) && !c.flags.syn
    ensures NoSynSince(t, u)
  {
  }

  lemma PastSynStep(t: Tcb, e: Event)
    requires PastSyn(t) && Step(t, e).state != Listen
    ensures PastSyn(Step(t, e)) && NoSynSince(t, Step(t, e))
  {
    hide Received, TimedOut, ClosedByUser, Sent, Read, PastSyn, NoSynSince;
    match e
    case Arrive(a, env) => PastSynReceived(t, a, env);
    case Timeout(env) => PastSynTimeout(t, env);
    case Close(env) => PastSynClose(t, env);
    case Send(data, env) => PastSynSend(t, data, env);
    case Recv(size) => PastSynRead(t, size);
  }

  lemma PastSynTimeout(t: Tcb, env: Env)
    requires PastSyn(t)
    ensures PastSyn(TimedOut(t, env)) && NoSynSince(t, TimedOut(t, env))
  {
  }

  lemma PastSynClose(t: Tcb, env: Env)
    requires PastSyn(t)
    ensures PastSyn(ClosedByUser(t, env)) && NoSynSince(t, ClosedByUser(t, env))
  {
  }

  lemma PastSynRead(t: Tcb, size: nat)
    requires PastSyn(t)
    ensures PastSyn(Read(t, size)) && NoSynSince(t, Read(t, size))
  {
  }

  lemma PastSynSend(t: Tcb, data: seq<byte>, env: Env)
    requires PastSyn(t)
    ensures PastSyn(Sent(t, data, env)) && NoSynSince(t, Sent(t, data, env))
  {
  }

  lemma PastSynReceived(t: Tcb, a: Arrival, env: Env)
    requires PastSyn(t) && Received(t, a, env).state != Listen
    ensures PastSyn(Received(t, a, env)) && NoSynSince(t, Received(t, a, env))
  {
    hide ReceivedWhenSynReceived, ReceivedWhenEstablished, ReceivedWhenClosing, HandleFinAck;
    match t.state
    case SynReceived => var c := SynReceivedSends(t, a.seg, env);
    case Established => PastSynEstablished(t, a, env);
    case FinWait1 => PastSynClosing(t, a.seg, FinWait2, env);
    case LastAck => PastSynClosing(t, a.seg, Closed, env);
    case FinWait2 => HandleFinAckSends(t.(state := TimeWait, tmr := Some(t.timeWaitSeconds)), a.seg, env);
    case TimeWait => HandleFinAckSends(t, a.seg, env);
    case CloseWait => HandleFinAckSends(t, a.seg, env);
    case _ =>
  }

  lemma PastSynAck(t: Tcb, s: Segment, env: Env)
    requires PastSyn(t)
    ensures var h := HandleAckOfData(t, s, env); PastSyn(h) && NoSynSince(t, h) && h.state == t.state
  {
  }

  lemma PastSynClosing(t: Tcb, s: Segment, next: State, env: Env)
    requires PastSyn(t) && next in {FinWait2, Closed}
    ensures var u := ReceivedWhenClosing(t, Some(s), next, env); PastSyn(u) && NoSynSince(t, u)
  {
    PastSynAck(t, s, env);
    hide HandleAckOfData;
  }

  lemma PastSynEstablished(t: Tcb, a: Arrival, env: Env)
    requires PastSyn(t) && t.state == Established
    ensures PastSyn(ReceivedWhenEstablished(t, a, env)) && NoSynSince(t, ReceivedWhenEstablished(t, a, env))
  {
    PastSynAck(t, a.seg, env);
    hide HandleAckOfData, HandleData, HandleFinAck, Acceptable, NoSynSince;
    OneMore(t, Refuse(t, a.seg, env), CtrlSegment(t.nxt, t.rcvNxt, ACK));
    OneMore(t, t, CtrlSegment(0, 0, ACK));
    var h := if TxIsFin(t) then t else HandleAckOfData(t, a.seg, env);
    PastSynText(h, a, env);
    var u := AcceptedWhenEstablished(t, a, env);
    NoSynTwice(t, h, u);
  }

  lemma PastSynText(h: Tcb, a: Arrival, env: Env)
    requires PastSyn(h) && h.state == Established
    ensures var t2 := HandleData(h, a, env);
            var u := if a.seg.flags.fin then HandleFinAck(t2, a.seg, env).(state := CloseWait) else t2;
            PastSyn(u) && NoSynSince(h, u)
  {
    hide HandleData, HandleFinAck, NoSynSince;
    HandleDataSends(h, a, env);
    var t2 := HandleData(h, a, env);
    HandleFinAckSends(t2, a.seg, env);
    var u := HandleFinAck(t2, a.seg, env).(state := CloseWait);
    OneMore(h, t2, CtrlSegment(h.una, t2.rcvNxt, ACK));
    OneMore(t2, u, CtrlSegment(u.una, u.rcvNxt, ACK));
    NoSynTwice(h, t2, u);
  }

  // Main result: a SYN,ACK is sent once. From SYN_RECEIVED on, unless a reset leads back to
  // LISTEN, no run sends another SYN, whatever arrives and whichever timers expire.
  lemma {:induction false} SynAckOnce(t: Tcb, es: seq<Event>)
    requires t.state == SynReceived && t.txSeg.None?
    requires forall i :: 0 <= i <= |es| ==> Run(t, es[..i]).state != Listen
    ensures PastSyn(Run(t, es)) && NoSynSince(t, Run(t, es))
  {
    if es != [] {
      var n := |es| - 1;
      var p := es[..n];
      forall i | 0 <= i <= |p| ensures Run(t, p[..i]).state != Listen {
        assert p[..i] == es[..i];
      }
      SynAckOnce(t, p);
      assert es[..|es|] == es;
      PastSynStep(Run(t, p), es[n]);
      hide Step, PastSyn;
      NoSynTwice(t, Run(t, p), Step(Run(t, p), es[n]));
    }
  }

  // ----- bytes lost by a failed allocation -----

  // tcp_construct_data takes the chunk off the queue before it knows whether there is a
  // segment for it. The queue stays the untransmitted tail of what was accepted, and snd.nxt
  // at its place, exactly when there is.
  lemma DataKeptIff(t: Tcb, env: Env)
    requires Data(t) && OutInPlace(t) && t.txSeg.None? && t.una == t.nxt
    requires t.txData != [] && 0 < |t.txData[0]| < M16
    ensures Data(ConstructData(t, env)) <==> env.dataSeg
  {
    if env.dataSeg {
      DataConstruct(t, env);
    } else {
      var n := |t.txData[0]|;
      AddAdd(t.iss, 1 + Transmitted(t), n);
      OffAdd(t.nxt, n);
    }
  }
}
