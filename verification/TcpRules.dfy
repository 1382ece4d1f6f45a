// What RFC 793 asks of each event, with the segments written out (section 3.9, as far as the
// code follows it). All statements are on one step from any state.
module TcpRules {
  import opened Bytes
  import opened SeqNum
  import opened TcpSender
  import opened TcpSpec

  // A segment on the wire, if it was handed to IP with success.
  function Sent1(s: Segment, ok: bool): seq<Segment> {
    if ok then [s] else []
  }

  // The control bits of the segments below.
  lemma ControlBits()
    ensures ACK.ack && !ACK.rst && !ACK.syn && !ACK.fin
    ensures !RST.ack && RST.rst && !RST.syn && !RST.fin
    ensures !SYN.ack && !SYN.rst && SYN.syn && !SYN.fin
    ensures SYNACK.ack && !SYNACK.rst && SYNACK.syn && !SYNACK.fin
    ensures FINACK.ack && !FINACK.rst && !FINACK.syn && FINACK.fin
  {
  }

  // SYN and FIN take one number each, in front of the text and behind it.
  lemma LengthRule(s: Segment)
    ensures !s.flags.syn && !s.flags.fin ==> SegLen(s) == |s.payload|
    ensures s.flags.syn != s.flags.fin ==> SegLen(s) == |s.payload| + 1
    ensures s.flags.syn && s.flags.fin ==> SegLen(s) == |s.payload| + 2
  {
  }

  // ----- opening -----

  // An active open sends <SEQ=ISS><CTL=SYN> and starts the retransmission timer; a passive
  // one waits. The window is 1500 bytes.
  lemma OpenRule(passive: bool, isn: u32, env: Env)
    ensures var t := Opened(passive, isn, env);
            && t.passive == passive && t.iss == t.una == isn && t.wnd == 1500 && t.timeWaitSeconds == 120
            && t.txData == [] && t.rxData == [] && t.accepted == t.enqueued == []
            && if passive
               then t.state == Listen && t.nxt == isn && t.txSeg.None? && t.tmr.None? && t.out == []
               else && t.state == SynSent && t.nxt == (isn + 1) % M32
                    && var syn := Segment(isn, 0, SYN, []);
                       t.txSeg == Some(TxSegment(syn, syn)) && t.tmr == Some(5) && t.out == Sent1(syn, env.dataSent)
  {
  }

  // ----- a segment arrives -----

  // LISTEN: a reset is ignored; an acknowledgment is answered with <SEQ=SEG.ACK><CTL=RST>;
  // a SYN with <SEQ=ISS><ACK=RCV.NXT><CTL=SYN,ACK>.
  lemma ListenRule(t: Tcb, a: Arrival, env: Env)
    requires t.state == Listen
    ensures var s := a.seg;
            var hears := !s.flags.rst && s.flags.syn;
            Step(t, Arrive(a, env)) ==
            t.(out := t.out + Sent1(Segment(s.ackNo, 0, RST, []), !s.flags.rst && s.flags.ack && env.rstSent)
                            + Sent1(Segment(t.iss, (s.sn + 1) % M32, SYNACK, []), hears && env.ackSent),
               state := if hears && env.ackSent then SynReceived else Listen,
               nxt := if hears && env.ackSent then (t.nxt + 1) % M32 else t.nxt,
               rcvNxt := if hears then (s.sn + 1) % M32 else t.rcvNxt,
               irs := if hears then s.sn else t.irs)
  {
    assert t.out + [] == t.out;
  }

  // SYN_SENT: which acknowledgments are answered with <SEQ=SEG.ACK><CTL=RST>.
  ghost predicate BadAck(t: Tcb, s: Segment) {
    s.flags.ack && !Sncmp(t.iss, Ls, s.ackNo, Le, t.nxt) && !s.flags.rst
  }

  // And which ones count.
  ghost predicate GoodAck(t: Tcb, s: Segment) {
    s.flags.ack && !BadAck(t, s) && Sncmp(t.una, Le, s.ackNo, Le, t.nxt)
  }

  lemma SynSentRule(t: Tcb, a: Arrival, env: Env)
    requires t.state == SynSent && t.txSeg.Some?
    ensures var s, u := a.seg, Step(t, Arrive(a, env));
            if BadAck(t, s) then u == t.(out := t.out + Sent1(Segment(s.ackNo, s.sn, RST, []), env.rstSent))
            else if GoodAck(t, s) && s.flags.rst then u == t.(state := Closed)
            else if GoodAck(t, s) && s.flags.syn then
              var t1 := t.(una := s.ackNo, rcvNxt := (s.sn + 1) % M32, irs := s.sn);
              u == if t.iss < s.ackNo && env.ackSent
                   then t1.(state := Established, txSeg := None, tmr := None,
                            out := t.out + [Segment(s.ackNo, (s.sn + 1) % M32, ACK, [])])
                   else t1
            else u == t
  {
    assert t.out + [] == t.out;
    NoLength(t.nxt);
  }

  lemma NoLength(x: u32)
    ensures Add(x, 0) == x
  {
  }

  // SYN_RECEIVED and ESTABLISHED: a segment that is not acceptable is answered with
  // <SEQ=SND.NXT><ACK=RCV.NXT><CTL=ACK>, unless it is a reset, and changes nothing else. An
  // empty segment against a closed window is dropped.
  lemma RefusalRule(t: Tcb, a: Arrival, env: Env)
    requires t.state in {SynReceived, Established} && !Acceptable(t, a.seg)
    ensures var answers := !a.seg.flags.rst && env.ackSent && !(t.wnd == 0 && SegLen(a.seg) == 0);
            Step(t, Arrive(a, env)) == t.(out := t.out + Sent1(Segment(t.nxt, t.rcvNxt, ACK, []), answers))
  {
    assert t.out + [] == t.out;
    hide Acceptable;
  }

  // SYN_RECEIVED, acceptable: a reset leads a listener back to LISTEN; an acknowledgment in
  // place establishes, another is answered with <SEQ=SEG.ACK><CTL=RST>; a FIN beside an
  // acknowledgment leads to CLOSE_WAIT.
  lemma SynReceivedRule(t: Tcb, a: Arrival, env: Env)
    requires t.state == SynReceived && Acceptable(t, a.seg)
    ensures var s, u := a.seg, Step(t, Arrive(a, env));
            if s.flags.rst then u == t.(state := if t.passive then Listen else Closed)
            else if !s.flags.ack then u == t
            else
              var good := Sncmp(t.una, Le, s.ackNo, Le, t.nxt);
              u == t.(una := if good then s.ackNo else t.una,
                      out := t.out + Sent1(Segment(s.ackNo, 0, RST, []), !good && env.rstSent),
                      state := if s.flags.fin then CloseWait else if good then Established else SynReceived)
  {
    assert t.out + [] == t.out;
    hide Acceptable;
  }

  // ----- ESTABLISHED -----

  // The segment acknowledges everything outstanding, and that is not a FIN.
  ghost predicate AcksAll(t: Tcb, s: Segment) {
    t.txSeg.Some? && !t.txSeg.value.seg.flags.fin && s.ackNo == t.nxt && Sncmp(t.una, Ls, s.ackNo, Le, t.nxt)
  }

  // Then the next chunk takes its place.
  ghost predicate LoadsNext(t: Tcb, s: Segment, env: Env) {
    AcksAll(t, s) && t.txData != [] && env.dataSeg
  }

  // The segment has text or control at rcv.nxt, and there is a buffer for it.
  ghost predicate HasNext(t: Tcb, s: Segment, env: Env) {
    s.sn == t.rcvNxt && SegLen(s) > 0 && env.buf
  }

  ghost predicate Accepted(t: Tcb, s: Segment) {
    Acceptable(t, s) && !s.flags.rst && s.flags.ack
  }

  // What tcp_construct_data puts on the wire.
  function NextChunk(t: Tcb, ackNo: u32): Segment
    requires t.txData != []
  {
    Segment(ackNo, t.rcvNxt, ACK, t.txData[0])
  }

  // The sending side: an acknowledgment of everything outstanding completes it, stops the
  // timer and sends the next chunk with a timer of its own; no other acknowledgment does
  // anything to it.
  lemma AckRule(t: Tcb, a: Arrival, env: Env)
    requires t.state == Established && Accepted(t, a.seg)
    ensures var s, u := a.seg, Step(t, Arrive(a, env));
            && u.txData == (if AcksAll(t, s) && t.txData != [] then t.txData[1..] else t.txData)
            && u.tmr == (if LoadsNext(t, s, env) then Some(3) else if AcksAll(t, s) then None else t.tmr)
            && u.nxt == (if LoadsNext(t, s, env) then (t.nxt + |t.txData[0]|) % M32 else t.nxt)
            && (u.txSeg.Some? <==> if AcksAll(t, s) then LoadsNext(t, s, env) else t.txSeg.Some?)
            && (u.txSeg.Some? ==>
                  var x := if LoadsNext(t, s, env) then TxSegment(NextChunk(t, s.ackNo), NextChunk(t, s.ackNo)) else t.txSeg.value;
                  u.txSeg.value == TxSegment(x.seg.(ackNo := u.txSeg.value.seg.ackNo), x.wire))
            && (!s.flags.fin ==> u.una == if AcksAll(t, s) then s.ackNo else t.una)
            && u.accepted == t.accepted
  {
    var h := if TxIsFin(t) then t else HandleAckOfData(t, a.seg, env);
    AfterAck(t, a.seg, env);
    HandleDataSends(h, a, env);
    HandleFinAckSends(HandleData(h, a, env), a.seg, env);
    TextTimer(h, a, env);
    hide Acceptable, AcksAll, HandleData, HandleFinAck, HandleAckOfData;
  }

  // The connection between the acknowledgment and the text.
  lemma AfterAck(t: Tcb, s: Segment, env: Env)
    ensures var h := if TxIsFin(t) then t else HandleAckOfData(t, s, env);
            && h == t.(una := if AcksAll(t, s) then s.ackNo else t.una, txSeg := h.txSeg, out := h.out,
                       txData := if AcksAll(t, s) && t.txData != [] then t.txData[1..] else t.txData,
                       tmr := if LoadsNext(t, s, env) then Some(3) else if AcksAll(t, s) then None else t.tmr,
                       nxt := if LoadsNext(t, s, env) then (t.nxt + |t.txData[0]|) % M32 else t.nxt)
            && h.txSeg == if LoadsNext(t, s, env) then Some(TxSegment(NextChunk(t, s.ackNo), NextChunk(t, s.ackNo)))
                          else if AcksAll(t, s) then None else t.txSeg
  {
    hide Sncmp;
  }

  lemma TextTimer(h: Tcb, a: Arrival, env: Env)
    ensures HandleData(h, a, env).tmr == h.tmr
  {
  }

  // What goes out: the next chunk, then the acknowledgment of what was queued, if no segment
  // is outstanding that carries it, then the acknowledgment of a FIN.
  lemma OutRule(t: Tcb, a: Arrival, env: Env)
    requires t.state == Established && Accepted(t, a.seg)
    ensures var s, u := a.seg, Step(t, Arrive(a, env));
            var una, nxt := if AcksAll(t, s) then s.ackNo else t.una, u.nxt;
            var n := if HasNext(t, s, env) then (t.rcvNxt + Min(SegLen(s), t.wnd)) % M32 else t.rcvNxt;
            var fin := s.flags.fin && Sncmp(una, Ls, s.ackNo, Le, nxt);
            && u.out == t.out + (if LoadsNext(t, s, env) then Sent1(NextChunk(t, s.ackNo), env.dataSent) else [])
                              + Sent1(Segment(una, n, ACK, []), HasNext(t, s, env) && u.txSeg.None? && env.ackSent)
                              + Sent1(Segment(s.ackNo, (s.sn + 1) % M32, ACK, []), fin && env.finAckSent)
            && u.rcvNxt == (if fin then (s.sn + 1) % M32 else n)
            && u.una == (if fin then s.ackNo else una)
            && u.state == (if s.flags.fin then CloseWait else Established)
  {
    var h := if TxIsFin(t) then t else HandleAckOfData(t, a.seg, env);
    AckOut(t, a.seg, env);
    TextOut(h, a, env);
    var t2 := HandleData(h, a, env);
    FinOut(t2, a.seg, env);
    AckRule(t, a, env);
    hide Acceptable, Sncmp, HandleData, HandleFinAck, HandleAckOfData, Sent1, LoadsNext;
  }

  lemma AckOut(t: Tcb, s: Segment, env: Env)
    ensures var h := if TxIsFin(t) then t else HandleAckOfData(t, s, env);
            && h.out == t.out + (if LoadsNext(t, s, env) then Sent1(NextChunk(t, s.ackNo), env.dataSent) else [])
            && h.una == (if AcksAll(t, s) then s.ackNo else t.una)
            && h.state == t.state && h.rcvNxt == t.rcvNxt && h.wnd == t.wnd
  {
    hide Sncmp;
    assert t.out + [] == t.out;
  }

  lemma TextOut(h: Tcb, a: Arrival, env: Env)
    ensures var u := HandleData(h, a, env);
            var n := if HasNext(h, a.seg, env) then (h.rcvNxt + Min(SegLen(a.seg), h.wnd)) % M32 else h.rcvNxt;
            && u.out == h.out + Sent1(Segment(h.una, n, ACK, []), HasNext(h, a.seg, env) && h.txSeg.None? && env.ackSent)
            && u.rcvNxt == n && u.nxt == h.nxt && u.una == h.una && u.state == h.state && u.txSeg.Some? == h.txSeg.Some?
  {
    assert h.out + [] == h.out;
    NoLength(h.nxt);
  }

  lemma FinOut(t: Tcb, s: Segment, env: Env)
    ensures var fin := Sncmp(t.una, Ls, s.ackNo, Le, t.nxt);
            HandleFinAck(t, s, env) ==
            t.(una := if fin then s.ackNo else t.una, rcvNxt := if fin then (s.sn + 1) % M32 else t.rcvNxt,
               out := t.out + Sent1(Segment(s.ackNo, (s.sn + 1) % M32, ACK, []), fin && env.finAckSent))
  {
    assert t.out + [] == t.out;
    NoLength(t.nxt);
  }

  // The text, and what follows it in memory as far as SYN and FIN count as octets, is queued
  // for the user as one chunk, no longer than the window. Nothing else queues anything.
  lemma TextRule(t: Tcb, a: Arrival, env: Env)
    requires t.state == Established && Accepted(t, a.seg)
    ensures var u := Step(t, Arrive(a, env));
            var b := (a.seg.payload + [a.b0, a.b1])[..Min(SegLen(a.seg), t.wnd)];
            if HasNext(t, a.seg, env)
            then u.enqueued == t.enqueued + b && u.rxData == t.rxData + [RxNode.RxChunk(b, 0)]
            else u.enqueued == t.enqueued && u.rxData == t.rxData
  {
    var h := if TxIsFin(t) then t else HandleAckOfData(t, a.seg, env);
    AfterAck(t, a.seg, env);
    HandleFinAckSends(HandleData(h, a, env), a.seg, env);
    hide Acceptable, AcksAll, LoadsNext, HandleFinAck, HandleAckOfData;
  }

  // A reset, or a segment without acknowledgment, changes nothing.
  lemma DroppedRule(t: Tcb, a: Arrival, env: Env)
    requires t.state == Established && Acceptable(t, a.seg) && (a.seg.flags.rst || !a.seg.flags.ack)
    ensures Step(t, Arrive(a, env)) == t
  {
    hide Acceptable;
  }

  // ----- closing -----

  function FinSegment(t: Tcb): Segment {
    Segment(t.una, t.rcvNxt, FINACK, [])
  }

  // With nothing queued and nothing outstanding the FIN is packed, at snd.una, and its timer
  // sends it after a second.
  ghost predicate BuildsFin(t: Tcb, u: Tcb, env: Env) {
    if t.txData == [] && t.txSeg.None? && env.finSeg
    then u == t.(txSeg := Some(TxSegment(FinSegment(t), FinSegment(t))), tmr := Some(1), nxt := (t.nxt + 1) % M32)
    else u == t
  }

  lemma CloseRule(t: Tcb, env: Env)
    ensures var u := Step(t, Close(env));
            match t.state
            case Established => u.state == FinWait1 && BuildsFin(t.(state := FinWait1), u, env)
            case CloseWait => u.state == LastAck && BuildsFin(t.(state := LastAck), u, env)
            case _ => u == t
  {
  }

  // FIN_WAIT_1 and LAST_ACK with the FIN outstanding: its acknowledgment, and nothing else,
  // completes it and leads to FIN_WAIT_2 and CLOSED.
  lemma FinAckedIff(t: Tcb, e: Event)
    requires t.state in {FinWait1, LastAck} && TxIsFin(t)
    ensures var u, next := Step(t, e), if t.state == FinWait1 then FinWait2 else Closed;
            var acks := e.Arrive? && e.a.seg.flags.ack && e.a.seg.ackNo == (t.txSeg.value.seg.sn + 1) % M32;
            && (u.state == next <==> acks)
            && (acks ==> u == t.(state := next, txSeg := None, tmr := None))
            && (e.Arrive? && !acks ==> u == t)
  {
  }

  // Before the FIN is built: an acknowledgment of everything outstanding sends the next
  // chunk or, after the last, builds the FIN. Text that arrives is not looked at.
  lemma ClosingRule(t: Tcb, a: Arrival, env: Env)
    requires t.state in {FinWait1, LastAck} && !TxIsFin(t)
    ensures var s, u := a.seg, Step(t, Arrive(a, env));
            var acks := s.flags.ack && AcksAll(t, s);
            if !acks then BuildsFin(t, u, env)
            else if LoadsNext(t, s, env) then
              u == t.(una := s.ackNo, txSeg := Some(TxSegment(NextChunk(t, s.ackNo), NextChunk(t, s.ackNo))), tmr := Some(3),
                      txData := t.txData[1..], nxt := (t.nxt + |t.txData[0]|) % M32,
                      out := t.out + Sent1(NextChunk(t, s.ackNo), env.dataSent))
            else
              BuildsFin(t.(una := s.ackNo, txSeg := None, tmr := None, txData := if t.txData == [] then [] else t.txData[1..]),
                        u, env)
  {
    hide Sncmp;
    assert t.out + [] == t.out;
  }

  // FIN_WAIT_2: a FIN,ACK starts the two minutes of TIME_WAIT and is answered with
  // <ACK=SEG.SEQ+1> where its acknowledgment counts.
  lemma FinWait2Rule(t: Tcb, a: Arrival, env: Env)
    requires t.state == FinWait2
    ensures var s := a.seg;
            var fin := s.flags.ack && s.flags.fin;
            var good := fin && Sncmp(t.una, Ls, s.ackNo, Le, t.nxt);
            Step(t, Arrive(a, env)) ==
            t.(state := if fin then TimeWait else FinWait2, tmr := if fin then Some(t.timeWaitSeconds) else t.tmr,
               una := if good then s.ackNo else t.una, rcvNxt := if good then (s.sn + 1) % M32 else t.rcvNxt,
               out := t.out + Sent1(Segment(s.ackNo, (s.sn + 1) % M32, ACK, []), good && env.finAckSent))
  {
    FinOut(t.(state := TimeWait, tmr := Some(t.timeWaitSeconds)), a.seg, env);
    assert t.out + [] == t.out;
    hide HandleFinAck, Sncmp;
  }

  // TIME_WAIT and CLOSE_WAIT: such an answer, and nothing else. CLOSING and CLOSED: nothing.
  lemma WaitingRule(t: Tcb, a: Arrival, env: Env)
    requires t.state in {TimeWait, CloseWait, Closing, Closed}
    ensures var s := a.seg;
            var good := t.state in {TimeWait, CloseWait} && s.flags.ack && s.flags.fin && Sncmp(t.una, Ls, s.ackNo, Le, t.nxt);
            Step(t, Arrive(a, env)) ==
            t.(una := if good then s.ackNo else t.una, rcvNxt := if good then (s.sn + 1) % M32 else t.rcvNxt,
               out := t.out + Sent1(Segment(s.ackNo, (s.sn + 1) % M32, ACK, []), good && env.finAckSent))
  {
    FinOut(t, a.seg, env);
    assert t.out + [] == t.out;
    hide HandleFinAck, Sncmp;
  }

  // ----- the timer and the user -----

  // The timer expires: the states of timeout_event_process with something to send again put
  // its packed image on the wire and wait five seconds; TIME_WAIT ends; in every other state
  // nothing is sent and the timer stays stopped.
  lemma TimerRule(t: Tcb, env: Env)
    requires t.tmr.Some?
    ensures var u := Step(t, Timeout(env));
            if t.state in {SynSent, Established, FinWait1, LastAck} then
              && u.tmr == Some(5)
              && (if t.txSeg.Some? then u == t.(tmr := Some(5), out := t.out + Sent1(t.txSeg.value.wire, env.dataSent))
                  else u == t.(tmr := Some(5)))
            else u == t.(tmr := None, state := if t.state == TimeWait then Closed else t.state)
  {
    assert t.out + [] == t.out;
  }

  lemma StoppedRule(t: Tcb, env: Env)
    requires t.tmr.None?
    ensures Step(t, Timeout(env)) == t
  {
  }

  // tcp_send: the first size % 65536 bytes, in order, behind what is queued; on an idle
  // connection the head of the queue goes out at once. In other states nothing happens.
  lemma SendRule(t: Tcb, data: seq<byte>, env: Env)
    ensures var u := Step(t, Send(data, env));
            var made := if env.buf then [data[..|data| % M16]] else [];
            var q := t.txData + made;
            if t.state != Established then u == t
            else
              && u.accepted == t.accepted + Flatten(made)
              && if t.txSeg.Some? || q == [] then u == t.(txData := q, accepted := u.accepted)
                 else if !env.dataSeg then u == t.(txData := q[1..], accepted := u.accepted)
                 else
                   var s := Segment(t.una, t.rcvNxt, ACK, q[0]);
                   u == t.(txData := q[1..], accepted := u.accepted, txSeg := Some(TxSegment(s, s)), tmr := Some(3),
                           nxt := (t.nxt + |q[0]|) % M32, out := t.out + Sent1(s, env.dataSent))
  {
    assert t.txData + [] == t.txData && t.out + [] == t.out && t.accepted + [] == t.accepted;
    FlattenSingle(data[..|data| % M16]);
  }

  // tcp_recv touches the receive queue only, and only in ESTABLISHED.
  lemma RecvRule(t: Tcb, size: nat)
    ensures var u := Step(t, Recv(size));
            u == t.(rxData := u.rxData) && (t.state != Established ==> u == t)
  {
  }
}
