// What a connection keeps over every run, whatever its peer sends.
module TcpSender {
  import opened Bytes
  import opened SeqNum
  import opened TcpSpec

  // ----- stop and wait -----

  // Nothing is outstanding, or exactly the one segment that starts at snd.una is.
  ghost predicate StopAndWait(t: Tcb) {
    match t.txSeg
    case None => t.una == t.nxt
    case Some(x) => x.seg.sn == t.una && t.nxt == Add(t.una, SegLen(x.seg))
  }

  // The wire image of the outstanding segment is the segment, up to the acknowledgment
  // number, which tcp_handle_data updates in the fields only.
  ghost predicate WireAgrees(t: Tcb) {
    t.txSeg.Some? ==> t.txSeg.value.wire == t.txSeg.value.seg.(ackNo := t.txSeg.value.wire.ackNo)
  }

  ghost predicate OneOutstanding(t: Tcb) {
    && WireAgrees(t)
    && match t.state
       case Listen => t.una == t.nxt == t.iss && t.txSeg.None?
       case SynSent => t.nxt == Add(t.iss, 1) && (t.iss != M32 - 1 ==> t.una == t.iss || t.una == t.nxt)
                       && t.txSeg.Some? && t.txSeg.value.seg.flags == SYN && SegLen(t.txSeg.value.seg) == 1
                       && t.txSeg.value.seg.sn == t.iss
       case SynReceived => t.una == t.iss && t.nxt == Add(t.iss, 1) && t.txSeg.None?
       case Established => StopAndWait(t) && !TxIsFin(t)
       case FinWait1 => StopAndWait(t)
       case CloseWait => (t.txSeg.None? ==> t.una == t.nxt) && !TxIsFin(t)
       case LastAck => (t.txSeg.None? || TxIsFin(t)) ==> StopAndWait(t)
       case FinWait2 => t.txSeg.None?
       case TimeWait => t.txSeg.None?
       case Closing => false
       case Closed => true
  }

  // What a passive open needs of its peer: an acceptable segment that arrives in
  // SYN_RECEIVED does not reset, and its acknowledgment, if any, either covers exactly the
  // SYN or is refused and comes without FIN. Any event is allowed in other states.
  ghost predicate Polite(t: Tcb, e: Event) {
    t.state == SynReceived && e.Arrive? && Acceptable(t, e.a.seg) ==>
      var s := e.a.seg;
      && (s.flags.rst ==> !t.passive)
      && (!s.flags.rst && s.flags.ack ==>
            if Sncmp(t.una, Le, s.ackNo, Le, t.nxt) then s.ackNo == t.nxt else !s.flags.fin)
  }

  ghost predicate PoliteRun(t: Tcb, es: seq<Event>) {
    es == [] || (PoliteRun(t, es[..|es| - 1]) && Polite(Run(t, es[..|es| - 1]), es[|es| - 1]))
  }

  lemma OneOutstandingData(t: Tcb, s: Segment, env: Env)
    requires WireAgrees(t) && (t.txSeg.None? ==> t.una == t.nxt) && !TxIsFin(t)
    ensures var u := HandleAckOfData(t, s, env);
            && WireAgrees(u) && !TxIsFin(u) && (u.txSeg.None? ==> u.una == u.nxt)
            && (StopAndWait(t) ==> StopAndWait(u)) && u.state == t.state
            && StopAndWait(ConstructData(t, env)) == StopAndWait(t)
  {
  }

  lemma OneOutstandingStep(t: Tcb, e: Event)
    requires OneOutstanding(t) && Polite(t, e)
    ensures OneOutstanding(Step(t, e))
  {
    match e
    case Arrive(a, env) => OneOutstandingReceived(t, a, env);
    case Timeout(env) => OneOutstandingTimeout(t, env);
    case Close(env) => OneOutstandingClose(t, env);
    case Send(data, env) => OneOutstandingSend(t, data, env);
    case Recv(size) =>
  }

  // Whatever arrives and whatever the user does, exactly the impolite segments break it.
  lemma OneOutstandingIff(t: Tcb, e: Event)
    requires OneOutstanding(t)
    ensures OneOutstanding(Step(t, e)) <==> Polite(t, e)
  {
    if t.state == SynReceived && e.Arrive? {
      OneOutstandingSynReceived(t, e.a.seg, e.env);
    } else {
      OneOutstandingStep(t, e);
    }
  }

  lemma OneOutstandingTimeout(t: Tcb, env: Env)
    requires OneOutstanding(t)
    ensures OneOutstanding(TimedOut(t, env))
  {
  }

  lemma OneOutstandingClose(t: Tcb, env: Env)
    requires OneOutstanding(t)
    ensures OneOutstanding(ClosedByUser(t, env))
  {
  }

  lemma OneOutstandingSend(t: Tcb, data: seq<byte>, env: Env)
    requires OneOutstanding(t)
    ensures OneOutstanding(Sent(t, data, env))
  {
  }

  lemma EstablishedIs(t: Tcb, a: Arrival, env: Env)
    ensures t.state == Established ==> Received(t, a, env) == ReceivedWhenEstablished(t, a, env)
  {
  }

  lemma OneOutstandingReceived(t: Tcb, a: Arrival, env: Env)
    requires OneOutstanding(t) && Polite(t, Arrive(a, env))
    ensures OneOutstanding(Received(t, a, env))
  {
    match t.state
    case Listen =>
    case SynSent => OneOutstandingSynSent(t, a.seg, env);
    case SynReceived => OneOutstandingSynReceived(t, a.seg, env);
    case Established => OneOutstandingEstablished(t, a, env);
    case FinWait1 => OneOutstandingClosing(t, a.seg, FinWait2, env);
    case LastAck => OneOutstandingClosing(t, a.seg, Closed, env);
    case _ =>
  }

  lemma OneOutstandingSynSent(t: Tcb, s: Segment, env: Env)
    requires t.state == SynSent && OneOutstanding(t)
    ensures OneOutstanding(ReceivedWhenSynSent(t, s, env))
  {
    var c := SynSentSends(t, s, env);
    hide ReceivedWhenSynSent;
  }

  lemma OneOutstandingSynReceived(t: Tcb, s: Segment, env: Env)
    requires t.state == SynReceived && OneOutstanding(t)
    ensures OneOutstanding(ReceivedWhenSynReceived(t, s, env)) <==> Polite(t, Arrive(Arrival(s, 0, 0), env))
  {
  }

  lemma OneOutstandingEstablished(t: Tcb, a: Arrival, env: Env)
    requires t.state == Established && OneOutstanding(t)
    ensures OneOutstanding(ReceivedWhenEstablished(t, a, env))
  {
    hide HandleAckOfData, HandleData, HandleFinAck, Acceptable;
    OneOutstandingData(t, a.seg, env);
    var t1 := HandleAckOfData(t, a.seg, env);
    HandleDataSends(t1, a, env);
    var t2 := HandleData(t1, a, env);
    HandleFinAckSends(t2, a.seg, env);
  }

  // Receiving data leaves the sending side alone, except for the acknowledgment number in
  // the outstanding segment's fields and an acknowledgment put on the wire.
  lemma HandleDataSends(t: Tcb, a: Arrival, env: Env)
    ensures var u := HandleData(t, a, env);
            && u.una == t.una && u.nxt == t.nxt && u.iss == t.iss && u.state == t.state
            && u.txData == t.txData && u.accepted == t.accepted
            && (t.txSeg.None? ==> u.txSeg.None?)
            && (t.txSeg.Some? ==>
                  && u.txSeg.Some? && u.txSeg.value.wire == t.txSeg.value.wire
                  && u.txSeg.value.seg == t.txSeg.value.seg.(ackNo := u.txSeg.value.seg.ackNo))
            && (u.out == t.out || u.out == t.out + [CtrlSegment(t.una, u.rcvNxt, ACK)])
  {
  }

  // A FIN,ACK moves snd.una only inside the accepted interval, hence never when nothing is
  // outstanding, and at most sends one acknowledgment.
  lemma HandleFinAckSends(t: Tcb, s: Segment, env: Env)
    ensures var u := HandleFinAck(t, s, env);
            && u == t.(una := u.una, rcvNxt := u.rcvNxt, out := u.out)
            && (t.una == t.nxt ==> u == t)
            && (u.out == t.out || u.out == t.out + [CtrlSegment(u.una, u.rcvNxt, ACK)])
  {
  }

  lemma OneOutstandingClosing(t: Tcb, s: Segment, next: State, env: Env)
    requires (t.state == FinWait1 && next == FinWait2) || (t.state == LastAck && next == Closed)
    requires OneOutstanding(t)
    ensures OneOutstanding(ReceivedWhenClosing(t, Some(s), next, env))
  {
    if !TxIsFin(t) {
      OneOutstandingData(t, s, env);
    }
  }

  lemma {:induction false} OneOutstandingRun(t: Tcb, es: seq<Event>)
    requires OneOutstanding(t) && PoliteRun(t, es)
    ensures OneOutstanding(Run(t, es))
  {
    if es != [] {
      OneOutstandingRun(t, es[..|es| - 1]);
      OneOutstandingStep(Run(t, es[..|es| - 1]), es[|es| - 1]);
    }
  }

  // ----- what goes on the wire -----

  // How many accepted bytes have left the queue.
  function Transmitted(t: Tcb): int {
    |t.accepted| - |Flatten(t.txData)|
  }

  // s carries the accepted bytes from offset o on, and its sequence number says so.
  ghost predicate SliceAt(s: Segment, iss: u32, accepted: seq<byte>, o: nat) {
    && o + |s.payload| <= |accepted|
    && s.sn == Add(iss, 1 + o)
    && s.payload == accepted[o..o + |s.payload|]
  }

  // Everything a connection puts on the wire sits at its place in sequence space: SYN
  // first, then the accepted bytes, then FIN.
  ghost predicate InPlace(s: Segment, iss: u32, accepted: seq<byte>) {
    && (s.flags.syn ==> s.sn == iss && s.payload == [])
    && (s.flags.fin ==> s.sn == Add(iss, 1 + |accepted|) && s.payload == [])
    && (s.payload != [] ==> exists o: nat :: SliceAt(s, iss, accepted, o))
  }

  ghost predicate OutInPlace(t: Tcb) {
    forall s :: s in t.out ==> InPlace(s, t.iss, t.accepted)
  }

  ghost predicate NoFin(out: seq<Segment>) {
    forall s :: s in out ==> !s.flags.fin
  }

  // Data phase: the queue is the untransmitted tail of what was accepted, and snd.nxt
  // and the outstanding segment count the rest.
  ghost predicate Data(t: Tcb) {
    && !TxIsFin(t) && NoFin(t.out)
    && 0 <= Transmitted(t) && t.accepted[Transmitted(t)..] == Flatten(t.txData)
    && t.nxt == Add(t.iss, 1 + Transmitted(t))
    && (t.txSeg.Some? ==>
          var w := t.txSeg.value.wire;
          w.flags == ACK && |w.payload| <= Transmitted(t) && SliceAt(w, t.iss, t.accepted, Transmitted(t) - |w.payload|))
  }

  // The FIN has been built: nothing is queued and its number is one past the last byte.
  ghost predicate FinBuilt(t: Tcb) {
    && t.txData == [] && t.nxt == Add(t.iss, 2 + |t.accepted|)
    && (t.txSeg.Some? ==>
          t.txSeg.value.wire.flags == FINACK && t.txSeg.value.wire.payload == []
          && t.txSeg.value.wire.sn == Add(t.iss, 1 + |t.accepted|))
  }

  ghost predicate Stream(t: Tcb) {
    && OutInPlace(t)
    && match t.state
       case Listen => t.accepted == [] && t.txData == [] && NoFin(t.out)
       case SynSent => t.accepted == [] && t.txData == [] && NoFin(t.out)
       case SynReceived => t.accepted == [] && t.txData == [] && NoFin(t.out)
       case Established => Data(t)
       case CloseWait => Data(t)
       case FinWait1 => if TxIsFin(t) then FinBuilt(t) else Data(t)
       case LastAck => if TxIsFin(t) then FinBuilt(t) else Data(t)
       case FinWait2 => FinBuilt(t)
       case TimeWait => FinBuilt(t)
       case _ => true
  }

  ghost predicate EventEnv(e: Event) {
    e.Recv? || e.env.dataSeg
  }

  // Segments for queued data are always allocated: otherwise the dequeued bytes are lost.
  ghost predicate Lossless(es: seq<Event>) {
    forall e :: e in es ==> EventEnv(e)
  }

  lemma InPlaceGrows(s: Segment, iss: u32, a: seq<byte>, b: seq<byte>)
    requires InPlace(s, iss, a) && !s.flags.fin
    ensures InPlace(s, iss, a + b)
  {
    if s.payload != [] {
      var o: nat :| SliceAt(s, iss, a, o);
      assert SliceAt(s, iss, a + b, o);
    }
  }

  lemma DataConstruct(t: Tcb, env: Env)
    requires Data(t) && OutInPlace(t) && WireAgrees(t) && (t.txSeg.None? ==> t.una == t.nxt) && env.dataSeg
    ensures Data(ConstructData(t, env)) && OutInPlace(ConstructData(t, env))
  {
    if t.txSeg.None? && t.txData != [] {
      var o := Transmitted(t);
      var s := Segment(t.una, t.rcvNxt, ACK, t.txData[0]);
      assert Flatten(t.txData) == t.txData[0] + Flatten(t.txData[1..]);
      var u := ConstructData(t, env);
      assert Transmitted(u) == o + |s.payload|;
      AddAdd(t.iss, 1 + o, |s.payload|);
      SliceTake(t.accepted, o, |s.payload|, |s.payload|);
      assert SliceAt(s, t.iss, t.accepted, o);
    }
  }

  lemma DataAck(t: Tcb, s: Segment, env: Env)
    requires Data(t) && OutInPlace(t) && WireAgrees(t) && (t.txSeg.None? ==> t.una == t.nxt) && env.dataSeg
    ensures Data(HandleAckOfData(t, s, env)) && OutInPlace(HandleAckOfData(t, s, env))
  {
    if HandleAckOfData(t, s, env) != t {
      DataConstruct(TxComplete(t.(una := s.ackNo)), env);
    }
  }

  lemma DataFin(t: Tcb, env: Env)
    requires Data(t) && OutInPlace(t) && WireAgrees(t) && (t.txSeg.None? ==> t.una == t.nxt)
    ensures var u := ConstructFin(t, env);
            OutInPlace(u) && if TxIsFin(u) then FinBuilt(u) else Data(u)
  {
    if TxIsFin(ConstructFin(t, env)) {
      AddAdd(t.iss, 1 + |t.accepted|, 1);
    }
  }

  lemma StreamStep(t: Tcb, e: Event)
    requires OneOutstanding(t) && Stream(t) && Polite(t, e) && EventEnv(e)
    ensures Stream(Step(t, e))
  {
    match e
    case Arrive(a, env) => StreamReceived(t, a, env);
    case Timeout(env) => StreamTimeout(t, env);
    case Close(env) => StreamClose(t, env);
    case Send(data, env) => StreamSend(t, data, env);
    case Recv(size) =>
  }

  lemma StreamClose(t: Tcb, env: Env)
    requires OneOutstanding(t) && Stream(t)
    ensures Stream(ClosedByUser(t, env))
  {
    if t.state == Established || t.state == CloseWait {
      DataFin(t, env);
    }
  }

  lemma StreamTimeout(t: Tcb, env: Env)
    requires OneOutstanding(t) && Stream(t)
    ensures Stream(TimedOut(t, env))
  {
    if t.txSeg.Some? && t.state in {SynSent, Established, FinWait1, LastAck} {
      StreamResent(t, TimedOut(t, env), t.txSeg.value.wire);
    }
  }

  lemma StreamResent(t: Tcb, u: Tcb, w: Segment)
    requires OneOutstanding(t) && Stream(t)
    requires t.txSeg.Some? && w == t.txSeg.value.wire && t.state in {SynSent, Established, FinWait1, LastAck}
    requires u == t.(tmr := u.tmr, out := u.out) && (u.out == t.out || u.out == t.out + [w])
    ensures Stream(u)
  {
    assert InPlace(w, t.iss, t.accepted);
    assert OutInPlace(u);
  }

  lemma StreamSend(t: Tcb, data: seq<byte>, env: Env)
    requires OneOutstanding(t) && Stream(t) && env.dataSeg
    ensures Stream(Sent(t, data, env))
  {
    if t.state == Established {
      var q := Queued(data);
      var u := if env.buf then t.(txData := t.txData + [q], accepted := t.accepted + q) else t;
      if env.buf {
        DataAccept(t, u, q);
      }
      DataConstruct(u, env);
    }
  }

  lemma DataAccept(t: Tcb, u: Tcb, q: seq<byte>)
    requires Data(t) && OutInPlace(t)
    requires u == t.(txData := t.txData + [q], accepted := t.accepted + q)
    ensures Data(u) && OutInPlace(u)
  {
    FlattenAppend(t.txData, [q]);
    FlattenSingle(q);
    forall s | s in t.out ensures InPlace(s, t.iss, u.accepted) {
      InPlaceGrows(s, t.iss, t.accepted, q);
    }
    assert Transmitted(u) == Transmitted(t);
    DropAppend(t.accepted, q, Transmitted(t));
  }

  lemma StreamReceived(t: Tcb, a: Arrival, env: Env)
    requires OneOutstanding(t) && Stream(t) && Polite(t, Arrive(a, env)) && env.dataSeg
    ensures Stream(Received(t, a, env))
  {
    match t.state
    case Listen => StreamListen(t, a.seg, env);
    case SynSent => StreamSynSent(t, a.seg, env);
    case SynReceived => StreamSynReceived(t, a.seg, env);
    case Established => StreamEstablished(t, a, env);
    case FinWait1 => StreamClosing(t, a.seg, FinWait2, env);
    case LastAck => StreamClosing(t, a.seg, Closed, env);
    case FinWait2 => HandleFinAckSends(t.(state := TimeWait, tmr := Some(t.timeWaitSeconds)), a.seg, env);
    case TimeWait => HandleFinAckSends(t, a.seg, env);
    case CloseWait => HandleFinAckSends(t, a.seg, env);
    case _ =>
  }

  lemma StreamListen(t: Tcb, s: Segment, env: Env)
    requires t.state == Listen && OneOutstanding(t) && Stream(t)
    ensures Stream(ReceivedWhenListen(t, s, env))
  {
  }

  lemma StreamSynSent(t: Tcb, s: Segment, env: Env)
    requires t.state == SynSent && OneOutstanding(t) && Stream(t)
    ensures Stream(ReceivedWhenSynSent(t, s, env))
  {
    var u := ReceivedWhenSynSent(t, s, env);
    var c := SynSentSends(t, s, env);
    assert OutInPlace(u) && NoFin(u.out);
    assert u.state == Established ==> Transmitted(u) == 0;
  }

  lemma SynSentSends(t: Tcb, s: Segment, env: Env) returns (c: Segment)
    requires t.state == SynSent
    ensures var u := ReceivedWhenSynSent(t, s, env);
            && u == t.(una := u.una, rcvNxt := u.rcvNxt, irs := u.irs, state := u.state, out := u.out, txSeg := u.txSeg, tmr := u.tmr)
            && u.state in {SynSent, Closed, Established}
            && (u.state == Established ==> u.txSeg.None? && u.una == s.ackNo > t.iss)
            && (u.state == SynSent ==> u.txSeg == t.txSeg)
            && (u.una != t.una ==> u.una == s.ackNo)
            && (u.una != t.una || u.state == Established ==> Sncmp(t.iss, Ls, s.ackNo, Le, t.nxt))
            && !c.flags.syn && !c.flags.fin && c.payload == [] && (u.out == t.out || u.out == t.out + [c])
  {
    c := if !Sncmp(t.iss, Ls, s.ackNo, Le, t.nxt) && !s.flags.rst then CtrlSegment(s.ackNo, s.sn, RST)
         else CtrlSegment(s.ackNo, Add(s.sn, 1), ACK);
  }

  lemma StreamSynReceived(t: Tcb, s: Segment, env: Env)
    requires t.state == SynReceived && OneOutstanding(t) && Stream(t)
    ensures Stream(ReceivedWhenSynReceived(t, s, env))
  {
    var u := ReceivedWhenSynReceived(t, s, env);
    var c := SynReceivedSends(t, s, env);
    assert Transmitted(u) == 0;
  }

  lemma SynReceivedSends(t: Tcb, s: Segment, env: Env) returns (c: Segment)
    requires t.state == SynReceived
    ensures var u := ReceivedWhenSynReceived(t, s, env);
            && u == t.(una := u.una, state := u.state, out := u.out)
            && u.state in {SynReceived, Listen, Closed, Established, CloseWait}
            && !c.flags.syn && !c.flags.fin && c.payload == [] && (u.out == t.out || u.out == t.out + [c])
  {
    c := if Acceptable(t, s) then CtrlSegment(s.ackNo, 0, RST) else CtrlSegment(t.nxt, t.rcvNxt, ACK);
  }

  // Anything that only moves snd.una, the receiving side and the acknowledgment fields,
  // and puts at most one bare acknowledgment on the wire, keeps the data phase.
  lemma DataKept(t: Tcb, u: Tcb, c: Segment)
    requires Data(t) && OutInPlace(t)
    requires u.nxt == t.nxt && u.iss == t.iss && u.txData == t.txData && u.accepted == t.accepted
    requires t.txSeg.None? ==> u.txSeg.None?
    requires t.txSeg.Some? ==> u.txSeg.Some? && u.txSeg.value.wire == t.txSeg.value.wire && !TxIsFin(u)
    requires c.flags == ACK && c.payload == [] && (u.out == t.out || u.out == t.out + [c])
    ensures Data(u) && OutInPlace(u)
  {
  }

  lemma DataHandleData(t: Tcb, a: Arrival, env: Env)
    requires Data(t) && OutInPlace(t)
    ensures Data(HandleData(t, a, env)) && OutInPlace(HandleData(t, a, env))
  {
    HandleDataSends(t, a, env);
    var u := HandleData(t, a, env);
    DataKept(t, u, CtrlSegment(t.una, u.rcvNxt, ACK));
  }

  lemma DataFinAck(t: Tcb, s: Segment, env: Env)
    requires Data(t) && OutInPlace(t)
    ensures var u := HandleFinAck(t, s, env).(state := CloseWait);
            Data(u) && OutInPlace(u)
  {
    HandleFinAckSends(t, s, env);
    var u := HandleFinAck(t, s, env);
    DataKept(t, u.(state := CloseWait), CtrlSegment(u.una, u.rcvNxt, ACK));
  }

  lemma DataRefused(t: Tcb, s: Segment, env: Env)
    requires Data(t) && OutInPlace(t)
    ensures Data(Refuse(t, s, env)) && OutInPlace(Refuse(t, s, env))
  {
    DataKept(t, Refuse(t, s, env), CtrlSegment(t.nxt, t.rcvNxt, ACK));
  }

  lemma StreamEstablished(t: Tcb, a: Arrival, env: Env)
    requires t.state == Established && OneOutstanding(t) && Stream(t) && env.dataSeg
    ensures Stream(ReceivedWhenEstablished(t, a, env))
  {
    if !Acceptable(t, a.seg) {
      DataRefused(t, a.seg, env);
    } else if !a.seg.flags.rst && a.seg.flags.ack {
      StreamAccepted(t, a, env);
    }
  }

  lemma StreamAccepted(t: Tcb, a: Arrival, env: Env)
    requires t.state == Established && OneOutstanding(t) && Stream(t) && env.dataSeg
    ensures Stream(AcceptedWhenEstablished(t, a, env))
  {
    DataAck(t, a.seg, env);
    var t1 := HandleAckOfData(t, a.seg, env);
    DataHandleData(t1, a, env);
    HandleDataSends(t1, a, env);
    var t2 := HandleData(t1, a, env);
    DataFinAck(t2, a.seg, env);
    StreamAcceptedEnds(t2, a.seg, env);
  }

  lemma StreamAcceptedEnds(t2: Tcb, s: Segment, env: Env)
    requires t2.state == Established && Data(t2) && OutInPlace(t2)
    ensures Stream(if s.flags.fin then HandleFinAck(t2, s, env).(state := CloseWait) else t2)
  {
    DataFinAck(t2, s, env);
  }

  lemma StreamClosing(t: Tcb, s: Segment, next: State, env: Env)
    requires (t.state == FinWait1 && next == FinWait2) || (t.state == LastAck && next == Closed)
    requires OneOutstanding(t) && Stream(t) && env.dataSeg
    ensures Stream(ReceivedWhenClosing(t, Some(s), next, env))
  {
    if !TxIsFin(t) {
      OneOutstandingData(t, s, env);
      DataAck(t, s, env);
      DataFin(HandleAckOfData(t, s, env), env);
      DataFin(t, env);
    }
  }

  lemma {:induction false} StreamRun(t: Tcb, es: seq<Event>)
    requires OneOutstanding(t) && Stream(t) && PoliteRun(t, es) && Lossless(es)
    ensures Stream(Run(t, es))
  {
    if es != [] {
      StreamRun(t, es[..|es| - 1]);
      OneOutstandingRun(t, es[..|es| - 1]);
      StreamStep(Run(t, es[..|es| - 1]), es[|es| - 1]);
    }
  }
}
