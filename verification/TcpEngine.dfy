// The TCP connection object: the handlers of dts_net_tcp.c, updating it in place.
module TcpEngine {
  import opened Bytes
  import opened SeqNum
  import opened TcpSpec
  import opened TcpSender
  import opened TcpRuns
  import opened TcpReceive
  import opened TcpRules
  import TcpWorld

  class Tcp {
    const passive: bool
    var state: State
    var rxSegs: seq<Arrival>
    var txData: seq<seq<byte>>
    var rxData: seq<RxChunk>
    var txSeg: Option<TxSegment>
    var una: u32
    var nxt: u32
    var iss: u32
    var rcvNxt: u32
    var irs: u32
    var wnd: u16
    var tmr: Option<nat>
    var timeWaitSeconds: nat

    // The trace of the connection, and how it was opened and what happened since.
    ghost var out: seq<Segment>
    ghost var accepted: seq<byte>
    ghost var enqueued: seq<byte>
    ghost const isn: u32
    ghost const env0: Env
    ghost var history: seq<Event>

    ghost function View(): Tcb
      reads this
    {
      Tcb(state, passive, una, nxt, iss, rcvNxt, irs, wnd, txSeg, txData, rxData, tmr, timeWaitSeconds,
          out, accepted, enqueued)
    }

    // The object is where the run of its history leads; the segment queue is empty between
    // events, except in the states that have no handler to empty it.
    ghost predicate Valid()
      reads this
    {
      && View() == Run(Opened(passive, isn, env0), history)
      && (rxSegs != [] ==> state in {Closed, Closing})
    }

    // tcp_open and open_when_closed
    constructor (passive: bool, isn: u32, env: Env)
      ensures Valid() && history == []
      ensures View() == Opened(passive, isn, env) && this.passive == passive && this.isn == isn
    {
      this.passive := passive;
      this.isn := isn;
      env0 := env;
      wnd := 1500;
      state := Closed;
      rxSegs, txData, rxData, tmr := [], [], [], None;
      txSeg := None;
      rcvNxt, irs := 0, 0;
      out, accepted, enqueued, history := [], [], [], [];
      una, nxt, iss := 0, 0, 0;
      timeWaitSeconds := 0;
      new;
      OpenFromClosed(isn, env);
      assert Run(Opened(passive, isn, env), []) == Opened(passive, isn, env);
    }

    method OpenFromClosed(isn: u32, env: Env)
      modifies this`una, this`iss, this`nxt, this`timeWaitSeconds, this`state, this`txSeg, this`out, this`tmr
      ensures View() == OpenWhenClosed(old(View()), isn, env)
    {
      una, iss := isn, isn;
      nxt := iss;
      timeWaitSeconds := 120;
      if passive {
        state := Listen;
      } else {
        var s := Segment(una, 0, SYN, []);
        txSeg := Some(TxSegment(s, s));
        nxt := Add(nxt, SegLen(s));
        TcpRetransmit(env);
        state := SynSent;
      }
    }

    // ----- sending -----

    method TcpIpSend(s: Segment, sent: bool) returns (ok: bool)
      modifies this`out
      ensures ok == sent && View() == Emit(old(View()), s, sent)
    {
      ok := sent;
      if ok {
        out := out + [s];
      }
    }

    method TcpSendCtrlSeg(sn: u32, ackNo: u32, flags: Flags, sent: bool) returns (ok: bool)
      modifies this`out, this`nxt
      ensures ok == sent && View() == SendCtrl(old(View()), sn, ackNo, flags, sent)
    {
      var s := CtrlSegment(sn, ackNo, flags);
      ok := TcpIpSend(s, sent);
      if ok {
        nxt := Add(nxt, SegLen(s));
      }
    }

    method TcpRetransmit(env: Env)
      modifies this`out, this`tmr
      ensures View() == Retransmit(old(View()), env)
    {
      if txSeg.Some? {
        var _ := TcpIpSend(txSeg.value.wire, env.dataSent);
      }
      tmr := Some(5);
    }

    method TcpTxSegComplete()
      modifies this`txSeg, this`tmr
      ensures View() == TxComplete(old(View()))
    {
      if txSeg.Some? {
        txSeg := None;
        tmr := None;
      }
    }

    method TcpConstructData(env: Env)
      modifies this`txSeg, this`txData, this`out, this`tmr, this`nxt
      ensures View() == ConstructData(old(View()), env)
    {
      if txSeg.None? {
        if |txData| > 0 {
          var tx := txData[0];
          txData := txData[1..];
          if env.dataSeg {
            var s := Segment(una, rcvNxt, ACK, tx);
            txSeg := Some(TxSegment(s, s));
            var _ := TcpIpSend(s, env.dataSent);
            tmr := Some(3);
            nxt := Add(nxt, SegLen(s));
          }
        }
      }
    }

    method TcpConstructFinAck(env: Env)
      modifies this`txSeg, this`tmr, this`nxt
      ensures View() == ConstructFin(old(View()), env)
    {
      if |txData| == 0 {
        if txSeg.None? {
          if env.finSeg {
            var s := Segment(una, rcvNxt, FINACK, []);
            txSeg := Some(TxSegment(s, s));
            tmr := Some(1);
            nxt := Add(nxt, SegLen(s));
          }
        }
      }
    }

    // ----- receiving -----

    method TcpHandleAckOfData(s: Segment, env: Env) returns (handled: bool)
      modifies this`txSeg, this`txData, this`out, this`tmr, this`nxt, this`una
      ensures View() == HandleAckOfData(old(View()), s, env)
      ensures !handled ==> View() == old(View())
    {
      if txSeg.Some? {
        if Sncmp(una, Ls, s.ackNo, Le, nxt) {
          if s.ackNo == nxt {
            una := s.ackNo;
            TcpTxSegComplete();
            TcpConstructData(env);
            return true;
          }
        }
      }
      return false;
    }

    method TcpHandleData(a: Arrival, env: Env) returns (taken: bool)
      modifies this`rxData, this`rcvNxt, this`txSeg, this`out, this`nxt, this`enqueued
      ensures View() == HandleData(old(View()), a, env)
      ensures !taken ==> View() == old(View())
    {
      if a.seg.sn == rcvNxt {
        var segLen := SegLen(a.seg);
        if segLen > 0 {
          segLen := if segLen > wnd then wnd else segLen;
          if env.buf {
            var rx := (a.seg.payload + [a.b0, a.b1])[..segLen];
            rxData := rxData + [RxNode.RxChunk(rx, 0)];
            enqueued := enqueued + rx;
            rcvNxt := Add(rcvNxt, segLen);
            if txSeg.Some? {
              txSeg := Some(txSeg.value.(seg := txSeg.value.seg.(ackNo := rcvNxt)));
            } else {
              var _ := TcpSendCtrlSeg(una, rcvNxt, ACK, env.ackSent);
            }
            return true;
          }
        }
      }
      return false;
    }

    method TcpHandleAckOfFinAck(s: Segment) returns (acked: bool)
      modifies this`txSeg, this`tmr
      ensures acked == AcksFin(old(View()), s)
      ensures View() == if acked then TxComplete(old(View())) else old(View())
    {
      if txSeg.Some? {
        if Add(txSeg.value.seg.sn, 1) == s.ackNo {
          TcpTxSegComplete();
          return true;
        }
      }
      return false;
    }

    method TcpHandleFinAck(s: Segment, env: Env) returns (ok: bool)
      modifies this`una, this`rcvNxt, this`out, this`nxt
      ensures View() == HandleFinAck(old(View()), s, env)
    {
      if Sncmp(una, Ls, s.ackNo, Le, nxt) {
        una := s.ackNo;
        rcvNxt := Add(s.sn, 1);
        ok := TcpSendCtrlSeg(una, rcvNxt, ACK, env.finAckSent);
        return;
      }
      return false;
    }

    method ProcessReceivedSeq(s: Segment, env: Env) returns (ok: bool)
      modifies this`out, this`nxt
      ensures ok == Acceptable(old(View()), s)
      ensures View() == if ok then old(View()) else Refuse(old(View()), s, env)
      ensures out == old(out) + if ok || s.flags.rst || !env.ackSent || (wnd == 0 && SegLen(s) == 0) then []
                                else [Segment(old(nxt), rcvNxt, ACK, [])]
    {
      var segLen := SegLen(s);
      var unacceptable := false;
      if wnd == 0 {
        if segLen == 0 {
          return false;
        }
        unacceptable := true;
      } else if segLen == 0 {
        unacceptable := !Sncmp(rcvNxt, Le, s.sn, Ls, Add(rcvNxt, wnd));
      } else {
        if !Sncmp(rcvNxt, Le, s.sn, Ls, Add(rcvNxt, wnd)) {
          unacceptable := !Sncmp(rcvNxt, Le, Add(s.sn, segLen - 1), Ls, Add(rcvNxt, wnd));
        }
      }
      if !unacceptable {
        return true;
      }
      if !s.flags.rst {
        var _ := TcpSendCtrlSeg(nxt, rcvNxt, ACK, env.ackSent);
      }
      return false;
    }

    method Dequeue() returns (o: Option<Arrival>)
      modifies this`rxSegs
      ensures o == if old(rxSegs) == [] then None else Some(old(rxSegs)[0])
      ensures rxSegs == if old(rxSegs) == [] then [] else old(rxSegs)[1..]
    {
      if rxSegs == [] {
        return None;
      }
      o := Some(rxSegs[0]);
      rxSegs := rxSegs[1..];
    }

    method WhenListen(s: Segment, env: Env)
      modifies this`out, this`nxt, this`rcvNxt, this`irs, this`state
      ensures View() == ReceivedWhenListen(old(View()), s, env)
    {
      if s.flags.rst {
        return;
      }
      if s.flags.ack {
        var _ := TcpSendCtrlSeg(s.ackNo, 0, RST, env.rstSent);
      }
      if s.flags.syn {
        rcvNxt := Add(s.sn, 1);
        irs := s.sn;
        var ok := TcpSendCtrlSeg(iss, rcvNxt, SYNACK, env.ackSent);
        if ok {
          state := SynReceived;
        }
      }
    }

    method WhenSynSent(s: Segment, env: Env)
      modifies this`out, this`nxt, this`rcvNxt, this`irs, this`state, this`una, this`txSeg, this`tmr
      ensures View() == ReceivedWhenSynSent(old(View()), s, env)
    {
      if s.flags.ack {
        if !Sncmp(iss, Ls, s.ackNo, Le, nxt) {
          if !s.flags.rst {
            var _ := TcpSendCtrlSeg(s.ackNo, s.sn, RST, env.rstSent);
            return;
          }
        }
        if Sncmp(una, Le, s.ackNo, Le, nxt) {
          if s.flags.rst {
            state := Closed;
            return;
          }
          if s.flags.syn {
            rcvNxt := Add(s.sn, 1);
            irs := s.sn;
            una := s.ackNo;
            if una > iss {
              var ok := TcpSendCtrlSeg(una, rcvNxt, ACK, env.ackSent);
              if ok {
                state := Established;
                TcpTxSegComplete();
              }
            }
          }
        }
      }
    }

    method WhenSynReceived(s: Segment, env: Env)
      modifies this`out, this`nxt, this`state, this`una
      ensures View() == ReceivedWhenSynReceived(old(View()), s, env)
    {
      var ok := ProcessReceivedSeq(s, env);
      if !ok {
        return;
      }
      if s.flags.rst {
        state := if passive then Listen else Closed;
        return;
      }
      if s.flags.ack {
        if Sncmp(una, Le, s.ackNo, Le, nxt) {
          una := s.ackNo;
          state := Established;
        } else {
          var _ := TcpSendCtrlSeg(s.ackNo, 0, RST, env.rstSent);
        }
      } else {
        return;
      }
      if s.flags.fin {
        state := CloseWait;
      }
    }

    method WhenEstablished(a: Arrival, env: Env)
      modifies this`rxData, this`rcvNxt, this`txSeg, this`txData, this`out, this`nxt, this`una, this`tmr, this`state,
               this`enqueued
      ensures View() == ReceivedWhenEstablished(old(View()), a, env)
    {
      var s := a.seg;
      var ok := ProcessReceivedSeq(s, env);
      if !ok {
        return;
      }
      if s.flags.rst {
        return;
      }
      if s.flags.ack {
        if !(txSeg.Some? && txSeg.value.seg.flags.fin) {
          var _ := TcpHandleAckOfData(s, env);
        }
      } else {
        return;
      }
      var _ := TcpHandleData(a, env);
      if s.flags.fin {
        var _ := TcpHandleFinAck(s, env);
        state := CloseWait;
      }
    }

    // FIN_WAIT_1, where the acknowledged FIN leads to FIN_WAIT_2.
    method WhenFinWait1(o: Option<Arrival>, env: Env)
      requires state == FinWait1
      modifies this`txSeg, this`txData, this`out, this`nxt, this`una, this`tmr, this`state
      ensures View() == ReceivedWhenClosing(old(View()), if o.Some? then Some(o.value.seg) else None, FinWait2, env)
      ensures old(TxIsFin(View())) ==>
                View() == if o.Some? && o.value.seg.flags.ack && o.value.seg.ackNo == (old(txSeg).value.seg.sn + 1) % M32
                          then old(View()).(state := FinWait2, txSeg := None, tmr := None) else old(View())
    {
      if o.Some? && o.value.seg.flags.ack {
        if !(txSeg.Some? && txSeg.value.seg.flags.fin) {
          var _ := TcpHandleAckOfData(o.value.seg, env);
        } else {
          var acked := TcpHandleAckOfFinAck(o.value.seg);
          if acked {
            state := FinWait2;
          }
        }
      }
      if state == FinWait1 {
        TcpConstructFinAck(env);
      }
    }

    method WhenFinWait2(s: Segment, env: Env)
      modifies this`una, this`rcvNxt, this`out, this`nxt, this`tmr, this`state
      ensures View() == ReceivedWhenFinWait2(old(View()), s, env)
    {
      if s.flags.ack && s.flags.fin {
        state := TimeWait;
        tmr := Some(timeWaitSeconds);
        var _ := TcpHandleFinAck(s, env);
      }
    }

    // TIME_WAIT and CLOSE_WAIT
    method WhenWaiting(s: Segment, env: Env)
      modifies this`una, this`rcvNxt, this`out, this`nxt
      ensures View() == ReceivedWhenWaiting(old(View()), s, env)
    {
      if s.flags.ack && s.flags.fin {
        var _ := TcpHandleFinAck(s, env);
      }
    }

    // LAST_ACK, where the acknowledged FIN leads to CLOSED.
    method WhenLastAck(o: Option<Arrival>, env: Env)
      requires state == LastAck
      modifies this`txSeg, this`txData, this`out, this`nxt, this`una, this`tmr, this`state
      ensures View() == ReceivedWhenClosing(old(View()), if o.Some? then Some(o.value.seg) else None, Closed, env)
      ensures old(TxIsFin(View())) ==>
                View() == if o.Some? && o.value.seg.flags.ack && o.value.seg.ackNo == (old(txSeg).value.seg.sn + 1) % M32
                          then old(View()).(state := Closed, txSeg := None, tmr := None) else old(View())
    {
      if o.Some? && o.value.seg.flags.ack {
        if !(txSeg.Some? && txSeg.value.seg.flags.fin) {
          var _ := TcpHandleAckOfData(o.value.seg, env);
        } else {
          var acked := TcpHandleAckOfFinAck(o.value.seg);
          if acked {
            state := Closed;
          }
        }
      }
      if state == LastAck {
        TcpConstructFinAck(env);
      }
    }

    // tcp_received: the table has no entry for CLOSING and CLOSED; every other handler
    // takes one segment off the queue.
    method TcpReceived(env: Env, ghost a: Arrival)
      requires state !in {Closing, Closed} && rxSegs != [] ==> rxSegs[0] == a
      modifies this
      ensures history == old(history) && (old(state) in {Closing, Closed} ==> state == old(state))
      ensures old(rxSegs) != [] ==> View() == Received(old(View()), a, env)
      ensures rxSegs == if old(rxSegs) == [] || old(state) in {Closing, Closed} then old(rxSegs) else old(rxSegs)[1..]
    {
      hide ReceivedWhenListen, ReceivedWhenSynSent, ReceivedWhenSynReceived, ReceivedWhenEstablished;
      hide ReceivedWhenFinWait2, ReceivedWhenWaiting, ReceivedWhenClosing;
      if state == Closing || state == Closed {
        return;
      }
      var o := Dequeue();
      if state == FinWait1 {
        WhenFinWait1(o, env);
      } else if state == LastAck {
        WhenLastAck(o, env);
      } else if o.Some? {
        WhenOther(o.value, env);
      }
    }

    // The handlers that do nothing without a segment.
    method WhenOther(a: Arrival, env: Env)
      requires state !in {FinWait1, LastAck, Closing, Closed}
      modifies this
      ensures View() == Received(old(View()), a, env) && history == old(history) && rxSegs == old(rxSegs)
    {
      match state
      case Listen => WhenListen(a.seg, env);
      case SynSent => WhenSynSent(a.seg, env);
      case SynReceived => WhenSynReceived(a.seg, env);
      case Established => WhenEstablished(a, env);
      case FinWait2 => WhenFinWait2(a.seg, env);
      case TimeWait => WhenWaiting(a.seg, env);
      case CloseWait => WhenWaiting(a.seg, env);
    }

    // ----- the events -----

    // Writes the event into the history.
    ghost method Record(e: Event, before: Tcb)
      requires before == Run(Opened(passive, isn, env0), history) && View() == Step(before, e)
      requires rxSegs != [] ==> state in {Closed, Closing}
      modifies this`history
      ensures Valid() && history == old(history) + [e] && View() == old(View())
    {
      RunSnoc(Opened(passive, isn, env0), history, e);
      history := history + [e];
    }

    // The end of tcp_ip_recv, once the connection is found.
    method Enqueue(a: Arrival)
      modifies this`rxSegs
      ensures rxSegs == old(rxSegs) + [a] && View() == old(View())
    {
      rxSegs := rxSegs + [a];
    }

    method Deliver(a: Arrival, env: Env)
      requires Valid()
      modifies this
      ensures Valid() && history == old(history) + [Arrive(a, env)]
      ensures View() == Step(old(View()), Arrive(a, env))
    {
      ghost var before := View();
      Enqueue(a);
      TcpReceived(env, a);
      Record(Arrive(a, env), before);
    }

    // tcp_loop and tcp_timeout, for this connection.
    method TcpTimeout(env: Env)
      modifies this`tmr, this`out, this`state
      ensures View() == TimedOut(old(View()), env) && (old(state) in {Closing, Closed} ==> state == old(state))
    {
      if tmr.Some? {
        tmr := None;
        if state in {SynSent, FinWait1, LastAck, Established} {
          TcpRetransmit(env);
        } else if state == TimeWait {
          state := Closed;
        }
      }
    }

    method Tick(env: Env)
      requires Valid()
      modifies this
      ensures Valid() && history == old(history) + [Timeout(env)]
      ensures View() == Step(old(View()), Timeout(env))
      ensures old(tmr).Some? && old(state) in {SynSent, Established, FinWait1, LastAck} ==>
                tmr == Some(5) && state == old(state)
                && out == old(out) + if txSeg.Some? && env.dataSent then [txSeg.value.wire] else []
      ensures old(tmr).Some? && old(state) !in {SynSent, Established, FinWait1, LastAck} ==>
                tmr.None? && out == old(out) && state == if old(state) == TimeWait then Closed else old(state)
    {
      ghost var before := View();
      if tmr.Some? {
        TimerRule(before, env);
      }
      TcpTimeout(env);
      Record(Timeout(env), before);
    }

    // close_event_process
    method CloseEvent(env: Env)
      modifies this`txSeg, this`tmr, this`nxt, this`state
      ensures View() == ClosedByUser(old(View()), env) && (old(state) in {Closing, Closed} ==> state == old(state))
    {
      if state == Established {
        TcpConstructFinAck(env);
        state := FinWait1;
      } else if state == CloseWait {
        TcpConstructFinAck(env);
        state := LastAck;
      }
    }

    method TcpClose(env: Env)
      requires Valid()
      modifies this
      ensures Valid() && history == old(history) + [Close(env)]
      ensures View() == Step(old(View()), Close(env))
    {
      ghost var before := View();
      CloseEvent(env);
      Record(Close(env), before);
    }

    method SendWhenEstablished(data: seq<byte>, env: Env) returns (size: nat)
      requires state == Established
      modifies this`txData, this`txSeg, this`out, this`tmr, this`nxt, this`accepted
      ensures View() == Sent(old(View()), data, env) && size == SendResult(old(View()), data, env)
    {
      size := |data|;
      if env.buf {
        var tx := data[..|data| % M16];
        txData := txData + [tx];
        accepted := accepted + tx;
      } else {
        size := 0;
      }
      TcpConstructData(env);
    }

    method TcpSend(data: seq<byte>, env: Env) returns (size: nat)
      requires Valid()
      modifies this
      ensures Valid() && history == old(history) + [Send(data, env)]
      ensures View() == Step(old(View()), Send(data, env))
      ensures accepted == old(accepted) + if old(state) == Established && env.buf then data[..|data| % M16] else []
      ensures size == if old(state) == Established && env.buf then |data| else 0
    {
      ghost var before := View();
      SendRule(before, data, env);
      size := 0;
      if state == Established {
        size := SendWhenEstablished(data, env);
      }
      Record(Send(data, env), before);
    }

    // recv_when_established: dblk_read on the head of the queue until the request is met
    // or the queue is empty; the destination stays at the start of the buffer.
    method RecvWhenEstablished(data: array<byte>, size: nat) returns (done: nat)
      requires size <= data.Length
      modifies this`rxData, data
      ensures rxData == Drop(old(rxData), size)
      ensures done == Count(old(rxData), size)
      ensures data[..] == Fill(old(data[..]), old(rxData), size)
    {
      done := 0;
      ghost var q0, b0 := rxData, data[..];
      hide Drop, Fill, Count, Unread;
      while |rxData| > 0 && done < size
        invariant done <= size
        invariant Drop(q0, size) == Drop(rxData, size - done)
        invariant Fill(b0, q0, size) == Fill(data[..], rxData, size - done)
        invariant Count(q0, size) == done + Count(rxData, size - done)
        decreases |rxData| + size - done
      {
        var doSize := ReadHead(data, size - done);
        done := done + doSize;
      }
      NothingLeft(rxData, data[..], size - done);
    }

    // One round of the loop, for a request of which n bytes are left.
    method ReadHead(data: array<byte>, n: nat) returns (doSize: nat)
      requires rxData != [] && 0 < n <= data.Length
      modifies this`rxData, data
      ensures doSize <= n && (|rxData| < |old(rxData)| || (|rxData| == |old(rxData)| && doSize == n))
      ensures Drop(old(rxData), n) == Drop(rxData, n - doSize)
      ensures Fill(old(data[..]), old(rxData), n) == Fill(data[..], rxData, n - doSize)
      ensures Count(old(rxData), n) == doSize + Count(rxData, n - doSize)
    {
      hide Drop, Fill, Count, Unread;
      var rx := rxData[0];
      ReadStep(rxData, data[..], n);
      doSize := ReadChunk(rx, data, n);
      if doSize < n {
        rxData := rxData[1..];
      } else {
        rxData := [RxNode.RxChunk(rx.bytes, rx.offset + doSize)] + rxData[1..];
        NothingLeft(rxData, data[..], 0);
      }
    }

    static lemma NothingLeft(q: seq<RxChunk>, b: seq<byte>, n: nat)
      requires n <= |b| && (q == [] || n == 0)
      ensures Drop(q, n) == q && Fill(b, q, n) == b && Count(q, n) == 0
    {
    }

    // What one round of the loop does to what is left of the request.
    static lemma ReadStep(q: seq<RxChunk>, b: seq<byte>, n: nat)
      requires q != [] && 0 < n <= |b|
      ensures var k := Min(Avail(q[0]), n);
              var c := q[0].bytes[q[0].offset..q[0].offset + k] + b[k..];
              if k < n
              then Drop(q, n) == Drop(q[1..], n - k) && Fill(b, q, n) == Fill(c, q[1..], n - k) && Count(q, n) == k + Count(q[1..], n - k)
              else Drop(q, n) == [RxNode.RxChunk(q[0].bytes, q[0].offset + k)] + q[1..] && Fill(b, q, n) == c && Count(q, n) == n
    {
      assert |Unread(q)| == Avail(q[0]) + |Unread(q[1..])|;
    }

    method TcpRecv(data: array<byte>, size: nat) returns (done: nat)
      requires Valid() && size <= data.Length
      modifies this, data
      ensures Valid() && history == old(history) + [Recv(size)]
      ensures View() == Step(old(View()), Recv(size))
      ensures done == if old(state) == Established then Count(old(rxData), size) else 0
      ensures data[..] == if old(state) == Established then Fill(old(data[..]), old(rxData), size) else old(data[..])
    {
      ghost var before := View();
      done := 0;
      if state == Established {
        done := RecvWhenEstablished(data, size);
      }
      Record(Recv(size), before);
    }

    // dblk_read on a single node
    static method ReadChunk(rx: RxChunk, mem: array<byte>, size: nat) returns (n: nat)
      requires size <= mem.Length
      modifies mem
      ensures n == Min(Avail(rx), size)
      ensures mem[..] == rx.bytes[rx.offset..rx.offset + n] + old(mem[..])[n..]
    {
      n := Min(Avail(rx), size);
      forall i | 0 <= i < n {
        mem[i] := rx.bytes[rx.offset + i];
      }
    }

    // ----- what the theorems on runs say of the object -----

    lemma ObjectStopsAndWaits()
      requires Valid() && !passive && state in {Established, FinWait1}
      ensures StopAndWait(View())
    {
      StopAndWaitAlways(isn, env0, history);
    }

    lemma ObjectAcceptsGiven()
      requires Valid()
      ensures accepted == TcpWorld.Given(Opened(passive, isn, env0), history)
    {
      TcpWorld.AcceptedIsGiven(passive, isn, env0, history);
    }

    lemma ObjectWireInOrder()
      requires Valid() && !passive && Lossless(history)
      ensures OutInPlace(View())
    {
      WireInOrder(isn, env0, history);
      assert View() == Run(Opened(false, isn, env0), history);
    }
  }
}
