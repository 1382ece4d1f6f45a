// The theorems about single connections: stop and wait, order on the wire, lifecycle.
module TcpRuns {
  import opened Bytes
  import opened SeqNum
  import opened TcpSpec
  import opened TcpSender

  // ----- where a received segment can lead -----

  predicate AckOfOurFin(t: Tcb, s: Segment) {
    TxIsFin(t) && s.flags.ack && s.ackNo == Add(t.txSeg.value.seg.sn, 1)
  }

  ghost predicate Leads(t: Tcb, s: Segment, r: State) {
    match t.state
    case Listen => r in {Listen, SynReceived}
    case SynSent => r in {SynSent, Established, Closed}
    case SynReceived => r in {SynReceived, Established, CloseWait} || r == (if t.passive then Listen else Closed)
    case Established => r in {Established, CloseWait}
    case FinWait1 => r == FinWait1 || (r == FinWait2 && AckOfOurFin(t, s))
    case FinWait2 => r == FinWait2 || (r == TimeWait && s.flags.ack && s.flags.fin)
    case LastAck => r == LastAck || (r == Closed && AckOfOurFin(t, s))
    case _ => r == t.state
  }

  lemma LeadsListen(t: Tcb, s: Segment, env: Env)
    requires t.state == Listen
    ensures var u := ReceivedWhenListen(t, s, env); u.passive == t.passive && u.state in {Listen, SynReceived}
  {
  }

  lemma LeadsSynSent(t: Tcb, s: Segment, env: Env)
    requires t.state == SynSent
    ensures var u := ReceivedWhenSynSent(t, s, env); u.passive == t.passive && u.state in {SynSent, Established, Closed}
    ensures var u := ReceivedWhenSynSent(t, s, env); u.txData == t.txData && (u.tmr == t.tmr || u.txSeg.None?)
  {
  }

  lemma AcceptedShape(t: Tcb, a: Arrival, env: Env)
    requires t.state == Established
    ensures var u := AcceptedWhenEstablished(t, a, env);
            var h := if TxIsFin(t) then t else HandleAckOfData(t, a.seg, env);
            && u.passive == t.passive && u.state in {Established, CloseWait}
            && u.txSeg.Some? == h.txSeg.Some? && u.txData == h.txData && u.tmr == h.tmr && u.nxt == h.nxt
  {
    var t1 := if TxIsFin(t) then t else HandleAckOfData(t, a.seg, env);
    HandleDataSends(t1, a, env);
    var t2 := HandleData(t1, a, env);
    assert t2.passive == t.passive && t2.tmr == t1.tmr;
    HandleFinAckSends(t2, a.seg, env);
  }

  lemma RefuseShape(t: Tcb, s: Segment, env: Env)
    ensures var u := Refuse(t, s, env); u == t.(out := u.out)
  {
  }

  lemma LeadsEstablished(t: Tcb, a: Arrival, env: Env)
    requires t.state == Established
    ensures var u := ReceivedWhenEstablished(t, a, env);
            var h := HandleAckOfData(t, a.seg, env);
            && u.passive == t.passive && u.state in {Established, CloseWait}
            && ((u.txSeg.Some? == t.txSeg.Some? && u.txData == t.txData && u.tmr == t.tmr)
                || (u.txSeg.Some? == h.txSeg.Some? && u.txData == h.txData && u.tmr == h.tmr))
  {
    if !Acceptable(t, a.seg) {
      RefuseShape(t, a.seg, env);
    } else if !a.seg.flags.rst && a.seg.flags.ack {
      AcceptedShape(t, a, env);
    }
  }

  lemma LeadsFinAck(t: Tcb, s: Segment, env: Env)
    requires t.state in {FinWait2, TimeWait, CloseWait}
    ensures var u := Received(t, Arrival(s, 0, 0), env);
            && u.passive == t.passive && Leads(t, s, u.state) && u.txSeg == t.txSeg && u.txData == t.txData
            && (u.tmr == t.tmr || t.state == FinWait2) && u.nxt == t.nxt && u.accepted == t.accepted
  {
    HandleFinAckSends(t.(state := TimeWait, tmr := Some(t.timeWaitSeconds)), s, env);
    HandleFinAckSends(t, s, env);
  }

  lemma ReceivedLeads(t: Tcb, a: Arrival, env: Env)
    ensures Leads(t, a.seg, Received(t, a, env).state) && Received(t, a, env).passive == t.passive
  {
    match t.state
    case Listen => LeadsListen(t, a.seg, env);
    case SynSent => LeadsSynSent(t, a.seg, env);
    case SynReceived => var c := SynReceivedSends(t, a.seg, env);
    case Established => LeadsEstablished(t, a, env);
    case FinWait2 => LeadsFinAck(t, a.seg, env);
    case TimeWait => LeadsFinAck(t, a.seg, env);
    case CloseWait => LeadsFinAck(t, a.seg, env);
    case _ =>
  }

  // ----- stop and wait, order on the wire -----

  lemma OpenedKeeps(passive: bool, isn: u32, env: Env)
    ensures OneOutstanding(Opened(passive, isn, env)) && Stream(Opened(passive, isn, env))
  {
  }

  // An actively opened connection never visits the passive states.
  ghost predicate ActiveState(t: Tcb) {
    t.state !in {Listen, SynReceived, Closing} && !t.passive
  }

  lemma ActiveStep(t: Tcb, e: Event)
    requires ActiveState(t)
    ensures ActiveState(Step(t, e))
  {
    if e.Arrive? {
      ReceivedLeads(t, e.a, e.env);
    }
  }

  lemma {:induction false} ActiveRun(t: Tcb, es: seq<Event>)
    requires ActiveState(t)
    ensures ActiveState(Run(t, es)) && PoliteRun(t, es)
  {
    if es != [] {
      ActiveRun(t, es[..|es| - 1]);
      ActiveStep(Run(t, es[..|es| - 1]), es[|es| - 1]);
    }
  }

  // Main result: after an active open, against any peer and any allocation and send
  // failures, ESTABLISHED and FIN_WAIT_1 have nothing outstanding or exactly one segment,
  // starting at snd.una and ending at snd.nxt, also across sequence wrap.
  lemma StopAndWaitAlways(isn: u32, env: Env, es: seq<Event>)
    ensures var t := Run(Opened(false, isn, env), es);
            t.state in {Established, FinWait1} ==> StopAndWait(t)
  {
    OpenedKeeps(false, isn, env);
    ActiveRun(Opened(false, isn, env), es);
    OneOutstandingRun(Opened(false, isn, env), es);
  }

  // The passive side is not safe against every peer: the first acknowledgment makes it
  // established, and stop-and-wait holds from there exactly when it covers the SYN.
  lemma PassiveEstablishes(t: Tcb, a: Arrival, env: Env)
    requires t.state == SynReceived && OneOutstanding(t)
    requires Received(t, a, env).state == Established
    ensures StopAndWait(Received(t, a, env)) <==> a.seg.ackNo == t.nxt
  {
  }

  // Main result: after an active open with its data segments allocated, everything ever
  // put on the wire is at its place: the accepted bytes at iss+1 on, in order, and FIN
  // only at iss+1+(all bytes accepted), both through FIN_WAIT_1 and through LAST_ACK.
  lemma WireInOrder(isn: u32, env: Env, es: seq<Event>)
    requires Lossless(es)
    ensures OutInPlace(Run(Opened(false, isn, env), es))
  {
    OpenedKeeps(false, isn, env);
    ActiveRun(Opened(false, isn, env), es);
    StreamRun(Opened(false, isn, env), es);
  }

  // The same for a passive open whose peer behaves during the handshake.
  lemma WireInOrderPassive(isn: u32, env: Env, es: seq<Event>)
    requires Lossless(es) && PoliteRun(Opened(true, isn, env), es)
    ensures var t := Run(Opened(true, isn, env), es);
            && OutInPlace(t)
            && (t.state in {Established, FinWait1} ==> StopAndWait(t))
  {
    OpenedKeeps(true, isn, env);
    OneOutstandingRun(Opened(true, isn, env), es);
    StreamRun(Opened(true, isn, env), es);
  }

  // A FIN is built only when every accepted byte has been sent and acknowledged.
  lemma FinOnlyWhenDone(t: Tcb, e: Event)
    requires OneOutstanding(t) && Stream(t) && Polite(t, e) && EventEnv(e)
    requires !TxIsFin(t) && TxIsFin(Step(t, e))
    ensures var u := Step(t, e);
            && u.txData == [] && u.txSeg.value.seg.sn == u.una == Add(u.iss, 1 + |u.accepted|)
            && u.state in {FinWait1, LastAck}
  {
    StreamStep(t, e);
    OneOutstandingStep(t, e);
    FinInClosingStates(t, e);
  }

  lemma FinInClosingStates(t: Tcb, e: Event)
    requires OneOutstanding(t) && Polite(t, e) && !TxIsFin(t) && TxIsFin(Step(t, e))
    ensures Step(t, e).state in {FinWait1, LastAck}
  {
    OneOutstandingStep(t, e);
    if e.Arrive? {
      ReceivedLeads(t, e.a, e.env);
    }
  }

  // From the FIN on, snd.nxt and the accepted bytes are fixed.
  ghost predicate Finishing(t: Tcb) {
    && ((t.state in {FinWait1, LastAck} && TxIsFin(t)) || t.state in {FinWait2, TimeWait, Closed})
  }

  lemma FinishingStep(t: Tcb, e: Event)
    requires Finishing(t)
    ensures Finishing(Step(t, e))
    ensures Step(t, e).nxt == t.nxt && Step(t, e).accepted == t.accepted
  {
  }

  lemma {:induction false} FinFreezesNxt(t: Tcb, es: seq<Event>)
    requires Finishing(t)
    ensures Finishing(Run(t, es))
    ensures Run(t, es).nxt == t.nxt && Run(t, es).accepted == t.accepted
  {
    if es != [] {
      FinFreezesNxt(t, es[..|es| - 1]);
      FinishingStep(Run(t, es[..|es| - 1]), es[|es| - 1]);
    }
  }

  // ----- who can establish -----

  ghost predicate Stuck(t: Tcb) {
    t.state in {SynSent, Closed} && t.iss == M32 - 1
  }

  lemma StuckStep(t: Tcb, e: Event)
    requires Stuck(t)
    ensures Stuck(Step(t, e))
  {
  }

  lemma {:induction false} StuckRun(t: Tcb, es: seq<Event>)
    requires Stuck(t)
    ensures Stuck(Run(t, es))
  {
    if es != [] {
      StuckRun(t, es[..|es| - 1]);
      StuckStep(Run(t, es[..|es| - 1]), es[|es| - 1]);
    }
  }

  lemma Establishes(t: Tcb, isn: u32, e: Event)
    requires t.state == SynSent && t.iss == t.una == isn && isn != M32 - 1 && t.nxt == isn + 1
    requires e.Arrive? && e.a.seg.ackNo == isn + 1 && e.a.seg.flags == SYNACK && e.env.ackSent
    ensures Run(t, [e]).state == Established
  {
    assert [e][..0] == [];
    assert Run(t, []) == t;
  }

  // An active open can establish exactly when its initial number is not 2^32-1.
  lemma EstablishesIff(isn: u32, env: Env)
    ensures (exists es :: Run(Opened(false, isn, env), es).state == Established) <==> isn != M32 - 1
  {
    var t := Opened(false, isn, env);
    if isn == M32 - 1 {
      forall es ensures Run(t, es).state != Established {
        StuckRun(t, es);
      }
    } else {
      var e := Arrive(Arrival(Segment(0, isn + 1, SYNACK, []), 0, 0), env.(ackSent := true));
      Establishes(t, isn, e);
    }
  }

  // ----- lifecycle -----

  function Rank(s: State): nat {
    match s
    case Listen => 1
    case SynReceived => 1
    case Established => 2
    case FinWait1 => 3
    case CloseWait => 3
    case FinWait2 => 4
    case LastAck => 4
    case TimeWait => 5
    case Closed => 6
    case _ => 0
  }

  // Later than or same as, except that LISTEN and SYN_RECEIVED may alternate.
  predicate Follows(s: State, r: State) {
    s == r || Rank(s) < Rank(r) || (s in {Listen, SynReceived} && r in {Listen, SynReceived})
  }

  lemma LeadsFollows(t: Tcb, s: Segment, r: State)
    requires t.state != Closing && Leads(t, s, r)
    ensures Follows(t.state, r) && r != Closing
  {
  }

  lemma QuietFollows(t: Tcb, e: Event)
    requires t.state != Closing && !e.Arrive?
    ensures Follows(t.state, Step(t, e).state) && Step(t, e).state != Closing
  {
  }

  lemma StepFollows(t: Tcb, e: Event)
    requires t.state != Closing
    ensures Follows(t.state, Step(t, e).state) && Step(t, e).state != Closing
  {
    if e.Arrive? {
      var u := Received(t, e.a, e.env);
      assert Step(t, e) == u;
      ReceivedLeads(t, e.a, e.env);
      LeadsFollows(t, e.a.seg, u.state);
    } else {
      QuietFollows(t, e);
    }
  }

  lemma {:induction false} NeverClosing(t: Tcb, es: seq<Event>)
    requires t.state != Closing
    ensures Run(t, es).state != Closing
  {
    if es != [] {
      NeverClosing(t, es[..|es| - 1]);
      StepFollows(Run(t, es[..|es| - 1]), es[|es| - 1]);
    }
  }

  lemma {:induction false} RunFollows(t: Tcb, es: seq<Event>, i: nat)
    requires t.state != Closing && i <= |es|
    ensures Follows(Run(t, es[..i]).state, Run(t, es).state)
  {
    if i == |es| {
      assert es[..i] == es;
    } else {
      var p := es[..|es| - 1];
      RunFollows(t, p, i);
      assert p[..i] == es[..i];
      NeverClosing(t, p);
      StepFollows(Run(t, p), es[|es| - 1]);
    }
  }

  // Main result: once left, a state does not come back, apart from the loop of LISTEN and
  // SYN_RECEIVED; CLOSED is never left; CLOSING is never entered.
  lemma NoReturn(t: Tcb, es: seq<Event>, i: nat, j: nat)
    requires t.state != Closing && i <= j <= |es|
    ensures var si, sj, sk := Run(t, es[..i]).state, Run(t, es[..j]).state, Run(t, es).state;
            && (si == sk ==> sj == si || (si in {Listen, SynReceived} && sj in {Listen, SynReceived}))
            && (si == Closed ==> sk == Closed)
            && sk != Closing
  {
    RunFollows(t, es[..j], i);
    assert es[..j][..i] == es[..i];
    RunFollows(t, es, j);
    NeverClosing(t, es);
  }

  // LAST_ACK ends only by an acknowledgment of the FIN.
  lemma LastAckEnds(t: Tcb, e: Event)
    requires t.state == LastAck && Step(t, e).state != LastAck
    ensures Step(t, e).state == Closed && e.Arrive? && AckOfOurFin(t, e.a.seg)
  {
    if e.Arrive? {
      ReceivedLeads(t, e.a, e.env);
    }
  }

  lemma EntersFinWait2(t: Tcb, e: Event)
    requires t.state != FinWait2 && Step(t, e).state == FinWait2
    ensures t.state == FinWait1 && e.Arrive? && AckOfOurFin(t, e.a.seg)
  {
    if e.Arrive? {
      ReceivedLeads(t, e.a, e.env);
    }
  }

  lemma EntersTimeWait(t: Tcb, e: Event)
    requires t.state != TimeWait && Step(t, e).state == TimeWait
    ensures t.state == FinWait2 && e.Arrive? && e.a.seg.flags.ack && e.a.seg.flags.fin
  {
    if e.Arrive? {
      ReceivedLeads(t, e.a, e.env);
    }
  }

  // When was a state entered? The last event before which the run was not yet in it.
  lemma {:induction false} LastEntry(t: Tcb, es: seq<Event>, s: State) returns (i: nat)
    requires t.state != s && Run(t, es).state == s
    ensures i < |es| && Run(t, es[..i]).state != s && Step(Run(t, es[..i]), es[i]).state == s
  {
    hide Step;
    var p := es[..|es| - 1];
    if Run(t, p).state == s {
      i := LastEntry(t, p, s);
      assert p[..i] == es[..i];
    } else {
      i := |es| - 1;
    }
  }

  // Main result: a run in TIME_WAIT has received, in this order, an acknowledgment of its
  // own FIN in FIN_WAIT_1 and a FIN,ACK of the peer in FIN_WAIT_2.
  lemma TimeWaitHistory(t: Tcb, es: seq<Event>) returns (i: nat, j: nat)
    requires t.state in {Listen, SynSent} && Run(t, es).state == TimeWait
    ensures i < j < |es| && es[i].Arrive? && es[j].Arrive?
    ensures Run(t, es[..i]).state == FinWait1 && AckOfOurFin(Run(t, es[..i]), es[i].a.seg)
    ensures Run(t, es[..j]).state == FinWait2 && es[j].a.seg.flags.ack && es[j].a.seg.flags.fin
  {
    j := LastEntry(t, es, TimeWait);
    EntersTimeWait(Run(t, es[..j]), es[j]);
    i := LastEntry(t, es[..j], FinWait2);
    assert es[..j][..i] == es[..i];
    EntersFinWait2(Run(t, es[..i]), es[i]);
  }

  // ----- no null segment, no forgotten retransmission -----

  // tx_seg is dereferenced without a test in FIN_WAIT_1 and LAST_ACK.
  ghost predicate Busy(t: Tcb) {
    && (t.state in {Established, CloseWait, FinWait1, LastAck} && t.txData != [] ==> t.txSeg.Some?)
    && (t.state in {FinWait1, LastAck} ==> t.txSeg.Some?)
    && (t.state in {Listen, SynSent, SynReceived} ==> t.txData == [])
  }

  ghost predicate AllocsSucceed(es: seq<Event>) {
    forall e :: e in es ==> e.Recv? || (e.env.dataSeg && e.env.finSeg)
  }

  lemma BusyStep(t: Tcb, e: Event)
    requires Busy(t) && (e.Recv? || (e.env.dataSeg && e.env.finSeg)) && t.state != Closing
    ensures Busy(Step(t, e))
  {
    match e
    case Arrive(a, env) => BusyReceived(t, a, env);
    case _ =>
  }

  lemma BusyReceived(t: Tcb, a: Arrival, env: Env)
    requires Busy(t) && env.dataSeg && env.finSeg && t.state != Closing
    ensures Busy(Received(t, a, env))
  {
    match t.state
    case Established => LeadsEstablished(t, a, env);
    case SynReceived => var c := SynReceivedSends(t, a.seg, env);
    case SynSent => LeadsSynSent(t, a.seg, env);
    case FinWait2 => LeadsFinAck(t, a.seg, env);
    case TimeWait => LeadsFinAck(t, a.seg, env);
    case CloseWait => LeadsFinAck(t, a.seg, env);
    case _ =>
  }

  // When allocations succeed, the unchecked uses of tx_seg never meet a null pointer.
  lemma {:induction false} SegmentNeverNull(passive: bool, isn: u32, env: Env, es: seq<Event>)
    requires AllocsSucceed(es)
    ensures var t := Run(Opened(passive, isn, env), es);
            Busy(t) && (t.state in {FinWait1, LastAck} ==> t.txSeg.Some?)
  {
    if es != [] {
      var p := es[..|es| - 1];
      SegmentNeverNull(passive, isn, env, p);
      NeverClosing(Opened(passive, isn, env), p);
      BusyStep(Run(Opened(passive, isn, env), p), es[|es| - 1]);
    }
  }

  // While a segment is outstanding its timer runs.
  ghost predicate Armed(t: Tcb) {
    t.state != Closed && t.txSeg.Some? ==> t.tmr.Some?
  }

  // Exactly one thing makes the connection forget to retransmit: the timer expiring in
  // CLOSE_WAIT, which has no entry in timeout_event_process.
  lemma ForgetsIff(t: Tcb, e: Event)
    requires OneOutstanding(t) && Polite(t, e) && Armed(t)
    ensures !Armed(Step(t, e)) <==> t.state == CloseWait && e.Timeout? && t.txSeg.Some?
  {
    match e
    case Arrive(a, env) => ArmedReceived(t, a, env);
    case _ =>
  }

  lemma ArmedReceived(t: Tcb, a: Arrival, env: Env)
    requires OneOutstanding(t) && Armed(t)
    ensures Armed(Received(t, a, env))
  {
    match t.state
    case Established => LeadsEstablished(t, a, env);
    case SynReceived => var c := SynReceivedSends(t, a.seg, env);
    case SynSent => LeadsSynSent(t, a.seg, env);
    case FinWait2 => LeadsFinAck(t, a.seg, env);
    case TimeWait => LeadsFinAck(t, a.seg, env);
    case CloseWait => LeadsFinAck(t, a.seg, env);
    case _ =>
  }
}
