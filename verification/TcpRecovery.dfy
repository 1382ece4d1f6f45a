// What was lost can be made good: from every reachable state of two established sides.
module TcpRecovery {
  import opened Bytes
  import opened SeqNum
  import opened TcpExample
  import opened TcpLink
  import opened TcpRuns
  import opened TcpRules
  import opened TcpSender
  import opened TcpSpec
  import opened TcpStall
  import opened TcpStream
  import opened TcpWindow
  import opened TcpWorld

  // ----- a chunk is queued as a whole -----

  // Of an outstanding chunk that fits its window r has queued nothing or everything.
  ghost predicate Whole(s: Tcb, r: Tcb) {
    Waiting(s) && |Wire(s).payload| <= r.wnd ==> |r.enqueued| == Acked(s) || |r.enqueued| >= Transmitted(s)
  }

  lemma WholeAtReceiver(s: Tcb, r: Tcb, a: Arrival, env: Env)
    requires Dir(s, r) && OutHonest(s, r) && Starts(s) && Whole(s, r) && a.seg in s.out
    ensures Whole(s, Received(r, a, env))
  {
    FixedReceived(r, a, env);
    GrowsReceived(r, a, env);
    if Waiting(s) && r.state == Established {
      EstablishedIs(r, a, env);
      GrowsEstablished(r, a, env);
      if Takes(r, a, env) {
        assert Honest(a.seg, s, r);
        AddAdd(s.iss, 1, |r.enqueued|);
        OffAdd(Base(s), |r.enqueued|);
        SynOff(s.iss);
      }
      hide Received, ReceivedWhenEstablished;
    }
  }

  lemma WholeAtSender(s: Tcb, u: Tcb, r: Tcb)
    requires Dir(s, r) && Dir(u, r) && Whole(s, r) && Tracks(s, u) && (Finishing(s) ==> Finishing(u))
    ensures Whole(u, r)
  {
  }

  // ----- the timer of what is outstanding -----

  ghost predicate EarlyArmed(t: Tcb) {
    t.state in {Listen, SynSent, SynReceived, Established} ==> Armed(t)
  }

  lemma EarlyArmedStep(t: Tcb, e: Event)
    requires Alive(t) && EarlyArmed(t) && t.state != Closing
    ensures EarlyArmed(Step(t, e))
  {
    if Step(t, e).state in {Listen, SynSent, SynReceived, Established} {
      StepFollows(t, e);
      if t.iss == M32 - 1 && t.passive {
        DeadArmed(t, e);
      } else if e.Arrive? {
        hide OneOutstanding, Stream;
        ArmedReceived(t, e.a, e.env);
      } else {
        ArmedOtherwise(t, e);
      }
    }
  }

  lemma DeadArmed(t: Tcb, e: Event)
    requires Dead(t) && t.state in {Listen, SynReceived}
    ensures Step(t, e).txSeg.None?
  {
    if e.Arrive? && t.state == SynReceived {
      var c := SynReceivedSends(t, e.a.seg, e.env);
    }
  }

  lemma ArmedOtherwise(t: Tcb, e: Event)
    requires !e.Arrive? && Armed(t) && t.state in {Listen, SynSent, SynReceived, Established}
    requires t.state in {Listen, SynReceived} ==> t.txSeg.None?
    ensures Armed(Step(t, e))
  {
  }

  // ----- over whole plays -----

  ghost predicate Ready(w: World) {
    && Linked(w) && Windowed(w)
    && Whole(w.a, w.b) && Whole(w.b, w.a) && EarlyArmed(w.a) && EarlyArmed(w.b)
  }

  // r moves, hearing only what s sent.
  lemma ReadyMove(s: Tcb, r: Tcb, e: Event)
    requires Four(s, r) && Four(s, Step(r, e)) && Alive(r) && r.state != Closing && EventEnv(e) && (e.Arrive? ==> e.a.seg in s.out)
    requires Starts(s) && Whole(s, r) && Whole(r, s) && EarlyArmed(r)
    ensures Whole(s, Step(r, e)) && Whole(Step(r, e), s) && EarlyArmed(Step(r, e))
  {
    var u := Step(r, e);
    assert |r.accepted| < M32 - 1 && |u.accepted| < M32 - 1;
    EarlyArmedStep(r, e);
    hide Alive, Honest, Delivered, Receiving, EarlyArmed, Step;
    TracksStep(r, s, e);
    if Finishing(r) {
      FinishingStep(r, e);
    }
    WholeAtSender(r, u, s);
    WholeWhenMoved(s, r, e);
  }

  lemma WholeWhenMoved(s: Tcb, r: Tcb, e: Event)
    requires Dir(s, r) && OutHonest(s, r) && Starts(s) && Whole(s, r) && (e.Arrive? ==> e.a.seg in s.out)
    ensures Whole(s, Step(r, e))
  {
    if e.Arrive? {
      WholeAtReceiver(s, r, e.a, e.env);
    }
  }

  lemma ReadyStep(w: World, m: Move)
    requires Ready(w) && Permitted(w, m) && Linked(Next(w, m)) && Windowed(Next(w, m))
    ensures Ready(Next(w, m))
  {
    FourTurned(w.a, w.b);
    FourTurned(Next(w, m).a, Next(w, m).b);
    hide Four, Alive, Starts, Held, Whole, EarlyArmed, Step;
    if m.side == A {
      ReadyMove(w.b, w.a, m.e);
    } else {
      ReadyMove(w.a, w.b, m.e);
    }
  }

  lemma {:induction false} PlayReady(isnA: u32, isnB: u32, env: Env, ms: seq<Move>)
    requires PermittedPlay(Start(isnA, isnB, env), ms) && isnA != M32 - 1
    requires var w := Play(Start(isnA, isnB, env), ms); |w.a.accepted| < M32 - 1 && |w.b.accepted| < M32 - 1
    ensures Ready(Play(Start(isnA, isnB, env), ms))
  {
    PlayWindowed(isnA, isnB, env, ms);
    if ms == [] {
      StartReady(isnA, isnB, env);
    } else {
      var p, m := ms[..|ms| - 1], ms[|ms| - 1];
      var w := Play(Start(isnA, isnB, env), p);
      GrowsStep(w.a, m.e);
      GrowsStep(w.b, m.e);
      PlayReady(isnA, isnB, env, p);
      hide Linked, Windowed, Ready, Step;
      ReadyStep(w, m);
    }
  }

  lemma StartReady(isnA: u32, isnB: u32, env: Env)
    ensures var w := Start(isnA, isnB, env);
            Whole(w.a, w.b) && Whole(w.b, w.a) && EarlyArmed(w.a) && EarlyArmed(w.b)
  {
  }

  // ----- the way back -----

  const TICK := Timeout(ALL_WELL)

  // s has a chunk outstanding that can be acknowledged and fits the window of r, which has
  // nothing to send; neither window wraps.
  ghost predicate Recoverable(s: Tcb, r: Tcb) {
    && s.state == r.state == Established
    && s.txSeg.Some? && s.una < s.nxt && |Wire(s).payload| <= r.wnd
    && r.txSeg.None? && r.txData == []
    && s.rcvNxt + s.wnd < M32 && r.rcvNxt + r.wnd < M32
  }

  // The segment that is outstanding.
  lemma OutstandingAt(s: Tcb)
    requires Alive(s) && s.state == Established && s.txSeg.Some? && s.una < s.nxt && |Wire(s).payload| < M16 && EarlyArmed(s)
    ensures s.tmr.Some? && !TxIsFin(s) && var g := Wire(s);
            g == Segment(s.una, g.ackNo, ACK, g.payload) && s.una + |g.payload| == s.nxt && g.payload != []
    ensures s.nxt == Add(Base(s), Transmitted(s))
  {
    assert Local(s);
    AddAdd(s.iss, 1, Transmitted(s));
  }

  // Where the receiver stands: at the start of it or at its end.
  lemma ReceiverAt(s: Tcb, r: Tcb)
    requires Dir(s, r) && Whole(s, r) && Waiting(s) && r.state == Established && |Wire(s).payload| <= r.wnd
    requires s.nxt == Add(Base(s), Transmitted(s)) && s.nxt == Add(s.una, |Wire(s).payload|)
    ensures if |r.enqueued| == Transmitted(s) then r.rcvNxt == s.nxt else r.rcvNxt == s.una && |r.enqueued| == Acked(s)
  {
    AddAdd(Base(s), Acked(s), |Wire(s).payload|);
    AddAdd(s.una, |Wire(s).payload|, -|Wire(s).payload|);
    AddAdd(Add(Base(s), Acked(s)), |Wire(s).payload|, -|Wire(s).payload|);
    NoLength(s.una);
    NoLength(Add(Base(s), Acked(s)));
  }

  // A side with nothing to send is where its peer expects it.
  lemma IdleAt(s: Tcb, r: Tcb)
    requires Dir(r, s) && Alive(r) && r.state == s.state == Established && r.txSeg.None? && r.txData == []
    ensures r.una == r.nxt == s.rcvNxt
  {
    IdleDir(r, s);
    assert Local(r);
    assert Flatten(r.txData) == [];
    AddAdd(r.iss, 1, |r.accepted|);
  }

  // s sends its segment again.
  lemma SendsAgain(s: Tcb)
    requires s.state == Established && s.tmr.Some? && s.txSeg.Some?
    ensures Step(s, TICK) == s.(tmr := Some(5), out := s.out + [Wire(s)])
  {
    TimerRule(s, ALL_WELL);
    hide Step;
  }

  // Whether it has the text or not, r acknowledges all of it.
  lemma Answers(r: Tcb, g: Segment)
    requires r.state == Established && r.txSeg.None? && r.una == r.nxt && r.rcvNxt + r.wnd < M32
    requires g.flags == ACK && 0 < |g.payload| <= r.wnd && g.sn + |g.payload| < M32
    requires r.rcvNxt == g.sn || r.rcvNxt == g.sn + |g.payload|
    ensures var u := Step(r, Hear(g));
            && u.out == r.out + [Segment(r.nxt, g.sn + |g.payload|, ACK, [])]
            && |u.enqueued| == |r.enqueued| + if r.rcvNxt == g.sn then |g.payload| else 0
  {
    var a := Arrival(g, 0, 0);
    if r.rcvNxt == g.sn {
      TakenAt(r, g);
      OutRule(r, a, ALL_WELL);
      TextRule(r, a, ALL_WELL);
      AckRule(r, a, ALL_WELL);
    } else {
      RefusedAt(r, g);
      RefusalRule(r, a, ALL_WELL);
    }
    hide Step, Acceptable;
  }

  lemma TakenAt(r: Tcb, g: Segment)
    requires r.rcvNxt == g.sn && r.rcvNxt + r.wnd < M32 && r.wnd > 0
    ensures Acceptable(r, g)
  {
  }

  lemma RefusedAt(r: Tcb, g: Segment)
    requires g.payload != [] && g.flags == ACK && r.rcvNxt == g.sn + |g.payload| && r.rcvNxt + r.wnd < M32
    ensures !Acceptable(r, g)
  {
  }

  // The acknowledgment completes what is outstanding.
  lemma Completed(s: Tcb, k: Segment)
    requires s.state == Established && s.txSeg.Some? && !TxIsFin(s) && s.una < s.nxt
    requires k == Segment(s.rcvNxt, s.nxt, ACK, []) && s.rcvNxt + s.wnd < M32 && s.wnd > 0
    ensures Step(s, Hear(k)).una == s.nxt
  {
    TakenAt(s, k);
    AckRule(s, Arrival(k, 0, 0), ALL_WELL);
    hide Step, Acceptable;
  }

  // A repetition of text that has been queued is answered exactly when the window does not
  // wrap: in a wrapped window the test takes it for acceptable and nothing happens.
  lemma RepetitionAnsweredIff(r: Tcb, g: Segment)
    requires r.state == Established && r.txSeg.None? && r.una == r.nxt && 0 < r.wnd
    requires g.flags == ACK && 0 < |g.payload| < M16 && r.rcvNxt == g.sn + |g.payload|
    ensures var u := Step(r, Hear(g));
            u == if r.rcvNxt + r.wnd < M32 then r.(out := r.out + [Segment(r.nxt, r.rcvNxt, ACK, [])]) else r
  {
    var a := Arrival(g, 0, 0);
    if r.rcvNxt + r.wnd < M32 {
      RefusedAt(r, g);
      RefusalRule(r, a, ALL_WELL);
      hide Step;
    } else {
      assert Acceptable(r, g);
      EstablishedIs(r, a, ALL_WELL);
      hide Acceptable;
    }
  }

  // ----- put together -----

  function Other(side: Side): Side {
    if side == A then B else A
  }

  lemma Sides(w: World, side: Side, e: Event)
    ensures var v := Next(w, Move(side, e)); At(v, side) == Step(At(w, side), e) && Peer(v, side) == Peer(w, side)
    ensures var v := Next(w, Move(Other(side), e)); At(v, side) == At(w, side) && Peer(v, side) == Step(Peer(w, side), e)
    ensures Peer(w, Other(side)) == At(w, side)
  {
  }

  // What the three moves do to the two sides.
  lemma ThreeSteps(s: Tcb, r: Tcb)
    requires Four(s, r) && Alive(s) && Alive(r) && Whole(s, r) && EarlyArmed(s) && s.wnd == r.wnd == 1500 && Recoverable(s, r)
    ensures var s1, r1 := Step(s, TICK), Step(r, Hear(Wire(s)));
            var k := Segment(r.nxt, s.nxt, ACK, []);
            && Wire(s) in s1.out && k in r1.out
            && Step(s1, Hear(k)).una == s.nxt && |r1.enqueued| == Transmitted(s)
  {
    hide Honest, OutHonest, Starts, Held, Step;
    OutstandingAt(s);
    ReceiverAt(s, r);
    IdleAt(s, r);
    hide *;
    SendsAgain(s);
    Answers(r, Wire(s));
    Completed(Step(s, TICK), Segment(r.nxt, s.nxt, ACK, []));
  }

  // The three moves from a world in which s can recover.
  lemma ThreeMoves(w: World, side: Side)
    requires Ready(w) && Recoverable(At(w, side), Peer(w, side))
    ensures var s, r := At(w, side), Peer(w, side);
            var k := Segment(r.nxt, s.nxt, ACK, []);
            var w1 := Next(w, Move(side, TICK));
            var w2 := Next(w1, Move(Other(side), Hear(Wire(s))));
            var w3 := Next(w2, Move(side, Hear(k)));
            && Permitted(w, Move(side, TICK)) && Permitted(w1, Move(Other(side), Hear(Wire(s)))) && Permitted(w2, Move(side, Hear(k)))
            && At(w3, side).una == s.nxt && |Peer(w3, side).enqueued| == Transmitted(s)
  {
    var s, r := At(w, side), Peer(w, side);
    FourTurned(w.a, w.b);
    hide Four, Alive, Starts, Held, Whole, EarlyArmed, Step;
    ThreeSteps(s, r);
    var w1 := Next(w, Move(side, TICK));
    var w2 := Next(w1, Move(Other(side), Hear(Wire(s))));
    Sides(w, side, TICK);
    Sides(w1, side, Hear(Wire(s)));
    Sides(w2, side, Hear(Segment(r.nxt, s.nxt, ACK, [])));
  }

  lemma GoesOn(w0: World, ms: seq<Move>, m1: Move, m2: Move, m3: Move)
    requires PermittedPlay(w0, ms) && Permitted(Play(w0, ms), m1)
    requires var w1 := Next(Play(w0, ms), m1); Permitted(w1, m2) && Permitted(Next(w1, m2), m3)
    ensures PermittedPlay(w0, ms + [m1, m2, m3])
    ensures Play(w0, ms + [m1, m2, m3]) == Next(Next(Next(Play(w0, ms), m1), m2), m3)
  {
    hide *;
    PlaySnoc(w0, ms, m1);
    PlaySnoc(w0, ms + [m1], m2);
    PlaySnoc(w0, ms + [m1] + [m2], m3);
    assert ms + [m1] + [m2] + [m3] == ms + [m1, m2, m3];
  }

  // Main result: whatever the network has lost, repeated and reordered before, from every
  // play with both sides established there is a continuation that completes a chunk that fits
  // the window, is not at the wrap, and whose receiver is idle: three moves are enough.
  lemma Recovers(isnA: u32, isnB: u32, env: Env, ms: seq<Move>, side: Side) returns (ns: seq<Move>)
    requires PermittedPlay(Start(isnA, isnB, env), ms) && Bounded(Start(isnA, isnB, env), ms)
    requires var w := Play(Start(isnA, isnB, env), ms); Recoverable(At(w, side), Peer(w, side))
    ensures PermittedPlay(Start(isnA, isnB, env), ms + ns)
    ensures var w, v := Play(Start(isnA, isnB, env), ms), Play(Start(isnA, isnB, env), ms + ns);
            At(v, side).una == At(w, side).nxt && |Peer(v, side).enqueued| == Transmitted(At(w, side))
  {
    var w0 := Start(isnA, isnB, env);
    BoundedIs(isnA, isnB, env, ms);
    PlayInvariant(isnA, isnB, env, ms);
    var w := Play(w0, ms);
    assert isnA != M32 - 1;
    PlayReady(isnA, isnB, env, ms);
    ThreeMoves(w, side);
    hide *;
    var s, r := At(w, side), Peer(w, side);
    var m1, m2, m3 := Move(side, TICK), Move(Other(side), Hear(Wire(s))), Move(side, Hear(Segment(r.nxt, s.nxt, ACK, [])));
    GoesOn(w0, ms, m1, m2, m3);
    ns := [m1, m2, m3];
  }
}
