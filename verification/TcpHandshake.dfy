// How often a listener answers a SYN, over every play of two connections.
module TcpHandshake {
  import opened Bytes
  import opened SeqNum
  import opened TcpExample
  import opened TcpLink
  import opened TcpSender
  import opened TcpSpec
  import opened TcpStall
  import opened TcpWorld

  // The responder has handed at most its first segment to IP as a SYN.
  ghost predicate SynOnce(t: Tcb) {
    if t.state == Listen then t.out == []
    else PastSyn(t) && t.out != [] && forall i :: 1 <= i < |t.out| ==> !t.out[i].flags.syn
  }

  lemma SynFirst(w: World, e: Event)
    requires Linked(w) && w.b.state == Listen && (e.Arrive? ==> e.a.seg in w.a.out)
    ensures SynOnce(Step(w.b, e))
  {
    PassiveIdle(w.b);
    hide Four, Alive;
    if e.Arrive? {
      assert e.a.seg.flags == SYN;
    }
  }

  // Without a reset of the initiator the responder does not get back to LISTEN.
  lemma NoListenAgain(w: World, e: Event)
    requires Linked(w) && w.b.state != Listen && (e.Arrive? ==> e.a.seg in w.a.out)
    ensures Step(w.b, e).state != Listen
  {
    hide Four, Alive, ReceivedWhenSynReceived;
    if w.b.state != SynReceived {
      LaterState(w.b, e);
    } else if e.Arrive? {
      assert !e.a.seg.flags.rst;
      SynReceivedMoves(w.b, e.a.seg, e.env);
    } else {
      PassiveWaits(w.b, e);
    }
  }

  lemma SynOnceStep(w: World, e: Event)
    requires Linked(w) && SynOnce(w.b) && (e.Arrive? ==> e.a.seg in w.a.out)
    ensures SynOnce(Step(w.b, e))
  {
    if w.b.state == Listen {
      SynFirst(w, e);
    } else {
      NoListenAgain(w, e);
      PastSynStep(w.b, e);
      hide Linked, PastSyn, Step;
      var t, u := w.b, Step(w.b, e);
      forall i | 1 <= i < |u.out| ensures !u.out[i].flags.syn {
        if i < |t.out| {
          assert u.out[i] == u.out[..|t.out|][i];
        }
      }
    }
  }

  lemma {:induction false} SynOncePlay(isnA: u32, isnB: u32, env: Env, ms: seq<Move>)
    requires PermittedPlay(Start(isnA, isnB, env), ms) && isnA != M32 - 1
    requires var w := Play(Start(isnA, isnB, env), ms); |w.a.accepted| < M32 - 1 && |w.b.accepted| < M32 - 1
    ensures SynOnce(Play(Start(isnA, isnB, env), ms).b)
  {
    if ms != [] {
      var p, m := ms[..|ms| - 1], ms[|ms| - 1];
      var w := Play(Start(isnA, isnB, env), p);
      GrowsStep(w.a, m.e);
      GrowsStep(w.b, m.e);
      SynOncePlay(isnA, isnB, env, p);
      PlayInvariant(isnA, isnB, env, p);
      hide Linked, SynOnce, Step;
      if m.side == B {
        SynOnceStep(w, m.e);
      }
    }
  }

  // ----- the initial number that makes the handshake start over -----

  const LOOP: u32 := 0xFFFF_FFFF
  const G0 := Segment(LOOP, 0, SYN, [])

  function Looped(isnB: u32): (w: World) {
    var a := Opened(false, LOOP, ALL_WELL);
    var b := Opened(true, isnB, ALL_WELL);
    var g := Segment(isnB, 0, SYNACK, []);
    World(a.(out := [G0, Segment(0, isnB, RST, [])]),
          b.(state := SynReceived, rcvNxt := 0, irs := LOOP, nxt := Add(isnB, 2), out := [g, g]))
  }

  lemma LoopSteps(isnB: u32)
    ensures var w := Start(LOOP, isnB, ALL_WELL);
            var a, b, g := w.a, w.b, Segment(isnB, 0, SYNACK, []);
            var b1 := b.(state := SynReceived, rcvNxt := 0, irs := LOOP, nxt := Add(isnB, 1), out := [g]);
            && w.a.out == [G0] && Step(b, Hear(G0)) == b1
            && Step(a, Hear(g)) == a.(out := [G0, Segment(0, isnB, RST, [])])
            && Step(b1, Hear(Segment(0, isnB, RST, []))) == b1.(state := Listen)
            && Step(b1.(state := Listen), Hear(G0)) == Looped(isnB).b
  {
    AddAdd(isnB, 1, 1);
  }

  lemma LoopingPlay(isnB: u32) returns (ms: seq<Move>)
    ensures PermittedPlay(Start(LOOP, isnB, ALL_WELL), ms) && Play(Start(LOOP, isnB, ALL_WELL), ms) == Looped(isnB)
  {
    LoopSteps(isnB);
    hide Step;
    var w, g := Start(LOOP, isnB, ALL_WELL), Segment(isnB, 0, SYNACK, []);
    ms := [];
    PlaySnoc(w, ms, Move(B, Hear(G0)));
    ms := ms + [Move(B, Hear(G0))];
    PlaySnoc(w, ms, Move(A, Hear(g)));
    ms := ms + [Move(A, Hear(g))];
    PlaySnoc(w, ms, Move(B, Hear(Segment(0, isnB, RST, []))));
    ms := ms + [Move(B, Hear(Segment(0, isnB, RST, [])))];
    PlaySnoc(w, ms, Move(B, Hear(G0)));
    ms := ms + [Move(B, Hear(G0))];
  }

  // A play after which the responder has sent two SYNs.
  ghost predicate AnswersTwice(isnA: u32, isnB: u32, env: Env, ms: seq<Move>) {
    && PermittedPlay(Start(isnA, isnB, env), ms)
    && var w := Play(Start(isnA, isnB, env), ms);
       && |w.a.accepted| < M32 - 1 && |w.b.accepted| < M32 - 1
       && exists i, j :: 0 <= i < j < |w.b.out| && w.b.out[i].flags.syn && w.b.out[j].flags.syn
  }

  // Main result: the SYN,ACK goes out once, so that one the network loses is lost for good,
  // in every play of two connections but those whose initiator starts at 2^32-1, which it
  // cannot establish: its resets take the listener back and let it answer again.
  lemma SynAckRepeatsIff(isnA: u32, isnB: u32)
    ensures (exists env, ms :: AnswersTwice(isnA, isnB, env, ms)) <==> isnA == M32 - 1
  {
    if isnA == M32 - 1 {
      var ms := LoopingPlay(isnB);
      var w := Looped(isnB);
      assert w.b.out[0].flags.syn && w.b.out[1].flags.syn;
      assert AnswersTwice(isnA, isnB, ALL_WELL, ms);
    } else {
      forall env, ms ensures !AnswersTwice(isnA, isnB, env, ms) {
        if AnswersTwice(isnA, isnB, env, ms) {
          SynOncePlay(isnA, isnB, env, ms);
        }
      }
    }
  }
}
