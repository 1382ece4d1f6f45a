// A whole session over a lossy network: the first SYN, the first data segment and the first
// acknowledgment are lost, and both sides still end in CLOSED with everything delivered.
module TcpSession {
  import opened Bytes
  import opened SeqNum
  import opened TcpExample
  import opened TcpSpec
  import opened TcpWorld

  // The initial numbers of both sides and what the user of a sends.
  datatype Setup = Setup(i: u32, j: u32, data: seq<byte>)

  // No number of the session, and no window in it, wraps.
  predicate Plain(x: Setup) {
    1 <= |x.data| <= 1500 && x.i + |x.data| + 1502 < M32 && x.j + 1502 < M32
  }

  type Session = x: Setup | Plain(x) witness Setup.Setup(0, 0, [0])

  // ----- the segments -----

  function SynOf(x: Session): Segment { Segment(x.i, 0, SYN, []) }
  function SynAckOf(x: Session): Segment { Segment(x.j, x.i + 1, SYNACK, []) }
  function AckOf(x: Session): Segment { Segment(x.i + 1, x.j + 1, ACK, []) }
  function DataOf(x: Session): Segment { Segment(x.i + 1, x.j + 1, ACK, x.data) }
  function DataAckOf(x: Session): Segment { Segment(x.j + 1, x.i + 1 + |x.data|, ACK, []) }
  function FinOf(x: Session): Segment { Segment(x.i + 1 + |x.data|, x.j + 1, FINACK, []) }
  function FinAckOf(x: Session): Segment { Segment(x.j + 1, x.i + 2 + |x.data|, ACK, []) }
  function LastFinOf(x: Session): Segment { Segment(x.j + 1, x.i + 2 + |x.data|, FINACK, []) }
  function LastAckOf(x: Session): Segment { Segment(x.i + 2 + |x.data|, x.j + 2, ACK, []) }

  // ----- the sides after each of their moves -----

  function Outstanding(s: Segment): Option<TxSegment> { Some(TxSegment(s, s)) }

  function P0(x: Session): Tcb {
    Tcb(SynSent, false, x.i, x.i + 1, x.i, 0, 0, 1500, Outstanding(SynOf(x)), [], [], Some(5), 120, [SynOf(x)], [], [])
  }

  function P1(x: Session): Tcb { P0(x).(out := [SynOf(x), SynOf(x)]) }

  function P2(x: Session): Tcb {
    P1(x).(state := Established, una := x.i + 1, rcvNxt := x.j + 1, irs := x.j, txSeg := None, tmr := None,
           out := P1(x).out + [AckOf(x)])
  }

  function P3(x: Session): Tcb {
    P2(x).(nxt := x.i + 1 + |x.data|, txSeg := Outstanding(DataOf(x)), tmr := Some(3), accepted := x.data,
           out := P2(x).out + [DataOf(x)])
  }

  function P4(x: Session): Tcb { P3(x).(tmr := Some(5), out := P3(x).out + [DataOf(x)]) }

  function P5(x: Session): Tcb { P4(x).(out := P4(x).out + [DataOf(x)]) }

  function P6(x: Session): Tcb { P5(x).(una := x.i + 1 + |x.data|, txSeg := None, tmr := None) }

  function P7(x: Session): Tcb {
    P6(x).(state := FinWait1, nxt := x.i + 2 + |x.data|, txSeg := Outstanding(FinOf(x)), tmr := Some(1))
  }

  function P8(x: Session): Tcb { P7(x).(tmr := Some(5), out := P7(x).out + [FinOf(x)]) }

  function P9(x: Session): Tcb { P8(x).(state := FinWait2, txSeg := None, tmr := None) }

  function P10(x: Session): Tcb {
    P9(x).(state := TimeWait, una := x.i + 2 + |x.data|, rcvNxt := x.j + 2, tmr := Some(120), out := P9(x).out + [LastAckOf(x)])
  }

  function P11(x: Session): Tcb { P10(x).(state := Closed, tmr := None) }

  function Q0(x: Session): Tcb {
    Tcb(Listen, true, x.j, x.j, x.j, 0, 0, 1500, None, [], [], None, 120, [], [], [])
  }

  function Q1(x: Session): Tcb {
    Q0(x).(state := SynReceived, nxt := x.j + 1, rcvNxt := x.i + 1, irs := x.i, out := [SynAckOf(x)])
  }

  function Q2(x: Session): Tcb { Q1(x).(state := Established, una := x.j + 1) }

  function Q3(x: Session): Tcb {
    Q2(x).(rcvNxt := x.i + 1 + |x.data|, rxData := [RxNode.RxChunk(x.data, 0)], enqueued := x.data,
           out := Q2(x).out + [DataAckOf(x)])
  }

  function Q4(x: Session): Tcb { Q3(x).(out := Q3(x).out + [DataAckOf(x)]) }

  function Q5(x: Session): Tcb {
    Q4(x).(state := CloseWait, rcvNxt := x.i + 2 + |x.data|, rxData := Q4(x).rxData + [RxNode.RxChunk([0], 0)],
           enqueued := x.data + [0], out := Q4(x).out + [FinAckOf(x)])
  }

  function Q6(x: Session): Tcb {
    Q5(x).(state := LastAck, nxt := x.j + 2, txSeg := Outstanding(LastFinOf(x)), tmr := Some(1))
  }

  function Q7(x: Session): Tcb { Q6(x).(tmr := Some(5), out := Q6(x).out + [LastFinOf(x)]) }

  function Q8(x: Session): Tcb { Q7(x).(state := Closed, txSeg := None, tmr := None) }

  // ----- the moves -----

  const TICK := Timeout(ALL_WELL)

  lemma Opening(x: Session)
    ensures Start(x.i, x.j, ALL_WELL) == World(P0(x), Q0(x))
    ensures Step(P0(x), TICK) == P1(x) && Step(Q0(x), Hear(SynOf(x))) == Q1(x)
  {
  }

  lemma Establishing(x: Session)
    ensures Step(P1(x), Hear(SynAckOf(x))) == P2(x) && Step(Q1(x), Hear(AckOf(x))) == Q2(x)
  {
  }

  lemma Sending(x: Session)
    ensures Step(P2(x), Send(x.data, ALL_WELL)) == P3(x) && Step(P3(x), TICK) == P4(x) && Step(P4(x), TICK) == P5(x)
  {
    assert x.data[..|x.data|] == x.data;
    assert [] + x.data == x.data;
  }

  lemma Receiving(x: Session)
    ensures Step(Q2(x), Hear(DataOf(x))) == Q3(x)
  {
    TakeWithin(x.data, [0, 0], |x.data|);
    assert x.data[..|x.data|] == x.data;
    assert [] + x.data == x.data;
  }

  // The repetition is refused, and answered.
  lemma Repeating(x: Session)
    ensures Step(Q3(x), Hear(DataOf(x))) == Q4(x)
  {
  }

  lemma Completing(x: Session)
    ensures Step(P5(x), Hear(DataAckOf(x))) == P6(x)
  {
  }

  lemma ClosingA(x: Session)
    ensures Step(P6(x), Close(ALL_WELL)) == P7(x) && Step(P7(x), TICK) == P8(x)
    ensures Step(P8(x), Hear(FinAckOf(x))) == P9(x)
  {
  }

  lemma HearingFin(x: Session)
    ensures Step(Q4(x), Hear(FinOf(x))) == Q5(x)
  {
    assert ([] + [0, 0])[..1] == [0];
  }

  lemma ClosingB(x: Session)
    ensures Step(Q5(x), Close(ALL_WELL)) == Q6(x) && Step(Q6(x), TICK) == Q7(x)
  {
  }

  lemma Ending(x: Session)
    ensures Step(P9(x), Hear(LastFinOf(x))) == P10(x) && Step(P10(x), TICK) == P11(x)
    ensures Step(Q7(x), Hear(LastAckOf(x))) == Q8(x)
  {
  }

  // w is reached by ms.
  ghost predicate Reached(x: Session, ms: seq<Move>, w: World) {
    PermittedPlay(Start(x.i, x.j, ALL_WELL), ms) && Play(Start(x.i, x.j, ALL_WELL), ms) == w
  }

  lemma Moves(x: Session, ms: seq<Move>, w: World, m: Move) returns (ns: seq<Move>)
    requires Reached(x, ms, w) && Permitted(w, m)
    ensures ns == ms + [m] && Reached(x, ns, Next(w, m))
  {
    ns := ms + [m];
    PlaySnoc(Start(x.i, x.j, ALL_WELL), ms, m);
  }

  lemma Transfer(x: Session) returns (ms: seq<Move>)
    ensures Reached(x, ms, World(P6(x), Q4(x)))
  {
    Opening(x);
    Establishing(x);
    Sending(x);
    Receiving(x);
    Repeating(x);
    Completing(x);
    hide Step;
    ms := [];
    ms := Moves(x, ms, World(P0(x), Q0(x)), Move(A, TICK));
    ms := Moves(x, ms, World(P1(x), Q0(x)), Move(B, Hear(SynOf(x))));
    ms := Moves(x, ms, World(P1(x), Q1(x)), Move(A, Hear(SynAckOf(x))));
    ms := Moves(x, ms, World(P2(x), Q1(x)), Move(B, Hear(AckOf(x))));
    ms := Moves(x, ms, World(P2(x), Q2(x)), Move(A, Send(x.data, ALL_WELL)));
    ms := Moves(x, ms, World(P3(x), Q2(x)), Move(A, TICK));
    ms := Moves(x, ms, World(P4(x), Q2(x)), Move(B, Hear(DataOf(x))));
    ms := Moves(x, ms, World(P4(x), Q3(x)), Move(A, TICK));
    ms := Moves(x, ms, World(P5(x), Q3(x)), Move(B, Hear(DataOf(x))));
    ms := Moves(x, ms, World(P5(x), Q4(x)), Move(A, Hear(DataAckOf(x))));
  }

  // Main result: for all data that fit the window and all initial numbers that keep the
  // session from wrapping there is a play from the two opens to CLOSED on both sides in which
  // exactly the data, and the byte of the FIN, have been queued, although the first SYN, the
  // first data segment and its first acknowledgment are lost.
  lemma WholeSession(x: Session) returns (ms: seq<Move>)
    ensures PermittedPlay(Start(x.i, x.j, ALL_WELL), ms)
    ensures var w := Play(Start(x.i, x.j, ALL_WELL), ms);
            w.a.state == w.b.state == Closed && w.a.accepted == x.data && w.b.enqueued == x.data + [0]
  {
    ClosingA(x);
    HearingFin(x);
    ClosingB(x);
    Ending(x);
    hide Step;
    ms := Transfer(x);
    ms := Moves(x, ms, World(P6(x), Q4(x)), Move(A, Close(ALL_WELL)));
    ms := Moves(x, ms, World(P7(x), Q4(x)), Move(A, TICK));
    ms := Moves(x, ms, World(P8(x), Q4(x)), Move(B, Hear(FinOf(x))));
    ms := Moves(x, ms, World(P8(x), Q5(x)), Move(A, Hear(FinAckOf(x))));
    ms := Moves(x, ms, World(P9(x), Q5(x)), Move(B, Close(ALL_WELL)));
    ms := Moves(x, ms, World(P9(x), Q6(x)), Move(B, TICK));
    ms := Moves(x, ms, World(P9(x), Q7(x)), Move(A, Hear(LastFinOf(x))));
    ms := Moves(x, ms, World(P10(x), Q7(x)), Move(B, Hear(LastAckOf(x))));
    ms := Moves(x, ms, World(P10(x), Q8(x)), Move(A, TICK));
  }
}
