// Short runs that show where the guarantees of the other files end.
module TcpFaults {
  import opened Bytes
  import opened TcpExample
  import opened TcpRuns
  import opened TcpSender
  import opened TcpSpec
  import opened TcpStall
  import opened TcpStream
  import opened TcpWorld

  lemma Runs(t: Tcb, es: seq<Event>, u: Tcb, e: Event, v: Tcb)
    requires Run(t, es) == u && Step(u, e) == v
    ensures Run(t, es + [e]) == v
  {
    RunSnoc(t, es, e);
  }

  // ----- a listener and an impolite peer -----

  const X1 := B0.(state := SynReceived, rcvNxt := 101, irs := 100, nxt := 1, out := [Segment(0, 101, SYNACK, [])])

  lemma ImpoliteSteps()
    ensures Step(B0, Hear(Segment(100, 0, SYN, []))) == X1
    ensures Step(X1, Hear(Segment(101, 0, ACK, []))) == X1.(state := Established)
  {
  }

  // A listener established by an acknowledgment of 0, the number of its own SYN: the SYN
  // stays unacknowledged with nothing outstanding.
  lemma PassiveBreaks()
    ensures var t := Run(Opened(true, 0, ALL_WELL), [Hear(Segment(100, 0, SYN, [])), Hear(Segment(101, 0, ACK, []))]);
            t.state == Established && !StopAndWait(t) && !OneOutstanding(t)
  {
    ImpoliteSteps();
    assert Opened(true, 0, ALL_WELL) == B0;
    hide Step;
    var e0, e1 := Hear(Segment(100, 0, SYN, [])), Hear(Segment(101, 0, ACK, []));
    Runs(B0, [], B0, e0, X1);
    Runs(B0, [] + [e0], X1, e1, X1.(state := Established));
    assert [] + [e0] + [e1] == [e0, e1];
  }

  const LAST: u32 := 0xFFFF_FFFF
  const Y0 := B0.(una := LAST, nxt := LAST, iss := LAST)
  const Y1 := Y0.(state := SynReceived, rcvNxt := 101, irs := 100, nxt := 0, out := [Segment(LAST, 101, SYNACK, [])])
  const Y2 := Y1.(state := CloseWait, out := Y1.out + [Segment(0, 0, RST, [])])
  const FIN := Segment(LAST, 101, FINACK, [])
  const Y3 := Y2.(state := LastAck, nxt := 1, txSeg := Some(TxSegment(FIN, FIN)), tmr := Some(1))
  const Y4 := Y3.(tmr := Some(5), out := Y2.out + [FIN])

  lemma MisplacedSteps()
    ensures Opened(true, LAST, ALL_WELL) == Y0 && Step(Y0, Hear(Segment(100, 0, SYN, []))) == Y1
    ensures Step(Y1, Hear(Segment(101, 0, FINACK, []))) == Y2
    ensures Step(Y2, Close(ALL_WELL)) == Y3 && Step(Y3, Timeout(ALL_WELL)) == Y4
  {
  }

  // A listener with number 2^32-1 whose peer ends the handshake with a FIN that
  // acknowledges nothing: its own FIN goes out at the number of its SYN.
  lemma FinMisplaced() returns (es: seq<Event>)
    ensures Lossless(es) && !OutInPlace(Run(Opened(true, LAST, ALL_WELL), es))
  {
    MisplacedSteps();
    hide Step;
    es := [] + [Hear(Segment(100, 0, SYN, []))];
    Runs(Y0, [], Y0, Hear(Segment(100, 0, SYN, [])), Y1);
    Runs(Y0, es, Y1, Hear(Segment(101, 0, FINACK, [])), Y2);
    es := es + [Hear(Segment(101, 0, FINACK, []))];
    Runs(Y0, es, Y2, Close(ALL_WELL), Y3);
    es := es + [Close(ALL_WELL)];
    Runs(Y0, es, Y3, Timeout(ALL_WELL), Y4);
    es := es + [Timeout(ALL_WELL)];
    assert Y4.out[|Y2.out|] == FIN && FIN in Y4.out && !InPlace(FIN, Y4.iss, Y4.accepted);
  }

  // ----- CLOSE_WAIT -----

  const A3 := A2.(txData := [[8]], accepted := [7, 8])
  const A4 := A3.(state := CloseWait, rcvNxt := 2, rxData := [RxNode.RxChunk([0], 0)], enqueued := [0],
                  txSeg := Some(TxSegment(S3.(ackNo := 2), S3)))
  const A5 := A4.(tmr := None)
  const A6 := A5.(state := LastAck)
  const S4 := Segment(2, 2, ACK, [8])
  const A7 := A6.(una := 2, nxt := 3, txSeg := Some(TxSegment(S4, S4)), txData := [], tmr := Some(3), out := [S0, S2, S3, S4])

  lemma SilenceBegins()
    ensures Opened(false, 0, ALL_WELL) == A0 && Step(A0, Hear(S1)) == A1 && Step(A1, Send([7], ALL_WELL)) == A2
    ensures Step(A2, Send([8], ALL_WELL)) == A3 && Step(A3, Hear(Segment(1, 1, FINACK, []))) == A4
  {
    ExampleOpens();
    ExampleEstablishes();
    ExampleSends();
    assert [8][..1] == [8];
    assert ([] + [0, 0])[..1] == [0];
    assert [7] + [8] == [7, 8];
  }

  lemma SilenceSteps()
    ensures Step(A4, Timeout(ALL_WELL)) == A5 && Step(A5, Close(ALL_WELL)) == A6
    ensures Step(A6, Hear(Segment(2, 2, ACK, []))) == A7
  {
  }

  // From the open on: a segment is outstanding in CLOSE_WAIT, its timer expires and nothing
  // is sent; after the user has closed, an acknowledgment lets the next chunk go out.
  lemma SilenceEnds() returns (es: seq<Event>)
    ensures |es| == 7 && var t := Opened(false, 0, ALL_WELL);
            && Waiting(Run(t, es[..4])) && Run(t, es[..4]).state == CloseWait
            && Silent(Run(t, es[..5])) && Run(t, es[..5]).out == Run(t, es[..4]).out
            && Releases(Run(t, es[..6]), es[6])
            && Run(t, es).out == Run(t, es[..6]).out + [Segment(2, 2, ACK, [8])]
  {
    SilenceBegins();
    SilenceSteps();
    hide Step;
    var e0, e1, e2, e3 := Hear(S1), Send([7], ALL_WELL), Send([8], ALL_WELL), Hear(Segment(1, 1, FINACK, []));
    var e4, e5, e6 := Timeout(ALL_WELL), Close(ALL_WELL), Hear(Segment(2, 2, ACK, []));
    Runs(A0, [], A0, e0, A1);
    Runs(A0, [] + [e0], A1, e1, A2);
    Runs(A0, [] + [e0] + [e1], A2, e2, A3);
    var es4 := [] + [e0] + [e1] + [e2] + [e3];
    Runs(A0, [] + [e0] + [e1] + [e2], A3, e3, A4);
    Runs(A0, es4, A4, e4, A5);
    Runs(A0, es4 + [e4], A5, e5, A6);
    Runs(A0, es4 + [e4] + [e5], A6, e6, A7);
    es := es4 + [e4] + [e5] + [e6];
    assert es[..4] == es4 && es[..5] == es4 + [e4] && es[..6] == es4 + [e4] + [e5];
  }

  // ----- the byte a FIN brings along -----

  const F := Segment(1, 1, FINACK, [])
  const C2 := A1.(state := FinWait1, nxt := 2, txSeg := Some(TxSegment(F, F)), tmr := Some(1))
  const C3 := C2.(tmr := Some(5), out := [S0, S2, F])
  const D3 := B2.(state := CloseWait, rcvNxt := 2, rxData := [RxNode.RxChunk([0], 0)], enqueued := [0],
                  out := [S1, Segment(1, 2, ACK, [])])

  lemma StraySteps()
    ensures Step(A1, Close(ALL_WELL)) == C2 && Step(C2, Timeout(ALL_WELL)) == C3
    ensures Step(B2, Hear(F)) == D3
  {
    assert ([] + [0, 0])[..1] == [0];
  }

  // A play, from the opens on, in which nothing is ever sent by a user and one side closes:
  // the other side's user is queued a byte.
  lemma StrayByte() returns (ms: seq<Move>)
    ensures PermittedPlay(Start(0, 0, ALL_WELL), ms)
    ensures var w := Play(Start(0, 0, ALL_WELL), ms); w.a.accepted == [] && Finishing(w.a) && w.b.enqueued == [0]
  {
    ExampleOpens();
    ExampleEstablishes();
    StraySteps();
    hide Step;
    var w := Start(0, 0, ALL_WELL);
    ms := [];
    PlaySnoc(w, ms, Move(B, Hear(S0)));
    ms := ms + [Move(B, Hear(S0))];
    PlaySnoc(w, ms, Move(A, Hear(S1)));
    ms := ms + [Move(A, Hear(S1))];
    PlaySnoc(w, ms, Move(B, Hear(S2)));
    ms := ms + [Move(B, Hear(S2))];
    PlaySnoc(w, ms, Move(A, Close(ALL_WELL)));
    ms := ms + [Move(A, Close(ALL_WELL))];
    PlaySnoc(w, ms, Move(A, Timeout(ALL_WELL)));
    ms := ms + [Move(A, Timeout(ALL_WELL))];
    PlaySnoc(w, ms, Move(B, Hear(F)));
    ms := ms + [Move(B, Hear(F))];
    assert Play(w, ms) == World(C3, D3);
  }

  // ----- a retransmission that is out of date -----

  const S5 := Segment(1, 1, ACK, [9])
  const E3 := A2.(rcvNxt := 2, rxData := [RxNode.RxChunk([9], 0)], enqueued := [9], txSeg := Some(TxSegment(S3.(ackNo := 2), S3)))
  const E4 := E3.(tmr := Some(5), out := [S0, S2, S3, S3])

  lemma StaleSteps()
    ensures Opened(false, 0, ALL_WELL) == A0 && Step(A0, Hear(S1)) == A1 && Step(A1, Send([7], ALL_WELL)) == A2
    ensures Step(A2, Hear(S5)) == E3 && Step(E3, Timeout(ALL_WELL)) == E4
  {
    ExampleOpens();
    ExampleEstablishes();
    ExampleSends();
    assert ([9] + [0, 0])[..1] == [9];
  }

  // From the open on: text arrives while a segment is outstanding, and what the timer then
  // sends acknowledges less than has been received.
  lemma StaleRetransmission() returns (es: seq<Event>)
    ensures |es| == 4 && var t := Opened(false, 0, ALL_WELL);
            && FreshAck(Run(t, es[..2])) && !FreshAck(Run(t, es[..3])) && Run(t, es).rcvNxt == 2
            && Run(t, es).out == Run(t, es[..3]).out + [Segment(1, 1, ACK, [7])]
  {
    StaleSteps();
    hide Step;
    var e0, e1, e2, e3 := Hear(S1), Send([7], ALL_WELL), Hear(S5), Timeout(ALL_WELL);
    Runs(A0, [], A0, e0, A1);
    var es2 := [] + [e0] + [e1];
    Runs(A0, [] + [e0], A1, e1, A2);
    Runs(A0, es2, A2, e2, E3);
    Runs(A0, es2 + [e2], E3, e3, E4);
    es := es2 + [e2] + [e3];
    assert es[..2] == es2 && es[..3] == es2 + [e2];
  }

  // ----- bytes lost by a failed allocation -----

  const L2 := A1.(accepted := [7])
  const S6 := Segment(1, 1, ACK, [8])
  const L3 := L2.(txSeg := Some(TxSegment(S6, S6)), tmr := Some(3), nxt := 2, accepted := [7, 8], out := [S0, S2, S6])

  lemma LossSteps()
    ensures Opened(false, 0, ALL_WELL) == A0 && Step(A0, Hear(S1)) == A1
    ensures Step(A1, Send([7], ALL_WELL.(dataSeg := false))) == L2 && Step(L2, Send([8], ALL_WELL)) == L3
  {
    ExampleOpens();
    ExampleEstablishes();
    assert [7][..1] == [7] && [8][..1] == [8];
    assert [7] + [8] == [7, 8];
  }

  // From the open on: the segment for the first byte cannot be allocated, and the second
  // byte goes out with the number of the first.
  lemma LossMisplaces() returns (es: seq<Event>)
    ensures var t := Run(Opened(false, 0, ALL_WELL), es);
            t.accepted == [7, 8] && Segment(1, 1, ACK, [8]) in t.out && !OutInPlace(t)
  {
    LossSteps();
    hide Step;
    var e1 := Send([7], ALL_WELL.(dataSeg := false));
    es := [] + [Hear(S1)];
    Runs(A0, [], A0, Hear(S1), A1);
    Runs(A0, es, A1, e1, L2);
    es := es + [e1];
    Runs(A0, es, L2, Send([8], ALL_WELL), L3);
    es := es + [Send([8], ALL_WELL)];
    assert L3.out[2] == S6;
    MisplacedByte();
  }

  lemma MisplacedByte()
    ensures !InPlace(S6, 0, [7, 8])
  {
    forall o: nat ensures !SliceAt(S6, 0, [7, 8], o) {
      assert o == 0 ==> [7, 8][0..1] == [7];
    }
  }
}
