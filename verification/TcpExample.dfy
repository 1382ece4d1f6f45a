// A play of TcpWorld.dfy in which a byte arrives: the assumptions of TcpStream.dfy
// can be met.
module TcpExample {
  import opened Bytes
  import opened TcpSpec
  import opened TcpStream
  import opened TcpWorld

  const ALL_WELL := Env(true, true, true, true, true, true, true)
  const S0 := Segment(0, 0, SYN, [])
  const S1 := Segment(0, 1, SYNACK, [])
  const S2 := Segment(1, 1, ACK, [])
  const S3 := Segment(1, 1, ACK, [7])
  const A0 := Tcb(SynSent, false, 0, 1, 0, 0, 0, 1500, Some(TxSegment(S0, S0)), [], [], Some(5), 120, [S0], [], [])
  const B0 := Tcb(Listen, true, 0, 0, 0, 0, 0, 1500, None, [], [], None, 120, [], [], [])
  const B1 := B0.(state := SynReceived, rcvNxt := 1, nxt := 1, out := [S1])
  const A1 := A0.(state := Established, una := 1, rcvNxt := 1, txSeg := None, tmr := None, out := [S0, S2])
  const B2 := B1.(state := Established, una := 1)
  const A2 := A1.(txSeg := Some(TxSegment(S3, S3)), tmr := Some(3), nxt := 2, accepted := [7], out := [S0, S2, S3])
  const B3 := B2.(rcvNxt := 2, rxData := [RxNode.RxChunk([7], 0)], enqueued := [7], out := [S1, Segment(1, 2, ACK, [])])

  function Hear(g: Segment): Event {
    Arrive(Arrival(g, 0, 0), ALL_WELL)
  }

  lemma ExampleOpens()
    ensures Start(0, 0, ALL_WELL) == World(A0, B0) && Step(B0, Hear(S0)) == B1
  {
  }

  lemma ExampleEstablishes()
    ensures Step(A0, Hear(S1)) == A1 && Step(B1, Hear(S2)) == B2
  {
  }

  lemma ExampleSends()
    ensures Step(A1, Send([7], ALL_WELL)) == A2
  {
    assert [7][..1] == [7];
  }

  lemma ExampleReceives()
    ensures Step(B2, Hear(S3)) == B3
  {
    assert ([7] + [0, 0])[..1] == [7];
  }

  lemma PlaySnoc(w: World, ms: seq<Move>, m: Move)
    requires PermittedPlay(w, ms) && Permitted(Play(w, ms), m)
    ensures Play(w, ms + [m]) == Next(Play(w, ms), m) && PermittedPlay(w, ms + [m])
  {
    assert (ms + [m])[..|ms|] == ms;
  }

  lemma SomethingArrives() returns (ms: seq<Move>)
    ensures PermittedPlay(Start(0, 0, ALL_WELL), ms) && NoClose(ms) && Play(Start(0, 0, ALL_WELL), ms) == World(A2, B3)
  {
    ExampleOpens();
    ExampleEstablishes();
    ExampleSends();
    ExampleReceives();
    hide Step;
    var w := Start(0, 0, ALL_WELL);
    ms := [];
    PlaySnoc(w, ms, Move(B, Hear(S0)));
    ms := ms + [Move(B, Hear(S0))];
    PlaySnoc(w, ms, Move(A, Hear(S1)));
    ms := ms + [Move(A, Hear(S1))];
    PlaySnoc(w, ms, Move(B, Hear(S2)));
    ms := ms + [Move(B, Hear(S2))];
    PlaySnoc(w, ms, Move(A, Send([7], ALL_WELL)));
    ms := ms + [Move(A, Send([7], ALL_WELL))];
    PlaySnoc(w, ms, Move(B, Hear(S3)));
    ms := ms + [Move(B, Hear(S3))];
  }
}
