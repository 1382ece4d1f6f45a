// What reaches the two users, over every play of two connections.
module TcpStream {
  import opened Bytes
  import opened SeqNum
  import opened TcpLink
  import opened TcpRuns
  import opened TcpSender
  import opened TcpSpec
  import opened TcpWorld

  // ----- what one direction means -----

  // What r has queued of what the user of s gave: a prefix, or everything and then the one
  // byte that a FIN brings along.
  ghost predicate Faithful(given: seq<byte>, s: Tcb, r: Tcb) {
    r.enqueued <= given || (Finishing(s) && |r.enqueued| == |given| + 1 && given <= r.enqueued)
  }

  // Few enough bytes were given on both sides for no sequence number to be used twice.
  ghost predicate Bounded(w0: World, ms: seq<Move>) {
    |GivenBy(w0, ms, A)| < M32 - 1 && |GivenBy(w0, ms, B)| < M32 - 1
  }

  lemma BoundedIs(isnA: u32, isnB: u32, env: Env, ms: seq<Move>)
    ensures var w0 := Start(isnA, isnB, env);
            var w := Play(w0, ms);
            && w.a.accepted == GivenBy(w0, ms, A) && w.b.accepted == GivenBy(w0, ms, B)
            && (Bounded(w0, ms) <==> |w.a.accepted| < M32 - 1 && |w.b.accepted| < M32 - 1)
  {
    PlayAccepts(isnA, isnB, env, ms, A);
    PlayAccepts(isnA, isnB, env, ms, B);
  }

  // While established, snd.una and snd.nxt bracket what the peer has queued.
  ghost predicate Bracketed(s: Tcb, r: Tcb) {
    s.state == Established ==> Off(Base(s), s.una) <= |r.enqueued| <= Off(Base(s), s.nxt)
  }

  lemma DirMeans(s: Tcb, r: Tcb)
    requires Dir(s, r)
    ensures Faithful(s.accepted, s, r) && (Finishing(s) ==> s.accepted <= r.enqueued)
  {
    if |r.enqueued| == |s.accepted| {
      assert s.accepted[..|s.accepted|] == s.accepted;
    }
  }

  lemma Bracket(s: Tcb, r: Tcb)
    requires Dir(s, r) && Alive(s)
    ensures Bracketed(s, r)
  {
    if s.state == Established {
      AddAdd(s.iss, 1, Transmitted(s));
      OffAdd(Base(s), Transmitted(s));
      AddAdd(s.iss, 1, Acked(s));
      OffAdd(Base(s), Acked(s));
    }
  }

  // Main result: over every play from the two opens on, with both users sending and closing
  // when they like and a network that loses, repeats and reorders, neither side queues
  // anything but a prefix of the bytes given to tcp_send on the other, and after its FIN one
  // stray byte; while a side is established its snd.una and snd.nxt bracket how much that is;
  // and a side whose FIN has been built, let alone one in FIN_WAIT_2, TIME_WAIT or CLOSED,
  // has had everything its user ever gave queued by the other.
  lemma ClosingSafety(isnA: u32, isnB: u32, env: Env, ms: seq<Move>)
    requires PermittedPlay(Start(isnA, isnB, env), ms) && Bounded(Start(isnA, isnB, env), ms)
    ensures var w0 := Start(isnA, isnB, env);
            var w, givenA, givenB := Play(w0, ms), GivenBy(w0, ms, A), GivenBy(w0, ms, B);
            && Faithful(givenA, w.a, w.b) && Faithful(givenB, w.b, w.a)
            && Bracketed(w.a, w.b) && Bracketed(w.b, w.a)
            && (Finishing(w.a) ==> givenA <= w.b.enqueued)
            && (Finishing(w.b) ==> givenB <= w.a.enqueued)
  {
    BoundedIs(isnA, isnB, env, ms);
    PlayInvariant(isnA, isnB, env, ms);
    var w := Play(Start(isnA, isnB, env), ms);
    hide GivenBy, Play, Bounded;
    if isnA != M32 - 1 {
      hide Dir, Alive, Faithful, Bracketed;
      DirMeans(w.a, w.b);
      DirMeans(w.b, w.a);
      Bracket(w.a, w.b);
      Bracket(w.b, w.a);
    }
  }

  // Consequence: an idle established side has had everything delivered.
  lemma IdleMeansDelivered(isnA: u32, isnB: u32, env: Env, ms: seq<Move>)
    requires PermittedPlay(Start(isnA, isnB, env), ms) && Bounded(Start(isnA, isnB, env), ms)
    ensures var w0 := Start(isnA, isnB, env);
            var w := Play(w0, ms);
            && (w.a.state == Established && w.a.txSeg.None? && w.a.txData == [] ==> w.b.enqueued == GivenBy(w0, ms, A))
            && (w.b.state == Established && w.b.txSeg.None? && w.b.txData == [] ==> w.a.enqueued == GivenBy(w0, ms, B))
  {
    BoundedIs(isnA, isnB, env, ms);
    PlayInvariant(isnA, isnB, env, ms);
    var w := Play(Start(isnA, isnB, env), ms);
    hide GivenBy, Play, Bounded;
    if isnA != M32 - 1 {
      IdleDir(w.a, w.b);
      IdleDir(w.b, w.a);
    }
  }

  lemma IdleDir(s: Tcb, r: Tcb)
    requires Dir(s, r)
    ensures s.state == Established && s.txSeg.None? && s.txData == [] ==> r.enqueued == s.accepted
  {
    assert s.txData == [] ==> Flatten(s.txData) == [];
    assert s.accepted[..|s.accepted|] == s.accepted;
  }

  // ----- as long as nobody closes -----

  ghost predicate NoClose(ms: seq<Move>) {
    forall m :: m in ms ==> !m.e.Close?
  }

  predicate Unclosed(t: Tcb) {
    t.state in {Listen, SynSent, SynReceived, Established}
  }

  lemma UnclosedStep(s: Tcb, r: Tcb, e: Event)
    requires Four(s, r) && Unclosed(s) && Unclosed(r) && !e.Close? && (r.state == SynReceived ==> r.passive)
    requires e.Arrive? ==> e.a.seg in s.out
    ensures Unclosed(Step(r, e))
  {
    if e.Arrive? {
      assert Honest(e.a.seg, s, r);
      UnclosedReceived(r, e.a, e.env);
    }
  }

  lemma UnclosedReceived(t: Tcb, a: Arrival, env: Env)
    requires Unclosed(t) && !a.seg.flags.fin && (a.seg.flags.rst ==> !a.seg.flags.ack) && (t.state == SynReceived ==> t.passive)
    ensures Unclosed(Received(t, a, env))
  {
    match t.state
    case Established =>
      var h := HandleAckOfData(t, a.seg, env);
      assert h.state == Established;
      hide HandleAckOfData;
      HandleDataSends(t, a, env);
      HandleDataSends(h, a, env);
    case _ =>
  }

  lemma {:induction false} OpenPlay(isnA: u32, isnB: u32, env: Env, ms: seq<Move>)
    requires PermittedPlay(Start(isnA, isnB, env), ms) && NoClose(ms) && isnA != M32 - 1
    requires var w := Play(Start(isnA, isnB, env), ms); |w.a.accepted| < M32 - 1 && |w.b.accepted| < M32 - 1
    ensures var w := Play(Start(isnA, isnB, env), ms); Linked(w) && Unclosed(w.a) && Unclosed(w.b)
  {
    PlayInvariant(isnA, isnB, env, ms);
    if ms != [] {
      var p, m := ms[..|ms| - 1], ms[|ms| - 1];
      var w := Play(Start(isnA, isnB, env), p);
      GrowsStep(w.a, m.e);
      GrowsStep(w.b, m.e);
      OpenPlay(isnA, isnB, env, p);
      hide Four, Alive, Unclosed, Step;
      FourTurned(w.a, w.b);
      if m.side == A {
        UnclosedStep(w.b, w.a, m.e);
      } else {
        UnclosedStep(w.a, w.b, m.e);
      }
    }
  }

  // Main result: until a user closes, what each side has queued is a prefix of the bytes
  // given to tcp_send on the other, whatever the network loses, repeats or reorders and
  // whatever sends and receive buffers fail.
  lemma StreamSafety(isnA: u32, isnB: u32, env: Env, ms: seq<Move>)
    requires PermittedPlay(Start(isnA, isnB, env), ms) && NoClose(ms) && Bounded(Start(isnA, isnB, env), ms)
    ensures var w0 := Start(isnA, isnB, env);
            var w := Play(w0, ms);
            && w.b.enqueued <= GivenBy(w0, ms, A) && w.a.enqueued <= GivenBy(w0, ms, B)
            && Bracketed(w.a, w.b) && Bracketed(w.b, w.a)
  {
    BoundedIs(isnA, isnB, env, ms);
    ClosingSafety(isnA, isnB, env, ms);
    if isnA != M32 - 1 {
      OpenPlay(isnA, isnB, env, ms);
    } else {
      PlayInvariant(isnA, isnB, env, ms);
    }
    hide GivenBy, Play, Bounded, Bracketed;
  }

  // ----- the byte a FIN brings along -----

  // tcp_handle_data copies only text exactly when the segment has neither SYN nor FIN, or
  // its text alone fills the window: it counts SYN and FIN as octets.
  lemma CopiedIsTextIff(a: Arrival, wnd: u16)
    ensures CopiedBytes(a, wnd) <= a.seg.payload
       <==> (!a.seg.flags.syn && !a.seg.flags.fin) || wnd <= |a.seg.payload|
  {
    var b, p := CopiedBytes(a, wnd), a.seg.payload;
    if |b| <= |p| {
      TakeWithin(p, [a.b0, a.b1], |b|);
    }
  }

  // The arrival that brings a byte nobody sent: a FIN that is accepted in ESTABLISHED, is
  // next in order, and finds a buffer.
  ghost predicate Brings(t: Tcb, e: Event) {
    t.state == Established && e.Arrive? && e.a.seg.flags.fin && Takes(t, e.a, e.env)
  }

  lemma StrayIff(s: Tcb, r: Tcb, a: Arrival, env: Env)
    requires Dir(s, r) && OutHonest(s, r) && a.seg in s.out && r.state == Established && r.enqueued <= s.accepted && r.wnd > 0
    ensures !(ReceivedWhenEstablished(r, a, env).enqueued <= s.accepted) <==> Brings(r, Arrive(a, env))
  {
    GrowsEstablished(r, a, env);
    if Takes(r, a, env) {
      var b := CopiedBytes(a, r.wnd);
      if a.seg.flags.fin {
        assert Honest(a.seg, s, r);
        assert |b| == 1 && |r.enqueued| == |s.accepted|;
      } else {
        InOrder(s, r, a);
        assert r.enqueued + b == s.accepted[..|r.enqueued| + |b|];
      }
    }
  }

  // r hears or does something.
  lemma StrayAtReceiver(s: Tcb, r: Tcb, e: Event)
    requires Four(s, r) && (e.Arrive? ==> e.a.seg in s.out)
    ensures !(Step(r, e).enqueued <= s.accepted) <==> !(r.enqueued <= s.accepted) || Brings(r, e)
  {
    hide Honest, Received, ReceivedWhenEstablished;
    if e.Arrive? {
      assert r.state == Established ==> Received(r, e.a, e.env) == ReceivedWhenEstablished(r, e.a, e.env) by { EstablishedIs(r, e.a, e.env); }
      if r.state == Established {
        if r.wnd == 0 {
          GrowsEstablished(r, e.a, e.env);
        } else {
          StrayIff(s, r, e.a, e.env);
        }
      } else {
        GrowsReceived(r, e.a, e.env);
      }
    }
  }

  // s hears or does something: a stray byte means that its FIN is out, so that it accepts
  // nothing more.
  lemma StrayAtSender(s: Tcb, r: Tcb, e: Event)
    requires Dir(s, r)
    ensures !(r.enqueued <= Step(s, e).accepted) <==> !(r.enqueued <= s.accepted)
  {
    GrowsStep(s, e);
    if !(r.enqueued <= s.accepted) {
      FinishingStep(s, e);
    }
  }

  // Somewhere in the play such an arrival happened at that side.
  ghost predicate Brought(w: World, ms: seq<Move>, side: Side) {
    exists i :: 0 <= i < |ms| && ms[i].side == side && Brings(At(Play(w, ms[..i]), side), ms[i].e)
  }

  lemma BroughtSnoc(w: World, ms: seq<Move>, side: Side)
    requires ms != []
    ensures var p, m := ms[..|ms| - 1], ms[|ms| - 1];
            Brought(w, ms, side) <==> Brought(w, p, side) || (m.side == side && Brings(At(Play(w, p), side), m.e))
  {
    var n := |ms| - 1;
    var p := ms[..n];
    assert forall i :: 0 <= i < n ==> p[i] == ms[i] && p[..i] == ms[..i];
    hide Brings, Play;
    if Brought(w, p, side) {
      var i :| 0 <= i < |p| && p[i].side == side && Brings(At(Play(w, p[..i]), side), p[i].e);
      assert ms[i].side == side && Brings(At(Play(w, ms[..i]), side), ms[i].e);
    }
    if Brought(w, ms, side) {
      var i :| 0 <= i < |ms| && ms[i].side == side && Brings(At(Play(w, ms[..i]), side), ms[i].e);
      assert i < n ==> p[i].side == side && Brings(At(Play(w, p[..i]), side), p[i].e);
    }
  }

  lemma StrayStep(w: World, m: Move)
    requires Linked(w) && Permitted(w, m)
    ensures var v := Next(w, m);
            && (!(v.b.enqueued <= v.a.accepted) <==> !(w.b.enqueued <= w.a.accepted) || (m.side == B && Brings(w.b, m.e)))
            && (!(v.a.enqueued <= v.b.accepted) <==> !(w.a.enqueued <= w.b.accepted) || (m.side == A && Brings(w.a, m.e)))
  {
    FourTurned(w.a, w.b);
    assert Dir(w.a, w.b) && Dir(w.b, w.a);
    hide Four, Dir, Alive, Brings, Step;
    if m.side == A {
      StrayAtReceiver(w.b, w.a, m.e);
      StrayAtSender(w.a, w.b, m.e);
    } else {
      StrayAtReceiver(w.a, w.b, m.e);
      StrayAtSender(w.b, w.a, m.e);
    }
  }

  lemma {:induction false} StrayPlay(isnA: u32, isnB: u32, env: Env, ms: seq<Move>)
    requires PermittedPlay(Start(isnA, isnB, env), ms)
    requires var w := Play(Start(isnA, isnB, env), ms); |w.a.accepted| < M32 - 1 && |w.b.accepted| < M32 - 1
    ensures var w0 := Start(isnA, isnB, env);
            var w := Play(w0, ms);
            && (w.b.enqueued <= w.a.accepted <==> !Brought(w0, ms, B))
            && (w.a.enqueued <= w.b.accepted <==> !Brought(w0, ms, A))
  {
    if ms != [] {
      var w0 := Start(isnA, isnB, env);
      var p, m := ms[..|ms| - 1], ms[|ms| - 1];
      var w := Play(w0, p);
      GrowsStep(w.a, m.e);
      GrowsStep(w.b, m.e);
      StrayPlay(isnA, isnB, env, p);
      PlayInvariant(isnA, isnB, env, p);
      PlayInvariant(isnA, isnB, env, ms);
      BroughtSnoc(w0, ms, A);
      BroughtSnoc(w0, ms, B);
      if isnA != M32 - 1 {
        hide Linked, Brought, Brings, Step;
        StrayStep(w, m);
      } else {
        hide Brought, Step;
      }
    }
  }

  // Main result: over every play a side has queued something its peer's user did not give
  // if and only if such an arrival happened there.
  lemma StrayByteIff(isnA: u32, isnB: u32, env: Env, ms: seq<Move>)
    requires PermittedPlay(Start(isnA, isnB, env), ms) && Bounded(Start(isnA, isnB, env), ms)
    ensures var w0 := Start(isnA, isnB, env);
            var w := Play(w0, ms);
            && (w.b.enqueued <= GivenBy(w0, ms, A) <==> !Brought(w0, ms, B))
            && (w.a.enqueued <= GivenBy(w0, ms, B) <==> !Brought(w0, ms, A))
  {
    BoundedIs(isnA, isnB, env, ms);
    StrayPlay(isnA, isnB, env, ms);
  }
}
