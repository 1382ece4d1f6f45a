// Two connections and the network between them, which loses, duplicates and reorders
// segments.
module TcpWorld {
  import opened Bytes
  import opened SeqNum
  import opened TcpSender
  import opened TcpSpec

  // a opens actively, b passively. The network is the set of segments each side ever
  // handed to IP: any of them may be delivered at any time, any number of times, or never.
  datatype World = World(a: Tcb, b: Tcb)

  datatype Side = A | B

  datatype Move = Move(side: Side, e: Event)

  function Peer(w: World, side: Side): Tcb {
    if side == A then w.b else w.a
  }

  // Either user may close at any time; data segments are allocated, and what arrives was sent.
  ghost predicate Permitted(w: World, m: Move) {
    EventEnv(m.e) && (m.e.Arrive? ==> m.e.a.seg in Peer(w, m.side).out)
  }

  function Next(w: World, m: Move): World {
    if m.side == A then w.(a := Step(w.a, m.e)) else w.(b := Step(w.b, m.e))
  }

  function Play(w: World, ms: seq<Move>): World {
    if ms == [] then w else Next(Play(w, ms[..|ms| - 1]), ms[|ms| - 1])
  }

  ghost predicate PermittedPlay(w: World, ms: seq<Move>) {
    ms == [] || (PermittedPlay(w, ms[..|ms| - 1]) && Permitted(Play(w, ms[..|ms| - 1]), ms[|ms| - 1]))
  }

  function Start(isnA: u32, isnB: u32, env: Env): World {
    World(Opened(false, isnA, env), Opened(true, isnB, env))
  }

  // The sequence number of the first data byte.
  function Base(t: Tcb): u32 {
    Add(t.iss, 1)
  }

  // How many bytes have been acknowledged.
  function Acked(t: Tcb): int {
    Transmitted(t) - (if t.txSeg.Some? then |t.txSeg.value.wire.payload| else 0)
  }

  // The SYN is one octet before the first byte.
  lemma SynOff(iss: u32)
    ensures Off(Add(iss, 1), iss) == M32 - 1
  {
  }

  // ----- what no event changes -----

  ghost predicate Fixed(t: Tcb, u: Tcb) {
    u.passive == t.passive && u.iss == t.iss && u.wnd == t.wnd
  }

  // Who opened, with which number and window, never changes.
  lemma FixedStep(t: Tcb, e: Event)
    ensures Fixed(t, Step(t, e))
  {
    match e
    case Arrive(a, env) => FixedReceived(t, a, env);
    case _ =>
  }

  lemma FixedReceived(t: Tcb, a: Arrival, env: Env)
    ensures Fixed(t, Received(t, a, env))
  {
    hide ReceivedWhenSynSent, ReceivedWhenSynReceived, ReceivedWhenEstablished, ReceivedWhenClosing, HandleFinAck;
    match t.state
    case Listen =>
    case SynSent => var c := SynSentSends(t, a.seg, env);
    case SynReceived => var c := SynReceivedSends(t, a.seg, env);
    case Established => FixedEstablished(t, a, env);
    case FinWait2 => HandleFinAckSends(t.(state := TimeWait, tmr := Some(t.timeWaitSeconds)), a.seg, env);
    case TimeWait => HandleFinAckSends(t, a.seg, env);
    case CloseWait => HandleFinAckSends(t, a.seg, env);
    case FinWait1 => FixedClosing(t, a.seg, FinWait2, env);
    case LastAck => FixedClosing(t, a.seg, Closed, env);
    case _ =>
  }

  lemma FixedClosing(t: Tcb, s: Segment, next: State, env: Env)
    ensures Fixed(t, ReceivedWhenClosing(t, Some(s), next, env))
  {
    FixedAck(t, s, env);
    hide HandleAckOfData;
  }

  lemma FixedEstablished(t: Tcb, a: Arrival, env: Env)
    ensures Fixed(t, ReceivedWhenEstablished(t, a, env))
  {
    var h := if TxIsFin(t) then t else HandleAckOfData(t, a.seg, env);
    hide HandleAckOfData, HandleData, HandleFinAck, Acceptable;
    FixedAck(t, a.seg, env);
    FixedData(h, a, env);
    HandleFinAckSends(HandleData(h, a, env), a.seg, env);
  }

  lemma FixedAck(t: Tcb, s: Segment, env: Env)
    ensures Fixed(t, HandleAckOfData(t, s, env))
  {
  }

  lemma FixedData(t: Tcb, a: Arrival, env: Env)
    ensures Fixed(t, HandleData(t, a, env))
  {
  }

  // What has been accepted or queued stays at its place.
  lemma GrowsStep(t: Tcb, e: Event)
    ensures t.accepted <= Step(t, e).accepted && t.enqueued <= Step(t, e).enqueued
  {
    match e
    case Arrive(a, env) => GrowsReceived(t, a, env);
    case _ =>
  }

  lemma GrowsReceived(t: Tcb, a: Arrival, env: Env)
    ensures Received(t, a, env).accepted == t.accepted && t.enqueued <= Received(t, a, env).enqueued
    ensures t.state != Established ==> Received(t, a, env).enqueued == t.enqueued
  {
    hide ReceivedWhenSynSent, ReceivedWhenSynReceived, ReceivedWhenEstablished, ReceivedWhenClosing, HandleFinAck;
    match t.state
    case Listen =>
    case SynSent => var c := SynSentSends(t, a.seg, env);
    case SynReceived => var c := SynReceivedSends(t, a.seg, env);
    case Established => GrowsEstablished(t, a, env);
    case FinWait1 => GrowsClosing(t, a.seg, FinWait2, env);
    case LastAck => GrowsClosing(t, a.seg, Closed, env);
    case FinWait2 => HandleFinAckSends(t.(state := TimeWait, tmr := Some(t.timeWaitSeconds)), a.seg, env);
    case TimeWait => HandleFinAckSends(t, a.seg, env);
    case CloseWait => HandleFinAckSends(t, a.seg, env);
    case _ =>
  }

  lemma GrowsAck(t: Tcb, s: Segment, env: Env)
    ensures HandleAckOfData(t, s, env).accepted == t.accepted && HandleAckOfData(t, s, env).enqueued == t.enqueued
    ensures HandleAckOfData(t, s, env).rcvNxt == t.rcvNxt
  {
  }

  lemma GrowsClosing(t: Tcb, s: Segment, next: State, env: Env)
    ensures var u := ReceivedWhenClosing(t, Some(s), next, env); u.accepted == t.accepted && u.enqueued == t.enqueued
  {
    GrowsAck(t, s, env);
    hide HandleAckOfData;
  }

  // In ESTABLISHED exactly an accepted segment in order is queued, as far as the window
  // and the allocation allow.
  lemma GrowsEstablished(t: Tcb, a: Arrival, env: Env)
    ensures var u := ReceivedWhenEstablished(t, a, env);
            && u.accepted == t.accepted
            && u.enqueued == t.enqueued + if Takes(t, a, env) then CopiedBytes(a, t.wnd) else []
  {
    var h := if TxIsFin(t) then t else HandleAckOfData(t, a.seg, env);
    GrowsAck(t, a.seg, env);
    FixedAck(t, a.seg, env);
    GrowsData(h, a, env);
    hide HandleAckOfData, HandleData, HandleFinAck, Acceptable, CopiedBytes;
    HandleFinAckSends(HandleData(h, a, env), a.seg, env);
  }

  ghost predicate Takes(t: Tcb, a: Arrival, env: Env) {
    && Acceptable(t, a.seg) && !a.seg.flags.rst && a.seg.flags.ack
    && a.seg.sn == t.rcvNxt && SegLen(a.seg) > 0 && env.buf
  }

  lemma GrowsData(t: Tcb, a: Arrival, env: Env)
    ensures var u := HandleData(t, a, env);
            && u.accepted == t.accepted
            && u.enqueued == t.enqueued + if a.seg.sn == t.rcvNxt && SegLen(a.seg) > 0 && env.buf then CopiedBytes(a, t.wnd) else []
  {
  }

  // ----- what the users gave -----

  // What an event gives a connection to send: the bytes of a tcp_send that is taken, in
  // order, as far as a 16-bit size counts them.
  function Gives(t: Tcb, e: Event): seq<byte> {
    if e.Send? && t.state == Established && e.env.buf then e.data[..|e.data| % M16] else []
  }

  // What the events of a run gave, one after the other.
  ghost function Given(t: Tcb, es: seq<Event>): seq<byte> {
    if es == [] then [] else
      var p, e := es[..|es| - 1], es[|es| - 1];
      Given(t, p) + Gives(Run(t, p), e)
  }

  lemma AcceptedStep(t: Tcb, e: Event)
    ensures Step(t, e).accepted == t.accepted + Gives(t, e)
  {
    match e
    case Arrive(a, env) => GrowsReceived(t, a, env);
    case _ =>
  }

  // Main result: over every run the accepted bytes are those given to tcp_send, in the order
  // they were given.
  lemma {:induction false} AcceptedIsGiven(passive: bool, isn: u32, env: Env, es: seq<Event>)
    ensures Run(Opened(passive, isn, env), es).accepted == Given(Opened(passive, isn, env), es)
  {
    if es != [] {
      var p := es[..|es| - 1];
      AcceptedIsGiven(passive, isn, env, p);
      AcceptedStep(Run(Opened(passive, isn, env), p), es[|es| - 1]);
      hide Step, Gives;
    }
  }

  function At(w: World, side: Side): Tcb {
    if side == A then w.a else w.b
  }

  // What the user of one side gave over a play.
  ghost function GivenBy(w: World, ms: seq<Move>, side: Side): seq<byte> {
    if ms == [] then [] else
      var p, m := ms[..|ms| - 1], ms[|ms| - 1];
      GivenBy(w, p, side) + if m.side == side then Gives(At(Play(w, p), side), m.e) else []
  }

  lemma {:induction false} PlayAccepts(isnA: u32, isnB: u32, env: Env, ms: seq<Move>, side: Side)
    ensures var w := Start(isnA, isnB, env); At(Play(w, ms), side).accepted == GivenBy(w, ms, side)
  {
    if ms != [] {
      var p, m := ms[..|ms| - 1], ms[|ms| - 1];
      PlayAccepts(isnA, isnB, env, p, side);
      AcceptedStep(At(Play(Start(isnA, isnB, env), p), side), m.e);
      hide Step, Gives;
    }
  }

  // ----- an initiator that can never establish -----

  // When the initiator's number is 2^32-1 nobody ever establishes.
  ghost predicate StuckPair(w: World) {
    && w.a.iss == M32 - 1 && w.a.state == SynSent && w.b.state in {Listen, SynReceived}
    && w.a.nxt == 0 && (w.b.state == SynReceived ==> w.b.rcvNxt == 0)
    && w.a.accepted == w.a.enqueued == w.b.accepted == w.b.enqueued == [] && w.b.txSeg.None?
    && (forall g :: g in w.a.out ==> !g.flags.ack && !g.flags.fin && (g.flags.syn ==> g.sn == M32 - 1))
    && (forall g :: g in w.b.out ==> !g.flags.rst && (g.flags.ack ==> g.ackNo == 0))
    && (w.a.txSeg.Some? ==> w.a.txSeg.value.wire == Segment(M32 - 1, 0, SYN, []))
  }

  lemma StuckListen(w: World, a: Arrival, env: Env)
    requires StuckPair(w) && w.b.state == Listen && a.seg in w.a.out
    ensures StuckPair(w.(b := Received(w.b, a, env)))
  {
  }

  lemma StuckSynReceived(w: World, a: Arrival, env: Env)
    requires StuckPair(w) && w.b.state == SynReceived && a.seg in w.a.out && w.b.passive
    ensures StuckPair(w.(b := Received(w.b, a, env)))
  {
  }

  lemma StuckSynSent(w: World, a: Arrival, env: Env)
    requires StuckPair(w) && a.seg in w.b.out
    ensures StuckPair(w.(a := Received(w.a, a, env)))
  {
  }

  lemma StuckStep(w: World, m: Move)
    requires StuckPair(w) && w.b.passive && Permitted(w, m)
    ensures StuckPair(Next(w, m)) && Next(w, m).b.passive
  {
    match m.e
    case Arrive(a, env) =>
      if m.side == A {
        StuckSynSent(w, a, env);
      } else if w.b.state == Listen {
        StuckListen(w, a, env);
      } else {
        StuckSynReceived(w, a, env);
      }
    case _ =>
  }
}
