// The TCP control block as a value and the transition each event makes on it.
// The class Tcp in TcpEngine.dfy performs the same transitions in place.
module TcpSpec {
  import opened Bytes
  import opened SeqNum

  datatype State =
    | Listen | SynSent | SynReceived | Established | FinWait1 | FinWait2
    | TimeWait | CloseWait | LastAck | Closing | Closed

  datatype Flags = Flags(ack: bool, rst: bool, syn: bool, fin: bool)

  const ACK := Flags(true, false, false, false)
  const RST := Flags(false, true, false, false)
  const SYN := Flags(false, false, true, false)
  const SYNACK := Flags(true, false, true, false)
  const FINACK := Flags(true, false, false, true)

  datatype Segment = Segment(sn: u32, ackNo: u32, flags: Flags, payload: seq<byte>)

  // The segment being transmitted: its fields, and the packed image that is what
  // retransmission puts on the wire.
  datatype TxSegment = TxSegment(seg: Segment, wire: Segment)

  // A received chunk with its read offset.
  datatype RxNode = RxChunk(bytes: seq<byte>, offset: nat)
  type RxChunk = c: RxNode | c.offset <= |c.bytes| witness RxNode.RxChunk([], 0)

  // A segment together with the two bytes that follow its payload in memory.
  datatype Arrival = Arrival(seg: Segment, b0: byte, b1: byte)

  // What the environment decides during one event: which sends succeed and which
  // allocations do.
  datatype Env = Env(rstSent: bool, ackSent: bool, finAckSent: bool, dataSent: bool,
                     dataSeg: bool, finSeg: bool, buf: bool)

  // out, accepted and enqueued record the whole life of the connection: the segments
  // handed to IP with success, the bytes queued by send, the bytes queued for recv.
  datatype Tcb = Tcb(
    state: State, passive: bool,
    una: u32, nxt: u32, iss: u32,
    rcvNxt: u32, irs: u32, wnd: u16,
    txSeg: Option<TxSegment>, txData: seq<seq<byte>>, rxData: seq<RxChunk>,
    tmr: Option<nat>, timeWaitSeconds: nat,
    out: seq<Segment>, accepted: seq<byte>, enqueued: seq<byte>)

  datatype Event =
    | Arrive(a: Arrival, env: Env)
    | Timeout(env: Env)
    | Close(env: Env)
    | Send(data: seq<byte>, env: Env)
    | Recv(size: nat)

  // tcp_segment_length
  function SegLen(s: Segment): nat {
    (if s.flags.syn then 1 else 0) + |s.payload| + (if s.flags.fin then 1 else 0)
  }

  function Unread(q: seq<RxChunk>): seq<byte> {
    if q == [] then [] else q[0].bytes[q[0].offset..] + Unread(q[1..])
  }

  // ----- sending -----

  function Emit(t: Tcb, s: Segment, ok: bool): Tcb {
    if ok then t.(out := t.out + [s]) else t
  }

  function CtrlSegment(sn: u32, ackNo: u32, flags: Flags): Segment {
    Segment(sn, ackNo, flags, [])
  }

  // tcp_send_ctrl_seg: snd.nxt moves over the segment only when it was sent.
  function SendCtrl(t: Tcb, sn: u32, ackNo: u32, flags: Flags, ok: bool): (r: Tcb)
    ensures !flags.syn && !flags.fin ==> r == Emit(t, CtrlSegment(sn, ackNo, flags), ok)
  {
    var s := CtrlSegment(sn, ackNo, flags);
    if ok then Emit(t, s, true).(nxt := Add(t.nxt, SegLen(s))) else t
  }

  // tcp_retransmit
  function Retransmit(t: Tcb, env: Env): Tcb {
    (if t.txSeg.Some? then Emit(t, t.txSeg.value.wire, env.dataSent) else t).(tmr := Some(5))
  }

  // tcp_tx_seg_complete
  function TxComplete(t: Tcb): Tcb {
    if t.txSeg.Some? then t.(txSeg := None, tmr := None) else t
  }

  // tcp_construct_data
  function ConstructData(t: Tcb, env: Env): Tcb {
    if t.txSeg.None? && t.txData != [] then
      var t1 := t.(txData := t.txData[1..]);
      if env.dataSeg then
        var s := Segment(t.una, t.rcvNxt, ACK, t.txData[0]);
        Emit(t1.(txSeg := Some(TxSegment(s, s)), tmr := Some(3), nxt := Add(t.nxt, SegLen(s))), s, env.dataSent)
      else t1
    else t
  }

  // tcp_contruct_fin_ack: the FIN is packed and its timer started; the timer sends it.
  function ConstructFin(t: Tcb, env: Env): Tcb {
    if t.txData == [] && t.txSeg.None? && env.finSeg then
      var s := Segment(t.una, t.rcvNxt, FINACK, []);
      t.(txSeg := Some(TxSegment(s, s)), tmr := Some(1), nxt := Add(t.nxt, SegLen(s)))
    else t
  }

  // ----- receiving -----

  // tcp_handle_ack_of_data
  function HandleAckOfData(t: Tcb, s: Segment, env: Env): Tcb {
    if t.txSeg.Some? && Sncmp(t.una, Ls, s.ackNo, Le, t.nxt) && s.ackNo == t.nxt then
      ConstructData(TxComplete(t.(una := s.ackNo)), env)
    else t
  }

  // The bytes tcp_handle_data copies: it counts SYN and FIN as octets, so for those it
  // reads past the payload.
  function CopiedBytes(a: Arrival, wnd: u16): seq<byte> {
    (a.seg.payload + [a.b0, a.b1])[..Min(SegLen(a.seg), wnd)]
  }

  // tcp_handle_data
  function HandleData(t: Tcb, a: Arrival, env: Env): Tcb {
    if a.seg.sn == t.rcvNxt && SegLen(a.seg) > 0 && env.buf then
      var b := CopiedBytes(a, t.wnd);
      var n := Add(t.rcvNxt, |b|);
      var t1 := t.(rxData := t.rxData + [RxChunk(b, 0)], enqueued := t.enqueued + b, rcvNxt := n);
      if t.txSeg.Some? then
        t1.(txSeg := Some(t.txSeg.value.(seg := t.txSeg.value.seg.(ackNo := n))))
      else
        SendCtrl(t1, t.una, n, ACK, env.ackSent)
    else t
  }

  // tcp_handle_ack_of_fin_ack: does the segment acknowledge our FIN?
  predicate AcksFin(t: Tcb, s: Segment) {
    t.txSeg.Some? && Add(t.txSeg.value.seg.sn, 1) == s.ackNo
  }

  // tcp_handle_fin_ack
  function HandleFinAck(t: Tcb, s: Segment, env: Env): Tcb {
    if Sncmp(t.una, Ls, s.ackNo, Le, t.nxt) then
      SendCtrl(t.(una := s.ackNo, rcvNxt := Add(s.sn, 1)), s.ackNo, Add(s.sn, 1), ACK, env.finAckSent)
    else t
  }

  // The answer of process_received_seq.
  predicate Acceptable(t: Tcb, s: Segment) {
    var edge := Add(t.rcvNxt, t.wnd);
    && t.wnd != 0
    && (Sncmp(t.rcvNxt, Le, s.sn, Ls, edge)
        || (SegLen(s) > 0 && Sncmp(t.rcvNxt, Le, Add(s.sn, SegLen(s) - 1), Ls, edge)))
  }

  // The effect of process_received_seq on an unacceptable segment: an acknowledgment,
  // except for a reset and for an empty segment against a zero window.
  function Refuse(t: Tcb, s: Segment, env: Env): Tcb {
    if s.flags.rst || (t.wnd == 0 && SegLen(s) == 0) then t
    else SendCtrl(t, t.nxt, t.rcvNxt, ACK, env.ackSent)
  }

  function TxIsFin(t: Tcb): bool {
    t.txSeg.Some? && t.txSeg.value.seg.flags.fin
  }

  function ReceivedWhenListen(t: Tcb, s: Segment, env: Env): Tcb {
    if s.flags.rst then t else
      var t1 := if s.flags.ack then SendCtrl(t, s.ackNo, 0, RST, env.rstSent) else t;
      if s.flags.syn then
        var t2 := SendCtrl(t1.(rcvNxt := Add(s.sn, 1), irs := s.sn), t.iss, Add(s.sn, 1), SYNACK, env.ackSent);
        if env.ackSent then t2.(state := SynReceived) else t2
      else t1
  }

  function ReceivedWhenSynSent(t: Tcb, s: Segment, env: Env): Tcb {
    if !s.flags.ack then t
    else if !Sncmp(t.iss, Ls, s.ackNo, Le, t.nxt) && !s.flags.rst then
      SendCtrl(t, s.ackNo, s.sn, RST, env.rstSent)
    else if !Sncmp(t.una, Le, s.ackNo, Le, t.nxt) then t
    else if s.flags.rst then t.(state := Closed)
    else if !s.flags.syn then t
    else
      var t1 := t.(rcvNxt := Add(s.sn, 1), irs := s.sn, una := s.ackNo);
      if s.ackNo > t.iss && env.ackSent then
        TxComplete(SendCtrl(t1, s.ackNo, Add(s.sn, 1), ACK, true).(state := Established))
      else t1
  }

  function ReceivedWhenSynReceived(t: Tcb, s: Segment, env: Env): Tcb {
    if !Acceptable(t, s) then Refuse(t, s, env)
    else if s.flags.rst then t.(state := if t.passive then Listen else Closed)
    else if !s.flags.ack then t
    else
      var t1 := if Sncmp(t.una, Le, s.ackNo, Le, t.nxt)
                then t.(una := s.ackNo, state := Established)
                else SendCtrl(t, s.ackNo, 0, RST, env.rstSent);
      if s.flags.fin then t1.(state := CloseWait) else t1
  }

  function ReceivedWhenEstablished(t: Tcb, a: Arrival, env: Env): Tcb {
    var s := a.seg;
    if !Acceptable(t, s) then Refuse(t, s, env)
    else if s.flags.rst || !s.flags.ack then t
    else AcceptedWhenEstablished(t, a, env)
  }

  // An acceptable segment with an acknowledgment: first the sending side, then the text,
  // then the FIN.
  function AcceptedWhenEstablished(t: Tcb, a: Arrival, env: Env): Tcb {
    var t1 := if TxIsFin(t) then t else HandleAckOfData(t, a.seg, env);
    var t2 := HandleData(t1, a, env);
    if a.seg.flags.fin then HandleFinAck(t2, a.seg, env).(state := CloseWait) else t2
  }

  // FIN_WAIT_1 and LAST_ACK: wait for the outstanding segment; when it is our FIN and is
  // acknowledged, move on to `next`; otherwise try to build the FIN.
  function ReceivedWhenClosing(t: Tcb, o: Option<Segment>, next: State, env: Env): Tcb {
    if o.Some? && o.value.flags.ack then
      if !TxIsFin(t) then ConstructFin(HandleAckOfData(t, o.value, env), env)
      else if AcksFin(t, o.value) then TxComplete(t).(state := next)
      else ConstructFin(t, env)
    else ConstructFin(t, env)
  }

  function ReceivedWhenFinWait2(t: Tcb, s: Segment, env: Env): Tcb {
    if s.flags.ack && s.flags.fin then
      HandleFinAck(t.(state := TimeWait, tmr := Some(t.timeWaitSeconds)), s, env)
    else t
  }

  // TIME_WAIT and CLOSE_WAIT
  function ReceivedWhenWaiting(t: Tcb, s: Segment, env: Env): Tcb {
    if s.flags.ack && s.flags.fin then HandleFinAck(t, s, env) else t
  }

  // received_event_process
  function Received(t: Tcb, a: Arrival, env: Env): Tcb {
    match t.state
    case Listen => ReceivedWhenListen(t, a.seg, env)
    case SynSent => ReceivedWhenSynSent(t, a.seg, env)
    case SynReceived => ReceivedWhenSynReceived(t, a.seg, env)
    case Established => ReceivedWhenEstablished(t, a, env)
    case FinWait1 => ReceivedWhenClosing(t, Some(a.seg), FinWait2, env)
    case FinWait2 => ReceivedWhenFinWait2(t, a.seg, env)
    case TimeWait => ReceivedWhenWaiting(t, a.seg, env)
    case CloseWait => ReceivedWhenWaiting(t, a.seg, env)
    case LastAck => ReceivedWhenClosing(t, Some(a.seg), Closed, env)
    case _ => t
  }

  // ----- the other events -----

  // tcp_open: a zeroed block with a 1500-byte window, then open_when_closed.
  function Opened(passive: bool, isn: u32, env: Env): Tcb {
    OpenWhenClosed(Tcb(Closed, passive, 0, 0, 0, 0, 0, 1500, None, [], [], None, 0, [], [], []), isn, env)
  }

  function OpenWhenClosed(t: Tcb, isn: u32, env: Env): Tcb {
    var u := t.(una := isn, iss := isn, nxt := isn, timeWaitSeconds := 120);
    if t.passive then u.(state := Listen)
    else
      var s := Segment(isn, 0, SYN, []);
      Retransmit(u.(txSeg := Some(TxSegment(s, s)), nxt := Add(isn, SegLen(s))), env).(state := SynSent)
  }

  // tcp_loop stops an expired timer, then timeout_event_process.
  function TimedOut(t: Tcb, env: Env): Tcb {
    if t.tmr.None? then t else
      var t1 := t.(tmr := None);
      match t.state
      case SynSent => Retransmit(t1, env)
      case FinWait1 => Retransmit(t1, env)
      case LastAck => Retransmit(t1, env)
      case Established => Retransmit(t1, env)
      case TimeWait => t1.(state := Closed)
      case _ => t1
  }

  // close_event_process: close_when_syn_sent is not in the table.
  function ClosedByUser(t: Tcb, env: Env): Tcb {
    match t.state
    case Established => ConstructFin(t, env).(state := FinWait1)
    case CloseWait => ConstructFin(t, env).(state := LastAck)
    case _ => t
  }

  // The node made for a send keeps its size in 16 bits.
  function Queued(data: seq<byte>): seq<byte> {
    data[..|data| % M16]
  }

  // tcp_send; only ESTABLISHED has an entry in send_event_process.
  function Sent(t: Tcb, data: seq<byte>, env: Env): Tcb {
    if t.state != Established then t
    else
      ConstructData(if env.buf then t.(txData := t.txData + [Queued(data)], accepted := t.accepted + Queued(data))
                    else t, env)
  }

  // What tcp_send returns.
  function SendResult(t: Tcb, data: seq<byte>, env: Env): nat {
    if t.state == Established && env.buf then |data| else 0
  }

  // The queue after recv_when_established asked for n bytes.
  function Drop(q: seq<RxChunk>, n: nat): seq<RxChunk> {
    if q == [] || n == 0 then q
    else
      var avail := |q[0].bytes| - q[0].offset;
      if avail < n then Drop(q[1..], n - avail)
      else [q[0].(offset := q[0].offset + n)] + q[1..]
  }

  function Read(t: Tcb, size: nat): Tcb {
    if t.state == Established then t.(rxData := Drop(t.rxData, size)) else t
  }

  function Step(t: Tcb, e: Event): Tcb {
    match e
    case Arrive(a, env) => Received(t, a, env)
    case Timeout(env) => TimedOut(t, env)
    case Close(env) => ClosedByUser(t, env)
    case Send(data, env) => Sent(t, data, env)
    case Recv(size) => Read(t, size)
  }

  // A run: the events of a connection in order.
  function Run(t: Tcb, es: seq<Event>): Tcb {
    if es == [] then t else Step(Run(t, es[..|es| - 1]), es[|es| - 1])
  }

  lemma RunSnoc(t: Tcb, es: seq<Event>, e: Event)
    ensures Run(t, es + [e]) == Step(Run(t, es), e)
  {
    assert (es + [e])[..|es|] == es;
  }
}
