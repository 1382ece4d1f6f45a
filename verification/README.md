# A verified model of the dts network stack

A Dafny 4.11 model of the parts of this embedded TCP/IP stack that carry its hard properties, with
proofs. `dafny verify dfyconfig.toml` checks everything. The model follows the code as written;
where the code misses its evident intent, a lemma says exactly when it meets it.

| file | what it models |
|---|---|
| `SeqNum.dfy` | 32-bit modular sequence numbers and `sncmp` |
| `TcpSpec.dfy` | the TCP control block as a value, one transition function per handler, runs of events |
| `TcpRules.dfy` | what RFC 793 asks of each event, with the segments written out |
| `TcpSender.dfy`, `TcpRuns.dfy` | the sender's invariants and the theorems on whole runs |
| `TcpStall.dfy` | when the sender stops for good, when it falls silent in CLOSE_WAIT, when a retransmission is out of date, what is sent only once, when bytes are lost |
| `TcpReceive.dfy` | which segments are acceptable (RFC 793, section 3.3), and the accounting of `tcp_recv` and `tcp_send` |
| `TcpWorld.dfy`, `TcpLink.dfy` | two endpoints over a network that loses, duplicates and reorders, and the joint invariant of both and of everything in flight, from the opens through the closing of both |
| `TcpStream.dfy` | what reaches the two users |
| `TcpWindow.dfy`, `TcpHandshake.dfy` | a chunk longer than the peer's window; how often a SYN is answered |
| `TcpSession.dfy`, `TcpRecovery.dfy` | a whole session over a lossy network; the way back from losses |
| `TcpExample.dfy`, `TcpFaults.dfy` | one such run, from the opens to a delivered byte; runs that show where guarantees end |
| `TcpEngine.dfy` | the connection as an object, updated in place; it refines `TcpSpec.dfy` |
| `FragmentSpec.dfy`, `Dblk.dfy`, `DblkFragment.dfy`, `DblkLife.dfy`, `DblkCycle.dfy`, `DblkOps.dfy`, `DblkSend.dfy` | data block lists: fragmenting, reading through virtual nodes, materialising, freeing, copying, merging, seeking, sending a fragment behind a header |
| `Checksum.dfy`, `Writer.dfy`, `TcpCodec.dfy`, `IpHeader.dfy` | the Internet checksum and the TCP and IP packers that rest on it |
| `MemPool.dfy`, `ArpCache.dfy`, `ArpPacket.dfy` | the slot pool, the ARP table over it, ARP packets |
| `DhcpOptions.dfy`, `Dhcp.dfy` | DHCP options and their scan, DHCP messages |
| `Bytes.dfy` | bytes, words, big-endian access, sequences |

How it is set up:

- A TCP run is a list of events: a segment arrives, the timer expires, the user closes, sends or
  receives. Each carries the answers of the environment (which sends and which allocations
  succeed). `Run` folds the events; the class `Tcp` keeps its history as a ghost, and its
  invariant says that the object is where the run of its history leads. Every theorem on runs is
  thereby one on the object.
- A control block also records, for stating properties only, the segments handed to IP (`out`), the
  bytes queued by `tcp_send` (`accepted`) and the bytes queued for `tcp_recv` (`enqueued`).
- Heap lists of blocks are real linked nodes. A list is described by the sequence of its nodes and,
  as a separate ghost value, the sequence of the byte chunks they hold.
- Timers are an expired flag with a remaining time. `malloc` and the send functions are answers
  given from outside. Widths are explicit: sequence numbers modulo 2^32, node sizes modulo 2^16, a
  32-bit and a 64-bit checksum accumulator.

Where the code misses its evident intent, and the member that says exactly when:

- Three of the four wrapped branches of `sncmp` return the complement of the right answer
  (`SeqNum.SncmpCorrectIff`), so acceptable segments are refused where the window wraps
  (`TcpReceive.AcceptanceRightIff`).
- The sender stops for good once `snd.nxt` is not ahead of `snd.una` as a number
  (`TcpStall.WedgedForever`, `TcpStall.CompletesIff`). A send whose bytes reach 2^32 leads there, and so
  does a `tcp_send` of zero bytes, or of any multiple of 65536, on an idle connection
  (`TcpStall.SendWedgesIff`); every connection that can establish can reach it
  (`TcpStall.FirstSendWedgesIff`).
- An active open with initial sequence number 2^32-1 never establishes (`TcpRuns.EstablishesIff`;
  dts_net_tcp.c:711 compares without wrapping).
- A passive open is safe against exactly the peers that are polite in SYN_RECEIVED
  (`TcpSender.OneOutstandingIff`); two peers that are not are `TcpFaults.PassiveBreaks` and
  `TcpFaults.FinMisplaced`.
- `tcp_send` of 65536 bytes or more queues the size modulo 65536 and reports all of it
  (`TcpReceive.SendReportsQueuedIff`).
- After the retransmission timer has expired in CLOSE_WAIT the outstanding segment is not sent
  again; only bare acknowledgments go out until the user has closed and an acknowledgment of
  `snd.nxt` arrives (`TcpRuns.ForgetsIff`, `TcpStall.SilentUntilReleased`,
  `TcpStall.SilentStepIff`; a run there and out again is `TcpFaults.SilenceEnds`).
- In-order data that arrives while a segment is outstanding is acknowledged in that segment's fields
  and not in its packed image, which a retransmission sends; `TcpStall.GoesStaleIff` says exactly
  when the image goes out of date in ESTABLISHED (a run there is `TcpFaults.StaleRetransmission`).
- A FIN makes the receiver queue one byte that nobody sent (`TcpFaults.StrayByte`). A side has such a
  byte if and only if a FIN was accepted there in ESTABLISHED, next in order and with a buffer to be
  had (`TcpStream.StrayByteIff`, from `TcpStream.StrayIff` for one arrival), and nothing else is ever
  added to the stream (`TcpStream.ClosingSafety`).
- A chunk of more than 1500 bytes, the peer's window, is never completed: the peer takes its first
  1500 bytes and nothing of any repetition (`TcpWindow.LongChunkNeverCompletes`; exactly
  which `tcp_send` leads there is `TcpWindow.SendLongIff`).
- A chunk for which no segment can be allocated is lost, and what follows goes out with its sequence
  numbers (`TcpStall.DataKeptIff`; a run is `TcpFaults.LossMisplaces`).
- A SYN,ACK is sent once and has no retransmission timer (`TcpStall.SynAckOnce`); over whole plays only an
  initiator at 2^32-1, which never establishes, makes the listener answer twice
  (`TcpHandshake.SynAckRepeatsIff`).
- A FIN that is repeated because its acknowledgment was lost is not acknowledged again
  (`TcpStall.LastAckOnce`), unless sncmp takes its number in a wrapped interval
  (`TcpStall.AnswersAgainIff`).
- `tcp_recv` over several chunks copies each of them to the start of the buffer
  (`TcpReceive.BufferRightIff`).
- A retransmission of text that has arrived is not acknowledged while the window wraps
  (`TcpRecovery.RepetitionAnsweredIff`, `TcpReceive.WrappedWindow`).
- A segment that reaches beyond the receive window on both sides is refused: only its first and last
  octet are looked at (`TcpReceive.CoveringRefusedIff`).
- A last fragment that is cut short declares the full fragment size unless it starts in the final
  node of the block (`FragmentSpec.LastFragmentExactIff`), and the frame that carries it is reported
  that much too long (`DblkSend.SendFragment`).
- A new ARP binding is not found while an older one for its address, even an expired one, stands
  before it in the table (`ArpCache.NewBindingFoundIff`).
- Read with the 32-bit byte swap, `secs` and `flags` of a DHCP message are always zero on a
  little-endian host (`Dhcp.RoundTripIff`); a DHCP option right after a PAD is not looked at
  (`DhcpOptions.ScanRightIff`).

## Model

| member | source | states |
|---|---|---|
| SeqNum.SncmpCorrectIff | dts_net_tcp.c:173-218 | for all 2^32 values and all operators, `sncmp` decides membership in the circular interval exactly when it does not wrap or both ends are strict; in all other cases the answer is the complement |
| SeqNum.SncmpIntendedCorrect | dts_net_tcp.c:173-218 | with the missing negation in the three wrapped branches the comparison is right on all inputs |
| TcpRules.ControlBits | dts_net_tcp.c:40-63 | which control bits each kind of segment carries |
| TcpRules.LengthRule | dts_net_tcp.c:155-170 | SYN and FIN count as one octet each |
| TcpRules.OpenRule | dts_net_tcp.c:471-540 | an active open sends SYN at its initial number and starts the timer, a passive one waits |
| TcpRules.ListenRule | dts_net_tcp.c:630-684 | a reset is ignored, an acknowledgment answered with a reset at its number, a SYN with SYN,ACK |
| TcpRules.SynSentRule | dts_net_tcp.c:685-725 | which acknowledgments are reset, which resets close, and which SYN,ACK establishes, with what is sent for each |
| TcpRules.RefusalRule | dts_net_tcp.c:612-628 | an unacceptable segment changes nothing and is answered with an acknowledgment of rcv.nxt at snd.nxt if and only if it is no reset, the send succeeds and it is not empty against a closed window |
| TcpRules.SynReceivedRule | dts_net_tcp.c:726-794 | reset, acknowledgment in place or out of place, and FIN, with the reset that answers the second |
| TcpRules.AckRule | dts_net_tcp.c:374-388 | in ESTABLISHED an acknowledgment of everything outstanding completes it and loads the next chunk with its own timer; no other touches the sending side |
| TcpRules.OutRule | dts_net_tcp.c:389-469 | what an accepted segment makes go out: next chunk, acknowledgment of text when nothing outstanding carries it, acknowledgment of FIN, and where rcv.nxt, snd.una and the state are then |
| TcpRules.TextRule | dts_net_tcp.c:389-400 | text at rcv.nxt with a buffer is queued as one chunk, clipped to the window; nothing else queues anything |
| TcpRules.DroppedRule | dts_net_tcp.c:795-862 | in ESTABLISHED an acceptable reset, or segment without acknowledgment, changes nothing |
| TcpRules.CloseRule | dts_net_tcp.c:960-990 | closing leads to FIN_WAIT_1 or LAST_ACK and packs the FIN with a one-second timer if nothing is queued or outstanding; in other states it does nothing |
| TcpRules.FinAckedIff | dts_net_tcp.c:863-939 | with the FIN outstanding, FIN_WAIT_1 and LAST_ACK move on, with segment and timer gone, if and only if a segment acknowledges its number; every other arrival changes nothing |
| TcpRules.ClosingRule | dts_net_tcp.c:863-939 | before that, an acknowledgment of everything outstanding sends the next chunk or builds the FIN |
| TcpRules.FinWait2Rule | dts_net_tcp.c:889-902 | a FIN,ACK, and nothing else, starts TIME_WAIT with its timer, and is acknowledged where its own acknowledgment counts |
| TcpRules.WaitingRule | dts_net_tcp.c:903-920 | TIME_WAIT and CLOSE_WAIT only ever answer such a segment; CLOSING and CLOSED do nothing |
| TcpRules.TimerRule | dts_net_tcp.c:327-334 | an expired timer sends the packed image of what is outstanding again and waits five seconds in the four states of the table, ends TIME_WAIT, and stays stopped elsewhere |
| TcpRules.StoppedRule | dts_net_tcp.c:546-559 | a stopped timer does nothing |
| TcpRules.SendRule | dts_net_tcp.c:1021-1046 | the bytes given go behind the queue in order; on an idle connection the head goes out at once, or is lost without a segment |
| TcpRules.RecvRule | dts_net_tcp.c:1008-1020 | `tcp_recv` touches nothing but the receive queue, and that only in ESTABLISHED |
| TcpRuns.StopAndWaitAlways | dts_net_tcp.c:305-388 | after an active open, for every run against an arbitrary peer with any failures, ESTABLISHED and FIN_WAIT_1 have `tx_seg` null and una = nxt, or exactly one segment from una to nxt modulo 2^32 |
| TcpSender.OneOutstandingRun | dts_net_tcp.c:471-929 | the inductive invariant behind it is kept over every run, for a passive open as long as the peer is polite, which is exactly what it takes |
| TcpSender.OneOutstandingIff | dts_net_tcp.c:471-929 | in any state, an event keeps the invariant if and only if it is polite: in SYN_RECEIVED an acceptable segment must not reset a passive open, and must acknowledge exactly the SYN or, refused, carry no FIN |
| TcpFaults.PassiveBreaks | dts_net_tcp.c:748-776 | a peer, from the open on, whose acknowledgment of the SYN's own number establishes a listener without stop-and-wait |
| TcpFaults.FinMisplaced | dts_net_tcp.c:748-776 | a peer, from the open on, that makes a listener with number 2^32-1 send its FIN at the number of its SYN |
| TcpRuns.PassiveEstablishes | dts_net_tcp.c:748-776 | on the passive side stop-and-wait holds on entering ESTABLISHED exactly when the first acknowledgment equals nxt |
| TcpRuns.WireInOrder | dts_net_tcp.c:346-442 | over every run after an active open whose data segments are allocated, every segment ever handed to IP sits at its place: SYN at iss, each payload the accepted bytes at the offset its number says, FIN at iss+1+(all bytes accepted), through FIN_WAIT_1 and LAST_ACK |
| TcpRuns.WireInOrderPassive | dts_net_tcp.c:346-442 | the same for a passive open as long as the peer is polite |
| TcpSender.StreamRun | dts_net_tcp.c:327-442 | the queue is always the untransmitted tail of what was accepted, and nxt and the outstanding segment stand at the byte the queue starts from |
| TcpWorld.AcceptedIsGiven | dts_net_tcp.c:1021-1046 | over every run from an open the accepted bytes are the first size modulo 65536 bytes of each `tcp_send` met in ESTABLISHED with a buffer, in the order given |
| TcpRuns.FinOnlyWhenDone | dts_net_tcp.c:416-442 | an event that builds a FIN finds the queue empty and nothing outstanding, and numbers it one past the last accepted byte |
| TcpRuns.FinFreezesNxt | dts_net_tcp.c:863-939 | from the FIN on no run changes snd.nxt or the accepted bytes |
| TcpRuns.EstablishesIff | dts_net_tcp.c:685-725 | some run of an active open reaches ESTABLISHED if and only if its initial sequence number is not 2^32-1 |
| TcpRuns.NoReturn | dts_net_tcp.c:501-990 | over every run a state that was left does not recur, except that LISTEN and SYN_RECEIVED may alternate; CLOSED is absorbing; CLOSING is never entered |
| TcpRuns.LastAckEnds | dts_net_tcp.c:921-939 | LAST_ACK is left only to CLOSED and only by a segment that acknowledges the FIN |
| TcpRuns.TimeWaitHistory | dts_net_tcp.c:863-901 | every run in TIME_WAIT contains, in this order, an acknowledgment of its own FIN in FIN_WAIT_1 and a FIN,ACK in FIN_WAIT_2 |
| TcpRuns.SegmentNeverNull | dts_net_tcp.c:863-939 | when allocations succeed, the unchecked uses of `tx_seg` in FIN_WAIT_1 and LAST_ACK never meet a null pointer, on any run |
| TcpRuns.ForgetsIff | dts_net_tcp.c:546-559 | an outstanding segment loses its running timer exactly when the timer expires in CLOSE_WAIT |
| TcpStall.AckCompletesIff | dts_net_tcp.c:374-388 | the acknowledgment of everything outstanding completes the segment if and only if snd.una < snd.nxt as numbers |
| TcpStall.WedgedForever | dts_net_tcp.c:374-442 | otherwise no run completes it: the same segment stays outstanding, nothing but it and bare acknowledgments goes out, and FIN_WAIT_2 and CLOSED are never reached |
| TcpStall.CompletesIff | dts_net_tcp.c:374-388 | some continuation completes the outstanding segment if and only if snd.una < snd.nxt |
| TcpStall.ConstructWedgesIff | dts_net_tcp.c:346-372 | loading a chunk leads there if and only if the chunk is empty or its end reaches 2^32 |
| TcpStall.SendWedgesIff | dts_net_tcp.c:1021-1033 | `tcp_send` on an idle connection leads there if and only if the size is a multiple of 65536, zero included, or the bytes reach 2^32 |
| TcpStall.FirstSendWedgesIff | dts_net_tcp.c:685-725 | for every initial number but 2^32-1, exactly which first send after the handshake leads there |
| TcpStall.CloseWaitFallsSilent | dts_net_tcp.c:546-559 | the timer that expires in CLOSE_WAIT sends nothing and is not started again |
| TcpStall.SilentUntilReleased | dts_net_tcp.c:546-559 | once the timer has expired in CLOSE_WAIT, on every run without a releasing acknowledgment the segment is not sent again and only bare acknowledgments go out |
| TcpStall.SilentStepIff | dts_net_tcp.c:921-939 | one event ends this: in LAST_ACK, an acknowledgment of snd.nxt that completes the segment |
| TcpFaults.SilenceEnds | dts_net_tcp.c:903-939 | a run from the open to CLOSE_WAIT with a segment outstanding, through the silence, and out of it with the next chunk |
| TcpStall.GoesStaleIff | dts_net_tcp.c:389-414 | in ESTABLISHED the packed acknowledgment number of what is outstanding goes out of date if and only if an accepted segment moves rcv.nxt, by a FIN whose acknowledgment counts or else by in-order text with a buffer, and it does not acknowledge what is outstanding, or the next chunk is loaded at once |
| TcpFaults.StaleRetransmission | dts_net_tcp.c:389-414 | a run from the open in which the timer then sends an acknowledgment number below what has been received |
| TcpStall.LastAckOnce | dts_net_tcp.c:457-469 | in TIME_WAIT and CLOSE_WAIT with snd.una = snd.nxt no run sends anything, a repeated FIN included, until the user closes in CLOSE_WAIT |
| TcpStall.AnswersAgainIff | dts_net_tcp.c:903-920 | a FIN,ACK that was answered in TIME_WAIT or CLOSE_WAIT is answered again when it is repeated if and only if its acknowledgment is above snd.nxt as a number |
| TcpStall.SynAckOnce | dts_net_tcp.c:546-559 | on every run from SYN_RECEIVED that does not get back to LISTEN no SYN is sent again |
| TcpHandshake.SynAckRepeatsIff | dts_net_tcp.c:630-684 | over plays of two connections, from any two initial numbers, some play has the listener send two SYNs if and only if the initiator's number is 2^32-1 |
| TcpStall.DataKeptIff | dts_net_tcp.c:346-372 | loading a non-empty chunk keeps the queue the untransmitted tail of what was accepted, with snd.nxt at its place, if and only if the segment is allocated |
| TcpFaults.LossMisplaces | dts_net_tcp.c:346-372 | a run from the open in which the byte after a lost one goes out with its number |
| TcpLink.PlayInvariant | dts_net_tcp.c:374-990 | the joint invariant of both endpoints and everything in flight, kept by every move of every play, for all eleven states but CLOSING, also when a handshake can never complete |
| TcpStream.ClosingSafety | dts_net_tcp.c:374-990 | over every play from both opens on, with segments lost, duplicated and reordered and both users sending and closing when they like: what each side has queued is a prefix of the bytes given to `tcp_send` on the other, or all of them and one byte after its FIN; in ESTABLISHED una-iss-1 <= delivered <= nxt-iss-1; and once a side's FIN is built, and in FIN_WAIT_2, TIME_WAIT and CLOSED, the other side has queued everything its user gave |
| TcpStream.StreamSafety | dts_net_tcp.c:327-414 | in every such play in which no user has closed, what each side has queued is a prefix of the bytes given to `tcp_send` on the other |
| TcpStream.IdleMeansDelivered | dts_net_tcp.c:374-388 | in such a play an established side with nothing outstanding and nothing queued has had every byte its user gave delivered |
| TcpStream.StrayByteIff | dts_net_tcp.c:389-414 | over every play a side has queued something its peer's user did not give if and only if a FIN with an acknowledgment was accepted there in ESTABLISHED with sn = rcv.nxt and a buffer |
| TcpStream.StrayIff | dts_net_tcp.c:389-400 | one arrival adds such a byte if and only if it is that FIN |
| TcpStream.CopiedIsTextIff | dts_net_tcp.c:391-396 | what is copied is text only if and only if the segment has neither SYN nor FIN or its text fills the window |
| TcpWindow.LongChunkNeverCompletes | dts_net_tcp.c:374-396 | in every play, from the moment a chunk of more than 1500 bytes is outstanding at either side it stays outstanding over every continuation, and the peer queues no more than what came before it and its first 1500 bytes |
| TcpWindow.SendLongIff | dts_net_tcp.c:1021-1033 | `tcp_send` on an idle connection loads a chunk longer than the peer's window if and only if buffer and segment are allocated and the size modulo 65536 exceeds it |
| TcpRecovery.Recovers | dts_net_tcp.c:305-629 | from every play with both sides established, whatever was lost before, three more moves complete a chunk at either side that is not at the wrap, fits the window and has an idle receiver whose window does not wrap, and its bytes are queued |
| TcpRecovery.RepetitionAnsweredIff | dts_net_tcp.c:562-629 | a repetition of text that an idle receiver has queued is acknowledged if and only if the window does not wrap |
| TcpSession.WholeSession | dts_net_tcp.c:305-990 | for all data that fit the window and all initial numbers that do not wrap, a play from both opens to CLOSED on both sides with exactly the data and the byte of the FIN queued, although the first SYN, data segment and acknowledgment are lost |
| TcpFaults.StrayByte | dts_net_tcp.c:389-414 | a play in which no user sends anything, one closes, and the other is queued a byte |
| TcpExample.SomethingArrives | dts_net_tcp.c:471-862 | the assumptions of these theorems are met by a run of handshake, send and delivery that ends in two established sides with the byte queued |
| TcpReceive.AcceptableMeetsWindow | dts_net_tcp.c:562-629 | with a window that does not wrap, a segment no longer than it is accepted exactly when its circular octet range meets the window, or for length 0 when its number lies in it |
| TcpReceive.AcceptanceRightIff | dts_net_tcp.c:562-629 | the test is right for all such segments if and only if rcv.nxt + rcv.wnd does not wrap |
| TcpReceive.WrappedWindow | dts_net_tcp.c:562-629 | where the window wraps the test accepts exactly the segments with an end outside of it |
| TcpReceive.ClosedWindow | dts_net_tcp.c:572-589 | a window of zero accepts nothing |
| TcpReceive.CoveringRefusedIff | dts_net_tcp.c:562-629 | for a segment of any length, with a window that does not wrap, the test is right if and only if the segment does not reach beyond the window on both sides |
| TcpReceive.SendReportsQueuedIff | dts_net_tcp.c:1021-1033 | the number `tcp_send` reports is the number queued if and only if no buffer was had or fewer than 65536 bytes were given |
| TcpReceive.DropUnread | dts_net_tcp.c:993-1007 | a request for n bytes answers min(n, unread) and leaves exactly the unread stream with that many bytes dropped |
| TcpReceive.UnreadRun | dts_net_tcp.c:389-414 | over every run the unread bytes are the tail of all bytes ever queued for the user |
| TcpReceive.BufferRightIff | dts_net_tcp.c:993-1007 | the caller's buffer gets the stream prefix, whatever the bytes are, if and only if at most one chunk contributes |
| TcpReceive.FillSnoc | dts_net_tcp.c:993-1007 | the buffer after a read, chunk by chunk: each is laid over its start, as much as the request has left |
| TcpReceive.FillRest | dts_net_tcp.c:993-1007 | the buffer behind the number of bytes reported is as it was |
| TcpEngine.Tcp.constructor | dts_net_tcp.c:471-540 | a new connection is the opened control block with an empty history |
| TcpEngine.Tcp.Deliver | dts_net_tcp.c:245-283 | an arriving segment, in place, is one step of the model; the history grows by it |
| TcpEngine.Tcp.Tick | dts_net_tcp.c:327-334 | an expiring timer, in place: in the four states of the table the packed image goes out again and the timer is set to five seconds; elsewhere it stays stopped, and TIME_WAIT ends |
| TcpEngine.Tcp.TcpClose | dts_net_tcp.c:960-990 | `tcp_close`, in place, is one step of the model |
| TcpEngine.Tcp.TcpSend | dts_net_tcp.c:1021-1046 | `tcp_send`, in place: the first size modulo 65536 bytes are accepted in order, the whole size is reported, and the rest is one step of the model |
| TcpEngine.Tcp.TcpRecv | dts_net_tcp.c:993-1020 | `tcp_recv` terminates; the queue, the count and the buffer come out as specified |
| TcpEngine.Tcp.RecvWhenEstablished | dts_net_tcp.c:993-1007 | its loop takes chunks off the queue until the request is met, with the destination at the start of the buffer |
| TcpEngine.Tcp.ProcessReceivedSeq | dts_net_tcp.c:562-629 | the four-case test of acceptability; what it refuses is answered with an acknowledgment at snd.nxt, unless it is a reset or empty against a closed window |
| TcpEngine.Tcp.TcpHandleData | dts_net_tcp.c:389-414 | in-order text is queued once, clipped to the window, and acknowledged at once or by the outstanding segment |
| TcpEngine.Tcp.TcpConstructData | dts_net_tcp.c:346-372 | one chunk leaves the queue when nothing is outstanding; it is lost when no segment can be allocated |
| TcpEngine.Tcp.TcpConstructFinAck | dts_net_tcp.c:416-442 | a FIN is built only with an empty queue and nothing outstanding |
| TcpEngine.Tcp.WhenSynSent | dts_net_tcp.c:685-725 | the handler in place, with the reset that falls through and una moving before the acknowledgment is sent |
| TcpEngine.Tcp.WhenSynReceived | dts_net_tcp.c:726-794 | the handler in place: reset, acknowledgment and FIN |
| TcpEngine.Tcp.WhenEstablished | dts_net_tcp.c:795-862 | the handler in place: acknowledgment, then text, then FIN |
| TcpEngine.Tcp.WhenFinWait1 | dts_net_tcp.c:863-888 | the handler in place: with the FIN outstanding its acknowledgment, and no other segment, leads to FIN_WAIT_2; before, an acknowledgment of data may load the next chunk and the FIN is built as soon as nothing is left |
| TcpEngine.Tcp.WhenLastAck | dts_net_tcp.c:921-939 | the same for the other side: the acknowledgment of the FIN, and no other segment, leads to CLOSED |
| TcpEngine.Tcp.TcpReceived | dts_net_tcp.c:940-959 | the dispatch over the table, which has no entry for CLOSING and CLOSED |
| TcpEngine.Tcp.ObjectStopsAndWaits | dts_net_tcp.c:471-888 | every valid object opened actively has at most one segment outstanding in ESTABLISHED and FIN_WAIT_1 |
| TcpEngine.Tcp.ObjectAcceptsGiven | dts_net_tcp.c:1021-1046 | what a valid object has accepted are the bytes its history gave to `tcp_send`, in order |
| TcpEngine.Tcp.ObjectWireInOrder | dts_net_tcp.c:346-442 | everything such an object has put on the wire is at its place |
| FragmentSpec.FragmentReads | dts_net_dblk.c:274-329 | reading from the cursor of fragment i, as far as its declared size, gives the i-th stretch of fsize bytes of the flat block |
| FragmentSpec.VSizeExactIff | dts_net_dblk.c:300-316 | the declared size of fragment i is exact if and only if the stretch is full or its cursor stands in the final node |
| FragmentSpec.FragmentsJoin | dts_net_dblk.c:274-329 | the ceil(total/fsize) stretches, joined, are the block |
| DblkFragment.AllButLastFull | dts_net_dblk.c:274-329 | every fragment node but the last declares and reads as exactly fsize bytes |
| FragmentSpec.LastFragmentExactIff | dts_net_dblk.c:300-316 | the last declared size is exact if and only if the fragment is full, starts beyond the first byte of the final node, or starts at it right after a fragment that ends inside the node before |
| DblkFragment.Fragment | dts_net_dblk.c:274-329 | on the heap, `dblk_fragment` allocates one node a fragment, links them and makes each alias its stretch of the source, which it does not change |
| DblkFragment.FragmentIsStretch | dts_net_dblk.c:34-67 | a fragment node, read as `dblk_node_copy_to` reads it, gives its stretch of the block |
| DblkFragment.FragmentExactIff | dts_net_dblk.c:300-316 | its declared size is the number of bytes it reads as if and only if the stretch is full or it starts in the final node |
| Dblk.NodeCopyTo | dts_net_dblk.c:34-67 | a real node is copied as far as the room goes; a virtual one gives its own bytes and then those along its chain, up to its declared size; nothing else in memory changes |
| Dblk.ReadOnFlat | dts_net_dblk.c:48-60 | the walk along the chain reads a prefix of the concatenated chunks |
| Dblk.Size | dts_net_dblk.c:210-223 | the total of the block, virtual nodes counted with their declared size |
| DblkLife.NodeToRmem | dts_net_dblk.c:128-137 | a virtual node becomes a real one in the given buffer, with the bytes it showed |
| DblkLife.ListToRmem | dts_net_dblk.c:168-185 | every virtual node gets its own new buffer, real ones stay, up to the first failing allocation; no two share one; the source is as before |
| DblkLife.Delete | dts_net_dblk.c:187-208 | frees exactly what the first block of the list owns, each allocation once, and returns the next block |
| DblkLife.ListDelete | dts_net_dblk.c:150-155 | frees exactly what the list owns, each allocation once |
| DblkCycle.Materialise | dts_net_dblk.c:157-184 | cutting and materialising gives nodes in buffers of their own, apart from each other and from everything allocated before, that start with their stretches |
| DblkCycle.CopiedExactIff | dts_net_dblk.c:128-137 | a copy is exactly its stretch if and only if the stretch is full or started in the final node |
| DblkCycle.FreeFragments | dts_net_dblk.c:187-208 | deleting the fragments gives back what they took and nothing of the block |
| DblkCycle.WholeCycle | dts_net_dblk.c:83-208 | cut, materialise, delete the fragments, delete the block: every allocation is freed exactly once |
| DblkOps.CopyTo | dts_net_dblk.c:237-253 | on a block of real nodes, for any room: the first min(size, total) bytes of the flat block, and nothing else, are written |
| DblkSend.CopyBlock | dts_net_dblk.c:237-253 | on a block of real and virtual nodes with room for what they declare: each node's bytes, placed where the declared sizes before it end, and the declared total as the answer |
| DblkSend.PlacedAt | dts_net_dblk.c:237-253 | each node's bytes stand where the declared sizes before it end, and the gap behind a node that shows less keeps what was there |
| DblkSend.PlacedBehind | dts_net_dblk.c:237-253 | nothing is written before the first place or behind the last |
| DblkSend.PlacedExact | dts_net_dblk.c:237-253 | when every node but the last shows all it declares, these are the concatenated bytes, and the answer is too large by what the last one lacks |
| DblkSend.SendFragment | dts_net_ether.c:54 | a header node followed by a virtual fragment goes out as the header and exactly the fragment's stretch; the reported length is right if and only if the stretch is full or starts in the final node |
| DblkOps.CopyFrom | dts_net_dblk.c:255-272 | the nodes hold what they held with the given bytes written over them, as far as they go; the buffers beside them do not change |
| DblkOps.WriteThenRead | dts_net_dblk.c:237-272 | reading after writing gives the written bytes, then the old rest |
| DblkOps.Copy | dts_net_dblk.c:346-354 | one new node with the flat bytes; its size is kept in 16 bits |
| DblkOps.Merge | dts_net_dblk.c:331-344 | the block ends with the new node and has its bytes appended; what followed the block now follows that node |
| DblkOps.Seek | dts_net_dblk.c:356-374 | every node's offset after seeking to k |
| DblkOps.SeekSplits | dts_net_dblk.c:356-374 | after seeking to k, total - min(k, total) bytes are unread; nodes before k are used up, nodes after it untouched |
| Checksum.FoldIsOnesComplement | include/dts/net/checksum.h:40-42 | the fold loop ends in the ones'-complement representative: congruent modulo 65535, and zero only for zero |
| Checksum.WordSumConcat | include/dts/net/checksum.h:46-58 | summing pieces of even length is summing the flat bytes |
| Checksum.WordSumOctets | include/dts/net/checksum.h:46-58 | octets at even places weigh 256 and those at odd places 1 |
| Checksum.StoredComplementVerifies | include/dts/net/checksum.h:33-68 | storing the complement of the folded accumulator in a zero field at an even offset makes the whole buffer fold to 0xFFFF, with the 32-bit accumulator and with the 64-bit one, for buffers of every length: the complement never makes it wrap again |
| Checksum.StoredChecksumVerifies | include/dts/net/checksum.h:33-44 | so a buffer that stores its own `checksum()` has checksum zero |
| Checksum.ComplementAccepted | dts_net_tcp.c:128-136 | clear, recompute, compare accepts exactly the fields whose full sum folds to 0xFFFF, with 0xFFFF itself only over zeroes |
| Checksum.ComputeChecksum | include/dts/net/checksum.h:33-44 | the 32-bit loop computes the complement of the folded word sum |
| Checksum.Accumulate | include/dts/net/checksum.h:46-58 | the 64-bit loop adds the word sum of a piece |
| Checksum.Complete | include/dts/net/checksum.h:59-68 | the folded complement |
| TcpCodec.Pack | dts_net_tcp.c:66-106 | with room in the header node, header and payload become one block whose flat bytes are the wire form, octet by octet behind the pseudo header of RFC 793; otherwise nothing changes, and nothing beside the twenty bytes ever does |
| TcpCodec.Unpack | dts_net_tcp.c:107-139 | the fields as the octets spell them, fresh option and payload nodes inside the buffer, the answer of the checksum test, and only the checksum field cleared |
| TcpCodec.WireOctets | dts_net_tcp.c:72-81 | every field stands at the octets RFC 793 gives it, most significant first, and the payload behind octet 20 |
| TcpCodec.ParsedOctets | dts_net_tcp.c:115-123 | every field read is the number its octets spell |
| TcpCodec.PseudoIs | include/dts/net/pseudo_header.h:37-50 | source, destination, zero, protocol and length, in this order |
| TcpCodec.WireRoundTrip | dts_net_tcp.c:66-139 | a wire form verifies and parses to its header and payload |
| TcpCodec.VerifiesIff | dts_net_tcp.c:128-136 | for any received bytes the test accepts exactly when pseudo header and segment fold to 0xFFFF, with a field of 0xFFFF only over zeroes |
| TcpCodec.PackSendUnpack | dts_net_tcp.c:66-139 | pack, merge, flatten with `dblk_copy`, unpack: every field and the payload come back and the checksum test passes |
| IpHeader.Header.Pack | dts_net_ip.c:34-77 | length 4*ceil((20+options)/4), cleared padding, total_length increased by it, sealed with the checksum; nothing behind the header changes |
| IpHeader.Header.Unpack | dts_net_ip.c:79-117 | succeeds exactly on datagrams as long as their header says; the fields that are read, and those that are not |
| IpHeader.ImageOctets | dts_net_ip.c:53-69 | every field stands at the octets RFC 791 gives it; addresses, options and zero padding follow the checksum |
| IpHeader.ReadOctets | dts_net_ip.c:79-117 | every field read is the number its octets spell, the identification that of octets 6 and 7 |
| IpHeader.ReadIff | dts_net_ip.c:83-92 | a datagram is read if and only if it has twenty bytes and as many as its header says |
| IpHeader.SealedVerifies | dts_net_ip.c:71-74 | a packed header checksums to zero |
| IpHeader.ReadSealed | dts_net_ip.c:79-117 | whatever follows it, a packed header reads back in every field, except that the identification comes back as flags and fragment offset |
| IpHeader.PackUnpack | dts_net_ip.c:34-117 | the whole way between two hosts |
| MemPool.Pool.Alloc | dts.net.mem.impl/dts_net_mem_arr.c:39-47 | hands out the first slot not in use, fails exactly when all are |
| MemPool.Pool.Free | dts.net.mem.impl/dts_net_mem_arr.c:48-54 | gives exactly that slot back |
| ArpCache.EvictionFair | dts_net_ether_arp.c:143-165 | eviction makes room; an entry that goes was expired, or none was and its remaining time was minimal |
| ArpCache.EvictsOne | dts_net_ether_arp.c:160-165 | when nothing has expired exactly one entry goes, the first with the least time left |
| ArpCache.LiveConcat | dts_net_ether_arp.c:143-159 | when something has, the pass keeps the others piece by piece, in order |
| ArpCache.LiveOne | dts_net_ether_arp.c:143-159 | a single entry stays unless it has expired |
| ArpCache.InsertAtIs | dts_net_ether_arp.c:126-142 | a new entry is put in at one place, and the others keep theirs |
| ArpCache.Table.MakeRoom | dts_net_ether_arp.c:143-165 | the release pass, removing during iteration, does just that eviction and frees at least one slot |
| ArpCache.Table.Learn | dts_net_ether_arp.c:126-170 | the retry loop ends after one allocation attempt, or two when the pool was full; the new binding is in the table, beside what eviction left; the slots in use are again exactly the items |
| ArpCache.NewBindingFoundIff | dts_net_ether_arp.c:80-92 | a lookup after an insertion gives the new MAC if and only if no entry for its address with another MAC stands before it |
| ArpCache.LearnAndFind | dts_net_ether_arp.c:80-170 | the same for a reply that is learned in the table, whatever was evicted for it |
| ArpCache.ExpiredAnswers | dts_net_ether_arp.c:80-92 | a table in which an expired entry answers instead |
| ArpCache.Table.GetMacAddress | dts_net_ether_arp.c:80-92 | the first matching entry, or none exactly when no entry matches; an address returned was learned for that IP |
| ArpCache.Table.TableBounded | dts.net.mem.impl/dts_net_mem_arr.c:34-54 | never more entries than slots |
| ArpPacket.Packet.Pack | dts_net_arp.c:31-53 | writes the packet and cuts data_size to it when it fits, otherwise changes nothing |
| ArpPacket.Packet.Unpack | dts_net_arp.c:55-77 | succeeds exactly on packets as long as they say; the addresses point into the buffer |
| ArpPacket.ParseImage | dts_net_arp.c:31-77 | reading inverts writing for all address lengths |
| ArpPacket.ImageOctets | dts_net_arp.c:31-53 | every field stands at the octets RFC 826 gives it |
| ArpPacket.ImageParse | dts_net_arp.c:31-77 | writing inverts reading on every accepted packet |
| ArpPacket.PackUnpack | dts_net_arp.c:31-77 | the whole way between two hosts, successful exactly when 8+2*hln+2*pln fits |
| DhcpOptions.ScanEncoded | dts_net_dhcp.c:164-208 | for any options and anything before and after them the scan ends in bounds at the first option with the tag that does not follow a PAD, or reports absence at END |
| DhcpOptions.ItemOctets | dts_net_dhcp.c:164-208 | an option is its tag, its length and its body; a PAD is one zero octet |
| DhcpOptions.ScanRightIff | dts_net_dhcp.c:174-180 | this is the first option with the tag if and only if that is missing, stands first or does not follow a PAD |
| DhcpOptions.PadHidesOption | dts_net_dhcp.c:174-180 | an input on which it is not |
| DhcpOptions.PadSkips | dts_net_dhcp.c:174-180 | on any bytes, what follows a PAD is passed over as an option with a length byte, unless it is END |
| DhcpOptions.FirstIsFirst | dts_net_dhcp.c:164-208 | the reference search returns the first match, or none exactly when there is none |
| Dhcp.SeenMatches | dts_net_dhcp.c:164-208 | the option at which the scan stops has the wanted tag |
| Dhcp.TypeEncoded | dts_net_dhcp.c:164-185 | the message type read from encoded options is the body of that option, or absence is reported |
| Dhcp.LongEncoded | dts_net_dhcp.c:187-217 | the same for the 32-bit options |
| Dhcp.Message.Find | dts_net_dhcp.c:187-208 | the loop over the buffer is the scan, for any bytes |
| Dhcp.Message.Pack | dts_net_dhcp.c:101-128 | writes fixed part and options when they fit, otherwise changes nothing |
| Dhcp.Message.Unpack | dts_net_dhcp.c:130-156 | succeeds exactly from 241 bytes on; the options stay in the buffer |
| Dhcp.ParseImage | dts_net_dhcp.c:101-156 | every fixed field comes back, except that a little-endian host reads secs and flags as zero |
| Dhcp.ImageOctets | dts_net_dhcp.c:101-128 | every field stands at the octets RFC 2131 gives it, chaddr, sname and file in this order |
| Dhcp.ParseOctets | dts_net_dhcp.c:130-156 | every field read is the number, or the bytes, its octets spell |
| Dhcp.OptionOctets | dts_net_dhcp.c:164-208 | the cookie 99, 130, 83, 99, then each option at its place, then END |
| Dhcp.CookieNeeded | dts_net_dhcp.c:164-208 | without the cookie nothing is found |
| Dhcp.RoundTripIff | dts_net_dhcp.c:143-144 | the fixed part comes back whole if and only if the host is big-endian or both fields are zero |
| Dhcp.PackUnpack | dts_net_dhcp.c:101-217 | the whole way between two hosts of any byte order, with the answers of the option scans |

## Left out

- Driver callbacks, Ethernet framing, the BSD socket layer, UDP, ICMP, and the search for the connection in `tcp_ip_recv`: calls over function pointers and global lists.
- The list, timer and coroutine libraries are not part of this model; lists are sequences, a timer is an expired flag with a remaining time, and the place where `list_add` inserts is a parameter of `ArpCache.Table.Learn`.
- The checksum test of `tcp_ip_recv`, ports and addresses are not part of the TCP engine model; `TcpCodec.dfy` models the packing on its own.
- Segments and received chunks are values in `TcpEngine.dfy`, not blocks on the heap; the bytes after a payload, which `tcp_handle_data` reads for SYN and FIN, are two unknown bytes.
- TcpStream.ClosingSafety: needs data segments allocated, as `TcpStream.StreamSafety` and all theorems on plays do (`TcpStall.DataKeptIff` says what happens otherwise), and a network that delivers undamaged segments, each with any two bytes behind its payload.
- TcpLink.PlayInvariant: fewer than 2^32-1 bytes accepted per direction, as in all theorems on plays, so that no sequence number is used twice.
- A chunk of 65516 to 65535 bytes: with its header it exceeds 16 bits, and `dblk_copy` hands IP less than a header of it (`DblkOps.Copy`); the TCP model counts the whole segment as sent.
- TcpRuns.WireInOrder: assumes the same allocations, and offsets are taken modulo 2^32.
- TcpRuns.WireInOrderPassive: assumes a polite peer (`TcpSender.Polite`), as `TcpSender.OneOutstandingRun` does: in SYN_RECEIVED, acceptable segments do not reset, acknowledge exactly the SYN, and carry no FIN beside an acknowledgment that is refused; with initial number 2^32-1 the right acknowledgment is itself refused. The code has no such check.
- TcpRecovery.Recovers: says that a continuation exists, not that a fair network takes it; where none exists is said in `TcpStall.dfy`, `TcpWindow.dfy` and `TcpHandshake.dfy`. A receiver that has a segment of its own outstanding is left out.
- A null `tx_seg` read in ESTABLISHED (dts_net_tcp.c:834) is taken as "no FIN outstanding".
- DblkFragment.Fragment: fsize below 2^16, because a node keeps its declared size in 16 bits, and a block of real nodes that ends its list, as `ip_hl_send` gives it.
- DblkOps.CopyTo: blocks of real nodes only; `DblkSend.CopyBlock` has virtual ones, with room for what they declare.
- Dblk.NodeCopyTo: needs room for what a virtual node shows; the code copies that regardless of the size it is given.
- `dblk_read` and `dblk_write` over several nodes: the memory pointer does not advance; every caller uses one node, and so does the model of `tcp_recv`.
- Allocation failure inside `dblk_fragment` and `dblk_copy`: allocations succeed there; in `DblkLife.ListToRmem` they may fail.
- TcpCodec.Pack: no TCP options (no caller gives any), one payload node of even length, flags below 4096; the odd-length loop also adds the byte after the end.
- TcpCodec.Unpack: segments of even length, for the same reason.
- TcpCodec.PackSendUnpack: data_offset 5, as every caller sets it, and a total below 2^16, which is what a node can hold.
- IpHeader.Header.Pack: at most 40 option bytes, as many as the 4-bit header length can count, in a buffer with room for the padding.
- IP fragment offsets in `ip_hl_send` (dts_net_ip.c:171 divides a total_length that already contains the header, so they do not tile the payload), and the reassembly that does not exist.
- ArpCache.Table.Learn: addresses of 4 and 6 bytes; the request branch, which answers with a reply, is not modelled.
- ArpPacket.Packet.Pack: the addresses lie in other buffers than the packet being written.
- Dhcp.TypeEncoded: says nothing of a message type option without a body, where the code returns the byte after it; past the end of the data the model answers `OutOfData` where the code reads on.
- Adjacent PADs in DHCP options: the second one is taken for an option with a length byte.
- The DHCP client's states: they depend on timer behaviour that is not visible here.
