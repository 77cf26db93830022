# TTServer network core: models and proofs

This project models the parts of the server whose correctness is hard to see by
reading, and proves properties of them for every input and every run:

* the KCP reliable-transport engine (`src/net/ikcp.c`): a 32-bit engine that works
  in place, its refinement to a model with unbounded sequence numbers, and the
  protocol of two endpoints over a network that loses, duplicates, delays and
  reorders datagrams;
* exact big-integer arithmetic and the whole of `format_dragon` in the formatting
  library the logger uses (`run/lib/fmt/include/fmt/format.h`);
* the byte ring `RingQueue`, used by one thread and by two;
* the intrusive circular list `SendQueue`, and the list macros of `src/net/ikcp.h`;
* the life of a `NetConnect`: states, deadlines, answers and events, the traffic limit;
* the framing that lets unreliable messages share packets.

`dafny verify dfyconfig.toml` checks everything.

## How it is organised

| files | content |
|---|---|
| `U32`, `Arith`, `Bits` | modular 32-bit comparison, multiplication and division by variables, powers of two and masks |
| `KcpCodec`, `KcpModel` | the datagram format and its parser; every operation of one endpoint as a function on values with unbounded indices |
| `KcpEngine` | the class `Kcp`: 32-bit fields, lists, ack array and output buffer; each method computes the `KcpModel` function of the same operation |
| `KcpInvariants`, `KcpControl`, `KcpPacking` | what every operation keeps, whatever bytes arrive; windows; datagrams of a flush |
| `KcpSending`, `KcpReceiving`, `KcpTimer` | exactly what a flush sends, what arriving bytes do, and when the timer flushes, without reference to the functions of the model |
| `KcpProtocol`, `KcpMessages`, `KcpRuns`, `KcpProgress` | two endpoints and a network; message boundaries; the theorem about runs; what one loss-free round trip achieves |
| `KcpDrain` | the loop of a connection that empties the engine's receive queue |
| `BigNum`, `Convolution`, `Bigint` | values of bigit sequences, squaring by columns, the class `Bigint` |
| `Decimals`, `DragonFixed`, `DragonShortest`, `FormatDragon` | decimal digits and rounding; setup and fixed digits; shortest digits; the function as a whole |
| `Ring`, `RingQueue`, `RingSpsc` | ring arithmetic; sequential use; every interleaving of one producer and one consumer |
| `SendQueue` | circular lists |
| `NetConnectModel`, `NetConnectEffects`, `NetConnectRuns`, `NetConnectTraffic`, `NetConnect` | one connection as functions; what each step does, and the time each state allows; its runs; the traffic limit; the class |
| `UnreliableMerge` | packing, splitting and the round trip |

Classes carry the fields the source updates, and their methods are proved against
functions on values. Theorems about many steps are lemmas about those functions.

## Assumptions

* A KCP datagram is delivered only while its numbers are less than 2^31 behind the
  window edges of its receiver (`KcpProtocol.FreshFrame`). The comparison in the
  source cannot tell older ones apart: `KcpProtocol.StaleFrameIsMisfiled`. What a
  flush sends is young enough, and stays so for 2^29 segments, unless it repeats an
  ack that is older: `KcpProtocol.OutputIsFresh`. Nothing is assumed about numbers
  that are too new; that they cannot occur is proved.
* The network never invents a datagram. Robustness against arbitrary bytes is
  proved separately, for one endpoint (`KcpInvariants.InputInv`).
* Windows are between 128 (receiving) and 2^29 segments, and fixed.
* `src/net/ikcp.c` never allocates `acklist`, which KCP's own repository does on
  demand; the engine is given an array for `ackblock` pairs.
* Time and datagrams are arguments. Threads are steps of a state machine, each
  load, byte copy and store being one step, in any order.

## Where the code does not do what it says

* `bigint::compare` reports equal values with different exponents as unequal. So
  `divmod_assign` returns 0 for a dividend equal to its divisor but held with a
  larger exponent (`Bigints.Bigint.DivmodAssign`, `Bigints.EqualCanBeMisjudged`).
* `bigint::subtract_aligned` takes a borrow from one bigit only. The result is
  exact if and only if no borrow is lost (`Bigints.Bigint.SubtractAligned`,
  `Bigints.BorrowCanBeLost`); division never loses one (`Bigints.NothingLost`).
* `format_dragon`, asked for a negative number of digits after the adjustment for
  fixed notation, may print 1 where the value rounds to 0
  (`DragonFixed.NoDigitsRounding`; 1/16 in `FormatDragon.NegativeDigitsExample`).
* The adjustment of the exponent tests the upper boundary of the value also when
  digits are asked for. A value just below a power of ten then keeps the larger
  exponent and is printed with a leading 0, one significant digit short of the
  number asked for. As many are printed if and only if the value, rounded, reaches
  that power (`FormatDragon.Format`, `FormatDragon.ReachesExactly`; 10^28 - 2^28 in
  `FormatDragon.LeadingZeroExample`).
* The shortest digits always read back as the value. For an even significand both
  midpoints read back too, but `compare` may see an equal `lower` as larger and the
  program then goes past a number on the lower one: `FormatDragon.ShortestExactly`
  says exactly when, and `FormatDragon.ExtraDigitsExample` has a value printed with
  twenty digits where 4.8e28 is enough.
* The comment in `NetCommDef.h` limits a connection to 5000 packets and 1024000
  bytes in ten seconds. `Tick1S` restarts the ten seconds and not the counters, so
  the limits apply to the whole life of a connection
  (`NetConnectTraffic.CountersAreForever`, `NetConnectTraffic.TrafficVerdict`). The
  verdict is that of the comment if and only if the lifetime totals are within the
  limits or those since the last check over them (`NetConnectTraffic.LimitIsMet`);
  a peer that sends one heartbeat a second is cut off
  (`NetConnectTraffic.SlowPeerIsCutOff`).
* The loop that hands on received messages tests `0 > iPeekLen` on a `size_t`, which
  never holds. Once a packet has set the receive flag the loop does not end, and when
  no whole message is left every pass repeats the one before
  (`KcpDrain.DrainNeverEnds`).
* A connection may report its close twice, when a close packet, the bind timeout or
  the traffic limit cuts TIME_WAIT short (`NetConnectRuns.Repeated`,
  `NetConnectRuns.CloseIsReported`, `NetConnectRuns.ReportedTwice`).
* `SendUnreliable` accepts a message without bytes, at which the receiver stops
  reading the packet (`UnreliableMerge.RoundTrip`).
* `RingQueue::Pop` returns 0 both for an empty queue and for a message without
  bytes.

## Model

| member | source | states |
|---|---|---|
| U32.TimeDiffExact | src/net/ikcp.c:135-138 | the modular difference of two wrapped counters is the true difference if and only if that lies in [-2^31, 2^31) |
| U32.NearExact | src/net/ikcp.c:135-138 | a wrapped index is recovered next to a window edge if and only if it is within half the number space of it |
| KcpCodec.ParseEncode | src/net/ikcp.c:1005-1016 | the header loop takes exactly one encoded segment off the front of any buffer, giving every field and the payload back |
| KcpCodec.ParseEncodeAll | src/net/ikcp.c:844-869 | parsing a datagram gives back the segments packed into it, in order, followed by what the rest of the buffer holds |
| KcpCodec.HeaderLayout | src/net/ikcp.c:1005-1016 | where each field lies in the 24 bytes of a header, as little-endian numbers |
| KcpCodec.StopsAtFault | src/net/ikcp.c:852-874 | behind any segments the first faulty header stops the loop: -1 for another conversation, -2 for a length that is not there or negative, -3 for an unknown command, in this order |
| KcpCodec.ShortTailIgnored | src/net/ikcp.c:852-853 | bytes too few for a header behind any segments are ignored |
| KcpModel.FragCountIsQuotient | src/net/ikcp.c:579-580 | the division counts the same fragments as cutting off one full segment at a time |
| KcpEngine.Kcp.constructor | src/net/ikcp.c:297-359 | a new engine satisfies every invariant and is in the initial state of the model |
| KcpEngine.Kcp.Send | src/net/ikcp.c:539-613 | on the 32-bit fields and lists, sending has the model's effect and return value, refusal included, and keeps the invariant |
| KcpEngine.Kcp.PeekSize | src/net/ikcp.c:511-533 | the loop finds the size of the first message, or -1 while it is incomplete |
| KcpEngine.Kcp.Recv | src/net/ikcp.c:428-505 | bytes, return value, the segments that move up and the request to announce a reopened window are those of the model, also when peeking |
| KcpEngine.Kcp.MoveReady | src/net/ikcp.c:803-814 | the loop with 32-bit comparisons moves exactly the segments that became contiguous and fit |
| KcpEngine.Kcp.ParseUna | src/net/ikcp.c:670-684 | for every 32-bit una, the segments unlinked are those below the index it stands for |
| KcpEngine.Kcp.ParseAck | src/net/ikcp.c:648-668 | for every 32-bit number, only the outstanding segment it stands for is unlinked |
| KcpEngine.Kcp.ParseFastack | src/net/ikcp.c:686-705 | exactly the segments before the acknowledged one have their counter raised |
| KcpEngine.Kcp.AckPush | src/net/ikcp.c:714-753 | the ack array holds the pending acks in order; those beyond its capacity are dropped and nothing else changes |
| KcpEngine.Kcp.ParseData | src/net/ikcp.c:765-825 | the backward search by modular comparison inserts in order of the true index, drops duplicates and moves up what is ready |
| KcpEngine.Kcp.Input | src/net/ikcp.c:831-999 | for any bytes, state and return value of the 32-bit engine are those of the model; what they mean is in the rows of `KcpReceiving` |
| KcpEngine.Kcp.Flush | src/net/ikcp.c:1030-1237 | the shared output buffer is cut into exactly the datagrams of the model, and all fields end as the model says; what is sent and what becomes of it is in the rows of `KcpSending` |
| KcpEngine.Kcp.Update | src/net/ikcp.c:1245-1270 | state and datagrams of one timer call, under wrapping time; when it flushes and what happens to the deadline is in the rows of `KcpTimer` |
| KcpEngine.Kcp.Check | src/net/ikcp.c:1282-1318 | the loop over pending segments returns the advised time of the model |
| KcpEngine.Kcp.Reconnect | src/net/KcpWrappar.cpp:126-153 | every segment in flight starts its transmission count again and nothing else but the dead flag changes |
| KcpInvariants.SendInv | src/net/ikcp.c:579-613 | sending keeps the sender invariant and a refused message changes nothing |
| KcpInvariants.RecvInv | src/net/ikcp.c:428-505 | reading and peeking keep the receiver invariant, never move rcv_nxt back, and lose nothing received |
| KcpInvariants.DropBelowEffect | src/net/ikcp.c:670-684 | the walk from the head removes all and only the segments below una |
| KcpInvariants.RemoveEffect | src/net/ikcp.c:648-668 | the walk removes all and only the acknowledged segment |
| KcpInvariants.InsertEffect | src/net/ikcp.c:777-795 | insertion keeps the buffer strictly ascending and adds the segment only if its number was absent |
| KcpInvariants.MoveReadyEffect | src/net/ikcp.c:803-814 | the longest contiguous run that fits moves, in order, and what stays could not move |
| KcpInvariants.AdmitEffect | src/net/ikcp.c:1119-1141 | segments are numbered consecutively from snd_nxt, none beyond the window, all if the window allows |
| KcpInvariants.ParseUnaInv | src/net/ikcp.c:637-684 | for any una value the sender invariant holds after it and snd_una has not moved back |
| KcpInvariants.ParseAckInv | src/net/ikcp.c:637-668 | for any acknowledged number likewise |
| KcpInvariants.InputPushInv | src/net/ikcp.c:911-936 | a PUSH can make only its own number received, and only received numbers are acknowledged |
| KcpInvariants.InvBounds | src/net/ikcp.c:771-806 | the invariant bounds the lists: snd_buf by what is outstanding and the send window, rcv_buf and rcv_queue by the receive window, pending acks by their block |
| KcpInvariants.InputInv | src/net/ikcp.c:831-999 | arbitrary bytes, well formed or not, keep both invariants, and snd_una and rcv_nxt only move forward |
| KcpInvariants.FlushInv | src/net/ikcp.c:1030-1237 | flushing keeps both invariants and never moves snd_una |
| KcpInvariants.UpdateInv | src/net/ikcp.c:1245-1270 | so does every call of the timer, at any time |
| KcpControl.GrowBounded | src/net/ikcp.c:964-986 | new acknowledgements never open the congestion window beyond the peer's |
| KcpControl.InputControl | src/net/ikcp.c:620-635 | whatever arrives, the retransmission timeout stays within its bounds and the threshold at least 2 |
| KcpControl.FlushControlInv | src/net/ikcp.c:1070-1089 | flushing keeps those bounds and those of the probe timer, and never leaves the congestion window closed |
| KcpControl.AdmitsToTheWindow | src/net/ikcp.c:1116-1141 | segments are numbered up to the smallest of the three windows, and fewer only if none is left |
| KcpControl.DueIsSent | src/net/ikcp.c:1148-1207 | the resend loop puts out a frame for a segment if and only if its test on the segment succeeds; `KcpSending.OldAreSentExactly` says which segments those are |
| KcpSending.NewAreSent | src/net/ikcp.c:1120-1156 | every segment a flush numbers leaves with it as a PUSH with that number and the fragment count and data of its queue entry |
| KcpSending.OldAreSentExactly | src/net/ikcp.c:1148-1201 | of the segments in flight, exactly those are sent that were never sent, whose time is up, or that were passed over `fastresend` times and sent at most five times |
| KcpSending.OnlyTheseAreSent | src/net/ikcp.c:1148-1201 | a flush puts out no other PUSH |
| KcpSending.NewAreStamped | src/net/ikcp.c:1130-1156 | a segment just numbered is in flight, sent once, with the present timeout and an eighth of grace in the ordinary mode |
| KcpSending.UnsentIsKept | src/net/ikcp.c:1148-1181 | a segment that is not sent is left as it is |
| KcpSending.SentIsRestamped | src/net/ikcp.c:1151-1186 | a segment that is sent is counted and stamped; its timeout is the present estimate the first time, backs off by mode when it ran out, and is kept when it was only passed over |
| KcpSending.TimerRunsOut | src/net/ikcp.c:1151-1182 | its time is up again exactly when that timeout has passed |
| KcpSending.TimeoutsCounted | src/net/ikcp.c:1157-1160 | the transmission counter of the endpoint rises by the number of segments whose time is up |
| KcpSending.FlushAdapts | src/net/ikcp.c:1216-1236 | a timeout closes the congestion window to one segment and halves the threshold, a fast retransmission alone halves what is in flight, and without either both stay, the window at least 1 |
| KcpSending.DeadExactly | src/net/ikcp.c:1203-1205 | the link is given up if and only if a segment is sent for the twentieth time or more |
| KcpSending.BareFramesAre | src/net/ikcp.c:1046-1113 | frames without data are the pending acks and the probes, stamped with the free space of the receive queue and the next number expected |
| KcpSending.ProbesExactly | src/net/ikcp.c:1091-1113 | the window is asked for if and only if a probe is due, and told if and only if that was requested |
| KcpSending.ProbeTimer | src/net/ikcp.c:1070-1089 | the probe timer starts at seven seconds while the peer advertises 0, grows by half up to two minutes, and stops when the window opens |
| KcpSending.FlushLeaves | src/net/ikcp.c:1042-1115 | after a flush acks and requests are gone and estimates untouched; before the first timer call it does nothing |
| KcpReceiving.InputTells | src/net/ikcp.c:877-937 | the peer's window is that of the last frame read, and a request for ours is remembered if any frame makes one; clock and probes are untouched |
| KcpReceiving.AdvertisedIsRespected | src/net/ikcp.c:877-1141 | after a datagram whose last frame advertises w, a flush numbers nothing beyond snd_una + w |
| KcpReceiving.FrameReleases | src/net/ikcp.c:637-684 | a frame with numbers of this half of the number space releases exactly what it acknowledges |
| KcpReceiving.CountersRise | src/net/ikcp.c:686-705 | after a whole datagram whose acks are of numbers sent, the counter of a segment is one higher exactly if a later one was acknowledged in it |
| KcpReceiving.FrameMeasures | src/net/ikcp.c:620-635 | an ack echoing a time not in the future updates mean, deviation and timeout as smoothed averages within the bounds, while they fit 32 bits; nothing else touches them |
| KcpReceiving.GrowsExactly | src/net/ikcp.c:964-986 | the congestion window opens by one up to the threshold, and beyond it to the least number of segments that holds the bytes counted once they are worth another |
| KcpReceiving.GrowsOnProgress | src/net/ikcp.c:964-986 | it opens only with a whole datagram that moved snd_una |
| KcpReceiving.BrokenExactly | src/net/ikcp.c:988-997 | the endpoint is declared broken exactly by a whole datagram whose greatest una acknowledges what was never sent |
| KcpReceiving.PushIsAcked | src/net/ikcp.c:911-917 | a PUSH below the window's end, new or repeated, is put down for an ack behind the others while there is room |
| KcpReceiving.InputAnswers | src/net/ikcp.c:845-874 | fewer than 24 bytes are refused unchanged; otherwise the code is the parser's, and after a fault nothing follows the frames before it |
| KcpReceiving.ReopeningIsAnnounced | src/net/ikcp.c:497-502 | taking a message out of a full queue is announced by the next flush with the room there is, and nothing else asks for that |
| KcpReceiving.ResumedIsResent | src/net/KcpWrappar.cpp:126-153 | after resuming the dead mark is gone and the next flush sends every segment in flight |
| KcpReceiving.FirstMessageLeaves | src/net/ikcp.c:539-1270 | the segments of the first message on a new endpoint leave with the first timer call, up to the windows |
| KcpReceiving.OpensWithOne | src/net/ikcp.c:297-359 | without `nocwnd` the first timer call sends nothing and the next flush a single segment |
| KcpPacking.DatagramsSound | src/net/ikcp.c:1182-1213 | grouping keeps every frame in order in datagrams of 1 to mtu bytes, opening a new one only when the next frame would not fit |
| KcpPacking.FlushRoundTrip | src/net/ikcp.c:1055-1213 | the datagrams of a flush parse without error into the queued acks, the probes and the due segments, in that order and nothing else |
| KcpTimer.CheckNeverOversleeps | src/net/ikcp.c:1282-1318 | before the advised time the timer would not flush and no segment is overdue, and the advice is at most one interval away |
| KcpTimer.CheckWakesForAReason | src/net/ikcp.c:1282-1318 | at the advised time there is something to do, or one interval has passed |
| KcpTimer.FlushesExactly | src/net/ikcp.c:1245-1264 | a timer call flushes unless the deadline is ahead by ten seconds at most |
| KcpTimer.UpdateIs | src/net/ikcp.c:1245-1270 | a call that does not flush only reads the clock; one that does is a flush at that time with a new deadline |
| KcpTimer.DeadlineMovesOn | src/net/ikcp.c:1257-1267 | after a call that flushed the deadline is ahead by at most one interval; if it was less than one interval late it has moved by exactly one |
| KcpTimer.OneFlushPerDeadline | src/net/ikcp.c:1257-1269 | then no call flushes before the new deadline and every one from it on does (for intervals up to ten seconds; longer ones flush at once) |
| KcpTimer.CheckAfterFlush | src/net/ikcp.c:1282-1318 | right after a flush the advice is to come back at once only if a segment is pending |
| KcpMessages.SplitShape | src/net/ikcp.c:588-611 | the pieces count down to 0, all but the last are full, and joined they are the message |
| KcpMessages.FragCountIsCeiling | src/net/ikcp.c:579-584 | the number of pieces is max(1, ceil(len/mss)) |
| KcpMessages.SendRefusesExactly | src/net/ikcp.c:579-586 | a message is refused if and only if it needs 128 segments or more, and then nothing changes |
| KcpMessages.PeekSeesMessage | src/net/ikcp.c:511-533 | a non-negative peek is the length of the next accepted message, and exactly that message would be read |
| KcpMessages.FullQueueIsReadable | src/net/ikcp.c:1371-1382 | a full receive queue always holds a whole message, and reading it frees space: the window cannot wedge |
| KcpMessages.ReadsExactly | src/net/ikcp.c:428-505 | reading returns -1 with nothing there, -2 while the next accepted message is not whole, -3 if it does not fit, and otherwise exactly that message, whose segments are taken unless it only peeks |
| KcpMessages.StepMessages | src/net/ikcp.c:442-479 | every step of an endpoint keeps message boundaries in both directions |
| KcpProtocol.SenderNotAhead | src/net/ikcp.c:1120-1141 | a sender is never more than both windows ahead of its receiver, so modular tests decide correctly |
| KcpProtocol.SenderFrame | src/net/ikcp.c:877-886 | an honest frame releases only segments the peer has received |
| KcpProtocol.ReceiverFrame | src/net/ikcp.c:911-936 | an honest PUSH is filed under its true index and the delivered bytes stay a prefix of those sent |
| KcpProtocol.StaleFrameIsMisfiled | src/net/ikcp.c:771-795 | a segment one turn of the counter old is taken for a current one: unless that number had been received, the stale payload is what is held under it, so the restriction on age is needed |
| KcpProtocol.OutputIsFresh | src/net/ikcp.c:1030-1213 | a frame put out by a flush is within the age its receiver can decode, with 2^29 segments to spare, if and only if it is not an ack older than that |
| KcpProtocol.DeliverStep | src/net/ikcp.c:831-999 | delivering any fresh datagram, once or again, keeps the invariant of the pair; the broken-sequence detector never fires |
| KcpProtocol.PairStep | src/net/ikcp.c:757-999 | so does every other step: sending, reading, ticking, resuming after a reconnect |
| KcpRuns.EveryRunIsReliable | src/net/ikcp.c:428-1237 | in every state of every run: bytes read then bytes waiting are a prefix of the bytes sent; every unacknowledged segment is still held by one side; messages read are a prefix of messages accepted; a full queue is readable; at both ends the lists stay within their windows and timeouts and threshold within their bounds |
| KcpProgress.NotBehind | src/net/ikcp.c:803-814 | a receiver with room in its queue has everything its sender has let go |
| KcpProgress.HeadArrives | src/net/ikcp.c:911-936 | one delivery of a segment numbered up to rcv_nxt, new or repeated, leaves an ack pending and never moves rcv_nxt back; it ends beyond that segment unless the application has left the queue full |
| KcpProgress.AnswerReleases | src/net/ikcp.c:877-879 | one delivery of any later datagram of the peer releases everything below the una it carries |
| KcpProgress.FlushAnswers | src/net/ikcp.c:1055-1065 | a flush with an ack pending sends something, and every datagram of it carries rcv_nxt |
| KcpProgress.FlushSendsHead | src/net/ikcp.c:1148-1207 | a flush while the oldest segment in flight is due sends a datagram with it |
| KcpProgress.RoundTripAdvances | src/net/ikcp.c:831-1237 | a round trip without loss of these two datagrams moves snd_una on if the receiver has room or is already ahead: whether its segment is new or all earlier answers were lost, whatever else is lost and even if every ack was dropped |
| BigNum.NumSum | run/lib/fmt/include/fmt/format.h:2804-2807 | the number of a concatenation of bigits is the sum of the parts at their weights |
| BigNum.LongerIsLarger | run/lib/fmt/include/fmt/format.h:2908-2910 | of two numbers the one with more bigits and a nonzero top is larger |
| Convolution.ColumnsAreProduct | run/lib/fmt/include/fmt/format.h:2999-3018 | the weighted column sums of the product table add up to the square |
| Bigints.WideStep | run/lib/fmt/include/fmt/format.h:2860-2869 | no intermediate of the wide multiplication leaves its type, and digit and carry are those of the exact product |
| Bigints.Bigint.Multiply | run/lib/fmt/include/fmt/format.h:2844-2853 | the value is multiplied exactly, whatever carries remain |
| Bigints.Bigint.MultiplyWide | run/lib/fmt/include/fmt/format.h:2855-2874 | likewise by a 64-bit or 128-bit factor in halves |
| Bigints.Bigint.Assign | run/lib/fmt/include/fmt/format.h:2876-2886 | the bigits written stand for the given number |
| Bigints.Bigint.ShiftLeft | run/lib/fmt/include/fmt/format.h:2912-2925 | the value is multiplied by two to the shift, split between exponent and bits |
| Bigints.Bigint.Compare | run/lib/fmt/include/fmt/format.h:2933-2948 | the sign of the difference; of equal values, the sign of the difference of exponents |
| Bigints.Bigint.AddCompare | run/lib/fmt/include/fmt/format.h:2950-2973 | the sign of a + b - c, through both early exits and the cut-off at a borrow above 1 |
| Bigints.Bigint.AssignPow10 | run/lib/fmt/include/fmt/format.h:2976-2997 | exactly ten to the exponent, for every exponent below 2^30 |
| Bigints.Bigint.AddLowColumn | run/lib/fmt/include/fmt/format.h:3004-3011 | one column of the lower half on top of the carry, within 128 bits |
| Bigints.Bigint.AddHighColumn | run/lib/fmt/include/fmt/format.h:3013-3016 | one column of the upper half likewise |
| Bigints.Bigint.Square | run/lib/fmt/include/fmt/format.h:2999-3021 | the value is squared exactly and stays without leading zeros |
| Bigints.Bigint.Align | run/lib/fmt/include/fmt/format.h:3025-3034 | the exponent becomes that of the other if it was larger, and the value stays |
| Bigints.Bigint.SubtractAligned | run/lib/fmt/include/fmt/format.h:2833-2842 | the exact value left, including how much too large it is when a borrow is lost, and that it is exact if and only if none is |
| Bigints.BorrowCanBeLost | run/lib/fmt/include/fmt/format.h:2840-2840 | a pair of operands for which subtraction is wrong |
| Bigints.NothingLost | run/lib/fmt/include/fmt/format.h:3038-3048 | with at most one bigit more than the divisor no borrow is ever lost |
| Bigints.Bigint.SubtractOnce | run/lib/fmt/include/fmt/format.h:3044-3047 | one round of the division subtracts the divisor exactly and stops exactly when the remainder is smaller |
| Bigints.Bigint.DivmodAssign | run/lib/fmt/include/fmt/format.h:3038-3049 | quotient and remainder, except that an equal dividend with a larger exponent gives 0 and stays |
| Bigints.EqualCanBeMisjudged | run/lib/fmt/include/fmt/format.h:2937-2946 | such a dividend and divisor |
| Decimals.RoundingIsNearest | run/lib/fmt/include/fmt/format.h:3168-3171 | rounding gives the one integer that is nearest with ties to even, as roundTiesToEven of section 4.3.1 of IEEE 754-2008 requires, and no other |
| Decimals.RoundsToAtLeast | run/lib/fmt/include/fmt/format.h:3168-3171 | a ratio rounds to t or more exactly from half below t, and at that half exactly when t is even |
| Decimals.CarryDigit | run/lib/fmt/include/fmt/format.h:3176-3179 | moving a ten one place up leaves the number the digits stand for unchanged |
| Decimals.SameRatioPower | run/lib/fmt/include/fmt/format.h:3124-3124 | numerator over denominator stays the value as digits are asked for in smaller units |
| DragonFixed.Setup | run/lib/fmt/include/fmt/format.h:3065-3122 | in all three cases numerator over denominator is f * 2^e in units of 10^exp10, and lower and upper are the distances to the midpoints with the neighbours |
| DragonFixed.NextDigit | run/lib/fmt/include/fmt/format.h:3164-3164 | one digit below ten and the remainder, losing nothing |
| DragonFixed.LeadingDigits | run/lib/fmt/include/fmt/format.h:3163-3167 | digits so far and remainder still add up to the value |
| DragonFixed.PropagateCarry | run/lib/fmt/include/fmt/format.h:3172-3184 | the digits after a carry stand for the same number, with the exponent raised if and only if all were nines |
| DragonFixed.FixedDigits | run/lib/fmt/include/fmt/format.h:3154-3188 | for a positive number of digits, digits and final exponent are the value correctly rounded, ties to even; the first is zero exactly when the rounded value has fewer digits |
| DragonFixed.NoDigitsRounding | run/lib/fmt/include/fmt/format.h:3156-3161 | without digits the one printed is correctly rounded if and only if none was asked for or the value is at most half |
| FormatDragon.NegativeDigitsExample | run/lib/fmt/include/fmt/format.h:3114-3161 | 1/16 in extended precision meets the conditions, is left with a negative number of digits, rounds to 0 and is in the case that prints 1 |
| DragonShortest.Decide | run/lib/fmt/include/fmt/format.h:3130-3132 | both stopping tests, exactly: strict comparisons for an odd significand, and for an even one with equality, except that equality with lower counts only if the bigits of both start at the same exponent |
| DragonShortest.ContinueMeansNone | run/lib/fmt/include/fmt/format.h:3134-3150 | if neither test stops, no number with the digits printed so far lies in the interval, with the ends that count |
| DragonShortest.FinishMeansClosest | run/lib/fmt/include/fmt/format.h:3134-3146 | the number with the last digit chosen lies in the interval and no other of that length in it is nearer |
| DragonShortest.ShortestDigits | run/lib/fmt/include/fmt/format.h:3125-3153 | the digits lie in the interval, as few as possible and the nearest of as many, none of them above nine |
| FormatDragon.SixtyFourBitsAreSupported | run/lib/fmt/include/fmt/format.h:3300-3312 | every significand of up to 64 bits with an exponent that is exact or one too large meets the conditions of the theorem below |
| FormatDragon.EstimateIsSupported | run/lib/fmt/include/fmt/format.h:3300-3312 | an exponent taken from the power of two below the value meets them too, and those for shortest digits |
| FormatDragon.ExactExponentExample | run/lib/fmt/include/fmt/format.h:3540-3574 | the double 1e23 with its exact exponent 22 meets the conditions although its upper midpoint is ten units |
| FormatDragon.Fixup | run/lib/fmt/include/fmt/format.h:3114-3122 | the estimate is corrected exactly when even the upper boundary does not reach a unit, and the value is unchanged, for shortest and for fixed digits |
| FormatDragon.FinerUnits | run/lib/fmt/include/fmt/format.h:3134-3150 | a number in the interval in some unit is one in every smaller unit |
| FormatDragon.ShortestExactly | run/lib/fmt/include/fmt/format.h:3123-3153 | fewer digits would have read back as the value if and only if it is even, the lower midpoint does not count for the program, and that is a number in a unit in which nothing else is in the interval |
| FormatDragon.ExtraDigitsExample | run/lib/fmt/include/fmt/format.h:3130-3132 | an extended-precision value that 4.8e28 reads back as and that is printed in units of 10^9 |
| FormatDragon.ReachesExactly | run/lib/fmt/include/fmt/format.h:3114-3122 | the rounded value reaches the power of ten of its exponent exactly from half a unit of the last digit below it |
| FormatDragon.LeadingZeroExample | run/lib/fmt/include/fmt/format.h:3114-3122 | 10^28 - 2^28 in extended precision with 21 digits keeps the larger exponent and does not reach it rounded |
| FormatDragon.Format | run/lib/fmt/include/fmt/format.h:3062-3189 | from f and e: shortest digits that read back as f * 2^e, with no number of its interval in any larger unit and none nearer in the same; or the value rounded, ties to even, at the last place asked for, if and only if at least 0 digits remain after adjustment or the value is at most five units; the first digit is nonzero exactly when the rounded value has as many digits as asked for |
| Bits.MaskIsMod | src/base/RingQueue.cpp:81-81 | masking with one less than a power of two is taking the remainder |
| Bits.PowerOfTwoTest | src/base/RingQueue.cpp:21-24 | the test accepts exactly the powers of two |
| Bits.RoundUp | src/base/RingQueue.cpp:7-12 | rounding gives the least power of two not below the number |
| Ring.MaskedCounter | src/base/RingQueue.cpp:81-81 | the masked 32-bit counter is the offset of the counter that never wraps |
| Ring.WrittenSlice | src/base/RingQueue.cpp:78-92 | what was written from a position is read back from it, across the end of the array |
| Ring.WrittenKeeps | src/base/RingQueue.cpp:78-92 | a write leaves alone everything within one turn before its end |
| RingQueue.RingQueue.constructor | src/base/RingQueue.cpp:19-33 | for 1 to 2^31 bytes the size is the least power of two that holds them, and the queue is empty |
| RingQueue.RingQueue.WriteData | src/base/RingQueue.cpp:78-92 | the two copies write the bytes at the ring position of the counter |
| RingQueue.RingQueue.ReadData | src/base/RingQueue.cpp:123-136 | the two copies read the bytes at the ring position of the counter |
| RingQueue.RingQueue.Push | src/base/RingQueue.cpp:41-71 | appends the message if and only if it fits behind a length word, and otherwise changes nothing |
| RingQueue.RingQueue.Pop | src/base/RingQueue.cpp:94-121 | removes and returns the oldest message, for counters that have wrapped any number of times |
| RingQueue.PushHolds | src/base/RingQueue.cpp:60-67 | writing length and bytes appends exactly one message to what the ring holds |
| RingQueue.PopHolds | src/base/RingQueue.cpp:105-118 | the queue is empty exactly when the counters meet, and otherwise the first message is at the read position with the others behind it |
| RingSpsc.NoSharedByte | src/base/RingQueue.cpp:78-136 | in every reachable state the next byte stored and the next byte loaded are inside the array and different |
| RingSpsc.PushAcceptsExactly | src/base/RingQueue.cpp:52-60 | while the consumer runs, a push is accepted if and only if it fits beside what has not been released |
| RingSpsc.PopStartsExactly | src/base/RingQueue.cpp:105-109 | while the producer runs, the queue looks empty if and only if every published message has been popped |
| RingSpsc.PushCompletes | src/base/RingQueue.cpp:41-92 | an accepted push of n bytes is published at the (n + 7)th of the producer's own steps and not before, whatever the consumer does between them |
| RingSpsc.PopCompletes | src/base/RingQueue.cpp:94-136 | an idle consumer that finds a message of n bytes has popped it, the oldest, at the (n + 8)th of its own steps and not before, whatever the producer does between them |
| RingSpsc.EveryInterleavingIsFifo | src/base/RingQueue.cpp:41-136 | after any interleaving: messages popped are a prefix of those pushed, tail <= readTail <= head <= writeHead <= tail + size, and the threads are on different bytes |
| CircularList.Inverse | src/net/SendQueue.cpp:48-60 | in every list pre and next are inverse to each other and stay inside it |
| CircularList.WalkVisits | src/net/ikcp.h:193-196 | following next visits every node once, in order, and comes back to the head |
| CircularList.Rotate | src/net/SendQueue.cpp:48-60 | a circle may be read from any of its nodes |
| CircularList.AddTail | src/net/SendQueue.cpp:49-55 | the node becomes the last of the circle; only it, the head and the old last are written |
| CircularList.Add | src/net/ikcp.h:165-167 | the node is inserted right behind the given one |
| CircularList.Del | src/net/SendQueue.cpp:57-61 | the node is taken out wherever it stands and keeps its own links |
| CircularList.DelClear | src/net/ikcp.h:175-178 | likewise, with its links cleared |
| CircularList.SendQueue.Push | src/net/SendQueue.cpp:14-19 | the queue is the old one followed by the node and the count is its length |
| CircularList.SendQueue.DelNode | src/net/SendQueue.cpp:32-37 | the queue is the old one without that node |
| CircularList.SendQueue.Pop | src/net/SendQueue.cpp:21-30 | the queue is the old one without its first node, or still empty |
| CircularList.SendQueue.Front | src/net/SendQueue.cpp:39-42 | the first node, or the head of an empty queue |
| CircularList.SendQueue.Back | src/net/SendQueue.cpp:44-47 | the last node, or the head of an empty queue |
| NetConnect.NetConnect.Tick1S | src/net/NetConnect.cpp:39-115 | state deadlines, bind timeout and traffic check in this order, each on what the one before left; the connection is closed or lost afterwards exactly for the causes of TickOutcome, and a close is reported exactly when one with a reason is made |
| NetConnect.NetConnect.HandleNetMsg | src/net/NetConnect.cpp:558-632 | the effect and result of each packet type in each state: only allowed changes of state, and a close event exactly when TIME_WAIT is entered or the connection closed for a reason; answers, notifications and clocks are in the rows of `NetConnectEffects` |
| NetConnect.NetConnect.DisConnect | src/net/NetConnect.cpp:370-386 | only an established connection is lost, with the time and one event; any other is left alone; how long it then has is `NetConnectEffects.TimeToReconnect` |
| NetConnect.NetConnect.CloseConnect | src/net/NetConnect.cpp:388-411 | a connection closes once, with an event unless no reason is given |
| NetConnect.NetConnect.BindConnect | src/net/NetConnect.cpp:511-532 | a connection is bound once, and never to 0 |
| NetConnect.NetConnect.RecvReliable | src/net/NetConnect.cpp:634-656 | a broken engine disconnects and the peer is told; rejected data changes nothing |
| NetConnect.NetConnect.FinConnect | src/net/NetConnect.cpp:534-556 | an active close waits for the peer unless the connection is lost, in which case it closes at once |
| NetConnect.NetConnect.HandleFin | src/net/NetConnect.cpp:723-757 | only FIN_WAIT2 enters TIME_WAIT, with the close event, and TIME_WAIT answers again |
| NetConnect.NetConnect.Reconnect | src/net/NetConnect.cpp:772-797 | a live or lost connection is established again, no other |
| KcpDrain.DrainNeverEnds | src/net/NetConnect.cpp:420-466 | the loop over received messages is still running after any number of passes; once there have been as many as segments held, no whole message is left and each pass repeats the one before |
| NetConnect.NetConnect.Proc | src/net/NetConnect.cpp:117-150 | where it is reached after the loop over received messages: a dead engine disconnects, and a drained one sends FIN at most every 200 ms |
| NetConnectRuns.StepsAreAllowed | src/net/NetConnect.cpp:39-797 | the only changes of state there are: TIME_WAIT is entered from FIN_WAIT2 alone, that from FIN_WAIT1 alone |
| NetConnectRuns.ClosedForever | src/net/NetConnect.cpp:390-411 | CLOSE is absorbing, keeps its reason and reports nothing more |
| NetConnectRuns.FinDeadline | src/net/NetConnect.cpp:70-90 | with a tick at least every d seconds an active close begun at T has ended by T + 9 + 2d, whatever the peer does |
| NetConnectRuns.TickOutcome | src/net/NetConnect.cpp:39-115 | a tick closes a connection exactly when a deadline of its state has passed, it stayed unbound for 60 seconds or it is over the traffic limit, and disconnects it exactly when no heartbeat came for 30 seconds and it is not closed |
| NetConnectRuns.SilentPeerIsReclaimed | src/net/NetConnect.cpp:39-98 | with a tick at least every d seconds, a connection without heartbeat or reconnect is closed 270 + 3d seconds after the last heartbeat, whatever else arrives or is called |
| NetConnectRuns.RepeatedCloses | src/net/NetConnect.cpp:79-109 | TIME_WAIT is left for a reason exactly by a close packet of this connection, or by a tick before its own deadline at which the bind timeout or the traffic limit has come |
| NetConnectRuns.CloseIsReported | src/net/NetConnect.cpp:390-411 | every run that closes reports it exactly once, except not at all if a lost connection was ended without a reason, and twice if TIME_WAIT was cut short in one of those ways |
| NetConnectRuns.ReportedTwice | src/net/NetConnect.cpp:94-97 | a run with two reports |
| NetConnectEffects.RepliesExactly | src/net/NetConnect.cpp:117-757 | over all steps the peer is answered once in exactly these cases: a heartbeat of this connection while live; any packet while lost or closed, and reliable data that broke the engine, with the reset for it; a FIN in FIN_WAIT2 or TIME_WAIT; and FIN by `Proc` in FIN_WAIT1 with nothing waiting and 200 ms since the last |
| NetConnectEffects.RefusedHasNoEffect | src/net/NetConnect.cpp:558-757 | a packet answered with failure changes nothing but the traffic, unless it broke the engine |
| NetConnectEffects.TickTells | src/net/NetConnect.cpp:39-115 | a tick tells the loss, then the network data, then the close, each exactly for its cause, with the reason of the first deadline that applies |
| NetConnectEffects.PacketTells | src/net/NetConnect.cpp:558-757 | which packets tell a loss or a close, in which states and with which reason |
| NetConnectEffects.CallTells | src/net/NetConnect.cpp:117-797 | likewise for the calls of the business and of the timer thread |
| NetConnectEffects.StateExactly | src/net/NetConnect.cpp:117-797 | the next state after any step but a tick, by guards on state and step |
| NetConnectEffects.ClocksExactly | src/net/NetConnect.cpp:39-797 | over all steps, when each of the eight clocks is set and to what; identity and binding likewise |
| NetConnectEffects.TimeToReconnect | src/net/NetConnect.cpp:58-69 | from the loss of a connection at T, every run before T + 240 leaves it lost, unless it is ended by the business or found unbound or over the traffic limit; a reconnect establishes it again and the first tick from T + 240 on closes it |
| NetConnectEffects.NeverGivenUpEarly | src/net/NetConnect.cpp:58-69 | a bound connection within its limits is lost for the whole of that time whatever ticks, packets and calls but `FinConnect` come |
| NetConnectEffects.TimeToFinish | src/net/NetConnect.cpp:70-79 | an active close begun at T is not closed before T + 3, unless by a close packet, the bind timeout or the traffic limit, and without a FIN the first tick from then on closes it |
| NetConnectEffects.TimeToRepeat | src/net/NetConnect.cpp:80-88 | from the peer's FIN at T, TIME_WAIT lasts to the first tick from T + 6 on, with the same exceptions |
| NetConnectEffects.HeartBeatLasts | src/net/NetConnect.cpp:46-50 | a heartbeat at T keeps the connection established before T + 30, and with no other the first tick from then on loses it |
| NetConnectTraffic.CountersAreForever | src/net/NetConnect.cpp:100-114 | packet and byte counter are the number of packets and the bytes in the connection's life, modulo 2^32 |
| NetConnectTraffic.TrafficVerdict | src/net/NetConnect.cpp:100-109 | when ten seconds are over, the connection is found over the limit if and only if those totals exceed it |
| NetConnectTraffic.LimitIsMet | src/net/NetConnect.cpp:100-114 | that is the verdict of the ten-second limit if and only if the lifetime totals are within it or those since the last check over it |
| NetConnectTraffic.FirstCheck | src/net/NetConnect.cpp:100-114 | it always is at the first check |
| NetConnectTraffic.SlowPeerIsCutOff | src/net/NetConnect.cpp:100-114 | a run that is closed by the traffic limit although no ten seconds saw more than ten packets of 210 bytes in all |
| UnreliableMerge.SplitFramed | src/net/NetConnect.cpp:658-689 | splitting gives the messages up to the first empty one, and padding is never taken for a message |
| UnreliableMerge.SplitExactly | src/net/NetConnect.cpp:658-689 | for any bytes, the messages found are those the bytes begin with, each of 1 to 545 bytes, and no other follows them |
| UnreliableMerge.NetPacket.WriteUnreliable | src/net/NetMsg.cpp:481-495 | the packet is that of the old messages followed by the new one, the rest still zero |
| UnreliableMerge.Merger.SendUnreliable | src/net/NetConnect.cpp:283-306 | a message of up to 545 bytes is accepted, in the current packet if it leaves a byte to spare and otherwise in a new one |
| UnreliableMerge.Merger.IoWrite | src/net/NetWork.cpp:57-93 | the whole zero-padded packet is sent, and a sent packet takes no more messages |
| UnreliableMerge.RecvUnreliable | src/net/NetConnect.cpp:658-689 | the loop over lengths returns the messages of the data it was given |
| UnreliableMerge.NothingLostOrMoved | src/net/NetConnect.cpp:283-343 | however sends and writes interleave, every accepted message lies in one packet, in order, and every packet fits |
| UnreliableMerge.NoPacketWasted | src/net/NetConnect.cpp:283-343 | exactly the messages of up to 545 bytes are accepted, and while packets wait none is begun for a message for which the one before had a byte to spare |
| UnreliableMerge.RoundTrip | src/net/NetConnect.cpp:658-689 | once all is written the receiver has exactly the accepted messages if and only if none was empty |

## Left out

- KCP stream mode, `ikcp_setmtu` and window changes during a run, `KcpWrapper::Reset` and `ikcp_release`: they reshape or discard the state.
- The queue limit `KCP_CONF_MAX_WAITSND` of the wrapper and its byte-count return value, which its caller takes for an error.
- Wrap-around of the smoothed round-trip time and of message lengths beyond a signed 32-bit integer: exact integers are used there.
- The KCP lists are sequences in `KcpEngine`; the link operations they are made of are proved in `SendQueue.dfy`. Allocation failure is not modelled.
- Delivery of datagrams older than half the number space, for which the protocol does not work (see Assumptions).
- Fairness of the network: `KcpProgress` shows what each loss-free round trip achieves, not that one eventually happens.
- KcpTimer.CheckWakesForAReason: a segment exactly 2^31 ms away counts as due for `ikcp_check` and not for `ikcp_flush`, so the lemma speaks of the former.
- Bigints.Bigint.AssignPow10: exponents from 2^30 on, for which the bit mask leaves the `int`.
- KcpReceiving.GrowsExactly: beyond the threshold it speaks of windows of less than 2^31 bytes and segments of less than 2^16; past that the 32-bit products wrap.
- FormatDragon.Format: conversions of floating-point numbers to significand and exponent, the estimate of the decimal exponent and the writing of digits as characters; overflow of the `int` exponents, and the exception for a precision that overflows.
- NetConnect.NetConnect.Proc: leaves out the call of `RecvMsgFromKcp` it starts with, whose loop does not end once entered (`KcpDrain.DrainNeverEnds`); what `Proc` states is reached only while the receive flag is not set.
- KcpEngine.Kcp.Reconnect: leaves out the branch that sets a cleared instance up again, which is `Kcp.constructor` on the same settings.
- `bigint` buffers are sequences rather than arrays, since the source lets them grow; contents of freshly grown memory are zeros in the model and never read.
- `RingQueue` with several producers or consumers: its spin flags do not exclude them, and its header promises one of each.
- Logging, sockets, epoll, OpenSSL, cookies, the time wheel and thread plumbing.
- `InitConnect` on a used object, encryption of messages, the address index of `NetConnectMgr`, and resets of the KCP instance by `ClearConnData`: the engine's answers are arguments.
- A business queue that refuses a message, at which `RecvUnreliable` also stops; packets other than merge packets in the send queue; write errors.
- The rest of the formatting library, and `SendReliable` and `EncodeMsgData` as a pipeline.
