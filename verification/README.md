# KCP: a verified model

This project models the KCP reliable-transport engine of `kcp_learn/` (an automatic-repeat-request protocol with
cumulative and selective acknowledgements, fragmentation, congestion control and a flush scheduler) and three smaller
components of the same repository: the clock-offset exchange of `kcp-cpp/`, the Base64 codec of `websocket/` and the
thread pool of `epoll_study/`. `dafny verify dfyconfig.toml` checks all of it.

## How it fits together

The engine appears three times, each proved against the next.

1. `Engine.dfy` has the class `Kcp`: fields updated in place, the loops over the queues, the acknowledgement array that
   doubles (`AckList.dfy`), the output buffer with its write pointer (`Outbox.dfy`). Every method is proved to compute
   a function of `Protocol.dfy`; `Pairing.dfy` drives two such objects against each other. In class `Kcp` the segment
   lists are sequences; `Queue.dfy` proves, beside it, that the circular linked lists of the code behave as those
   sequences under the same operations.
2. `Protocol.dfy` states each operation as a function on the control block. It is parametrised by the arithmetic of
   sequence numbers: `Mod32` is what the code does, `Exact` counts without bound. Timestamps, timeouts, `cwnd`, `incr`
   and `xmit` are 32-bit words in both.
3. `System.dfy` runs two endpoints over a network that is the log of every datagram ever output. A delivery picks any
   entry, any number of times, so datagrams are lost, repeated, reordered and delayed at will. Runs are arbitrary
   sequences of send, receive, update, flush and deliver on either side. Histories (`numbered`, `accepted`, `moved`,
   `taken`) are ordinary fields that no operation reads.

`Safety.dfy` and `System.dfy` prove the invariant of all runs on unbounded numbers, `Messages.dfy` adds messages and
`Conservation.dfy` the numbers that acknowledgements release. `PendingAcks.dfy` and `Retransmission.dfy` say exactly
what is acknowledged and what is sent again. `Progress.dfy` has one round trip, `Probing.dfy` recovery from a closed
window, and `Completion.dfy` puts both together: everything accepted can still be delivered. `Windows.dfy` has the
exact condition for that, and `Rounds.dfy` bounds the loss-free rounds it takes. `Congestion.dfy` has the window
arithmetic. `Wire.dfy`, `Packing.dfy` and `Datagrams.dfy` give the byte format, and `Wraparound.dfy` and
`ByteSystem.dfy` carry the results to bytes and 32-bit numbers. `Rtt.dfy`, `Scheduler.dfy` with `Backoff.dfy`, and
`Settings.dfy` are about the estimator, the clock and the setters, and need no such reduction. `Words.dfy` and
`Seqs.dfy` are arithmetic and sequence facts.

Assumptions, all explicit in the statements: a configuration is fixed during a run and is one that the setters can
produce (`Settings.SettersReach`); for the 32-bit results, `snd_wnd` of each side plus `rcv_wnd` of the other is at
most 2^31 and no delivered number is stale by 2^31; for the congestion results, `mss` is at most 65535 and
(snd_wnd/2 + fastresend) * mss stays below 2^32. Timestamps wrap as in the code throughout.

Where the code and its documentation differ the model follows the code:

- A stream-mode `ikcp_send` that returns -2 may already have appended bytes to the last segment. `RefusedSend` says
  exactly when; the message results speak of the bytes that went in.
- `ikcp_check` is documented to say when to call `ikcp_update` next. Once a timeout has backed off to 2^31 ms it
  answers "now" right after a flush; `BackOffRun` is a run that gets there, `CheckAfterFlush` has the exact condition.
- The receive window is 32 bits wide but is announced in 16, so a window above 65535 can be announced as 0 while there
  is room, and then shuts the peer out for good. `Windows.CompletionExact` says for which windows that can happen.
- A comment in `ikcp_recv` numbers all fragments but the last of a message 1; the code counts down from n-1 to 0.
- The thread pool runs each task while it holds the queue's lock, so its workers never run two tasks at once. Asked for
  16 threads or more it creates none; `CanServe` has the exact condition for serving a commit.

## Model

| member | source | states |
|---|---|---|
| `System.RunInv` | kcp_learn/ikcp.c:603-655 | the joint invariant of both endpoints and both logs of datagrams holds after every run of sends, receives, updates, flushes and deliveries, with any datagram lost, repeated or reordered |
| `System.StepInv` | kcp_learn/ikcp.c:815-944 | one call on either endpoint, whatever it is, keeps that invariant |
| `System.PrefixDelivery` | kcp_learn/ikcp.c:742-791 | in every reachable state the segments ever moved to one side's rcv_queue are a prefix of what the other side numbered: in order, once each, unaltered; rcv_nxt counts them |
| `System.AckSoundness` | kcp_learn/ikcp.c:603-655 | every number below snd_nxt is still in snd_buf or held by the receiver; hence rcv_nxt <= snd_nxt, snd_una <= rcv_nxt + rcv_wnd, and snd_una <= rcv_nxt unless the receive queue is full |
| `System.AckBounds` | kcp_learn/ikcp.c:894-900 | the three window relations follow from "no number is lost" alone |
| `System.FlowControl` | kcp_learn/ikcp.c:1117-1145 | snd_nxt - snd_una never exceeds snd_wnd; after one more flush snd_queue is empty or the span has reached the effective window |
| `System.InputOk` | kcp_learn/ikcp.c:815-978 | an arriving truthful datagram keeps both halves sound, releases only numbers that the peer holds, and never makes the receiver give up a number |
| `System.SentOk` | kcp_learn/ikcp.c:1053-1219 | every segment a flush sends is truthful: its data is what got that number, its una and its acknowledged sn are held by the sender of the segment |
| `System.FragmentCount` | kcp_learn/ikcp.c:531-560 | the loop that cuts fragments makes exactly as many as the rounded-up division counted |
| `System.RunExchanged` | kcp_learn/test.cpp:85-148 | exchanging the endpoints of a run exchanges the states, so what holds from one side to the other holds both ways |
| `Safety.InsertBackMembers` | kcp_learn/ikcp.c:754-777 | the backward scan adds the segment once if its number is new and changes nothing if it is not: as a multiset and as a set of numbers |
| `Safety.InsertBackSorted` | kcp_learn/ikcp.c:754-777 | rcv_buf stays strictly increasing |
| `Safety.DrainOk` | kcp_learn/ikcp.c:779-791 | moving ready segments keeps the receiver sound, forgets no number and never reorders what was moved |
| `Safety.ParseDataOk` | kcp_learn/ikcp.c:742-802 | a segment in the window is held afterwards; the next expected one advances rcv_nxt when the queue has room |
| `Safety.RecvOk` | kcp_learn/ikcp.c:359-440 | reading by the user keeps the receiver sound and forgets no number |
| `Safety.RemoveSnMembers` | kcp_learn/ikcp.c:622-635 | acknowledging a number removes exactly that number from a sorted snd_buf |
| `Safety.AckOk` | kcp_learn/ikcp.c:615-636 | a selective acknowledgement keeps snd_buf sorted and unaltered, moves snd_una forward only, and drops at most that number |
| `Safety.UnaOk` | kcp_learn/ikcp.c:640-655 | a cumulative acknowledgement drops exactly the numbers below it and moves snd_una forward only |
| `Safety.NumberOk` | kcp_learn/ikcp.c:1124-1145 | numbering keeps snd_buf sorted and unaltered, stops at the window or at an empty queue, and loses or reorders nothing |
| `Messages.MessageRoundTrip` | kcp_learn/ikcp.c:359-467 | over every run and in both directions, in message mode the messages read are a prefix of those accepted by the peer's send, byte for byte with boundaries kept, empty ones included; in stream mode the bytes are |
| `Messages.RunMsg` | kcp_learn/ikcp.c:488-562 | in every reachable state what is numbered or queued is the fragments of the accepted messages, and what was consumed is the fragments of those read |
| `Messages.HeadIsMessage` | kcp_learn/ikcp.c:445-467 | the reader's rule (take until fragment number 0) takes exactly the fragments of one message from a queue that begins with them |
| `Messages.NextMessage` | kcp_learn/ikcp.c:376-382 | a non-empty receive queue begins with fragments of the first message not yet read, which has fewer than 128 of them |
| `Messages.RecvMessage` | kcp_learn/ikcp.c:386-415 | a successful receive returns the next unread message of the sender, whole |
| `Messages.RecvVerdict` | kcp_learn/ikcp.c:368-382 | in every reachable state, in terms of the message read next: -1 with nothing there, -2 while fragments of it are missing, -3 if it is longer than the buffer, else its length |
| `Messages.StreamVerdict` | kcp_learn/ikcp.c:368-382 | in stream mode -1, -3 or the length of the first segment |
| `Messages.RecvHist` | kcp_learn/ikcp.c:359-440 | a receive consumes exactly the head fragments it returns, and none when it peeks or fails |
| `Messages.FullQueueReadable` | kcp_learn/ikcp.c:445-467 | no receive-window deadlock: a full rcv_queue starts with a complete message, and reading it frees room or advances rcv_nxt |
| `Messages.SendVerdict` | kcp_learn/ikcp.c:488-562 | the answer is 0 if and only if what does not fit the last segment needs fewer than 128 fragments, else -2; with 0 the bytes of snd_queue grow by all of the data, otherwise by what extended the last segment |
| `Messages.SendSegments` | kcp_learn/ikcp.c:531-562 | in message mode the segments of snd_queue grow by exactly the fragments of the message, or by none |
| `Messages.FragmentAt` | kcp_learn/ikcp.c:537-560 | fragment i of a message is its bytes from i*mss on, numbered with the count of fragments to come (0 in stream mode) |
| `Messages.SendFills` | kcp_learn/ikcp.c:501-525 | a stream-mode send first fills the last queued segment up to the mss |
| `Messages.RefusedSend` | kcp_learn/ikcp.c:498-534 | a refused send leaves snd_queue unchanged if and only if there was no last segment to extend in stream mode |
| `Messages.RefusedSendExample` | kcp_learn/ikcp.c:498-534 | a concrete refused stream-mode send that leaves 25 of its bytes in the queue |
| `Conservation.Conserved` | kcp_learn/ikcp.c:603-655 | over every run each number given out is exactly once in snd_buf or among those that cumulative and selective acknowledgements took out of it, and the peer holds all of the latter; the pieces numbered or queued are counted by the two lists and the releases, and are the fragments (in stream mode the bytes) of what was accepted |
| `Conservation.DropSplits` | kcp_learn/ikcp.c:640-655 | a cumulative acknowledgement takes numbers below it off the front, and nothing else changes |
| `Conservation.RemoveSplits` | kcp_learn/ikcp.c:615-636 | a selective acknowledgement takes out at most its own number, once |
| `WireFormat.DecodeEncode` | kcp_learn/ikcp.c:827-847 | parsing an encoded datagram gives back its segments, with no error and nothing left over |
| `WireFormat.Layout` | kcp_learn/ikcp.c:984-995 | the 24 header bytes one by one: which field lies where, least significant byte first |
| `WireFormat.InputStops` | kcp_learn/ikcp.c:832-853 | a datagram that goes wrong somewhere: the segments before that are applied, the answer is -1, -2 or -3 by what is wrong, and neither skips nor congestion window are updated |
| `WireFormat.InputEncoded` | kcp_learn/ikcp.c:815-978 | on the bytes of a well-formed datagram ikcp_input does exactly what the protocol does on its segments |
| `WireFormat.WrongConversation` | kcp_learn/ikcp.c:835 | a datagram of another conversation returns -1 and changes nothing |
| `Packing.PackFlat` | kcp_learn/ikcp.c:1053-1112 | reading the datagrams of one flush one after another gives exactly the segments sent, in order: none is split, lost or repeated |
| `Packing.PackFits` | kcp_learn/ikcp.c:1194-1219 | when every segment fits the mtu so does every datagram, and none is empty |
| `Packing.PackMembers` | kcp_learn/ikcp.c:1053-1219 | no datagram holds a segment that the flush did not send |
| `Datagrams.RunShape` | kcp_learn/ikcp.c:984-995 | in every run each datagram of either side is non-empty, at most mtu long, and its segments fit their header fields |
| `Words.DiffNear` | kcp_learn/ikcp.c:136-139 | _itimediff on two numbers less than 2^31 apart is their true difference |
| `Wraparound.InsertW` | kcp_learn/ikcp.c:754-777 | on numbers within half the range the 32-bit backward scan stops where the unbounded one does |
| `Wraparound.InputW` | kcp_learn/ikcp.c:815-978 | one timely ikcp_input takes the same branches on 32-bit as on unbounded numbers, and leaves the same state modulo 2^32 |
| `Wraparound.FlushBothW` | kcp_learn/ikcp.c:1026-1243 | one flush leaves the same state and sends the same datagrams modulo 2^32 |
| `Wraparound.RunW` | kcp_learn/ikcp.c:136-139 | for runs of any length in which no delivery is stale by 2^31, the 32-bit system is the unbounded one modulo 2^32 |
| `ByteSystem.ByteRunW` | kcp_learn/ikcp.c:984-995 | the system on bytes and 32-bit numbers is the unbounded protocol reduced modulo 2^32 and encoded |
| `ByteSystem.ReliableDelivery` | kcp_learn/ikcp.c:359-467 | the end-to-end theorem about bytes and 32-bit numbers, in both directions: what is read is a prefix of what was sent, and no packet is empty or above the mtu |
| `ByteSystem.FlushParses` | kcp_learn/ikcp.c:1053-1219 | the packets of one flush in any timely run parse completely, into the pending acknowledgements in push order, then the probes, then the due data, and nothing else |
| `Progress.RoundTripProgress` | kcp_learn/ikcp.c:1046-1062 | from every reachable state with the oldest segment due and room at the receiver: the flush sends data; once its first datagram with data arrives the flush back is not empty; and any datagram of that strictly increases snd_una |
| `Progress.FirstDatagramExists` | kcp_learn/ikcp.c:1154-1219 | such a flush does send a datagram with data |
| `Progress.FlushStartsWithOldest` | kcp_learn/ikcp.c:1154-1207 | a flush whose oldest segment is due sends it before any other data |
| `Progress.DataMoves` | kcp_learn/ikcp.c:894-900 | data at or below rcv_nxt leaves an acknowledgement pending and rcv_nxt beyond it, also when it was received before (the lost acknowledgement) |
| `PendingAcks.InputOwes` | kcp_learn/ikcp.c:894-896 | ikcp_input leaves pending what was pending and then, in the order of the datagram, (sn, ts) of every data segment below the end of the window, old, repeated and out-of-order ones included, and nothing else |
| `PendingAcks.InputAcknowledges` | kcp_learn/ikcp.c:894-896 | in particular of every data segment below the window that was there when the datagram arrived |
| `PendingAcks.AckRoundTrip` | kcp_learn/ikcp.c:1053-1062 | in every reachable state: any datagram that arrives, the flush after it carries an acknowledgement with number and timestamp of each such segment, and delivering that takes the number out of the peer's snd_buf |
| `Progress.FlushAcknowledges` | kcp_learn/ikcp.c:1046-1062 | every datagram of a flush carries rcv_nxt, and with an acknowledgement pending there is at least one |
| `Retransmission.TransmitExact` | kcp_learn/ikcp.c:1154-1213 | an entry of snd_buf is sent if and only if it never was, or its time has come as a signed word, or it was skipped fastresend times within the limit; all others are unchanged; number, timestamp, timeout and resend time of those that go are the ones stated for nodelay 0, 1 and 2 |
| `Retransmission.FlushTreats` | kcp_learn/ikcp.c:1154-1219 | the same for a whole flush: its data segments are exactly the copies of the entries that go, in order |
| `Retransmission.NumbersExact` | kcp_learn/ikcp.c:1117-1145 | a flush numbers as many pieces as the least of send window, announced window and congestion window and the queue allow, no more and no fewer |
| `Retransmission.RefillExact` | kcp_learn/ikcp.c:1126-1144 | they enter snd_buf behind what was there, in queue order, with consecutive numbers, unsent |
| `Retransmission.FlushReacts` | kcp_learn/ikcp.c:1222-1242 | after a timeout cwnd is 1 and ssthresh half of the window; after fast retransmissions alone ssthresh is half of what is in flight and cwnd that plus the threshold; else nothing changes but a cwnd of 0; each timeout counts, and the dead-link mark is set exactly when some entry goes out that often |
| `Retransmission.FlushStarted` | kcp_learn/ikcp.c:1039-1064 | before the first update a flush does nothing; after it, it leaves no acknowledgement pending |
| `Retransmission.InputSkips` | kcp_learn/ikcp.c:657-680 | after ikcp_input every entry still under way is as it was, but for one skip if and only if the largest number acknowledged is in flight and beyond it |
| `Probing.ZeroWindowRecovery` | kcp_learn/ikcp.c:1067-1112 | from every state whose probe timer has run out: the flush asks, the question that arrives makes the peer's flush answer, and any datagram of that answer leaves rmt_wnd at the peer's free room |
| `Probing.RunProbe` | kcp_learn/ikcp.c:1067-1090 | in every run the probe wait is off or in [7000, 120000] ms and no question is left pending after a call |
| `Probing.InputProbe` | kcp_learn/ikcp.c:917-924 | of everything that arrives only a question makes the engine tell its window |
| `Probing.SentWnd` | kcp_learn/ikcp.c:997-1003 | every segment of a flush, retransmissions included, announces the free room of the receive queue at that flush, cut to 16 bits |
| `Probing.FlushProbe` | kcp_learn/ikcp.c:1067-1090 | the probe timer after a flush: off with an open window, 7 s when it closes, half as long again up to 120 s each time it runs out, and else unchanged |
| `Probing.FlushAsksTells` | kcp_learn/ikcp.c:1093-1112 | a flush asks if and only if the timer has run out with the window closed, and tells if and only if it owes that |
| `Probing.ControlSent` | kcp_learn/ikcp.c:1042-1062 | acknowledgements, questions and answers carry rcv_nxt, the free room and no data; acknowledgements what is pending, the others number and timestamp of the last acknowledgement, or 0 |
| `Probing.RecvOwes` | kcp_learn/ikcp.c:383-385 | reading owes the peer word of the window if and only if it made room in a full queue |
| `Probing.ReopenedTold` | kcp_learn/ikcp.c:432-437 | and then the next flush outputs something, all of it announcing that room |
| `Completion.Completes` | kcp_learn/ikcp.c:815-1243 | from every reachable state, with a receive window that is never announced as 0 while its user has nothing to read, some continuation without new sends and without stale deliveries empties snd_queue and snd_buf and lets the peer's user read everything that was sent |
| `Windows.CompletionExact` | kcp_learn/ikcp.c:989 | for every pair of configurations: such a continuation exists from every reachable state if and only if the receive window is at most 65535, or its lower 16 bits exceed what x can number before it hears from y, or exceed what y can hold unreadable |
| `Windows.RunHeard` | kcp_learn/ikcp.c:997-1003 | in every run with such a window x has heard nothing yet and is in its first window, or some datagram can open its window again |
| `Windows.StuckForever` | kcp_learn/ikcp.c:1117-1145 | a run in which y holds an unreadable part of a message, all of it acknowledged, and has only ever announced 0, stays so whatever anyone does |
| `Windows.NeverRead` | kcp_learn/ikcp.c:445-467 | for a residue that x can fill there is a run that gets stuck on an incomplete message |
| `Windows.NeverStarts` | kcp_learn/ikcp.c:989 | for a window that is a multiple of 65536 there is a run after which nothing that x sends is ever numbered, whatever anyone does |
| `Rounds.RoundsComplete` | kcp_learn/test.cpp:85-148 | from every reachable state, however the times are chosen: three loss-free rounds (y reads, x flushes when something is due, all arrives, y reads, y flushes, all arrives) for each piece that is left, and three more, deliver, acknowledge and read everything |
| `Rounds.RoundMoves` | kcp_learn/ikcp.c:1154-1207 | a round in which x has something under way, or an open window and something queued, moves snd_una |
| `Rounds.RoundPrepares` | kcp_learn/ikcp.c:1067-1112 | any other round with something queued brings x nearer to an open window: it starts the probe timer, or asks and is answered, or opens the congestion window |
| `Rounds.DueTime` | kcp_learn/ikcp.c:1163-1186 | there is always a time at which the next round can come |
| `Completion.ByteCompletes` | kcp_learn/ikcp.c:815-1243 | the same for bytes and 32-bit numbers, with every delivery of the continuation timely |
| `Completion.ByteProgress` | kcp_learn/ikcp.c:1046-1207 | on bytes and 32-bit numbers, whenever something is under way a timely continuation moves snd_una forward in serial-number order |
| `Completion.FlushTimely` | kcp_learn/ikcp.c:1046-1207 | una and data of what a flush sends are within 2^31 of the peer at that moment, always; so the whole flush is timely if the pending acknowledgements are |
| `Completion.DeliveredAcks` | kcp_learn/ikcp.c:894-896 | after a timely delivery to a side that owed nothing, the acknowledgements it owes are timely too |
| `Completion.AcknowledgeAll` | kcp_learn/ikcp.c:603-655 | everything queued can be numbered and acknowledged, through due resends, opened windows and reads |
| `Completion.Reopen` | kcp_learn/ikcp.c:1067-1112 | a closed window can always be opened again |
| `Congestion.RunCc` | kcp_learn/ikcp.c:951-975 | on every run without 32-bit overflow (cwnd-1)*mss < incr < (cwnd+1)*mss and ssthresh >= 2, at both ends |
| `Congestion.GrowOk` | kcp_learn/ikcp.c:943-975 | growth keeps that relation, never lowers cwnd, adds at most 2 and never passes max(cwnd, rmt_wnd) |
| `Congestion.InputCc` | kcp_learn/ikcp.c:815-978 | the same for a whole ikcp_input, with the window it announces |
| `Congestion.InputGrows` | kcp_learn/ikcp.c:943-975 | a whole ikcp_input and the window, exactly: it grows if and only if snd_una moved; below ssthresh cwnd by 1 and incr by mss; from ssthresh on incr by mss*mss/max(incr, mss) + mss/16, and cwnd to the least number of segments that covers incr once it reaches (cwnd+1)*mss; cut at the window announced last |
| `Congestion.RampUp` | kcp_learn/ikcp.c:943-975 | enough datagrams in a row that acknowledge something new raise cwnd to the announced window |
| `Congestion.IncreaseBound` | kcp_learn/ikcp.c:951-953 | the divisor of the growth step is at least mss, and the step stays below (cwnd+2)*mss without overflow |
| `Congestion.BackedOk` | kcp_learn/ikcp.c:1222-1242 | fast retransmit and timeout keep the relation and leave cwnd >= 1 |
| `Congestion.FlushCc` | kcp_learn/ikcp.c:1026-1243 | every flush keeps the relation and leaves cwnd >= 1 |
| `RttEstimator.SamplesInRange` | kcp_learn/ikcp.c:583-600 | over any run of samples in [0, M] srtt and rttval stay in [0, max(1, M)] and rto in [minrto, 60000] |
| `RttEstimator.RtoExact` | kcp_learn/ikcp.c:597-599 | after every sample, of any run, rto covers srtt + interval and srtt + 4*rttval and minrto unless cut at 60000 ms, is cut only if one of them asks for that, and is no longer than one of them |
| `RttEstimator.NextSample` | kcp_learn/ikcp.c:589-595 | a sample moves srtt an eighth of the way (never below 1) and rttval a quarter of the way from where it was to the deviation of the sample |
| `RttEstimator.FirstSample` | kcp_learn/ikcp.c:586-588 | the first sample sets srtt to itself and rttval to half of it |
| `RttEstimator.DeviationRaises` | kcp_learn/ikcp.c:590-592 | a sample that deviates by more than rttval raises it by a quarter of the excess, up to rounding |
| `RttEstimator.VarianceSettles` | kcp_learn/ikcp.c:590-595 | under a constant sample that is d off a settled srtt, rttval reaches [d-3, d] in at most as many samples as it was away, and stays |
| `RttEstimator.FreshRto` | kcp_learn/ikcp.c:583-600 | a fresh estimator under a constant sample r ends with rttval 0 and rto at r + interval within its bounds |
| `PendingAcks.InputSamples` | kcp_learn/ikcp.c:859-862 | a whole ikcp_input gives the estimator one sample for each acknowledgement whose timestamp is not in the future, in order, and no other |
| `RttEstimator.NoSignedOverflow` | kcp_learn/ikcp.c:583-600 | for samples below 2^28 no intermediate value of an update overflows, after any run |
| `RttEstimator.Approach` | kcp_learn/ikcp.c:592-594 | an equal sample moves srtt toward it, strictly unless srtt is in [r-7, r], and never past it |
| `RttEstimator.ConstantSettles` | kcp_learn/ikcp.c:592-594 | under a constant sample r srtt reaches [r-7, r] in at most as many samples as it was away, and stays |
| `RttEstimator.FreshSettles` | kcp_learn/ikcp.c:586-589 | a fresh estimator under a constant sample shows it at once and for ever |
| `Scheduler.CheckRange` | kcp_learn/ikcp.c:1288-1324 | ikcp_check answers a time in [c, c + interval] |
| `Scheduler.CheckLeast` | kcp_learn/ikcp.c:1296-1323 | the answer of ikcp_check, exactly: now if nothing was updated, a flush is overdue or some segment is due; else the least of the interval, the time to the next flush and the times to all resends |
| `Scheduler.CheckQuiet` | kcp_learn/ikcp.c:1288-1324 | every ikcp_update from c up to but not including the answer changes only current and outputs nothing |
| `Scheduler.TouchArms` | kcp_learn/ikcp.c:1154-1186 | the data loop arms a segment strictly later if and only if the timeout it then has is positive as a signed word, or, left alone, it is not armed exactly half the clock range ahead; a first transmission always does |
| `Scheduler.CheckLater` | kcp_learn/ikcp.c:1288-1324 | if every timeout under way is below 2^30 ms and none is armed exactly half the clock range ahead, the answer after a flush is later than c |
| `Backoff.BackOffRun` | kcp_learn/ikcp.c:1167-1174 | for every configuration without nodelay, a run of one send and updates after which ikcp_check answers the very time of the flush: the timeout has doubled to 2^30 ms and doubles once more |
| `Backoff.RunCheckLater` | kcp_learn/ikcp.c:1288-1324 | CheckLater holds in every reachable state, whose rto is always in (0, 60000] |
| `Scheduler.CheckAfterFlush` | kcp_learn/ikcp.c:1251-1276 | right after a flushing update every segment has been sent, and ikcp_check answers later than c if and only if every entry of snd_buf before the call was armable |
| `Scheduler.TickRate` | kcp_learn/ikcp.c:1262-1273 | one update at any later time, jumps included, flushes only when due and puts the next flush at least an interval after the due time |
| `Scheduler.FlushRate` | kcp_learn/ikcp.c:1251-1276 | with a non-decreasing clock the k-th flush never happens before t0 + k*interval, for every pattern of calls |
| `Scheduler.TickFlushes` | kcp_learn/ikcp.c:1257-1269 | for any clock and any time, ikcp_update flushes at the first call, when the flush is due and when the clock seems to have jumped by more than ten seconds, and else changes only current |
| `Scheduler.TickExact` | kcp_learn/ikcp.c:1262-1273 | a call flushes if and only if the flush is due, and puts the next one an interval after that, or after the call if that is past |
| `Scheduler.FlushPace` | kcp_learn/ikcp.c:1251-1276 | with calls at least every g ms, consecutive flushes are at most interval + g apart |
| `Settings.SettersReach` | kcp_learn/ikcp.c:1328-1388 | the configurations that sequences of setter calls produce are exactly the settable ones, and all of them satisfy what the results above assume of a configuration |
| `Settings.Block.SetMtu` | kcp_learn/ikcp.c:1328-1341 | below 50 it returns -1 and changes nothing |
| `Settings.Block.SetInterval` | kcp_learn/ikcp.c:1343-1349 | the interval becomes the number in [10, 5000] nearest to the argument |
| `Settings.Block.SetNoDelay` | kcp_learn/ikcp.c:1351-1374 | each non-negative argument takes effect on its own; the minimum rto follows nodelay |
| `Settings.Block.SetWindows` | kcp_learn/ikcp.c:1377-1388 | positive arguments take effect; the receive window is never below 128 |
| `Engine.Kcp.constructor` | kcp_learn/ikcp.c:231-292 | a new control block is the start state of the protocol |
| `Engine.Kcp.Recv` | kcp_learn/ikcp.c:359-440 | returns the head message's bytes, or -1, -2 or -3; removes them unless peeking, refills the queue, and asks to tell the window when it reopened; all counters equal their list lengths |
| `Engine.Kcp.PeekSize` | kcp_learn/ikcp.c:445-467 | the read-only loop computes the size of the head message, or -1 when it is incomplete |
| `Engine.Kcp.Send` | kcp_learn/ikcp.c:488-562 | extends the last segment in stream mode, then queues the fragments, or returns -2 |
| `Engine.Kcp.UpdateAck` | kcp_learn/ikcp.c:583-600 | one round-trip sample |
| `Engine.Kcp.ShrinkBuf` | kcp_learn/ikcp.c:603-612 | snd_una becomes the first buffered number, or snd_nxt |
| `Engine.Kcp.ParseAck` | kcp_learn/ikcp.c:615-636 | the forward scan with its early stop removes the acknowledged segment and keeps nsnd_buf exact |
| `Engine.Kcp.ParseUna` | kcp_learn/ikcp.c:640-655 | drops acknowledged segments from the front |
| `Engine.Kcp.ParseFastack` | kcp_learn/ikcp.c:657-680 | counts one skip on every in-flight segment before the largest acknowledged number |
| `Acknowledgements.AckList.Push` | kcp_learn/ikcp.c:691-726 | appends to the list whose array doubles when full: nothing pushed before is lost or moved |
| `Acknowledgements.AckList.Get` | kcp_learn/ikcp.c:729-733 | reads the p-th acknowledgement in push order from the flat array |
| `Engine.Kcp.ParseData` | kcp_learn/ikcp.c:742-802 | scan, insert, then move ready segments, counters exact |
| `Engine.ScanBack` | kcp_learn/ikcp.c:754-768 | the loop from the back finds the place of insertion or the duplicate |
| `Engine.ReadSegment` | kcp_learn/ikcp.c:834-853 | reads the header fields of one segment, or answers -1, -2 or -3 as parsing the remaining bytes does |
| `Engine.Kcp.Input` | kcp_learn/ikcp.c:815-978 | on any byte string, malformed ones included: state and return value are those of parsing it and applying the segments parsed before the error |
| `Engine.Kcp.GrowWindow` | kcp_learn/ikcp.c:945-975 | the in-place window growth |
| `Output.WriteHeader` | kcp_learn/ikcp.c:984-995 | writes the 24 header bytes in place and keeps what lies before them |
| `Output.Outbox.Put` | kcp_learn/ikcp.c:1053-1062 | outputs first when the segment does not fit; buffer and callbacks stay those of packing all segments so far, and the write stays inside the buffer |
| `Output.Outbox.Close` | kcp_learn/ikcp.c:1215-1219 | after the last output the packets are exactly the packed, encoded segments |
| `Engine.Kcp.FlushAcks` | kcp_learn/ikcp.c:1053-1064 | encodes the pending acknowledgements in push order, leaving the last one's fields in the template |
| `Engine.Kcp.ProbeRemote` | kcp_learn/ikcp.c:1067-1090 | the probe timer: 7 s first, then one and a half times as long up to 120 s, off when the window is open |
| `Engine.Kcp.NumberNew` | kcp_learn/ikcp.c:1124-1145 | moves and numbers queued segments while the window is open |
| `Engine.Kcp.FlushData` | kcp_learn/ikcp.c:1154-1213 | one pass over snd_buf: first transmissions, timeouts and fast retransmissions, with the counters each causes |
| `Engine.Kcp.BackOffWindow` | kcp_learn/ikcp.c:1222-1242 | the window after losses |
| `Engine.Kcp.Flush` | kcp_learn/ikcp.c:1026-1243 | the whole flush leaves the protocol's state and outputs its packets, byte for byte |
| `Engine.Kcp.Update` | kcp_learn/ikcp.c:1251-1276 | the clock step and, when due, the flush |
| `Engine.Kcp.Check` | kcp_learn/ikcp.c:1288-1324 | the read-only loop over snd_buf computes the next call time |
| `Engine.Kcp.WaitSnd` | kcp_learn/ikcp.c:1390-1393 | the two counters give the lengths of both sending lists |
| `Pairing.Perform` | kcp_learn/test.cpp:85-148 | one call on a control block is one step of the byte system, and the user notes what it returned |
| `Pairing.ActLogged` | kcp_learn/test.cpp:85-148 | what a user can tell from return values is what the histories say, for every call |
| `Pairing.Drive` | kcp_learn/test.cpp:85-148 | two control block objects driven by any actions end in the state of the byte system, output its packets, and hold the histories their users noted |
| `Pairing.Deliver` | kcp_learn/test.cpp:85-148 | on a faithful run, in both directions: what the receives of one object returned is a prefix of what the sends of the other accepted with 0, message by message; in stream mode the bytes read are a prefix of the bytes that went in, refused sends included, which without refusals are the bytes sent |
| `Queue.Init` | kcp_learn/ikcp.h:151-152 | an initialised head is a well-formed empty ring |
| `Queue.IsEmpty` | kcp_learn/ikcp.h:183 | head equal to its successor means an empty list |
| `Queue.Add` | kcp_learn/ikcp.h:165-167 | relinking two nodes inserts at that position of the ring, which stays well formed both ways round |
| `Queue.AddTail` | kcp_learn/ikcp.h:169-171 | the new node is last |
| `Queue.Del` | kcp_learn/ikcp.h:175-178 | the ring without the node stays well formed, and the node is unlinked |
| `Queue.InsertSegment` | kcp_learn/ikcp.c:754-777 | walking prev pointers and inserting refines sorted insertion on the sequence |
| `Queue.DropAcked` | kcp_learn/ikcp.c:640-655 | unlinking from the front refines dropping acknowledged segments; the count is exact |
| `Queue.RemoveAcked` | kcp_learn/ikcp.c:622-635 | walking next pointers with the early stop and unlinking from the middle refines removing the acknowledged number |
| `Queue.MoveFirst` | kcp_learn/ikcp.c:779-791 | moving a node between two rings is taking the first of one sequence and appending it to the other |
| `ClockSync.ServerAccuracy` | kcp-cpp/KCPNet.cpp:583-616 | over every run with lost, repeated and reordered packets: once stable, the correction is within half of the smallest delay among the last 100 samples (plus rounding) of the true offset; stable exactly if some window of samples was steady |
| `ClockSync.ClientAccuracy` | kcp-cpp/KCPNet.cpp:236-244 | the correction the client aims for is as good, for the samples the server had when it sent it |
| `ClockSync.ConfirmationSound` | kcp-cpp/KCPNet.cpp:615-617 | the server believes the client has a correction only if it does |
| `ClockSync.SmallestFirst` | kcp-cpp/KCPNet.cpp:598-605 | the first of the sorted copy is a sample of least delay |
| `ClockSync.SteadyCount` | kcp-cpp/KCPNet.cpp:604-607 | the list is steady if and only if at least five of its samples are within 20 ms of the quickest |
| `ClockSync.Requests` | kcp-cpp/KCPNet.cpp:405-413 | a request carries the time and, exactly when the server is stable, its correction |
| `ClockSync.Adopts` | kcp-cpp/KCPNet.cpp:236-244 | a correction becomes the client's target, and the first one what it starts from, for good |
| `ClockSync.Confirms` | kcp-cpp/KCPNet.cpp:615-617 | the server takes the answer to a request with a correction, once it has five samples, as confirmation |
| `ClockSync.ExchangeError` | kcp-cpp/KCPNet.cpp:585-587 | one exchange errs by at most half its delay, plus rounding |
| `ClockSync.RoundingExample` | kcp-cpp/KCPNet.cpp:587 | the rounding term is reached |
| `ClockSync.Connection.OnTime` | kcp-cpp/KCPNet.cpp:581-617 | the server's time-packet branch, field by field |
| `ClockSync.Connection.SendTime` | kcp-cpp/KCPNet.cpp:405-413 | a request carries the correction once stable |
| `ClockSync.Peer.OnTime` | kcp-cpp/KCPNet.cpp:235-250 | the client's time-packet branch and its answer |
| `Base64.RoundTrip` | websocket/do_string.h:129-218 | decoding the encoding of any octets gives them back |
| `Base64.EncodeLength` | websocket/do_string.h:129-172 | the encoding has 4*ceil(n/3) characters |
| `Base64.MissingUnused` | websocket/do_string.h:201-214 | the values looked up for missing tail characters never reach the result |
| `Base64.GroupBits` | websocket/do_string.h:139-145 | the 24 bits of a group are, in order, the bits of its four symbol values |
| `Base64.FindSymbol` | websocket/do_string.h:187-188 | every symbol value is found again in the alphabet |
| `Base64.EncodeString` | websocket/do_string.h:129-172 | the loop over a three-byte array encodes any string |
| `Base64.DecodeString` | websocket/do_string.h:174-218 | the loop stops at the first character outside the alphabet and decodes what came before, tails included |
| `ThreadPool.StartedPrefix` | epoll_study/thread_pools.h:48-74 | in every interleaving the tasks started are a prefix of those enqueued, the queue is the rest, and every returned commit enqueued its task once, a refused one never |
| `ThreadPool.MutualExclusion` | epoll_study/thread_pools.h:56-69 | no two workers run tasks at once, tasks finish in the order in which they started, the only unfinished one is the one being run, and no worker pops an empty queue |
| `ThreadPool.LateStarts` | epoll_study/thread_pools.h:36-38 | after stop each worker starts at most one more task |
| `ThreadPool.MarkAtStop` | epoll_study/thread_pools.h:36-38 | the mark from which late starts count is taken when stop is set, and never moves |
| `ThreadPool.RunInv` | epoll_study/thread_pools.h:48-97 | the lock, queue, running and late-start invariants hold after every interleaving |
| `ThreadPool.CanServe` | epoll_study/thread_pools.h:48-49 | a pool can start a committed task if and only if it was asked for at least one thread and fewer than 16 |
| `ThreadPool.AllServed` | epoll_study/thread_pools.h:50-72 | from every reachable state that is not stopped, with 1 to 15 threads, some continuation finishes every task ever enqueued |
| `ThreadPool.WorkersStay` | epoll_study/thread_pools.h:52-70 | no worker returns before stop is set |
| `ThreadPool.CommitVerdict` | epoll_study/thread_pools.h:80-82 | a commit is refused if and only if stop is set when it begins |
| `ThreadPool.RefusedStopped` | epoll_study/thread_pools.h:80-82 | only a stopped pool ever refuses |
| `ThreadPool.LateCommit` | epoll_study/thread_pools.h:80-82 | a commit that had not begun when stop was set is never accepted |

## Left out

- Allocation failure and null buffers: allocation always succeeds, so the error returns for it do not occur.
- Loggers, `ikcp_qprint`, allocator hooks, `ikcp_release`, `ikcp_getconv`: no protocol content.
- Changing mtu, windows or stream mode during a run: segments already queued may exceed a new mss, so the invariants
  of a fixed configuration do not carry over.
- The product (mtu + 24) * 3 that sizes the output buffer is not reduced to 32 bits: the model is of an mtu for which
  it does not wrap.
- The branch under `IKCP_FASTACK_CONSERVE`, which is not compiled, and `latest_ts`, which only it reads.
- The fields conv, cmd, wnd, ts and una of segments in `rcv_buf` and `rcv_queue`: nothing reads them.
- `user`, `ts_recent`, `ts_lastack`, `logmask` and the state word beyond "dead link reached".
- Engine.Kcp.UpdateAck: computes with unbounded signed numbers; `RttEstimator.NoSignedOverflow` shows that samples
  below 2^28 ms (three days) cannot leave the signed word, and larger ones are undefined in C.
- Engine.Kcp.Recv: takes a non-null buffer of at least the stated length, and the copy into it is the returned sequence.
- Engine.Kcp.ParseData: keeps `rcv_buf` and `rcv_queue` as sequences of segments; the linked rings are refined
  separately in module Queue, whose methods are proved against the same functions.
- System.PrefixDelivery: is about unbounded numbers; `Wraparound.RunW` and `ByteSystem.ReliableDelivery` carry it to
  the code's numbers for deliveries not stale by 2^31.
- Progress.RoundTripProgress: is stated on unbounded numbers and from the first endpoint to the second;
  `Completion.ByteProgress` has progress on bytes, and `System.RunExchanged` gives the other direction.
- Completion.ByteCompletes: is stated for windows never announced as 0 while nothing can be read; for the other
  windows of `Windows.CompletionExact` the continuation replays an old datagram, which may be stale for 32-bit numbers.
- Congestion.RunCc: is stated for configurations whose products stay below 2^32.
- Sockets, epoll, select and libevent programs, threads, heartbeat and the connection map: system-call plumbing.
- The clock drift limit and the smoothing of the client's correction: only the exchange of time packets is modelled,
  in unbounded microseconds.
- WebSocket framing: its encoder and decoder agree on short frames only, so there is no round trip to state.
- URL codecs, `split`, trimming, MIME lookup, HTTP headers, directory listing: easy members.
- Base64.DecodeString: reads characters, not signed bytes; a byte outside ASCII counts as outside the alphabet.
- ThreadPool.RunInv: the pool is a value that interleaved steps change, because interleaving is what is modelled;
  updates in place and the memory model below the mutex are not captured.
- ThreadPool.CanServe: takes a non-negative count; for a negative one the loop that makes threads compares it as an
  unsigned number and does not stop.
- ThreadPool.StartedPrefix: tasks are opaque and do not themselves call `commit`; futures, exceptions thrown by tasks,
  the idle counter and termination of the destructor's joins are not part of the model.
- The linked-list job queue of `mul_port_client_epoll/`: head insertion and removal only.
- The simulated network of `kcp_learn/test.h`: replaced by the more general network of module System.
