# Verification of the media server's RTP and OSA layers

This project models two libraries the video server is built on, a copy of oRTP (an
RTP/RTCP stack, RFC 3550) and the OSA threading layer, and proves their
protocols and data structures correct in Dafny 4.11. `dafny verify dfyconfig.toml`
checks all of it.

| files | what they model |
|---|---|
| Modular, Wrappers, Finite | wrap-around comparisons, with the exact windows in which they agree with integers; sequences without repetition |
| RtpQueue, Jitter, RtpReceive | the receive path as classes: linked packet queue, jitter control, session |
| InOrder, Ledger, LossAccounting, SessionStats | what whole runs of it guarantee |
| Playout | the delay budget: which packets of an even stream are played, whatever the network does |
| MsgBlocks, MsgMemory | reference-counted message blocks in an explicit memory |
| OsaQue, QueMonitor, OsaBuf | the ring as a class, its condition variables as a state machine, the buffer pool as both |
| OsaMbx, MbxSafety, MbxRouting, MbxBroadcast | acknowledged mailboxes: state machine, memory safety, who answers whom, and the broadcast loop |
| OsaSequencer, SequencerCommands | the sequencer, its three workers and any number of clients; where the commands lead |
| Scheduler | deadlines of wait points against a clock that wraps and is advanced without a lock |
| SessionSets, SessionMask, SessionSelect | the masks word by word; the session list, positions, tick and waits; select |
| MaskEvents | what selects report over whole runs of the masks |
| Rtcp, RtcpBuild, RtcpParse, RtcpRoundTrip | compound packets: built, parsed in the receive buffer, recovered |
| RtcpFields, RtcpPeer | the fields by offset: what is learned and converted, and what a peer has of the session that wrote them |
| RtcpOverlap | reports whose fields run into the packets behind them |

Objects that the C code updates in place are classes whose methods are proved
against a specification function of the same state; the theorems about runs are then
proved about those functions. Threads are modelled as steps between two lock
operations, over values, with all interleavings allowed; the allocator may hand out
freed addresses again.

Where the code does not meet its own description, the model keeps the code and the
lemmas say when it does:

- The time jump limit and the lateness of packets share half the timestamp range. Runs
  whose arrivals are at most L behind the last query are delivered in order exactly if
  the limit and L are at most 2^31 together (`JumpLimit`); past that a late copy of a
  packet is delivered again (`LateCopyRedelivered`). A limit meant to disable the check
  (2^31) leaves no room at all. `FilterWindow` is the window of one packet.
- Duplicates make the unsigned interval loss wrap and add almost 2^32 to the
  cumulative loss (`DuplicateInflatesLoss`), once for each interval that received more
  packets than it passed numbers (`CumLossIff`).
- The extended sequence number follows the sender for gaps of at most 199
  (`GapBoundIsTight`).
- `OSA_bufGetEmpty` and `OSA_bufGetFull` report success with the id -1.
- A goodbye with an empty reason is one octet longer than its length field says
  (`ByeLength`); the parser recovers all the same (`ReceiverBye`).
- A receiver report too short for its blocks still sets an unset source identifier.
  `RejectedChangesIff`: no other rejected packet changes the session.
- The fields of a report are measured against the rest of the datagram instead of its
  own packet, and converted in place, so they may lie in the packets behind it. A
  packet stands alone exactly if its fields end within its length (`StandsAloneIff`,
  `AllAloneIff`); then the datagram is read as received (`WalkAsReceived`), else a
  report behind it can be lost (`OverlapLosesReport`).
- The words of the caller's mask above the highest position hold what the temporary on
  the stack held (`SelectPass`), and a mask in which nothing was found is left as it
  was asked even when the call returns for another one: `ReturnedIff` says when a
  returned mask is the result.
- A session beyond the 1024th is put on the list without a position of its own
  (`AddSession`).
- With a timer increment above 2^31 ms the scheduler passes a deadline by
  (`DeadlineMissed`); runs are punctual exactly up to there (`IncrementLimit`).

## Model

| member | source | states |
|---|---|---|
| Modular.SeqWindow | multi_chs_test/utils/ortp/src/rtpmod.c:24-26 | the 16-bit test agrees with the order of unwrapped numbers on an interval of differences around 0 exactly when it lies in [-2^15, 2^15) |
| Modular.TsWindow | multi_chs_test/utils/ortp/inc/ortp/rtp.h:75-83 | the 32-bit test agrees with the order of unwrapped timestamps exactly within [-2^31, 2^31) |
| RtpQueue.Queue.constructor | multi_chs_test/utils/ortp/src/str_utils.c:24-31 | an empty queue of two sentinels |
| RtpQueue.Queue.Putq | multi_chs_test/utils/ortp/src/str_utils.c:144-151 | appends a block: the links stay a doubly linked chain between the sentinels and the count is its length |
| RtpQueue.Queue.Insq | multi_chs_test/utils/ortp/src/str_utils.c:174-185 | puts a block before a given one, or last for NULL; same chain invariant |
| RtpQueue.Queue.Getq | multi_chs_test/utils/ortp/src/str_utils.c:153-164 | takes the oldest block off, NULL exactly on an empty queue; the block leaves the chain unlinked |
| RtpQueue.Queue.RtpPutq | multi_chs_test/utils/ortp/src/rtpmod.c:28-65 | the loop over the linked list does what PutSpec says, and reports a dropped duplicate |
| RtpQueue.Queue.RtpGetq | multi_chs_test/utils/ortp/src/rtpmod.c:69-120 | takes the longest prefix of packets not newer than the query with neighbouring timestamps different: returns its last packet, frees and counts the ones before, leaves the rest |
| RtpQueue.PutShape | multi_chs_test/utils/ortp/src/rtpmod.c:36-64 | any insertion drops a duplicate or lands at one place, greater than its predecessor and not than its successor |
| RtpQueue.OlderThanOldest | multi_chs_test/utils/ortp/src/rtpmod.c:84-90 | the early return for a query older than the queue is the empty prefix |
| InOrder.PutKeepsStaggered | multi_chs_test/utils/ortp/src/rtpmod.c:28-65 | unconditionally, each queued number is 1 to 2^15 (mod 2^16) after its predecessor |
| InOrder.PutRefinesInsert | multi_chs_test/utils/ortp/src/rtpmod.c:28-65 | within the 16-bit window, insertion of wire packets is sorted insertion of the unwrapped numbers |
| InOrder.InsertIsSetInsertion | multi_chs_test/utils/ortp/src/rtpmod.c:28-65 | that insertion keeps the queue strictly increasing and is insertion into the set of its elements |
| InOrder.PairInOrderIff | multi_chs_test/utils/ortp/src/rtpmod.c:24-26 | two packets come out in order exactly when their distance is below 2^15 (arriving in order) or at most 2^15 (arriving swapped) |
| InOrder.GetRefinesDue | multi_chs_test/utils/ortp/src/rtpmod.c:92-117 | within the 32-bit window the prefix taken is the one of unwrapped timestamps not newer than the query |
| InOrder.NewestNotNewer | multi_chs_test/utils/ortp/src/rtpmod.c:92-117 | with strictly growing timestamps the packet taken is the newest not newer than the query and all that stay are newer |
| Playout.AdmitExact | multi_chs_test/utils/ortp/src/rtpparse.c:29-63 | a packet is taken in exactly if it is whole, has a payload and is newer than the last query; over the limit the smallest numbers go |
| Playout.ServeExact | multi_chs_test/utils/ortp/src/rtpsession.c:1437-1444 | a synchronised buffer takes packets from the front up to a newer one or one of the same time as its predecessor, delivers the last taken and keeps the rest |
| Playout.FirstExact | multi_chs_test/utils/ortp/src/rtpsession.c:1401-1436 | nothing before the span of the queue reaches the compensation, then the oldest, and the offset is fixed by it |
| Jitter.JitterControl.constructor | multi_chs_test/utils/ortp/src/jitterctl.c:38-62 | a zeroed control with the compensation of the payload type |
| Jitter.JitterControl.NewPacket | multi_chs_test/utils/ortp/src/jitterctl.c:79-112 | one packet updates averages, corrective slide and compensation as NewPacketSpec says, and hands back slide and safe delay |
| Jitter.SafeDelay | multi_chs_test/utils/ortp/src/jitterctl.c:103-110 | the safe delay is never below the configured compensation; outside adaptive mode slide is 0 and the delay constant |
| Jitter.RunBounds | multi_chs_test/utils/ortp/src/jitterctl.c:79-99 | over every run with differences within D and any step: slide within D, jitter and inter-arrival jitter in [0, 2D], corrective slide a multiple of the step |
| Jitter.CorrectiveBounds | multi_chs_test/utils/ortp/src/jitterctl.c:97-99 | and the corrective slide within D for every step that is not negative |
| Jitter.RunConverges | multi_chs_test/utils/ortp/src/jitterctl.c:97-99 | over every run of packets that hold the slide, the corrective slide closes in by one step a packet, never passes it, and is within one step after distance / step packets |
| Jitter.RunAverages | multi_chs_test/utils/ortp/src/jitterctl.c:79-96 | over every run from the start: slide, jitter and inter-arrival jitter are weighted sums of the differences, their deviations and their gaps, the newest sample with weight 0.03, 0.03 and 1/16, each older one with 0.97 or 15/16 of the next |
| Jitter.AdaptiveOutputs | multi_chs_test/utils/ortp/src/jitterctl.c:97-110 | in adaptive mode rtp_parse is handed the average difference, and the larger of compensation and average deviation, both cut to integers |
| LossAccounting.StepDecreasesIff | multi_chs_test/utils/ortp/src/rtpparse.c:122-132 | a packet lowers the extended number in exactly one case, the overflow of the cycle counter |
| LossAccounting.NeverDecreases | multi_chs_test/utils/ortp/src/rtpparse.c:122-132 | for any arrival order the extended number never decreases before the last cycle |
| LossAccounting.StepFollows | multi_chs_test/utils/ortp/src/rtpparse.c:122-132 | a forward step of at most 199 moves the extended number to the true one |
| LossAccounting.GapBoundIsTight | multi_chs_test/utils/ortp/src/rtpparse.c:127 | 199 is the largest gap for which that holds |
| LossAccounting.InOrderExact | multi_chs_test/utils/ortp/src/rtpparse.c:122-132 | for an in-order stream with gaps of at most 199 the extended number is the true one |
| LossAccounting.IntervalLossIff | multi_chs_test/utils/ortp/src/rtcp.c:227-230 | the interval loss is numbers passed minus packets received exactly when no more were received than passed; else it is 2^32 too large |
| LossAccounting.CumLossTelescopes | multi_chs_test/utils/ortp/src/rtcp.c:227-234 | after the first report the cumulative loss is exactly the count of numbers skipped since |
| LossAccounting.CumLossIff | multi_chs_test/utils/ortp/src/rtcp.c:227-234 | whatever arrives: the cumulative loss grows by the numbers passed minus the packets received, and by 2^32 for each interval that received more than it passed; so it is right exactly if there is none |
| LossAccounting.DuplicateInflatesLoss | multi_chs_test/utils/ortp/src/rtcp.c:228-229 | a concrete duplicate that adds 2^32 - 1 to the cumulative loss |
| SessionStats.DatagramHeader | multi_chs_test/utils/ortp/src/rtpparse.c:76-146 | a datagram moves the extended number, source and payload type of the session exactly if it passes the header checks, and its count since the last report exactly if it has 12 octets |
| SessionStats.DatagramCounts | multi_chs_test/utils/ortp/src/rtpparse.c:76-168 | and the counters: received, bad, out of time, in terms of the datagram |
| SessionStats.RunCounts | multi_chs_test/utils/ortp/src/rtpparse.c:76-132 | over every run the extended number of the session is that of the sequence numbers of all datagrams that pass the header checks, and its count since the last report is the number of datagrams with a header, mod 2^32 |
| SessionStats.SessionExtSeqExact | multi_chs_test/utils/ortp/src/rtpparse.c:122-132 | so a session that hears a stream in order with gaps of at most 199 holds the true extended number, over every run |
| SessionStats.FreshExtSeqExact | multi_chs_test/utils/ortp/src/rtpparse.c:122-132 | also a fresh one, from the first packet on |
| SessionStats.OffsetMeans | multi_chs_test/utils/ortp/src/rtpparse.c:149-153 | the offset set for a packet is the one fixed at synchronisation, less the safe delay and plus the slide |
| SessionStats.DeliveredMeans | multi_chs_test/utils/ortp/src/rtpsession.c:1448-1475 | the packet selected is handed out unchanged but for its timestamp, from which the corrective slide is taken in adaptive mode only |
| SessionStats.PayloadMeans | multi_chs_test/utils/ortp/src/rtpsession.c:847-858 | a known payload type brings its compensation and step, an unknown one nothing |
| RtpReceive.RtpSession.SplitAndQueue | multi_chs_test/utils/ortp/src/rtpparse.c:29-63 | queues or drops the packet, evicts down to the limit, and reports how many packets were discarded |
| RtpReceive.RtpSession.RtpParse | multi_chs_test/utils/ortp/src/rtpparse.c:66-175 | the whole of rtp_parse on the session: counters, extended number, jitter control, lateness filter, queueing |
| RtpReceive.RtpSession.Filter | multi_chs_test/utils/ortp/src/rtpparse.c:156-174 | a late packet that is no jump is dropped and counted, any other is queued |
| RtpReceive.RtpSession.UpdateFromHeader | multi_chs_test/utils/ortp/src/rtpparse.c:112-146 | source identifier, extended number and payload type follow the header |
| RtpReceive.RtpSession.UpdatePayloadType | multi_chs_test/utils/ortp/src/rtpsession.c:847-858 | the type is set, and a known one brings its compensation and step, also if it is the one already set |
| RtpReceive.RtpSession.UpdateOffset | multi_chs_test/utils/ortp/src/rtpparse.c:149-153 | the timestamp offset is set from the jitter control |
| RtpReceive.RtpSession.Enqueue | multi_chs_test/utils/ortp/src/rtpparse.c:172-175 | queues and adds the discarded packets to the counter |
| RtpReceive.RtpSession.Datagram | multi_chs_test/utils/ortp/src/rtpsession.c:1208-1228 | a datagram shorter than a header is counted as bad, any other is parsed |
| RtpReceive.RtpSession.RtpRecv | multi_chs_test/utils/ortp/src/rtpsession.c:1182-1250 | every datagram waiting is taken in, in order |
| RtpReceive.RtpSession.RecvmWithTs | multi_chs_test/utils/ortp/src/rtpsession.c:1351-1477 | one call: packets in, selection, counters; the session and the packet returned are those of RecvmSpec |
| RtpReceive.RtpSession.SelectFirst | multi_chs_test/utils/ortp/src/rtpsession.c:1401-1436 | nothing is returned until the compensation is buffered, then the oldest packet, fixing the offsets |
| RtpReceive.RtpSession.SelectByTime | multi_chs_test/utils/ortp/src/rtpsession.c:1437-1444 | the packet due at the stream time of the query; rejected ones are counted as skipped |
| RtpReceive.RtpSession.Deliver | multi_chs_test/utils/ortp/src/rtpsession.c:1448-1475 | payload type change, timestamp patch in adaptive mode, or one more unavailable |
| InOrder.FilterExact | multi_chs_test/utils/ortp/src/rtpparse.c:156-168 | within its window the filter drops exactly the packets not newer than the last query |
| InOrder.FilterWindow | multi_chs_test/utils/ortp/src/rtpparse.c:156-168 | the widest such window is [jump - 2^31, jump + 2^31) |
| InOrder.OffsetIsConstant | multi_chs_test/utils/ortp/src/rtpparse.c:149-153 | after synchronisation the timestamp offset never changes (non-adaptive, fixed payload type) |
| InOrder.BufferInOrder | multi_chs_test/utils/ortp/src/rtpsession.c:1401-1441 | the unwrapped buffer delivers strictly increasing numbers, each not newer than its query, for any arrivals and non-decreasing queries |
| InOrder.RunMatches | multi_chs_test/utils/ortp/src/rtpsession.c:1351-1477 | over a whole run inside the windows the wrapped receive path delivers the packets of the unwrapped buffer |
| InOrder.InOrderAtMostOnce | multi_chs_test/utils/ortp/src/rtpsession.c:1351-1477 | delivery over whole runs with arrivals at most late behind the last query: a strictly increasing subsequence of what was sent, each packet at most once, each among the arrivals, none newer than its query |
| InOrder.LateCopyRedelivered | multi_chs_test/utils/ortp/src/rtpparse.c:156-168 | for every jump limit up to 2^31 and every lateness below 2^31: a copy of a delivered packet is delivered again exactly if their sum exceeds 2^31 |
| InOrder.JumpLimit | multi_chs_test/utils/ortp/src/rtpsession.c:1766-1774 | all runs with arrivals at most late behind the last query, in the other windows, are delivered in order and at most once exactly if jump limit and lateness are at most 2^31 together |
| Playout.PlayedIff | multi_chs_test/utils/ortp/src/rtpsession.c:1338-1444 | a stream sent and asked for in even steps, over any reordering, loss and duplication in the windows: the packets handed out are, in order and once each, exactly those that came before their turn, which is at a constant delay after they could come |
| Playout.DelayBudget | multi_chs_test/utils/ortp/src/rtpsession.c:1399-1444 | a compensation of k packet times makes up for all delays of at most d packet times exactly if d is at most k |
| Ledger.DatagramBalanced | multi_chs_test/utils/ortp/src/rtpparse.c:66-175 | one datagram keeps the ledger: packets received equal all counters, deliveries, dropped duplicates and the queue |
| Ledger.PacketLedger | multi_chs_test/utils/ortp/src/rtpsession.c:1419-1444 | the ledger over every run, and the queue never above its limit between calls |
| Ledger.SplitLength | multi_chs_test/utils/ortp/src/rtpparse.c:48-62 | split_and_queue accounts for the packet and everything it evicts |
| OsaQue.Que.constructor | multi_chs_test/utils/osa/src/osa_que.c:5-35 | an empty ring |
| OsaQue.Que.PutPass | multi_chs_test/utils/osa/src/osa_que.c:57-71 | one pass appends to the abstract queue or finds it full; entries are at (curRd + i) % len and curWr is (curRd + count) % len |
| OsaQue.Que.GetPass | multi_chs_test/utils/osa/src/osa_que.c:85-103 | one pass takes the oldest entry or finds none |
| QueMonitor.MonitorInvariant | multi_chs_test/utils/osa/src/osa_que.c:51-108 | any readers, writers, timeouts and spurious wake-ups: bounded FIFO, and sleepers only while no more units are available than threads are woken |
| QueMonitor.NoLostWakeUp | multi_chs_test/utils/osa/src/osa_que.c:51-108 | with nobody left to run, readers sleep only on an empty ring and writers only on a full one, never both |
| OsaBuf.RoomForHand | multi_chs_test/utils/osa/src/osa_buf.c:100-140 | whoever is about to put a buffer finds room in both rings |
| OsaBuf.StepKeepsInv | multi_chs_test/utils/osa/src/osa_buf.c:75-143 | each atomic section keeps every buffer in exactly one place and the reader counts exact: releases done and due make numReaders, and a buffer on its way back has had all |
| OsaBuf.PoolPartition | multi_chs_test/utils/osa/src/osa_buf.c:75-184 | in every interleaving each buffer is in exactly one of the rings and hands, and no put blocks |
| OsaBuf.ReleasesAddUp | multi_chs_test/utils/osa/src/osa_buf.c:121-143 | over every run, from when readers hold a buffer: releases made and due add up to what was due, and it is on its way back exactly when none is due |
| OsaBuf.LastReaderReturns | multi_chs_test/utils/osa/src/osa_buf.c:105-143 | between taking a full buffer and its return there are exactly numReaders releases of it: it may be returned exactly if there are that many |
| OsaBuf.BufHndl.constructor | multi_chs_test/utils/osa/src/osa_buf.c:31-72 | all buffers start in the empty ring |
| OsaBuf.BufHndl.BufCreate | multi_chs_test/utils/osa/src/osa_buf.c:20-73 | fails for more than 16 buffers, else a pool with at least one reader a buffer |
| OsaBuf.BufHndl.BufGetEmpty | multi_chs_test/utils/osa/src/osa_buf.c:75-89 | the oldest empty buffer or -1, success either way |
| OsaBuf.BufHndl.BufGetFull | multi_chs_test/utils/osa/src/osa_buf.c:105-119 | the oldest full buffer or -1, success either way |
| OsaBuf.BufHndl.BufPutFull | multi_chs_test/utils/osa/src/osa_buf.c:91-103 | resets the reader count and queues the buffer; a bad id fails |
| OsaBuf.BufHndl.BufPutEmpty | multi_chs_test/utils/osa/src/osa_buf.c:121-143 | counts a release; the buffer enters the empty ring exactly if one release was due, otherwise it stays held with one fewer due |
| OsaBuf.BufHndl.BufSwitchFull | multi_chs_test/utils/osa/src/osa_buf.c:146-164 | hands in a buffer and takes an empty one; the old one is put even when -1 was got |
| OsaBuf.BufHndl.BufSwitchEmpty | multi_chs_test/utils/osa/src/osa_buf.c:166-184 | the same for a reader |
| MbxSafety.StepKeepsInv | multi_chs_test/utils/osa/src/osa_mbx.c:27-254 | every step of sending, receiving, reading a parameter, answering, collecting and flushing keeps the invariant, which includes that nothing unallocated was touched or freed |
| MbxSafety.MailboxInvariant | multi_chs_test/utils/osa/src/osa_mbx.c:27-254 | the same over every run, with an allocator that reuses addresses |
| MbxSafety.NeverTouchedAfterFree | multi_chs_test/utils/osa/src/osa_mbx.c:27-254 | from the start, over every run: no fault was raised, every handle a thread holds is allocated, and so is the parameter of every message it can still read |
| MbxSafety.AckIsExpected | multi_chs_test/utils/osa/src/osa_mbx.c:66-79 | an acknowledgement in the queue answers a message still waited for, and the pointer comparison finds it at its own position |
| MbxSafety.NoStaleAck | multi_chs_test/utils/osa/src/osa_mbx.c:171-247 | the branch for acknowledgements of old messages and the flush of the ACK queue find nothing |
| MbxSafety.NothingLeaks | multi_chs_test/utils/osa/src/osa_mbx.c:27-38 | once all calls and answers are done no message and no parameter is left allocated |
| MbxSafety.WaitAckResult | multi_chs_test/utils/osa/src/osa_mbx.c:62-82 | a waiting call returns after all its messages were answered, OK if all were and else the first other status in arrival order; with one target exactly its status (by whom they were answered: TargetsAnswer) |
| MbxRouting.SendGoesToTarget | multi_chs_test/utils/osa/src/osa_mbx.c:136-139 | the i-th message of a call goes to the end of the receive queue of the i-th target and nowhere else, with command and parameter of the call |
| MbxRouting.SendAnonGoesToTarget | multi_chs_test/utils/osa/src/osa_mbx.c:59 | a message without acknowledgement goes to its target and nowhere else |
| MbxRouting.AnswerGoesBack | multi_chs_test/utils/osa/src/osa_mbx.c:213-230 | an answer returns to the mailbox of the sender with the status given |
| MbxRouting.RunKeepsRouted | multi_chs_test/utils/osa/src/osa_mbx.c:27-254 | over every run each message is queued at, held from or was answered from the mailbox it was sent to |
| MbxRouting.TargetsAnswer | multi_chs_test/utils/osa/src/osa_mbx.c:85-191 | over every run a waiting call returns only after each of its targets answered its own message: one message for each target, answered by a thread that received it from that mailbox |
| MbxRouting.ReceivedWhatWasSent | multi_chs_test/utils/osa/src/osa_mbx.c:193-211 | whatever a thread received was addressed to that mailbox and, while the sender waits, carries the command and parameter of its call |
| MbxSafety.AnswerIsFinal | multi_chs_test/utils/osa/src/osa_msgq.c:136-145 | the status given for a message never changes afterwards |
| MbxSafety.AckNeverBlocks | multi_chs_test/utils/osa/src/osa_mbx.c:213-230 | at most nine acknowledgements are queued, so an acknowledgement never waits for room |
| MbxSafety.CollectShrinks | multi_chs_test/utils/osa/src/osa_mbx.c:143-179 | each acknowledgement taken shrinks the unacknowledged set by its message and the last one ends the call |
| MbxSafety.FoldFirstBad | multi_chs_test/utils/osa/src/osa_mbx.c:155-157 | the status kept while answers arrive is OK if all are, else the first that is not |
| MbxBroadcast.CollectAcks | multi_chs_test/utils/osa/src/osa_mbx.c:129-188 | the acknowledgement loop on any arrivals: stops at the first one after which all are answered, returns the first bad status, frees each message once and the shared parameter last |
| MbxBroadcast.MarkAck | multi_chs_test/utils/osa/src/osa_mbx.c:150-160 | marks exactly the position of a known message and tells unknown ones |
| OsaSequencer.WorkerKeepsPhase | multi_chs_test/utils/osa/src/osa_test.c:241-322 | a worker step never fails an assertion and stays in the phase the sequencer put the worker in |
| OsaSequencer.SeqStepKeepsInv | multi_chs_test/utils/osa/src/osa_test.c:96-239 | each message sent or answer awaited by the sequencer moves the worker concerned to its next phase and no other |
| OsaSequencer.SequencerInvariant | multi_chs_test/utils/osa/src/osa_test.c:96-322 | the phases, the life of the delay variables and the clients' locals over every run |
| OsaSequencer.SequencerSafe | multi_chs_test/utils/osa/src/osa_test.c:96-322 | any commands and interleaving: no assertion fails, no dead variable is read, workers enter their main function in READY only, and between commands all workers agree with the sequencer's state (which state: CommandsExecuted) |
| OsaSequencer.NotStuck | multi_chs_test/utils/osa/src/osa_test.c:96-322 | where the sequencer waits, the worker waited for can step and each step brings its answer nearer |
| SequencerCommands.StepOnTheWay | multi_chs_test/utils/osa/src/osa_test.c:96-239 | each step of the sequencer leads on towards the state that a table of state and command names, and its reply comes in that state |
| SequencerCommands.CommandsExecuted | multi_chs_test/utils/osa/src/osa_test.c:96-239 | over every run: between two commands the state is the one the answered commands lead to one after the other, from READY by START to RUN, from RUN by STOP to READY and by PAUSE to PAUSE, from PAUSE by STOP to READY and by START or RESUME to RUN, and nowhere by others; the session has the delay of the last START that was taken; the other commands wait in order |
| SequencerCommands.WorkersFollow | multi_chs_test/utils/osa/src/osa_test.c:96-322 | and the workers are off in READY and else in that state with that delay |
| MsgBlocks.FreebKeepsWf | multi_chs_test/utils/ortp/src/str_utils.c:86-100 | freeing a block keeps all counts exact; the data goes with the last block and no other block changes |
| MsgBlocks.DupbKeepsWf | multi_chs_test/utils/ortp/src/str_utils.c:114-127 | a duplicate shares the data, counted once more |
| MsgBlocks.AllReferenced | multi_chs_test/utils/ortp/src/str_utils.c:86-100 | data is allocated exactly as long as a live block points at it |
| MsgBlocks.DupFlat | multi_chs_test/utils/ortp/src/str_utils.c:130-142 | a duplicated message has the same bytes |
| MsgBlocks.PiecesAreThePayload | multi_chs_test/utils/ortp/src/rtpsession.c:1504-1534 | pieces taken off a payload one after the other, with any sizes, are the payload up to their sum, all of it once they reach its length |
| MsgMemory.Memory.ReadPieces | multi_chs_test/utils/ortp/src/rtpsession.c:1504-1534 | any sequence of calls of msg_to_buf on the memory: the bytes collected are the payload up to the sum of the sizes, and the rest of it stays in the message |
| MsgMemory.Memory.Allocb | multi_chs_test/utils/ortp/src/str_utils.c:41-62 | a new empty block on new data with one reference |
| MsgMemory.Memory.Freeb | multi_chs_test/utils/ortp/src/str_utils.c:86-100 | frees a block and, with the last reference, its data |
| MsgMemory.Memory.Freemsg | multi_chs_test/utils/ortp/src/str_utils.c:102-112 | frees exactly the blocks of the message and the data nothing else points at |
| MsgMemory.Memory.Dupb | multi_chs_test/utils/ortp/src/str_utils.c:114-127 | duplicates one block |
| MsgMemory.Memory.Dupmsg | multi_chs_test/utils/ortp/src/str_utils.c:130-142 | a new message of duplicates, the original unchanged |
| MsgMemory.Memory.Flushq | multi_chs_test/utils/ortp/src/str_utils.c:196-204 | frees all messages of a queue and nothing else; no data without a block stays |
| MsgMemory.Memory.Msgdsize | multi_chs_test/utils/ortp/src/str_utils.c:206-214 | the number of bytes of the message |
| MsgMemory.Memory.Msgpullup | multi_chs_test/utils/ortp/src/str_utils.c:216-249 | a message with the same bytes whose first block holds min(len, size) of them; the original unchanged, counts exact |
| MsgBlocks.FirstBlockHolds | multi_chs_test/utils/ortp/src/str_utils.c:216-249 | what Msgpullup makes of a message has the same bytes, the first len of them in its first block if it has more, otherwise, and for -1, all |
| MsgMemory.Memory.Concatb | multi_chs_test/utils/ortp/src/str_utils.c:301-306 | the two messages one after the other; the last block is returned |
| MsgMemory.Memory.Split | multi_chs_test/utils/ortp/src/rtpparse.c:41-47 | header and payload of a packet in two blocks on the same data, counted twice |
| MsgMemory.Memory.MsgToBuf | multi_chs_test/utils/ortp/src/rtpsession.c:1504-1534 | copies the first min(len, payload) payload bytes, leaves exactly the rest in the message, frees the blocks used up |
| Scheduler.WaitPoint.WakeupAt | multi_chs_test/utils/ortp/src/rtpsession.c:63-67 | arms the wait point |
| Scheduler.WaitPoint.Check | multi_chs_test/utils/ortp/src/rtpsession.c:70-81 | fires an armed wait point whose time is not newer than the clock, once |
| Scheduler.DeadlineAhead | multi_chs_test/utils/ortp/src/rtpsession.c:1116-1118 | an armed time is in front of the clock by less than 2^31, also across the wrap |
| Scheduler.CheckExact | multi_chs_test/utils/ortp/src/rtpsession.c:70-81 | a look at an armed wait point fires it exactly if its unwrapped deadline has come |
| Scheduler.ArmedUntilFired | multi_chs_test/utils/ortp/src/rtpsession.c:63-81 | a deadline only goes by firing when due or by being armed anew |
| Scheduler.NeverEarlyNeverMissed | multi_chs_test/utils/ortp/src/scheduler.c:123-145 | over every run, however arming falls between the unlocked clock increments: fired never early and less than one increment late, armed never overdue |
| Scheduler.DeadlineMissed | multi_chs_test/utils/ortp/src/scheduler.c:144 | with an increment above 2^31 the scheduler passes a deadline by, which stays armed |
| Scheduler.IncrementLimit | multi_chs_test/utils/ortp/src/scheduler.c:123-145 | every run is punctual exactly if the increment is at most 2^31 |
| SessionSets.SessionSet.Set | multi_chs_test/utils/ortp/inc/ortp/sessionset.h:94 | raises one position of a mask and no other |
| SessionSets.SessionSet.Clr | multi_chs_test/utils/ortp/inc/ortp/sessionset.h:96 | lowers one position and no other |
| SessionSets.SessionSet.IsSet | multi_chs_test/utils/ortp/inc/ortp/sessionset.h:95 | tells whether a position is raised |
| SessionSets.SessionSetAnd | multi_chs_test/utils/ortp/src/sessionset.c:61-87 | word by word: intersection, what was found removed from the scheduler's mask, the sum of the bit counts; words above stay |
| SessionSets.AndResult | multi_chs_test/utils/ortp/src/sessionset.c:61-87 | in terms of positions: the intersection up to the covered words, removed from the mask, and the count is its size |
| SessionSets.CountBits | multi_chs_test/utils/ortp/src/sessionset.c:74-78 | the inner loop counts the one bits |
| SessionSets.CountIsSize | multi_chs_test/utils/ortp/src/sessionset.c:69-86 | the sum of the words' counts is the number of positions |
| SessionMask.RtpScheduler.AddSession | multi_chs_test/utils/ortp/src/scheduler.c:151-186 | a session not yet scheduled goes to the front of the list and gets the lowest free position, if there is one; list, flags, positions and masks agree afterwards exactly if one was free |
| SessionMask.RtpScheduler.RemoveSession | multi_chs_test/utils/ortp/src/scheduler.c:188-225 | a scheduled session leaves the list and the mask, the ready masks keep its bits |
| SessionMask.RtpScheduler.TakePosition | multi_chs_test/utils/ortp/src/scheduler.c:167-182 | the lowest free position, with the ready bits of a session not started; nothing if all are taken |
| SessionMask.FreeOrFull | multi_chs_test/utils/ortp/src/scheduler.c:168-169 | the search finds no free position exactly when all are taken |
| SessionMask.PositionsAdded | multi_chs_test/utils/ortp/src/scheduler.c:167-182 | with one more session the positions are still distinct and those of the mask exactly if one was free |
| SessionMask.RtpScheduler.Process | multi_chs_test/utils/ortp/src/rtpsession.c:1920-1935 | both wait points are looked at; one that has expired is disarmed and raises its bit |
| SessionMask.RtpScheduler.Tick | multi_chs_test/utils/ortp/src/scheduler.c:123-138 | one turn over the list: exactly the wait points of listed sessions that have expired are disarmed, exactly their bits raised |
| SessionMask.TickWaits | multi_chs_test/utils/ortp/src/scheduler.c:129-135 | processing the sessions one by one disarms just those wait points that were listed and had expired before |
| SessionMask.TickMasks | multi_chs_test/utils/ortp/src/scheduler.c:129-135 | and raises just the bits of their sessions |
| SessionMask.RtpScheduler.Await | multi_chs_test/utils/ortp/src/rtpsession.c:1107-1123 | a packet time in front of the clock arms the wait point and lowers the bit, another raises the bit; nothing else changes |
| SessionSelect.SelectPass | multi_chs_test/utils/ortp/src/sessionset.c:125-132 | a pass finds exactly the ready sessions asked for in the covered words and takes them out of the scheduler's mask; the caller's mask is overwritten if something was found, its upper words with what the temporary held |
| SessionSelect.SelectTurn | multi_chs_test/utils/ortp/src/sessionset.c:122-158 | the three passes: every raised bit asked for is reported and lowered, no other, and the return value is their number; the masks change by three selects of MaskEvents |
| SessionSelect.ReturnedIff | multi_chs_test/utils/ortp/src/sessionset.c:125-153 | a returned mask shows its hits exactly if something was found in it or nothing in its covered words was asked for |
| MaskEvents.RunKeepsRange | multi_chs_test/utils/ortp/src/scheduler.c:151-225 | over every run no bit of any mask is above the highest position handed out, also after sessions left |
| MaskEvents.NothingOverlooked | multi_chs_test/utils/ortp/src/sessionset.c:69-86 | so the words looked at hold every raised bit asked for |
| MaskEvents.ReadyIffPending | multi_chs_test/utils/ortp/src/sessionset.c:113-158 | over every run a bit is up exactly if it was raised and since then neither lowered nor asked for by a select |
| MaskEvents.SelectReports | multi_chs_test/utils/ortp/src/sessionset.c:113-158 | any select in any run reports exactly the positions it asks for that were raised since the last select asking for them and not lowered since |
| MaskEvents.OneShot | multi_chs_test/utils/ortp/src/sessionset.c:61-87 | two selects report the same bit only if it was raised in between |
| Rtcp.Hton24Twice | multi_chs_test/utils/ortp/src/utils.h:73-78 | the 24-bit swap applied twice gives the low 24 bits |
| Rtcp.LossField | multi_chs_test/utils/ortp/src/rtcp.c:246-247 | the stored loss word is fraction and low 24 bits of the count in network order |
| Rtcp.SrLength | multi_chs_test/utils/ortp/src/rtcp.c:256-264 | the length field of a sender report matches its 52 octets |
| Rtcp.RrLength | multi_chs_test/utils/ortp/src/rtcp.c:266-273 | the length field of a receiver report matches its 32 octets |
| Rtcp.SrOnWire | multi_chs_test/utils/ortp/src/rtcp.c:256-264 | every field of a sender report at its offset, as section 6.4.1 of RFC 3550 lays it out |
| Rtcp.RrOnWire | multi_chs_test/utils/ortp/src/rtcp.c:266-273 | every field of a receiver report at its offset, as in section 6.4.2 |
| Rtcp.SdesChunk | multi_chs_test/utils/ortp/src/rtcp.c:43-98 | a chunk is padded to whole words |
| RtcpFields.SdesRead | multi_chs_test/utils/ortp/src/rtcp.c:43-98 | a reader of the chunk finds the source and the items with their contents cut to 255 octets, all of them exactly if none is of type 0; then only zeros |
| Rtcp.SdesLength | multi_chs_test/utils/ortp/src/rtcp.c:127-149 | the length field of a source description matches it |
| Rtcp.ByeLength | multi_chs_test/utils/ortp/src/rtcp.c:152-184 | the length field of a goodbye matches it exactly when the reason is not empty |
| RtcpBuild.ReportSource.ReportBlockInit | multi_chs_test/utils/ortp/src/rtcp.c:215-252 | accounts the loss as LossAccounting.Report, resets the counters, and writes the block in place: at each offset the field of the session that belongs there, the loss cut to 24 bits |
| RtcpBuild.ReportSource.SrInit | multi_chs_test/utils/ortp/src/rtcp.c:256-264 | refuses a short buffer, else writes exactly the sender report: header, time, counts and block field by field from the session, by offset |
| RtcpBuild.ReportSource.RrInit | multi_chs_test/utils/ortp/src/rtcp.c:266-273 | refuses a short buffer, else writes exactly the receiver report, field by field from the session, by offset |
| RtcpParse.RtpSession.ReportBlocks | multi_chs_test/utils/ortp/src/rtcpparse.c:28-68 | each block in turn: the identifier is converted in the buffer, the rest too if it is this source's, and the block is read |
| RtcpParse.RtpSession.SrParse | multi_chs_test/utils/ortp/src/rtcpparse.c:119-159 | sender report: identifier check, size check against what is left, timestamps, sender info and blocks converted in the buffer |
| RtcpParse.RtpSession.RrParse | multi_chs_test/utils/ortp/src/rtcpparse.c:163-195 | receiver report: an unset identifier is adopted before the size is checked; blocks converted in the buffer |
| RtcpParse.RtpSession.ByeParse | multi_chs_test/utils/ortp/src/rtcpparse.c:203-247 | goodbye: identifier searched, reason taken if its length fits |
| RtcpParse.RtpSession.RtcpParse | multi_chs_test/utils/ortp/src/rtcpparse.c:70-270 | the walk over the datagram leaves the session and the receive buffer as Parse says, for any input |
| RtcpParse.PacketFrame | multi_chs_test/utils/ortp/src/rtcpparse.c:102-258 | a packet changes no octet behind the end of the fields it claims |
| RtcpParse.ByeIff | multi_chs_test/utils/ortp/src/rtcpparse.c:203-247 | a goodbye fails only if its identifiers do not fit; it changes the session exactly if they fit, the session's source is among them and there are handlers, and then by one goodbye |
| RtcpParse.ReasonIff | multi_chs_test/utils/ortp/src/rtcpparse.c:226-235 | the reason is given exactly if its length octet and text fit into the packet: the text up to a NUL |
| RtcpFields.SrTaken | multi_chs_test/utils/ortp/src/rtcpparse.c:119-159 | a sender report is taken exactly if it is whole, from the known source, and its blocks end within the datagram; the session then has the middle of its time and the blocks about itself, as received; otherwise nothing changes |
| RtcpFields.RrTaken | multi_chs_test/utils/ortp/src/rtcpparse.c:163-195 | the same for a receiver report, with the source adopted |
| RtcpFields.ReportsLearned | multi_chs_test/utils/ortp/src/rtcpparse.c:28-68 | however many blocks: those about the session, in order, each as received, for the conversions in place do not get into each other's way |
| RtcpFields.SrConverted | multi_chs_test/utils/ortp/src/rtcpparse.c:28-68 | after a sender report every block about the session reads in host order as it did in network order, of another one only the identifier was touched |
| RtcpFields.InfoConverted | multi_chs_test/utils/ortp/src/rtcpparse.c:119-159 | and the five words of the sender information |
| RtcpFields.RrConverted | multi_chs_test/utils/ortp/src/rtcpparse.c:163-195 | the blocks after a receiver report |
| RtcpOverlap.StandsAloneIff | multi_chs_test/utils/ortp/src/rtcpparse.c:102-258 | whatever session, datagram and octets behind it: the verdict on a packet, what is learned from it and the octets behind it depend on nothing else exactly if its fields end within its length |
| RtcpOverlap.AllAloneIff | multi_chs_test/utils/ortp/src/rtcpparse.c:90-264 | every packet the walk takes stands alone exactly if 28 + 24 rc, or 8 + 24 rc, is at most its length for each report among them |
| RtcpOverlap.WalkAsReceived | multi_chs_test/utils/ortp/src/rtcpparse.c:90-264 | in that case the session learns what the datagram as received says |
| RtcpOverlap.OverlapLosesReport | multi_chs_test/utils/ortp/src/rtcpparse.c:28-30 | a receiver report behind a sender report of 28 octets that claims a block is lost: its converted header ends the walk |
| RtcpOverlap.RejectedChangesIff | multi_chs_test/utils/ortp/src/rtcpparse.c:169-185 | a rejected packet changes the session only if it is a receiver report with more blocks than the datagram holds, no source is known and its own is not 0; then that one is adopted |
| RtcpRoundTrip.MiddleOfNtp | multi_chs_test/utils/ortp/src/rtcpparse.c:146 | the timestamp kept is the middle 32 bits of the 64-bit time |
| RtcpRoundTrip.SrParsed | multi_chs_test/utils/ortp/src/rtcpparse.c:119-159 | a built sender report, whatever follows it, is parsed to its fields and its exact size |
| RtcpRoundTrip.RrParsed | multi_chs_test/utils/ortp/src/rtcpparse.c:163-195 | the same for a receiver report |
| RtcpRoundTrip.ByeParsed | multi_chs_test/utils/ortp/src/rtcpparse.c:203-247 | the same for a goodbye: the reason cut at 255, an empty one as none |
| RtcpRoundTrip.SenderReport | multi_chs_test/utils/ortp/src/rtcp.c:276-296 | SR and SDES: the peer recovers NTP middle and report block, and the walk ends at the last octet |
| RtcpRoundTrip.ReceiverReport | multi_chs_test/utils/ortp/src/rtcp.c:287-293 | RR alone: the report block is recovered |
| RtcpRoundTrip.SenderBye | multi_chs_test/utils/ortp/src/rtpsession_ext.c:41-77 | SR, SDES and BYE: report and reason are recovered |
| RtcpRoundTrip.ReceiverBye | multi_chs_test/utils/ortp/src/rtpsession_ext.c:64-70 | RR and BYE: report and reason are recovered |
| RtcpPeer.PeerReadsSr | multi_chs_test/utils/ortp/src/rtcp.c:205-264 | a peer that parses what SrInit wrote has the middle of the time sent and, if the block is about it, each field of the session: source, fraction, cumulative loss mod 2^24, extended number, jitter, time and delay of the last sender report |
| RtcpPeer.PeerReadsRr | multi_chs_test/utils/ortp/src/rtcp.c:215-273 | the same for what RrInit wrote, also by a peer that adopts the source |
| RtcpPeer.TimeComesBack | multi_chs_test/utils/ortp/src/rtcpparse.c:146 | the time of a sender report comes back to its sender in the answer of a session that noted it |

## Left out

- Sockets, port binding, multicast, log output and the Windows branches: datagrams and the time of day are parameters.
- Thread creation, priorities and real time: threads are atomic steps, and setting or clearing one mask bit is one step.
- Blocking calls are passes through their loops; `BufHndl` shows the calls that find room or poll, the waiting is in `QueMonitor` and `OsaBuf`.
- The rings of osa_msgq.c have the shape of osa_que.c and are queues of bounded length in `OsaMbx`; a message is allocated in the step that queues it.
- The operations of osa_mbx.c are steps on values, since several threads run them at once; only the broadcast loop is also a method.
- Scheduled mode of rtp_session_recvm_with_ts beyond its wait point, and adaptive mode combined with redelivery.
- Playout.PlayedIff: for streams in even steps whose number 0 comes first, a compensation of whole steps outside adaptive mode, and the windows of RunMatches.
- A waiter that leaves pthread_cond_wait of a wait point spuriously returns early; the deadline theorems are about firing.
- Telephone events: telephone_events_pt is taken to be unset, so no packet goes to the event queue.
- Byte counters (hw_recv, recv, sent) and the global copies of the counters; counters of 64 bits are unbounded.
- Floats of the jitter control are reals; fraction_lost, the fraction of a second in a sender's time, the delay since the last report and the round-trip time are inputs or left out.
- The time jump limit in timestamp units is fixed, as it follows the sending payload type; payload parameters are a table from payload type to compensation and step.
- The client that asks the sequencer for something is any number of threads, each waiting for its reply; the menus of osa_test.c are not modelled.
- Chunk building with appendb and copymsg, and SDES chunks that need a second block; contributing sources (the loop in rtp_session_create_rtcp_sdes_packet steps from the wrong block).
- SessionSelect.SelectTurn: one turn of the waiting loop of session_set_select, with three different masks; passing one mask twice is not modelled.
- SessionMask.RtpScheduler.Await: without blocking mode, where the caller sleeps between arming and lowering the bit.
- OsaBuf.BufHndl.BufGetEmpty: the call that polls, as for the other calls of the pool; a waiting get is a step of `OsaBuf` taken when the ring has an entry.
- OsaBuf.BufHndl.BufGetFull: the same.
- Memory allocation always succeeds.
- OSA_flg, semaphores, rendezvous, SysV queues, payload tables, signal tables, the client table and the command servers: lookups or smaller cases of what is here.
