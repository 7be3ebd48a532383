# AllJoyn Thin Core Library: protocol engines and tables

This project models the protocol engines of the AllJoyn Thin Core Library and the tables they
rely on, and proves what each of them is for. `dafny verify dfyconfig.toml` checks all of it.

**Reliable datagrams (ARDP).** `Ardp.dfy` describes one endpoint in state OPEN as a value;
`ArdpEndpoint.dfy` is the connection record with its two rings of buffers, timers and read
state, and proves each method against that value. `ArdpNetwork.dfy` puts two endpoints on a
network that may delay, reorder, repeat and lose segments subject to two conditions (no data
segment overtakes one that is still missing, no stale LCS moves the window back), gives the
inductive invariant, and draws the end-to-end results from it in both directions. What goes wrong
without the first condition is shown beside it, and without the second in `ArdpStale.dfy`: exactly
when a stale LCS lets the sender overrun the receiver's ring, and a run in which it does.
`ArdpFifo.dfy` shows that first-in first-out channels that lose nothing but acknowledgements always
meet the two conditions, so that their runs are runs of the network. `ArdpProgress.dfy` says what one
delivered pass of the data timer and one delivered acknowledgement repair. `ArdpWire.dfy` and
`Seq32.dfy` tie the numbers to the 36-byte header and to 32-bit arithmetic, and `ArdpRtt.dfy`
bounds the round-trip estimate and the retransmission timeout.

**Serial link (SLAP).** `Slip.dfy` is the byte-stuffed framing and its self-synchronising decoder,
`Crc16.dfy` the table-driven CRC and its error detection, `SerialRx.dfy` the receive path with its
packet pool, `SlapWindow.dfy` the modulo-eight window between a sender and that receiver,
`SlapStream.dfy` both together, from the bytes given to the bytes read, `LinkNegotiation.dfy` the
two-party handshake and `SlapControl.dfy` the same handshake carried by frames.

**Tables and parsers.** `AccessControl.dfy` (policy, manifests, permission bits),
`CredentialStore.dfy` (NVRAM slots as a map), `MdnsName.dfy` (compressed names of section 4.1.4 of
RFC 1035), `Der.dfy` (sections 8.1.3 and 10.1 of X.690), `X509Chain.dfy` (certificate chains) and
`ResponseList.dfy` (the best routing nodes).

Code that changes its state step by step is modelled as classes and loops, each proved against a
function of the old state; the results are lemmas about those functions. Reads of the clock,
arrivals from the line, random bytes, signature checks and the answers of the name table are
parameters or arbitrary choices.

## What the code does where a reader may expect otherwise

- A data segment with any number beyond CUR is accepted (`aj_ardp.c` line 898), so a lost segment
  followed by a later one is acknowledged unread: `ArdpNetwork.GapExact` and `GapLosesData`.
- A late acknowledgement takes LCS back (line 867), and a distance of more than SEGMAX is no limit in
  the 16- and 32-bit arithmetic of the window test, so the sender can overrun the receiver's ring and
  the assertion of `AddRcvBuffer` fails: `ArdpStale.StaleLcsExact` and `StaleLcsOverruns`.
- The test for a full frame is not made on an escape pair, so a frame of the greatest length that goes
  on with one is never stopped: `Slip.StreamBoundExact` and `OverrunGrows`.
- The comparison `size >= AJ_NVRAM_GetSizeRemaining()` leaves the entry header out, and is exact
  only because every size is a multiple of four: `CredentialStore.FitsExact`. Setting a key that is
  already stored makes no room for it, and loses the old credential if the new one does not fit.
- A window maximum of three has no code in a negotiation packet, so two ends can be active with
  different windows: `LinkNegotiation.HandshakeCompletes` gives the exact condition.
- A repeated serial packet that is as old as a full window of four is taken for a missing one and
  not acknowledged: `SerialRx.AnswersExact`.
- Length octets that are missing at the end of a DER input read as zero:
  `Der.TruncatedLengthExact`. A domain name that does not fit its buffer is cut off and not
  reported: `MdnsName.CycleIsCutOff`. A name that ends in the root label gets a dot at its end.
- The comment above `AdjustRTT` adds an eighth of the error to seven eighths of the mean; the code
  adds an eighth of the sample. Among equally ranked routing nodes the comment promises equal
  chances; which one is chosen is left open here.
- The round-trip mean wraps for samples of two to the 29 milliseconds and more:
  `ArdpRtt.FirstSampleExact`. The shift in `GetRTO` keeps the low 32 - backoff bits only, so that the
  timeout is below `ARDP_MIN_RTO` when these are too few; a single sample of 131072 milliseconds (a
  base of five times two to the 16) leaves nothing from the sixteenth doubling on:
  `RtoBounds`, `OverflowGivesNothing`.

## Model

| member | source | states |
|---|---|---|
| Ardp.WindowExact | core/ajtcl/src/aj_ardp.c:1004-1033 | the 16- and 32-bit arithmetic of the remote window test is exact iff the peer's LCS is at most SEGMAX behind; otherwise it admits any send |
| Ardp.AcknowledgeExact | core/ajtcl/src/aj_ardp.c:862-867 | an acknowledgement admitted by the range test keeps the send window sound iff it is not for NXT itself |
| Ardp.CutConserves | core/ajtcl/src/aj_ardp.c:1053-1111 | the segments that leave and the bytes left packed concatenate to the input, and a short rest stays only while the message is unfinished |
| Ardp.CutShape | core/ajtcl/src/aj_ardp.c:1058-1079 | every segment but one that ends the message holds exactly MAX_DLEN bytes, and their number is FCNT |
| Ardp.CutAppend | core/ajtcl/src/aj_ardp.c:1058-1074 | cutting does not depend on how the bytes are spread over calls |
| Ardp.SendKeepsWindow | core/ajtcl/src/aj_ardp.c:1004-1108 | a send overruns neither the ring of buffers nor the window the peer has opened |
| Ardp.SendKeepsMessage | core/ajtcl/src/aj_ardp.c:1017-1079 | a send keeps the message counters and never packs bytes where no buffer is free |
| Ardp.MessageContinues | core/ajtcl/src/aj_ardp.c:1014-1111 | each further piece of a message continues the cut of the whole message, and the total never exceeds FCNT segments |
| Ardp.EmitStep | core/ajtcl/src/aj_ardp.c:1053-1111 | sending is sending one full or final buffer and then the rest |
| Ardp.ReceiveKeepsSend | core/ajtcl/src/aj_ardp.c:862-867 | a conforming acknowledgement drops exactly the acknowledged segments from the front and takes over the peer's LCS |
| Ardp.ReceiveKeepsReceive | core/ajtcl/src/aj_ardp.c:889-905 | the next data segment goes to the back of the receive queue, older data changes nothing |
| Ardp.ReadTakesPrefix | core/ajtcl/src/aj_ardp.c:1232-1278 | a read hands out the next unread bytes and keeps the others, across buffers |
| Ardp.ReadFills | core/ajtcl/src/aj_ardp.c:1232-1278 | a read hands out as many bytes as there are and as there is room for |
| Ardp.ReadFrame | core/ajtcl/src/aj_ardp.c:941-954 | a read releases whole segments from the front, moves LCS past them and touches nothing else |
| ArdpEndpoint.RingCount | core/ajtcl/src/aj_ardp.c:702-742 | the number of buffers in flight is NXT - UNA when slot s % SEGMAX carries s exactly for UNA <= s < NXT |
| ArdpEndpoint.SweepRing | core/ajtcl/src/aj_ardp.c:723-741 | clearing every in-flight slot up to the ACK leaves exactly the ring of the segments after it |
| ArdpEndpoint.StoreRing | core/ajtcl/src/aj_ardp.c:772-783 | the slot of the next segment is empty, and storing it keeps slot s % SEGMAX holding s for LCS < s <= CUR |
| ArdpEndpoint.SlotFreeExact | core/ajtcl/src/aj_ardp.c:772-777 | the slot of the next segment is free, as the assertion asks, exactly while fewer than SEGMAX segments wait |
| ArdpEndpoint.ReleaseRing | core/ajtcl/src/aj_ardp.c:941-949 | releasing the slot after LCS leaves the ring of the segments after it |
| ArdpEndpoint.LaunchRing | core/ajtcl/src/aj_ardp.c:1076-1107 | putting segment NXT in flight extends the ring by it |
| ArdpEndpoint.TimerOfUna | core/ajtcl/src/aj_ardp.c:501-513 | the buffer of UNA has a running timer exactly when something is in flight |
| ArdpEndpoint.Connection.constructor | core/ajtcl/src/aj_ardp.c:278-313 | a connection as it is once both SYN exchanges are done and their payload consumed |
| ArdpEndpoint.Connection.SendHeader | core/ajtcl/src/aj_ardp.c:334-354 | puts a segment without data on the wire that carries NXT, CUR, LCS and UNA |
| ArdpEndpoint.Connection.StartMsgSend | core/ajtcl/src/aj_ardp.c:956-972 | a new message begins with nothing sent |
| ArdpEndpoint.Connection.OpenMsg | core/ajtcl/src/aj_ardp.c:1017-1024 | the first call for a message takes over its length and the number it starts with |
| ArdpEndpoint.Connection.FillBuffer | core/ajtcl/src/aj_ardp.c:1059-1107 | one round of the send loop: the buffer is packed, and leaves exactly when it is full or ends the message |
| ArdpEndpoint.Connection.Assemble | core/ajtcl/src/aj_ardp.c:1053-1111 | the send loop puts on the wire exactly the segments cut from the queued and the new bytes |
| ArdpEndpoint.Connection.Send | core/ajtcl/src/aj_ardp.c:984-1114 | the whole call: backpressure or the cut segments, and the record afterwards |
| ArdpEndpoint.Connection.CheckDataTimers | core/ajtcl/src/aj_ardp.c:501-513 | if the timer of UNA is due a pass of the data timer is made, otherwise nothing happens; it fails exactly if that pass gives up |
| ArdpEndpoint.Connection.ResendBuffer | core/ajtcl/src/aj_ardp.c:467-486 | one buffer is resent with fresh ACK, LCS and ACKNXT and unchanged payload |
| ArdpEndpoint.Connection.MoreInFlight | core/ajtcl/src/aj_ardp.c:496 | a pass goes on exactly while the next buffer is in flight and not the first again |
| ArdpEndpoint.Connection.DataTimerHandler | core/ajtcl/src/aj_ardp.c:443-499 | a pass resends UNA .. NXT - 1 once each in order, payloads unchanged; past the timeout it gives up exactly when and where the buffer of UNA has been tried more than five times |
| ArdpEndpoint.Connection.UpdateSndSegments | core/ajtcl/src/aj_ardp.c:702-742 | the sweep with its early exit leaves the ring of the segments after the ACK and the right pending count |
| ArdpEndpoint.Connection.ProcessAck | core/ajtcl/src/aj_ardp.c:859-878 | the acknowledgement part of the machine, on the record and its ring |
| ArdpEndpoint.Connection.AddRcvBuffer | core/ajtcl/src/aj_ardp.c:772-790 | the slot is always free, the segment is stored there, and the read state is set if nothing was being read |
| ArdpEndpoint.Connection.OnSegment | core/ajtcl/src/aj_ardp.c:849-911 | a conforming segment is processed: acknowledgement, probe answer, data |
| ArdpEndpoint.Connection.RecvReady | core/ajtcl/src/aj_ardp.c:941-954 | the slot being read is released, LCS moves to it, and the read state points to slot (LCS + 1) % SEGMAX or to none |
| ArdpEndpoint.Connection.UpdateReadBuffer | core/ajtcl/src/aj_ardp.c:1232-1278 | copies out exactly the next unread bytes, for any room and any length asked for |
| ArdpNetwork.ActionKeeps | core/ajtcl/src/aj_ardp.c:792-921 | every action of one side (start, send, resend, probe, arrival, read) keeps the two-endpoint invariant |
| ArdpNetwork.RunKeeps | core/ajtcl/src/aj_ardp.c:792-1114 | the invariant holds in every state of every run |
| ArdpNetwork.WindowHolds | core/ajtcl/src/aj_ardp.c:772-783 | sndLCS <= LCS <= CUR < NXT <= sndLCS + SEGMAX + 1 between the two sides, so in-order data always finds its slot free |
| ArdpNetwork.NothingRejected | core/ajtcl/src/aj_ardp.c:626-654 | nothing a side ever emitted fails the peer's checks, is taken for expired by it, or acknowledges what it has not sent |
| ArdpNetwork.DeliveryConforms | core/ajtcl/src/aj_ardp.c:881-899 | every timely arrival meets what the machine asserts or relies on, and the expired branch is not reached |
| ArdpNetwork.StreamConserved | core/ajtcl/src/aj_ardp.c:984-1278 | every byte given is read, waiting to be read, in a segment not yet received, or packed; in that order |
| ArdpNetwork.ReaderGetsPrefix | core/ajtcl/src/aj_ardp.c:1232-1278 | what the reader got is a prefix of what the writer gave, whatever was delayed, repeated or lost |
| ArdpNetwork.RunMirrors | core/ajtcl/src/aj_ardp.c:792-1114 | a run seen from the other side is a run, so all results hold in both directions |
| ArdpNetwork.BothReadersGetPrefix | core/ajtcl/src/aj_ardp.c:1232-1278 | so each side's reader has a prefix of what the other side's writer gave |
| ArdpNetwork.LogHoldsGiven | core/ajtcl/src/aj_ardp.c:1014-1111 | the segments sent and the packed bytes are the messages given, concatenated |
| ArdpNetwork.MessageOnWire | core/ajtcl/src/aj_ardp.c:1049-1079 | a finished message left as FCNT consecutive segments numbered from its SOM that concatenate to it |
| ArdpNetwork.GapExact | core/ajtcl/src/aj_ardp.c:897-899 | taking a data segment keeps the receive queue in step with the sender iff no earlier segment is missing |
| ArdpNetwork.GapLosesData | core/ajtcl/src/aj_ardp.c:897-899 | a concrete pair of segments shows the loss: the second is taken and both are acknowledged |
| ArdpStale.RoomExact | core/ajtcl/src/aj_ardp.c:1004-1033 | what one call may send, for any LCS: the buffers of the ring less what the window arithmetic, where it limits at all, takes away |
| ArdpStale.StaleLcsExact | core/ajtcl/src/aj_ardp.c:867 | after any segment of the peer the send window is sound iff its LCS is at most SEGMAX behind the last segment sent, and the next message can overrun the peer's ring iff it is further behind and acknowledged segments are not yet consumed |
| ArdpStale.StaleLcsOverruns | core/ajtcl/src/aj_ardp.c:772-777 | two hosts and a run that breaks only the condition on LCS, at whose end a valid segment in order finds every slot of the receive ring taken |
| ArdpStale.AcknowledgingNxtStrands | core/ajtcl/src/aj_ardp.c:862-865 | an acknowledgement of NXT itself, which the range test admits, leaves the next segment where no acknowledgement of it is admitted and the data timer does not look |
| ArdpFifo.HeadIsTimely | core/ajtcl/src/aj_ardp.c:849-899 | the oldest segment of a first-in first-out channel always meets the two conditions |
| ArdpFifo.EventRefines | core/ajtcl/src/aj_ardp.c:792-1114 | every event on such channels is a step of the network model or loses an acknowledgement, and keeps the channels sound |
| ArdpFifo.FifoRunKeeps | core/ajtcl/src/aj_ardp.c:792-1114 | channel and network invariants hold over every run on such channels |
| ArdpFifo.FifoRefines | core/ajtcl/src/aj_ardp.c:792-1114 | every run on such channels is a run of the network model |
| ArdpFifo.ArrivalsConform | core/ajtcl/src/aj_ardp.c:582-899 | whatever arrives, in either direction, passes the checks and meets what the machine asserts |
| ArdpFifo.FifoWindowsHold | core/ajtcl/src/aj_ardp.c:772-783 | consumed, received and sent are in order and within SEGMAX of each other, in both directions |
| ArdpFifo.FifoReadersGetPrefix | core/ajtcl/src/aj_ardp.c:1232-1278 | each side's reader has a prefix of what the other side's writer gave |
| ArdpFifo.DrainedMeansDelivered | core/ajtcl/src/aj_ardp.c:889-905 | an empty channel means everything sent has been received |
| ArdpProgress.PassRepairs | core/ajtcl/src/aj_ardp.c:443-499 | whatever was lost before, a delivered pass of the data timer brings the receiver up to the last segment sent |
| ArdpProgress.PassDelivers | core/ajtcl/src/aj_ardp.c:443-499 | after it everything given has been read or can be, but for the packed bytes |
| ArdpProgress.AcknowledgementTells | core/ajtcl/src/aj_ardp.c:334-354 | an acknowledgement sent now leaves the other side with exactly the segments not yet received in flight |
| ArdpProgress.AcknowledgementOpensWindow | core/ajtcl/src/aj_ardp.c:1004-1033 | and with a window of all but the segments not yet consumed |
| ArdpProgress.EmissionTells | core/ajtcl/src/aj_ardp.c:315-354 | every segment a side puts on the wire, sent for the first time, sent again, probe or answer, leaves its peer with its LCS and with exactly what it has not received in flight |
| ArdpProgress.RunTells | core/ajtcl/src/aj_ardp.c:443-499 | so it is in every state of every run |
| ArdpProgress.ProbeAnswered | core/ajtcl/src/aj_ardp.c:888-891 | a probe that arrives is answered at once, and nothing else is, by a segment that tells the prober all that was received and consumed |
| ArdpWire.ReadsBack | core/ajtcl/src/aj_ardp.c:315-332 | every header field and the payload are read back as they were marshalled, numbers modulo 2^32 |
| ArdpWire.LengthsExact | core/ajtcl/src/aj_ardp.c:582-612 | what the flags and lengths of a datagram decide: reset, bad data, SYN or a segment of its declared size |
| ArdpWire.ChecksAgree | core/ajtcl/src/aj_ardp.c:626-654 | the 32-bit sequence checks are the checks on plain numbers wherever in the number space they are, as long as those compared are less than half of it apart |
| ArdpWire.ValidateExact | core/ajtcl/src/aj_ardp.c:582-657 | a marshalled segment with such numbers is accepted, field for field modulo 2^32, iff they pass the sequence checks |
| ArdpWire.EmittedIsAccepted | core/ajtcl/src/aj_ardp.c:582-657 | in every run, from any initial numbers, what one side emitted is accepted by the other exactly while its ACK is less than half the number space old |
| ArdpWire.TimelyIsAccepted | core/ajtcl/src/aj_ardp.c:582-657 | a timely segment is always accepted, after any number of wraps |
| ArdpWire.ShortRunIsAccepted | core/ajtcl/src/aj_ardp.c:582-657 | so is every segment, however late, while the other side has sent less than half a number space; exactly as sent if no number has wrapped |
| ArdpWire.ArrivalsAreAccepted | core/ajtcl/src/aj_ardp.c:582-657 | over first-in first-out channels every arriving datagram is accepted, in both directions and in runs of any length |
| Seq32.LtExact | core/ajtcl/src/aj_ardp.c:245-246 | the comparison macro survives wrap-around iff the numbers are less than half the number space apart |
| Seq32.InRangeExact | core/ajtcl/src/aj_ardp.c:253-254 | the range macro survives wrap-around for any number less than a number space away |
| Seq32.RingStepExact | core/ajtcl/src/aj_ardp.c:298-304 | the next number is in the next ring slot except where the number wraps, since SEGMAX is five |
| ArdpRtt.RttState.AdjustRTT | core/ajtcl/src/aj_ardp.c:670-700 | the estimate after a sample, in 32-bit arithmetic, and the back-off cleared |
| ArdpRtt.RttState.GetRTO | core/ajtcl/src/aj_ardp.c:434-441 | the timeout is at most the maximum; it is the doubled base, or the other side's delay if that is more, and at least the minimum while the shift does not overflow; and it is below the minimum exactly when the bits the shift keeps and that delay are |
| ArdpRtt.AdjustMoves | core/ajtcl/src/aj_ardp.c:682-692 | a sample draws the mean an eighth and the deviation a quarter of the way, or a thirty-second if it is far below the mean |
| ArdpRtt.RunStaysBounded | core/ajtcl/src/aj_ardp.c:670-694 | over any run of samples in [m, R] with R below two to the 29 the mean stays in [m, R] and the deviation at most R |
| ArdpRtt.FirstSampleExact | core/ajtcl/src/aj_ardp.c:676-686 | that bound is exact: a larger first sample is not its own mean |
| ArdpRtt.RtoBounds | core/ajtcl/src/aj_ardp.c:434-441 | never above the maximum; below the minimum exactly when the other side asks for less and the low 32 - b bits of the base, shifted by b, are too few; from the seventh doubling on that is when the base is a multiple of two to the 32 - b |
| ArdpRtt.RtoBacksOff | core/ajtcl/src/aj_ardp.c:436-440 | backing off further never shortens the timeout while the shift does not overflow |
| ArdpRtt.BoundedRunBacksOffSafely | core/ajtcl/src/aj_ardp.c:434-441 | samples below two to the k leave room for 29 - k doublings within the bounds |
| ArdpRtt.OverflowGivesNothing | core/ajtcl/src/aj_ardp.c:437 | a single sample of 131072 milliseconds: from the sixteenth doubling on the timeout is what the other side asks for, and zero if that is zero |
| Slip.DecodeAppend | core/ajtcl/src/aj_serial_rx.c:491-581 | the frames found do not depend on how the stream is cut into calls |
| Slip.FrameDecodes | core/ajtcl/src/aj_serial_rx.c:495-575 | what each decoder state makes of one well-formed frame |
| Slip.SelfSynchronises | core/ajtcl/src/aj_serial_rx.c:495-575 | from any decoder state exactly the first of a stream of frames is lost, and only if the decoder was inside one |
| Slip.RecoversFromJunk | core/ajtcl/src/aj_serial_rx.c:495-575 | after any junk every frame but the first comes out byte for byte, behind at most one frame of junk |
| Slip.FramesWereSent | core/ajtcl/src/aj_serial_rx.c:495-575 | every frame passed on was in the stream, stuffed, between two boundaries |
| Slip.BoundExact | core/ajtcl/src/aj_serial_rx.c:522-571 | one byte takes the frame beyond maxRxFrameSize exactly if it completes an escape pair when that is reached |
| Slip.StreamBoundExact | core/ajtcl/src/aj_serial_rx.c:495-575 | from a decoder outside a frame the bound holds all along a stream iff the stream holds no frame of the greatest length that goes on with one more escape pair |
| Slip.OverrunGrows | core/ajtcl/src/aj_serial_rx.c:522-571 | such a frame passes the test by and then grows with every byte, without limit |
| Slip.SentStaysWithin | core/ajtcl/src/aj_serial_rx.c:495-575 | frames no longer than the greatest stay within the bound, whatever state they find the decoder in |
| Crc16.Compute | core/ajtcl/src/aj_crc16.c:43-53 | the loop computes the table-driven CRC of the buffer |
| Crc16.CrcAppend | core/ajtcl/src/aj_crc16.c:43-53 | the running CRC may be carried from buffer to buffer |
| Crc16.TableIsShifted | core/ajtcl/src/aj_crc16.c:23-40 | every entry of the table is its index shifted eight times with polynomial 0x8408 |
| Crc16.StepIsBitwise | core/ajtcl/src/aj_crc16.c:49-51 | one table step is eight steps of the bit-by-bit register |
| Crc16.CrcIsBitwise | core/ajtcl/src/aj_crc16.c:43-53 | the CRC of every buffer from every start value is the bit-by-bit one |
| Crc16.BurstDetected | core/ajtcl/src/aj_crc16.c:43-53 | a change within sixteen consecutive bits, anywhere in a message of any length, changes the CRC |
| Crc16.TwoBytesDetected | core/ajtcl/src/aj_crc16.c:43-53 | so does a change within two adjacent bytes |
| Crc16.Complete | core/ajtcl/src/aj_crc16.c:56-62 | writes the two CRC bytes, each with its bits reversed, and nothing else |
| Crc16.TrailerInjective | core/ajtcl/src/aj_crc16.c:56-62 | different CRCs are sent as different bytes |
| Crc16.LastByteShows | core/ajtcl/src/aj_crc16.c:49-51 | a change of the last byte always shows in the high half of the CRC |
| SerialRx.DamageRejected | core/ajtcl/src/aj_serial_rx.c:386-400 | a change within two adjacent bytes anywhere in a frame, CRC included, makes CompletePacket drop it |
| SerialRx.FrameReadsBack | core/ajtcl/src/aj_serial_tx.c:501-562 | what the sender builds passes every check and is read back field by field |
| SerialRx.TakeConserves | core/ajtcl/src/aj_serial_rx.c:314-344 | a read takes exactly what it can of the queued bytes, in order, and leaves the rest |
| SerialRx.PoolIsPartitioned | core/ajtcl/src/aj_serial_rx.c:203-249 | every packet of the pool is on exactly one of the three lists |
| SerialRx.FrameIsFaithful | core/ajtcl/src/aj_serial_rx.c:442-481 | any frame keeps: numbers taken run 0, 1, .. 7, 0, .., and what was returned and what is queued concatenate to what was taken |
| SerialRx.ReadIsFaithful | core/ajtcl/src/aj_serial_rx.c:314-344 | any read keeps the same |
| SerialRx.AnswersExact | core/ajtcl/src/aj_serial_rx.c:442-478 | when a packet is taken and when it is acknowledged, in terms of its true number and the window |
| SerialRx.FramesQueue | core/ajtcl/src/aj_serial_rx.c:442-478 | frames in sequence, with room for them, queue their payloads in order |
| SerialRx.LineDelivers | core/ajtcl/src/aj_serial_rx.c:365-581 | framed data in sequence reaches the queue from any decoder state that is not inside a frame |
| SerialRx.ControlAnswered | core/ajtcl/src/aj_serial_rx.c:424-427 | a control frame gives the link the parameters and the transmit side the answers that its packet calls for, in order, and does not touch the data side |
| SerialRx.ControlReadsBack | core/ajtcl/src/aj_serial_rx.c:386-427 | the frame that the sender builds of a link packet is such a control frame |
| SerialRx.Receive.constructor | core/ajtcl/src/aj_serial_rx.c:183-256 | an empty pool of maxWindowSize + 1 packets, one of them current |
| SerialRx.Receive.CompletePacket | core/ajtcl/src/aj_serial_rx.c:365-482 | the frame is checked, dispatched or queued, and the pool lists stay a partition |
| SerialRx.Receive.ReceiveByte | core/ajtcl/src/aj_serial_rx.c:495-575 | one byte of the decoder, which asks for the byte again after a bad escape |
| SerialRx.Receive.RxComplete | core/ajtcl/src/aj_serial_rx.c:491-581 | the byte loop ends, and handles exactly the frames that decoding the buffer gives |
| SerialRx.Receive.ProcessRxBufferList | core/ajtcl/src/aj_serial_rx.c:583-617 | chunks of the line are decoded in order while a packet is free |
| SerialRx.DrainExact | core/ajtcl/src/aj_serial_rx.c:583-617 | however the line was cut into chunks, some first ones are decoded as one stream and the rest waits only if no packet is free |
| SerialRx.Receive.ReleaseHead | core/ajtcl/src/aj_serial_rx.c:329-337 | a packet read to its end goes from the queue to the free list |
| SerialRx.Receive.TrimHead | core/ajtcl/src/aj_serial_rx.c:339-343 | a packet read in part keeps the rest of its payload |
| SerialRx.Receive.TakeQueued | core/ajtcl/src/aj_serial_rx.c:314-344 | the inner loop returns exactly the next bytes of the queue |
| SerialRx.Receive.Turn | core/ajtcl/src/aj_serial_rx.c:309-348 | one turn of its loop: the queued bytes are taken and then what has arrived is decoded |
| SerialRx.TurnExact | core/ajtcl/src/aj_serial_rx.c:309-348 | a turn of a read takes its bytes, and what has arrived joins what waited on the line |
| SerialRx.Receive.Recv | core/ajtcl/src/aj_serial_rx.c:294-358 | a read of any size under any timing takes and decodes in turns until it is filled, late or the link is dead; what it returns, what it leaves and its status are determined by the rounds, the status both ways |
| SerialRx.ServeEnds | core/ajtcl/src/aj_serial_rx.c:309-353 | a read ends with its request filled, its deadline passed or its link dead |
| SerialRx.Receive.Reset | core/ajtcl/src/aj_serial_rx.c:272-292 | all queued packets are free again and numbering starts over |
| SlapWindow.WindowDecides | core/ajtcl/src/aj_serial_rx.c:448 | numbers less than a window apart are told apart modulo eight for windows up to seven |
| SlapWindow.ReleaseExact | core/ajtcl/src/aj_serial_tx.c:572-612 | an acknowledgement releases exactly the sent packets it covers |
| SlapWindow.TakenInOrder | core/ajtcl/inc/aj_serial_tx.h:64-69 | over a line that loses anything but keeps order, every packet is taken once and in order |
| SlapWindow.CanDeliverAll | core/ajtcl/inc/aj_serial_tx.h:64-69 | after any run, whatever was lost, every packet that has been queued can still be taken and released |
| SlapWindow.EightRepeats | core/ajtcl/inc/aj_serial.h:142 | with a window of eight a resent packet is taken for a new one |
| SlapWindow.RepeatAnsweredExact | core/ajtcl/src/aj_serial_rx.c:449-454 | a repeated packet is acknowledged exactly if it is younger than eight minus the window |
| SlapWindow.NewestRepeatAnswered | core/ajtcl/inc/aj_serial.h:42-43 | with the largest configured window only the oldest packet of a full window is not |
| SlapStream.FrameKeeps | core/ajtcl/src/aj_serial_rx.c:442-478 | each arriving frame extends the queue by its payload exactly if it is the next packet and there is room |
| SlapStream.SessionConserves | core/ajtcl/src/aj_serial_rx.c:294-481 | from the packets the sender fills to the bytes read, over a line that loses and damages frames: read, queued and not yet taken make up what was given, and what was read is a prefix of it |
| SlapControl.FramesRefine | core/ajtcl/src/aj_serial_rx.c:365-427 | whatever two receivers do with control frames is a run of the handshake between their links |
| SlapControl.FramesFor | core/ajtcl/src/aj_serial_rx.c:365-427 | and every run of the handshake can be carried by frames |
| SlapControl.HandshakeOverFrames | core/ajtcl/src/aj_serial_rx.c:365-427 | two receivers with any valid configurations can make their links active by exchanging frames, from any state in which no end has gone down |
| LinkNegotiation.LinkParameters.ProcessNegoPacket | core/ajtcl/src/aj_serial.c:127-169 | size, version and window converge on what the packet offers |
| LinkNegotiation.LinkParameters.SendNegotiationPacket | core/ajtcl/src/aj_serial.c:171-207 | one more packet is queued: of the kind asked for, from which size, version modulo 64 and window, as far as its code can say it, are read back |
| LinkNegotiation.LinkParameters.LinkPacket | core/ajtcl/src/aj_serial.c:301-386 | the state switch: new parameters and the answers queued |
| LinkNegotiation.LinkParameters.SendLinkPacket | core/ajtcl/src/aj_serial.c:214-254 | what the link timer queues in each state |
| LinkNegotiation.NegotiationReadsBack | core/ajtcl/src/aj_serial.c:127-207 | size, version modulo 64 and kind are read back as sent, the window as far as its code can say it |
| LinkNegotiation.WindowCodes | core/ajtcl/src/aj_serial.c:144-203 | the code of a window is its binary logarithm, but that of eight is read as three |
| LinkNegotiation.ConvergeSettles | core/ajtcl/src/aj_serial.c:127-169 | one negotiation packet of the peer, however old, settles an endpoint for good |
| LinkNegotiation.ActiveMeansAgreed | core/ajtcl/src/aj_serial.c:301-386 | over lines that lose, repeat and reorder, an active end means the other holds the agreed values, and two active ends hold the same size and version, each the minimum |
| LinkNegotiation.WindowAgreesExact | core/ajtcl/src/aj_serial.c:140-168 | for all allowed maxima, when the two windows are equal and when they are the minimum |
| LinkNegotiation.ActiveMeansSameWindow | core/ajtcl/src/aj_serial.c:301-386 | with maxima of one, two or four two active ends hold the smaller window |
| LinkNegotiation.HandshakeCompletes | core/ajtcl/src/aj_serial.c:214-386 | any two valid configurations can become active, and then their windows differ exactly under the stated condition |
| LinkNegotiation.HandshakeFromAnywhere | core/ajtcl/src/aj_serial.c:214-386 | after any run in which no end has gone down, whatever was lost, repeated or reordered, the handshake can still be completed |
| LinkNegotiation.ConnAnswers | core/ajtcl/src/aj_serial.c:315-358 | CONN is accepted in the first two states, kills an active link, and is ignored after that |
| LinkNegotiation.AcptAnswers | core/ajtcl/src/aj_serial.c:317-321 | ACPT makes an end that waits for it propose its own size, version and window; others ignore it |
| LinkNegotiation.NegoAnswers | core/ajtcl/src/aj_serial.c:333-352 | NEGO is answered in the middle two states with the lesser sizes, versions and windows, which the end then holds; others ignore it |
| LinkNegotiation.NrspAnswers | core/ajtcl/src/aj_serial.c:336-342 | NRSP makes an initialized end active and does nothing else |
| LinkNegotiation.DisconnectAnswers | core/ajtcl/src/aj_serial.c:359-378 | DISC and DRSP take an active link down in two steps and are ignored before that |
| LinkNegotiation.OthersIgnored | core/ajtcl/src/aj_serial.c:275-311 | any other packet changes nothing and is not answered |
| LinkNegotiation.TimerSpeaks | core/ajtcl/src/aj_serial.c:214-254 | what the timer says in each state, with the parameters that its proposal carries |
| LinkNegotiation.DisconnectCompletes | core/ajtcl/src/aj_serial.c:345-374 | a disconnect is announced, answered and ends the link of the side that asked |
| LinkNegotiation.GiveUpEnds | core/ajtcl/src/aj_serial.c:499-520 | a disconnect that is never answered ends the link all the same |
| LinkNegotiation.StateNeverRegresses | core/ajtcl/src/aj_serial.c:301-386 | no action of either end moves a link state backwards |
| AccessControl.CommonPath | core/ajtcl/src/aj_authorisation.c:1431-1454 | a pattern matches by its text before a wildcard or as the whole name, and the name ends where the description says |
| AccessControl.WordExact | core/ajtcl/src/aj_authorisation.c:1431-1454 | a pattern without a wildcard matches a description exactly if it is the whole name there, before a space or an access mark as the kind asks |
| AccessControl.WildcardExact | core/ajtcl/src/aj_authorisation.c:1436-1440 | a pattern with a wildcard matches exactly what begins with its text before it |
| AccessControl.MemberExact | core/ajtcl/src/aj_authorisation.c:1456-1500 | a rule member without a wildcard applies to a method, signal or property exactly if it names it and is for its kind or for any |
| AccessControl.RuleExact | core/ajtcl/src/aj_authorisation.c:1484-1497 | objects and interfaces are matched by their whole names, the security mark of an interface aside |
| AccessControl.GrantsExact | core/ajtcl/src/aj_authorisation.c:1502-1533 | the bits set for a member are exactly what its actions grant for its kind |
| AccessControl.ActionsExact | core/ajtcl/src/aj_authorisation.c:1502-1533 | which action of a rule lets which message or property access pass in which direction |
| AccessControl.RulesBitsExact | core/ajtcl/src/aj_authorisation.c:1496-1545 | the bits collected over all rules are the union of what matching members grant |
| AccessControl.PermissionPeerFind | core/ajtcl/src/aj_authorisation.c:1699-1724 | finds a peer entry of the type exactly if one matches |
| AccessControl.AccessTable.Reset | core/ajtcl/src/aj_authorisation.c:488-508 | clears one peer's entries and nothing else |
| AccessControl.AccessTable.RuleAccess | core/ajtcl/src/aj_authorisation.c:1474-1548 | the nested loops give the bits of the rules and record an explicit denial, if one applies |
| AccessControl.AccessTable.FindPeer | core/ajtcl/src/aj_authorisation.c:1748-1767 | whether an ACL covers the peer, and whether by the peer's own key |
| AccessControl.CoversExact | core/ajtcl/src/aj_authorisation.c:1748-1767 | a peer is covered by an entry for all, by one for any trusted peer unless it is anonymous, and with ECDSA by one for its own key or one for an issuer |
| AccessControl.DenialExact | core/ajtcl/src/aj_authorisation.c:1520-1545 | rules deny a member exactly if one of their members stands for everything of its kind and allows nothing |
| AccessControl.AccessTable.ApplyAcl | core/ajtcl/src/aj_authorisation.c:1768-1783 | one covering ACL on every member, for one peer |
| AccessControl.AccessTable.PolicyApply | core/ajtcl/src/aj_authorisation.c:1726-1785 | all ACLs of a loaded policy, for one peer |
| AccessControl.AccessTable.ManifestApply | core/ajtcl/src/aj_authorisation.c:1661-1673 | a manifest sets the upper bits its rules give and denies nothing |
| AccessControl.AccessTable.ManifestArrayApply | core/ajtcl/src/aj_authorisation.c:1678-1697 | all manifests that verify, in order, the others passed over |
| AccessControl.AccessTable.Find | core/ajtcl/src/aj_authorisation.c:247-263 | the first member with the id |
| AccessControl.AccessTable.CheckMessage | core/ajtcl/src/aj_authorisation.c:378-402 | succeeds iff the first member with the id has no denial and both bits of the direction |
| AccessControl.AccessTable.CheckProperty | core/ajtcl/src/aj_authorisation.c:404-483 | the same for reading and writing a property |
| AccessControl.PolicyExact | core/ajtcl/src/aj_authorisation.c:1748-1785 | denial and policy bits after a policy, read declaratively |
| AccessControl.ManifestsExact | core/ajtcl/src/aj_authorisation.c:1661-1673 | manifests add exactly the upper bits that some verified one grants |
| AccessControl.DecisionExact | core/ajtcl/src/aj_authorisation.c:384-398 | a check passes iff there is no explicit denial, some covering ACL grants it and, with ECDSA, some manifest does |
| AccessControl.TableDecides | core/ajtcl/src/aj_authorisation.c:347-508 | after reset, policy and manifests the table decides exactly as the declarative reading |
| AccessControl.OthersUntouched | core/ajtcl/src/aj_authorisation.c:1661-1785 | no other peer's entries change, nor any answer about another peer |
| AccessControl.OrderIrrelevant | core/ajtcl/src/aj_authorisation.c:1748-1785 | the answers of the table depend neither on the order nor on the repetition of ACLs, manifests, peers, rules and members |
| AccessControl.RuleOrderIrrelevant | core/ajtcl/src/aj_authorisation.c:1496-1545 | what rules grant and deny does not depend on their order and repetition, nor on that of their members |
| CredentialStore.ViewExact | core/ajtcl/src/aj_creds.c:151-230 | slots without duplicate keys are a map from type and id to expiration and data |
| CredentialStore.ViewUpdates | core/ajtcl/src/aj_creds.c:297-331 | the map after one slot is written or emptied |
| CredentialStore.CostExact | core/ajtcl/src/aj_creds.c:126-136 | what a credential takes of the NVRAM: header, numbers, id and data, rounded up to a multiple of four |
| CredentialStore.FitsExact | core/ajtcl/src/aj_creds.c:381-386 | the test for room, made without the header, is exact |
| CredentialStore.Store.FindEmptySlot | core/ajtcl/src/aj_creds.c:138-149 | an empty slot, or none if there is none |
| CredentialStore.Store.Find | core/ajtcl/src/aj_creds.c:151-230 | the slot of a key exactly if the map has it |
| CredentialStore.Store.DeleteOldest | core/ajtcl/src/aj_creds.c:232-295 | drops a generic credential that expires no later than any other generic one, exactly if there is one |
| CredentialStore.Store.Write | core/ajtcl/src/aj_creds.c:297-331 | the old entry goes, and the new one is stored exactly if it fits then |
| CredentialStore.Store.Set | core/ajtcl/src/aj_creds.c:367-396 | afterwards the key has the value or is gone, nothing else is added, only oldest generic credentials went, and it succeeds exactly when it can |
| CredentialStore.Store.Overwrite | core/ajtcl/src/aj_creds.c:375-393 | setting a stored key replaces it or, if it does not fit, loses it |
| CredentialStore.Store.Get | core/ajtcl/src/aj_creds.c:398-402 | gives what the map holds, unless the caller's buffer is too small |
| CredentialStore.Store.SetThenGet | core/ajtcl/src/aj_creds.c:367-402 | a credential that has been set is read back by any caller with room for it |
| CredentialStore.Store.Delete | core/ajtcl/src/aj_creds.c:560-569 | removes the key and nothing else |
| CredentialStore.Store.Clear | core/ajtcl/src/aj_creds.c:582-616 | removes all credentials of a type, or all |
| MdnsName.Parse | core/ajtcl/src/aj_disco.c:529-591 | ends on every packet, reads inside the payload, writes inside the name, and leaves the expanded name with zeros behind it |
| MdnsName.PointerFollowed | core/ajtcl/src/aj_disco.c:547-563 | a pointer to any offset below 2^14 leads there if a label stands there and is refused otherwise |
| MdnsName.LabelWritten | core/ajtcl/src/aj_disco.c:564-586 | any other octet is the length of a label, which is written behind a dot if it fits |
| MdnsName.RootEnds | core/ajtcl/src/aj_disco.c:564-589 | the root label ends the name, with a dot |
| MdnsName.SpelledIsExpanded | core/ajtcl/src/aj_disco.c:544-589 | a name that the packet spells through labels and jumps, and that fits, is written label by label |
| MdnsName.ExpandedIsSpelled | core/ajtcl/src/aj_disco.c:544-589 | whatever is written to its end was spelled by the packet and fits |
| MdnsName.ProperNameJoins | core/ajtcl/src/aj_disco.c:573-585 | the text is the labels joined by dots, and it fits exactly when that is shorter than the buffer |
| MdnsName.NameOfPacket | core/ajtcl/src/aj_disco.c:529-591 | a proper name that ends in the root is parsed to its labels joined by dots, with a dot at the end |
| MdnsName.WalkExpands | core/ajtcl/src/aj_disco.c:544-589 | labels and jumps are followed to where they lead, or the name is cut off where it no longer fits |
| MdnsName.CycleIsCutOff | core/ajtcl/src/aj_disco.c:544-589 | any name that leads into a cycle, in any packet, ends when the buffer is full, and is not reported |
| Der.DecodeLength | core/ajtcl/src/aj_cert.c:71-101 | the content of the declared length, and the input standing at it |
| Der.DecodeElement | core/ajtcl/src/aj_cert.c:127-161 | tag check, length and the step over the content |
| Der.DecodeElements | core/ajtcl/src/aj_cert.c:163-198 | one element after another for the tags wanted, failing if any is left |
| Der.ElementReadsBack | core/ajtcl/src/aj_cert.c:127-161 | an element encoded with the tag asked for, or with that and the constructed flag, is decoded to its content whatever follows |
| Der.ElementsReadBack | core/ajtcl/src/aj_cert.c:163-198 | a list of elements encoded with the universal or context-specific octets asked for, constructed or not, is decoded to exactly its contents, leaving exactly the rest |
| Der.SplitsInput | core/ajtcl/src/aj_cert.c:127-161 | a success cuts the input into a header of two to ten octets that begins with the tag, or the tag with the constructed flag, the content and a strictly shorter rest |
| Der.ElementsLieInOrder | core/ajtcl/src/aj_cert.c:163-198 | the contents lie in the input one behind the other, each behind a header of two to ten octets with the tag wanted; a success leaves what follows the last |
| Der.TruncatedLengthExact | core/ajtcl/src/aj_cert.c:82-97 | if the input ends inside the length octets, decoding succeeds exactly when those present are zero |
| X509Chain.VerifyChain | core/ajtcl/src/aj_cert.c:918-985 | accepts exactly the chains that meet the quantified specification of signatures, names, CA flags, AKI, usages and leaf type |
| X509Chain.ChainExact | core/ajtcl/src/aj_cert.c:918-985 | that specification, certificate by certificate |
| X509Chain.AkiPresent | core/ajtcl/src/aj_cert.c:931-957 | below the root an accepted chain for an identity, a membership or both has an AKI everywhere |
| X509Chain.WithoutAkiExact | core/ajtcl/src/aj_cert.c:931-957 | without any AKI a chain is accepted exactly if it otherwise would be and is a single certificate or for another type |
| X509Chain.UsagesNest | core/ajtcl/src/aj_cert.c:949-953 | in an accepted chain no certificate has a usage that any certificate above it lacks |
| X509Chain.ChainSuitsKind | core/ajtcl/src/aj_cert.c:948-977 | the type asked of the leaf is a usage of every certificate, and none is an invalid one |
| X509Chain.SignedFromKey | core/ajtcl/src/aj_cert.c:937-982 | every certificate is signed by a CA of the chain whose subject is its issuer, or by the given key |
| X509Chain.ReverseChain | core/ajtcl/src/aj_cert.c:1123-1134 | the same nodes, linked the other way round, in place |
| X509Chain.ReversedTwice | core/ajtcl/src/aj_cert.c:1123-1134 | reversing twice restores the order |
| X509Chain.MarshalNodes | core/ajtcl/src/aj_cert.c:1014-1021 | the certificates of the list in order, up to the first that cannot be marshalled |
| X509Chain.ChainMarshal | core/ajtcl/src/aj_cert.c:998-1030 | the certificates go out from the end entity to the root and the list is afterwards as it was, whether that succeeded or not |
| ResponseList.RoutingNodes.Add | core/ajtcl/src/aj_connect.c:648-741 | a listed service is updated, a new one added, or put in place of the worst entry exactly if it is better |
| ResponseList.RoutingNodes.Select | core/ajtcl/src/aj_connect.c:743-851 | selects an entry not tried before that no other such entry is better than, and reports an empty or a used-up list |
| ResponseList.KnownServiceUpdates | core/ajtcl/src/aj_connect.c:671-691 | a response that shares an address with a listed entry brings a newer version with its priority, the priority of the same version, and nothing else |
| ResponseList.NewServiceAdds | core/ajtcl/src/aj_connect.c:692-741 | any other response is added while there is room, and then replaces a worst entry exactly if that is older or of the same version and a higher priority value |
| ResponseList.SelectedIsBest | core/ajtcl/src/aj_connect.c:743-836 | of the entries not tried none is newer than the selected one, and none of its version has a lower priority value |
| ResponseList.AddKeepsBest | core/ajtcl/src/aj_connect.c:648-741 | one response keeps: a service heard from but not listed is no better than any listed one |
| ResponseList.ListHoldsBest | core/ajtcl/src/aj_connect.c:648-741 | so it is after any sequence of responses, for a list of any length, if each service keeps one rank |
| ResponseList.SelectionDescends | core/ajtcl/src/aj_connect.c:743-851 | repeated selection never returns an entry twice and never a better one after a worse one |
| ResponseList.SelectionIsComplete | core/ajtcl/src/aj_connect.c:837-851 | when nothing is left every entry has been selected exactly once |
| ResponseList.SelectionExtends | core/ajtcl/src/aj_connect.c:743-851 | a selection made with the attempt marks of the earlier ones continues them, and so do its marks |
| ResponseList.SelectionEnds | core/ajtcl/src/aj_connect.c:837-851 | so repeated selection from a fresh list, until it reports the end, has returned every entry exactly once |

## Left out

- The connect phase, CLOSE_WAIT, message expiry on the send side and `FlushExpiredRcvMessages` (not reached between conforming endpoints) of ARDP; the peer's SEGMAX is taken to be the compiled value, and a failing send function ends the run.
- Delayed-acknowledgement and probe timers of ARDP: a probe or an acknowledgement may be sent at any time.
- Ardp.SendKeepsWindow: callers give each message exactly as many bytes as its header announces, in non-empty calls, as `AJ_ARDP_Send` does.
- ArdpEndpoint.Connection.StartMsgSend: callers finish a message before they start the next.
- ArdpEndpoint.Connection.OnSegment: covers conforming segments; what a gap, an acknowledgement of NXT or a stale LCS does is stated on the value, in `Ardp.AcknowledgeExact`, `ArdpNetwork.GapExact` and `ArdpStale.StaleLcsExact`.
- ArdpEndpoint.Connection.Send: ring slots are chosen by plain numbers; `Seq32.RingStepExact` says where 32-bit numbers differ.
- ArdpRtt.RttState.GetRTO: back-offs of 32 and more are outside, because the shift is not defined in C; the per-unit mean used for message expiry is not part of this model.
- Crc16.Complete: the receive path compares with the function of the CRC that this method is proved to write.
- SerialRx.Receive.constructor: a packet size of zero, which the source refuses, is outside; allocation does not fail.
- SerialRx.Receive.TrimHead: the move copies the frame's own bytes; the source also moves four bytes that lie behind them.
- Buffers of the serial line are sequences, so a frame that outgrows its buffer is kept whole; `Slip.StreamBoundExact` says when that happens.
- A NEGO packet shorter than seven octets reads the octets it lacks as zero.
- SlapWindow.TakenInOrder: the sender is taken as the header file describes it (acknowledgements release, everything unacknowledged is resent in order); the queue surgery of `ResendPackets` is not modelled.
- SlapStream.SessionConserves: the link stays active, and a damaged frame is one that fails the checks; `SerialRx.DamageRejected` says which damage always does.
- The transmit queue, the interrupt callbacks and the timers of the serial link.
- LinkNegotiation.ActiveMeansAgreed: protocol versions below 64 and window maxima from one to four, which is what the packet format and `AJ_SerialInit` allow.
- Access control without a policy, `AJ_MembershipApply`, the Properties interface check and the registration of objects; the checks of a manifest's thumbprint and signature are one Boolean.
- Names in rules and descriptions are character strings that are present; absent ones, which never match, are not modelled.
- CredentialStore.Store.Set: ids are given, reads and writes of NVRAM succeed, and a credential is smaller than 65536 bytes in all, because the size is computed in 16 bits.
- X509Chain.ChainMarshal: opening and closing the array of certificates does not fail.
- Secure deletion, the local GUID and the other users of NVRAM, whose space is a constant.
- The consumed size that the domain name parser returns, and the rest of the packet parser.
- ECDSA and SHA-256, the fields of certificates other than those the chain check reads, and PEM.
- ResponseList.RoutingNodes.Add: services have an address; one without would be stored as a slot that counts as empty.
- A new routing node takes over the attempt mark of the slot it is put into; selection is stated between additions. The blacklist is not part of this model.
