# Verified model of the modal-pipe library and the TFLite vision server

libmodal-pipe lets a server process publish data to many clients through named
pipes; voxl-tflite-server is a camera client built on it that runs a neural
network on every frame and publishes what it sees. This project models the parts
of both where several functions, threads or processes have to agree, and proves
what they agree on.

| file | what it models |
|---|---|
| `ClientTable.dfy` | the server's table of sixteen client slots: first-fit slots, the duplicate check, disconnects, the count kept as a high-water mark |
| `FramedPipe.dfy`, `PipeRecovery.dfy`, `Messages.dfy`, `PipeEnds.dfy` | one data pipe: list writes that fit or are refused, and the helper thread that cuts the byte stream back into (metadata, payload) messages |
| `PacketStream.dfy` | a pipe of fixed-size packets, the simple helper and the packet validator |
| `EncodedGate.dfy`, `EncodedStream.dfy` | H.264/H.265 channels: the cached header, the gate that holds P frames back, and the separate writes of metadata and payload |
| `BitMask.dfy`, `IonBufPool.dfy`, `IonBufRuns.dfy` | the ION buffer pool: client masks, reference counts, generation stamps, oldest-first reuse |
| `Boxes.dfy`, `Nms.dfy`, `NmsTies.dfy`, `YoloDecode.dfy`, `YoloPostprocess.dfy` | YOLOv5 postprocessing: overlap of boxes, greedy suppression, decoding of the output tensor, and the three together |
| `Pipeline.dfy`, `PipelineWorkers.dfy` | the camera callback and the three worker threads with their ring, queues, flag and shared buffers |
| `ResizeTable.dfy`, `Resize.dfy` | the bilinear lookup table and the two resize loops, in exact fractions |
| `PipeSize.dfy` | the suggested pipe size |
| `PathExpand.dfy` | expansion of pipe names and locations to directories |
| `Prelude.dfy` | shared vocabulary |

## How to read it

Where the original runs concurrently the model is a state with a `Next` relation,
a step being what one thread does under its lock or between two points where
another thread can interfere. A run is a list of states joined by steps, any
interleaving is allowed unless a condition is named, and the main lemmas speak of
every state of every run. Beside it stands a class whose fields are the original's,
with one method for each function, proved against the same specification functions
that the steps use. What system calls answer (a pipe that cannot be opened, memory
that is not there, the clock, the inference result) is a parameter of a method or a
choice of a step.

A pipe is a queue of bytes with a capacity. A write of a buffer appends it as a
whole. A read returns at least one byte and at most what is there and was asked for;
`Greedy` adds what a pipe does in fact, to return all of that.

## What the code does not do

Some properties one would expect do not hold. The code is modelled as it is, and
each of these has a lemma with a run or an input that shows it, and the exact
condition under which the property does hold:

- A client whose add failed after its slot was marked stays live without being
  counted; the table stays consistent, and the client can be looked up, exactly when
  the slot was counted before (`LateFailureExactly`, `LookupsWorkExactly`). A disconnect
  between the slot scan and the commit of an add makes the count exceed the number of
  clients ever live at once (`RacingDisconnectOvercounts`, `HighWaterExactly`).
- A short read of metadata loses the framing (`ShortMetadataReadBreaksFraming`,
  `FramingExactly`); reads of pipes are not short, and then ten tries are always enough.
- A read buffer that is not a whole number of packets splits packets, unless the pipe
  holds no more whole packets than the buffer does (`NeverRejectsExactly`).
- A camera frame larger than ten bytes a pixel is sent by the server and refused by
  the client (`CameraMessageSoundExactly`); a point cloud of 2^31 bytes or more has
  a wrong size at both ends (`PointCloudSizeExactly`).
- P frames can pass the gate too early. The exact condition is that a slot gets no new
  client while the camera thread is in the middle of it, that no I frame is served to a
  slot whose add has not written its header yet, that no flag is looked at that the add
  has yet to clear, and that no add fails late in a slot whose flag is up or in whose
  middle the camera thread is (`GateHoldsExactly`). Each part can be broken, and once it
  is, an ungated P frame can always follow (`ReusedSlotInheritsFlag`, `HeaderAfterIFrame`,
  `StaleFlagLetsPFrameThrough`, `LateFailureKeepsFlag`). The flag is set even if the
  payload of the I frame was refused: the theorem speaks of its metadata.
- Metadata and payload of an encoded frame are two writes. The client is put out of step
  by metadata that its check turns down (`RejectedMetadata`), by a payload refused with
  more written after it (`RefusedPayload`), by a header sent to a new client between the
  two writes (`HeaderInBetween`), by a header replaced between its own two
  (`HeaderReplaced`), and by the payload of a frame begun with the slot's previous client
  (`StalePayload`); `StaysInStepExactly` has the exact condition on what lands.
- The exhaustion pass of a claim does not look at whether a producer is active, in
  spite of its comment (`ExhaustionTakesActiveBuffer`), and a release can take a buffer
  out of use under its producer (`ReleaseFreesActiveBuffer`). `ClaimInterruptsExactly`
  says when a production is interrupted.
- A buffer can be handed out while a client still has a descriptor on an older
  production of it (`OldProductionMayStillBeHeld`); not as long as no claim meets an
  exhausted pool (`UnexhaustedClaimsTakeUnheld`, `AllCurrentExactly`).
- The bound on the buffer id of a release message lets the number of buffers itself
  through. With a full pool of 64 that leads past the arrays (`OffByOneIsHarmlessExactly`).
- A camera backlog of a multiple of 24 frames looks like an empty ring, and a longer one
  loses frames (`RingLooksEmptyExactly`, `OverrunLosesFrames`, `RunKeepsRingExactly`).
- Coloured frames are all resized into one buffer, so inference reads such a frame's own
  pixels exactly when no later frame has been preprocessed meanwhile
  (`InferenceReadsItsOwnInputExactly`, `LaterFrameReplacesInput`). Grey frames have a copy
  of the resized pixels, but are published from their ring slot (`OutputIsOwnExactly`).
  The output tensor has no such flaw (`PostprocessingReadsItsOwnTensor`).
- Equal scores can make the outcome of suppression depend on how the sort orders them
  (`TiesDependOnOrder`, `OrderNeverMattersExactly`). A box carries the confidence of the
  last class as its class confidence, not that of the class it names
  (`ClassConfidenceExactly`).
- The comment that the resize weights sum to at most 255 is wrong: the first weight
  is 256 where the coordinate has no fraction, as in the first pixel of every image,
  and a byte cannot hold it (`StoringIsHarmlessExactly`, `TopLeftScaled`). Columns from
  32768 on do not fit the table either; rows do, up to 65535 (`CornersSurviveExactly`,
  `TableIsRightExactly`). Green and blue swap a tap (`ColoursAreTheirPlanesExactly`).
- The suggested pipe has room for eight images of an uncompressed format, but the YUV422
  formats are taken for 12 bits a pixel instead of 16 (`EightImagesFitExactly`,
  `ShortPipe`).
- A path that expands to `/` is refused when expanded again
  (`ExpandIsIdempotentExactly`).

## Model

| member | source | states |
|---|---|---|
| `ClientTable.LookupFindsTheLiveClient` | libmodal-pipe/library/src/server.c:1898-1904 | in every run in which no add fails late in an uncounted slot, with disconnects landing anywhere, looking up a name answers the live client of that name whenever there is one, although names outlive clients and the lookup ignores state |
| `ClientTable.LookupsWorkExactly` | libmodal-pipe/library/src/server.c:881-975 | at every moment of a run every live client can be looked up by its name, if and only if no add failed late in a slot that the count did not cover |
| `ClientTable.StepKeepsInvExactly` | libmodal-pipe/library/src/server.c:754-779 | a step keeps: used slots are those below the count, and no live client's name occurs in a lower slot, live or not; if and only if it is no late failure in an uncounted slot |
| `ClientTable.RunKeepsInvExactly` | libmodal-pipe/library/src/server.c:716-1019 | the same of every state of every run |
| `ClientTable.DropNameDropsOne` | libmodal-pipe/library/src/server.c:228-246 | disconnecting by name changes exactly the slot the lookup answers, if it is live, and no other |
| `ClientTable.ScanRefusesExactly` | libmodal-pipe/library/src/server.c:734-786 | in every consistent table a scan picks no slot if and only if the name is longer than 31 characters or has one outside blank to `z`, a live client carries it, or all sixteen slots are live; otherwise it picks the lowest slot that is not live |
| `ClientTable.ReturningClientIsAccepted` | libmodal-pipe/library/src/server.c:754-786 | in every run, right after a client has been disconnected an add under its name picks a slot, its own or a lower one |
| `ClientTable.CountIsHighWaterMark` | libmodal-pipe/library/src/server.c:986-992 | with atomic adds the client count is at every moment the greatest number of clients ever live at once |
| `ClientTable.HighWaterExactly` | libmodal-pipe/library/src/server.c:986-992 | over a run the count is at every moment that number if and only if every commit reused a slot or found all slots below its own live |
| `ClientTable.CommitKeepsHighWaterExactly` | libmodal-pipe/library/src/server.c:986-992 | one commit keeps the count a high-water mark if and only if it reuses a slot or all slots below are live |
| `ClientTable.RacingDisconnectOvercounts` | libmodal-pipe/library/src/server.c:767-779 | a run in which a disconnect between scan and commit makes the count 2 with never more than 1 client live |
| `ClientTable.LateFailureExactly` | libmodal-pipe/library/src/server.c:881-975 | after a failure past the point where the slot is marked, the table is consistent, and a lookup of the name answers the slot, if and only if the slot was already counted |
| `ClientTable.ActiveBound` | libmodal-pipe/library/src/server.c:986-992 | no more clients are live than the count, and as many exactly when all counted slots are live |
| `ClientTable.Channel.ReserveSlot` | libmodal-pipe/library/src/server.c:734-786 | the checks and the scan; in a consistent table no slot is picked exactly for an invalid name, one that a live client carries, or sixteen live clients |
| `ClientTable.Channel.CommitSlot` | libmodal-pipe/library/src/server.c:836-992 | slot, name and count become those of the committed table |
| `ClientTable.Channel.AddClient` | libmodal-pipe/library/src/server.c:716-1019 | an uninterrupted add succeeds exactly if nothing stands against it and the pipe opens; then only the lowest slot that was not live changes, to the new name, and the count covers it; failing late it marks the slot without counting it |
| `ClientTable.Channel.DisconnectClient` | libmodal-pipe/library/src/server.c:1254-1293 | only the slot's state changes; the name stays |
| `ClientTable.Channel.DisconnectClientByName` | libmodal-pipe/library/src/server.c:228-246 | the states become those with every live slot of that name disconnected |
| `ClientTable.Channel.GetNumClients` | libmodal-pipe/library/src/server.c:1858-1880 | counts the live slots below the client count, which in a consistent table are all live slots |
| `ClientTable.Channel.GetClientIdFromName` | libmodal-pipe/library/src/server.c:1883-1907 | the first counted slot with that name, live or not, or none |
| `FramedPipe.PipeDeliversMessages` | libmodal-pipe/library/src/client.c:671-811 | in every interleaving of list writes and reads of a pipe, what the callback gets is the first accepted messages, in order and byte for byte, each with at most as many payload reads as payload writes, and nothing is missing once the pipe is empty and no write is in progress |
| `FramedPipe.FramedRunsDeliverPrefix` | libmodal-pipe/library/src/client.c:781-810 | the same prefix property for payload reads of any length, as long as metadata comes whole and the tenth try completes; and no buffer of an accepted list write lacks room |
| `FramedPipe.FramingExactly` | libmodal-pipe/library/src/client.c:671-811 | in every run the byte stream has been in step with the undelivered messages up to a moment if and only if every read up to it kept that framing |
| `FramedPipe.ShortMetadataReadBreaksFraming` | libmodal-pipe/library/src/client.c:691-704 | a run in which one short metadata read makes the callback get a message that was never sent |
| `FramedPipe.OnRead` | libmodal-pipe/library/src/client.c:688-811 | a read of between one and the wanted number of bytes leaves the helper wanting something again, with fewer than ten tries spent |
| `FramedPipe.StepKeepsInvExactly` | libmodal-pipe/library/src/client.c:781-810 | a step keeps the byte stream, from what the client has to what the server has yet to write, equal to the undelivered messages if and only if it keeps the framing |
| `PipeRecovery.RejectionRecovers` | libmodal-pipe/library/src/client.c:772-779 | metadata that the check turns down costs what is in the pipe and no more: the pipe is emptied, and of the messages sent from then on the first ones are delivered, in order and byte for byte, and all once the pipe is empty again |
| `PipeRecovery.PayloadInTenReadsExactly` | libmodal-pipe/library/src/client.c:785-803 | a payload that comes in non-empty pieces is delivered whole if there are at most ten, and given up after the tenth read if there are more |
| `PipeRecovery.AcceptedExactly` | libmodal-pipe/library/src/server.c:1425-1441 | a message is accepted if and only if all of it fits in the room that the pipe has left |
| `PipeEnds.DataPipe.WriteNoLock` | libmodal-pipe/library/src/server.c:1298-1353 | what the system took is appended; a whole write connects the client, one that takes nothing disconnects it |
| `PipeEnds.DataPipe.WriteToClient` | libmodal-pipe/library/src/server.c:1356-1397 | nothing is written unless the client is there and the buffer is not empty and fits |
| `PipeEnds.DataPipe.WriteList` | libmodal-pipe/library/src/server.c:1419-1494 | nothing is written unless every buffer is non-empty and all fit together; then they are, up to the first write that is not whole |
| `PipeEnds.DataPipe.WriteEach` | libmodal-pipe/library/src/server.c:1442-1447 | the whole writes, what the next one took, and whether the client is still there |
| `PipeEnds.HelperThread.HandleRead` | libmodal-pipe/library/src/client.c:671-811 | between two reads the thread does what the specification of a read says, and asks for a flush exactly on rejected metadata |
| `Messages.CameraMessageSoundExactly` | libmodal-pipe/library/src/server.c:1555-1624 | a camera frame passes the client's check if and only if its size is at most ten bytes a pixel; its payload is the frame |
| `Messages.StereoMessageSoundExactly` | libmodal-pipe/library/src/server.c:1628-1659 | the same for stereo frames, whose payload is the left half followed by the right half |
| `Messages.PointCloudSizeExactly` | libmodal-pipe/library/src/interfaces.c:212-237 | the computed size, with the wrap-around of its operands, is points times bytes per point if and only if that is below 2^31 |
| `Messages.PointCloudMessageSound` | libmodal-pipe/library/src/server.c:1662-1687 | every point cloud the server sends passes the client's check with the size that was sent |
| `Messages.MagicKeepsFields` | libmodal-pipe/library/src/server.c:1560-1561 | setting the magic number changes no other field of the packed metadata |
| `PacketStream.ReadsAreWholePackets` | libmodal-pipe/library/src/client.c:688-711 | with a read buffer of a whole number of packets, or a pipe that holds no more packets than the buffer, the validator turns no read down in any interleaving, and the packets it passes are the first ones sent, in order |
| `PacketStream.OtherBufferSplitsPackets` | libmodal-pipe/library/src/client.c:688-689 | for every other buffer length and pipe size a run in which the validator turns a read down |
| `PacketStream.NeverRejectsExactly` | libmodal-pipe/library/src/interfaces.c:24-58 | no run has a read turned down if and only if the buffer is a whole number of packets or the pipe cannot hold one packet more than fit the buffer |
| `PacketStream.SplitOfFlatten` | libmodal-pipe/library/src/interfaces.c:38-49 | cutting a stream of packets into packets gives back the packets |
| `PacketStream.Validate` | libmodal-pipe/library/src/interfaces.c:24-58 | accepts exactly the data that is a whole number of packets with the right magic number, and counts them; the count is 0 otherwise |
| `EncodedGate.PFramesFollowIFrames` | libmodal-pipe/library/src/server.c:1578-1618 | from the first cached header on, every P frame written to a client follows an I frame's metadata in that client's own session, with no newer header cached or written between, in every interleaving that nothing disturbs |
| `EncodedGate.GateHoldsExactly` | libmodal-pipe/library/src/server.c:1582-1615 | after a step P frames stay gated in every undisturbed continuation if and only if that step disturbed nothing |
| `EncodedGate.DisturbedStepIsDangerous` | libmodal-pipe/library/src/server.c:1006-1016 | after any disturbing step, whatever else the channel holds, undisturbed steps lead to an ungated P frame |
| `EncodedGate.StepKeepsInvExactly` | libmodal-pipe/library/src/server.c:1582-1615 | a step keeps the invariant behind the gate if and only if it disturbs nothing |
| `EncodedGate.HeaderAfterIFrame` | libmodal-pipe/library/src/server.c:1008-1016 | a run to an I frame served between an add's reset and its header, after which an ungated P frame can follow |
| `EncodedGate.StaleFlagLetsPFrameThrough` | libmodal-pipe/library/src/server.c:1008-1009 | a run to a P frame considered while an add has not cleared the flag, with the same consequence |
| `EncodedGate.LateFailureKeepsFlag` | libmodal-pipe/library/src/server.c:881-975 | a run in which an add fails late in a slot whose flag went up after its client was gone, and never clears it |
| `EncodedGate.ReusedSlotInheritsFlag` | libmodal-pipe/library/src/server.c:1607-1613 | a run to a client that takes the slot between an I frame and its flag, with the same consequence |
| `EncodedGate.WritingIsSteps` | libmodal-pipe/library/src/server.c:1578-1618 | writing an I or P frame to all clients is a run of the channel's steps, none of which disturbs a slot |
| `EncodedGate.SendingHeaderIsSteps` | libmodal-pipe/library/src/server.c:1570-1580 | sending a header is a run of the channel's steps: it is cached, then written to exactly the clients below the count whose write succeeds |
| `EncodedGate.AfterFrameAgrees` | libmodal-pipe/library/src/server.c:1585-1613 | for headers, I frames and P frames, a session's log gets the frame's event at its end if and only if the write succeeds and, for a P frame, the flag is up; and the flag changes as the function says |
| `EncodedGate.H264TypesFollowNalTypes` | libmodal-pipe/library/src/server.c:1510-1521 | the frame types told apart are the NAL unit types of Table 7-1 of ITU-T H.264 with the encoder's reference priorities |
| `EncodedGate.H265TypesFollowNalTypes` | libmodal-pipe/library/src/server.c:1523-1534 | likewise for Table 7-1 of ITU-T H.265 |
| `EncodedGate.EncodedChannel.WriteEncodedFrame` | libmodal-pipe/library/src/server.c:1566-1624 | the cached header with its metadata; a frame goes to every client whose write succeeds, P frames only to those with the flag up; and every flag afterwards |
| `EncodedStream.StaysInStepExactly` | libmodal-pipe/library/src/server.c:1583-1612 | from any start, a slot's previous client in the middle of a message included, a client of an encoded channel is at every moment of a run in step, for all it has yet to read too, if and only if all that lands is metadata that passes the client's check and, before any other write, its own payload |
| `EncodedStream.InStepExactly` | libmodal-pipe/library/src/client.c:671-811 | that is so if and only if the writes that landed are paired and their metadata passes the check; then the client has taken exactly the messages whose payload it has read, byte for byte |
| `EncodedStream.StaysInStepFrom` | libmodal-pipe/library/src/client.c:671-811 | reading what is in the pipe keeps the client in step if and only if each unread write is what the one before calls for |
| `EncodedStream.ReadTakesOneWrite` | libmodal-pipe/library/src/client.c:781-803 | in step, each read takes exactly one write |
| `EncodedStream.MetadataTakenExactly` | libmodal-pipe/library/src/client.c:772-779 | metadata is taken for what it is if and only if it passes the check |
| `EncodedStream.StepPairsExactly` | libmodal-pipe/library/src/server.c:1583-1612 | a step keeps the writes paired if and only if it lands metadata that passes the check and is not behind other metadata, or the payload the latest metadata calls for, or nothing |
| `EncodedStream.HeaderInBetween` | libmodal-pipe/library/src/server.c:1006-1016 | a run with a header between the two writes of a frame, which puts the client out of step |
| `EncodedStream.RefusedPayload` | libmodal-pipe/library/src/server.c:1604-1612 | a run with a refused payload and another frame, which does the same |
| `EncodedStream.HeaderReplaced` | libmodal-pipe/library/src/server.c:1011-1015 | a run in which a newer header is cached between the two writes of the older one, which does the same |
| `EncodedStream.StalePayload` | libmodal-pipe/library/src/server.c:1604-1609 | a run of one step in which the first bytes of a new session are the payload of a frame begun with the client before |
| `EncodedStream.RejectedMetadata` | libmodal-pipe/library/src/client.c:772-775 | a run of one step with metadata that the client's check turns down |
| `IonBufRuns.ReferencesAreExact` | libmodal-pipe/library/src/buffers.cpp:207-222 | in every state of every disciplined run a buffer's mask is exactly the set of clients holding its current production, its count is their number, and a buffer not in use has neither |
| `IonBufRuns.FreeExactly` | libmodal-pipe/library/src/buffers.cpp:207-322 | no buffer leaks: in every disciplined run a buffer is out of use if and only if no client holds its current production and its producer has flagged it or has had it taken out of use |
| `IonBufRuns.AccountsExactly` | libmodal-pipe/library/src/buffers.cpp:278-320 | in every run that has been so up to a moment if and only if every buffer was sent in use and to clients not holding it, and every reference dropped by a client holding it, if any did |
| `IonBufRuns.StepKeepsAccountsExactly` | libmodal-pipe/library/src/buffers.cpp:278-320 | the same for one step |
| `IonBufRuns.ProtocolIsDisciplined` | libmodal-pipe/library/src/server.c:1815-1818 | productions that are claimed, sent once and then flagged, with clients that release what they hold, are disciplined |
| `IonBufRuns.FreePassTakesUnheld` | libmodal-pipe/library/src/buffers.cpp:161-170 | the free pass always finds a buffer and never one whose current production a client holds |
| `IonBufRuns.UnexhaustedClaimsTakeUnheld` | libmodal-pipe/library/src/buffers.cpp:161-170 | as long as no claim meets an exhausted pool, a claim takes a buffer of which nobody holds any production |
| `IonBufRuns.AllCurrentExactly` | libmodal-pipe/library/src/buffers.cpp:172-199 | all descriptors held are on current productions up to a moment if and only if no claim so far took a held buffer |
| `IonBufRuns.ClaimKeepsCurrentExactly` | libmodal-pipe/library/src/buffers.cpp:141-154 | a claim leaves a descriptor on an older production if and only if somebody holds the buffer it takes |
| `IonBufRuns.ClaimSucceedsOldestFirst` | libmodal-pipe/library/src/buffers.cpp:156-199 | with a strictly increasing clock a claim on a non-empty pool succeeds, and an exhausted pool reuses the buffer since whose last claim every other has been claimed |
| `IonBufRuns.StampAcceptedExactly` | libmodal-pipe/library/src/buffers.cpp:297-305 | a stamp seen earlier is accepted by a release if and only if a whole number of stamp cycles of claims lies between |
| `IonBufRuns.StaleReleaseIsIgnored` | libmodal-pipe/library/src/buffers.cpp:297-305 | a release left over from an earlier production changes nothing in the pool, across the wrap of the stamp counter |
| `IonBufRuns.OldProductionMayStillBeHeld` | libmodal-pipe/library/src/buffers.cpp:172-184 | a disciplined run in which the free pass takes a buffer that a client holds an older production of |
| `IonBufRuns.ReleaseFreesActiveBuffer` | libmodal-pipe/library/src/buffers.cpp:307-316 | a run in which a release takes a buffer out of use under its producer and the next claim takes it |
| `IonBufRuns.ExhaustionTakesActiveBuffer` | libmodal-pipe/library/src/buffers.cpp:172-192 | a run in which the exhaustion pass takes a buffer whose producer is active |
| `IonBufRuns.ReleaseKeepsActiveInUseExactly` | libmodal-pipe/library/src/buffers.cpp:307-316 | a release keeps every active buffer in use if and only if it drops no active buffer's last reference |
| `IonBufRuns.ActiveUnusedExactly` | libmodal-pipe/library/src/buffers.cpp:307-316 | a buffer is active but not in use if and only if its last reference was dropped under its producer and it has been neither claimed nor flagged since |
| `IonBufRuns.ActiveExactly` | libmodal-pipe/library/src/buffers.cpp:141-154 | a producer is active on a buffer if and only if it was claimed and neither claimed nor flagged since |
| `IonBufRuns.ClaimInterruptsExactly` | libmodal-pipe/library/src/buffers.cpp:156-199 | a claim takes a buffer in the middle of its production if and only if it meets an exhausted pool whose oldest buffer is still being produced, or in the free pass one whose last reference was dropped under its producer |
| `IonBufRuns.ReleaseKeepsAccountsExactly` | libmodal-pipe/library/src/buffers.cpp:278-320 | a release keeps the accounts if and only if it drops no reference, or the sender's own, or finds none |
| `IonBufRuns.WriteKeepsAccountsExactly` | libmodal-pipe/library/src/server.c:1815-1818 | sending a buffer keeps them if and only if it is in use and no receiver holds it, or nobody receives it |
| `IonBufRuns.ClaimKeepsAccounts` | libmodal-pipe/library/src/buffers.cpp:141-154 | so does a claim, by either pass |
| `IonBufRuns.FlagKeepsAccounts` | libmodal-pipe/library/src/buffers.cpp:207-222 | so does flagging as unused |
| `IonBufPool.SameStampExactly` | libmodal-pipe/library/src/buffers.cpp:149-151 | two productions carry the same stamp if and only if a multiple of 2^32 - 1 productions separates them; no stamp is 0 |
| `IonBufPool.RecordedAccountsExactly` | libmodal-pipe/library/src/server.c:1815-1818 | recording a reference per receiver leaves mask and count in step if and only if no receiver held the buffer |
| `IonBufPool.OffByOneIsHarmlessExactly` | libmodal-pipe/library/src/buffers.cpp:282-287 | the buffer id one past the end passes the bound; it changes no allocated buffer and stays in the arrays if and only if fewer than 64 buffers are allocated |
| `IonBufPool.OutOfArraysExactly` | libmodal-pipe/library/src/buffers.cpp:282-299 | a message leads past the arrays if and only if it carries id 64 and a valid client for a pool of 64 |
| `IonBufPool.BufPool.BeginProduceLocked` | libmodal-pipe/library/src/buffers.cpp:141-154 | the buffer's column becomes that of a new production, with the next stamp; all others stay |
| `IonBufPool.BufPool.ClaimUnusedBuf` | libmodal-pipe/library/src/buffers.cpp:156-199 | takes the first buffer not in use, else the first of the oldest, else none, and begins its production |
| `IonBufPool.BufPool.FlagAsUnusedById` | libmodal-pipe/library/src/buffers.cpp:207-222 | the producer lets go; the buffer leaves use exactly if no client holds it |
| `IonBufPool.BufPool.ProcessReleaseMsg` | libmodal-pipe/library/src/buffers.cpp:278-320 | refused exactly on a bad id, client or stamp, with the pool unchanged; else one reference is dropped, or the access past the arrays is reported |
| `IonBufPool.BufPool.WriteIonBuffer` | libmodal-pipe/library/src/server.c:1815-1818 | references are recorded for exactly the clients the buffer was sent to |
| `IonBufPool.BufPool.GetNumUnused` | libmodal-pipe/library/src/buffers.cpp:331-346 | the number of buffers not in use |
| `BitMask.IdsOfSetBit` | libmodal-pipe/library/src/server.c:1816 | setting a client's bit adds that client to the set the mask stands for, and no other |
| `BitMask.IdsOfClearBit` | libmodal-pipe/library/src/buffers.cpp:307 | clearing it removes that client, and no other |
| `Boxes.IouCountsPixels` | voxl-tflite-server/src/model_helper/yolov5_model_helper.cpp:240-255 | for all boxes the score times the number of pixels that either covers is the number that both cover; where neither covers any it is 0 or undefined |
| `Boxes.SameBoxScoresOne` | voxl-tflite-server/src/model_helper/yolov5_model_helper.cpp:240-256 | two boxes of one place and size that cover a pixel score 1 |
| `Boxes.IouLaws` | voxl-tflite-server/src/model_helper/yolov5_model_helper.cpp:240-255 | the score is symmetric and, where defined, between 0 and 1 |
| `Nms.OverlapsExactly` | voxl-tflite-server/src/model_helper/yolov5_model_helper.cpp:222-232 | two boxes overlap too much if and only if their classes agree, where that is asked for, and more than the threshold's share of the pixels that either covers is common to both |
| `Nms.SurvivorsAreTheKernel` | voxl-tflite-server/src/model_helper/yolov5_model_helper.cpp:199-238 | no two survivors overlap above the threshold, in descending order, and every dropped box is overlapped by a survivor of at least its score |
| `Nms.KernelIsUnique` | voxl-tflite-server/src/model_helper/yolov5_model_helper.cpp:211-237 | there is only one way to keep exactly the boxes that no kept box before them overlaps |
| `Nms.SuppressionIsIdempotent` | voxl-tflite-server/src/model_helper/yolov5_model_helper.cpp:199-238 | suppressing the survivors again drops nothing, however ties are sorted, and with distinct scores gives the same list |
| `Nms.OrderDoesNotMatter` | voxl-tflite-server/src/model_helper/yolov5_model_helper.cpp:199-209 | with pairwise distinct scores the result is the same for every order of the list |
| `NmsTies.OrderNeverMattersExactly` | voxl-tflite-server/src/model_helper/yolov5_model_helper.cpp:203-237 | the boxes that survive never depend on the order, for any list made of given boxes, if and only if no two distinct ones with one score overlap |
| `NmsTies.UntiedOrderDoesNotMatter` | voxl-tflite-server/src/model_helper/yolov5_model_helper.cpp:203-237 | without such a pair any two sorts leave the same boxes, equally often |
| `NmsTies.SurvivesExactly` | voxl-tflite-server/src/model_helper/yolov5_model_helper.cpp:211-237 | without such a pair a box survives if and only if no survivor of higher score overlaps it |
| `Nms.TiesDependOnOrder` | voxl-tflite-server/src/model_helper/yolov5_model_helper.cpp:203-209 | of two overlapping boxes with equal scores either may survive |
| `Nms.SortByScore` | voxl-tflite-server/src/model_helper/yolov5_model_helper.cpp:203-209 | leaves a permutation of the list in descending order of score |
| `Nms.MergeOverlapped` | voxl-tflite-server/src/model_helper/yolov5_model_helper.cpp:220-235 | marks exactly the later boxes that the given one overlaps, besides those marked before |
| `Nms.Nms` | voxl-tflite-server/src/model_helper/yolov5_model_helper.cpp:199-238 | appends exactly the kernel of the sorted list |
| `YoloDecode.WalkScales` | voxl-tflite-server/src/model_helper/yolov5_model_helper.cpp:71-80 | the three calls decode the rows of the tensor from the first on, each once, in order and without a gap |
| `YoloDecode.RowsInAll` | voxl-tflite-server/include/model_helper/yolov5_model_helper.h:20-21 | for a model whose sides are multiples of 32 the walk decodes 63 rows for every 32 by 32 pixels |
| `YoloDecode.GetBbox` | voxl-tflite-server/src/model_helper/yolov5_model_helper.cpp:127-197 | decodes as many rows as the grid has anchors, and ends with the index of the next row |
| `YoloDecode.AdvanceIsLastIndex` | voxl-tflite-server/src/model_helper/yolov5_model_helper.cpp:79 | the pointer advance made after a call equals the index the call ended with |
| `YoloDecode.DecodeExactly` | voxl-tflite-server/src/model_helper/yolov5_model_helper.cpp:147-193 | the boxes are those of exactly the rows that pass, one each, in row order |
| `YoloDecode.DecodeAppends` | voxl-tflite-server/src/model_helper/yolov5_model_helper.cpp:71-80 | decoding two runs of rows one after the other is decoding them together |
| `YoloDecode.PassesExactly` | voxl-tflite-server/src/model_helper/yolov5_model_helper.cpp:149-165 | a row becomes a box if and only if its box confidence is at least 0.40 and some class's at least 0.20; the box is of the first class of greatest confidence and carries both confidences |
| `YoloDecode.BestIsFirstGreatest` | voxl-tflite-server/src/model_helper/yolov5_model_helper.cpp:151-163 | the class scan finds the first index of the greatest confidence above zero |
| `YoloDecode.BoxIsCentred` | voxl-tflite-server/src/model_helper/yolov5_model_helper.cpp:167-187 | a box lies around its centre up to half a pixel; centre and size are the row's fractions of the image, cut to whole pixels |
| `YoloDecode.ClassConfidenceExactly` | voxl-tflite-server/src/model_helper/yolov5_model_helper.cpp:157-187 | the class confidence of a box is that of its class if and only if the last class has the greatest |
| `YoloDecode.ScanClasses` | voxl-tflite-server/src/model_helper/yolov5_model_helper.cpp:151-163 | the scan's winner, its confidence and the confidence read last |
| `YoloDecode.DecodeRow` | voxl-tflite-server/src/model_helper/yolov5_model_helper.cpp:147-192 | one row adds its box or nothing |
| `YoloPostprocess.Postprocess` | voxl-tflite-server/src/model_helper/yolov5_model_helper.cpp:69-83 | published are boxes of confident rows by falling score, no two sharing more than half of the pixels that they cover; the box of every confident row is published or shares more than half with a published one of at least its score |
| `YoloPostprocess.CandidatesExactly` | voxl-tflite-server/src/model_helper/yolov5_model_helper.cpp:126-196 | a box is a candidate if and only if it is that of a row whose box confidence is at least 0.40 and one of whose classes has at least 0.20 |
| `Pipeline.PostprocessingReadsItsOwnTensor` | voxl-tflite-server/src/inference_handler.cpp:131-227 | in every interleaving inference and postprocessing exclude each other, at most one result is queued, its trim loop never drops one, and the tensor read belongs to the frame at hand |
| `Pipeline.StepShakes` | voxl-tflite-server/src/inference_handler.cpp:131-227 | every step keeps the handshake: one result on its way at most, queued, worked on or announced |
| `Pipeline.FramesAreConserved` | voxl-tflite-server/src/inference_handler.cpp:83-172 | while the ring fits the backlog every captured image is in exactly one place: in its slot, once in the line of stages, queues and finished frames, or gone for one reason; frames finish in capture order |
| `Pipeline.RunKeepsRingExactly` | voxl-tflite-server/src/main.cpp:423-431 | in every run waiting images and the one being preprocessed have been in their slots, and taken ones right, up to a moment if and only if the backlog was at most 24 up to then, and less while one was being preprocessed |
| `Pipeline.StepConserves` | voxl-tflite-server/src/inference_handler.cpp:83-227 | every step accounts for every frame taken from the ring |
| `Pipeline.StepKeepsRingExactly` | voxl-tflite-server/src/main.cpp:423-431 | the same for one step |
| `Pipeline.OutputIsOwnExactly` | voxl-tflite-server/src/model_helper/model_helper.cpp:311-327 | a frame is published with its own image if and only if it is coloured or no more than 24 images were captured from it on |
| `Pipeline.RingLooksEmptyExactly` | voxl-tflite-server/src/inference_handler.cpp:89-99 | nothing seems to wait if and only if the backlog is a multiple of the ring size |
| `Pipeline.OverrunLosesFrames` | voxl-tflite-server/src/main.cpp:423-431 | a run in which 24 frames wait and none can be taken, and after one more the first 24 are lost |
| `Pipeline.InferenceReadsItsOwnInputExactly` | voxl-tflite-server/src/model_helper/model_helper.cpp:256-327 | inference runs on its own frame's pixels if and only if the frame is grey, having its own copy, or no later frame has been preprocessed into the shared buffer |
| `Pipeline.LaterFrameReplacesInput` | voxl-tflite-server/src/model_helper/model_helper.cpp:256-309 | a run in which a coloured frame is inferred on the pixels of the next |
| `PipelineWorkers.PushesAreApart` | voxl-tflite-server/src/main.cpp:390-408 | after a frame that went into the ring the given number of callbacks is skipped |
| `PipelineWorkers.EveryNthFrameExactly` | voxl-tflite-server/src/main.cpp:385-430 | with an empty pipe, somebody watching and frames that fit, from the start of the program exactly every n-th frame goes into the ring, n being one more than the number to skip |
| `PipelineWorkers.TrimmingKeepsNewest` | voxl-tflite-server/src/inference_handler.cpp:166-172 | trimming keeps the newest preprocessed frame, and never touches the results |
| `PipelineWorkers.TrimmingIsSteps` | voxl-tflite-server/src/inference_handler.cpp:166-168 | the trim loop, run alone, is a run of trim steps |
| `PipelineWorkers.Handler.CameraHelperCb` | voxl-tflite-server/src/main.cpp:386-431 | a frame goes into the ring exactly if enough were skipped, the pipe is empty, somebody watches or debugs, and it has at most 12441600 bytes; the ring then gets it, and otherwise nothing changes but the number skipped |
| `PipelineWorkers.Handler.TakeFrame` | voxl-tflite-server/src/inference_handler.cpp:85-99 | takes the frame at the thread's own index unless that equals the insert index |
| `PipelineWorkers.Handler.Preprocess` | voxl-tflite-server/src/model_helper/model_helper.cpp:232-340 | turns down the first frame and unknown formats, and resizes any other into the shared buffer |
| `PipelineWorkers.Handler.PushPreprocessed` | voxl-tflite-server/src/inference_handler.cpp:115-127 | is the step that queues the preprocessed frame |
| `PipelineWorkers.Handler.ClearFinish` | voxl-tflite-server/src/inference_handler.cpp:136 | is the step that clears the flag |
| `PipelineWorkers.Handler.PopForInference` | voxl-tflite-server/src/inference_handler.cpp:137-151 | is the step that takes the oldest preprocessed frame |
| `PipelineWorkers.Handler.RunInference` | voxl-tflite-server/src/inference_handler.cpp:153-157 | the pixels read are the frame's own if and only if it is grey or nothing later has been preprocessed, and no frame is being postprocessed meanwhile |
| `PipelineWorkers.Handler.PushResult` | voxl-tflite-server/src/inference_handler.cpp:158-164 | is the step that queues the result |
| `PipelineWorkers.Handler.TrimPreprocessed` | voxl-tflite-server/src/inference_handler.cpp:166-168 | trims as the specification does, and nothing else changes |
| `PipelineWorkers.Handler.TrimResults` | voxl-tflite-server/src/inference_handler.cpp:170-172 | likewise for the result queue |
| `PipelineWorkers.Handler.PopForPostprocessing` | voxl-tflite-server/src/inference_handler.cpp:188-202 | is the step that takes the queued result |
| `PipelineWorkers.Handler.FinishFrame` | voxl-tflite-server/src/inference_handler.cpp:204-223 | the tensor read is that of the frame itself, and the frames processed are counted |
| `PipelineWorkers.Handler.SetFinish` | voxl-tflite-server/src/inference_handler.cpp:224-225 | is the step that sets the flag |
| `ResizeTable.BlankExactly` | voxl-tflite-server/src/resize.c:160-164 | a pixel is blank if and only if the input has fewer than two rows or columns |
| `ResizeTable.EntryIsUsable` | voxl-tflite-server/src/resize.c:148-175 | otherwise all four corners lie in the input and the weights sum to between 253 and 256 |
| `ResizeTable.CornerExactly` | voxl-tflite-server/src/resize.c:148-168 | the corner of an output pixel is the last input pixel at or before its coordinate, by column and by row |
| `ResizeTable.WeightsLaws` | voxl-tflite-server/src/resize.c:170-175 | only the first weight can be 256, and it is exactly where both fractions vanish |
| `ResizeTable.CoordinateInside` | voxl-tflite-server/src/resize.c:145-156 | the whole part of a coordinate lies inside the input and the fraction is below one |
| `ResizeTable.BytesHoldWeightsExactly` | voxl-tflite-server/src/resize.c:170-175 | the weights fit bytes if and only if not both fractions vanish |
| `ResizeTable.StoredIsReadable` | voxl-tflite-server/src/resize.c:166-175 | the entry as stored, in 16 bits and bytes, reads as blank or is safe to read through, whichever byte 256 turns into, and has the exact weights where they fit |
| `ResizeTable.CornersSurviveExactly` | voxl-tflite-server/src/resize.c:166-168 | a corner is the right one after 16 bits if and only if it is in the first 32768 columns and 65536 rows, as it is in every image of at most 32769 columns and 65537 rows |
| `ResizeTable.SharesAreBilinear` | voxl-tflite-server/src/resize.c:170-175 | the four shares reproduce at the coordinate every image that rises evenly by column and by row |
| `Resize.InterpIsBilinear` | voxl-tflite-server/src/resize.c:148-175 | a pixel's value is the exact bilinear one rounded down, or less than five below it |
| `Resize.InterpBetweenTaps` | voxl-tflite-server/src/resize.c:37-41 | an interpolated value is at most the largest tap and at least 253/256 of the smallest |
| `Resize.StoringIsHarmlessExactly` | voxl-tflite-server/src/resize.c:172 | whichever byte 256 turns into, the weights as stored give every pixel its value if and only if not both fractions vanish, and in the first pixel they do |
| `Resize.TableIsRightExactly` | voxl-tflite-server/src/resize.c:150-175 | the stored entry gives a pixel its value in every image if and only if not both fractions vanish and 16 bits hold the corner |
| `Resize.TableResamples` | voxl-tflite-server/src/resize.c:129-179 | a table makes of every image that rises evenly by column and by row the value at the output pixel's own coordinate, rounded down, or less than five below it; where both fractions vanish, the value of the input pixel there scaled by the byte that stands for 256 |
| `Resize.BlankTableIsZero` | voxl-tflite-server/src/resize.c:160-164 | from an input of fewer than two rows or columns every pixel is 0 |
| `Resize.TopLeftScaled` | voxl-tflite-server/src/resize.c:172 | where both vanish the exact value is the corner's and the stored table gives that byte's share of it |
| `Resize.InterpAtMost` | voxl-tflite-server/src/resize.c:37-41 | no value is larger than its largest tap, through any table that can be read |
| `Resize.ColoursAreTheirPlanesExactly` | voxl-tflite-server/src/resize.c:107-123 | for all images, red is resized as a grey image of its own; green if and only if its fourth weight is 0, blue if and only if its third is |
| `Resize.NothingElseIsCrossed` | voxl-tflite-server/src/resize.c:74-100 | in every image in which the blue of the lower left pixel is the green of the lower right one, all colours are resized as grey images of their own |
| `Resize.StoredColoursExactly` | voxl-tflite-server/src/resize.c:107-123 | the same through the entries as they are stored, those that read as blank included |
| `Resize.RedPlaneIsGreyImage` | voxl-tflite-server/src/resize.c:107-111 | the red plane of a resized colour image is the red plane resized as a grey image |
| `Resize.FillPixel` | voxl-tflite-server/src/resize.c:150-175 | one entry of the table becomes the stored form of the one computed from fractions, or blank; others stay; `Resize.TableResamples` says what such an entry does to an image |
| `Resize.UndistortMap.InitResizeMap` | voxl-tflite-server/src/resize.c:129-179 | every entry of the table is the right one as stored in 16 bits and bytes, for images of any size, and the table can be read; `Resize.TableResamples` says what such a table does to an image |
| `Resize.ResizeImage` | voxl-tflite-server/src/resize.c:9-44 | every output byte is the interpolation of the taps that the pixel's stored corner leads to, or 0; bytes beyond stay |
| `Resize.ColourPixel` | voxl-tflite-server/src/resize.c:68-123 | the three bytes of a pixel, with the taps as the original names them |
| `Resize.Resize8uc3Image` | voxl-tflite-server/src/resize.c:48-127 | the same for every pixel of the interleaved image |
| `PipeSize.SuggestCamPipeSize` | libmodal-pipe/library/src/server.c:2033-2118 | for every format the least power of two not below the clamped estimate, between 1 and 128 MiB; -1 for a width or height below 1 |
| `PipeSize.SizeGrows` | libmodal-pipe/library/src/server.c:2044-2106 | the size never falls as width or height grows |
| `PipeSize.EightImagesFitExactly` | libmodal-pipe/library/src/server.c:2037-2118 | the suggested size has room for eight images of an uncompressed format, up to 128 MiB, and is not twice as much; for the YUV422 formats it has room if and only if no power of two lies between 12 and 16 bits a pixel |
| `PipeSize.ShortPipe` | libmodal-pipe/library/src/server.c:2068-2072 | a YUV422 image of 1200 by 1100 gets a pipe for fewer than seven |
| `PipeSize.SmearDoubles` | libmodal-pipe/library/src/server.c:2110-2114 | one smear by k doubles a run of k ones at the top, until all bits are ones |
| `PipeSize.RoundUp` | libmodal-pipe/library/src/server.c:2108-2115 | five smears round up to the least power of two |
| `PathExpand.ExpandedPathsAreDirectories` | libmodal-pipe/library/src/common.c:186-202 | every accepted input gives a printable path that starts and ends with a slash |
| `PathExpand.ExpandName` | libmodal-pipe/library/src/common.c:165-205 | a name of visible characters without a slash is put under /run/mpa/ as it is |
| `PathExpand.ExpandPath` | libmodal-pipe/library/src/common.c:165-205 | a path of visible characters stays as it is, but for a slash at its end |
| `PathExpand.ExpandDrops` | libmodal-pipe/library/src/common.c:165-205 | a character that is not visible ASCII is dropped wherever it stands behind the first |
| `PathExpand.ExpandIsIdempotentExactly` | libmodal-pipe/library/src/common.c:165-205 | expanding again changes nothing if and only if the path is not just the root |
| `PathExpand.InitRecoversNameExactly` | libmodal-pipe/library/src/server.c:2154-2167 | the initialiser finds the topic itself as the pipe's name if and only if the topic is printable and has no slash |
| `PathExpand.InitKeepsDirectory` | libmodal-pipe/library/src/server.c:443-500 | creating by name and creating by the directory made of it use the same directory, or are both refused |
| `PathExpand.CreatedExactly` | libmodal-pipe/library/src/server.c:446-500 | a name of visible characters is created, under /run/mpa/, if and only if it has 1 to 31 of them, no slash, and "unknown" nowhere in it |
| `PathExpand.NameOf` | libmodal-pipe/library/src/server.c:2154-2167 | the scan from the back finds the name between the last slash but the final one and that final one, or leaves the initial name |
| `PathExpand.FilterLaws` | libmodal-pipe/library/src/common.c:191-194 | nothing but printable characters is written, and all of the input if and only if it is printable |
| `PathExpand.FilterAppends` | libmodal-pipe/library/src/common.c:191-194 | each character is kept or dropped on its own, in order |
| `PathExpand.CopyPrintable` | libmodal-pipe/library/src/common.c:191-194 | appends exactly the printable characters of the input |
| `PathExpand.ExpandLocationString` | libmodal-pipe/library/src/common.c:165-205 | writes the expanded path and its terminator, or refuses and leaves the buffer alone |

## Left out

- System calls themselves: FIFOs, sockets, descriptor passing, inotify, signals, PID files. Their outcomes are parameters or choices of a step.
- Unlocked reads of single words, memory ordering and torn reads: a mutex-protected region, or a step named in the models, is atomic. `pipe_server_write_ion_buffer` is one step.
- Lost wake-ups and progress of the worker threads; shutdown (`main_running`) and the reconnecting of clients: the runs are about safety.
- Closing and reopening of a channel, and a realloc or malloc that fails in the client's metadata check.
- Overflow of `int` in the pipe size estimate, excluded by a precondition; a clock that fails; data shorter than five bytes handed to the frame type test; null pointers and channel numbers out of range.
- Floating-point rounding in the overlap, in the thresholds and in the resize fractions: they are exact. Box coordinates are unbounded integers.
- Drawing, colour conversion, TFLite, delegates, the other model helpers, YOLOv8 suppression, configuration files, command-line tools and name tables.
- HighWaterExactly: says nothing of runs with a late failure in an uncounted slot; what such a run loses is said by `LookupsWorkExactly`.
- GateHoldsExactly: assumes one thread at a time in the part of an add that follows the commit; it holds no lock, and the server's own request thread is the only one that gets there unless a program adds clients itself.
- StaysInStepExactly: assumes the same of adds, and that memory of a replaced header stays readable while it is sent.
- TableIsRightExactly: conversion of a corner to 16 bits keeps its low bits, as compilers do it; overflow of `int` in the products of sides is not modelled.
- CameraMessageSoundExactly: does not model overflow of `int` in the client's `width*height*10`, which the original leaves undefined for images of more than 214748364 pixels.
- ReferencesAreExact: a client that disconnects keeps its references, as in the code, so its buffers stay held until a claim reuses them.
- StaleReleaseIsIgnored: runs end where a release message leads past the arrays, since nothing is defined after that; `OutOfArraysExactly` says when.
- InferenceReadsItsOwnInputExactly: a run may mix formats; that the shared buffer is allocated for the first frame's format only is not modelled.
- ExpandLocationString: requires a buffer long enough for the result, which the original leaves to its callers; a creation that goes on after a refused expansion is not modelled.
- CheckPointMeta: a cloud of zero points is refused by the list write, so the client's branch for an empty payload is modelled but never reached from this server.
