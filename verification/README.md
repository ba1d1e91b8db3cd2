# The frame path of the edge gateway, verified

The gateway takes camera frames, hands them from a capture thread to a network thread through a ring
of four slots, cuts each frame into TLV packets and sends them over TCP to a receiver, which puts the
frames together again and sends back inspection results that may raise an alarm. This project models
that path from one end to the other and proves what it guarantees:

- **Wire format** (`Bytes`, `Tlv`, `WireBytes`): what a packet is on the wire, and that every byte string,
  garbage included, splits into packets and an unfinished rest in exactly one way. This is the reference
  that both stream readers are measured against. `WireBytes` ties it to plain numbers and bits.
- **C codec** (`TlvProtocol`, `StreamReading`, `StreamGuarantees`, `ValueBuffer`): packer and reader
  of `tlv_protocol.c` with their 8- and 16-bit counters. The reader reports exactly the verdicts of the
  split, from any state; the theorems about cut streams, damaged bytes, resynchronisation and bulk calls
  follow from that one; what one changed byte costs is settled exactly. `ValueBuffer` says exactly when
  a caller may let its value buffer go.
- **Frames** (`FrameCodec`, `FrameSender`, `FrameReceiver`, `AiReceiver`, `FrameAssembly`,
  `FrameStreams`): the chunked sender over short and failing writes, the C and Python receivers, their
  round trips, the no-holes theorem, and exactly when readers and reassemblers agree (`ReaderAgreement`).
- **Ring** (`RingBuffer`, `Monitor`): the ring in memory, and a state machine of any number of threads
  over its critical sections with sleeping, notification and spurious wake-ups.
- **End to end** (`Gateway`, `GatewayRuns`, `GatewayProgress`): ring, sender, reconnects and Python receivers
  as one state machine; what its runs end with, told by their events; and what can always still happen.
- **Small services** (`MesHandler`, `AiResultText`, `AiResultFields`, `AiAlarm`, `TcpServer`): the AI result
  text and its parser, the alarm, and the request/reply server. `Options` and `Selections` hold what the
  modules share.

Bytes are the integers 0 to 255. TCP is a byte sequence of which any prefix arrives in any pieces.
The kernel's answers to `write` are a finite list carried by the socket. A critical section of the ring
is one step, because one mutex guards all of it. The results of `malloc` are such a list too.

Five places where the code does less than its comments or its callers expect, each stated as a theorem:

- The Python reader is "compatible with" the C one (`ai_receiver.py:100`) only on clean streams:
  it never compares the check byte, and a zero-length packet stops it for good. The condition is exact
  (`ReaderAgreement.ReadersAgreeIff`), and each half has its family of streams on which the two differ
  (`ReaderAgreement.ReadersDifferOnDamage`, `ReaderAgreement.ReadersDifferAfterEmpty`).
- The check byte confines the damage of one changed byte to its packet if and only if the byte is not
  one of the two length bytes (`StreamGuarantees.DamageContainedIff`).
- The two reassemblers agree only when a start declares 1 to 614400 bytes in exactly four bytes
  (`FrameAssembly.StartAgreesIff`).
- The C parser never finds the defect type in a result printed by Python, whose JSON has a space after
  each colon (`AiResultText.PyTypeNeverFound`).
- The callers of the C reader keep the value buffer in a local of the function that reads the socket,
  so a packet whose body straddles two calls is judged on memory that was not kept. The calls report
  what one reading would, whatever that memory holds, if and only if no call that begins inside a body
  completes a packet (`ValueBuffer.CallsAgreeIff`), and so it is for alarms (`AiAlarm.AlarmCountIff`).

## Model

| member | source | states |
|---|---|---|
| Tlv.SplitCoversAllBytes | gateway_vm_backup/src/tlv_protocol.c:44-82 | any bytes are whole units followed by an unfinished packet; nothing is skipped or counted twice |
| Tlv.SplitIsUnique | gateway_vm_backup/src/tlv_protocol.h:4-5 | there is only one such splitting, so packed units are recovered as they were |
| TlvProtocol.TlvChecksum | gateway_vm_backup/src/tlv_protocol.c:8-14 | the loop computes the byte each of whose bits is the parity of that bit over tag, both length bytes and all value bytes |
| Bytes.XorIsBitwise | gateway_vm_backup/src/tlv_protocol.c:10-12 | exclusive or as `^` computes it: each bit of the result is the parity of the two bits there |
| Bytes.BinaryDigits | gateway_vm_backup/src/tlv_protocol.c:10-12 | those bits are the binary digits of the byte, for ones, twos, fours up to 128 |
| WireBytes.SoundIffEvenParity | gateway_vm_backup/src/tlv_protocol.c:70-80 | a packet passes the check if and only if each bit is set in an even number of all its bytes |
| WireBytes.PackedBytes | gateway_vm_backup/src/tlv_protocol.c:22-28 | the packed bytes one by one: tag, length with the high byte first, value, and a check byte that makes the parity even |
| TlvProtocol.TlvPack | gateway_vm_backup/src/tlv_protocol.c:16-29 | writes exactly the encoding and its size, or returns 0 when it does not fit; the rest of the buffer is untouched |
| TlvProtocol.TlvReader.Init | gateway_vm_backup/src/tlv_protocol.c:31-37 | back to an empty header, leaving tag and length of the last packet behind |
| TlvProtocol.TlvReader.TakeHeader | gateway_vm_backup/src/tlv_protocol.c:48-60 | one header byte; the third one decodes tag and length |
| TlvProtocol.TlvReader.TakeBody | gateway_vm_backup/src/tlv_protocol.c:62-68 | one body byte, kept only if the caller's buffer has room, counted in 16 bits |
| TlvProtocol.TlvReader.TakeCrc | gateway_vm_backup/src/tlv_protocol.c:70-80 | the check byte decides between the length and -1, and the reader starts over |
| TlvProtocol.TlvReader.Read | gateway_vm_backup/src/tlv_protocol.c:39-84 | a call of any length does what the step function says: fields, buffer, return value and tag |
| StreamReading.RunFollowsSplit | gateway_vm_backup/src/tlv_protocol.c:39-84 | from every state and for every byte stream the reader reports the verdicts of the unique split, and its 8- and 16-bit counters, which therefore never wrap, and its buffer hold exactly the unfinished rest |
| StreamReading.RunConcat | gateway_vm_backup/src/tlv_protocol.c:39-84 | how the bytes are split over reads makes no difference while one value buffer is kept |
| StreamGuarantees.PrefixDecoding | gateway_vm_backup/src/tlv_protocol.c:39-84 | on any prefix of packed packets exactly the packets wholly inside are accepted, and the state holds exactly the bytes of the cut one |
| StreamGuarantees.DamageIsSeen | gateway_vm_backup/src/tlv_protocol.c:8-14 | changing any one tag, value or check byte breaks the check |
| StreamGuarantees.DamageAndResynchronise | gateway_vm_backup/src/tlv_protocol.c:70-80 | such a packet is rejected exactly at its last byte, and every packet before and after is accepted unchanged |
| StreamGuarantees.DamageContainedIff | gateway_vm_backup/src/tlv_protocol.c:48-80 | for every packet, every changed byte and all packets around it: the damage is contained in this way if and only if the byte is not one of the two length bytes |
| StreamGuarantees.ReturnsToHeader | gateway_vm_backup/src/tlv_protocol.c:44-82 | any 65539 consecutive bytes bring the reader back to an empty header |
| StreamGuarantees.FeedStopsAtFirstReport | gateway_vm_backup/src/tlv_protocol.c:42-83 | a bulk call equals single-byte calls through the byte that completes a packet, and never reads what follows |
| StreamGuarantees.AnyBufferSize | gateway_vm_backup/src/tlv_protocol.c:62-80 | with a value buffer of any size, the value is kept as far as it fits, judged by what was kept, and reported with its whole length |
| ValueBuffer.BufferReplaceableIff | gateway_vm_backup/src/gateway_app.cpp:137-147 | replacing the value buffer between two calls is harmless for all that may follow if and only if no body byte was taken |
| ValueBuffer.UndisturbedCallsAgree | gateway_vm_backup/src/frame_receiver.c:123-134 | calls report what one uninterrupted reading reports, whatever their buffers held, when none that begins inside a body completes a packet |
| ValueBuffer.CallsAgreeIff | gateway_vm_backup/src/frame_receiver.c:123-134 | for every state, every stream and every way to split it over calls, that condition is exact: otherwise some buffers make the calls report something else |
| FrameCodec.EncodeFrameSize | gateway_vm_backup/src/frame_sender.c:35-66 | a frame of L bytes costs 8 + L + 4 * ceil(L / 32768) bytes |
| WireBytes.StartBytes | gateway_vm_backup/src/frame_sender.c:37-45 | a frame of n bytes is announced by eight bytes of tag 0x22 with n in four bytes, the highest first |
| WireBytes.FullFrameStart | gateway_vm_backup/src/frame_sender.c:37-45 | the announcement of a frame of 614400 bytes is 22 00 04 00 09 60 00 4F |
| WireBytes.ChunkIs | gateway_vm_backup/src/frame_sender.c:47-65 | behind it come ceil(L / 32768) packets of tag 0x20, of 32768 bytes each and the last of the rest, in order |
| FrameSender.Socket.Write | gateway_vm_backup/src/frame_sender.c:23-30 | what each answer of write does: take that many bytes at most, ask to try again, or fail |
| FrameSender.Socket.SendAll | gateway_vm_backup/src/frame_sender.c:19-33 | success means the whole buffer went out in order, failure a proper prefix of it; it fails only at an answer that is an error or takes nothing, and succeeds only without one |
| FrameSender.Socket.SendFrame | gateway_vm_backup/src/frame_sender.c:35-66 | success means the whole encoding of the frame went out, failure a proper prefix of it; it fails only because an answer of the socket stopped it or malloc failed |
| FrameReceiver.Client.constructor | gateway_vm_backup/src/frame_receiver.c:109-112 | a new client has a fresh reader and an inactive assembly |
| FrameReceiver.Client.OnPacket | gateway_vm_backup/src/frame_receiver.c:136-181 | the switch updates the assembly in place as the gathering function says; the heartbeat reply never fits, so nothing is written |
| FrameReceiver.Client.StoreData | gateway_vm_backup/src/frame_receiver.c:149-163 | FRAME_DATA is clipped to the declared total, skipped if it would overrun the array, and saves a full frame |
| FrameReceiver.Client.Receive | gateway_vm_backup/src/frame_receiver.c:131-183 | the read loop gathers exactly the packets that the reader accepts |
| StreamReading.SessionHands | gateway_vm_backup/src/frame_receiver.c:131-136 | the loop that acts after each byte acts on exactly the packets that the reader accepts, in order |
| AiReceiver.Crc8 | gateway_vm_backup/src/ai_receiver.py:62-67 | the XOR of all bytes: each bit is the parity of that bit over them |
| AiReceiver.TlvPack | gateway_vm_backup/src/ai_receiver.py:69-76 | the same bytes as the C packer, or an error above 65535 bytes |
| AiReceiver.ChecksumIsCrc8 | gateway_vm_backup/src/ai_receiver.py:75-76 | the Python check over the packed bytes is the C check over tag, length and value |
| AiReceiver.TLVReader.Feed | gateway_vm_backup/src/ai_receiver.py:112-135 | the loop follows the step function and returns at the first packet |
| AiReceiver.FrameReassembler.Feed | gateway_vm_backup/src/ai_receiver.py:145-157 | start, data and completion update the fields in place; a start without four bytes raises |
| AiReceiver.ClientThread.Receive | gateway_vm_backup/src/ai_receiver.py:277-287 | the loop over received bytes: frames so far, and nothing after an exception |
| ReaderAgreement.PyRunFollowsSplit | gateway_vm_backup/src/ai_receiver.py:112-135 | the Python reader hands out every unit of the unique split before the first empty one, damaged or not, and then waits forever |
| ReaderAgreement.PyFeedStopsAtFirstPacket | gateway_vm_backup/src/ai_receiver.py:112-135 | a bulk call reads byte by byte to the first complete packet, hands it out and drops what follows |
| ReaderAgreement.ReadersAgreeIff | gateway_vm_backup/src/ai_receiver.py:99-135 | both readers hand out the same packets at the same bytes of any stream if and only if every check before the first empty packet is right and no good packet follows it |
| ReaderAgreement.ReadersDifferOnDamage | gateway_vm_backup/src/ai_receiver.py:127-133 | every non-empty packet with a changed tag, value or check byte: the C reader hands out nothing, the Python reader hands the damaged packet out |
| ReaderAgreement.ReadersDifferAfterEmpty | gateway_vm_backup/src/ai_receiver.py:112-135 | an empty packet before any good packets: the C reader hands all of those out, the Python reader none |
| ReaderAgreement.PackedStreamsAgree | gateway_vm_backup/src/ai_receiver.py:99-135 | on any prefix of packed non-empty packets both hand out exactly the packets wholly inside |
| FrameAssembly.PyFrame | gateway_vm_backup/src/ai_receiver.py:145-157 | from any reassembler state the packets of a frame deliver it with the last one and not before, and leave it idle |
| FrameAssembly.CFrame | gateway_vm_backup/src/frame_receiver.c:137-163 | the same for the C receiver, for 1 to 614400 bytes |
| FrameAssembly.NoHoles | gateway_vm_backup/src/frame_receiver.c:137-163 | for all packet histories: a frame is saved if and only if its start declared at most 614400 bytes and this packet completes it, and it is exactly the first declared-total data bytes since that start |
| FrameAssembly.SavedExactly | gateway_vm_backup/src/frame_receiver.c:137-163 | the same in plain numbers: behind the latest packet of tag 0x22 with at least four bytes, which frame the next packet saves, if any, told from the packets alone |
| FrameAssembly.NothingSavedBeforeStart | gateway_vm_backup/src/frame_receiver.c:137-163 | before such a packet nothing is saved |
| FrameAssembly.SkippedCopyIsNeverSaved | gateway_vm_backup/src/frame_receiver.c:154-157 | the branch that skips a copy is taken only for totals that are never saved |
| FrameAssembly.DeliveredExactly | gateway_vm_backup/src/ai_receiver.py:145-157 | the same for Python: which frame the next packet delivers behind the latest start, for every packet history without a bad start |
| FrameAssembly.RaisesIff | gateway_vm_backup/src/ai_receiver.py:146-147 | an exception ends the connection if and only if some start does not carry exactly four bytes |
| FrameAssembly.EndedForGood | gateway_vm_backup/src/ai_receiver.py:277-287 | after that nothing is handed out any more |
| FrameAssembly.ReassemblersAgree | gateway_vm_backup/src/ai_receiver.py:145-157 | in any order of usual packets both reassemblers deliver the same frames at the same packets |
| FrameAssembly.StartAgreesIff | gateway_vm_backup/src/frame_receiver.c:137-147 | after a start they agree whatever data follows if and only if it declares 1 to 614400 bytes in exactly four |
| FrameStreams.FrameRoundTripPy | gateway_vm_backup/src/frame_sender.c:35-66 | sender, Python reader and reassembler: exactly that frame, once, and idle afterwards, from any reassembler state |
| FrameStreams.FrameRoundTripC | gateway_vm_backup/src/frame_sender.c:35-66 | the same through the C reader and the C assembly |
| FrameStreams.ConnectionDelivers | gateway_vm_backup/src/ai_receiver.py:266-287 | any prefix of the encoding of any frames delivers exactly the frames wholly inside it, byte for byte |
| FrameStreams.ConnectionDeliversC | gateway_vm_backup/src/frame_receiver.c:131-163 | the same for the C receiver, whatever frame was still open |
| FrameStreams.ClientConcat | gateway_vm_backup/src/ai_receiver.py:266-278 | how recv splits the bytes makes no difference |
| RingBuffer.PushAppends | gateway_vm_backup/src/ring_buffer.h:25-37 | push appends the frame, or its first 614400 bytes, to the queue, or waits exactly when four are there, or is refused exactly when closed |
| RingBuffer.PopTakesOldest | gateway_vm_backup/src/ring_buffer.h:40-51 | pop takes the oldest frame, also from a closed ring; it is refused only when closed and empty |
| RingBuffer.RingBuffer.PushSection | gateway_vm_backup/src/ring_buffer.h:25-37 | one critical section of push on the rows, lengths and indices in memory is one step of the ring |
| RingBuffer.RingBuffer.PopSection | gateway_vm_backup/src/ring_buffer.h:40-51 | one critical section of pop copies out the frame and is one step of the ring |
| RingBuffer.RingBuffer.Close | gateway_vm_backup/src/ring_buffer.h:54-59 | only the closed flag changes |
| Monitor.StepKeepsInv | gateway_vm_backup/src/ring_buffer.h:25-59 | every step of every thread keeps the FIFO and the wake-up invariant |
| Monitor.EveryReachableState | gateway_vm_backup/src/ring_buffer.h:25-59 | in every state of every run: pushes equal pops followed by the live slots; sleepers are covered by woken threads; nobody sleeps once closed |
| Monitor.EveryCallAccounted | gateway_vm_backup/src/ring_buffer.h:25-51 | over every run, closed or not: calls of push begun are frames put in plus calls refused plus threads inside push, and likewise for pop |
| Monitor.EveryFrameAccounted | gateway_vm_backup/src/ring_buffer.h:25-37 | over every run and for every frame x: as often as x was given to push, cut to 614400 bytes, it was put in, was refused, or is with a thread inside push |
| Monitor.OnePusherInOrder | gateway_vm_backup/src/ring_buffer.h:25-37 | with one pushing thread: what it gave to push is, in order, what was put in, then what close refused, then what it has in hand |
| Monitor.OwnStepIffAwake | gateway_vm_backup/src/ring_buffer.h:25-51 | a thread can go on if and only if it is not asleep; outside it may call push with any frame, or pop; asleep it may wake for no reason |
| Monitor.WhoMoves | gateway_vm_backup/src/ring_buffer.h:35-58 | a step moves the thread that takes it and, besides, the one sleeper that a successful call notifies, or all sleepers at close |
| Monitor.NoThreadStuck | gateway_vm_backup/src/ring_buffer.h:27-42 | a thread asleep although it may go is covered by as many woken threads of its side, ready to run, as there are frames or slots; sleepers on both sides mean at least four woken threads |
| Monitor.ClosedMeansNextStepReturns | gateway_vm_backup/src/ring_buffer.h:54-59 | once closed, every thread inside push or pop has a step of its own and returns with it |
| Monitor.ShutdownIsBounded | gateway_vm_backup/src/ring_buffer.h:54-59 | with nobody entering, own steps after close plus threads still inside equal the threads that were inside |
| Monitor.ClosedRingDrains | gateway_vm_backup/src/ring_buffer.h:28-43 | after close no push succeeds, and at most four pops do, giving the left-over frames in order |
| Gateway.StepKeepsInv | gateway_vm_backup/src/gateway_app.cpp:246-276 | every step of ring, sender, network and receivers keeps the system invariant |
| Gateway.SendFrameIsCovered | gateway_vm_backup/src/gateway_app.cpp:251-263 | everything the contract of fs_send_frame allows is a step of the system |
| Gateway.SettledAndDelivered | gateway_vm_backup/src/gateway_app.cpp:251-263 | when all written bytes arrive, at most the one frame whose sending failed is missing |
| GatewayRuns.EndToEnd | gateway_vm_backup/src/gateway_app.cpp:246-266 | over whole runs with any reconnects: each receiver has exactly the frames wholly inside its bytes; frames popped, pushed and offered by the camera are prefixes of each other; and all received frames are, in connection order, a subsequence of those offered |
| GatewayRuns.EveryStateHasItsCauses | gateway_vm_backup/src/gateway_app.cpp:243-276 | over whole runs, from the events alone: the network thread has stopped if and only if it was told to, connections are one for each connect and at most one more than failed sends, and frames popped, frames sent and bytes written and delivered are those the events say |
| GatewayProgress.EveryFrameCanArrive | gateway_vm_backup/src/gateway_app.cpp:246-266 | from every reachable state in which it was not stopped, the network thread's own steps can bring every frame of the ring whole to one receiver, on the connection it has or, having lost it, on a new one |
| GatewayProgress.SentGoesOn | gateway_vm_backup/src/gateway_app.cpp:246-251 | after a frame was sent whole, the next one in the ring can begin on the same connection |
| GatewayProgress.AnyBytesMayArrive | gateway_vm_backup/src/ai_receiver.py:266-287 | any part of what was written may arrive, on any connection, at any time |
| GatewayProgress.TheSocketIsFree | gateway_vm_backup/src/frame_sender.c:23-30 | the socket may take any part of what is left of a frame, and fail as long as something is left |
| GatewayProgress.TheCameraIsFree | gateway_vm_backup/src/gateway_app.cpp:194-204 | the capture thread may push any non-empty frame whenever it is not inside push |
| MesHandler.AtoiOfSigned | gateway_vm_backup/src/mes_handler.c:131-132 | atoi undoes %d, with or without one space in front |
| MesHandler.DecimalIsUsual | gateway_vm_backup/src/mes_handler.c:101-102 | %d prints digits without a zero in front, and they stand for the number |
| MesHandler.AtoiReads | gateway_vm_backup/src/mes_handler.c:131-132 | atoi skips any spaces, takes a sign or none, reads digits and stops at whatever is no digit |
| MesHandler.SearchedIs | gateway_vm_backup/src/mes_handler.c:125-128 | what is searched are the bytes before the first zero, at most 512 of them |
| MesHandler.ParseAiResult | gateway_vm_backup/src/mes_handler.c:121-150 | flag, type cut to the caller's buffer with its zero, and the text given to atof; the type buffer is untouched when no type is found; with a buffer of size zero a found type is written outside it |
| AiResultText.FieldsRead | gateway_vm_backup/src/mes_handler.c:130-147 | in any text, flag and confidence are read behind the first of their keys, and default when there is none |
| AiResultText.TypeRead | gateway_vm_backup/src/mes_handler.c:135-144 | in any text, the type reaches from behind the first of its keys to the next quote, and without a quote there is none |
| AiResultText.PackAiResult | gateway_vm_backup/src/mes_handler.c:93-105 | the packet of the printed text, or 0 when the text needs 512 characters or the frame is too small |
| AiResultText.ConfFound | gateway_vm_backup/src/mes_handler.c:146-147 | the conf key is found where it was printed, even when the type is the word conf |
| AiResultText.PrinterAndParser | gateway_vm_backup/src/mes_handler.c:93-150 | for every flag and quote-free type that fits, parsing the printed text gives both back, and atof is given the printed confidence and a comma |
| AiResultText.TypeArrivesCut | gateway_vm_backup/src/mes_handler.c:93-144 | printed and parsed, the type arrives in the caller's buffer cut to its size less one and ended with a zero, the rest of the buffer unchanged |
| AiResultText.PyDefectParsed | gateway_vm_backup/src/ai_receiver.py:79-89 | the C parser finds the flag of every Python result, whatever the type text is |
| AiResultText.PyTypeNeverFound | gateway_vm_backup/src/mes_handler.c:135-144 | it never finds the type of a Python result, whatever the escaped type text is |
| AiResultText.PyConfFound | gateway_vm_backup/src/mes_handler.c:146-147 | the confidence of every Python result shorter than 512 characters is found as printed, whatever the escaped type text is |
| AiResultFields.CBoxReads | gateway_vm_backup/src/mes_handler.c:101-102 | in the C text the first bbox key is the printed one, and the numbers behind it are x, y, width and height, in that order |
| AiResultFields.PyBoxReads | gateway_vm_backup/src/ai_receiver.py:79-89 | the same for the Python text, whatever the escaped type text is |
| AiResultFields.PyTypeStands | gateway_vm_backup/src/ai_receiver.py:83-88 | behind its key the Python text has the type and behind that the confidence |
| AiAlarm.NetworkThread.HandleAiResult | gateway_vm_backup/src/gateway_app.cpp:137-168 | the alarms of one call are those of the accepted AI_RESULT packets with a nonzero flag |
| AiAlarm.AlarmCount | gateway_vm_backup/src/gateway_app.cpp:145-166 | over any cut of the stream and any split over calls none of which begins inside a body and completes the packet: one alarm for each result wholly received whose flag is not zero, in order, and no other |
| AiAlarm.AlarmsInside | gateway_vm_backup/src/gateway_app.cpp:145-166 | with one value buffer that is kept, the same for any split at all |
| AiAlarm.AlarmCountIff | gateway_vm_backup/src/gateway_app.cpp:137-147 | for streams of defective results that condition is exact: otherwise some contents of the buffers give other alarms |
| TcpServer.MesPackAck | gateway_vm_backup/src/mes_handler.c:85-91 | the acknowledgement text always fits its sixteen bytes and is packed as a MES_ACK |
| TcpServer.AckTextReads | gateway_vm_backup/src/mes_handler.c:88 | the acknowledgement of any tag is the JSON text with that number in it |
| TcpServer.Client.OnPacket | gateway_vm_backup/src/tcp_server.c:120-131 | a packet of tag 0x01 is answered with tag 0x02 and the text {"pong":1}, one of tag 0x10 with tag 0x11 and {"ack":16}, any other with nothing |
| TcpServer.Client.Receive | gateway_vm_backup/src/tcp_server.c:112-135 | the reply bytes of a read are the encoded answers to the accepted packets |
| TcpServer.RepliesMatchRequests | gateway_vm_backup/src/tcp_server.c:112-135 | for every input the replies decode to those packets, one for each accepted packet of tag 0x01 or 0x10, in request order and nothing else |

## Left out

- Sockets, epoll, accept, connect, timeouts and sleeps: replaced by byte sequences, arbitrary splits and a list of write answers.
- FrameSender.Socket.SendAll: a kernel that answers EAGAIN forever is not a run here; a list of answers that has run out counts as a failure.
- FrameSender.Socket.Write: SIGPIPE. A write answered with EPIPE raises it, gateway_app.cpp:298-299 handles only SIGINT and SIGTERM, and so this failure ends the process instead of being reported.
- GatewayRuns.EndToEnd: for the same reason, the reconnect after a failed write is reached only for failures other than EPIPE.
- RingBuffer.RingBuffer.PushSection: a critical section is one step; the mutex and the two condition variables themselves are assumed to do what C++11 says.
- GatewayProgress.EveryFrameCanArrive: says what can happen, not that a scheduler or a network makes it happen.
- Gateway.StepKeepsInv: after a refused push or pop the program's threads end; here they may call again, and are refused again.
- The flag g_running and the signal handler appear only as the closing of the ring, at any time, and the Stop step, whenever the network thread is not inside pop or sending; that every thread then ends is stated for the ring alone.
- FrameReceiver.Client.Receive: the value buffer is a parameter; what happens when it does not survive between reads is stated in ValueBuffer for the reader.
- FrameReceiver.Client.StoreData: opening and writing the file of a saved frame; a call of save_frame is an entry in a list.
- AiReceiver.ClientThread.Receive: answers to heartbeats and events, detection, files and printing.
- MesHandler.ParseAiResult: what a write outside a type buffer of size zero does (mes_handler.c:140 takes one from the size, which wraps); the model reports that it happens. Also null out-parameters, the value that atof makes of the confidence, and numbers beyond int, for which atoi is undefined.
- AiResultText.PackAiResult: the confidence is the text that %.2f makes of it, not a floating-point number.
- AiResultText.PyTypeNeverFound: json.dumps is represented by the property of its escaping that matters, a backslash before every inner quote.
- AiAlarm.AlarmCountIff: stated for streams whose results all report a defect; a packet that raises no alarm may be lost without changing the alarms.
- AiAlarm.NetworkThread.HandleAiResult: the GPIO work of trigger_alarm; a call is an entry in a list.
- TcpServer.Client.OnPacket: a reply that write takes only in part.
- TlvProtocol.TlvPack: a null value pointer with a nonzero length.
- Camera capture, kernel drivers, GPIO, YOLO and OpenCV detection: hardware and foreign libraries; a captured frame is any non-empty byte string.
- tcp_client.c, the stdin menu, and the event and heartbeat texts with their timestamps: timers and printing that would add easy members only.
- gateway/src: the same code as gateway_vm_backup/src for the files present in both.
