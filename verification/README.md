# Crownstone router firmware: a verified model

The Crownstone router runs on an ESP32 and carries packets between serial lines, a BLE
peripheral, a cloud server (over a WebSocket) and an application processor (the "CM4", over a
framed UART). This project models how it does that and proves what the parts promise each other.

- `Bytes`, `Crc`, `Protocol`: little-endian words, the frame check of appendix C.2 of RFC 1662, the
  packet layouts as pure encoders, the loaders' views of a buffer, and a decoder for the far end.
- `PacketCodec`: the wrap and load functions over a reused scratch array.
- `MessageQueue`: the message queue with its reading thread.
- `Router`, `Register`, `PacketHandling`: the handler register, incoming and outgoing packets;
  functions on the register, and the object whose methods update it and the queue in place.
- `OneSlot`, `RouterRuns`: the router as a step machine, with its accounting over every run.
- `UartModel`, `UartRuns`, `UartDriver`: the interrupt handler that shares one buffer and counter
  between receiving and sending, over every run, and the object.
- `Pipeline`: the stages together, from received bytes to the packet left for the cloud and back.
- `SystemRuns`: a UART and the router as one machine, over every interleaving of their steps.
- `BleLink`, `BleReassembly`, `BleDiscovery`, `BleCentralDriver`: connection state, chunked
  notifications and long reads, the discovery walk, and the object.
- `WebSocketDriver`, `ServiceUuids`: the receive loop; UUID parsing, patching and comparison.

How the model stands to the code:

- Code that changes state is a class or a method on arrays. Each such method is proved against a
  function on values, and the theorems are about these functions. Slots of the handler array and
  message buffers are values inside their array or field, as the C++ copies them by value.
- Threads are cooperative, so an interrupt, a work item, and the round of a thread behind its wait
  for the queue are atomic steps. A handler that sleeps before it reconnects is two steps with
  anything in between. Whether the Bluetooth stack delivers further callbacks while an earlier one
  sleeps is not in this repository: `RescanIff` and `UserTerminationMayRescan` allow it,
  `SerialCallbacksRescanIff` says what holds if it does not.
- Calls into the operating system are parameters or events: outcome codes, received bytes, room in
  the output FIFO, attributes delivered by the GATT client. A work item is a "queued" flag. A
  message queue hands an item to its reader when that waits, and otherwise stores it in the next
  cell of a ring buffer; this is how Zephyr documents `k_msgq_put`.
- The C++ code does not check lengths or NULL handlers. Where it would leave its buffers or follow
  a NULL pointer the model has no step; the predicates `IncomingSafe`, `OutgoingSafe` and
  `UnregisterInBounds` say exactly when. The frame check is a value the loader yields.

Where the code does not do what its comments or names say, the model follows the code:

- `unregisterHandler` (lines 368-377) advances the outer index in its shifting loop. It removes the
  handler only if that was registered last; otherwise it keeps it and loses others
  (`UnregisterRemovesIff`, `UnregisterLosesOthers`, `CodedRegisterRefinesMapIff`). A handler kept
  twice takes the slot another one needs, so that seven ids can fill eight slots
  (`CodedRunOverflows`, `CodedRefillFitsIff`). The shift its comment describes is
  `UnregisterByShifting`; `RegisterRefinesMap` and `SevenSlotsSuffice` are about that.
- The message queue is given room for 14 packets and a capacity of 250 (line 303): it stays in its
  storage exactly as long as at most 14 packets went through its ring buffer in all
  (`QueueStaysInStorageIff`). Packets that find the thread waiting never use the ring buffer
  (`AwaitedPacketsNeedNoStorage`); fifteen that come before the thread first runs leave the storage
  (`FifteenPacketsLeaveStorage`).
- A failed frame check is logged and the packet handled (`FailedCheckIsDelivered`).
- A frame of the application processor does not survive the line reader, which measures the buffer
  as a string (`NoFrameSurvives`, `FrameThroughLineReader`).
- The comment at the full UART queue promises a retry; the code drops the line with the purge.
- The comment on the serial parameters asks for 11 bits in all; without a parity bit the code takes
  the stop bits as they are given.
- Nothing keeps a UART message from being sent while an earlier one drains; what the earlier one
  still has in the buffer is lost then (`ListeningMeansAllSent`, `SecondSend`).
- `disconnect` is documented to cancel a pending connection; the cancelled attempt is retried
  (`CancelIsRetried`). A link its user terminated can be scanned for again when an older handler is
  still asleep (`RescanIff`, `UserTerminationMayRescan`).
- A failed long read, and a WebSocket connection that fails, submit the part that arrived
  (`LongReadDeliveredIff`, `FailureSubmitsPart`). A connection that fails between messages submits
  an empty packet, which reads as a control packet for the id UNKNOWN; with that id unregistered
  its handling follows a NULL handler (`EarlyFailureSafeIff`).

## Model

| member | source | states |
|---|---|---|
| `Crc.ShiftInNumbers` | src/cs_PacketHanding.cpp:41-43 | a register step is the shift-and-combine with 0x8408 of RFC 1662 |
| `Crc.KnownCheck` | src/cs_PacketHanding.cpp:43 | a check value in full: over the bytes 1 and 0 with seed 0xFFFF it is 0xE960 |
| `Crc.CheckedExactly` | src/cs_PacketHanding.cpp:128-131 | data and two trailer bytes leave the zero register iff the trailer is the check value of the data |
| `Crc.FeedLinear` | src/cs_PacketHanding.cpp:43 | the check is linear: the register of combined messages is the combination of the registers |
| `Crc.BurstChangesRegister` | src/cs_PacketHanding.cpp:127-131 | nonzero damage within 16 consecutive bits of an intact string leaves a nonzero register |
| `Crc.OddDamageChangesRegister` | src/cs_PacketHanding.cpp:127-131 | so does damage to an odd number of bits, wherever they are |
| `Protocol.FrameRoundTrip` | src/cs_PacketHanding.cpp:113-135 | of a wrapped frame followed by any bytes the loader recovers every field and the payload, and the check passes |
| `Protocol.FrameResidue` | src/cs_PacketHanding.cpp:41-44 | over everything after the length, trailer included, the CRC of a wrapped frame is 0 |
| `Protocol.CheckIsResidue` | src/cs_PacketHanding.cpp:123-134 | the loader's comparison passes iff the register ends at zero over the range the wrapper checked |
| `Protocol.DamageFailsCheck` | src/cs_PacketHanding.cpp:123-134 | a burst of up to 16 bits, or an odd number of flipped bits, behind the length field makes the comparison fail |
| `Protocol.RoutedLength` | src/cs_PacketHanding.cpp:31-104 | the nested encoding adds 7 or 10 bytes to the payload, 14 or 17 towards the application processor |
| `Protocol.RoutedRoundTrip` | src/cs_PacketHanding.cpp:218-257 | whatever is routed, the receiver decodes to exactly the message |
| `Protocol.RoutedCanonical` | include/cs_RouterProtocol.h:28-117 | the decoder accepts nothing but encodings: encoding what it read gives the bytes back |
| `Protocol.ControlRoundTrip` | src/cs_PacketHanding.cpp:144-179 | the loaders recover every field of a control packet anywhere in a buffer, and its payload |
| `Protocol.FrameBytes` | include/cs_RouterProtocol.h:28-35 | a UART frame byte by byte, in numbers: start token, low byte of the length first, version, type, payload, check |
| `Protocol.EmptyFrame` | src/cs_PacketHanding.cpp:28-47 | the shortest frame in full, all seven bytes |
| `Protocol.GenericBytes` | include/cs_RouterProtocol.h:54-59 | the generic packet of a data or result message byte by byte |
| `Protocol.BodyBytes` | include/cs_RouterProtocol.h:98-117 | data and result packets byte by byte |
| `Protocol.ControlBytes` | include/cs_RouterProtocol.h:80-87 | a control packet byte by byte |
| `Protocol.OnlyFourIsFramed` | src/cs_PacketHanding.cpp:243-253 | a message for handler 4 is framed, a message for any other is the generic packet itself |
| `PacketCodec.WrapUartPacket` | src/cs_PacketHanding.cpp:28-47 | the array starts with exactly the frame, its rest is untouched, the length is the frame's |
| `PacketCodec.WrapGenericPacket` | src/cs_PacketHanding.cpp:59-67 | the same for the generic packet |
| `PacketCodec.WrapDataPacket` | src/cs_PacketHanding.cpp:79-86 | the same for the data packet |
| `PacketCodec.WrapResultPacket` | src/cs_PacketHanding.cpp:91-105 | the same for the result packet |
| `PacketCodec.LoadUartPacket` | src/cs_PacketHanding.cpp:113-135 | the running counter reads the fields at their layout positions and checks the range up to the trailer |
| `PacketCodec.LoadGenericPacket` | src/cs_PacketHanding.cpp:144-158 | the same for the generic header |
| `PacketCodec.LoadControlPacket` | src/cs_PacketHanding.cpp:167-179 | the same for the control header |
| `PacketCodec.BuildRouted` | src/cs_PacketHanding.cpp:221-253 | three layers built in one 250-byte scratch array with temporary copies are the pure nested encoding; no write leaves the array |
| `Router.OutgoingFits` | src/cs_PacketHanding.cpp:218-257 | an outgoing packet can be handled iff its payload has at most 243 or 240 bytes to the cloud, 236 or 233 to the application processor |
| `Router.ControlDelivered` | src/cs_PacketHanding.cpp:184-213 | a control packet, plain or framed, followed by any bytes, puts exactly its payload, request id and command in its destination's slot and changes no other |
| `Router.FailedCheckIsDelivered` | src/cs_PacketHanding.cpp:127-134 | with any other check value the comparison fails and the packet is delivered all the same |
| `Router.ShortPacketSafeIff` | src/cs_PacketHanding.cpp:196-211 | an incoming packet of at most six bytes, not from the application processor, can be handled iff its type is not control or UNKNOWN is registered |
| `Router.IncomingSafeIff` | src/cs_PacketHanding.cpp:184-213 | in bytes: an incoming packet can be handled iff a frame's length stays in the buffer, and a control packet's payload does and its destination is registered |
| `Router.IncomingExactly` | src/cs_PacketHanding.cpp:204-211 | in bytes: which field of which slot an incoming packet sets, and to what; all others stay |
| `Router.OutgoingExactly` | src/cs_PacketHanding.cpp:225-259 | the same for an outgoing packet: the source's request is cleared, the destination's mailbox filled and queued, and no slot changes its id, instance or anything else |
| `Register.AddLookup` | src/cs_PacketHanding.cpp:338-347 | after registration the id is found with its instance and every other lookup is unchanged |
| `Register.RemoveLookup` | src/cs_PacketHanding.cpp:370-375 | the intended removal takes away exactly that id; other lookups give the same slot |
| `Register.RegisterRefinesMap` | src/cs_PacketHanding.cpp:338-370 | with the removal the comment describes: over every sequence of operations ids stay distinct and lookups agree with a finite map |
| `Register.UnregisterRemovesIff` | src/cs_PacketHanding.cpp:368-377 | the coded loop leaves the register without the id iff the id is absent or registered last |
| `Register.UnregisterLosesOthers` | src/cs_PacketHanding.cpp:371-374 | otherwise the id stays registered, and its predecessor and the last handler are gone |
| `Register.UnregisterExactly` | src/cs_PacketHanding.cpp:371-375 | slot by slot: the slot before the found one becomes a copy of it, the last is cut off, all others stay |
| `Register.UnregisterMiddleOfThree` | src/cs_PacketHanding.cpp:371-374 | a concrete register of three in which this happens |
| `Register.UnregisterAgreesIff` | src/cs_PacketHanding.cpp:368-377 | the same condition, with writes before the array counted as failure |
| `Register.CodedRegisterRefinesMapIff` | src/cs_PacketHanding.cpp:359-383 | lookups in the coded register agree with the map at every step of a run iff the run only unregisters absent ids and the last handler |
| `Register.SevenSlotsSuffice` | src/cs_PacketHanding.cpp:346-370 | with the removal the comment describes, and while UNKNOWN is never registered, no sequence of operations needs an eighth slot |
| `Register.CodedSevenSlotsSuffice` | src/cs_PacketHanding.cpp:346-377 | as coded this holds for the runs that only unregister absent ids and the last handler |
| `Register.CodedRefillFitsIff` | src/cs_PacketHanding.cpp:346-377 | after any coded run with named ids, registering all seven stays within the array iff no id is registered twice |
| `Register.CodedRunOverflows` | src/cs_PacketHanding.cpp:371-374 | a coded run with named ids only that writes an eighth slot |
| `Register.EightIdsOverflow` | include/cs_RouterProtocol.h:157-166 | registering all eight enumerators does |
| `PacketHandling.PacketHandler.Init` | src/cs_PacketHanding.cpp:294-313 | an empty queue with the capacity the code passes; refused when already initialized |
| `PacketHandling.PacketHandler.RegisterHandler` | src/cs_PacketHanding.cpp:322-352 | appends a slot with the id and the instance, an empty mailbox, nothing queued and nothing owed, or refuses a known id, with the code's return values |
| `PacketHandling.PacketHandler.UnregisterHandler` | src/cs_PacketHanding.cpp:359-383 | the register the loop as written leaves |
| `PacketHandling.PacketHandler.UnregisterByShifting` | src/cs_PacketHanding.cpp:370-375 | the described shift removes exactly the id and keeps the order |
| `PacketHandling.PacketHandler.GetHandler` | src/cs_PacketHanding.cpp:391-405 | the slot with the id, or NULL iff not initialized or not registered |
| `PacketHandling.PacketHandler.HandlePacket` | src/cs_PacketHanding.cpp:414-435 | one step of the machine: the packet joins the backlog, or is refused with the reason and nothing changes |
| `PacketHandling.PacketHandler.HandleIncomingPacket` | src/cs_PacketHanding.cpp:184-213 | the slots after an incoming packet, and the outcome of the frame check |
| `PacketHandling.PacketHandler.HandleOutgoingPacket` | src/cs_PacketHanding.cpp:218-260 | the slots after an outgoing packet: source's request cleared, encoding in the destination's mailbox |
| `PacketHandling.PacketHandler.FetchPacket` | src/cs_PacketHanding.cpp:274-276 | the thread gets the first packet or waits; the backlog stays |
| `PacketHandling.PacketHandler.HandleNextPacket` | src/cs_PacketHanding.cpp:276-284 | the rest of the round is one step of the machine: the packet in the thread's hands is handled by its type and leaves the backlog |
| `PacketHandling.PacketHandler.RunWorkItem` | src/socket/cs_WebSocket.cpp:170-189 | a queued work item is one step of the machine, and what it sends is what the step shows |
| `RouterRuns.RunKeeps` | src/cs_PacketHanding.cpp:184-260 | in every run the fields of every slot are functions of the log of that handler |
| `RouterRuns.RequestAccounting` | src/cs_PacketHanding.cpp:204-233 | per handler: requests = results + superseded + pending, and results are requests in order |
| `RouterRuns.ResultEchoesRequest` | src/cs_PacketHanding.cpp:225-238 | a handler's next packet decodes as the result of the latest control packet to it iff that carried an id and nothing was emitted since |
| `RouterRuns.OutgoingDelivers` | src/cs_PacketHanding.cpp:225-259 | after an outgoing packet the destination's mailbox decodes to the message and the source owes nothing |
| `RouterRuns.MailboxAccounting` | src/cs_PacketHanding.cpp:206-259 | per handler: dispatched = sent + overwritten + queued, sent in order, the newest is what is queued or was sent last |
| `RouterRuns.QueueIsFifo` | src/cs_PacketHanding.cpp:274-288 | accepted packets are the handled ones, the one in the thread's hands and the queued ones, in order; at most the capacity and one more are on their way |
| `RouterRuns.QueueStaysInStorageIff` | src/cs_PacketHanding.cpp:303 | over every run: all ring cells written lie in the storage for 14 iff the capacity is at most 14 or at most 14 packets went through the ring |
| `RouterRuns.FifteenPacketsLeaveStorage` | src/cs_PacketHanding.cpp:303 | with the capacity of 250, fifteen packets before the thread runs are all accepted, and a cell behind the storage is written |
| `RouterRuns.AwaitedPacketsNeedNoStorage` | src/cs_PacketHanding.cpp:276 | a run in which every packet finds the thread waiting writes no cell at all |
| `RouterRuns.SparedStays` | src/cs_PacketHanding.cpp:184-260 | whatever else a run handles, a handler no packet comes from or goes to, and whose work item does not run, keeps every field |
| `RouterRuns.IdentityStays` | src/cs_PacketHanding.cpp:184-260 | in every run each slot stays bound to the id and the instance it was registered with |
| `RouterRuns.RunWorkExactly` | src/drivers/cs_Uart.cpp:217-238 | a work item clears its queued mark and changes nothing else of any slot |
| `RouterRuns.RegistrationIsInitial` | src/cs_PacketHanding.cpp:338-347 | every sequence of registrations and described removals leaves a state that runs start from, whatever the queue's capacity |
| `RouterRuns.CodedRegistrationIsFresh` | src/cs_PacketHanding.cpp:338-377 | the coded operations leave only registered handlers, each with the instance of a registration, an empty mailbox, nothing queued and nothing owed |
| `UartModel.SplitSnoc` | src/drivers/cs_Uart.cpp:90-107 | the line splitter one byte at a time: finish, force a cut at 255 bytes, or extend |
| `UartModel.JoinedLinesSplit` | src/drivers/cs_Uart.cpp:90-104 | lines of 1 to 255 bytes written with line ends are read back unchanged |
| `UartModel.LineEndsIff` | src/drivers/cs_Uart.cpp:90-107 | a byte behind others ends the line iff it is 10 or 13, and is stored otherwise |
| `UartModel.FirstAndLastByte` | src/drivers/cs_Uart.cpp:91-104 | a line end in front of a line is ignored; the byte behind 255 others ends the line and is lost |
| `UartModel.OneLineIsRead` | src/drivers/cs_Uart.cpp:90-104 | a line of 1 to 255 bytes is read behind 10, 13, or both, and unfinished without |
| `UartModel.EmptyLineIsDropped` | src/drivers/cs_Uart.cpp:91-93 | an end with no byte before it makes no line |
| `UartModel.LongLineIsCut` | src/drivers/cs_Uart.cpp:91-104 | without an end the first 255 bytes are a line, the next byte is dropped and reading goes on |
| `UartModel.PacketExactly` | src/drivers/cs_Uart.cpp:34-51 | every field of the packet of any buffer, in numbers |
| `UartRuns.UartRunKeeps` | src/drivers/cs_Uart.cpp:72-125 | every run, with sends at any moment: finished lines are the splitter's; the bytes to send, without those a later send cut off, are on the wire, in the FIFO or in the buffer; lines = got by the thread + queued + 3 per purge, in order |
| `UartRuns.ListeningMeansAllSent` | src/drivers/cs_Uart.cpp:119-123 | over every run: when reception is on the FIFO is empty, and the wire carries every message whole iff each send during a drain found the buffer empty |
| `UartRuns.DrainBounded` | src/drivers/cs_Uart.cpp:110-124 | in any schedule the productive steps of a drain are bounded by what remains |
| `UartRuns.DrainEnds` | src/drivers/cs_Uart.cpp:110-124 | every schedule without a further send ends the drain if interrupt and hardware run often enough, whatever happens in between |
| `UartRuns.DrainSendsAll` | src/drivers/cs_Uart.cpp:110-124 | any such schedule shifts out exactly what was in FIFO and buffer, and ends with an empty buffer |
| `UartRuns.SecondSend` | src/drivers/cs_Uart.cpp:230-237 | one send during a drain loses exactly the unsent bytes; both messages go out whole iff none were left |
| `UartDriver.LineFor` | src/drivers/cs_Uart.cpp:148-185 | the line parameters keep the bounds of the serial standards except for the application processor, and are refused iff the parity is none of the known ones |
| `UartDriver.Uart.Init` | src/drivers/cs_Uart.cpp:135-212 | the first refusal decides and changes nothing; otherwise the state every UART run starts in |
| `UartDriver.Uart.HandleUartInterrupt` | src/drivers/cs_Uart.cpp:72-125 | the interrupt handler on the shared buffer is one step of the machine |
| `UartDriver.Uart.FetchUartMessage` | src/drivers/cs_Uart.cpp:29-31 | the thread gets the first buffer or waits, one step of the machine |
| `UartDriver.Uart.HandleUartMessage` | src/drivers/cs_Uart.cpp:31-65 | the rest of the round offers exactly the packet of the buffer to the packet handler, and says whether the thread ends |
| `UartDriver.Uart.SendUartMessage` | src/drivers/cs_Uart.cpp:217-238 | the message replaces the buffer and transmission takes the line |
| `Pipeline.FeedQueuesLine` | src/drivers/cs_Uart.cpp:90-107 | a line and its end put one buffer with exactly that text in the queue, or purge a full one |
| `Pipeline.BufferToPacket` | src/drivers/cs_Uart.cpp:34-51 | the thread makes of it a packet with exactly the line, cut off behind 250 bytes |
| `Pipeline.LineReachesDestination` | src/cs_PacketHanding.cpp:218-260 | end to end: a line fed byte by byte is, once the backlog before it is worked off, what the destination's mailbox decodes to, as data or as the owed result |
| `Pipeline.PacketReachesDestination` | src/cs_PacketHanding.cpp:218-260 | any outgoing packet, once the backlog before it and it are worked off, is what its destination's mailbox decodes to |
| `Pipeline.BleMessageReachesCloud` | src/drivers/ble/cs_BleCentral.cpp:28-63 | end to end: a message from the peripheral (7) in any chunks is what the cloud's (5) mailbox decodes to, as data or as the owed result |
| `Pipeline.LongLinesDoNotFit` | src/drivers/cs_Uart.cpp:37-41 | of the lines of up to 255 bytes the thread passes on, exactly those can be handled that have at most 243 bytes, 240 when a result is owed, 7 less towards the application processor |
| `Pipeline.NoFrameSurvives` | src/drivers/cs_Uart.cpp:36-41 | whatever a buffer holds, the packet made of it is no frame that fits a packet |
| `Pipeline.FrameThroughLineReader` | src/drivers/cs_Uart.cpp:36-46 | the first line of every frame that fits becomes a packet with its first two bytes, or one if the second is a line end, and with UNKNOWN unregistered that cannot be handled |
| `Pipeline.RequestHandled` | src/cs_PacketHanding.cpp:197-211 | a control packet received in any pieces is one packet, and handling it, in any state of the router, delivers it exactly |
| `Pipeline.PayloadGoesOut` | src/drivers/cs_Uart.cpp:217-238 | every schedule of interrupts and shifts that ends the drain of a sent payload puts exactly it on the wire and ends listening |
| `Pipeline.RequestAnswered` | src/cs_PacketHanding.cpp:204-233 | the whole exchange, with any other steps in between that spare the handler: request from the cloud, payload on the serial line, the device's next line back as the result with that request id |
| `SystemRuns.SystemKeeps` | src/drivers/cs_Uart.cpp:29-65 | over every interleaving of a UART and the router: the packets submitted are those of the buffers the thread got, the accepted ones are these without the refused ones, in order, and the UART is given exactly what the router sends for its handler |
| `SystemRuns.EveryLineAccounted` | src/drivers/cs_Uart.cpp:90-104 | every line received = accepted by the router, refused by its full queue, in the UART's queue or its thread's hands, or lost three at a time to a purge; accepted in the order the lines came |
| `SystemRuns.WireCarriesSends` | src/drivers/cs_Uart.cpp:217-238 | when the UART listens, the wire carries exactly the messages the router sent for its handler, iff no send cut another off |
| `BleLink.LinkSafety` | src/drivers/ble/cs_BleCentral.cpp:286-370 | in every reachable state: scanning implies no connection, one reference iff a connection is stored, the event is clear iff the link is up; a connection is only created when there is none |
| `BleLink.LinkTransitions` | src/drivers/ble/cs_BleCentral.cpp:267-370 | in every reachable state: which event stores or gives up a connection, starts or ends a scan, establishes the link, sends a handler to sleep or wakes it, and that no other does |
| `BleLink.IgnoredEvents` | src/drivers/ble/cs_BleCentral.cpp:278-291 | the report of another device, the loss of another connection and a refused scan change nothing |
| `BleLink.LinkHistory` | src/drivers/ble/cs_BleCentral.cpp:278-302 | in every run a stored connection was created for a wanted device, an established link had a good result, a running scan was asked for |
| `BleLink.RescanIff` | src/drivers/ble/cs_BleCentral.cpp:359-369 | after a disconnection a scan can start without the application iff it was not by a user, or a handler is still asleep |
| `BleLink.UserTerminationMayRescan` | src/drivers/ble/cs_BleCentral.cpp:294-301 | a state where that happens after a user's termination, reachable if callbacks come while a handler sleeps |
| `BleLink.SerialCallbacksRescanIff` | src/drivers/ble/cs_BleCentral.cpp:359-369 | if no callback comes while another sleeps, it happens iff the link was lost for another reason |
| `BleLink.CancelIsRetried` | src/drivers/ble/cs_BleCentral.cpp:314-321 | a connection attempt ended by `disconnect` leaves one more sleeping handler, whose call of `connect` starts a scan unless the controller refuses it |
| `BleReassembly.NotificationDeliveredIff` | src/drivers/ble/cs_BleCentral.cpp:28-63 | a message in any chunks is submitted exactly iff it has at most 250 bytes, and otherwise nothing is |
| `BleReassembly.NotificationsDelivered` | src/drivers/ble/cs_BleCentral.cpp:28-63 | for every sequence of messages and every split the packets are the messages in order, and the counter ends at 0 |
| `BleReassembly.NotifyExactly` | src/drivers/ble/cs_BleCentral.cpp:28-63 | one notification: refused beyond 250 bytes with nothing changed, appended, or with counter 255 submitted and the buffer emptied |
| `BleReassembly.InterruptedReassembly` | src/drivers/ble/cs_BleCentral.cpp:551-589 | exactly when a write or a read between chunks leaves the message intact |
| `BleReassembly.LongReadDeliveredIff` | src/drivers/ble/cs_BleCentral.cpp:208-253 | the parts of a long read are submitted as one packet iff they fit, whatever error code ends it |
| `BleReassembly.ReadExactly` | src/drivers/ble/cs_BleCentral.cpp:208-253 | one read result: the end submits, an error or too much data changes nothing, other data is stored at the offset |
| `BleDiscovery.DiscoveryFindsAll` | src/drivers/ble/cs_BleCentral.cpp:84-180 | for every attribute table of a device the three phases end with the value handles recorded and the subscription on value h+1 and descriptor h+2 |
| `BleDiscovery.AttrExactly` | src/drivers/ble/cs_BleCentral.cpp:101-178 | what one attribute changes in each phase, field by field, ids in numbers |
| `BleDiscovery.EndExactly` | src/drivers/ble/cs_BleCentral.cpp:90-129 | what the end of each phase asks for |
| `BleCentralDriver.BleCentral.Init` | src/drivers/ble/cs_BleCentral.cpp:388-439 | refused when initialized or when the controller does not start; otherwise available, and the base id kept if there is one and it parses |
| `BleCentralDriver.BleCentral.Connect` | src/drivers/ble/cs_BleCentral.cpp:449-481 | a scan starts unless a connection is stored or the scan is refused |
| `BleCentralDriver.BleCentral.Reconnect` | src/drivers/ble/cs_BleCentral.cpp:367-368 | the call behind a handler's sleep |
| `BleCentralDriver.BleCentral.HandleBleDeviceFound` | src/drivers/ble/cs_BleCentral.cpp:267-302 | the link step for a device report; another device or one that cannot be connected to changes nothing |
| `BleCentralDriver.BleCentral.HandleConnectionResult` | src/drivers/ble/cs_BleCentral.cpp:307-338 | the link step for a connection result, and discovery begun when it succeeded and the client takes the requests |
| `BleCentralDriver.BleCentral.HandleDisconnectionResult` | src/drivers/ble/cs_BleCentral.cpp:343-370 | the link step for a disconnection; one of another connection changes nothing |
| `BleCentralDriver.BleCentral.Disconnect` | src/drivers/ble/cs_BleCentral.cpp:668-683 | the controller is asked to end the stored connection, and nothing of the object changes |
| `BleCentralDriver.BleCentral.DiscoverServices` | src/drivers/ble/cs_BleCentral.cpp:491-522 | when connected, the first request for the given service or for all, and cleared subscription parameters; a refused request leaves none pending |
| `BleCentralDriver.BleCentral.HandleDiscoveryResults` | src/drivers/ble/cs_BleCentral.cpp:84-180 | the callback is one step of the discovery |
| `BleCentralDriver.BleCentral.HandleNotifications` | src/drivers/ble/cs_BleCentral.cpp:19-64 | the callback is one step of the reassembly; a completed message joins the backlog as an outgoing packet from the central's id to its destination with exactly the message, and then the stored connection is asked to end |
| `BleCentralDriver.BleCentral.HandleReadResult` | src/drivers/ble/cs_BleCentral.cpp:203-254 | the callback is one step of the reading; what it completes joins the backlog in the same form |
| `BleCentralDriver.BleCentral.Read` | src/drivers/ble/cs_BleCentral.cpp:576-604 | counter and offset start over when connected, and the client is asked for the handle from offset 0 on |
| `BleCentralDriver.BleCentral.Write` | src/drivers/ble/cs_BleCentral.cpp:533-567 | the data overlays the start of the shared buffer, and the client gets exactly the data for the handle |
| `BleCentralDriver.BleCentral.SendBleMessage` | src/drivers/ble/cs_BleCentral.cpp:615-633 | connects when there is no connection, else the client gets the message for the control handle, if that is known |
| `WebSocketDriver.MessagesArrive` | src/socket/cs_WebSocket.cpp:56-87 | for every split into pieces and every interleaving of retries the packets are the messages |
| `WebSocketDriver.FailureSubmitsPart` | src/socket/cs_WebSocket.cpp:66-87 | a failure at any point, after any pieces and retries, submits exactly the part that arrived as a packet |
| `WebSocketDriver.PacketsAreMessagesIff` | src/socket/cs_WebSocket.cpp:56-87 | over every sequence of messages, each delivered or broken off anywhere, there is one packet per attempt, and the packets are the messages iff no call fails |
| `WebSocketDriver.EarlyFailureSafeIff` | src/socket/cs_WebSocket.cpp:66-87 | the packet of a connection that fails before or within the first six bytes can be handled iff its type is not control or UNKNOWN is registered |
| `WebSocketDriver.OfferedInOrder` | src/socket/cs_WebSocket.cpp:81-91 | while the queue has room the messages join the backlog in order, each incoming, from the socket's id, with exactly its bytes |
| `WebSocketDriver.WebSocket.Collect` | src/socket/cs_WebSocket.cpp:57-77 | the inner loop ends with the message in the buffer, both counters its length, or is still waiting |
| `WebSocketDriver.WebSocket.ReceiveOne` | src/socket/cs_WebSocket.cpp:79-99 | one round offers exactly the collected message, incoming and from the socket's id, to the packet handler and says whether the thread ends |
| `WebSocketDriver.WebSocket.HandleMessageReceived` | src/socket/cs_WebSocket.cpp:45-103 | the thread submits exactly the messages of the calls, in order, until it has to stop |
| `ServiceUuids.PatchCommutesWithParse` | src/drivers/ble/cs_ServiceUuid.cpp:98-105 | patching bytes 12 and 13 of a parsed id is parsing with digits 4 to 7 replaced |
| `ServiceUuids.OddStringIsPadded` | src/drivers/ble/cs_ServiceUuid.cpp:44-51 | a string of 31 digits is accepted as if a zero led it |
| `ServiceUuids.ParsesIff` | src/drivers/ble/cs_ServiceUuid.cpp:44-51 | exactly the strings of 31 or 32 hexadecimal digits are ids |
| `ServiceUuids.ParsedBytes` | src/drivers/ble/cs_ServiceUuid.cpp:44-53 | byte i of an id is the digit pair at 30 - 2i, digits by their table |
| `ServiceUuids.ShortForm` | src/drivers/ble/cs_ServiceUuid.cpp:118-121 | the 128-bit value a 16-bit id stands for, in full |
| `ServiceUuids.DerivedSameIff` | src/drivers/ble/cs_ServiceUuid.cpp:98-121 | ids derived from one base compare equal iff their short ids are equal |
| `ServiceUuids.SameUuidIff` | src/drivers/ble/cs_ServiceUuid.cpp:118-121 | comparison is equality of the 128-bit values, for every pair of forms |
| `ServiceUuids.Hex2Bin` | src/drivers/ble/cs_ServiceUuid.cpp:44-51 | the bytes of the hex string, or 0 when it is not one or does not fit |
| `ServiceUuids.MemSwap` | src/drivers/ble/cs_ServiceUuid.cpp:53 | the buffer reversed in place |
| `ServiceUuids.ServiceUuid.FromFullUuid` | src/drivers/ble/cs_ServiceUuid.cpp:37-61 | the id of the string, or a refusal that leaves the object as it was |
| `ServiceUuids.ServiceUuid.FromShortUuid` | src/drivers/ble/cs_ServiceUuid.cpp:79-90 | the 16-bit id |
| `ServiceUuids.ServiceUuid.FromBaseUuid` | src/drivers/ble/cs_ServiceUuid.cpp:98-105 | the base with the short id in its place |

## Left out

- Wi-Fi, DHCP, sockets, TLS and the HTTP handshake (src/drivers/cs_Wifi.cpp, src/socket/cs_Socket.cpp, `WebSocket::connect`): plumbing over the operating system.
- `main` in src/cs_Router.cpp, `Uart::disable`, destructors, logging: single branches.
- Mutexes and spinlocks: atomic steps replace them, so a lock that a return path keeps (src/cs_PacketHanding.cpp:335, 375) is not seen.
- Unregistering during a run: the register is fixed while packets are routed.
- Time: timeouts and sleeps are steps that may happen at any moment.
- Zephyr's message queue, work queue, GATT client, scanner and UART driver: only the small environment described above; a discovery, subscription or controller call that is refused appears only where the code reacts to it by changing state.
- The fallthrough in the `ServiceUuid` constructor (src/drivers/ble/cs_ServiceUuid.cpp:23-28), which reads a 16-bit id also as a 128-bit one: the memory behind the shorter struct is not modelled.
- `crc16_ccitt`, `hex2bin`, `sys_mem_swap` and `bt_uuid_cmp` belong to Zephyr and are not part of this repository: they are modelled from what they are documented to compute.
- `handleDiscoveryDone`, `handleWriteResult`, `handleMtuExchangeResult` and `waitAvailable` (src/drivers/ble/cs_BleCentral.cpp:69-79, 185-198, 259-262, 643-661): a call to `read`, log lines, a wait.
- Set and get config packets (include/cs_RouterProtocol.h:168-256): layouts without code.
- PacketHandling.PacketHandler.HandleIncomingPacket: does not say what happens when a length field points outside the buffer or the destination is not registered, because the code then reads or writes memory the model does not have.
- PacketHandling.PacketHandler.HandleOutgoingPacket: the same for an unregistered source or destination and for payloads beyond the limits of `OutgoingFits`.
- PacketHandling.PacketHandler.UnregisterHandler: does not say what the write before the array changes when the removed handler is first of several.
- PacketHandling.PacketHandler.RegisterHandler: does not say what a new id overwrites when seven slots are taken, because that lies behind the array; when it happens is `CodedRefillFitsIff`.
- PacketHandling.PacketHandler.HandleNextPacket: the same as for incoming and outgoing packets that cannot be handled.
- PacketHandling.PacketHandler.RunWorkItem: does not say that a socket which is not initialized drops the message, that the socket waits for its connection, or that a failed send is only logged.
- BleCentralDriver.BleCentral.Connect: leaves out the device address and the accept list; `sameAddress` in `HandleBleDeviceFound` stands for the comparison.
- BleCentralDriver.BleCentral.HandleDiscoveryResults: assumes a base id of 128 bits; without one `fromBaseUuid` reads and writes behind the shorter id.
- BleCentralDriver.BleCentral.HandleNotifications: a notification with no byte at all is excluded, because the code reads its first byte.
