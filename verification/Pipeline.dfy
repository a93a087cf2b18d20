/** The stages put together: a line arrives byte by byte at the UART, passes the interrupt, the
    UART thread, the packet queue and the outgoing handler, and is left for the destination. */
module Pipeline {
  import opened Bytes
  import opened Protocol
  import opened Router
  import opened MessageQueue
  import opened RouterRuns
  import M = UartModel
  import U = UartRuns
  import W = WebSocketDriver
  import B = BleReassembly

  /** The interrupt machine after the bytes `s` arrived. */
  function Feed(u: M.Uart, s: seq<byte>): (r: M.Uart)
    requires M.ValidUart(u)
    ensures M.ValidUart(r)
  {
    if s == [] then u else M.Interrupt(Feed(u, s[..|s| - 1]), M.Byte(s[|s| - 1]))
  }

  predicate Listening(u: M.Uart) {
    M.ValidUart(u) && u.rxEnabled && u.ctr == 0
  }

  /** Text as the far end of the serial line may send it. */
  ghost predicate IsText(line: seq<byte>) {
    && M.IsLine(line) && |line| <= PACKET_BUF_SIZE
    && 0 !in line && line[0] != UART_START_TOKEN
  }

  lemma {:induction false} FeedStores(u: M.Uart, line: seq<byte>)
    requires Listening(u) && |line| < M.UART_BUFFER_SIZE
    requires forall i | 0 <= i < |line| :: !M.IsEnd(line[i])
    ensures Feed(u, line) == u.(buf := Patch(u.buf, 0, line), ctr := |line|)
  {
    if line == [] {
      assert Patch(u.buf, 0, line) == u.buf;
    } else {
      var init, c := line[..|line| - 1], line[|line| - 1];
      FeedStores(u, init);
      assert Patch(u.buf, 0, init)[|init| := c] == Patch(u.buf, 0, line);
    }
  }

  /** The line and its end put one buffer with that text in the queue, and leave an empty line. A
      full queue loses what it held, and the line. */
  lemma FeedQueuesLine(u: M.Uart, line: seq<byte>, end: byte) returns (buffer: seq<byte>)
    requires Listening(u) && M.IsLine(line) && M.IsEnd(end)
    ensures Feed(u, line + [end]).queue == if Full(u.queue) then Purge(u.queue) else Put(u.queue, buffer)
    ensures Listening(Feed(u, line + [end]))
    ensures U.Holds(buffer, line)
  {
    hide Feed;
    FeedStores(u, line);
    FeedSnoc(u, line, end);
    var stored := u.(buf := Patch(u.buf, 0, line), ctr := |line|);
    PatchedStart(u.buf, line);
    buffer := stored.buf[|line| := 0];
    assert buffer[..|line|] == stored.buf[..|line|];
    assert M.Interrupt(stored, M.Byte(end)) == M.Receive(stored, end);
  }

  lemma FeedSnoc(u: M.Uart, s: seq<byte>, c: byte)
    requires M.ValidUart(u)
    ensures Feed(u, s + [c]) == M.Interrupt(Feed(u, s), M.Byte(c))
  {
    hide M.Interrupt;
    var all := s + [c];
    assert all[..|all| - 1] == s && all[|all| - 1] == c;
  }

  /** The thread makes of a buffered text line a packet with the line as its content, cut off
      behind 250 bytes. */
  lemma BufferToPacket(buffer: seq<byte>, line: seq<byte>, srcId: byte, destId: byte)
    requires M.IsLine(line) && 0 !in line && line[0] != UART_START_TOKEN
    requires U.Holds(buffer, line)
    ensures var n := if |line| < PACKET_BUF_SIZE then |line| else PACKET_BUF_SIZE;
            M.PacketOf(buffer, srcId, destId) == PacketData(Outgoing, destId, srcId, 0, Pack(line[..n]))
  {
    forall i | 0 <= i < |line|
      ensures buffer[i] == line[i] != 0
    {
      assert line[i] in line;
    }
    assert M.StrLen(buffer) == |line|;
    var n := if |line| < PACKET_BUF_SIZE then |line| else PACKET_BUF_SIZE;
    assert buffer[..n] == line[..n];
  }

  // ---------- the packet thread works through its backlog ----------

  /** Each of these packets can be handled once the ones before it were. */
  predicate AllSafe(slots: seq<Slot>, packets: seq<PacketData>)
    requires ValidSlots(slots)
    decreases |packets|
  {
    packets == [] || (Safe(slots, packets[0]) && AllSafe(AfterHandling(slots, packets[0]), packets[1..]))
  }

  function WorkOff(slots: seq<Slot>, packets: seq<PacketData>): (r: seq<Slot>)
    requires ValidSlots(slots) && AllSafe(slots, packets)
    ensures ValidSlots(r) && |r| == |slots|
    decreases |packets|
  {
    if packets == [] then slots else WorkOff(AfterHandling(slots, packets[0]), packets[1..])
  }

  lemma {:induction false} WorkOffSnoc(slots: seq<Slot>, packets: seq<PacketData>, data: PacketData)
    requires ValidSlots(slots) && AllSafe(slots, packets) && Safe(WorkOff(slots, packets), data)
    ensures AllSafe(slots, packets + [data])
    ensures WorkOff(slots, packets + [data]) == AfterHandling(WorkOff(slots, packets), data)
    decreases |packets|
  {
    hide Safe, AfterHandling;
    var all := packets + [data];
    if packets == [] {
      assert all[0] == data && all[1..] == [];
    } else {
      assert all[0] == packets[0] && all[1..] == packets[1..] + [data];
      WorkOffSnoc(AfterHandling(slots, packets[0]), packets[1..], data);
    }
  }

  /** `n` rounds of the packet thread. */
  predicate CanWork(s: State, n: nat)
    requires ValidState(s)
    decreases n
  {
    n == 0 ||
    var fetched := Next(s, Fetch);
    Enabled(fetched, HandleNext) && CanWork(Next(fetched, HandleNext), n - 1)
  }

  function Work(s: State, n: nat): (r: State)
    requires ValidState(s) && CanWork(s, n)
    ensures ValidState(r)
    decreases n
  {
    if n == 0 then s else Work(Next(Next(s, Fetch), HandleNext), n - 1)
  }

  /** One round, from wherever the thread is, handles the first packet of the backlog. */
  lemma RoundHandles(s: State)
    requires ValidState(s) && Backlog(s.inbox) != [] && Safe(s.slots, Backlog(s.inbox)[0])
    ensures var fetched := Next(s, Fetch);
            && Enabled(fetched, HandleNext)
            && var r := Next(fetched, HandleNext);
               && r.slots == AfterHandling(s.slots, Backlog(s.inbox)[0])
               && Backlog(r.inbox) == Backlog(s.inbox)[1..]
  {
    hide Safe, AfterHandling;
    GetBacklog(s.inbox);
    ReleaseBacklog(Get(s.inbox));
  }

  lemma {:induction false} BacklogWorkedOff(s: State)
    requires ValidState(s) && AllSafe(s.slots, Backlog(s.inbox))
    ensures var n := |Backlog(s.inbox)|;
            && CanWork(s, n)
            && Work(s, n).slots == WorkOff(s.slots, Backlog(s.inbox)) && Backlog(Work(s, n).inbox) == []
    decreases |Backlog(s.inbox)|
  {
    hide Safe, AfterHandling, Backlog, Next;
    if Backlog(s.inbox) != [] {
      RoundHandles(s);
      BacklogWorkedOff(Next(Next(s, Fetch), HandleNext));
    }
  }

  /** What a handled text line leaves in the mailbox of its destination. */
  lemma LineLeftInMailbox(slots: seq<Slot>, line: seq<byte>, srcId: byte, destId: byte)
    requires ValidSlots(slots) && Registered(slots, srcId) && Registered(slots, destId)
    requires |line| + HeaderBytes(destId, Owed(OwedBy(slots, srcId), srcId, 0, line)) <= PACKET_BUF_SIZE
    ensures var data := PacketData(Outgoing, destId, srcId, 0, Pack(line));
            var m := Owed(OwedBy(slots, srcId), srcId, 0, line);
            && Safe(slots, data)
            && var mail := MailOf(AfterHandling(slots, data), destId);
               && mail.Some?
               && DecodeRouted(destId, mail.value) == Some(m)
               && |mail.value| == |line| + HeaderBytes(destId, m)
  {
    var data := PacketData(Outgoing, destId, srcId, 0, Pack(line));
    var m := MessageFrom(slots[Find(slots, srcId)], data);
    assert m == Owed(OwedBy(slots, srcId), srcId, 0, line);
    RoutedLength(destId, m);
    OutgoingSlots(slots, data, destId);
    RoutedRoundTrip(destId, m);
  }

  /** An outgoing packet behind whatever the router has still to handle: once the packet thread has
      worked that off and the packet with it, the destination's mailbox decodes to its content, as
      the result of the request its source then owes an answer to, or else as data. */
  lemma PacketReachesDestination(s: State, content: seq<byte>, srcId: byte, destId: byte)
    requires |content| <= PACKET_BUF_SIZE
    requires ValidState(s) && !Full(s.inbox) && AllSafe(s.slots, Backlog(s.inbox))
    requires var slots := WorkOff(s.slots, Backlog(s.inbox));
             && Registered(slots, srcId) && Registered(slots, destId)
             && |content| + HeaderBytes(destId, Owed(OwedBy(slots, srcId), srcId, 0, content)) <= PACKET_BUF_SIZE
    ensures var data := PacketData(Outgoing, destId, srcId, 0, Pack(content));
            var n, received := |Backlog(s.inbox)|, Next(s, Submit(data));
            && Backlog(received.inbox) == Backlog(s.inbox) + [data]
            && CanWork(received, n + 1)
            && var m := Owed(OwedBy(WorkOff(s.slots, Backlog(s.inbox)), srcId), srcId, 0, content);
               var mail := MailOf(Work(received, n + 1).slots, destId);
               && mail.Some?
               && DecodeRouted(destId, mail.value) == Some(m)
               && |mail.value| == |content| + HeaderBytes(destId, m)
  {
    hide Safe, AfterHandling, Work, CanWork, AllSafe, WorkOff, MailOf, OwedBy, DecodeRouted, Put, Backlog;
    var data := PacketData(Outgoing, destId, srcId, 0, Pack(content));
    LineLeftInMailbox(WorkOff(s.slots, Backlog(s.inbox)), content, srcId, destId);
    WorkOffSnoc(s.slots, Backlog(s.inbox), data);
    PutBacklog(s.inbox, data);
    BacklogWorkedOff(Next(s, Submit(data)));
  }

  /** End to end from the peripheral: a message that arrives over BLE in any chunks completes one
      packet, and when the router's backlog and then this packet are worked off, the cloud (5)
      is left exactly the message: as the result of the request the peripheral (7) owes an answer
      to, or else as data with the peripheral as its source. */
  lemma BleMessageReachesCloud(rx: B.Rx, chunks: seq<seq<byte>>, message: seq<byte>, s: State)
    requires B.ValidRx(rx) && rx.ctr == 0 && B.IsChunking(chunks, message)
    requires ValidState(s) && !Full(s.inbox) && AllSafe(s.slots, Backlog(s.inbox))
    requires var slots := WorkOff(s.slots, Backlog(s.inbox));
             && Registered(slots, 7) && Registered(slots, 5)
             && |message| <= if OwedBy(slots, 7).Some? then 240 else 243
    ensures B.NotifyAll(rx, chunks).packet == Some(message)
    ensures var n, received := |Backlog(s.inbox)|, Next(s, Submit(PacketData(Outgoing, 5, 7, 0, Pack(message))));
            var owed := OwedBy(WorkOff(s.slots, Backlog(s.inbox)), 7);
            && CanWork(received, n + 1)
            && var mail := MailOf(Work(received, n + 1).slots, 5);
               && mail.Some?
               && DecodeRouted(5, mail.value) == Some(match owed
                                                      case Some((id, command)) => Result(command, 0, id, message)
                                                      case None => Data(7, message))
  {
    hide B.NotifyAll, B.IsChunking, Work, CanWork, AllSafe, WorkOff, MailOf, OwedBy, DecodeRouted, Backlog, Put;
    B.NotificationDeliveredIff(rx, chunks, message);
    PacketReachesDestination(s, message, 7, 5);
  }

  /** End to end: text with a line end behind it, fed to a UART whose queue has room, becomes a
      packet behind whatever the router has still to handle; when the packet thread has worked
      that off and the packet with it, the destination's mailbox decodes to exactly the line, as
      the result of the request the UART then owes an answer to, or else as data with the UART as
      its source. */
  lemma LineReachesDestination(u: M.Uart, s: State, line: seq<byte>, end: byte, srcId: byte, destId: byte)
    returns (buffer: seq<byte>, data: PacketData)
    requires Listening(u) && !Full(u.queue) && IsText(line) && M.IsEnd(end)
    requires ValidState(s) && !Full(s.inbox) && AllSafe(s.slots, Backlog(s.inbox))
    requires var slots := WorkOff(s.slots, Backlog(s.inbox));
             && Registered(slots, srcId) && Registered(slots, destId)
             && |line| + HeaderBytes(destId, Owed(OwedBy(slots, srcId), srcId, 0, line)) <= PACKET_BUF_SIZE
    ensures Backlog(Feed(u, line + [end]).queue) == Backlog(u.queue) + [buffer] && |buffer| == M.UART_BUFFER_SIZE
    ensures data == M.PacketOf(buffer, srcId, destId)
    ensures var n, received := |Backlog(s.inbox)|, Next(s, Submit(data));
            && Backlog(received.inbox) == Backlog(s.inbox) + [data]
            && CanWork(received, n + 1)
            && var m := Owed(OwedBy(WorkOff(s.slots, Backlog(s.inbox)), srcId), srcId, 0, line);
               var mail := MailOf(Work(received, n + 1).slots, destId);
               && mail.Some?
               && DecodeRouted(destId, mail.value) == Some(m)
               && |mail.value| == |line| + HeaderBytes(destId, m)
  {
    hide Work, CanWork, AllSafe, WorkOff, MailOf, OwedBy, DecodeRouted;
    hide M.PacketOf, Feed, Put, Backlog;
    buffer := FeedQueuesLine(u, line, end);
    PutBacklog(u.queue, buffer);
    BufferToPacket(buffer, line, srcId, destId);
    assert line[..|line|] == line;
    data := M.PacketOf(buffer, srcId, destId);
    PacketReachesDestination(s, line, srcId, destId);
  }

  /** The thread passes lines of up to 255 bytes on, cut off behind 250. Exactly those can be
      handled that leave room for the layers: towards the cloud 243 bytes, 240 when a result is
      owed, and 7 less towards the application processor. */
  lemma LongLinesDoNotFit(slots: seq<Slot>, buffer: seq<byte>, line: seq<byte>, srcId: byte, destId: byte)
    requires ValidSlots(slots) && Registered(slots, srcId) && Registered(slots, destId)
    requires M.IsLine(line) && 0 !in line && line[0] != UART_START_TOKEN && U.Holds(buffer, line)
    ensures var limit := (if destId == ID_UART_CM4 then 236 else 243) - (if OwedBy(slots, srcId).Some? then 3 else 0);
            Safe(slots, M.PacketOf(buffer, srcId, destId)) <==> |line| <= limit
  {
    hide M.PacketOf;
    BufferToPacket(buffer, line, srcId, destId);
    var data := M.PacketOf(buffer, srcId, destId);
    OutgoingFits(slots, data);
  }

  // ---------- frames in the line reader ----------

  lemma LengthBytes(frame: seq<byte>, length: nat)
    requires |frame| >= 3 && frame[1..3] == Le16(length) && length < 0x100
    ensures frame[1] as int == length && frame[2] == 0
  {
    assert frame[1] == frame[1..3][0] && frame[2] == frame[1..3][1];
  }

  lemma FrameStart(kind: byte, payload: seq<byte>)
    requires |payload| + 7 <= PACKET_BUF_SIZE
    ensures var frame := EncodeUart(kind, payload);
            frame[0] == UART_START_TOKEN && 4 <= frame[1] <= 247 && frame[2] == 0
  {
    hide EncodeUart;
    FrameHead(kind, payload);
    LengthBytes(EncodeUart(kind, payload), |payload| + 4);
  }

  /** No frame of the application processor gets through the line reader: whatever a buffer
      holds, the packet the thread makes of it is not a frame, because it ends at the first NUL
      and the high byte of a frame's length is one. */
  lemma NoFrameSurvives(buffer: seq<byte>, srcId: byte, destId: byte, kind: byte, payload: seq<byte>)
    requires |buffer| == M.UART_BUFFER_SIZE && |payload| + 7 <= PACKET_BUF_SIZE
    ensures Content(M.PacketOf(buffer, srcId, destId).msg) != EncodeUart(kind, payload)
  {
    hide EncodeUart;
    FrameStart(kind, payload);
    var content := Content(M.PacketOf(buffer, srcId, destId).msg);
    assert forall i | 0 <= i < |content| :: content[i] == buffer[i] != 0;
  }

  /** What is left of a frame, followed by any bytes: its first line becomes a packet with the
      first two bytes of the frame, or only the first when the second, the low byte of the
      length, is itself a line end. With the id `UNKNOWN` unregistered neither can be handled. */
  lemma FrameThroughLineReader(slots: seq<Slot>, kind: byte, payload: seq<byte>, more: seq<byte>, buffer: seq<byte>,
                               srcId: byte, destId: byte)
    requires ValidSlots(slots) && !Registered(slots, ID_UNKNOWN) && |payload| + 7 <= PACKET_BUF_SIZE
    requires var lines := M.Lines(EncodeUart(kind, payload) + more); lines != [] && U.Holds(buffer, lines[0])
    ensures var frame, data := EncodeUart(kind, payload), M.PacketOf(buffer, srcId, destId);
            && data.kind == Incoming && data.srcId == ID_UART_CM4
            && Content(data.msg) == frame[..if M.IsEnd(frame[1]) then 1 else 2]
            && !Safe(slots, data)
  {
    hide EncodeUart, Safe, M.StrLen;
    var frame := EncodeUart(kind, payload);
    FrameStart(kind, payload);
    var s := frame + more;
    FirstLineOfFrame(s);
    var line, data := M.Lines(s)[0], M.PacketOf(buffer, srcId, destId);
    assert buffer[0] == buffer[..|line|][0];
    if M.IsEnd(frame[1]) {
      StrLenIs(buffer, 1);
      StumpOfOne(slots, data);
    } else {
      assert buffer[1] == buffer[..|line|][1] && buffer[2] == buffer[..|line|][2];
      StrLenIs(buffer, 2);
      StumpOfTwo(slots, data);
    }
  }

  lemma StrLenIs(buffer: seq<byte>, n: nat)
    requires n < |buffer| && buffer[n] == 0 && forall i | 0 <= i < n :: buffer[i] != 0
    ensures M.StrLen(buffer) == n
  {
  }

  lemma FirstLineOfFrame(s: seq<byte>)
    requires |s| >= 3 && s[0] == UART_START_TOKEN && s[2] == 0 && M.Lines(s) != []
    ensures var line := M.Lines(s)[0];
            if M.IsEnd(s[1]) then line == s[..1] else |line| >= 3 && line[..3] == s[..3]
  {
    var n := M.LineStop(s);
    if M.IsEnd(s[1]) {
      assert M.FirstEnd(s) == 1;
    } else {
      assert M.FirstEnd(s) >= 3;
      assert s[..n][..3] == s[..3];
    }
  }

  /** One byte and zeros behind it: the length is too short for a frame. */
  lemma StumpOfOne(slots: seq<Slot>, data: PacketData)
    requires ValidSlots(slots) && data.kind == Incoming && data.srcId == ID_UART_CM4 && ValidBuffer(data.msg)
    requires data.msg.buf[1..] == Zeros(PACKET_BUF_SIZE - 1)
    ensures !Safe(slots, data)
  {
    var b := data.msg.buf;
    assert b[1] == b[1..][0] == 0 && b[2] == b[1..][1] == 0;
  }

  /** Two bytes that pass for the start of a frame, and zeros behind them. */
  lemma StumpOfTwo(slots: seq<Slot>, data: PacketData)
    requires ValidSlots(slots) && !Registered(slots, ID_UNKNOWN)
    requires data.kind == Incoming && data.srcId == ID_UART_CM4 && ValidBuffer(data.msg)
    requires 4 <= data.msg.buf[1] <= 247 && data.msg.buf[2..] == Zeros(PACKET_BUF_SIZE - 2)
    ensures !Safe(slots, data)
  {
    var b := data.msg.buf;
    assert forall i | 2 <= i < PACKET_BUF_SIZE :: b[i] == b[2..][i - 2] == 0;
    assert ViewControl(b, 9) == ControlView(0, 0, 0, 0, 0, 16);
  }

  // ---------- request and reply through the whole router ----------

  /** The request arrives: received over the WebSocket in any pieces, it is one packet, which the
      packet thread can handle and which reaches its destination. */
  lemma RequestHandled(script: seq<W.Recv>, s: State, c: Control)
    requires var packet := EncodeGeneric(TYPE_CONTROL, EncodeControl(c));
             && |packet| <= PACKET_BUF_SIZE && W.Delivers(script, packet)
             && s.inbox.reader == Holding(W.PacketFrom(5, packet))
    requires ValidState(s) && Registered(s.slots, c.destId)
    ensures W.Submissions(script, []) == [EncodeGeneric(TYPE_CONTROL, EncodeControl(c))]
    ensures Enabled(s, HandleNext) && Delivered(s.slots, c, Next(s, HandleNext).slots)
  {
    hide EncodeGeneric, EncodeControl, Safe, AfterHandling, Delivered, W.Delivers;
    var packet := EncodeGeneric(TYPE_CONTROL, EncodeControl(c));
    W.OneMessage(script, [], [], packet);
    assert script + [] == script && [] + packet == packet;
    W.NoCalls();
    ControlDelivered(s.slots, c, W.PacketFrom(5, packet), Zeros(PACKET_BUF_SIZE - |packet|));
  }

  ghost predicate StepTo(s: State, e: Event, t: State) {
    ValidState(s) && Enabled(s, e) && t == Next(s, e)
  }

  /** Any steps lead from `s` to `t`, as long as they spare the handler `h`. */
  ghost predicate SparingTo(s: State, es: seq<Event>, t: State, h: byte) {
    ValidState(s) && Possible(s, es) && Spares(s, es, h) && t == After(s, es)
  }

  lemma DeliveredAt(slots: seq<Slot>, r: seq<Slot>, c: Control)
    requires ValidSlots(slots) && ValidSlots(r) && |r| == |slots| && Registered(slots, c.destId)
    requires Delivered(slots, c, r)
    ensures MailOf(r, c.destId) == Some(c.payload)
    ensures OwedBy(r, c.destId) == if c.requestId > 0 then Some((c.requestId, c.command)) else None
  {
    SameIdsFound(slots, r, c.destId);
  }

  /** The work item of a handler sends what its mailbox holds, and leaves what it owes. */
  lemma WorkSends(s: State, h: byte, payload: seq<byte>)
    requires ValidState(s) && MailOf(s.slots, h) == Some(payload)
    ensures var i := Find(s.slots, h);
            && Enabled(s, RunWork(i)) && Observed(s, RunWork(i)) == [Sent(h, payload)]
            && OwedBy(Next(s, RunWork(i)).slots, h) == OwedBy(s.slots, h)
  {
    var i := Find(s.slots, h);
    AtUpdate(s.slots, i, s.slots[i].(queued := false), h);
  }

  /** The payload on the serial line: however the interrupt and the hardware take turns, once the
      drain is over exactly the payload is on the wire and the UART listens again. */
  lemma PayloadGoesOut(u: M.Uart, payload: seq<byte>, drain: seq<U.Event>)
    requires Listening(u) && |payload| <= PACKET_BUF_SIZE
    requires U.OnlyDrains(drain) && !U.Steps(M.Send(u, payload), drain).txEnabled
    ensures U.Shifted(M.Send(u, payload), drain) == payload
    ensures var after := U.Steps(M.Send(u, payload), drain);
            Listening(after) && after.queue == u.queue
  {
    var sending := M.Send(u, payload);
    U.DrainSendsAll(sending, drain);
    assert U.Unsent(sending) == payload;
    var after := U.Steps(sending, drain);
    assert after.fifo + U.Unsent(after) == [];
    assert sending.fifo + U.Unsent(sending) == payload;
    assert U.Shifted(sending, drain) + [] == U.Shifted(sending, drain);
  }

  /** The whole exchange. A request from the WebSocket is in the packet thread's hands and is
      handled; after any steps that spare its destination that handler's work item runs; after any
      further such steps the packet made of the device's next line is in the thread's hands. Then
      the work item sent exactly the payload, the drain put exactly it on the wire, and the line is
      left for the cloud as the result of that command with that request id (as data, had the
      request no id). */
  lemma RequestAnswered(script: seq<W.Recv>, c: Control, u: M.Uart, drain: seq<U.Event>, line: seq<byte>, end: byte,
                        s: State, handled: State, es1: seq<Event>, t: State, sent: State, es2: seq<Event>, r: State)
    returns (buffer: seq<byte>)
    requires var packet := EncodeGeneric(TYPE_CONTROL, EncodeControl(c));
             && |packet| <= PACKET_BUF_SIZE && W.Delivers(script, packet)
             && s.inbox.reader == Holding(W.PacketFrom(5, packet))
    requires Registered(s.slots, c.destId) && Registered(s.slots, 5)
    requires IsText(line) && M.IsEnd(end) && |line| <= if c.requestId > 0 then 240 else 243
    // the steps of the router
    requires StepTo(s, HandleNext, handled) && SparingTo(handled, es1, t, c.destId)
    requires StepTo(t, RunWork(Find(t.slots, c.destId)), sent) && SparingTo(sent, es2, r, c.destId)
    requires r.inbox.reader == Holding(PacketData(Outgoing, 5, c.destId, 0, Pack(line)))
    // the steps of the UART
    requires Listening(u) && !Full(u.queue) && |c.payload| <= PACKET_BUF_SIZE
    requires U.OnlyDrains(drain) && !U.Steps(M.Send(u, c.payload), drain).txEnabled
    // the request is sent
    ensures W.Submissions(script, []) == [EncodeGeneric(TYPE_CONTROL, EncodeControl(c))]
    ensures Observed(t, RunWork(Find(t.slots, c.destId))) == [Sent(c.destId, c.payload)]
    ensures U.Shifted(M.Send(u, c.payload), drain) == c.payload
    // the line is the packet, and the packet the answer
    ensures Backlog(Feed(U.Steps(M.Send(u, c.payload), drain), line + [end]).queue) == Backlog(u.queue) + [buffer]
    ensures |buffer| == M.UART_BUFFER_SIZE && M.PacketOf(buffer, c.destId, 5) == r.inbox.reader.item
    ensures Enabled(r, HandleNext)
    ensures var mail := MailOf(Next(r, HandleNext).slots, 5);
            && mail.Some?
            && DecodeRouted(5, mail.value)
               == Some(if c.requestId > 0 then Result(c.command, 0, c.requestId, line) else Data(c.destId, line))
  {
    hide EncodeGeneric, EncodeControl, W.Delivers, W.Submissions, W.PacketFrom;
    RequestHandled(script, s, c);
    AnswerDecodes(c, line, s, handled, es1, t, sent, es2, r);
    PayloadGoesOut(u, c.payload, drain);
    var after := U.Steps(M.Send(u, c.payload), drain);
    buffer := FeedQueuesLine(after, line, end);
    PutBacklog(u.queue, buffer);
    BufferToPacket(buffer, line, c.destId, 5);
    assert line[..|line|] == line;
  }

  /** The router's part of the exchange. */
  lemma AnswerDecodes(c: Control, line: seq<byte>, s: State, handled: State, es1: seq<Event>, t: State,
                      sent: State, es2: seq<Event>, r: State)
    requires ValidState(s) && Registered(s.slots, c.destId) && Registered(s.slots, 5)
    requires StepTo(s, HandleNext, handled) && Delivered(s.slots, c, handled.slots)
    requires SparingTo(handled, es1, t, c.destId)
    requires StepTo(t, RunWork(Find(t.slots, c.destId)), sent) && SparingTo(sent, es2, r, c.destId)
    requires |line| <= if c.requestId > 0 then 240 else 243
    requires r.inbox.reader == Holding(PacketData(Outgoing, 5, c.destId, 0, Pack(line)))
    ensures Observed(t, RunWork(Find(t.slots, c.destId))) == [Sent(c.destId, c.payload)]
    ensures Enabled(r, HandleNext)
    ensures var mail := MailOf(Next(r, HandleNext).slots, 5);
            && mail.Some?
            && DecodeRouted(5, mail.value)
               == Some(if c.requestId > 0 then Result(c.command, 0, c.requestId, line) else Data(c.destId, line))
  {
    hide Delivered, Spares, Possible, After, AfterHandling, DecodeRouted, Observed;
    StepKeepsIds(s, HandleNext, 5);
    DeliveredAt(s.slots, handled.slots, c);
    SparedStays(handled, es1, c.destId);
    IdsStay(handled, es1, 5);
    WorkSends(t, c.destId, c.payload);
    StepKeepsIds(t, RunWork(Find(t.slots, c.destId)), 5);
    StepKeepsIds(t, RunWork(Find(t.slots, c.destId)), c.destId);
    SparedStays(sent, es2, c.destId);
    IdsStay(sent, es2, c.destId);
    IdsStay(sent, es2, 5);
    LineLeftInMailbox(r.slots, line, c.destId, 5);
  }
}
