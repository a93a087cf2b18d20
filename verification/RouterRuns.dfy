/** The router as a step machine: producers submit packets, the packet thread fetches and handles
    them one at a time, work items send what is in a mailbox. Threads and work items are
    cooperative, so every step is atomic. The theorems hold for every run over a fixed register. */
module RouterRuns {
  import opened Bytes
  import opened Protocol
  import opened Router
  import opened OneSlot
  import opened MessageQueue
  import Register

  /** `inbox` is the message queue together with the packet thread that reads it. */
  datatype State = State(slots: seq<Slot>, inbox: MsgQueue<PacketData>)

  /** The packet thread alternates between `Fetch`, its call of `k_msgq_get`, and `HandleNext`,
      the rest of the round, once it got a packet. */
  datatype Event = Submit(data: PacketData) | Fetch | HandleNext | RunWork(slot: nat)

  /** What a step shows to the outside; `cell` is where the ring buffer stored the packet. */
  datatype Obs =
    | Accepted(data: PacketData, cell: Option<nat>)
    | Rejected(data: PacketData)
    | Handled(data: PacketData)
    | Requested(h: byte, requestId: uint16, command: byte)
    | Emitted(src: byte, dest: byte, code: byte, payload: seq<byte>, pkt: seq<byte>)
    | Dispatched(h: byte, bytes: seq<byte>)
    | Sent(h: byte, bytes: seq<byte>)

  predicate ValidState(s: State) {
    ValidSlots(s.slots) && ValidQueue(s.inbox)
  }

  /** Handling a packet whose handler is missing, or that does not fit the buffers, has no
      defined outcome in the code; a run ends before such a step. */
  predicate Enabled(s: State, e: Event) {
    match e
    case HandleNext => s.inbox.reader.Holding? ==> Safe(s.slots, s.inbox.reader.item)
    case RunWork(i) => i < |s.slots|
    case _ => true
  }

  function Next(s: State, e: Event): (r: State)
    requires ValidState(s) && Enabled(s, e)
    ensures ValidState(r) && |r.slots| == |s.slots| && r.inbox.cap == s.inbox.cap
  {
    match e
    case Submit(data) => s.(inbox := Put(s.inbox, data))
    case Fetch => s.(inbox := Get(s.inbox))
    case HandleNext =>
      if s.inbox.reader.Holding?
      then s.(slots := AfterHandling(s.slots, s.inbox.reader.item), inbox := Release(s.inbox)) else s
    case RunWork(i) => s.(slots := s.slots[i := s.slots[i].(queued := false)])
  }

  function Observed(s: State, e: Event): seq<Obs>
    requires ValidState(s) && Enabled(s, e)
  {
    match e
    case Submit(data) =>
      if Full(s.inbox) then [Rejected(data)]
      else [Accepted(data, if UsesRing(s.inbox) then Some(s.inbox.writeAt) else None)]
    case Fetch => []
    case HandleNext => if s.inbox.reader.Holding? then HandlingObserved(s.slots, s.inbox.reader.item) else []
    case RunWork(i) => if s.slots[i].queued then [Sent(s.slots[i].id, Content(s.slots[i].msg))] else []
  }

  function HandlingObserved(slots: seq<Slot>, data: PacketData): seq<Obs>
    requires ValidSlots(slots) && Safe(slots, data)
  {
    match data.kind
    case Incoming =>
      if !IsControl(data) then [Handled(data)]
      else
        var c := ControlOf(data);
        [Handled(data), Requested(c.destId, c.requestId, c.command), Dispatched(c.destId, c.payload)]
    case Outgoing =>
      var pkt := EncodeRouted(data.destId, MessageFrom(slots[Find(slots, data.srcId)], data));
      [Handled(data), Emitted(data.srcId, data.destId, data.resultCode, Content(data.msg), pkt),
       Dispatched(data.destId, pkt)]
  }

  // ---------- runs ----------

  predicate Possible(s0: State, es: seq<Event>)
    requires ValidState(s0)
    decreases |es|, 0
  {
    es == [] || (Possible(s0, es[..|es| - 1]) && Enabled(After(s0, es[..|es| - 1]), es[|es| - 1]))
  }

  function After(s0: State, es: seq<Event>): (r: State)
    requires ValidState(s0) && Possible(s0, es)
    ensures ValidState(r) && |r.slots| == |s0.slots| && r.inbox.cap == s0.inbox.cap
    decreases |es|, 1
  {
    if es == [] then s0 else Next(After(s0, es[..|es| - 1]), es[|es| - 1])
  }

  function Log(s0: State, es: seq<Event>): seq<Obs>
    requires ValidState(s0) && Possible(s0, es)
  {
    if es == [] then []
    else Log(s0, es[..|es| - 1]) + Observed(After(s0, es[..|es| - 1]), es[|es| - 1])
  }

  /** One more step at the end of a run. */
  lemma RunSnoc(s0: State, es: seq<Event>, e: Event)
    requires ValidState(s0) && Possible(s0, es) && Enabled(After(s0, es), e)
    ensures Possible(s0, es + [e])
    ensures After(s0, es + [e]) == Next(After(s0, es), e)
    ensures Log(s0, es + [e]) == Log(s0, es) + Observed(After(s0, es), e)
  {
    hide Enabled, Next, Observed;
    assert (es + [e])[..|es|] == es;
  }

  /** Right after registration: nothing queued, nothing pending. */
  predicate Initial(s: State) {
    && ValidState(s) && s.inbox == Empty(s.inbox.cap)
    && forall i | 0 <= i < |s.slots| :: !s.slots[i].queued && s.slots[i].resultId == 0
  }

  lemma {:induction false} RegisteredFresh(ops: seq<Register.Op>)
    ensures forall i | 0 <= i < |Register.ApplyAll(ops)| :: IsFresh(Register.ApplyAll(ops)[i])
  {
    if ops != [] {
      var before, op := Register.ApplyAll(ops[..|ops| - 1]), ops[|ops| - 1];
      RegisteredFresh(ops[..|ops| - 1]);
      if op.Unreg? {
        Register.RemoveShrinks(before, op.id);
      }
    }
  }

  /** A handler about which nothing has happened yet: an empty mailbox, nothing to send and no
      request to answer. */
  predicate IsFresh(slot: Slot) {
    && !slot.queued && slot.resultId == 0 && slot.resultType == 0
    && slot.msg.len == 0 && |slot.msg.buf| == 250 && forall k | 0 <= k < 250 :: slot.msg.buf[k] == 0
  }

  /** Every sequence of registrations, and of removals as the comment describes them, leaves a
      state that runs may start from, whatever the capacity of the queue. */
  lemma RegistrationIsInitial(ops: seq<Register.Op>, cap: nat)
    ensures Initial(State(Register.ApplyAll(ops), Empty(cap)))
  {
    Register.RegisterRefinesMap(ops);
    RegisteredFresh(ops);
    var slots := Register.ApplyAll(ops);
    assert forall i | 0 <= i < |slots| :: IsFresh(slots[i]);
  }

  /** The operations as coded leave only handlers that were registered, each with the instance of
      a registration, and fresh. */
  lemma {:induction false} CodedRegistrationIsFresh(ops: seq<Register.Op>, i: nat)
    requires Register.CodedRun(ops).Some? && i < |Register.CodedRun(ops).value|
    ensures var slot := Register.CodedRun(ops).value[i];
            IsFresh(slot) && Register.Reg(slot.id, slot.target) in ops
  {
    var init, op := ops[..|ops| - 1], ops[|ops| - 1];
    assert ops == init + [op];
    var before, after := Register.CodedRun(init).value, Register.CodedRun(ops).value;
    if op.Reg? {
      if i < |before| {
        assert after[i] == before[i];
        CodedRegistrationIsFresh(init, i);
      }
    } else {
      var from := Register.ComesFrom(before, op.id, i);
      CodedRegistrationIsFresh(init, from);
    }
  }

  // ---------- what a log says about one handler ----------

  function Project<T(!new)>(log: seq<Obs>, f: Obs -> seq<T>): seq<T> {
    if log == [] then [] else f(log[0]) + Project(log[1..], f)
  }

  lemma {:induction false} ProjectConcat<T(!new)>(a: seq<Obs>, b: seq<Obs>, f: Obs -> seq<T>)
    ensures Project(a + b, f) == Project(a, f) + Project(b, f)
  {
    if a == [] {
      assert a + b == b;
    } else {
      ProjectConcat(a[1..], b, f);
      assert (a + b)[1..] == a[1..] + b;
    }
  }

  /** Control packets to `h` set or clear its pending request; a packet from `h` takes it. */
  function RequestMarks(h: byte): Obs -> seq<Mark<(uint16, byte)>> {
    (o: Obs) =>
      match o
      case Requested(x, id, command) =>
        if x != h then [] else if id > 0 then [Set((id, command))] else [Clear]
      case Emitted(x, _, _, _, _) => if x == h then [Take] else []
      case _ => []
  }

  /** A dispatch to `h` fills its mailbox; its work item empties it. */
  function MailMarks(h: byte): Obs -> seq<Mark<seq<byte>>> {
    (o: Obs) =>
      match o
      case Dispatched(x, bytes) => if x == h then [Set(bytes)] else []
      case Sent(x, _) => if x == h then [Take] else []
      case _ => []
  }

  /** Request id and command of the packets from `h` that read as results. */
  function ResultMarks(h: byte): Obs -> seq<(uint16, byte)> {
    (o: Obs) =>
      if o.Emitted? && o.src == h then
        match DecodeRouted(o.dest, o.pkt)
        case Some(Result(command, _, id, _)) => [(id, command)]
        case _ => []
      else []
  }

  function SentMarks(h: byte): Obs -> seq<seq<byte>> {
    (o: Obs) => if o.Sent? && o.h == h then [o.bytes] else []
  }

  function AcceptedMarks(): Obs -> seq<PacketData> {
    (o: Obs) => if o.Accepted? then [o.data] else []
  }

  function HandledMarks(): Obs -> seq<PacketData> {
    (o: Obs) => if o.Handled? then [o.data] else []
  }

  function CellMarks(): Obs -> seq<nat> {
    (o: Obs) => if o.Accepted? && o.cell.Some? then [o.cell.value] else []
  }

  function Requests(log: seq<Obs>, h: byte): seq<Mark<(uint16, byte)>> {
    Project(log, RequestMarks(h))
  }

  function Results(log: seq<Obs>, h: byte): seq<(uint16, byte)> {
    Project(log, ResultMarks(h))
  }

  function Mail(log: seq<Obs>, h: byte): seq<Mark<seq<byte>>> {
    Project(log, MailMarks(h))
  }

  function Sends(log: seq<Obs>, h: byte): seq<seq<byte>> {
    Project(log, SentMarks(h))
  }

  // ---------- the invariant ----------

  function At(slots: seq<Slot>, h: byte): Option<Slot> {
    var i := Find(slots, h);
    if i < |slots| then Some(slots[i]) else None
  }

  function OwedBy(slots: seq<Slot>, h: byte): Option<(uint16, byte)> {
    match At(slots, h)
    case None => None
    case Some(slot) => if slot.resultId > 0 then Some((slot.resultId, slot.resultType)) else None
  }

  function MailOf(slots: seq<Slot>, h: byte): Option<seq<byte>>
    requires ValidSlots(slots)
  {
    match At(slots, h)
    case None => None
    case Some(slot) => if slot.queued then Some(Content(slot.msg)) else None
  }

  ghost predicate LogConsistent(log: seq<Obs>, h: byte) {
    && Results(log, h) == Taken(Requests(log, h))
    && Sends(log, h) == Taken(Mail(log, h))
    && Clear !in Mail(log, h)
  }

  /** The mutable fields of a handler are functions of what the log says about it. */
  ghost predicate SlotMatches(slots: seq<Slot>, log: seq<Obs>, h: byte)
    requires ValidSlots(slots)
  {
    && OwedBy(slots, h) == Pending(Requests(log, h))
    && MailOf(slots, h) == Pending(Mail(log, h))
  }

  lemma ProjectOne<T(!new)>(log: seq<Obs>, o: Obs, f: Obs -> seq<T>)
    ensures Project(log + [o], f) == Project(log, f) + f(o)
  {
    ProjectConcat(log, [o], f);
    assert Project([o], f) == f(o) + Project([o][1..], f);
  }

  lemma SnocMark<T>(m: seq<Mark<T>>, x: Mark<T>)
    ensures Taken(m + [x]) == Taken(m) + if x.Take? && Pending(m).Some? then [Pending(m).value] else []
    ensures Pending(m + [x]) == if x.Set? then Some(x.value) else None
  {
    assert (m + [x])[..|m|] == m;
  }

  /** The message a handler's packet becomes, given the request it owes a result to. */
  function Owed(owed: Option<(uint16, byte)>, src: byte, code: byte, payload: seq<byte>): Message {
    match owed
    case Some((id, command)) => Result(command, code, id, payload)
    case None => Data(src, payload)
  }

  /** An emitted packet is the encoding of the message its source then owes. */
  ghost predicate Justified(log: seq<Obs>, o: Obs, h: byte) {
    o.Emitted? && o.src == h ==>
      && o.pkt == EncodeRouted(o.dest, Owed(Pending(Requests(log, h)), h, o.code, o.payload))
      && |o.pkt| < 0x1_0000
  }

  lemma OneMoreRequest(log: seq<Obs>, o: Obs, h: byte)
    requires Results(log, h) == Taken(Requests(log, h)) && Justified(log, o, h)
    ensures Results(log + [o], h) == Taken(Requests(log + [o], h))
    ensures Pending(Requests(log + [o], h)) ==
            if o.Requested? && o.h == h then (if o.requestId > 0 then Some((o.requestId, o.command)) else None)
            else if o.Emitted? && o.src == h then None
            else Pending(Requests(log, h))
  {
    ProjectOne(log, o, RequestMarks(h));
    ProjectOne(log, o, ResultMarks(h));
    var marks, owed := Requests(log, h), Pending(Requests(log, h));
    if o.Requested? && o.h == h {
      SnocMark(marks, if o.requestId > 0 then Set((o.requestId, o.command)) else Clear);
    } else if o.Emitted? && o.src == h {
      SnocMark(marks, Take);
      RoutedRoundTrip(o.dest, Owed(owed, h, o.code, o.payload));
      assert ResultMarks(h)(o) == if owed.Some? then [owed.value] else [];
    } else {
      assert RequestMarks(h)(o) == [];
      assert marks + [] == marks;
    }
  }

  lemma OneMoreMail(log: seq<Obs>, o: Obs, h: byte)
    requires Sends(log, h) == Taken(Mail(log, h)) && Clear !in Mail(log, h)
    requires o.Sent? && o.h == h ==> Pending(Mail(log, h)) == Some(o.bytes)
    ensures Sends(log + [o], h) == Taken(Mail(log + [o], h)) && Clear !in Mail(log + [o], h)
    ensures Pending(Mail(log + [o], h)) ==
            if o.Dispatched? && o.h == h then Some(o.bytes)
            else if o.Sent? && o.h == h then None
            else Pending(Mail(log, h))
  {
    ProjectOne(log, o, MailMarks(h));
    ProjectOne(log, o, SentMarks(h));
    var marks := Mail(log, h);
    if o.Dispatched? && o.h == h {
      SnocMark(marks, Set(o.bytes));
    } else if o.Sent? && o.h == h {
      SnocMark(marks, Take);
    } else {
      assert MailMarks(h)(o) == [];
      assert marks + [] == marks;
    }
  }

  lemma AtUpdate(slots: seq<Slot>, i: nat, slot: Slot, h: byte)
    requires ValidSlots(slots) && i < |slots| && slot.id == slots[i].id && ValidBuffer(slot.msg)
    ensures ValidSlots(slots[i := slot])
    ensures At(slots[i := slot], h) == if h == slot.id then Some(slot) else At(slots, h)
  {
    var r := slots[i := slot];
    FindUnique(r, i);
    if Registered(slots, h) {
      FindUnique(r, Find(slots, h));
    }
    if Registered(r, h) {
      FindUnique(slots, Find(r, h));
    }
  }

  lemma IncomingKeeps(slots: seq<Slot>, data: PacketData, log: seq<Obs>, h: byte)
    requires ValidSlots(slots) && data.kind == Incoming && Safe(slots, data)
    requires LogConsistent(log, h) && SlotMatches(slots, log, h)
    ensures LogConsistent(log + HandlingObserved(slots, data), h)
    ensures SlotMatches(AfterHandling(slots, data), log + HandlingObserved(slots, data), h)
  {
    var obs := HandlingObserved(slots, data);
    if IsControl(data) {
      ThreeMore(log, obs[0], obs[1], obs[2], h);
      var c := ControlOf(data);
      var i := Find(slots, c.destId);
      AtUpdate(slots, i, Dispatch(slots[i], c.payload).(resultId := c.requestId, resultType := c.command), h);
    } else {
      OneMoreRequest(log, Handled(data), h);
      OneMoreMail(log, Handled(data), h);
    }
  }

  lemma OutgoingSlots(slots: seq<Slot>, data: PacketData, h: byte)
    requires ValidSlots(slots) && OutgoingSafe(slots, data)
    ensures var r := AfterOutgoing(slots, data);
            && OwedBy(r, h) == (if h == data.srcId then None else OwedBy(slots, h))
            && MailOf(r, h) == if h == data.destId
                               then Some(EncodeRouted(data.destId, MessageFrom(slots[Find(slots, data.srcId)], data)))
                               else MailOf(slots, h)
  {
    var src, dest := Find(slots, data.srcId), Find(slots, data.destId);
    var pkt := EncodeRouted(data.destId, MessageFrom(slots[src], data));
    var unpaid := slots[src].(resultId := 0);
    var cleared := slots[src := unpaid];
    AtUpdate(slots, src, unpaid, h);
    AtUpdate(cleared, dest, Dispatch(cleared[dest], pkt), h);
  }

  lemma ThreeRequests(log: seq<Obs>, o1: Obs, o2: Obs, o3: Obs, h: byte)
    requires Results(log, h) == Taken(Requests(log, h))
    requires o1.Handled? && Justified(log, o2, h) && (o2.Emitted? || o2.Requested?) && o3.Dispatched?
    ensures var r := log + [o1] + [o2] + [o3];
            && Results(r, h) == Taken(Requests(r, h))
            && Pending(Requests(r, h)) ==
               if o2.Requested? && o2.h == h then (if o2.requestId > 0 then Some((o2.requestId, o2.command)) else None)
               else if o2.Emitted? && o2.src == h then None
               else Pending(Requests(log, h))
  {
    OneMoreRequest(log, o1, h);
    OneMoreRequest(log + [o1], o2, h);
    OneMoreRequest(log + [o1] + [o2], o3, h);
  }

  lemma ThreeMails(log: seq<Obs>, o1: Obs, o2: Obs, o3: Obs, h: byte)
    requires Sends(log, h) == Taken(Mail(log, h)) && Clear !in Mail(log, h)
    requires o1.Handled? && (o2.Emitted? || o2.Requested?) && o3.Dispatched?
    ensures var r := log + [o1] + [o2] + [o3];
            && Sends(r, h) == Taken(Mail(r, h)) && Clear !in Mail(r, h)
            && Pending(Mail(r, h)) == if o3.h == h then Some(o3.bytes) else Pending(Mail(log, h))
  {
    OneMoreMail(log, o1, h);
    OneMoreMail(log + [o1], o2, h);
    OneMoreMail(log + [o1] + [o2], o3, h);
  }

  /** Three observations in a row, each justified when it is made. */
  lemma ThreeMore(log: seq<Obs>, o1: Obs, o2: Obs, o3: Obs, h: byte)
    requires LogConsistent(log, h)
    requires o1.Handled? && Justified(log, o2, h) && (o2.Emitted? || o2.Requested?) && o3.Dispatched?
    ensures var r := log + [o1, o2, o3];
            && LogConsistent(r, h)
            && Pending(Requests(r, h)) ==
               (if o2.Requested? && o2.h == h then (if o2.requestId > 0 then Some((o2.requestId, o2.command)) else None)
                else if o2.Emitted? && o2.src == h then None
                else Pending(Requests(log, h)))
            && Pending(Mail(r, h)) == if o3.h == h then Some(o3.bytes) else Pending(Mail(log, h))
  {
    ThreeRequests(log, o1, o2, o3, h);
    ThreeMails(log, o1, o2, o3, h);
    assert log + [o1, o2, o3] == log + [o1] + [o2] + [o3];
  }

  lemma OutgoingKeeps(slots: seq<Slot>, data: PacketData, log: seq<Obs>, h: byte)
    requires ValidSlots(slots) && data.kind == Outgoing && Safe(slots, data)
    requires LogConsistent(log, h) && SlotMatches(slots, log, h)
    ensures LogConsistent(log + HandlingObserved(slots, data), h)
    ensures SlotMatches(AfterHandling(slots, data), log + HandlingObserved(slots, data), h)
  {
    var obs := HandlingObserved(slots, data);
    ThreeMore(log, obs[0], obs[1], obs[2], h);
    OutgoingSlots(slots, data, h);
  }

  lemma StepKeeps(s: State, e: Event, log: seq<Obs>, h: byte)
    requires ValidState(s) && Enabled(s, e)
    requires LogConsistent(log, h) && SlotMatches(s.slots, log, h)
    ensures LogConsistent(log + Observed(s, e), h)
    ensures SlotMatches(Next(s, e).slots, log + Observed(s, e), h)
  {
    match e {
      case Submit(data) =>
        OneMoreRequest(log, Observed(s, e)[0], h);
        OneMoreMail(log, Observed(s, e)[0], h);
      case Fetch =>
        assert log + [] == log;
      case HandleNext =>
        if !s.inbox.reader.Holding? {
          assert log + [] == log;
        } else if s.inbox.reader.item.kind == Incoming {
          IncomingKeeps(s.slots, s.inbox.reader.item, log, h);
        } else {
          OutgoingKeeps(s.slots, s.inbox.reader.item, log, h);
        }
      case RunWork(i) =>
        AtUpdate(s.slots, i, s.slots[i].(queued := false), h);
        FindUnique(s.slots, i);
        if s.slots[i].queued {
          OneMoreRequest(log, Observed(s, e)[0], h);
          OneMoreMail(log, Observed(s, e)[0], h);
        } else {
          assert log + [] == log;
        }
    }
  }

  /** In every run the fields of every handler are what its log says. */
  lemma {:induction false} RunKeeps(s0: State, es: seq<Event>, h: byte)
    requires Initial(s0) && Possible(s0, es)
    ensures LogConsistent(Log(s0, es), h) && SlotMatches(After(s0, es).slots, Log(s0, es), h)
  {
    if es != [] {
      RunKeeps(s0, es[..|es| - 1], h);
      StepKeeps(After(s0, es[..|es| - 1]), es[|es| - 1], Log(s0, es[..|es| - 1]), h);
    }
  }

  // ---------- theorems over every run ----------

  /** Request accounting: the control packets with a request id that reached `h` are the
      result packets it emitted, the requests a later control packet replaced, and the one
      that is pending; results are the ids and commands of requests, in order. */
  lemma RequestAccounting(s0: State, es: seq<Event>, h: byte)
    requires Initial(s0) && Possible(s0, es)
    ensures var log := Log(s0, es);
            && |Sets(Requests(log, h))| == |Results(log, h)| + Superseded(Requests(log, h))
                                           + (if OwedBy(After(s0, es).slots, h).Some? then 1 else 0)
            && Subsequence(Results(log, h) + Held(Requests(log, h)), Sets(Requests(log, h)))
  {
    RunKeeps(s0, es, h);
    Conservation(Requests(Log(s0, es), h));
    TakenInOrder(Requests(Log(s0, es), h));
  }

  /** One outgoing packet: the destination's mailbox holds a packet that reads back as the
      message, and the source owes nothing any more. */
  lemma OutgoingDelivers(slots: seq<Slot>, data: PacketData)
    requires ValidSlots(slots) && OutgoingSafe(slots, data)
    ensures var r, mail := AfterOutgoing(slots, data), MailOf(AfterOutgoing(slots, data), data.destId);
            && mail.Some?
            && DecodeRouted(data.destId, mail.value) == Some(MessageFrom(slots[Find(slots, data.srcId)], data))
            && OwedBy(r, data.srcId) == None
  {
    RoutedRoundTrip(data.destId, MessageFrom(slots[Find(slots, data.srcId)], data));
    OutgoingSlots(slots, data, data.srcId);
    OutgoingSlots(slots, data, data.destId);
  }

  /** The next packet from a handler reads as the result of the latest control packet to it if
      that one carried a request id and nothing was emitted from the handler since; otherwise
      it reads as data. */
  lemma ResultEchoesRequest(s0: State, es: seq<Event>)
    requires Initial(s0) && Possible(s0, es)
    requires var s := After(s0, es);
             s.inbox.reader.Holding? && s.inbox.reader.item.kind == Outgoing && Enabled(s, HandleNext)
    ensures var s := After(s0, es);
            var data, slots := s.inbox.reader.item, Next(s, HandleNext).slots;
            var owed := Pending(Requests(Log(s0, es), data.srcId));
            && MailOf(slots, data.destId).Some?
            && DecodeRouted(data.destId, MailOf(slots, data.destId).value)
               == Some(Owed(owed, data.srcId, data.resultCode, Content(data.msg)))
            && OwedBy(slots, data.srcId) == None
  {
    var s := After(s0, es);
    RunKeeps(s0, es, s.inbox.reader.item.srcId);
    OutgoingDelivers(s.slots, s.inbox.reader.item);
  }

  // ---------- steps that spare a handler ----------

  /** The step handles a packet to or from `h`, or runs its work item. */
  predicate Touches(s: State, e: Event, h: byte)
    requires ValidState(s) && Enabled(s, e)
  {
    match e
    case HandleNext =>
      s.inbox.reader.Holding? &&
      var data := s.inbox.reader.item;
      if data.kind.Incoming? then IsControl(data) && ControlOf(data).destId == h
      else data.srcId == h || data.destId == h
    case RunWork(i) => s.slots[i].id == h
    case _ => false
  }

  lemma SparedStep(s: State, e: Event, h: byte)
    requires ValidState(s) && Enabled(s, e) && !Touches(s, e, h)
    ensures At(Next(s, e).slots, h) == At(s.slots, h)
  {
    match e {
      case HandleNext =>
        if s.inbox.reader.Holding? {
          SparedHandling(s.slots, s.inbox.reader.item, h);
        }
      case RunWork(i) =>
        AtUpdate(s.slots, i, s.slots[i].(queued := false), h);
      case _ =>
    }
  }

  lemma SparedHandling(slots: seq<Slot>, data: PacketData, h: byte)
    requires ValidSlots(slots) && Safe(slots, data)
    requires if data.kind.Incoming? then IsControl(data) ==> ControlOf(data).destId != h
             else data.srcId != h && data.destId != h
    ensures At(AfterHandling(slots, data), h) == At(slots, h)
  {
    if data.kind.Incoming? {
      if IsControl(data) {
        var c := ControlOf(data);
        var i := Find(slots, c.destId);
        AtUpdate(slots, i, Dispatch(slots[i], c.payload).(resultId := c.requestId, resultType := c.command), h);
      }
    } else {
      var src, dest := Find(slots, data.srcId), Find(slots, data.destId);
      var pkt := EncodeRouted(data.destId, MessageFrom(slots[src], data));
      var cleared := slots[src := slots[src].(resultId := 0)];
      AtUpdate(slots, src, slots[src].(resultId := 0), h);
      AtUpdate(cleared, dest, Dispatch(cleared[dest], pkt), h);
    }
  }

  predicate Spares(s: State, es: seq<Event>, h: byte)
    requires ValidState(s) && Possible(s, es)
  {
    es == [] || (Spares(s, es[..|es| - 1], h) && !Touches(After(s, es[..|es| - 1]), es[|es| - 1], h))
  }

  /** Whatever else happens in between, a handler that is spared stays exactly as it is. */
  lemma {:induction false} SparedStays(s: State, es: seq<Event>, h: byte)
    requires ValidState(s) && Possible(s, es) && Spares(s, es, h)
    ensures At(After(s, es).slots, h) == At(s.slots, h)
  {
    hide Touches, At, Next, Enabled;
    if es != [] {
      SparedStays(s, es[..|es| - 1], h);
      SparedStep(After(s, es[..|es| - 1]), es[|es| - 1], h);
    }
  }

  lemma StepKeepsIds(s: State, e: Event, h: byte)
    requires ValidState(s) && Enabled(s, e)
    ensures Registered(Next(s, e).slots, h) <==> Registered(s.slots, h)
  {
    var r := Next(s, e).slots;
    assert forall k | 0 <= k < |r| :: r[k].id == s.slots[k].id;
    SameIdsFound(s.slots, r, h);
  }

  lemma SameIdsFound(slots: seq<Slot>, r: seq<Slot>, h: byte)
    requires |r| == |slots| && forall k | 0 <= k < |slots| :: r[k].id == slots[k].id
    ensures Find(r, h) == Find(slots, h)
  {
    var i, j := Find(slots, h), Find(r, h);
    assert i == |slots| || r[i].id == slots[i].id;
    assert j == |slots| || r[j].id == slots[j].id;
  }

  /** A work item clears the mark that it is queued, and nothing else. */
  lemma RunWorkExactly(s: State, i: nat, k: nat)
    requires ValidState(s) && i < |s.slots| && k < |s.slots|
    ensures var r, t := Next(s, RunWork(i)), Next(s, RunWork(i)).slots[k];
            && r.inbox == s.inbox
            && t.id == s.slots[k].id && t.target == s.slots[k].target && t.msg == s.slots[k].msg
            && t.resultId == s.slots[k].resultId && t.resultType == s.slots[k].resultType
            && t.queued == (k != i && s.slots[k].queued)
  {
  }

  /** In every run each slot stays bound to the id and the instance it was registered with. */
  lemma {:induction false} IdentityStays(s0: State, es: seq<Event>, i: nat)
    requires ValidState(s0) && Possible(s0, es) && i < |s0.slots|
    ensures var slot := After(s0, es).slots[i]; slot.id == s0.slots[i].id && slot.target == s0.slots[i].target
  {
    if es != [] {
      var s, e := After(s0, es[..|es| - 1]), es[|es| - 1];
      IdentityStays(s0, es[..|es| - 1], i);
      if e.HandleNext? && s.inbox.reader.Holding? {
        HandlingKeepsIdentity(s.slots, s.inbox.reader.item, i);
      }
    }
  }

  /** The set of registered ids is the same throughout a run. */
  lemma {:induction false} IdsStay(s: State, es: seq<Event>, h: byte)
    requires ValidState(s) && Possible(s, es)
    ensures Registered(After(s, es).slots, h) <==> Registered(s.slots, h)
  {
    hide Registered, Next, Enabled;
    if es != [] {
      IdsStay(s, es[..|es| - 1], h);
      StepKeepsIds(After(s, es[..|es| - 1]), es[|es| - 1], h);
    }
  }

  /** Mailbox accounting: the messages dispatched to `h` are those sent, those overwritten while
      the work item was queued, and the one still queued; the sent messages are dispatched ones
      in order, and once the work item is idle the newest dispatch has been sent. */
  lemma MailboxAccounting(s0: State, es: seq<Event>, h: byte)
    requires Initial(s0) && Possible(s0, es)
    ensures Accounted(Mail(Log(s0, es), h), Sends(Log(s0, es), h), MailOf(After(s0, es).slots, h))
  {
    RunKeeps(s0, es, h);
    Account(Mail(Log(s0, es), h));
  }

  /** Packets are handled in the order they were accepted, none lost and none twice: what was
      accepted is what was handled, the packet in the thread's hands, and what the ring buffer
      holds. At most one packet more than the capacity is on its way. */
  lemma {:induction false} QueueIsFifo(s0: State, es: seq<Event>)
    requires Initial(s0) && Possible(s0, es)
    ensures Project(Log(s0, es), AcceptedMarks())
         == Project(Log(s0, es), HandledMarks()) + Backlog(After(s0, es).inbox)
    ensures |Backlog(After(s0, es).inbox)| <= s0.inbox.cap + 1
  {
    if es != [] {
      var before, e := es[..|es| - 1], es[|es| - 1];
      QueueIsFifo(s0, before);
      var s, log := After(s0, before), Log(s0, before);
      var obs := Observed(s, e);
      ProjectConcat(log, obs, AcceptedMarks());
      ProjectConcat(log, obs, HandledMarks());
      ObservedPackets(s, e);
      Rebracket(Project(log, HandledMarks()), Backlog(s.inbox), Project(obs, AcceptedMarks()),
                Project(obs, HandledMarks()), Backlog(Next(s, e).inbox));
    }
  }

  lemma Rebracket<T>(h: seq<T>, q: seq<T>, a: seq<T>, g: seq<T>, r: seq<T>)
    requires q + a == g + r
    ensures (h + q) + a == (h + g) + r
  {
    assert (h + q) + a == h + (q + a);
    assert (h + g) + r == h + (g + r);
  }

  lemma ProjectSingle<T(!new)>(a: Obs, f: Obs -> seq<T>)
    ensures Project([a], f) == f(a)
  {
    ProjectOne([], a, f);
    assert [] + [a] == [a];
    assert Project([], f) + f(a) == f(a);
  }

  lemma ProjectThree<T(!new)>(a: Obs, b: Obs, c: Obs, f: Obs -> seq<T>)
    ensures Project([a, b, c], f) == f(a) + f(b) + f(c)
  {
    ProjectSingle(a, f);
    ProjectOne([a], b, f);
    ProjectOne([a, b], c, f);
    assert [a] + [b] == [a, b] && [a, b] + [c] == [a, b, c];
  }

  /** Handling shows the packet once, and nothing that is accepted, stored or sent. */
  lemma HandlingPackets(slots: seq<Slot>, data: PacketData)
    requires ValidSlots(slots) && Safe(slots, data)
    ensures Project(HandlingObserved(slots, data), AcceptedMarks()) == []
    ensures Project(HandlingObserved(slots, data), HandledMarks()) == [data]
    ensures Project(HandlingObserved(slots, data), CellMarks()) == []
  {
    var obs := HandlingObserved(slots, data);
    if |obs| == 1 {
      ProjectSingle(obs[0], AcceptedMarks());
      ProjectSingle(obs[0], HandledMarks());
      ProjectSingle(obs[0], CellMarks());
    } else {
      ProjectThree(obs[0], obs[1], obs[2], AcceptedMarks());
      ProjectThree(obs[0], obs[1], obs[2], HandledMarks());
      ProjectThree(obs[0], obs[1], obs[2], CellMarks());
    }
  }

  lemma HandlingSendsNothing(slots: seq<Slot>, data: PacketData, h: byte)
    requires ValidSlots(slots) && Safe(slots, data)
    ensures Project(HandlingObserved(slots, data), SentMarks(h)) == []
  {
    var obs := HandlingObserved(slots, data);
    if |obs| == 1 {
      ProjectSingle(obs[0], SentMarks(h));
    } else {
      ProjectThree(obs[0], obs[1], obs[2], SentMarks(h));
    }
  }

  /** What a step sends for a handler. */
  lemma SendsOfStep(s: State, e: Event, h: byte)
    requires ValidState(s) && Enabled(s, e)
    ensures Project(Observed(s, e), SentMarks(h))
         == if e.RunWork? && s.slots[e.slot].queued && s.slots[e.slot].id == h
            then [Content(s.slots[e.slot].msg)] else []
  {
    hide AfterHandling, HandlingObserved, Safe;
    if e == HandleNext && s.inbox.reader.Holding? {
      HandlingSendsNothing(s.slots, s.inbox.reader.item, h);
    } else if Observed(s, e) != [] {
      ProjectSingle(Observed(s, e)[0], SentMarks(h));
    }
  }

  /** The packets a step shows as accepted and as handled. */
  lemma PacketsOfStep(s: State, e: Event)
    requires ValidState(s) && Enabled(s, e)
    ensures Project(Observed(s, e), AcceptedMarks()) == if e.Submit? && !Full(s.inbox) then [e.data] else []
    ensures Project(Observed(s, e), HandledMarks())
         == if e.HandleNext? && s.inbox.reader.Holding? then [s.inbox.reader.item] else []
  {
    hide AfterHandling, HandlingObserved, Safe;
    var obs := Observed(s, e);
    if e == HandleNext && s.inbox.reader.Holding? {
      HandlingPackets(s.slots, s.inbox.reader.item);
    } else if obs != [] {
      ProjectSingle(obs[0], AcceptedMarks());
      ProjectSingle(obs[0], HandledMarks());
    }
  }

  lemma ObservedPackets(s: State, e: Event)
    requires ValidState(s) && Enabled(s, e)
    ensures var obs := Observed(s, e);
            && Backlog(s.inbox) + Project(obs, AcceptedMarks())
               == Project(obs, HandledMarks()) + Backlog(Next(s, e).inbox)
  {
    hide AfterHandling, Safe, Observed, Project, Backlog, Put, Get, Release;
    PacketsOfStep(s, e);
    match e {
      case HandleNext =>
        if s.inbox.reader.Holding? {
          ReleaseBacklog(s.inbox);
          assert Backlog(s.inbox) == [s.inbox.reader.item] + Backlog(s.inbox)[1..];
        }
      case Submit(data) =>
        PutBacklog(s.inbox, data);
      case Fetch =>
        GetBacklog(s.inbox);
      case RunWork(i) =>
    }
  }

  // ---------- the storage of the queue ----------

  /** The cells of the ring buffer a run wrote to, in order. */
  function Cells(s0: State, es: seq<Event>): seq<nat>
    requires ValidState(s0) && Possible(s0, es)
  {
    Project(Log(s0, es), CellMarks())
  }

  lemma CellsOfStep(s: State, e: Event)
    requires ValidState(s) && Enabled(s, e)
    ensures Project(Observed(s, e), CellMarks())
         == if e.Submit? && UsesRing(s.inbox) then [s.inbox.writeAt] else []
    ensures Next(s, e).inbox.writeAt
         == if !e.Submit? || !UsesRing(s.inbox) then s.inbox.writeAt
            else if s.inbox.writeAt + 1 == s.inbox.cap then 0 else s.inbox.writeAt + 1
  {
    hide AfterHandling, HandlingObserved, Safe;
    if e == HandleNext && s.inbox.reader.Holding? {
      HandlingPackets(s.slots, s.inbox.reader.item);
    } else if Observed(s, e) != [] {
      ProjectSingle(Observed(s, e)[0], CellMarks());
    }
  }

  /** The `k`-th cell when a ring of `cap` cells is written one after the other. */
  function NthCell(k: nat, cap: nat): (cell: nat)
    requires cap > 0
    ensures cell < cap && cell <= k
    ensures k < cap ==> cell == k
  {
    if k == 0 then 0
    else
      var last := NthCell(k - 1, cap);
      if last + 1 == cap then 0 else last + 1
  }

  /** In every run the ring is written cell after cell, round and round. */
  lemma {:induction false} CellsGoRound(s0: State, es: seq<Event>)
    requires Initial(s0) && Possible(s0, es) && s0.inbox.cap > 0
    ensures var cells, cap := Cells(s0, es), s0.inbox.cap;
            && After(s0, es).inbox.writeAt == NthCell(|cells|, cap)
            && forall k | 0 <= k < |cells| :: cells[k] == NthCell(k, cap)
  {
    hide Next, Observed, Project, UsesRing;
    if es == [] {
      assert Cells(s0, es) == [] by {
        EmptyProject(CellMarks());
      }
    } else {
      var before, e := es[..|es| - 1], es[|es| - 1];
      var s := After(s0, before);
      CellsGoRound(s0, before);
      ProjectConcat(Log(s0, before), Observed(s, e), CellMarks());
      CellsOfStep(s, e);
    }
  }

  lemma EmptyProject<T(!new)>(f: Obs -> seq<T>)
    ensures Project([], f) == []
  {
  }

  /** In every run: all cells that were written lie in the storage for 14 packets exactly when
      the capacity is at most 14 or no more than 14 packets went through the ring. Packets
      handed to the waiting thread do not count, however many there are. */
  lemma QueueStaysInStorageIff(s0: State, es: seq<Event>)
    requires Initial(s0) && Possible(s0, es) && s0.inbox.cap > 0
    ensures var cells := Cells(s0, es);
            (forall k | 0 <= k < |cells| :: cells[k] < 14) <==>
            s0.inbox.cap <= 14 || |cells| <= 14
  {
    CellsGoRound(s0, es);
    var cells := Cells(s0, es);
    if |cells| > 14 {
      assert cells[14] == NthCell(14, s0.inbox.cap);
    }
  }

  // ---------- what leads out of the storage, and what does not ----------

  /** Packets that come while the thread is busy elsewhere. */
  function Burst(data: PacketData, n: nat): (es: seq<Event>)
    ensures |es| == n
  {
    if n == 0 then [] else Burst(data, n - 1) + [Submit(data)]
  }

  lemma BurstStep(s0: State, es: seq<Event>, data: PacketData)
    requires ValidState(s0) && Possible(s0, es)
    requires !Full(After(s0, es).inbox) && After(s0, es).inbox.reader == Ready
    ensures Possible(s0, es + [Submit(data)])
    ensures After(s0, es + [Submit(data)]).inbox == Put(After(s0, es).inbox, data)
    ensures |Cells(s0, es + [Submit(data)])| == |Cells(s0, es)| + 1
  {
    hide Next, Observed, Project, Put;
    var s := After(s0, es);
    RunSnoc(s0, es, Submit(data));
    SubmitPuts(s, data);
    ProjectConcat(Log(s0, es), Observed(s, Submit(data)), CellMarks());
    CellsOfStep(s, Submit(data));
  }

  lemma {:induction false} BurstFills(s0: State, data: PacketData, n: nat)
    requires Initial(s0) && n <= s0.inbox.cap
    ensures Possible(s0, Burst(data, n)) && |Cells(s0, Burst(data, n))| == n
    ensures var q := After(s0, Burst(data, n)).inbox; |q.items| == n && q.reader == Ready
  {
    hide After, Possible, Cells;
    if n == 0 {
      EmptyRun(s0);
    } else {
      BurstFills(s0, data, n - 1);
      BurstStep(s0, Burst(data, n - 1), data);
    }
  }

  lemma EmptyRun(s0: State)
    requires ValidState(s0)
    ensures Possible(s0, []) && After(s0, []) == s0 && Cells(s0, []) == []
  {
    EmptyProject(CellMarks());
  }

  lemma SubmitPuts(s: State, data: PacketData)
    requires ValidState(s)
    ensures Next(s, Submit(data)) == s.(inbox := Put(s.inbox, data))
  {
  }

  /** With the capacity the code passes, fifteen packets before the thread first runs are all
      accepted, and the fifteenth is written behind the storage. */
  lemma FifteenPacketsLeaveStorage(s0: State, data: PacketData)
    requires Initial(s0) && s0.inbox.cap == PACKET_BUF_SIZE
    ensures Possible(s0, Burst(data, 15)) && |After(s0, Burst(data, 15)).inbox.items| == 15
    ensures exists k :: 0 <= k < |Cells(s0, Burst(data, 15))| && Cells(s0, Burst(data, 15))[k] >= 14
  {
    BurstFills(s0, data, 15);
    QueueStaysInStorageIff(s0, Burst(data, 15));
  }

  /** Every packet comes while the thread waits. */
  predicate AlwaysAwaited(s0: State, es: seq<Event>)
    requires ValidState(s0) && Possible(s0, es)
  {
    es == [] ||
    (&& AlwaysAwaited(s0, es[..|es| - 1])
     && (es[|es| - 1].Submit? ==> After(s0, es[..|es| - 1]).inbox.reader.Waiting?))
  }

  /** A thread that is always waiting when a packet comes never uses the ring: with any number
      of packets and any capacity the storage is not touched. */
  lemma {:induction false} AwaitedPacketsNeedNoStorage(s0: State, es: seq<Event>)
    requires ValidState(s0) && Possible(s0, es) && AlwaysAwaited(s0, es)
    ensures Cells(s0, es) == []
  {
    if es != [] {
      var before, e := es[..|es| - 1], es[|es| - 1];
      AwaitedPacketsNeedNoStorage(s0, before);
      ProjectConcat(Log(s0, before), Observed(After(s0, before), e), CellMarks());
      CellsOfStep(After(s0, before), e);
    }
  }
}
