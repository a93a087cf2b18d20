/** One UART and the router as one machine: the interrupt machine and its thread, the packet queue
    and its thread, the work items, and any other producers, in any order. A run of the whole
    is a run of the UART and a run of the router, joined where the UART thread submits a packet
    and where the work item of the UART's handler sends a message. */
module SystemRuns {
  import opened Bytes
  import opened Protocol
  import opened Router
  import opened MessageQueue
  import M = UartModel
  import U = UartRuns
  import R = RouterRuns

  datatype Event =
    | Irq(rx: M.Rx)
    | Shift
    | UartFetch
    | UartRound
    | Produce(data: PacketData)
    | RouterFetch
    | RouterHandle
    | RunWork(slot: nat)

  /** The UART's ids and the states both machines start in. */
  datatype Start = Start(srcId: byte, destId: byte, uart: M.Uart, router: R.State)

  /** The run of each machine, and of the packets the UART thread submitted those the queue took
      and how many it refused. */
  datatype Trace = Trace(us: seq<U.Event>, rs: seq<R.Event>,
                         offered: seq<PacketData>, accepted: seq<PacketData>, rejected: nat)

  predicate Initial(c: Start) {
    U.Initial(c.uart) && R.Initial(c.router)
  }

  predicate IsTrace(c: Start, t: Trace)
    requires Initial(c)
  {
    U.Possible(c.uart, t.us) && R.Possible(c.router, t.rs)
  }

  function Line(c: Start, t: Trace): U.Run
    requires Initial(c) && IsTrace(c, t)
  {
    U.After(c.uart, t.us)
  }

  function Core(c: Start, t: Trace): (r: R.State)
    requires Initial(c) && IsTrace(c, t)
    ensures R.ValidState(r)
  {
    R.After(c.router, t.rs)
  }

  predicate Enabled(c: Start, t: Trace, e: Event)
    requires Initial(c) && IsTrace(c, t)
  {
    match e
    case RouterHandle => R.Enabled(Core(c, t), R.HandleNext)
    case RunWork(i) => i < |Core(c, t).slots|
    case _ => true
  }

  /** The UART thread submits the packet of its buffer and is done with it. */
  function Offer(c: Start, t: Trace): Trace
    requires Initial(c) && IsTrace(c, t) && Line(c, t).u.queue.reader.Holding?
  {
    var data := M.PacketOf(Line(c, t).u.queue.reader.item, c.srcId, c.destId);
    var full := Full(Core(c, t).inbox);
    Trace(t.us + [U.FinishLine], t.rs + [R.Submit(data)], t.offered + [data],
          if full then t.accepted else t.accepted + [data], if full then t.rejected + 1 else t.rejected)
  }

  /** The work item sends what is in the mailbox, over the UART if it is the UART's. */
  function Work(c: Start, t: Trace, i: nat): Trace
    requires Initial(c) && IsTrace(c, t) && i < |Core(c, t).slots|
  {
    var slot := Core(c, t).slots[i];
    t.(us := if slot.queued && slot.id == c.srcId then t.us + [U.SendMessage(Content(slot.msg))] else t.us,
       rs := t.rs + [R.RunWork(i)])
  }

  function Next(c: Start, t: Trace, e: Event): (r: Trace)
    requires Initial(c) && IsTrace(c, t) && Enabled(c, t, e)
    ensures IsTrace(c, r)
  {
    NextIsTrace(c, t, e);
    Step(c, t, e)
  }

  function Step(c: Start, t: Trace, e: Event): Trace
    requires Initial(c) && IsTrace(c, t) && Enabled(c, t, e)
  {
    match e
    case Irq(rx) => t.(us := t.us + [U.Irq(rx)])
    case Shift => t.(us := t.us + [U.Shift])
    case UartFetch => t.(us := t.us + [U.FetchLine])
    case UartRound => if Line(c, t).u.queue.reader.Holding? then Offer(c, t) else t
    case Produce(data) => t.(rs := t.rs + [R.Submit(data)])
    case RouterFetch => t.(rs := t.rs + [R.Fetch])
    case RouterHandle => t.(rs := t.rs + [R.HandleNext])
    case RunWork(i) => Work(c, t, i)
  }

  lemma NextIsTrace(c: Start, t: Trace, e: Event)
    requires Initial(c) && IsTrace(c, t) && Enabled(c, t, e)
    ensures IsTrace(c, Step(c, t, e))
  {
    hide R.Possible, U.Possible, R.After, U.After, M.PacketOf;
    forall ue | U.Enabled(Line(c, t).u, ue)
      ensures U.Possible(c.uart, t.us + [ue])
    {
      U.RunSnoc(c.uart, t.us, ue);
    }
    forall re | R.Enabled(Core(c, t), re)
      ensures R.Possible(c.router, t.rs + [re])
    {
      R.RunSnoc(c.router, t.rs, re);
    }
  }

  // ---------- runs ----------

  predicate Possible(c: Start, es: seq<Event>)
    requires Initial(c)
    decreases |es|, 0
  {
    es == [] || (Possible(c, es[..|es| - 1]) && Enabled(c, After(c, es[..|es| - 1]), es[|es| - 1]))
  }

  function After(c: Start, es: seq<Event>): (t: Trace)
    requires Initial(c) && Possible(c, es)
    ensures IsTrace(c, t)
    decreases |es|, 1
  {
    if es == [] then Trace([], [], [], [], 0) else Next(c, After(c, es[..|es| - 1]), es[|es| - 1])
  }

  // ---------- the invariant ----------

  predicate Whole(buffers: seq<seq<byte>>) {
    forall k | 0 <= k < |buffers| :: |buffers[k]| == M.UART_BUFFER_SIZE
  }

  function PacketsOf(c: Start, buffers: seq<seq<byte>>): (r: seq<PacketData>)
    requires Whole(buffers)
    ensures |r| == |buffers|
  {
    seq(|buffers|, k requires 0 <= k < |buffers| => M.PacketOf(buffers[k], c.srcId, c.destId))
  }

  /** What the UART's thread got, it submitted, except for the buffer in its hands. */
  ghost predicate LinesJoin(c: Start, t: Trace)
    requires Initial(c) && IsTrace(c, t)
  {
    var run := Line(c, t);
    && Whole(run.h.fetched) && Whole(InHand(run.u.queue))
    && PacketsOf(c, run.h.fetched) == t.offered + PacketsOf(c, InHand(run.u.queue))
  }

  /** What was submitted was accepted or refused, in order. */
  ghost predicate OffersJoin(c: Start, t: Trace)
    requires Initial(c) && IsTrace(c, t)
  {
    && |t.offered| == |t.accepted| + t.rejected
    && Subsequence(t.accepted, t.offered)
    && Subsequence(t.accepted, R.Project(R.Log(c.router, t.rs), R.AcceptedMarks()))
  }

  /** What the router sends for the UART's handler is what the UART was given to send. */
  ghost predicate SendsJoin(c: Start, t: Trace)
    requires Initial(c) && IsTrace(c, t)
  {
    Line(c, t).h.sent == R.Sends(R.Log(c.router, t.rs), c.srcId)
  }

  ghost predicate Joined(c: Start, t: Trace)
    requires Initial(c) && IsTrace(c, t)
  {
    LinesJoin(c, t) && OffersJoin(c, t) && SendsJoin(c, t)
  }

  /** One more step of the UART that is not the end of its thread's round. */
  lemma UartStepJoins(c: Start, t: Trace, e: U.Event, r: Trace)
    requires Initial(c) && IsTrace(c, t) && LinesJoin(c, t) && U.Enabled(Line(c, t).u, e) && !e.FinishLine?
    requires r.us == t.us + [e] && r.offered == t.offered && IsTrace(c, r)
    ensures LinesJoin(c, r)
    ensures Line(c, r).h.sent == if e.SendMessage? then Line(c, t).h.sent + [e.m] else Line(c, t).h.sent
  {
    hide U.Possible, U.After, R.Possible, U.Next, U.Record, M.PacketOf;
    var run := Line(c, t);
    U.RunSnoc(c.uart, t.us, e);
    U.ReaderStep(run.u, run.h, e);
    var after := InHand(U.Next(run.u, e).queue);
    assert Whole(after);
    if InHand(run.u.queue) == [] {
      PacketsConcat(c, run.h.fetched, after);
      assert t.offered + [] == t.offered;
    }
  }

  lemma PacketsConcat(c: Start, a: seq<seq<byte>>, b: seq<seq<byte>>)
    requires Whole(a) && Whole(b)
    ensures Whole(a + b) && PacketsOf(c, a + b) == PacketsOf(c, a) + PacketsOf(c, b)
  {
  }

  /** The end of the UART thread's round. */
  lemma OfferJoins(c: Start, t: Trace)
    requires Initial(c) && IsTrace(c, t) && LinesJoin(c, t) && Line(c, t).u.queue.reader.Holding?
    requires IsTrace(c, Offer(c, t))
    ensures LinesJoin(c, Offer(c, t)) && Line(c, Offer(c, t)).h.sent == Line(c, t).h.sent
  {
    hide U.Possible, U.After, R.Possible, U.Next, U.Record, M.PacketOf;
    var run := Line(c, t);
    U.RunSnoc(c.uart, t.us, U.FinishLine);
    U.ReaderStep(run.u, run.h, U.FinishLine);
    var data := M.PacketOf(run.u.queue.reader.item, c.srcId, c.destId);
    assert PacketsOf(c, InHand(run.u.queue)) == [data];
    assert PacketsOf(c, []) == [] && t.offered + [data] + [] == t.offered + [data];
  }

  /** One more step of the router: what it accepts, and what it sends for the UART's handler. */
  lemma RouterStepLog(c: Start, t: Trace, e: R.Event)
    requires Initial(c) && IsTrace(c, t) && R.Enabled(Core(c, t), e)
    ensures R.Possible(c.router, t.rs + [e])
    ensures var s, log, more := Core(c, t), R.Log(c.router, t.rs), R.Log(c.router, t.rs + [e]);
            && R.Project(more, R.AcceptedMarks())
               == R.Project(log, R.AcceptedMarks()) + (if e.Submit? && !Full(s.inbox) then [e.data] else [])
            && R.Sends(more, c.srcId)
               == R.Sends(log, c.srcId) + if e.RunWork? && s.slots[e.slot].queued && s.slots[e.slot].id == c.srcId
                                          then [Content(s.slots[e.slot].msg)] else []
  {
    hide R.Possible, R.After, R.Log, R.Next, R.Observed, R.Project;
    var s, log := Core(c, t), R.Log(c.router, t.rs);
    R.RunSnoc(c.router, t.rs, e);
    R.ProjectConcat(log, R.Observed(s, e), R.AcceptedMarks());
    R.ProjectConcat(log, R.Observed(s, e), R.SentMarks(c.srcId));
    R.PacketsOfStep(s, e);
    R.SendsOfStep(s, e, c.srcId);
  }

  lemma AcceptMore(offered: seq<PacketData>, accepted: seq<PacketData>, seen: seq<PacketData>, data: PacketData)
    requires Subsequence(accepted, offered) && Subsequence(accepted, seen)
    ensures Subsequence(accepted + [data], offered + [data]) && Subsequence(accepted + [data], seen + [data])
    ensures Subsequence(accepted, offered + [data]) && Subsequence(accepted, seen + [data])
  {
    SubsequenceSnoc(accepted, offered, data);
    SubsequenceSnoc(accepted, seen, data);
  }

  lemma RoundJoins(c: Start, t: Trace)
    requires Initial(c) && IsTrace(c, t) && Joined(c, t) && Line(c, t).u.queue.reader.Holding?
    ensures IsTrace(c, Offer(c, t)) && Joined(c, Offer(c, t))
  {
    hide U.Possible, U.After, R.Possible, R.After, R.Log, R.Project, R.Sends, M.PacketOf, Subsequence, LinesJoin;
    var data, log := M.PacketOf(Line(c, t).u.queue.reader.item, c.srcId, c.destId), R.Log(c.router, t.rs);
    var seen := R.Project(log, R.AcceptedMarks());
    NextIsTrace(c, t, UartRound);
    OfferJoins(c, t);
    RouterStepLog(c, t, R.Submit(data));
    AcceptMore(t.offered, t.accepted, seen, data);
    assert seen + [] == seen && R.Sends(log, c.srcId) + [] == R.Sends(log, c.srcId);
  }

  /** A step of the router alone. */
  lemma CoreStepJoins(c: Start, t: Trace, e: R.Event, r: Trace)
    requires Initial(c) && IsTrace(c, t) && Joined(c, t) && R.Enabled(Core(c, t), e)
    requires r == t.(rs := t.rs + [e])
    requires e.RunWork? ==> !Core(c, t).slots[e.slot].queued || Core(c, t).slots[e.slot].id != c.srcId
    ensures IsTrace(c, r) && Joined(c, r)
  {
    hide U.Possible, U.After, R.Possible, R.After, R.Log, R.Project, R.Enabled, Subsequence;
    var log := R.Log(c.router, t.rs);
    RouterStepLog(c, t, e);
    var seen := R.Project(log, R.AcceptedMarks());
    if e.Submit? {
      AcceptMore(t.offered, t.accepted, seen, e.data);
    }
    assert seen + [] == seen && R.Sends(log, c.srcId) + [] == R.Sends(log, c.srcId);
  }

  /** A step of the UART alone. */
  lemma LineStepJoins(c: Start, t: Trace, e: U.Event, r: Trace)
    requires Initial(c) && IsTrace(c, t) && Joined(c, t)
    requires U.Enabled(Line(c, t).u, e) && !e.FinishLine? && !e.SendMessage?
    requires r == t.(us := t.us + [e])
    ensures IsTrace(c, r) && Joined(c, r)
  {
    hide U.Possible, U.After, R.Possible, R.After, R.Log, R.Project, Subsequence, LinesJoin;
    U.RunSnoc(c.uart, t.us, e);
    UartStepJoins(c, t, e, r);
  }

  /** The work item of the UART's handler, with a message in the mailbox. */
  lemma SendJoins(c: Start, t: Trace, i: nat)
    requires Initial(c) && IsTrace(c, t) && Joined(c, t) && i < |Core(c, t).slots|
    requires Core(c, t).slots[i].queued && Core(c, t).slots[i].id == c.srcId
    ensures IsTrace(c, Work(c, t, i)) && Joined(c, Work(c, t, i))
  {
    hide U.Possible, U.After, R.Possible, R.After, R.Log, R.Project, Subsequence, LinesJoin;
    var log := R.Log(c.router, t.rs);
    NextIsTrace(c, t, RunWork(i));
    UartStepJoins(c, t, U.SendMessage(Content(Core(c, t).slots[i].msg)), Work(c, t, i));
    RouterStepLog(c, t, R.RunWork(i));
    var seen := R.Project(log, R.AcceptedMarks());
    assert seen + [] == seen;
  }

  lemma StepJoins(c: Start, t: Trace, e: Event)
    requires Initial(c) && IsTrace(c, t) && Enabled(c, t, e) && Joined(c, t)
    ensures Joined(c, Next(c, t, e))
  {
    hide Joined, IsTrace, Core, Line, Offer;
    match e {
      case Irq(rx) => LineStepJoins(c, t, U.Irq(rx), Next(c, t, e));
      case Shift => LineStepJoins(c, t, U.Shift, Next(c, t, e));
      case UartFetch => LineStepJoins(c, t, U.FetchLine, Next(c, t, e));
      case UartRound =>
        if Line(c, t).u.queue.reader.Holding? {
          RoundJoins(c, t);
        }
      case Produce(data) => CoreStepJoins(c, t, R.Submit(data), Next(c, t, e));
      case RouterFetch => CoreStepJoins(c, t, R.Fetch, Next(c, t, e));
      case RouterHandle => CoreStepJoins(c, t, R.HandleNext, Next(c, t, e));
      case RunWork(i) =>
        var slot := Core(c, t).slots[i];
        if slot.queued && slot.id == c.srcId {
          SendJoins(c, t, i);
        } else {
          CoreStepJoins(c, t, R.RunWork(i), Next(c, t, e));
        }
    }
  }

  lemma NothingJoined(c: Start)
    requires Initial(c)
    ensures Possible(c, []) && Joined(c, After(c, []))
  {
  }

  /** Over every interleaving: what the UART thread submitted is what it made of the buffers it
      got, in order; what the router's queue accepted of it are these packets without the refused
      ones, in order; and what the UART was given to send is what the router's log shows as sent
      for its handler. */
  lemma {:induction false} SystemKeeps(c: Start, es: seq<Event>)
    requires Initial(c) && Possible(c, es)
    ensures Joined(c, After(c, es))
  {
    hide Joined, Next, Enabled;
    if es == [] {
      NothingJoined(c);
    } else {
      SystemKeeps(c, es[..|es| - 1]);
      StepJoins(c, After(c, es[..|es| - 1]), es[|es| - 1]);
    }
  }

  // ---------- what that means for lines and messages ----------

  lemma {:induction false} PacketsInOrder(c: Start, a: seq<seq<byte>>, b: seq<seq<byte>>)
    requires Whole(a) && Whole(b) && Subsequence(a, b)
    ensures Subsequence(PacketsOf(c, a), PacketsOf(c, b))
    decreases |b|
  {
    if a != [] {
      var a0, b0, p, q := a[..|a| - 1], b[..|b| - 1], PacketsOf(c, a), PacketsOf(c, b);
      hide M.PacketOf;
      assert p[..|a| - 1] == PacketsOf(c, a0) && q[..|b| - 1] == PacketsOf(c, b0);
      if a[|a| - 1] == b[|b| - 1] && Subsequence(a0, b0) {
        PacketsInOrder(c, a0, b0);
      } else {
        PacketsInOrder(c, a, b0);
      }
    }
  }

  /** Every finished line of the received bytes is accounted for across the system: its packet
      was accepted by the router or refused by a full queue, its buffer is in the UART's queue or
      in the thread's hands, or it was lost to a purge, three at a time. The accepted packets are
      those of stored lines, in the order the lines came, and the router's queue took them in
      that order. */
  lemma EveryLineAccounted(c: Start, es: seq<Event>)
    requires Initial(c) && Possible(c, es)
    ensures var t := After(c, es);
            var run := Line(c, t);
            && run.h.lines == U.AllLines(run.h.heard)
            && |run.h.lines| == |t.accepted| + t.rejected + |Backlog(run.u.queue)| + 3 * run.h.purges
            && |run.h.stored| == |run.h.lines|
            && (forall i | 0 <= i < |run.h.lines| :: U.Holds(run.h.stored[i], run.h.lines[i]))
            && Whole(run.h.stored) && Subsequence(t.accepted, PacketsOf(c, run.h.stored))
            && Subsequence(t.accepted, R.Project(R.Log(c.router, t.rs), R.AcceptedMarks()))
  {
    hide Possible, After, U.Possible, U.After, R.Possible, Subsequence, U.AllLines, U.WireOk, SendsJoin;
    SystemKeeps(c, es);
    var t := After(c, es);
    var run := Line(c, t);
    U.UartRunKeeps(c.uart, t.us);
    assert Whole(run.h.stored) by {
      assert forall i | 0 <= i < |run.h.stored| :: U.Holds(run.h.stored[i], run.h.lines[i]);
    }
    AcceptedFromStored(c, t, run);
  }

  lemma AcceptedFromStored(c: Start, t: Trace, run: U.Run)
    requires M.ValidUart(run.u) && Whole(run.h.fetched) && Whole(InHand(run.u.queue)) && Whole(run.h.stored)
    requires PacketsOf(c, run.h.fetched) == t.offered + PacketsOf(c, InHand(run.u.queue))
    requires Subsequence(run.h.fetched + run.u.queue.items, run.h.stored) && Subsequence(t.accepted, t.offered)
    ensures Subsequence(t.accepted, PacketsOf(c, run.h.stored))
  {
    hide Subsequence;
    U.SubsequencePrefix(run.h.fetched, run.u.queue.items, run.h.stored);
    PacketsInOrder(c, run.h.fetched, run.h.stored);
    U.SubsequencePrefix(t.offered, PacketsOf(c, InHand(run.u.queue)), PacketsOf(c, run.h.stored));
    SubsequenceTrans(t.accepted, t.offered, PacketsOf(c, run.h.stored));
  }

  /** Across the system: whenever the UART listens, the wire carries exactly the messages the
      router sent for its handler, one behind the other, if and only if no send cut another off. */
  lemma WireCarriesSends(c: Start, es: seq<Event>)
    requires Initial(c) && Possible(c, es) && Line(c, After(c, es)).u.rxEnabled
    ensures var t := After(c, es);
            Line(c, t).h.wire == Concat(R.Sends(R.Log(c.router, t.rs), c.srcId)) <==> U.CleanSends(c.uart, t.us)
  {
    SystemKeeps(c, es);
    U.ListeningMeansAllSent(c.uart, After(c, es).us);
  }
}
