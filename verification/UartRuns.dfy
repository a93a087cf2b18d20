/** The UART over every run of interrupts, hardware shifts, sends and rounds of its thread, in
    any order. Nothing keeps a message from being sent while an earlier one still drains. */
module UartRuns {
  import opened Bytes
  import opened Protocol
  import opened Router
  import opened UartModel
  import opened MessageQueue

  datatype Event = Irq(rx: Rx) | Shift | SendMessage(m: seq<byte>) | FetchLine | FinishLine

  /** History: bytes received since each send, finished lines as text and as buffers, buffers the
      thread got, purges, bytes on the wire, the messages to be sent, and how many bytes of each
      were still in the buffer when the next message replaced them. */
  datatype History = History(heard: seq<seq<byte>>, lines: seq<seq<byte>>, stored: seq<seq<byte>>,
                             fetched: seq<seq<byte>>, purges: nat, wire: seq<byte>,
                             sent: seq<seq<byte>>, cut: seq<nat>)

  datatype Run = Run(u: Uart, h: History)

  predicate Enabled(u: Uart, e: Event) {
    e.SendMessage? ==> |e.m| <= PACKET_BUF_SIZE
  }

  function Next(u: Uart, e: Event): (r: Uart)
    requires ValidUart(u) && Enabled(u, e)
    ensures ValidUart(r)
  {
    match e
    case Irq(rx) => Interrupt(u, rx)
    case Shift => ShiftOut(u)
    case SendMessage(m) => Send(u, m)
    case FetchLine => Fetch(u)
    case FinishLine => Finish(u)
  }

  function Hear(heard: seq<seq<byte>>, c: byte): seq<seq<byte>>
    requires heard != []
  {
    heard[..|heard| - 1] + [heard[|heard| - 1] + [c]]
  }

  /** A send cuts off what the message before it still has in the buffer. */
  function CutBySend(u: Uart, cut: seq<nat>): seq<nat> {
    (if u.txEnabled && cut != [] then cut[..|cut| - 1] + [u.ctr] else cut) + [0]
  }

  function Record(u: Uart, h: History, e: Event): (r: History)
    requires ValidUart(u) && h.heard != []
    ensures r.heard != []
  {
    match e
    case Irq(Byte(c)) =>
      if !u.rxEnabled then h
      else
        var h1 := h.(heard := Hear(h.heard, c));
        if !EndsLine(u, c) then h1
        else
          var buffer := u.buf[u.ctr := 0];
          var h2 := h1.(lines := h.lines + [u.buf[..u.ctr]], stored := h.stored + [buffer]);
          if Full(u.queue) then h2.(purges := h.purges + 1)
          else if u.queue.reader.Waiting? then h2.(fetched := h.fetched + [buffer])
          else h2
    case Irq(_) => h
    case Shift => if u.fifo == [] then h else h.(wire := h.wire + [u.fifo[0]])
    case SendMessage(m) =>
      h.(heard := h.heard + [[]], sent := h.sent + [m], cut := CutBySend(u, h.cut))
    case FetchLine =>
      if u.queue.reader.Ready? && u.queue.items != [] then h.(fetched := h.fetched + [u.queue.items[0]]) else h
    case FinishLine => h
  }

  // ---------- the invariant ----------

  function AllLines(heard: seq<seq<byte>>): seq<seq<byte>> {
    if heard == [] then [] else AllLines(heard[..|heard| - 1]) + Lines(heard[|heard| - 1])
  }

  function Unsent(u: Uart): seq<byte>
    requires ValidUart(u)
  {
    if u.txEnabled then u.buf[u.ptr..u.ptr + u.ctr] else []
  }

  /** A queued buffer holds a line: its text, then a NUL. */
  predicate Holds(buffer: seq<byte>, line: seq<byte>) {
    |buffer| == UART_BUFFER_SIZE && |line| < UART_BUFFER_SIZE && buffer[..|line|] == line && buffer[|line|] == 0
  }

  /** Received lines: the finished lines are those of the splitter, the buffer holds the
      unfinished one, and nothing is heard while transmitting. */
  ghost predicate LinesOk(u: Uart, h: History)
    requires ValidUart(u)
  {
    && h.heard != []
    && h.lines == AllLines(h.heard)
    && u.rxEnabled == !u.txEnabled
    && if u.txEnabled then h.heard[|h.heard| - 1] == [] else u.buf[..u.ctr] == Rest(h.heard[|h.heard| - 1])
  }

  predicate CutsFit(sent: seq<seq<byte>>, cut: seq<nat>) {
    |cut| == |sent| && forall k | 0 <= k < |sent| :: cut[k] <= |sent[k]|
  }

  /** The messages one after the other, each without the bytes cut off. */
  function Kept(sent: seq<seq<byte>>, cut: seq<nat>): seq<byte>
    requires CutsFit(sent, cut)
  {
    if sent == [] then []
    else
      var n := |sent| - 1;
      Kept(sent[..n], cut[..n]) + sent[n][..|sent[n]| - cut[n]]
  }

  /** Sent bytes: on the wire, in the FIFO, still in the buffer; nothing of the last message is
      cut off yet, and it alone can be in the buffer. */
  ghost predicate WireOk(u: Uart, h: History)
    requires ValidUart(u)
  {
    && CutsFit(h.sent, h.cut)
    && (h.cut != [] ==> h.cut[|h.cut| - 1] == 0)
    && (u.txEnabled ==> h.sent != [] && u.ctr <= |h.sent[|h.sent| - 1]|)
    && h.wire + u.fifo + Unsent(u) == Kept(h.sent, h.cut)
  }

  /** Finished lines: got by the thread, queued, or lost three at a time to a purge; the buffer
      the thread holds is the last it got. */
  ghost predicate QueueOk(u: Uart, h: History)
    requires ValidUart(u)
  {
    && |h.stored| == |h.lines|
    && (forall i | 0 <= i < |h.lines| :: Holds(h.stored[i], h.lines[i]))
    && |h.stored| == |h.fetched| + |u.queue.items| + 3 * h.purges
    && Subsequence(h.fetched + u.queue.items, h.stored)
    && (u.queue.reader.Holding? ==> h.fetched != [] && h.fetched[|h.fetched| - 1] == u.queue.reader.item)
  }

  lemma AllLinesHear(heard: seq<seq<byte>>, c: byte)
    requires heard != []
    ensures var last := heard[|heard| - 1];
            && |Rest(last)| < UART_BUFFER_SIZE
            && Extends(AllLines(heard), Rest(last), c, AllLines(Hear(heard, c)), Rest(Hear(heard, c)[|heard| - 1]))
  {
    var last := heard[|heard| - 1];
    var init := heard[..|heard| - 1];
    SplitSnoc(last, c);
    assert Hear(heard, c)[..|heard| - 1] == init;
    ExtendsBehind(AllLines(init), Lines(last), Rest(last), c, Lines(last + [c]), Rest(last + [c]));
  }

  /** What a step of the transmit half moves, and how it ends. */
  lemma TransmitMoves(u: Uart)
    requires ValidUart(u) && u.txEnabled && |u.fifo| < u.fifoCap
    ensures var v := Transmit(u);
            && v.fifo + Unsent(v) == u.fifo + Unsent(u) && v.queue == u.queue && v.ctr <= u.ctr
            && v.rxEnabled == !v.txEnabled && (v.rxEnabled ==> v.ctr == 0)
  {
    var v, room := Transmit(u), u.fifoCap - |u.fifo|;
    var n := if u.ctr < room then u.ctr else room;
    var now, later := u.buf[u.ptr..u.ptr + n], u.buf[u.ptr + n..u.ptr + u.ctr];
    CutSlice(u.buf, u.ptr, u.ptr + n, u.ptr + u.ctr);
    Regroup(u.fifo, now, later);
    assert v.fifo == u.fifo + now;
    assert Unsent(v) == later;
  }

  lemma CutSlice<T>(s: seq<T>, i: nat, j: nat, k: nat)
    requires i <= j <= k <= |s|
    ensures s[i..k] == s[i..j] + s[j..k]
  {
  }

  lemma HeardByte(u: Uart, h: History, c: byte)
    requires ValidUart(u) && u.rxEnabled && LinesOk(u, h)
    ensures LinesOk(Receive(u, c), Record(u, h, Irq(Byte(c))))
  {
    AllLinesHear(h.heard, c);
    var last := h.heard[|h.heard| - 1];
    var r := Receive(u, c);
    assert |Rest(last)| == u.ctr;
    if !IsEnd(c) && u.ctr < UART_BUFFER_SIZE - 1 {
      assert r.buf[..r.ctr] == u.buf[..u.ctr] + [c];
    } else {
      assert r.buf[..r.ctr] == [];
    }
  }

  lemma LinesKept(u: Uart, h: History, e: Event)
    requires ValidUart(u) && Enabled(u, e) && LinesOk(u, h)
    ensures LinesOk(Next(u, e), Record(u, h, e))
  {
    match e {
      case Irq(rx) =>
        if u.rxEnabled {
          if rx.Byte? {
            HeardByte(u, h, rx.c);
          }
        } else if |u.fifo| < u.fifoCap {
          TransmitMoves(u);
          assert Rest([]) == [];
        }
      case SendMessage(m) =>
        assert (h.heard + [[]])[..|h.heard|] == h.heard;
        assert Lines([]) == [];
      case Shift =>
      case FetchLine =>
      case FinishLine =>
    }
  }

  lemma KeptSnoc(sent: seq<seq<byte>>, cut: seq<nat>, m: seq<byte>, n: nat)
    requires CutsFit(sent, cut) && n <= |m|
    ensures CutsFit(sent + [m], cut + [n])
    ensures Kept(sent + [m], cut + [n]) == Kept(sent, cut) + m[..|m| - n]
  {
    assert (sent + [m])[..|sent|] == sent && (cut + [n])[..|cut|] == cut;
  }

  /** Cutting off the end of the last message cuts off the end of all. */
  lemma CutMore(sent: seq<seq<byte>>, cut: seq<nat>, n: nat, head: seq<byte>, end: seq<byte>)
    requires CutsFit(sent, cut) && sent != [] && cut[|cut| - 1] == 0 && |end| == n <= |sent[|sent| - 1]|
    requires head + end == Kept(sent, cut)
    ensures CutsFit(sent, cut[..|cut| - 1] + [n])
    ensures head == Kept(sent, cut[..|cut| - 1] + [n])
  {
    hide Kept;
    var init, cuts, m := sent[..|sent| - 1], cut[..|cut| - 1], sent[|sent| - 1];
    assert sent == init + [m] && cut == cuts + [0];
    assert CutsFit(init, cuts);
    KeptSnoc(init, cuts, m, 0);
    KeptSnoc(init, cuts, m, n);
    assert m[..|m|] == m;
    DropEnd(head, end, Kept(init, cuts), m);
  }

  lemma DropEnd<T>(head: seq<T>, end: seq<T>, init: seq<T>, m: seq<T>)
    requires head + end == init + m && |end| <= |m|
    ensures head == init + m[..|m| - |end|]
  {
    assert head == (head + end)[..|head|] == (init + m)[..|head|];
  }

  lemma WireAfterSend(u: Uart, h: History, m: seq<byte>)
    requires ValidUart(u) && |m| <= PACKET_BUF_SIZE && WireOk(u, h) && h.heard != []
    ensures WireOk(Send(u, m), Record(u, h, SendMessage(m)))
  {
    hide Kept;
    var r := Send(u, m);
    var cuts := CutBySend(u, h.cut)[..|h.cut|];
    assert CutBySend(u, h.cut) == cuts + [0];
    if u.txEnabled {
      CutMore(h.sent, h.cut, u.ctr, h.wire + u.fifo, Unsent(u));
    } else {
      assert h.wire + u.fifo + Unsent(u) == h.wire + u.fifo;
    }
    assert h.wire + u.fifo == Kept(h.sent, cuts);
    KeptSnoc(h.sent, cuts, m, 0);
    assert r.fifo == u.fifo && Unsent(r) == m == m[..|m|];
  }

  lemma WireAfterTransmit(u: Uart, h: History)
    requires ValidUart(u) && u.txEnabled && |u.fifo| < u.fifoCap && WireOk(u, h)
    ensures WireOk(Transmit(u), h)
  {
    hide Transmit, Kept, CutsFit;
    var v := Transmit(u);
    TransmitMoves(u);
    Regroup(h.wire, u.fifo, Unsent(u));
    Regroup(h.wire, v.fifo, Unsent(v));
  }

  lemma WireAfterShift(u: Uart, h: History)
    requires ValidUart(u) && u.fifo != [] && WireOk(u, h)
    ensures WireOk(ShiftOut(u), h.(wire := h.wire + [u.fifo[0]]))
  {
    hide Kept, CutsFit;
    var first, rest := [u.fifo[0]], u.fifo[1..];
    assert u.fifo == first + rest;
    Regroup(h.wire, first, rest);
  }

  lemma HearingSendsNothing(u: Uart, h: History, rx: Rx)
    requires ValidUart(u) && u.rxEnabled && h.heard != []
    ensures var v, g := Interrupt(u, rx), Record(u, h, Irq(rx));
            && !v.txEnabled && v.fifo == u.fifo == []
            && g.wire == h.wire && g.sent == h.sent && g.cut == h.cut
  {
  }

  lemma WireKept(u: Uart, h: History, e: Event)
    requires ValidUart(u) && Enabled(u, e) && WireOk(u, h) && h.heard != []
    ensures WireOk(Next(u, e), Record(u, h, e))
  {
    hide Transmit, Receive, EndsLine, Hear, Kept, CutsFit, CutBySend;
    match e {
      case Irq(rx) =>
        if u.rxEnabled {
          HearingSendsNothing(u, h, rx);
        } else if u.txEnabled && |u.fifo| < u.fifoCap {
          WireAfterTransmit(u, h);
        }
      case Shift =>
        if u.fifo != [] {
          WireAfterShift(u, h);
        }
      case SendMessage(m) =>
        WireAfterSend(u, h, m);
      case FetchLine =>
      case FinishLine =>
    }
  }

  lemma PurgedLine(u: Uart, h: History, c: byte)
    requires ValidUart(u) && u.rxEnabled && EndsLine(u, c) && QueueOk(u, h) && h.heard != [] && Full(u.queue)
    ensures var r, h1 := Receive(u, c), Record(u, h, Irq(Byte(c)));
            && |h1.stored| == |h1.fetched| + |r.queue.items| + 3 * h1.purges
            && Subsequence(h1.fetched + r.queue.items, h1.stored)
  {
    hide Lines, Rest, Hear, Subsequence, Holds;
    var h1 := Record(u, h, Irq(Byte(c)));
    var buffer := u.buf[u.ctr := 0];
    QueueGrows(h.fetched, u.queue.items, h.stored, buffer);
    assert h1.fetched == h.fetched && h1.stored == h.stored + [buffer];
    assert h.fetched + [] == h.fetched;
  }

  lemma AppendedLine(u: Uart, h: History, c: byte)
    requires ValidUart(u) && u.rxEnabled && EndsLine(u, c) && QueueOk(u, h) && h.heard != [] && !Full(u.queue)
    ensures var r, h1 := Receive(u, c), Record(u, h, Irq(Byte(c)));
            && |h1.stored| == |h1.fetched| + |r.queue.items| + 3 * h1.purges
            && Subsequence(h1.fetched + r.queue.items, h1.stored)
            && (r.queue.reader.Holding? ==> h1.fetched != [] && h1.fetched[|h1.fetched| - 1] == r.queue.reader.item)
  {
    hide Lines, Rest, Hear, Subsequence, Holds;
    var r, h1 := Receive(u, c), Record(u, h, Irq(Byte(c)));
    var buffer := u.buf[u.ctr := 0];
    QueueGrows(h.fetched, u.queue.items, h.stored, buffer);
    assert h1.stored == h.stored + [buffer];
    if u.queue.reader.Waiting? {
      assert h1.fetched + r.queue.items == h.fetched + (u.queue.items + [buffer]);
    } else {
      assert h1.fetched + r.queue.items == h.fetched + (u.queue.items + [buffer]);
    }
  }

  lemma FinishedLine(u: Uart, h: History, c: byte)
    requires ValidUart(u) && u.rxEnabled && EndsLine(u, c) && QueueOk(u, h) && h.heard != []
    ensures QueueOk(Receive(u, c), Record(u, h, Irq(Byte(c))))
  {
    hide Lines, Rest, Hear, Subsequence;
    var h1 := Record(u, h, Irq(Byte(c)));
    var buffer, line := u.buf[u.ctr := 0], u.buf[..u.ctr];
    assert buffer[..u.ctr] == line;
    assert h1.stored == h.stored + [buffer] && h1.lines == h.lines + [line];
    if Full(u.queue) {
      PurgedLine(u, h, c);
    } else {
      AppendedLine(u, h, c);
    }
  }

  lemma QueueGrows<T>(fetched: seq<T>, queue: seq<T>, stored: seq<T>, buffer: T)
    requires Subsequence(fetched + queue, stored)
    ensures Subsequence(fetched, stored + [buffer]) && Subsequence(fetched + (queue + [buffer]), stored + [buffer])
  {
    SubsequenceSnoc(fetched + queue, stored, buffer);
    SubsequencePrefix(fetched, queue, stored + [buffer]);
    Regroup(fetched, queue, [buffer]);
  }

  lemma QueueKept(u: Uart, h: History, e: Event)
    requires ValidUart(u) && Enabled(u, e) && QueueOk(u, h) && h.heard != []
    ensures QueueOk(Next(u, e), Record(u, h, e))
  {
    hide Subsequence, Holds, Lines, Rest;
    match e {
      case Irq(rx) =>
        if u.rxEnabled && rx.Byte? && EndsLine(u, rx.c) {
          FinishedLine(u, h, rx.c);
        }
      case FetchLine =>
        if u.queue.reader.Ready? && u.queue.items != [] {
          var items := u.queue.items;
          assert items == [items[0]] + items[1..];
          Regroup(h.fetched, [items[0]], items[1..]);
        }
      case FinishLine =>
      case Shift =>
      case SendMessage(m) =>
    }
  }

  lemma {:induction false} SubsequencePrefix<T>(a: seq<T>, b: seq<T>, c: seq<T>)
    requires Subsequence(a + b, c)
    ensures Subsequence(a, c)
    decreases |b|
  {
    if b == [] {
      assert a + b == a;
    } else {
      var init, last := b[..|b| - 1], b[|b| - 1];
      assert a + b == (a + init) + [last];
      SubsequenceDropLast(a + init, last, c);
      SubsequencePrefix(a, init, c);
    }
  }

  /** How a step changes what the thread holds and what it got. */
  lemma ReaderStep(u: Uart, h: History, e: Event)
    requires ValidUart(u) && Enabled(u, e) && h.heard != []
    ensures var before, after, g := InHand(u.queue), InHand(Next(u, e).queue), Record(u, h, e);
            if e.FinishLine? then after == [] && g.fetched == h.fetched
            else (after == before && g.fetched == h.fetched) || (before == [] && g.fetched == h.fetched + after)
    ensures Record(u, h, e).sent == if e.SendMessage? then h.sent + [e.m] else h.sent
  {
    hide Hear;
    var before, after := u.queue, Next(u, e).queue;
    if after.reader == before.reader {
      assert InHand(after) == InHand(before);
    }
  }

  // ---------- runs ----------

  /** One more step at the end of a run. */
  lemma RunSnoc(u0: Uart, es: seq<Event>, e: Event)
    requires ValidUart(u0) && Possible(u0, es) && Enabled(After(u0, es).u, e)
    ensures Possible(u0, es + [e])
    ensures var before := After(u0, es);
            After(u0, es + [e]) == Run(Next(before.u, e), Record(before.u, before.h, e))
  {
    hide Enabled, Next, Record;
    assert (es + [e])[..|es|] == es;
  }

  /** After `Uart::init`: an empty buffer, an empty queue, listening. */
  predicate Initial(u: Uart) {
    ValidUart(u) && u.ctr == 0 && u.queue == Empty(UART_QUEUE_SIZE) && u.rxEnabled && !u.txEnabled
  }

  const NOTHING := History([[]], [], [], [], 0, [], [], [])

  predicate Possible(u0: Uart, es: seq<Event>)
    requires ValidUart(u0)
    decreases |es|, 0
  {
    es == [] || (Possible(u0, es[..|es| - 1]) && Enabled(After(u0, es[..|es| - 1]).u, es[|es| - 1]))
  }

  function After(u0: Uart, es: seq<Event>): (r: Run)
    requires ValidUart(u0) && Possible(u0, es)
    ensures ValidUart(r.u) && r.h.heard != []
    decreases |es|, 1
  {
    if es == [] then Run(u0, NOTHING)
    else
      var before, e := After(u0, es[..|es| - 1]), es[|es| - 1];
      Run(Next(before.u, e), Record(before.u, before.h, e))
  }

  /** Over every run: the finished lines are exactly what the splitter makes of the bytes
      received between sends, so no transmitted byte and no rest of a line a send interrupted
      enters a later line; the bytes sent, except those a later send cut off, are on the wire,
      in the FIFO or in the buffer, in order; every finished line reached the thread, is queued,
      or was lost with two others. */
  lemma {:induction false} UartRunKeeps(u0: Uart, es: seq<Event>)
    requires Initial(u0) && Possible(u0, es)
    ensures var r := After(u0, es);
            LinesOk(r.u, r.h) && WireOk(r.u, r.h) && QueueOk(r.u, r.h)
  {
    hide LinesOk, WireOk, QueueOk;
    if es == [] {
      StartOk(u0);
    } else {
      var before, e := After(u0, es[..|es| - 1]), es[|es| - 1];
      UartRunKeeps(u0, es[..|es| - 1]);
      LinesKept(before.u, before.h, e);
      WireKept(before.u, before.h, e);
      QueueKept(before.u, before.h, e);
    }
  }

  lemma StartOk(u0: Uart)
    requires Initial(u0)
    ensures LinesOk(u0, NOTHING) && WireOk(u0, NOTHING) && QueueOk(u0, NOTHING)
  {
    var heard := NOTHING.heard;
    assert heard[..|heard| - 1] == [];
    assert AllLines(heard) == [] + Lines([]);
  }

  /** Every message that was sent while an earlier one drained found nothing in the buffer. */
  predicate CleanSends(u0: Uart, es: seq<Event>)
    requires ValidUart(u0) && Possible(u0, es)
  {
    es == [] ||
    (&& CleanSends(u0, es[..|es| - 1])
     && var u := After(u0, es[..|es| - 1]).u;
        es[|es| - 1].SendMessage? && u.txEnabled ==> u.ctr == 0)
  }

  predicate NothingCut(cut: seq<nat>) {
    forall k | 0 <= k < |cut| :: cut[k] == 0
  }

  lemma CutBySendIff(u: Uart, cut: seq<nat>)
    requires cut != [] ==> cut[|cut| - 1] == 0
    requires u.txEnabled ==> cut != []
    ensures NothingCut(CutBySend(u, cut)) <==> NothingCut(cut) && (u.txEnabled ==> u.ctr == 0)
  {
    var r := CutBySend(u, cut);
    if u.txEnabled {
      assert r[|cut| - 1] == u.ctr;
    }
    assert forall k | 0 <= k < |cut| - 1 :: r[k] == cut[k];
    if !u.txEnabled && cut != [] {
      assert r[|cut| - 1] == cut[|cut| - 1];
    }
  }

  lemma {:induction false} CleanMeansNothingCut(u0: Uart, es: seq<Event>)
    requires Initial(u0) && Possible(u0, es)
    ensures CleanSends(u0, es) <==> NothingCut(After(u0, es).h.cut)
  {
    hide LinesOk, QueueOk, NothingCut, CutBySend, Next, Kept;
    if es == [] {
      assert NothingCut(NOTHING.cut) by {
        NothingCutEmpty();
      }
    } else {
      var before, e := After(u0, es[..|es| - 1]), es[|es| - 1];
      CleanMeansNothingCut(u0, es[..|es| - 1]);
      UartRunKeeps(u0, es[..|es| - 1]);
      if e.SendMessage? {
        CutBySendIff(before.u, before.h.cut);
      }
    }
  }

  lemma NothingCutEmpty()
    ensures NothingCut([])
  {
  }

  lemma {:induction false} KeptWholeIff(sent: seq<seq<byte>>, cut: seq<nat>)
    requires CutsFit(sent, cut)
    ensures |Kept(sent, cut)| <= |Concat(sent)|
    ensures Kept(sent, cut) == Concat(sent) <==> NothingCut(cut)
  {
    if sent == [] {
    } else {
      var n := |sent| - 1;
      var init, cuts, m := sent[..n], cut[..n], sent[n];
      KeptWholeIff(init, cuts);
      ConcatAppend(init, [m]);
      assert init + [m] == sent && Concat([m]) == m + [];
      assert forall k | 0 <= k < n :: cuts[k] == cut[k];
      if cut[n] == 0 {
        assert m[..|m|] == m;
        SameBefore(Kept(init, cuts), Concat(init), m);
      }
    }
  }

  /** Over every run, with sends at any moment: all bytes of all messages are on the wire, in
      the FIFO or in the buffer exactly when each send during a drain found the buffer empty.
      Reception is enabled again only when the FIFO is empty, and then the wire carries all the
      messages whole exactly under the same condition. */
  lemma ListeningMeansAllSent(u0: Uart, es: seq<Event>)
    requires Initial(u0) && Possible(u0, es)
    ensures var r := After(u0, es);
            && (r.h.wire + r.u.fifo + Unsent(r.u) == Concat(r.h.sent) <==> CleanSends(u0, es))
            && (r.u.rxEnabled ==> r.u.fifo == [] && (r.h.wire == Concat(r.h.sent) <==> CleanSends(u0, es)))
  {
    UartRunKeeps(u0, es);
    CleanMeansNothingCut(u0, es);
    var r := After(u0, es);
    KeptWholeIff(r.h.sent, r.h.cut);
    if r.u.rxEnabled {
      assert r.h.wire + r.u.fifo + Unsent(r.u) == r.h.wire;
    }
  }

  // ---------- the drain ----------

  function Remaining(u: Uart): nat {
    if u.txEnabled then 1 + 2 * u.ctr + |u.fifo| else 0
  }

  /** While a drain goes on no step other than a send adds to what remains, and the interrupt
      or the hardware can make it less. */
  lemma DrainProgress(u: Uart)
    requires ValidUart(u) && u.txEnabled
    ensures forall rx :: Remaining(Interrupt(u, rx)) <= Remaining(u)
    ensures Remaining(ShiftOut(u)) <= Remaining(u)
    ensures Remaining(Fetch(u)) == Remaining(Finish(u)) == Remaining(u)
    ensures Remaining(Interrupt(u, NoByte)) < Remaining(u) || Remaining(ShiftOut(u)) < Remaining(u)
  {
  }

  predicate NoSend(es: seq<Event>) {
    forall k | 0 <= k < |es| :: !es[k].SendMessage?
  }

  function Steps(u: Uart, es: seq<Event>): (r: Uart)
    requires ValidUart(u) && NoSend(es)
    ensures ValidUart(r)
    decreases |es|
  {
    if es == [] then u else Steps(Next(u, es[0]), es[1..])
  }

  /** Steps of a run that made the remaining work smaller. */
  function Productive(u: Uart, es: seq<Event>): nat
    requires ValidUart(u) && NoSend(es)
    decreases |es|
  {
    if es == [] then 0
    else (if Remaining(Next(u, es[0])) < Remaining(u) then 1 else 0) + Productive(Next(u, es[0]), es[1..])
  }

  /** In any schedule without a further send, however long, at most `Remaining` steps are
      productive. */
  lemma {:induction false} DrainBounded(u: Uart, es: seq<Event>)
    requires ValidUart(u) && NoSend(es)
    ensures Productive(u, es) + Remaining(Steps(u, es)) <= Remaining(u)
    decreases |es|
  {
    if es != [] {
      DrainBounded(Next(u, es[0]), es[1..]);
      if u.txEnabled {
        DrainProgress(u);
      }
    }
  }

  /** A stretch without a send in which the interrupt runs and the hardware shifts at least
      once each, in any order and among any other steps. */
  ghost predicate IsRound(es: seq<Event>) {
    && NoSend(es)
    && (exists k :: 0 <= k < |es| && es[k].Irq?)
    && (exists k :: 0 <= k < |es| && es[k].Shift?)
  }

  /** During a drain a step that is not productive leaves everything but the queue as it is. */
  lemma UnproductiveStep(u: Uart, e: Event)
    requires ValidUart(u) && u.txEnabled && !e.SendMessage? && Remaining(Next(u, e)) >= Remaining(u)
    ensures Next(u, e) == u.(queue := Next(u, e).queue)
  {
  }

  lemma QueueDoesNotDrain(u: Uart, v: Uart, e: Event)
    requires ValidUart(u) && ValidUart(v) && u.txEnabled && !e.SendMessage? && v == u.(queue := v.queue)
    ensures Remaining(v) == Remaining(u) && Remaining(Next(v, e)) == Remaining(Next(u, e))
  {
  }

  lemma {:induction false} UnproductiveSteps(u: Uart, es: seq<Event>, k: nat)
    requires ValidUart(u) && u.txEnabled && NoSend(es) && k < |es| && Remaining(Steps(u, es)) >= Remaining(u)
    ensures Remaining(Next(u, es[k])) >= Remaining(u)
    decreases |es|
  {
    hide Next, Remaining;
    var v := Next(u, es[0]);
    DrainBounded(v, es[1..]);
    if k > 0 {
      NeverMore(u, es[0]);
      UnproductiveStep(u, es[0]);
      UnproductiveSteps(v, es[1..], k - 1);
      assert es[1..][k - 1] == es[k];
      QueueDoesNotDrain(u, v, es[k]);
    }
  }

  lemma NeverMore(u: Uart, e: Event)
    requires ValidUart(u) && u.txEnabled && !e.SendMessage?
    ensures Remaining(Next(u, e)) <= Remaining(u)
  {
    DrainProgress(u);
  }

  lemma RoundProgress(u: Uart, es: seq<Event>)
    requires ValidUart(u) && u.txEnabled && IsRound(es)
    ensures Remaining(Steps(u, es)) < Remaining(u)
  {
    hide Steps, Remaining, Transmit;
    var i, j :| 0 <= i < |es| && es[i].Irq? && 0 <= j < |es| && es[j].Shift?;
    DrainProgress(u);
    assert Next(u, es[i]) == Interrupt(u, NoByte) && Next(u, es[j]) == ShiftOut(u);
    if Remaining(Steps(u, es)) >= Remaining(u) {
      UnproductiveSteps(u, es, i);
      UnproductiveSteps(u, es, j);
    }
  }

  lemma {:induction false} StepsConcat(u: Uart, a: seq<Event>, b: seq<Event>)
    requires ValidUart(u) && NoSend(a) && NoSend(b)
    ensures NoSend(a + b) && Steps(u, a + b) == Steps(Steps(u, a), b)
    decreases |a|
  {
    hide Next;
    if a == [] {
      assert a + b == b;
    } else {
      assert NoSend(a[1..]);
      StepsConcat(Next(u, a[0]), a[1..], b);
      assert (a + b)[1..] == a[1..] + b;
    }
  }

  /** The drain ends: every schedule without a further send does it that lets the interrupt and
      the hardware run as often as `Remaining` says, whatever else happens in between. */
  lemma {:induction false} DrainEnds(u: Uart, rounds: seq<seq<Event>>)
    requires ValidUart(u) && forall k | 0 <= k < |rounds| :: IsRound(rounds[k])
    requires |rounds| >= Remaining(u)
    ensures NoSend(Concat(rounds)) && !Steps(u, Concat(rounds)).txEnabled
    decreases |rounds|
  {
    if rounds != [] {
      var v, more := Steps(u, rounds[0]), rounds[1..];
      DrainBounded(u, rounds[0]);
      if u.txEnabled {
        RoundProgress(u, rounds[0]);
      }
      assert forall k | 0 <= k < |more| :: more[k] == rounds[k + 1];
      DrainEnds(v, more);
      StepsConcat(u, rounds[0], Concat(more));
    }
  }

  /** A schedule of nothing but the interrupt, with no byte received, and hardware shifts. */
  predicate OnlyDrains(es: seq<Event>) {
    forall k | 0 <= k < |es| :: es[k] == Irq(NoByte) || es[k] == Shift
  }

  /** Bytes the hardware moved to the wire. */
  function Shifted(u: Uart, es: seq<Event>): seq<byte>
    requires ValidUart(u) && OnlyDrains(es)
    decreases |es|
  {
    if es == [] then []
    else ShiftedNow(u, es[0]) + Shifted(Next(u, es[0]), es[1..])
  }

  function ShiftedNow(u: Uart, e: Event): seq<byte> {
    if e == Shift && u.fifo != [] then [u.fifo[0]] else []
  }

  predicate Alternates(u: Uart) {
    u.rxEnabled == !u.txEnabled && (u.rxEnabled ==> u.ctr == 0)
  }

  lemma DrainStep(u: Uart, e: Event)
    requires ValidUart(u) && (e == Irq(NoByte) || e == Shift) && Alternates(u)
    ensures var v := Next(u, e);
            && ShiftedNow(u, e) + (v.fifo + Unsent(v)) == u.fifo + Unsent(u)
            && Alternates(v) && v.queue == u.queue
  {
    if e == Irq(NoByte) && u.txEnabled && |u.fifo| < u.fifoCap {
      TransmitMoves(u);
      assert ShiftedNow(u, e) == [];
    } else if e == Shift && u.fifo != [] {
      assert u.fifo == [u.fifo[0]] + u.fifo[1..];
      Regroup([u.fifo[0]], u.fifo[1..], Unsent(u));
    }
  }

  /** When the drain is over, exactly what was in the FIFO and the buffer is on the wire, and the
      UART listens again with an empty buffer. */
  lemma {:induction false} DrainSendsAll(u: Uart, es: seq<Event>)
    requires ValidUart(u) && OnlyDrains(es)
    requires Alternates(u)
    ensures var r := Steps(u, es);
            && Shifted(u, es) + (r.fifo + Unsent(r)) == u.fifo + Unsent(u)
            && Alternates(r) && r.queue == u.queue
    decreases |es|
  {
    if es != [] {
      var v, r := Next(u, es[0]), Steps(u, es);
      DrainStep(u, es[0]);
      DrainSendsAll(v, es[1..]);
      var now, later := ShiftedNow(u, es[0]), Shifted(v, es[1..]);
      assert (now + later) + (r.fifo + Unsent(r)) == now + (later + (r.fifo + Unsent(r)));
    }
  }

  /** One send during a drain, in numbers: it loses exactly the bytes still in the buffer, so
      both messages go out in full if and only if the first one had left the buffer. */
  lemma SecondSend(u: Uart, wire: seq<byte>, first: seq<byte>, second: seq<byte>)
    requires ValidUart(u) && u.txEnabled && |second| <= PACKET_BUF_SIZE
    requires wire + u.fifo + Unsent(u) == first
    ensures var r := Send(u, second);
            && wire + r.fifo + Unsent(r) == first[..|first| - u.ctr] + second
            && (wire + r.fifo + Unsent(r) == first + second <==> u.ctr == 0)
  {
    var r := Send(u, second);
    assert Unsent(r) == second;
    assert first[..|first| - u.ctr] == wire + u.fifo;
    if u.ctr == 0 {
      assert first[..|first|] == first;
    } else {
      assert |first[..|first| - u.ctr] + second| != |first + second|;
    }
  }
}
