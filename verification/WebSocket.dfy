/** The WebSocket receive thread: pieces of a message are collected in one buffer until none
    remain, then the message goes to the packet handler. */
module WebSocketDriver {
  import opened Bytes
  import opened Protocol
  import opened Router
  import opened MessageQueue
  import opened PacketHandling

  /** What one call of `websocket_recv_msg` yields: nothing yet, a piece and how many bytes of
      the message remain, or an error. */
  datatype Recv = Again | Piece(bytes: seq<byte>, remaining: nat) | Failed

  /** The socket never writes more than the room it is offered. */
  predicate Fits(script: seq<Recv>, pos: nat) {
    script == [] ||
    match script[0]
    case Again => Fits(script[1..], pos)
    case Piece(b, remaining) =>
      pos + |b| <= PACKET_BUF_SIZE && Fits(script[1..], if remaining == 0 then 0 else pos + |b|)
    case Failed => Fits(script[1..], 0)
  }

  /** The packets submitted, `acc` being received of the current one. An error submits what is
      there. */
  function Submissions(script: seq<Recv>, acc: seq<byte>): seq<seq<byte>> {
    if script == [] then []
    else
      match script[0]
      case Again => Submissions(script[1..], acc)
      case Piece(b, remaining) =>
        if remaining == 0 then [acc + b] + Submissions(script[1..], []) else Submissions(script[1..], acc + b)
      case Failed => [acc] + Submissions(script[1..], [])
  }

  /** The socket delivers exactly the message `rest`, in any pieces, with any retries between. */
  predicate Delivers(script: seq<Recv>, rest: seq<byte>) {
    script != [] &&
    match script[0]
    case Again => Delivers(script[1..], rest)
    case Piece(b, remaining) =>
      && |b| <= |rest| && b == rest[..|b|] && remaining == |rest| - |b|
      && (if remaining == 0 then |script| == 1 else Delivers(script[1..], rest[|b|..]))
    case Failed => false
  }

  lemma {:induction false} OneMessage(script: seq<Recv>, more: seq<Recv>, acc: seq<byte>, rest: seq<byte>)
    requires Delivers(script, rest)
    ensures Submissions(script + more, acc) == [acc + rest] + Submissions(more, [])
  {
    var s := script + more;
    assert s[1..] == script[1..] + more;
    match script[0] {
      case Again =>
        OneMessage(script[1..], more, acc, rest);
      case Piece(b, remaining) =>
        if remaining == 0 {
          assert b == rest && script[1..] == [];
          assert s[1..] == more;
        } else {
          OneMessage(script[1..], more, acc + b, rest[|b|..]);
          assert rest == b + rest[|b|..];
          assert (acc + b) + rest[|b|..] == acc + (b + rest[|b|..]);
        }
    }
  }

  lemma {:induction false} OneMessageFits(script: seq<Recv>, more: seq<Recv>, pos: nat, rest: seq<byte>)
    requires Delivers(script, rest) && pos + |rest| <= PACKET_BUF_SIZE && Fits(more, 0)
    ensures Fits(script + more, pos)
  {
    var s := script + more;
    assert s[1..] == script[1..] + more;
    match script[0] {
      case Again =>
        OneMessageFits(script[1..], more, pos, rest);
      case Piece(b, remaining) =>
        if remaining == 0 {
          assert script[1..] == [];
          assert s[1..] == more;
        } else {
          OneMessageFits(script[1..], more, pos + |b|, rest[|b|..]);
        }
    }
  }

  ghost predicate DeliverEach(scripts: seq<seq<Recv>>, messages: seq<seq<byte>>) {
    && |scripts| == |messages|
    && forall k | 0 <= k < |scripts| :: Delivers(scripts[k], messages[k])
  }

  /** Whatever the pieces and retries, the packets submitted are the messages, in order. */
  lemma {:induction false} MessagesArrive(scripts: seq<seq<Recv>>, messages: seq<seq<byte>>)
    requires DeliverEach(scripts, messages)
    requires forall k | 0 <= k < |messages| :: |messages[k]| <= PACKET_BUF_SIZE
    ensures Fits(Concat(scripts), 0)
    ensures Submissions(Concat(scripts), []) == messages
  {
    if scripts != [] {
      MessagesArrive(scripts[1..], messages[1..]);
      OneMessage(scripts[0], Concat(scripts[1..]), [], messages[0]);
      OneMessageFits(scripts[0], Concat(scripts[1..]), 0, messages[0]);
      assert [] + messages[0] == messages[0];
    }
  }

  /** The connection fails when only `part` of the message `rest` has arrived, in any pieces, with
      any retries between; with an empty part it fails before the message began. */
  predicate Breaks(script: seq<Recv>, rest: seq<byte>, part: seq<byte>) {
    && script != [] && |part| < |rest| && part == rest[..|part|]
    && match script[0]
       case Again => Breaks(script[1..], rest, part)
       case Piece(b, remaining) =>
         && |b| <= |part| && b == part[..|b|] && remaining == |rest| - |b|
         && Breaks(script[1..], rest[|b|..], part[|b|..])
       case Failed => |script| == 1 && part == []
  }

  /** What has arrived is submitted as if it were the message. */
  lemma {:induction false} FailureSubmitsPart(script: seq<Recv>, more: seq<Recv>, acc: seq<byte>,
                                              rest: seq<byte>, part: seq<byte>)
    requires Breaks(script, rest, part)
    ensures Submissions(script + more, acc) == [acc + part] + Submissions(more, [])
  {
    var s := script + more;
    assert s[1..] == script[1..] + more;
    match script[0] {
      case Again =>
        FailureSubmitsPart(script[1..], more, acc, rest, part);
      case Piece(b, remaining) =>
        FailureSubmitsPart(script[1..], more, acc + b, rest[|b|..], part[|b|..]);
        assert part == b + part[|b|..];
        assert (acc + b) + part[|b|..] == acc + (b + part[|b|..]);
      case Failed =>
        assert script[1..] == [] && s[1..] == more;
        assert acc + part == acc;
    }
  }

  /** The calls for one message, and what of it arrived before they ended. */
  datatype Attempt = Attempt(script: seq<Recv>, message: seq<byte>, part: seq<byte>)

  predicate IsAttempt(a: Attempt) {
    if a.part == a.message then Delivers(a.script, a.message) else Breaks(a.script, a.message, a.part)
  }

  function Scripts(attempts: seq<Attempt>): seq<seq<Recv>> {
    if attempts == [] then [] else [attempts[0].script] + Scripts(attempts[1..])
  }

  function Messages(attempts: seq<Attempt>): seq<seq<byte>> {
    if attempts == [] then [] else [attempts[0].message] + Messages(attempts[1..])
  }

  function Parts(attempts: seq<Attempt>): seq<seq<byte>> {
    if attempts == [] then [] else [attempts[0].part] + Parts(attempts[1..])
  }

  lemma {:induction false} DeliversWithoutFailure(script: seq<Recv>, rest: seq<byte>)
    requires Delivers(script, rest)
    ensures Failed !in script
  {
    assert script == [script[0]] + script[1..];
    if script[0].Again? || script[0].remaining > 0 {
      DeliversWithoutFailure(script[1..], if script[0].Again? then rest else rest[|script[0].bytes|..]);
    }
  }

  lemma {:induction false} BreaksWithFailure(script: seq<Recv>, rest: seq<byte>, part: seq<byte>)
    requires Breaks(script, rest, part)
    ensures Failed in script
  {
    match script[0] {
      case Again => BreaksWithFailure(script[1..], rest, part);
      case Piece(b, _) => BreaksWithFailure(script[1..], rest[|b|..], part[|b|..]);
      case Failed =>
    }
  }

  /** Over any sequence of messages, each delivered or broken off anywhere: one packet per
      attempt, with exactly what arrived; and the packets are the messages exactly when no call
      fails. */
  lemma {:induction false} PacketsAreMessagesIff(attempts: seq<Attempt>)
    requires forall k | 0 <= k < |attempts| :: IsAttempt(attempts[k])
    ensures var calls := Concat(Scripts(attempts));
            && Submissions(calls, []) == Parts(attempts)
            && (Submissions(calls, []) == Messages(attempts) <==> Failed !in calls)
  {
    hide Delivers, Breaks, Submissions, Fits;
    if attempts == [] {
      assert Submissions([], []) == [] by {
        NoCalls();
      }
    } else {
      var a, more := attempts[0], attempts[1..];
      var calls := Concat(Scripts(more));
      PacketsAreMessagesIff(more);
      assert [] + a.part == a.part;
      if a.part == a.message {
        OneMessage(a.script, calls, [], a.message);
        DeliversWithoutFailure(a.script, a.message);
      } else {
        FailureSubmitsPart(a.script, calls, [], a.message, a.part);
        BreaksWithFailure(a.script, a.message, a.part);
      }
      assert Parts(attempts) == [a.part] + Parts(more) && Messages(attempts) == [a.message] + Messages(more);
      ConsEqual(a.part, a.message, Parts(more), Messages(more));
    }
  }

  lemma NoCalls()
    ensures Submissions([], []) == []
  {
  }

  lemma ConsEqual<T>(x: T, y: T, a: seq<T>, b: seq<T>)
    ensures [x] + a == [y] + b <==> x == y && a == b
  {
    if [x] + a == [y] + b {
      assert ([x] + a)[0] == ([y] + b)[0] && ([x] + a)[1..] == ([y] + b)[1..];
    }
  }

  function PacketFrom(srcId: byte, bytes: seq<byte>): PacketData
    requires |bytes| <= PACKET_BUF_SIZE
  {
    PacketData(Incoming, ID_UNKNOWN, srcId, 0, Pack(bytes))
  }

  /** A connection that fails before a message began, or within its first six bytes while it
      says "control" (or nothing yet), leaves a packet for the id `UNKNOWN`: it can be handled
      only if that id is registered. */
  lemma EarlyFailureSafeIff(script: seq<Recv>, rest: seq<byte>, part: seq<byte>, slots: seq<Slot>, srcId: byte)
    requires Breaks(script, rest, part) && |part| <= 6 && ValidSlots(slots) && srcId != ID_UART_CM4
    ensures Submissions(script, []) == [part]
    ensures Safe(slots, PacketFrom(srcId, part)) <==>
            (|part| >= 2 && part[1] != TYPE_CONTROL) || Registered(slots, ID_UNKNOWN)
  {
    FailureSubmitsPart(script, [], [], rest, part);
    assert script + [] == script && [] + part == part;
    ShortPacketSafeIff(slots, PacketFrom(srcId, part), part);
  }

  predicate AllFit(packets: seq<seq<byte>>) {
    forall k | 0 <= k < |packets| :: |packets[k]| <= PACKET_BUF_SIZE
  }

  /** The queue after these packets were offered to it one by one. */
  function Offer(inbox: MsgQueue<PacketData>, srcId: byte, packets: seq<seq<byte>>): (r: MsgQueue<PacketData>)
    requires ValidQueue(inbox) && AllFit(packets)
    ensures ValidQueue(r)
  {
    if packets == [] then inbox
    else
      var n := |packets| - 1;
      Put(Offer(inbox, srcId, packets[..n]), PacketFrom(srcId, packets[n]))
  }

  /** As long as the queue has room the packets of the socket join the backlog in order, each
      incoming, from the socket's id, with exactly its bytes. */
  lemma OfferedInOrder(inbox: MsgQueue<PacketData>, srcId: byte, packets: seq<seq<byte>>, k: nat)
    requires ValidQueue(inbox) && AllFit(packets) && |inbox.items| + |packets| <= inbox.cap && k < |packets|
    ensures |Backlog(Offer(inbox, srcId, packets))| == |Backlog(inbox)| + |packets|
    ensures Backlog(Offer(inbox, srcId, packets))[..|Backlog(inbox)|] == Backlog(inbox)
    ensures var d := Backlog(Offer(inbox, srcId, packets))[|Backlog(inbox)| + k];
            && d.kind == Incoming && d.srcId == srcId && ValidBuffer(d.msg) && Content(d.msg) == packets[k]
  {
    OfferBacklog(inbox, srcId, packets);
  }

  lemma {:induction false} OfferBacklog(inbox: MsgQueue<PacketData>, srcId: byte, packets: seq<seq<byte>>)
    requires ValidQueue(inbox) && AllFit(packets) && |inbox.items| + |packets| <= inbox.cap
    ensures |Offer(inbox, srcId, packets).items| <= |inbox.items| + |packets|
    ensures Offer(inbox, srcId, packets).cap == inbox.cap
    ensures Backlog(Offer(inbox, srcId, packets))
         == Backlog(inbox) + seq(|packets|, k requires 0 <= k < |packets| => PacketFrom(srcId, packets[k]))
  {
    hide PacketFrom, Put, Backlog;
    if packets != [] {
      var n := |packets| - 1;
      var init, last := packets[..n], PacketFrom(srcId, packets[n]);
      var before := Offer(inbox, srcId, init);
      OfferBacklog(inbox, srcId, init);
      PutBacklog(before, last);
      var froms := seq(n, k requires 0 <= k < n => PacketFrom(srcId, init[k]));
      assert Backlog(Put(before, last)) == Backlog(inbox) + froms + [last];
      assert froms + [last] == seq(|packets|, k requires 0 <= k < |packets| => PacketFrom(srcId, packets[k]));
    }
  }

  lemma OfferNothing(inbox: MsgQueue<PacketData>, srcId: byte)
    requires ValidQueue(inbox)
    ensures Offer(inbox, srcId, []) == inbox
  {
  }

  lemma OfferSnoc(inbox: MsgQueue<PacketData>, srcId: byte, packets: seq<seq<byte>>, packet: seq<byte>)
    requires ValidQueue(inbox) && AllFit(packets) && |packet| <= PACKET_BUF_SIZE
    ensures AllFit(packets + [packet])
    ensures Offer(inbox, srcId, packets + [packet]) == Put(Offer(inbox, srcId, packets), PacketFrom(srcId, packet))
  {
    assert (packets + [packet])[..|packets|] == packets;
  }

  class WebSocket {
    const recvBuf: array<byte>
    const srcId: byte
    const pktHandler: PacketHandler?

    constructor (src: byte, handler: PacketHandler?)
      ensures srcId == src && pktHandler == handler && fresh(recvBuf) && recvBuf.Length == PACKET_BUF_SIZE
    {
      recvBuf := new byte[PACKET_BUF_SIZE];
      srcId, pktHandler := src, handler;
    }

    ghost function Handlers(): set<PacketHandler> {
      if pktHandler == null then {} else {pktHandler}
    }

    /** The inner loop: collect one message, from call `from` of the socket on. `done` is false
        when the calls end inside the message; then the thread is still waiting. */
    method Collect(script: seq<Recv>, from: nat) returns (totalRead: nat, next: nat, done: bool)
      requires recvBuf.Length == PACKET_BUF_SIZE && from <= |script| && Fits(script[from..], 0)
      modifies recvBuf
      ensures totalRead <= PACKET_BUF_SIZE && from <= next <= |script| && (done ==> from < next)
      ensures done ==> Fits(script[next..], 0)
      ensures Submissions(script[from..], []) ==
              if done then [recvBuf[..totalRead]] + Submissions(script[next..], []) else []
    {
      var readPos, remaining := 0, 0xFFFF_FFFF_FFFF_FFFF;
      totalRead := 0;
      next := from;
      done := false;
      while remaining > 0 && !done && next < |script|
        invariant from <= next <= |script| && readPos == totalRead <= PACKET_BUF_SIZE
        invariant done ==> from < next
        invariant remaining == 0 ==> from < next
        invariant Fits(script[next..], if remaining == 0 || done then 0 else readPos)
        invariant Submissions(script[from..], []) ==
                  if remaining == 0 || done then [recvBuf[..totalRead]] + Submissions(script[next..], [])
                  else Submissions(script[next..], recvBuf[..totalRead])
        decreases |script| - next
      {
        var r := script[next];
        assert script[next..][1..] == script[next + 1..];
        ghost var acc := recvBuf[..totalRead];
        match r {
          case Again =>
          case Failed =>
            done := true;
          case Piece(bytes, rest) =>
            forall i | 0 <= i < |bytes| {
              recvBuf[readPos + i] := bytes[i];
            }
            assert recvBuf[..totalRead + |bytes|] == acc + bytes;
            readPos := readPos + |bytes|;
            totalRead := totalRead + |bytes|;
            remaining := rest;
        }
        next := next + 1;
      }
      done := done || remaining == 0;
    }

    /** Without a packet handler, or when its thread has ended, the receive thread stops. */
    predicate Stops(running: bool)
      reads pktHandler
    {
      pktHandler == null || (pktHandler.initialized && !running)
    }

    /** One round of the outer loop: collect a message and offer it to the packet handler. */
    method ReceiveOne(script: seq<Recv>, from: nat, running: bool)
      returns (packet: Option<seq<byte>>, next: nat, stop: bool)
      requires recvBuf.Length == PACKET_BUF_SIZE && from <= |script| && Fits(script[from..], 0)
      requires pktHandler != null ==> pktHandler.Valid()
      modifies recvBuf, Handlers()`inbox
      ensures packet.None? ==> Submissions(script[from..], []) == []
      ensures packet.Some? ==>
                && |packet.value| <= PACKET_BUF_SIZE && from < next <= |script| && Fits(script[next..], 0)
                && Submissions(script[from..], []) == [packet.value] + Submissions(script[next..], [])
                && stop == Stops(running)
      ensures packet.Some? && pktHandler != null && pktHandler.initialized && running
              && !Full(old(pktHandler.inbox)) ==>
                var before, after := old(Backlog(pktHandler.inbox)), Backlog(pktHandler.inbox);
                && |after| == |before| + 1 && after[..|before|] == before
                && var d := after[|before|];
                   && d.kind == Incoming && d.srcId == srcId && d.destId == 0 && d.resultCode == 0
                   && ValidBuffer(d.msg) && Content(d.msg) == packet.value
      ensures pktHandler != null ==>
                && pktHandler.Valid()
                && pktHandler.inbox ==
                   if packet.Some? && pktHandler.initialized && running
                   then Put(old(pktHandler.inbox), PacketFrom(srcId, packet.value))
                   else old(pktHandler.inbox)
    {
      var totalRead, after, done := Collect(script, from);
      if !done {
        return None, after, true;
      }
      var data := PacketFrom(srcId, recvBuf[..totalRead]);
      packet, next, stop := Some(recvBuf[..totalRead]), after, true;
      if pktHandler != null {
        PutBacklog(pktHandler.inbox, data);
        var ret := pktHandler.HandlePacket(data, running);
        stop := ret == Aborted;
      }
    }

    /** The receive thread over all calls of the socket. */
    method HandleMessageReceived(script: seq<Recv>, running: bool) returns (packets: seq<seq<byte>>)
      requires recvBuf.Length == PACKET_BUF_SIZE && Fits(script, 0)
      requires pktHandler != null ==> pktHandler.Valid()
      modifies recvBuf, Handlers()`inbox
      ensures var all := Submissions(script, []);
              packets == if Stops(running) && all != [] then all[..1] else all
      ensures AllFit(packets)
      ensures pktHandler != null ==>
                && pktHandler.Valid()
                && pktHandler.inbox ==
                   if pktHandler.initialized && running
                   then Offer(old(pktHandler.inbox), srcId, packets)
                   else old(pktHandler.inbox)
    {
      hide Submissions, Fits, Offer, Put, PacketFrom;
      if pktHandler != null {
        OfferNothing(pktHandler.inbox, srcId);
      }
      packets := [];
      var next := 0;
      var stop := false;
      assert script[0..] == script;
      while !stop
        invariant next <= |script| && Fits(script[next..], 0) && AllFit(packets)
        invariant Submissions(script, []) == packets + Submissions(script[next..], [])
        invariant pktHandler != null ==> pktHandler.Valid()
        invariant !stop && Stops(running) ==> packets == []
        invariant stop ==> if Stops(running) then |packets| <= 1 else Submissions(script[next..], []) == []
        invariant stop && packets == [] ==> Submissions(script[next..], []) == []
        invariant pktHandler != null ==>
                    pktHandler.inbox ==
                    if pktHandler.initialized && running
                    then Offer(old(pktHandler.inbox), srcId, packets)
                    else old(pktHandler.inbox)
        decreases !stop, |script| - next
      {
        var packet, after, stopped := ReceiveOne(script, next, running);
        stop := stopped || packet.None?;
        if packet.Some? {
          ghost var before := packets;
          if pktHandler != null {
            OfferSnoc(old(pktHandler.inbox), srcId, before, packet.value);
          }
          packets := packets + [packet.value];
          assert before + ([packet.value] + Submissions(script[after..], []))
              == packets + Submissions(script[after..], []);
          next := after;
        }
      }
      assert packets + [] == packets;
    }
  }
}
