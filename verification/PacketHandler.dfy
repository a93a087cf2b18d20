/** The packet handler object: the handler array, its counter and the message queue, updated
    in place. Every method is tied to the functions of `Router` and `Register`. */
module PacketHandling {
  import opened Bytes
  import opened Protocol
  import opened Router
  import opened Register
  import opened PacketCodec
  import opened MessageQueue
  import Runs = RouterRuns

  datatype Ret = Ok | AlreadyInitialized | NotInitialized | Aborted | AlreadyRegistered | NotFound | NotReady

  class PacketHandler {
    const handlers: array<Slot>
    var handlerCtr: nat
    var initialized: bool
    var inbox: MsgQueue<PacketData>

    ghost predicate Valid()
      reads this, handlers
    {
      && handlers.Length == PACKET_HANDLERS
      && handlerCtr <= PACKET_HANDLERS
      && ValidSlots(handlers[..handlerCtr])
      && ValidQueue(inbox)
    }

    ghost function Slots(): seq<Slot>
      requires Valid()
      reads this, handlers
    {
      handlers[..handlerCtr]
    }

    /** The object as a state of the step machine. */
    ghost function State(): Runs.State
      requires Valid()
      reads this, handlers
    {
      Runs.State(Slots(), inbox)
    }

    constructor ()
      ensures Valid() && fresh(handlers) && handlers.Length == 7 && Slots() == [] && inbox == Empty(0) && !initialized
    {
      handlers := new Slot[PACKET_HANDLERS](_ => NewSlot(ID_UNKNOWN, 0));
      handlerCtr := 0;
      initialized := false;
      inbox := Empty(0);
    }

    /** The capacity handed to the message queue is the size of a packet buffer, not the
        number of messages its storage is sized for. */
    method Init() returns (ret: Ret)
      requires Valid()
      modifies this
      ensures Valid() && Slots() == old(Slots()) && initialized
      ensures ret == if old(initialized) then AlreadyInitialized else Ok
      ensures inbox == if old(initialized) then old(inbox) else Empty(250)
    {
      if initialized {
        return AlreadyInitialized;
      }
      inbox := Empty(PACKET_BUF_SIZE);
      initialized := true;
      return Ok;
    }

    method RegisterHandler(id: byte, target: nat) returns (ret: Ret)
      requires Valid()
      requires initialized && !Registered(Slots(), id) ==> handlerCtr < PACKET_HANDLERS
      modifies this, handlers
      ensures Valid() && inbox == old(inbox) && initialized == old(initialized)
      ensures ret == if !initialized then NotInitialized
                     else if old(Registered(Slots(), id)) then AlreadyRegistered else Ok
      ensures Slots() == if ret == Ok then Add(old(Slots()), id, target) else old(Slots())
      ensures ret == Ok ==>
                && |Slots()| == |old(Slots())| + 1 && Slots()[..|old(Slots())|] == old(Slots())
                && var h := Slots()[|old(Slots())|];
                   && h.id == id && h.target == target && !h.queued
                   && h.resultId == 0 && h.resultType == 0 && h.msg.len == 0
    {
      if !initialized {
        return NotInitialized;
      }
      var i := 0;
      while i < handlerCtr
        invariant i <= handlerCtr
        invariant forall j | 0 <= j < i :: handlers[j].id != id
      {
        if handlers[i].id == id {
          return AlreadyRegistered;
        }
        i := i + 1;
      }
      handlers[handlerCtr] := NewSlot(id, target);
      handlerCtr := handlerCtr + 1;
      return Ok;
    }

    /** As coded: the inner loop advances `i` and leaves `j` where it is. */
    method UnregisterHandler(id: byte) returns (ret: Ret)
      requires Valid()
      requires initialized ==> UnregisterInBounds(Slots(), id)
      modifies this, handlers
      ensures handlers.Length == PACKET_HANDLERS && handlerCtr <= PACKET_HANDLERS
      ensures inbox == old(inbox) && initialized == old(initialized)
      ensures ret == if !initialized then NotInitialized
                     else if old(Registered(Slots(), id)) then Ok else NotFound
      ensures handlers[..handlerCtr] == if initialized then AfterUnregister(old(Slots()), id) else old(Slots())
    {
      hide Distinct, ValidBuffer;
      if !initialized {
        return NotInitialized;
      }
      ghost var before := handlers[..handlerCtr];
      var i := 0;
      while i < handlerCtr
        invariant i <= handlerCtr
        invariant forall k | 0 <= k < i :: before[k].id != id
        invariant handlers[..handlerCtr] == before
      {
        if handlers[i].id == id {
          ghost var at := i;
          assert Find(before, id) == at;
          var j := i - 1;
          while i < handlerCtr - 1
            modifies handlers
            invariant at <= i <= handlerCtr - 1
            invariant handlers[..handlerCtr] == if i == at then before else before[at - 1 := before[at]]
          {
            assert handlers[j + 1] == handlers[..handlerCtr][j + 1] == before[at];
            handlers[j] := handlers[j + 1];
            i := i + 1;
          }
          handlerCtr := handlerCtr - 1;
          return Ok;
        }
        i := i + 1;
      }
      return NotFound;
    }

    /** The shift the comment in `unregisterHandler` describes: every slot behind the removed
        one moves down by one. */
    method ShiftDown(i: nat)
      requires i < handlerCtr <= handlers.Length
      modifies handlers
      ensures var before := old(handlers[..handlerCtr]);
              handlers[..handlerCtr - 1] == before[..i] + before[i + 1..]
    {
      var j := i;
      while j < handlerCtr - 1
        invariant i <= j <= handlerCtr - 1
        invariant forall k | 0 <= k < i || j <= k < handlerCtr :: handlers[k] == old(handlers[k])
        invariant forall k | i <= k < j :: handlers[k] == old(handlers[k + 1])
      {
        handlers[j] := handlers[j + 1];
        j := j + 1;
      }
    }

    /** `unregisterHandler` with that shift. */
    method UnregisterByShifting(id: byte) returns (ret: Ret)
      requires Valid()
      modifies this, handlers
      ensures Valid()
      ensures inbox == old(inbox) && initialized == old(initialized)
      ensures ret == if !initialized then NotInitialized
                     else if old(Registered(Slots(), id)) then Ok else NotFound
      ensures Slots() == if initialized then Remove(old(Slots()), id) else old(Slots())
    {
      if !initialized {
        return NotInitialized;
      }
      RemoveValid(handlers[..handlerCtr], id);
      var i := 0;
      while i < handlerCtr
        invariant i <= handlerCtr
        invariant forall k | 0 <= k < i :: handlers[k].id != id
      {
        if handlers[i].id == id {
          assert Find(handlers[..handlerCtr], id) == i;
          ghost var removed := Remove(handlers[..handlerCtr], id);
          ShiftDown(i);
          handlerCtr := handlerCtr - 1;
          assert handlers[..handlerCtr] == removed;
          return Ok;
        }
        i := i + 1;
      }
      return NotFound;
    }

    /** `None` is the NULL pointer; otherwise the index of the slot pointed to. */
    method GetHandler(id: byte) returns (slot: Option<nat>)
      requires Valid()
      ensures slot == if initialized && Registered(Slots(), id) then Some(Find(Slots(), id)) else None
    {
      if !initialized {
        return None;
      }
      var i := 0;
      while i < handlerCtr
        invariant i <= handlerCtr
        invariant forall j | 0 <= j < i :: handlers[j].id != id
      {
        if handlers[i].id == id {
          assert Find(handlers[..handlerCtr], id) == i;
          return Some(i);
        }
        i := i + 1;
      }
      return None;
    }

    /** Queue a packet without waiting; `running` is whether the thread still runs. */
    method HandlePacket(data: PacketData, running: bool) returns (ret: Ret)
      requires Valid()
      modifies this`inbox
      ensures Valid()
      ensures ret == if !initialized then NotInitialized
                     else if !running then Aborted
                     else if Full(old(inbox)) then NotReady else Ok
      ensures Backlog(inbox) == if ret == Ok then old(Backlog(inbox)) + [data] else old(Backlog(inbox))
      ensures inbox == if initialized && running then Put(old(inbox), data) else old(inbox)
      ensures initialized && running ==> State() == Runs.Next(old(State()), Runs.Submit(data))
    {
      if !initialized {
        return NotInitialized;
      }
      if !running {
        return Aborted;
      }
      PutBacklog(inbox, data);
      if Full(inbox) {
        return NotReady;
      }
      inbox := Put(inbox, data);
      return Ok;
    }

    /** Copy a message to a handler's mailbox and submit its work item. */
    method StoreAndSubmit(i: nat, bytes: seq<byte>)
      requires i < handlerCtr <= handlers.Length && ValidBuffer(handlers[i].msg) && |bytes| <= PACKET_BUF_SIZE
      modifies handlers
      ensures handlers[..handlerCtr] == old(handlers[..handlerCtr])[i := Dispatch(old(handlers[i]), bytes)]
    {
      handlers[i] := handlers[i].(msg := Store(handlers[i].msg, bytes));
      handlers[i] := handlers[i].(queued := true);
    }

    /** Load the control packet behind the generic header and dispatch it. */
    method DeliverControl(data: PacketData, at: nat)
      requires Valid() && initialized
      requires IncomingSafe(Slots(), data) && IsControl(data) && at == GenericAt(data) + 4
      modifies handlers
      ensures Valid() && Slots() == AfterIncoming(old(Slots()), data)
    {
      hide Distinct, Find, Store, GetLe16;
      var ctrl := LoadControlPacket(data.msg.buf, at);
      ghost var before := handlers[..handlerCtr];
      var slot := GetHandler(ctrl.destId);
      var o := slot.value;
      handlers[o] := handlers[o].(resultId := ctrl.requestId);
      handlers[o] := handlers[o].(resultType := ctrl.command);
      ghost var noted := before[o].(resultId := ctrl.requestId, resultType := ctrl.command);
      assert handlers[..handlerCtr] == before[o := noted];
      StoreAndSubmit(o, data.msg.buf[ctrl.payloadAt..ctrl.payloadAt + ctrl.length]);
      assert handlers[..handlerCtr] == AfterIncoming(before, data);
    }

    /** `crcOk` is the outcome of the frame check, which the code only logs. */
    method HandleIncomingPacket(data: PacketData) returns (crcOk: bool)
      requires Valid() && initialized
      requires IncomingSafe(Slots(), data)
      modifies handlers
      ensures Valid() && Slots() == AfterIncoming(old(Slots()), data)
      ensures crcOk == (data.srcId == ID_UART_CM4 ==> ViewUart(data.msg.buf).crcOk)
    {
      crcOk := true;
      var generic;
      if data.srcId == ID_UART_CM4 {
        var uart := LoadUartPacket(data.msg.buf);
        crcOk := uart.crcOk;
        generic := LoadGenericPacket(data.msg.buf, uart.payloadAt);
      } else {
        generic := LoadGenericPacket(data.msg.buf, 0);
      }
      if generic.kind == TYPE_CONTROL {
        DeliverControl(data, generic.payloadAt);
      }
    }

    method HandleOutgoingPacket(data: PacketData)
      requires Valid() && initialized
      requires OutgoingSafe(Slots(), data)
      modifies handlers
      ensures Valid() && Slots() == AfterOutgoing(old(Slots()), data)
    {
      hide EncodeRouted;
      ghost var before := handlers[..handlerCtr];
      var src := GetHandler(data.srcId);
      var s := src.value;
      var m;
      if handlers[s].resultId > 0 {
        m := Result(handlers[s].resultType, data.resultCode, handlers[s].resultId, data.msg.buf[..data.msg.len]);
        handlers[s] := handlers[s].(resultId := 0);
      } else {
        m := Data(data.srcId, data.msg.buf[..data.msg.len]);
      }
      ghost var cleared := before[s := before[s].(resultId := 0)];
      assert handlers[..handlerCtr] == cleared;
      assert Find(cleared, data.destId) == Find(before, data.destId) by {
        FindUnique(cleared, Find(before, data.destId));
      }
      RoutedLength(data.destId, m);
      var pktBuf, pktLen := BuildRouted(data.destId, m);
      var dest := GetHandler(data.destId);
      var d := dest.value;
      StoreAndSubmit(d, pktBuf[..pktLen]);
      assert handlers[..handlerCtr] == AfterOutgoing(before, data);
    }

    /** The packet thread asks the queue for a packet: it gets the first one, or waits. */
    method FetchPacket()
      requires Valid() && initialized
      modifies this`inbox
      ensures Valid() && State() == Runs.Next(old(State()), Runs.Fetch)
      ensures Backlog(inbox) == old(Backlog(inbox))
      ensures old(inbox.reader.Ready?) ==> if old(inbox.items) == [] then inbox.reader.Waiting?
                                           else inbox.reader == Holding(old(inbox.items)[0])
    {
      GetBacklog(inbox);
      inbox := Get(inbox);
    }

    /** The rest of the thread's round: handle the packet it got. */
    method HandleNextPacket()
      requires Valid() && initialized && inbox.reader.Holding? && Safe(Slots(), inbox.reader.item)
      modifies this`inbox, handlers
      ensures Valid() && State() == Runs.Next(old(State()), Runs.HandleNext)
      ensures Slots() == AfterHandling(old(Slots()), old(inbox.reader.item))
      ensures Backlog(inbox) == old(Backlog(inbox))[1..]
    {
      hide AfterIncoming, AfterOutgoing, IncomingSafe, OutgoingSafe, Backlog, Distinct, ValidBuffer;
      var data := inbox.reader.item;
      ReleaseBacklog(inbox);
      inbox := Release(inbox);
      match data.kind {
        case Incoming => var _ := HandleIncomingPacket(data);
        case Outgoing => HandleOutgoingPacket(data);
      }
    }

    /** A queued work item runs: the transport callback sends the content of the mailbox. */
    method RunWorkItem(i: nat) returns (sent: seq<byte>)
      requires Valid() && i < |Slots()| && Slots()[i].queued
      modifies handlers
      ensures Valid()
      ensures State() == Runs.Next(old(State()), Runs.RunWork(i))
      ensures Runs.Observed(old(State()), Runs.RunWork(i)) == [Runs.Sent(old(Slots())[i].id, sent)]
    {
      sent := handlers[i].msg.buf[..handlers[i].msg.len];
      handlers[i] := handlers[i].(queued := false);
    }
  }
}
