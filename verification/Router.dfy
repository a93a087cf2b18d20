/** The packet router as pure functions on the handler register: what one incoming packet,
    one outgoing packet and one work item do, and when the code stays inside its buffers. */
module Router {
  import opened Bytes
  import opened Protocol

  /** `cs_packet_buffer`: fixed storage and the length in use. */
  datatype Buffer = Buffer(buf: seq<byte>, len: uint16)

  datatype Kind = Incoming | Outgoing

  /** `cs_packet_data`. */
  datatype PacketData = PacketData(kind: Kind, destId: byte, srcId: byte, resultCode: byte, msg: Buffer)

  /** `cs_packet_handler`: the one-slot mailbox `msg`, whether its work item is queued, and
      the request a result is owed to (`resultId` 0: none). */
  datatype Slot = Slot(id: byte, target: nat, queued: bool, msg: Buffer, resultType: byte, resultId: uint16)

  const EMPTY: Buffer := Buffer(Zeros(PACKET_BUF_SIZE), 0)

  predicate ValidBuffer(m: Buffer) {
    |m.buf| == PACKET_BUF_SIZE && m.len <= PACKET_BUF_SIZE
  }

  /** No id is registered twice. */
  predicate Distinct(slots: seq<Slot>) {
    forall i, j | 0 <= i < j < |slots| :: slots[i].id != slots[j].id
  }

  predicate ValidSlots(slots: seq<Slot>) {
    (forall i | 0 <= i < |slots| :: ValidBuffer(slots[i].msg)) && Distinct(slots)
  }

  function Content(m: Buffer): seq<byte>
    requires ValidBuffer(m)
  {
    m.buf[..m.len]
  }

  /** A message in zeroed storage, as every producer of a `cs_packet_data` builds it. */
  function Pack(bytes: seq<byte>): (m: Buffer)
    requires |bytes| <= PACKET_BUF_SIZE
    ensures ValidBuffer(m) && Content(m) == bytes
  {
    Buffer(bytes + Zeros(PACKET_BUF_SIZE - |bytes|), |bytes|)
  }

  /** Index of the first handler with this id, or the length of the register. */
  function Find(slots: seq<Slot>, id: byte): (i: nat)
    ensures i <= |slots|
    ensures i < |slots| ==> slots[i].id == id
    ensures forall j | 0 <= j < i :: slots[j].id != id
  {
    if slots == [] || slots[0].id == id then 0 else 1 + Find(slots[1..], id)
  }

  predicate Registered(slots: seq<Slot>, id: byte) {
    Find(slots, id) < |slots|
  }

  /** The message storage after `bytes` were copied over its start; what lay behind stays. */
  function Store(m: Buffer, bytes: seq<byte>): (r: Buffer)
    requires ValidBuffer(m) && |bytes| <= PACKET_BUF_SIZE
    ensures ValidBuffer(r) && Content(r) == bytes
  {
    Buffer(Patch(m.buf, 0, bytes), |bytes|)
  }

  /** Put a message in a handler's mailbox and submit its work item. */
  function Dispatch(s: Slot, bytes: seq<byte>): Slot
    requires ValidBuffer(s.msg) && |bytes| <= PACKET_BUF_SIZE
  {
    s.(msg := Store(s.msg, bytes), queued := true)
  }

  // ---------- incoming ----------

  /** Where the generic packet starts in the message buffer. */
  function GenericAt(data: PacketData): nat {
    if data.srcId == ID_UART_CM4 then 5 else 0
  }

  /** The loaders read, and the copy reads and writes, only inside the 250-byte buffers. */
  predicate IncomingInBounds(data: PacketData) {
    var b, at := data.msg.buf, GenericAt(data);
    && ValidBuffer(data.msg)
    && (data.srcId == ID_UART_CM4 ==> UartReadable(b))
    && (ViewGeneric(b, at).kind == TYPE_CONTROL ==> ViewControl(b, at + 4).length + at + 11 <= PACKET_BUF_SIZE)
  }

  predicate IsControl(data: PacketData)
    requires ValidBuffer(data.msg)
  {
    ViewGeneric(data.msg.buf, GenericAt(data)).kind == TYPE_CONTROL
  }

  function ControlOf(data: PacketData): Control
    requires IncomingInBounds(data) && IsControl(data)
  {
    var v := ViewControl(data.msg.buf, GenericAt(data) + 4);
    Control(v.command, v.srcId, v.destId, v.requestId, data.msg.buf[v.payloadAt..v.payloadAt + v.length])
  }

  predicate IncomingSafe(slots: seq<Slot>, data: PacketData) {
    && IncomingInBounds(data)
    && (IsControl(data) ==> Registered(slots, ControlOf(data).destId))
  }

  function AfterIncoming(slots: seq<Slot>, data: PacketData): (r: seq<Slot>)
    requires ValidSlots(slots) && IncomingSafe(slots, data)
    ensures ValidSlots(r) && |r| == |slots|
  {
    if !IsControl(data) then slots
    else
      var c := ControlOf(data);
      var i := Find(slots, c.destId);
      slots[i := Dispatch(slots[i], c.payload).(resultId := c.requestId, resultType := c.command)]
  }

  // ---------- outgoing ----------

  /** A pending request of the source turns its next message into a result. */
  function MessageFrom(src: Slot, data: PacketData): Message
    requires ValidBuffer(data.msg)
  {
    if src.resultId > 0 then
      Result(src.resultType, data.resultCode, src.resultId, Content(data.msg))
    else
      Data(data.srcId, Content(data.msg))
  }

  /** Both handlers exist and every layer fits the scratch buffer. */
  predicate OutgoingSafe(slots: seq<Slot>, data: PacketData) {
    && ValidBuffer(data.msg)
    && Registered(slots, data.srcId)
    && Registered(slots, data.destId)
    && |EncodeRouted(data.destId, MessageFrom(slots[Find(slots, data.srcId)], data))| <= PACKET_BUF_SIZE
  }

  function AfterOutgoing(slots: seq<Slot>, data: PacketData): (r: seq<Slot>)
    requires ValidSlots(slots) && OutgoingSafe(slots, data)
    ensures ValidSlots(r) && |r| == |slots|
  {
    var src, dest := Find(slots, data.srcId), Find(slots, data.destId);
    var pkt := EncodeRouted(data.destId, MessageFrom(slots[src], data));
    var cleared := slots[src := slots[src].(resultId := 0)];
    cleared[dest := Dispatch(cleared[dest], pkt)]
  }

  predicate Safe(slots: seq<Slot>, data: PacketData) {
    match data.kind
    case Incoming => IncomingSafe(slots, data)
    case Outgoing => OutgoingSafe(slots, data)
  }

  function AfterHandling(slots: seq<Slot>, data: PacketData): (r: seq<Slot>)
    requires ValidSlots(slots) && Safe(slots, data)
    ensures ValidSlots(r) && |r| == |slots|
  {
    match data.kind
    case Incoming => AfterIncoming(slots, data)
    case Outgoing => AfterOutgoing(slots, data)
  }

  // ---------- lookups ----------

  lemma {:induction false} FindUnique(slots: seq<Slot>, i: nat)
    requires Distinct(slots) && i < |slots|
    ensures Find(slots, slots[i].id) == i
  {
    assert slots[Find(slots, slots[i].id)].id == slots[i].id;
  }

  /** The largest payload the outgoing path can carry: 243 and 240 bytes to the cloud,
      236 and 233 to the application processor. */
  lemma OutgoingFits(slots: seq<Slot>, data: PacketData)
    requires ValidSlots(slots) && ValidBuffer(data.msg)
    requires Registered(slots, data.srcId) && Registered(slots, data.destId)
    ensures var limit := (if data.destId == ID_UART_CM4 then 236 else 243)
                         - (if slots[Find(slots, data.srcId)].resultId > 0 then 3 else 0);
            OutgoingSafe(slots, data) <==> data.msg.len <= limit
  {
    RoutedLength(data.destId, MessageFrom(slots[Find(slots, data.srcId)], data));
  }

  /** `r` is `slots` after control packet `c` reached its destination: the mailbox holds exactly
      the payload, request id and command are remembered, every other handler is as before. */
  ghost predicate Delivered(slots: seq<Slot>, c: Control, r: seq<Slot>)
    requires ValidSlots(slots) && ValidSlots(r) && |r| == |slots| && Registered(slots, c.destId)
  {
    var i := Find(slots, c.destId);
    && Content(r[i].msg) == c.payload && r[i].msg.len == |c.payload| && r[i].queued
    && r[i].resultId == c.requestId && r[i].resultType == c.command
    && r[i].id == slots[i].id && r[i].target == slots[i].target
    && forall k | 0 <= k < |slots| && k != i :: r[k] == slots[k]
  }

  lemma ControlInBuffer(slots: seq<Slot>, c: Control, data: PacketData)
    requires ValidSlots(slots) && Registered(slots, c.destId)
    requires ValidBuffer(data.msg) && data.kind == Incoming
    requires data.srcId == ID_UART_CM4 ==> UartReadable(data.msg.buf)
    requires GenericAt(data) + |c.payload| + 11 <= PACKET_BUF_SIZE
    requires data.msg.buf[GenericAt(data)..GenericAt(data) + |c.payload| + 11]
          == EncodeGeneric(TYPE_CONTROL, EncodeControl(c))
    ensures Safe(slots, data) && Delivered(slots, c, AfterHandling(slots, data))
  {
    ControlRoundTrip(data.msg.buf, GenericAt(data), c);
    assert ControlOf(data) == c;
  }

  /** At most six bytes, with zeros behind them: not enough to hold a destination. What says or
      by its zero passes for "control" is taken for a control packet to the id `UNKNOWN`. */
  lemma ShortPacketSafeIff(slots: seq<Slot>, data: PacketData, bytes: seq<byte>)
    requires ValidSlots(slots) && data.kind == Incoming && data.srcId != ID_UART_CM4
    requires |bytes| <= 6 && data.msg == Pack(bytes)
    ensures Safe(slots, data) <==> (|bytes| >= 2 && bytes[1] != TYPE_CONTROL) || Registered(slots, ID_UNKNOWN)
  {
    hide Find;
    var b := data.msg.buf;
    assert b[1] == if |bytes| >= 2 then bytes[1] else 0;
    if b[1] == TYPE_CONTROL {
      assert b[6] == 0 && b[9] == 0 && b[10] == 0;
      assert ViewControl(b, 4).length == 0 && ViewControl(b, 4).destId == ID_UNKNOWN;
    }
  }

  /** A control packet laid out by the protocol, sent plain or (by the application processor)
      in a UART frame and followed by arbitrary bytes, is delivered exactly. */
  lemma ControlDelivered(slots: seq<Slot>, c: Control, data: PacketData, rest: seq<byte>)
    requires ValidSlots(slots) && Registered(slots, c.destId)
    requires ValidBuffer(data.msg) && data.kind == Incoming
    requires var generic := EncodeGeneric(TYPE_CONTROL, EncodeControl(c));
             data.msg.buf == (if data.srcId == ID_UART_CM4 then EncodeUart(TYPE_GENERIC, generic) else generic) + rest
    ensures Safe(slots, data) && Delivered(slots, c, AfterHandling(slots, data))
    ensures data.srcId == ID_UART_CM4 ==> ViewUart(data.msg.buf).crcOk
  {
    var generic := EncodeGeneric(TYPE_CONTROL, EncodeControl(c));
    var b, at := data.msg.buf, GenericAt(data);
    if data.srcId == ID_UART_CM4 {
      FrameRoundTrip(TYPE_GENERIC, generic, rest);
    }
    assert b[at..at + |c.payload| + 11] == generic;
    ControlInBuffer(slots, c, data);
  }

  /** The check value has no influence: with any other two bytes in its place the comparison
      fails and the packet is delivered all the same. */
  lemma FailedCheckIsDelivered(slots: seq<Slot>, c: Control, data: PacketData, check: seq<byte>, rest: seq<byte>)
    requires ValidSlots(slots) && Registered(slots, c.destId)
    requires ValidBuffer(data.msg) && data.kind == Incoming && data.srcId == ID_UART_CM4 && |check| == 2
    requires var frame := EncodeUart(TYPE_GENERIC, EncodeGeneric(TYPE_CONTROL, EncodeControl(c)));
             data.msg.buf == frame[..|frame| - 2] + check + rest
    ensures Safe(slots, data) && Delivered(slots, c, AfterHandling(slots, data))
    ensures var frame := EncodeUart(TYPE_GENERIC, EncodeGeneric(TYPE_CONTROL, EncodeControl(c)));
            ViewUart(data.msg.buf).crcOk <==> check == frame[|frame| - 2..]
  {
    var generic := EncodeGeneric(TYPE_CONTROL, EncodeControl(c));
    ReplacedCheck(TYPE_GENERIC, generic, check, rest);
    ControlInBuffer(slots, c, data);
  }

  // ---------- what handling does to every slot ----------

  function Word(b: seq<byte>, at: nat): nat
    requires at + 2 <= |b|
  {
    b[at] as int + 256 * b[at + 1] as int
  }

  /** Which incoming packets can be handled, in bytes: a frame from handler 4 has a length that
      stays in the buffer, and a control packet (type 0) has a payload that does and a
      destination that is registered. */
  lemma IncomingSafeIff(slots: seq<Slot>, data: PacketData)
    requires ValidSlots(slots) && ValidBuffer(data.msg)
    ensures var b, at := data.msg.buf, if data.srcId == 4 then 5 else 0;
            IncomingSafe(slots, data) <==>
            && (data.srcId == 4 ==> 2 <= Word(b, 1) <= 247)
            && (b[at + 1] == 0 ==>
                  at + 11 + Word(b, at + 9) <= 250 && exists k :: 0 <= k < |slots| && slots[k].id == b[at + 6])
  {
    hide Find;
    var b, at := data.msg.buf, GenericAt(data);
    assert ViewControl(b, at + 4).destId == b[at + 6] && ViewControl(b, at + 4).length == Word(b, at + 9);
    if k :| 0 <= k < |slots| && slots[k].id == b[at + 6] {
      FindUnique(slots, k);
    }
  }

  /** An incoming packet, in bytes: if it is a control packet, the slot of its destination gets the
      payload, the request id and the command, and its work item is queued; a handler keeps its
      id and its instance, and every other slot stays as it is. */
  lemma IncomingExactly(slots: seq<Slot>, data: PacketData, i: nat)
    requires ValidSlots(slots) && IncomingSafe(slots, data) && i < |slots|
    ensures var b, at := data.msg.buf, if data.srcId == 4 then 5 else 0;
            var s, r := slots[i], AfterIncoming(slots, data)[i];
            if b[at + 1] == 0 && s.id == b[at + 6] then
              var n := Word(b, at + 9);
              && r.id == s.id && r.target == s.target && r.queued
              && r.msg.len == n && n + at + 11 <= 250 && Content(r.msg) == b[at + 11..at + 11 + n]
              && r.resultId == Word(b, at + 7) && r.resultType == b[at + 4]
            else r == s
  {
    hide Find, Distinct;
    if IsControl(data) {
      FindUnique(slots, i);
    }
  }

  /** An outgoing packet: the slot of its source owes nothing any more, the slot of its destination
      gets the encoding and its work item is queued; nothing else of any slot changes, and every
      handler keeps its id and its instance. The encoding is that of the result of the request
      the source's slot remembers, or of data if it remembers none. */
  lemma OutgoingExactly(slots: seq<Slot>, data: PacketData, i: nat, src: nat)
    requires ValidSlots(slots) && OutgoingSafe(slots, data) && i < |slots|
    requires src < |slots| && slots[src].id == data.srcId
    ensures var s, o, r, bytes := slots[i], slots[src], AfterOutgoing(slots, data)[i], data.msg.buf[..data.msg.len];
            && r.id == s.id && r.target == s.target && r.resultType == s.resultType
            && r.resultId == (if s.id == data.srcId then 0 else s.resultId)
            && if s.id == data.destId then
                 && r.queued
                 && Content(r.msg) == EncodeRouted(data.destId,
                                                   if o.resultId == 0 then Data(data.srcId, bytes)
                                                   else Result(o.resultType, data.resultCode, o.resultId, bytes))
               else r.queued == s.queued && r.msg == s.msg
  {
    hide Find, EncodeRouted;
    FindUnique(slots, src);
    FindUnique(slots, i);
    assert slots[Find(slots, data.destId)].id == data.destId;
  }

  /** Whatever is handled, every slot stays bound to its id and its instance. */
  lemma HandlingKeepsIdentity(slots: seq<Slot>, data: PacketData, i: nat)
    requires ValidSlots(slots) && Safe(slots, data) && i < |slots|
    ensures var r := AfterHandling(slots, data)[i]; r.id == slots[i].id && r.target == slots[i].target
  {
    if data.kind.Incoming? {
      IncomingExactly(slots, data, i);
    } else {
      OutgoingExactly(slots, data, i, Find(slots, data.srcId));
    }
  }
}
