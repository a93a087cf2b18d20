/** The UART object: the interrupt handler, the message thread and the transmit callback,
    updating one buffer and its counters in place. */
module UartDriver {
  import opened Bytes
  import opened Protocol
  import opened Router
  import opened PacketHandling
  import opened MessageQueue
  import M = UartModel
  import Runs = UartRuns

  const RS_BAUD_MIN := 110
  const RS_BAUD_MAX := 115200
  const RS_BAUD_DEFAULT := 9600

  datatype Parity = NoParity | OddParity | EvenParity | OtherParity
  datatype StopBits = HalfBit | OneBit | OneAndHalfBits | TwoBits
  datatype LineConfig = LineConfig(baudrate: nat, parity: Parity, stopBits: StopBits)

  datatype UartRet = UartOk | UartAlreadyInitialized | DeviceNotReady | ConfigInvalid | ConfigFailed

  /** The parameters of the line; `None` when they are refused. On the lines that follow the
      RS232 and RS485 specifications the baud rate stays within their bounds, and with a parity
      bit there is one stop bit; what is within bounds is taken as it is. */
  function LineFor(srcId: byte, cfg: Option<LineConfig>): (line: Option<LineConfig>)
    ensures cfg == None ==> line == Some(LineConfig(9600, NoParity, OneBit))
    ensures cfg.Some? && srcId == 4 ==> line == cfg
    ensures cfg.Some? && line.Some? ==>
              && (110 <= cfg.value.baudrate <= 115200 ==> line.value.baudrate == cfg.value.baudrate)
              && (srcId != 4 && cfg.value.baudrate < 110 ==> line.value.baudrate == 110)
              && (srcId != 4 && cfg.value.baudrate > 115200 ==> line.value.baudrate == 115200)
              && line.value.parity == cfg.value.parity
              && (cfg.value.parity == NoParity ==> line.value.stopBits == cfg.value.stopBits)
    ensures line.Some? && (srcId != ID_UART_CM4 || cfg == None) ==>
              && RS_BAUD_MIN <= line.value.baudrate <= RS_BAUD_MAX
              && line.value.parity != OtherParity
              && (line.value.parity != NoParity ==> line.value.stopBits == OneBit)
    ensures line.None? <==> srcId != ID_UART_CM4 && cfg.Some? && cfg.value.parity == OtherParity
  {
    match cfg
    case None => Some(LineConfig(RS_BAUD_DEFAULT, NoParity, OneBit))
    case Some(c) =>
      if srcId == ID_UART_CM4 then cfg
      else
        var baudrate := if c.baudrate < RS_BAUD_MIN then RS_BAUD_MIN
                        else if c.baudrate > RS_BAUD_MAX then RS_BAUD_MAX else c.baudrate;
        match c.parity
        case OtherParity => None
        case NoParity => Some(LineConfig(baudrate, NoParity, c.stopBits))
        case _ => Some(LineConfig(baudrate, c.parity, OneBit))
  }

  class Uart {
    const buf: array<byte>
    const fifoCap: nat
    const srcId: byte
    const destId: byte
    const pktHandler: PacketHandler?
    var initialized: bool
    var ctr: nat
    var ptr: nat
    var queue: MsgQueue<seq<byte>>
    // the device
    var line: Option<LineConfig>
    var rxEnabled: bool
    var txEnabled: bool
    var fifo: seq<byte>

    ghost function Model(): M.Uart
      reads this, buf
    {
      M.Uart(buf[..], ctr, ptr, queue, rxEnabled, txEnabled, fifo, fifoCap)
    }

    ghost predicate Valid()
      reads this, buf
    {
      && M.ValidUart(Model())
      && (!initialized ==> ctr == 0 && !rxEnabled && !txEnabled)
    }

    ghost function Handlers(): set<PacketHandler> {
      if pktHandler == null then {} else {pktHandler}
    }

    constructor (src: byte, dest: byte, handler: PacketHandler?, cap: nat)
      requires cap > 0
      ensures Valid() && fresh(buf) && !initialized
      ensures srcId == src && destId == dest && pktHandler == handler && fifoCap == cap
      ensures ctr == 0 && queue == Empty(M.UART_QUEUE_SIZE) && !rxEnabled && !txEnabled
    {
      buf := new byte[M.UART_BUFFER_SIZE];
      fifoCap := cap;
      srcId, destId, pktHandler := src, dest, handler;
      initialized := false;
      ctr, ptr, queue := 0, 0, Empty(M.UART_QUEUE_SIZE);
      line, rxEnabled, txEnabled, fifo := None, false, false, [];
    }

    /** `ready` is whether the device is, `accepted` whether it takes the line parameters. The
        first refusal decides and changes nothing; otherwise the UART listens, with an empty
        buffer and an empty queue. */
    method Init(cfg: Option<LineConfig>, ready: bool, accepted: bool) returns (ret: UartRet)
      requires Valid()
      modifies `queue, `line, `rxEnabled, `initialized
      ensures Valid()
      ensures ret == if old(initialized) then UartAlreadyInitialized
                     else if !ready then DeviceNotReady
                     else if LineFor(srcId, cfg).None? then ConfigInvalid
                     else if !accepted then ConfigFailed else UartOk
      ensures if ret == UartOk then
                Runs.Initial(Model()) && initialized && line == LineFor(srcId, cfg)
              else Model() == old(Model()) && initialized == old(initialized) && line == old(line)
    {
      if initialized {
        return UartAlreadyInitialized;
      }
      if !ready {
        return DeviceNotReady;
      }
      var settings := LineFor(srcId, cfg);
      if settings.None? {
        return ConfigInvalid;
      }
      if !accepted {
        return ConfigFailed;
      }
      line := settings;
      queue := Empty(M.UART_QUEUE_SIZE);
      rxEnabled := true;
      initialized := true;
      return UartOk;
    }

    /** The receive half: one byte from the device. */
    method ReceiveByte(c: byte)
      requires Valid() && initialized && rxEnabled
      modifies `ctr, `queue, buf
      ensures Valid() && Model() == M.Receive(old(Model()), c)
    {
      if c == M.LF || c == M.CR || ctr == M.UART_BUFFER_SIZE - 1 {
        if ctr > 0 {
          buf[ctr] := 0;
          if Full(queue) {
            queue := Purge(queue);
          } else {
            queue := Put(queue, buf[..]);
          }
          ctr := 0;
        }
      } else if ctr < M.UART_BUFFER_SIZE - 1 {
        buf[ctr] := c;
        ctr := ctr + 1;
      }
    }

    /** The transmit half: fill the output FIFO, or hand the line back. */
    method TransmitBytes()
      requires Valid() && initialized && txEnabled && |fifo| < fifoCap
      modifies `ctr, `ptr, `fifo, `rxEnabled, `txEnabled
      ensures Valid() && Model() == M.Transmit(old(Model()))
    {
      if ctr > 0 {
        var n := if ctr < fifoCap - |fifo| then ctr else fifoCap - |fifo|;
        fifo := fifo + buf[ptr..ptr + n];
        ctr := ctr - n;
        ptr := ptr + n;
      }
      if fifo == [] {
        txEnabled := false;
        rxEnabled := true;
      }
    }

    method HandleUartInterrupt(rx: M.Rx)
      requires Valid()
      modifies `ctr, `ptr, `queue, `fifo, `rxEnabled, `txEnabled, buf
      ensures Valid() && Model() == M.Interrupt(old(Model()), rx)
    {
      if rxEnabled && !rx.NoByte? {
        if rx.ReadError? {
          return;
        }
        ReceiveByte(rx.c);
      }
      if txEnabled && |fifo| < fifoCap {
        TransmitBytes();
      }
    }

    /** The message thread asks the queue for a buffer: it gets the first one, or waits. */
    method FetchUartMessage()
      requires Valid() && initialized
      modifies this`queue
      ensures Valid() && Model() == M.Fetch(old(Model()))
    {
      queue := Get(queue);
    }

    /** The rest of the thread's round: make a packet of the buffer it got and offer it to the
        packet handler. `stop` is when the thread leaves its loop. */
    method HandleUartMessage(running: bool) returns (stop: bool)
      requires Valid() && initialized && queue.reader.Holding?
      requires pktHandler != null ==> pktHandler.Valid()
      modifies this`queue, Handlers()`inbox
      ensures Valid() && Model() == M.Finish(old(Model()))
      ensures pktHandler == null ==> stop
      ensures pktHandler != null ==>
                var data := M.PacketOf(old(queue.reader.item), srcId, destId);
                && pktHandler.Valid()
                && stop == (pktHandler.initialized && !running)
                && pktHandler.inbox == if pktHandler.initialized && running
                                       then Put(old(pktHandler.inbox), data) else old(pktHandler.inbox)
    {
      var msg := queue.reader.item;
      queue := Release(queue);
      var len := M.StrLen(msg);
      var n := if PACKET_BUF_SIZE < len then PACKET_BUF_SIZE else len;
      var data := PacketData(Incoming, destId, ID_UNKNOWN, 0, Pack(msg[..n]));
      if msg[0] == UART_START_TOKEN {
        data := data.(srcId := ID_UART_CM4, kind := Incoming);
      } else {
        data := data.(srcId := srcId, kind := Outgoing);
      }
      if pktHandler == null {
        return true;
      }
      var ret := pktHandler.HandlePacket(data, running);
      return ret == Aborted;
    }

    /** The transmit callback, given the mailbox of its handler. */
    method SendUartMessage(msg: Buffer)
      requires Valid() && ValidBuffer(msg)
      modifies `ctr, `ptr, `rxEnabled, `txEnabled, buf
      ensures Valid()
      ensures Model() == if initialized then M.Send(old(Model()), Content(msg)) else old(Model())
    {
      if !initialized {
        return;
      }
      ghost var was := buf[..];
      forall i | 0 <= i < msg.len {
        buf[i] := msg.buf[i];
      }
      assert buf[..] == Patch(was, 0, Content(msg));
      ctr := msg.len;
      ptr := 0;
      rxEnabled := false;
      txEnabled := true;
    }
  }
}
