/** The UART interrupt machine as pure functions. One buffer and one counter serve both
    directions; the hardware is an output FIFO and two interrupt enable flags. */
module UartModel {
  import opened Bytes
  import opened Protocol
  import opened Router
  import opened MessageQueue

  const UART_BUFFER_SIZE := 256
  const UART_QUEUE_SIZE := 2
  const LF: byte := 10
  const CR: byte := 13

  /** `queue` passes whole buffers to the UART thread; `ptr` is the offset of the first byte not
      yet sent. */
  datatype Uart = Uart(buf: seq<byte>, ctr: nat, ptr: nat, queue: MsgQueue<seq<byte>>,
                       rxEnabled: bool, txEnabled: bool, fifo: seq<byte>, fifoCap: nat)

  /** What the receiver offers when the interrupt runs. */
  datatype Rx = NoByte | Byte(c: byte) | ReadError

  predicate ValidUart(u: Uart) {
    && |u.buf| == UART_BUFFER_SIZE
    && u.ctr < UART_BUFFER_SIZE
    && ValidQueue(u.queue) && u.queue.cap == UART_QUEUE_SIZE
    && (forall i | 0 <= i < |u.queue.items| :: |u.queue.items[i]| == UART_BUFFER_SIZE)
    && (u.queue.reader.Holding? ==> |u.queue.reader.item| == UART_BUFFER_SIZE)
    && 0 < u.fifoCap && |u.fifo| <= u.fifoCap
    && !(u.rxEnabled && u.txEnabled)
    && (u.txEnabled ==> u.ptr + u.ctr <= UART_BUFFER_SIZE)
    && (!u.txEnabled ==> u.fifo == [])
  }

  predicate IsEnd(c: byte) {
    c == LF || c == CR
  }

  predicate EndsLine(u: Uart, c: byte) {
    (IsEnd(c) || u.ctr == UART_BUFFER_SIZE - 1) && u.ctr > 0
  }

  /** One received byte. A full queue is purged and the finished line dropped with it. */
  function Receive(u: Uart, c: byte): (r: Uart)
    requires ValidUart(u) && !u.txEnabled
    ensures ValidUart(r)
  {
    if IsEnd(c) || u.ctr == UART_BUFFER_SIZE - 1 then
      if u.ctr > 0 then
        var buf := u.buf[u.ctr := 0];
        u.(buf := buf, ctr := 0, queue := if Full(u.queue) then Purge(u.queue) else Put(u.queue, buf))
      else u
    else
      u.(buf := u.buf[u.ctr := c], ctr := u.ctr + 1)
  }

  /** The transmit half: fill the FIFO; once all bytes left it, hand the line back. */
  function Transmit(u: Uart): (r: Uart)
    requires ValidUart(u) && u.txEnabled
    ensures ValidUart(r)
  {
    var room := u.fifoCap - |u.fifo|;
    var n := if u.ctr < room then u.ctr else room;
    var filled := u.(fifo := u.fifo + u.buf[u.ptr..u.ptr + n], ctr := u.ctr - n, ptr := u.ptr + n);
    if filled.fifo == [] then filled.(txEnabled := false, rxEnabled := true) else filled
  }

  /** RX is ready only while enabled, TX while enabled and the FIFO has room. */
  function Interrupt(u: Uart, rx: Rx): (r: Uart)
    requires ValidUart(u)
    ensures ValidUart(r)
  {
    if u.rxEnabled then
      match rx
      case Byte(c) => Receive(u, c)
      case _ => u
    else if u.txEnabled && |u.fifo| < u.fifoCap then Transmit(u)
    else u
  }

  /** The hardware moves one byte from the FIFO to the wire. */
  function ShiftOut(u: Uart): (r: Uart)
    requires ValidUart(u)
    ensures ValidUart(r)
  {
    if u.fifo == [] then u else u.(fifo := u.fifo[1..])
  }

  /** `sendUartMessage`: the message replaces whatever the buffer held. */
  function Send(u: Uart, m: seq<byte>): (r: Uart)
    requires ValidUart(u) && |m| <= PACKET_BUF_SIZE
    ensures ValidUart(r)
  {
    u.(buf := Patch(u.buf, 0, m), ctr := |m|, ptr := 0, rxEnabled := false, txEnabled := true)
  }

  /** The UART thread asks for a buffer. */
  function Fetch(u: Uart): (r: Uart)
    requires ValidUart(u)
    ensures ValidUart(r)
  {
    u.(queue := Get(u.queue))
  }

  /** The UART thread has passed its buffer on. */
  function Finish(u: Uart): (r: Uart)
    requires ValidUart(u)
    ensures ValidUart(r)
  {
    u.(queue := Release(u.queue))
  }

  // ---------- the UART thread ----------

  function StrLen(s: seq<byte>): (n: nat)
    ensures n <= |s|
    ensures n < |s| ==> s[n] == 0
    ensures forall i | 0 <= i < n :: s[i] != 0
  {
    if s == [] || s[0] == 0 then 0 else 1 + StrLen(s[1..])
  }

  /** The packet the thread makes of a buffer: the text up to the first NUL, at most 250 bytes;
      a start token marks a packet from the application processor. */
  function PacketOf(buffer: seq<byte>, srcId: byte, destId: byte): PacketData
    requires |buffer| == UART_BUFFER_SIZE
  {
    var len := StrLen(buffer);
    var n := if PACKET_BUF_SIZE < len then PACKET_BUF_SIZE else len;
    if buffer[0] == UART_START_TOKEN then
      PacketData(Incoming, destId, ID_UART_CM4, 0, Pack(buffer[..n]))
    else
      PacketData(Outgoing, destId, srcId, 0, Pack(buffer[..n]))
  }

  // ---------- the line splitter ----------

  /** Index of the first line end, or the length. */
  function FirstEnd(s: seq<byte>): (n: nat)
    ensures n <= |s|
    ensures n < |s| ==> IsEnd(s[n])
    ensures forall i | 0 <= i < n :: !IsEnd(s[i])
  {
    if s == [] || IsEnd(s[0]) then 0 else 1 + FirstEnd(s[1..])
  }

  /** Where the first line stops: at a line end or after 255 bytes; the byte there is consumed. */
  function LineStop(s: seq<byte>): nat {
    var n := FirstEnd(s);
    if n < UART_BUFFER_SIZE - 1 then n else UART_BUFFER_SIZE - 1
  }

  /** The finished lines of a byte stream; empty ones are dropped. */
  function Lines(s: seq<byte>): seq<seq<byte>>
    decreases |s|
  {
    var n := LineStop(s);
    if n >= |s| then []
    else (if n == 0 then [] else [s[..n]]) + Lines(s[n + 1..])
  }

  /** The unfinished last line. */
  function Rest(s: seq<byte>): seq<byte>
    decreases |s|
  {
    var n := LineStop(s);
    if n >= |s| then s else Rest(s[n + 1..])
  }

  lemma FirstEndSnoc(s: seq<byte>, c: byte)
    ensures FirstEnd(s + [c]) == if FirstEnd(s) < |s| then FirstEnd(s) else if IsEnd(c) then |s| else |s| + 1
  {
    var n, m := FirstEnd(s), FirstEnd(s + [c]);
    if n < |s| {
      assert (s + [c])[n] == s[n];
    }
    assert (s + [c])[|s|] == c;
    assert forall i | 0 <= i < |s| :: (s + [c])[i] == s[i];
  }

  /** A further byte moves the stop of an unfinished line only. */
  lemma LineStopSnoc(s: seq<byte>, c: byte)
    ensures LineStop(s) < |s| ==> LineStop(s + [c]) == LineStop(s)
    ensures LineStop(s) >= |s| ==>
              && LineStop(s) == |s| < UART_BUFFER_SIZE
              && LineStop(s + [c]) == if IsEnd(c) || |s| == UART_BUFFER_SIZE - 1 then |s| else |s| + 1
  {
    FirstEndSnoc(s, c);
  }

  lemma UnfinishedSnoc(s: seq<byte>, c: byte)
    requires LineStop(s) >= |s|
    ensures Rest(s) == s && Lines(s) == []
    ensures if IsEnd(c) || |s| == UART_BUFFER_SIZE - 1 then
              Rest(s + [c]) == [] && Lines(s + [c]) == if s == [] then [] else [s]
            else
              Rest(s + [c]) == s + [c] && Lines(s + [c]) == []
  {
    LineStopSnoc(s, c);
    var t := s + [c];
    if IsEnd(c) || |s| == UART_BUFFER_SIZE - 1 {
      assert t[..|s|] == s && t[|s| + 1..] == [];
      assert Lines(t[|s| + 1..]) == [] && Rest(t[|s| + 1..]) == [];
    }
  }

  function FinishedHead(s: seq<byte>): seq<seq<byte>>
    requires LineStop(s) < |s|
  {
    if LineStop(s) == 0 then [] else [s[..LineStop(s)]]
  }

  lemma FinishedSnoc(s: seq<byte>, c: byte)
    requires LineStop(s) < |s|
    ensures var tail, head := s[LineStop(s) + 1..], FinishedHead(s);
            && Lines(s) == head + Lines(tail) && Rest(s) == Rest(tail)
            && Lines(s + [c]) == head + Lines(tail + [c]) && Rest(s + [c]) == Rest(tail + [c])
  {
    var n := LineStop(s);
    LineStopSnoc(s, c);
    assert (s + [c])[n + 1..] == s[n + 1..] + [c];
    assert (s + [c])[..n] == s[..n];
  }

  /** How finished and unfinished lines change with a further byte. */
  predicate Extends(lines: seq<seq<byte>>, rest: seq<byte>, c: byte, lines1: seq<seq<byte>>, rest1: seq<byte>) {
    if IsEnd(c) || |rest| == UART_BUFFER_SIZE - 1 then
      rest1 == [] && lines1 == lines + (if rest == [] then [] else [rest])
    else
      rest1 == rest + [c] && lines1 == lines
  }

  lemma ExtendsBehind(head: seq<seq<byte>>, lines: seq<seq<byte>>, rest: seq<byte>, c: byte,
                      lines1: seq<seq<byte>>, rest1: seq<byte>)
    requires Extends(lines, rest, c, lines1, rest1)
    ensures Extends(head + lines, rest, c, head + lines1, rest1)
  {
    var line := if rest == [] then [] else [rest];
    assert head + (lines + line) == head + lines + line;
  }

  /** The splitter one byte at a time. */
  lemma {:induction false} SplitSnoc(s: seq<byte>, c: byte)
    ensures |Rest(s)| < UART_BUFFER_SIZE
    ensures Extends(Lines(s), Rest(s), c, Lines(s + [c]), Rest(s + [c]))
    decreases |s|
  {
    if LineStop(s) < |s| {
      var tail := s[LineStop(s) + 1..];
      SplitSnoc(tail, c);
      FinishedSnoc(s, c);
      ExtendsBehind(FinishedHead(s), Lines(tail), Rest(tail), c, Lines(tail + [c]), Rest(tail + [c]));
    } else {
      LineStopSnoc(s, c);
      UnfinishedSnoc(s, c);
    }
  }

  function Join(lines: seq<seq<byte>>, end: byte): seq<byte> {
    if lines == [] then [] else lines[0] + [end] + Join(lines[1..], end)
  }

  ghost predicate IsLine(line: seq<byte>) {
    0 < |line| < UART_BUFFER_SIZE && forall i | 0 <= i < |line| :: !IsEnd(line[i])
  }

  lemma StopBehindLine(line: seq<byte>, end: byte, more: seq<byte>)
    requires IsLine(line) && IsEnd(end)
    ensures var s := line + [end] + more;
            && LineStop(s) == |line| < |s| && s[..|line|] == line && s[|line| + 1..] == more
            && Lines(s) == [line] + Lines(more) && Rest(s) == Rest(more)
  {
    var s := line + [end] + more;
    assert forall i | 0 <= i < |line| :: s[i] == line[i];
    assert s[|line|] == end;
    assert FirstEnd(s) == |line|;
  }

  /** Lines of 1 to 255 bytes written with a line end behind each are read back unchanged. */
  lemma {:induction false} JoinedLinesSplit(lines: seq<seq<byte>>, end: byte)
    requires IsEnd(end) && forall i | 0 <= i < |lines| :: IsLine(lines[i])
    ensures Lines(Join(lines, end)) == lines && Rest(Join(lines, end)) == []
  {
    hide FirstEnd;
    if lines == [] {
      NothingRead();
    } else {
      JoinedLinesSplit(lines[1..], end);
      StopBehindLine(lines[0], end, Join(lines[1..], end));
    }
  }

  // ---------- bytes and limits in numbers ----------

  /** A byte received behind others, before the buffer is full, ends the line exactly when it is a
      line feed or a carriage return; any other byte is stored behind them. */
  lemma LineEndsIff(u: Uart, c: byte)
    requires ValidUart(u) && u.rxEnabled && 0 < u.ctr < 255
    ensures var r := Interrupt(u, Byte(c));
            && (r.ctr == 0 <==> c == 10 || c == 13)
            && (r.ctr != 0 ==> r == u.(buf := u.buf[u.ctr := c], ctr := u.ctr + 1))
  {
  }

  /** At the start of a line a line end is ignored. With 255 bytes received the next byte, whatever
      it is, ends the line and is not stored. */
  lemma FirstAndLastByte(u: Uart, c: byte)
    requires ValidUart(u) && u.rxEnabled
    ensures u.ctr == 0 && (c == 10 || c == 13) ==> Interrupt(u, Byte(c)) == u
    ensures u.ctr == 255 ==> Interrupt(u, Byte(c)).ctr == 0 && Interrupt(u, Byte(c)).buf == u.buf[255 := 0]
  {
  }

  /** A line end with no byte before it is dropped. */
  lemma EmptyLineIsDropped(end: byte, s: seq<byte>)
    requires end == 10 || end == 13
    ensures Lines([end] + s) == Lines(s) && Rest([end] + s) == Rest(s)
  {
    hide FirstEnd;
    var t := [end] + s;
    assert t[0] == end && t[1..] == s;
    StopAtEnd(t);
  }

  lemma StopAtEnd(s: seq<byte>)
    requires s != [] && (s[0] == 10 || s[0] == 13)
    ensures LineStop(s) == 0
  {
  }

  /** A line of 1 to 255 bytes is read back behind either end, and behind both together; without
      an end it is not finished. */
  lemma OneLineIsRead(line: seq<byte>, end: byte)
    requires 0 < |line| <= 255 && 10 !in line && 13 !in line && (end == 10 || end == 13)
    ensures Lines(line + [end]) == [line] && Rest(line + [end]) == []
    ensures Lines(line + [13, 10]) == [line] && Rest(line + [13, 10]) == []
    ensures Lines(line) == [] && Rest(line) == line
  {
    hide LineStop, Lines, Rest;
    assert forall i | 0 <= i < |line| :: line[i] in line;
    NothingRead();
    StopBehindLine(line, end, []);
    StopBehindLine(line, 13, [10]);
    EmptyLineIsDropped(10, []);
    assert line + [end] + [] == line + [end] && line + [13] + [10] == line + [13, 10] && [10] + [] == [10];
    assert [line] + [] == [line];
    assert Lines(line) == [] && Rest(line) == line by {
      NoEndUnfinished(line);
    }
  }

  lemma NoEndUnfinished(line: seq<byte>)
    requires IsLine(line)
    ensures Lines(line) == [] && Rest(line) == line
  {
    assert FirstEnd(line) == |line|;
  }

  lemma NothingRead()
    ensures Lines([]) == [] && Rest([]) == []
  {
  }

  /** Without a line end the first 255 bytes become a line, the next one is dropped, and reading
      goes on behind it. */
  lemma LongLineIsCut(s: seq<byte>)
    requires |s| > 255 && forall i | 0 <= i < 256 :: s[i] != 10 && s[i] != 13
    ensures Lines(s) == [s[..255]] + Lines(s[256..]) && Rest(s) == Rest(s[256..])
  {
    assert FirstEnd(s) >= 256;
  }

  /** The packet of a buffer, in numbers: its content is the text before the first NUL, cut at 250
      bytes; with 0x7E in front it is incoming, from handler 4, and otherwise outgoing, from the
      UART itself. */
  lemma PacketExactly(buffer: seq<byte>, n: nat, srcId: byte, destId: byte)
    requires |buffer| == 256 && n < 256 && buffer[n] == 0 && forall i | 0 <= i < n :: buffer[i] != 0
    ensures var d := PacketOf(buffer, srcId, destId);
            && d.kind == (if buffer[0] == 0x7E then Incoming else Outgoing)
            && d.srcId == (if buffer[0] == 0x7E then 4 else srcId)
            && d.destId == destId && d.resultCode == 0
            && ValidBuffer(d.msg) && Content(d.msg) == buffer[..if n < 250 then n else 250]
  {
    assert StrLen(buffer) == n;
  }
}
