/** Reassembly in the BLE buffer: notifications arrive in chunks marked by a counter byte, long
    reads in chunks at growing offsets. */
module BleReassembly {
  import opened Bytes
  import opened Protocol

  /** `_ble_buf`, `_ble_buf_ctr` and the offset in the read parameters. */
  datatype Rx = Rx(buf: seq<byte>, ctr: nat, offset: nat)

  /** What a handler did: the state it left, the packet it submitted, whether it wants more. */
  datatype Step = Step(rx: Rx, packet: Option<seq<byte>>, more: bool)

  const LAST_CHUNK: byte := 0xFF

  predicate ValidRx(rx: Rx) {
    |rx.buf| == PACKET_BUF_SIZE && rx.ctr <= PACKET_BUF_SIZE
  }

  function Stored(rx: Rx): seq<byte>
    requires ValidRx(rx)
  {
    rx.buf[..rx.ctr]
  }

  // ---------- notifications ----------

  function Notify(rx: Rx, chunk: seq<byte>): (s: Step)
    requires ValidRx(rx) && |chunk| >= 1
    ensures ValidRx(s.rx)
  {
    if rx.ctr + |chunk| - 1 > PACKET_BUF_SIZE then Step(rx, None, false)
    else
      var added := rx.(buf := Patch(rx.buf, rx.ctr, chunk[1..]), ctr := rx.ctr + |chunk| - 1);
      if chunk[0] == LAST_CHUNK then Step(added.(ctr := 0), Some(Stored(added)), false)
      else Step(added, None, true)
  }

  /** One subscription: chunks are delivered until the handler stops it. */
  function NotifyAll(rx: Rx, chunks: seq<seq<byte>>): (s: Step)
    requires ValidRx(rx) && forall k | 0 <= k < |chunks| :: |chunks[k]| >= 1
    ensures ValidRx(s.rx)
    decreases |chunks|
  {
    if chunks == [] then Step(rx, None, true)
    else
      var s := Notify(rx, chunks[0]);
      if s.more then NotifyAll(s.rx, chunks[1..]) else s
  }

  /** The data of the chunks, counter bytes removed. */
  function Bodies(chunks: seq<seq<byte>>): seq<byte>
    requires forall k | 0 <= k < |chunks| :: |chunks[k]| >= 1
  {
    if chunks == [] then [] else chunks[0][1..] + Bodies(chunks[1..])
  }

  /** A way of splitting a message: only the last chunk carries the end mark, 255. */
  ghost predicate IsChunking(chunks: seq<seq<byte>>, message: seq<byte>) {
    && chunks != []
    && (forall k | 0 <= k < |chunks| :: |chunks[k]| >= 1)
    && (forall k | 0 <= k < |chunks| :: chunks[k][0] == 255 <==> k == |chunks| - 1)
    && Bodies(chunks) == message
  }

  lemma NotifyStored(rx: Rx, chunk: seq<byte>)
    requires ValidRx(rx) && |chunk| >= 1 && rx.ctr + |chunk| - 1 <= PACKET_BUF_SIZE
    ensures var s, whole := Notify(rx, chunk), Stored(rx) + chunk[1..];
            if chunk[0] == LAST_CHUNK then s.packet == Some(whole) && s.rx.ctr == 0 && !s.more
            else s.packet == None && Stored(s.rx) == whole && s.more
  {
    assert Patch(rx.buf, rx.ctr, chunk[1..])[..rx.ctr + |chunk| - 1] == Stored(rx) + chunk[1..];
  }

  /** One notification, byte by byte: more than the buffer takes (250 bytes) stops the subscription
      and changes nothing, not even what arrived before; otherwise the bytes behind the counter
      are appended, and the counter 255 submits everything and empties the buffer. */
  lemma NotifyExactly(rx: Rx, chunk: seq<byte>)
    requires ValidRx(rx) && |chunk| >= 1
    ensures var s, whole := Notify(rx, chunk), rx.buf[..rx.ctr] + chunk[1..];
            if |whole| > 250 then s == Step(rx, None, false)
            else if chunk[0] == 255 then s.packet == Some(whole) && !s.more && s.rx.ctr == 0
            else s.packet == None && s.more && s.rx.ctr == |whole| && s.rx.buf[..s.rx.ctr] == whole
  {
    if rx.ctr + |chunk| - 1 <= PACKET_BUF_SIZE {
      NotifyStored(rx, chunk);
    }
  }

  /** A message behind what the buffer already holds: it is submitted as a whole, with those
      bytes in front, when everything fits; otherwise nothing is submitted. */
  lemma {:induction false} ChunksReassemble(rx: Rx, chunks: seq<seq<byte>>, message: seq<byte>)
    requires ValidRx(rx) && IsChunking(chunks, message)
    ensures var s := NotifyAll(rx, chunks);
            && !s.more
            && if rx.ctr + |message| <= PACKET_BUF_SIZE
               then s.packet == Some(Stored(rx) + message) && s.rx.ctr == 0
               else s.packet == None
    decreases |chunks|
  {
    var chunk, others := chunks[0], chunks[1..];
    assert message == chunk[1..] + Bodies(others);
    if rx.ctr + |chunk| - 1 <= PACKET_BUF_SIZE {
      NotifyStored(rx, chunk);
      if others == [] {
        assert chunk[1..] + Bodies(others) == chunk[1..];
      } else {
        forall k | 0 <= k < |others|
          ensures others[k] == chunks[k + 1]
        {
        }
        assert IsChunking(others, Bodies(others));
        var rx1 := Notify(rx, chunk).rx;
        ChunksReassemble(rx1, others, Bodies(others));
        assert Stored(rx1) + Bodies(others) == Stored(rx) + message;
      }
    }
  }

  /** Starting from an empty buffer a message, however split, is submitted exactly if it has at
      most 250 bytes. */
  lemma NotificationDeliveredIff(rx: Rx, chunks: seq<seq<byte>>, message: seq<byte>)
    requires ValidRx(rx) && rx.ctr == 0 && IsChunking(chunks, message)
    ensures NotifyAll(rx, chunks).packet == Some(message) <==> |message| <= PACKET_BUF_SIZE
    ensures NotifyAll(rx, chunks).packet == None <==> |message| > PACKET_BUF_SIZE
  {
    ChunksReassemble(rx, chunks, message);
    assert Stored(rx) + message == message;
  }

  ghost predicate AreChunkings(css: seq<seq<seq<byte>>>, messages: seq<seq<byte>>) {
    && |css| == |messages|
    && forall k | 0 <= k < |css| :: IsChunking(css[k], messages[k])
  }

  /** The packets submitted over several subscriptions, one for each list of chunks. */
  function Packets(rx: Rx, css: seq<seq<seq<byte>>>): (r: (Rx, seq<seq<byte>>))
    requires ValidRx(rx) && forall k, i | 0 <= k < |css| && 0 <= i < |css[k]| :: |css[k][i]| >= 1
    ensures ValidRx(r.0)
    decreases |css|
  {
    if css == [] then (rx, [])
    else
      var s := NotifyAll(rx, css[0]);
      var (last, more) := Packets(s.rx, css[1..]);
      (last, (match s.packet case None => [] case Some(p) => [p]) + more)
  }

  /** Over every sequence of messages of at most 250 bytes, each split in any way, the packets
      submitted are the messages, in order, and the counter ends at zero. */
  lemma {:induction false} NotificationsDelivered(rx: Rx, css: seq<seq<seq<byte>>>, messages: seq<seq<byte>>)
    requires ValidRx(rx) && rx.ctr == 0 && AreChunkings(css, messages)
    requires forall k | 0 <= k < |messages| :: |messages[k]| <= PACKET_BUF_SIZE
    ensures forall k, i | 0 <= k < |css| && 0 <= i < |css[k]| :: |css[k][i]| >= 1
    ensures Packets(rx, css).1 == messages && Packets(rx, css).0.ctr == 0
    decreases |css|
  {
    if css != [] {
      ChunksReassemble(rx, css[0], messages[0]);
      assert Stored(rx) + messages[0] == messages[0];
      NotificationsDelivered(NotifyAll(rx, css[0]).rx, css[1..], messages[1..]);
    }
  }

  // ---------- what comes between chunks ----------

  /** `read`: the counter and the offset start at zero. */
  function StartRead(rx: Rx): (r: Rx)
    requires ValidRx(rx)
    ensures ValidRx(r)
  {
    rx.(ctr := 0, offset := 0)
  }

  /** `write` copies the outgoing data over the start of the same buffer. */
  function Overlay(rx: Rx, data: seq<byte>): (r: Rx)
    requires ValidRx(rx) && |data| <= PACKET_BUF_SIZE
    ensures ValidRx(r)
  {
    rx.(buf := Patch(rx.buf, 0, data))
  }

  lemma OverlaidSameIff(rx: Rx, data: seq<byte>)
    requires ValidRx(rx) && |data| <= PACKET_BUF_SIZE
    ensures var n := if |data| < rx.ctr then |data| else rx.ctr;
            Stored(Overlay(rx, data)) == Stored(rx) <==> data[..n] == Stored(rx)[..n]
  {
    var n := if |data| < rx.ctr then |data| else rx.ctr;
    var held, overlaid := Stored(rx), Stored(Overlay(rx, data));
    assert overlaid[..n] == data[..n] && overlaid[n..] == held[n..];
    assert overlaid == overlaid[..n] + overlaid[n..] && held == held[..n] + held[n..];
  }

  /** A write between two chunks leaves the message intact exactly if it happens to write what
      the buffer already held; a read between them exactly if nothing had arrived yet. */
  lemma InterruptedReassembly(rx: Rx, data: seq<byte>, chunks: seq<seq<byte>>, rest: seq<byte>)
    requires ValidRx(rx) && |data| <= PACKET_BUF_SIZE && IsChunking(chunks, rest)
    requires rx.ctr + |rest| <= PACKET_BUF_SIZE
    ensures var whole, n := Stored(rx) + rest, if |data| < rx.ctr then |data| else rx.ctr;
            && (NotifyAll(Overlay(rx, data), chunks).packet == Some(whole) <==> data[..n] == Stored(rx)[..n])
            && (NotifyAll(StartRead(rx), chunks).packet == Some(whole) <==> rx.ctr == 0)
  {
    var written, start := Overlay(rx, data), StartRead(rx);
    ChunksReassemble(written, chunks, rest);
    ChunksReassemble(start, chunks, rest);
    OverlaidSameIff(rx, data);
    SameBefore(Stored(written), Stored(rx), rest);
    SameBefore(Stored(start), Stored(rx), rest);
    assert |Stored(start)| == 0 && |Stored(rx)| == rx.ctr;
  }

  // ---------- long reads ----------

  /** The result handler. No data is the end of the value, whatever the error code says. */
  function ReadResult(rx: Rx, err: bool, data: Option<seq<byte>>): Step
    requires ValidRx(rx)
  {
    match data
    case None => Step(rx.(ctr := 0), Some(Stored(rx)), false)
    case Some(part) =>
      if err || rx.offset + |part| > PACKET_BUF_SIZE then Step(rx, None, false)
      else Step(rx.(buf := Patch(rx.buf, rx.offset, part), ctr := rx.ctr + |part|), None, true)
  }

  /** One read result: the end submits what is there and empties the buffer, whatever the error code
      says; an error with data, or data that does not fit, changes nothing and stops; other data
      is stored at the offset and counted. */
  lemma ReadExactly(rx: Rx, err: bool, data: Option<seq<byte>>)
    requires ValidRx(rx)
    ensures var s := ReadResult(rx, err, data);
            match data
            case None => s.packet == Some(rx.buf[..rx.ctr]) && !s.more && s.rx.ctr == 0
            case Some(part) =>
              if err || rx.offset + |part| > 250 then s == Step(rx, None, false)
              else && s.packet == None && s.more && s.rx.ctr == rx.ctr + |part|
                   && s.rx.buf[rx.offset..rx.offset + |part|] == part
                   && s.rx.buf[..rx.offset] == rx.buf[..rx.offset]
  {
  }

  /** The GATT client delivers parts of a value, moves the offset behind each one that was taken,
      and reports the end, or with `err` a failure, with no data. */
  function ReadAll(rx: Rx, parts: seq<seq<byte>>, err: bool): Step
    requires ValidRx(rx) && rx.offset == rx.ctr
    decreases |parts|
  {
    if parts == [] then ReadResult(rx, err, None)
    else
      var s := ReadResult(rx, false, Some(parts[0]));
      if s.more then ReadAll(s.rx.(offset := rx.offset + |parts[0]|), parts[1..], err) else s
  }

  lemma {:induction false} ReadReassembles(rx: Rx, parts: seq<seq<byte>>, err: bool)
    requires ValidRx(rx) && rx.offset == rx.ctr
    ensures var s := ReadAll(rx, parts, err);
            && !s.more
            && if rx.ctr + |Concat(parts)| <= PACKET_BUF_SIZE
               then s.packet == Some(Stored(rx) + Concat(parts)) && s.rx.ctr == 0
               else s.packet == None
    decreases |parts|
  {
    if parts == [] {
      assert Stored(rx) + [] == Stored(rx);
    } else {
      var part := parts[0];
      if rx.offset + |part| <= PACKET_BUF_SIZE {
        var rx1 := Rx(Patch(rx.buf, rx.ctr, part), rx.ctr + |part|, rx.offset + |part|);
        assert Stored(rx1) == Stored(rx) + part;
        ReadReassembles(rx1, parts[1..], err);
        assert Stored(rx1) + Concat(parts[1..]) == Stored(rx) + Concat(parts);
      }
    }
  }

  /** The parts delivered, however they split and whatever the buffer held before the read, are
      submitted as one packet exactly if they have at most 250 bytes in all. The error code has
      no influence: a read that fails halfway submits the part of the value it got. */
  lemma LongReadDeliveredIff(rx: Rx, parts: seq<seq<byte>>, err: bool)
    requires ValidRx(rx)
    ensures var s := ReadAll(StartRead(rx), parts, err);
            && (s.packet == Some(Concat(parts)) <==> |Concat(parts)| <= PACKET_BUF_SIZE)
            && (s.packet == None <==> |Concat(parts)| > PACKET_BUF_SIZE)
  {
    var start := StartRead(rx);
    ReadReassembles(start, parts, err);
    assert Stored(start) + Concat(parts) == Concat(parts);
  }
}
