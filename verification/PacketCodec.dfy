/** The wrap and load functions of the packet handler as they work: running counters over
    a reused scratch array. Each is tied to the pure layout of `Protocol`. */
module PacketCodec {
  import opened Bytes
  import opened Protocol
  import Crc

  /** `new_buf[n]; memcpy(new_buf, s, n)`. */
  method CopyOf(s: seq<byte>) returns (a: array<byte>)
    ensures fresh(a) && a[..] == s
  {
    a := new byte[|s|](i requires 0 <= i < |s| => s[i]);
  }

  lemma PatchedByte(before: seq<byte>, bytes: seq<byte>, b: byte)
    requires |bytes| < |before|
    ensures bytes == [] ==> before[0 := b] == Patch(before, 0, [b])
    ensures Patch(before, 0, bytes)[|bytes| := b] == Patch(before, 0, bytes + [b])
  {
  }

  /** An array patched at its start begins with the patch and is otherwise unchanged. */
  lemma PatchedPrefix(a: array<byte>, before: seq<byte>, bytes: seq<byte>)
    requires |bytes| <= |before| && a[..] == Patch(before, 0, bytes)
    ensures a[..|bytes|] == bytes && a[|bytes|..] == before[|bytes|..]
  {
    PatchedStart(before, bytes);
    assert a[..|bytes|] == a[..][..|bytes|] && a[|bytes|..] == a[..][|bytes|..];
  }

  method WrapUartPacket(kind: byte, payload: array<byte>, payloadLen: nat, pktBuf: array<byte>)
    returns (len: nat)
    requires payload != pktBuf && payloadLen <= payload.Length && payloadLen + 7 <= pktBuf.Length
    modifies pktBuf
    ensures len == payloadLen + 7
    ensures pktBuf[..len] == EncodeUart(kind, payload[..payloadLen])
    ensures pktBuf[len..] == old(pktBuf[payloadLen + 7..])
  {
    hide Crc.Crc16, Le16, GetLe16, Patch;
    ghost var before, head := pktBuf[..], [UART_START_TOKEN] + Le16(payloadLen + 4);
    ghost var types := [UART_PROTOCOL_VERSION, kind];
    ghost var body := types + payload[..payloadLen];
    var ctr := 0;
    len := 7 + payloadLen;
    pktBuf[ctr] := UART_START_TOKEN;
    ctr := ctr + 1;
    PatchedByte(before, [], UART_START_TOKEN);
    PutLe16(len - 3, pktBuf, ctr);
    ctr := ctr + 2;
    PatchExtend(before, [UART_START_TOKEN], Le16(payloadLen + 4));
    pktBuf[ctr] := UART_PROTOCOL_VERSION;
    ctr := ctr + 1;
    PatchedByte(before, head, UART_PROTOCOL_VERSION);
    pktBuf[ctr] := kind;
    ctr := ctr + 1;
    PatchedByte(before, head + [UART_PROTOCOL_VERSION], kind);
    assert head + [UART_PROTOCOL_VERSION] + [kind] == head + types;
    MemCpy(pktBuf, ctr, payload, payloadLen);
    ctr := ctr + payloadLen;
    PatchExtend(before, head + types, payload[..payloadLen]);
    assert head + types + payload[..payloadLen] == head + body;
    PatchedPrefix(pktBuf, before, head + body);
    assert pktBuf[3..ctr] == pktBuf[..ctr][3..] == body;
    var crc := Crc.Crc16(CRC_SEED, pktBuf[3..ctr]);
    PutLe16(crc, pktBuf, ctr);
    PatchExtend(before, head + body, Le16(crc));
    assert head + body + Le16(crc) == EncodeUart(kind, payload[..payloadLen]);
    PatchedPrefix(pktBuf, before, head + body + Le16(crc));
  }

  method WrapGenericPacket(kind: byte, payload: array<byte>, payloadLen: nat, pktBuf: array<byte>)
    returns (len: nat)
    requires payload != pktBuf && payloadLen <= payload.Length && payloadLen + 4 <= pktBuf.Length
    modifies pktBuf
    ensures len == payloadLen + 4
    ensures pktBuf[..len] == EncodeGeneric(kind, payload[..payloadLen])
    ensures pktBuf[len..] == old(pktBuf[payloadLen + 4..])
  {
    ghost var before, head := pktBuf[..], [PROTOCOL_VERSION, kind];
    pktBuf[0] := PROTOCOL_VERSION;
    pktBuf[1] := kind;
    assert pktBuf[..] == Patch(before, 0, head);
    PutLe16(payloadLen, pktBuf, 2);
    PatchExtend(before, head, Le16(payloadLen));
    MemCpy(pktBuf, 4, payload, payloadLen);
    PatchExtend(before, head + Le16(payloadLen), payload[..payloadLen]);
    len := 4 + payloadLen;
    PatchedPrefix(pktBuf, before, EncodeGeneric(kind, payload[..payloadLen]));
  }

  method WrapDataPacket(srcId: byte, payload: array<byte>, payloadLen: nat, pktBuf: array<byte>)
    returns (len: nat)
    requires payload != pktBuf && payloadLen <= payload.Length && payloadLen + 3 <= pktBuf.Length
    modifies pktBuf
    ensures len == payloadLen + 3
    ensures pktBuf[..len] == EncodeData(srcId, payload[..payloadLen])
    ensures pktBuf[len..] == old(pktBuf[payloadLen + 3..])
  {
    ghost var before := pktBuf[..];
    pktBuf[0] := srcId;
    assert pktBuf[..] == Patch(before, 0, [srcId]);
    PutLe16(payloadLen, pktBuf, 1);
    PatchExtend(before, [srcId], Le16(payloadLen));
    MemCpy(pktBuf, 3, payload, payloadLen);
    PatchExtend(before, [srcId] + Le16(payloadLen), payload[..payloadLen]);
    len := 3 + payloadLen;
    PatchedPrefix(pktBuf, before, EncodeData(srcId, payload[..payloadLen]));
  }

  method WrapResultPacket(command: byte, code: byte, requestId: uint16, payload: array<byte>,
                          payloadLen: nat, pktBuf: array<byte>)
    returns (len: nat)
    requires payload != pktBuf && payloadLen <= payload.Length && payloadLen + 6 <= pktBuf.Length
    modifies pktBuf
    ensures len == payloadLen + 6
    ensures pktBuf[..len] == EncodeResult(command, code, requestId, payload[..payloadLen])
    ensures pktBuf[len..] == old(pktBuf[payloadLen + 6..])
  {
    ghost var before, head := pktBuf[..], [command, code];
    var ctr := 0;
    pktBuf[ctr] := command;
    ctr := ctr + 1;
    pktBuf[ctr] := code;
    ctr := ctr + 1;
    assert pktBuf[..] == Patch(before, 0, head);
    PutLe16(requestId, pktBuf, ctr);
    ctr := ctr + 2;
    PatchExtend(before, head, Le16(requestId));
    PutLe16(payloadLen, pktBuf, ctr);
    ctr := ctr + 2;
    PatchExtend(before, head + Le16(requestId), Le16(payloadLen));
    MemCpy(pktBuf, ctr, payload, payloadLen);
    PatchExtend(before, head + Le16(requestId) + Le16(payloadLen), payload[..payloadLen]);
    len := 6 + payloadLen;
    PatchedPrefix(pktBuf, before, EncodeResult(command, code, requestId, payload[..payloadLen]));
  }

  method LoadUartPacket(buffer: seq<byte>) returns (pkt: UartView)
    requires UartReadable(buffer)
    ensures pkt == ViewUart(buffer)
  {
    hide Crc.Crc16;
    var ctr: int := 0;
    var startToken := buffer[ctr];
    ctr := ctr + 1;
    var length: int := GetLe16(buffer, ctr);
    ctr := ctr + 2;
    var version := buffer[ctr];
    ctr := ctr + 1;
    var kind := buffer[ctr];
    ctr := ctr + 1;
    var payloadLen: int := length - 4;
    var payloadAt := ctr;
    ctr := ctr + payloadLen;
    var checkCrc := Crc.Crc16(CRC_SEED, buffer[3..3 + (length - 2)]);
    var receivedCrc := GetLe16(buffer, ctr);
    pkt := UartView(startToken, length, version, kind, payloadAt, checkCrc == receivedCrc);
  }

  method LoadGenericPacket(buffer: seq<byte>, at: nat) returns (pkt: GenericView)
    requires at + 4 <= |buffer|
    ensures pkt == ViewGeneric(buffer, at)
  {
    var ctr := at;
    var version := buffer[ctr];
    ctr := ctr + 1;
    var kind := buffer[ctr];
    ctr := ctr + 1;
    var length := GetLe16(buffer, ctr);
    ctr := ctr + 2;
    pkt := GenericView(version, kind, length, ctr);
  }

  method LoadControlPacket(buffer: seq<byte>, at: nat) returns (pkt: ControlView)
    requires at + 7 <= |buffer|
    ensures pkt == ViewControl(buffer, at)
  {
    var ctr := at;
    var command := buffer[ctr];
    ctr := ctr + 1;
    var srcId := buffer[ctr];
    ctr := ctr + 1;
    var destId := buffer[ctr];
    ctr := ctr + 1;
    var requestId := GetLe16(buffer, ctr);
    ctr := ctr + 2;
    var length := GetLe16(buffer, ctr);
    ctr := ctr + 2;
    pkt := ControlView(command, srcId, destId, requestId, length, ctr);
  }

  /** The body of the outgoing handler up to the dispatch: three layers built in one scratch
      array, each from a temporary copy of the one before. */
  method BuildRouted(destId: byte, m: Message) returns (pktBuf: array<byte>, pktLen: nat)
    requires |m.payload| + HeaderBytes(destId, m) <= PACKET_BUF_SIZE
    ensures fresh(pktBuf) && pktBuf.Length == PACKET_BUF_SIZE
    ensures pktLen <= PACKET_BUF_SIZE && pktBuf[..pktLen] == EncodeRouted(destId, m)
  {
    RoutedLength(destId, m);
    pktBuf := new byte[PACKET_BUF_SIZE];
    var msg := CopyOf(m.payload);
    assert msg[..|m.payload|] == m.payload;
    var pktType;
    match m {
    case Result(command, code, id, payload) =>
      pktLen := WrapResultPacket(command, code, id, msg, |payload|, pktBuf);
      pktType := TYPE_RESULT;
    case Data(src, payload) =>
      pktLen := WrapDataPacket(src, msg, |payload|, pktBuf);
      pktType := TYPE_DATA;
    }
    assert pktBuf[..pktLen] == EncodeBody(m);

    var tmp := CopyOf(pktBuf[..pktLen]);
    assert tmp[..pktLen] == EncodeBody(m);
    var genericLen := WrapGenericPacket(pktType, tmp, pktLen, pktBuf);
    pktLen := genericLen;
    ghost var generic := EncodeGeneric(BodyType(m), EncodeBody(m));
    assert pktBuf[..genericLen] == generic;

    if destId == ID_UART_CM4 {
      var genericTmp := CopyOf(pktBuf[..genericLen]);
      assert genericTmp[..genericLen] == generic;
      pktLen := WrapUartPacket(TYPE_GENERIC, genericTmp, genericLen, pktBuf);
      assert pktBuf[..pktLen] == EncodeUart(TYPE_GENERIC, generic);
    }
  }
}
