/** The router protocol: constants, packet layouts as pure encoders, the views the
    loaders take of a buffer, and what encoders and loaders promise each other. */
module Protocol {
  import opened Bytes
  import Crc

  const PROTOCOL_VERSION: byte := 1
  const UART_PROTOCOL_VERSION: byte := 1
  const UART_START_TOKEN: byte := 0x7E
  const CRC_SEED: uint16 := 0xFFFF

  const PACKET_BUF_SIZE := 250
  const PACKET_HANDLERS := 7

  const TYPE_GENERIC: byte := 0
  const TYPE_CONTROL: byte := 0
  const TYPE_RESULT: byte := 1
  const TYPE_DATA: byte := 2

  const ID_UNKNOWN: byte := 0
  const ID_UART_CM4: byte := 4

  // ---------- layouts ----------

  function EncodeUart(kind: byte, payload: seq<byte>): (frame: seq<byte>)
    ensures |frame| == |payload| + 7
  {
    var body := [UART_PROTOCOL_VERSION, kind] + payload;
    [UART_START_TOKEN] + Le16(|payload| + 4) + body + Le16(Crc.Crc16(CRC_SEED, body))
  }

  function EncodeGeneric(kind: byte, payload: seq<byte>): (pkt: seq<byte>)
    ensures |pkt| == |payload| + 4
  {
    [PROTOCOL_VERSION, kind] + Le16(|payload|) + payload
  }

  function EncodeData(srcId: byte, payload: seq<byte>): (pkt: seq<byte>)
    ensures |pkt| == |payload| + 3
  {
    [srcId] + Le16(|payload|) + payload
  }

  function EncodeResult(command: byte, code: byte, requestId: uint16, payload: seq<byte>): (pkt: seq<byte>)
    ensures |pkt| == |payload| + 6
  {
    [command, code] + Le16(requestId) + Le16(|payload|) + payload
  }

  datatype Control = Control(command: byte, srcId: byte, destId: byte, requestId: uint16, payload: seq<byte>)

  function EncodeControl(c: Control): (pkt: seq<byte>)
    ensures |pkt| == |c.payload| + 7
  {
    [c.command, c.srcId, c.destId] + Le16(c.requestId) + Le16(|c.payload|) + c.payload
  }

  /** What the router sends: plain data, or the result of a request. */
  datatype Message =
    | Data(srcId: byte, payload: seq<byte>)
    | Result(command: byte, code: byte, requestId: uint16, payload: seq<byte>)

  function EncodeBody(m: Message): seq<byte> {
    match m
    case Data(src, payload) => EncodeData(src, payload)
    case Result(command, code, id, payload) => EncodeResult(command, code, id, payload)
  }

  function BodyType(m: Message): byte {
    if m.Result? then TYPE_RESULT else TYPE_DATA
  }

  /** The nested encoding of a message on its way to `destId`: the application
      processor gets a UART frame around the generic packet. */
  function EncodeRouted(destId: byte, m: Message): seq<byte> {
    var generic := EncodeGeneric(BodyType(m), EncodeBody(m));
    if destId == ID_UART_CM4 then EncodeUart(TYPE_GENERIC, generic) else generic
  }

  lemma RoutedLength(destId: byte, m: Message)
    ensures |EncodeRouted(destId, m)| == |m.payload| + HeaderBytes(destId, m)
  {
    assert |EncodeBody(m)| == |m.payload| + if m.Result? then 6 else 3;
  }

  /** Bytes the layers around the payload take. */
  function HeaderBytes(destId: byte, m: Message): nat {
    (if m.Result? then 10 else 7) + (if destId == ID_UART_CM4 then 7 else 0)
  }

  // ---------- the loaders' views; a payload pointer is an offset ----------

  datatype UartView = UartView(startToken: byte, length: uint16, version: byte, kind: byte,
                               payloadAt: nat, crcOk: bool)
  datatype GenericView = GenericView(version: byte, kind: byte, length: uint16, payloadAt: nat)
  datatype ControlView = ControlView(command: byte, srcId: byte, destId: byte, requestId: uint16,
                                     length: uint16, payloadAt: nat)

  /** Every byte the UART loader reads lies in the buffer. */
  predicate UartReadable(b: seq<byte>) {
    |b| >= 5 && 2 <= GetLe16(b, 1) && GetLe16(b, 1) + 3 <= |b|
  }

  function ViewUart(b: seq<byte>): UartView
    requires UartReadable(b)
  {
    var length := GetLe16(b, 1);
    UartView(b[0], length, b[3], b[4], 5,
             Crc.Crc16(CRC_SEED, b[3..length + 1]) == GetLe16(b, length + 1))
  }

  function ViewGeneric(b: seq<byte>, at: nat): GenericView
    requires at + 4 <= |b|
  {
    GenericView(b[at], b[at + 1], GetLe16(b, at + 2), at + 4)
  }

  function ViewControl(b: seq<byte>, at: nat): ControlView
    requires at + 7 <= |b|
  {
    ControlView(b[at], b[at + 1], b[at + 2], GetLe16(b, at + 3), GetLe16(b, at + 5), at + 7)
  }

  // ---------- the far end's decoder ----------

  function DecodeBody(kind: byte, b: seq<byte>): Option<Message> {
    if kind == TYPE_DATA && |b| >= 3 && GetLe16(b, 1) == |b| - 3 then
      Some(Data(b[0], b[3..]))
    else if kind == TYPE_RESULT && |b| >= 6 && GetLe16(b, 4) == |b| - 6 then
      Some(Result(b[0], b[1], GetLe16(b, 2), b[6..]))
    else
      None
  }

  function DecodeGeneric(b: seq<byte>): Option<Message> {
    if |b| >= 4 && b[0] == PROTOCOL_VERSION && GetLe16(b, 2) == |b| - 4 then
      DecodeBody(b[1], b[4..])
    else
      None
  }

  function DecodeRouted(destId: byte, b: seq<byte>): Option<Message> {
    if destId != ID_UART_CM4 then
      DecodeGeneric(b)
    else if UartReadable(b) && GetLe16(b, 1) == |b| - 3 && b[0] == UART_START_TOKEN
            && b[3] == UART_PROTOCOL_VERSION && b[4] == TYPE_GENERIC && GetLe16(b, 1) >= 4
            && ViewUart(b).crcOk then
      DecodeGeneric(b[5..|b| - 2])
    else
      None
  }

  // ---------- frames ----------

  lemma Layers(token: byte, length: seq<byte>, body: seq<byte>, check: seq<byte>, rest: seq<byte>)
    requires |length| == 2 && |check| == 2 && |body| >= 2
    ensures var b := [token] + length + body + check + rest;
            && b[0] == token && b[1..3] == length
            && b[3] == body[0] && b[4] == body[1]
            && b[3..3 + |body|] == body && b[5..3 + |body|] == body[2..]
            && b[3 + |body|..5 + |body|] == check
  {
  }

  lemma FrameParts(kind: byte, payload: seq<byte>, rest: seq<byte>)
    ensures var b := EncodeUart(kind, payload) + rest;
            var body := [UART_PROTOCOL_VERSION, kind] + payload;
            && b[0] == UART_START_TOKEN && b[3] == UART_PROTOCOL_VERSION && b[4] == kind
            && b[1..3] == Le16(|payload| + 4)
            && b[3..5 + |payload|] == body
            && b[5..5 + |payload|] == payload
            && b[5 + |payload|..7 + |payload|] == Le16(Crc.Crc16(CRC_SEED, body))
  {
    var body := [UART_PROTOCOL_VERSION, kind] + payload;
    var length, check := Le16(|payload| + 4), Le16(Crc.Crc16(CRC_SEED, body));
    Layers(UART_START_TOKEN, length, body, check, rest);
    assert body[2..] == payload;
  }

  lemma FrameHead(kind: byte, payload: seq<byte>)
    ensures EncodeUart(kind, payload)[0] == UART_START_TOKEN
    ensures EncodeUart(kind, payload)[1..3] == Le16(|payload| + 4)
  {
    FrameParts(kind, payload, []);
    assert EncodeUart(kind, payload) + [] == EncodeUart(kind, payload);
  }

  lemma CrcBound(data: seq<byte>)
    ensures Crc.Crc16(CRC_SEED, data) < 0x1_0000
  {
    Crc.TrailerBits(Crc.Feed(Crc.Seed(CRC_SEED), Crc.ByteBits(data)));
  }

  /** The loader sees the fields of a wrapped frame, its payload and a matching check value,
      whatever bytes follow the frame in the buffer. */
  lemma FrameRoundTrip(kind: byte, payload: seq<byte>, rest: seq<byte>)
    requires |payload| + 4 < 0x1_0000
    ensures var b := EncodeUart(kind, payload) + rest;
            && UartReadable(b)
            && ViewUart(b) == UartView(UART_START_TOKEN, |payload| + 4, UART_PROTOCOL_VERSION, kind, 5, true)
            && b[5..5 + |payload|] == payload
  {
    var b := EncodeUart(kind, payload) + rest;
    var body := [UART_PROTOCOL_VERSION, kind] + payload;
    FrameParts(kind, payload, rest);
    CrcBound(body);
    var crc := Crc.Crc16(CRC_SEED, body);
    var length := |payload| + 4;
    Le16Read(b, 1, length);
    Le16Read(b, length + 1, crc);
    assert b[3..length + 1] == body;
  }

  /** The check of a frame passes exactly when the register ends at zero over the bytes
      from the version up to and including the check value. */
  lemma CheckIsResidue(frame: seq<byte>, rest: seq<byte>)
    requires UartReadable(frame) && GetLe16(frame, 1) == |frame| - 3
    ensures UartReadable(frame + rest)
    ensures ViewUart(frame + rest).crcOk <==>
            Crc.Feed(Crc.Seed(CRC_SEED), Crc.ByteBits(frame[3..])) == Crc.ZERO
  {
    var n := |frame| - 2;
    var b := frame + rest;
    var data, trailer := frame[3..n], frame[n..];
    assert data + trailer == frame[3..];
    assert b[3..n] == data;
    assert GetLe16(b, n) == GetLe16(trailer, 0);
    Crc.CheckedExactly(CRC_SEED, data, trailer);
  }

  /** Over the checked region including the little-endian trailer the CRC is zero. */
  lemma FrameResidue(kind: byte, payload: seq<byte>)
    requires |payload| + 4 < 0x1_0000
    ensures Crc.Feed(Crc.Seed(CRC_SEED), Crc.ByteBits(EncodeUart(kind, payload)[3..])) == Crc.ZERO
    ensures Crc.Crc16(CRC_SEED, EncodeUart(kind, payload)[3..]) == 0
  {
    FrameRoundTrip(kind, payload, []);
    var frame := EncodeUart(kind, payload);
    assert frame + [] == frame;
    CheckIsResidue(frame, []);
    Crc.ValueOfClear(16);
  }

  /** With any two bytes in the place of the check value the frame reads the same, and the
      comparison passes exactly for the right two. */
  lemma ReplacedCheck(kind: byte, payload: seq<byte>, check: seq<byte>, rest: seq<byte>)
    requires |payload| + 4 < 0x1_0000 && |check| == 2
    ensures var frame := EncodeUart(kind, payload);
            var b := frame[..|frame| - 2] + check + rest;
            && UartReadable(b) && b[5..5 + |payload|] == payload
            && (ViewUart(b).crcOk <==> check == frame[|frame| - 2..])
  {
    hide Crc.Crc16, Le16;
    var frame := EncodeUart(kind, payload);
    var n := |frame| - 2;
    var b := frame[..n] + check + rest;
    FrameParts(kind, payload, []);
    assert frame + [] == frame;
    var body, length := [UART_PROTOCOL_VERSION, kind] + payload, Le16(|payload| + 4);
    CrcBound(body);
    assert frame[..n] == [UART_START_TOKEN] + length + body;
    Layers(UART_START_TOKEN, length, body, check, rest);
    Le16Read(b, 1, |payload| + 4);
    assert b[3..n] == body && b[n..n + 2] == check;
    Le16Of(check, Crc.Crc16(CRC_SEED, body));
    assert GetLe16(b, n) == GetLe16(check, 0) by {
      assert b[n] == b[n..n + 2][0] && b[n + 1] == b[n..n + 2][1];
    }
  }

  /** Damage to a wrapped frame behind its length field makes the loader's comparison fail
      when it stays within 16 consecutive bits, or flips an odd number of bits. */
  lemma DamageFailsCheck(kind: byte, payload: seq<byte>, damaged: seq<byte>, at: nat, rest: seq<byte>)
    requires |payload| + 4 < 0x1_0000
    requires |damaged| == |payload| + 7 && damaged[..3] == EncodeUart(kind, payload)[..3]
    requires var e := Crc.Damage(EncodeUart(kind, payload)[3..], damaged[3..]);
             Crc.IsBurst(e, at) || Crc.Ones(e) % 2 == 1
    ensures UartReadable(damaged + rest) && !ViewUart(damaged + rest).crcOk
  {
    var frame := EncodeUart(kind, payload);
    FrameRoundTrip(kind, payload, []);
    assert frame + [] == frame;
    assert forall i | 0 <= i < 3 :: damaged[i] == damaged[..3][i] == frame[..3][i] == frame[i];
    FrameResidue(kind, payload);
    var r := Crc.Seed(CRC_SEED);
    if Crc.IsBurst(Crc.Damage(frame[3..], damaged[3..]), at) {
      Crc.BurstChangesRegister(r, frame[3..], damaged[3..], at);
    } else {
      Crc.OddDamageChangesRegister(r, frame[3..], damaged[3..]);
    }
    CheckIsResidue(damaged, rest);
  }

  // ---------- messages ----------

  lemma BodyRoundTrip(m: Message)
    requires |EncodeBody(m)| < 0x1_0000
    ensures DecodeBody(BodyType(m), EncodeBody(m)) == Some(m)
  {
    var b := EncodeBody(m);
    Le16RoundTrip(|m.payload|);
    match m
    case Data(src, payload) =>
      assert b[1..3] == Le16(|payload|);
      assert b[3..] == payload;
    case Result(command, code, id, payload) =>
      Le16RoundTrip(id);
      assert b[2..4] == Le16(id) && b[4..6] == Le16(|payload|);
      assert b[6..] == payload;
  }

  lemma GenericRoundTrip(m: Message)
    requires |EncodeBody(m)| < 0x1_0000
    ensures DecodeGeneric(EncodeGeneric(BodyType(m), EncodeBody(m))) == Some(m)
  {
    var body := EncodeBody(m);
    var b := EncodeGeneric(BodyType(m), body);
    Le16RoundTrip(|body|);
    assert b[2..4] == Le16(|body|);
    assert b[4..] == body;
    BodyRoundTrip(m);
  }

  /** Whatever is routed, the receiver reads back exactly the message. */
  lemma RoutedRoundTrip(destId: byte, m: Message)
    requires |EncodeRouted(destId, m)| < 0x1_0000
    ensures DecodeRouted(destId, EncodeRouted(destId, m)) == Some(m)
  {
    GenericRoundTrip(m);
    if destId == ID_UART_CM4 {
      var generic := EncodeGeneric(BodyType(m), EncodeBody(m));
      var b := EncodeUart(TYPE_GENERIC, generic);
      FrameRoundTrip(TYPE_GENERIC, generic, []);
      assert b + [] == b;
      assert b[5..|b| - 2] == generic;
    }
  }

  lemma Le16OfGet(s: seq<byte>, at: nat)
    requires at + 2 <= |s|
    ensures Le16(GetLe16(s, at)) == s[at..at + 2]
  {
    Le16Surjective(s[at], s[at + 1]);
    assert s[at..at + 2] == [s[at], s[at + 1]];
  }

  lemma GenericCanonical(b: seq<byte>)
    requires DecodeGeneric(b).Some?
    ensures var m := DecodeGeneric(b).value; EncodeGeneric(BodyType(m), EncodeBody(m)) == b
  {
    var m, body := DecodeGeneric(b).value, b[4..];
    Le16OfGet(b, 2);
    if m.Data? {
      Le16OfGet(body, 1);
      assert body == [body[0]] + body[1..3] + body[3..];
    } else {
      Le16OfGet(body, 2);
      Le16OfGet(body, 4);
      assert body == [body[0], body[1]] + body[2..4] + body[4..6] + body[6..];
    }
    assert EncodeBody(m) == body;
    assert b == [b[0], b[1]] + b[2..4] + body;
  }

  lemma FrameSplit(b: seq<byte>)
    requires |b| >= 7
    ensures var n := |b| - 2;
            && b == [b[0]] + b[1..3] + b[3..n] + b[n..]
            && b[3..n] == [b[3], b[4]] + b[5..n]
  {
  }

  lemma FrameCanonical(b: seq<byte>, payload: seq<byte>)
    requires UartReadable(b) && GetLe16(b, 1) == |b| - 3 && |b| >= 7 && payload == b[5..|b| - 2]
    requires b[0] == UART_START_TOKEN && b[3] == UART_PROTOCOL_VERSION && ViewUart(b).crcOk
    ensures EncodeUart(b[4], payload) == b
  {
    hide Crc.Crc16;
    var n := |b| - 2;
    FrameSplit(b);
    Le16OfGet(b, 1);
    Le16OfGet(b, n);
    assert b[n..n + 2] == b[n..];
    assert [UART_PROTOCOL_VERSION, b[4]] + payload == b[3..n];
  }

  /** The decoder accepts nothing but encodings: with `RoutedRoundTrip`, encoding and
      decoding are inverse to each other. */
  lemma RoutedCanonical(destId: byte, b: seq<byte>)
    requires DecodeRouted(destId, b).Some?
    ensures EncodeRouted(destId, DecodeRouted(destId, b).value) == b
  {
    if destId != ID_UART_CM4 {
      GenericCanonical(b);
    } else {
      var generic := b[5..|b| - 2];
      GenericCanonical(generic);
      FrameCanonical(b, generic);
    }
  }

  // ---------- incoming control packets ----------

  /** Header fields and payload of a control packet that starts at `at` in a buffer. */
  lemma ControlRoundTrip(b: seq<byte>, at: nat, c: Control)
    requires |c.payload| + 7 < 0x1_0000
    requires at + |c.payload| + 11 <= |b|
    requires b[at..at + |c.payload| + 11] == EncodeGeneric(TYPE_CONTROL, EncodeControl(c))
    ensures ViewGeneric(b, at) == GenericView(PROTOCOL_VERSION, TYPE_CONTROL, |c.payload| + 7, at + 4)
    ensures ViewControl(b, at + 4)
         == ControlView(c.command, c.srcId, c.destId, c.requestId, |c.payload|, at + 11)
    ensures b[at + 11..at + 11 + |c.payload|] == c.payload
  {
    var n := |c.payload|;
    var pkt := b[at..at + n + 11];
    ControlParts(c);
    SliceOfSlice(b, at, n + 11, 2, 4);
    SliceOfSlice(b, at, n + 11, 7, 9);
    SliceOfSlice(b, at, n + 11, 9, 11);
    SliceOfSlice(b, at, n + 11, 11, n + 11);
    Le16Read(b, at + 2, n + 7);
    Le16Read(b, at + 7, c.requestId);
    Le16Read(b, at + 9, n);
    assert pkt[0] == b[at] && pkt[1] == b[at + 1];
    assert pkt[4] == b[at + 4] && pkt[5] == b[at + 5] && pkt[6] == b[at + 6];
  }

  lemma ControlParts(c: Control)
    ensures var pkt := EncodeGeneric(TYPE_CONTROL, EncodeControl(c));
            && pkt[0] == PROTOCOL_VERSION && pkt[1] == TYPE_CONTROL && pkt[2..4] == Le16(|c.payload| + 7)
            && pkt[4] == c.command && pkt[5] == c.srcId && pkt[6] == c.destId
            && pkt[7..9] == Le16(c.requestId) && pkt[9..11] == Le16(|c.payload|) && pkt[11..] == c.payload
  {
    var ctrl := EncodeControl(c);
    var pkt := EncodeGeneric(TYPE_CONTROL, ctrl);
    assert ctrl[3..5] == Le16(c.requestId) && ctrl[5..7] == Le16(|c.payload|) && ctrl[7..] == c.payload;
    assert pkt[4..] == ctrl;
    SliceOfSlice(pkt, 4, |ctrl|, 3, 5);
    SliceOfSlice(pkt, 4, |ctrl|, 5, 7);
    SliceOfSlice(pkt, 4, |ctrl|, 7, |ctrl|);
  }

  // ---------- the layouts byte by byte ----------

  /** A UART frame as the protocol header lays it out: start token, length of what follows it
      (low byte first, version, type and check included), version, type, payload, check. */
  lemma FrameBytes(kind: byte, payload: seq<byte>)
    requires |payload| < 0xFFFC
    ensures var f, n := EncodeUart(kind, payload), |payload|;
            && |f| == n + 7 && f[0] == 0x7E
            && f[1] as int + 256 * f[2] as int == n + 4
            && f[3] == 1 && f[4] == kind && f[5..n + 5] == payload
            && f[n + 5] as int + 256 * f[n + 6] as int == Crc.Crc16(0xFFFF, f[3..n + 5])
  {
    hide Crc.Crc16;
    var f, n := EncodeUart(kind, payload), |payload|;
    FrameParts(kind, payload, []);
    assert f + [] == f;
    CrcBound(f[3..n + 5]);
    Le16Read(f, 1, n + 4);
    Le16Read(f, n + 5, Crc.Crc16(0xFFFF, f[3..n + 5]));
  }

  /** The shortest frame, in full. */
  lemma EmptyFrame()
    ensures EncodeUart(0, []) == [0x7E, 4, 0, 1, 0, 0x60, 0xE9]
  {
    hide Crc.Crc16;
    Crc.KnownCheck();
    assert [UART_PROTOCOL_VERSION, 0] + [] == [1, 0];
  }

  lemma GenericBytes(m: Message)
    requires |EncodeBody(m)| < 0x1_0000
    ensures var g, body := EncodeGeneric(BodyType(m), EncodeBody(m)), EncodeBody(m);
            && g[0] == 1 && g[1] == (if m.Result? then 1 else 2)
            && g[2] as int + 256 * g[3] as int == |body| && g[4..] == body
  {
    var g, body := EncodeGeneric(BodyType(m), EncodeBody(m)), EncodeBody(m);
    assert g[2..4] == Le16(|body|);
    Le16Read(g, 2, |body|);
  }

  /** Data: source, length, payload. Result: command, code, request id, length, payload. */
  lemma BodyBytes(m: Message)
    requires |m.payload| < 0x1_0000
    ensures var b, n := EncodeBody(m), |m.payload|;
            match m
            case Data(src, payload) =>
              |b| == n + 3 && b[0] == src && b[1] as int + 256 * b[2] as int == n && b[3..] == payload
            case Result(command, code, id, payload) =>
              && |b| == n + 6 && b[0] == command && b[1] == code
              && b[2] as int + 256 * b[3] as int == id && b[4] as int + 256 * b[5] as int == n && b[6..] == payload
  {
    var b, n := EncodeBody(m), |m.payload|;
    match m {
      case Data(src, payload) =>
        assert b[1..3] == Le16(n);
        Le16Read(b, 1, n);
      case Result(command, code, id, payload) =>
        assert b[2..4] == Le16(id) && b[4..6] == Le16(n);
        Le16Read(b, 2, id);
        Le16Read(b, 4, n);
    }
  }

  /** Control: command, source, destination, request id, length, payload. */
  lemma ControlBytes(c: Control)
    requires |c.payload| + 7 < 0x1_0000
    ensures var b, n := EncodeGeneric(0, EncodeControl(c)), |c.payload|;
            && |b| == n + 11 && b[0] == 1 && b[1] == 0 && b[2] as int + 256 * b[3] as int == n + 7
            && b[4] == c.command && b[5] == c.srcId && b[6] == c.destId
            && b[7] as int + 256 * b[8] as int == c.requestId
            && b[9] as int + 256 * b[10] as int == n && b[11..] == c.payload
  {
    var b, n := EncodeGeneric(0, EncodeControl(c)), |c.payload|;
    ControlParts(c);
    Le16Read(b, 2, n + 7);
    Le16Read(b, 7, c.requestId);
    Le16Read(b, 9, n);
  }

  /** Towards handler 4, the application processor, a message is framed; towards any other it
      is the generic packet itself. */
  lemma OnlyFourIsFramed(destId: byte, m: Message)
    requires |EncodeBody(m)| + 8 < 0x1_0000
    ensures EncodeRouted(destId, m)[0] == if destId == 4 then 0x7E else 1
    ensures destId == 4 ==> EncodeRouted(destId, m)[4] == 0
    ensures var r, g := EncodeRouted(destId, m), EncodeGeneric(BodyType(m), EncodeBody(m));
            if destId == 4 then |r| == |g| + 7 && r[5..|g| + 5] == g else r == g
  {
    hide Crc.Crc16;
    var g := EncodeGeneric(BodyType(m), EncodeBody(m));
    FrameBytes(TYPE_GENERIC, g);
  }
}
