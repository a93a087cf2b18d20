/** The BLE central object: its callbacks update the buffer, the connection and the discovered
    handles in place. Each is tied to a step of `BleLink`, `BleReassembly` or `BleDiscovery`. */
module BleCentralDriver {
  import opened Bytes
  import opened Protocol
  import opened Router
  import opened MessageQueue
  import opened PacketHandling
  import opened ServiceUuids
  import L = BleLink
  import R = BleReassembly
  import D = BleDiscovery

  const GATT_WRITE_OVERHEAD := 3

  datatype BleRet =
    | BleOk | NotStarted | AlreadyStarted | BluetoothInitFailed | AlreadyConnected | ScanFailed | NotConnected
    | DiscoveryFailed | IncorrectMtu | WriteFailed | ReadFailed

  /** What the GATT client is asked for. */
  datatype GattWrite = GattWrite(handle: nat, offset: nat, bytes: seq<byte>)
  datatype GattRead = GattRead(handle: nat, offset: nat)

  class BleCentral {
    const buf: array<byte>
    const srcId: byte
    const destId: byte
    const pktHandler: PacketHandler?
    var initialized: bool
    var bufCtr: nat
    var readOffset: nat
    // the link, and the controller's side of it
    var conn: Option<nat>
    var available: bool
    var refs: int
    var scanning: bool
    var phase: L.Phase
    var naps: nat
    // discovery
    var uuidBase: Uuid
    var search: D.Search
    var searchUuid: Option<Uuid>
    var startHandle: nat
    var endHandle: nat
    var requested: bool
    var nextHandle: nat
    var sessionDataHandle: nat
    var controlHandle: nat
    var resultHandle: nat
    var subValueHandle: nat
    var subCccHandle: nat
    var subscribed: bool

    ghost function Rx(): R.Rx
      reads this, buf
    {
      R.Rx(buf[..], bufCtr, readOffset)
    }

    ghost function Link(): L.Link
      reads this
    {
      L.Link(conn, refs, scanning, phase, available, naps)
    }

    ghost function Disc(): D.Disc
      reads this
    {
      D.Disc(search, searchUuid, startHandle, endHandle, requested, nextHandle, sessionDataHandle, controlHandle,
             resultHandle, subValueHandle, subCccHandle, subscribed)
    }

    ghost predicate Valid()
      reads this, buf
    {
      R.ValidRx(Rx())
    }

    ghost function Handlers(): set<PacketHandler> {
      if pktHandler == null then {} else {pktHandler}
    }

    constructor (src: byte, dest: byte, handler: PacketHandler?)
      ensures Valid() && fresh(buf) && !initialized && Link() == L.IDLE.(available := false)
      ensures srcId == src && destId == dest && pktHandler == handler
    {
      buf := new byte[PACKET_BUF_SIZE];
      srcId, destId, pktHandler := src, dest, handler;
      initialized := false;
      bufCtr, readOffset := 0, 0;
      conn, available, refs, scanning, phase, naps := None, false, 0, false, L.Down, 0;
      uuidBase := Uuid16(0);
      search, searchUuid, startHandle, endHandle, requested := D.ForService, None, 0, 0, false;
      nextHandle, sessionDataHandle, controlHandle, resultHandle := 0, 0, 0, 0;
      subValueHandle, subCccHandle, subscribed := 0, 0, false;
    }

    /** `enabled` is whether the Bluetooth controller starts. A base id, if there is one, is kept
        only if it parses; a failure of that is not reported. */
    method Init(baseUuid: Option<string>, enabled: bool) returns (ret: BleRet)
      requires Valid()
      modifies `initialized, `available, `uuidBase
      ensures Valid()
      ensures ret == if old(initialized) then AlreadyStarted else if enabled then BleOk else BluetoothInitFailed
      ensures initialized == (old(initialized) || enabled)
      ensures Link() == if ret == BleOk then old(Link()).(available := true) else old(Link())
      ensures uuidBase == if ret == BleOk && baseUuid.Some? && Parse(baseUuid.value).Some?
                          then Parse(baseUuid.value).value else old(uuidBase)
    {
      if initialized {
        return AlreadyStarted;
      }
      if !enabled {
        return BluetoothInitFailed;
      }
      if baseUuid.Some? {
        var parsed := new ServiceUuid();
        var ok := parsed.FromFullUuid(baseUuid.value);
        if ok {
          uuidBase := parsed.uuid;
        }
      }
      available := true;
      initialized := true;
      return BleOk;
    }

    // ---------- the link ----------

    method Connect(startOk: bool) returns (ret: BleRet)
      modifies this`scanning
      ensures Link() == if initialized then L.Connect(old(Link()), startOk) else old(Link())
      ensures ret == if !initialized then NotStarted else if conn.Some? then AlreadyConnected
                     else if startOk && !old(scanning) then BleOk else ScanFailed
    {
      if !initialized {
        return NotStarted;
      }
      if conn.Some? {
        return AlreadyConnected;
      }
      if !startOk || scanning {
        return ScanFailed;
      }
      scanning := true;
      return BleOk;
    }

    /** The call of `connect` behind a handler's sleep. */
    method Reconnect(startOk: bool)
      requires initialized && naps > 0
      modifies this`scanning, this`naps
      ensures Link() == L.Wake(old(Link()), startOk)
    {
      naps := naps - 1;
      var _ := Connect(startOk);
    }

    method HandleBleDeviceFound(connectable: bool, sameAddress: bool, stopOk: bool, created: Option<nat>)
      requires initialized && scanning
      modifies `scanning, `conn, `refs, `phase, `naps
      ensures Link() == L.Next(old(Link()), L.DeviceFound(connectable && sameAddress, stopOk, created))
      ensures !(connectable && sameAddress) ==> Link() == old(Link())
      ensures connectable && sameAddress && stopOk ==>
                && !scanning
                && (created.Some? ==> conn == created && phase == L.Connecting && refs == old(refs) + 1)
                && (created.None? ==> conn == old(conn) && phase == old(phase) && naps == old(naps) + 1)
    {
      if !connectable {
        return;
      }
      if !sameAddress {
        return;
      }
      if !stopOk {
        return;
      }
      scanning := false;
      if created.None? {
        naps := naps + 1;
      } else {
        conn := created;
        refs := refs + 1;
        phase := L.Connecting;
      }
    }

    /** `mtuOk` and `discoverOk` are whether the client takes the requests. */
    method HandleConnectionResult(ok: bool, mtuOk: bool, discoverOk: bool)
      requires initialized && phase == L.Connecting
      modifies `conn, `refs, `phase, `available, `naps
      modifies `search, `searchUuid, `startHandle, `endHandle, `requested, `subValueHandle, `subCccHandle, `subscribed
      ensures Link() == L.Next(old(Link()), L.ConnectionResult(ok))
      ensures Disc() == if ok && mtuOk && conn.Some?
                        then D.Begin(old(Disc()), Some(uuidBase)).(pending := discoverOk) else old(Disc())
    {
      if !ok {
        refs := refs - 1;
        conn := None;
        phase := L.Down;
        naps := naps + 1;
        return;
      }
      phase := L.Up;
      available := false;
      if !mtuOk {
        return;
      }
      var _ := DiscoverServices(Some(uuidBase), discoverOk);
    }

    method HandleDisconnectionResult(c: nat, reason: L.Reason)
      requires initialized && L.Enabled(Link(), L.Disconnected(c, reason))
      modifies `conn, `refs, `phase, `available, `naps
      ensures Link() == L.Next(old(Link()), L.Disconnected(c, reason))
    {
      if conn != Some(c) {
        return;
      }
      refs := refs - 1;
      conn := None;
      phase := L.Down;
      available := true;
      if reason != L.RemoteUser && reason != L.LocalHost {
        naps := naps + 1;
      }
    }

    /** Only asks the controller to end the connection: `ending` is the one it is asked to end. */
    method Disconnect() returns (ret: BleRet, ending: Option<nat>)
      ensures ret == if !initialized then NotStarted else if conn.Some? then BleOk else NotConnected
      ensures ending == if initialized then conn else None
    {
      if !initialized {
        return NotStarted, None;
      }
      if conn.Some? {
        return BleOk, conn;
      }
      return NotConnected, None;
    }

    // ---------- discovery ----------

    method DiscoverServices(service: Option<Uuid>, discoverOk: bool) returns (ret: BleRet)
      modifies `search, `searchUuid, `startHandle, `endHandle, `requested, `subValueHandle, `subCccHandle, `subscribed
      ensures ret == if !initialized then NotStarted else if conn.None? then NotConnected
                     else if discoverOk then BleOk else DiscoveryFailed
      ensures Disc() == if initialized && conn.Some?
                        then D.Begin(old(Disc()), service).(pending := discoverOk) else old(Disc())
      ensures initialized && conn.Some? ==>
                && searchUuid == service && search == D.ForService && startHandle == 1 && endHandle == 255
                && requested == discoverOk && subValueHandle == 0 && subCccHandle == 0 && !subscribed
    {
      if !initialized {
        return NotStarted;
      }
      if conn.None? {
        return NotConnected;
      }
      subValueHandle, subCccHandle, subscribed := 0, 0, false;
      searchUuid := service;
      startHandle := D.FIRST_HANDLE;
      endHandle := D.LAST_HANDLE;
      search := D.ForService;
      requested := discoverOk;
      return if discoverOk then BleOk else DiscoveryFailed;
    }

    /** The discovery callback; `attr` is the NULL pointer once a request found nothing more. */
    method HandleDiscoveryResults(attr: Option<D.Attr>) returns (more: bool)
      requires D.IsBase(uuidBase) && !requested
      requires attr.Some? ==> D.Kind(search, attr.value.decl)
      modifies `search, `searchUuid, `startHandle, `endHandle, `requested, `nextHandle, `sessionDataHandle,
               `controlHandle, `resultHandle, `subValueHandle, `subCccHandle, `subscribed
      ensures match attr
              case None => Disc() == D.OnEnd(old(Disc())) && more == (old(search) != D.ForDescriptor)
              case Some(a) => (Disc(), more) == D.OnAttr(old(Disc()), uuidBase, a)
    {
      if search == D.ForService {
        if attr.None? {
          searchUuid := None;
          search := D.ForCharacteristics;
          startHandle := nextHandle;
          requested := true;
        } else if SameUuid(attr.value.decl.uuid, uuidBase) {
          nextHandle := attr.value.handle + 1;
        }
      } else if search == D.ForCharacteristics {
        if attr.None? {
          searchUuid := Some(Uuid16(D.CCC_UUID));
          search := D.ForDescriptor;
          startHandle := nextHandle;
          endHandle := nextHandle + 1;
          requested := true;
        } else {
          var chrc := attr.value.decl;
          if SameUuid(chrc.uuid, Derive(uuidBase, D.SESSION_DATA_UUID)) {
            sessionDataHandle := chrc.valueHandle;
          }
          if SameUuid(chrc.uuid, Derive(uuidBase, D.CONTROL_UUID)) {
            controlHandle := chrc.valueHandle;
          }
          if SameUuid(chrc.uuid, Derive(uuidBase, D.RESULT_UUID)) {
            resultHandle := chrc.valueHandle;
            nextHandle := attr.value.handle + 1;
            subValueHandle := chrc.valueHandle;
          }
        }
      } else {
        if attr.Some? {
          subCccHandle := attr.value.handle;
          subscribed := true;
        }
        return false;
      }
      return true;
    }

    // ---------- data from the peripheral ----------

    /** Hand the content of the buffer to the packet handler and empty the buffer. */
    method SubmitBuffer(running: bool)
      requires Valid() && (pktHandler != null ==> pktHandler.Valid())
      modifies this`bufCtr, Handlers()`inbox
      ensures Valid() && Rx() == old(Rx()).(ctr := 0)
      ensures pktHandler != null ==>
                pktHandler.Valid() && Submitted(old(pktHandler.inbox), old(R.Stored(Rx())), running)
      ensures pktHandler != null && pktHandler.initialized && running && !Full(old(pktHandler.inbox)) ==>
                var before, after := old(Backlog(pktHandler.inbox)), Backlog(pktHandler.inbox);
                && |after| == |before| + 1 && after[..|before|] == before
                && var d := after[|before|];
                   && d.kind == Outgoing && d.srcId == srcId && d.destId == destId && d.resultCode == 0
                   && ValidBuffer(d.msg) && Content(d.msg) == old(R.Stored(Rx()))
    {
      var data := PacketData(Outgoing, destId, srcId, 0, Pack(buf[..bufCtr]));
      if pktHandler != null {
        PutBacklog(pktHandler.inbox, data);
        var _ := pktHandler.HandlePacket(data, running);
      }
      bufCtr := 0;
    }

    /** The packet was offered to the packet handler, if that runs. */
    ghost predicate Submitted(before: MsgQueue<PacketData>, content: seq<byte>, running: bool)
      requires pktHandler != null && |content| <= PACKET_BUF_SIZE && ValidQueue(before)
      reads pktHandler
    {
      pktHandler.inbox ==
      if pktHandler.initialized && running
      then Put(before, PacketData(Outgoing, destId, srcId, 0, Pack(content))) else before
    }

    /** `ending` is the connection the controller is asked to end, once a message is complete. */
    method HandleNotifications(hasConn: bool, data: Option<seq<byte>>, running: bool)
      returns (more: bool, ending: Option<nat>)
      requires Valid() && (pktHandler != null ==> pktHandler.Valid())
      requires data.Some? ==> |data.value| >= 1
      modifies this`bufCtr, buf, Handlers()`inbox
      ensures Valid()
      ensures !hasConn || data.None? ==> !more && Rx() == old(Rx()) && ending == None
      ensures hasConn && data.Some? ==>
                var s := R.Notify(old(Rx()), data.value);
                && Rx() == s.rx && more == s.more
                && ending == (if s.packet.Some? && initialized then conn else None)
                && (pktHandler != null && s.packet.Some? ==>
                      Submitted(old(pktHandler.inbox), s.packet.value, running))
      ensures pktHandler != null && pktHandler.initialized && running && !Full(old(pktHandler.inbox))
              && hasConn && data.Some? && R.Notify(old(Rx()), data.value).packet.Some? ==>
                var before, after := old(Backlog(pktHandler.inbox)), Backlog(pktHandler.inbox);
                && |after| == |before| + 1 && after[..|before|] == before
                && var d := after[|before|];
                   && d.kind == Outgoing && d.srcId == srcId && d.destId == destId && d.resultCode == 0
                   && ValidBuffer(d.msg) && Content(d.msg) == R.Notify(old(Rx()), data.value).packet.value
      ensures pktHandler != null ==> pktHandler.Valid()
      ensures pktHandler != null && (!hasConn || data.None? || R.Notify(old(Rx()), data.value).packet.None?) ==>
                pktHandler.inbox == old(pktHandler.inbox)
    {
      if !hasConn || data.None? {
        return false, None;
      }
      var part := data.value;
      var counter := part[0];
      if bufCtr + |part| - 1 > PACKET_BUF_SIZE {
        return false, None;
      }
      ghost var was := buf[..];
      forall i | 0 <= i < |part| - 1 {
        buf[bufCtr + i] := part[1 + i];
      }
      assert buf[..] == Patch(was, bufCtr, part[1..]);
      bufCtr := bufCtr + |part| - 1;
      if counter == 0xFF {
        SubmitBuffer(running);
        var _, asked := Disconnect();
        return false, asked;
      }
      return true, None;
    }

    /** `read`: buffer and offset start over. */
    method Read(handle: nat, readOk: bool) returns (ret: BleRet, request: Option<GattRead>)
      requires Valid()
      modifies this`bufCtr, this`readOffset
      ensures Valid()
      ensures ret == if !initialized then NotStarted else if conn.None? then NotConnected
                     else if readOk then BleOk else ReadFailed
      ensures Rx() == if ret == BleOk || ret == ReadFailed then R.StartRead(old(Rx())) else old(Rx())
      ensures request == if ret == BleOk then Some(GattRead(handle, 0)) else None
    {
      if !initialized {
        return NotStarted, None;
      }
      if conn.None? {
        return NotConnected, None;
      }
      bufCtr := 0;
      readOffset := 0;
      if !readOk {
        return ReadFailed, None;
      }
      return BleOk, Some(GattRead(handle, readOffset));
    }

    /** `write`: the data is copied to the shared buffer, and the client takes it from there. */
    method Write(handle: nat, data: seq<byte>, mtu: nat, writeOk: bool)
      returns (ret: BleRet, request: Option<GattWrite>)
      requires Valid() && |data| <= PACKET_BUF_SIZE
      modifies buf
      ensures Valid()
      ensures ret == if !initialized then NotStarted else if conn.None? then NotConnected
                     else if mtu <= 3 then IncorrectMtu
                     else if writeOk then BleOk else WriteFailed
      ensures Rx() == if ret == BleOk || ret == WriteFailed then R.Overlay(old(Rx()), data) else old(Rx())
      ensures ret == BleOk || ret == WriteFailed ==> buf[..|data|] == data && buf[|data|..] == old(buf[|data|..])
      ensures request == if ret == BleOk then Some(GattWrite(handle, 0, data)) else None
    {
      if !initialized {
        return NotStarted, None;
      }
      if conn.None? {
        return NotConnected, None;
      }
      if mtu <= GATT_WRITE_OVERHEAD {
        return IncorrectMtu, None;
      }
      ghost var was := buf[..];
      forall i | 0 <= i < |data| {
        buf[i] := data[i];
      }
      assert buf[..] == Patch(was, 0, data);
      if !writeOk {
        return WriteFailed, None;
      }
      return BleOk, Some(GattWrite(handle, 0, buf[..|data|]));
    }

    /** The transmit callback: without a connection the message is the address to connect to;
        with one it is written to the control handle, if that is known. */
    method SendBleMessage(msg: Buffer, startOk: bool, mtu: nat, writeOk: bool) returns (request: Option<GattWrite>)
      requires Valid() && initialized && ValidBuffer(msg)
      modifies this`scanning, buf
      ensures Valid()
      ensures Link() == if old(conn).None? then L.Connect(old(Link()), startOk) else old(Link())
      ensures Rx() == if old(conn).Some? && controlHandle != 0 && mtu > 3
                      then R.Overlay(old(Rx()), Content(msg)) else old(Rx())
      ensures request == if old(conn).Some? && controlHandle != 0 && mtu > 3 && writeOk
                         then Some(GattWrite(controlHandle, 0, Content(msg))) else None
    {
      request := None;
      if conn.None? {
        var _ := Connect(startOk);
      } else if controlHandle != 0 {
        var _, asked := Write(controlHandle, msg.buf[..msg.len], mtu, writeOk);
        request := asked;
      }
    }

    method HandleReadResult(err: bool, data: Option<seq<byte>>, running: bool) returns (more: bool)
      requires Valid() && (pktHandler != null ==> pktHandler.Valid())
      modifies this`bufCtr, buf, Handlers()`inbox
      ensures var s := R.ReadResult(old(Rx()), err, data);
              && Rx() == s.rx && more == s.more
              && (pktHandler != null ==>
                    && pktHandler.Valid()
                    && if s.packet.Some? then Submitted(old(pktHandler.inbox), s.packet.value, running)
                       else pktHandler.inbox == old(pktHandler.inbox))
      ensures pktHandler != null && pktHandler.initialized && running && !Full(old(pktHandler.inbox))
              && R.ReadResult(old(Rx()), err, data).packet.Some? ==>
                var before, after := old(Backlog(pktHandler.inbox)), Backlog(pktHandler.inbox);
                && |after| == |before| + 1 && after[..|before|] == before
                && var d := after[|before|];
                   && d.kind == Outgoing && d.srcId == srcId && d.destId == destId && d.resultCode == 0
                   && ValidBuffer(d.msg) && Content(d.msg) == R.ReadResult(old(Rx()), err, data).packet.value
    {
      if data.None? {
        SubmitBuffer(running);
        return false;
      }
      if err {
        return false;
      }
      var part := data.value;
      if readOffset + |part| > PACKET_BUF_SIZE {
        return false;
      }
      ghost var was := buf[..];
      forall i | 0 <= i < |part| {
        buf[readOffset + i] := part[i];
      }
      assert buf[..] == Patch(was, readOffset, part);
      bufCtr := bufCtr + |part|;
      return true;
    }
  }
}
