/** The three-phase GATT discovery: primary service, characteristics, configuration descriptor.
    The GATT client delivers the matching attributes in handle order and then no attribute;
    a callback may issue the next request. */
module BleDiscovery {
  import opened Bytes
  import opened ServiceUuids

  datatype Decl =
    | Primary(uuid: Uuid)
    | Characteristic(uuid: Uuid, valueHandle: nat)
    | Other(uuid: Uuid)

  datatype Attr = Attr(handle: nat, decl: Decl)

  datatype Search = ForService | ForCharacteristics | ForDescriptor

  /** The discovery and subscribe parameters, and the handles found. `pending`: a request is
      with the GATT client. */
  datatype Disc = Disc(search: Search, uuid: Option<Uuid>, start: nat, end: nat, pending: bool, next: nat,
                       session: nat, control: nat, result: nat,
                       subValue: nat, subCcc: nat, subscribed: bool)

  const SESSION_DATA_UUID: uint16 := 0xE
  const CONTROL_UUID: uint16 := 0xC
  const RESULT_UUID: uint16 := 0xD
  const CCC_UUID: uint16 := 0x2902
  const FIRST_HANDLE := 1
  const LAST_HANDLE := 0xFF

  predicate IsBase(base: Uuid) {
    base.Uuid128? && ValidUuid(base)
  }

  predicate Kind(search: Search, decl: Decl) {
    match search
    case ForService => decl.Primary?
    case ForCharacteristics => decl.Characteristic?
    case ForDescriptor => decl.Other?
  }

  /** `discoverServices`: a new search from the first handle, for the service with this id or for
      all of them, subscription parameters cleared. */
  function Begin(d: Disc, service: Option<Uuid>): Disc {
    d.(search := ForService, uuid := service, start := FIRST_HANDLE, end := LAST_HANDLE, pending := true,
       subValue := 0, subCcc := 0, subscribed := false)
  }

  /** The callback on an attribute. The flag is whether it wants more. */
  function OnAttr(d: Disc, base: Uuid, a: Attr): (Disc, bool)
    requires IsBase(base) && Kind(d.search, a.decl)
  {
    match d.search
    case ForService =>
      (if SameUuid(a.decl.uuid, base) then d.(next := a.handle + 1) else d, true)
    case ForCharacteristics =>
      var d1 := if SameUuid(a.decl.uuid, Derive(base, SESSION_DATA_UUID))
                then d.(session := a.decl.valueHandle) else d;
      var d2 := if SameUuid(a.decl.uuid, Derive(base, CONTROL_UUID))
                then d1.(control := a.decl.valueHandle) else d1;
      (if SameUuid(a.decl.uuid, Derive(base, RESULT_UUID))
       then d2.(result := a.decl.valueHandle, next := a.handle + 1, subValue := a.decl.valueHandle) else d2, true)
    case ForDescriptor =>
      (d.(subCcc := a.handle, subscribed := true), false)
  }

  /** The callback when the request found nothing more: the next phase begins. */
  function OnEnd(d: Disc): Disc {
    match d.search
    case ForService =>
      d.(uuid := None, search := ForCharacteristics, start := d.next, pending := true)
    case ForCharacteristics =>
      d.(uuid := Some(Uuid16(CCC_UUID)), search := ForDescriptor, start := d.next, end := d.next + 1, pending := true)
    case ForDescriptor => d
  }

  /** What one attribute changes: the service with the base id and the result characteristic (0xD)
      move the place where the next phase starts behind themselves; the characteristics 0xE, 0xC
      and 0xD leave their value handles; a descriptor is subscribed to and ends the search. */
  lemma AttrExactly(d: Disc, base: Uuid, a: Attr)
    requires IsBase(base) && Kind(d.search, a.decl)
    ensures var (r, more) := OnAttr(d, base, a);
            var chrc := if d.search == ForCharacteristics then Some(a.decl.valueHandle) else None;
            && more == (d.search != ForDescriptor)
            && r.search == d.search && r.uuid == d.uuid
            && r.start == d.start && r.end == d.end && r.pending == d.pending
            && r.session == (if chrc.Some? && SameUuid(a.decl.uuid, Derive(base, 0xE)) then chrc.value else d.session)
            && r.control == (if chrc.Some? && SameUuid(a.decl.uuid, Derive(base, 0xC)) then chrc.value else d.control)
            && r.result == (if chrc.Some? && SameUuid(a.decl.uuid, Derive(base, 0xD)) then chrc.value else d.result)
            && r.subValue == (if chrc.Some? && SameUuid(a.decl.uuid, Derive(base, 0xD)) then chrc.value else d.subValue)
            && r.next == (if (chrc.Some? && SameUuid(a.decl.uuid, Derive(base, 0xD)))
                             || (d.search == ForService && SameUuid(a.decl.uuid, base)) then a.handle + 1 else d.next)
            && r.subCcc == (if d.search == ForDescriptor then a.handle else d.subCcc)
            && r.subscribed == (d.subscribed || d.search == ForDescriptor)
  {
    hide SameUuid, Derive;
  }

  /** What the end of a phase asks for: all characteristics from the noted place on, then the one
      descriptor 0x2902 at that place or right behind it, then nothing. */
  lemma EndExactly(d: Disc)
    ensures var r := OnEnd(d);
            && r.next == d.next && r.session == d.session && r.control == d.control && r.result == d.result
            && r.subValue == d.subValue && r.subCcc == d.subCcc && r.subscribed == d.subscribed
            && (d.search == ForDescriptor ==> r == d)
            && (d.search != ForDescriptor ==> r.pending && r.start == d.next)
            && (d.search == ForService ==> r.search == ForCharacteristics && r.uuid == None && r.end == d.end)
            && (d.search == ForCharacteristics ==>
                  r.search == ForDescriptor && r.uuid == Some(Uuid16(0x2902)) && r.end == d.next + 1)
  {
  }

  // ---------- the GATT client ----------

  predicate Wanted(d: Disc, a: Attr) {
    && d.start <= a.handle <= d.end && Kind(d.search, a.decl)
    && (d.uuid.Some? ==> SameUuid(a.decl.uuid, d.uuid.value))
  }

  function Matching(d: Disc, table: seq<Attr>): (r: seq<Attr>)
    ensures forall a :: a in r <==> a in table && Wanted(d, a)
    ensures forall i | 0 <= i < |r| :: Kind(d.search, r[i].decl)
  {
    if table == [] then []
    else (if Wanted(d, table[0]) then [table[0]] else []) + Matching(d, table[1..])
  }

  function PhasesLeft(d: Disc): nat {
    if !d.pending then 0 else match d.search case ForService => 3 case ForCharacteristics => 2 case ForDescriptor => 1
  }

  /** Answer one request: every match, then the end, unless the callback stopped it. */
  function Deliver(d: Disc, base: Uuid, found: seq<Attr>): (r: Disc)
    requires IsBase(base) && forall i | 0 <= i < |found| :: Kind(d.search, found[i].decl)
    requires !d.pending
    ensures PhasesLeft(r) < PhasesLeft(d.(pending := true))
    decreases |found|
  {
    if found == [] then OnEnd(d)
    else
      var (d1, more) := OnAttr(d, base, found[0]);
      if more then Deliver(d1, base, found[1..]) else d1
  }

  /** Requests are answered until the callbacks issue no further one. */
  function Walk(d: Disc, base: Uuid, table: seq<Attr>): (r: Disc)
    requires IsBase(base)
    ensures !r.pending
    decreases PhasesLeft(d)
  {
    if !d.pending then d
    else Walk(Deliver(d.(pending := false), base, Matching(d, table)), base, table)
  }

  // ---------- what a phase finds ----------

  /** The value handle of the last match, if there is one. */
  function LastValue(found: seq<Attr>, uuid: Uuid, default: nat): nat
    requires forall i | 0 <= i < |found| :: found[i].decl.Characteristic?
  {
    if found == [] then default
    else LastValue(found[1..], uuid, if SameUuid(found[0].decl.uuid, uuid) then found[0].decl.valueHandle else default)
  }

  /** The handle behind the last match, if there is one. */
  function BehindLast(found: seq<Attr>, uuid: Uuid, default: nat): nat {
    if found == [] then default
    else BehindLast(found[1..], uuid, if SameUuid(found[0].decl.uuid, uuid) then found[0].handle + 1 else default)
  }

  lemma {:induction false} ServicePhase(d: Disc, base: Uuid, found: seq<Attr>)
    requires IsBase(base) && !d.pending && d.search == ForService
    requires forall i | 0 <= i < |found| :: found[i].decl.Primary?
    ensures Deliver(d, base, found) == OnEnd(d.(next := BehindLast(found, base, d.next)))
    decreases |found|
  {
    if found != [] {
      ServicePhase(OnAttr(d, base, found[0]).0, base, found[1..]);
    }
  }

  lemma {:induction false} CharacteristicPhase(d: Disc, base: Uuid, found: seq<Attr>)
    requires IsBase(base) && !d.pending && d.search == ForCharacteristics
    requires forall i | 0 <= i < |found| :: found[i].decl.Characteristic?
    ensures Deliver(d, base, found) ==
            OnEnd(d.(session := LastValue(found, Derive(base, SESSION_DATA_UUID), d.session),
                     control := LastValue(found, Derive(base, CONTROL_UUID), d.control),
                     result := LastValue(found, Derive(base, RESULT_UUID), d.result),
                     subValue := LastValue(found, Derive(base, RESULT_UUID), d.subValue),
                     next := BehindLast(found, Derive(base, RESULT_UUID), d.next)))
    decreases |found|
  {
    if found != [] {
      CharacteristicPhase(OnAttr(d, base, found[0]).0, base, found[1..]);
    }
  }

  lemma {:induction false} OnlyMatch(found: seq<Attr>, uuid: Uuid, a: Attr, default: nat)
    requires SameUuid(a.decl.uuid, uuid)
    requires forall x | x in found && SameUuid(x.decl.uuid, uuid) :: x == a
    requires a in found || default == a.handle + 1
    ensures BehindLast(found, uuid, default) == a.handle + 1
    decreases |found|
  {
    if found != [] {
      assert found[0] in found;
      assert forall x | x in found[1..] :: x in found;
      OnlyMatch(found[1..], uuid, a, if SameUuid(found[0].decl.uuid, uuid) then a.handle + 1 else default);
    }
  }

  lemma {:induction false} OnlyValue(found: seq<Attr>, uuid: Uuid, a: Attr, default: nat)
    requires forall i | 0 <= i < |found| :: found[i].decl.Characteristic?
    requires a.decl.Characteristic? && SameUuid(a.decl.uuid, uuid)
    requires forall x | x in found && SameUuid(x.decl.uuid, uuid) :: x == a
    requires a in found || default == a.decl.valueHandle
    ensures LastValue(found, uuid, default) == a.decl.valueHandle
    decreases |found|
  {
    if found != [] {
      assert found[0] in found;
      assert forall x | x in found[1..] :: x in found;
      OnlyValue(found[1..], uuid, a, if SameUuid(found[0].decl.uuid, uuid) then a.decl.valueHandle else default);
    }
  }

  // ---------- the walk over a device's attribute table ----------

  /** Attributes in handle order, handles 1 to 255. */
  ghost predicate IsTable(table: seq<Attr>) {
    && (forall i | 0 <= i < |table| :: 1 <= table[i].handle <= 255)
    && (forall i, j | 0 <= i < j < |table| :: table[i].handle < table[j].handle)
  }

  /** `a` is the one characteristic with this id at or behind handle `from`. */
  ghost predicate IsCharacteristic(table: seq<Attr>, from: nat, uuid: Uuid, a: Attr) {
    && a in table && a.decl.Characteristic? && a.handle >= from && SameUuid(a.decl.uuid, uuid)
    && forall x | x in table && x.decl.Characteristic? && x.handle >= from && SameUuid(x.decl.uuid, uuid) :: x == a
  }

  /** A device as the firmware expects it: one base service, behind it the three
      characteristics (session data 0xE, control 0xC, result 0xD), and the result's value and
      configuration descriptor right behind the result's declaration. */
  ghost predicate IsDevice(table: seq<Attr>, base: Uuid, service: Attr, session: Attr, control: Attr, result: Attr,
                           ccc: Attr) {
    && IsTable(table) && IsBase(base)
    && service in table && service.decl.Primary? && SameUuid(service.decl.uuid, base)
    && (forall x | x in table && x.decl.Primary? && SameUuid(x.decl.uuid, base) :: x == service)
    && IsCharacteristic(table, service.handle + 1, Derive(base, 0xE), session)
    && IsCharacteristic(table, service.handle + 1, Derive(base, 0xC), control)
    && IsCharacteristic(table, service.handle + 1, Derive(base, 0xD), result)
    && result.decl.valueHandle == result.handle + 1
    && ccc in table && ccc.handle == result.handle + 2
    && ccc.decl.Other? && SameUuid(ccc.decl.uuid, Uuid16(0x2902))
    && (forall x | x in table && x.handle == result.handle + 1 ::
          !(x.decl.Other? && SameUuid(x.decl.uuid, Uuid16(0x2902))))
  }

  lemma OneHandleOneAttr(table: seq<Attr>, x: Attr, y: Attr)
    requires IsTable(table) && x in table && y in table && x.handle == y.handle
    ensures x == y
  {
    var i :| 0 <= i < |table| && table[i] == x;
    var j :| 0 <= j < |table| && table[j] == y;
    assert i == j;
  }

  lemma FirstPhase(d: Disc, table: seq<Attr>, base: Uuid, service: Attr, session: Attr, control: Attr, result: Attr,
                   ccc: Attr)
    returns (d1: Disc)
    requires IsDevice(table, base, service, session, control, result, ccc)
    ensures d1 == Begin(d, Some(base)).(uuid := None, search := ForCharacteristics, next := service.handle + 1,
                                              start := service.handle + 1)
    ensures Walk(Begin(d, Some(base)), base, table) == Walk(d1, base, table)
  {
    var b := Begin(d, Some(base));
    var found := Matching(b, table);
    ServicePhase(b.(pending := false), base, found);
    assert service in found;
    OnlyMatch(found, base, service, b.next);
    d1 := Deliver(b.(pending := false), base, found);
  }

  lemma SecondPhase(d1: Disc, table: seq<Attr>, base: Uuid, service: Attr, session: Attr, control: Attr, result: Attr,
                    ccc: Attr)
    returns (d2: Disc)
    requires IsDevice(table, base, service, session, control, result, ccc)
    requires d1.pending && d1.search == ForCharacteristics && d1.uuid == None
    requires d1.start == service.handle + 1 && d1.end == LAST_HANDLE
    ensures d2 == d1.(session := session.decl.valueHandle, control := control.decl.valueHandle,
                      result := result.handle + 1, subValue := result.handle + 1, next := result.handle + 1,
                      uuid := Some(Uuid16(CCC_UUID)), search := ForDescriptor,
                      start := result.handle + 1, end := result.handle + 2)
    ensures Walk(d1, base, table) == Walk(d2, base, table)
  {
    hide LastValue, BehindLast, SameUuid, Derive;
    var found := Matching(d1, table);
    CharacteristicPhase(d1.(pending := false), base, found);
    assert session in found && control in found && result in found;
    OnlyValue(found, Derive(base, SESSION_DATA_UUID), session, d1.session);
    OnlyValue(found, Derive(base, CONTROL_UUID), control, d1.control);
    OnlyValue(found, Derive(base, RESULT_UUID), result, d1.result);
    OnlyValue(found, Derive(base, RESULT_UUID), result, d1.subValue);
    OnlyMatch(found, Derive(base, RESULT_UUID), result, d1.next);
    d2 := Deliver(d1.(pending := false), base, found);
  }

  /** For every such device the walk ends with the three value handles recorded and the
      subscription bound to the result's value and to the descriptor right behind it. */
  lemma DiscoveryFindsAll(d: Disc, table: seq<Attr>, base: Uuid, service: Attr, session: Attr, control: Attr,
                          result: Attr, ccc: Attr)
    requires IsDevice(table, base, service, session, control, result, ccc)
    ensures var r := Walk(Begin(d, Some(base)), base, table);
            && !r.pending
            && r.session == session.decl.valueHandle
            && r.control == control.decl.valueHandle
            && r.result == result.handle + 1
            && r.subscribed && r.subValue == result.handle + 1 && r.subCcc == result.handle + 2
  {
    var d1 := FirstPhase(d, table, base, service, session, control, result, ccc);
    var d2 := SecondPhase(d1, table, base, service, session, control, result, ccc);
    var found := Matching(d2, table);
    assert ccc in found;
    assert found[0] in found;
    OneHandleOneAttr(table, found[0], ccc);
    assert Deliver(d2.(pending := false), base, found) == OnAttr(d2.(pending := false), base, found[0]).0;
  }
}
