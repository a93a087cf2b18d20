/** The BLE link as a step machine: scanning, connecting, the connection reference and the
    availability event, driven by the application, the controller and handlers that sleep
    before they reconnect. */
module BleLink {
  import opened Bytes

  datatype Phase = Down | Connecting | Up

  /** `conn` is the stored connection pointer, `refs` the references held on it, `naps` the
      handlers asleep before their call of `connect`; `phase` is the controller's side. */
  datatype Link = Link(conn: Option<nat>, refs: int, scanning: bool, phase: Phase, available: bool, naps: nat)

  datatype Reason = RemoteUser | LocalHost | OtherReason

  /** Outcomes of controller calls are part of the event. */
  datatype Event =
    | AppConnect(startOk: bool)
    | AppDisconnect
    | DeviceFound(wanted: bool, stopOk: bool, created: Option<nat>)
    | ConnectionResult(ok: bool)
    | Disconnected(conn: nat, reason: Reason)
    | WakeUp(startOk: bool)

  /** After `init`: available, nothing else. */
  const IDLE := Link(None, 0, false, Down, true, 0)

  /** `connect`: refused while a connection is stored, or when the scan does not start. */
  function Connect(l: Link, startOk: bool): Link {
    if l.conn.Some? then l
    else if !startOk || l.scanning then l
    else l.(scanning := true)
  }

  function Found(l: Link, wanted: bool, stopOk: bool, created: Option<nat>): Link {
    if !wanted || !stopOk then l
    else
      match created
      case Some(c) => l.(scanning := false, conn := Some(c), refs := l.refs + 1, phase := Connecting)
      case None => l.(scanning := false, naps := l.naps + 1)
  }

  function Result(l: Link, ok: bool): Link {
    if ok then l.(available := false, phase := Up)
    else l.(conn := None, refs := l.refs - 1, phase := Down, naps := l.naps + 1)
  }

  function Drop(l: Link, conn: nat, reason: Reason): Link {
    if l.conn != Some(conn) then l
    else
      l.(conn := None, refs := l.refs - 1, phase := Down, available := true,
         naps := if reason == OtherReason then l.naps + 1 else l.naps)
  }

  function Wake(l: Link, startOk: bool): Link
    requires l.naps > 0
  {
    Connect(l.(naps := l.naps - 1), startOk)
  }

  /** When the controller reports what: devices while scanning, a result while connecting, the
      loss of the established link or of a connection of someone else. */
  predicate Enabled(l: Link, e: Event) {
    match e
    case DeviceFound(_, _, _) => l.scanning
    case ConnectionResult(_) => l.phase == Connecting
    case Disconnected(c, _) => l.conn == Some(c) ==> l.phase == Up
    case WakeUp(_) => l.naps > 0
    case _ => true
  }

  /** `disconnect` only asks the controller; what follows is a later event. */
  function Next(l: Link, e: Event): Link
    requires Enabled(l, e)
  {
    match e
    case AppConnect(startOk) => Connect(l, startOk)
    case AppDisconnect => l
    case DeviceFound(wanted, stopOk, created) => Found(l, wanted, stopOk, created)
    case ConnectionResult(ok) => Result(l, ok)
    case Disconnected(c, reason) => Drop(l, c, reason)
    case WakeUp(startOk) => Wake(l, startOk)
  }

  predicate Possible(l: Link, es: seq<Event>)
    decreases |es|
  {
    es == [] || (Enabled(l, es[0]) && Possible(Next(l, es[0]), es[1..]))
  }

  function After(l: Link, es: seq<Event>): Link
    requires Possible(l, es)
    decreases |es|
  {
    if es == [] then l else After(Next(l, es[0]), es[1..])
  }

  /** Scanning only without a connection; one reference exactly while one is stored; the event
      is clear exactly while the link is established. */
  predicate Consistent(l: Link) {
    && (l.scanning ==> l.conn == None)
    && l.refs == (if l.conn.Some? then 1 else 0)
    && (l.conn.Some? <==> l.phase != Down)
    && (l.available <==> l.phase != Up)
  }

  lemma {:induction false} RunsStayConsistent(l: Link, es: seq<Event>)
    requires Consistent(l) && Possible(l, es)
    ensures Consistent(After(l, es))
    decreases |es|
  {
    if es != [] {
      RunsStayConsistent(Next(l, es[0]), es[1..]);
    }
  }

  /** Safety of the link in every state reachable after `init`, and a connection is never
      created while another is stored. */
  lemma LinkSafety(es: seq<Event>, e: Event)
    requires Possible(IDLE, es) && Enabled(After(IDLE, es), e)
    ensures Consistent(After(IDLE, es))
    ensures After(IDLE, es).conn == None ==> After(IDLE, es).available
    ensures e.DeviceFound? && Next(After(IDLE, es), e).conn.Some? ==>
              After(IDLE, es).conn == None && Next(After(IDLE, es), e).refs == 1
  {
    RunsStayConsistent(IDLE, es);
  }

  /** What a step can change and when it does, in every reachable state: a connection is stored
      exactly when a wanted device was found, the scan stopped and the connection created; it is
      given up exactly when establishing it failed or the controller reports it lost; a scan
      starts exactly when one is asked for, none is running, no connection is stored and the
      controller takes it, and ends exactly when it was stopped for a wanted device; the link is
      established by a good result only; a handler goes to sleep exactly after one of the three
      failures, and wakes once. */
  lemma LinkTransitions(es: seq<Event>, e: Event)
    requires Possible(IDLE, es) && Enabled(After(IDLE, es), e)
    ensures var l, r := After(IDLE, es), Next(After(IDLE, es), e);
            && (forall c: nat :: l.conn != Some(c) && r.conn == Some(c) <==> e == DeviceFound(true, true, Some(c)))
            && (l.conn.Some? && r.conn == None <==>
                  e == ConnectionResult(false) || (e.Disconnected? && l.conn == Some(e.conn)))
            && (!l.scanning && r.scanning <==>
                  !l.scanning && l.conn == None && (e == AppConnect(true) || e == WakeUp(true)))
            && (l.scanning && !r.scanning <==> e.DeviceFound? && e.wanted && e.stopOk)
            && (l.phase != Up && r.phase == Up <==> e == ConnectionResult(true))
            && (l.phase == Up && r.phase != Up <==> e.Disconnected? && l.conn == Some(e.conn))
            && r.naps - l.naps == (if e == DeviceFound(true, true, None) || e == ConnectionResult(false)
                                      || (e.Disconnected? && l.conn == Some(e.conn) && e.reason == OtherReason) then 1
                                   else if e.WakeUp? then -1 else 0)
  {
    RunsStayConsistent(IDLE, es);
  }

  /** What changes nothing at all: the report of another device or one the scan could not be
      stopped for, the loss of another connection, a refused request to scan, and the request to
      disconnect, which only the controller acts on. */
  lemma IgnoredEvents(l: Link, e: Event)
    requires Enabled(l, e)
    requires || (e.DeviceFound? && (!e.wanted || !e.stopOk))
             || (e.Disconnected? && l.conn != Some(e.conn))
             || e == AppConnect(false) || e == AppDisconnect
    ensures Next(l, e) == l
  {
  }

  lemma {:induction false} AfterSnoc(l: Link, es: seq<Event>, e: Event)
    requires Possible(l, es + [e])
    ensures Possible(l, es) && Enabled(After(l, es), e) && After(l, es + [e]) == Next(After(l, es), e)
    decreases |es|
  {
    var all := es + [e];
    if es == [] {
      assert all == [e] && all[1..] == [];
    } else {
      assert all[0] == es[0] && all[1..] == es[1..] + [e];
      AfterSnoc(Next(l, es[0]), es[1..], e);
    }
  }

  /** A connection that could not be created, was not established, or was lost. */
  predicate IsFailure(e: Event) {
    e == DeviceFound(true, true, None) || e == ConnectionResult(false) || (e.Disconnected? && e.reason == OtherReason)
  }

  /** In every run: a stored connection was created for a wanted device and is in no case another
      one; an established link had a good result; a running scan was asked for and taken. */
  lemma {:induction false} LinkHistory(es: seq<Event>)
    requires Possible(IDLE, es)
    ensures var l := After(IDLE, es);
            && (l.conn.Some? ==> DeviceFound(true, true, Some(l.conn.value)) in es)
            && (l.phase == Up ==> ConnectionResult(true) in es)
            && (l.scanning ==> AppConnect(true) in es || WakeUp(true) in es)
            && (l.naps > 0 ==> exists e :: e in es && IsFailure(e))
    decreases |es|
  {
    if es != [] {
      var init, e := es[..|es| - 1], es[|es| - 1];
      assert es == init + [e];
      AfterSnoc(IDLE, init, e);
      LinkHistory(init);
      LinkTransitions(init, e);
      var l := After(IDLE, es);
      if l.conn.Some? && After(IDLE, init).conn != l.conn {
        assert e == DeviceFound(true, true, Some(l.conn.value));
      }
      assert e in es;
      if After(IDLE, init).naps > 0 {
        var failure :| failure in init && IsFailure(failure);
        assert failure in es;
      }
      assert l.naps > 0 && After(IDLE, init).naps == 0 ==> IsFailure(e);
    }
  }

  // ---------- reconnecting ----------

  predicate NoAppConnect(es: seq<Event>) {
    forall k | 0 <= k < |es| :: !es[k].AppConnect?
  }

  lemma {:induction false} QuietStaysQuiet(l: Link, es: seq<Event>)
    requires l.conn == None && !l.scanning && l.naps == 0 && l.phase == Down
    requires Possible(l, es) && NoAppConnect(es)
    ensures After(l, es) == l
    decreases |es|
  {
    if es != [] {
      assert !es[0].AppConnect?;
      QuietStaysQuiet(l, es[1..]);
    }
  }

  ghost predicate CanScanByItself(l: Link) {
    exists es :: Possible(l, es) && NoAppConnect(es) && After(l, es).scanning
  }

  /** After a link was terminated by a user a scan starts again without the application exactly
      when some handler was still asleep from an earlier failure; a link lost for another
      reason is always retried. */
  lemma RescanIff(es: seq<Event>, c: nat, reason: Reason)
    requires Possible(IDLE, es) && After(IDLE, es).phase == Up && After(IDLE, es).conn == Some(c)
    ensures CanScanByItself(Next(After(IDLE, es), Disconnected(c, reason))) <==>
            reason == OtherReason || After(IDLE, es).naps > 0
  {
    RunsStayConsistent(IDLE, es);
    var l := Next(After(IDLE, es), Disconnected(c, reason));
    if l.naps == 0 {
      forall es2 | Possible(l, es2) && NoAppConnect(es2)
        ensures !After(l, es2).scanning
      {
        QuietStaysQuiet(l, es2);
      }
    } else {
      var wake := [WakeUp(true)];
      assert wake[1..] == [];
      assert After(l, wake) == After(Next(l, wake[0]), wake[1..]);
      assert Possible(l, wake) && NoAppConnect(wake) && After(l, wake).scanning;
    }
  }

  /** Such a sleeping handler is reachable: a connection that could not be created, then a
      second attempt by the application that succeeds and is closed by the user. */
  lemma UserTerminationMayRescan() returns (es: seq<Event>)
    ensures Possible(IDLE, es) && After(IDLE, es).phase == Up && After(IDLE, es).conn == Some(1)
    ensures CanScanByItself(Next(After(IDLE, es), Disconnected(1, LocalHost)))
  {
    var scan1 := IDLE.(scanning := true);
    var nap := IDLE.(naps := 1);
    var scan2 := nap.(scanning := true);
    var connecting := nap.(conn := Some(1), refs := 1, phase := Connecting);
    es := [];
    RunStep(connecting, ConnectionResult(true), es);
    es := [ConnectionResult(true)] + es;
    RunStep(scan2, DeviceFound(true, true, Some(1)), es);
    es := [DeviceFound(true, true, Some(1))] + es;
    RunStep(nap, AppConnect(true), es);
    es := [AppConnect(true)] + es;
    RunStep(scan1, DeviceFound(true, true, None), es);
    es := [DeviceFound(true, true, None)] + es;
    RunStep(IDLE, AppConnect(true), es);
    es := [AppConnect(true)] + es;
    RescanIff(es, 1, LocalHost);
  }

  /** No callback of the stack comes while an earlier one still sleeps. */
  predicate OneCallbackAtATime(l: Link, es: seq<Event>)
    requires Possible(l, es)
    decreases |es|
  {
    es == [] ||
    (&& (es[0].DeviceFound? || es[0].ConnectionResult? || es[0].Disconnected? ==> l.naps == 0)
     && OneCallbackAtATime(Next(l, es[0]), es[1..]))
  }

  lemma {:induction false} LastCallback(l: Link, es: seq<Event>, e: Event)
    requires Possible(l, es + [e]) && OneCallbackAtATime(l, es + [e]) && e.Disconnected?
    ensures Possible(l, es) && Enabled(After(l, es), e) && After(l, es).naps == 0
    decreases |es|
  {
    var all := es + [e];
    if es == [] {
      assert all == [e];
    } else {
      assert all[0] == es[0] && all[1..] == es[1..] + [e];
      LastCallback(Next(l, es[0]), es[1..], e);
    }
  }

  /** If the stack runs its callbacks one at a time, sleeps included, no such handler is left
      over: then a scan starts without the application exactly when the link was lost for
      another reason. */
  lemma SerialCallbacksRescanIff(es: seq<Event>, c: nat, reason: Reason)
    requires Possible(IDLE, es + [Disconnected(c, reason)])
    requires OneCallbackAtATime(IDLE, es + [Disconnected(c, reason)])
    requires Possible(IDLE, es) && After(IDLE, es).phase == Up && After(IDLE, es).conn == Some(c)
    ensures CanScanByItself(Next(After(IDLE, es), Disconnected(c, reason))) <==> reason == OtherReason
  {
    LastCallback(IDLE, es, Disconnected(c, reason));
    RescanIff(es, c, reason);
  }

  lemma RunStep(l: Link, e: Event, es: seq<Event>)
    requires Enabled(l, e) && Possible(Next(l, e), es)
    ensures Possible(l, [e] + es) && After(l, [e] + es) == After(Next(l, e), es)
  {
    assert ([e] + es)[1..] == es;
  }

  /** `disconnect` on a connection still being established (its documentation calls this a
      cancel) ends in an error result. That leaves one more handler asleep, and the call of
      `connect` behind its sleep starts a scan again, unless the controller refuses it. */
  lemma CancelIsRetried(es: seq<Event>)
    requires Possible(IDLE, es) && After(IDLE, es).phase == Connecting
    ensures var asked := Next(After(IDLE, es), AppDisconnect);
            && Enabled(asked, ConnectionResult(false))
            && var l := Next(asked, ConnectionResult(false));
               && l.conn == None && l.naps == After(IDLE, es).naps + 1
               && Enabled(l, WakeUp(true)) && Next(l, WakeUp(true)).scanning
               && CanScanByItself(l)
  {
    RunsStayConsistent(IDLE, es);
    var l := Next(Next(After(IDLE, es), AppDisconnect), ConnectionResult(false));
    RunStep(l, WakeUp(true), []);
    assert [WakeUp(true)] + [] == [WakeUp(true)];
    assert Possible(l, [WakeUp(true)]) && NoAppConnect([WakeUp(true)]);
  }
}
