/** The scan and connection flags of the BLE core and how the radio-stack
    events drive them (`ble_start_scan`, `ble_on_sync`, `ble_gap_event`).
    The calls into the host stack become the requests a step issues
    (`Request`); their return codes are inputs to the step. */
module BleFsm {
  import opened Common
  import opened BleFormat
  import opened BleRegistry

  /** `s_scanning` and `is_connecting`. */
  datatype Flags = Flags(scanning: bool, connecting: bool)

  /** A call the core makes into the host stack. */
  datatype Request =
    | GapDisc                 // ble_gap_disc: start discovery
    | GapDiscCancel           // ble_gap_disc_cancel: stop discovery
    | GapConnect(peer: Addr)  // ble_gap_connect with the 30-second timeout

  /** The fields of an advertisement the parser extracted. An absent field is
      the empty sequence: the source treats a NULL field and a zero length alike. */
  datatype AdvFields = AdvFields(name: seq<Byte>, mfgData: seq<Byte>)

  /** The radio-stack events the core handles. `fields` is None when the
      advertisement did not parse. */
  datatype GapEvent =
    | Disc(addr: Addr, rssi: Int8, fields: Option<AdvFields>)
    | Connect(status: int)
    | Disconnect(reason: int)
    | DiscComplete
    | OtherEvent

  /** The characters of a byte string. */
  function BytesToChars(b: seq<Byte>): (r: string)
    ensures |r| == |b| && forall i :: 0 <= i < |b| ==> r[i] as int == b[i]
  {
    seq(|b|, i requires 0 <= i < |b| => b[i] as char)
  }

  /** The C string held by a buffer: its bytes up to the first zero byte. */
  function UpToNul(b: seq<Byte>): (r: seq<Byte>)
    ensures r <= b && 0 !in r
    ensures |r| < |b| ==> b[|r|] == 0
    decreases |b|
  {
    if b == [] || b[0] == 0 then [] else [b[0]] + UpToNul(b[1..])
  }

  /** The name `ble_gap_event` passes to `upsert_device`: the advertised
      local name cut to NameMax - 1 bytes and read as a C string, or the
      address in display form when that is empty. */
  function DisplayName(fields: AdvFields, addr: Addr): (r: string)
  {
    var local := UpToNul(Prefix(fields.name, NameMax - 1));
    if local == [] then AddrToStr(addr) else BytesToChars(local)
  }

  /** The name passed on is never empty and always fits a slot; it is the
      advertised name when that has a usable first byte, and the address
      otherwise. */
  lemma DisplayNameSpec(fields: AdvFields, addr: Addr)
    ensures 0 < |DisplayName(fields, addr)| < NameMax
    ensures (fields.name == [] || fields.name[0] == 0) ==> DisplayName(fields, addr) == AddrToStr(addr)
    ensures fields.name != [] && fields.name[0] != 0 ==>
      DisplayName(fields, addr) == BytesToChars(UpToNul(Prefix(fields.name, NameMax - 1)))
  {
    var p := Prefix(fields.name, NameMax - 1);
    if fields.name != [] && fields.name[0] != 0 {
      assert p[0] == fields.name[0];
      assert UpToNul(p) != [];
    }
  }

  /** The result of a step: the new flags and the requests issued, in order. */
  datatype Step = Step(flags: Flags, requests: seq<Request>)

  const Idle := Flags(false, false)

  /** `ble_start_scan`: nothing when already scanning; otherwise discovery
      is requested, and the flag is raised only when the stack accepts
      (`discRc == 0`). There is no retry when it refuses. */
  function StartScan(f: Flags, discRc: int): Step
  {
    if f.scanning then Step(f, [])
    else Step(if discRc == 0 then f.(scanning := true) else f, [GapDisc])
  }

  /** `ble_on_sync`: once the stack has inferred the address type
      (`inferRc == 0`), discovery starts. */
  function OnSync(f: Flags, inferRc: int, discRc: int): Step
  {
    if inferRc != 0 then Step(f, []) else StartScan(f, discRc)
  }

  /** The connect flow of a discovery event whose advertisement parsed: a
      matching device found while no attempt is in flight cancels discovery and
      requests a connection; a refused request clears the attempt and calls
      `ble_start_scan` again. */
  function ConnectFlow(f: Flags, addr: Addr, mfg: seq<Byte>, connRc: int, discRc: int): Step
  {
    if f.connecting || !IsAppleDevice(mfg) then Step(f, [])
    else
      var pending := f.(connecting := true);
      if connRc == 0 then Step(pending, [GapDiscCancel, GapConnect(addr)])
      else
        var retry := StartScan(pending.(connecting := false), discRc);
        Step(retry.flags, [GapDiscCancel, GapConnect(addr)] + retry.requests)
  }

  /** `ble_gap_event` on the flags. `connRc` and `discRc` are the return codes
      of the `ble_gap_connect` and `ble_gap_disc` calls the step may make. */
  function OnGapEvent(f: Flags, ev: GapEvent, connRc: int, discRc: int): Step
  {
    match ev
    case Disc(addr, _, fields) =>
      if fields.None? then Step(f, []) else ConnectFlow(f, addr, fields.value.mfgData, connRc, discRc)
    case Connect(status) =>
      var f1 := f.(scanning := false);
      if status == 0 then Step(f1, []) else StartScan(f1.(connecting := false), discRc)
    case Disconnect(_) =>
      StartScan(f.(connecting := false, scanning := false), discRc)
    case DiscComplete =>
      var f1 := f.(scanning := false);
      if !f1.connecting then StartScan(f1, discRc) else Step(f1, [])
    case OtherEvent => Step(f, [])
  }

  predicate IsConnectRequest(r: Request) { r.GapConnect? }

  /** The number of connect requests among `rs`. */
  function ConnectCount(rs: seq<Request>): (n: nat)
    ensures n <= |rs|
    ensures n == 0 <==> forall i :: 0 <= i < |rs| ==> !IsConnectRequest(rs[i])
    decreases |rs|
  {
    if rs == [] then 0
    else ConnectCount(rs[..|rs| - 1]) + (if IsConnectRequest(rs[|rs| - 1]) then 1 else 0)
  }

  lemma {:induction false} ConnectCountAppend(a: seq<Request>, b: seq<Request>)
    ensures ConnectCount(a + b) == ConnectCount(a) + ConnectCount(b)
    decreases |b|
  {
    if b == [] {
      assert a + b == a;
    } else {
      assert (a + b)[..|a + b| - 1] == a + b[..|b| - 1];
      ConnectCountAppend(a, b[..|b| - 1]);
    }
  }

  // ---------------------------------------------------------------------
  // Properties

  /** `ble_start_scan` is idempotent: while scanning it does nothing, and a
      second call after an accepted one does nothing either. */
  lemma StartScanIdempotent(f: Flags, rc1: int, rc2: int)
    ensures f.scanning ==> StartScan(f, rc1) == Step(f, [])
    ensures !f.scanning ==> StartScan(f, rc1).requests == [GapDisc] &&
                            StartScan(f, rc1).flags.scanning == (rc1 == 0)
    ensures rc1 == 0 ==> StartScan(StartScan(f, rc1).flags, rc2).requests == []
    ensures StartScan(f, rc1).flags.connecting == f.connecting
  {
  }

  /** A step issues a connect request exactly when a parsed advertisement
      carries the Apple company identifier while no attempt is in flight; it
      then issues exactly one, preceded by the cancellation of discovery. */
  lemma ConnectIffMatch(f: Flags, ev: GapEvent, connRc: int, discRc: int)
    ensures var st := OnGapEvent(f, ev, connRc, discRc);
      ConnectCount(st.requests) > 0 <==>
        ev.Disc? && ev.fields.Some? && IsAppleDevice(ev.fields.value.mfgData) && !f.connecting
    ensures var st := OnGapEvent(f, ev, connRc, discRc);
      ConnectCount(st.requests) <= 1 &&
      (ConnectCount(st.requests) == 1 ==>
         st.requests[..2] == [GapDiscCancel, GapConnect(ev.addr)])
  {
    var st := OnGapEvent(f, ev, connRc, discRc);
    match ev
    case Disc(addr, _, fields) =>
      if fields.Some? && !f.connecting && IsAppleDevice(fields.value.mfgData) && connRc != 0 {
        var retry := StartScan(f, discRc);
        ConnectCountAppend([GapDiscCancel, GapConnect(addr)], retry.requests);
        assert ConnectCount([GapDiscCancel, GapConnect(addr)]) == 1 by {
          assert [GapDiscCancel, GapConnect(addr)][..1] == [GapDiscCancel];
        }
      } else if fields.Some? && !f.connecting && IsAppleDevice(fields.value.mfgData) {
        assert [GapDiscCancel, GapConnect(addr)][..1] == [GapDiscCancel];
      }
    case _ =>
  }

  /** An accepted connect request leaves an attempt in flight. */
  lemma AcceptedConnectInFlight(f: Flags, ev: GapEvent, connRc: int, discRc: int)
    requires ConnectCount(OnGapEvent(f, ev, connRc, discRc).requests) > 0
    requires connRc == 0
    ensures OnGapEvent(f, ev, connRc, discRc).flags.connecting
  {
    ConnectIffMatch(f, ev, connRc, discRc);
  }

  /** Two matching advertisements in a row, the first connect accepted: only
      one connect request is issued over both steps. */
  lemma TwoMatchesOneConnect(f: Flags, ev1: GapEvent, ev2: GapEvent, rc1: int, rc2: int, d1: int, d2: int)
    requires ev1.Disc? && ev2.Disc?
    requires rc1 == 0
    ensures var s1 := OnGapEvent(f, ev1, rc1, d1);
      var s2 := OnGapEvent(s1.flags, ev2, rc2, d2);
      ConnectCount(s1.requests + s2.requests) <= 1
  {
    var s1 := OnGapEvent(f, ev1, rc1, d1);
    var s2 := OnGapEvent(s1.flags, ev2, rc2, d2);
    ConnectIffMatch(f, ev1, rc1, d1);
    ConnectIffMatch(s1.flags, ev2, rc2, d2);
    if ConnectCount(s1.requests) > 0 {
      AcceptedConnectInFlight(f, ev1, rc1, d1);
    }
    ConnectCountAppend(s1.requests, s2.requests);
  }

  /** A refused connect request clears the attempt and retries the scan: after
      the cancel and the connect, `ble_start_scan` runs on the idle flags. When
      the scanning flag was clear, that retry requests discovery and scans
      exactly when it is accepted. */
  lemma RefusedConnectClears(f: Flags, ev: GapEvent, connRc: int, discRc: int)
    requires ConnectCount(OnGapEvent(f, ev, connRc, discRc).requests) > 0
    requires connRc != 0
    ensures var st := OnGapEvent(f, ev, connRc, discRc);
      ev.Disc? && !st.flags.connecting &&
      st.requests == [GapDiscCancel, GapConnect(ev.addr)] + StartScan(f, discRc).requests &&
      st.flags == StartScan(f, discRc).flags
    ensures var st := OnGapEvent(f, ev, connRc, discRc);
      !f.scanning ==>
        st.requests == [GapDiscCancel, GapConnect(ev.addr), GapDisc] && st.flags.scanning == (discRc == 0)
  {
    ConnectIffMatch(f, ev, connRc, discRc);
  }

  /** Discovery is not restarted after a refused connect request when the
      scanning flag was still set: the cancellation does not clear the flag,
      so the retry in `ble_start_scan` returns at once and only a later event
      can resume discovery. */
  lemma RefusedConnectWhileScanningStalls(f: Flags, addr: Addr, rssi: Int8, fields: AdvFields, connRc: int, discRc: int)
    requires f.scanning && !f.connecting && IsAppleDevice(fields.mfgData)
    requires connRc != 0
    ensures OnGapEvent(f, Disc(addr, rssi, Some(fields)), connRc, discRc) ==
            Step(f, [GapDiscCancel, GapConnect(addr)])
  {
  }

  /** Every disconnect ends with no attempt in flight and discovery
      requested; the scanning flag is set exactly when the stack accepts. */
  lemma DisconnectResumes(f: Flags, reason: int, connRc: int, discRc: int)
    ensures var st := OnGapEvent(f, Disconnect(reason), connRc, discRc);
      !st.flags.connecting && st.flags.scanning == (discRc == 0) && st.requests == [GapDisc]
  {
  }

  /** A scan-complete event restarts discovery exactly when no attempt is in
      flight, and leaves the attempt flag alone. */
  lemma DiscCompleteRestartsIffIdle(f: Flags, connRc: int, discRc: int)
    ensures var st := OnGapEvent(f, DiscComplete, connRc, discRc);
      st.flags.connecting == f.connecting &&
      (st.requests == [GapDisc] <==> !f.connecting) &&
      (f.connecting ==> st.requests == [] && !st.flags.scanning)
  {
  }

  /** A connect result clears the scanning flag; a failure also clears the
      attempt and requests discovery again. */
  lemma ConnectResult(f: Flags, status: int, connRc: int, discRc: int)
    ensures var st := OnGapEvent(f, Connect(status), connRc, discRc);
      (status == 0 ==> st == Step(Flags(false, f.connecting), [])) &&
      (status != 0 ==> !st.flags.connecting && st.requests == [GapDisc] &&
                       st.flags.scanning == (discRc == 0))
  {
  }

  /** An advertisement that does not parse, and any event the core does not
      handle, changes nothing. */
  lemma IgnoredEvents(f: Flags, addr: Addr, rssi: Int8, connRc: int, discRc: int)
    ensures OnGapEvent(f, Disc(addr, rssi, None), connRc, discRc) == Step(f, [])
    ensures OnGapEvent(f, OtherEvent, connRc, discRc) == Step(f, [])
  {
  }

  /** An accepted connect request while discovery is running leaves both
      flags set: cancelling discovery does not clear the scanning flag. */
  lemma BothFlagsAfterConnectDuringScan(addr: Addr, rssi: Int8, fields: AdvFields, discRc: int)
    requires IsAppleDevice(fields.mfgData)
    ensures OnGapEvent(Flags(true, false), Disc(addr, rssi, Some(fields)), 0, discRc).flags == Flags(true, true)
  {
  }

  /** Every slot the discovery handler claims raises the dirty flag: the
      claimed slot is blank and the name passed in is never empty. */
  lemma DiscoveryClaimIsDirty(s: seq<Device>, addr: Addr, fields: AdvFields, rssi: Int8)
    requires RegistryOk(s) && UpsertClaims(s, addr)
    ensures UpsertChanges(s, addr, Some(DisplayName(fields, addr)), rssi)
  {
    DisplayNameSpec(fields, addr);
    var name := DisplayName(fields, addr);
    var j := TargetSlot(s, addr);
    assert j == FirstFree(s) && 0 <= j < |s|;
    assert SlotOk(s[j]);
    assert s[j].name == "";
    assert Prefix(name, NameMax)[0] == name[0];
  }

  /** A known device whose stored name differs from its address form loses
      that name to the address form when it advertises without a name: the
      handler substitutes `addr_to_str` for the missing name, and that
      non-empty, different name passes the replacement test. Dirty is set. */
  lemma NamelessAdvReplacesName(s: seq<Device>, addr: Addr, fields: AdvFields, rssi: Int8)
    requires RegistryOk(s)
    requires FindIndex(s, addr) >= 0
    requires fields.name == []
    requires s[FindIndex(s, addr)].name != AddrToStr(addr)
    ensures DisplayName(fields, addr) == AddrToStr(addr)
    ensures Upsert(s, addr, Some(DisplayName(fields, addr)), rssi)[FindIndex(s, addr)].name == AddrToStr(addr)
    ensures UpsertChanges(s, addr, Some(DisplayName(fields, addr)), rssi)
  {
    DisplayNameSpec(fields, addr);
    var name := AddrToStr(addr);
    var i := FindIndex(s, addr);
    assert SlotOk(s[i]);
    assert Prefix(name, NameMax - 1) == name;
    assert Prefix(name, NameMax) == name && Prefix(s[i].name, NameMax) == s[i].name;
    UpsertName(s, addr, Some(name), rssi);
  }

  // ---------------------------------------------------------------------
  // Runs of events

  /** One event with the return codes of the calls the step may make. */
  datatype Input = Input(ev: GapEvent, connRc: int, discRc: int)

  /** The flags after a run of events, and every request issued, in order. */
  function Run(f: Flags, ins: seq<Input>): Step
    decreases |ins|
  {
    if ins == [] then Step(f, [])
    else
      var r := Run(f, ins[..|ins| - 1]);
      var x := ins[|ins| - 1];
      var st := OnGapEvent(r.flags, x.ev, x.connRc, x.discRc);
      Step(st.flags, r.requests + st.requests)
  }

  /** The events that end a connection attempt: a failed connect and a disconnect. */
  predicate Releases(ev: GapEvent)
  {
    ev.Disconnect? || (ev.Connect? && ev.status != 0)
  }

  /** While an attempt is in flight, every event but a release keeps it in
      flight and requests no further connection. */
  lemma InFlightStep(f: Flags, ev: GapEvent, connRc: int, discRc: int)
    requires f.connecting && !Releases(ev)
    ensures OnGapEvent(f, ev, connRc, discRc).flags.connecting
    ensures ConnectCount(OnGapEvent(f, ev, connRc, discRc).requests) == 0
  {
    ConnectIffMatch(f, ev, connRc, discRc);
  }

  /** At most one connection attempt is in flight: once one is, no run of
      events without a release requests another, and it stays in flight. */
  lemma {:induction false} InFlightBlocksConnects(f: Flags, ins: seq<Input>)
    requires f.connecting
    requires forall i :: 0 <= i < |ins| ==> !Releases(ins[i].ev)
    ensures Run(f, ins).flags.connecting
    ensures ConnectCount(Run(f, ins).requests) == 0
    decreases |ins|
  {
    if ins != [] {
      var pre := ins[..|ins| - 1];
      var x := ins[|ins| - 1];
      assert forall i :: 0 <= i < |pre| ==> pre[i] == ins[i];
      InFlightBlocksConnects(f, pre);
      var r := Run(f, pre);
      InFlightStep(r.flags, x.ev, x.connRc, x.discRc);
      ConnectCountAppend(r.requests, OnGapEvent(r.flags, x.ev, x.connRc, x.discRc).requests);
    }
  }

  /** From start-up, a synchronised stack that accepts discovery scans. */
  lemma SyncStartsScan(discRc: int)
    ensures OnSync(Idle, 0, discRc) == Step(Flags(discRc == 0, false), [GapDisc])
  {
  }
}
