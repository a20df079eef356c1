/** The BLE discovery and connection manager: the module-level state of
    the source (`s_devices`, `s_device_count`, `s_devices_dirty`,
    `s_scanning`, `is_connecting`) gathered in one object whose methods do
    what the source's functions do, each proved to follow the value-level
    definitions of modules BleRegistry, BleFsm and BleText. */
module Ble {
  import opened Common
  import opened BleFormat
  import opened BleRegistry
  import BleFsm
  import opened BleText

  class BleCore {
    /** `s_devices`: the fixed array of slots. */
    const devices: array<Device>
    /** `s_device_count`. */
    var count: int
    /** `s_devices_dirty`. */
    var dirty: bool
    /** `s_scanning`. */
    var scanning: bool
    /** `is_connecting`. */
    var connecting: bool

    /** The registry keeps its invariant and the counter matches the claimed slots. */
    ghost predicate Valid()
      reads this, devices
    {
      devices.Length == MaxDevices && RegistryOk(devices[..]) && count == UsedCount(devices[..])
    }

    ghost function Flags(): BleFsm.Flags
      reads this
    {
      BleFsm.Flags(scanning, connecting)
    }

    /** The zero-initialised statics at start-up. */
    constructor ()
      ensures Valid() && fresh(devices)
      ensures devices[..] == EmptyRegistry() && count == 0 && !dirty
      ensures Flags() == BleFsm.Idle
    {
      devices := new Device[MaxDevices](_ => Blank);
      count := 0;
      dirty := false;
      scanning := false;
      connecting := false;
      new;
      assert devices[..] == EmptyRegistry();
    }

    /** `find_device_index`: the first claimed slot holding `addr`, or -1. */
    method FindDeviceIndex(addr: Addr) returns (r: int)
      requires Valid()
      ensures r == FindIndex(devices[..], addr)
      ensures r == -1 <==> forall i :: 0 <= i < MaxDevices ==> !Matches(devices[i], addr)
      ensures r != -1 ==> 0 <= r < MaxDevices && devices[r].used && devices[r].addr == addr
    {
      var i := 0;
      while i < MaxDevices
        invariant 0 <= i <= MaxDevices
        invariant forall j :: 0 <= j < i ==> !Matches(devices[j], addr)
      {
        if devices[i].used && devices[i].addr == addr {
          assert FindFrom(devices[..], addr, 0) == i by {
            assert forall j :: 0 <= j < i ==> !Matches(devices[..][j], addr);
          }
          return i;
        }
        i := i + 1;
      }
      assert forall j :: 0 <= j < MaxDevices ==> !Matches(devices[..][j], addr);
      return -1;
    }

    /** `upsert_device`: refreshes the slot holding `addr`, or claims the
        first free slot for it, or drops the sighting when all are taken;
        raises the dirty flag when the name or RSSI changes. */
    method UpsertDevice(addr: Addr, name: Option<string>, rssi: Int8)
      requires Valid()
      modifies this`count, this`dirty, devices
      ensures Valid()
      ensures devices[..] == Upsert(old(devices[..]), addr, name, rssi)
      ensures count == old(count) + (if UpsertClaims(old(devices[..]), addr) then 1 else 0)
      ensures dirty == (old(dirty) || UpsertChanges(old(devices[..]), addr, name, rssi))
    {
      ghost var s := devices[..];
      UpsertKeepsInvariant(s, addr, name, rssi);
      var idx := FindDeviceIndex(addr);
      if idx < 0 {
        idx := ClaimFreeSlot(addr);
      }
      assert idx == TargetSlot(s, addr);

      if idx >= 0 {
        var changed := false;
        var d := devices[idx];
        if name.Some? && name.value != [] && Prefix(d.name, NameMax) != Prefix(name.value, NameMax) {
          devices[idx] := d.(name := Prefix(name.value, NameMax - 1));
          changed := true;
        }
        if devices[idx].rssi != rssi {
          devices[idx] := devices[idx].(rssi := rssi);
          changed := true;
        }
        if changed {
          dirty := true;
        }
        assert devices[..] == Upsert(s, addr, name, rssi);
      }
    }

    /** The claiming loop of `upsert_device`: the first unclaimed slot gets
        the address and the counter grows; -1 when every slot is claimed. */
    method ClaimFreeSlot(addr: Addr) returns (idx: int)
      requires devices.Length == MaxDevices
      modifies this`count, devices
      ensures idx == FirstFree(old(devices[..]))
      ensures idx < 0 ==> devices[..] == old(devices[..]) && count == old(count)
      ensures idx >= 0 ==>
        devices[..] == old(devices[..])[idx := old(devices[idx]).(used := true, addr := addr)] &&
        count == old(count) + 1
    {
      ghost var s := devices[..];
      var i := 0;
      while i < MaxDevices
        invariant 0 <= i <= MaxDevices
        invariant forall j :: 0 <= j < i ==> devices[j].used
        invariant devices[..] == s && count == old(count)
      {
        if !devices[i].used {
          devices[i] := devices[i].(used := true, addr := addr);
          count := count + 1;
          assert FreeFrom(s, 0) == i by {
            assert forall j :: 0 <= j < i ==> s[j].used;
          }
          return i;
        }
        i := i + 1;
      }
      assert forall j :: 0 <= j < MaxDevices ==> s[j].used;
      return -1;
    }

    /** `ble_devices_take_dirty`: reports whether anything changed since the
        last call and clears the flag. */
    method TakeDirty() returns (wasDirty: bool)
      modifies this`dirty
      ensures wasDirty == old(dirty) && !dirty
    {
      wasDirty := dirty;
      dirty := false;
    }

    /** `ble_start_scan` (and the public `ble_scan_start`). `discRc` is what
        `ble_gap_disc` returns if it is called. */
    method StartScan(discRc: int) returns (requests: seq<BleFsm.Request>)
      modifies this`scanning
      ensures BleFsm.Step(Flags(), requests) == BleFsm.StartScan(old(Flags()), discRc)
    {
      if scanning {
        return [];
      }
      requests := [BleFsm.GapDisc];
      if discRc == 0 {
        scanning := true;
      }
    }

    /** `ble_on_sync`: `inferRc` is what `ble_hs_id_infer_auto` returns. */
    method OnSync(inferRc: int, discRc: int) returns (requests: seq<BleFsm.Request>)
      modifies this`scanning
      ensures BleFsm.Step(Flags(), requests) == BleFsm.OnSync(old(Flags()), inferRc, discRc)
    {
      if inferRc != 0 {
        return [];
      }
      requests := StartScan(discRc);
    }

    /** The connect flow of a parsed discovery: a device that passes the
        manufacturer filter while no attempt is in flight stops discovery
        and is connected to; a refused connect clears the attempt and
        restarts scanning. */
    method ConnectFlow(addr: Addr, mfg: seq<Byte>, connRc: int, discRc: int) returns (requests: seq<BleFsm.Request>)
      modifies this`connecting, this`scanning
      ensures BleFsm.Step(Flags(), requests) == BleFsm.ConnectFlow(old(Flags()), addr, mfg, connRc, discRc)
    {
      var isApple := IsAppleDevice(mfg);
      requests := [];
      if !connecting && isApple {
        connecting := true;
        requests := [BleFsm.GapDiscCancel, BleFsm.GapConnect(addr)];
        if connRc != 0 {
          connecting := false;
          var more := StartScan(discRc);
          requests := requests + more;
        }
      }
    }

    /** `ble_gap_event`. A parsed discovery refreshes the registry under the
        name the advertisement gives (or the address in display form), then
        runs the connect flow; the other events drive the flags alone.
        `connRc` and `discRc` are what `ble_gap_connect` and `ble_gap_disc`
        return if they are called. */
    method OnGapEvent(ev: BleFsm.GapEvent, connRc: int, discRc: int) returns (requests: seq<BleFsm.Request>)
      requires Valid()
      modifies this, devices
      ensures Valid()
      ensures BleFsm.Step(Flags(), requests) == BleFsm.OnGapEvent(old(Flags()), ev, connRc, discRc)
      ensures ev.Disc? && ev.fields.Some? ==>
        var name := Some(BleFsm.DisplayName(ev.fields.value, ev.addr));
        devices[..] == Upsert(old(devices[..]), ev.addr, name, ev.rssi) &&
        dirty == (old(dirty) || UpsertChanges(old(devices[..]), ev.addr, name, ev.rssi))
      ensures !(ev.Disc? && ev.fields.Some?) ==> devices[..] == old(devices[..]) && dirty == old(dirty)
      ensures ev.Disc? && ev.fields.Some? && UpsertClaims(old(devices[..]), ev.addr) ==> dirty
    {
      match ev
      case Disc(addr, rssi, fields) =>
        if fields.None? {
          return [];
        }
        var name := BleFsm.DisplayName(fields.value, addr);
        if UpsertClaims(devices[..], addr) {
          BleFsm.DiscoveryClaimIsDirty(devices[..], addr, fields.value, rssi);
        }
        UpsertDevice(addr, Some(name), rssi);
        requests := ConnectFlow(addr, fields.value.mfgData, connRc, discRc);
      case Connect(status) =>
        scanning := false;
        requests := [];
        if status != 0 {
          connecting := false;
          requests := StartScan(discRc);
        }
      case Disconnect(_) =>
        connecting := false;
        scanning := false;
        requests := StartScan(discRc);
      case DiscComplete =>
        scanning := false;
        requests := [];
        if !connecting {
          requests := StartScan(discRc);
        }
      case OtherEvent =>
        requests := [];
    }

    /** `ble_get_devices_text`: writes the snapshot into `out`, cut to fit
        with its terminator, and touches nothing past the terminator; a NULL
        or empty buffer is left alone. */
    method GetDevicesText(out: array?<char>)
      requires Valid()
      modifies out
      ensures out != null && out.Length > 0 ==>
        Written(out[..], old(out[..]), DevicesText(devices[..], count))
    {
      if out == null || out.Length == 0 {
        return;
      }
      ghost var before := out[..];
      ghost var s := devices[..];
      if count == 0 {
        var _ := Snprintf(out, 0, ScanningText);
        WrittenFirst(out[..], before, ScanningText);
        return;
      }
      var header := Header(count);
      var pos := Snprintf(out, 0, header);
      WrittenFirst(out[..], before, header);
      assert header + Lines(s[..0]) == header;
      var i := 0;
      while i < MaxDevices && pos < out.Length - 1
        invariant 0 <= i <= MaxDevices
        invariant pos == |header + Lines(s[..i])|
        invariant Written(out[..], before, header + Lines(s[..i]))
        invariant devices[..] == s
      {
        ghost var text := header + Lines(s[..i]);
        LinesStep(header, s, i);
        if devices[i].used {
          pos := AppendLine(out, pos, DeviceLine(devices[i]), before, text);
        } else {
          assert text + DeviceLine(s[i]) == text;
        }
        i := i + 1;
      }
      LinesSplit(header, s, i);
      WrittenRest(out[..], before, header + Lines(s[..i]), Lines(s[i..]));
    }
  }

  /** One `snprintf` of a slot's line at the end of the text written so
      far, while that text still fits; returns the advanced `pos`. */
  method AppendLine(out: array<char>, pos: int, line: string, ghost before: seq<char>, ghost text: string)
    returns (next: int)
    requires Written(out[..], before, text) && pos == |text| && pos < out.Length - 1
    modifies out
    ensures next == |text + line|
    ensures Written(out[..], before, text + line)
  {
    ghost var mid := out[..];
    var n := Snprintf(out, pos, line);
    WrittenExtend(mid, out[..], before, text, line);
    next := pos + n;
  }

  /** The buffer holds `text` cut to leave room for the terminator, then the
      terminator, and beyond it what it held `before`. */
  ghost predicate Written(buf: seq<char>, before: seq<char>, text: string)
  {
    |buf| == |before| > 0 &&
    var t := Prefix(text, |buf| - 1);
    buf[..|t|] == t && buf[|t|] == NUL && buf[|t| + 1..] == before[|t| + 1..]
  }

  /** What `snprintf` at the start of the buffer leaves. */
  lemma WrittenFirst(after: seq<char>, before: seq<char>, text: string)
    requires SnprintfEffect(before, after, 0, text)
    ensures Written(after, before, text)
  {
  }

  lemma LinesStep(header: string, s: seq<Device>, i: nat)
    requires i < |s|
    ensures header + Lines(s[..i + 1]) == (header + Lines(s[..i])) + DeviceLine(s[i])
  {
    assert s[..i + 1][..i] == s[..i];
  }

  /** Once the loop stops, the cut text is the cut snapshot: either every
      slot was rendered, or the text already filled the buffer. */
  lemma WrittenRest(buf: seq<char>, before: seq<char>, part: string, rest: string)
    requires Written(buf, before, part)
    requires rest == [] || |part| >= |buf| - 1
    ensures Written(buf, before, part + rest)
  {
    if rest == [] {
      assert part + rest == part;
    } else {
      PrefixOfExtension(part, rest, |buf| - 1);
    }
  }

  /** The lines of all slots are those of the slots rendered so far followed
      by those of the rest. */
  lemma {:induction false} LinesSplit(header: string, s: seq<Device>, i: nat)
    requires i <= |s|
    ensures header + Lines(s) == (header + Lines(s[..i])) + Lines(s[i..])
    ensures i == |s| ==> Lines(s[i..]) == []
  {
    var pre, post := s[..i], s[i..];
    assert pre + post == s;
    LinesAppend(pre, post);
    assert Lines(s) == Lines(pre) + Lines(post);
    if i == |s| {
      assert post == [];
    }
  }

  /** Appending one `snprintf` at the end of a text that fit continues the
      cut text. */
  lemma WrittenExtend(mid: seq<char>, after: seq<char>, before: seq<char>, text: string, line: string)
    requires Written(mid, before, text) && |text| < |mid| - 1
    requires SnprintfEffect(mid, after, |text|, line)
    ensures Written(after, before, text + line)
  {
    var n := |mid| - 1;
    PrefixConcat(text, line, n);
    var t := Prefix(text + line, n);
    var k := |Prefix(line, n - |text|)|;
    assert t == text + Prefix(line, n - |text|);
    assert after[..|t|] == after[..|text|] + after[|text|..|text| + k];
    assert mid[|text| + k + 1..] == mid[|text| + 1..][k..];
  }

  /** mutate, take, take: the first take reports the change, the second does not. */
  method TakeTwice(core: BleCore, addr: Addr, rssi: Int8) returns (first: bool, second: bool)
    requires core.Valid()
    requires exists i :: 0 <= i < MaxDevices && Matches(core.devices[i], addr) && core.devices[i].rssi != rssi
    modifies core, core.devices
    ensures first && !second
  {
    UpsertKnown(core.devices[..], addr, None, rssi);
    core.UpsertDevice(addr, None, rssi);
    first := core.TakeDirty();
    second := core.TakeDirty();
  }
}
