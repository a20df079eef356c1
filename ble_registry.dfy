/** The device registry of the BLE core as values: eight slots that are
    claimed on first sighting of an address, refreshed on later sightings and
    never released. The imperative registry in module Ble is proved to
    follow these functions; the lemmas here state what the registry promises. */
module BleRegistry {
  import opened Common
  import opened BleFormat

  const MaxDevices := 8
  /** The size of a slot's name buffer, terminator included. */
  const NameMax := 32

  /** One slot of `s_devices`. */
  datatype Device = Device(used: bool, addr: seq<Byte>, name: string, rssi: Int8)

  /** A slot as the zero-initialised static array holds it before it is claimed. */
  const Blank := Device(false, [0, 0, 0, 0, 0, 0], "", 0)

  /** The slot holds the device with this address (the test of `find_device_index`). */
  predicate Matches(d: Device, addr: Addr)
  {
    d.used && d.addr == addr
  }

  /** The first slot at index `i` or later that holds `addr`, or -1. */
  function FindFrom(s: seq<Device>, addr: Addr, i: nat): (r: int)
    requires i <= |s|
    ensures r == -1 || (i <= r < |s| && Matches(s[r], addr))
    ensures forall j :: i <= j < |s| && (r == -1 || j < r) ==> !Matches(s[j], addr)
    decreases |s| - i
  {
    if i == |s| then -1
    else if Matches(s[i], addr) then i
    else FindFrom(s, addr, i + 1)
  }

  /** `find_device_index`: the first slot that holds `addr`, or -1. */
  function FindIndex(s: seq<Device>, addr: Addr): int
  {
    FindFrom(s, addr, 0)
  }

  /** The first unclaimed slot at index `i` or later, or -1. */
  function FreeFrom(s: seq<Device>, i: nat): (r: int)
    requires i <= |s|
    ensures r == -1 || (i <= r < |s| && !s[r].used)
    ensures forall j :: i <= j < |s| && (r == -1 || j < r) ==> s[j].used
    decreases |s| - i
  {
    if i == |s| then -1
    else if !s[i].used then i
    else FreeFrom(s, i + 1)
  }

  /** The first unclaimed slot, or -1 when all are in use. */
  function FirstFree(s: seq<Device>): int
  {
    FreeFrom(s, 0)
  }

  /** The number of claimed slots. */
  function UsedCount(s: seq<Device>): (n: nat)
    ensures n <= |s|
    decreases |s|
  {
    if s == [] then 0 else UsedCount(s[..|s| - 1]) + (if s[|s| - 1].used then 1 else 0)
  }

  /** No address is held by two claimed slots. */
  ghost predicate NoDuplicates(s: seq<Device>)
  {
    forall i, j :: 0 <= i < j < |s| && s[i].used && s[j].used ==> s[i].addr != s[j].addr
  }

  /** What every slot satisfies: a claimed slot holds a 6-byte address and a
      name that fits the buffer with its terminator; an unclaimed slot is
      still blank, because slots are never released. */
  ghost predicate SlotOk(d: Device)
  {
    |d.addr| == 6 && |d.name| < NameMax && (!d.used ==> d == Blank)
  }

  /** The registry invariant, without the counter (module Ble ties the counter to UsedCount). */
  ghost predicate RegistryOk(s: seq<Device>)
  {
    |s| == MaxDevices && (forall i :: 0 <= i < |s| ==> SlotOk(s[i])) && NoDuplicates(s)
  }

  /** `strncmp(stored, name, NameMax) != 0` together with the NULL and empty
      checks of `upsert_device`: the supplied name replaces the stored one.
      The source's second branch (a stored empty name and a non-empty supplied
      one) is covered by this test; see NameBranchSubsumed. */
  predicate NameReplaces(stored: string, name: Option<string>)
  {
    name.Some? && name.value != [] && Prefix(stored, NameMax) != Prefix(name.value, NameMax)
  }

  /** The second name branch of `upsert_device` never adds a case to the first. */
  lemma NameBranchSubsumed(stored: string, name: Option<string>)
    requires stored == [] && name.Some? && name.value != []
    ensures NameReplaces(stored, name)
  {
  }

  /** A claimed slot after one sighting: the name as `strlcpy` copies it into
      a buffer of NameMax bytes when it replaces the stored one, and the new RSSI. */
  function Refresh(d: Device, name: Option<string>, rssi: Int8): Device
  {
    d.(name := if NameReplaces(d.name, name) then Prefix(name.value, NameMax - 1) else d.name,
       rssi := rssi)
  }

  /** The `changed` flag of `upsert_device` for a sighting of slot `d`. */
  predicate RefreshChanges(d: Device, name: Option<string>, rssi: Int8)
  {
    NameReplaces(d.name, name) || d.rssi != rssi
  }

  /** The slot a sighting of `addr` lands in: the one holding it, else the
      first free one, else -1 (the sighting is dropped). */
  function TargetSlot(s: seq<Device>, addr: Addr): int
  {
    var i := FindIndex(s, addr);
    if i >= 0 then i else FirstFree(s)
  }

  /** The slot array after `upsert_device(addr, name, rssi)`. */
  function Upsert(s: seq<Device>, addr: Addr, name: Option<string>, rssi: Int8): seq<Device>
  {
    var j := TargetSlot(s, addr);
    if j < 0 then s else s[j := Refresh(s[j].(used := true, addr := addr), name, rssi)]
  }

  /** Whether `upsert_device(addr, name, rssi)` raises the dirty flag. */
  predicate UpsertChanges(s: seq<Device>, addr: Addr, name: Option<string>, rssi: Int8)
  {
    var j := TargetSlot(s, addr);
    0 <= j < |s| && RefreshChanges(s[j], name, rssi)
  }

  /** Whether `upsert_device(addr, name, rssi)` claims a new slot. */
  predicate UpsertClaims(s: seq<Device>, addr: Addr)
  {
    FindIndex(s, addr) < 0 && FirstFree(s) >= 0
  }

  // ---------------------------------------------------------------------
  // Counting claimed slots

  /** Replacing one slot changes the count by the change of that slot alone. */
  lemma {:induction false} UsedCountUpdate(s: seq<Device>, j: nat, d: Device)
    requires j < |s|
    ensures UsedCount(s[j := d]) ==
            UsedCount(s) - (if s[j].used then 1 else 0) + (if d.used then 1 else 0)
    decreases |s|
  {
    var t := s[j := d];
    if j < |s| - 1 {
      assert t[..|t| - 1] == s[..|s| - 1][j := d];
      UsedCountUpdate(s[..|s| - 1], j, d);
    } else {
      assert t[..|t| - 1] == s[..|s| - 1];
    }
  }

  /** There is a free slot exactly when fewer than all slots are claimed. */
  lemma {:induction false} FreeSlotIffNotFull(s: seq<Device>)
    ensures (FirstFree(s) >= 0) == (UsedCount(s) < |s|)
  {
    if FirstFree(s) < 0 {
      AllUsedCount(s);
    } else {
      var j := FirstFree(s);
      UsedCountUpdate(s, j, s[j].(used := true));
    }
  }

  lemma {:induction false} AllUsedCount(s: seq<Device>)
    requires forall j :: 0 <= j < |s| ==> s[j].used
    ensures UsedCount(s) == |s|
    decreases |s|
  {
    if s != [] {
      AllUsedCount(s[..|s| - 1]);
    }
  }

  // ---------------------------------------------------------------------
  // What an upsert does

  /** `find_device_index` returns -1 exactly when no claimed slot holds the
      address, and otherwise a claimed slot that holds it. */
  lemma FindIndexSpec(s: seq<Device>, addr: Addr)
    ensures FindIndex(s, addr) == -1 <==> forall i :: 0 <= i < |s| ==> !Matches(s[i], addr)
    ensures FindIndex(s, addr) != -1 ==>
              0 <= FindIndex(s, addr) < |s| && s[FindIndex(s, addr)].used &&
              s[FindIndex(s, addr)].addr == addr
  {
  }

  /** In a registry without duplicates the slot holding an address is unique. */
  lemma FindIndexUnique(s: seq<Device>, addr: Addr, i: int)
    requires NoDuplicates(s)
    requires 0 <= i < |s| && Matches(s[i], addr)
    ensures FindIndex(s, addr) == i
  {
  }

  /** An upsert keeps the registry invariant, claims at most one slot, and
      the number of claimed slots grows by one exactly when it claims. */
  lemma UpsertKeepsInvariant(s: seq<Device>, addr: Addr, name: Option<string>, rssi: Int8)
    requires RegistryOk(s)
    ensures RegistryOk(Upsert(s, addr, name, rssi))
    ensures UsedCount(Upsert(s, addr, name, rssi)) ==
            UsedCount(s) + (if UpsertClaims(s, addr) then 1 else 0)
    ensures UsedCount(Upsert(s, addr, name, rssi)) <= MaxDevices
  {
    var t := Upsert(s, addr, name, rssi);
    var j := TargetSlot(s, addr);
    if j >= 0 {
      var d := Refresh(s[j].(used := true, addr := addr), name, rssi);
      UsedCountUpdate(s, j, d);
      assert t == s[j := d];
      forall a, b | 0 <= a < b < |t| && t[a].used && t[b].used
        ensures t[a].addr != t[b].addr
      {
        if a == j {
          assert !Matches(s[b], addr);
        } else if b == j {
          assert !Matches(s[a], addr);
        }
      }
    }
  }

  /** Sighting a known address again refreshes its slot only: the count and
      every other slot are unchanged and the slot stores the new RSSI. */
  lemma UpsertKnown(s: seq<Device>, addr: Addr, name: Option<string>, rssi: Int8)
    requires RegistryOk(s)
    requires exists i :: 0 <= i < |s| && Matches(s[i], addr)
    ensures var t, i := Upsert(s, addr, name, rssi), FindIndex(s, addr);
      0 <= i < |t| && |t| == |s| && Matches(t[i], addr) && t[i].rssi == rssi &&
      UsedCount(t) == UsedCount(s) &&
      forall j :: 0 <= j < |s| && j != i ==> t[j] == s[j]
  {
    var i := FindIndex(s, addr);
    UsedCountUpdate(s, i, Refresh(s[i].(used := true, addr := addr), name, rssi));
  }

  /** A new address when all eight slots are taken is dropped: nothing
      changes and the dirty flag is not raised. */
  lemma UpsertWhenFull(s: seq<Device>, addr: Addr, name: Option<string>, rssi: Int8)
    requires UsedCount(s) == |s|
    requires forall i :: 0 <= i < |s| ==> !Matches(s[i], addr)
    ensures Upsert(s, addr, name, rssi) == s
    ensures !UpsertChanges(s, addr, name, rssi)
  {
    FreeSlotIffNotFull(s);
  }

  /** A new address with a free slot lands in the first free slot, which
      then holds the address. */
  lemma UpsertNew(s: seq<Device>, addr: Addr, name: Option<string>, rssi: Int8)
    requires RegistryOk(s)
    requires forall i :: 0 <= i < |s| ==> !Matches(s[i], addr)
    requires UsedCount(s) < |s|
    ensures var t, j := Upsert(s, addr, name, rssi), FirstFree(s);
      0 <= j < |s| && Matches(t[j], addr) && t[j].rssi == rssi &&
      (forall i :: 0 <= i < j ==> s[i].used) &&
      (forall i :: 0 <= i < |s| && i != j ==> t[i] == s[i])
  {
    FreeSlotIffNotFull(s);
  }

  /** The name rule: an absent or empty name never overwrites the stored
      one; a non-empty name that differs from the stored one replaces it,
      cut to NameMax - 1 bytes. */
  lemma UpsertName(s: seq<Device>, addr: Addr, name: Option<string>, rssi: Int8)
    requires RegistryOk(s)
    requires TargetSlot(s, addr) >= 0
    ensures var t, j := Upsert(s, addr, name, rssi), TargetSlot(s, addr);
      0 <= j < |s| &&
      ((name.None? || name.value == []) ==> t[j].name == s[j].name) &&
      ((name.Some? && name.value != [] && Prefix(name.value, NameMax - 1) != s[j].name) ==>
         t[j].name == Prefix(name.value, NameMax - 1)) &&
      |t[j].name| < NameMax
  {
    var j := TargetSlot(s, addr);
    assert Prefix(s[j].name, NameMax) == s[j].name;
  }

  /** The dirty flag is raised exactly when the slot's name or RSSI really
      changes, for every name of at most NameMax - 1 bytes (all names the
      discovery handler passes in). */
  lemma UpsertChangesIff(s: seq<Device>, addr: Addr, name: Option<string>, rssi: Int8)
    requires RegistryOk(s)
    requires name.Some? ==> |name.value| < NameMax
    ensures var t, j := Upsert(s, addr, name, rssi), TargetSlot(s, addr);
      UpsertChanges(s, addr, name, rssi) <==>
        0 <= j < |s| && (t[j].name != s[j].name || t[j].rssi != s[j].rssi)
  {
  }

  /** A freshly claimed blank slot sighted with no name and RSSI 0 does not
      raise the dirty flag, although the count grows. */
  lemma ClaimWithoutChange(s: seq<Device>, addr: Addr)
    requires RegistryOk(s)
    requires UpsertClaims(s, addr)
    ensures !UpsertChanges(s, addr, None, 0)
    ensures UsedCount(Upsert(s, addr, None, 0)) == UsedCount(s) + 1
  {
    UpsertKeepsInvariant(s, addr, None, 0);
  }

  /** Repeating an upsert is harmless: the slots stay as they are and the
      dirty flag is not raised again, for names of at most NameMax - 1 bytes. */
  lemma UpsertIdempotent(s: seq<Device>, addr: Addr, name: Option<string>, rssi: Int8)
    requires RegistryOk(s)
    requires name.Some? ==> |name.value| < NameMax
    ensures Upsert(Upsert(s, addr, name, rssi), addr, name, rssi) == Upsert(s, addr, name, rssi)
    ensures !UpsertChanges(Upsert(s, addr, name, rssi), addr, name, rssi)
  {
    var t := Upsert(s, addr, name, rssi);
    UpsertKeepsInvariant(s, addr, name, rssi);
    var j := TargetSlot(s, addr);
    if j >= 0 {
      assert Matches(t[j], addr);
      FindIndexUnique(t, addr, j);
      assert Prefix(t[j].name, NameMax) == t[j].name;
    } else {
      assert t == s;
    }
  }

  /** A name longer than NameMax - 1 bytes passed straight to the upsert
      raises the dirty flag on every repetition although the stored name no
      longer changes: `strncmp` compares NameMax bytes while `strlcpy`
      keeps NameMax - 1. The discovery handler never passes such a name. */
  lemma LongNameAlwaysDirty(s: seq<Device>, addr: Addr, name: string, rssi: Int8)
    requires RegistryOk(s)
    requires TargetSlot(s, addr) >= 0
    requires |name| >= NameMax
    ensures var t := Upsert(s, addr, Some(name), rssi);
      Upsert(t, addr, Some(name), rssi) == t && UpsertChanges(t, addr, Some(name), rssi)
  {
    var t := Upsert(s, addr, Some(name), rssi);
    UpsertKeepsInvariant(s, addr, Some(name), rssi);
    var j := TargetSlot(s, addr);
    assert Matches(t[j], addr);
    FindIndexUnique(t, addr, j);
    assert |Prefix(t[j].name, NameMax)| < NameMax;
  }

  // ---------------------------------------------------------------------
  // Filling the registry

  /** One call of `upsert_device`: the address, the name (None for NULL)
      and the RSSI. */
  datatype Sighting = Sighting(addr: Addr, name: Option<string>, rssi: Int8)

  /** The addresses of a sequence of sightings, in order. */
  function Addrs(sights: seq<Sighting>): (r: seq<Addr>)
    ensures |r| == |sights| && forall i :: 0 <= i < |sights| ==> r[i] == sights[i].addr
  {
    seq(|sights|, i requires 0 <= i < |sights| => sights[i].addr)
  }

  /** No address is sighted twice. */
  predicate DistinctAddrs(sights: seq<Sighting>)
  {
    forall i, j :: 0 <= i < j < |sights| ==> sights[i].addr != sights[j].addr
  }

  /** The slots after a sequence of sightings, each with its own name and RSSI. */
  function UpsertAll(s: seq<Device>, sights: seq<Sighting>): seq<Device>
    decreases |sights|
  {
    if sights == [] then s
    else
      var last := sights[|sights| - 1];
      Upsert(UpsertAll(s, sights[..|sights| - 1]), last.addr, last.name, last.rssi)
  }

  /** The registry as the firmware starts: eight blank slots. */
  function EmptyRegistry(): (s: seq<Device>)
    ensures RegistryOk(s) && UsedCount(s) == 0
  {
    var s := seq(MaxDevices, _ => Blank);
    assert UsedCount(s) == 0 by { NoneUsedCount(s); }
    s
  }

  lemma {:induction false} NoneUsedCount(s: seq<Device>)
    requires forall j :: 0 <= j < |s| ==> !s[j].used
    ensures UsedCount(s) == 0
    decreases |s|
  {
    if s != [] {
      NoneUsedCount(s[..|s| - 1]);
    }
  }

  /** Every claimed slot holds one of `addrs`. */
  ghost predicate HoldsOnly(s: seq<Device>, addrs: seq<Addr>)
  {
    forall k :: 0 <= k < |s| && s[k].used ==> s[k].addr in addrs
  }

  /** Sighting an address keeps every claimed slot among the addresses seen. */
  lemma UpsertHoldsOnly(s: seq<Device>, addrs: seq<Addr>, a: Sighting)
    requires HoldsOnly(s, addrs)
    ensures HoldsOnly(Upsert(s, a.addr, a.name, a.rssi), addrs + [a.addr])
  {
    var t := Upsert(s, a.addr, a.name, a.rssi);
    forall k | 0 <= k < |t| && t[k].used ensures t[k].addr in addrs + [a.addr] {
      if t[k].addr != s[k].addr || t[k].used != s[k].used {
        assert t[k].addr == a.addr;
      } else {
        assert s[k].addr in addrs;
      }
    }
  }

  /** Sighting n distinct addresses, under any names and RSSIs, starting
      from the empty registry, claims min(n, 8) slots; every claimed slot
      holds one of them. */
  lemma {:induction false} DistinctSightingsFill(sights: seq<Sighting>)
    requires DistinctAddrs(sights)
    ensures RegistryOk(UpsertAll(EmptyRegistry(), sights))
    ensures UsedCount(UpsertAll(EmptyRegistry(), sights)) ==
            if |sights| < MaxDevices then |sights| else MaxDevices
    ensures HoldsOnly(UpsertAll(EmptyRegistry(), sights), Addrs(sights))
    decreases |sights|
  {
    if sights != [] {
      var n := |sights|;
      var before := sights[..n - 1];
      var a := sights[n - 1];
      DistinctSplit(sights);
      DistinctSightingsFill(before);
      var s := UpsertAll(EmptyRegistry(), before);
      FillStep(s, Addrs(before), a);
      assert UpsertAll(EmptyRegistry(), sights) == Upsert(s, a.addr, a.name, a.rssi);
    }
  }

  /** Splitting off the last of distinct sightings: the rest are distinct
      and do not contain its address. */
  lemma DistinctSplit(sights: seq<Sighting>)
    requires DistinctAddrs(sights) && sights != []
    ensures var n := |sights|;
      DistinctAddrs(sights[..n - 1]) && sights[n - 1].addr !in Addrs(sights[..n - 1]) &&
      Addrs(sights) == Addrs(sights[..n - 1]) + [sights[n - 1].addr]
  {
    var n := |sights|;
    var before := sights[..n - 1];
    assert DistinctAddrs(before) by {
      forall i, j | 0 <= i < j < |before| ensures before[i].addr != before[j].addr {
        assert before[i] == sights[i] && before[j] == sights[j];
      }
    }
    forall m | 0 <= m < |before| ensures Addrs(before)[m] != sights[n - 1].addr {
      assert before[m] == sights[m];
    }
    assert Addrs(sights) == Addrs(before) + [sights[n - 1].addr];
  }

  /** One sighting of an address not seen before claims a slot unless all
      are taken, and keeps the registry holding only addresses seen. */
  lemma FillStep(s: seq<Device>, seen: seq<Addr>, a: Sighting)
    requires RegistryOk(s) && HoldsOnly(s, seen)
    requires UsedCount(s) == if |seen| < MaxDevices then |seen| else MaxDevices
    requires a.addr !in seen
    ensures var t := Upsert(s, a.addr, a.name, a.rssi);
      RegistryOk(t) && HoldsOnly(t, seen + [a.addr]) &&
      UsedCount(t) == if |seen| + 1 < MaxDevices then |seen| + 1 else MaxDevices
  {
    assert FindIndex(s, a.addr) == -1 by {
      FindIndexSpec(s, a.addr);
    }
    UpsertKeepsInvariant(s, a.addr, a.name, a.rssi);
    FreeSlotIffNotFull(s);
    UpsertHoldsOnly(s, seen, a);
  }

  /** Nine distinct addresses, under any names and RSSIs, fill the eight
      slots; the ninth is dropped and does not raise the dirty flag. */
  lemma NinthDeviceDropped(sights: seq<Sighting>)
    requires |sights| == MaxDevices + 1
    requires DistinctAddrs(sights)
    ensures UsedCount(UpsertAll(EmptyRegistry(), sights)) == MaxDevices
    ensures UpsertAll(EmptyRegistry(), sights) == UpsertAll(EmptyRegistry(), sights[..MaxDevices])
    ensures var ninth := sights[MaxDevices];
      !UpsertChanges(UpsertAll(EmptyRegistry(), sights[..MaxDevices]), ninth.addr, ninth.name, ninth.rssi)
  {
    var first := sights[..MaxDevices];
    var ninth := sights[MaxDevices];
    assert DistinctAddrs(first) by {
      forall i, j | 0 <= i < j < |first| ensures first[i].addr != first[j].addr {
        assert first[i] == sights[i] && first[j] == sights[j];
      }
    }
    DistinctSightingsFill(first);
    var s := UpsertAll(EmptyRegistry(), first);
    assert forall m :: 0 <= m < |s| ==> !Matches(s[m], ninth.addr) by {
      forall m | 0 <= m < |s| ensures !Matches(s[m], ninth.addr) {
        if s[m].used {
          assert s[m].addr in Addrs(first);
          forall q | 0 <= q < |first| ensures Addrs(first)[q] != ninth.addr {
            assert first[q] == sights[q];
          }
        }
      }
    }
    UpsertWhenFull(s, ninth.addr, ninth.name, ninth.rssi);
    assert sights[..MaxDevices] == first;
  }
}
