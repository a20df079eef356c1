# esp32 handheld: BLE manager and menu state machine in Dafny

This project models two parts of the ESP32 handheld firmware and proves properties of them.

**The BLE discovery and connection manager (`main/ble.c`).** It keeps a registry of eight
device slots, filled on first sighting of an address and never evicted. It keeps a change flag
that the display loop consumes, and two flags (`s_scanning`, `is_connecting`) that radio-stack
events drive. The firmware connects to the first device whose manufacturer data carries Apple's
company identifier. It shows the registry as a text snapshot of bounded size.

**The menu and key-input state machine (`main/main.c`).** It decodes terminal key sequences and
has three static menus, each with its own selection index. It also gives the screen each action
opens and the parent screen each screen goes back to.

The model has one module per concern:

- `Common`: shared helpers. These are bytes, `Option`, prefixes and `%d` decimal formatting.
- `BleFormat`: `addr_to_str` and the manufacturer filter, as pure functions.
- `BleRegistry`: the slot array as values (`Upsert`, `FindIndex`), with the registry invariant
  and its lemmas.
- `BleFsm`: the flags as a transition function over the radio-stack events. The calls the core
  makes into the host stack (start discovery, cancel it, connect) are returned as a list of
  `Request`s. Their return codes are inputs to each step.
- `BleText`: the snapshot text and a bounded `snprintf` over a character array.
- `Ble`: the class `BleCore`. Its fields are the source's statics: the `devices` array,
  `count`, `dirty`, `scanning` and `connecting`. Each method does what the C function does, and
  its `ensures` ties the new state to the value-level function it follows.
- `Menu`: the key decoder, the menu tables, the screen transitions as functions over `UiState`,
  and the class `Ui`. The fields of `Ui` are the statics `current_screen`, `current_menu`,
  `*_selected` and `wifi_connected`, and its methods follow those functions.

Calls into code outside the core become parameters:

- the results of `ble_gap_disc`, `ble_gap_connect` and `ble_hs_id_infer_auto` are `discRc`,
  `connRc` and `inferRc`;
- the advertisement parser gives `Option<AdvFields>`, which is None when parsing failed;
- the success of `connect_wifi` is `wifiOk`.

## Where the code differs from what it appears to promise

The model follows the code in each of these cases. A lemma states each one:

- **Claiming a slot is not by itself a change.** `upsert_device` raises the dirty flag only when
  the name or RSSI changes, not on the claim itself. A direct call with a NULL or empty name and
  RSSI 0 claims a slot without setting dirty (`ClaimWithoutChange`). No caller makes such a call:
  the discovery handler always passes a non-empty name. So every slot the firmware actually
  claims does set dirty (`DiscoveryClaimIsDirty`, and the last ensures of `BleCore.OnGapEvent`).
- **A disconnect does not always restart scanning.** After a disconnect, the scanning flag is set
  only if `ble_gap_disc` accepts (`DisconnectResumes`).
- **An accepted connect does not clear the scanning flag.** `ble_gap_disc_cancel` leaves
  `s_scanning` as it was, so both flags can be true at once (`BothFlagsAfterConnectDuringScan`).
  For the same reason, a refused
  connect during a scan does not restart discovery (`RefusedConnectWhileScanningStalls`).
- **The second name branch is dead.** The `else if` of `upsert_device` (`main/ble.c:75-77`) can
  never be taken, because its case is already covered by the first test (`NameBranchSubsumed`).
  The model has one name test.
- **Long names passed straight in always set dirty.** The name check compares 32 bytes but keeps
  31. A name longer than 31 bytes passed straight to `upsert_device` therefore sets the dirty flag
  on every call, while the stored name stays the same (`LongNameAlwaysDirty`). The discovery
  handler cuts names to 31 bytes, so this does not happen in the firmware (`DisplayNameSpec`).
- **A nameless advertisement overwrites a real name.** The discovery handler substitutes the
  address text for a missing name (`main/ble.c:157-158`). That text is not empty and differs from
  a stored name such as "iPhone", so it passes the test at `main/ble.c:72`. A known device that
  later advertises without a name therefore has its name replaced by its address, and dirty is
  set (`NamelessAdvReplacesName`). The name is never blanked, but it is not only ever corrected.

## Model

| member | source | states |
|---|---|---|
| Common.IntToDecimal | main/ble.c:272-277 | `%d` of an integer is non-empty and starts with '-' exactly when it is negative |
| Common.NatToDecimalRoundTrip | main/ble.c:272-277 | the `%d` text of a count, or of the magnitude of an RSSI, has no leading zero and reads back as the same number |
| Common.IntToDecimalRoundTrip | main/ble.c:275-277 | the `%d` text of any integer reads back: a non-negative RSSI or count is its digits, and a negative RSSI is '-' followed by the digits of its magnitude |
| BleFormat.ByteHexRoundTrip | main/ble.c:41-42 | `%02X` of a byte is two uppercase hex digits that parse back to the byte |
| BleFormat.ByteHex | main/ble.c:41-42 | definition of `%02X` of one byte; its property is `ByteHexRoundTrip` |
| BleFormat.AddrToStr | main/ble.c:39-43 | the display form is 17 characters, with colons at positions 2, 5, 8, 11 and 14, and group k is `%02X` of byte 5-k (reversed byte order) |
| BleFormat.AddrToStrRoundTrip | main/ble.c:39-43 | parsing the display form gives back the address |
| BleFormat.AddrToStrInjective | main/ble.c:39-43 | distinct addresses have distinct display forms |
| BleFormat.AddrToStrExample | main/ble.c:39-43 | bytes AA BB CC DD EE FF are shown as "FF:EE:DD:CC:BB:AA" |
| BleFormat.CompanyId | main/ble.c:164-165 | the company identifier is a 16-bit value whose low byte is mfg_data[0] and whose high byte is mfg_data[1] |
| BleFormat.IsAppleDevice | main/ble.c:163-167 | definition of the connect filter; its property is `IsAppleDeviceBytes` |
| BleFormat.IsAppleDeviceBytes | main/ble.c:163-171 | the filter holds exactly when manufacturer data has at least two bytes and they are 0x4C, 0x00 |
| BleRegistry.FindIndex | main/ble.c:45-53 | definition of `find_device_index` on the slot values; its properties are `FindIndexSpec` and `FindIndexUnique`, and `BleCore.FindDeviceIndex` is proved equal to it |
| BleRegistry.FindFrom | main/ble.c:47-52 | the scan returns -1 or a claimed slot holding the address, and no earlier slot holds it |
| BleRegistry.FreeFrom | main/ble.c:59-67 | the claiming loop picks -1 or an unclaimed slot, and every earlier slot is claimed |
| BleRegistry.FindIndexSpec | main/ble.c:45-53 | `find_device_index` is -1 exactly when no claimed slot holds the address, and otherwise is a claimed slot holding it |
| BleRegistry.FindIndexUnique | main/ble.c:45-53 | in a registry without duplicates, the slot found is the only slot holding the address |
| BleRegistry.FreeSlotIffNotFull | main/ble.c:59-67 | a free slot exists exactly when fewer than 8 slots are claimed |
| BleRegistry.UpsertKeepsInvariant | main/ble.c:55-68 | an upsert keeps every slot well formed, keeps addresses unique and keeps the count at most 8; the count grows by one exactly when a slot is claimed |
| BleRegistry.UpsertKnown | main/ble.c:57-82 | upserting a known address leaves the count and every other slot unchanged and stores the new RSSI |
| BleRegistry.UpsertWhenFull | main/ble.c:57-70 | a new address when all 8 slots are used changes nothing and does not set dirty |
| BleRegistry.UpsertNew | main/ble.c:58-67 | a new address with room lands in the first free slot, which then holds it with the new RSSI; other slots are unchanged |
| BleRegistry.Upsert | main/ble.c:55-87 | definition of `upsert_device` on the slot values; its properties are the `Upsert*` lemmas, and `BleCore.UpsertDevice` is proved to follow it |
| BleRegistry.NameReplaces | main/ble.c:72 | definition of the name test; `NameBranchSubsumed` shows the branch at lines 75-77 adds nothing to it |
| BleRegistry.Refresh | main/ble.c:70-82 | definition of the update of a found or claimed slot; its properties are `UpsertName` and `UpsertChangesIff` |
| BleRegistry.NameBranchSubsumed | main/ble.c:72-77 | the second name branch adds no case to the first |
| BleRegistry.UpsertName | main/ble.c:72-78 | an absent or empty name never overwrites the stored one; a differing non-empty name replaces it, cut to 31 bytes |
| BleRegistry.UpsertChangesIff | main/ble.c:71-85 | dirty is set exactly when the slot's name or RSSI actually changes |
| BleRegistry.ClaimWithoutChange | main/ble.c:58-85 | a direct `upsert_device` call with an empty name and RSSI 0 claims a fresh slot, which is counted, but does not set dirty; the discovery handler never makes such a call (`DiscoveryClaimIsDirty`) |
| BleRegistry.UpsertIdempotent | main/ble.c:55-87 | repeating an upsert leaves the slots as they are and does not set dirty again |
| BleRegistry.LongNameAlwaysDirty | main/ble.c:72-73 | a name over 31 bytes passed straight in sets dirty on every repetition, while the slots no longer change |
| BleRegistry.EmptyRegistry | main/ble.c:28-29 | the zero-initialised slots satisfy the invariant and hold no device |
| BleRegistry.DistinctSightingsFill | main/ble.c:55-68 | n sightings of distinct addresses from start-up, each with any name and RSSI, claim min(n, 8) slots, and each claimed slot holds one of those addresses |
| BleRegistry.FillStep | main/ble.c:57-68 | one sighting of an address not seen before keeps the invariant, keeps the slots holding only seen addresses, and claims a slot unless all eight are taken |
| BleRegistry.UpsertAll | main/ble.c:55-87 | definition: the slots after successive `upsert_device` calls, each with its own name and RSSI; its properties are `DistinctSightingsFill` and `NinthDeviceDropped` |
| BleRegistry.NinthDeviceDropped | main/ble.c:58-70 | with any names and RSSIs, a ninth distinct address is dropped: the registry stays as it was after eight and the ninth sighting does not set dirty |
| BleFsm.UpToNul | main/ble.c:149-157 | the C string in the name buffer is its bytes up to the first zero byte and holds no zero byte |
| BleFsm.DisplayName | main/ble.c:149-159 | definition of the name the discovery handler passes on; its property is `DisplayNameSpec` |
| BleFsm.NamelessAdvReplacesName | main/ble.c:149-161 | a known device advertising without a name has its stored name, if different from its address form, replaced by that address form, and dirty is set |
| BleFsm.DisplayNameSpec | main/ble.c:149-159 | the name passed to `upsert_device` is never empty and has under 32 characters; it is the address form when the advertised name is absent or starts with a zero byte, and the advertised name cut to 31 bytes otherwise |
| BleFsm.StartScan | main/ble.c:100-122 | definition of `ble_start_scan` on the flags; its properties are `StartScanIdempotent` and `SyncStartsScan` |
| BleFsm.OnSync | main/ble.c:89-98 | definition of `ble_on_sync` on the flags; its property is `SyncStartsScan` |
| BleFsm.ConnectFlow | main/ble.c:163-183 | definition of the connect step of a discovery; its properties are `ConnectIffMatch`, `AcceptedConnectInFlight` and `RefusedConnectClears` |
| BleFsm.OnGapEvent | main/ble.c:137-212 | definition of `ble_gap_event` on the flags; its properties are the event lemmas below and `InFlightBlocksConnects` |
| BleFsm.StartScanIdempotent | main/ble.c:100-122 | `ble_start_scan` does nothing while scanning; otherwise it requests discovery and sets the flag only when the stack accepts; a second call after an accepted one does nothing; it never touches the connecting flag |
| BleFsm.SyncStartsScan | main/ble.c:89-98 | from start-up, a successful sync requests discovery and scans exactly when the stack accepts |
| BleFsm.ConnectIffMatch | main/ble.c:163-183 | a step requests a connection exactly when a parsed advertisement passes the Apple filter while no attempt is in flight; it then requests exactly one, right after cancelling discovery |
| BleFsm.AcceptedConnectInFlight | main/ble.c:173-177 | an accepted connect request leaves an attempt in flight |
| BleFsm.TwoMatchesOneConnect | main/ble.c:173-183 | two matching advertisements in a row, with the first connect accepted, give only one connect request |
| BleFsm.RefusedConnectClears | main/ble.c:177-182 | a refused connect request clears the attempt and calls `ble_start_scan` after the cancel and the connect; from a clear scanning flag that retry requests discovery and scans exactly when it is accepted |
| BleFsm.RefusedConnectWhileScanningStalls | main/ble.c:173-182 | a refused connect while the scanning flag is set leaves the flags as they were and does not request discovery again |
| BleFsm.BothFlagsAfterConnectDuringScan | main/ble.c:173-177 | an accepted connect to a matching device found during a scan leaves scanning and connecting both true |
| BleFsm.ConnectResult | main/ble.c:186-195 | a connect result clears scanning; a failed one also clears the attempt and calls `ble_start_scan` |
| BleFsm.DisconnectResumes | main/ble.c:196-201 | a disconnect always ends with no attempt in flight and discovery requested; scanning is set exactly when the stack accepts |
| BleFsm.DiscCompleteRestartsIffIdle | main/ble.c:202-208 | scan complete restarts discovery exactly when no attempt is in flight, and never changes the attempt flag |
| BleFsm.IgnoredEvents | main/ble.c:144-147 | an advertisement that fails to parse, and any other event kind, changes nothing |
| BleFsm.DiscoveryClaimIsDirty | main/ble.c:149-161 | every slot the discovery handler claims sets dirty, because the claimed slot is blank and the name passed in is never empty |
| BleFsm.Run | main/ble.c:137-212 | definition: the flags after a run of events, and all requests issued, in order |
| BleFsm.InFlightStep | main/ble.c:163-210 | while an attempt is in flight, every event other than a failed connect or a disconnect keeps it in flight and requests no connection |
| BleFsm.InFlightBlocksConnects | main/ble.c:163-210 | at most one attempt is in flight: from an in-flight state, no run of events without a failed connect or a disconnect requests another connection, and the attempt stays in flight |
| BleText.DeviceLine | main/ble.c:274-277 | definition of one slot's `"%s (%ddBm)\n"` line, with "Unknown" for an empty name and nothing for an unclaimed slot; used by `SlotLine` |
| BleText.Header | main/ble.c:272 | definition of `"Found: %d\n"`; used by `DevicesTextShape` |
| BleText.DevicesText | main/ble.c:267-278 | definition of the whole snapshot before it is cut; its property is `DevicesTextShape`, and `BleCore.GetDevicesText` is proved to write it |
| BleText.SlotLine | main/ble.c:273-278 | each slot's line appears in the snapshot at its slot's place, between the lines of the earlier slots and those of the later slots |
| BleText.DevicesTextShape | main/ble.c:267-278 | with no device the snapshot is "Scanning..."; otherwise it is "Found: N\n" followed by the per-slot lines |
| BleText.Snprintf | main/ble.c:272-275 | `snprintf` into the buffer at `pos` writes as much of the text as fits before the last cell, then a terminator, touches nothing else, and returns the full length |
| Ble.BleCore.constructor | main/ble.c:28-34 | the statics start with blank slots, a zero count, a clear dirty flag and both flags false |
| Ble.BleCore.FindDeviceIndex | main/ble.c:45-53 | the loop returns -1 exactly when no claimed slot holds the address, and otherwise a claimed slot holding it |
| Ble.BleCore.ClaimFreeSlot | main/ble.c:59-67 | the first unclaimed slot receives the address and the counter grows by one; with no free slot, nothing changes and the result is -1 |
| Ble.BleCore.UpsertDevice | main/ble.c:55-87 | the slots become `Upsert` of the old slots; the count grows exactly when a slot is claimed; dirty becomes old dirty or a real change; the invariant is kept |
| Ble.BleCore.TakeDirty | main/ble.c:256-261 | returns the flag and clears it |
| Ble.TakeTwice | main/ble.c:256-261 | mutate, take, take gives true, then false |
| Ble.BleCore.StartScan | main/ble.c:100-122 | the flags and requests follow `BleFsm.StartScan` |
| Ble.BleCore.OnSync | main/ble.c:89-98 | the flags and requests follow `BleFsm.OnSync` |
| Ble.BleCore.ConnectFlow | main/ble.c:163-183 | the flags and requests follow `BleFsm.ConnectFlow` |
| Ble.BleCore.OnGapEvent | main/ble.c:137-212 | the flags and requests follow `BleFsm.OnGapEvent`; a parsed discovery upserts under `DisplayName`; other events leave the slots and dirty alone; a discovery that claims a slot sets dirty; the invariant is kept |
| Ble.BleCore.GetDevicesText | main/ble.c:263-279 | a NULL or empty buffer is left alone; otherwise the buffer holds the snapshot cut to its size with a terminator, and nothing beyond the terminator is written |
| Ble.AppendLine | main/ble.c:275-277 | one more line appended with `snprintf` at `pos` keeps the buffer holding the cut text so far, and advances `pos` by the line's full length |
| Menu.Items | main/main.c:15-41 | every menu has at least one item |
| Menu.DecodeKey | main/main.c:313-324 | definition of `decode_key`; its properties are `DecodeKeyBytes`, `DecodeArrows` and `DecodeOtherKeys` |
| Menu.DecodeKeyBytes | main/main.c:313-324 | decoding the bytes a terminal sends for a key gives back that key |
| Menu.DecodeArrows | main/main.c:314-319 | UP, DOWN, RIGHT and LEFT are exactly the inputs of 3 or more bytes starting ESC '[' 'A', 'B', 'C' or 'D' |
| Menu.DecodeOtherKeys | main/main.c:320-323 | ENTER is exactly "\r", "\n" or "\r\n"; ESC is exactly the lone byte 0x1B; NONE is everything else |
| Menu.Parent | main/main.c:292-311 | definition of the parent table of `go_back_one_menu`; its properties are `ParentMenuLeadsBack` and `ParentReachesMain` |
| Menu.GoBack | main/main.c:292-311 | definition of `go_back_one_menu` on the state: nothing on MAIN, otherwise `set_screen` of the parent; used by `LeftGoesToParent` |
| Menu.MenuOf | main/main.c:326-362 | definition of the menu `set_screen` assigns for each screen; its property is `SetScreenSpec` |
| Menu.ParentMenuLeadsBack | main/main.c:292-311 | every screen other than main goes back to a screen with a menu, and that menu has an item that leads back to it |
| Menu.ParentReachesMain | main/main.c:292-311 | going back twice always reaches main; main is the only screen that is its own parent |
| Menu.ApplyScreen | main/main.c:326-362 | definition of `set_screen` on the state; its property is `SetScreenSpec` |
| Menu.ApplyAction | main/main.c:423-453 | definition of the `action_*` functions on the state; its properties are `ActionTargets`, `ApplyActionKeeps` and `TimeActionSpec` |
| Menu.ApplyInput | main/main.c:263-290 | definition of `handle_input` on the state; its properties are the key lemmas below |
| Menu.SetScreenSpec | main/main.c:326-362 | after `set_screen(s)` the screen is s; a menu is active exactly on MAIN, SETTINGS and WEATHER; no selection and no Wi-Fi flag changes |
| Menu.StartState | main/main.c:4-11 | the statics start out of step with the screen; the first `set_screen(SCREEN_MAIN)` brings them into the state every later key keeps |
| Menu.HandleInputKeepsInvariant | main/main.c:263-290 | key handling keeps every selection index within its menu, and keeps the menu in step with the screen |
| Menu.UpDownMoveSelection | main/main.c:273-278 | UP decrements the active selection only above 0, and DOWN increments it only below count-1; the screen, the other menus and Wi-Fi stay the same |
| Menu.LeftGoesToParent | main/main.c:267-270 | LEFT always goes to the parent screen, whatever menu is active |
| Menu.EscGoesMain | main/main.c:282-288 | ESC always leads to the main screen and its menu, with or without an active menu |
| Menu.TimeNeedsWifi | main/main.c:426 | the TIME screen is entered only while Wi-Fi is connected |
| Menu.TimeActionSpec | main/main.c:426 | the Time item opens TIME, with no menu, when Wi-Fi is connected, and otherwise changes nothing |
| Menu.ApplyActionKeeps | main/main.c:423-453 | no action changes a selection index or disconnects Wi-Fi; only the WiFi item with a successful connection connects it; TIME is entered only with Wi-Fi connected |
| Menu.ActionTargets | main/main.c:423-453 | the item-to-screen table `Target` agrees with the actions: each action keeps the screen or opens its target, opens it whenever it needs no Wi-Fi or Wi-Fi is connected, and an action without a target changes nothing |
| Menu.SelectionsSurviveScreenChanges | main/main.c:39-41 | a menu's selection changes only when UP or DOWN is pressed on that menu, so each menu keeps it across screen changes |
| Menu.WifiOnlyThroughConnect | main/main.c:431-444 | Wi-Fi, once connected, stays connected; it becomes connected only through the WiFi item, when the connection succeeds, and the screen is then WIFI |
| Menu.Ui.constructor | main/main.c:4-11 | the statics start on MAIN with no menu, every selection at 0 and Wi-Fi disconnected |
| Menu.Ui.GetSelected | main/main.c:39-41 | reading a menu's `selected` pointer gives that menu's own index |
| Menu.Ui.PutSelected | main/main.c:273-278 | writing through a menu's `selected` pointer changes that menu's index alone |
| Menu.Ui.SetScreen | main/main.c:326-362 | the new state is `ApplyScreen` of the old |
| Menu.Ui.GoBackOneMenu | main/main.c:292-311 | the new state is `GoBack` of the old; on MAIN nothing changes |
| Menu.Ui.RunAction | main/main.c:423-453 | the new state is `ApplyAction` of the old, for each `action_*` |
| Menu.Ui.HandleInput | main/main.c:263-290 | the new state is `ApplyInput` of the old, and every selection stays within its menu |

## Left out

- NimBLE itself (`ble_gap_disc`, `ble_gap_disc_cancel`, `ble_gap_connect`, `ble_hs_id_infer_auto`,
  `ble_hs_adv_parse_fields`, `nimble_port_*`): a foreign library. Its calls are requests and its
  return codes are inputs. The parsed advertisement is given data, and an absent field is the
  empty sequence.
- `ble_init` and `ble_host_task`: host-stack start-up and the FreeRTOS task that runs it.
- `configure_ble5_advertising` and `start_ble5_advertising`: they only return "not supported".
- `ble_log_adv_fields` and every `ESP_LOG*` call: logging only.
- `own_addr_type`: it is only passed through to the host stack.
- The `out_sz` parameter of `addr_to_str`: its only caller passes a 32-byte buffer, and the
  17-character form always fits.
- The sharing of the registry and the dirty flag between the BLE host task and the display loop:
  concurrency. The model has one sequential writer.
- All u8g2 drawing in `main/main.c` (`draw_menu`, `update_screenf*`, `draw_wrapped_text`,
  `draw_*`, `weather_ui_update`): it depends on the display library's font metrics. The messages
  the actions draw ("Not implemented", "WiFi required", "WiFi connection failed", ...) are left
  out with it.
- `app_main`: the peripheral set-up, NVS, SNTP, and the `read`/`vTaskDelay` loop. Its one
  `set_screen(SCREEN_MAIN)` is `Ui.SetScreen` (see `StartState`), and each read is one
  `Ui.HandleInput` call.
- `geo_fetch_info` and `weather_fetch_city`, called by the Wi-Fi and Montreal actions:
  HTTP/JSON I/O in files that are not part of this model (`main/wifi.c`, `main/weather.c`,
  `main/geolocation.c`, `main/dht20.c`).
- Byte values: `Byte` ranges over 0..255 and `Int8` over -128..127. The `(int8_t)` cast of the
  RSSI is therefore assumed to be lossless, as it is for NimBLE's `int8_t` field.
- UpsertChangesIff: proved for names of at most 31 bytes, which are all the discovery handler
  passes. For longer names, dirty is set without a change; see `LongNameAlwaysDirty`.
- UpsertIdempotent: proved for names of at most 31 bytes, for the same reason.
- DisplayNameSpec: states the length and which source the name comes from. It does not state
  that the name holds no zero byte; `UpToNul` states that.
- Stored names are Dafny strings that stand for the contents of a C string. Nothing stops a name
  with an embedded zero byte from being passed straight to `UpsertDevice`; C would read such a
  name only up to that byte, and the model does not. The discovery handler never passes one
  (`UpToNul`).
- Snprintf: models `snprintf` of an already formatted string (`"%s"`). It does not model the
  formatting of `%d` and `%02X`, so `DeviceLine`, `Header` and `AddrToStr` build the text first.
  Its negative return on an encoding error cannot happen here and is not modelled.
