/** The menu and key-input state machine of the firmware's main loop:
    decoding terminal key sequences, the three menus with their own
    selection indices, the screen each action opens and the parent each
    screen goes back to. Drawing is left out; only the state is modelled. */
module Menu {
  import opened Common

  /** `Screen`, in the order of its declaration. */
  datatype Screen =
    | MainScreen | SettingsScreen | WeatherScreen | WeatherMtlScreen | TimeScreen
    | TnhScreen | WifiScreen | GeoScreen | BtScreen

  /** `Key`. */
  datatype Key = KeyNone | KeyUp | KeyLeft | KeyDown | KeyRight | KeyEnter | KeyEsc

  /** The three static menus; each stands for the `Menu` whose `selected`
      pointer refers to its own index variable. */
  datatype MenuId = MainMenu | WeatherMenu | SettingsMenu

  /** The `action_*` functions a menu item can run. */
  datatype Action =
    | Placeholder | OpenWeather | ShowTime | OpenSettings | ShowTnh
    | ShowWeatherMtl | ConnectWifi | ShowBt | ShowGeo | Back

  datatype MenuItem = MenuItem(caption: string, action: Action)

  /** The item tables `main_menu_items`, `weather_menu_items` and `settings_menu_items`. */
  function Items(m: MenuId): (items: seq<MenuItem>)
    ensures |items| > 0
  {
    match m
    case MainMenu =>
      [MenuItem("Games", Placeholder), MenuItem("Weather", OpenWeather), MenuItem("Time", ShowTime),
       MenuItem("Settings", OpenSettings), MenuItem("Shutdown", Placeholder)]
    case WeatherMenu =>
      [MenuItem("Here", ShowTnh), MenuItem("Montreal", ShowWeatherMtl)]
    case SettingsMenu =>
      [MenuItem("WiFi", ConnectWifi), MenuItem("Bluetooth", ShowBt), MenuItem("Geolocation", ShowGeo),
       MenuItem("Back", Back)]
  }

  /** `count` of a menu. */
  function Count(m: MenuId): nat
  {
    |Items(m)|
  }

  // ---------------------------------------------------------------------
  // Key decoding

  const Esc: Byte := 0x1B
  const Cr: Byte := 0x0D
  const Lf: Byte := 0x0A
  const LeftBracket: Byte := 0x5B

  /** `decode_key`: `ESC [ A|B|C|D` (possibly followed by more bytes) are the
      arrows; a lone CR or LF, or CR LF, is Enter; a lone ESC is Escape;
      anything else is no key. */
  function DecodeKey(data: seq<Byte>): Key
  {
    if |data| >= 3 && data[0] == Esc && data[1] == LeftBracket && data[2] == 'A' as int then KeyUp
    else if |data| >= 3 && data[0] == Esc && data[1] == LeftBracket && data[2] == 'B' as int then KeyDown
    else if |data| >= 3 && data[0] == Esc && data[1] == LeftBracket && data[2] == 'C' as int then KeyRight
    else if |data| >= 3 && data[0] == Esc && data[1] == LeftBracket && data[2] == 'D' as int then KeyLeft
    else if |data| == 1 && (data[0] == Cr || data[0] == Lf) then KeyEnter
    else if |data| == 2 && data[0] == Cr && data[1] == Lf then KeyEnter
    else if |data| == 1 && data[0] == Esc then KeyEsc
    else KeyNone
  }

  /** The byte sequence a terminal sends for each key. */
  function KeyBytes(k: Key): seq<Byte>
  {
    match k
    case KeyUp => [Esc, LeftBracket, 'A' as int]
    case KeyDown => [Esc, LeftBracket, 'B' as int]
    case KeyRight => [Esc, LeftBracket, 'C' as int]
    case KeyLeft => [Esc, LeftBracket, 'D' as int]
    case KeyEnter => [Cr]
    case KeyEsc => [Esc]
    case KeyNone => []
  }

  /** Decoding what a terminal sends for a key gives back the key. */
  lemma DecodeKeyBytes(k: Key)
    ensures DecodeKey(KeyBytes(k)) == k
  {
  }

  /** The arrows: exactly the sequences of three or more bytes starting
      `ESC [` whose third byte is A, B, C or D. */
  lemma DecodeArrows(data: seq<Byte>)
    ensures DecodeKey(data) == KeyUp <==>
      |data| >= 3 && data[..3] == [Esc, LeftBracket, 'A' as int]
    ensures DecodeKey(data) == KeyDown <==>
      |data| >= 3 && data[..3] == [Esc, LeftBracket, 'B' as int]
    ensures DecodeKey(data) == KeyRight <==>
      |data| >= 3 && data[..3] == [Esc, LeftBracket, 'C' as int]
    ensures DecodeKey(data) == KeyLeft <==>
      |data| >= 3 && data[..3] == [Esc, LeftBracket, 'D' as int]
  {
    if |data| >= 3 {
      assert data[..3] == [data[0], data[1], data[2]];
    }
  }

  /** Enter is exactly "\r", "\n" or "\r\n"; Escape is exactly the lone ESC
      byte; everything else that is not an arrow is no key. */
  lemma DecodeOtherKeys(data: seq<Byte>)
    ensures DecodeKey(data) == KeyEnter <==> data == [Cr] || data == [Lf] || data == [Cr, Lf]
    ensures DecodeKey(data) == KeyEsc <==> data == [Esc]
    ensures DecodeKey(data) == KeyNone <==>
      !(|data| >= 3 && data[0] == Esc && data[1] == LeftBracket &&
        'A' as int <= data[2] <= 'D' as int) &&
      data != [Cr] && data != [Lf] && data != [Cr, Lf] && data != [Esc]
  {
  }

  // ---------------------------------------------------------------------
  // Screens and menus

  /** The menu a screen shows, as `set_screen` assigns `current_menu`;
      None stands for NULL. */
  function MenuOf(s: Screen): Option<MenuId>
  {
    match s
    case MainScreen => Some(MainMenu)
    case SettingsScreen => Some(SettingsMenu)
    case WeatherScreen => Some(WeatherMenu)
    case _ => None
  }

  /** The screen `go_back_one_menu` leads to; the main screen has no parent. */
  function Parent(s: Screen): Screen
  {
    match s
    case SettingsScreen | WeatherScreen | TimeScreen => MainScreen
    case WifiScreen | BtScreen | GeoScreen => SettingsScreen
    case TnhScreen | WeatherMtlScreen => WeatherScreen
    case MainScreen => MainScreen
  }

  /** The screen an action opens when it opens one. */
  function Target(a: Action): Option<Screen>
  {
    match a
    case Placeholder => None
    case OpenWeather => Some(WeatherScreen)
    case ShowTime => Some(TimeScreen)
    case OpenSettings => Some(SettingsScreen)
    case ShowTnh => Some(TnhScreen)
    case ShowWeatherMtl => Some(WeatherMtlScreen)
    case ConnectWifi => Some(WifiScreen)
    case ShowBt => Some(BtScreen)
    case ShowGeo => Some(GeoScreen)
    case Back => Some(MainScreen)
  }

  /** Going back always lands on a screen with a menu, and that menu has
      the item that leads forward to where one came from: the parent
      mapping and the menu tables agree. */
  lemma ParentMenuLeadsBack(s: Screen)
    requires s != MainScreen
    ensures MenuOf(Parent(s)).Some?
    ensures exists i :: 0 <= i < Count(MenuOf(Parent(s)).value) &&
                        Target(Items(MenuOf(Parent(s)).value)[i].action) == Some(s)
  {
    var m := MenuOf(Parent(s)).value;
    var i := match s
      case SettingsScreen => 3
      case WeatherScreen => 1
      case TimeScreen => 2
      case WifiScreen => 0
      case BtScreen => 1
      case GeoScreen => 2
      case TnhScreen => 0
      case WeatherMtlScreen => 1;
    assert Target(Items(m)[i].action) == Some(s);
  }

  /** Going back reaches the main screen in at most two steps from anywhere. */
  lemma ParentReachesMain(s: Screen)
    ensures Parent(Parent(s)) == MainScreen
    ensures Parent(s) == s <==> s == MainScreen
  {
  }

  // ---------------------------------------------------------------------
  // The state of the menu loop

  /** `current_screen`, `current_menu`, the three `*_selected` indices and
      `wifi_connected`. */
  datatype UiState = UiState(
    screen: Screen, menu: Option<MenuId>,
    mainSelected: int, weatherSelected: int, settingsSelected: int,
    wifiConnected: bool)

  /** `*(menu->selected)`. */
  function Selected(st: UiState, m: MenuId): int
  {
    match m
    case MainMenu => st.mainSelected
    case WeatherMenu => st.weatherSelected
    case SettingsMenu => st.settingsSelected
  }

  function WithSelected(st: UiState, m: MenuId, v: int): UiState
  {
    match m
    case MainMenu => st.(mainSelected := v)
    case WeatherMenu => st.(weatherSelected := v)
    case SettingsMenu => st.(settingsSelected := v)
  }

  /** Every selection index is a valid item of its menu. */
  ghost predicate SelectionsOk(st: UiState)
  {
    0 <= st.mainSelected < Count(MainMenu) &&
    0 <= st.weatherSelected < Count(WeatherMenu) &&
    0 <= st.settingsSelected < Count(SettingsMenu)
  }

  lemma SelectedInRange(st: UiState, m: MenuId)
    requires SelectionsOk(st)
    ensures 0 <= Selected(st, m) < Count(m)
  {
  }

  /** The menu pointer is the one `set_screen` assigned for the current screen. */
  ghost predicate Synced(st: UiState)
  {
    st.menu == MenuOf(st.screen)
  }

  /** The statics before the main loop starts: the main screen, no menu yet. */
  const Initial := UiState(MainScreen, None, 0, 0, 0, false)

  /** `set_screen`. */
  function ApplyScreen(st: UiState, s: Screen): UiState
  {
    st.(screen := s, menu := MenuOf(s))
  }

  /** `go_back_one_menu`: the main screen has no parent, so nothing happens there. */
  function GoBack(st: UiState): UiState
  {
    if st.screen == MainScreen then st else ApplyScreen(st, Parent(st.screen))
  }

  /** Running an action. `wifiOk` is whether `connect_wifi` succeeds if
      it is called. */
  function ApplyAction(st: UiState, a: Action, wifiOk: bool): UiState
  {
    match a
    case Placeholder => st
    case OpenWeather => ApplyScreen(st, WeatherScreen)
    case ShowTnh => ApplyScreen(st, TnhScreen)
    case ShowTime => if !st.wifiConnected then st else ApplyScreen(st, TimeScreen)
    case OpenSettings => ApplyScreen(st, SettingsScreen)
    case ShowBt => ApplyScreen(st, BtScreen)
    case Back => ApplyScreen(st, MainScreen)
    case ShowGeo => ApplyScreen(st, GeoScreen)
    case ConnectWifi =>
      var st1 := ApplyScreen(st, WifiScreen);
      if !st1.wifiConnected && wifiOk then st1.(wifiConnected := true) else st1
    case ShowWeatherMtl => if st.wifiConnected then ApplyScreen(st, WeatherMtlScreen) else st
  }

  /** `handle_input` on the bytes of one read. */
  function ApplyInput(st: UiState, data: seq<Byte>, wifiOk: bool): UiState
    requires SelectionsOk(st)
  {
    var k := DecodeKey(data);
    if k == KeyNone then st
    else if k == KeyLeft then GoBack(st)
    else if st.menu.Some? then
      var m := st.menu.value;
      var sel := Selected(st, m);
      SelectedInRange(st, m);
      if k == KeyUp && sel > 0 then WithSelected(st, m, sel - 1)
      else if k == KeyDown && sel < Count(m) - 1 then WithSelected(st, m, sel + 1)
      else if k == KeyEnter || k == KeyRight then ApplyAction(st, Items(m)[sel].action, wifiOk)
      else if k == KeyEsc then ApplyScreen(st, MainScreen)
      else st
    else if k == KeyEsc then ApplyScreen(st, MainScreen)
    else st
  }

  // ---------------------------------------------------------------------
  // Properties

  /** After `set_screen(s)` the screen is `s`, a menu is active exactly on
      the main, settings and weather screens, and no selection index or the
      Wi-Fi flag changes. */
  lemma SetScreenSpec(st: UiState, s: Screen)
    ensures var r := ApplyScreen(st, s);
      r.screen == s && Synced(r) &&
      (r.menu.Some? <==> s == MainScreen || s == SettingsScreen || s == WeatherScreen) &&
      (forall m: MenuId :: Selected(r, m) == Selected(st, m)) &&
      r.wifiConnected == st.wifiConnected
  {
  }

  /** Key handling keeps every selection index within its menu and keeps
      the menu pointer in step with the screen once it is. */
  lemma HandleInputKeepsInvariant(st: UiState, data: seq<Byte>, wifiOk: bool)
    requires SelectionsOk(st)
    ensures SelectionsOk(ApplyInput(st, data, wifiOk))
    ensures Synced(st) ==> Synced(ApplyInput(st, data, wifiOk))
  {
    var k := DecodeKey(data);
    if k != KeyNone && k != KeyLeft && st.menu.Some? && (k == KeyEnter || k == KeyRight) {
      var m := st.menu.value;
      SelectedInRange(st, m);
      ApplyActionKeeps(st, Items(m)[Selected(st, m)].action, wifiOk);
    }
  }

  /** An action changes no selection index, leaves the menu in step with
      the screen, and connects Wi-Fi only as the WiFi item with a successful
      connection; it never disconnects. */
  lemma ApplyActionKeeps(st: UiState, a: Action, wifiOk: bool)
    ensures var r := ApplyAction(st, a, wifiOk);
      r.mainSelected == st.mainSelected && r.weatherSelected == st.weatherSelected &&
      r.settingsSelected == st.settingsSelected &&
      (Synced(st) ==> Synced(r)) &&
      (st.wifiConnected ==> r.wifiConnected) &&
      (!st.wifiConnected && r.wifiConnected ==> a == ConnectWifi && wifiOk && r.screen == WifiScreen) &&
      (r.screen == TimeScreen && st.screen != TimeScreen ==> st.wifiConnected)
  {
  }

  /** Up moves the active menu's selection one item up unless it is at the
      top; Down one item down unless it is at the bottom. The screen, the
      other menus' selections and the Wi-Fi flag stay as they are. */
  lemma UpDownMoveSelection(st: UiState, data: seq<Byte>, wifiOk: bool)
    requires SelectionsOk(st) && st.menu.Some?
    requires DecodeKey(data) == KeyUp || DecodeKey(data) == KeyDown
    ensures var r, m := ApplyInput(st, data, wifiOk), st.menu.value;
      var sel := Selected(st, m);
      r.screen == st.screen && r.menu == st.menu && r.wifiConnected == st.wifiConnected &&
      (DecodeKey(data) == KeyUp ==> Selected(r, m) == if sel > 0 then sel - 1 else sel) &&
      (DecodeKey(data) == KeyDown ==> Selected(r, m) == if sel < Count(m) - 1 then sel + 1 else sel) &&
      (forall m' :: m' != m ==> Selected(r, m') == Selected(st, m'))
  {
  }

  /** Left always goes to the parent screen (from a synchronised state),
      whatever menu is active. */
  lemma LeftGoesToParent(st: UiState, data: seq<Byte>, wifiOk: bool)
    requires SelectionsOk(st) && Synced(st)
    requires DecodeKey(data) == KeyLeft
    ensures ApplyInput(st, data, wifiOk) == ApplyScreen(st, Parent(st.screen))
  {
  }

  /** Escape always leads to the main screen and its menu, whether or not a
      menu is active. */
  lemma EscGoesMain(st: UiState, data: seq<Byte>, wifiOk: bool)
    requires SelectionsOk(st)
    requires DecodeKey(data) == KeyEsc
    ensures ApplyInput(st, data, wifiOk) == ApplyScreen(st, MainScreen)
  {
  }

  /** The time screen is entered only while Wi-Fi is connected. */
  lemma TimeNeedsWifi(st: UiState, data: seq<Byte>, wifiOk: bool)
    requires SelectionsOk(st)
    requires st.screen != TimeScreen
    requires ApplyInput(st, data, wifiOk).screen == TimeScreen
    ensures st.wifiConnected
  {
    var k := DecodeKey(data);
    if k != KeyNone && k != KeyLeft && st.menu.Some? && (k == KeyEnter || k == KeyRight) {
      SelectedInRange(st, st.menu.value);
      ApplyActionKeeps(st, Items(st.menu.value)[Selected(st, st.menu.value)].action, wifiOk);
    }
  }

  /** The Time item opens the time screen while Wi-Fi is connected and
      otherwise leaves the whole state as it is. */
  lemma TimeActionSpec(st: UiState, wifiOk: bool)
    ensures st.wifiConnected ==>
      ApplyAction(st, ShowTime, wifiOk).screen == TimeScreen &&
      ApplyAction(st, ShowTime, wifiOk).menu == None
    ensures !st.wifiConnected ==> ApplyAction(st, ShowTime, wifiOk) == st
  {
  }

  /** The item-to-screen table is what the actions do: an action either
      leaves the screen as it is or opens its target, and it opens its
      target whenever it does not need Wi-Fi or Wi-Fi is connected; an
      action without a target changes nothing. */
  lemma ActionTargets(st: UiState, a: Action, wifiOk: bool)
    ensures var r := ApplyAction(st, a, wifiOk);
      (r.screen == st.screen || Target(a) == Some(r.screen)) &&
      (Target(a).Some? && ((a != ShowTime && a != ShowWeatherMtl) || st.wifiConnected) ==>
         r.screen == Target(a).value) &&
      (Target(a).None? ==> r == st)
  {
  }

  /** The first `set_screen(SCREEN_MAIN)` brings the statics into the state
      every later key keeps: synchronised, with in-range selections. */
  lemma StartState()
    ensures var st := ApplyScreen(Initial, MainScreen);
      !Synced(Initial) && Synced(st) && SelectionsOk(st) && st.menu == Some(MainMenu)
  {
  }

  /** Changing screens never touches a selection index: only Up and Down
      move one, and only that of the active menu. */
  lemma SelectionsSurviveScreenChanges(st: UiState, data: seq<Byte>, wifiOk: bool, m: MenuId)
    requires SelectionsOk(st)
    requires st.menu != Some(m) || (DecodeKey(data) != KeyUp && DecodeKey(data) != KeyDown)
    ensures Selected(ApplyInput(st, data, wifiOk), m) == Selected(st, m)
  {
    var k := DecodeKey(data);
    if k != KeyNone && k != KeyLeft && st.menu.Some? && (k == KeyEnter || k == KeyRight) {
      SelectedInRange(st, st.menu.value);
      ApplyActionKeeps(st, Items(st.menu.value)[Selected(st, st.menu.value)].action, wifiOk);
    }
  }

  /** Wi-Fi becomes connected only through the Wi-Fi item, when the
      connection succeeds, and it is never lost. */
  lemma WifiOnlyThroughConnect(st: UiState, data: seq<Byte>, wifiOk: bool)
    requires SelectionsOk(st)
    ensures st.wifiConnected ==> ApplyInput(st, data, wifiOk).wifiConnected
    ensures !st.wifiConnected && ApplyInput(st, data, wifiOk).wifiConnected ==>
      wifiOk && ApplyInput(st, data, wifiOk).screen == WifiScreen
  {
    var k := DecodeKey(data);
    if k != KeyNone && k != KeyLeft && st.menu.Some? && (k == KeyEnter || k == KeyRight) {
      SelectedInRange(st, st.menu.value);
      ApplyActionKeeps(st, Items(st.menu.value)[Selected(st, st.menu.value)].action, wifiOk);
    }
  }

  // ---------------------------------------------------------------------
  // The state as the program updates it

  class Ui {
    var currentScreen: Screen
    var currentMenu: Option<MenuId>
    var mainSelected: int
    var weatherSelected: int
    var settingsSelected: int
    var wifiConnected: bool

    ghost function State(): UiState
      reads this
    {
      UiState(currentScreen, currentMenu, mainSelected, weatherSelected, settingsSelected, wifiConnected)
    }

    ghost predicate Valid()
      reads this
    {
      SelectionsOk(State())
    }

    /** The statics as the program starts. */
    constructor ()
      ensures Valid() && State() == Initial
    {
      currentScreen := MainScreen;
      currentMenu := None;
      mainSelected, weatherSelected, settingsSelected := 0, 0, 0;
      wifiConnected := false;
    }

    /** The selection index of a menu, read through its pointer. */
    method GetSelected(m: MenuId) returns (v: int)
      ensures v == Selected(State(), m)
    {
      match m
      case MainMenu => v := mainSelected;
      case WeatherMenu => v := weatherSelected;
      case SettingsMenu => v := settingsSelected;
    }

    /** Writing a selection index through its pointer. */
    method PutSelected(m: MenuId, v: int)
      modifies this
      ensures State() == WithSelected(old(State()), m, v)
    {
      match m
      case MainMenu => mainSelected := v;
      case WeatherMenu => weatherSelected := v;
      case SettingsMenu => settingsSelected := v;
    }

    /** `set_screen`. */
    method SetScreen(s: Screen)
      modifies this
      ensures State() == ApplyScreen(old(State()), s)
    {
      currentScreen := s;
      match s
      case MainScreen => currentMenu := Some(MainMenu);
      case SettingsScreen => currentMenu := Some(SettingsMenu);
      case WeatherScreen => currentMenu := Some(WeatherMenu);
      case TnhScreen => currentMenu := None;
      case TimeScreen => currentMenu := None;
      case WeatherMtlScreen => currentMenu := None;
      case WifiScreen => currentMenu := None;
      case BtScreen => currentMenu := None;
      case GeoScreen => currentMenu := None;
    }

    /** `go_back_one_menu`. */
    method GoBackOneMenu()
      modifies this
      ensures State() == GoBack(old(State()))
    {
      match currentScreen
      case SettingsScreen | WeatherScreen | TimeScreen => SetScreen(MainScreen);
      case WifiScreen | BtScreen | GeoScreen => SetScreen(SettingsScreen);
      case TnhScreen | WeatherMtlScreen => SetScreen(WeatherScreen);
      case MainScreen =>
    }

    /** The `action_*` functions. */
    method RunAction(a: Action, wifiOk: bool)
      modifies this
      ensures State() == ApplyAction(old(State()), a, wifiOk)
    {
      match a
      case Placeholder =>
      case OpenWeather => SetScreen(WeatherScreen);
      case ShowTnh => SetScreen(TnhScreen);
      case ShowTime =>
        if !wifiConnected {
          return;
        }
        SetScreen(TimeScreen);
      case OpenSettings => SetScreen(SettingsScreen);
      case ShowBt => SetScreen(BtScreen);
      case Back => SetScreen(MainScreen);
      case ShowGeo => SetScreen(GeoScreen);
      case ConnectWifi =>
        SetScreen(WifiScreen);
        if !wifiConnected {
          if !wifiOk {
            return;
          }
          wifiConnected := true;
        }
      case ShowWeatherMtl =>
        if wifiConnected {
          SetScreen(WeatherMtlScreen);
        }
    }

    /** `handle_input`. */
    method HandleInput(data: seq<Byte>, wifiOk: bool)
      requires Valid()
      modifies this
      ensures Valid()
      ensures State() == ApplyInput(old(State()), data, wifiOk)
    {
      HandleInputKeepsInvariant(State(), data, wifiOk);
      var k := DecodeKey(data);
      if k == KeyNone {
        return;
      }
      if k == KeyLeft {
        GoBackOneMenu();
        return;
      }
      if currentMenu.Some? {
        var m := currentMenu.value;
        var sel := GetSelected(m);
        if k == KeyUp && sel > 0 {
          PutSelected(m, sel - 1);
        } else if k == KeyDown && sel < Count(m) - 1 {
          PutSelected(m, sel + 1);
        } else if k == KeyEnter || k == KeyRight {
          RunAction(Items(m)[sel].action, wifiOk);
        } else if k == KeyEsc {
          SetScreen(MainScreen);
        }
      } else {
        if k == KeyEsc {
          SetScreen(MainScreen);
        }
      }
    }
  }
}
