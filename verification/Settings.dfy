/** From the loaded configuration to the joystick: which configurations, once loaded, bring a reconnected
    device fully up to date (daemon/x52d_config.c:106-112, daemon/x52d_config.def:19-66). */
module Settings {
  import opened Prelude
  import opened Bits
  import opened IniText
  import opened Numbers
  import opened Config
  import opened ConfigStore
  import opened SaveLoad
  import Panel
  import Shadow
  import Update
  import Runs
  import Resync

  /** A value that a parser can have stored: enumerations hold one of their members. */
  predicate InDomain(kind: Kind, v: Value) {
    match kind
    case BoolKind => v.Flag?
    case StringKind => v.Chars?
    case IntKind => v.Number?
    case LedKind => v.Number? && 0 <= v.n <= 4
    case ClockFormatKind => v.Number? && 0 <= v.n <= 1
    case DateFormatKind => v.Number? && 0 <= v.n <= 2
  }

  lemma ParsedInDomain(kind: Kind, value: string)
    ensures Parse(kind, value).Some? ==> InDomain(kind, Parse(kind, value).value)
  {
    hide ParseInt, SameName;
  }

  lemma {:induction false} LastInDomain(calls: seq<Call>, i: nat)
    requires i < KEYS
    ensures Last(calls, i).Some? ==> InDomain(Entry(i).kind, Last(calls, i).value)
  {
    hide Entry, Parse, InDomain, KeyIndex;
    if calls != [] {
      LastInDomain(calls[..|calls| - 1], i);
      ParsedInDomain(Entry(i).kind, calls[|calls| - 1].value);
    }
  }

  /** After a successful load every field holds a value of its domain, whatever the file contained. */
  lemma LoadedInDomain(store: Store, file: Option<seq<Call>>, overrides: seq<Call>, i: nat)
    requires |store| == KEYS && i < KEYS && Load(store, file, overrides).1
    ensures InDomain(Entry(i).kind, Load(store, file, overrides).0[i])
  {
    hide Entry, InDomain, Load, Last;
    LoadPrecedence(store, file, overrides, i);
    LastInDomain(DefaultCalls(KEYS) + file.value + overrides, i);
  }

  ghost predicate AllInDomain(store: Store) {
    |store| == KEYS && forall i :: 0 <= i < KEYS ==> InDomain(Entry(i).kind, store[i])
  }

  lemma Kinds(i: nat)
    requires i < KEYS
    ensures Entry(i).kind ==
              if i == 2 || i == 3 || i == 24 then StringKind
              else if 4 <= i <= 6 then ClockFormatKind
              else if i == 7 then DateFormatKind
              else if 8 <= i <= 18 then LedKind
              else if i == 19 || i == 20 || i == 22 then IntKind
              else BoolKind
  {
  }

  lemma KindsInDomain(store: Store)
    requires AllInDomain(store)
    ensures |store| == KEYS && store[0].Flag? && store[2].Chars? && store[3].Chars?
    ensures store[19].Number? && store[20].Number?
    ensures forall i :: 4 <= i <= 6 ==> store[i].Number? && 0 <= store[i].n <= 1
    ensures store[7].Number? && 0 <= store[7].n <= 2
    ensures forall i :: 8 <= i <= 18 ==> store[i].Number? && 0 <= store[i].n <= 4
  {
    hide Entry;
    forall i | 0 <= i < KEYS
      ensures InDomain(Entry(i).kind, store[i])
      ensures 4 <= i <= 6 ==> Entry(i).kind == ClockFormatKind
      ensures 8 <= i <= 18 ==> Entry(i).kind == LedKind
    {
      Kinds(i);
    }
    Kinds(0);
    Kinds(2);
    Kinds(3);
    Kinds(7);
    Kinds(19);
    Kinds(20);
  }

  /** What x52d_config_apply passes on to the device. `offsetOf` resolves a timezone name to minutes. */
  ghost function ToDevice(store: Store, offsetOf: string -> int): Resync.DeviceConfig
    requires AllInDomain(store)
  {
    KindsInDomain(store);
    Resync.DeviceConfig(
      store[0].on,
      offsetOf(store[2].text),
      offsetOf(store[3].text),
      [store[4].n, store[5].n, store[6].n],
      store[7].n,
      seq(|Resync.LEDS|, i requires 0 <= i < |Resync.LEDS| => store[8 + i].n),
      store[19].n,
      store[20].n)
  }

  /** The settings that the joystick accepts of those the daemon accepts: the clock is enabled, the fire and
      throttle LEDs are off or on, and no other LED is just on. */
  predicate Supported(store: Store)
    requires |store| == KEYS
    requires store[0].Flag? && forall i :: 8 <= i <= 18 ==> store[i].Number?
  {
    && store[0].on
    && (forall i :: 8 <= i <= 9 ==> store[i].n <= 1)
    && (forall i :: 10 <= i <= 18 ==> store[i].n != 1)
  }

  lemma LegalIffSupported(store: Store, offsetOf: string -> int)
    requires AllInDomain(store)
    ensures |store| == KEYS && store[0].Flag? && forall i :: 8 <= i <= 20 ==> store[i].Number?
    ensures var c := ToDevice(store, offsetOf);
            && Resync.WellFormed(c) && Shadow.DDMMYY <= c.dateFormat <= Shadow.YYMMDD
            && (Resync.Legal(c) <==> Supported(store))
  {
    hide AllInDomain, InDomain;
    KindsInDomain(store);
    var c := ToDevice(store, offsetOf);
    forall i | 0 <= i < |Resync.LEDS|
      ensures Resync.LegalLed(Resync.LEDS[i], c.leds[i]) <==>
                if i < 2 then store[8 + i].n <= 1 else store[8 + i].n != 1
    {
      assert c.leds[i] == store[8 + i].n;
    }
    if Resync.Legal(c) {
      forall i | 8 <= i <= 18
        ensures if i < 10 then store[i].n <= 1 else store[i].n != 1
      {
        var k := i - 8;
        assert Resync.LegalLed(Resync.LEDS[k], c.leds[k]);
      }
    }
  }

  /** What an LED or brightness register shows for the loaded settings. */
  function Setting(store: Store, b: Bit): Panel.Reg
    requires |store| == KEYS && (forall i :: 8 <= i <= 20 ==> store[i].Number?) && Resync.LampBit(b)
  {
    if b == 25 then Panel.Level(U16(store[19].n))
    else if b == 26 then Panel.Level(U16(store[20].n))
    else
      var state := store[8 + Resync.LedIndex(b)].n;
      if b == 1 || b == 20 then Panel.Lamp(state == Shadow.LED_ON)
      else if b % 2 == 0 then Panel.Lamp(state == Shadow.LED_RED || state == Shadow.LED_AMBER)
      else Panel.Lamp(state == Shadow.LED_GREEN || state == Shadow.LED_AMBER)
  }

  /** The shadow holds the clock settings of the store: the formats, and the timezones as far as the joystick
      takes their offsets. */
  ghost predicate HoldsClock(s: Shadow.State, store: Store, offsetOf: string -> int)
    requires |s.timezone| == 3 && |s.clock24| == 3 && AllInDomain(store)
  {
    KindsInDomain(store);
    var second, third := offsetOf(store[2].text), offsetOf(store[3].text);
    && s.dateFormat == store[7].n
    && (forall k :: 0 <= k < 3 ==> s.clock24[k] == (store[4 + k].n == 1))
    && (Resync.InRange(second) ==> s.timezone[1] == second)
    && (Resync.InRange(third) ==> s.timezone[2] == third)
  }

  /** The shadow holds the clock settings of the store and the next update can finish; then every register of
      the configuration shows the shadow, and the LEDs and brightness levels are as the store has them. */
  ghost predicate BringsUpToDate(ready: Runs.Sys, store: Store, offsetOf: string -> int)
    requires Runs.ValidSys(ready) && AllInDomain(store)
  {
    KindsInDomain(store);
    && HoldsClock(ready.shadow, store, offsetOf)
    && Runs.Enabled(ready, Runs.Write(Update.Finished, false))
    && var done := Runs.Next(ready, Runs.Write(Update.Finished, false));
       && Runs.ValidSys(done)
       && (forall b: Bit :: Resync.DaemonBit(b) ==> Panel.Shown(done.panel, b) == Shadow.Wanted(ready.shadow, b))
       && (forall b: Bit :: Resync.LampBit(b) ==> Panel.Shown(done.panel, b) == Setting(store, b))
       && ShowsLevel(done.panel, 25, store[19].n) && ShowsLevel(done.panel, 26, store[20].n)
  }

  /** A brightness register shows the configured number: all 16 bits of it, so the number itself if it fits. */
  ghost predicate ShowsLevel(p: Panel.Panel, b: Bit, n: int)
    requires Panel.ValidPanel(p)
  {
    && (0 <= n < 0x1_0000 ==> Panel.Shown(p, b) == Panel.Level(n))
    && Panel.Shown(p, b).Level? && (Panel.Shown(p, b).level - n) % 0x1_0000 == 0
  }

  lemma SettingShowsLevel(store: Store, p: Panel.Panel, b: Bit)
    requires |store| == KEYS && (forall i :: 8 <= i <= 20 ==> store[i].Number?) && Panel.ValidPanel(p)
    requires 25 <= b <= 26 && Panel.Shown(p, b) == Setting(store, b)
    ensures ShowsLevel(p, b, store[b - 6].n)
  {
    hide Panel.Shown;
    U16Keeps(store[b - 6].n);
  }

  /** The LED that each register is a lamp of, by its key. */
  function LedKey(b: Bit): string
    requires 1 <= b <= 20
  {
    if b == 1 then "Fire"
    else if b <= 3 then "A"
    else if b <= 5 then "B"
    else if b <= 7 then "D"
    else if b <= 9 then "E"
    else if b <= 11 then "T1"
    else if b <= 13 then "T2"
    else if b <= 15 then "T3"
    else if b <= 17 then "POV"
    else if b <= 19 then "Clutch"
    else "Throttle"
  }

  /** A lamp is set from the key of its LED. */
  lemma LampHasItsKey(b: Bit)
    requires 1 <= b <= 20
    ensures Entry(8 + Resync.LedIndex(b)).section == "LED" && Entry(8 + Resync.LedIndex(b)).key == LedKey(b)
  {
  }

  lemma SettingIsConfigured(store: Store, offsetOf: string -> int, b: Bit)
    requires AllInDomain(store) && Resync.LampBit(b)
    ensures |store| == KEYS && forall i :: 8 <= i <= 20 ==> store[i].Number?
    ensures var c, k := ToDevice(store, offsetOf), Resync.SetterOf(b);
            && Resync.WellFormed(c) && |Resync.ConfigOps(c)| >= 13
            && (c.clockEnabled ==>
                 && |Resync.ConfigOps(c)| == 19
                 && (Resync.ConfigOps(c)[k].SetLed? || Resync.ConfigOps(c)[k].SetBrightness?)
                 && Resync.Configured(Resync.ConfigOps(c)[k], b) == Setting(store, b))
  {
    hide AllInDomain, InDomain;
    KindsInDomain(store);
    var c := ToDevice(store, offsetOf);
    if c.clockEnabled && b <= 20 {
      var i := Resync.LedIndex(b);
      assert Resync.ConfigOps(c)[6 + i] == Shadow.SetLed(Resync.LEDS[i], c.leds[i]);
      assert c.leds[i] == store[8 + i].n;
    }
  }

  lemma ClockIsHeld(st: Runs.Sys, p: Panel.Panel, store: Store, offsetOf: string -> int, now: int)
    requires Runs.Coherent(st) && Panel.ValidPanel(p) && AllInDomain(store) && store[0].Flag? && store[0].on
    ensures Resync.WellFormed(ToDevice(store, offsetOf))
    ensures HoldsClock(Resync.Reconfigured(st, p, true, ToDevice(store, offsetOf), now).shadow, store, offsetOf)
  {
    hide AllInDomain, InDomain, Resync.Reconfigured, Runs.Coherent, Panel.ValidPanel;
    KindsInDomain(store);
    var c := ToDevice(store, offsetOf);
    Resync.ReconnectHolds(st, p, true, c, Resync.TheDateFormat, now);
    forall k | 0 <= k < 3
      ensures Resync.Reconfigured(st, p, true, c, now).shadow.clock24[k] == (store[4 + k].n == 1)
    {
      Resync.ReconnectHolds(st, p, true, c, Resync.TheHours(k), now);
    }
    if Resync.InRange(c.offset2) {
      Resync.ReconnectHolds(st, p, true, c, Resync.TheZone(1), now);
    }
    if Resync.InRange(c.offset3) {
      Resync.ReconnectHolds(st, p, true, c, Resync.TheZone(2), now);
    }
  }

  lemma SupportedBringsUpToDate(st: Runs.Sys, p: Panel.Panel, store: Store, offsetOf: string -> int, now: int)
    requires Runs.Coherent(st) && Panel.ValidPanel(p) && AllInDomain(store) && store[0].Flag? && store[0].on
    requires Resync.WellFormed(ToDevice(store, offsetOf)) && Resync.Legal(ToDevice(store, offsetOf))
    ensures BringsUpToDate(Resync.Reconfigured(st, p, true, ToDevice(store, offsetOf), now), store, offsetOf)
  {
    hide Resync.ConfigOps, Resync.Calls, Panel.Shown, Shadow.Wanted, Runs.Coherent;
    hide ToDevice, Setting, AllInDomain, Resync.Configured, Resync.SetterOf, HoldsClock;
    var c := ToDevice(store, offsetOf);
    ClockIsHeld(st, p, store, offsetOf, now);
    LegalIffSupported(store, offsetOf);
    var ready := Resync.Reconfigured(st, p, true, c, now);
    Resync.ReconnectResync(st, p, c, now, 1);
    var done := Runs.Next(ready, Runs.Write(Update.Finished, false));
    forall b: Bit | Resync.DaemonBit(b)
      ensures Panel.Shown(done.panel, b) == Shadow.Wanted(ready.shadow, b)
    {
      Resync.ReconnectResync(st, p, c, now, b);
    }
    SettingIsConfigured(store, offsetOf, 1);
    forall b: Bit | Resync.LampBit(b)
      ensures Panel.Shown(done.panel, b) == Setting(store, b)
    {
      Resync.ReconnectShowsSettings(st, p, c, now, b);
      SettingIsConfigured(store, offsetOf, b);
    }
    hide ShowsLevel;
    SettingShowsLevel(store, done.panel, 25);
    SettingShowsLevel(store, done.panel, 26);
  }

  /** What applying a store to a reconnected X52 Pro amounts to: it marks every register of the configuration
      exactly when the settings are supported, and then it brings the joystick up to date. */
  ghost predicate ReachesDevice(store: Store, offsetOf: string -> int, st: Runs.Sys, p: Panel.Panel, now: int)
    requires AllInDomain(store) && Runs.Coherent(st) && Panel.ValidPanel(p)
  {
    KindsInDomain(store);
    var c := ToDevice(store, offsetOf);
    && Resync.WellFormed(c)
    && (Supported(store) <==> forall b: Bit :: Resync.DaemonBit(b) ==> b in Resync.AllMarks(Resync.ConfigOps(c)))
    && (Supported(store) ==> BringsUpToDate(Resync.Reconfigured(st, p, true, c, now), store, offsetOf))
  }

  /** However the configuration was loaded and whatever happened before: its date format is one the device
      knows, and applying it reaches the device. */
  lemma LoadedConfigReachesDevice(store: Store, file: Option<seq<Call>>, overrides: seq<Call>,
                                  offsetOf: string -> int, st: Runs.Sys, p: Panel.Panel, now: int)
    requires |store| == KEYS && Load(store, file, overrides).1
    requires Runs.Coherent(st) && Panel.ValidPanel(p)
    ensures AllInDomain(Load(store, file, overrides).0)
    ensures ReachesDevice(Load(store, file, overrides).0, offsetOf, st, p, now)
  {
    hide Load, Entry, InDomain, Supported, Resync.ConfigOps, Resync.AllMarks, Resync.Legal, BringsUpToDate,
         Resync.Reconfigured;
    hide Runs.Coherent, Panel.ValidPanel;
    var loaded := Load(store, file, overrides).0;
    forall i | 0 <= i < KEYS
      ensures InDomain(Entry(i).kind, loaded[i])
    {
      LoadedInDomain(store, file, overrides, i);
    }
    LegalIffSupported(loaded, offsetOf);
    var c := ToDevice(loaded, offsetOf);
    Resync.ConfigMarksAllIffLegal(c);
    if Supported(loaded) {
      assert loaded[0].on by {
        EnabledIfSupported(loaded);
      }
      SupportedBringsUpToDate(st, p, loaded, offsetOf, now);
    }
  }

  lemma EnabledIfSupported(store: Store)
    requires |store| == KEYS && store[0].Flag? && (forall i :: 8 <= i <= 18 ==> store[i].Number?) && Supported(store)
    ensures store[0].on
  {
  }

  /** From text to lamps: the same for a file with any text and any accepted overrides. */
  lemma FileReachesDevice(store: Store, text: string, overrides: seq<Call>,
                          offsetOf: string -> int, st: Runs.Sys, p: Panel.Panel, now: int)
    requires |store| == KEYS && forall k :: 0 <= k < |overrides| ==> Accepted(overrides[k])
    requires Runs.Coherent(st) && Panel.ValidPanel(p)
    ensures var loaded := Load(store, Some(FileCalls(text)), overrides);
            loaded.1 && AllInDomain(loaded.0) && ReachesDevice(loaded.0, offsetOf, st, p, now)
  {
    hide Load, FileCalls, AllInDomain, ReachesDevice, Accepted, Last, DefaultCalls;
    LoadPrecedence(store, Some(FileCalls(text)), overrides, 0);
    LoadedConfigReachesDevice(store, Some(FileCalls(text)), overrides, offsetOf, st, p, now);
  }

  /** From a saved configuration to lamps: a configuration that survives saving and loading reaches the device
      as it was saved, whatever the daemon held when it loaded the file. */
  lemma SavedConfigReachesDevice(store: Store, held: Store, offsetOf: string -> int, st: Runs.Sys, p: Panel.Panel,
                                 now: int)
    requires WellTyped(store) && |held| == KEYS && forall i :: 0 <= i < KEYS ==> Survives(i, store[i])
    requires Runs.Coherent(st) && Panel.ValidPanel(p)
    ensures Load(held, Some(FileCalls(SaveText(store))), []) == (store, true)
    ensures AllInDomain(store) && ReachesDevice(store, offsetOf, st, p, now)
  {
    hide Survives, AllInDomain, ReachesDevice, AssignAll, AssignUntil, FileCalls, SaveText, Runs.Coherent,
         Panel.ValidPanel;
    SaveLoadInverseIff(store);
    LoadWithoutOverrides(held, FileCalls(SaveText(store)));
    FileReachesDevice(held, SaveText(store), [], offsetOf, st, p, now);
  }
}
