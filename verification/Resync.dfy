/** The daemon's recovery after a reconnect: x52d_config_apply sets everything it owns again
    (daemon/x52d_config.c, x52d_config.def, x52d_clock.c, x52d_led.c). */
module Resync {
  import opened Prelude
  import opened Bits
  import opened Panel
  import opened Shadow
  import opened Update
  import opened Runs

  /** The settings that reach the joystick. Timezone names appear as the offsets they resolve to. */
  datatype DeviceConfig = DeviceConfig(
    clockEnabled: bool,
    offset2: int,
    offset3: int,
    clockFormats: seq<int>,
    dateFormat: int,
    leds: seq<int>,
    mfdBrightness: int,
    ledBrightness: int)

  /** The LEDs in the order of the configuration: Fire, Throttle, A, B, D, E, T1, T2, T3, POV, Clutch. */
  const LEDS: seq<Bit> := [1, 20, 2, 4, 6, 8, 10, 12, 14, 16, 18]

  ghost predicate WellFormed(c: DeviceConfig) {
    |c.clockFormats| == 3 && |c.leds| == |LEDS|
  }

  function ClockOps(c: DeviceConfig): seq<Op>
    requires |c.clockFormats| == 3
  {
    if c.clockEnabled then
      [SetTimezone(1, c.offset2), SetTimezone(2, c.offset3),
       SetClockFormat(0, c.clockFormats[0]), SetClockFormat(1, c.clockFormats[1]), SetClockFormat(2, c.clockFormats[2]),
       SetDateFormat(c.dateFormat)]
    else []
  }

  function LedOps(leds: seq<int>, n: nat): (ops: seq<Op>)
    requires n <= |leds| == |LEDS|
    ensures |ops| == n && forall i :: 0 <= i < n ==> ops[i] == SetLed(LEDS[i], leds[i])
  {
    if n == 0 then [] else LedOps(leds, n - 1) + [SetLed(LEDS[n - 1], leds[n - 1])]
  }

  /** The setter calls of x52d_config_apply, in order. */
  function ConfigOps(c: DeviceConfig): seq<Op>
    requires WellFormed(c)
  {
    ClockOps(c) + LedOps(c.leds, |LEDS|)
      + [SetBrightness(true, U16(c.mfdBrightness)), SetBrightness(false, U16(c.ledBrightness))]
  }

  /** The registers one of these calls marks on an X52 Pro. */
  function Marks(op: Op): Mask {
    match op
    case SetTimezone(clock, offset) =>
      if -1440 <= offset <= 1440 && 1 <= clock <= 2 then {28 + clock} else {}
    case SetClockFormat(clock, format) =>
      if 0 <= format <= 1 && 0 <= clock <= 2 then {28 + clock} else {}
    case SetDateFormat(_) => {MFD_DATE}
    case SetLed(led, state) =>
      if led == LED_FIRE || led == LED_THROTTLE then (if 0 <= state <= 1 then {led} else {})
      else if ColorLed(led) && 0 <= state <= 4 && state != LED_ON then {led, led + 1} else {}
    case SetBrightness(mfd, _) => {if mfd then 25 else 26}
    case _ => {}
  }

  predicate DaemonOp(op: Op) {
    op.SetTimezone? || op.SetClockFormat? || op.SetDateFormat? || op.SetLed? || op.SetBrightness?
  }

  lemma MarksExactly(op: Op, s: State)
    requires ValidState(s) && s.pro && DaemonOp(op)
    ensures Apply(op, s).0.dirty == s.dirty + Marks(op) && Apply(op, s).0.pro
  {
  }

  ghost function AllMarks(ops: seq<Op>): Mask {
    if ops == [] then {} else Marks(ops[0]) + AllMarks(ops[1..])
  }

  lemma {:induction false} AllMarksIn(ops: seq<Op>, b: Bit)
    ensures b in AllMarks(ops) <==> exists i :: 0 <= i < |ops| && b in Marks(ops[i])
  {
    if ops != [] {
      AllMarksIn(ops[1..], b);
      assert forall i :: 0 <= i < |ops[1..]| ==> ops[1..][i] == ops[i + 1];
      if i :| 0 <= i < |ops| && b in Marks(ops[i]) && i > 0 {
        assert b in Marks(ops[1..][i - 1]);
      }
    }
  }

  /** The system after a series of calls. */
  ghost function Calls(st: Sys, ops: seq<Op>, now: int): (r: Sys)
    requires ValidSys(st) && forall i :: 0 <= i < |ops| ==> DaemonOp(ops[i])
    ensures ValidSys(r)
    decreases |ops|
  {
    if ops == [] then st else
      assert DaemonOp(ops[0]);
      ApplyKeepsValid(ops[0], st.shadow);
      Calls(Next(st, Call(ops[0], now)), ops[1..], now)
  }

  lemma {:induction false} CallsMark(st: Sys, ops: seq<Op>, now: int)
    requires Coherent(st) && st.shadow.pro
    requires forall i :: 0 <= i < |ops| ==> DaemonOp(ops[i])
    ensures Coherent(Calls(st, ops, now)) && Calls(st, ops, now).shadow.pro
    ensures Calls(st, ops, now).attached == st.attached
    ensures Calls(st, ops, now).shadow.dirty == st.shadow.dirty + AllMarks(ops)
    decreases |ops|
  {
    if ops != [] {
      assert DaemonOp(ops[0]);
      CallKeepsCoherent(st, ops[0], now);
      MarksExactly(ops[0], st.shadow);
      CallsMark(Next(st, Call(ops[0], now)), ops[1..], now);
    }
  }

  /** Every register the daemon's configuration owns. */
  predicate DaemonBit(b: Bit) {
    1 <= b <= 20 || 25 <= b <= 30
  }

  predicate LegalLed(led: Bit, state: int) {
    if led == LED_FIRE || led == LED_THROTTLE then 0 <= state <= 1 else 0 <= state <= 4 && state != LED_ON
  }

  predicate LegalFormat(format: int) {
    0 <= format <= 1
  }

  predicate InRange(offset: int) {
    -1440 <= offset <= 1440
  }

  /** The clock is enabled, LED states are legal, and each clock has a legal format or an accepted timezone. */
  predicate Legal(c: DeviceConfig)
    requires WellFormed(c)
  {
    && c.clockEnabled
    && LegalFormat(c.clockFormats[0])
    && (LegalFormat(c.clockFormats[1]) || InRange(c.offset2))
    && (LegalFormat(c.clockFormats[2]) || InRange(c.offset3))
    && forall i :: 0 <= i < |LEDS| ==> LegalLed(LEDS[i], c.leds[i])
  }

  /** The position in the configuration of the LED that owns a register. */
  function LedIndex(b: Bit): (i: nat)
    requires 1 <= b <= 20
    ensures i < |LEDS| && (LEDS[i] == b || (ColorLed(LEDS[i]) && LEDS[i] + 1 == b))
  {
    if b == 1 then 0 else if b == 20 then 1 else b / 2 + 1
  }

  lemma LedOwner(i: nat, state: int, b: Bit)
    requires i < |LEDS|
    ensures b in Marks(SetLed(LEDS[i], state)) <==> 1 <= b <= 20 && i == LedIndex(b) && LegalLed(LEDS[i], state)
  {
  }

  lemma LedsMark(leds: seq<int>, b: Bit)
    requires |leds| == |LEDS|
    ensures b in AllMarks(LedOps(leds, |LEDS|)) <==>
              1 <= b <= 20 && LegalLed(LEDS[LedIndex(b)], leds[LedIndex(b)])
  {
    var ops := LedOps(leds, |LEDS|);
    AllMarksIn(ops, b);
    forall i | 0 <= i < |LEDS|
      ensures b in Marks(ops[i]) <==> 1 <= b <= 20 && i == LedIndex(b) && LegalLed(LEDS[i], leds[i])
    {
      LedOwner(i, leds[i], b);
    }
  }

  lemma ClockMarks(c: DeviceConfig, b: Bit)
    requires |c.clockFormats| == 3
    ensures b in AllMarks(ClockOps(c)) <==>
              c.clockEnabled &&
              (b == 27
               || (b == 28 && LegalFormat(c.clockFormats[0]))
               || (b == 29 && (LegalFormat(c.clockFormats[1]) || InRange(c.offset2)))
               || (b == 30 && (LegalFormat(c.clockFormats[2]) || InRange(c.offset3))))
  {
    var ops := ClockOps(c);
    AllMarksIn(ops, b);
    if c.clockEnabled {
      assert ops[0] == SetTimezone(1, c.offset2) && ops[1] == SetTimezone(2, c.offset3);
      assert ops[2] == SetClockFormat(0, c.clockFormats[0]) && ops[3] == SetClockFormat(1, c.clockFormats[1]);
      assert ops[4] == SetClockFormat(2, c.clockFormats[2]) && ops[5] == SetDateFormat(c.dateFormat);
    }
  }

  lemma {:induction false} AllMarksConcat(x: seq<Op>, y: seq<Op>)
    ensures AllMarks(x + y) == AllMarks(x) + AllMarks(y)
    decreases |x|
  {
    hide Marks;
    if x == [] {
      assert x + y == y;
    } else {
      assert (x + y)[1..] == x[1..] + y;
      AllMarksConcat(x[1..], y);
    }
  }

  lemma BrightnessMarks(mfd: uint16, led: uint16)
    ensures AllMarks([SetBrightness(true, mfd), SetBrightness(false, led)]) == {25, 26}
    ensures Marks(SetBrightness(true, mfd)) == {25} && Marks(SetBrightness(false, led)) == {26}
  {
    assert [SetBrightness(true, mfd), SetBrightness(false, led)][1..] == [SetBrightness(false, led)];
    assert AllMarks([SetBrightness(false, led)]) == {26};
  }

  lemma ConfigMarks(c: DeviceConfig, b: Bit)
    requires WellFormed(c)
    ensures b in AllMarks(ConfigOps(c)) <==>
              b in AllMarks(ClockOps(c)) || b in AllMarks(LedOps(c.leds, |LEDS|)) || b == 25 || b == 26
  {
    hide AllMarks, Marks, ClockOps, LedOps;
    AllMarksConcat(ClockOps(c) + LedOps(c.leds, |LEDS|),
                   [SetBrightness(true, U16(c.mfdBrightness)), SetBrightness(false, U16(c.ledBrightness))]);
    AllMarksConcat(ClockOps(c), LedOps(c.leds, |LEDS|));
    BrightnessMarks(U16(c.mfdBrightness), U16(c.ledBrightness));
  }

  /** Applying the configuration marks every register it owns exactly when the configuration is legal. */
  lemma ConfigMarksAllIffLegal(c: DeviceConfig)
    requires WellFormed(c)
    ensures (forall b: Bit :: DaemonBit(b) ==> b in AllMarks(ConfigOps(c))) <==> Legal(c)
  {
    forall b: Bit
      ensures DaemonBit(b) ==>
                (b in AllMarks(ConfigOps(c)) <==>
                   b in AllMarks(ClockOps(c)) || b in AllMarks(LedOps(c.leds, |LEDS|)) || b == 25 || b == 26)
      ensures b in AllMarks(LedOps(c.leds, |LEDS|)) <==>
                1 <= b <= 20 && LegalLed(LEDS[LedIndex(b)], c.leds[LedIndex(b)])
    {
      ConfigMarks(c, b);
      LedsMark(c.leds, b);
    }
    ClockMarks(c, 27);
    ClockMarks(c, 28);
    ClockMarks(c, 29);
    ClockMarks(c, 30);
    if forall b: Bit :: DaemonBit(b) ==> b in AllMarks(ConfigOps(c)) {
      LegalIfMarked(c);
    } else {
      var b: Bit :| DaemonBit(b) && b !in AllMarks(ConfigOps(c));
      ClockMarks(c, b);
    }
  }

  lemma LegalIfMarked(c: DeviceConfig)
    requires WellFormed(c)
    requires forall b: Bit :: DaemonBit(b) ==> b in AllMarks(ConfigOps(c))
    ensures Legal(c)
  {
    forall i | 0 <= i < |LEDS|
      ensures LegalLed(LEDS[i], c.leds[i])
    {
      var b := LEDS[i];
      assert DaemonBit(b) && LedIndex(b) == i;
      ConfigMarks(c, b);
      ClockMarks(c, b);
      LedsMark(c.leds, b);
    }
    forall b: Bit | 27 <= b <= 30
      ensures b in AllMarks(ClockOps(c))
    {
      assert DaemonBit(b);
      ConfigMarks(c, b);
      LedsMark(c.leds, b);
    }
    ClockMarks(c, 27);
    ClockMarks(c, 28);
    ClockMarks(c, 29);
    ClockMarks(c, 30);
  }

  // ----- what the shadow holds for the clock --------------------------------------------------

  /** A field of the shadow that belongs to the clock. */
  datatype ClockField = TheDateFormat | TheZone(clock: int) | TheHours(clock: int)

  predicate IsField(f: ClockField) {
    match f
    case TheDateFormat => true
    case TheZone(clock) => 1 <= clock <= 2
    case TheHours(clock) => 0 <= clock <= 2
  }

  function Held(s: State, f: ClockField): int
    requires IsField(f) && |s.timezone| == 3 && |s.clock24| == 3
  {
    match f
    case TheDateFormat => s.dateFormat
    case TheZone(clock) => s.timezone[clock]
    case TheHours(clock) => if s.clock24[clock] then 1 else 0
  }

  /** What a call stores in a field, if it does. */
  function Stored(op: Op, f: ClockField): Option<int> {
    match f
    case TheDateFormat => if op.SetDateFormat? then Some(op.format) else None
    case TheZone(clock) => if op.SetTimezone? && op.clock == clock && InRange(op.offset) then Some(op.offset) else None
    case TheHours(clock) =>
      if op.SetClockFormat? && op.clock == clock && LegalFormat(op.format) then Some(op.format) else None
  }

  lemma StoresField(op: Op, s: State, f: ClockField)
    requires ValidState(s) && DaemonOp(op) && IsField(f)
    ensures ValidState(Apply(op, s).0)
    ensures Held(Apply(op, s).0, f) == if Stored(op, f).Some? then Stored(op, f).value else Held(s, f)
  {
    hide SetLedState;
    ApplyKeepsValid(op, s);
    LedKeepsFields(op, s, f);
  }

  lemma LedKeepsFields(op: Op, s: State, f: ClockField)
    requires ValidState(s) && IsField(f)
    ensures op.SetLed? ==> Apply(op, s).0.timezone == s.timezone && Apply(op, s).0.clock24 == s.clock24
    ensures op.SetLed? ==> Apply(op, s).0.dateFormat == s.dateFormat
  {
  }

  lemma {:induction false} CallsKeepField(st: Sys, ops: seq<Op>, f: ClockField, now: int)
    requires ValidSys(st) && IsField(f)
    requires forall i :: 0 <= i < |ops| ==> DaemonOp(ops[i]) && Stored(ops[i], f).None?
    ensures Held(Calls(st, ops, now).shadow, f) == Held(st.shadow, f)
    decreases |ops|
  {
    hide Apply, DaemonOp, Stored, ValidLine, ValidDate;
    if ops != [] {
      assert DaemonOp(ops[0]) && Stored(ops[0], f).None?;
      OpStep(st, ops[0], now);
      StoresField(ops[0], st.shadow, f);
      CallsKeepField(Next(st, Call(ops[0], now)), ops[1..], f, now);
    }
  }

  /** The last call that stores a field decides what it holds. */
  lemma {:induction false} CallsSetField(st: Sys, ops: seq<Op>, k: nat, f: ClockField, now: int)
    requires ValidSys(st) && IsField(f) && k < |ops| && Stored(ops[k], f).Some?
    requires forall i :: 0 <= i < |ops| ==> DaemonOp(ops[i])
    requires forall i :: k < i < |ops| ==> Stored(ops[i], f).None?
    ensures Held(Calls(st, ops, now).shadow, f) == Stored(ops[k], f).value
    decreases |ops|
  {
    hide Apply, DaemonOp, Stored, ValidLine, ValidDate;
    assert DaemonOp(ops[0]);
    OpStep(st, ops[0], now);
    var next := Next(st, Call(ops[0], now));
    if k == 0 {
      StoresField(ops[0], st.shadow, f);
      CallsKeepField(next, ops[1..], f, now);
    } else {
      CallsSetField(next, ops[1..], k - 1, f, now);
    }
  }

  /** The call of the configuration that is for a field, and what it asks for. */
  function CallFor(f: ClockField): (k: nat)
    requires IsField(f)
    ensures k < 6
  {
    match f
    case TheDateFormat => 5
    case TheZone(clock) => clock - 1
    case TheHours(clock) => 2 + clock
  }

  function Asked(c: DeviceConfig, f: ClockField): int
    requires |c.clockFormats| == 3 && IsField(f)
  {
    match f
    case TheDateFormat => c.dateFormat
    case TheZone(clock) => if clock == 1 then c.offset2 else c.offset3
    case TheHours(clock) => c.clockFormats[clock]
  }

  /** The values a field accepts: any date format, offsets of at most a day, the two clock formats. */
  predicate Accepts(f: ClockField, value: int) {
    match f
    case TheDateFormat => true
    case TheZone(_) => InRange(value)
    case TheHours(_) => LegalFormat(value)
  }

  lemma CallsForField(c: DeviceConfig, f: ClockField)
    requires WellFormed(c) && IsField(f) && c.clockEnabled && Accepts(f, Asked(c, f))
    ensures var ops, k := ConfigOps(c), CallFor(f);
            && k < |ops| && Stored(ops[k], f) == Some(Asked(c, f))
            && forall i :: k < i < |ops| ==> Stored(ops[i], f).None?
  {
    var ops := ConfigOps(c);
    assert ops[0] == SetTimezone(1, c.offset2) && ops[1] == SetTimezone(2, c.offset3);
    assert ops[2] == SetClockFormat(0, c.clockFormats[0]) && ops[3] == SetClockFormat(1, c.clockFormats[1]);
    assert ops[4] == SetClockFormat(2, c.clockFormats[2]) && ops[5] == SetDateFormat(c.dateFormat);
    assert forall i :: 6 <= i < 17 ==> ops[i] == SetLed(LEDS[i - 6], c.leds[i - 6]);
  }

  /** After the calls of a configuration with the clock enabled the shadow holds every clock setting that is
      accepted, whatever it held before. */
  lemma ConfigHeld(st: Sys, c: DeviceConfig, f: ClockField, now: int)
    requires ValidSys(st) && WellFormed(c) && IsField(f) && c.clockEnabled && Accepts(f, Asked(c, f))
    ensures forall k :: 0 <= k < |ConfigOps(c)| ==> DaemonOp(ConfigOps(c)[k])
    ensures Held(Calls(st, ConfigOps(c), now).shadow, f) == Asked(c, f)
  {
    hide ConfigOps, Stored, DaemonOp, Calls;
    OnlyDaemonOps(c);
    CallsForField(c, f);
    CallsSetField(st, ConfigOps(c), CallFor(f), f, now);
  }

  lemma OnlyDaemonOps(c: DeviceConfig)
    requires WellFormed(c)
    ensures forall k :: 0 <= k < |ConfigOps(c)| ==> DaemonOp(ConfigOps(c)[k])
  {
  }

  /** The system after a joystick was found and the configuration applied to it. */
  ghost function Reconfigured(st: Sys, p: Panel, pro: bool, c: DeviceConfig, now: int): (r: Sys)
    requires Coherent(st) && ValidPanel(p) && WellFormed(c)
    ensures ValidSys(r)
  {
    hide ConfigOps, Calls;
    StepKeepsCoherent(st, Plug(p, pro));
    OnlyDaemonOps(c);
    Calls(Next(st, Plug(p, pro)), ConfigOps(c), now)
  }

  /** The same after a reconnect. */
  lemma ReconnectHolds(st: Sys, p: Panel, pro: bool, c: DeviceConfig, f: ClockField, now: int)
    requires Coherent(st) && ValidPanel(p) && WellFormed(c) && IsField(f) && c.clockEnabled && Accepts(f, Asked(c, f))
    ensures Held(Reconfigured(st, p, pro, c, now).shadow, f) == Asked(c, f)
  {
    hide ConfigOps, Calls, Asked, Accepts;
    StepKeepsCoherent(st, Plug(p, pro));
    ConfigHeld(Next(st, Plug(p, pro)), c, f, now);
  }

  /** Whatever happened before and whatever the new device shows: after reconnecting to an X52 Pro and
      applying a legal configuration with a known date format, every register the configuration owns is
      marked, the next update is able to finish, and a finished update makes all of them show the shadow. */
  lemma ReconnectResync(st: Sys, p: Panel, c: DeviceConfig, now: int, b: Bit)
    requires Coherent(st) && ValidPanel(p) && WellFormed(c)
    requires Legal(c) && DDMMYY <= c.dateFormat <= YYMMDD && DaemonBit(b)
    ensures var ready := Calls(Next(st, Plug(p, true)), ConfigOps(c), now);
            && b in ready.shadow.dirty
            && Enabled(ready, Write(Finished, false))
            && var done := Next(ready, Write(Finished, false));
               ValidSys(done) && Shown(done.panel, b) == Wanted(ready.shadow, b)
  {
    var plugged := Next(st, Plug(p, true));
    StepKeepsCoherent(st, Plug(p, true));
    CallsMark(plugged, ConfigOps(c), now);
    ConfigMarksAllIffLegal(c);
    ConfigHeld(plugged, c, TheDateFormat, now);
    var ready := Calls(plugged, ConfigOps(c), now);
    StepKeepsCoherent(ready, Write(Finished, false));
    OnlyWritesClear(ready, Write(Finished, false), b);
  }

  // ----- what the LEDs and brightness registers show then -------------------------------------

  /** A register of a lamp or a brightness level as an LED or brightness setter leaves it. */
  function Configured(op: Op, b: Bit): Reg
    requires op.SetLed? || op.SetBrightness?
  {
    match op
    case SetLed(led, state) =>
      if led == LED_FIRE || led == LED_THROTTLE then Lamp(state == LED_ON)
      else if b == led then Lamp(state == LED_RED || state == LED_AMBER)
      else Lamp(state == LED_GREEN || state == LED_AMBER)
    case SetBrightness(_, level) => Level(level)
  }

  lemma SetterConfigures(op: Op, s: State, b: Bit)
    requires ValidState(s) && s.pro && (op.SetLed? || op.SetBrightness?) && b in Marks(op)
    ensures ValidState(Apply(op, s).0) && Wanted(Apply(op, s).0, b) == Configured(op, b)
  {
  }

  lemma UnmarkedLedStays(op: Op, s: State, b: Bit)
    requires ValidState(s) && s.pro && op.SetLed? && b !in Marks(op)
    ensures ValidState(Apply(op, s).0) && Wanted(Apply(op, s).0, b) == Wanted(s, b)
  {
  }

  /** A setter leaves every register alone that it does not mark. */
  lemma UnmarkedStays(op: Op, s: State, b: Bit)
    requires ValidState(s) && s.pro && DaemonOp(op) && b !in Marks(op)
    ensures ValidState(Apply(op, s).0) && Wanted(Apply(op, s).0, b) == Wanted(s, b)
  {
    hide SetLedState;
    if op.SetLed? {
      UnmarkedLedStays(op, s, b);
    }
  }

  lemma {:induction false} CallsKeepUnmarked(st: Sys, ops: seq<Op>, now: int, b: Bit)
    requires ValidSys(st) && st.shadow.pro
    requires forall i :: 0 <= i < |ops| ==> DaemonOp(ops[i]) && b !in Marks(ops[i])
    ensures Wanted(Calls(st, ops, now).shadow, b) == Wanted(st.shadow, b)
    decreases |ops|
  {
    hide Wanted, Marks, Apply, DaemonOp;
    if ops != [] {
      assert DaemonOp(ops[0]) && b !in Marks(ops[0]);
      OpStep(st, ops[0], now);
      UnmarkedStays(ops[0], st.shadow, b);
      CallsKeepUnmarked(Next(st, Call(ops[0], now)), ops[1..], now, b);
    }
  }

  lemma OpStep(st: Sys, op: Op, now: int)
    requires ValidSys(st) && DaemonOp(op)
    ensures Callable(op) && ValidSys(Next(st, Call(op, now)))
    ensures Next(st, Call(op, now)).shadow == Apply(op, st.shadow).0
    ensures Apply(op, st.shadow).0.pro == st.shadow.pro
  {
    ApplyKeepsValid(op, st.shadow);
  }

  /** The last setter of a lamp or level decides what its register has to show. */
  lemma {:induction false} LastSetterWins(st: Sys, ops: seq<Op>, k: nat, now: int, b: Bit)
    requires ValidSys(st) && st.shadow.pro && k < |ops|
    requires forall i :: 0 <= i < |ops| ==> DaemonOp(ops[i])
    requires (ops[k].SetLed? || ops[k].SetBrightness?) && b in Marks(ops[k])
    requires forall i :: k < i < |ops| ==> b !in Marks(ops[i])
    ensures Wanted(Calls(st, ops, now).shadow, b) == Configured(ops[k], b)
    decreases |ops|
  {
    hide Wanted, Marks, Apply, Configured;
    assert DaemonOp(ops[0]);
    OpStep(st, ops[0], now);
    var next := Next(st, Call(ops[0], now));
    if k == 0 {
      SetterConfigures(ops[0], st.shadow, b);
      CallsKeepUnmarked(next, ops[1..], now, b);
    } else {
      LastSetterWins(next, ops[1..], k - 1, now, b);
    }
  }

  /** The LED and brightness registers of the configuration, and the call that sets each. */
  predicate LampBit(b: Bit) {
    1 <= b <= 20 || 25 <= b <= 26
  }

  function SetterOf(b: Bit): (k: nat)
    requires LampBit(b)
    ensures k < 19
  {
    if b <= 20 then 6 + LedIndex(b) else b - 8
  }

  lemma SetterIsLast(c: DeviceConfig, b: Bit)
    requires WellFormed(c) && Legal(c) && LampBit(b)
    ensures var ops, k := ConfigOps(c), SetterOf(b);
            && |ops| == 19
            && (ops[k].SetLed? || ops[k].SetBrightness?) && b in Marks(ops[k])
            && forall i :: k < i < |ops| ==> b !in Marks(ops[i])
  {
    hide Marks;
    var ops := ConfigOps(c);
    forall i | 6 <= i < 17
      ensures ops[i] == SetLed(LEDS[i - 6], c.leds[i - 6])
      ensures b in Marks(ops[i]) <==> 1 <= b <= 20 && i - 6 == LedIndex(b) && LegalLed(LEDS[i - 6], c.leds[i - 6])
    {
      LedOwner(i - 6, c.leds[i - 6], b);
    }
    assert ops[17] == SetBrightness(true, U16(c.mfdBrightness));
    assert ops[18] == SetBrightness(false, U16(c.ledBrightness));
    BrightnessMarks(U16(c.mfdBrightness), U16(c.ledBrightness));
  }

  /** After a reconnect, a legal configuration and a finished update, every LED and brightness register
      shows its configured setting. */
  lemma ReconnectShowsSettings(st: Sys, p: Panel, c: DeviceConfig, now: int, b: Bit)
    requires Coherent(st) && ValidPanel(p) && WellFormed(c)
    requires Legal(c) && DDMMYY <= c.dateFormat <= YYMMDD && LampBit(b)
    ensures var ready := Calls(Next(st, Plug(p, true)), ConfigOps(c), now);
            && Enabled(ready, Write(Finished, false))
            && var done := Next(ready, Write(Finished, false));
               ValidSys(done) && |ConfigOps(c)| == 19
               && (ConfigOps(c)[SetterOf(b)].SetLed? || ConfigOps(c)[SetterOf(b)].SetBrightness?)
               && Shown(done.panel, b) == Configured(ConfigOps(c)[SetterOf(b)], b)
  {
    hide Marks, Wanted, Configured;
    ReconnectResync(st, p, c, now, b);
    SetterIsLast(c, b);
    LastSetterWins(Next(st, Plug(p, true)), ConfigOps(c), SetterOf(b), now, b);
  }
}
