/** What each setter of the library means to its caller: the register it is for ends up showing the
    arguments, and nothing else changes (libx52/libx52.h, libx52/x52_mfd_led.c, libx52/x52_date_time.c). */
module Setters {
  import opened Prelude
  import opened Bits
  import opened Panel
  import opened Shadow
  import opened Update
  import opened Runs

  /** After the call register b is to show r, and a joystick on which it is kept up to date shows r once an
      update finishes. */
  ghost predicate Leads(st: Sys, op: Op, now: int, b: Bit, r: Reg)
    requires Coherent(st) && Callable(op)
  {
    CallKeepsCoherent(st, op, now);
    var called := Next(st, Call(op, now));
    && Wanted(called.shadow, b) == r
    && (st.attached && b in called.live && Possible(called.shadow, Finished) ==>
          Shown(Replay(called.panel, Sent(called.shadow, Finished)), b) == r)
  }

  /** The same for a call that also marks the register. */
  ghost predicate Sets(st: Sys, op: Op, now: int, b: Bit, r: Reg)
    requires Coherent(st) && Callable(op)
  {
    b in Next(st, Call(op, now)).shadow.dirty && Leads(st, op, now, b, r)
  }

  lemma CallLeads(st: Sys, op: Op, now: int, b: Bit)
    requires Coherent(st) && Callable(op)
    ensures ValidState(Apply(op, st.shadow).0)
    ensures Leads(st, op, now, b, Wanted(Apply(op, st.shadow).0, b))
  {
    hide Apply, Wanted, Shown, ValidLine;
    CallKeepsCoherent(st, op, now);
    var called := Next(st, Call(op, now));
    if st.attached && b in called.live && Possible(called.shadow, Finished) {
      UpdateEffect(called.shadow, called.panel, Finished, b);
    }
  }

  // ----- text, lamps and levels --------------------------------------------------------------

  lemma TextIsStored(line: byte, text: seq<byte>, length: byte, s: State)
    requires ValidState(s) && Callable(SetText(line, text, length)) && line <= 2
    ensures var t, n := Apply(SetText(line, text, length), s).0, if length < 16 then length else 16;
            && ValidState(t) && 21 + line in t.dirty
            && Wanted(t, 21 + line) == Text(text[..n] + if n % 2 == 1 then [0x20] else [])
  {
    ApplyKeepsValid(SetText(line, text, length), s);
    var n: nat := if length < 16 then length else 16;
    assert (text[..n] + Blanks(LINE_SIZE - n))[..n] == text[..n];
  }

  /** A line shows its text: the first 16 characters, with a blank behind an odd number of them. */
  lemma TextIsShown(st: Sys, line: byte, text: seq<byte>, length: byte, now: int)
    requires Coherent(st) && Callable(SetText(line, text, length)) && line <= 2
    ensures var n := if length < 16 then length else 16;
            Sets(st, SetText(line, text, length), now, 21 + line,
                 Text(text[..n] + if n % 2 == 1 then [0x20] else []))
  {
    hide Leads, Wanted, Apply;
    TextIsStored(line, text, length, st.shadow);
    CallLeads(st, SetText(line, text, length), now, 21 + line);
  }

  /** The shift indicator and the blinking lamps are as they were set, the levels the ones given. */
  lemma LampsAndLevelsAreShown(st: Sys, on: bool, mfd: bool, level: uint16, now: int)
    requires Coherent(st)
    ensures Sets(st, SetShift(on), now, 0, Lamp(on))
    ensures Sets(st, SetBlink(on), now, 24, Lamp(on))
    ensures Sets(st, SetBrightness(mfd, level), now, if mfd then 25 else 26, Level(level))
  {
    hide Leads;
    CallLeads(st, SetShift(on), now, 0);
    CallLeads(st, SetBlink(on), now, 24);
    CallLeads(st, SetBrightness(mfd, level), now, if mfd then 25 else 26);
  }

  /** On an X52 Pro the fire and throttle LEDs are off or on. The others have two lamps, of which red lights
      the first, green the second, and amber both. */
  lemma LedsAreShown(st: Sys, led: nat, state: int, now: int)
    requires Coherent(st) && st.shadow.pro
    ensures (led == 1 || led == 20) && 0 <= state <= 1 ==> Sets(st, SetLed(led, state), now, led, Lamp(state == 1))
    ensures ColorLed(led) && state in {0, 2, 3, 4} ==>
              && Sets(st, SetLed(led, state), now, led, Lamp(state == 2 || state == 3))
              && Sets(st, SetLed(led, state), now, led + 1, Lamp(state == 3 || state == 4))
  {
    hide Leads;
    if 1 <= led <= 20 {
      CallLeads(st, SetLed(led, state), now, led);
      if led < 20 {
        CallLeads(st, SetLed(led, state), now, led + 1);
      }
    }
  }

  // ----- date and time -----------------------------------------------------------------------

  /** Day, month and year from left to right in the order that the format names. */
  lemma DateIsShown(st: Sys, dd: byte, mm: byte, yy: byte, now: int)
    requires Coherent(st)
    ensures var op := SetDate(dd, mm, yy);
            && (st.shadow.dateFormat == DDMMYY ==> Sets(st, op, now, 27, Date(DateField(dd, mm, yy))))
            && (st.shadow.dateFormat == MMDDYY ==> Sets(st, op, now, 27, Date(DateField(mm, dd, yy))))
            && (st.shadow.dateFormat == YYMMDD ==> Sets(st, op, now, 27, Date(DateField(yy, mm, dd))))
  {
    hide Leads;
    CallLeads(st, SetDate(dd, mm, yy), now, 27);
  }

  /** Hours and minutes as given, with the format of the primary clock; of the hour seven bits count. */
  lemma TimeIsShown(st: Sys, hour: byte, minute: byte, now: int)
    requires Coherent(st)
    ensures Sets(st, SetTime(hour, minute), now, 28,
                 Time(BaseClock(st.shadow.clock24[0], if hour < 128 then hour else hour - 128, minute)))
  {
    hide Leads;
    CallLeads(st, SetTime(hour, minute), now, 28);
  }

  /** A clock is in 24-hour format exactly when it was set so last, whatever it shows otherwise. */
  lemma ClockFormatIsShown(st: Sys, clock: nat, format: int, now: int)
    requires Coherent(st) && clock <= 2 && 0 <= format <= 1
    ensures clock == 0 ==>
              Sets(st, SetClockFormat(0, format), now, 28,
                   Time(BaseClock(format == 1, st.shadow.hour % 0x80, st.shadow.minute)))
    ensures clock > 0 ==>
              Sets(st, SetClockFormat(clock, format), now, 28 + clock,
                   Offset(OffsetClock(format == 1, DisplayOffset(st.shadow.timezone[clock] - st.shadow.timezone[0]))))
  {
    hide Leads, DisplayOffset;
    CallLeads(st, SetClockFormat(clock, format), now, 28 + clock);
  }

  /** A secondary clock is moved by the difference of its timezone to that of the primary clock. */
  lemma TimezoneIsShown(st: Sys, clock: nat, offset: int, now: int)
    requires Coherent(st) && 1 <= clock <= 2 && -1440 <= offset <= 1440
    ensures Apply(SetTimezone(clock, offset), st.shadow).0.timezone == st.shadow.timezone[clock := offset]
    ensures Sets(st, SetTimezone(clock, offset), now, 28 + clock,
                 Offset(OffsetClock(st.shadow.clock24[clock], DisplayOffset(offset - st.shadow.timezone[0]))))
  {
    hide Leads, DisplayOffset;
    CallLeads(st, SetTimezone(clock, offset), now, 28 + clock);
  }

  /** The two digits of a year are right. */
  predicate TwoDigits(yy: byte, year: int) {
    yy < 100 && (year - yy) % 100 == 0
  }

  /** A clock setting stores day and month of the broken-down time, and the last two digits of its year if and
      only if the year is 1900 or later, or ends in 00. */
  lemma SetClockStoresDate(s: State, tm: Tm, gmtoff: int, local: bool)
    requires ValidState(s) && 1 <= tm.mday <= 31 && 0 <= tm.mon <= 11
    ensures var t := Apply(SetClock(Some(tm), gmtoff, local), s).0;
            && t.day == tm.mday && t.month == tm.mon + 1
            && (TwoDigits(t.year, 1900 + tm.year) <==> tm.year >= 0 || tm.year % 100 == 0)
  {
    hide LocalZone, ValidLine;
    YearDigits(tm.year);
  }

  lemma YearDigits(year: int)
    ensures 0 <= CRem(year, 100) ==> CRem(year, 100) < 100 && (year - CRem(year, 100)) % 100 == 0
    ensures 0 <= CRem(year, 100) <==> year >= 0 || year % 100 == 0
    ensures CRem(year, 100) < 0 ==> U8(CRem(year, 100)) > 100
  {
    if year >= 0 {
      Hundreds(year);
    } else {
      Hundreds(-year);
      BackFromZero(-(-year % 100));
    }
  }

  lemma Hundreds(year: int)
    requires year >= 0
    ensures (year - year % 100) % 100 == 0
    ensures year % 100 == 0 <==> -year % 100 == 0
  {
    assert year == year / 100 * 100 + year % 100;
  }

  lemma BackFromZero(x: int)
    requires -100 < x <= 0
    ensures x < 0 ==> U8(x) == x + 0x100
  {
  }

  /** In 1899 the year is stored as 255. */
  lemma EarlyYearFails()
    ensures Apply(SetClock(Some(Tm(31, 11, -1, 12, 0)), 0, false), ZeroShadow()).0.year == 255
  {
  }

  /** And then the date shows these: day, month and year as they were stored, in the order of the format. */
  lemma SetClockDateIsShown(st: Sys, tm: Tm, gmtoff: int, local: bool, now: int)
    requires Coherent(st) && 1 <= tm.mday <= 31 && 0 <= tm.mon <= 11
    ensures var op := SetClock(Some(tm), gmtoff, local);
            var yy := Apply(op, st.shadow).0.year;
            && (st.shadow.dateFormat == DDMMYY ==>
                  Leads(st, op, now, 27, Date(DateField(tm.mday, tm.mon + 1, yy))))
            && (st.shadow.dateFormat == MMDDYY ==>
                  Leads(st, op, now, 27, Date(DateField(tm.mon + 1, tm.mday, yy))))
            && (st.shadow.dateFormat == YYMMDD ==>
                  Leads(st, op, now, 27, Date(DateField(yy, tm.mon + 1, tm.mday))))
  {
    hide Leads, LocalZone;
    CallLeads(st, SetClock(Some(tm), gmtoff, local), now, 27);
    SetClockStoresDate(st.shadow, tm, gmtoff, local);
  }

  // ----- what a setter leaves alone ----------------------------------------------------------

  /** The registers a call is for. */
  function Registers(op: Op): set<int> {
    match op
    case SetText(line, _, _) => {21 + line}
    case SetLed(led, _) => if ColorLed(led) then {led, led + 1} else {led}
    case SetBrightness(mfd, _) => if mfd then {25} else {26}
    case SetShift(_) => {0}
    case SetBlink(_) => {24}
    case SetClock(_, _, _) => {27, 28, 29, 30}
    case SetTime(_, _) => {28}
    case SetDate(_, _, _) => {27}
    case SetTimezone(clock, _) => {28 + clock}
    case SetClockFormat(clock, _) => {28 + clock}
    case SetDateFormat(_) => {27}
  }

  lemma LedFrame(s: State, led: int, state: int, b: Bit)
    requires ValidState(s) && b !in Registers(SetLed(led, state))
    ensures var t := SetLedState(s, led, state).0;
            && ValidState(t) && Wanted(t, b) == Wanted(s, b) && (b in t.dirty <==> b in s.dirty)
  {
    hide DisplayOffset, ValidLine;
  }

  lemma ClockFrame(s: State, tm: Tm, zone: int, b: Bit)
    requires ValidState(s) && b !in {27, 28, 29, 30}
    ensures var t := SetClockTo(s, tm, zone).0;
            && ValidState(t) && Wanted(t, b) == Wanted(s, b) && (b in t.dirty <==> b in s.dirty)
  {
    hide DisplayOffset, ValidLine;
  }

  lemma TextFrame(s: State, line: byte, text: seq<byte>, length: byte, b: Bit)
    requires ValidState(s) && Callable(SetText(line, text, length)) && b != 21 + line
    ensures var t := Apply(SetText(line, text, length), s).0;
            && ValidState(t) && Wanted(t, b) == Wanted(s, b) && (b in t.dirty <==> b in s.dirty)
  {
    ApplyKeepsValid(SetText(line, text, length), s);
  }

  /** A call neither marks another register nor changes what one should show. */
  lemma SettersFrame(op: Op, s: State, b: Bit)
    requires ValidState(s) && Callable(op) && b !in Registers(op)
    ensures var t := Apply(op, s).0;
            && ValidState(t) && (b in t.dirty <==> b in s.dirty)
            && Wanted(t, b) == Wanted(s, b)
  {
    hide SetClockTo, SetLedState, DisplayOffset, ValidLine, ValidDate;
    ApplyKeepsValid(op, s);
    match op
    case SetText(line, text, length) => TextFrame(s, line, text, length, b);
    case SetLed(led, state) => LedFrame(s, led, state, b);
    case SetClock(tm, gmtoff, local) =>
      if tm.Some? {
        ClockFrame(s, tm.value, LocalZone(gmtoff, local), b);
      }
    case _ =>
  }

  // ----- return codes ------------------------------------------------------------------------

  /** When each code is returned. "Try again" is the answer of a clock setting that changes nothing. */
  lemma ReturnCodes(op: Op, s: State)
    requires ValidState(s) && Callable(op)
    requires op.SetClock? && op.tm.Some? ==>
               var tm := op.tm.value;
               1 <= tm.mday <= 31 && 0 <= tm.mon <= 11 && tm.year >= 0 && 0 <= tm.hour < 24 && 0 <= tm.min < 60
    ensures var (t, rc) := Apply(op, s);
            && rc in {Success, OutOfRange, NotSupported, InvalidParam, TryAgain}
            && (rc == OutOfRange <==> || (op.SetClock? && op.tm.None?)
                                      || (op.SetTimezone? && !(-1440 <= op.offset <= 1440)))
            && (rc == TryAgain <==> op.SetClock? && op.tm.Some? && t == s)
            && (rc == NotSupported <==>
                  || (op.SetTimezone? && -1440 <= op.offset <= 1440 && op.clock == 0)
                  || (op.SetLed? && !s.pro)
                  || (op.SetLed? && (op.led == 1 || op.led == 20) && op.state !in {0, 1})
                  || (op.SetLed? && ColorLed(op.led) && op.state == 1))
            && (rc == InvalidParam <==>
                  || (op.SetText? && op.line > 2)
                  || (op.SetTimezone? && -1440 <= op.offset <= 1440 && !(0 <= op.clock <= 2))
                  || (op.SetClockFormat? && !(0 <= op.format <= 1 && 0 <= op.clock <= 2))
                  || (op.SetLed? && s.pro && op.led !in {1, 20} && !ColorLed(op.led))
                  || (op.SetLed? && s.pro && ColorLed(op.led) && !(0 <= op.state <= 4)))
  {
    hide DisplayOffset, ValidLine, LocalZone;
  }
}
