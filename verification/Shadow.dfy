/** The library's shadow of the joystick, libx52/x52_common.h: what every setter does to it, the
    requests each dirty register costs, and what each register should then show. */
module Shadow {
  import opened Prelude
  import opened Bits
  import opened Panel

  /** libx52_error_code. */
  datatype Rc =
    | Success
    | InitFailure
    | OutOfMemory
    | InvalidParam
    | NotSupported
    | TryAgain
    | OutOfRange
    | UsbFailure
    | Io
    | Perm
    | NoDevice
    | NotFound
    | Busy
    | Timeout
    | Overflow
    | Pipe
    | Interrupted

  const LINE_SIZE := 16
  const MFD_DATE: Bit := 27
  const MFD_TIME: Bit := 28
  const MFD_OFFS1: Bit := 29

  const DDMMYY := 0
  const MMDDYY := 1
  const YYMMDD := 2

  const BLANK: byte := 0x20

  /** struct x52_mfd_line. */
  datatype Line = Line(text: seq<byte>, length: nat)

  ghost predicate ValidLine(l: Line) {
    && |l.text| == LINE_SIZE
    && l.length <= LINE_SIZE
    && (l.length % 2 == 1 ==> l.text[l.length] == BLANK)
  }

  /** The fields of libx52_device that setters and updates work on. */
  datatype State = State(
    dirty: Mask,
    pro: bool,
    ledMask: Mask,
    mfdBrightness: uint16,
    ledBrightness: uint16,
    lines: seq<Line>,
    dateFormat: int,
    day: byte,
    month: byte,
    year: byte,
    hour: byte,
    minute: byte,
    timezone: seq<int>,
    clock24: seq<bool>)

  ghost predicate ValidDate(s: State) {
    DDMMYY <= s.dateFormat <= YYMMDD
  }

  /** An unknown date format is only ever held together with a dirty date register. */
  ghost predicate ValidState(s: State) {
    && |s.lines| == 3
    && (forall k :: 0 <= k < 3 ==> ValidLine(s.lines[k]))
    && |s.timezone| == 3
    && |s.clock24| == 3
    && (ValidDate(s) || MFD_DATE in s.dirty)
  }

  /** The broken-down time that localtime_r or gmtime_r yields. */
  datatype Tm = Tm(mday: int, mon: int, year: int, hour: int, min: int)

  /** The calls that change the shadow. */
  datatype Op =
    | SetText(line: byte, text: seq<byte>, length: byte)
    | SetLed(led: int, state: int)
    | SetBrightness(mfd: bool, level: uint16)
    | SetShift(on: bool)
    | SetBlink(on: bool)
    | SetClock(tm: Option<Tm>, gmtoff: int, local: bool)
    | SetTime(hour: byte, minute: byte)
    | SetDate(dd: byte, mm: byte, yy: byte)
    | SetTimezone(clock: int, offset: int)
    | SetClockFormat(clock: int, format: int)
    | SetDateFormat(format: int)

  /** The caller of set_text hands over at least the bytes it announces. */
  predicate Callable(op: Op) {
    op.SetText? ==> Min(op.length, LINE_SIZE) <= |op.text|
  }

  function Blanks(n: nat): seq<byte> {
    seq(n, _ => BLANK)
  }

  const LED_FIRE := 1
  const LED_THROTTLE := 20

  predicate ColorLed(led: int) {
    2 <= led <= 18 && led % 2 == 0
  }

  const LED_OFF := 0
  const LED_ON := 1
  const LED_RED := 2
  const LED_AMBER := 3
  const LED_GREEN := 4

  function SetLedState(s: State, led: int, state: int): (State, Rc) {
    if led == LED_FIRE || led == LED_THROTTLE then
      if state == LED_OFF then (s.(ledMask := s.ledMask - {led}, dirty := s.dirty + {led}), Success)
      else if state == LED_ON then (s.(ledMask := s.ledMask + {led}, dirty := s.dirty + {led}), Success)
      else (s, NotSupported)
    else if ColorLed(led) then
      if state == LED_ON then (s, NotSupported)
      else if state < LED_OFF || state > LED_GREEN then (s, InvalidParam)
      else
        var red: Mask := if state == LED_RED || state == LED_AMBER then {led} else {};
        var green: Mask := if state == LED_GREEN || state == LED_AMBER then {led + 1} else {};
        (s.(ledMask := s.ledMask - {led, led + 1} + red + green, dirty := s.dirty + {led, led + 1}), Success)
    else (s, InvalidParam)
  }

  /** The timezone of the primary clock in minutes, from the seconds east of UTC. */
  function LocalZone(gmtoff: int, local: bool): int {
    if local then CDiv(gmtoff, 60) else 0
  }

  function SetClockTo(s: State, tm: Tm, zone: int): (State, Rc)
    requires |s.timezone| == 3
  {
    var month := tm.mon + 1;
    var year := CRem(tm.year, 100);
    var s1 := if s.day != tm.mday || s.month != month || s.year != year
      then s.(day := U8(tm.mday), month := U8(month), year := U8(year), dirty := s.dirty + {MFD_DATE}) else s;
    var s2 := if s1.hour != tm.hour || s1.minute != tm.min
      then s1.(hour := U8(tm.hour), minute := U8(tm.min), dirty := s1.dirty + {MFD_TIME}) else s1;
    var s3 := if s2.timezone[0] != zone
      then s2.(timezone := s2.timezone[0 := zone], dirty := s2.dirty + {MFD_OFFS1, MFD_OFFS1 + 1}) else s2;
    var changed :=
      || s.day != tm.mday || s.month != month || s.year != year
      || s.hour != tm.hour || s.minute != tm.min || s.timezone[0] != zone;
    (s3, if changed then Success else TryAgain)
  }

  /** The shadow and the return code after a call. */
  function Apply(op: Op, s: State): (State, Rc)
    requires Callable(op)
    requires |s.lines| == 3 && |s.timezone| == 3 && |s.clock24| == 3
  {
    match op
    case SetText(line, text, length) =>
      if line > 2 then (s, InvalidParam)
      else
        var n: nat := Min(length, LINE_SIZE);
        (s.(lines := s.lines[line := Line(text[..n] + Blanks(LINE_SIZE - n), n)], dirty := s.dirty + {21 + line}),
         Success)
    case SetLed(led, state) =>
      if s.pro then SetLedState(s, led, state) else (s, NotSupported)
    case SetBrightness(mfd, level) =>
      if mfd then (s.(mfdBrightness := level, dirty := s.dirty + {25}), Success)
      else (s.(ledBrightness := level, dirty := s.dirty + {26}), Success)
    case SetShift(on) =>
      (s.(ledMask := if on then s.ledMask + {0} else s.ledMask - {0}, dirty := s.dirty + {0}), Success)
    case SetBlink(on) =>
      (s.(ledMask := if on then s.ledMask + {24} else s.ledMask - {24}, dirty := s.dirty + {24}), Success)
    case SetClock(tm, gmtoff, local) =>
      if tm.None? then (s, OutOfRange) else SetClockTo(s, tm.value, LocalZone(gmtoff, local))
    case SetTime(hour, minute) =>
      (s.(hour := hour, minute := minute, dirty := s.dirty + {MFD_TIME}), Success)
    case SetDate(dd, mm, yy) =>
      (s.(day := dd, month := mm, year := yy, dirty := s.dirty + {MFD_DATE}), Success)
    case SetTimezone(clock, offset) =>
      if offset < -1440 || offset > 1440 then (s, OutOfRange)
      else if clock == 0 then (s, NotSupported)
      else if clock == 1 || clock == 2 then
        (s.(timezone := s.timezone[clock := offset], dirty := s.dirty + {28 + clock}), Success)
      else (s, InvalidParam)
    case SetClockFormat(clock, format) =>
      if format != 0 && format != 1 then (s, InvalidParam)
      else if 0 <= clock <= 2 then
        (s.(clock24 := s.clock24[clock := format == 1], dirty := s.dirty + {28 + clock}), Success)
      else (s, InvalidParam)
    case SetDateFormat(format) =>
      (s.(dateFormat := format, dirty := s.dirty + {MFD_DATE}), Success)
  }

  // ----- what a register should show ---------------------------------------------------------

  /** The representative in [-416, 1023] of a nonnegative difference modulo one day. */
  function Reduce(difference: nat): int {
    (difference + 416) % 1440 - 416
  }

  /** The offset the display adds to the base clock for a difference between two timezones. */
  function DisplayOffset(difference: int): int {
    if difference >= 0 then Reduce(difference) else -Reduce(-difference)
  }

  /** What each register has to show once the shadow has been written out. */
  function Wanted(s: State, b: Bit): Reg
    requires |s.lines| == 3 && |s.timezone| == 3 && |s.clock24| == 3
    requires forall k :: 0 <= k < 3 ==> s.lines[k].length <= |s.lines[k].text|
  {
    if b <= 20 || b == 24 then Lamp(b in s.ledMask)
    else if b <= 23 then
      var l := s.lines[b - 21];
      Text(l.text[..l.length] + (if l.length % 2 == 1 then [BLANK] else []))
    else if b == 25 then Level(s.mfdBrightness)
    else if b == 26 then Level(s.ledBrightness)
    else if b == 27 then
      if s.dateFormat == DDMMYY then Date(DateField(s.day, s.month, s.year))
      else if s.dateFormat == MMDDYY then Date(DateField(s.month, s.day, s.year))
      else if s.dateFormat == YYMMDD then Date(DateField(s.year, s.month, s.day))
      else Unused
    else if b == 28 then Time(BaseClock(s.clock24[0], s.hour % 0x80, s.minute))
    else if b <= 30 then
      Offset(OffsetClock(s.clock24[b - 28], DisplayOffset(s.timezone[b - 28] - s.timezone[0])))
    else Unused
  }

  // ----- the requests that write a register --------------------------------------------------

  function Flag(on: bool): nat {
    if on then 1 else 0
  }

  function Word(high: byte, low: byte): uint16 {
    var h: int := high;
    h * 0x100 + low
  }

  /** The packed offset: sign flag and magnitude, with the flag reversed when the reduction passed zero. */
  function OffsetWord(h24: bool, difference: int): (w: uint16)
  {
    var r := Reduce(if difference < 0 then -difference else difference);
    Flag(h24) * 0x8000 + Flag((difference < 0) != (r < 0)) * 0x400 + (if r < 0 then -r else r)
  }

  /** The append requests for the characters from position i. */
  function LineWords(line: Line, index: uint16, i: nat): (cmds: seq<Cmd>)
    requires |line.text| == LINE_SIZE && line.length <= LINE_SIZE && i % 2 == 0
    ensures 2 * |cmds| <= LINE_SIZE - i || i >= line.length
    decreases LINE_SIZE - i
  {
    if i >= line.length then [] else
      [Cmd(index, Word(line.text[i + 1], line.text[i]))] + LineWords(line, index, i + 2)
  }

  predicate Encodable(s: State, b: Bit) {
    b == MFD_DATE ==> DDMMYY <= s.dateFormat <= YYMMDD
  }

  /** The requests one handler issues, in order. */
  function RegCommands(s: State, b: Bit): seq<Cmd>
    requires ValidState(s)
  {
    if b == 0 then [Cmd(0xfd, if 0 in s.ledMask then 0x51 else 0x50)]
    else if b <= 20 then [Cmd(0xb8, Flag(b in s.ledMask) + b * 0x100)]
    else if b <= 23 then
      var index := LINE_INDEX[b - 21];
      [Cmd(index + CLEAR_LINE, 0)] + LineWords(s.lines[b - 21], index, 0)
    else if b == 24 then [Cmd(0xb4, if 24 in s.ledMask then 0x51 else 0x50)]
    else if b == 25 then [Cmd(0xb1, s.mfdBrightness)]
    else if b == 26 then [Cmd(0xb2, s.ledBrightness)]
    else if b == 27 then
      if s.dateFormat == YYMMDD then [Cmd(0xc4, Word(s.month, s.year)), Cmd(0xc8, s.day)]
      else if s.dateFormat == MMDDYY then [Cmd(0xc4, Word(s.day, s.month)), Cmd(0xc8, s.year)]
      else if s.dateFormat == DDMMYY then [Cmd(0xc4, Word(s.month, s.day)), Cmd(0xc8, s.year)]
      else []
    else if b == 28 then [Cmd(0xc0, Flag(s.clock24[0]) * 0x8000 + s.hour % 0x80 * 0x100 + s.minute)]
    else if b == 29 then [Cmd(0xc1, OffsetWord(s.clock24[1], s.timezone[1] - s.timezone[0]))]
    else if b == 30 then [Cmd(0xc2, OffsetWord(s.clock24[2], s.timezone[2] - s.timezone[0]))]
    else []
  }
}
