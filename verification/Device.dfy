/** The joystick library as a program: libx52_device with its setters (libx52/x52_mfd_led.c,
    libx52/x52_date_time.c), its handlers and update loop (libx52/x52_control.c) and its connection
    (libx52/x52_core.c). */
module Device {
  import opened Prelude
  import opened Bits
  import opened Panel
  import opened Shadow
  import opened Update
  import opened Runs

  const LIBUSB_SUCCESS := 0
  const LIBUSB_ERROR_NO_DEVICE := -4

  function TranslateLibusbError(code: int): (rc: Rc)
    ensures rc == Success <==> code == LIBUSB_SUCCESS
    ensures rc == NoDevice <==> code == LIBUSB_ERROR_NO_DEVICE
  {
    if code == LIBUSB_SUCCESS then Success
    else if code == -1 then Io
    else if code == -2 then InvalidParam
    else if code == -3 then Perm
    else if code == LIBUSB_ERROR_NO_DEVICE then NoDevice
    else if code == -5 then NotFound
    else if code == -6 then Busy
    else if code == -7 then Timeout
    else if code == -8 then Overflow
    else if code == -9 then Pipe
    else if code == -10 then Interrupted
    else if code == -11 then OutOfMemory
    else if code == -12 then NotSupported
    else UsbFailure
  }

  /** The libusb code that stands for each result, where there is one. */
  function LibusbCode(rc: Rc): Option<int> {
    match rc
    case Success => Some(0)
    case Io => Some(-1)
    case InvalidParam => Some(-2)
    case Perm => Some(-3)
    case NoDevice => Some(-4)
    case NotFound => Some(-5)
    case Busy => Some(-6)
    case Timeout => Some(-7)
    case Overflow => Some(-8)
    case Pipe => Some(-9)
    case Interrupted => Some(-10)
    case OutOfMemory => Some(-11)
    case NotSupported => Some(-12)
    case _ => None
  }

  /** Each of those results comes from its own code only, and all other codes are a USB failure. */
  lemma TranslationInverse(code: int, rc: Rc)
    ensures LibusbCode(rc).Some? ==> (TranslateLibusbError(code) == rc <==> LibusbCode(rc) == Some(code))
    ensures TranslateLibusbError(code) == UsbFailure <==> forall r :: LibusbCode(r) != Some(code)
    ensures rc != UsbFailure && LibusbCode(rc).None? ==> TranslateLibusbError(code) != rc
  {
    var r := TranslateLibusbError(code);
    assert r != UsbFailure ==> LibusbCode(r) == Some(code);
  }

  /** An open handle with the joystick behind it. What each control transfer returns is an arbitrary
      function of its number; a transfer that reports an error has had no effect. */
  class UsbHandle {
    const script: nat -> int
    var calls: nat
    var panel: Panel
    ghost const start: Panel
    ghost var log: seq<Cmd>

    ghost predicate Valid()
      reads this
    {
      ValidPanel(start) && ValidPanel(panel) && panel == Replay(start, log)
    }

    constructor (script: nat -> int, panel: Panel)
      requires ValidPanel(panel)
      ensures Valid() && this.script == script && this.panel == panel && calls == 0 && log == []
    {
      this.script := script;
      this.calls := 0;
      this.panel := panel;
      this.start := panel;
      this.log := [];
    }

    method ControlTransfer(value: uint16, index: uint16) returns (rc: int)
      requires Valid()
      modifies this
      ensures Valid() && calls == old(calls) + 1 && rc == script(old(calls))
      ensures log == if rc == LIBUSB_SUCCESS then old(log) + [Cmd(index, value)] else old(log)
    {
      rc := script(calls);
      calls := calls + 1;
      if rc == LIBUSB_SUCCESS {
        panel := Interpret(panel, Cmd(index, value));
        ReplayConcat(start, log, [Cmd(index, value)]);
        ReplayOne(Replay(start, log), Cmd(index, value));
        log := log + [Cmd(index, value)];
      }
    }
  }

  /** Two bytes as the text and date requests carry them. */
  function Joined(high: byte, low: byte): (w: uint16)
    ensures w == Word(high, low)
  {
    hide Or;
    OrAt8(high, low);
    Or(high * 0x100, low)
  }

  /** The fields of a request for a secondary clock. */
  function PackedOffset(h24: bool, negative: bool, offset: nat): (w: uint16)
    ensures w == Flag(h24) * 0x8000 + Flag(negative) * 0x400 + offset % 0x400
  {
    hide Or;
    OffsetFieldsAreDisjoint(Flag(h24), Flag(negative), offset);
    Or(Or(Flag(h24) * 0x8000, Flag(negative) * 0x400), offset % 0x400)
  }

  /** The fields of a difference whose magnitude has been reduced by whole days. */
  lemma PackedIsOffsetWord(h24: bool, difference: int, offset: int, days: nat)
    requires -416 <= offset <= 1023
    requires offset == (if difference < 0 then -difference else difference) - 1440 * days
    ensures PackedOffset(h24, (difference < 0) != (offset < 0), if offset < 0 then -offset else offset)
         == OffsetWord(h24, difference)
  {
    hide PackedOffset;
    assert offset == Reduce(if difference < 0 then -difference else difference);
  }

  /** The fields of a request for the base clock. */
  function PackedTime(h24: bool, hour: byte, minute: byte): (w: uint16)
    ensures w == Flag(h24) * 0x8000 + hour % 0x80 * 0x100 + minute
  {
    hide Or;
    TimeFieldsAreDisjoint(Flag(h24), hour, minute);
    Or(Or(Flag(h24) * 0x8000, hour % 0x80 * 0x100), minute % 0x100)
  }

  /** How many transfers one request takes: at most three, stopping at the first success. */
  function Tries(script: nat -> int, n: nat): (k: nat)
    ensures 1 <= k <= 3
  {
    if script(n) == LIBUSB_SUCCESS then 1 else if script(n + 1) == LIBUSB_SUCCESS then 2 else 3
  }

  /** The last transfer is the first success of three, or the third. */
  lemma FirstSuccessOfThree(script: nat -> int, n: nat)
    ensures var last := n + Tries(script, n) - 1;
            && (forall k :: n <= k < last ==> script(k) != LIBUSB_SUCCESS)
            && (script(last) == LIBUSB_SUCCESS <==> exists k :: n <= k < n + 3 && script(k) == LIBUSB_SUCCESS)
            && (script(last) != LIBUSB_SUCCESS ==> last == n + 2)
  {
    assert script(n + 2) == LIBUSB_SUCCESS ==> exists k :: n <= k < n + 3 && script(k) == LIBUSB_SUCCESS;
  }

  const VENDOR_SAITEK := 0x06a3
  const X52_PROD_X52_1 := 0x0255
  const X52_PROD_X52_2 := 0x075c
  const X52_PROD_X52PRO := 0x0762

  const FLAG_IS_PRO: Bit := 0

  /** One entry of the bus scan: descriptor, and what opening it would yield. */
  datatype BusEntry = BusEntry(readable: bool, vendor: nat, product: nat, openCode: int, handle: UsbHandle)

  predicate CheckProduct(vendor: nat, product: nat) {
    vendor == VENDOR_SAITEK && (product == X52_PROD_X52_1 || product == X52_PROD_X52_2 || product == X52_PROD_X52PRO)
  }

  predicate Supported(e: BusEntry) {
    e.readable && CheckProduct(e.vendor, e.product)
  }

  /** The truth values of the time_format fields. */
  ghost function TwentyFourHour(formats: seq<int>): seq<bool> {
    seq(|formats|, i requires 0 <= i < |formats| => formats[i] != 0)
  }

  lemma PrefixExtends(log: seq<Cmd>, cmds: seq<Cmd>, k: nat)
    requires k < |cmds|
    ensures log + cmds[..k] + [cmds[k]] == log + cmds[..k + 1]
  {
  }

  lemma PrefixAfterFirst(log: seq<Cmd>, c: Cmd, rest: seq<Cmd>, k: nat)
    requires k <= |rest|
    ensures log + [c] + rest[..k] == log + ([c] + rest)[..1 + k]
  {
  }

  /** struct libx52_device. */
  class Libx52 {
    var hdl: UsbHandle?
    var updateMask: Mask
    var flags: Mask
    var ledMask: Mask
    var mfdBrightness: uint16
    var ledBrightness: uint16
    var lines: seq<Line>
    var dateFormat: int
    var dateDay: byte
    var dateMonth: byte
    var dateYear: byte
    var timeHour: byte
    var timeMinute: byte
    var timezone: seq<int>
    var timeFormat: seq<int>

    // What the proofs keep: the registers owned since attachment, the time of the last clock setting, and
    // the registers of a device that has since been lost.
    ghost var live: Mask
    ghost var reading: Reading
    ghost var lastSeen: Panel

    ghost function Cache(): State
      reads this
    {
      State(updateMask, FLAG_IS_PRO in flags, ledMask, mfdBrightness, ledBrightness, lines, dateFormat, dateDay,
            dateMonth, dateYear, timeHour, timeMinute, timezone, TwentyFourHour(timeFormat))
    }

    ghost function Snapshot(): Sys
      reads this, hdl
    {
      Sys(Cache(), if hdl != null then hdl.panel else lastSeen, hdl != null, live, reading)
    }

    /** The invariant of every public method: the cache is coherent with the device. */
    ghost predicate Valid()
      reads this, hdl
    {
      && (hdl != null ==> hdl.Valid())
      && (hdl == null ==> flags == {})
      && Coherent(Snapshot())
    }

    /** A public setter did what the specification of the call says, and nothing else. */
    twostate predicate Performed(op: Op, now: int, rc: Rc)
      reads this, hdl
    {
      && hdl == old(hdl)
      && Callable(op)
      && old(Valid())
      && Valid()
      && Snapshot() == Next(old(Snapshot()), Call(op, now))
      && rc == Apply(op, old(Cache())).1
    }

    /** Concludes a setter: its change of the shadow is one step of the system, and the invariant is kept. */
    ghost method Conclude(before: Sys, op: Op, now: int)
      requires (hdl != null ==> hdl.Valid()) && (hdl == null ==> flags == {})
      requires Coherent(before) && Callable(op)
      requires Snapshot() == before.(shadow := Apply(op, before.shadow).0)
      modifies this`live, this`reading
      ensures Valid() && Snapshot() == Next(before, Call(op, now))
    {
      hide Wanted, Shown, Replay, Apply, ValidLine, TwentyFourHour, UsbHandle.Valid;
      CallKeepsCoherent(before, op, now);
      live := before.live + updateMask;
      reading := ReadingAfter(before.reading, op, now);
    }

    /** libx52_init before its attempt to connect. */
    constructor ()
      ensures Valid() && hdl == null && Cache() == ZeroShadow().(pro := false)
    {
      hdl := null;
      updateMask, flags, ledMask := {}, {}, {};
      mfdBrightness, ledBrightness := 0, 0;
      lines := seq(3, _ => Line(seq(LINE_SIZE, _ => 0), 0));
      dateFormat, dateDay, dateMonth, dateYear, timeHour, timeMinute := DDMMYY, 0, 0, 0, 0, 0;
      timezone, timeFormat := [0, 0, 0], [0, 0, 0];
      live, reading, lastSeen := {}, Reading(0, 0), ZeroPanel();
      new;
      assert Cache().clock24 == [false, false, false];
    }

    // ----- connection --------------------------------------------------------------------------

    method Disconnect()
      requires hdl != null ==> hdl.Valid()
      requires hdl == null ==> flags == {}
      modifies this`hdl, this`flags, this`lastSeen
      ensures hdl == null && flags == {}
      ensures lastSeen == if old(hdl) != null then old(hdl.panel) else old(lastSeen)
    {
      if hdl != null {
        lastSeen := hdl.panel;
        hdl := null;
        flags := {};
      }
    }

    /** Takes over an opened handle, with the features of its product. */
    method Bind(entry: BusEntry)
      requires Valid() && hdl == null && entry.handle.Valid()
      modifies this`hdl, this`flags, this`live
      ensures Valid() && hdl == entry.handle
      ensures Snapshot() == Next(old(Snapshot()), Plug(entry.handle.panel, entry.product == X52_PROD_X52PRO))
    {
      hide Wanted, Shown, Replay, ValidLine, TwentyFourHour;
      ghost var away := Snapshot();
      hdl := entry.handle;
      if entry.product == X52_PROD_X52PRO {
        flags := flags + {FLAG_IS_PRO};
      }
      live := updateMask + Right(away.shadow, hdl.panel);
      StepKeepsCoherent(away, Plug(hdl.panel, entry.product == X52_PROD_X52PRO));
    }

    /** Binds to the first supported joystick of the bus, if it opens. */
    method Connect(bus: seq<BusEntry>) returns (rc: Rc, ghost first: nat)
      requires Valid()
      requires forall e :: e in bus ==> e.handle.Valid()
      modifies this
      ensures Valid()
      ensures first <= |bus| && forall i :: 0 <= i < first ==> !Supported(bus[i])
      ensures first < |bus| ==> Supported(bus[first])
      ensures if first < |bus| && bus[first].openCode == LIBUSB_SUCCESS then
                && rc == Success && hdl == bus[first].handle
                && Snapshot() == Next(Next(old(Snapshot()), Unplug),
                                      Plug(hdl.panel, bus[first].product == X52_PROD_X52PRO))
              else
                && rc == (if first == |bus| then NoDevice else TranslateLibusbError(bus[first].openCode))
                && rc != Success && hdl == null && Snapshot() == Next(old(Snapshot()), Unplug)
    {
      hide Wanted, Shown, Replay, ValidLine, TwentyFourHour, Right, TranslateLibusbError;
      StepKeepsCoherent(Snapshot(), Unplug);
      Disconnect();
      ghost var away := Snapshot();
      assert away == Next(old(Snapshot()), Unplug);
      var i := 0;
      while i < |bus|
        invariant 0 <= i <= |bus| && forall k :: 0 <= k < i ==> !Supported(bus[k])
        invariant hdl == null && flags == {} && Snapshot() == away
      {
        if bus[i].readable && CheckProduct(bus[i].vendor, bus[i].product) {
          first := i;
          if bus[i].openCode != LIBUSB_SUCCESS {
            rc := TranslateLibusbError(bus[i].openCode);
            return;
          }
          Bind(bus[i]);
          return Success, i;
        }
        i := i + 1;
      }
      first := |bus|;
      rc := NoDevice;
    }

    method CheckLedFeature() returns (rc: Rc)
      ensures rc == if FLAG_IS_PRO in flags then Success else NotSupported
    {
      rc := if FLAG_IS_PRO in flags then Success else NotSupported;
    }

    // ----- setters -----------------------------------------------------------------------------

    method SetText(line: byte, text: seq<byte>, length: byte) returns (rc: Rc)
      requires Valid() && Callable(Op.SetText(line, text, length))
      modifies this
      ensures Performed(Op.SetText(line, text, length), 0, rc)
    {
      assert ValidState(Cache());
      hide Coherent, Next, ValidLine, UsbHandle.Valid, TwentyFourHour;
      ghost var before := Snapshot();
      if line > 2 {
        Conclude(before, Op.SetText(line, text, length), 0);
        return InvalidParam;
      }
      var count: nat := length;
      if count > LINE_SIZE {
        count := LINE_SIZE;
      }
      var buffer := Blanks(LINE_SIZE);
      buffer := text[..count] + buffer[count..];
      assert buffer == text[..count] + Blanks(LINE_SIZE - count);
      lines := lines[line := Line(buffer, count)];
      updateMask := updateMask + {21 + line};
      Conclude(before, Op.SetText(line, text, length), 0);
      rc := Success;
    }

    method SetLedState(led: int, state: int) returns (rc: Rc)
      requires Valid()
      modifies this
      ensures Performed(SetLed(led, state), 0, rc)
    {
      rc := CheckLedFeature();
      assert ValidState(Cache());
      hide Coherent, Next, ValidLine, UsbHandle.Valid, TwentyFourHour;
      ghost var before := Snapshot();
      if rc == Success {
        rc := SetProLedState(led, state);
        Conclude(before, SetLed(led, state), 0);
      }
    }

    method SetProLedState(led: int, state: int) returns (rc: Rc)
      modifies this`ledMask, this`updateMask
      ensures (Cache(), rc) == Shadow.SetLedState(old(Cache()), led, state)
    {
      if led == LED_FIRE || led == LED_THROTTLE {
        if state == LED_OFF {
          ledMask := ledMask - {led};
          updateMask := updateMask + {led};
        } else if state == LED_ON {
          ledMask := ledMask + {led};
          updateMask := updateMask + {led};
        } else {
          return NotSupported;
        }
      } else if ColorLed(led) {
        if state == LED_OFF {
          ledMask := ledMask - {led};
          ledMask := ledMask - {led + 1};
        } else if state == LED_RED {
          ledMask := ledMask + {led};
          ledMask := ledMask - {led + 1};
        } else if state == LED_AMBER {
          ledMask := ledMask + {led};
          ledMask := ledMask + {led + 1};
        } else if state == LED_GREEN {
          ledMask := ledMask - {led};
          ledMask := ledMask + {led + 1};
        } else if state == LED_ON {
          return NotSupported;
        } else {
          return InvalidParam;
        }
        assert ledMask == Shadow.SetLedState(old(Cache()), led, state).0.ledMask;
        updateMask := updateMask + {led};
        updateMask := updateMask + {led + 1};
        assert updateMask == old(updateMask) + {led, led + 1};
      } else {
        return InvalidParam;
      }
      rc := Success;
    }

    method SetBrightness(mfd: bool, brightness: uint16) returns (rc: Rc)
      requires Valid()
      modifies this
      ensures Performed(Op.SetBrightness(mfd, brightness), 0, rc)
    {
      assert ValidState(Cache());
      hide Coherent, Next, ValidLine, UsbHandle.Valid, TwentyFourHour;
      ghost var before := Snapshot();
      if mfd {
        mfdBrightness := brightness;
        updateMask := updateMask + {25};
      } else {
        ledBrightness := brightness;
        updateMask := updateMask + {26};
      }
      Conclude(before, Op.SetBrightness(mfd, brightness), 0);
      rc := Success;
    }

    method SetShift(on: bool) returns (rc: Rc)
      requires Valid()
      modifies this
      ensures Performed(Op.SetShift(on), 0, rc)
    {
      assert ValidState(Cache());
      hide Coherent, Next, ValidLine, UsbHandle.Valid, TwentyFourHour;
      ghost var before := Snapshot();
      if on {
        ledMask := ledMask + {0};
      } else {
        ledMask := ledMask - {0};
      }
      updateMask := updateMask + {0};
      Conclude(before, Op.SetShift(on), 0);
      rc := Success;
    }

    method SetBlink(on: bool) returns (rc: Rc)
      requires Valid()
      modifies this
      ensures Performed(Op.SetBlink(on), 0, rc)
    {
      assert ValidState(Cache());
      hide Coherent, Next, ValidLine, UsbHandle.Valid, TwentyFourHour;
      ghost var before := Snapshot();
      if on {
        ledMask := ledMask + {24};
      } else {
        ledMask := ledMask - {24};
      }
      updateMask := updateMask + {24};
      Conclude(before, Op.SetBlink(on), 0);
      rc := Success;
    }

    method StoreDate(dd: byte, mm: byte, yy: byte)
      modifies this`dateDay, this`dateMonth, this`dateYear, this`updateMask
      ensures Cache() == old(Cache()).(day := dd, month := mm, year := yy, dirty := old(updateMask) + {MFD_DATE})
    {
      dateDay := dd;
      dateMonth := mm;
      dateYear := yy;
      updateMask := updateMask + {MFD_DATE};
    }

    method StoreTime(hour: byte, minute: byte)
      modifies this`timeHour, this`timeMinute, this`updateMask
      ensures Cache() == old(Cache()).(hour := hour, minute := minute, dirty := old(updateMask) + {MFD_TIME})
    {
      timeHour := hour;
      timeMinute := minute;
      updateMask := updateMask + {MFD_TIME};
    }

    method StoreClock(tm: Tm, zone: int) returns (rc: Rc)
      requires |timezone| == 3
      modifies this`dateDay, this`dateMonth, this`dateYear, this`timeHour, this`timeMinute, this`timezone,
               this`updateMask
      ensures (Cache(), rc) == SetClockTo(old(Cache()), tm, zone)
    {
      var day, month, year := tm.mday, tm.mon + 1, CRem(tm.year, 100);
      var required := false;
      if dateDay != day || dateMonth != month || dateYear != year {
        StoreDate(U8(day), U8(month), U8(year));
        required := true;
      }
      if timeHour != tm.hour || timeMinute != tm.min {
        StoreTime(U8(tm.hour), U8(tm.min));
        required := true;
      }
      ghost var mask := updateMask;
      if timezone[0] != zone {
        updateMask := updateMask + {MFD_OFFS1};
        updateMask := updateMask + {MFD_OFFS1 + 1};
        assert updateMask == mask + {MFD_OFFS1, MFD_OFFS1 + 1};
        required := true;
      }
      timezone := timezone[0 := zone];
      assert old(timezone)[0] == zone ==> timezone == old(timezone);
      rc := if required then Success else TryAgain;
    }

    /** `tm` is what localtime_r or gmtime_r makes of the time, `gmtoff` its seconds east of UTC;
        `now` is the time in seconds. */
    method SetClock(tm: Option<Tm>, gmtoff: int, local: bool, ghost now: int) returns (rc: Rc)
      requires Valid()
      modifies this
      ensures Performed(Op.SetClock(tm, gmtoff, local), now, rc)
    {
      var zone := if local then CDiv(gmtoff, 60) else 0;
      assert ValidState(Cache());
      hide Coherent, Next, ValidLine, UsbHandle.Valid, TwentyFourHour;
      ghost var before := Snapshot();
      if tm.None? {
        Conclude(before, Op.SetClock(tm, gmtoff, local), now);
        return OutOfRange;
      }
      rc := StoreClock(tm.value, zone);
      Conclude(before, Op.SetClock(tm, gmtoff, local), now);
    }

    method SetTime(hour: byte, minute: byte) returns (rc: Rc)
      requires Valid()
      modifies this
      ensures Performed(Op.SetTime(hour, minute), 0, rc)
    {
      assert ValidState(Cache());
      hide Coherent, Next, ValidLine, UsbHandle.Valid, TwentyFourHour;
      ghost var before := Snapshot();
      StoreTime(hour, minute);
      Conclude(before, Op.SetTime(hour, minute), 0);
      rc := Success;
    }

    method SetDate(dd: byte, mm: byte, yy: byte) returns (rc: Rc)
      requires Valid()
      modifies this
      ensures Performed(Op.SetDate(dd, mm, yy), 0, rc)
    {
      assert ValidState(Cache());
      hide Coherent, Next, ValidLine, UsbHandle.Valid, TwentyFourHour;
      ghost var before := Snapshot();
      StoreDate(dd, mm, yy);
      Conclude(before, Op.SetDate(dd, mm, yy), 0);
      rc := Success;
    }

    method SetClockTimezone(clock: int, offset: int) returns (rc: Rc)
      requires Valid()
      modifies this
      ensures Performed(SetTimezone(clock, offset), 0, rc)
    {
      assert ValidState(Cache());
      hide Coherent, Next, ValidLine, UsbHandle.Valid, TwentyFourHour;
      ghost var before := Snapshot();
      if offset < -1440 || offset > 1440 {
        Conclude(before, SetTimezone(clock, offset), 0);
        return OutOfRange;
      }
      if clock == 1 {
        timezone := timezone[clock := offset];
        updateMask := updateMask + {MFD_OFFS1};
      } else if clock == 2 {
        timezone := timezone[clock := offset];
        updateMask := updateMask + {MFD_OFFS1 + 1};
      } else if clock == 0 {
        Conclude(before, SetTimezone(clock, offset), 0);
        return NotSupported;
      } else {
        Conclude(before, SetTimezone(clock, offset), 0);
        return InvalidParam;
      }
      Conclude(before, SetTimezone(clock, offset), 0);
      rc := Success;
    }

    method SetClockFormat(clock: int, format: int) returns (rc: Rc)
      requires Valid()
      modifies this
      ensures Performed(Op.SetClockFormat(clock, format), 0, rc)
    {
      assert ValidState(Cache());
      hide Coherent, Next, ValidLine, UsbHandle.Valid, TwentyFourHour;
      ghost var before := Snapshot();
      if format != 0 && format != 1 {
        Conclude(before, Op.SetClockFormat(clock, format), 0);
        return InvalidParam;
      }
      if clock == 0 {
        StoreClockFormat(clock, format, MFD_TIME);
      } else if clock == 1 {
        StoreClockFormat(clock, format, MFD_OFFS1);
      } else if clock == 2 {
        StoreClockFormat(clock, format, MFD_OFFS1 + 1);
      } else {
        Conclude(before, Op.SetClockFormat(clock, format), 0);
        return InvalidParam;
      }
      Conclude(before, Op.SetClockFormat(clock, format), 0);
      rc := Success;
    }

    method StoreClockFormat(clock: nat, format: int, bit: Bit)
      requires clock < |Cache().clock24| && 0 <= format <= 1
      modifies this`updateMask, this`timeFormat
      ensures Cache() == old(Cache()).(clock24 := old(Cache().clock24)[clock := format == 1],
                                       dirty := old(updateMask) + {bit})
    {
      updateMask := updateMask + {bit};
      timeFormat := timeFormat[clock := format];
    }

    method SetDateFormat(format: int) returns (rc: Rc)
      requires Valid()
      modifies this
      ensures Performed(Op.SetDateFormat(format), 0, rc)
    {
      assert ValidState(Cache());
      hide Coherent, Next, ValidLine, UsbHandle.Valid, TwentyFourHour;
      ghost var before := Snapshot();
      dateFormat := format;
      updateMask := updateMask + {MFD_DATE};
      Conclude(before, Op.SetDateFormat(format), 0);
      rc := Success;
    }

    // ----- handlers ----------------------------------------------------------------------------

    /** The shadow is s except for the mask, which an update keeps aside. */
    ghost predicate Holds(s: State)
      reads this
    {
      ValidState(s) && Cache().(dirty := s.dirty) == s
    }

    /** On handle h, exactly the first `sent` of these requests took effect, with at most three transfers
        for each and for the one that failed; the code returned is that of the last transfer, and the
        handle is dropped exactly when the device is gone. */
    twostate predicate Delivered(h: UsbHandle, cmds: seq<Cmd>, sent: nat, rc: Rc)
      reads this, h
    {
      && h.Valid()
      && sent <= |cmds|
      && h.log == old(h.log) + cmds[..sent]
      && old(h.calls) <= h.calls <= old(h.calls) + 3 * (if sent < |cmds| then sent + 1 else sent)
      && (rc == Success ==> sent == |cmds|)
      && (rc != Success && cmds != [] ==>
            old(h.calls) < h.calls && rc == TranslateLibusbError(h.script(h.calls - 1)))
      && (rc == NoDevice ==> sent < |cmds|)
      && hdl == (if rc == NoDevice then null else h)
      && flags == (if rc == NoDevice then {} else old(flags))
      && (rc == NoDevice ==> lastSeen == h.panel)
      && (rc != NoDevice ==> lastSeen == old(lastSeen))
    }

    /** One request: up to three transfers, the code of the last one, and the handle dropped when the
        device is gone. */
    method VendorCommand(index: uint16, value: uint16) returns (rc: Rc)
      requires hdl != null ==> hdl.Valid()
      requires hdl == null ==> flags == {}
      modifies this`hdl, this`flags, this`lastSeen, hdl
      ensures old(hdl) == null ==> rc == NoDevice && hdl == null && flags == {} && lastSeen == old(lastSeen)
      ensures old(hdl) != null ==>
                && Delivered(old(hdl), [Cmd(index, value)], if rc == Success then 1 else 0, rc)
                && old(hdl).log == (if rc == Success then old(hdl.log) + [Cmd(index, value)] else old(hdl.log))
                && old(hdl).calls == old(hdl.calls) + Tries(old(hdl).script, old(hdl.calls))
                && rc == TranslateLibusbError(old(hdl).script(old(hdl).calls - 1))
    {
      hide TranslateLibusbError, UsbHandle.Valid, Interpret, Replay;
      if hdl == null {
        return NoDevice;
      }
      var code := 0;
      var j := 0;
      ghost var h, before, cmds := hdl, hdl.calls, [Cmd(index, value)];
      assert cmds[..0] == [] && cmds[..1] == cmds;
      while j < 3
        invariant 0 <= j <= 3 && hdl == h && h.Valid() && flags == old(flags) && lastSeen == old(lastSeen)
        invariant h.calls == before + j && h.log == old(hdl.log)
        invariant j > 0 ==> code == h.script(h.calls - 1) != LIBUSB_SUCCESS && h.script(before) != LIBUSB_SUCCESS
        invariant j > 1 ==> h.script(before + 1) != LIBUSB_SUCCESS
      {
        code := hdl.ControlTransfer(value, index);
        if code == LIBUSB_SUCCESS {
          break;
        }
        j := j + 1;
      }
      if code == LIBUSB_ERROR_NO_DEVICE {
        Disconnect();
      }
      rc := TranslateLibusbError(code);
    }

    method WriteShift(ghost s: State) returns (rc: Rc, ghost sent: nat)
      requires hdl != null && hdl.Valid() && Holds(s)
      modifies this`hdl, this`flags, this`lastSeen, hdl
      ensures Delivered(old(hdl), RegCommands(s, 0), sent, rc) && (rc != Success ==> sent < |RegCommands(s, 0)|)
    {
      var value := if 0 in ledMask then 0x51 else 0x50;
      rc := VendorCommand(0xfd, value);
      sent := if rc == Success then 1 else 0;
    }

    method WriteLed(bit: Bit, ghost s: State) returns (rc: Rc, ghost sent: nat)
      requires hdl != null && hdl.Valid() && Holds(s) && 1 <= bit <= 20
      modifies this`hdl, this`flags, this`lastSeen, hdl
      ensures Delivered(old(hdl), RegCommands(s, bit), sent, rc) && (rc != Success ==> sent < |RegCommands(s, bit)|)
    {
      hide Or;
      var value := if bit in ledMask then 1 else 0;
      OrAt8(bit, value);
      rc := VendorCommand(0xb8, Or(value, bit * 0x100));
      sent := if rc == Success then 1 else 0;
    }

    method AppendText(line: Line, index: uint16) returns (rc: Rc, ghost sent: nat)
      requires hdl != null && hdl.Valid() && |line.text| == LINE_SIZE && line.length <= LINE_SIZE
      modifies this`hdl, this`flags, this`lastSeen, hdl
      ensures Delivered(old(hdl), LineWords(line, index, 0), sent, rc)
      ensures rc != Success ==> sent < |LineWords(line, index, 0)|
    {
      hide LineWords, Replay, Joined, PackedTime;
      ghost var h, words := hdl, LineWords(line, index, 0);
      LineWordsCount(line, index, 0);
      rc, sent := Success, 0;
      var i := 0;
      while i < line.length
        invariant i % 2 == 0 && 0 <= i <= line.length + 1 && sent == i / 2
        invariant rc == Success && hdl == h && h.Valid() && flags == old(flags) && lastSeen == old(lastSeen)
        invariant sent <= |words| && h.log == old(hdl.log) + words[..sent]
        invariant old(hdl.calls) <= h.calls <= old(hdl.calls) + 3 * sent
      {
        LineWordsAt(line, index, 0, sent);
        PrefixExtends(old(hdl.log), words, sent);
        rc := VendorCommand(index, Joined(line.text[i + 1], line.text[i]));
        if rc != Success {
          return;
        }
        sent := sent + 1;
        i := i + 2;
      }
    }

    method WriteLine(bit: Bit, ghost s: State) returns (rc: Rc, ghost sent: nat)
      requires hdl != null && hdl.Valid() && Holds(s) && 21 <= bit <= 23
      modifies this`hdl, this`flags, this`lastSeen, hdl
      ensures Delivered(old(hdl), RegCommands(s, bit), sent, rc) && (rc != Success ==> sent < |RegCommands(s, bit)|)
    {
      hide LineWords, Replay;
      var line := lines[bit - 21];
      var index := LINE_INDEX[bit - 21];
      ghost var clear, words := Cmd(index + CLEAR_LINE, 0), LineWords(line, index, 0);
      ghost var cmds := RegCommands(s, bit);
      assert cmds == [clear] + words;
      ghost var log := hdl.log;
      sent := 0;
      rc := VendorCommand(index + CLEAR_LINE, 0);
      if rc == Success {
        rc, sent := AppendText(line, index);
        PrefixAfterFirst(log, clear, words, sent);
        sent := 1 + sent;
      }
    }

    method WritePovBlink(ghost s: State) returns (rc: Rc, ghost sent: nat)
      requires hdl != null && hdl.Valid() && Holds(s)
      modifies this`hdl, this`flags, this`lastSeen, hdl
      ensures Delivered(old(hdl), RegCommands(s, 24), sent, rc) && (rc != Success ==> sent < |RegCommands(s, 24)|)
    {
      var value := if 24 in ledMask then 0x51 else 0x50;
      rc := VendorCommand(0xb4, value);
      sent := if rc == Success then 1 else 0;
    }

    method WriteBrightness(bit: Bit, ghost s: State) returns (rc: Rc, ghost sent: nat)
      requires hdl != null && hdl.Valid() && Holds(s) && 25 <= bit <= 26
      modifies this`hdl, this`flags, this`lastSeen, hdl
      ensures Delivered(old(hdl), RegCommands(s, bit), sent, rc) && (rc != Success ==> sent < |RegCommands(s, bit)|)
    {
      if bit == 25 {
        rc := VendorCommand(0xb1, mfdBrightness);
      } else {
        rc := VendorCommand(0xb2, ledBrightness);
      }
      sent := if rc == Success then 1 else 0;
    }

    method WriteDate(ghost s: State) returns (rc: Rc, ghost sent: nat)
      requires hdl != null && hdl.Valid() && Holds(s)
      modifies this`hdl, this`flags, this`lastSeen, hdl
      ensures Delivered(old(hdl), RegCommands(s, MFD_DATE), sent, rc)
      ensures !ValidDate(s) ==> rc == InvalidParam && sent == 0
      ensures rc != Success && ValidDate(s) ==> sent < 2
    {
      hide Joined, PackedOffset, PackedTime, Or, OffsetWord, LineWords, Replay, Interpret, ValidLine, TwentyFourHour,
           Tries, Wanted, Shown;
      var value1: uint16, value2: uint16;
      if dateFormat == YYMMDD {
        value1 := Joined(dateMonth, dateYear);
        value2 := dateDay;
      } else if dateFormat == MMDDYY {
        value1 := Joined(dateDay, dateMonth);
        value2 := dateYear;
      } else if dateFormat == DDMMYY {
        value1 := Joined(dateMonth, dateDay);
        value2 := dateYear;
      } else {
        return InvalidParam, 0;
      }
      rc := VendorCommand(0xc4, value1);
      sent := 0;
      if rc == Success {
        ghost var cmds := RegCommands(s, MFD_DATE);
        assert cmds[..1] == [cmds[0]] && cmds[..2] == cmds[..1] + [cmds[1]];
        rc := VendorCommand(0xc8, value2);
        sent := if rc == Success then 2 else 1;
      }
    }

    /** The packed offset of a secondary clock from the base clock. */
    method CalculateClockOffset(clock: nat, h24: bool) returns (value: uint16)
      requires clock < |timezone|
      ensures value == OffsetWord(h24, timezone[clock] - timezone[0])
    {
      hide Joined, PackedOffset, OffsetWord;
      var offset := timezone[clock] - timezone[0];
      var negative := false;
      if offset < 0 {
        negative := true;
        offset := -offset;
      }
      ghost var magnitude, days: nat := offset, 0;
      while offset > 1023
        invariant offset >= -416 && offset == magnitude - 1440 * days
        decreases offset
      {
        offset, days := offset - 1440, days + 1;
      }
      PackedIsOffsetWord(h24, timezone[clock] - timezone[0], offset, days);
      if offset < 0 {
        negative := !negative;
        offset := -offset;
      }
      value := PackedOffset(h24, negative, offset);
    }

    method WriteTime(bit: Bit, ghost s: State) returns (rc: Rc, ghost sent: nat)
      requires hdl != null && hdl.Valid() && Holds(s) && 28 <= bit <= 30
      modifies this`hdl, this`flags, this`lastSeen, hdl
      ensures Delivered(old(hdl), RegCommands(s, bit), sent, rc) && (rc != Success ==> sent < |RegCommands(s, bit)|)
    {
      hide OffsetWord, Joined, PackedOffset, PackedTime, Or, LineWords, Replay, Interpret, ValidLine, Tries, Wanted,
           Shown, UsbHandle.Valid, TranslateLibusbError;
      assert |timeFormat| == |s.clock24|;
      var h24 := timeFormat[bit - 28] != 0;
      assert h24 == s.clock24[bit - 28];
      if bit == MFD_TIME {
        var value := PackedTime(h24, timeHour, timeMinute);
        assert RegCommands(s, bit) == [Cmd(0xc0, value)];
        rc := VendorCommand(0xc0, value);
      } else {
        var value := CalculateClockOffset(bit - 28, h24);
        assert RegCommands(s, bit) == [Cmd(if bit == MFD_OFFS1 then 0xc1 else 0xc2, value)];
        rc := VendorCommand(if bit == MFD_OFFS1 then 0xc1 else 0xc2, value);
      }
      sent := if rc == Success then 1 else 0;
    }

    /** The handler table. A bit without a handler counts as written. */
    method Dispatch(bit: Bit, ghost s: State) returns (rc: Rc, ghost sent: nat)
      requires hdl != null && hdl.Valid() && Holds(s)
      modifies this`hdl, this`flags, this`lastSeen, hdl
      ensures Delivered(old(hdl), RegCommands(s, bit), sent, rc)
      ensures !Encodable(s, bit) ==> rc == InvalidParam && sent == 0 == |RegCommands(s, bit)|
      ensures rc != Success && Encodable(s, bit) ==> sent < |RegCommands(s, bit)|
    {
      if bit == 0 {
        rc, sent := WriteShift(s);
      } else if bit <= 20 {
        rc, sent := WriteLed(bit, s);
      } else if bit <= 23 {
        rc, sent := WriteLine(bit, s);
      } else if bit == 24 {
        rc, sent := WritePovBlink(s);
      } else if bit <= 26 {
        rc, sent := WriteBrightness(bit, s);
      } else if bit == 27 {
        rc, sent := WriteDate(s);
      } else if bit <= 30 {
        rc, sent := WriteTime(bit, s);
      } else {
        rc, sent := Success, 0;
      }
    }

    /** The outcome o of an update that began in shadow s on handle h, with this log, so many transfers made,
        these flags and this last sight of a lost joystick. */
    ghost predicate Wrote(h: UsbHandle, s: State, o: Outcome, rc: Rc, log: seq<Cmd>, calls: nat, f: Mask, seen: Panel)
      requires ValidState(s) && Possible(s, o)
      reads this, h
    {
      && h.Valid()
      && h.log == log + Sent(s, o)
      && (rc == Success <==> o.Finished?)
      && (rc != Success ==>
            if !Encodable(s, o.bit) then rc == InvalidParam
            else calls < h.calls && rc == TranslateLibusbError(h.script(h.calls - 1)))
      && calls <= h.calls <= calls + 3 * 56
      && hdl == (if rc == NoDevice then null else h)
      && flags == (if rc == NoDevice then {} else f)
      && lastSeen == (if rc == NoDevice then h.panel else seen)
      && Cache() == s.(dirty := Left(s, o), pro := FLAG_IS_PRO in flags)
    }

    /** Sets the mask aside for the time of an update. */
    method TakeMask() returns (pending: Mask)
      modifies this`updateMask
      ensures pending == old(updateMask) && Cache() == old(Cache()).(dirty := {})
    {
      pending := updateMask;
      updateMask := {};
    }

    /** One register of an update. A failure restores the mask that is still pending. */
    method WriteRegister(bit: Bit, pending: Mask, ghost s: State) returns (rc: Rc, ghost sent: nat)
      requires hdl != null && hdl.Valid() && ValidState(s) && Cache() == s.(dirty := {})
      modifies this`updateMask, this`hdl, this`flags, this`lastSeen, hdl
      ensures Delivered(old(hdl), RegCommands(s, bit), sent, rc)
      ensures !Encodable(s, bit) ==> rc == InvalidParam && sent == 0 == |RegCommands(s, bit)|
      ensures rc != Success && Encodable(s, bit) ==> sent < |RegCommands(s, bit)|
      ensures Cache() == s.(dirty := if rc == Success then {} else pending, pro := FLAG_IS_PRO in flags)
    {
      hide RegCommands, ValidLine, Replay, Interpret, TwentyFourHour, UsbHandle.Valid, TranslateLibusbError, Encodable,
           Tries, Or, OffsetWord, LineWords, Wanted, Shown;
      rc, sent := Dispatch(bit, s);
      if rc != Success {
        updateMask := pending;
      }
    }

    /** The registers below i of an update are written, and `pending` is what is left of the mask. */
    ghost predicate Underway(h: UsbHandle, s: State, i: nat, pending: Mask, log: seq<Cmd>, calls: nat, f: Mask,
                             seen: Panel)
      requires ValidState(s) && i <= 32
      reads this, h
    {
      && hdl == h && h.Valid() && Cache() == s.(dirty := {}) && flags == f && lastSeen == seen
      && pending == LeftFrom(s, i)
      && (forall b :: b in s.dirty && b < i ==> Encodable(s, b))
      && h.log == log + Below(s, i)
      && calls <= h.calls <= calls + 3 * |Below(s, i)|
    }

    /** One round of the loop of libx52_update. */
    method WriteNext(i: Bit, pending: Mask, ghost s: State, ghost log: seq<Cmd>, ghost calls: nat)
      returns (rc: Rc, left: Mask, ghost o: Outcome)
      requires hdl != null && ValidState(s) && Underway(hdl, s, i, pending, log, calls, flags, lastSeen)
      modifies this`updateMask, this`hdl, this`flags, this`lastSeen, hdl
      ensures rc == Success ==> Underway(old(hdl), s, i + 1, left, log, calls, old(flags), old(lastSeen))
      ensures rc != Success ==> Possible(s, o) && Wrote(old(hdl), s, o, rc, log, calls, old(flags), old(lastSeen))
    {
      hide RegCommands, LeftFrom, UsbHandle.Valid, TranslateLibusbError, Below, Sent, Encodable, ValidState, Possible,
           Left;
      rc, left, o := Success, pending, Finished;
      LeftFromNext(s, i);
      BelowNext(log, s, i);
      if i in pending {
        ghost var cmds, sent := RegCommands(s, i), 0;
        rc, sent := WriteRegister(i, pending, s);
        if rc != Success {
          o := Stopped(i, sent);
          StopsHere(log, s, i, sent);
        } else {
          assert cmds[..sent] == cmds;
          left := pending - {i};
        }
      }
    }

    /** The loop of libx52_update over the 32 bits. */
    method WriteDirty(ghost s: State) returns (rc: Rc, ghost o: Outcome)
      requires hdl != null && hdl.Valid() && ValidState(s) && Cache() == s
      modifies this`updateMask, this`hdl, this`flags, this`lastSeen, hdl
      ensures Possible(s, o)
      ensures Wrote(old(hdl), s, o, rc, old(hdl.log), old(hdl.calls), old(flags), old(lastSeen))
    {
      ghost var h, log, calls, f, seen := hdl, hdl.log, hdl.calls, flags, lastSeen;
      var pending := TakeMask();
      rc := Success;
      StartsUnderway(s, pending);
      hide Underway, Wrote, UsbHandle.Valid, Possible;
      var i: nat := 0;
      while i < 32
        invariant 0 <= i <= 32 && rc == Success && hdl == h && flags == f && lastSeen == seen
        invariant Underway(h, s, i, pending, log, calls, f, seen)
      {
        rc, pending, o := WriteNext(i, pending, s, log, calls);
        if rc != Success {
          return;
        }
        i := i + 1;
        IsUnderway(s, i, pending, h, log, calls, f, seen);
      }
      o := Finished;
      EndsUnderway(s, pending, log, calls);
    }

    lemma StartsUnderway(s: State, pending: Mask)
      requires hdl != null && hdl.Valid() && ValidState(s) && Cache() == s.(dirty := {}) && pending == s.dirty
      ensures Underway(hdl, s, 0, pending, hdl.log, hdl.calls, flags, lastSeen)
    {
      LeftFromStart(s);
      BelowEmpty(s);
    }

    lemma IsUnderway(s: State, i: nat, pending: Mask, h: UsbHandle, log: seq<Cmd>, calls: nat, f: Mask, seen: Panel)
      requires ValidState(s) && i <= 32 && Underway(h, s, i, pending, log, calls, f, seen)
      ensures hdl == h && flags == f && lastSeen == seen
    {
    }

    lemma EndsUnderway(s: State, pending: Mask, log: seq<Cmd>, calls: nat)
      requires hdl != null && ValidState(s) && Underway(hdl, s, 32, pending, log, calls, flags, lastSeen)
      ensures Possible(s, Finished) && Wrote(hdl, s, Finished, Success, log, calls, flags, lastSeen)
    {
      hide RegCommands, Encodable, ValidState, UsbHandle.Valid, TwentyFourHour;
      FinishesHere(s);
    }

    /** libx52_update. Whatever the transfers return, the update is one of the outcomes the joystick side
        allows: the registers in ascending order up to the one whose handler failed, whose bit and all
        later ones stay marked. It takes at most 168 transfers. */
    method Update() returns (rc: Rc, ghost o: Outcome)
      requires Valid()
      modifies this, hdl
      ensures Valid()
      ensures old(hdl) == null ==> rc == NoDevice && Snapshot() == old(Snapshot())
      ensures old(hdl) != null ==>
                && ValidState(old(Cache())) && Possible(old(Cache()), o)
                && Wrote(old(hdl), old(Cache()), o, rc, old(hdl.log), old(hdl.calls), old(flags), old(lastSeen))
                && Enabled(old(Snapshot()), Write(o, rc == NoDevice))
                && Snapshot() == Next(old(Snapshot()), Write(o, rc == NoDevice))
                && (rc == Success ==> ValidDate(old(Cache())))
      ensures old(hdl) != null && (forall n: nat :: old(hdl).script(n) == LIBUSB_SUCCESS) ==>
                (rc == Success <==> ValidDate(old(Cache())))
    {
      if hdl == null {
        return NoDevice, Finished;
      }
      hide Wanted, Shown, Interpret, ValidLine, TwentyFourHour, RegCommands, Below, Sent, LeftFrom,
           TranslateLibusbError;
      ghost var s, h, before, log := Cache(), hdl, Snapshot(), hdl.log;
      rc, o := WriteDirty(s);
      ReplayConcat(h.start, log, Sent(s, o));
      WriteKeepsCoherent(before, o, rc == NoDevice);
      UpdateCanFinishIffDateFormatKnown(s);
    }
  }
}
