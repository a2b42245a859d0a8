/** The daemon's device driver: setters and updates as critical sections, the configuration applied after
    a connection, and the body of the device thread's loop (daemon/x52d_device.c, daemon/x52d_config.c). */
module DeviceManager {
  import opened Prelude
  import opened Bits
  import opened Panel
  import opened Shadow
  import opened Update
  import opened Runs
  import opened Resync
  import opened Device

  lemma {:induction false} CallsSnoc(st: Sys, ops: seq<Op>, op: Op, now: int)
    requires ValidSys(st) && DaemonOp(op) && forall i :: 0 <= i < |ops| ==> DaemonOp(ops[i])
    ensures forall i :: 0 <= i < |ops + [op]| ==> DaemonOp((ops + [op])[i])
    ensures ValidSys(Calls(st, ops, now)) && Callable(op)
    ensures Calls(st, ops + [op], now) == Next(Calls(st, ops, now), Call(op, now))
    decreases |ops|
  {
    hide Apply, DaemonOp, ValidState, ValidPanel;
    if ops == [] {
      OpStep(st, op, now);
      assert ([] + [op])[1..] == [];
      assert ([] + [op])[0] == op;
    } else {
      assert DaemonOp(ops[0]);
      OpStep(st, ops[0], now);
      assert (ops + [op])[1..] == ops[1..] + [op] && (ops + [op])[0] == ops[0];
      CallsSnoc(Next(st, Call(ops[0], now)), ops[1..], op, now);
    }
  }

  lemma {:induction false} CallsKeepModel(st: Sys, ops: seq<Op>, now: int)
    requires ValidSys(st) && forall i :: 0 <= i < |ops| ==> DaemonOp(ops[i])
    ensures Calls(st, ops, now).shadow.pro == st.shadow.pro
    decreases |ops|
  {
    hide Apply, DaemonOp, ValidState, ValidPanel;
    if ops != [] {
      assert DaemonOp(ops[0]);
      OpStep(st, ops[0], now);
      CallsKeepModel(Next(st, Call(ops[0], now)), ops[1..], now);
    }
  }

  class DeviceManager {
    const dev: Libx52
    var updateNeeded: bool

    constructor ()
      ensures dev.Valid() && dev.hdl == null && !updateNeeded && fresh(dev)
    {
      dev := new Libx52();
      updateNeeded := false;
    }

    /** A critical section that performed a setter, whose success asks for an update. */
    twostate predicate Did(op: Op, rc: Rc)
      reads this, dev, dev.hdl
    {
      && dev.Valid() && dev.hdl == old(dev.hdl)
      && old(dev.Valid()) && Callable(op)
      && dev.Snapshot() == Next(old(dev.Snapshot()), Call(op, 0))
      && updateNeeded == (old(updateNeeded) || rc == Success)
    }

    /** A joystick without settable LEDs ignores the call, and the caller is told it succeeded. */
    method SetLedState(led: int, state: int) returns (rc: Rc)
      requires dev.Valid()
      modifies this, dev
      ensures Did(SetLed(led, state), if FLAG_IS_PRO in old(dev.flags) then rc else NotSupported)
      ensures FLAG_IS_PRO !in old(dev.flags) ==> rc == Success && dev.Snapshot() == old(dev.Snapshot())
    {
      var feature := dev.CheckLedFeature();
      if feature != NotSupported {
        rc := dev.SetLedState(led, state);
        updateNeeded := updateNeeded || rc == Success;
      } else {
        rc := Success;
        assert dev.Snapshot().live + dev.Snapshot().shadow.dirty == dev.Snapshot().live;
      }
    }

    method SetClockTimezone(clock: int, offset: int) returns (rc: Rc)
      requires dev.Valid()
      modifies this, dev
      ensures Did(SetTimezone(clock, offset), rc)
    {
      rc := dev.SetClockTimezone(clock, offset);
      updateNeeded := updateNeeded || rc == Success;
    }

    method SetClockFormat(clock: int, format: int) returns (rc: Rc)
      requires dev.Valid()
      modifies this, dev
      ensures Did(Op.SetClockFormat(clock, format), rc)
    {
      rc := dev.SetClockFormat(clock, format);
      updateNeeded := updateNeeded || rc == Success;
    }

    method SetDateFormat(format: int) returns (rc: Rc)
      requires dev.Valid()
      modifies this, dev
      ensures Did(Op.SetDateFormat(format), rc)
    {
      rc := dev.SetDateFormat(format);
      updateNeeded := updateNeeded || rc == Success;
    }

    method SetBrightness(mfd: bool, level: uint16) returns (rc: Rc)
      requires dev.Valid()
      modifies this, dev
      ensures Did(Op.SetBrightness(mfd, level), rc)
    {
      rc := dev.SetBrightness(mfd, level);
      updateNeeded := updateNeeded || rc == Success;
    }

    /** The state reached from `start` by these setter calls. */
    ghost predicate Reached(start: Sys, ops: seq<Op>)
      reads this, dev, dev.hdl
    {
      && dev.Valid() && ValidSys(start)
      && (forall i :: 0 <= i < |ops| ==> DaemonOp(ops[i]))
      && dev.Snapshot() == Calls(start, ops, 0)
    }

    /** The clock callbacks, which do nothing while the clock is disabled. */
    method ApplyClock(c: DeviceConfig, ghost start: Sys)
      requires |c.clockFormats| == 3 && Reached(start, [])
      modifies this, dev
      ensures dev.hdl == old(dev.hdl) && Reached(start, ClockOps(c))
    {
      hide Calls, Apply, Coherent, ValidState, ValidPanel, Libx52.Valid, Libx52.Snapshot;
      if !c.clockEnabled {
        return;
      }
      var rc;
      ghost var ops: seq<Op> := [];
      rc := SetClockTimezone(1, c.offset2);
      CallsSnoc(start, ops, SetTimezone(1, c.offset2), 0);
      ops := ops + [SetTimezone(1, c.offset2)];
      rc := SetClockTimezone(2, c.offset3);
      CallsSnoc(start, ops, SetTimezone(2, c.offset3), 0);
      ops := ops + [SetTimezone(2, c.offset3)];
      var i: nat := 0;
      while i < 3
        invariant i <= 3 && dev.hdl == old(dev.hdl) && Reached(start, ops)
        invariant ops == ClockOps(c)[..2 + i]
      {
        rc := SetClockFormat(i, c.clockFormats[i]);
        CallsSnoc(start, ops, Op.SetClockFormat(i, c.clockFormats[i]), 0);
        ops := ops + [Op.SetClockFormat(i, c.clockFormats[i])];
        i := i + 1;
      }
      rc := SetDateFormat(c.dateFormat);
      CallsSnoc(start, ops, Op.SetDateFormat(c.dateFormat), 0);
      ops := ops + [Op.SetDateFormat(c.dateFormat)];
      assert ops == ClockOps(c);
    }

    /** The LED callbacks. */
    method ApplyLeds(c: DeviceConfig, ghost start: Sys, ghost before: seq<Op>)
      requires |c.leds| == |LEDS| && Reached(start, before)
      modifies this, dev
      ensures dev.hdl == old(dev.hdl) && Reached(start, before + LedOps(c.leds, |LEDS|))
    {
      hide Calls, Apply, Coherent, ValidState, ValidPanel, Libx52.Valid, Libx52.Snapshot;
      assert before + LedOps(c.leds, 0) == before;
      var i: nat := 0;
      while i < |LEDS|
        invariant i <= |LEDS| && dev.hdl == old(dev.hdl) && Reached(start, before + LedOps(c.leds, i))
      {
        ghost var ops := before + LedOps(c.leds, i);
        var rc := SetLedState(LEDS[i], c.leds[i]);
        CallsSnoc(start, ops, SetLed(LEDS[i], c.leds[i]), 0);
        assert before + LedOps(c.leds, i + 1) == ops + [SetLed(LEDS[i], c.leds[i])];
        i := i + 1;
      }
    }

    method ApplyBrightness(c: DeviceConfig, ghost start: Sys, ghost before: seq<Op>)
      requires Reached(start, before)
      modifies this, dev
      ensures dev.hdl == old(dev.hdl)
      ensures Reached(start, before + [Op.SetBrightness(true, U16(c.mfdBrightness)),
                                       Op.SetBrightness(false, U16(c.ledBrightness))])
    {
      hide Calls, Apply, Coherent, ValidState, ValidPanel, Libx52.Valid, Libx52.Snapshot;
      ghost var mfd, led := Op.SetBrightness(true, U16(c.mfdBrightness)), Op.SetBrightness(false, U16(c.ledBrightness));
      var rc := SetBrightness(true, U16(c.mfdBrightness));
      CallsSnoc(start, before, mfd, 0);
      rc := SetBrightness(false, U16(c.ledBrightness));
      CallsSnoc(start, before + [mfd], led, 0);
      assert before + [mfd] + [led] == before + [mfd, led];
    }

    /** x52d_config_apply: the device goes through exactly the calls of the configuration. */
    method ApplyConfig(c: DeviceConfig)
      requires dev.Valid() && WellFormed(c)
      modifies this, dev
      ensures dev.Valid() && dev.hdl == old(dev.hdl)
      ensures ValidSys(old(dev.Snapshot())) && forall i :: 0 <= i < |ConfigOps(c)| ==> DaemonOp(ConfigOps(c)[i])
      ensures dev.Snapshot() == Calls(old(dev.Snapshot()), ConfigOps(c), 0)
    {
      hide LedOps, ClockOps, Apply, ValidState, ValidPanel;
      ghost var start := dev.Snapshot();
      ApplyClock(c, start);
      ApplyLeds(c, start, ClockOps(c));
      ApplyBrightness(c, start, ClockOps(c) + LedOps(c.leds, |LEDS|));
    }

    /** x52d_dev_update: a lost device is let go, any other failure leaves the update to the next round. */
    method DevUpdate() returns (rc: Rc, ghost o: Outcome)
      requires dev.Valid()
      modifies this, dev, dev.hdl
      ensures dev.Valid()
      ensures updateNeeded == (old(updateNeeded) && rc != Success)
      ensures old(dev.hdl) == null ==> rc == NoDevice && dev.Snapshot() == old(dev.Snapshot())
      ensures old(dev.hdl) != null ==>
                && Enabled(old(dev.Snapshot()), Write(o, rc == NoDevice))
                && dev.Snapshot() == Next(old(dev.Snapshot()), Write(o, rc == NoDevice))
      ensures old(dev.hdl) != null ==> (rc == NoDevice <==> dev.hdl == null) && (rc == Success <==> o.Finished?)
      ensures rc == Success ==> dev.updateMask == {}
    {
      rc, o := dev.Update();
      if rc != Success {
        if rc == NoDevice {
          dev.Disconnect();
        }
      } else {
        updateNeeded := false;
      }
    }

    /** One round of the device thread. Without a device it looks for one and, if it finds one, applies the
        configuration: on an X52 Pro a legal configuration then marks every register it owns. With a device
        it writes pending settings, and a failure loses none of them. */
    method Round(bus: seq<BusEntry>, c: DeviceConfig) returns (ghost o: Outcome, ghost found: Panel)
      requires dev.Valid() && WellFormed(c)
      requires forall e :: e in bus ==> e.handle.Valid()
      modifies this, dev, dev.hdl
      ensures dev.Valid()
      ensures old(dev.hdl) == null && dev.hdl == null ==> dev.Snapshot() == old(dev.Snapshot())
      ensures old(dev.hdl) == null && dev.hdl != null ==>
                ValidPanel(found)
                && dev.Snapshot() == Reconfigured(old(dev.Snapshot()), found, FLAG_IS_PRO in dev.flags, c, 0)
      ensures old(dev.hdl) == null && dev.hdl != null && FLAG_IS_PRO in dev.flags && Legal(c) ==>
                forall b: Bit :: DaemonBit(b) ==> b in dev.updateMask
      ensures old(dev.hdl) != null && !old(updateNeeded) ==> dev.Snapshot() == old(dev.Snapshot())
      ensures old(dev.hdl) != null && dev.hdl != null && old(updateNeeded) && !updateNeeded ==>
                dev.updateMask == {}
      ensures old(dev.hdl) != null && old(updateNeeded) ==>
                && Enabled(old(dev.Snapshot()), Write(o, dev.hdl == null))
                && dev.Snapshot() == Next(old(dev.Snapshot()), Write(o, dev.hdl == null))
    {
      hide ConfigOps, AllMarks, Calls, Legal, Apply, ValidState, ValidPanel, Wanted, Shown;
      o, found := Finished, dev.lastSeen;
      if dev.hdl == null {
        assert Next(dev.Snapshot(), Unplug) == dev.Snapshot();
        var rc, first := dev.Connect(bus);
        if rc == Success {
          ghost var plugged := dev.Snapshot();
          found := dev.hdl.panel;
          OnlyDaemonOps(c);
          ApplyConfig(c);
          CallsKeepModel(plugged, ConfigOps(c), 0);
          if FLAG_IS_PRO in dev.flags {
            CallsMark(plugged, ConfigOps(c), 0);
            ConfigMarksAllIffLegal(c);
            assert dev.updateMask == plugged.shadow.dirty + AllMarks(ConfigOps(c));
          }
        }
      } else if updateNeeded {
        var rc;
        rc, o := DevUpdate();
      }
    }
  }
}
