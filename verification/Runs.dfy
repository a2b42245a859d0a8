/** Whole runs of the library: any interleaving of setter calls, updates that end anywhere, unplugging
    and replugging. A call under the daemon's device mutex is one step (daemon/x52d_device.c). */
module Runs {
  import opened Prelude
  import opened Bits
  import opened Panel
  import opened Shadow
  import opened Update

  /** The library and the device it talks to. `live` are the registers that were marked, or found
      right, since the device was attached; `reading` is the time of the last clock setting. */
  datatype Sys = Sys(shadow: State, panel: Panel, attached: bool, live: Mask, reading: Reading)

  /** A point in time in seconds, and the offset from it to the time on the primary clock. */
  datatype Reading = Reading(utc: int, offset: int)

  function ReadingAfter(r: Reading, op: Op, now: int): Reading {
    if op.SetClock? && op.tm.Some? then Reading(now, if op.local then op.gmtoff else 0) else r
  }

  datatype Step =
    | Call(op: Op, now: int)
    | Write(outcome: Outcome, lost: bool)
    | Unplug
    | Plug(panel: Panel, pro: bool)

  ghost predicate Enabled(st: Sys, step: Step)
    requires ValidState(st.shadow)
  {
    match step
    case Call(op, _) => Callable(op)
    case Write(o, lost) =>
      st.attached ==> Possible(st.shadow, o) && (lost ==> o.Stopped? && Encodable(st.shadow, o.bit))
    case Unplug => true
    case Plug(p, _) => ValidPanel(p)
  }

  /** The registers that already show what the shadow wants. */
  ghost function Right(s: State, p: Panel): Mask
    requires ValidState(s) && ValidPanel(p)
  {
    set b: Bit | Shown(p, b) == Wanted(s, b)
  }

  ghost function Next(st: Sys, step: Step): Sys
    requires ValidState(st.shadow) && ValidPanel(st.panel) && Enabled(st, step)
  {
    match step
    case Call(op, now) =>
      var s := Apply(op, st.shadow).0;
      st.(shadow := s, live := st.live + s.dirty, reading := ReadingAfter(st.reading, op, now))
    case Write(o, lost) =>
      if !st.attached then st else
        var s := st.shadow.(dirty := Left(st.shadow, o));
        st.(shadow := if lost then s.(pro := false) else s,
            panel := Replay(st.panel, Sent(st.shadow, o)),
            attached := !lost)
    case Unplug => st.(attached := false, shadow := st.shadow.(pro := false))
    case Plug(p, pro) =>
      st.(attached := true, shadow := st.shadow.(pro := pro), panel := p, live := st.shadow.dirty + Right(st.shadow, p))
  }

  ghost predicate ValidSys(st: Sys) {
    ValidState(st.shadow) && ValidPanel(st.panel)
  }

  /** Write-back coherence: a live register shows the shadow unless it is still marked. */
  ghost predicate Coherent(st: Sys) {
    && ValidSys(st)
    && st.shadow.dirty <= st.live
    && forall b :: b in st.live - st.shadow.dirty ==> st.attached ==> Shown(st.panel, b) == Wanted(st.shadow, b)
  }

  /** A run: states joined by steps. */
  ghost predicate Run(sts: seq<Sys>, steps: seq<Step>) {
    && |sts| == |steps| + 1
    && forall i :: 0 <= i < |steps| ==>
         ValidSys(sts[i]) && Enabled(sts[i], steps[i]) && sts[i + 1] == Next(sts[i], steps[i])
  }

  // ----- setters -----------------------------------------------------------------------------

  lemma ApplyKeepsValid(op: Op, s: State)
    requires ValidState(s) && Callable(op)
    ensures ValidState(Apply(op, s).0)
    ensures s.dirty <= Apply(op, s).0.dirty
  {
  }

  lemma SetClockMarks(s: State, tm: Tm, zone: int, b: Bit)
    requires ValidState(s) && b !in SetClockTo(s, tm, zone).0.dirty
    ensures Wanted(SetClockTo(s, tm, zone).0, b) == Wanted(s, b)
  {
    hide DisplayOffset, ValidLine;
  }

  lemma SetTextMarks(s: State, op: Op, b: Bit)
    requires ValidState(s) && op.SetText? && Callable(op) && b !in Apply(op, s).0.dirty
    ensures ValidState(Apply(op, s).0) && Wanted(Apply(op, s).0, b) == Wanted(s, b)
  {
  }

  lemma SetLedMarks(s: State, led: int, state: int, b: Bit)
    requires ValidState(s) && b !in SetLedState(s, led, state).0.dirty
    ensures ValidState(SetLedState(s, led, state).0) && Wanted(SetLedState(s, led, state).0, b) == Wanted(s, b)
  {
    hide DisplayOffset, ValidLine;
  }

  /** No setter changes what a register should show without marking that register. */
  lemma ApplyMarks(op: Op, s: State, b: Bit)
    requires ValidState(s) && Callable(op) && ValidState(Apply(op, s).0)
    requires b !in Apply(op, s).0.dirty
    ensures Wanted(Apply(op, s).0, b) == Wanted(s, b)
  {
    hide SetClockTo, SetLedState, DisplayOffset, ValidLine;
    match op
    case SetText(_, _, _) => SetTextMarks(s, op, b);
    case SetClock(tm, gmtoff, local) =>
      if tm.Some? {
        SetClockMarks(s, tm.value, LocalZone(gmtoff, local), b);
      }
    case SetLed(led, state) =>
      if s.pro {
        SetLedMarks(s, led, state, b);
      }
    case SetBrightness(_, _) =>
    case SetShift(_) =>
    case SetBlink(_) =>
    case SetTime(_, _) =>
    case SetDate(_, _, _) =>
    case SetTimezone(_, _) =>
    case SetClockFormat(_, _) =>
    case SetDateFormat(_) =>
  }

  /** A rejected call changes nothing at all. */
  lemma RejectedCallsChangeNothing(op: Op, s: State)
    requires ValidState(s) && Callable(op) && Apply(op, s).1 != Success
    ensures Apply(op, s).0 == s
  {
  }

  // ----- coherence ---------------------------------------------------------------------------

  lemma WantedIgnoresMask(s: State, t: State, b: Bit)
    requires ValidState(s) && ValidState(t)
    requires t == s.(dirty := t.dirty, pro := t.pro)
    ensures Wanted(t, b) == Wanted(s, b)
  {
  }

  lemma WriteKeepsCoherent(st: Sys, o: Outcome, lost: bool)
    requires Coherent(st) && Enabled(st, Write(o, lost))
    ensures Coherent(Next(st, Write(o, lost)))
  {
    if st.attached {
      UpdateKeepsValid(st.shadow, o);
      var st' := Next(st, Write(o, lost));
      forall b | b in st'.live - st'.shadow.dirty && st'.attached
        ensures Shown(st'.panel, b) == Wanted(st'.shadow, b)
      {
        UpdateEffect(st.shadow, st.panel, o, b);
        WantedIgnoresMask(st.shadow, st'.shadow, b);
      }
    }
  }

  lemma CallKeepsCoherent(st: Sys, op: Op, now: int)
    requires Coherent(st) && Callable(op)
    ensures Coherent(Next(st, Call(op, now)))
  {
    ApplyKeepsValid(op, st.shadow);
    var st' := Next(st, Call(op, now));
    forall b | b in st'.live - st'.shadow.dirty && st'.attached
      ensures Shown(st'.panel, b) == Wanted(st'.shadow, b)
    {
      ApplyMarks(op, st.shadow, b);
    }
  }

  lemma StepKeepsCoherent(st: Sys, step: Step)
    requires Coherent(st) && Enabled(st, step)
    ensures Coherent(Next(st, step))
  {
    match step
    case Call(op, now) => CallKeepsCoherent(st, op, now);
    case Write(o, lost) => WriteKeepsCoherent(st, o, lost);
    case Unplug =>
    case Plug(p, pro) =>
      var st' := Next(st, step);
      forall b: Bit
        ensures Wanted(st'.shadow, b) == Wanted(st.shadow, b)
      {
        WantedIgnoresMask(st.shadow, st'.shadow, b);
      }
  }

  /** Coherence holds in every state of every run that starts coherent. */
  lemma {:induction false} CoherentThroughout(sts: seq<Sys>, steps: seq<Step>, k: nat)
    requires Run(sts, steps) && Coherent(sts[0]) && k < |sts|
    ensures Coherent(sts[k])
  {
    if k > 0 {
      CoherentThroughout(sts, steps, k - 1);
      StepKeepsCoherent(sts[k - 1], steps[k - 1]);
    }
  }

  /** What calloc leaves in the device structure, on an X52 Pro. */
  ghost function ZeroShadow(): State {
    State({}, true, {}, 0, 0, seq(3, _ => Line(seq(LINE_SIZE, _ => 0), 0)), DDMMYY, 0, 0, 0, 0, 0, [0, 0, 0],
          [false, false, false])
  }

  /** A device whose registers all read zero. */
  ghost function ZeroPanel(): Panel {
    Panel({}, false, false, 0, 0, [[], [], []], BaseClock(false, 0, 0),
          [OffsetClock(false, 0), OffsetClock(false, 0)], DateField(0, 0, 0))
  }

  ghost function Fresh(): Sys {
    Sys(ZeroShadow(), ZeroPanel(), true, Right(ZeroShadow(), ZeroPanel()), Reading(0, 0))
  }

  ghost predicate AllLive(st: Sys) {
    forall b: Bit :: b in st.live
  }

  lemma ZeroShown(b: Bit)
    ensures ValidState(ZeroShadow()) && ValidPanel(ZeroPanel())
    ensures Shown(ZeroPanel(), b) == Wanted(ZeroShadow(), b)
  {
  }

  lemma FreshIsCoherent()
    ensures Coherent(Fresh()) && AllLive(Fresh())
  {
    hide Shown, Wanted;
    forall b: Bit
      ensures Shown(ZeroPanel(), b) == Wanted(ZeroShadow(), b)
    {
      ZeroShown(b);
    }
  }

  /** The device is neither unplugged, replugged nor lost. */
  ghost predicate Undisturbed(steps: seq<Step>) {
    forall i :: 0 <= i < |steps| ==> steps[i].Call? || (steps[i].Write? && !steps[i].lost)
  }

  lemma {:induction false} UndisturbedStaysLive(sts: seq<Sys>, steps: seq<Step>, k: nat)
    requires Run(sts, steps) && Undisturbed(steps) && sts[0] == Fresh() && k < |sts|
    ensures sts[k].attached && AllLive(sts[k])
  {
    FreshIsCoherent();
    if k > 0 {
      UndisturbedStaysLive(sts, steps, k - 1);
    }
  }

  /** From a fresh device: at every point of every run with any failures short of device loss, each
      register that is not marked shows the shadow; after a finished update the device is the shadow. */
  lemma FreshRunCoherence(sts: seq<Sys>, steps: seq<Step>, k: nat)
    requires Run(sts, steps) && Undisturbed(steps) && sts[0] == Fresh() && k < |sts|
    ensures ValidSys(sts[k])
    ensures forall b: Bit :: b !in sts[k].shadow.dirty ==> Shown(sts[k].panel, b) == Wanted(sts[k].shadow, b)
    ensures k > 0 && steps[k - 1].Write? && steps[k - 1].outcome.Finished? ==>
              forall b: Bit :: Shown(sts[k].panel, b) == Wanted(sts[k].shadow, b)
  {
    FreshIsCoherent();
    CoherentThroughout(sts, steps, k);
    UndisturbedStaysLive(sts, steps, k);
    if k > 0 {
      UndisturbedStaysLive(sts, steps, k - 1);
    }
  }

  // ----- no setting is dropped ---------------------------------------------------------------

  lemma OnlyWritesClear(st: Sys, step: Step, b: Bit)
    requires Coherent(st) && Enabled(st, step) && ValidSys(Next(st, step))
    requires b in st.shadow.dirty && b !in Next(st, step).shadow.dirty
    ensures step.Write? && st.attached && Shown(Next(st, step).panel, b) == Wanted(st.shadow, b)
  {
    match step
    case Call(op, _) => ApplyKeepsValid(op, st.shadow);
    case Write(o, _) =>
      assert st.attached;
      UpdateEffect(st.shadow, st.panel, o, b);
    case Unplug =>
    case Plug(_, _) =>
  }

  /** A marked bit leaves the mask only in an update that wrote its register from the shadow of that moment. */
  lemma {:induction false} MarkedUntilWritten(sts: seq<Sys>, steps: seq<Step>, i: nat, j: nat, b: Bit) returns (k: nat)
    requires Run(sts, steps) && Coherent(sts[0]) && i < j < |sts|
    requires b in sts[i].shadow.dirty && b !in sts[j].shadow.dirty
    ensures i <= k < j && steps[k].Write? && sts[k].attached && ValidSys(sts[k]) && ValidSys(sts[k + 1])
    ensures b in sts[k].shadow.dirty && b !in sts[k + 1].shadow.dirty
    ensures Shown(sts[k + 1].panel, b) == Wanted(sts[k].shadow, b)
    decreases j
  {
    hide Wanted, Shown, Replay, Possible, Sent, Left, Apply, ValidLine;
    if b in sts[j - 1].shadow.dirty {
      k := j - 1;
      CoherentThroughout(sts, steps, k);
      CoherentThroughout(sts, steps, k + 1);
      assert sts[k + 1] == Next(sts[k], steps[k]);
      OnlyWritesClear(sts[k], steps[k], b);
    } else {
      k := MarkedUntilWritten(sts, steps, i, j - 1, b);
    }
  }

  // ----- resumability ------------------------------------------------------------------------

  /** A series of updates, each stopped short of device loss. */
  ghost predicate AllStop(s: State, outs: seq<Outcome>)
    requires ValidState(s)
    decreases |outs|
  {
    outs != [] ==>
      && outs[0].Stopped?
      && Possible(s, outs[0])
      && ValidState(s.(dirty := Left(s, outs[0])))
      && AllStop(s.(dirty := Left(s, outs[0])), outs[1..])
  }

  ghost function Attempt(s: State, p: Panel, outs: seq<Outcome>): (r: (State, Panel))
    requires ValidState(s) && ValidPanel(p) && AllStop(s, outs)
    ensures ValidState(r.0) && ValidPanel(r.1)
    decreases |outs|
  {
    if outs == [] then (s, p) else
      Attempt(s.(dirty := Left(s, outs[0])), Replay(p, Sent(s, outs[0])), outs[1..])
  }

  lemma {:induction false} AttemptEffect(s: State, p: Panel, outs: seq<Outcome>, b: Bit)
    requires ValidState(s) && ValidPanel(p) && AllStop(s, outs)
    requires Possible(Attempt(s, p, outs).0, Finished)
    ensures Possible(s, Finished)
    ensures var (t, q) := Attempt(s, p, outs);
            Shown(Replay(q, Sent(t, Finished)), b) == if b in s.dirty then Wanted(s, b) else Shown(p, b)
    decreases |outs|
  {
    if outs == [] {
      UpdateEffect(s, p, Finished, b);
    } else {
      var s1 := s.(dirty := Left(s, outs[0]));
      var p1 := Replay(p, Sent(s, outs[0]));
      AttemptEffect(s1, p1, outs[1..], b);
      UpdateEffect(s, p, outs[0], b);
      WantedIgnoresMask(s, s1, b);
    }
  }

  /** Any number of updates stopped anywhere, in a line or between the date words included, followed
      by one that finishes, leaves the device exactly as one uninterrupted update would. */
  lemma Resumability(s: State, p: Panel, outs: seq<Outcome>)
    requires ValidState(s) && ValidPanel(p) && AllStop(s, outs)
    requires Possible(Attempt(s, p, outs).0, Finished)
    ensures Possible(s, Finished)
    ensures var (t, q) := Attempt(s, p, outs); Replay(q, Sent(t, Finished)) == Replay(p, Sent(s, Finished))
  {
    var (t, q) := Attempt(s, p, outs);
    AttemptEffect(s, p, outs, 0);
    forall b: Bit
      ensures Shown(Replay(q, Sent(t, Finished)), b) == Shown(Replay(p, Sent(s, Finished)), b)
    {
      AttemptEffect(s, p, outs, b);
      UpdateEffect(s, p, Finished, b);
    }
    PanelExtensionality(Replay(q, Sent(t, Finished)), Replay(p, Sent(s, Finished)));
  }

  // ----- the unvalidated date format ---------------------------------------------------------

  /** set_date_format accepts any value. While the format is unknown no update can finish, and none
      reaches the three clock registers behind the date; a valid format is needed and sufficient. */
  lemma UpdateCanFinishIffDateFormatKnown(s: State)
    requires ValidState(s)
    ensures Possible(s, Finished) <==> ValidDate(s)
    ensures !ValidDate(s) ==> forall o :: Possible(s, o) ==> s.dirty * {27, 28, 29, 30, 31} <= Left(s, o)
  {
    if !ValidDate(s) {
      assert MFD_DATE in s.dirty && !Encodable(s, MFD_DATE);
    }
  }

  /** A call that does this: the setter takes the format 3, reports success, and from then on no update can
      finish. */
  lemma UnknownDateFormatBlocks()
    ensures var (s, rc) := Apply(SetDateFormat(3), ZeroShadow());
            rc == Success && ValidState(s) && !Possible(s, Finished)
  {
    ApplyKeepsValid(SetDateFormat(3), ZeroShadow());
    UpdateCanFinishIffDateFormatKnown(Apply(SetDateFormat(3), ZeroShadow()).0);
  }

  // ----- world clocks ------------------------------------------------------------------------

  /** The seconds of an offset beyond its whole minutes, with the sign of the offset. */
  function OddSeconds(offset: int): int {
    if offset >= 0 then offset % 60 else -(-offset % 60)
  }

  /** The time of day in minutes of a point in time in seconds. */
  function MinuteOfDay(seconds: int): nat {
    seconds / 60 % 1440
  }

  /** The assumption on localtime_r and gmtime_r: hour and minute are those of the time moved by the offset
      in seconds that localtime_r reports. */
  ghost predicate TellsTime(step: Step) {
    step.Call? && step.op.SetClock? && step.op.tm.Some? ==>
      var tm := step.op.tm.value;
      && 0 <= tm.hour < 24 && 0 <= tm.min < 60
      && tm.hour * 60 + tm.min == MinuteOfDay(step.now + if step.op.local then step.op.gmtoff else 0)
  }

  /** The clock is only set through set_clock, with times the C library converted. */
  ghost predicate ClockDriven(steps: seq<Step>) {
    forall i :: 0 <= i < |steps| ==> TellsTime(steps[i]) && !(steps[i].Call? && steps[i].op.SetTime?)
  }

  /** The stored time is that of the last setting, and the stored timezone its offset in whole minutes. */
  ghost predicate ClockAgrees(s: State, r: Reading)
    requires |s.timezone| == 3
  {
    && s.hour < 24 && s.minute < 60
    && s.hour * 60 + s.minute == MinuteOfDay(r.utc + r.offset)
    && 60 * s.timezone[0] + OddSeconds(r.offset) == r.offset
  }

  /** The zone of a local setting is the offset cut to whole minutes, toward zero. */
  lemma LocalZoneTruncates(gmtoff: int)
    ensures 60 * LocalZone(gmtoff, true) + OddSeconds(gmtoff) == gmtoff
    ensures LocalZone(gmtoff, false) == 0 == OddSeconds(0)
  {
  }

  lemma SetClockAgrees(s: State, tm: Tm, gmtoff: int, local: bool, now: int)
    requires ValidState(s) && s.hour < 24 && s.minute < 60
    requires TellsTime(Call(SetClock(Some(tm), gmtoff, local), now))
    ensures var t := Apply(SetClock(Some(tm), gmtoff, local), s).0;
            |t.timezone| == 3 && ClockAgrees(t, Reading(now, if local then gmtoff else 0))
  {
    hide LocalZone, OddSeconds, MinuteOfDay;
    LocalZoneTruncates(gmtoff);
    var t := SetClockTo(s, tm, LocalZone(gmtoff, local)).0;
    assert t.hour == tm.hour && t.minute == tm.min && t.timezone[0] == LocalZone(gmtoff, local);
  }

  lemma CallKeepsClock(st: Sys, op: Op, now: int)
    requires ValidSys(st) && Callable(op) && TellsTime(Call(op, now)) && !op.SetTime?
    requires ClockAgrees(st.shadow, st.reading)
    ensures |Next(st, Call(op, now)).shadow.timezone| == 3
    ensures ClockAgrees(Next(st, Call(op, now)).shadow, Next(st, Call(op, now)).reading)
  {
    hide OddSeconds, MinuteOfDay, SetClockTo;
    if op.SetClock? && op.tm.Some? {
      SetClockAgrees(st.shadow, op.tm.value, op.gmtoff, op.local, now);
    }
  }

  lemma {:induction false} ClockAgreesThroughout(sts: seq<Sys>, steps: seq<Step>, k: nat)
    requires Run(sts, steps) && ClockDriven(steps) && Coherent(sts[0]) && k < |sts|
    requires ClockAgrees(sts[0].shadow, sts[0].reading)
    ensures ValidSys(sts[k]) && ClockAgrees(sts[k].shadow, sts[k].reading)
  {
    hide OddSeconds, MinuteOfDay;
    CoherentThroughout(sts, steps, k);
    if k > 0 {
      ClockAgreesThroughout(sts, steps, k - 1);
      if steps[k - 1].Call? {
        assert TellsTime(steps[k - 1]);
        CallKeepsClock(sts[k - 1], steps[k - 1].op, steps[k - 1].now);
      }
    }
  }

  /** Removing the zone from the local time leaves the UTC minute, up to what the odd seconds move it by. */
  lemma ZoneRemoved(r: Reading, zone: int)
    requires 60 * zone + OddSeconds(r.offset) == r.offset
    ensures (r.utc + r.offset) / 60 - zone == (r.utc + OddSeconds(r.offset)) / 60
    ensures r.utc / 60 - 1 <= (r.utc + OddSeconds(r.offset)) / 60 <= r.utc / 60 + 1
    ensures (r.utc + OddSeconds(r.offset)) / 60 == r.utc / 60 <==> 0 <= r.utc % 60 + OddSeconds(r.offset) < 60
  {
  }

  /** Clock `clock` of the joystick, in minutes of the day: the base clock and its offset. */
  function WorldClock(p: Panel, clock: nat): int
    requires ValidPanel(p) && 1 <= clock <= 2
  {
    (p.base.hour * 60 + p.base.minute + p.offsets[clock - 1].minutes) % 1440
  }

  lemma WorldClockSum(a: int, tz: int, zone: int, d: int, minute: int)
    requires (d - (tz - zone)) % 1440 == 0 && a == minute % 1440
    ensures (a + d) % 1440 == (minute - zone + tz) % 1440
  {
  }

  lemma OneOff(a: int, b: int, tz: int)
    requires a - 1 <= b <= a + 1
    ensures (a + tz) % 1440 == (b + tz) % 1440 <==> a == b
  {
  }

  /** What the clocks show where their registers show a shadow that agrees with a time. */
  ghost predicate WorldClockRight(s: State, p: Panel, r: Reading, clock: nat)
    requires ValidState(s) && ValidPanel(p) && 1 <= clock <= 2
  {
    && p.base.hour * 60 + p.base.minute == MinuteOfDay(r.utc + r.offset)
    && (WorldClock(p, clock) == MinuteOfDay(r.utc + 60 * s.timezone[clock]) <==>
          0 <= r.utc % 60 + OddSeconds(r.offset) < 60)
    && p.offsets[clock - 1].h24 == s.clock24[clock]
  }

  lemma WrittenClockIsRight(s: State, p: Panel, r: Reading, clock: nat)
    requires ValidState(s) && ValidPanel(p) && ClockAgrees(s, r) && 1 <= clock <= 2
    requires Shown(p, MFD_TIME) == Wanted(s, MFD_TIME) && Shown(p, 28 + clock) == Wanted(s, 28 + clock)
    ensures WorldClockRight(s, p, r, clock)
  {
    hide OddSeconds, DisplayOffset, ValidLine;
    var tz, zone := s.timezone[clock], s.timezone[0];
    DisplayOffsetIsCongruent(tz - zone);
    ZoneRemoved(r, zone);
    WorldClockSum(p.base.hour * 60 + p.base.minute, tz, zone, DisplayOffset(tz - zone), (r.utc + r.offset) / 60);
    OneOff(r.utc / 60, (r.utc + OddSeconds(r.offset)) / 60, tz);
    assert MinuteOfDay(r.utc + 60 * tz) == (r.utc / 60 + tz) % 1440;
  }

  /** In any such run, whatever the local timezone and however often it changed: once the registers are
      written the base clock shows the local time, and clocks 2 and 3 show UTC plus the timezone set for them
      if and only if the odd seconds of the local offset do not carry the time into another minute. With
      an offset of whole minutes they never do. */
  lemma WorldClocksAreRight(sts: seq<Sys>, steps: seq<Step>, k: nat, clock: nat)
    requires Run(sts, steps) && ClockDriven(steps) && Coherent(sts[0]) && k < |sts| && 1 <= clock <= 2
    requires ClockAgrees(sts[0].shadow, sts[0].reading)
    requires sts[k].attached && {MFD_TIME, 28 + clock} <= sts[k].live - sts[k].shadow.dirty
    ensures ValidSys(sts[k]) && WorldClockRight(sts[k].shadow, sts[k].panel, sts[k].reading, clock)
  {
    hide WorldClockRight, ClockAgrees, ClockDriven;
    CoherentThroughout(sts, steps, k);
    ClockAgreesThroughout(sts, steps, k);
    WrittenClockIsRight(sts[k].shadow, sts[k].panel, sts[k].reading, clock);
  }

  ghost function MonroviaShadow(): State {
    Apply(SetClock(Some(Tm(31, 11, 69, 23, 15)), -2670, true), ZeroShadow()).0
  }

  lemma MonroviaStored()
    ensures TellsTime(Call(SetClock(Some(Tm(31, 11, 69, 23, 15)), -2670, true), 0))
    ensures ValidState(MonroviaShadow())
    ensures MonroviaShadow().hour == 23 && MonroviaShadow().minute == 15 && MonroviaShadow().timezone == [-44, 0, 0]
  {
    hide ValidLine, ValidDate;
    ApplyKeepsValid(SetClock(Some(Tm(31, 11, 69, 23, 15)), -2670, true), ZeroShadow()) by {
      ZeroShown(0);
    }
    assert LocalZone(-2670, true) == -44;
    assert TellsTime(Call(SetClock(Some(Tm(31, 11, 69, 23, 15)), -2670, true), 0));
    assert [0, 0, 0][0 := -44] == [-44, 0, 0];
  }

  /** Such an offset is that of Monrovia before 1972, 44 minutes and 30 seconds west: set at midnight UTC, a
      clock for UTC shows 23:59. */
  lemma OddOffsetFails(p: Panel)
    requires ValidPanel(p) && ValidState(MonroviaShadow())
    requires Shown(p, 28) == Wanted(MonroviaShadow(), 28) && Shown(p, 29) == Wanted(MonroviaShadow(), 29)
    ensures TellsTime(Call(SetClock(Some(Tm(31, 11, 69, 23, 15)), -2670, true), 0))
    ensures WorldClock(p, 1) == 23 * 60 + 59 && MinuteOfDay(0) == 0
  {
    hide ValidLine, ValidDate, MonroviaShadow;
    MonroviaStored();
    assert p.offsets[0].minutes == DisplayOffset(44) == 44;
  }
}
