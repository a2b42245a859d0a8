/** The joystick's side of the vendor protocol, docs/specs/vendor_api.md: a state machine whose
    registers are changed by (wIndex, wValue) requests. */
module Panel {
  import opened Prelude
  import opened Bits

  /** One vendor request. */
  datatype Cmd = Cmd(index: uint16, value: uint16)

  datatype BaseClock = BaseClock(h24: bool, hour: nat, minute: nat)

  /** A secondary clock: minutes to add to the base clock, decoded from sign and magnitude. */
  datatype OffsetClock = OffsetClock(h24: bool, minutes: int)

  /** The three fields of the date display, from left to right. */
  datatype DateField = DateField(left: byte, middle: byte, right: uint16)

  datatype Panel = Panel(
    lit: set<nat>,
    shift: bool,
    blink: bool,
    mfdLevel: uint16,
    ledLevel: uint16,
    lines: seq<seq<byte>>,
    base: BaseClock,
    offsets: seq<OffsetClock>,
    date: DateField)

  const LINE_CAPACITY := 16

  ghost predicate ValidPanel(p: Panel) {
    && (forall n :: n in p.lit ==> 1 <= n <= 20)
    && |p.lines| == 3
    && |p.offsets| == 2
  }

  const LINE_INDEX: seq<uint16> := [0xd1, 0xd2, 0xd4]
  const CLEAR_LINE: uint16 := 0x08

  /** Two characters in little endian order are appended; what does not fit is ignored. */
  function Append(line: seq<byte>, value: uint16): seq<byte> {
    if |line| + 2 <= LINE_CAPACITY then line + [value % 0x100, value / 0x100] else line
  }

  function DecodeBase(value: uint16): BaseClock {
    BaseClock(value >= 0x8000, value / 0x100 % 0x80, value % 0x100)
  }

  function DecodeOffset(value: uint16): OffsetClock {
    var magnitude := value % 0x400;
    OffsetClock(value >= 0x8000, if value / 0x400 % 2 == 1 then -magnitude else magnitude)
  }

  function Toggle(lit: set<nat>, led: nat, on: bool): set<nat> {
    if on then lit + {led} else lit - {led}
  }

  function Switch(was: bool, value: uint16): bool {
    if value == 0x51 then true else if value == 0x50 then false else was
  }

  /** What the device does on a request. Unknown indices and LED numbers are ignored. */
  function Interpret(p: Panel, c: Cmd): (r: Panel)
    requires ValidPanel(p)
    ensures ValidPanel(r)
  {
    if c.index == 0xb8 then
      var led := c.value / 0x100;
      if 1 <= led <= 20 then p.(lit := Toggle(p.lit, led, c.value % 2 == 1)) else p
    else if c.index == 0xb1 then p.(mfdLevel := c.value)
    else if c.index == 0xb2 then p.(ledLevel := c.value)
    else if c.index == 0xfd then p.(shift := Switch(p.shift, c.value))
    else if c.index == 0xb4 then p.(blink := Switch(p.blink, c.value))
    else if c.index == 0xd9 then p.(lines := p.lines[0 := []])
    else if c.index == 0xda then p.(lines := p.lines[1 := []])
    else if c.index == 0xdc then p.(lines := p.lines[2 := []])
    else if c.index == 0xd1 then p.(lines := p.lines[0 := Append(p.lines[0], c.value)])
    else if c.index == 0xd2 then p.(lines := p.lines[1 := Append(p.lines[1], c.value)])
    else if c.index == 0xd4 then p.(lines := p.lines[2 := Append(p.lines[2], c.value)])
    else if c.index == 0xc0 then p.(base := DecodeBase(c.value))
    else if c.index == 0xc1 then p.(offsets := p.offsets[0 := DecodeOffset(c.value)])
    else if c.index == 0xc2 then p.(offsets := p.offsets[1 := DecodeOffset(c.value)])
    else if c.index == 0xc4 then p.(date := p.date.(left := c.value % 0x100, middle := c.value / 0x100))
    else if c.index == 0xc8 then p.(date := p.date.(right := c.value))
    else p
  }

  /** The device after a series of requests. */
  function Replay(p: Panel, cmds: seq<Cmd>): (r: Panel)
    requires ValidPanel(p)
    ensures ValidPanel(r)
    decreases |cmds|
  {
    if cmds == [] then p else Replay(Interpret(p, cmds[0]), cmds[1..])
  }

  lemma {:induction false} ReplayConcat(p: Panel, a: seq<Cmd>, b: seq<Cmd>)
    requires ValidPanel(p)
    ensures Replay(p, a + b) == Replay(Replay(p, a), b)
    decreases |a|
  {
    if a == [] {
      assert a + b == b;
    } else {
      assert (a + b)[1..] == a[1..] + b;
      ReplayConcat(Interpret(p, a[0]), a[1..], b);
    }
  }

  /** The content of one register, as a user of the joystick sees it. */
  datatype Reg =
    | Lamp(on: bool)
    | Text(text: seq<byte>)
    | Level(level: uint16)
    | Date(date: DateField)
    | Time(base: BaseClock)
    | Offset(offset: OffsetClock)
    | Unused

  /** The register behind each bit of the update mask (libx52/x52_common.h). */
  function Shown(p: Panel, b: Bit): Reg
    requires ValidPanel(p)
  {
    if b == 0 then Lamp(p.shift)
    else if b <= 20 then Lamp(b in p.lit)
    else if b <= 23 then Text(p.lines[b - 21])
    else if b == 24 then Lamp(p.blink)
    else if b == 25 then Level(p.mfdLevel)
    else if b == 26 then Level(p.ledLevel)
    else if b == 27 then Date(p.date)
    else if b == 28 then Time(p.base)
    else if b <= 30 then Offset(p.offsets[b - 29])
    else Unused
  }

  /** The registers are the whole device: panels that show the same are the same. */
  lemma PanelExtensionality(p: Panel, q: Panel)
    requires ValidPanel(p) && ValidPanel(q)
    requires forall b: Bit :: Shown(p, b) == Shown(q, b)
    ensures p == q
  {
    forall n: nat
      ensures n in p.lit <==> n in q.lit
    {
      if 1 <= n <= 20 {
        assert Shown(p, n) == Shown(q, n);
      }
    }
    assert Shown(p, 0) == Shown(q, 0) && Shown(p, 24) == Shown(q, 24);
    assert Shown(p, 25) == Shown(q, 25) && Shown(p, 26) == Shown(q, 26) && Shown(p, 27) == Shown(q, 27);
    assert Shown(p, 21) == Shown(q, 21) && Shown(p, 22) == Shown(q, 22) && Shown(p, 23) == Shown(q, 23);
    assert p.lines == q.lines;
    assert Shown(p, 28) == Shown(q, 28) && Shown(p, 29) == Shown(q, 29) && Shown(p, 30) == Shown(q, 30);
    assert p.offsets == q.offsets;
  }
}
