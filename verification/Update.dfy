/** libx52_update seen from the joystick: which requests an update sends before it finishes or stops,
    and what they do to the registers. */
module Update {
  import opened Prelude
  import opened Bits
  import opened Panel
  import opened Shadow

  /** How an update ends: all dirty registers written, or stopped in the handler of one of them
      after some of its requests got through. */
  datatype Outcome = Finished | Stopped(bit: Bit, sent: nat)

  ghost predicate Possible(s: State, o: Outcome)
    requires ValidState(s)
  {
    match o
    case Finished => forall b :: b in s.dirty ==> Encodable(s, b)
    case Stopped(bit, sent) =>
      && bit in s.dirty
      && (forall b :: b in s.dirty && b < bit ==> Encodable(s, b))
      && if Encodable(s, bit) then sent < |RegCommands(s, bit)| else sent == 0
  }

  /** The requests of the dirty registers below a bit, in ascending order. */
  ghost function Below(s: State, i: nat): seq<Cmd>
    requires ValidState(s) && i <= 32
  {
    if i == 0 then [] else Below(s, i - 1) + if i - 1 in s.dirty then RegCommands(s, i - 1) else []
  }

  ghost function Sent(s: State, o: Outcome): seq<Cmd>
    requires ValidState(s) && Possible(s, o)
  {
    match o
    case Finished => Below(s, 32)
    case Stopped(bit, sent) => Below(s, bit) + RegCommands(s, bit)[..sent]
  }

  /** The mask an update leaves behind. */
  ghost function Left(s: State, o: Outcome): Mask {
    match o
    case Finished => {}
    case Stopped(bit, _) => LeftFrom(s, bit)
  }

  ghost function LeftFrom(s: State, i: nat): Mask {
    set b | b in s.dirty && b >= i
  }

  lemma LeftFromStart(s: State)
    ensures LeftFrom(s, 0) == s.dirty && LeftFrom(s, 32) == {}
  {
  }

  lemma LeftFromNext(s: State, i: Bit)
    ensures LeftFrom(s, i + 1) == LeftFrom(s, i) - {i} && (i in LeftFrom(s, i) <==> i in s.dirty)
  {
  }

  lemma BelowNext(log: seq<Cmd>, s: State, i: Bit)
    requires ValidState(s)
    ensures i in s.dirty ==> log + Below(s, i) + RegCommands(s, i) == log + Below(s, i + 1)
    ensures i !in s.dirty ==> Below(s, i) == Below(s, i + 1)
  {
    hide RegCommands;
  }

  lemma BelowEmpty(s: State)
    requires ValidState(s)
    ensures Below(s, 0) == []
  {
  }

  // ----- one register ------------------------------------------------------------------------

  /** The register a request changes; 31 stands for none. */
  function Target(c: Cmd): Bit {
    if c.index == 0xb8 then (var led := c.value / 0x100; if 1 <= led <= 20 then led else 31)
    else if c.index == 0xb1 then 25
    else if c.index == 0xb2 then 26
    else if c.index == 0xfd then 0
    else if c.index == 0xb4 then 24
    else if c.index == 0xd9 || c.index == 0xd1 then 21
    else if c.index == 0xda || c.index == 0xd2 then 22
    else if c.index == 0xdc || c.index == 0xd4 then 23
    else if c.index == 0xc0 then 28
    else if c.index == 0xc1 then 29
    else if c.index == 0xc2 then 30
    else if c.index == 0xc4 || c.index == 0xc8 then 27
    else 31
  }

  lemma InterpretFrame(p: Panel, c: Cmd, b: Bit)
    requires ValidPanel(p) && b != Target(c)
    ensures Shown(Interpret(p, c), b) == Shown(p, b)
  {
    hide Append, DecodeBase, DecodeOffset, Switch;
  }

  lemma {:induction false} ReplayFrame(p: Panel, cmds: seq<Cmd>, target: Bit, b: Bit)
    requires ValidPanel(p) && b != target
    requires forall k :: 0 <= k < |cmds| ==> Target(cmds[k]) == target
    ensures Shown(Replay(p, cmds), b) == Shown(p, b)
    decreases |cmds|
  {
    if cmds != [] {
      InterpretFrame(p, cmds[0], b);
      ReplayFrame(Interpret(p, cmds[0]), cmds[1..], target, b);
    }
  }

  lemma {:induction false} LineWordsTarget(line: Line, l: nat, i: nat)
    requires ValidLine(line) && l < 3 && i % 2 == 0
    ensures forall k :: 0 <= k < |LineWords(line, LINE_INDEX[l], i)| ==>
              Target(LineWords(line, LINE_INDEX[l], i)[k]) == 21 + l
    decreases LINE_SIZE - i
  {
    if i < line.length {
      LineWordsTarget(line, l, i + 2);
    }
  }

  lemma LineTarget(s: State, b: Bit)
    requires ValidState(s) && 21 <= b <= 23
    ensures forall k :: 0 <= k < |RegCommands(s, b)| ==> Target(RegCommands(s, b)[k]) == b
  {
    hide LineWords, ValidDate;
    LineWordsTarget(s.lines[b - 21], b - 21, 0);
  }

  lemma LampTarget(s: State, b: Bit)
    requires ValidState(s) && (b <= 20 || 24 <= b <= 26)
    ensures forall k :: 0 <= k < |RegCommands(s, b)| ==> Target(RegCommands(s, b)[k]) == b
  {
    hide LineWords, ValidState;
  }

  lemma ClockTarget(s: State, b: Bit)
    requires ValidState(s) && b >= 27
    ensures forall k :: 0 <= k < |RegCommands(s, b)| ==> Target(RegCommands(s, b)[k]) == b
  {
    hide LineWords, OffsetWord, Word;
  }

  /** A handler only issues requests for its own register. */
  lemma CommandsTarget(s: State, b: Bit)
    requires ValidState(s)
    ensures forall k :: 0 <= k < |RegCommands(s, b)| ==> Target(RegCommands(s, b)[k]) == b
  {
    hide RegCommands, ValidState, Target;
    if 21 <= b <= 23 {
      LineTarget(s, b);
    } else if b >= 27 {
      ClockTarget(s, b);
    } else {
      LampTarget(s, b);
    }
  }

  lemma {:induction false} AppendsLine(p: Panel, line: Line, l: nat, i: nat)
    requires ValidPanel(p) && ValidLine(line) && l < 3 && i % 2 == 0 && i <= line.length + 1
    requires i <= line.length ==> p.lines[l] == line.text[..i]
    requires i == line.length + 1 ==> p.lines[l] == line.text[..line.length] + [BLANK]
    ensures Replay(p, LineWords(line, LINE_INDEX[l], i)).lines[l]
         == line.text[..line.length] + if line.length % 2 == 1 then [BLANK] else []
    decreases LINE_SIZE - i
  {
    if i < line.length {
      var c := Cmd(LINE_INDEX[l], Word(line.text[i + 1], line.text[i]));
      var q := Interpret(p, c);
      assert q.lines[l] == line.text[..i] + [line.text[i], line.text[i + 1]];
      if i + 2 <= line.length {
        assert q.lines[l] == line.text[..i + 2];
      } else {
        assert q.lines[l] == line.text[..line.length] + [BLANK];
      }
      AppendsLine(q, line, l, i + 2);
      assert LineWords(line, LINE_INDEX[l], i) == [c] + LineWords(line, LINE_INDEX[l], i + 2);
    }
  }

  /** Every difference of timezones survives packing into sign and magnitude and unpacking. */
  lemma OffsetWordDecodes(h24: bool, difference: int)
    ensures DecodeOffset(OffsetWord(h24, difference)) == OffsetClock(h24, DisplayOffset(difference))
  {
    var r := Reduce(if difference < 0 then -difference else difference);
    var magnitude := if r < 0 then -r else r;
    var n := Flag((difference < 0) != (r < 0));
    var w := OffsetWord(h24, difference);
    assert w % 0x400 == magnitude;
    assert w / 0x400 == Flag(h24) * 0x20 + n;
  }

  /** The displayed offset fits ten bits and agrees with the true difference modulo one day. */
  lemma DisplayOffsetIsCongruent(difference: int)
    ensures -1023 <= DisplayOffset(difference) <= 1023
    ensures (DisplayOffset(difference) - difference) % 1440 == 0
    ensures -416 <= difference <= 416 ==> DisplayOffset(difference) == difference
  {
    var d := if difference < 0 then -difference else difference;
    assert Reduce(d) == d - (d + 416) / 1440 * 1440;
    MultipleOfDay((d + 416) / 1440);
    MultipleOfDay(-((d + 416) / 1440));
  }

  lemma MultipleOfDay(k: int)
    ensures (k * 1440) % 1440 == 0
  {
  }

  lemma ReplayOne(p: Panel, c: Cmd)
    requires ValidPanel(p)
    ensures Replay(p, [c]) == Interpret(p, c)
  {
  }

  lemma LineCommands(s: State, l: nat)
    requires ValidState(s) && l < 3
    ensures ValidLine(s.lines[l])
    ensures RegCommands(s, 21 + l) == [Cmd(LINE_INDEX[l] + CLEAR_LINE, 0)] + LineWords(s.lines[l], LINE_INDEX[l], 0)
  {
    hide LineWords;
  }

  lemma ClearsLine(p: Panel, l: nat)
    requires ValidPanel(p) && l < 3
    ensures Interpret(p, Cmd(LINE_INDEX[l] + CLEAR_LINE, 0)).lines[l] == []
  {
  }

  lemma WritesLine(s: State, p: Panel, l: nat)
    requires ValidState(s) && ValidPanel(p) && l < 3
    ensures Shown(Replay(p, RegCommands(s, 21 + l)), 21 + l) == Wanted(s, 21 + l)
  {
    hide LineWords, RegCommands, Interpret, ValidDate;
    LineCommands(s, l);
    ClearsLine(p, l);
    var clear, words := Cmd(LINE_INDEX[l] + CLEAR_LINE, 0), LineWords(s.lines[l], LINE_INDEX[l], 0);
    assert ([clear] + words)[1..] == words;
    assert s.lines[l].text[..0] == [];
    AppendsLine(Interpret(p, clear), s.lines[l], l, 0);
  }

  lemma ReplayTwo(p: Panel, c: Cmd, d: Cmd)
    requires ValidPanel(p)
    ensures Replay(p, [c, d]) == Interpret(Interpret(p, c), d)
  {
    assert [c, d][1..] == [d];
    ReplayOne(Interpret(p, c), d);
  }

  lemma WordSplits(high: byte, low: byte)
    ensures Word(high, low) % 0x100 == low && Word(high, low) / 0x100 == high
  {
  }

  lemma DateWords(p: Panel, c: Cmd, d: Cmd)
    requires ValidPanel(p) && c.index == 0xc4 && d.index == 0xc8
    ensures Interpret(Interpret(p, c), d).date == DateField(c.value % 0x100, c.value / 0x100, d.value)
  {
    assert Interpret(p, c).date.left == c.value % 0x100;
  }

  lemma WritesDate(s: State, p: Panel)
    requires ValidState(s) && ValidPanel(p) && ValidDate(s)
    ensures Shown(Replay(p, RegCommands(s, MFD_DATE)), MFD_DATE) == Wanted(s, MFD_DATE)
  {
    var cmds := RegCommands(s, MFD_DATE);
    var c, d := cmds[0], cmds[1];
    assert cmds == [c, d];
    ReplayTwo(p, c, d);
    DateWords(p, c, d);
    WordSplits(s.month, s.year);
    WordSplits(s.day, s.month);
    WordSplits(s.month, s.day);
  }

  lemma WritesLed(p: Panel, b: Bit, on: bool)
    requires ValidPanel(p) && 1 <= b <= 20
    ensures b in Interpret(p, Cmd(0xb8, Flag(on) + b * 0x100)).lit <==> on
  {
  }

  lemma WritesTime(h24: bool, hour: byte, minute: byte)
    ensures DecodeBase(Flag(h24) * 0x8000 + hour % 0x80 * 0x100 + minute) == BaseClock(h24, hour % 0x80, minute)
  {
  }

  lemma WritesOffset(p: Panel, c: nat, h24: bool, difference: int)
    requires ValidPanel(p) && c < 2
    ensures Replay(p, [Cmd(0xc1 + c, OffsetWord(h24, difference))]).offsets[c]
         == OffsetClock(h24, DisplayOffset(difference))
  {
    ReplayOne(p, Cmd(0xc1 + c, OffsetWord(h24, difference)));
    OffsetWordDecodes(h24, difference);
  }

  lemma WritesClock(s: State, p: Panel, b: Bit)
    requires ValidState(s) && ValidPanel(p) && 28 <= b <= 30
    ensures Shown(Replay(p, RegCommands(s, b)), b) == Wanted(s, b)
  {
    hide Replay, OffsetWord, DisplayOffset;
    if b == MFD_TIME {
      ReplayOne(p, RegCommands(s, b)[0]);
      WritesTime(s.clock24[0], s.hour, s.minute);
    } else {
      WritesOffset(p, b - 29, s.clock24[b - 28], s.timezone[b - 28] - s.timezone[0]);
    }
  }

  lemma WritesLamp(s: State, p: Panel, b: Bit)
    requires ValidState(s) && ValidPanel(p) && 1 <= b <= 20
    ensures Shown(Replay(p, RegCommands(s, b)), b) == Wanted(s, b)
  {
    hide Replay, Interpret;
    ReplayOne(p, Cmd(0xb8, Flag(b in s.ledMask) + b * 0x100));
    WritesLed(p, b, b in s.ledMask);
  }

  lemma WritesSwitch(s: State, p: Panel, b: Bit)
    requires ValidState(s) && ValidPanel(p) && (b == 0 || 24 <= b <= 26)
    ensures Shown(Replay(p, RegCommands(s, b)), b) == Wanted(s, b)
  {
    hide Replay;
    ReplayOne(p, RegCommands(s, b)[0]);
  }

  /** The requests of a handler, all delivered, make the register show the shadow, whatever it
      showed before and whatever is left of an earlier attempt. */
  lemma WritesRegister(s: State, p: Panel, b: Bit)
    requires ValidState(s) && ValidPanel(p) && Encodable(s, b)
    ensures Shown(Replay(p, RegCommands(s, b)), b) == Wanted(s, b)
  {
    if 21 <= b <= 23 {
      WritesLine(s, p, b - 21);
    } else if b == MFD_DATE {
      WritesDate(s, p);
    } else if 28 <= b <= 30 {
      WritesClock(s, p, b);
    } else if 1 <= b <= 20 {
      WritesLamp(s, p, b);
    } else if b != 31 {
      WritesSwitch(s, p, b);
    }
  }

  // ----- a whole update ----------------------------------------------------------------------

  lemma {:induction false} BelowWrites(s: State, p: Panel, i: nat, b: Bit)
    requires ValidState(s) && ValidPanel(p) && i <= 32
    requires forall c :: c in s.dirty && c < i ==> Encodable(s, c)
    ensures Shown(Replay(p, Below(s, i)), b) == if b < i && b in s.dirty then Wanted(s, b) else Shown(p, b)
  {
    if i > 0 {
      BelowWrites(s, p, i - 1, b);
      if i - 1 in s.dirty {
        var q := Replay(p, Below(s, i - 1));
        ReplayConcat(p, Below(s, i - 1), RegCommands(s, i - 1));
        if b == i - 1 {
          WritesRegister(s, q, b);
        } else {
          CommandsTarget(s, i - 1);
          ReplayFrame(q, RegCommands(s, i - 1), i - 1, b);
        }
      } else {
        assert Below(s, i) == Below(s, i - 1);
      }
    }
  }

  /** What any update does, finished or stopped: registers that leave the mask show the shadow,
      registers that were not dirty are untouched. */
  lemma UpdateEffect(s: State, p: Panel, o: Outcome, b: Bit)
    requires ValidState(s) && ValidPanel(p) && Possible(s, o)
    ensures b !in s.dirty ==> Shown(Replay(p, Sent(s, o)), b) == Shown(p, b)
    ensures b in s.dirty - Left(s, o) ==> Shown(Replay(p, Sent(s, o)), b) == Wanted(s, b)
  {
    match o
    case Finished =>
      BelowWrites(s, p, 32, b);
    case Stopped(bit, sent) =>
      BelowWrites(s, p, bit, b);
      var part := RegCommands(s, bit)[..sent];
      ReplayConcat(p, Below(s, bit), part);
      CommandsTarget(s, bit);
      if b != bit {
        ReplayFrame(Replay(p, Below(s, bit)), part, bit, b);
      }
  }

  /** An invalid date format keeps its register in the mask whatever happens. */
  lemma UpdateKeepsValid(s: State, o: Outcome)
    requires ValidState(s) && Possible(s, o)
    ensures ValidState(s.(dirty := Left(s, o)))
  {
    if !ValidDate(s) {
      assert !Encodable(s, MFD_DATE);
    }
  }

  // ----- cost and order ----------------------------------------------------------------------

  function CommandBound(b: Bit): nat {
    if 21 <= b <= 23 then 9 else if b == 27 then 2 else if b == 31 then 0 else 1
  }

  function BoundBelow(i: nat): nat
    requires i <= 32
  {
    if i == 0 then 0 else BoundBelow(i - 1) + CommandBound(i - 1)
  }

  lemma BoundIsMonotone(i: nat, j: nat)
    requires i <= j <= 32
    ensures BoundBelow(i) <= BoundBelow(j)
  {
    if i < j {
      BoundIsMonotone(i, j - 1);
    }
  }

  lemma BoundTotal()
    ensures BoundBelow(32) == 56
  {
    assert BoundBelow(8) == 8;
    assert BoundBelow(16) == 16;
    assert BoundBelow(21) == 21;
    assert BoundBelow(27) == 51;
  }

  lemma {:induction false} BelowCost(s: State, i: nat)
    requires ValidState(s) && i <= 32
    ensures |Below(s, i)| <= BoundBelow(i)
  {
    if i > 0 {
      BelowCost(s, i - 1);
      RegCost(s, i - 1);
    }
  }

  ghost predicate Ascending(cmds: seq<Cmd>) {
    forall j, k :: 0 <= j < k < |cmds| ==> Target(cmds[j]) <= Target(cmds[k])
  }

  lemma AscendingConcat(a: seq<Cmd>, b: seq<Cmd>, m: nat)
    requires Ascending(a) && TargetsBelow(a, m)
    requires forall k :: 0 <= k < |b| ==> Target(b[k]) == m
    ensures Ascending(a + b) && TargetsBelow(a + b, m + 1)
  {
    var c := a + b;
    forall k | 0 <= k < |c|
      ensures Target(c[k]) <= m && (k >= |a| ==> Target(c[k]) == m)
    {
    }
  }

  ghost predicate TargetsBelow(cmds: seq<Cmd>, m: nat) {
    forall k :: 0 <= k < |cmds| ==> Target(cmds[k]) < m
  }

  lemma {:induction false} BelowAscends(s: State, i: nat)
    requires ValidState(s) && i <= 32
    ensures Ascending(Below(s, i)) && TargetsBelow(Below(s, i), i)
  {
    if i > 0 {
      BelowAscends(s, i - 1);
      CommandsTarget(s, i - 1);
      AscendingConcat(Below(s, i - 1), if i - 1 in s.dirty then RegCommands(s, i - 1) else [], i - 1);
    }
  }

  lemma RegCost(s: State, b: Bit)
    requires ValidState(s)
    ensures |RegCommands(s, b)| <= CommandBound(b)
  {
  }

  lemma SentCost(s: State, o: Outcome)
    requires ValidState(s) && Possible(s, o)
    ensures |Sent(s, o)| <= 56
    ensures o.Stopped? && Encodable(s, o.bit) ==> |Sent(s, o)| + 1 <= 56
  {
    BoundTotal();
    if o.Finished? {
      BelowCost(s, 32);
    } else {
      BelowCost(s, o.bit);
      RegCost(s, o.bit);
      BoundIsMonotone(o.bit + 1, 32);
    }
  }

  /** What a handler that fails at a marked register makes of the update. */
  lemma StopsHere(log: seq<Cmd>, s: State, i: Bit, sent: nat)
    requires ValidState(s) && i in s.dirty && sent <= |RegCommands(s, i)|
    requires forall b :: b in s.dirty && b < i ==> Encodable(s, b)
    requires if Encodable(s, i) then sent < |RegCommands(s, i)| else sent == 0 == |RegCommands(s, i)|
    ensures var o, cmds := Stopped(i, sent), RegCommands(s, i);
            && Possible(s, o) && Left(s, o) == LeftFrom(s, i)
            && log + Below(s, i) + cmds[..sent] == log + Sent(s, o)
            && |Below(s, i)| + (if sent < |cmds| then sent + 1 else sent) <= 56
  {
    hide RegCommands, LeftFrom, Encodable, ValidState;
    SentCost(s, Stopped(i, sent));
  }

  /** The update that got past every marked register. */
  lemma FinishesHere(s: State)
    requires ValidState(s) && forall b :: b in s.dirty ==> Encodable(s, b)
    ensures Possible(s, Finished) && Left(s, Finished) == {} && Sent(s, Finished) == Below(s, 32)
    ensures |Below(s, 32)| <= 56
  {
    hide RegCommands, LeftFrom, Encodable, ValidState;
    SentCost(s, Finished);
  }

  /** An update issues at most 56 requests, in ascending order of their registers. */
  lemma UpdateCost(s: State, o: Outcome)
    requires ValidState(s) && Possible(s, o)
    ensures |Sent(s, o)| <= 56
    ensures Ascending(Sent(s, o))
  {
    SentCost(s, o);
    if o.Finished? {
      BelowAscends(s, 32);
    } else {
      BelowAscends(s, o.bit);
      CommandsTarget(s, o.bit);
      AscendingConcat(Below(s, o.bit), RegCommands(s, o.bit)[..o.sent], o.bit);
    }
  }

  lemma {:induction false} LineWordsCount(line: Line, index: uint16, i: nat)
    requires |line.text| == LINE_SIZE && line.length <= LINE_SIZE && i % 2 == 0
    ensures |LineWords(line, index, i)| == if i >= line.length then 0 else (line.length - i + 1) / 2
    decreases LINE_SIZE - i
  {
    if i < line.length {
      LineWordsCount(line, index, i + 2);
    }
  }

  lemma {:induction false} LineWordsAt(line: Line, index: uint16, i: nat, k: nat)
    requires |line.text| == LINE_SIZE && line.length <= LINE_SIZE && i % 2 == 0 && i + 2 * k < line.length
    ensures k < |LineWords(line, index, i)|
    ensures LineWords(line, index, i)[k] == Cmd(index, Word(line.text[i + 2 * k + 1], line.text[i + 2 * k]))
    decreases k
  {
    if k > 0 {
      LineWordsAt(line, index, i + 2, k - 1);
    }
  }

  /** A dirty line costs one clear and one request for every two characters, rounded up. */
  lemma LineCost(s: State, l: nat)
    requires ValidState(s) && l < 3
    ensures |RegCommands(s, 21 + l)| == 1 + (s.lines[l].length + 1) / 2
  {
    LineWordsCount(s.lines[l], LINE_INDEX[l], 0);
  }
}
