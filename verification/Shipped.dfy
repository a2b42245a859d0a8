/** The configuration file that is installed with the daemon, daemon/x52d.conf: its settings are the
    defaults, whatever its comments say. */
module Shipped {
  import opened Prelude
  import opened IniText
  import opened IniLines
  import opened Config
  import opened ConfigStore

  function PlainPair(key: string, value: string): string {
    key + "=" + value + "\n"
  }

  /** The header in front of a key, where there is one. */
  function ShippedHeader(i: nat): seq<string>
    requires i < KEYS
  {
    if i == 0 then [HeaderLine("Clock")]
    else if i == 8 then [HeaderLine("LED")]
    else if i == 19 then [HeaderLine("Brightness")]
    else if i == 21 then [HeaderLine("Mouse")]
    else if i == 24 then [HeaderLine("Profiles")]
    else []
  }

  function ShippedPair(i: nat): string
    requires i < KEYS
  {
    match i
    case 0 => PlainPair("Enabled", "yes")
    case 1 => PlainPair("PrimaryIsLocal", "yes")
    case 2 => PlainPair("Secondary", "UTC")
    case 3 => PlainPair("Tertiary", "UTC")
    case 4 => PlainPair("FormatPrimary", "12hr")
    case 5 => PlainPair("FormatSecondary", "12hr")
    case 6 => PlainPair("FormatTertiary", "12hr")
    case 7 => PlainPair("DateFormat", "ddmmyy")
    case 8 => PlainPair("Fire", "on")
    case 9 => PlainPair("Throttle", "on")
    case 10 => PlainPair("A", "green")
    case 11 => PlainPair("B", "green")
    case 12 => PlainPair("D", "green")
    case 13 => PlainPair("E", "green")
    case 14 => PlainPair("T1", "green")
    case 15 => PlainPair("T2", "green")
    case 16 => PlainPair("T3", "green")
    case 17 => PlainPair("POV", "green")
    case 18 => PlainPair("Clutch", "green")
    case 19 => PlainPair("MFD", "128")
    case 20 => PlainPair("LED", "128")
    case 21 => PlainPair("Enabled", "yes")
    case 22 => PlainPair("Speed", "0")
    case 23 => PlainPair("ReverseScroll", "no")
    case 24 => PlainPair("Directory", "/etc/x52d/profiles.d")
    case 25 => PlainPair("ClutchEnabled", "no")
    case _ => PlainPair("ClutchLatched", "no")
  }

  /** The lines for the first n keys that are neither blank nor comments. */
  function ShippedLines(n: nat): seq<string>
    requires n <= KEYS
  {
    if n == 0 then [] else ShippedLines(n - 1) + ShippedHeader(n - 1) + [ShippedPair(n - 1)]
  }

  /** The value given to a key: booleans as yes and no, the others as in the table of keys. */
  function ShippedValue(i: nat): string
    requires i < KEYS
  {
    var default := Entry(i).default;
    if default == "true" then "yes" else if default == "false" then "no" else default
  }

  lemma ClockPairs(i: nat)
    requires i < 8
    ensures ShippedPair(i) == PlainPair(Entry(i).key, ShippedValue(i))
  {
    hide PlainPair;
  }

  lemma LedPairs(i: nat)
    requires 8 <= i < 19
    ensures ShippedPair(i) == PlainPair(Entry(i).key, ShippedValue(i))
  {
    hide PlainPair;
  }

  lemma OtherPairs(i: nat)
    requires 19 <= i < KEYS
    ensures ShippedPair(i) == PlainPair(Entry(i).key, ShippedValue(i))
  {
    hide PlainPair;
  }

  /** Each line is the pair of its key and value, and the headers are those of the sections. */
  lemma ShippedLineIs(i: nat)
    requires i < KEYS
    ensures ShippedPair(i) == PlainPair(Entry(i).key, ShippedValue(i))
    ensures ShippedHeader(i) == if OpensSection(i) then [HeaderLine(Entry(i).section)] else []
  {
    hide ShippedPair, Entry, ShippedValue, ShippedHeader, OpensSection, PlainPair;
    if i < 8 {
      ClockPairs(i);
    } else if i < 19 {
      LedPairs(i);
    } else {
      OtherPairs(i);
    }
    SectionOpens(i);
  }

  lemma SectionOpens(i: nat)
    requires i < KEYS
    ensures ShippedHeader(i) == if OpensSection(i) then [HeaderLine(Entry(i).section)] else []
  {
    SectionOf(i);
    SectionLetters();
    hide Entry, HeaderLine, SameName;
    if i > 0 {
      SectionOf(i - 1);
      SameNameRefl(SectionName(i));
    }
  }

  function SectionName(i: nat): string {
    if i < 8 then "Clock"
    else if i < 19 then "LED"
    else if i < 21 then "Brightness"
    else if i < 24 then "Mouse"
    else "Profiles"
  }

  lemma SectionOf(i: nat)
    requires i < KEYS
    ensures Entry(i).section == SectionName(i)
  {
  }

  lemma SectionLetters()
    ensures !SameName("Clock", "LED") && !SameName("LED", "Brightness") && !SameName("Brightness", "Mouse")
    ensures !SameName("Mouse", "Profiles")
  {
    assert |"Clock"| == 5 && |"LED"| == 3 && |"Brightness"| == 10 && |"Mouse"| == 5 && |"Profiles"| == 8;
  }

  function ShippedCalls(n: nat): (r: seq<Call>)
    requires n <= KEYS
    ensures |r| == n && forall i :: 0 <= i < n ==> r[i] == OwnCall(i, ShippedValue(i))
  {
    seq(n, i requires 0 <= i < n => OwnCall(i, ShippedValue(i)))
  }

  // ----- values ------------------------------------------------------------------------------

  lemma YesAndNo()
    ensures Parse(BoolKind, "yes") == Some(Flag(true)) && Parse(BoolKind, "no") == Some(Flag(false))
  {
    assert |"yes"| == 3 && |"true"| == 4 && |"no"| == 2;
  }

  /** The written value means the default. */
  lemma ShippedParses(i: nat)
    requires i < KEYS
    ensures Parse(Entry(i).kind, ShippedValue(i)) == Some(DefaultValue(i))
  {
    hide Entry, Parse;
    DefaultTexts(i);
    StringDefaults(i);
    YesAndNo();
    DefaultParses(i);
    assert |"true"| == 4 && |"false"| == 5;
    assert Entry(i).kind == StringKind ==> |Entry(i).default| == 3 || |Entry(i).default| == 20;
  }

  /** A value of letters, digits and the characters of a path. */
  ghost predicate Simple(v: string) {
    v != "" && forall i :: 0 <= i < |v| ==> Plain(v[i]) || v[i] == '/' || v[i] == '.'
  }

  lemma DefaultsAreSimple(i: nat)
    requires i < KEYS
    ensures Simple(Entry(i).default)
  {
    hide Entry;
    DefaultTexts(i);
    StringDefaults(i);
  }

  lemma ShippedIsSimple(i: nat)
    requires i < KEYS
    ensures Simple(ShippedValue(i))
  {
    hide Entry;
    DefaultsAreSimple(i);
  }

  // ----- lines -------------------------------------------------------------------------------

  lemma SimpleParts(name: string, v: string)
    requires CleanName(name) && Simple(v)
    ensures ValueParts("", v, "", "") && Trimmed(name + "" + ['='] + ("" + v + "" + ""))
    ensures NoStop(name + "", "=:") && (name + "" + ['='])[0] == name[0]
  {
    hide Simple, Trimmed, NoStop, CleanName;
    assert "" + v == v && name + "" == name && "" + v + "" + "" == v;
    SimpleIsClean(v);
    CleanParts(name);
    EndOfPair(name, v);
  }

  lemma SimpleIsClean(v: string)
    requires Simple(v)
    ensures Trimmed(v) && NoStop(v, "") && v != ""
  {
  }

  lemma CleanParts(name: string)
    requires CleanName(name)
    ensures Trimmed(name) && NoStop(name, "=:") && name != ""
  {
  }

  lemma EndOfPair(name: string, v: string)
    requires Trimmed(name) && Trimmed(v) && name != "" && v != ""
    ensures Trimmed(name + ['='] + v) && (name + ['='])[0] == name[0]
  {
  }

  lemma PairIsRead(st: State, name: string, v: string, lineno: nat)
    requires CleanName(name) && Simple(v) && lineno > 1
    ensures ParseLine(st, PlainPair(name, v), lineno)
         == (st.(prevName := Truncated(name, MAX_NAME)), Called(Call(st.section, name, v)))
  {
    hide ParseLine, ValueParts, Simple, NoStop, Trimmed;
    SimpleParts(name, v);
    assert PlainPair(name, v) == "" + (name + "" + ['='] + ("" + v + "" + "")) + "\n";
    NewlineIsSpace();
    CleanParts(name);
    PairValue(st, "", name, "", '=', "", v, "", "", "\n", lineno);
  }

  /** Reading the lines of one key: its call, in its own section. */
  lemma ShippedEntryIsRead(st: State, i: nat, lineno: nat)
    requires i < KEYS && (OpensSection(i) || (st.section == Entry(i).section && lineno > 0))
    ensures var lines := ShippedHeader(i) + [ShippedPair(i)];
            && Calls(st, lines, lineno) == [OwnCall(i, ShippedValue(i))]
            && After(st, lines, lineno).section == Entry(i).section
  {
    hide Entry, ParseLine, CleanName, CleanSection, HeaderLine, ShippedValue, ShippedHeader, ShippedPair, OpensSection;
    ShippedLineIs(i);
    PlainIsClean(i);
    ShippedIsSimple(i);
    var name, v, pair := Entry(i).key, ShippedValue(i), ShippedPair(i);
    if OpensSection(i) {
      var header, next := HeaderLine(Entry(i).section), State(Entry(i).section, "");
      HeaderReadsBack(st, Entry(i).section, lineno + 1);
      PairIsRead(next, name, v, lineno + 2);
      assert ([header] + [pair])[1..] == [pair];
      OneCall(next, pair, lineno + 1);
    } else {
      PairIsRead(st, name, v, lineno + 1);
      assert [] + [pair] == [pair];
      OneCall(st, pair, lineno);
    }
  }

  lemma {:induction false} ShippedLinesAreRead(n: nat)
    requires n <= KEYS
    ensures Calls(START, ShippedLines(n), 0) == ShippedCalls(n)
    ensures n > 0 ==> |ShippedLines(n)| > 0 && After(START, ShippedLines(n), 0).section == Entry(n - 1).section
  {
    hide Entry, ParseLine, Calls, After, ShippedPair, ShippedHeader, ShippedValue, OpensSection;
    if n == 0 {
      NoCalls(START, 0);
    } else {
      var i, before := n - 1, ShippedLines(n - 1);
      ShippedLinesAreRead(i);
      var now := After(START, before, 0);
      var lines := ShippedHeader(i) + [ShippedPair(i)];
      FirstOpens();
      if !OpensSection(i) {
        SameSection(i);
      }
      ShippedEntryIsRead(now, i, |before|);
      assert ShippedLines(n) == before + lines;
      CallsConcat(START, before, lines, 0, now);
      AfterConcat(START, before, lines, 0);
    }
  }

  // ----- the file ----------------------------------------------------------------------------

  lemma {:induction false} ShippedCallsLast(n: nat, i: nat)
    requires n <= KEYS && i < KEYS
    ensures Last(ShippedCalls(n), i) == if i < n then Some(DefaultValue(i)) else None
  {
    hide Entry, Parse, DefaultValue, KeyIndex, ShippedValue;
    if n > 0 {
      ShippedCallsLast(n - 1, i);
      assert ShippedCalls(n)[..n - 1] == ShippedCalls(n - 1);
      OwnIndex(n - 1);
      ShippedParses(n - 1);
    }
  }

  /** A file with the lines of the installed one and any comments and blank lines between them makes one call
      for each key, and loading it gives the defaults, whatever was held before. */
  lemma ShippedFileIsDefaults(store: Store, text: string)
    requires |store| == KEYS && WithoutComments(Lines(text)) == ShippedLines(KEYS)
    requires forall k :: 0 <= k < |Lines(text)| ==> !StartsWithBom(Lines(text)[k])
    ensures FileCalls(text) == ShippedCalls(KEYS)
    ensures AssignAll(store, FileCalls(text)) == Defaults()
    ensures Load(store, Some(FileCalls(text)), []) == (Defaults(), true)
  {
    hide Lines, Calls, ShippedLines, WithoutComments, StartsWithBom, Last, AssignAll, DefaultValue;
    CommentsDoNotMatter(START, Lines(text), 0, 0);
    ShippedLinesAreRead(KEYS);
    ShippedCallsGiveDefaults(store);
    ShippedCallsGiveDefaults(Defaults());
    LoadWithoutOverrides(store, FileCalls(text));
  }

  lemma ShippedCallsGiveDefaults(store: Store)
    requires |store| == KEYS
    ensures AssignAll(store, ShippedCalls(KEYS)) == Defaults()
  {
    hide Last, AssignAll, DefaultValue, ShippedCalls;
    forall i | 0 <= i < KEYS
      ensures AssignAll(store, ShippedCalls(KEYS))[i] == Defaults()[i]
    {
      AssignAllSlot(store, ShippedCalls(KEYS), i);
      ShippedCallsLast(KEYS, i);
    }
  }

  // ----- a comment that is too long ----------------------------------------------------------

  function Dashes(n: nat): string {
    seq(n, _ => '-')
  }

  /** A comment with so many characters that its end is read as a line of its own. */
  function LongComment(): string {
    "#" + Dashes(198) + "Enabled=no\n"
  }

  lemma LongCommentLines()
    ensures Lines("[Clock]\n" + LongComment()) == ["[Clock]\n", "#" + Dashes(198), "Enabled=no\n"]
  {
    hide ChunkLength, UpToNul, Lines;
    var tail := "Enabled=no\n";
    assert LongComment() == ("#" + Dashes(198)) + tail;
    assert EndsOnce("[Clock]\n") && EndsOnce(LongComment());
    LinesConcat("[Clock]\n", LongComment());
    WholeLine("[Clock]\n");
    CutLine(LongComment());
    assert LongComment()[..199] == "#" + Dashes(198) && LongComment()[199..] == tail;
  }

  /** It switches the clock off. */
  lemma LongCommentIsObeyed()
    ensures FileCalls("[Clock]\n" + LongComment()) == [Call("Clock", "Enabled", "no")]
  {
    hide ParseLine, Calls, Lines, Dashes;
    LongCommentLines();
    var comment, tail := "#" + Dashes(198), "Enabled=no\n";
    assert HeaderLine("Clock") == "[Clock]\n";
    assert CleanSection("Clock") && CleanName("Enabled") && Simple("no");
    HeaderReadsBack(START, "Clock", 1);
    var st := State("Clock", "");
    assert "" + comment == comment;
    CommentIsIgnored(st, "", comment, 2);
    PairIsRead(st, "Enabled", "no", 3);
    assert tail == PlainPair("Enabled", "no");
    var lines := ["[Clock]\n", comment, tail];
    CallsHead(START, lines, 0);
    assert lines[1..] == [comment] + [tail];
    CallsHead(st, [comment] + [tail], 1);
    assert ([comment] + [tail])[1..] == [tail];
    OneCall(st, tail, 2);
  }
}
