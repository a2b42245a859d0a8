/** The INI dialect of lib/inih/ini.c on strings: what one line means, how a text is cut into lines,
    and what reading back a printed document yields. Characters stand for bytes in the C locale. */
module IniText {
  import opened Prelude

  const MAX_LINE := 200
  const MAX_SECTION := 50
  const MAX_NAME := 50

  predicate IsSpace(c: char) {
    c == ' ' || 9 <= c as int <= 13
  }

  function RStrip(s: string): (r: string)
    ensures r <= s && (r != "" ==> !IsSpace(r[|r| - 1]))
    ensures forall i :: |r| <= i < |s| ==> IsSpace(s[i])
  {
    if s != "" && IsSpace(s[|s| - 1]) then RStrip(s[..|s| - 1]) else s
  }

  function LSkip(s: string): (r: string)
    ensures |r| <= |s| && r == s[|s| - |r|..] && (r != "" ==> !IsSpace(r[0]))
    ensures forall i :: 0 <= i < |s| - |r| ==> IsSpace(s[i])
  {
    if s != "" && IsSpace(s[0]) then LSkip(s[1..]) else s
  }

  /** The position of the first of the given characters, or of a ';' after whitespace, from i on. */
  function FindFrom(s: string, chars: string, i: nat, wasSpace: bool): (j: nat)
    requires i <= |s|
    ensures i <= j <= |s|
    decreases |s| - i
  {
    if i == |s| || s[i] in chars || (wasSpace && s[i] == ';') then i
    else FindFrom(s, chars, i + 1, IsSpace(s[i]))
  }

  function Find(s: string, chars: string): (j: nat)
    ensures j <= |s|
  {
    FindFrom(s, chars, 0, false)
  }

  /** strncpy0: as much as fits with the terminator. */
  function Truncated(s: string, size: nat): string
    requires size > 0
  {
    if |s| < size then s else s[..size - 1]
  }

  // ----- one line ----------------------------------------------------------------------------

  datatype Call = Call(section: string, name: string, value: string)

  datatype State = State(section: string, prevName: string)

  datatype Result = Nothing | Called(call: Call) | Bad

  const START := State("", "")

  predicate StartsWithBom(line: string) {
    |line| >= 3 && line[0] as int == 0xEF && line[1] as int == 0xBB && line[2] as int == 0xBF
  }

  /** The value part after the delimiter: inline comment removed, then trimmed. */
  function ParseValue(raw: string): string {
    RStrip(LSkip(raw[..Find(raw, "")]))
  }

  /** A section line behind its '['. */
  function ParseSection(st: State, s: string): (State, Result) {
    var end := Find(s, "]");
    if end < |s| && s[end] == ']' then (State(Truncated(s[..end], MAX_SECTION), ""), Nothing) else (st, Bad)
  }

  /** A line with a name and a value. */
  function ParsePair(st: State, s: string): (State, Result) {
    var end := Find(s, "=:");
    if end < |s| && (s[end] == '=' || s[end] == ':') then
      var name := RStrip(s[..end]);
      (st.(prevName := Truncated(name, MAX_NAME)), Called(Call(st.section, name, ParseValue(s[end + 1..]))))
    else (st, Bad)
  }

  /** A line without surrounding whitespace; `moved` when it does not start at the left margin. */
  function ParseStripped(st: State, s: string, moved: bool): (State, Result) {
    if s == "" || s[0] == ';' || s[0] == '#' then (st, Nothing)
    else if st.prevName != "" && moved then (st, Called(Call(st.section, st.prevName, s)))
    else if s[0] == '[' then ParseSection(st, s[1..])
    else ParsePair(st, s)
  }

  /** What the parser makes of one line, given its number. */
  function ParseLine(st: State, line: string, lineno: nat): (State, Result) {
    var bom := lineno == 1 && StartsWithBom(line);
    var stripped := RStrip(if bom then line[3..] else line);
    var s := LSkip(stripped);
    ParseStripped(st, s, bom || |s| < |stripped|)
  }

  // ----- a text ------------------------------------------------------------------------------

  /** How many characters a read of at most `num` bytes takes: up to num - 1, and no further than a newline. */
  function ChunkLength(text: string, num: nat): (n: nat)
    requires num >= 2
    ensures n <= |text| && n <= num - 1 && (text != "" ==> n > 0)
    decreases num
  {
    if text == "" then 0
    else if text[0] == '\n' || num == 2 then 1
    else 1 + ChunkLength(text[1..], num - 1)
  }

  /** The strings that repeated reads return. */
  function Chunks(text: string, num: nat): seq<string>
    requires num >= 2
    decreases |text|
  {
    if text == "" then [] else
      var n := ChunkLength(text, num);
      [text[..n]] + Chunks(text[n..], num)
  }

  /** The C string in a buffer: what comes before the first NUL. */
  function UpToNul(s: string): (r: string)
    ensures r <= s && '\0' !in r
    ensures '\0' !in s ==> r == s
  {
    s[..IndexOf(s, '\0')]
  }

  /** The lines the parser sees: what repeated reads into its buffer return, each up to its first NUL. */
  function Lines(text: string): seq<string>
    decreases |text|
  {
    if text == "" then [] else
      var n := ChunkLength(text, MAX_LINE);
      [UpToNul(text[..n])] + Lines(text[n..])
  }

  /** Without NUL characters the lines are the chunks. */
  lemma {:induction false} LinesOfPlain(text: string)
    requires '\0' !in text
    ensures Lines(text) == Chunks(text, MAX_LINE)
    decreases |text|
  {
    hide ChunkLength, UpToNul;
    if text != "" {
      LinesOfPlain(text[ChunkLength(text, MAX_LINE)..]);
    }
  }

  function Concat(parts: seq<string>): string {
    if parts == [] then "" else parts[0] + Concat(parts[1..])
  }

  lemma {:induction false} ChunkEnd(text: string, num: nat)
    requires num >= 2 && text != ""
    ensures var n := ChunkLength(text, num);
            && (forall i :: 0 <= i < n - 1 ==> text[i] != '\n')
            && (text[n - 1] == '\n' || n == num - 1 || n == |text|)
    decreases num
  {
    if text[0] != '\n' && num > 2 && text[1..] != "" {
      ChunkEnd(text[1..], num - 1);
    }
  }

  /** What a read may return: no newline before the end, and unless it is the last, it ends its line or
      fills the buffer. */
  ghost predicate GoodChunk(chunk: string, num: nat, last: bool) {
    && 0 < |chunk| < num
    && (forall i :: 0 <= i < |chunk| - 1 ==> chunk[i] != '\n')
    && (last || chunk[|chunk| - 1] == '\n' || |chunk| == num - 1)
  }

  /** Reading conserves the text: the chunks concatenate to it, and each is as a read may return it. */
  lemma {:induction false} ChunksConserve(text: string, num: nat)
    requires num >= 2
    ensures Concat(Chunks(text, num)) == text
    ensures forall k :: 0 <= k < |Chunks(text, num)| ==>
              GoodChunk(Chunks(text, num)[k], num, k == |Chunks(text, num)| - 1)
    decreases |text|
  {
    hide ChunkLength, GoodChunk;
    if text != "" {
      var n := ChunkLength(text, num);
      ChunkIsGood(text, num);
      ChunksConserve(text[n..], num);
      assert text == text[..n] + text[n..];
      assert n == |text| <==> Chunks(text[n..], num) == [];
    }
  }

  lemma ChunkIsGood(text: string, num: nat)
    requires num >= 2 && text != ""
    ensures GoodChunk(text[..ChunkLength(text, num)], num, ChunkLength(text, num) == |text|)
  {
    hide ChunkLength;
    ChunkEnd(text, num);
  }

  /** The calls to the handler, in order. They do not depend on what the handler returns. */
  function Calls(st: State, lines: seq<string>, lineno: nat): seq<Call>
    decreases |lines|
  {
    if lines == [] then [] else
      var (next, result) := ParseLine(st, lines[0], lineno + 1);
      (if result.Called? then [result.call] else []) + Calls(next, lines[1..], lineno + 1)
  }

  /** The value returned: the first line that is malformed or whose handler call failed. `accepts` gives
      the handler's verdict on its n-th call. */
  function ErrorLine(st: State, lines: seq<string>, lineno: nat, accepts: nat -> bool, n: nat): nat
    decreases |lines|
  {
    if lines == [] then 0 else
      var (next, result) := ParseLine(st, lines[0], lineno + 1);
      if result.Bad? || (result.Called? && !accepts(n)) then lineno + 1
      else ErrorLine(next, lines[1..], lineno + 1, accepts, if result.Called? then n + 1 else n)
  }

  // ----- stripping and finding ---------------------------------------------------------------

  predicate Trimmed(s: string) {
    s == "" || (!IsSpace(s[0]) && !IsSpace(s[|s| - 1]))
  }

  lemma RStripKeeps(s: string)
    requires s == "" || !IsSpace(s[|s| - 1])
    ensures RStrip(s) == s
  {
  }

  lemma {:induction false} RStripDrops(s: string, spaces: string)
    requires forall i :: 0 <= i < |spaces| ==> IsSpace(spaces[i])
    ensures RStrip(s + spaces) == RStrip(s)
    decreases |spaces|
  {
    if spaces == "" {
      assert s + spaces == s;
    } else {
      var init := spaces[..|spaces| - 1];
      assert (s + spaces)[..|s + spaces| - 1] == s + init;
      RStripDrops(s, init);
    }
  }

  lemma {:induction false} RStripPrefix(s: string, t: string)
    requires s != "" && !IsSpace(s[|s| - 1])
    ensures RStrip(s + t) == s + RStrip(t)
    decreases |t|
  {
    if t == "" {
      assert s + t == s;
      RStripKeeps(s);
    } else if IsSpace(t[|t| - 1]) {
      var init := t[..|t| - 1];
      assert (s + t)[..|s + t| - 1] == s + init;
      RStripPrefix(s, init);
    }
  }

  lemma LSkipKeeps(s: string)
    requires s == "" || !IsSpace(s[0])
    ensures LSkip(s) == s
  {
  }

  /** No stop in s: none of the characters, and no ';' after whitespace. */
  ghost predicate NoStop(s: string, chars: string) {
    forall i :: 0 <= i < |s| ==> s[i] !in chars && (s[i] == ';' && i > 0 ==> !IsSpace(s[i - 1]))
  }

  lemma {:induction false} FindStops(s: string, t: string, chars: string, i: nat, wasSpace: bool)
    requires NoStop(s, chars) && i <= |s| && (i == 0 ==> !wasSpace) && (i > 0 ==> wasSpace == IsSpace(s[i - 1]))
    requires t == "" || t[0] in chars
    ensures FindFrom(s + t, chars, i, wasSpace) == |s|
    decreases |s| - i
  {
    if i < |s| {
      FindStops(s, t, chars, i + 1, IsSpace(s[i]));
    }
  }

  lemma {:induction false} FindAllMeansNoStop(s: string, chars: string, i: nat, wasSpace: bool)
    requires i <= |s| && FindFrom(s, chars, i, wasSpace) == |s|
    requires i > 0 ==> wasSpace == IsSpace(s[i - 1])
    ensures forall k :: i <= k < |s| ==> s[k] !in chars && (s[k] == ';' && k > 0 ==> !IsSpace(s[k - 1]))
    decreases |s| - i
  {
    if i < |s| {
      FindAllMeansNoStop(s, chars, i + 1, IsSpace(s[i]));
    }
  }

  // ----- values ------------------------------------------------------------------------------

  /** A value that reads back as printed: trimmed, not starting with ';', no ';' after whitespace. */
  ghost predicate Clean(v: string) {
    Trimmed(v) && NoStop(" " + v, "")
  }

  lemma SpacedStrip(v: string)
    requires Trimmed(v)
    ensures RStrip(" " + v) == if v == "" then "" else " " + v
  {
    if v == "" {
      RStripDrops("", " ");
      assert "" + " " == " " + v;
    } else {
      RStripKeeps(" " + v);
    }
  }

  lemma CleanReadsBack(v: string)
    requires Clean(v)
    ensures ParseValue(RStrip(" " + v)) == v
  {
    hide RStrip, LSkip;
    SpacedStrip(v);
    EmptyStrips();
    if v != "" {
      var raw := " " + v;
      FindStops(raw, "", "", 0, false);
      assert raw + "" == raw;
      assert raw[..|raw|] == raw;
      LSkipSpace(v);
      RStripKeeps(v);
    }
  }

  lemma EmptyStrips()
    ensures RStrip("") == "" && LSkip("") == ""
  {
  }

  lemma ReadBackIsClean(v: string)
    requires ParseValue(RStrip(" " + v)) == v
    ensures Clean(v)
  {
    hide RStrip, LSkip, FindFrom, ParseValue, NoStop;
    var raw := RStrip(" " + v);
    var end := Find(raw, "");
    ParseValueTrims(raw);
    SpacedStrip(v);
    SpaceHasNoStop();
    if v == "" {
      assert " " + v == " ";
    } else {
      StopsLater(raw);
      assert end == |raw|;
      FindAllMeansNoStop(raw, "", 0, false);
      assert NoStop(raw, "") by {
        NoStopFrom(raw);
      }
    }
  }

  lemma ParseValueTrims(raw: string)
    ensures Trimmed(ParseValue(raw))
    ensures raw != "" && IsSpace(raw[0]) && Find(raw, "") > 0 ==> |ParseValue(raw)| < Find(raw, "")
  {
    hide RStrip, LSkip, Find;
    var cut := raw[..Find(raw, "")];
    TrimResult(cut);
    if cut != "" && IsSpace(cut[0]) {
      SkipsSpace(cut);
    }
  }

  lemma SpaceHasNoStop()
    ensures NoStop(" ", "")
  {
  }

  lemma NoStopFrom(s: string)
    requires forall k :: 0 <= k < |s| ==> s[k] !in "" && (s[k] == ';' && k > 0 ==> !IsSpace(s[k - 1]))
    ensures NoStop(s, "")
  {
  }

  lemma StopsLater(s: string)
    requires s != "" && s[0] != ';'
    ensures Find(s, "") >= 1
  {
  }

  /** The value printed after "= " is read back unchanged exactly when it is clean. */
  lemma ValueReadsBackIffClean(v: string)
    ensures ParseValue(RStrip(" " + v)) == v <==> Clean(v)
  {
    hide ParseValue, RStrip, Clean;
    if Clean(v) {
      CleanReadsBack(v);
    } else if ParseValue(RStrip(" " + v)) == v {
      ReadBackIsClean(v);
    }
  }

  lemma LSkipSpace(v: string)
    requires v != "" && !IsSpace(v[0])
    ensures LSkip(" " + v) == v
  {
    assert (" " + v)[1..] == v;
    LSkipKeeps(v);
  }

  lemma SkipsSpace(cut: string)
    requires cut != "" && IsSpace(cut[0])
    ensures |RStrip(LSkip(cut))| < |cut|
  {
  }

  lemma TrimResult(s: string)
    ensures Trimmed(RStrip(LSkip(s)))
  {
  }

  // ----- what the parser can return ----------------------------------------------------------

  /** A string as a read leaves it in the buffer: a newline can only be its last character. */
  ghost predicate Seen(line: string) {
    && |line| < MAX_LINE && '\0' !in line
    && forall i :: 0 <= i < |line| - 1 ==> line[i] != '\n'
  }

  lemma {:induction false} LinesAreSeen(text: string)
    ensures forall k :: 0 <= k < |Lines(text)| ==> Seen(Lines(text)[k])
    decreases |text|
  {
    hide ChunkLength, UpToNul, Seen;
    if text != "" {
      var chunk := text[..ChunkLength(text, MAX_LINE)];
      assert Seen(UpToNul(chunk)) by {
        ChunkIsSeen(text);
      }
      LinesAreSeen(text[ChunkLength(text, MAX_LINE)..]);
    }
  }

  lemma ChunkIsSeen(text: string)
    requires text != ""
    ensures Seen(UpToNul(text[..ChunkLength(text, MAX_LINE)]))
  {
    hide ChunkLength, UpToNul;
    ChunkEnd(text, MAX_LINE);
    var chunk := text[..ChunkLength(text, MAX_LINE)];
    assert forall i :: 0 <= i < |UpToNul(chunk)| ==> UpToNul(chunk)[i] == chunk[i] == text[i];
  }

  lemma RStripOneLine(line: string)
    requires Seen(line)
    ensures OneLine(RStrip(line))
  {
    hide RStrip;
    var r := RStrip(line);
    forall i | 0 <= i < |r|
      ensures r[i] != '\n' && r[i] != '\0'
    {
      assert r[i] == line[i] && line[i] in line;
      assert i == |line| - 1 ==> r[i] == r[|r| - 1];
    }
  }

  lemma PartOneLine(s: string, i: nat, j: nat)
    requires OneLine(s) && i <= j <= |s|
    ensures OneLine(s[i..j])
  {
  }

  lemma SkippedOneLine(s: string)
    requires OneLine(s)
    ensures OneLine(LSkip(s)) && OneLine(RStrip(s))
  {
    hide RStrip, LSkip, OneLine;
    PartOneLine(s, |s| - |LSkip(s)|, |s|);
    PartOneLine(s, 0, |RStrip(s)|);
    assert s[|s| - |LSkip(s)|..|s|] == LSkip(s) && s[0..|RStrip(s)|] == RStrip(s);
  }

  lemma ParseValueOneLine(raw: string)
    requires OneLine(raw)
    ensures OneLine(ParseValue(raw)) && |ParseValue(raw)| <= |raw|
  {
    hide RStrip, LSkip, Find, OneLine;
    var cut := raw[..Find(raw, "")];
    PartOneLine(raw, 0, |cut|);
    assert raw[0..|cut|] == cut;
    SkippedOneLine(cut);
    SkippedOneLine(LSkip(cut));
  }

  lemma ParseStrippedOneLine(st: State, s: string, moved: bool)
    requires OneLine(s)
    ensures var result := ParseStripped(st, s, moved).1;
            result.Called? ==> OneLine(result.call.value) && |result.call.value| <= |s|
  {
    hide RStrip, Find, OneLine, ParseValue;
    var end := Find(s, "=:");
    if end < |s| {
      PartOneLine(s, end + 1, |s|);
      assert s[end + 1..|s|] == s[end + 1..];
      ParseValueOneLine(s[end + 1..]);
    }
  }

  /** No value that is read contains a newline, and none is longer than its line. */
  lemma ParseLineOneLine(st: State, line: string, lineno: nat)
    requires Seen(line)
    ensures var result := ParseLine(st, line, lineno).1;
            result.Called? ==> OneLine(result.call.value) && |result.call.value| <= |line|
  {
    hide *;
    var bom := lineno == 1 && StartsWithBom(line);
    var body := BodyOf(line, bom);
    LineBody(st, line, lineno);
    BodySeen(line, bom);
    RStripOneLine(body);
    FromStripped(st, RStrip(body), bom || |LSkip(RStrip(body))| < |RStrip(body)|);
  }

  lemma FromStripped(st: State, stripped: string, moved: bool)
    requires OneLine(stripped)
    ensures var result := ParseStripped(st, LSkip(stripped), moved).1;
            result.Called? ==> OneLine(result.call.value) && |result.call.value| <= |stripped|
  {
    hide *;
    SkippedOneLine(stripped);
    ParseStrippedOneLine(st, LSkip(stripped), moved);
  }

  /** A line behind its byte order mark, if it has one. */
  function BodyOf(line: string, bom: bool): (r: string)
    requires bom ==> StartsWithBom(line)
    ensures |r| <= |line|
  {
    if bom then line[3..] else line
  }

  lemma LineBody(st: State, line: string, lineno: nat)
    ensures var bom := lineno == 1 && StartsWithBom(line);
            var stripped := RStrip(BodyOf(line, bom));
            ParseLine(st, line, lineno)
              == ParseStripped(st, LSkip(stripped), bom || |LSkip(stripped)| < |stripped|)
  {
    hide RStrip, LSkip, ParseStripped;
  }

  lemma BodySeen(line: string, bom: bool)
    requires Seen(line) && (bom ==> StartsWithBom(line))
    ensures Seen(BodyOf(line, bom))
  {
  }

  lemma {:induction false} CallsOneLine(st: State, lines: seq<string>, lineno: nat)
    requires forall k :: 0 <= k < |lines| ==> Seen(lines[k])
    ensures forall k :: 0 <= k < |Calls(st, lines, lineno)| ==> OneLine(Calls(st, lines, lineno)[k].value)
    decreases |lines|
  {
    hide ParseLine, Seen, OneLine;
    if lines != [] {
      ParseLineOneLine(st, lines[0], lineno + 1);
      CallsOneLine(ParseLine(st, lines[0], lineno + 1).0, lines[1..], lineno + 1);
    }
  }

  /** The handler calls for a file with this text. */
  function FileCalls(text: string): seq<Call> {
    Calls(START, Lines(text), 0)
  }

  lemma FileCallsOneLine(text: string)
    ensures forall k :: 0 <= k < |FileCalls(text)| ==> OneLine(FileCalls(text)[k].value)
  {
    hide Calls, Lines;
    LinesAreSeen(text);
    CallsOneLine(START, Lines(text), 0);
  }

  // ----- documents ---------------------------------------------------------------------------

  datatype Section = Section(name: string, pairs: seq<(string, string)>)

  function PairLine(name: string, value: string): string {
    name + " = " + value + "\n"
  }

  function HeaderLine(name: string): string {
    "[" + name + "]\n"
  }

  /** The lines of a printed document. */
  function PairLines(pairs: seq<(string, string)>): seq<string> {
    if pairs == [] then [] else [PairLine(pairs[0].0, pairs[0].1)] + PairLines(pairs[1..])
  }

  function DocLines(doc: seq<Section>): seq<string> {
    if doc == [] then [] else [HeaderLine(doc[0].name)] + PairLines(doc[0].pairs) + DocLines(doc[1..])
  }

  /** One call for every pair, in order. */
  function PairCalls(section: string, pairs: seq<(string, string)>): seq<Call> {
    if pairs == [] then [] else [Call(section, pairs[0].0, pairs[0].1)] + PairCalls(section, pairs[1..])
  }

  function DocCalls(doc: seq<Section>): seq<Call> {
    if doc == [] then [] else PairCalls(doc[0].name, doc[0].pairs) + DocCalls(doc[1..])
  }

  /** A name that survives: nonempty, trimmed, no comment or section or delimiter character in the way. */
  ghost predicate CleanName(name: string) {
    && name != ""
    && Trimmed(name)
    && name[0] != ';' && name[0] != '#' && name[0] != '['
    && NoStop(name, "=:")
  }

  /** A section name that survives: no ']', no ';' after whitespace, and it fits its buffer. */
  ghost predicate CleanSection(name: string) {
    NoStop(name, "]") && |name| < MAX_SECTION
  }

  ghost predicate OneLine(s: string) {
    forall i :: 0 <= i < |s| ==> s[i] != '\n' && s[i] != '\0'
  }

  ghost predicate CleanPair(pair: (string, string)) {
    CleanName(pair.0) && Clean(pair.1) && OneLine(pair.0) && OneLine(pair.1) && |PairLine(pair.0, pair.1)| <= MAX_LINE
  }

  ghost predicate CleanDoc(doc: seq<Section>) {
    forall k :: 0 <= k < |doc| ==>
      && CleanSection(doc[k].name) && OneLine(doc[k].name)
      && forall i :: 0 <= i < |doc[k].pairs| ==> CleanPair(doc[k].pairs[i])
  }

  lemma SplitPairLine(name: string, value: string)
    requires CleanName(name)
    ensures RStrip(PairLine(name, value)) == name + " =" + RStrip(" " + value)
  {
    var head := name + " =";
    assert PairLine(name, value) == (head + (" " + value)) + "\n";
    RStripDrops(head + (" " + value), "\n");
    RStripPrefix(head, " " + value);
  }

  lemma FindDelimiter(name: string, rest: string)
    requires CleanName(name)
    ensures Find(name + " =" + rest, "=:") == |name| + 1
  {
    var spaced := name + " ";
    assert NoStop(spaced, "=:");
    FindStops(spaced, "=" + rest, "=:", 0, false);
    assert spaced + ("=" + rest) == name + " =" + rest;
  }

  /** A printed pair is one handler call with that name, and with that value exactly when it is clean. */
  lemma PairReadsBack(st: State, name: string, value: string, lineno: nat)
    requires CleanName(name) && lineno > 1
    ensures ParseLine(st, PairLine(name, value), lineno)
         == (st.(prevName := Truncated(name, MAX_NAME)),
             Called(Call(st.section, name, ParseValue(RStrip(" " + value)))))
  {
    hide RStrip, LSkip, FindFrom, ParseValue;
    var raw := RStrip(" " + value);
    var s := name + " =" + raw;
    SplitPairLine(name, value);
    assert s[0] == name[0];
    LSkipKeeps(s);
    FindDelimiter(name, raw);
    assert s[..|name| + 1] == name + " ";
    RStripDrops(name, " ");
    RStripKeeps(name);
    assert s[|name| + 2..] == raw;
  }

  lemma SectionParses(st: State, name: string)
    requires CleanSection(name)
    ensures ParseSection(st, name + "]") == (State(name, ""), Nothing)
  {
    hide FindFrom;
    assert NoStop(name, "]");
    FindStops(name, "]", "]", 0, false);
    assert (name + "]")[..|name|] == name;
  }

  lemma HeaderStrips(name: string)
    ensures RStrip(HeaderLine(name)) == "[" + name + "]" && LSkip("[" + name + "]") == "[" + name + "]"
  {
    hide RStrip, LSkip;
    var s := "[" + name + "]";
    assert HeaderLine(name) == s + "\n" && s[|s| - 1] == ']' && s[0] == '[';
    RStripDrops(s, "\n");
    RStripKeeps(s);
    LSkipKeeps(s);
  }

  lemma HeaderReadsBack(st: State, name: string, lineno: nat)
    requires CleanSection(name)
    ensures ParseLine(st, HeaderLine(name), lineno) == (State(name, ""), Nothing)
  {
    hide RStrip, LSkip, CleanSection, ParseSection, HeaderLine;
    assert HeaderLine(name) != "" && HeaderLine(name)[0] == '[' by {
      HeaderStarts(name);
    }
    assert !StartsWithBom(HeaderLine(name));
    HeaderStrips(name);
    assert ("[" + name + "]")[1..] == name + "]";
    SectionParses(st, name);
  }

  lemma HeaderStarts(name: string)
    ensures HeaderLine(name) != "" && HeaderLine(name)[0] == '['
  {
  }

  lemma NoCalls(st: State, lineno: nat)
    ensures Calls(st, [], lineno) == []
  {
  }

  lemma CallsHead(st: State, lines: seq<string>, lineno: nat)
    requires lines != []
    ensures var (next, result) := ParseLine(st, lines[0], lineno + 1);
            Calls(st, lines, lineno)
              == (if result.Called? then [result.call] else []) + Calls(next, lines[1..], lineno + 1)
  {
    hide ParseLine;
  }

  lemma {:induction false} CallsConcat(st: State, a: seq<string>, b: seq<string>, lineno: nat, end: State)
    requires end == After(st, a, lineno)
    ensures Calls(st, a + b, lineno) == Calls(st, a, lineno) + Calls(end, b, lineno + |a|)
    decreases |a|
  {
    hide ParseLine, Calls;
    if a == [] {
      assert a + b == b;
      assert Calls(st, [], lineno) == [] by {
        NoCalls(st, lineno);
      }
    } else {
      var next := ParseLine(st, a[0], lineno + 1).0;
      CallsConcat(next, a[1..], b, lineno + 1, end);
      CallsHead(st, a, lineno);
      CallsHead(st, a + b, lineno);
      assert (a + b)[1..] == a[1..] + b;
    }
  }

  /** The parser state after some lines. */
  function After(st: State, lines: seq<string>, lineno: nat): State
    decreases |lines|
  {
    if lines == [] then st else After(ParseLine(st, lines[0], lineno + 1).0, lines[1..], lineno + 1)
  }

  lemma {:induction false} PairsReadBack(st: State, pairs: seq<(string, string)>, lineno: nat)
    requires lineno > 0 && forall i :: 0 <= i < |pairs| ==> CleanPair(pairs[i])
    ensures Calls(st, PairLines(pairs), lineno) == PairCalls(st.section, pairs)
    ensures After(st, PairLines(pairs), lineno).section == st.section
    decreases |pairs|
  {
    hide ParseLine, ParseValue, RStrip, CleanName, Clean, PairLine;
    if pairs != [] {
      var (name, value) := pairs[0];
      assert CleanPair(pairs[0]);
      PairReadsBack(st, name, value, lineno + 1);
      ValueReadsBackIffClean(value);
      PairsReadBack(st.(prevName := Truncated(name, MAX_NAME)), pairs[1..], lineno + 1);
    }
  }

  lemma {:induction false} DocReadsBack(st: State, doc: seq<Section>, lineno: nat)
    requires CleanDoc(doc)
    ensures Calls(st, DocLines(doc), lineno) == DocCalls(doc)
    decreases |doc|
  {
    hide ParseLine, CleanPair, CleanSection, PairLine, HeaderLine, PairLines, PairCalls, Calls;
    if doc == [] {
      NoCalls(st, lineno);
    } else {
      var sec := doc[0];
      var start := State(sec.name, "");
      HeaderReadsBack(st, sec.name, lineno + 1);
      var body := PairLines(sec.pairs);
      PairsReadBack(start, sec.pairs, lineno + 1);
      CallsConcat(start, body, DocLines(doc[1..]), lineno + 1, After(start, body, lineno + 1));
      DocReadsBack(After(start, body, lineno + 1), doc[1..], lineno + 1 + |body|);
      CallsHead(st, DocLines(doc), lineno);
      assert DocLines(doc)[1..] == body + DocLines(doc[1..]);
    }
  }

  // ----- from text to lines ------------------------------------------------------------------

  /** A line with its newline. */
  ghost predicate EndsOnce(line: string) {
    line != "" && line[|line| - 1] == '\n' && OneLine(line[..|line| - 1])
  }

  /** A line that is at most as long as the buffer, newline included. */
  ghost predicate FittingLine(line: string) {
    EndsOnce(line) && |line| <= MAX_LINE
  }

  /** A line that fits the buffer with its terminator. */
  ghost predicate FullLine(line: string) {
    EndsOnce(line) && |line| < MAX_LINE
  }

  lemma {:induction false} ChunkStaysInLine(line: string, rest: string, num: nat)
    requires EndsOnce(line) && num >= 2
    ensures ChunkLength(line + rest, num) == ChunkLength(line, num)
    decreases num
  {
    if line[0] != '\n' && num > 2 {
      assert (line + rest)[1..] == line[1..] + rest;
      assert line[1..][..|line[1..]| - 1] == line[..|line| - 1][1..];
      ChunkStaysInLine(line[1..], rest, num - 1);
    }
  }

  lemma EndsOnceTail(line: string, n: nat)
    requires EndsOnce(line) && n < |line|
    ensures EndsOnce(line[n..])
  {
    assert line[n..][..|line| - n - 1] == line[..|line| - 1][n..];
  }

  lemma {:induction false} LinesConcat(line: string, rest: string)
    requires EndsOnce(line)
    ensures Lines(line + rest) == Lines(line) + Lines(rest)
    decreases |line|
  {
    hide ChunkLength, EndsOnce, UpToNul;
    var n := ChunkLength(line, MAX_LINE);
    ChunkStaysInLine(line, rest, MAX_LINE);
    assert (line + rest)[..n] == line[..n];
    assert (line + rest)[n..] == line[n..] + rest;
    if n < |line| {
      EndsOnceTail(line, n);
      LinesConcat(line[n..], rest);
    } else {
      assert line[n..] == "" && "" + rest == rest;
      assert Lines("") == [];
    }
  }

  /** What the reads make of some lines. */
  function PiecesOf(lines: seq<string>): seq<string> {
    if lines == [] then [] else Lines(lines[0]) + PiecesOf(lines[1..])
  }

  lemma {:induction false} PiecesConcat(a: seq<string>, b: seq<string>)
    ensures PiecesOf(a + b) == PiecesOf(a) + PiecesOf(b)
    decreases |a|
  {
    hide Lines;
    if a == [] {
      assert a + b == b;
    } else {
      assert (a + b)[1..] == a[1..] + b;
      PiecesConcat(a[1..], b);
    }
  }

  /** No read goes over the end of a line. */
  lemma {:induction false} TextIsPieces(lines: seq<string>)
    requires forall k :: 0 <= k < |lines| ==> EndsOnce(lines[k])
    ensures Lines(Concat(lines)) == PiecesOf(lines)
    decreases |lines|
  {
    hide ChunkLength, EndsOnce, UpToNul;
    if lines != [] {
      LinesConcat(lines[0], Concat(lines[1..]));
      TextIsPieces(lines[1..]);
    }
  }

  lemma FirstChunk(line: string)
    requires EndsOnce(line)
    ensures ChunkLength(line, MAX_LINE) == if |line| < MAX_LINE then |line| else MAX_LINE - 1
  {
    hide ChunkLength;
    ChunkEnd(line, MAX_LINE);
    var n := ChunkLength(line, MAX_LINE);
    if n < |line| {
      assert line[n - 1] == line[..|line| - 1][n - 1];
    }
  }

  lemma NoNulInLine(line: string)
    requires EndsOnce(line)
    ensures '\0' !in line
  {
    assert forall k :: 0 <= k < |line| - 1 ==> line[k] == line[..|line| - 1][k];
  }

  lemma LinesOfNothing()
    ensures Lines("") == []
  {
  }

  /** A line that fits the buffer is read in one piece. */
  lemma WholeLine(line: string)
    requires FullLine(line)
    ensures Lines(line) == [line]
  {
    hide ChunkLength, OneLine, UpToNul;
    FirstChunk(line);
    NoNulInLine(line);
    LinesOfNothing();
    assert line[..|line|] == line && line[|line|..] == "";
  }

  /** A longer line is cut where the buffer is full. */
  lemma CutLine(line: string)
    requires EndsOnce(line) && MAX_LINE <= |line| < 2 * MAX_LINE - 1
    ensures Lines(line) == [line[..MAX_LINE - 1], line[MAX_LINE - 1..]]
  {
    hide ChunkLength, EndsOnce, UpToNul;
    FirstChunk(line);
    NoNulInLine(line);
    EndsOnceTail(line, MAX_LINE - 1);
    WholeLine(line[MAX_LINE - 1..]);
  }

  lemma {:induction false} FullPieces(lines: seq<string>)
    requires forall k :: 0 <= k < |lines| ==> FullLine(lines[k])
    ensures PiecesOf(lines) == lines
  {
    hide FullLine, Lines;
    if lines != [] {
      WholeLine(lines[0]);
      FullPieces(lines[1..]);
    }
  }

  // ----- a line of exactly the buffer's size -------------------------------------------------

  lemma NumberIrrelevant(st: State, line: string, a: nat, b: nat)
    requires !StartsWithBom(line) || (a != 1 && b != 1)
    ensures ParseLine(st, line, a) == ParseLine(st, line, b)
  {
    hide RStrip, LSkip, ParseStripped;
  }

  lemma WithoutNewline(st: State, body: string, a: nat)
    requires (!StartsWithBom(body) && !StartsWithBom(body + "\n")) || a != 1
    ensures ParseLine(st, body, a) == ParseLine(st, body + "\n", a)
  {
    hide *;
    LineWithoutBom(st, body, a);
    LineWithoutBom(st, body + "\n", a);
    NewlineIsSpace();
    RStripDrops(body, "\n");
  }

  lemma NewlineIsSpace()
    ensures IsSpace('\n')
  {
  }

  lemma LineWithoutBom(st: State, line: string, a: nat)
    requires !StartsWithBom(line) || a != 1
    ensures var stripped := RStrip(line);
            ParseLine(st, line, a) == ParseStripped(st, LSkip(stripped), |LSkip(stripped)| < |stripped|)
  {
    hide RStrip, LSkip, ParseStripped;
  }

  lemma BlankLine(st: State, a: nat)
    ensures ParseLine(st, "\n", a) == (st, Nothing)
  {
    assert RStrip("\n") == RStrip("\n"[..0]) == "";
    EmptyStrips();
  }

  lemma TwoCalls(st: State, x: string, y: string, rest: seq<string>, a: nat)
    ensures var (next, first) := ParseLine(st, x, a + 1);
            var (after, second) := ParseLine(next, y, a + 2);
            Calls(st, [x, y] + rest, a)
              == (if first.Called? then [first.call] else []) + (if second.Called? then [second.call] else [])
                 + Calls(after, rest, a + 2)
  {
    hide ParseLine, Calls;
    CallsHead(st, [x, y] + rest, a);
    var next := ParseLine(st, x, a + 1).0;
    assert ([x, y] + rest)[1..] == [y] + rest;
    CallsHead(next, [y] + rest, a + 1);
    assert ([y] + rest)[1..] == rest;
  }

  /** A line that is at most as long as the buffer, newline included, is read as one line: if its newline is
      read on its own, that makes a blank line. */
  lemma {:induction false} FittingLines(st: State, lines: seq<string>, a: nat, b: nat)
    requires forall k :: 0 <= k < |lines| ==> FittingLine(lines[k])
    requires (a > 0 && b > 0) || (lines != [] ==> !StartsWithBom(lines[0]))
    ensures Calls(st, PiecesOf(lines), a) == Calls(st, lines, b)
    decreases |lines|
  {
    hide ParseLine, Calls, Lines, EndsOnce, StartsWithBom;
    if lines == [] {
      NoCalls(st, a);
      NoCalls(st, b);
    } else {
      var line, rest := lines[0], PiecesOf(lines[1..]);
      var next := ParseLine(st, line, b + 1).0;
      CallsHead(st, lines, b);
      if |line| < MAX_LINE {
        WholeLine(line);
        NumberIrrelevant(st, line, a + 1, b + 1);
        assert PiecesOf(lines)[1..] == rest;
        CallsHead(st, PiecesOf(lines), a);
        FittingLines(next, lines[1..], a + 1, b + 1);
      } else {
        CutLine(line);
        FullBuffer(st, line, a + 1, b + 1);
        BlankLine(next, a + 2);
        TwoCalls(st, line[..MAX_LINE - 1], "\n", rest, a);
        FittingLines(next, lines[1..], a + 2, b + 1);
      }
    }
  }

  lemma FullBuffer(st: State, line: string, a: nat, b: nat)
    requires EndsOnce(line) && |line| == MAX_LINE && (!StartsWithBom(line) || (a != 1 && b != 1))
    ensures line[MAX_LINE - 1..] == "\n"
    ensures ParseLine(st, line[..MAX_LINE - 1], a) == ParseLine(st, line, b)
  {
    hide ParseLine;
    var body := line[..MAX_LINE - 1];
    assert line == body + "\n";
    WithoutNewline(st, body, a);
    NumberIrrelevant(st, line, a, b);
  }

  lemma PairLineFits(pair: (string, string))
    requires CleanPair(pair)
    ensures FittingLine(PairLine(pair.0, pair.1))
  {
    var line := PairLine(pair.0, pair.1);
    assert line[..|line| - 1] == pair.0 + " = " + pair.1;
  }

  lemma HeaderLineFull(name: string)
    requires CleanSection(name) && OneLine(name)
    ensures FullLine(HeaderLine(name))
  {
    var line := HeaderLine(name);
    assert line[..|line| - 1] == "[" + name + "]";
  }

  lemma {:induction false} PairLinesFit(pairs: seq<(string, string)>)
    requires forall i :: 0 <= i < |pairs| ==> CleanPair(pairs[i])
    ensures forall k :: 0 <= k < |PairLines(pairs)| ==> FittingLine(PairLines(pairs)[k])
  {
    hide FittingLine, CleanPair, PairLine;
    if pairs != [] {
      PairLineFits(pairs[0]);
      PairLinesFit(pairs[1..]);
    }
  }

  lemma {:induction false} DocLinesFit(doc: seq<Section>)
    requires CleanDoc(doc)
    ensures forall k :: 0 <= k < |DocLines(doc)| ==> FittingLine(DocLines(doc)[k])
  {
    hide EndsOnce, CleanPair, CleanSection, HeaderLine, PairLines;
    if doc != [] {
      HeaderLineFull(doc[0].name);
      PairLinesFit(doc[0].pairs);
      DocLinesFit(doc[1..]);
    }
  }

  /** A printed document. */
  function PrintDoc(doc: seq<Section>): string {
    Concat(DocLines(doc))
  }

  /** Parsing a printed document makes exactly its calls in order, whatever the handler returns. */
  lemma DocumentInverse(doc: seq<Section>)
    requires CleanDoc(doc)
    ensures Calls(START, Lines(PrintDoc(doc)), 0) == DocCalls(doc)
  {
    hide CleanDoc, EndsOnce, StartsWithBom, DocCalls, Calls, Lines, PiecesOf, HeaderLine;
    DocLinesFit(doc);
    TextIsPieces(DocLines(doc));
    if doc != [] {
      HeaderNoBom(doc[0].name);
    }
    FittingLines(START, DocLines(doc), 0, 0);
    DocReadsBack(START, doc, 0);
  }

  lemma HeaderNoBom(name: string)
    ensures !StartsWithBom(HeaderLine(name))
  {
    assert HeaderLine(name)[0] == '[';
  }
}
