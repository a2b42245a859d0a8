/** What each kind of line of an INI file means, stated over the parts that a line is written in: blanks,
    comments, headers, pairs and continuations (lib/inih/ini.c:136-228, lib/inih/ini.h). */
module IniLines {
  import opened Prelude
  import opened IniText

  ghost predicate Blank(s: string) {
    forall i :: 0 <= i < |s| ==> IsSpace(s[i])
  }

  predicate Comment(s: string) {
    s != "" && (s[0] == ';' || s[0] == '#')
  }

  /** isspace in the C locale. */
  lemma Spaces(c: char)
    ensures IsSpace(c) <==> c in {' ', '\t', '\n', '\U{0B}', '\U{0C}', '\r'}
  {
  }

  /** A copy into a buffer of some size is the longest prefix that fits with its terminator. */
  lemma TruncatedFits(s: string, size: nat)
    requires size > 0
    ensures Truncated(s, size) <= s && |Truncated(s, size)| == if |s| < size then |s| else size - 1
  {
  }

  // ----- searching ---------------------------------------------------------------------------

  /** An inline comment starts here: a ';' behind whitespace. */
  predicate InlineComment(s: string, i: nat)
    requires i < |s|
  {
    i > 0 && s[i] == ';' && IsSpace(s[i - 1])
  }

  predicate StopsAt(s: string, chars: string, i: nat)
    requires i <= |s|
  {
    i == |s| || s[i] in chars || InlineComment(s, i)
  }

  lemma {:induction false} FindFromIsFirst(s: string, chars: string, i: nat, wasSpace: bool)
    requires i <= |s| && (wasSpace <==> i > 0 && IsSpace(s[i - 1]))
    ensures StopsAt(s, chars, FindFrom(s, chars, i, wasSpace))
    ensures forall k :: i <= k < FindFrom(s, chars, i, wasSpace) ==> !StopsAt(s, chars, k)
    decreases |s| - i
  {
    if !StopsAt(s, chars, i) {
      FindFromIsFirst(s, chars, i + 1, IsSpace(s[i]));
    }
  }

  /** A search finds the first of its characters, or the first inline comment, or the end. */
  lemma FindIsFirst(s: string, chars: string)
    ensures StopsAt(s, chars, Find(s, chars))
    ensures forall k :: 0 <= k < Find(s, chars) ==> !StopsAt(s, chars, k)
  {
    hide FindFrom;
    FindFromIsFirst(s, chars, 0, false);
  }

  lemma FindIs(s: string, chars: string, j: nat)
    requires j <= |s| && StopsAt(s, chars, j) && forall k :: 0 <= k < j ==> !StopsAt(s, chars, k)
    ensures Find(s, chars) == j
  {
    hide Find, StopsAt;
    FindIsFirst(s, chars);
  }

  /** None of the characters is left in front of the first inline comment. */
  ghost predicate Lacks(s: string, chars: string) {
    forall i :: 0 <= i < |s| && s[i] in chars ==> exists k :: 0 <= k < i && InlineComment(s, k)
  }

  lemma FoundIffNotLacking(s: string, chars: string)
    requires ';' !in chars
    ensures Find(s, chars) < |s| && s[Find(s, chars)] in chars <==> !Lacks(s, chars)
  {
    hide Find;
    FindIsFirst(s, chars);
    var j := Find(s, chars);
    if j < |s| && s[j] in chars {
      forall k | 0 <= k < j
        ensures !InlineComment(s, k)
      {
        assert !StopsAt(s, chars, k);
      }
    } else {
      forall i | 0 <= i < |s| && s[i] in chars
        ensures i > j && InlineComment(s, j)
      {
        assert i < j ==> !StopsAt(s, chars, i);
      }
    }
  }

  // ----- the parts of a line -----------------------------------------------------------------

  lemma {:induction false} LSkipDrops(before: string, s: string)
    requires Blank(before) && (s != "" ==> !IsSpace(s[0]))
    ensures LSkip(before + s) == s
    decreases |before|
  {
    if before == "" {
      assert before + s == s;
      LSkipKeeps(s);
    } else {
      assert (before + s)[1..] == before[1..] + s;
      LSkipDrops(before[1..], s);
    }
  }

  lemma BlankStrips(s: string)
    requires Blank(s)
    ensures RStrip(s) == "" && LSkip(s) == ""
  {
    hide RStrip, LSkip;
    RStripDrops("", s);
    assert "" + s == s == s + "";
    EmptyStrips();
    LSkipDrops(s, "");
  }

  /** A line that is blanks, trimmed text and blanks is parsed as that text, and as moved exactly when there
      are blanks in front of it. */
  lemma CoreDecides(st: State, before: string, s: string, after: string, lineno: nat)
    requires Blank(before) && Blank(after) && Trimmed(s)
    requires lineno != 1 || !StartsWithBom(before + s + after)
    ensures ParseLine(st, before + s + after, lineno) == ParseStripped(st, s, before != "")
  {
    hide RStrip, LSkip, ParseStripped, ParseLine, Blank, Trimmed, StartsWithBom;
    var line := before + s + after;
    LineWithoutBom(st, line, lineno);
    StripsToCore(before, s, after);
    EmptyCore(st);
    if s != "" {
      assert |LSkip(RStrip(line))| < |RStrip(line)| <==> before != "";
    }
  }

  lemma StripsToCore(before: string, s: string, after: string)
    requires Blank(before) && Blank(after) && Trimmed(s)
    ensures RStrip(before + s + after) == if s == "" then "" else before + s
    ensures LSkip(RStrip(before + s + after)) == s
  {
    hide RStrip, LSkip;
    if s == "" {
      assert before + s + after == before + after;
      BlankStrips(before + after);
      EmptyStrips();
    } else {
      RStripDrops(before + s, after);
      RStripKeeps(before + s);
      LSkipDrops(before, s);
    }
  }

  lemma EmptyCore(st: State)
    ensures forall moved :: ParseStripped(st, "", moved) == (st, Nothing)
  {
  }

  /** Every line is of that form. */
  lemma LineHasCore(line: string) returns (before: string, s: string, after: string)
    ensures line == before + s + after && Blank(before) && Blank(after) && Trimmed(s)
  {
    hide RStrip, LSkip;
    var stripped := RStrip(line);
    s := LSkip(stripped);
    before := stripped[..|stripped| - |s|];
    after := line[|stripped|..];
    assert stripped == line[..|stripped|];
  }

  // ----- comments, continuations, headers, pairs ---------------------------------------------

  /** Blank lines and comments, wherever they start, change nothing and call nothing. */
  lemma CommentIsIgnored(st: State, before: string, text: string, lineno: nat)
    requires Blank(before) && (text == "" || Comment(text))
    requires lineno != 1 || !StartsWithBom(before + text)
    ensures ParseLine(st, before + text, lineno) == (st, Nothing)
  {
    hide RStrip, ParseLine, StartsWithBom;
    var s := RStrip(text);
    var after := text[|s|..];
    assert text == s + after && before + text == before + s + after;
    if text != "" {
      StripKeepsFirst(text);
    }
    CoreDecides(st, before, s, after, lineno);
  }

  lemma StripKeepsFirst(text: string)
    requires text != "" && !IsSpace(text[0])
    ensures RStrip(text) != "" && RStrip(text)[0] == text[0]
  {
  }

  /** An indented line behind a pair gives the name of the pair once more, with the text of the line. */
  lemma ContinuationRepeatsName(st: State, before: string, s: string, after: string, lineno: nat)
    requires Blank(before) && Blank(after) && Trimmed(s) && before != "" && s != "" && !Comment(s)
    requires st.prevName != "" && (lineno != 1 || !StartsWithBom(before + s + after))
    ensures ParseLine(st, before + s + after, lineno) == (st, Called(Call(st.section, st.prevName, s)))
  {
    hide ParseLine, StartsWithBom;
    CoreDecides(st, before, s, after, lineno);
  }

  /** A line that is no continuation: not indented, or without a previous name. */
  predicate Starts(st: State, before: string) {
    before == "" || st.prevName == ""
  }

  /** A header sets the section to what is between the brackets, cut to fit, and forgets the previous name. */
  lemma HeaderSetsSection(st: State, before: string, name: string, rest: string, after: string, lineno: nat)
    requires Blank(before) && Blank(after) && Trimmed("[" + name + "]" + rest) && Starts(st, before)
    requires NoStop(name, "]")
    requires lineno != 1 || !StartsWithBom(before + ("[" + name + "]" + rest) + after)
    ensures ParseLine(st, before + ("[" + name + "]" + rest) + after, lineno)
         == (State(Truncated(name, MAX_SECTION), ""), Nothing)
  {
    hide ParseLine, Find, StartsWithBom;
    var s, t := "[" + name + "]" + rest, name + ("]" + rest);
    CoreDecides(st, before, s, after, lineno);
    assert s[1..] == t;
    FindStops(name, "]" + rest, "]", 0, false) by {
      assert ("]" + rest)[0] in "]";
    }
    FindAt(name, "]" + rest, "]");
    assert t[..|name|] == name;
  }

  lemma FindAt(s: string, t: string, chars: string)
    requires NoStop(s, chars) && t != "" && t[0] in chars
    ensures Find(s + t, chars) == |s|
  {
    hide FindFrom;
    FindStops(s, t, chars, 0, false);
  }

  /** What may stand behind the delimiter of a pair: blanks, a value without an inline comment, blanks, and an
      inline comment or nothing. */
  ghost predicate ValueParts(lead: string, value: string, gap: string, note: string) {
    && Blank(lead) && Blank(gap) && Trimmed(value) && NoStop(lead + value, "")
    && (note != "" ==> note[0] == ';' && (gap != "" || (value == "" && lead != "")))
  }

  lemma NoCommentBefore(lead: string, value: string, gap: string, note: string)
    requires ValueParts(lead, value, gap, note)
    ensures Find(lead + value + gap + note, "") == |lead + value + gap|
  {
    hide Find;
    var head := lead + value + gap;
    var raw := head + note;
    forall k | 0 <= k < |head|
      ensures !StopsAt(raw, "", k)
    {
      if k < |lead + value| {
        assert raw[k] == (lead + value)[k];
        assert k > 0 ==> raw[k - 1] == (lead + value)[k - 1];
      } else {
        assert raw[k] == gap[k - |lead + value|];
      }
    }
    if note != "" {
      assert raw[|head|] == ';' && raw[|head| - 1] == head[|head| - 1];
      assert IsSpace(head[|head| - 1]);
    }
    FindIs(raw, "", |head|);
  }

  /** A value is what is between the blanks, up to an inline comment. */
  lemma ValueIsTrimmed(lead: string, value: string, gap: string, note: string)
    requires ValueParts(lead, value, gap, note)
    ensures ParseValue(lead + value + gap + note) == value
  {
    hide Find, RStrip, LSkip;
    var head := lead + value + gap;
    var raw := head + note;
    NoCommentBefore(lead, value, gap, note);
    assert raw[..|head|] == head;
    if value == "" {
      BlankStrips(head);
      EmptyStrips();
    } else {
      assert head == lead + (value + gap);
      LSkipDrops(lead, value + gap);
      RStripDrops(value, gap);
      RStripKeeps(value);
    }
  }

  /** A pair calls the handler with its name and its value, in the current section. The delimiter is the first
      '=' or ':'. */
  lemma PairCallsHandler(st: State, before: string, name: string, gap: string, d: char, raw: string, after: string,
                         lineno: nat)
    requires Blank(before) && Blank(after) && Blank(gap) && Starts(st, before) && (d == '=' || d == ':')
    requires var s := name + gap + [d] + raw;
             Trimmed(s) && (lineno != 1 || !StartsWithBom(before + s + after))
    requires Trimmed(name) && NoStop(name + gap, "=:") && !Comment(name + gap + [d]) && (name + gap + [d])[0] != '['
    ensures ParseLine(st, before + (name + gap + [d] + raw) + after, lineno)
         == (st.(prevName := Truncated(name, MAX_NAME)), Called(Call(st.section, name, ParseValue(raw))))
  {
    hide ParseLine, Find, StartsWithBom, RStrip, ParseValue, Trimmed;
    var s, head := name + gap + [d] + raw, name + gap;
    CoreDecides(st, before, s, after, lineno);
    assert s == head + ([d] + raw) && s[0] == (head + [d])[0];
    FindAt(head, [d] + raw, "=:");
    assert s[..|head|] == head && s[|head| + 1..] == raw;
    RStripDrops(name, gap);
    TrimmedStrips(name);
  }

  /** The value that it passes is trimmed and ends in front of an inline comment. */
  lemma PairValue(st: State, before: string, name: string, gap: string, d: char, lead: string, value: string,
                  tail: string, note: string, after: string, lineno: nat)
    requires Blank(before) && Blank(after) && Blank(gap) && Starts(st, before) && (d == '=' || d == ':')
    requires ValueParts(lead, value, tail, note)
    requires var s := name + gap + [d] + (lead + value + tail + note);
             Trimmed(s) && (lineno != 1 || !StartsWithBom(before + s + after))
    requires Trimmed(name) && NoStop(name + gap, "=:") && !Comment(name + gap + [d]) && (name + gap + [d])[0] != '['
    ensures ParseLine(st, before + (name + gap + [d] + (lead + value + tail + note)) + after, lineno)
         == (st.(prevName := Truncated(name, MAX_NAME)), Called(Call(st.section, name, value)))
  {
    hide *;
    PairCallsHandler(st, before, name, gap, d, lead + value + tail + note, after, lineno);
    ValueIsTrimmed(lead, value, tail, note);
  }

  lemma TrimmedStrips(s: string)
    requires Trimmed(s)
    ensures RStrip(s) == s
  {
    RStripKeeps(s);
  }

  /** A line is malformed exactly when it is neither blank, comment nor continuation and lacks what its kind
      needs in front of any inline comment: the closing bracket, or a delimiter. */
  lemma MalformedIff(st: State, before: string, s: string, after: string, lineno: nat)
    requires Blank(before) && Blank(after) && Trimmed(s)
    requires lineno != 1 || !StartsWithBom(before + s + after)
    ensures ParseLine(st, before + s + after, lineno).1.Bad? <==>
              && s != "" && !Comment(s) && Starts(st, before)
              && if s[0] == '[' then Lacks(s[1..], "]") else Lacks(s, "=:")
    ensures ParseLine(st, before + s + after, lineno).1.Bad? ==> ParseLine(st, before + s + after, lineno).0 == st
  {
    hide ParseLine, Find, StartsWithBom, RStrip, ParseValue, Lacks;
    CoreDecides(st, before, s, after, lineno);
    FoundIffNotLacking(s, "=:");
    if s != "" {
      FoundIffNotLacking(s[1..], "]");
    }
  }

  /** A byte order mark in front of a text makes no difference. */
  lemma BomIsSkipped(bom: string, line: string)
    requires |bom| == 3 && StartsWithBom(bom)
    ensures ParseLine(START, bom + line, 1) == ParseLine(START, line, 2)
  {
    hide RStrip, LSkip, Find, ParseValue;
    assert (bom + line)[3..] == line;
  }

  // ----- files with comments -----------------------------------------------------------------

  /** A line that is blank or, behind its blanks, a comment. */
  predicate Ignorable(line: string) {
    LSkip(line) == "" || Comment(LSkip(line))
  }

  function WithoutComments(lines: seq<string>): seq<string> {
    if lines == [] then []
    else if Ignorable(lines[0]) then WithoutComments(lines[1..])
    else [lines[0]] + WithoutComments(lines[1..])
  }

  lemma IgnorableLine(st: State, line: string, lineno: nat)
    requires Ignorable(line) && (lineno != 1 || !StartsWithBom(line))
    ensures ParseLine(st, line, lineno) == (st, Nothing)
  {
    hide ParseLine, LSkip, StartsWithBom;
    var text := LSkip(line);
    var before := line[..|line| - |text|];
    assert line == before + text;
    CommentIsIgnored(st, before, text, lineno);
  }

  /** Blank lines and comments can be left out of a file, or put in anywhere. */
  lemma {:induction false} CommentsDoNotMatter(st: State, lines: seq<string>, a: nat, b: nat)
    requires (a > 0 && b > 0) || forall k :: 0 <= k < |lines| ==> !StartsWithBom(lines[k])
    ensures Calls(st, lines, a) == Calls(st, WithoutComments(lines), b)
    decreases |lines|
  {
    hide ParseLine, Calls, StartsWithBom, Ignorable;
    if lines == [] {
      NoCalls(st, a);
      NoCalls(st, b);
    } else {
      var line, rest := lines[0], lines[1..];
      CallsHead(st, lines, a);
      if Ignorable(line) {
        IgnorableLine(st, line, a + 1);
        CommentsDoNotMatter(st, rest, a + 1, b);
      } else {
        NumberIrrelevant(st, line, a + 1, b + 1);
        CallsHead(st, WithoutComments(lines), b);
        CommentsDoNotMatter(ParseLine(st, line, a + 1).0, rest, a + 1, b + 1);
      }
    }
  }

  /** In a file whose lines fit the buffer every comment is left out. */
  lemma FittingCommentsAreIgnored(lines: seq<string>)
    requires forall k :: 0 <= k < |lines| ==> FittingLine(lines[k]) && !StartsWithBom(lines[k])
    ensures FileCalls(Concat(lines)) == Calls(START, WithoutComments(lines), 0)
  {
    hide Calls, Lines, PiecesOf, WithoutComments, StartsWithBom, EndsOnce;
    TextIsPieces(lines);
    FittingLines(START, lines, 0, 0);
    CommentsDoNotMatter(START, lines, 0, 0);
  }

  // ----- the line that is reported -----------------------------------------------------------

  /** Line k is malformed, or the handler rejects its call. `n` calls were made before these lines. */
  ghost predicate Fails(st: State, lines: seq<string>, lineno: nat, accepts: nat -> bool, n: nat, k: nat)
    requires k < |lines|
  {
    var result := ParseLine(After(st, lines[..k], lineno), lines[k], lineno + k + 1).1;
    result.Bad? || (result.Called? && !accepts(n + |Calls(st, lines[..k], lineno)|))
  }

  lemma FailsLater(st: State, lines: seq<string>, lineno: nat, accepts: nat -> bool, n: nat, k: nat)
    requires 0 < k < |lines|
    ensures var (next, result) := ParseLine(st, lines[0], lineno + 1);
            Fails(st, lines, lineno, accepts, n, k)
              == Fails(next, lines[1..], lineno + 1, accepts, if result.Called? then n + 1 else n, k - 1)
  {
    hide ParseLine, Calls;
    assert lines[..k][1..] == lines[1..][..k - 1];
    CallsHead(st, lines[..k], lineno);
  }

  /** The parser's result is the number of the first line that is malformed or rejected, or zero without one. */
  lemma {:induction false} ErrorLineIsFirst(st: State, lines: seq<string>, lineno: nat, accepts: nat -> bool, n: nat)
    ensures var e := ErrorLine(st, lines, lineno, accepts, n);
            && (e == 0 <==> forall k :: 0 <= k < |lines| ==> !Fails(st, lines, lineno, accepts, n, k))
            && (e > 0 ==>
                  && lineno < e <= lineno + |lines| && Fails(st, lines, lineno, accepts, n, e - lineno - 1)
                  && forall k :: 0 <= k < e - lineno - 1 ==> !Fails(st, lines, lineno, accepts, n, k))
    decreases |lines|
  {
    hide ParseLine, Calls, Fails;
    if lines != [] {
      var (next, result) := ParseLine(st, lines[0], lineno + 1);
      FirstFails(st, lines, lineno, accepts, n);
      var m := if result.Called? then n + 1 else n;
      ErrorLineIsFirst(next, lines[1..], lineno + 1, accepts, m);
      forall k | 0 < k < |lines|
        ensures Fails(st, lines, lineno, accepts, n, k) == Fails(next, lines[1..], lineno + 1, accepts, m, k - 1)
      {
        FailsLater(st, lines, lineno, accepts, n, k);
      }
      var later := ErrorLine(next, lines[1..], lineno + 1, accepts, m);
      if later > 0 {
        FailsLater(st, lines, lineno, accepts, n, later - lineno - 1);
      }
    }
  }

  lemma FirstFails(st: State, lines: seq<string>, lineno: nat, accepts: nat -> bool, n: nat)
    requires lines != []
    ensures var result := ParseLine(st, lines[0], lineno + 1).1;
            Fails(st, lines, lineno, accepts, n, 0) <==> result.Bad? || (result.Called? && !accepts(n))
  {
    hide ParseLine;
    assert lines[..0] == [];
  }
}
