/** The parser of lib/inih/ini.c as it works: a line buffer that is cut in place, and the section and
    previous name kept in fixed buffers across lines. */
module Ini {
  import opened Prelude
  import opened IniText

  const NUL: char := '\0'

  /** There is a terminator at or after position i. */
  ghost predicate Terminated(b: seq<char>, i: nat) {
    exists k :: i <= k < |b| && b[k] == NUL
  }

  /** The C string that starts at position i. */
  function CStr(b: seq<char>, i: nat): (s: string)
    requires Terminated(b, i)
    ensures i + |s| < |b| && s == b[i..i + |s|] && b[i + |s|] == NUL && NUL !in s
    decreases |b| - i
  {
    if b[i] == NUL then "" else [b[i]] + CStr(b, i + 1)
  }

  lemma CStrIs(b: seq<char>, i: nat, s: string)
    requires i + |s| < |b| && s == b[i..i + |s|] && b[i + |s|] == NUL && NUL !in s
    ensures Terminated(b, i) && CStr(b, i) == s
    decreases |s|
  {
    assert b[i + |s|] == NUL;
    if s != "" {
      assert b[i] == s[0];
      CStrIs(b, i + 1, s[1..]);
    }
  }

  lemma CStrTail(b: seq<char>, i: nat, k: nat)
    requires Terminated(b, i) && k <= |CStr(b, i)|
    ensures Terminated(b, i + k) && CStr(b, i + k) == CStr(b, i)[k..]
  {
    var s := CStr(b, i);
    assert b[i + k..i + |s|] == s[k..];
    CStrIs(b, i + k, s[k..]);
  }

  /** A string is unchanged if the buffer is unchanged from its start on. */
  lemma KeptBehind(b: seq<char>, c: seq<char>, m: nat, i: nat)
    requires |b| == |c| && m <= i <= |b| && b[m..] == c[m..] && Terminated(b, i)
    ensures Terminated(c, i) && CStr(c, i) == CStr(b, i)
  {
    hide CStr;
    var str := CStr(b, i);
    assert b[i..i + |str|] == b[m..][i - m..i - m + |str|] == c[m..][i - m..i - m + |str|] == c[i..i + |str|];
    assert c[i + |str|] == c[m..][i - m + |str|];
    CStrIs(c, i, str);
  }

  /** A string is unchanged if the buffer is unchanged up to and including its terminator. */
  lemma KeptBefore(b: seq<char>, c: seq<char>, m: nat, i: nat)
    requires |b| == |c| && m <= |b| && b[..m] == c[..m] && Terminated(b, i) && i + |CStr(b, i)| < m
    ensures Terminated(c, i) && CStr(c, i) == CStr(b, i)
  {
    hide CStr;
    var str := CStr(b, i);
    assert b[i..i + |str|] == b[..m][i..i + |str|];
    assert c[i..i + |str|] == c[..m][i..i + |str|];
    var e := i + |str|;
    assert e < m && b[..m][e] == b[e] == NUL;
    assert c[..m][e] == c[e];
    CStrIs(c, i, str);
  }

  /** Writing a terminator ends the string there and starts another one behind it. */
  lemma CutAt(b: seq<char>, i: nat, n: nat)
    requires Terminated(b, i) && n <= |CStr(b, i)|
    ensures var c := b[i + n := NUL];
            && Terminated(c, i) && CStr(c, i) == CStr(b, i)[..n]
            && (n < |CStr(b, i)| ==> Terminated(c, i + n + 1) && CStr(c, i + n + 1) == CStr(b, i)[n + 1..])
  {
    hide CStr;
    var str, c := CStr(b, i), b[i + n := NUL];
    assert c[i..i + n] == str[..n];
    CStrIs(c, i, str[..n]);
    if n < |str| {
      assert c[i + n + 1..i + |str|] == str[n + 1..];
      CStrIs(c, i + n + 1, str[n + 1..]);
    }
  }

  // ----- in-place helpers --------------------------------------------------------------------

  method StrLen(buf: array<char>, s: nat) returns (n: nat)
    requires Terminated(buf[..], s)
    ensures n == |CStr(buf[..], s)|
  {
    ghost var str := CStr(buf[..], s);
    n := 0;
    while buf[s + n] != NUL
      invariant n <= |str|
      decreases |str| - n
    {
      assert n < |str|;
      n := n + 1;
    }
  }

  /** The text of a C string. */
  method Text(buf: array<char>, s: nat) returns (r: string)
    requires Terminated(buf[..], s)
    ensures r == CStr(buf[..], s)
  {
    var n := StrLen(buf, s);
    r := buf[s..s + n];
  }

  /** Ends the string at position e and leaves the rest behind it. */
  method CutInPlace(buf: array<char>, s: nat, e: nat)
    requires Terminated(buf[..], s) && s <= e < s + |CStr(buf[..], s)|
    modifies buf
    ensures buf[..s] == old(buf[..s])
    ensures Terminated(buf[..], s) && CStr(buf[..], s) == old(CStr(buf[..], s))[..e - s]
    ensures Terminated(buf[..], e + 1) && CStr(buf[..], e + 1) == old(CStr(buf[..], s))[e - s + 1..]
  {
    hide CStr;
    CutAt(buf[..], s, e - s);
    ghost var cut := buf[..][e := NUL];
    buf[e] := NUL;
    assert buf[..] == cut;
  }

  /** Writes terminators over the whitespace at the end of n characters. */
  method BlankTail(buf: array<char>, s: nat, n: nat) returns (p: nat)
    requires s + n < buf.Length && buf[s + n] == NUL
    modifies buf
    ensures p <= n && buf[s + p] == NUL && (p > 0 ==> !IsSpace(old(buf[s + p - 1])))
    ensures forall k :: s + p <= k < s + n ==> IsSpace(old(buf[k]))
    ensures forall k :: 0 <= k < buf.Length && !(s + p <= k < s + n) ==> buf[k] == old(buf[k])
  {
    p := n;
    while p > 0 && IsSpace(buf[s + p - 1])
      invariant p <= n && buf[s + p] == NUL
      invariant forall k :: s + p <= k < s + n ==> IsSpace(old(buf[k]))
      invariant forall k :: 0 <= k < buf.Length && !(s + p <= k < s + n) ==> buf[k] == old(buf[k])
    {
      p := p - 1;
      buf[s + p] := NUL;
    }
  }

  /** Strips whitespace off the end, writing terminators over it. */
  method RStripInPlace(buf: array<char>, s: nat)
    requires Terminated(buf[..], s)
    modifies buf
    ensures Terminated(buf[..], s) && CStr(buf[..], s) == RStrip(old(CStr(buf[..], s)))
    ensures buf[..s] == old(buf[..s])
    ensures var m := s + |old(CStr(buf[..], s))|; buf[m..] == old(buf[m..])
  {
    hide CStr, RStrip;
    ghost var was, str := buf[..], CStr(buf[..], s);
    var n := StrLen(buf, s);
    var p := BlankTail(buf, s, n);
    StripsTo(was, s, p);
    assert buf[s..s + p] == str[..p];
    CStrIs(buf[..], s, str[..p]);
  }

  /** A string whose whitespace begins at its p-th character. */
  lemma StripsTo(b: seq<char>, s: nat, p: nat)
    requires Terminated(b, s) && p <= |CStr(b, s)| && (p > 0 ==> !IsSpace(b[s + p - 1]))
    requires forall k :: s + p <= k < s + |CStr(b, s)| ==> IsSpace(b[k])
    ensures RStrip(CStr(b, s)) == CStr(b, s)[..p]
  {
    hide CStr, RStrip;
    var str := CStr(b, s);
    assert forall k :: 0 <= k < |str| ==> str[k] == b[s + k];
    assert forall k :: 0 <= k < |str| - p ==> str[p..][k] == b[s + p + k];
    assert str == str[..p] + str[p..];
    RStripDrops(str[..p], str[p..]);
    assert p > 0 ==> str[..p][p - 1] == b[s + (p - 1)];
    RStripKeeps(str[..p]);
  }

  /** The position of the first character that is no whitespace. */
  method LSkipFrom(buf: array<char>, s: nat) returns (j: nat)
    requires Terminated(buf[..], s)
    ensures s <= j && Terminated(buf[..], j)
    ensures CStr(buf[..], j) == LSkip(CStr(buf[..], s))
    ensures j == s + |CStr(buf[..], s)| - |CStr(buf[..], j)|
  {
    hide CStr;
    ghost var str := CStr(buf[..], s);
    j := s;
    assert str[0..] == str;
    while buf[j] != NUL && IsSpace(buf[j])
      invariant s <= j <= s + |str| && Terminated(buf[..], j)
      invariant CStr(buf[..], j) == str[j - s..] && LSkip(str) == LSkip(str[j - s..])
      decreases s + |str| - j
    {
      CStrTail(buf[..], s, j + 1 - s);
      assert str[j - s..][1..] == str[j + 1 - s..];
      j := j + 1;
    }
    assert str[j - s..] != "" ==> str[j - s..][0] == buf[j];
    LSkipKeeps(str[j - s..]);
  }

  /** The position of the first of the characters, of an inline comment, or of the terminator. */
  method FindCharsOrComment(buf: array<char>, s: nat, chars: string) returns (e: nat)
    requires Terminated(buf[..], s)
    ensures e == s + Find(CStr(buf[..], s), chars)
  {
    hide CStr;
    ghost var str := CStr(buf[..], s);
    var wasSpace := false;
    e := s;
    while buf[e] != NUL && buf[e] !in chars && !(wasSpace && buf[e] == ';')
      invariant s <= e <= s + |str|
      invariant Find(str, chars) == FindFrom(str, chars, e - s, wasSpace)
      decreases s + |str| - e
    {
      assert e < s + |str| && str[e - s] == buf[e];
      wasSpace := IsSpace(buf[e]);
      e := e + 1;
    }
    assert e < s + |str| ==> str[e - s] == buf[e];
  }

  /** Copies a string, cut to the size of the destination. */
  method StrNCpy0(dest: array<char>, buf: array<char>, s: nat)
    requires dest != buf && dest.Length > 0 && Terminated(buf[..], s)
    modifies dest
    ensures Terminated(dest[..], 0) && CStr(dest[..], 0) == Truncated(CStr(buf[..], s), dest.Length)
  {
    hide CStr;
    ghost var str := CStr(buf[..], s);
    var i: nat := 0;
    while i < dest.Length - 1 && buf[s + i] != NUL
      invariant i <= |str| && i <= dest.Length - 1 && dest[..i] == str[..i]
    {
      assert i < |str| && str[i] == buf[s + i];
      dest[i] := buf[s + i];
      i := i + 1;
    }
    assert i < |str| ==> str[i] == buf[s + i] && str[i] in str;
    dest[i] := NUL;
    assert dest[0..i] == str[..i];
    CStrIs(dest[..], 0, str[..i]);
    assert i == |str| ==> str[..i] == str;
  }

  // ----- the reader --------------------------------------------------------------------------

  /** ini_parse_string_ctx; fgets behaves the same way on a file. */
  class StringReader {
    const text: string
    var pos: nat

    ghost predicate Valid()
      reads this
    {
      pos <= |text|
    }

    ghost function Left(): string
      reads this
      requires Valid()
    {
      text[pos..]
    }

    constructor (text: string)
      ensures Valid() && this.text == text && pos == 0
    {
      this.text := text;
      this.pos := 0;
    }

    /** Reads the next chunk into a buffer, with its terminator. */
    method Read(str: array<char>, num: nat) returns (ok: bool)
      requires Valid() && num <= str.Length
      modifies this`pos, str
      ensures Valid()
      ensures ok <==> old(Left()) != "" && num >= 2
      ensures !ok ==> Left() == old(Left())
      ensures ok ==> var n := ChunkLength(old(Left()), num);
                     && Left() == old(Left())[n..]
                     && Terminated(str[..], 0) && CStr(str[..], 0) == UpToNul(old(Left())[..n])
    {
      hide CStr, Terminated;
      if |text| - pos == 0 || num < 2 {
        return false;
      }
      ghost var all, start := text[pos..], pos;
      ghost var n := ChunkLength(all, num);
      var left := num;
      var i: nat := 0;
      var newline := false;
      while left > 1 && pos < |text| && !newline
        invariant i <= n && pos == start + i && left >= 1 && pos <= |text|
        invariant str[..i] == all[..i] && i < str.Length
        invariant newline ==> i == n
        invariant !newline ==> left == num - i && n == i + (if left >= 2 then ChunkLength(all[i..], left) else 0)
        decreases |text| - pos, if newline then 0 else 1
      {
        var c := text[pos];
        assert c == all[i] == all[i..][0];
        assert all[i..][1..] == all[i + 1..];
        pos := pos + 1;
        str[i] := c;
        i := i + 1;
        if c == '\n' {
          newline := true;
        } else {
          left := left - 1;
        }
      }
      str[i] := NUL;
      BufferHolds(str[..], all[..i]);
      ok := true;
    }
  }

  /** The C string in a buffer after a read. */
  lemma BufferHolds(b: seq<char>, chunk: string)
    requires |chunk| < |b| && b[..|chunk|] == chunk && b[|chunk|] == NUL
    ensures Terminated(b, 0) && CStr(b, 0) == UpToNul(chunk)
  {
    hide CStr;
    var n := IndexOf(chunk, NUL);
    assert b[0..n] == b[..|chunk|][..n] == chunk[..n];
    assert n < |chunk| ==> b[n] == b[..|chunk|][n];
    CStrIs(b, 0, chunk[..n]);
  }

  // ----- the parser --------------------------------------------------------------------------

  /** The state that ini_parse_stream keeps across lines. */
  class Parser {
    const line: array<char>
    const section: array<char>
    const prevName: array<char>

    ghost predicate Valid()
      reads this, line, section, prevName
    {
      && line.Length == MAX_LINE && section.Length == MAX_SECTION && prevName.Length == MAX_NAME
      && line != section && line != prevName && section != prevName
      && Terminated(section[..], 0) && Terminated(prevName[..], 0)
    }

    ghost function View(): State
      reads this, line, section, prevName
      requires Valid()
    {
      State(CStr(section[..], 0), CStr(prevName[..], 0))
    }

    constructor ()
      ensures Valid() && View() == START
      ensures fresh(line) && fresh(section) && fresh(prevName)
    {
      line := new char[MAX_LINE];
      section := new char[MAX_SECTION];
      prevName := new char[MAX_NAME];
      new;
      section[0] := NUL;
      prevName[0] := NUL;
      CStrIs(section[..], 0, "");
      CStrIs(prevName[..], 0, "");
    }

    /** A "[section]" line, from behind its bracket. */
    method SectionLine(start: nat) returns (result: IniText.Result)
      requires Valid() && Terminated(line[..], start)
      modifies line, section, prevName
      ensures Valid()
      ensures (View(), result) == ParseSection(old(View()), old(CStr(line[..], start)))
    {
      hide CStr, FindFrom, Truncated;
      ghost var s := CStr(line[..], start);
      var end := FindCharsOrComment(line, start, "]");
      ghost var n := end - start;
      assert line[end] == if n < |s| then s[n] else NUL;
      if line[end] == ']' {
        CutInPlace(line, start, end);
        StrNCpy0(section, line, start);
        prevName[0] := NUL;
        CStrIs(prevName[..], 0, "");
        result := Nothing;
        assert View() == State(Truncated(s[..n], MAX_SECTION), "");
      } else {
        result := Bad;
      }
    }

    /** Removes an inline comment from the value text. */
    method CutComment(from: nat)
      requires Terminated(line[..], from)
      modifies line
      ensures Terminated(line[..], from) && line[..from] == old(line[..from])
      ensures var raw := old(CStr(line[..], from)); CStr(line[..], from) == raw[..Find(raw, "")]
    {
      hide CStr, FindFrom, Terminated;
      var end := FindCharsOrComment(line, from, "");
      CutAt(line[..], from, end - from);
      ghost var cut := line[..][end := NUL];
      if line[end] != NUL {
        line[end] := NUL;
      }
      assert line[..] == cut;
    }

    /** Removes an inline comment from the value text, then the whitespace around it. */
    method ValuePart(from: nat) returns (value: nat)
      requires Terminated(line[..], from)
      modifies line
      ensures value >= from && Terminated(line[..], value) && line[..from] == old(line[..from])
      ensures CStr(line[..], value) == ParseValue(old(CStr(line[..], from)))
    {
      hide CStr, Find, RStrip, LSkip;
      CutComment(from);
      ghost var cut := line[..];
      value := LSkipFrom(line, from);
      RStripInPlace(line, value);
      PrefixOfPrefix(cut, line[..], value, from);
    }

    /** Ends the name at the delimiter and strips it; the value text starts behind. */
    method NamePart(start: nat, end: nat)
      requires Terminated(line[..], start) && start <= end < start + |CStr(line[..], start)|
      modifies line
      ensures Terminated(line[..], start) && start + |CStr(line[..], start)| <= end
      ensures CStr(line[..], start) == RStrip(old(CStr(line[..], start))[..end - start])
      ensures Terminated(line[..], end + 1)
      ensures CStr(line[..], end + 1) == old(CStr(line[..], start))[end - start + 1..]
    {
      hide CStr, RStrip, Terminated;
      CutInPlace(line, start, end);
      ghost var cut := line[..];
      RStripInPlace(line, start);
      KeptBehind(cut, line[..], end, end + 1);
    }

    /** The name in front of the value text, and the value in it. */
    method Pair(start: nat, from: nat) returns (name: string, value: string)
      requires Terminated(line[..], start) && start + |CStr(line[..], start)| < from && Terminated(line[..], from)
      modifies line
      ensures name == old(CStr(line[..], start)) && value == ParseValue(old(CStr(line[..], from)))
      ensures Terminated(line[..], start) && CStr(line[..], start) == name
    {
      hide CStr, ParseValue;
      ghost var before := line[..];
      var at := ValuePart(from);
      KeptBefore(before, line[..], from, start);
      name := Text(line, start);
      value := Text(line, at);
    }

    /** Both parts of a name-value line with its delimiter at `end`. */
    method SplitPair(start: nat, end: nat) returns (name: string, value: string)
      requires Terminated(line[..], start) && start <= end < start + |CStr(line[..], start)|
      modifies line
      ensures var s, n := old(CStr(line[..], start)), end - start;
              name == RStrip(s[..n]) && value == ParseValue(s[n + 1..])
      ensures Terminated(line[..], start) && CStr(line[..], start) == name
    {
      hide CStr, ParseValue, RStrip;
      NamePart(start, end);
      name, value := Pair(start, end + 1);
    }

    /** A name-value line whose text starts at `start`. */
    method PairLine(start: nat) returns (result: IniText.Result)
      requires Valid() && Terminated(line[..], start)
      modifies line, prevName
      ensures Valid()
      ensures (View(), result) == ParsePair(old(View()), old(CStr(line[..], start)))
    {
      hide CStr, FindFrom, RStrip, ParseValue, Truncated;
      ghost var s := CStr(line[..], start);
      var end := FindCharsOrComment(line, start, "=:");
      ghost var n := end - start;
      assert line[end] == if n < |s| then s[n] else NUL;
      if line[end] == '=' || line[end] == ':' {
        var name, text := SplitPair(start, end);
        StrNCpy0(prevName, line, start);
        var sectionText := Text(section, 0);
        result := Called(Call(sectionText, name, text));
      } else {
        result := Bad;
      }
    }

    /** A stripped line, from its first character on. */
    method StrippedLine(start: nat) returns (result: IniText.Result)
      requires Valid() && Terminated(line[..], start)
      modifies line, section, prevName
      ensures Valid()
      ensures (View(), result) == ParseStripped(old(View()), old(CStr(line[..], start)), start > 0)
    {
      hide CStr, ParseSection, ParsePair;
      ghost var st, s := View(), CStr(line[..], start);
      assert line[start] == if s == "" then NUL else s[0];
      assert prevName[0] == if st.prevName == "" then NUL else st.prevName[0];
      if line[start] == NUL || line[start] == ';' || line[start] == '#' {
        result := Nothing;
      } else if prevName[0] != NUL && start > 0 {
        var sectionText := Text(section, 0);
        var name := Text(prevName, 0);
        var value := Text(line, start);
        result := Called(Call(sectionText, name, value));
      } else if line[start] == '[' {
        CStrTail(line[..], start, 1);
        result := SectionLine(start + 1);
      } else {
        result := PairLine(start);
      }
    }

    /** One line of the loop in ini_parse_stream. */
    method ParseLine(lineno: nat) returns (result: IniText.Result)
      requires Valid() && Terminated(line[..], 0)
      modifies line, section, prevName
      ensures Valid()
      ensures (View(), result) == IniText.ParseLine(old(View()), old(CStr(line[..], 0)), lineno)
    {
      hide CStr, RStrip, LSkip, ParseStripped, StartsWithBom;
      var start := SkipBom(lineno);
      RStripInPlace(line, start);
      start := LSkipFrom(line, start);
      result := StrippedLine(start);
    }

    /** A byte order mark at the start of the first line is passed over. */
    method SkipBom(lineno: nat) returns (start: nat)
      requires Valid() && Terminated(line[..], 0)
      ensures var str := CStr(line[..], 0);
              var bom := lineno == 1 && StartsWithBom(str);
              && start == (if bom then 3 else 0)
              && Terminated(line[..], start) && CStr(line[..], start) == if bom then str[3..] else str
    {
      hide CStr;
      ghost var str := CStr(line[..], 0);
      assert forall k :: 0 <= k < |str| ==> str[k] == line[k];
      assert line[|str|] == NUL;
      start := 0;
      if lineno == 1 && line[0] as int == 0xEF && line[1] as int == 0xBB && line[2] as int == 0xBF {
        CStrTail(line[..], 0, 3);
        start := 3;
      }
    }

    /** Reads the next line into the buffer. */
    method NextLine(reader: StringReader) returns (more: bool)
      requires Valid() && reader.Valid()
      modifies line, reader
      ensures Valid() && reader.Valid() && View() == old(View())
      ensures more ==> Terminated(line[..], 0)
      ensures Lines(old(reader.Left())) == if more then [CStr(line[..], 0)] + Lines(reader.Left()) else []
      ensures more ==> reader.pos > old(reader.pos)
      ensures !more ==> reader.pos == old(reader.pos)
    {
      hide CStr, ChunkLength, UpToNul;
      ghost var left := reader.Left();
      more := reader.Read(line, MAX_LINE);
    }

    /** Calls the handler for a line that has a value, and keeps the number of the first line in error. */
    method Report(result: IniText.Result, lineno: nat, accepts: nat -> bool, made: seq<Call>, found: nat)
      returns (calls: seq<Call>, error: nat)
      ensures calls == made + if result.Called? then [result.call] else []
      ensures error == if found == 0 && (result.Bad? || (result.Called? && !accepts(|made|))) then lineno else found
    {
      calls, error := made, found;
      if result.Called? {
        if !accepts(|calls|) && error == 0 {
          error := lineno;
        }
        calls := calls + [result.call];
      } else if result.Bad? && error == 0 {
        error := lineno;
      }
    }

    /** ini_parse_stream. `accepts` is the handler's verdict on its n-th call. */
    method ParseStream(reader: StringReader, accepts: nat -> bool) returns (error: nat, calls: seq<Call>)
      requires Valid() && View() == START && reader.Valid() && reader.pos == 0
      modifies line, section, prevName, reader
      ensures calls == Calls(START, Lines(reader.text), 0)
      ensures error == ErrorLine(START, Lines(reader.text), 0, accepts, 0)
    {
      hide CStr, IniText.ParseLine, Lines, Terminated, Calls, ErrorLine, Underway;
      ghost var all := Lines(reader.text);
      assert reader.Left() == reader.text;
      calls, error := [], 0;
      var lineno: nat := 0;
      var more := NextLine(reader);
      ghost var left := all;
      Starts(all, accepts);
      while more
        invariant Valid() && reader.Valid()
        invariant more ==> Terminated(line[..], 0)
        invariant left == if more then [CStr(line[..], 0)] + Lines(reader.Left()) else []
        invariant Underway(all, accepts, calls, error, View(), left, lineno)
        decreases |reader.text| - reader.pos + if more then 1 else 0
      {
        ghost var st := View();
        lineno := lineno + 1;
        var result := ParseLine(lineno);
        Advances(all, accepts, calls, error, st, left, lineno - 1);
        left := left[1..];
        assert left == Lines(reader.Left());
        calls, error := Report(result, lineno, accepts, calls, error);
        more := NextLine(reader);
      }
      Ends(all, accepts, calls, error, View(), lineno);
    }
  }

  /** With these calls made and this error found, parsing what is left completes the parsing of all. */
  ghost predicate Underway(all: seq<string>, accepts: nat -> bool, calls: seq<Call>, error: nat,
                           st: State, left: seq<string>, lineno: nat)
  {
    && Calls(START, all, 0) == calls + Calls(st, left, lineno)
    && ErrorLine(START, all, 0, accepts, 0)
       == if error != 0 then error else ErrorLine(st, left, lineno, accepts, |calls|)
  }

  lemma Starts(all: seq<string>, accepts: nat -> bool)
    ensures Underway(all, accepts, [], 0, START, all, 0)
  {
    hide Calls, ErrorLine;
  }

  lemma Ends(all: seq<string>, accepts: nat -> bool, calls: seq<Call>, error: nat, st: State, lineno: nat)
    requires Underway(all, accepts, calls, error, st, [], lineno)
    ensures calls == Calls(START, all, 0) && error == ErrorLine(START, all, 0, accepts, 0)
  {
    hide Calls, ErrorLine;
    CallsEnd(st, lineno, accepts, |calls|);
  }

  lemma Advances(all: seq<string>, accepts: nat -> bool, calls: seq<Call>, error: nat,
                 st: State, left: seq<string>, lineno: nat)
    requires left != [] && Underway(all, accepts, calls, error, st, left, lineno)
    ensures var (next, result) := IniText.ParseLine(st, left[0], lineno + 1);
            Underway(all, accepts,
                     calls + if result.Called? then [result.call] else [],
                     if error == 0 && (result.Bad? || (result.Called? && !accepts(|calls|))) then lineno + 1 else error,
                     next, left[1..], lineno + 1)
  {
    hide IniText.ParseLine, Calls, ErrorLine;
    CallsStep(st, left, lineno, accepts, |calls|);
  }

  lemma CallsEnd(st: State, lineno: nat, accepts: nat -> bool, n: nat)
    ensures Calls(st, [], lineno) == [] && ErrorLine(st, [], lineno, accepts, n) == 0
  {
  }

  lemma CallsStep(st: State, lines: seq<string>, lineno: nat, accepts: nat -> bool, n: nat)
    requires lines != []
    ensures var (next, result) := IniText.ParseLine(st, lines[0], lineno + 1);
            && Calls(st, lines, lineno)
               == (if result.Called? then [result.call] else []) + Calls(next, lines[1..], lineno + 1)
            && ErrorLine(st, lines, lineno, accepts, n)
               == (if result.Bad? || (result.Called? && !accepts(n)) then lineno + 1
                   else ErrorLine(next, lines[1..], lineno + 1, accepts, if result.Called? then n + 1 else n))
  {
  }

  lemma PrefixOfPrefix(b: seq<char>, c: seq<char>, m: nat, i: nat)
    requires i <= m <= |b| && m <= |c| && b[..m] == c[..m]
    ensures b[..i] == c[..i]
  {
    assert b[..i] == b[..m][..i] == c[..m][..i] == c[..i];
  }
}
