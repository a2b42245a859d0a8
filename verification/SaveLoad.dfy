/** Saving a configuration and loading it again (daemon/x52d_config_dump.c, daemon/x52d_config_parser.c,
    lib/inih/ini.c): what the saved text is read as, and exactly when the configuration comes back. */
module SaveLoad {
  import opened Prelude
  import opened IniText
  import opened Numbers
  import opened Config
  import opened ConfigStore

  // ----- printed values ----------------------------------------------------------------------

  /** Text that any line can carry: no ';', no newline, no whitespace at the ends. */
  ghost predicate Tidy(s: string) {
    && s != "" && !IsSpace(s[0]) && !IsSpace(s[|s| - 1])
    && forall i :: 0 <= i < |s| ==> s[i] != ';' && s[i] != '\n' && s[i] != '\0'
  }

  lemma TidyIsClean(s: string)
    requires Tidy(s)
    ensures Clean(s) && OneLine(s)
  {
  }

  lemma {:induction false} PrintNatLength(n: nat, k: nat)
    requires k > 0 && n < Pow10(k)
    ensures |PrintNat(n)| <= k
    decreases k
  {
    if n >= 10 {
      assert k > 1 && n / 10 < Pow10(k - 1);
      PrintNatLength(n / 10, k - 1);
    }
  }

  function Pow10(k: nat): nat {
    if k == 0 then 1 else 10 * Pow10(k - 1)
  }

  lemma PrintIntTidy(n: int)
    requires IsInt(n)
    ensures Tidy(PrintInt(n)) && |PrintInt(n)| <= 11
  {
    var m: nat := if n < 0 then -n else n;
    assert Pow10(5) == 100000;
    assert Pow10(10) == 100000 * Pow10(5);
    PrintNatLength(m, 10);
  }

  lemma NameTidy(names: seq<string>, n: int, unknown: string)
    requires IsInt(n) && (forall i :: 0 <= i < |names| ==> Tidy(names[i]) && |names[i]| <= 40)
    requires 0 < |unknown| <= 29 && !IsSpace(unknown[0])
    requires forall i :: 0 <= i < |unknown| ==> unknown[i] != ';' && unknown[i] != '\n' && unknown[i] != '\0'
    ensures Tidy(NameOr(names, n, unknown)) && |NameOr(names, n, unknown)| <= 40
  {
    PrintIntTidy(n);
  }

  lemma DumpTidy(kind: Kind, v: Value)
    requires Typed(kind, v) && kind != StringKind
    ensures Tidy(Dump(kind, v)) && |Dump(kind, v)| <= 40
  {
    hide PrintInt, NameOr;
    match kind
    case BoolKind =>
    case IntKind => PrintIntTidy(v.n);
    case LedKind => NameTidy(LED_NAMES, v.n, "Unknown LED state ");
    case ClockFormatKind => NameTidy(CLOCK_NAMES, v.n, "Unknown clock format ");
    case DateFormatKind => NameTidy(DATE_NAMES, v.n, "Unknown date format ");
  }

  lemma StringDump(v: Value)
    requires Typed(StringKind, v)
    ensures Dump(StringKind, v) == v.text
  {
  }

  // ----- the lines of the saved text ---------------------------------------------------------

  function StringLine(i: nat, text: string): string
    requires i < KEYS
  {
    PairLine(Entry(i).key, text)
  }

  /** Every string is one line. */
  ghost predicate OneLiners(store: Store)
    requires WellTyped(store)
  {
    forall i :: 0 <= i < KEYS && Entry(i).kind == StringKind ==> OneLine(store[i].text)
  }

  /** The line of every string is at most as long as the parser's buffer. */
  ghost predicate Fitting(store: Store)
    requires WellTyped(store)
  {
    forall i :: 0 <= i < KEYS && Entry(i).kind == StringKind ==> |StringLine(i, store[i].text)| <= MAX_LINE
  }

  lemma EntryDump(store: Store, i: nat)
    requires WellTyped(store) && OneLiners(store) && i < KEYS
    ensures OneLine(Dump(Entry(i).kind, store[i]))
    ensures Entry(i).kind != StringKind ==> |Dump(Entry(i).kind, store[i])| <= 40
    ensures Entry(i).kind == StringKind ==> Dump(Entry(i).kind, store[i]) == store[i].text
  {
    hide Entry, Dump;
    if Entry(i).kind != StringKind {
      DumpTidy(Entry(i).kind, store[i]);
    } else {
      StringDump(store[i]);
    }
  }

  lemma PairLineEnds(name: string, value: string)
    requires OneLine(name) && OneLine(value)
    ensures EndsOnce(PairLine(name, value))
    ensures |PairLine(name, value)| == |name| + |value| + 4
  {
    var line := PairLine(name, value);
    assert line[..|line| - 1] == name + " = " + value;
  }

  lemma PlainStart(i: nat, rest: string)
    requires i < KEYS
    ensures !StartsWithBom(Entry(i).key + rest)
  {
    hide Entry;
    EntriesPlain(i);
    assert (Entry(i).key + rest)[0] == Entry(i).key[0];
  }

  lemma EntryEnds(store: Store, i: nat)
    requires WellTyped(store) && OneLiners(store) && i < KEYS
    ensures forall k :: 0 <= k < |EntryLines(store, i)| ==>
              && EndsOnce(EntryLines(store, i)[k]) && !StartsWithBom(EntryLines(store, i)[k])
              && (Fitting(store) ==> |EntryLines(store, i)[k]| <= MAX_LINE)
  {
    hide Entry, Dump, OpensSection, CleanName, EndsOnce, StartsWithBom, HeaderLine, PairLine;
    var name, value := Entry(i).key, Dump(Entry(i).kind, store[i]);
    EntriesPlain(i);
    PlainIsClean(i);
    HeaderLineFull(Entry(i).section);
    HeaderNoBom(Entry(i).section);
    EntryDump(store, i);
    PairLineEnds(name, value);
    PairNoBom(i, value);
  }

  lemma PairNoBom(i: nat, value: string)
    requires i < KEYS
    ensures !StartsWithBom(PairLine(Entry(i).key, value))
  {
    hide Entry;
    PlainStart(i, " = " + value + "\n");
    assert PairLine(Entry(i).key, value) == Entry(i).key + (" = " + value + "\n");
  }

  lemma {:induction false} SavedLinesEnd(store: Store, n: nat)
    requires WellTyped(store) && OneLiners(store) && n <= KEYS
    ensures forall k :: 0 <= k < |SaveLines(store, 0, n)| ==>
              && EndsOnce(SaveLines(store, 0, n)[k]) && !StartsWithBom(SaveLines(store, 0, n)[k])
              && (Fitting(store) ==> |SaveLines(store, 0, n)[k]| <= MAX_LINE)
  {
    hide Entry, EntryLines, EndsOnce, StartsWithBom, Typed, OneLiners, Fitting;
    if n > 0 {
      SavedLinesEnd(store, n - 1);
      EntryEnds(store, n - 1);
    }
  }

  /** A saved file whose strings are one line each and fit is parsed to one call per key, in order, under
      its own section. */
  lemma SavedFileReadsBack(store: Store)
    requires WellTyped(store) && OneLiners(store) && Fitting(store)
    ensures FileCalls(SaveText(store)) == ReadBacks(store, 0, KEYS)
  {
    hide Entry, EntryLines, EndsOnce, StartsWithBom, Typed, OneLiners, Fitting, SaveLines, Calls, Lines, Concat;
    var lines := SaveLines(store, 0, KEYS);
    SavedLinesEnd(store, KEYS);
    TextIsPieces(lines);
    FittingLines(START, lines, 0, 0);
    SaveReadsBack(store, START, 0, KEYS, 0);
  }

  // ----- loading what was saved --------------------------------------------------------------

  /** Defaults, then the file with this text. */
  function LoadText(text: string): Store {
    AssignAll(Defaults(), FileCalls(text))
  }

  lemma {:induction false} ReadBacksLast(store: Store, m: nat, n: nat, i: nat)
    requires WellTyped(store) && m <= n <= KEYS && i < KEYS
    ensures Last(ReadBacks(store, m, n), i)
         == if m <= i < n then Parse(Entry(i).kind, ReadBack(store, i).value) else None
    decreases n
  {
    hide Entry, Parse, KeyIndex, ParseValue, RStrip, Dump, Typed;
    if n > m {
      ReadBacksLast(store, m, n - 1, i);
      var init := ReadBacks(store, m, n - 1);
      assert (init + [ReadBack(store, n - 1)])[..|init|] == init;
      OwnIndex(n - 1);
    }
  }

  /** The value of a field comes back when it is alone in doubt: strings are clean, clock formats the default
      one, LED states and the date format known. */
  ghost predicate Redeems(i: nat, v: Value)
    requires i < KEYS && Typed(Entry(i).kind, v)
  {
    match Entry(i).kind
    case StringKind => Clean(v.text)
    case ClockFormatKind => v == Number(0)
    case kind => Redeemable(kind, v)
  }

  lemma FieldComesBack(store: Store, i: nat)
    requires WellTyped(store) && OneLiners(store) && i < KEYS
    ensures Or(Parse(Entry(i).kind, ReadBack(store, i).value), DefaultValue(i)) == store[i] <==> Redeems(i, store[i])
  {
    hide Entry, ParseValue, RStrip, Clean, OneLine;
    var kind, v := Entry(i).kind, store[i];
    ValueReadsBackIffClean(Dump(kind, v));
    if kind == StringKind {
      ReadBackLength(v.text);
    } else {
      DumpTidy(kind, v);
      TidyIsClean(Dump(kind, v));
      DumpParses(kind, v);
    }
  }

  lemma ReadBackLength(s: string)
    ensures |ParseValue(RStrip(" " + s))| <= |s|
  {
    hide RStrip, LSkip, FindFrom;
    var raw := RStrip(" " + s);
    var cut := raw[..Find(raw, "")];
    if cut != "" {
      assert cut[0] == raw[0] == (" " + s)[0] == ' ';
      SkipsSpace(cut);
    }
  }

  /** With strings that are one line each and fit, each field comes back on its own. */
  lemma FittingComesBack(store: Store)
    requires WellTyped(store) && OneLiners(store) && Fitting(store)
    ensures LoadText(SaveText(store)) == store <==> forall i :: 0 <= i < KEYS ==> Redeems(i, store[i])
  {
    hide Entry, Typed, Redeems, OneLiners, Fitting, Parse, DefaultValue, FileCalls, SaveText, AssignAll, Last, ReadBack;
    SavedFileReadsBack(store);
    var loaded := LoadText(SaveText(store));
    forall i | 0 <= i < KEYS
      ensures loaded[i] == store[i] <==> Redeems(i, store[i])
    {
      AssignAllSlot(Defaults(), ReadBacks(store, 0, KEYS), i);
      ReadBacksLast(store, 0, KEYS, i);
      FieldComesBack(store, i);
    }
    assert loaded == store <==> forall i :: 0 <= i < KEYS ==> loaded[i] == store[i];
  }

  // ----- strings that are more than one line --------------------------------------------------

  lemma {:induction false} LastOneLine(calls: seq<Call>, i: nat)
    requires i < KEYS && Entry(i).kind == StringKind && forall k :: 0 <= k < |calls| ==> OneLine(calls[k].value)
    ensures Last(calls, i).Some? ==> Last(calls, i).value.Chars? && OneLine(Last(calls, i).value.text)
  {
    hide Entry, KeyIndex;
    if calls != [] {
      LastOneLine(calls[..|calls| - 1], i);
    }
  }

  lemma DefaultFits(i: nat)
    requires i < KEYS
    ensures Typed(Entry(i).kind, DefaultValue(i))
    ensures Entry(i).kind == StringKind ==> OneLine(DefaultValue(i).text) && |DefaultValue(i).text| < 25
  {
    hide Entry, OneLine;
    StringDefaults(i);
    DirectoryFits();
  }

  lemma DirectoryFits()
    ensures OneLine("UTC") && '\0' !in "UTC"
    ensures OneLine("/etc/x52d/profiles.d") && '\0' !in "/etc/x52d/profiles.d"
  {
  }

  /** Whatever a file contains, a string that is loaded is one line. */
  lemma LoadedStringOneLine(text: string, i: nat)
    requires i < KEYS && Entry(i).kind == StringKind
    ensures LoadText(text)[i].Chars? && OneLine(LoadText(text)[i].text)
  {
    hide Entry, OneLine, FileCalls, AssignAll, Last, DefaultValue;
    FileCallsOneLine(text);
    AssignAllSlot(Defaults(), FileCalls(text), i);
    LastOneLine(FileCalls(text), i);
    DefaultFits(i);
  }

  // ----- strings whose line is too long ------------------------------------------------------

  /** No call for key i that this line can cause has a value of n or more characters. */
  ghost predicate ShortFor(i: nat, n: nat, line: string) {
    forall st: State, a: nat {:trigger ParseLine(st, line, a)} ::
      var result := ParseLine(st, line, a).1;
      result.Called? && KeyIndex(result.call.section, result.call.name, 0) == i ==> |result.call.value| < n
  }

  lemma ShortLine(i: nat, n: nat, line: string)
    requires Seen(line) && |line| < n
    ensures ShortFor(i, n, line)
  {
    hide ParseLine, KeyIndex, Seen;
    forall st: State, a: nat
      ensures ParseLine(st, line, a).1.Called? ==> |ParseLine(st, line, a).1.call.value| < n
    {
      ParseLineOneLine(st, line, a);
    }
  }

  /** The start of an entry's line, and the call it makes. */
  lemma PairStart(st: State, j: nat, v: string, a: nat)
    requires j < KEYS
    ensures ParseLine(st, Entry(j).key + " = " + v, a).1
         == Called(Call(st.section, Entry(j).key, ParseValue(RStrip(" " + v))))
    ensures ParseLine(st, PairLine(Entry(j).key, v), a).1
         == Called(Call(st.section, Entry(j).key, ParseValue(RStrip(" " + v))))
    ensures ParseLine(st, Entry(j).key + " = " + v, a).0.section == st.section
  {
    hide Entry, ParseLine, ParseValue, RStrip, StartsWithBom, CleanName, PairLine;
    var key := Entry(j).key;
    var body := key + " = " + v;
    PlainIsClean(j);
    PlainStart(j, " = " + v);
    assert body == key + (" = " + v);
    PairNoBom(j, v);
    assert PairLine(key, v) == body + "\n" by {
      PairBody(key, v);
    }
    PairReadsBack(st, key, v, 2);
    NumberIrrelevant(st, PairLine(key, v), a, 2);
    WithoutNewline(st, body, a);
  }

  lemma PairBody(key: string, v: string)
    ensures PairLine(key, v) == key + " = " + v + "\n"
  {
  }

  /** The keys of strings are the keys of nothing else. */
  lemma StringKeysDiffer(i: nat, j: nat)
    requires i < KEYS && j < KEYS && Entry(i).kind == StringKind && SameName(Entry(i).key, Entry(j).key)
    ensures i == j
  {
    hide Entry, HasFeatures, FeatureTable;
    StringSlots(i);
    EntryFeatures(i);
    EntryFeatures(j);
    KeyFeatures(i, j);
    KeyFeatureTable(i, j);
  }

  lemma StringSlots(i: nat)
    requires i < KEYS
    ensures Entry(i).kind == StringKind <==> i == 2 || i == 3 || i == 24
  {
  }

  lemma KeyFeatures(i: nat, j: nat)
    requires i < KEYS && j < KEYS && HasFeatures(i) && HasFeatures(j) && SameName(Entry(i).key, Entry(j).key)
    ensures FeatureTable(i).2 == FeatureTable(j).2 && FeatureTable(i).3 == FeatureTable(j).3
    ensures FeatureTable(i).4 == FeatureTable(j).4
  {
    hide Entry, FeatureTable;
  }

  lemma KeyFeatureTable(i: nat, j: nat)
    requires (i == 2 || i == 3 || i == 24) && j < KEYS
    requires FeatureTable(i).2 == FeatureTable(j).2 && FeatureTable(i).3 == FeatureTable(j).3
    requires FeatureTable(i).4 == FeatureTable(j).4
    ensures i == j
  {
  }

  lemma StartIsShort(i: nat, n: nat, j: nat, v: string)
    requires i < KEYS && j < KEYS && Entry(i).kind == StringKind && (i == j ==> |v| < n)
    ensures ShortFor(i, n, Entry(j).key + " = " + v) && ShortFor(i, n, PairLine(Entry(j).key, v))
  {
    hide Entry, ParseLine, ParseValue, RStrip, SameName;
    ReadBackLength(v);
    forall st: State, a: nat
      ensures ParseLine(st, Entry(j).key + " = " + v, a).1
           == Called(Call(st.section, Entry(j).key, ParseValue(RStrip(" " + v))))
      ensures ParseLine(st, PairLine(Entry(j).key, v), a).1
           == Called(Call(st.section, Entry(j).key, ParseValue(RStrip(" " + v))))
      ensures KeyIndex(st.section, Entry(j).key, 0) == i ==> i == j
    {
      PairStart(st, j, v, a);
      if KeyIndex(st.section, Entry(j).key, 0) == i {
        StringKeysDiffer(i, j);
      }
    }
  }

  ghost predicate AllShort(i: nat, n: nat, lines: seq<string>) {
    forall k :: 0 <= k < |lines| ==> ShortFor(i, n, lines[k])
  }

  /** The string of slot i has a line longer than the buffer. */
  ghost predicate Overlong(store: Store, i: nat)
    requires WellTyped(store)
  {
    i < KEYS && Entry(i).kind == StringKind && |StringLine(i, store[i].text)| > MAX_LINE
  }

  lemma OverlongText(store: Store, i: nat)
    requires WellTyped(store) && Overlong(store, i)
    ensures |store[i].text| > 196 - |Entry(i).key| >= 181
  {
    hide Entry, Typed;
    EntriesPlain(i);
  }

  lemma PairPiecesShort(store: Store, i: nat, j: nat)
    requires WellTyped(store) && OneLiners(store) && Overlong(store, i) && j < KEYS
    ensures AllShort(i, |store[i].text|, Lines(PairLine(Entry(j).key, Dump(Entry(j).kind, store[j]))))
  {
    hide Entry, Dump, Lines, OneLine, ShortFor, EndsOnce, Seen;
    var n, key, v := |store[i].text|, Entry(j).key, Dump(Entry(j).kind, store[j]);
    var line := PairLine(key, v);
    OverlongText(store, i);
    EntriesPlain(j);
    PlainIsClean(j);
    EntryDump(store, j);
    PairLineEnds(key, v);
    if |line| < MAX_LINE {
      WholeLine(line);
      StartIsShort(i, n, j, v);
    } else {
      var w := v[..MAX_LINE - 4 - |key|];
      assert line[..MAX_LINE - 1] == key + " = " + w;
      DumpBound(store, j);
      CutLine(line);
      StartIsShort(i, n, j, w);
      TailIsSeen(line);
      ShortLine(i, n, line[MAX_LINE - 1..]);
    }
  }

  lemma DumpBound(store: Store, j: nat)
    requires WellTyped(store) && OneLiners(store) && j < KEYS
    ensures |Dump(Entry(j).kind, store[j])| <= 254
  {
    hide Entry, Dump;
    EntryDump(store, j);
  }

  lemma TailIsSeen(line: string)
    requires EndsOnce(line) && MAX_LINE <= |line| < 2 * MAX_LINE - 1
    ensures Seen(line[MAX_LINE - 1..])
  {
    NoNulInLine(line);
    var tail := line[MAX_LINE - 1..];
    assert forall k :: 0 <= k < |tail| - 1 ==> tail[k] == line[..|line| - 1][k + MAX_LINE - 1];
  }

  lemma HeaderPiecesShort(i: nat, n: nat, j: nat)
    requires j < KEYS && n >= 181
    ensures AllShort(i, n, Lines(HeaderLine(Entry(j).section)))
  {
    hide Entry, Lines, ShortFor;
    PlainIsClean(j);
    EntriesPlain(j);
    var line := HeaderLine(Entry(j).section);
    HeaderLineFull(Entry(j).section);
    WholeLine(line);
    assert line[..|line| - 1] == "[" + Entry(j).section + "]";
    ShortLine(i, n, line);
  }

  lemma EntryPiecesShort(store: Store, i: nat, j: nat)
    requires WellTyped(store) && OneLiners(store) && Overlong(store, i) && j < KEYS
    ensures AllShort(i, |store[i].text|, PiecesOf(EntryLines(store, j)))
  {
    hide Entry, Dump, Lines, OneLine, ShortFor, OpensSection, HeaderLine, PairLine, OneLiners;
    var pair := PairLine(Entry(j).key, Dump(Entry(j).kind, store[j]));
    OverlongText(store, i);
    PairPiecesShort(store, i, j);
    HeaderPiecesShort(i, |store[i].text|, j);
    OnePiece(pair);
    if OpensSection(j) {
      assert EntryLines(store, j)[1..] == [pair];
    } else {
      assert EntryLines(store, j) == [pair];
    }
  }

  lemma OnePiece(line: string)
    ensures PiecesOf([line]) == Lines(line)
  {
    hide Lines;
    assert PiecesOf([]) == [];
  }

  lemma {:induction false} SavedPiecesShort(store: Store, i: nat, n: nat)
    requires WellTyped(store) && OneLiners(store) && Overlong(store, i) && n <= KEYS
    ensures AllShort(i, |store[i].text|, PiecesOf(SaveLines(store, 0, n)))
  {
    hide Entry, EntryLines, ShortFor, OneLiners, Typed, Overlong;
    if n > 0 {
      SavedPiecesShort(store, i, n - 1);
      EntryPiecesShort(store, i, n - 1);
      PiecesConcat(SaveLines(store, 0, n - 1), EntryLines(store, n - 1));
    }
  }

  lemma {:induction false} ShortCalls(i: nat, n: nat, st: State, lines: seq<string>, lineno: nat)
    requires AllShort(i, n, lines)
    ensures forall k :: 0 <= k < |Calls(st, lines, lineno)| ==>
              var c := Calls(st, lines, lineno)[k]; KeyIndex(c.section, c.name, 0) == i ==> |c.value| < n
    decreases |lines|
  {
    hide ParseLine, KeyIndex;
    if lines != [] {
      assert ShortFor(i, n, lines[0]);
      ShortCalls(i, n, ParseLine(st, lines[0], lineno + 1).0, lines[1..], lineno + 1);
    }
  }

  lemma {:induction false} LastShort(calls: seq<Call>, i: nat, n: nat)
    requires i < KEYS && Entry(i).kind == StringKind
    requires forall k :: 0 <= k < |calls| ==> KeyIndex(calls[k].section, calls[k].name, 0) == i ==> |calls[k].value| < n
    ensures Last(calls, i).Some? ==> Last(calls, i).value.Chars? && |Last(calls, i).value.text| < n
  {
    hide Entry, KeyIndex;
    if calls != [] {
      LastShort(calls[..|calls| - 1], i, n);
    }
  }

  /** A string whose line does not fit is lost. */
  lemma OverlongIsLost(store: Store, i: nat)
    requires WellTyped(store) && OneLiners(store) && Overlong(store, i)
    ensures LoadText(SaveText(store))[i] != store[i]
  {
    hide Entry, ShortFor, EntryLines, EndsOnce, SaveLines, Calls, Lines, Last, AssignAll, DefaultValue, Concat,
         PiecesOf;
    var lines, n := SaveLines(store, 0, KEYS), |store[i].text|;
    var calls := FileCalls(SaveText(store));
    SavedLinesEnd(store, KEYS);
    TextIsPieces(lines);
    SavedPiecesShort(store, i, KEYS);
    ShortCalls(i, n, START, PiecesOf(lines), 0);
    LastShort(calls, i, n);
    AssignAllSlot(Defaults(), calls, i);
    DefaultFits(i);
    OverlongText(store, i);
  }

  // ----- when a configuration comes back -----------------------------------------------------

  /** A field survives saving and loading. A string must be clean, one line, and with its key not longer
      than the parser's buffer. */
  ghost predicate Survives(i: nat, v: Value)
    requires i < KEYS && Typed(Entry(i).kind, v)
  {
    && Redeems(i, v)
    && (Entry(i).kind == StringKind ==> OneLine(v.text) && |StringLine(i, v.text)| <= MAX_LINE)
  }

  lemma LostOrFitting(store: Store)
    requires WellTyped(store) && LoadText(SaveText(store)) == store
    ensures OneLiners(store) && Fitting(store)
  {
    hide Entry, LoadText, SaveText, OneLine, StringLine;
    forall i | 0 <= i < KEYS && Entry(i).kind == StringKind
      ensures OneLine(store[i].text)
    {
      LoadedStringOneLine(SaveText(store), i);
    }
    forall i | 0 <= i < KEYS && Entry(i).kind == StringKind
      ensures |StringLine(i, store[i].text)| <= MAX_LINE
    {
      if |StringLine(i, store[i].text)| > MAX_LINE {
        OverlongIsLost(store, i);
      }
    }
  }

  /** For every configuration the daemon can hold: saving and then loading over the defaults yields it again
      if and only if every field survives. */
  lemma SaveLoadInverseIff(store: Store)
    requires WellTyped(store)
    ensures LoadText(SaveText(store)) == store <==> forall i :: 0 <= i < KEYS ==> Survives(i, store[i])
  {
    hide Entry, LoadText, SaveText, OneLine, StringLine, Redeems;
    if LoadText(SaveText(store)) == store {
      LostOrFitting(store);
      FittingComesBack(store);
    } else if forall i :: 0 <= i < KEYS ==> Survives(i, store[i]) {
      assert OneLiners(store) && Fitting(store);
      FittingComesBack(store);
    }
  }

  /** The defaults with the primary clock in 24-hour format. */
  function TwentyFourHour(): Store {
    Defaults()[4 := Number(1)]
  }

  lemma ClockSlot()
    ensures Entry(4).kind == ClockFormatKind && Entry(4).section == "Clock" && Entry(4).key == "FormatPrimary"
  {
  }

  lemma TwentyFourHourFits()
    ensures WellTyped(TwentyFourHour())
  {
    hide Entry, DefaultValue;
    ClockSlot();
    forall i | 0 <= i < KEYS
      ensures Typed(Entry(i).kind, TwentyFourHour()[i])
    {
      DefaultFits(i);
    }
  }

  lemma ClockTextParses()
    ensures Parse(ClockFormatKind, "24hr") == Some(Number(1))
  {
    assert Lower("24hr"[0]) != Lower("12hr"[0]);
    SameNameRefl("24hr");
  }

  /** A configuration the daemon accepts but does not get back: the primary clock in 24-hour format. */
  lemma TwentyFourHourIsLost()
    ensures Assign(Defaults(), Call("Clock", "FormatPrimary", "24hr")) == (TwentyFourHour(), true)
    ensures WellTyped(TwentyFourHour())
    ensures LoadText(SaveText(TwentyFourHour())) != TwentyFourHour()
  {
    hide Entry, DefaultValue, SaveText, LoadText, KeyIndex, Parse;
    ClockSlot();
    OwnIndex(4);
    ClockTextParses();
    TwentyFourHourFits();
    assert !Survives(4, TwentyFourHour()[4]);
    SaveLoadInverseIff(TwentyFourHour());
  }

  // ----- a string that is obeyed as configuration --------------------------------------------

  function Xs(n: nat): (r: string)
    ensures |r| == n && forall i :: 0 <= i < n ==> r[i] == 'x'
  {
    seq(n, _ => 'x')
  }

  /** A timezone name that fills its line up to the parser's buffer and goes on. */
  function LongName(): (r: string)
    ensures |r| == 197
  {
    Xs(187) + "Enabled=no"
  }

  /** The defaults with that name for the secondary clock. */
  function LongNamed(): Store {
    Defaults()[2 := Chars(LongName())]
  }

  lemma NameSlot()
    ensures Entry(2).kind == StringKind && Entry(2).section == "Clock" && Entry(2).key == "Secondary"
    ensures Entry(0).kind == BoolKind && Entry(0).section == "Clock" && Entry(0).key == "Enabled"
    ensures Entry(1).section == "Clock" && DefaultValue(0) == Flag(true)
    ensures !OpensSection(2)
  {
    SameNameRefl("Clock");
  }

  lemma LongNameClean()
    ensures OneLine(LongName()) && Clean(LongName()) && '\0' !in LongName()
  {
    var s := LongName();
    assert forall i :: 0 <= i < 187 ==> s[i] == 'x';
    assert forall i :: 187 <= i < 197 ==> s[i] == "Enabled=no"[i - 187];
  }

  lemma LongNamedFits()
    ensures WellTyped(LongNamed()) && OneLiners(LongNamed())
  {
    hide Entry, DefaultValue, LongName, OneLine;
    NameSlot();
    LongNameClean();
    forall i | 0 <= i < KEYS
      ensures Typed(Entry(i).kind, LongNamed()[i])
      ensures Entry(i).kind == StringKind ==> OneLine(LongNamed()[i].text)
    {
      DefaultFits(i);
    }
  }

  /** Every other line is far from filling the buffer. */
  lemma OtherEntryFull(i: nat)
    requires i < KEYS && i != 2 && WellTyped(LongNamed()) && OneLiners(LongNamed())
    ensures forall k :: 0 <= k < |EntryLines(LongNamed(), i)| ==> FullLine(EntryLines(LongNamed(), i)[k])
  {
    hide Entry, Dump, OpensSection, CleanName, EndsOnce, HeaderLine, PairLine, LongName, OneLine, DefaultValue;
    var name, value := Entry(i).key, Dump(Entry(i).kind, LongNamed()[i]);
    EntriesPlain(i);
    PlainIsClean(i);
    HeaderLineFull(Entry(i).section);
    EntryDump(LongNamed(), i);
    DefaultFits(i);
    PairLineEnds(name, value);
  }

  lemma {:induction false} OtherLinesFull(m: nat, n: nat)
    requires m <= n <= KEYS && (n <= 2 || m >= 3) && WellTyped(LongNamed()) && OneLiners(LongNamed())
    ensures forall k :: 0 <= k < |SaveLines(LongNamed(), m, n)| ==> FullLine(SaveLines(LongNamed(), m, n)[k])
    decreases n
  {
    hide Entry, EntryLines, FullLine, Typed, LongNamed, OneLiners;
    if m < n {
      OtherLinesFull(m, n - 1);
      OtherEntryFull(n - 1);
    }
  }

  lemma {:induction false} SaveLinesSplit(store: Store, k: nat, m: nat, n: nat)
    requires WellTyped(store) && k <= m <= n <= KEYS
    ensures SaveLines(store, k, n) == SaveLines(store, k, m) + SaveLines(store, m, n)
    decreases n
  {
    hide EntryLines, Typed, Entry;
    if m < n {
      SaveLinesSplit(store, k, m, n - 1);
    }
  }

  lemma LongLine()
    ensures Lines(PairLine("Secondary", LongName())) == ["Secondary = " + Xs(187), "Enabled=no\n"]
  {
    hide Lines, OneLine;
    var line := PairLine("Secondary", LongName());
    LongNameClean();
    assert OneLine("Secondary") by {
      NameSlot();
      PlainIsClean(2);
    }
    PairLineEnds("Secondary", LongName());
    CutLine(line);
    var head := "Secondary = " + Xs(187);
    assert |head| == 199;
    assert line == head + "Enabled=no\n";
  }

  lemma TailStrips()
    ensures RStrip("Enabled=no\n") == "Enabled=no" && LSkip("Enabled=no") == "Enabled=no"
  {
    hide RStrip, LSkip;
    assert "Enabled=no\n" == "Enabled=no" + "\n";
    RStripDrops("Enabled=no", "\n");
    RStripKeeps("Enabled=no");
    LSkipKeeps("Enabled=no");
  }

  lemma NoIsValue()
    ensures ParseValue("no") == "no"
  {
    hide RStrip, LSkip, FindFrom;
    FindStops("no", "", "", 0, false);
    assert "no" + "" == "no" && "no"[..2] == "no";
    LSkipKeeps("no");
    RStripKeeps("no");
  }

  lemma TailPair(st: State)
    ensures ParsePair(st, "Enabled=no").1 == Called(Call(st.section, "Enabled", "no"))
    ensures ParsePair(st, "Enabled=no").0.section == st.section
  {
    hide RStrip, FindFrom, ParseValue, Truncated;
    assert "Enabled=no" == "Enabled" + "=no";
    FindStops("Enabled", "=no", "=:", 0, false);
    assert "Enabled=no"[..7] == "Enabled" && "Enabled=no"[8..] == "no";
    RStripKeeps("Enabled");
    NoIsValue();
  }

  /** What the rest of the name is read as. */
  lemma TailIsAssignment(st: State, a: nat)
    ensures ParseLine(st, "Enabled=no\n", a).1 == Called(Call(st.section, "Enabled", "no"))
    ensures ParseLine(st, "Enabled=no\n", a).0.section == st.section
  {
    hide RStrip, LSkip, ParsePair;
    TailStrips();
    TailPair(st);
    assert "Enabled=no\n"[0] == 'E' && "Enabled=no"[0] == 'E';
  }

  /** The lines the parser sees of the saved file. */
  lemma LongNamedLines()
    ensures WellTyped(LongNamed())
    ensures Lines(SaveText(LongNamed()))
         == SaveLines(LongNamed(), 0, 2)
            + (["Secondary = " + Xs(187), "Enabled=no\n"] + SaveLines(LongNamed(), 3, KEYS))
  {
    hide Entry, DefaultValue, LongName, Lines, Typed, OneLiners, SaveLines, EndsOnce, FullLine, PairLine, Concat,
         PiecesOf, StartsWithBom, Fitting;
    LongNamedFits();
    var store := LongNamed();
    var a, b, c := SaveLines(store, 0, 2), SaveLines(store, 2, 3), SaveLines(store, 3, KEYS);
    SaveLinesSplit(store, 0, 2, KEYS);
    SaveLinesSplit(store, 2, 3, KEYS);
    SavedLinesEnd(store, KEYS);
    TextIsPieces(SaveLines(store, 0, KEYS));
    PiecesConcat(a, b + c);
    PiecesConcat(b, c);
    OtherLinesFull(0, 2);
    OtherLinesFull(3, KEYS);
    FullPieces(a);
    FullPieces(c);
    OneEntry();
    OnePiece(PairLine("Secondary", LongName()));
    LongLine();
  }

  lemma OneEntry()
    requires WellTyped(LongNamed())
    ensures SaveLines(LongNamed(), 2, 3) == [PairLine("Secondary", LongName())]
  {
    hide Entry, PairLine, LongName, DefaultValue, OpensSection;
    NameSlot();
    assert SaveLines(LongNamed(), 2, 2) == [];
  }

  /** The calls for the saved file: the end of the name has become an assignment of its own. */
  lemma LongNamedCalls()
    ensures WellTyped(LongNamed())
    ensures FileCalls(SaveText(LongNamed()))
         == ReadBacks(LongNamed(), 0, 2)
            + ([Call("Clock", "Secondary", ParseValue(RStrip(" " + Xs(187))))] + [Call("Clock", "Enabled", "no")]
               + ReadBacks(LongNamed(), 3, KEYS))
  {
    hide Entry, DefaultValue, LongNamed, Lines, Typed, SaveLines, SaveText, Calls, ParseLine, ParseValue, RStrip, After,
         Xs, ReadBacks, ReadBack, Dump, EntryLines;
    NameSlot();
    LongNamedLines();
    var a, c := SaveLines(LongNamed(), 0, 2), SaveLines(LongNamed(), 3, KEYS);
    SaveReadsBack(LongNamed(), START, 0, 2, 0);
    var st := After(START, a, 0);
    CallsConcat(START, a, ["Secondary = " + Xs(187), "Enabled=no\n"] + c, 0, st);
    var next := MiddleCalls(st, c, |a|);
    SaveReadsBack(LongNamed(), next, 3, KEYS, |a| + 2);
  }

  /** The calls for the line that is cut, and what follows it. */
  lemma MiddleCalls(st: State, c: seq<string>, a: nat) returns (next: State)
    requires st.section == "Clock"
    ensures next.section == "Clock"
    ensures Calls(st, ["Secondary = " + Xs(187), "Enabled=no\n"] + c, a)
         == [Call("Clock", "Secondary", ParseValue(RStrip(" " + Xs(187))))] + [Call("Clock", "Enabled", "no")]
            + Calls(next, c, a + 2)
  {
    hide Entry, Calls, ParseLine, ParseValue, RStrip, Xs;
    NameSlot();
    var head, tail := "Secondary = " + Xs(187), "Enabled=no\n";
    TwoCalls(st, head, tail, c, a);
    assert "Secondary = " == "Secondary" + " = ";
    PairStart(st, 2, Xs(187), a + 1);
    var mid := ParseLine(st, head, a + 1).0;
    TailIsAssignment(mid, a + 2);
    next := ParseLine(mid, tail, a + 2).0;
  }

  /** A configuration the daemon accepts, of clean one-line strings, that comes back with the clock switched
      off: the end of a long timezone name is read as an assignment. */
  lemma LongNameIsObeyed()
    ensures Assign(Defaults(), Call("Clock", "Secondary", LongName())) == (LongNamed(), true)
    ensures WellTyped(LongNamed()) && OneLiners(LongNamed()) && forall i :: 0 <= i < KEYS ==> Redeems(i, LongNamed()[i])
    ensures LongNamed()[0] == Flag(true) && LoadText(SaveText(LongNamed()))[0] == Flag(false)
  {
    hide Entry, DefaultValue, LongName, SaveText, FileCalls, AssignAll, Last, ParseValue, RStrip, KeyIndex,
         OneLine, Clean, Xs;
    NameSlot();
    OwnIndex(2);
    OwnIndex(0);
    LongNamedFits();
    LongNameClean();
    forall i | 0 <= i < KEYS
      ensures Redeems(i, LongNamed()[i])
    {
      DefaultFits(i);
      DefaultRedeems(i);
    }
    LongNamedCalls();
    var x, y := ReadBacks(LongNamed(), 0, 2), ReadBacks(LongNamed(), 3, KEYS);
    var c, d := Call("Clock", "Secondary", ParseValue(RStrip(" " + Xs(187)))), Call("Clock", "Enabled", "no");
    AssignAllSlot(Defaults(), x + ([c] + [d] + y), 0);
    LastConcat(x, [c] + [d] + y, 0);
    LastConcat([c] + [d], y, 0);
    LastConcat([c], [d], 0);
    ReadBacksLast(LongNamed(), 3, KEYS, 0);
    SwitchedOff();
  }

  lemma SwitchedOff()
    ensures Last([Call("Clock", "Enabled", "no")], 0) == Some(Flag(false))
  {
    hide Entry, KeyIndex;
    NameSlot();
    OwnIndex(0);
    SameNameRefl("no");
    Unlike("no", "yes");
    Unlike("no", "true");
  }

  lemma DefaultRedeems(i: nat)
    requires i < KEYS && Typed(Entry(i).kind, DefaultValue(i))
    ensures Redeems(i, DefaultValue(i))
  {
    hide Entry, Typed;
    StringDefaults(i);
  }
}
