/** The store over whole loads, and the text of a saved one: which assignment wins, and what the printed
    lines are parsed to (daemon/x52d_config.c, daemon/x52d_config_parser.c, daemon/x52d_config_dump.c). */
module ConfigStore {
  import opened Prelude
  import opened IniText
  import opened Numbers
  import opened Config

  type Store = seq<Value>

  ghost predicate WellTyped(store: Store) {
    |store| == KEYS && forall i :: 0 <= i < KEYS ==> Typed(Entry(i).kind, store[i])
  }

  /** The first entry with this section and key, or KEYS. */
  function KeyIndex(section: string, key: string, from: nat): (i: nat)
    requires from <= KEYS
    ensures from <= i <= KEYS && (i < KEYS ==> Matches(i, section, key))
    ensures forall j :: from <= j < i ==> !Matches(j, section, key)
    decreases KEYS - from
  {
    if from == KEYS || Matches(from, section, key) then from else KeyIndex(section, key, from + 1)
  }

  /** The slot an assignment is for, and the value it stores there if it is accepted. */
  function Effect(c: Call, i: nat): Option<Value>
    requires i < KEYS
  {
    if KeyIndex(c.section, c.name, 0) == i then Parse(Entry(i).kind, c.value) else None
  }

  /** x52d_config_process_kv: an unknown key is ignored, a bad value is rejected. */
  function Assign(store: Store, c: Call): (r: (Store, bool))
    requires |store| == KEYS
    ensures |r.0| == KEYS
  {
    var i := KeyIndex(c.section, c.name, 0);
    if i == KEYS then (store, true)
    else
      match Parse(Entry(i).kind, c.value)
      case Some(v) => (store[i := v], true)
      case None => (store, false)
  }

  /** An assignment sets its slot when it is accepted and touches nothing else. */
  lemma AssignSlot(store: Store, c: Call, i: nat)
    requires |store| == KEYS && i < KEYS
    ensures Assign(store, c).0[i] == if Effect(c, i).Some? then Effect(c, i).value else store[i]
  {
  }

  /** All assignments in order, rejected ones skipped: a configuration file. */
  function AssignAll(store: Store, calls: seq<Call>): (r: Store)
    requires |store| == KEYS
    ensures |r| == KEYS
  {
    if calls == [] then store else Assign(AssignAll(store, calls[..|calls| - 1]), calls[|calls| - 1]).0
  }

  /** All assignments in order up to the first rejected one: defaults and overrides. */
  function AssignUntil(store: Store, calls: seq<Call>): (r: (Store, bool))
    requires |store| == KEYS
    ensures |r.0| == KEYS
  {
    if calls == [] then (store, true) else
      var (s, ok) := AssignUntil(store, calls[..|calls| - 1]);
      if ok then Assign(s, calls[|calls| - 1]) else (s, false)
  }

  /** The last accepted assignment to a slot. */
  function Last(calls: seq<Call>, i: nat): Option<Value>
    requires i < KEYS
  {
    if calls == [] then None
    else if Effect(calls[|calls| - 1], i).Some? then Effect(calls[|calls| - 1], i)
    else Last(calls[..|calls| - 1], i)
  }

  function Or(v: Option<Value>, default: Value): Value {
    if v.Some? then v.value else default
  }

  lemma {:induction false} AssignAllSlot(store: Store, calls: seq<Call>, i: nat)
    requires |store| == KEYS && i < KEYS
    ensures AssignAll(store, calls)[i] == Or(Last(calls, i), store[i])
  {
    hide Assign, Effect;
    if calls != [] {
      var init := calls[..|calls| - 1];
      AssignAllSlot(store, init, i);
      AssignSlot(AssignAll(store, init), calls[|calls| - 1], i);
    }
  }

  lemma {:induction false} AssignUntilSlot(store: Store, calls: seq<Call>)
    requires |store| == KEYS
    ensures AssignUntil(store, calls).1 ==> AssignUntil(store, calls).0 == AssignAll(store, calls)
    ensures AssignUntil(store, calls).1 <==> forall k :: 0 <= k < |calls| ==> Accepted(calls[k])
  {
    hide Assign, Accepted;
    if calls != [] {
      var init := calls[..|calls| - 1];
      AssignUntilSlot(store, init);
      AssignVerdict(AssignUntil(store, init).0, calls[|calls| - 1]);
      assert forall k :: 0 <= k < |init| ==> init[k] == calls[k];
    }
  }

  /** An assignment is accepted unless its key is known and its value is not. */
  predicate Accepted(c: Call) {
    var i := KeyIndex(c.section, c.name, 0);
    i == KEYS || Parse(Entry(i).kind, c.value).Some?
  }

  lemma AssignVerdict(store: Store, c: Call)
    requires |store| == KEYS
    ensures Assign(store, c).1 == Accepted(c)
  {
  }

  lemma {:induction false} LastConcat(a: seq<Call>, b: seq<Call>, i: nat)
    requires i < KEYS
    ensures Last(a + b, i) == if Last(b, i).Some? then Last(b, i) else Last(a, i)
    decreases |b|
  {
    hide Effect;
    if b == [] {
      assert a + b == a;
    } else {
      assert (a + b)[..|a + b| - 1] == a + b[..|b| - 1];
      LastConcat(a, b[..|b| - 1], i);
    }
  }

  // ----- types -------------------------------------------------------------------------------

  lemma ParseTyped(kind: Kind, value: string)
    requires '\0' !in value
    ensures Parse(kind, value).Some? ==> Typed(kind, Parse(kind, value).value)
  {
    hide ParseInt, SameName;
  }

  lemma AssignTyped(store: Store, c: Call)
    requires WellTyped(store) && '\0' !in c.value
    ensures WellTyped(Assign(store, c).0)
  {
    hide Parse, Typed, Matches, Entry;
    var i := KeyIndex(c.section, c.name, 0);
    if i < KEYS {
      ParseTyped(Entry(i).kind, c.value);
    }
  }

  // ----- defaults ----------------------------------------------------------------------------

  function OwnCall(i: nat, value: string): Call
    requires i < KEYS
  {
    Call(Entry(i).section, Entry(i).key, value)
  }

  lemma SameNameRefl(s: string)
    ensures SameName(s, s)
  {
  }

  /** Each entry is found under its own section and key. */
  lemma OwnIndex(i: nat)
    requires i < KEYS
    ensures KeyIndex(Entry(i).section, Entry(i).key, 0) == i
  {
    hide Entry, SameName;
    SameNameRefl(Entry(i).section);
    SameNameRefl(Entry(i).key);
    assert Matches(i, Entry(i).section, Entry(i).key);
    var j := KeyIndex(Entry(i).section, Entry(i).key, 0);
    if j < KEYS {
      EntriesDistinct(j, i);
    }
  }

  function DefaultCalls(n: nat): (r: seq<Call>)
    requires n <= KEYS
    ensures |r| == n && forall i :: 0 <= i < n ==> r[i] == OwnCall(i, Entry(i).default)
  {
    seq(n, i requires 0 <= i < n => OwnCall(i, Entry(i).default))
  }

  /** The values of the defaults, as numbers. */
  function DefaultValue(i: nat): Value
    requires i < KEYS
  {
    match Entry(i).kind
    case BoolKind => Flag(Entry(i).default == "true")
    case StringKind => Chars(Entry(i).default)
    case IntKind => Number(if i == 22 then 0 else 128)
    case LedKind => Number(if i < 10 then 1 else 4)
    case ClockFormatKind => Number(0)
    case DateFormatKind => Number(0)
  }

  lemma IntDefaults()
    ensures ParseInt("128") == Some(128) && ParseInt("0") == Some(0)
  {
    hide ParseInt, PrintInt;
    PrintedDefaults();
    ParsePrintInt(0);
    ParsePrintInt(128);
  }

  lemma DefaultTexts(i: nat)
    requires i < KEYS
    ensures var e := Entry(i);
            match e.kind
            case BoolKind => e.default == "true" || e.default == "false"
            case StringKind => |e.default| < 25
            case IntKind => e.default == if i == 22 then "0" else "128"
            case LedKind => e.default == if i < 10 then "on" else "green"
            case ClockFormatKind => e.default == "12hr"
            case DateFormatKind => e.default == "ddmmyy"
  {
  }

  lemma StringDefaults(i: nat)
    requires i < KEYS
    ensures Entry(i).kind == StringKind ==> Entry(i).default == "UTC" || Entry(i).default == "/etc/x52d/profiles.d"
  {
  }

  lemma DefaultParses(i: nat)
    requires i < KEYS
    ensures Parse(Entry(i).kind, Entry(i).default) == Some(DefaultValue(i))
  {
    hide Entry, ParseInt;
    DefaultTexts(i);
    match Entry(i).kind
    case BoolKind => BoolDumpParses(Entry(i).default == "true");
    case StringKind =>
    case IntKind => IntDefaults();
    case LedKind =>
      LedNameParses(1);
      LedNameParses(4);
    case ClockFormatKind => SameNameRefl("12hr");
    case DateFormatKind => SameNameRefl("ddmmyy");
  }

  /** The defaults are printed as they are written in the table of keys, except for clock and date formats. */
  lemma DefaultsPrint(i: nat)
    requires i < KEYS
    ensures var kind, v := Entry(i).kind, DefaultValue(i);
            && Typed(kind, v)
            && Dump(kind, v) == if kind == ClockFormatKind then "12 hour"
                                else if kind == DateFormatKind then "DD-MM-YY"
                                else Entry(i).default
  {
    hide Entry, PrintInt;
    DefaultTexts(i);
    StringDefaults(i);
    assert PrintInt(0) == "0" && PrintInt(128) == "128" by {
      PrintedDefaults();
    }
  }

  lemma PrintedDefaults()
    ensures PrintInt(0) == "0" && PrintInt(128) == "128"
  {
    assert PrintNat(1) == "1";
    assert PrintNat(12) == "1" + "2" == "12";
    assert PrintNat(128) == "12" + "8" == "128";
  }

  function Defaults(): (r: Store)
    ensures |r| == KEYS && forall i :: 0 <= i < KEYS ==> r[i] == DefaultValue(i)
  {
    seq(KEYS, i requires 0 <= i < KEYS => DefaultValue(i))
  }

  lemma {:induction false} DefaultCallsLast(n: nat, i: nat)
    requires n <= KEYS && i < KEYS
    ensures Last(DefaultCalls(n), i) == if i < n then Some(DefaultValue(i)) else None
  {
    hide Entry, Parse, DefaultValue, KeyIndex;
    if n > 0 {
      DefaultCallsLast(n - 1, i);
      assert DefaultCalls(n)[..n - 1] == DefaultCalls(n - 1);
      OwnIndex(n - 1);
      DefaultParses(n - 1);
    }
  }

  /** Setting the defaults always succeeds, and forgets whatever the store held before. */
  lemma DefaultsForget(store: Store)
    requires |store| == KEYS
    ensures AssignUntil(store, DefaultCalls(KEYS)) == (Defaults(), true)
  {
    hide Entry, Parse, DefaultValue, KeyIndex, Last, AssignAll, AssignUntil;
    var calls := DefaultCalls(KEYS);
    forall k | 0 <= k < KEYS
      ensures Accepted(calls[k])
    {
      OwnIndex(k);
      DefaultParses(k);
    }
    AssignUntilSlot(store, calls);
    forall i | 0 <= i < KEYS
      ensures AssignAll(store, calls)[i] == Defaults()[i]
    {
      AssignAllSlot(store, calls, i);
      DefaultCallsLast(KEYS, i);
    }
    assert AssignAll(store, calls) == Defaults();
  }

  // ----- loading -----------------------------------------------------------------------------

  /** x52d_config_load: defaults, then the file, then the overrides. A missing file or a rejected override
      ends the program. */
  function Load(store: Store, file: Option<seq<Call>>, overrides: seq<Call>): (r: (Store, bool))
    requires |store| == KEYS
    ensures |r.0| == KEYS
  {
    var (d, ok) := AssignUntil(store, DefaultCalls(KEYS));
    if !ok || file.None? then (d, false) else AssignUntil(AssignAll(d, file.value), overrides)
  }

  /** After a successful load each key holds the value of the last accepted assignment in defaults, file
      and overrides; the load succeeds exactly when the file opens and every override is accepted. */
  lemma LoadPrecedence(store: Store, file: Option<seq<Call>>, overrides: seq<Call>, i: nat)
    requires |store| == KEYS && i < KEYS
    ensures Load(store, file, overrides).1 <==>
              file.Some? && forall k :: 0 <= k < |overrides| ==> Accepted(overrides[k])
    ensures Load(store, file, overrides).1 ==>
              Some(Load(store, file, overrides).0[i]) == Last(DefaultCalls(KEYS) + file.value + overrides, i)
  {
    hide Last, AssignAll, AssignUntil, DefaultValue;
    DefaultsForget(store);
    if file.Some? {
      var loaded := AssignAll(Defaults(), file.value);
      AssignUntilSlot(loaded, overrides);
      AssignAllSlot(loaded, overrides, i);
      AssignAllSlot(Defaults(), file.value, i);
      DefaultCallsLast(KEYS, i);
      LastConcat(DefaultCalls(KEYS), file.value, i);
      LastConcat(DefaultCalls(KEYS) + file.value, overrides, i);
    }
  }

  lemma LoadWithoutOverrides(held: Store, calls: seq<Call>)
    requires |held| == KEYS
    ensures Load(held, Some(calls), []) == (AssignAll(Defaults(), calls), true)
  {
    DefaultsForget(held);
  }

  // ----- saving ------------------------------------------------------------------------------

  /** Is the section header printed before this entry? */
  predicate OpensSection(i: nat)
    requires i < KEYS
  {
    i == 0 || !SameName(Entry(i - 1).section, Entry(i).section)
  }

  function EntryLines(store: Store, i: nat): seq<string>
    requires i < KEYS && |store| == KEYS && Typed(Entry(i).kind, store[i])
  {
    (if OpensSection(i) then [HeaderLine(Entry(i).section)] else [])
      + [PairLine(Entry(i).key, Dump(Entry(i).kind, store[i]))]
  }

  /** The lines of x52d_config_save_file for the entries from m up to n. */
  function SaveLines(store: Store, m: nat, n: nat): seq<string>
    requires m <= n <= KEYS && |store| == KEYS && forall i :: m <= i < n ==> Typed(Entry(i).kind, store[i])
    decreases n
  {
    if m == n then [] else SaveLines(store, m, n - 1) + EntryLines(store, n - 1)
  }

  /** The saved file. */
  function SaveText(store: Store): string
    requires |store| == KEYS && forall i :: 0 <= i < KEYS ==> Typed(Entry(i).kind, store[i])
  {
    Concat(SaveLines(store, 0, KEYS))
  }

  /** What the parser reads for an entry. */
  function ReadBack(store: Store, i: nat): Call
    requires i < KEYS && |store| == KEYS && Typed(Entry(i).kind, store[i])
  {
    OwnCall(i, ParseValue(RStrip(" " + Dump(Entry(i).kind, store[i]))))
  }

  function ReadBacks(store: Store, m: nat, n: nat): seq<Call>
    requires m <= n <= KEYS && |store| == KEYS && forall i :: m <= i < n ==> Typed(Entry(i).kind, store[i])
    decreases n
  {
    if m == n then [] else ReadBacks(store, m, n - 1) + [ReadBack(store, n - 1)]
  }

  predicate Plain(c: char) {
    'a' <= c <= 'z' || 'A' <= c <= 'Z' || '0' <= c <= '9'
  }

  ghost predicate AllPlain(s: string) {
    forall i :: 0 <= i < |s| ==> Plain(s[i])
  }

  ghost predicate PlainEntry(i: nat)
    requires i < KEYS
  {
    && AllPlain(Entry(i).section) && 0 < |Entry(i).section| <= 10
    && AllPlain(Entry(i).key) && 0 < |Entry(i).key| <= 15
  }

  lemma SectionNames(i: nat)
    requires i < KEYS
    ensures var s := Entry(i).section;
            s == "Clock" || s == "LED" || s == "Brightness" || s == "Mouse" || s == "Profiles"
  {
  }

  lemma PlainSection(i: nat)
    requires i < KEYS
    ensures AllPlain(Entry(i).section) && 0 < |Entry(i).section| <= 10
  {
    hide Entry;
    SectionNames(i);
  }

  lemma PlainClockKey(i: nat)
    requires i < 4
    ensures AllPlain(Entry(i).key) && 0 < |Entry(i).key| <= 15
  {
  }

  lemma PlainFormatKey(i: nat)
    requires 4 <= i < 8
    ensures AllPlain(Entry(i).key) && 0 < |Entry(i).key| <= 15
  {
  }

  lemma PlainLedKey(i: nat)
    requires 8 <= i < 22
    ensures AllPlain(Entry(i).key) && 0 < |Entry(i).key| <= 15
  {
  }

  lemma PlainMouseKey(i: nat)
    requires 22 <= i < 25
    ensures AllPlain(Entry(i).key) && 0 < |Entry(i).key| <= 15
  {
  }

  lemma PlainProfileKey(i: nat)
    requires 25 <= i < KEYS
    ensures AllPlain(Entry(i).key) && 0 < |Entry(i).key| <= 15
  {
  }

  /** Section names and keys are made of letters and digits only. */
  lemma EntriesPlain(i: nat)
    requires i < KEYS
    ensures PlainEntry(i)
  {
    hide Entry, AllPlain;
    PlainSection(i);
    if i < 4 {
      PlainClockKey(i);
    } else if i < 8 {
      PlainFormatKey(i);
    } else if i < 22 {
      PlainLedKey(i);
    } else if i < 25 {
      PlainMouseKey(i);
    } else {
      PlainProfileKey(i);
    }
  }

  lemma PlainIsClean(i: nat)
    requires i < KEYS
    ensures CleanName(Entry(i).key) && OneLine(Entry(i).key)
    ensures CleanSection(Entry(i).section) && OneLine(Entry(i).section)
  {
    hide Entry;
    EntriesPlain(i);
  }

  lemma {:induction false} AfterConcat(st: State, a: seq<string>, b: seq<string>, lineno: nat)
    ensures After(st, a + b, lineno) == After(After(st, a, lineno), b, lineno + |a|)
    decreases |a|
  {
    hide ParseLine;
    if a == [] {
      assert a + b == b;
    } else {
      assert (a + b)[1..] == a[1..] + b;
      AfterConcat(ParseLine(st, a[0], lineno + 1).0, a[1..], b, lineno + 1);
    }
  }

  /** Reading the lines of one entry, whatever came before: one call, in the entry's section. */
  lemma EntryReadsBack(store: Store, st: State, i: nat, lineno: nat)
    requires |store| == KEYS && i < KEYS && Typed(Entry(i).kind, store[i])
    requires OpensSection(i) || (st.section == Entry(i).section && lineno > 0)
    ensures Calls(st, EntryLines(store, i), lineno) == [ReadBack(store, i)]
    ensures After(st, EntryLines(store, i), lineno).section == Entry(i).section
  {
    hide Entry, ParseLine, CleanName, CleanSection, HeaderLine, PairLine, ParseValue, RStrip, Dump, OpensSection;
    PlainIsClean(i);
    var name, value := Entry(i).key, Dump(Entry(i).kind, store[i]);
    var pair := PairLine(name, value);
    if OpensSection(i) {
      HeaderReadsBack(st, Entry(i).section, lineno + 1);
      var next := State(Entry(i).section, "");
      PairReadsBack(next, name, value, lineno + 2);
      assert EntryLines(store, i)[1..] == [pair];
      OneCall(next, pair, lineno + 1);
    } else {
      PairReadsBack(st, name, value, lineno + 1);
      assert EntryLines(store, i) == [pair];
      OneCall(st, pair, lineno);
    }
  }

  lemma OneCall(st: State, line: string, lineno: nat)
    ensures Calls(st, [line], lineno)
         == if ParseLine(st, line, lineno + 1).1.Called? then [ParseLine(st, line, lineno + 1).1.call] else []
    ensures After(st, [line], lineno) == ParseLine(st, line, lineno + 1).0
  {
    hide ParseLine;
  }

  /** Entries follow their section: without a new header the section is the previous entry's. */
  lemma SameSection(i: nat)
    requires 0 < i < KEYS && !OpensSection(i)
    ensures Entry(i - 1).section == Entry(i).section
  {
    hide Entry, SameName;
    SectionNames(i - 1);
    SectionNames(i);
    SectionsDiffer(Entry(i - 1).section, Entry(i).section);
  }

  /** The five sections are told apart by their length and first letter. */
  lemma SectionsDiffer(a: string, b: string)
    requires a == "Clock" || a == "LED" || a == "Brightness" || a == "Mouse" || a == "Profiles"
    requires b == "Clock" || b == "LED" || b == "Brightness" || b == "Mouse" || b == "Profiles"
    requires SameName(a, b)
    ensures a == b
  {
    assert |a| == |b| && Lower(a[0]) == Lower(b[0]);
    assert |"Clock"| == 5 && |"LED"| == 3 && |"Brightness"| == 10 && |"Mouse"| == 5 && |"Profiles"| == 8;
  }

  /** The printed lines of some entries are parsed to one call each, under the entry's own section. */
  lemma {:induction false} SaveReadsBack(store: Store, st: State, m: nat, n: nat, lineno: nat)
    requires m <= n <= KEYS && WellTyped(store)
    requires m == 0 || (lineno > 0 && st.section == Entry(m - 1).section)
    ensures Calls(st, SaveLines(store, m, n), lineno) == ReadBacks(store, m, n)
    ensures n > m ==> |SaveLines(store, m, n)| > 0
    ensures n > m ==> After(st, SaveLines(store, m, n), lineno).section == Entry(n - 1).section
    decreases n
  {
    hide Entry, ParseLine, EntryLines, ReadBack, OpensSection, Typed;
    if n > m {
      var i, before := n - 1, SaveLines(store, m, n - 1);
      SaveReadsBack(store, st, m, i, lineno);
      var now := After(st, before, lineno);
      if !OpensSection(i) && i > 0 {
        SameSection(i);
      }
      FirstOpens();
      EntryReadsBack(store, now, i, lineno + |before|);
      CallsConcat(st, before, EntryLines(store, i), lineno, now);
      AfterConcat(st, before, EntryLines(store, i), lineno);
      assert |EntryLines(store, i)| > 0 by {
        EntryHasLine(store, i);
      }
    }
  }

  lemma FirstOpens()
    ensures OpensSection(0)
  {
  }

  lemma EntryHasLine(store: Store, i: nat)
    requires i < KEYS && |store| == KEYS && Typed(Entry(i).kind, store[i])
    ensures |EntryLines(store, i)| > 0
  {
  }
}
