/** The daemon's configuration as a keyed store: the keys of daemon/x52d_config.def, the parsers of
    daemon/x52d_config_parser.c and the dumpers of daemon/x52d_config_dump.c. */
module Config {
  import opened Prelude
  import opened Numbers

  datatype Kind = BoolKind | StringKind | IntKind | LedKind | ClockFormatKind | DateFormatKind

  /** A field of struct x52d_config. Enumerations are kept as their numbers. */
  datatype Value = Flag(on: bool) | Chars(text: string) | Number(n: int)

  /** One CFG entry: section, key, parser and dumper, default. */
  datatype Key = Key(section: string, key: string, kind: Kind, default: string)

  const KEYS := 27
  const NAME_MAX := 255

  function Entry(i: nat): Key
    requires i < KEYS
  {
    match i
    case 0 => Key("Clock", "Enabled", BoolKind, "true")
    case 1 => Key("Clock", "PrimaryIsLocal", BoolKind, "true")
    case 2 => Key("Clock", "Secondary", StringKind, "UTC")
    case 3 => Key("Clock", "Tertiary", StringKind, "UTC")
    case 4 => Key("Clock", "FormatPrimary", ClockFormatKind, "12hr")
    case 5 => Key("Clock", "FormatSecondary", ClockFormatKind, "12hr")
    case 6 => Key("Clock", "FormatTertiary", ClockFormatKind, "12hr")
    case 7 => Key("Clock", "DateFormat", DateFormatKind, "ddmmyy")
    case 8 => Key("LED", "Fire", LedKind, "on")
    case 9 => Key("LED", "Throttle", LedKind, "on")
    case 10 => Key("LED", "A", LedKind, "green")
    case 11 => Key("LED", "B", LedKind, "green")
    case 12 => Key("LED", "D", LedKind, "green")
    case 13 => Key("LED", "E", LedKind, "green")
    case 14 => Key("LED", "T1", LedKind, "green")
    case 15 => Key("LED", "T2", LedKind, "green")
    case 16 => Key("LED", "T3", LedKind, "green")
    case 17 => Key("LED", "POV", LedKind, "green")
    case 18 => Key("LED", "Clutch", LedKind, "green")
    case 19 => Key("Brightness", "MFD", IntKind, "128")
    case 20 => Key("Brightness", "LED", IntKind, "128")
    case 21 => Key("Mouse", "Enabled", BoolKind, "true")
    case 22 => Key("Mouse", "Speed", IntKind, "0")
    case 23 => Key("Mouse", "ReverseScroll", BoolKind, "false")
    case 24 => Key("Profiles", "Directory", StringKind, "/etc/x52d/profiles.d")
    case 25 => Key("Profiles", "ClutchEnabled", BoolKind, "false")
    case _ => Key("Profiles", "ClutchLatched", BoolKind, "false")
  }

  // ----- case-insensitive comparison ---------------------------------------------------------

  function Lower(c: char): char {
    if 'A' <= c <= 'Z' then c - 'A' + 'a' else c
  }

  /** strcasecmp(a, b) == 0. */
  predicate SameName(a: string, b: string) {
    |a| == |b| && forall i :: 0 <= i < |a| ==> Lower(a[i]) == Lower(b[i])
  }

  /** A few features that tell all keys apart. */
  function Features(k: Key): (nat, char, nat, char, char)
    requires k.section != "" && k.key != ""
  {
    (|k.section|, Lower(k.section[0]), |k.key|, Lower(k.key[0]), Lower(k.key[if |k.key| > 6 then 6 else |k.key| - 1]))
  }

  ghost predicate HasFeatures(i: nat)
    requires i < KEYS
  {
    Entry(i).section != "" && Entry(i).key != "" && Features(Entry(i)) == FeatureTable(i)
  }

  lemma ClockFeatures(i: nat)
    requires i < 8
    ensures HasFeatures(i)
  {
  }

  lemma LedFeatures(i: nat)
    requires 8 <= i < 19
    ensures HasFeatures(i)
  {
  }

  lemma DisplayFeatures(i: nat)
    requires 19 <= i < 23
    ensures HasFeatures(i)
  {
  }

  lemma ProfileFeatures(i: nat)
    requires 23 <= i < KEYS
    ensures HasFeatures(i)
  {
  }

  lemma EntryFeatures(i: nat)
    requires i < KEYS
    ensures HasFeatures(i)
  {
    hide HasFeatures;
    if i < 8 {
      ClockFeatures(i);
    } else if i < 19 {
      LedFeatures(i);
    } else if i < 23 {
      DisplayFeatures(i);
    } else {
      ProfileFeatures(i);
    }
  }

  function FeatureTable(i: nat): (nat, char, nat, char, char)
    requires i < KEYS
  {
    match i
    case 0 => (5, 'c', 7, 'e', 'd')
    case 1 => (5, 'c', 14, 'p', 'y')
    case 2 => (5, 'c', 9, 's', 'a')
    case 3 => (5, 'c', 8, 't', 'r')
    case 4 => (5, 'c', 13, 'f', 'p')
    case 5 => (5, 'c', 15, 'f', 's')
    case 6 => (5, 'c', 14, 'f', 't')
    case 7 => (5, 'c', 10, 'd', 'r')
    case 8 => (3, 'l', 4, 'f', 'e')
    case 9 => (3, 'l', 8, 't', 'l')
    case 10 => (3, 'l', 1, 'a', 'a')
    case 11 => (3, 'l', 1, 'b', 'b')
    case 12 => (3, 'l', 1, 'd', 'd')
    case 13 => (3, 'l', 1, 'e', 'e')
    case 14 => (3, 'l', 2, 't', '1')
    case 15 => (3, 'l', 2, 't', '2')
    case 16 => (3, 'l', 2, 't', '3')
    case 17 => (3, 'l', 3, 'p', 'v')
    case 18 => (3, 'l', 6, 'c', 'h')
    case 19 => (10, 'b', 3, 'm', 'd')
    case 20 => (10, 'b', 3, 'l', 'd')
    case 21 => (5, 'm', 7, 'e', 'd')
    case 22 => (5, 'm', 5, 's', 'd')
    case 23 => (5, 'm', 13, 'r', 'e')
    case 24 => (8, 'p', 9, 'd', 'o')
    case 25 => (8, 'p', 13, 'c', 'e')
    case _ => (8, 'p', 13, 'c', 'l')
  }

  predicate Matches(i: nat, section: string, key: string)
    requires i < KEYS
  {
    SameName(Entry(i).key, key) && SameName(Entry(i).section, section)
  }

  lemma FeaturesDistinct(i: nat, j: nat)
    requires i < KEYS && j < KEYS && FeatureTable(i) == FeatureTable(j)
    ensures i == j
  {
  }

  /** No two entries have the same section and key, not even up to case. */
  lemma EntriesDistinct(i: nat, j: nat)
    requires i < KEYS && j < KEYS && Matches(i, Entry(j).section, Entry(j).key)
    ensures i == j
  {
    hide Entry, FeatureTable;
    EntryFeatures(i);
    EntryFeatures(j);
    FeaturesDistinct(i, j);
  }

  // ----- values and their texts --------------------------------------------------------------

  const LED_NAMES: seq<string> := ["off", "on", "red", "amber", "green"]
  const CLOCK_NAMES: seq<string> := ["12 hour", "24 hour"]
  const DATE_NAMES: seq<string> := ["DD-MM-YY", "MM-DD-YY", "YY-MM-DD"]

  /** The parser of each kind of key. None stands for EINVAL or ERANGE. */
  function Parse(kind: Kind, value: string): Option<Value> {
    match kind
    case BoolKind =>
      if SameName(value, "yes") || SameName(value, "true") then Some(Flag(true))
      else if SameName(value, "no") || SameName(value, "false") then Some(Flag(false))
      else None
    case StringKind => Some(Chars(if |value| < NAME_MAX then value else value[..NAME_MAX - 1]))
    case IntKind =>
      var n := ParseInt(value);
      if n.Some? then Some(Number(n.value)) else None
    case LedKind =>
      if SameName(value, "OFF") then Some(Number(0))
      else if SameName(value, "ON") then Some(Number(1))
      else if SameName(value, "RED") then Some(Number(2))
      else if SameName(value, "AMBER") then Some(Number(3))
      else if SameName(value, "GREEN") then Some(Number(4))
      else None
    case ClockFormatKind =>
      if SameName(value, "12hr") || SameName(value, "12") then Some(Number(0))
      else if SameName(value, "24hr") || SameName(value, "24") then Some(Number(1))
      else None
    case DateFormatKind =>
      if SameName(value, "ddmmyy") || SameName(value, "dd-mm-yy") then Some(Number(0))
      else if SameName(value, "mmddyy") || SameName(value, "mm-dd-yy") then Some(Number(1))
      else if SameName(value, "yymmdd") || SameName(value, "yy-mm-dd") then Some(Number(2))
      else None
  }

  function NameOr(names: seq<string>, n: int, unknown: string): string {
    if 0 <= n < |names| then names[n] else unknown + PrintInt(n)
  }

  /** A value has the type of its field. */
  predicate Typed(kind: Kind, v: Value) {
    match kind
    case BoolKind => v.Flag?
    case StringKind => v.Chars? && |v.text| < NAME_MAX && '\0' !in v.text
    case _ => v.Number? && IsInt(v.n)
  }

  /** The dumper of each kind of key, in the untranslated locale. */
  function Dump(kind: Kind, v: Value): string
    requires Typed(kind, v)
  {
    match kind
    case BoolKind => if v.on then "true" else "false"
    case StringKind => v.text
    case IntKind => PrintInt(v.n)
    case LedKind => NameOr(LED_NAMES, v.n, "Unknown LED state ")
    case ClockFormatKind => NameOr(CLOCK_NAMES, v.n, "Unknown clock format ")
    case DateFormatKind => NameOr(DATE_NAMES, v.n, "Unknown date format ")
  }

  /** The values that their dump parses back to. A clock format never is one: it is printed as "12 hour"
      or "24 hour", which the parser does not know. */
  predicate Redeemable(kind: Kind, v: Value) {
    match kind
    case LedKind => v.Number? && 0 <= v.n <= 4
    case ClockFormatKind => false
    case DateFormatKind => v.Number? && 0 <= v.n <= 2
    case _ => true
  }

  lemma Unlike(a: string, b: string)
    requires |a| != |b| || (a != "" && Lower(a[0]) != Lower(b[0]))
    ensures !SameName(a, b)
  {
  }

  lemma LedDumpParses(n: int)
    requires IsInt(n)
    ensures Parse(LedKind, Dump(LedKind, Number(n))) == if 0 <= n <= 4 then Some(Number(n)) else None
  {
    var text := NameOr(LED_NAMES, n, "Unknown LED state ");
    if 0 <= n <= 4 {
      LedNameParses(n);
    } else {
      assert |text| > 5;
    }
  }

  lemma LedNameParses(n: nat)
    requires n <= 4
    ensures Parse(LedKind, LED_NAMES[n]) == Some(Number(n))
  {
    hide SameName;
    LedNamesDiffer(n);
  }

  /** A printed LED state is the same as its own keyword only. */
  lemma LedNamesDiffer(n: nat)
    requires n <= 4
    ensures SameName(LED_NAMES[n], "OFF") <==> n == 0
    ensures SameName(LED_NAMES[n], "ON") <==> n == 1
    ensures SameName(LED_NAMES[n], "RED") <==> n == 2
    ensures SameName(LED_NAMES[n], "AMBER") <==> n == 3
    ensures SameName(LED_NAMES[n], "GREEN") <==> n == 4
  {
    var text := LED_NAMES[n];
    assert |text| == [3, 2, 3, 5, 5][n] && text[0] == ['o', 'o', 'r', 'a', 'g'][n];
    if n == 0 {
      assert SameName(text, "OFF");
    } else if n == 1 {
      assert SameName(text, "ON");
    } else if n == 2 {
      assert SameName(text, "RED");
    } else if n == 3 {
      assert SameName(text, "AMBER");
    } else {
      assert SameName(text, "GREEN");
    }
  }

  /** A field comes back from its own dump, and is rejected exactly when it is not redeemable. */
  lemma DumpParses(kind: Kind, v: Value)
    requires Typed(kind, v)
    ensures Parse(kind, Dump(kind, v)) == if Redeemable(kind, v) then Some(v) else None
  {
    match kind
    case BoolKind => BoolDumpParses(v.on);
    case StringKind =>
    case IntKind => ParsePrintInt(v.n);
    case LedKind => LedDumpParses(v.n);
    case ClockFormatKind => ClockDumpParses(v.n);
    case DateFormatKind => DateDumpParses(v.n);
  }

  lemma BoolDumpParses(on: bool)
    ensures Parse(BoolKind, if on then "true" else "false") == Some(Flag(on))
  {
    assert |"yes"| == 3 && |"no"| == 2 && |"true"| == 4 && |"false"| == 5;
  }

  lemma ClockDumpParses(n: int)
    requires IsInt(n)
    ensures Parse(ClockFormatKind, Dump(ClockFormatKind, Number(n))) == None
  {
    var text := NameOr(CLOCK_NAMES, n, "Unknown clock format ");
    assert |text| > 4;
  }

  lemma DateDumpParses(n: int)
    requires IsInt(n)
    ensures Parse(DateFormatKind, Dump(DateFormatKind, Number(n))) == if 0 <= n <= 2 then Some(Number(n)) else None
  {
    var text := NameOr(DATE_NAMES, n, "Unknown date format ");
    if 0 <= n <= 2 {
      DateNameParses(n);
    } else {
      assert |text| > 8;
    }
  }

  lemma DateNameParses(n: nat)
    requires n <= 2
    ensures Parse(DateFormatKind, DATE_NAMES[n]) == Some(Number(n))
  {
    hide SameName;
    DateNamesDiffer(n);
  }

  /** A printed date format has eight characters and is told by its first one. */
  lemma DateNamesDiffer(n: nat)
    requires n <= 2
    ensures !SameName(DATE_NAMES[n], "ddmmyy") && !SameName(DATE_NAMES[n], "mmddyy")
    ensures !SameName(DATE_NAMES[n], "yymmdd")
    ensures SameName(DATE_NAMES[n], "dd-mm-yy") <==> n == 0
    ensures SameName(DATE_NAMES[n], "mm-dd-yy") <==> n == 1
    ensures SameName(DATE_NAMES[n], "yy-mm-dd") <==> n == 2
  {
    hide SameName;
    var text := DATE_NAMES[n];
    assert |text| == 8 && text[0] == ['D', 'M', 'Y'][n];
    Unlike(text, "ddmmyy");
    Unlike(text, "mmddyy");
    Unlike(text, "yymmdd");
    if n == 0 {
      SameDate(text, "dd-mm-yy");
    } else {
      Unlike(text, "dd-mm-yy");
    }
    if n == 1 {
      SameDate(text, "mm-dd-yy");
    } else {
      Unlike(text, "mm-dd-yy");
    }
    if n == 2 {
      SameDate(text, "yy-mm-dd");
    } else {
      Unlike(text, "yy-mm-dd");
    }
  }

  lemma SameDate(a: string, b: string)
    requires (a == "DD-MM-YY" && b == "dd-mm-yy") || (a == "MM-DD-YY" && b == "mm-dd-yy")
          || (a == "YY-MM-DD" && b == "yy-mm-dd")
    ensures SameName(a, b)
  {
  }
}
