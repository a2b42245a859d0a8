/** The configuration as the daemon works with it: a struct written field by field, a file parsed and
    written line by line, and the overrides applied and dropped on the next load
    (daemon/x52d_config.c, daemon/x52d_config_parser.c, daemon/x52d_config_dump.c). */
module Configuration {
  import opened Prelude
  import opened IniText
  import opened Config
  import opened ConfigStore
  import opened Overrides
  import opened Ini

  /** What a zeroed field holds. */
  function Zero(kind: Kind): (v: Value)
    ensures Typed(kind, v)
  {
    match kind
    case BoolKind => Flag(false)
    case StringKind => Chars("")
    case _ => Number(0)
  }

  /** struct x52d_config. */
  class ConfigStruct {
    var fields: Store

    ghost predicate Valid()
      reads this
    {
      WellTyped(fields)
    }

    constructor ()
      ensures Valid()
    {
      fields := seq(KEYS, i requires 0 <= i < KEYS => Zero(Entry(i).kind));
    }

    /** The parser of an entry, writing through its offset. */
    method RunParser(i: nat, value: string) returns (ok: bool)
      requires Valid() && i < KEYS && NUL !in value
      modifies this
      ensures Valid()
      ensures ok == Parse(Entry(i).kind, value).Some?
      ensures fields == if ok then old(fields)[i := Parse(Entry(i).kind, value).value] else old(fields)
    {
      hide Parse, Typed;
      var parsed := Parse(Entry(i).kind, value);
      ok := parsed.Some?;
      if ok {
        ParseTyped(Entry(i).kind, value);
        fields := fields[i := parsed.value];
      }
    }

    /** x52d_config_process_kv, which also serves as x52d_config_set. */
    method ProcessKv(section: string, key: string, value: string) returns (ok: bool)
      requires Valid() && NUL !in value
      modifies this
      ensures Valid() && (fields, ok) == Assign(old(fields), Call(section, key, value))
    {
      hide Parse, Typed, Entry, SameName;
      ok := true;
      var i: nat := 0;
      while i < KEYS
        invariant i <= KEYS && fields == old(fields) && ok
        invariant KeyIndex(section, key, 0) == KeyIndex(section, key, i)
      {
        if SameName(Entry(i).key, key) && SameName(Entry(i).section, section) {
          ok := RunParser(i, value);
          return;
        }
        i := i + 1;
      }
    }

    /** x52d_config_set_defaults, which never fails. */
    method SetDefaults() returns (ok: bool)
      requires Valid()
      modifies this
      ensures Valid() && ok && fields == Defaults()
    {
      hide Assign, AssignUntil, Entry;
      ghost var calls := DefaultCalls(KEYS);
      DefaultsForget(fields);
      AssignUntilNone(fields);
      assert calls[..0] == [];
      var i: nat := 0;
      while i < KEYS
        invariant i <= KEYS && Valid()
        invariant AssignUntil(old(fields), calls[..i]) == (fields, true)
      {
        AssignUntilStep(old(fields), calls, i);
        NoNulInDefaults(i);
        ok := ProcessKv(Entry(i).section, Entry(i).key, Entry(i).default);
        if !ok {
          AssignUntilStops(old(fields), calls, i + 1);
          assert false;
        }
        i := i + 1;
      }
      assert calls[..KEYS] == calls;
      ok := true;
    }

    /** The calls of the file parser, one after another. A rejected value is skipped. */
    method ProcessAll(calls: seq<Call>)
      requires Valid() && forall k :: 0 <= k < |calls| ==> NUL !in calls[k].value
      modifies this
      ensures Valid() && fields == AssignAll(old(fields), calls)
    {
      hide Assign;
      var i: nat := 0;
      while i < |calls|
        invariant i <= |calls| && Valid()
        invariant fields == AssignAll(old(fields), calls[..i])
      {
        assert calls[..i + 1][..i] == calls[..i];
        var _ := ProcessKv(calls[i].section, calls[i].name, calls[i].value);
        i := i + 1;
      }
      assert calls[..i] == calls;
    }

    /** x52d_config_load_file. Fails only when there is no file: the parser's line number of the first bad
        line or rejected value is ignored. */
    method LoadFile(file: Option<string>) returns (ok: bool)
      requires Valid()
      modifies this
      ensures Valid() && ok == file.Some?
      ensures fields == if ok then AssignAll(old(fields), FileCalls(file.value)) else old(fields)
    {
      hide Calls, Lines, AssignAll, ErrorLine, Accepted;
      if file.None? {
        return false;
      }
      var text := file.value;
      var reader := new StringReader(text);
      var parser := new Parser();
      var handled := FileCalls(text);
      var line, calls := parser.ParseStream(reader, (n: nat) => n < |handled| && !Accepted(handled[n]));
      FileCallsOneLine(text);
      assert forall k :: 0 <= k < |calls| ==> OneLine(calls[k].value) && NUL !in calls[k].value;
      ProcessAll(calls);
      ok := true;
    }

    /** x52d_config_apply_overrides: in the order given, up to the first rejected one. */
    method ApplyOverrides(queue: OverrideQueue) returns (ok: bool)
      requires Valid() && queue.Valid()
      modifies this
      ensures Valid() && (fields, ok) == AssignUntil(old(fields), queue.contents)
    {
      hide Assign, AssignUntil;
      ghost var calls := queue.contents;
      var node := queue.head;
      ghost var i: nat := 0;
      AssignUntilNone(fields);
      while node != null
        invariant i <= |calls| && Valid() && node == At(queue.nodes, i)
        invariant AssignUntil(old(fields), calls[..i]) == (fields, true)
        decreases |calls| - i
      {
        AssignUntilStep(old(fields), calls, i);
        ok := ProcessKv(node.section, node.key, node.value);
        if !ok {
          AssignUntilStops(old(fields), calls, i + 1);
          return;
        }
        node := node.next;
        i := i + 1;
      }
      assert calls[..i] == calls;
      ok := true;
    }

    /** x52d_config_save_file. A section header is printed whenever the section changes. */
    method SaveFile(opens: bool) returns (written: Option<string>)
      requires Valid()
      ensures written == if opens then Some(SaveText(fields)) else None
    {
      hide Entry, Dump, SameName, PairLine, HeaderLine, Typed;
      if !opens {
        return None;
      }
      var text := "";
      var currentSection: Option<string> := None;
      var i: nat := 0;
      while i < KEYS
        invariant i <= KEYS && text == Concat(SaveLines(fields, 0, i))
        invariant if i == 0 then currentSection.None? else currentSection == Some(Entry(i - 1).section)
      {
        var section, key := Entry(i).section, Entry(i).key;
        ConcatLines(SaveLines(fields, 0, i), EntryLines(fields, i));
        EntryText(fields, i);
        if currentSection.None? || !SameName(currentSection.value, section) {
          currentSection := Some(section);
          text := text + HeaderLine(section);
        } else {
          SameSection(i);
        }
        text := text + PairLine(key, Dump(Entry(i).kind, fields[i]));
        i := i + 1;
      }
      return Some(text);
    }

    /** x52d_config_get_param. None stands for NULL. */
    method GetParam(section: string, key: string) returns (r: Option<string>)
      requires Valid()
      ensures r == Lookup(fields, section, key)
    {
      hide Entry, Dump, SameName, Typed;
      var i: nat := 0;
      while i < KEYS
        invariant i <= KEYS && KeyIndex(section, key, 0) == KeyIndex(section, key, i)
      {
        if SameName(section, Entry(i).section) && SameName(key, Entry(i).key) {
          SameNameSymmetric(section, Entry(i).section);
          SameNameSymmetric(key, Entry(i).key);
          return Some(Dump(Entry(i).kind, fields[i]));
        }
        if Matches(i, section, key) {
          SameNameSymmetric(Entry(i).section, section);
          SameNameSymmetric(Entry(i).key, key);
        }
        i := i + 1;
      }
      r := None;
    }
  }

  /** The static configuration of daemon/x52d_config.c, with the queue of overrides. */
  class ConfigModule {
    const cfg: ConfigStruct
    const overrides: OverrideQueue

    ghost predicate Valid()
      reads this, cfg, overrides, overrides.nodes
    {
      cfg.Valid() && overrides.Valid()
    }

    constructor ()
      ensures Valid() && overrides.contents == [] && fresh(cfg) && fresh(overrides)
    {
      cfg := new ConfigStruct();
      overrides := new OverrideQueue();
    }

    /** x52d_config_load. The program ends when it returns false; otherwise no override is left for a later
        load. */
    method Load(file: Option<string>) returns (ok: bool)
      requires Valid()
      modifies cfg, overrides
      ensures Valid()
      ensures (cfg.fields, ok) == ConfigStore.Load(old(cfg.fields), OptionCalls(file), old(overrides.contents))
      ensures ok ==> overrides.contents == []
    {
      hide AssignAll, AssignUntil, FileCalls, Parse, Typed;
      DefaultsForget(cfg.fields);
      ok := cfg.SetDefaults();
      ok := cfg.LoadFile(file);
      if !ok {
        return;
      }
      ok := cfg.ApplyOverrides(overrides);
      overrides.Clear();
    }
  }

  function OptionCalls(file: Option<string>): Option<seq<Call>> {
    if file.None? then None else Some(FileCalls(file.value))
  }

  /** What x52d_config_get_param answers. */
  function Lookup(store: Store, section: string, key: string): Option<string>
    requires |store| == KEYS && forall i :: 0 <= i < KEYS ==> Typed(Entry(i).kind, store[i])
  {
    var i := KeyIndex(section, key, 0);
    if i == KEYS then None else Some(Dump(Entry(i).kind, store[i]))
  }

  /** Setting one key changes what that key reads as, and no other key. */
  lemma SetChangesOneKey(store: Store, c: Call, section: string, key: string)
    requires WellTyped(store) && NUL !in c.value
    ensures WellTyped(Assign(store, c).0)
    ensures var i := KeyIndex(section, key, 0);
            Lookup(Assign(store, c).0, section, key)
              == if i < KEYS && Effect(c, i).Some? then Some(Dump(Entry(i).kind, Effect(c, i).value))
                 else Lookup(store, section, key)
  {
    hide Parse, Typed, Dump, Matches, Entry, Assign, Effect;
    AssignTyped(store, c);
    var i := KeyIndex(section, key, 0);
    if i < KEYS {
      AssignSlot(store, c, i);
    }
  }

  /** A reload does not depend on what was loaded or set before. */
  lemma LoadForgets(a: Store, b: Store, file: Option<seq<Call>>, overrides: seq<Call>)
    requires |a| == KEYS && |b| == KEYS
    ensures ConfigStore.Load(a, file, overrides) == ConfigStore.Load(b, file, overrides)
  {
    hide AssignAll, AssignUntil;
    DefaultsForget(a);
    DefaultsForget(b);
  }

  lemma SameNameSymmetric(a: string, b: string)
    ensures SameName(a, b) == SameName(b, a)
  {
  }

  lemma AssignUntilNone(store: Store)
    requires |store| == KEYS
    ensures AssignUntil(store, []) == (store, true)
  {
  }

  lemma AssignUntilStep(store: Store, calls: seq<Call>, i: nat)
    requires |store| == KEYS && i < |calls| && AssignUntil(store, calls[..i]).1
    ensures AssignUntil(store, calls[..i + 1]) == Assign(AssignUntil(store, calls[..i]).0, calls[i])
  {
    hide Assign, AssignUntil;
    assert calls[..i + 1] == calls[..i] + [calls[i]];
    AssignUntilSnoc(store, calls[..i], calls[i]);
  }

  lemma AssignUntilSnoc(store: Store, init: seq<Call>, c: Call)
    requires |store| == KEYS && AssignUntil(store, init).1
    ensures AssignUntil(store, init + [c]) == Assign(AssignUntil(store, init).0, c)
  {
    hide Assign;
    var calls := init + [c];
    assert calls[..|calls| - 1] == init && calls[|calls| - 1] == c;
  }

  /** Nothing happens after a rejection. */
  lemma {:induction false} AssignUntilStops(store: Store, calls: seq<Call>, i: nat)
    requires |store| == KEYS && i <= |calls| && !AssignUntil(store, calls[..i]).1
    ensures AssignUntil(store, calls) == AssignUntil(store, calls[..i])
    decreases |calls|
  {
    hide Assign;
    if i < |calls| {
      var init := calls[..|calls| - 1];
      assert init[..i] == calls[..i];
      AssignUntilStops(store, init, i);
    } else {
      assert calls[..i] == calls;
    }
  }

  lemma NoNulInDefaults(i: nat)
    requires i < KEYS
    ensures NUL !in Entry(i).default
  {
    hide Entry;
    DefaultTexts(i);
    StringDefaults(i);
  }

  // ----- the printed text --------------------------------------------------------------------

  lemma {:induction false} ConcatLines(a: seq<string>, b: seq<string>)
    ensures Concat(a + b) == Concat(a) + Concat(b)
    decreases |a|
  {
    if a == [] {
      assert a + b == b;
    } else {
      assert (a + b)[1..] == a[1..] + b;
      ConcatLines(a[1..], b);
    }
  }

  lemma EntryText(store: Store, i: nat)
    requires i < KEYS && |store| == KEYS && Typed(Entry(i).kind, store[i])
    ensures Concat(EntryLines(store, i))
         == (if OpensSection(i) then HeaderLine(Entry(i).section) else "")
            + PairLine(Entry(i).key, Dump(Entry(i).kind, store[i]))
  {
    hide Entry, OpensSection, Dump, HeaderLine, PairLine;
    var pair := PairLine(Entry(i).key, Dump(Entry(i).kind, store[i]));
    assert Concat([pair]) == pair + Concat([]) == pair;
    if OpensSection(i) {
      assert EntryLines(store, i)[1..] == [pair];
    } else {
      assert EntryLines(store, i) == [pair];
    }
  }
}
