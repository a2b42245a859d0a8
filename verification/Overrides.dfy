/** Command-line overrides of the form section.key=value: how one is split, and the linked queue that
    holds them until the next load (daemon/x52d_config_parser.c:221-365). */
module Overrides {
  import opened Prelude
  import opened IniText
  import opened Ini

  /** What stands before and behind the first occurrence of a character that is not the first one. */
  function Halves(s: string, c: char): Option<(string, string)> {
    var i := IndexOf(s, c);
    if i == |s| || i == 0 then None else Some((s[..i], s[i + 1..]))
  }

  /** None stands for EINVAL: a missing or empty section, key or value. */
  function ParseOverride(s: string): Option<Call> {
    match Halves(s, '.')
    case None => None
    case Some((section, rest)) =>
      match Halves(rest, '=')
      case None => None
      case Some((key, value)) => if value == "" then None else Some(Call(section, key, value))
  }

  lemma {:induction false} IndexOfSplit(a: string, c: char, b: string)
    requires c !in a
    ensures IndexOf(a + [c] + b, c) == |a|
  {
    var s := a + [c] + b;
    if a == "" {
      assert s[0] == c;
    } else {
      assert s[1..] == a[1..] + [c] + b && s[0] == a[0];
      IndexOfSplit(a[1..], c, b);
    }
  }

  /** A string falls into two halves in one way only. */
  lemma HalvesOf(s: string, c: char, a: string, b: string)
    ensures Halves(s, c) == Some((a, b)) <==> s == a + [c] + b && a != "" && c !in a
  {
    hide IndexOf;
    if s == a + [c] + b && a != "" && c !in a {
      IndexOfSplit(a, c, b);
      assert s[..|a|] == a && s[|a| + 1..] == b;
    }
  }

  /** The accepted overrides, and what each one assigns: the section ends at the first '.', the key at the
      first '=' behind it, and no part is empty. */
  lemma OverrideShape(s: string, c: Call)
    ensures ParseOverride(s) == Some(c) <==>
              && s == c.section + "." + c.name + "=" + c.value
              && c.section != "" && '.' !in c.section
              && c.name != "" && '=' !in c.name && c.value != ""
  {
    hide Halves;
    var rest := c.name + ['='] + c.value;
    assert c.section + "." + c.name + "=" + c.value == c.section + ['.'] + rest;
    HalvesOf(s, '.', c.section, rest);
    HalvesOf(rest, '=', c.name, c.value);
    if ParseOverride(s) == Some(c) {
      var behind := Halves(s, '.').value.1;
      HalvesOf(behind, '=', c.name, c.value);
    }
  }

  /** The value is the end of the text. */
  lemma ValueIsTail(s: string)
    requires ParseOverride(s).Some? && NUL !in s
    ensures NUL !in ParseOverride(s).value.value
  {
    hide Halves;
    BehindIsTail(s, '.');
    BehindIsTail(Halves(s, '.').value.1, '=');
  }

  lemma BehindIsTail(s: string, c: char)
    requires NUL !in s
    ensures Halves(s, c).Some? ==> NUL !in Halves(s, c).value.1
  {
    hide IndexOf;
  }

  method Strchr(buf: array<char>, s: nat, c: char) returns (e: nat)
    requires Terminated(buf[..], s)
    ensures e == s + IndexOf(CStr(buf[..], s), c)
  {
    hide CStr;
    ghost var str := CStr(buf[..], s);
    e := s;
    assert str[0..] == str;
    while buf[e] != NUL && buf[e] != c
      invariant s <= e <= s + |str|
      invariant IndexOf(str, c) == e - s + IndexOf(str[e - s..], c)
      decreases s + |str| - e
    {
      assert e < s + |str| && str[e - s..][0] == buf[e];
      assert str[e - s..][1..] == str[e + 1 - s..];
      e := e + 1;
    }
    assert e < s + |str| ==> str[e - s..][0] == buf[e];
  }

  /** Ends the string at the first separator, which must not be its first character. */
  method CutHead(buf: array<char>, s: nat, c: char) returns (ok: bool, behind: nat)
    requires Terminated(buf[..], s)
    modifies buf
    ensures ok == Halves(old(CStr(buf[..], s)), c).Some?
    ensures ok ==>
              && s <= behind && Terminated(buf[..], s) && Terminated(buf[..], behind)
              && Halves(old(CStr(buf[..], s)), c) == Some((CStr(buf[..], s), CStr(buf[..], behind)))
              && buf[..s] == old(buf[..s]) && s + |CStr(buf[..], s)| < behind
  {
    hide CStr, IndexOf;
    ghost var str := CStr(buf[..], s);
    ok, behind := false, 0;
    var e := Strchr(buf, s, c);
    assert buf[e] == NUL <==> e == s + |str|;
    if buf[e] != NUL && e != s {
      CutInPlace(buf, s, e);
      ok, behind := true, e + 1;
    }
  }

  /** Splits a duplicate of the override in place, writing terminators over the separators. */
  method Split(text: string) returns (r: Option<Call>)
    requires NUL !in text
    ensures r == ParseOverride(text)
  {
    hide CStr, Halves;
    var buf := Strdup(text);
    var ok, key := CutHead(buf, 0, '.');
    if !ok {
      return None;
    }
    r := SplitKey(buf, key);
  }

  method Strdup(text: string) returns (buf: array<char>)
    requires NUL !in text
    ensures fresh(buf) && Terminated(buf[..], 0) && CStr(buf[..], 0) == text
  {
    buf := new char[|text| + 1](i => if 0 <= i < |text| then text[i] else NUL);
    assert buf[0..|text|] == text;
    CStrIs(buf[..], 0, text);
  }

  /** The rest of an override, once its section is cut off in front of the key. */
  method SplitKey(buf: array<char>, key: nat) returns (r: Option<Call>)
    requires Terminated(buf[..], 0) && Terminated(buf[..], key) && |CStr(buf[..], 0)| < key
    modifies buf
    ensures var section, halves := old(CStr(buf[..], 0)), Halves(old(CStr(buf[..], key)), '=');
            r == if halves.None? || halves.value.1 == "" then None
                 else Some(Call(section, halves.value.0, halves.value.1))
  {
    hide CStr, Halves;
    ghost var before := buf[..];
    var ok, value := CutHead(buf, key, '=');
    if !ok {
      return None;
    }
    KeptBefore(before, buf[..], key, 0);
    assert buf[value] == NUL <==> CStr(buf[..], value) == "";
    if buf[value] == NUL {
      return None;
    }
    r := Parts(buf, 0, key, value);
  }

  /** The three strings that the pieces of an override point to. */
  method Parts(buf: array<char>, section: nat, key: nat, value: nat) returns (r: Option<Call>)
    requires Terminated(buf[..], section) && Terminated(buf[..], key) && Terminated(buf[..], value)
    ensures r == Some(Call(CStr(buf[..], section), CStr(buf[..], key), CStr(buf[..], value)))
  {
    var sectionText := Text(buf, section);
    var keyText := Text(buf, key);
    var valueText := Text(buf, value);
    return Some(Call(sectionText, keyText, valueText));
  }

  /** struct x52d_config_override. */
  class Override {
    const section: string
    const key: string
    const value: string
    var next: Override?

    constructor (section: string, key: string, value: string)
      ensures this.section == section && this.key == key && this.value == value && next == null
    {
      this.section, this.key, this.value, this.next := section, key, value, null;
    }
  }

  /** The i-th node, if there is one. */
  ghost function At(nodes: seq<Override>, i: int): Override? {
    if 0 <= i < |nodes| then nodes[i] else null
  }

  /** The list behind override_head and override_tail. */
  class OverrideQueue {
    var head: Override?
    var tail: Override?
    ghost var nodes: seq<Override>
    ghost var contents: seq<Call>

    ghost predicate Valid()
      reads this, nodes
    {
      && head == At(nodes, 0) && tail == At(nodes, |nodes| - 1)
      && (forall i :: 0 <= i < |nodes| ==> nodes[i].next == At(nodes, i + 1))
      && (forall i, j :: 0 <= i < j < |nodes| ==> nodes[i] != nodes[j])
      && |contents| == |nodes|
      && (forall i :: 0 <= i < |nodes| ==> contents[i] == Call(nodes[i].section, nodes[i].key, nodes[i].value))
      && (forall i :: 0 <= i < |contents| ==> NUL !in contents[i].value)
    }

    constructor ()
      ensures Valid() && nodes == [] && contents == []
    {
      head, tail := null, null;
      nodes, contents := [], [];
    }

    /** x52d_config_save_override: a well-formed override goes to the end of the queue, another one leaves
        the queue as it was. */
    method Save(text: string) returns (ok: bool)
      requires Valid() && NUL !in text
      modifies this, nodes
      ensures Valid() && forall n :: n in nodes ==> n in old(nodes) || fresh(n)
      ensures ok == ParseOverride(text).Some?
      ensures contents == if ok then old(contents) + [ParseOverride(text).value] else old(contents)
    {
      hide ParseOverride;
      var parts := Split(text);
      if parts.None? {
        return false;
      }
      ValueIsTail(text);
      var entry := new Override(parts.value.section, parts.value.name, parts.value.value);
      Append(entry);
      ok := true;
    }

    /** Links a new node behind the tail. */
    method Append(entry: Override)
      requires Valid() && entry !in nodes && entry.next == null && NUL !in entry.value
      modifies this, nodes
      ensures Valid() && nodes == old(nodes) + [entry]
      ensures contents == old(contents) + [Call(entry.section, entry.key, entry.value)]
    {
      if tail != null {
        tail.next := entry;
      }
      tail := entry;
      if head == null {
        head := entry;
      }
      nodes, contents := nodes + [entry], contents + [Call(entry.section, entry.key, entry.value)];
    }

    /** x52d_config_clear_overrides. */
    method Clear()
      requires Valid()
      modifies this
      ensures Valid() && contents == [] && nodes == []
    {
      while head != null
        invariant head == At(nodes, 0)
        invariant forall i :: 0 <= i < |nodes| ==> nodes[i].next == At(nodes, i + 1)
        decreases |nodes|
      {
        head := head.next;
        nodes := nodes[1..];
      }
      tail := null;
      contents := [];
    }
  }
}
