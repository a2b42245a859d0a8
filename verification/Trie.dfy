/** The byte trie of libx52util/x52_char_map_gen.py as a value: what an insertion does to the set of
    paths, and what a series of insertions leaves behind. */
module Trie {
  import opened Prelude
  import opened Utf8

  type Path = seq<byte>

  /** Every node by its path from the root; the payload is the node's map_value. */
  type Trie = map<Path, Option<byte>>

  datatype Mapping = Mapping(code: Scalar, value: byte)

  ghost predicate Prefix(p: Path, path: Path) {
    1 <= |p| && p <= path
  }

  /** Inserting at a path creates the missing nodes on the way, and puts a new node in place at the end:
      whatever hung below that position is gone. */
  ghost function Insert(t: Trie, path: Path, value: byte): Trie {
    map p | p in t.Keys + (set k | 1 <= k <= |path| :: path[..k]) && !(path < p) ::
      if p == path then Some(value) else if p in t then t[p] else None
  }

  lemma InsertAt(t: Trie, path: Path, value: byte, p: Path)
    ensures p in Insert(t, path, value) <==> !(path < p) && (p in t || Prefix(p, path))
    ensures p in Insert(t, path, value) ==>
              Insert(t, path, value)[p] == if p == path then Some(value) else if p in t then t[p] else None
  {
    if Prefix(p, path) {
      assert p == path[..|p|];
    }
  }

  ghost function Built(ms: seq<Mapping>): Trie {
    if ms == [] then map[] else
      var last := ms[|ms| - 1];
      Insert(Built(ms[..|ms| - 1]), Encode(last.code), last.value)
  }

  /** The value of the last mapping for a character. */
  function Lookup(ms: seq<Mapping>, c: Scalar): Option<byte> {
    if ms == [] then None
    else if ms[|ms| - 1].code == c then Some(ms[|ms| - 1].value)
    else Lookup(ms[..|ms| - 1], c)
  }

  /** A nonempty prefix of the encoding of an inserted character. */
  ghost predicate Reached(ms: seq<Mapping>, p: Path) {
    exists c: Scalar :: Lookup(ms, c).Some? && Prefix(p, Encode(c))
  }

  /** The full encoding of an inserted character. */
  ghost predicate Spelled(ms: seq<Mapping>, p: Path) {
    exists c: Scalar :: Lookup(ms, c).Some? && p == Encode(c)
  }

  /** The trie invariant: the nodes are the nonempty prefixes of encodings of inserted characters, the
      entries are the full encodings, and an entry holds the last value inserted for its character. */
  ghost predicate Represents(t: Trie, ms: seq<Mapping>) {
    && (forall p :: p in t <==> Reached(ms, p))
    && (forall p :: p in t ==> (t[p].Some? <==> Spelled(ms, p)))
    && (forall c: Scalar :: Lookup(ms, c).Some? ==> Encode(c) in t && t[Encode(c)] == Lookup(ms, c))
  }

  lemma ReachedBy(ms: seq<Mapping>, p: Path) returns (c: Scalar)
    requires Reached(ms, p)
    ensures Lookup(ms, c).Some? && Prefix(p, Encode(c))
  {
    hide Encode, Lookup;
    c :| Lookup(ms, c).Some? && Prefix(p, Encode(c));
  }

  lemma SpelledBy(ms: seq<Mapping>, p: Path) returns (c: Scalar)
    requires Spelled(ms, p)
    ensures Lookup(ms, c).Some? && p == Encode(c)
  {
    hide Encode, Lookup;
    c :| Lookup(ms, c).Some? && p == Encode(c);
  }

  lemma Reaches(ms: seq<Mapping>, p: Path, c: Scalar)
    requires Lookup(ms, c).Some? && Prefix(p, Encode(c))
    ensures Reached(ms, p) && (p == Encode(c) ==> Spelled(ms, p))
  {
    hide Encode, Lookup;
  }

  /** One insertion of an encoded character never removes a node: nothing can hang below its end. */
  lemma InsertDropsNothing(ms: seq<Mapping>, c: Scalar, p: Path)
    requires Reached(ms, p)
    ensures !(Encode(c) < p)
  {
    hide Encode, Lookup, Reached;
    if Encode(c) < p {
      var d := ReachedBy(ms, p);
      PrefixFree(c, d);
    }
  }

  lemma LookupSnoc(ms: seq<Mapping>, m: Mapping, c: Scalar)
    ensures Lookup(ms + [m], c) == if c == m.code then Some(m.value) else Lookup(ms, c)
  {
    assert (ms + [m])[..|ms|] == ms;
  }

  lemma ReachedSnoc(ms: seq<Mapping>, m: Mapping, p: Path)
    ensures Reached(ms + [m], p) <==> Reached(ms, p) || Prefix(p, Encode(m.code))
    ensures Spelled(ms + [m], p) <==> Spelled(ms, p) || p == Encode(m.code)
  {
    hide Encode, Lookup, Reached, Spelled;
    LookupSnoc(ms, m, m.code);
    if Prefix(p, Encode(m.code)) {
      Reaches(ms + [m], p, m.code);
    }
    if Reached(ms, p) {
      var c := ReachedBy(ms, p);
      LookupSnoc(ms, m, c);
      Reaches(ms + [m], p, c);
    }
    if Reached(ms + [m], p) {
      var c := ReachedBy(ms + [m], p);
      LookupSnoc(ms, m, c);
      if c != m.code {
        Reaches(ms, p, c);
      }
    }
    if Spelled(ms, p) {
      var c := SpelledBy(ms, p);
      LookupSnoc(ms, m, c);
      Reaches(ms + [m], p, c);
    }
    if Spelled(ms + [m], p) {
      var c := SpelledBy(ms + [m], p);
      LookupSnoc(ms, m, c);
      if c != m.code {
        Reaches(ms, p, c);
      }
    }
  }

  lemma InsertRepresents(t: Trie, ms: seq<Mapping>, m: Mapping)
    requires Represents(t, ms)
    ensures Represents(Insert(t, Encode(m.code), m.value), ms + [m])
  {
    hide Encode, Lookup, Insert, Reached, Spelled;
    var path, t' := Encode(m.code), Insert(t, Encode(m.code), m.value);
    var ms' := ms + [m];
    forall p
      ensures p in t' <==> Reached(ms', p)
      ensures p in t' ==> (t'[p].Some? <==> Spelled(ms', p))
    {
      ReachedSnoc(ms, m, p);
      InsertAt(t, path, m.value, p);
      if p in t {
        InsertDropsNothing(ms, m.code, p);
      } else if Spelled(ms, p) {
        var c := SpelledBy(ms, p);
        Reaches(ms, p, c);
      }
    }
    forall c: Scalar | Lookup(ms', c).Some?
      ensures Encode(c) in t' && t'[Encode(c)] == Lookup(ms', c)
    {
      LookupSnoc(ms, m, c);
      InsertAt(t, path, m.value, Encode(c));
      if c != m.code {
        if Encode(c) == path {
          PrefixFree(c, m.code);
        }
        InsertDropsNothing(ms, m.code, Encode(c));
      }
    }
  }

  lemma EmptyRepresents()
    ensures Represents(map[], [])
  {
    hide Encode, Reached, Spelled;
    forall p
      ensures !Reached([], p) && !Spelled([], p)
    {
      if Reached([], p) {
        var c := ReachedBy([], p);
      }
      if Spelled([], p) {
        var c := SpelledBy([], p);
      }
    }
  }

  /** Whatever is inserted, in whatever order, the trie invariant holds. */
  lemma {:induction false} BuiltRepresents(ms: seq<Mapping>)
    ensures Represents(Built(ms), ms)
  {
    hide Encode, Lookup, Insert, Reached, Spelled;
    if ms == [] {
      EmptyRepresents();
    } else {
      var init := ms[..|ms| - 1];
      BuiltRepresents(init);
      InsertRepresents(Built(init), init, ms[|ms| - 1]);
      assert init + [ms[|ms| - 1]] == ms;
    }
  }

  ghost predicate HasChild(t: Trie, p: Path) {
    exists b: byte :: p + [b] in t
  }

  /** What the emitter and the lookup rely on: paths are short, closed under prefixes, start above the
      continuation range and continue inside it. */
  ghost predicate WellShaped(t: Trie) {
    && (forall p :: p in t ==> 1 <= |p| <= 4)
    && (forall p, k :: p in t && 1 <= k <= |p| ==> p[..k] in t)
    && (forall p, i :: p in t && 1 <= i < |p| ==> Continuation(p[i]))
    && (forall p :: p in t && HasChild(t, p) ==> p[0] != 0)
  }

  /** Interior nodes are never entries and always have a child; entries never have one. */
  lemma EntriesAreLeaves(t: Trie, ms: seq<Mapping>, p: Path)
    requires Represents(t, ms) && p in t
    ensures t[p].None? <==> HasChild(t, p)
  {
    hide Encode, Lookup, Reached, Spelled;
    var c := ReachedBy(ms, p);
    if t[p].Some? {
      var e := SpelledBy(ms, p);
      if b: byte :| p + [b] in t {
        InsertDropsNothing(ms, e, p + [b]);
      }
    } else {
      if p == Encode(c) {
        Reaches(ms, p, c);
      }
      var q := Encode(c)[..|p| + 1];
      Reaches(ms, q, c);
      assert q == p + [q[|p|]];
    }
  }

  lemma RepresentsWellShaped(t: Trie, ms: seq<Mapping>)
    requires Represents(t, ms)
    ensures WellShaped(t)
  {
    hide Encode, Lookup, Reached, Spelled;
    forall p | p in t
      ensures 1 <= |p| <= 4
      ensures forall i :: 1 <= i < |p| ==> Continuation(p[i])
    {
      var c := ReachedBy(ms, p);
      EncodeShape(c);
    }
    forall p, k | p in t && 1 <= k <= |p|
      ensures p[..k] in t
    {
      var c := ReachedBy(ms, p);
      Reaches(ms, p[..k], c);
    }
    forall p | p in t && HasChild(t, p)
      ensures p[0] != 0
    {
      var b: byte :| p + [b] in t;
      var c := ReachedBy(ms, p + [b]);
      EncodeShape(c);
      assert (p + [b])[0] == p[0] == Encode(c)[0];
    }
  }
}
