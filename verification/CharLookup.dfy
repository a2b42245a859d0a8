/** libx52util_convert_utf8_string (libx52util/x52_char_map_lookup.c): the streaming lookup on any bytes,
    on texts, and on texts with characters cut short, and how it compares with its documentation. */
module CharLookup {
  import opened Prelude
  import opened Utf8
  import opened Trie
  import opened CharTables

  datatype Status = Ok | BadArgument | TooBig

  /** What the tables say about a whole character. */
  function Glyph(image: Image, c: Scalar): Cell {
    Walk(image, Encode(c))
  }

  /** No character ends inside another one: what prefix-freeness of UTF-8 makes of any generated file. */
  ghost predicate Unambiguous(image: Image) {
    && (forall c: Scalar :: !Glyph(image, c).PointerTo?)
    && (forall c: Scalar, j :: 1 <= j < |Encode(c)| ==> !Walk(image, Encode(c)[..j]).EntryOf?)
  }

  /** The output for a text, before it is cut: the glyphs of its leading characters that all have one. */
  function Converted(image: Image, cs: seq<Scalar>): seq<byte> {
    if cs == [] || !Glyph(image, cs[0]).EntryOf? then [] else
      [Glyph(image, cs[0]).value] + Converted(image, cs[1..])
  }

  /** The bytes are a text without U+0000, then a zero byte. */
  ghost predicate Spells(input: seq<byte>, cs: seq<Scalar>) {
    && (forall k :: 0 <= k < |cs| ==> cs[k] != 0)
    && input == EncodeAll(cs) + [0]
  }

  // ----- any bytes ---------------------------------------------------------------------------

  /** The cell of a byte that starts a character. */
  function First(image: Image, s: seq<byte>): Cell {
    if s == [] then Invalid else CellAt(image.root, s[0])
  }

  /** The output for the bytes s, before it is cut, when the lookup has reached `entry` with the first of
      them. A character that is cut short is skipped, an unmapped one ends the output. */
  function Outputs(image: Image, s: seq<byte>, entry: Cell): seq<byte>
    decreases |s|
  {
    if s == [] then [] else
      var rest := s[1..];
      match entry
      case EntryOf(v) => [v] + Outputs(image, rest, First(image, rest))
      case PointerTo(name) =>
        if rest != [] && Continuation(rest[0]) then Outputs(image, rest, Follow(image, name, rest[0] % 0x40))
        else Outputs(image, rest, First(image, rest))
      case Invalid => []
  }

  function ConvertBytes(image: Image, s: seq<byte>): seq<byte> {
    Outputs(image, s, First(image, s))
  }

  /** The position at or after i that is no continuation byte. */
  method SkipContinuation(input: array<byte>, i: nat, ghost end: nat) returns (j: nat)
    requires i <= end < input.Length && input[end] == 0
    ensures i <= j <= end && !Continuation(input[j])
    ensures forall k :: i <= k < j ==> Continuation(input[k])
  {
    j := i;
    while input[j] >= 0x80 && input[j] < 0xC0
      invariant i <= j <= end && forall k :: i <= k < j ==> Continuation(input[k])
      decreases end - j
    {
      j := j + 1;
    }
  }

  /** One step of the lookup. */
  lemma OutputsStep(image: Image, input: seq<byte>, end: nat, pos: nat, entry: Cell)
    requires pos < end < |input| && input[end] == 0
    ensures var next, rest := input[pos + 1], input[pos + 1..end];
            && (entry.EntryOf? ==>
                 Outputs(image, input[pos..end], entry)
                   == [entry.value] + Outputs(image, rest, CellAt(image.root, next)))
            && (entry.PointerTo? ==>
                 Outputs(image, input[pos..end], entry)
                   == Outputs(image, rest, if Continuation(next) then Follow(image, entry.name, next % 0x40)
                                           else CellAt(image.root, next)))
            && (entry == Invalid ==> Outputs(image, input[pos..end], entry) == [])
  {
    hide CellAt, Follow;
    var rest := input[pos + 1..end];
    assert input[pos..end][1..] == rest;
    assert rest != [] ==> First(image, rest) == CellAt(image.root, input[pos + 1]);
    assert forall e: Cell :: rest == [] ==> Outputs(image, rest, e) == [];
  }

  /** The conversion of a NUL-terminated string into a buffer of `len` bytes, for any bytes at all: the
      output is cut to the buffer, and a buffer that is just filled counts as too small. */
  method Convert(image: Image, input: array<byte>, output: array<byte>, len: nat, ghost end: nat)
    returns (status: Status, written: nat)
    requires end < input.Length && input[end] == 0 && (forall i :: 0 <= i < end ==> input[i] != 0)
    requires len <= output.Length && output != input
    modifies output
    ensures len == 0 ==> status == BadArgument && output[..] == old(output[..])
    ensures len > 0 ==>
              var want := ConvertBytes(image, input[..end]);
              && written == Min(|want|, len)
              && output[..written] == want[..written]
              && output[written..] == old(output[written..])
              && status == if |want| >= len then TooBig else Ok
  {
    hide Outputs, CellAt, Follow;
    if len == 0 {
      return BadArgument, len;
    }
    ghost var bytes, was, want := input[..], output[..], ConvertBytes(image, input[..end]);
    status := Ok;
    var index: nat := 0;
    var pos: nat := 0;
    var entry := CellAt(image.root, input[0]);
    assert bytes[..end] == input[..end] == bytes[0..end];
    NothingLeft(image, entry);
    while input[pos] != 0
      invariant pos <= end && index < len && status == Ok
      invariant index <= |want| && want[index..] == Outputs(image, bytes[pos..end], entry)
      invariant output[..] == want[..index] + was[index..]
      decreases end - pos
    {
      OutputsStep(image, bytes, end, pos, entry);
      if entry.EntryOf? {
        pos := pos + 1;
        Written(want, was, index, entry.value);
        ghost var now := output[..][index := entry.value];
        output[index] := entry.value;
        assert output[..] == now;
        index := index + 1;
        if index >= len {
          status := TooBig;
          break;
        }
        entry := CellAt(image.root, input[pos]);
      } else if entry.PointerTo? {
        pos := pos + 1;
        var localIndex := input[pos];
        if localIndex < 0x80 || localIndex >= 0xC0 {
          pos := SkipContinuation(input, pos, end);
          entry := CellAt(image.root, input[pos]);
        } else {
          entry := Follow(image, entry.name, localIndex % 0x40);
        }
      } else {
        pos := pos + 1;
        pos := SkipContinuation(input, pos, end);
        DeadForGood(image, bytes[pos..end]);
      }
    }
    NothingLeft(image, entry);
    assert status == Ok ==> pos == end && bytes[pos..end] == [];
    written := index;
  }

  /** One more byte of the output in place. */
  lemma Written(want: seq<byte>, was: seq<byte>, index: nat, v: byte)
    requires index < |want| && want[index] == v && index < |was|
    ensures (want[..index] + was[index..])[index := v] == want[..index + 1] + was[index + 1..]
  {
  }

  lemma NothingLeft(image: Image, entry: Cell)
    ensures Outputs(image, [], entry) == [] && First(image, []) == Invalid
    ensures Outputs(image, [], First(image, [])) == []
  {
  }

  lemma DeadForGood(image: Image, s: seq<byte>)
    ensures Outputs(image, s, Invalid) == []
  {
  }

  // ----- texts -------------------------------------------------------------------------------

  lemma {:induction false} DeadEnd(image: Image, p: Path, n: nat)
    requires 1 <= n <= |p| && Walk(image, p[..n]) == Invalid
    ensures Walk(image, p) == Invalid
    decreases |p| - n
  {
    if n < |p| {
      assert p[..n + 1][..n] == p[..n];
      DeadEnd(image, p, n + 1);
    } else {
      assert p[..n] == p;
    }
  }

  /** The output for a path of continuation bytes, of which j have been consumed, and what follows it. */
  lemma {:induction false} PathOutput(image: Image, e: Path, j: nat, rest: seq<byte>)
    requires 1 <= j <= |e| && (forall i :: 1 <= i < |e| ==> Continuation(e[i]))
    requires forall i :: j <= i < |e| ==> !Walk(image, e[..i]).EntryOf?
    requires rest != [] ==> !Continuation(rest[0])
    ensures var cell := Walk(image, e);
            Outputs(image, e[j - 1..] + rest, Walk(image, e[..j]))
              == if cell.EntryOf? then [cell.value] + ConvertBytes(image, rest)
                 else if cell.PointerTo? then ConvertBytes(image, rest)
                 else []
    decreases |e| - j
  {
    hide Follow, CellAt;
    var s, cell := e[j - 1..] + rest, Walk(image, e[..j]);
    if j == |e| {
      assert e[..j] == e && s[1..] == rest;
    } else {
      assert s[1..] == e[j..] + rest && s[1..][0] == e[j];
      assert e[..j + 1][..j] == e[..j];
      if cell.PointerTo? {
        PathOutput(image, e, j + 1, rest);
      } else {
        DeadEnd(image, e, j);
      }
    }
  }

  /** The output for one character, cut short after n bytes or whole, and what follows it. */
  lemma CharacterOutput(image: Image, c: Scalar, n: nat, rest: seq<byte>)
    requires Unambiguous(image) && 1 <= n <= |Encode(c)| && (rest != [] ==> !Continuation(rest[0]))
    ensures var cell := Walk(image, Encode(c)[..n]);
            ConvertBytes(image, Encode(c)[..n] + rest)
              == if cell.EntryOf? then [cell.value] + ConvertBytes(image, rest)
                 else if cell.PointerTo? then ConvertBytes(image, rest)
                 else []
  {
    hide Encode, Walk, CellAt, Outputs;
    var e := Encode(c)[..n];
    EncodeShape(c);
    forall i | 1 <= i < n
      ensures !Walk(image, e[..i]).EntryOf?
    {
      assert e[..i] == Encode(c)[..i];
    }
    PathOutput(image, e, 1, rest);
    assert e[0..] == e;
    WalkOne(image, e);
  }

  lemma WalkOne(image: Image, e: Path)
    requires e != []
    ensures Walk(image, e[..1]) == CellAt(image.root, e[0])
  {
  }

  /** On a text the lookup converts its leading characters that have a glyph. */
  lemma {:induction false} TextOutput(image: Image, cs: seq<Scalar>)
    requires Unambiguous(image)
    ensures ConvertBytes(image, EncodeAll(cs)) == Converted(image, cs)
  {
    hide Encode, Walk, CellAt, Outputs;
    if cs == [] {
      NothingLeft(image, Invalid);
    } else {
      var c := cs[0];
      TextOutput(image, cs[1..]);
      TextStarts(cs[1..]);
      EncodeShape(c);
      assert Encode(c)[..|Encode(c)|] == Encode(c);
      assert !Glyph(image, c).PointerTo?;
      CharacterOutput(image, c, |Encode(c)|, EncodeAll(cs[1..]));
    }
  }

  lemma TextStarts(cs: seq<Scalar>)
    ensures EncodeAll(cs) != [] ==> !Continuation(EncodeAll(cs)[0])
  {
    hide Encode;
    if cs != [] {
      EncodeShape(cs[0]);
    }
  }

  // ----- characters cut short ----------------------------------------------------------------

  /** A whole character, or only the first n bytes of one. */
  datatype Piece = Whole(c: Scalar) | CutShort(c: Scalar, n: nat)

  predicate ProperPiece(p: Piece) {
    p.CutShort? ==> 1 <= p.n < |Encode(p.c)|
  }

  function PieceBytes(ps: seq<Piece>): seq<byte>
    requires forall k :: 0 <= k < |ps| ==> ProperPiece(ps[k])
  {
    if ps == [] then [] else
      assert ProperPiece(ps[0]);
      (match ps[0]
       case Whole(c) => Encode(c)
       case CutShort(c, n) => Encode(c)[..n]) + PieceBytes(ps[1..])
  }

  function WholeOnes(ps: seq<Piece>): seq<Scalar> {
    if ps == [] then [] else (if ps[0].Whole? then [ps[0].c] else []) + WholeOnes(ps[1..])
  }

  // ----- end to end --------------------------------------------------------------------------

  /** The generated file for a list of mappings. */
  ghost function Compiled(ms: seq<Mapping>): Image {
    Generate(Built(ms))
  }

  ghost function GlyphOf(ms: seq<Mapping>, c: Scalar): Cell {
    match Lookup(ms, c)
    case Some(v) => EntryOf(v)
    case None => CharTables.Invalid
  }

  /** The tables compiled from any list of mappings give every character exactly its last mapping. */
  lemma CompiledGlyph(ms: seq<Mapping>, c: Scalar)
    ensures Glyph(Compiled(ms), c) == GlyphOf(ms, c)
    ensures forall j :: 1 <= j < |Encode(c)| ==> !Walk(Compiled(ms), Encode(c)[..j]).EntryOf?
  {
    hide Built, Lookup, Encode, Walk, Generate, Reached, Spelled;
    var t := Built(ms);
    BuiltIsGood(ms);
    EncodeShape(c);
    WalkIsTrie(t, Encode(c));
    if Encode(c) in t {
      var d := ReachedBy(ms, Encode(c));
      PrefixFree(c, d);
    }
    forall j | 1 <= j < |Encode(c)|
      ensures !Walk(Compiled(ms), Encode(c)[..j]).EntryOf?
    {
      var p := Encode(c)[..j];
      WalkIsTrie(t, p);
      if p in t && Spelled(ms, p) {
        var d := SpelledBy(ms, p);
        PrefixFree(d, c);
      }
    }
  }

  lemma CompiledIsGood(ms: seq<Mapping>)
    ensures Compiles(Compiled(ms)) && Unambiguous(Compiled(ms))
  {
    hide Built, Lookup, Encode, Walk, Generate, Represents;
    BuiltIsGood(ms);
    GenerateCompiles(Built(ms));
    forall c: Scalar
      ensures !Glyph(Compiled(ms), c).PointerTo?
      ensures forall j :: 1 <= j < |Encode(c)| ==> !Walk(Compiled(ms), Encode(c)[..j]).EntryOf?
    {
      CompiledGlyph(ms, c);
    }
  }

  /** Decode, then map. */
  function MapAll(ms: seq<Mapping>, cs: seq<Scalar>): (r: seq<byte>)
    requires forall k :: 0 <= k < |cs| ==> Lookup(ms, cs[k]).Some?
    ensures |r| == |cs|
  {
    if cs == [] then [] else [Lookup(ms, cs[0]).value] + MapAll(ms, cs[1..])
  }

  /** What the documentation of the function promises: unrecognized characters are silently dropped. */
  function MapKnown(ms: seq<Mapping>, cs: seq<Scalar>): seq<byte> {
    if cs == [] then []
    else (if Lookup(ms, cs[0]).Some? then [Lookup(ms, cs[0]).value] else []) + MapKnown(ms, cs[1..])
  }

  /** On texts whose characters are all mapped, the compiled lookup is "decode, then map". */
  lemma {:induction false} ConvertedIsMapAll(ms: seq<Mapping>, cs: seq<Scalar>)
    requires forall k :: 0 <= k < |cs| ==> Lookup(ms, cs[k]).Some?
    ensures Converted(Compiled(ms), cs) == MapAll(ms, cs)
  {
    hide Lookup, Compiled, Glyph;
    if cs != [] {
      CompiledGlyph(ms, cs[0]);
      ConvertedIsMapAll(ms, cs[1..]);
    }
  }

  /** A character that is cut short leads to a table if its bytes begin a mapped character, and out of the
      trie otherwise. */
  lemma CutShortCell(ms: seq<Mapping>, c: Scalar, n: nat)
    requires 1 <= n < |Encode(c)|
    ensures var cell := Walk(Compiled(ms), Encode(c)[..n]);
            if Reached(ms, Encode(c)[..n]) then cell.PointerTo? else cell == CharTables.Invalid
  {
    hide Built, Lookup, Encode, Walk, Generate, Reached, Spelled;
    var p := Encode(c)[..n];
    BuiltIsGood(ms);
    EncodeShape(c);
    WalkIsTrie(Built(ms), p);
    CompiledGlyph(ms, c);
  }

  /** The output for pieces: the glyphs of the whole characters, up to the first piece that leaves the trie. */
  ghost function KeptOf(ms: seq<Mapping>, ps: seq<Piece>): seq<byte>
    requires forall k :: 0 <= k < |ps| ==> ProperPiece(ps[k])
  {
    if ps == [] then [] else
      assert ProperPiece(ps[0]);
      match ps[0]
      case Whole(c) => if Lookup(ms, c).Some? then [Lookup(ms, c).value] + KeptOf(ms, ps[1..]) else []
      case CutShort(c, n) => if Reached(ms, Encode(c)[..n]) then KeptOf(ms, ps[1..]) else []
  }

  lemma PieceStarts(ps: seq<Piece>)
    requires forall k :: 0 <= k < |ps| ==> ProperPiece(ps[k])
    ensures PieceBytes(ps) != [] ==> !Continuation(PieceBytes(ps)[0])
  {
    hide Encode;
    if ps != [] {
      EncodeShape(ps[0].c);
      assert ProperPiece(ps[0]);
    }
  }

  /** For characters that are whole or cut short, mapped or not: the output is the glyphs of the whole ones
      before the first piece that is not in the trie. */
  lemma {:induction false} PiecesOutput(ms: seq<Mapping>, ps: seq<Piece>)
    requires forall k :: 0 <= k < |ps| ==> ProperPiece(ps[k])
    ensures ConvertBytes(Compiled(ms), PieceBytes(ps)) == KeptOf(ms, ps)
  {
    hide Lookup, Compiled, Walk, Encode, CellAt, Outputs, Reached;
    if ps == [] {
      NothingLeft(Compiled(ms), CharTables.Invalid);
    } else {
      var p, rest := ps[0], ps[1..];
      assert ProperPiece(p);
      PiecesOutput(ms, rest);
      PieceStarts(rest);
      CompiledIsGood(ms);
      CompiledGlyph(ms, p.c);
      EncodeShape(p.c);
      if p.Whole? {
        assert Encode(p.c)[..|Encode(p.c)|] == Encode(p.c);
        CharacterOutput(Compiled(ms), p.c, |Encode(p.c)|, PieceBytes(rest));
      } else {
        CutShortCell(ms, p.c, p.n);
        CharacterOutput(Compiled(ms), p.c, p.n, PieceBytes(rest));
      }
    }
  }

  /** Of mapped characters, those cut short anywhere in the input are skipped. */
  lemma {:induction false} CutShortIsSkipped(ms: seq<Mapping>, ps: seq<Piece>)
    requires forall k :: 0 <= k < |ps| ==> ProperPiece(ps[k]) && Lookup(ms, ps[k].c).Some?
    ensures forall k :: 0 <= k < |WholeOnes(ps)| ==> Lookup(ms, WholeOnes(ps)[k]).Some?
    ensures ConvertBytes(Compiled(ms), PieceBytes(ps)) == MapAll(ms, WholeOnes(ps))
  {
    hide Lookup, Compiled, ConvertBytes, PieceBytes;
    PiecesOutput(ms, ps);
    KeptIsAll(ms, ps);
  }

  lemma {:induction false} KeptIsAll(ms: seq<Mapping>, ps: seq<Piece>)
    requires forall k :: 0 <= k < |ps| ==> ProperPiece(ps[k]) && Lookup(ms, ps[k].c).Some?
    ensures forall k :: 0 <= k < |WholeOnes(ps)| ==> Lookup(ms, WholeOnes(ps)[k]).Some?
    ensures KeptOf(ms, ps) == MapAll(ms, WholeOnes(ps))
  {
    hide Lookup, Encode, Reached;
    if ps != [] {
      var p, rest := ps[0], ps[1..];
      assert ProperPiece(p) && Lookup(ms, p.c).Some?;
      KeptIsAll(ms, rest);
      if p.Whole? {
        assert WholeOnes(ps)[1..] == WholeOnes(rest);
      } else {
        Reaches(ms, Encode(p.c)[..p.n], p.c);
        assert WholeOnes(ps) == WholeOnes(rest);
      }
    }
  }

  // ----- what the documentation promises -----------------------------------------------------

  ghost predicate NoneKnown(ms: seq<Mapping>, cs: seq<Scalar>) {
    forall k :: 0 <= k < |cs| ==> Lookup(ms, cs[k]).None?
  }

  /** No mapped character comes after an unmapped one. */
  ghost predicate KnownFirst(ms: seq<Mapping>, cs: seq<Scalar>) {
    forall i, j :: 0 <= i < j < |cs| && Lookup(ms, cs[i]).None? ==> Lookup(ms, cs[j]).None?
  }

  lemma {:induction false} MapKnownEmpty(ms: seq<Mapping>, cs: seq<Scalar>)
    ensures MapKnown(ms, cs) == [] <==> NoneKnown(ms, cs)
  {
    hide Lookup;
    if cs != [] {
      MapKnownEmpty(ms, cs[1..]);
      assert forall k :: 0 <= k < |cs[1..]| ==> cs[1..][k] == cs[k + 1];
    }
  }

  /** The code stops at the first unmapped character instead of dropping it. Before it is cut, its output
      is the documented one exactly when no mapped character follows an unmapped one. */
  lemma {:induction false} DropsUnknownIffLast(ms: seq<Mapping>, cs: seq<Scalar>)
    ensures Converted(Compiled(ms), cs) == MapKnown(ms, cs) <==> KnownFirst(ms, cs)
  {
    hide Lookup, Compiled, Glyph;
    if cs != [] {
      var c, rest := cs[0], cs[1..];
      CompiledGlyph(ms, c);
      assert forall k :: 0 <= k < |rest| ==> rest[k] == cs[k + 1];
      if Lookup(ms, c).Some? {
        DropsUnknownIffLast(ms, rest);
        assert Converted(Compiled(ms), cs)[1..] == Converted(Compiled(ms), rest);
        assert MapKnown(ms, cs)[1..] == MapKnown(ms, rest);
        assert KnownFirst(ms, rest) <==> KnownFirst(ms, cs);
      } else {
        MapKnownEmpty(ms, rest);
        assert NoneKnown(ms, rest) <==> KnownFirst(ms, cs);
      }
    }
  }

  /** How many characters from the start on are mapped. */
  function LeadingMapped(ms: seq<Mapping>, cs: seq<Scalar>): nat {
    if cs == [] || Lookup(ms, cs[0]).None? then 0 else 1 + LeadingMapped(ms, cs[1..])
  }

  /** How many characters are mapped. */
  function AllMapped(ms: seq<Mapping>, cs: seq<Scalar>): nat {
    if cs == [] then 0 else (if Lookup(ms, cs[0]).Some? then 1 else 0) + AllMapped(ms, cs[1..])
  }

  /** The actual output is a prefix of the documented one. */
  lemma {:induction false} OutputIsPrefix(ms: seq<Mapping>, cs: seq<Scalar>)
    ensures |Converted(Compiled(ms), cs)| == LeadingMapped(ms, cs)
    ensures |MapKnown(ms, cs)| == AllMapped(ms, cs)
    ensures Converted(Compiled(ms), cs) <= MapKnown(ms, cs)
  {
    hide Lookup, Compiled, Glyph;
    if cs != [] {
      CompiledGlyph(ms, cs[0]);
      OutputIsPrefix(ms, cs[1..]);
    }
  }

  /** What a call returns: the bytes, and whether the buffer is reported as too small. */
  datatype Answer = Answer(bytes: seq<byte>, tooBig: bool)

  /** The call as it is: a buffer that is just filled counts as too small. */
  ghost function Actual(ms: seq<Mapping>, cs: seq<Scalar>, len: nat): Answer {
    var out := Converted(Compiled(ms), cs);
    Answer(out[..Min(|out|, len)], |out| >= len)
  }

  /** The call as documented: unrecognized characters are dropped, and the buffer is too small if it
      filled up before the entire string was converted. */
  function Documented(ms: seq<Mapping>, cs: seq<Scalar>, len: nat): Answer {
    var out := MapKnown(ms, cs);
    Answer(out[..Min(|out|, len)], |out| > len)
  }

  /** A call does what its documentation says exactly when the leading mapped characters leave room and no
      mapped one follows an unmapped one, or when they fill the buffer and the text has more mapped
      characters than fit. */
  lemma DocumentedIff(ms: seq<Mapping>, cs: seq<Scalar>, len: nat)
    requires len > 0
    ensures Actual(ms, cs, len) == Documented(ms, cs, len) <==>
              if LeadingMapped(ms, cs) < len then KnownFirst(ms, cs) else AllMapped(ms, cs) > len
  {
    hide Converted, MapKnown, LeadingMapped, AllMapped, KnownFirst, Compiled;
    OutputIsPrefix(ms, cs);
    DropsUnknownIffLast(ms, cs);
    var c, d := Converted(Compiled(ms), cs), MapKnown(ms, cs);
    if |c| >= len {
      assert c[..len] == d[..len];
    } else if c != d {
      assert |c| < |d| && |d[..Min(|d|, len)]| > |c|;
    }
  }

  /** A call that does not drop what it should: "!" is unmapped, and the mapped "A" behind it is lost. */
  lemma DroppingFails()
    ensures Actual([Mapping(65, 65)], [33, 65], 10) == Answer([], false)
    ensures Documented([Mapping(65, 65)], [33, 65], 10) == Answer([65], false)
  {
    var ms, cs := [Mapping(65, 65)], [33, 65];
    assert Lookup(ms, 33).None? && Lookup(ms, 65) == Some(65);
    CompiledGlyph(ms, 33);
    assert cs[1..] == [65] && [65][1..] == [];
  }

  /** A call that converts the entire string and reports a buffer that was too small: "A" into one byte. */
  lemma ExactFitFails()
    ensures Actual([Mapping(65, 65)], [65], 1) == Answer([65], true)
    ensures Documented([Mapping(65, 65)], [65], 1) == Answer([65], false)
  {
    var ms, cs := [Mapping(65, 65)], [65];
    assert Lookup(ms, 65) == Some(65);
    CompiledGlyph(ms, 65);
    assert cs[1..] == [];
  }
}
