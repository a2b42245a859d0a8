/** The C tables that libx52util/x52_char_map_gen.py emits for a trie, and what they mean to a program
    that follows them. */
module CharTables {
  import opened Prelude
  import opened Utf8
  import opened Trie

  /** struct map_entry: what an element of a table says. */
  datatype Cell = Invalid | PointerTo(name: nat) | EntryOf(value: byte)

  /** One designated initializer. */
  datatype Row = Row(index: int, cell: Cell)

  /** A definition `struct map_entry table_<name>[64]`. */
  datatype TableDef = TableDef(name: nat, rows: seq<Row>)

  /** The generated file: the tables in order, then map_root. */
  datatype Image = Image(tables: seq<TableDef>, root: seq<Row>)

  /** An array element is what its last initializer says, and all zero without one. */
  function CellAt(rows: seq<Row>, i: int): Cell {
    if rows == [] then Invalid
    else if rows[|rows| - 1].index == i then rows[|rows| - 1].cell
    else CellAt(rows[..|rows| - 1], i)
  }

  function DumpEntryLine(offset: int, nodeIndex: int, valueSoFar: nat, mapValue: Option<byte>): Row {
    match mapValue
    case None => Row(nodeIndex - offset, PointerTo(valueSoFar))
    case Some(v) => Row(nodeIndex - offset, EntryOf(v))
  }

  /** value_so_far: the bytes of the path as one number. */
  function Number(p: Path): nat {
    if p == [] then 0 else Number(p[..|p| - 1]) * 0x100 + p[|p| - 1]
  }

  lemma NumberStart(p: Path)
    ensures Number(p[..0]) == 0
  {
  }

  lemma NumberStep(p: Path, b: byte)
    ensures Number(p + [b]) == Number(p) * 0x100 + b
  {
    assert (p + [b])[..|p|] == p;
  }

  /** Tables are named by number, and different paths have different numbers. */
  lemma {:induction false} NumberInjective(p: Path, q: Path)
    requires p != [] && q != [] && p[0] != 0 && q[0] != 0 && Number(p) == Number(q)
    ensures p == q
    decreases |p|
  {
    var p', q' := p[..|p| - 1], q[..|q| - 1];
    assert Number(p') == Number(q') && p[|p| - 1] == q[|q| - 1];
    NumberPositive(p);
    NumberPositive(q);
    if p' == [] {
      if q' != [] {
        NumberPositive(q');
      }
    } else if q' == [] {
      NumberPositive(p');
    } else {
      NumberInjective(p', q');
    }
    assert p == p' + [p[|p| - 1]] && q == q' + [q[|q| - 1]];
  }

  lemma {:induction false} NumberPositive(p: Path)
    requires p != [] && p[0] != 0
    ensures Number(p) > 0
  {
    if |p| > 1 {
      NumberPositive(p[..|p| - 1]);
    } else {
      assert Number(p[..0]) == 0;
    }
  }

  // ----- emission ----------------------------------------------------------------------------

  ghost function Rows(t: Trie, p: Path, offset: int, n: nat): seq<Row>
    requires n <= 256
  {
    if n == 0 then [] else
      Rows(t, p, offset, n - 1) +
      if p + [n - 1] in t then [DumpEntryLine(offset, n - 1, Number(p + [n - 1]), t[p + [n - 1]])] else []
  }

  ghost function CellOf(t: Trie, p: Path): Cell {
    if p !in t then Invalid else if t[p].Some? then EntryOf(t[p].value) else PointerTo(Number(p))
  }

  lemma {:induction false} RowsMean(t: Trie, p: Path, offset: int, n: nat, i: int)
    requires n <= 256
    ensures CellAt(Rows(t, p, offset, n), i) == if 0 <= i + offset < n then CellOf(t, p + [i + offset]) else Invalid
  {
    if n > 0 {
      RowsMean(t, p, offset, n - 1, i);
      var init := Rows(t, p, offset, n - 1);
      if p + [n - 1] in t {
        var row := DumpEntryLine(offset, n - 1, Number(p + [n - 1]), t[p + [n - 1]]);
        assert (init + [row])[..|init|] == init;
      } else {
        assert Rows(t, p, offset, n) == init;
      }
    }
  }

  /** The paths whose tables output_nodes emits for the children 0..n of a node, and for the node. */
  ghost function Children(t: Trie, p: Path, n: nat): seq<Path>
    requires n <= 256
    decreases 4 - |p|, n
  {
    if n == 0 || |p| >= 4 then [] else
      Children(t, p, n - 1) + if p + [n - 1] in t then Order(t, p + [n - 1]) else []
  }

  ghost function Order(t: Trie, p: Path): seq<Path>
    decreases 4 - |p|, 257
  {
    Children(t, p, 256) + if HasChild(t, p) then [p] else []
  }

  ghost function Table(t: Trie, p: Path): TableDef {
    TableDef(Number(p), Rows(t, p, 0x80, 256))
  }

  ghost function Tables(t: Trie, ps: seq<Path>): (r: seq<TableDef>)
    ensures |r| == |ps| && forall i :: 0 <= i < |ps| ==> r[i] == Table(t, ps[i])
  {
    seq(|ps|, i requires 0 <= i < |ps| => Table(t, ps[i]))
  }

  /** The whole generated file. */
  ghost function Generate(t: Trie): Image {
    Image(Tables(t, Children(t, [], 256)), Rows(t, [], 0, 256))
  }

  // ----- which tables, in which order --------------------------------------------------------

  /** The nodes that get a table. */
  ghost predicate Interior(t: Trie, q: Path) {
    q in t && HasChild(t, q)
  }

  /** A node at or below a child slot means that there is a child. */
  lemma SlotFilled(t: Trie, c: Path, q: Path)
    requires WellShaped(t) && c != [] && c <= q && q in t
    ensures c in t && |c| <= 4
  {
    assert c == q[..|c|];
  }

  lemma SlotPrefix(p: Path, b: byte, q: Path)
    ensures p + [b] <= q <==> p < q && q[|p|] == b
  {
  }

  lemma ChildrenStep(t: Trie, p: Path, n: nat)
    requires n <= 256
    ensures n == 0 || |p| >= 4 ==> Children(t, p, n) == []
    ensures n > 0 && |p| < 4 ==>
              Children(t, p, n) == Children(t, p, n - 1) + if p + [n - 1] in t then Order(t, p + [n - 1]) else []
  {
    hide Order;
  }

  lemma {:induction false} ChildrenMembers(t: Trie, p: Path, n: nat, q: Path)
    requires WellShaped(t) && n <= 256
    ensures q in Children(t, p, n) <==> p < q && q[|p|] < n && Interior(t, q)
    decreases 4 - |p|, n
  {
    hide WellShaped, HasChild, Order, Children;
    ChildrenStep(t, p, n);
    if n > 0 && |p| < 4 {
      var c := p + [n - 1];
      ChildrenMembers(t, p, n - 1, q);
      SlotPrefix(p, n - 1, q);
      if c in t {
        OrderMembers(t, c, q);
        assert c <= q <==> c == q || c < q;
      } else if c <= q && q in t {
        SlotFilled(t, c, q);
      }
    } else if p < q && q in t {
      SlotFilled(t, q, q);
    }
  }

  lemma {:induction false} OrderMembers(t: Trie, p: Path, q: Path)
    requires WellShaped(t)
    ensures q in Order(t, p) <==> (p < q && Interior(t, q)) || (q == p && HasChild(t, p))
    decreases 4 - |p|, 257
  {
    ChildrenMembers(t, p, 256, q);
  }

  ghost predicate Distinct(ps: seq<Path>) {
    forall i, j :: 0 <= i < j < |ps| ==> ps[i] != ps[j]
  }

  /** Every listed child of a listed path comes before it. */
  ghost predicate ChildrenFirst(ps: seq<Path>) {
    forall i, b: byte :: 0 <= i < |ps| && ps[i] + [b] in ps ==> ps[i] + [b] in ps[..i]
  }

  ghost predicate Ordered(ps: seq<Path>) {
    Distinct(ps) && ChildrenFirst(ps)
  }

  lemma OrderedConcat(a: seq<Path>, b: seq<Path>)
    requires Ordered(a) && Ordered(b)
    requires forall q :: q in a ==> q !in b
    requires forall q, c: byte :: q in a ==> q + [c] !in b
    ensures Ordered(a + b)
  {
    var s := a + b;
    forall i, j | 0 <= i < j < |s|
      ensures s[i] != s[j]
    {
      if i < |a| && |a| <= j {
        assert s[i] in a && s[j] in b;
      }
    }
    forall i, c: byte | 0 <= i < |s| && s[i] + [c] in s
      ensures s[i] + [c] in s[..i]
    {
      if i < |a| {
        assert s[i] in a;
        assert s[..i] == a[..i];
      } else {
        assert s[..i] == a + b[..i - |a|];
      }
    }
  }

  lemma NothingOrdered()
    ensures Ordered([])
  {
  }

  lemma {:induction false} ChildrenOrdered(t: Trie, p: Path, n: nat)
    requires WellShaped(t) && n <= 256
    ensures Ordered(Children(t, p, n))
    decreases 4 - |p|, n
  {
    hide Ordered, WellShaped, Interior, HasChild;
    if n == 0 || |p| >= 4 {
      NothingOrdered();
    } else {
      var c := p + [n - 1];
      ChildrenOrdered(t, p, n - 1);
      if c in t {
        OrderOrdered(t, c);
        forall q | q in Children(t, p, n - 1)
          ensures q !in Order(t, c)
        {
          ChildrenMembers(t, p, n - 1, q);
          OrderMembers(t, c, q);
        }
        forall q, b: byte | q in Children(t, p, n - 1)
          ensures q + [b] !in Order(t, c)
        {
          ChildrenMembers(t, p, n - 1, q);
          OrderMembers(t, c, q + [b]);
          assert (q + [b])[|p|] == q[|p|];
        }
        OrderedConcat(Children(t, p, n - 1), Order(t, c));
      } else {
        assert Children(t, p, n) == Children(t, p, n - 1);
      }
    }
  }

  lemma {:induction false} OrderOrdered(t: Trie, p: Path)
    requires WellShaped(t)
    ensures Ordered(Order(t, p))
    decreases 4 - |p|, 257
  {
    ChildrenOrdered(t, p, 256);
    if HasChild(t, p) {
      forall q | q in Children(t, p, 256)
        ensures q !in [p]
      {
        ChildrenMembers(t, p, 256, q);
      }
      forall q, b: byte | q in Children(t, p, 256)
        ensures q + [b] !in [p]
      {
        ChildrenMembers(t, p, 256, q);
        assert |q + [b]| > |p|;
      }
      OrderedConcat(Children(t, p, 256), [p]);
    } else {
      assert Order(t, p) == Children(t, p, 256);
    }
  }

  // ----- what the C compiler and a reader need -----------------------------------------------

  /** The rows of the table with a name. */
  function Named(tables: seq<TableDef>, name: nat): Option<seq<Row>> {
    if tables == [] then None
    else if tables[0].name == name then Some(tables[0].rows)
    else Named(tables[1..], name)
  }

  predicate Declared(tables: seq<TableDef>, name: nat) {
    exists i :: 0 <= i < |tables| && tables[i].name == name
  }

  /** The generated file compiles: table names are distinct, every initializer is inside its array, and
      every table is defined before it is referred to. */
  ghost predicate Compiles(image: Image) {
    && (forall i, j :: 0 <= i < j < |image.tables| ==> image.tables[i].name != image.tables[j].name)
    && (forall i, k {:trigger CellAt(image.tables[i].rows, k)} :: 0 <= i < |image.tables| ==>
          var cell := CellAt(image.tables[i].rows, k);
          && (cell != Invalid ==> 0 <= k < 64)
          && (cell.PointerTo? ==> Declared(image.tables[..i], cell.name)))
    && (forall k {:trigger CellAt(image.root, k)} ::
          var cell := CellAt(image.root, k);
          && (cell != Invalid ==> 0 <= k < 256)
          && (cell.PointerTo? ==> Declared(image.tables, cell.name)))
  }

  lemma {:induction false} NamedFinds(tables: seq<TableDef>, i: nat)
    requires i < |tables| && forall j, k :: 0 <= j < k < |tables| ==> tables[j].name != tables[k].name
    ensures Named(tables, tables[i].name) == Some(tables[i].rows)
  {
    if i > 0 {
      NamedFinds(tables[1..], i - 1);
    }
  }

  lemma TablesDistinct(t: Trie, ps: seq<Path>)
    requires WellShaped(t) && Distinct(ps) && forall q :: q in ps ==> Interior(t, q)
    ensures forall i, j :: 0 <= i < j < |ps| ==> Tables(t, ps)[i].name != Tables(t, ps)[j].name
  {
    forall i, j | 0 <= i < j < |ps|
      ensures Number(ps[i]) != Number(ps[j])
    {
      assert ps[i] in ps && ps[j] in ps;
      if Number(ps[i]) == Number(ps[j]) {
        NumberInjective(ps[i], ps[j]);
      }
    }
  }

  /** Interior nodes are the ones without a value. */
  ghost predicate LeavesAreEntries(t: Trie) {
    forall p :: p in t ==> (t[p].None? <==> HasChild(t, p))
  }

  lemma TableCell(t: Trie, p: Path, k: int)
    requires WellShaped(t) && p != []
    ensures CellAt(Table(t, p).rows, k) == if 0 <= k < 64 then CellOf(t, p + [k + 0x80]) else Invalid
  {
    RowsMean(t, p, 0x80, 256, k);
    if 0 <= k + 0x80 < 256 && p + [k + 0x80] in t {
      var q := p + [k + 0x80];
      assert q[|p|] == k + 0x80;
    }
  }

  /** The paths of the emitted tables. */
  ghost function Emitted(t: Trie): seq<Path> {
    Children(t, [], 256)
  }

  lemma EmittedPaths(t: Trie)
    requires WellShaped(t)
    ensures Ordered(Emitted(t))
    ensures forall q :: q in Emitted(t) <==> q != [] && Interior(t, q)
    ensures forall i, j :: 0 <= i < j < |Emitted(t)| ==> Generate(t).tables[i].name != Generate(t).tables[j].name
  {
    ChildrenOrdered(t, [], 256);
    forall q
      ensures q in Emitted(t) <==> q != [] && Interior(t, q)
    {
      ChildrenMembers(t, [], 256, q);
    }
    TablesDistinct(t, Emitted(t));
  }

  lemma DeclaredAt(t: Trie, ps: seq<Path>, n: nat, q: Path)
    requires n <= |ps| && q in ps[..n]
    ensures Declared(Tables(t, ps)[..n], Number(q))
  {
    var j :| 0 <= j < n && ps[j] == q;
    assert Tables(t, ps)[..n][j].name == Number(q);
  }

  lemma TableCompiles(t: Trie, i: nat, k: int)
    requires WellShaped(t) && LeavesAreEntries(t) && i < |Emitted(t)|
    ensures var cell := CellAt(Generate(t).tables[i].rows, k);
            (cell != Invalid ==> 0 <= k < 64) && (cell.PointerTo? ==> Declared(Generate(t).tables[..i], cell.name))
  {
    hide Children, Rows, CellAt;
    var ps := Emitted(t);
    EmittedPaths(t);
    assert ps[i] in ps;
    TableCell(t, ps[i], k);
    if CellAt(Generate(t).tables[i].rows, k).PointerTo? {
      var q := ps[i] + [k + 0x80];
      assert q in t && q in ps;
      DeclaredAt(t, ps, i, q);
    }
  }

  lemma ParentIsInterior(t: Trie, q: Path)
    requires WellShaped(t) && LeavesAreEntries(t) && q in t && t[q].None?
    ensures q != [] && Interior(t, q)
  {
  }

  lemma EmittedIsDeclared(t: Trie, q: Path)
    requires WellShaped(t) && q != [] && Interior(t, q)
    ensures Declared(Generate(t).tables, Number(q))
  {
    hide Children, Rows, WellShaped, Interior, Ordered, Number;
    EmittedPaths(t);
    var ps := Emitted(t);
    assert q in ps && ps[..|ps|] == ps;
    DeclaredAt(t, ps, |ps|, q);
    assert Generate(t).tables[..|ps|] == Generate(t).tables;
  }

  lemma RootCompiles(t: Trie, k: int)
    requires WellShaped(t) && LeavesAreEntries(t)
    ensures var cell := CellAt(Generate(t).root, k);
            (cell != Invalid ==> 0 <= k < 256) && (cell.PointerTo? ==> Declared(Generate(t).tables, cell.name))
  {
    hide Children, CellAt, Tables, Declared, WellShaped, LeavesAreEntries, Interior, Number;
    RowsMean(t, [], 0, 256, k);
    if CellAt(Generate(t).root, k).PointerTo? {
      var q: Path := [] + [k];
      ParentIsInterior(t, q);
      EmittedIsDeclared(t, q);
    }
  }

  /** The generated file compiles: names are distinct, initializers are in range, and every table comes
      before its uses. */
  lemma GenerateCompiles(t: Trie)
    requires WellShaped(t) && LeavesAreEntries(t)
    ensures Compiles(Generate(t))
  {
    hide Children, Rows, CellAt;
    EmittedPaths(t);
    forall i: nat, k | i < |Emitted(t)| {
      TableCompiles(t, i, k);
    }
    forall k: int {
      RootCompiles(t, k);
    }
  }

  lemma BuiltIsGood(ms: seq<Mapping>)
    ensures Represents(Built(ms), ms) && WellShaped(Built(ms)) && LeavesAreEntries(Built(ms))
  {
    hide Built, Lookup, Encode, Represents;
    BuiltRepresents(ms);
    RepresentsWellShaped(Built(ms), ms);
    forall p | p in Built(ms)
      ensures Built(ms)[p].None? <==> HasChild(Built(ms), p)
    {
      EntriesAreLeaves(Built(ms), ms, p);
    }
  }

  // ----- following the tables ----------------------------------------------------------------

  /** The element of the table a pointer leads to. */
  function Follow(image: Image, name: nat, i: nat): Cell {
    match Named(image.tables, name)
    case None => Invalid
    case Some(rows) => CellAt(rows, i)
  }

  /** The element reached by the bytes of a path: the first selects from map_root, each later one from
      the current table by its low six bits. */
  function Walk(image: Image, p: Path): Cell
    requires p != []
  {
    if |p| == 1 then CellAt(image.root, p[0]) else
      match Walk(image, p[..|p| - 1])
      case PointerTo(name) => Follow(image, name, p[|p| - 1] % 0x40)
      case _ => Invalid
  }

  /** A path a reader can be on: continuation bytes after the first. */
  ghost predicate Readable(p: Path) {
    p != [] && forall i :: 1 <= i < |p| ==> Continuation(p[i])
  }

  /** The table of an interior node is found under its number. */
  lemma NamedTable(t: Trie, q: Path)
    requires WellShaped(t) && q != [] && Interior(t, q)
    ensures Named(Generate(t).tables, Number(q)) == Some(Table(t, q).rows)
  {
    hide Children, Rows, Named, WellShaped, Interior, Ordered, Number;
    EmittedPaths(t);
    assert q in Emitted(t);
    var i :| 0 <= i < |Emitted(t)| && Emitted(t)[i] == q;
    NamedFinds(Generate(t).tables, i);
  }

  lemma FollowIsTrie(t: Trie, q: Path, b: byte)
    requires WellShaped(t) && LeavesAreEntries(t) && q in t && t[q].None? && Continuation(b)
    ensures Follow(Generate(t), Number(q), b % 0x40) == CellOf(t, q + [b])
  {
    hide CellAt, Named, WellShaped, LeavesAreEntries, Interior, Number, Generate, Table, CellOf;
    ParentIsInterior(t, q);
    NamedTable(t, q);
    TableCell(t, q, b % 0x40);
    assert b % 0x40 + 0x80 == b;
  }

  /** Emission preserves meaning: the tables, read by masked bytes, are the trie. */
  lemma {:induction false} WalkIsTrie(t: Trie, p: Path)
    requires WellShaped(t) && LeavesAreEntries(t) && Readable(p)
    ensures Walk(Generate(t), p) == CellOf(t, p)
    decreases |p|
  {
    hide Children, Rows, CellAt, Named, Generate, Follow;
    if |p| == 1 {
      assert p == [p[0]];
      RootIsTrie(t, p[0]);
    } else {
      var q, b := p[..|p| - 1], p[|p| - 1];
      assert p == q + [b] && Continuation(b);
      WalkIsTrie(t, q);
      if p in t {
        assert q in t && HasChild(t, q);
      }
      if q in t && t[q].None? {
        FollowIsTrie(t, q, b);
      }
    }
  }

  lemma RootIsTrie(t: Trie, b: byte)
    ensures CellAt(Generate(t).root, b) == CellOf(t, [b])
  {
    RowsMean(t, [], 0, 256, b);
    assert [] + [b] == [b];
  }
}
