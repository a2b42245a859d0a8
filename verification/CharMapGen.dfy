/** The generator libx52util/x52_char_map_gen.py: a tree of nodes grown in place, and its traversal into
    C tables. */
module CharMapGen {
  import opened Prelude
  import opened Utf8
  import opened Trie
  import opened CharTables

  function NoNodes(): (r: seq<MapNode?>)
    ensures |r| == 256 && forall i :: 0 <= i < 256 ==> r[i] == null
  {
    seq(256, _ => null)
  }

  class MapNode {
    var nextLevel: seq<MapNode?>
    const valueSoFar: nat
    const mapValue: Option<byte>

    constructor (valueSoFar: nat, mapValue: Option<byte>)
      ensures this.valueSoFar == valueSoFar && this.mapValue == mapValue && nextLevel == NoNodes()
    {
      this.valueSoFar := valueSoFar;
      this.mapValue := mapValue;
      this.nextLevel := NoNodes();
    }
  }

  ghost predicate Tree(root: seq<MapNode?>, at: map<Path, MapNode>, kids: map<Path, seq<MapNode?>>) {
    && |root| == 256
    && [] !in at
    && at.Keys == kids.Keys
    && (forall p :: p in at ==> |kids[p]| == 256)
    && (forall b: byte :: root[b] == NodeAt(at, [b]))
    && (forall p, b: byte :: p in at ==> kids[p][b] == NodeAt(at, p + [b]))
    && (forall p, q :: p in at && q in at && at[p] == at[q] ==> p == q)
    && (forall p, b: byte :: p + [b] in at && p != [] ==> p in at)
  }

  ghost function NodeAt(at: map<Path, MapNode>, p: Path): MapNode? {
    if p in at then at[p] else null
  }

  /** A map without the entries strictly below a path. */
  ghost function Without(at: map<Path, MapNode>, path: Path): map<Path, MapNode> {
    map q | q in at && !(path < q) :: at[q]
  }

  /** Putting a node at p + [b] leaves the children of other nodes alone. */
  lemma KeepsChild(p: Path, b: byte, q: Path, c: byte)
    requires q != p && q != p + [b] && !(p + [b] < q)
    ensures q + [c] != p + [b] && !(p + [b] < q + [c])
  {
    var path := p + [b];
    assert (q + [c])[..|q|] == q && path[..|p|] == p;
    assert |path| <= |q| ==> (q + [c])[..|path|] == q[..|path|];
  }

  ghost function KidsAfter(kids: map<Path, seq<MapNode?>>, p: Path, b: byte, node: MapNode): map<Path, seq<MapNode?>>
    requires p in kids ==> |kids[p]| == 256
  {
    map q | q in kids.Keys + {p + [b]} && !(p + [b] < q) ::
      if q == p + [b] then NoNodes() else if q == p then kids[p][b := node] else kids[q]
  }

  lemma KidsAfterAt(kids: map<Path, seq<MapNode?>>, p: Path, b: byte, node: MapNode, q: Path)
    requires p in kids ==> |kids[p]| == 256
    ensures q in KidsAfter(kids, p, b, node) <==> q == p + [b] || (q in kids && !(p + [b] < q))
    ensures q in KidsAfter(kids, p, b, node) ==>
              KidsAfter(kids, p, b, node)[q]
                == if q == p + [b] then NoNodes() else if q == p then kids[p][b := node] else kids[q]
  {
  }

  lemma PutChild(at: map<Path, MapNode>, kids: map<Path, seq<MapNode?>>, p: Path, b: byte, node: MapNode, q: Path,
                 c: byte)
    requires at.Keys == kids.Keys && (p == [] || p in at) && [] !in at
    requires forall q :: q in at ==> |kids[q]| == 256
    requires forall q, b: byte :: q in at ==> kids[q][b] == NodeAt(at, q + [b])
    requires q in KidsAfter(kids, p, b, node)
    ensures |KidsAfter(kids, p, b, node)[q]| == 256
    ensures KidsAfter(kids, p, b, node)[q][c] == NodeAt(Without(at, p + [b])[p + [b] := node], q + [c])
  {
    var path := p + [b];
    if q == path {
      assert path < q + [c];
    } else if q == p {
      assert (q + [c])[|p|] == c && path[|p|] == b && |q + [c]| == |path|;
    } else {
      KeepsChild(p, b, q, c);
    }
  }

  lemma PutClosed(at: map<Path, MapNode>, p: Path, b: byte, node: MapNode)
    requires p == [] || p in at
    requires forall q, c: byte :: q + [c] in at && q != [] ==> q in at
    ensures var at' := Without(at, p + [b])[p + [b] := node];
            forall q, c: byte :: q + [c] in at' && q != [] ==> q in at'
  {
    var path := p + [b];
    var at' := Without(at, path)[path := node];
    forall q, c: byte | q + [c] in at' && q != []
      ensures q in at'
    {
      if q + [c] == path {
        assert q == (q + [c])[..|q|] == path[..|path| - 1] == p;
      } else {
        assert path < q ==> path < q + [c];
      }
    }
  }

  lemma PutTree(root: seq<MapNode?>, at: map<Path, MapNode>, kids: map<Path, seq<MapNode?>>, p: Path, b: byte,
                node: MapNode)
    requires Tree(root, at, kids) && (p == [] || p in at) && node !in at.Values
    ensures Tree(if p == [] then root[b := node] else root, Without(at, p + [b])[p + [b] := node],
                 KidsAfter(kids, p, b, node))
  {
    hide KidsAfter;
    PutRoot(root, at, p, b, node);
    PutSlots(at, kids, p, b, node);
    PutClosed(at, p, b, node);
  }

  lemma PutRoot(root: seq<MapNode?>, at: map<Path, MapNode>, p: Path, b: byte, node: MapNode)
    requires |root| == 256 && forall c: byte :: root[c] == NodeAt(at, [c])
    ensures forall c: byte ::
              (if p == [] then root[b := node] else root)[c] == NodeAt(Without(at, p + [b])[p + [b] := node], [c])
  {
    var path := p + [b];
    forall c: byte
      ensures (if p == [] then root[b := node] else root)[c] == NodeAt(Without(at, path)[path := node], [c])
    {
      assert |path| == |p| + 1;
      assert p == [] ==> path == [b];
    }
  }

  lemma PutSlots(at: map<Path, MapNode>, kids: map<Path, seq<MapNode?>>, p: Path, b: byte, node: MapNode)
    requires at.Keys == kids.Keys && (p == [] || p in at) && [] !in at
    requires forall q :: q in at ==> |kids[q]| == 256
    requires forall q, b: byte :: q in at ==> kids[q][b] == NodeAt(at, q + [b])
    ensures var at' := Without(at, p + [b])[p + [b] := node];
            var kids' := KidsAfter(kids, p, b, node);
            && kids'.Keys == at'.Keys
            && forall q :: q in kids' ==> |kids'[q]| == 256 && forall c: byte :: kids'[q][c] == NodeAt(at', q + [c])
  {
    var at' := Without(at, p + [b])[p + [b] := node];
    var kids' := KidsAfter(kids, p, b, node);
    assert kids'.Keys == at'.Keys;
    forall q, c: byte | q in kids'
      ensures |kids'[q]| == 256 && kids'[q][c] == NodeAt(at', q + [c])
    {
      PutChild(at, kids, p, b, node, q, c);
    }
  }

  lemma TreeBasics(root: seq<MapNode?>, at: map<Path, MapNode>, kids: map<Path, seq<MapNode?>>)
    requires Tree(root, at, kids)
    ensures |root| == 256 && [] !in at && at.Keys == kids.Keys
  {
  }

  lemma OwnSlots(root: seq<MapNode?>, at: map<Path, MapNode>, kids: map<Path, seq<MapNode?>>, p: Path)
    requires Tree(root, at, kids) && p in at
    ensures |kids[p]| == 256 && forall q :: q in at && q != p ==> at[q] != at[p]
  {
  }

  class MapTable {
    var root: seq<MapNode?>
    ghost var at: map<Path, MapNode>

    /** The child slots of every node. */
    ghost function Kids(): map<Path, seq<MapNode?>>
      reads this, at.Values
    {
      map p | p in at :: at[p].nextLevel
    }

    /** The nodes form a tree: each path has its own node, found from the node of the path before. */
    ghost predicate Valid()
      reads this, at.Values
    {
      && Tree(root, at, Kids())
      && forall p :: p in at ==> at[p].valueSoFar == Number(p)
    }

    /** The tree as a value. */
    ghost function Contents(): Trie
      reads this
    {
      map p | p in at :: at[p].mapValue
    }

    constructor ()
      ensures Valid() && Contents() == map[] && at == map[]
    {
      root := NoNodes();
      at := map[];
    }

    /** Is level the place where the children of path p hang? */
    ghost predicate Level(level: MapNode?, p: Path)
      reads this
    {
      if p == [] then level == null else p in at && level == at[p]
    }

    /** Below a missing node there is nothing. */
    lemma NothingBelow(p: Path)
      requires Valid() && p != [] && p !in at
      ensures forall q :: q in at ==> !(p < q)
    {
      hide Number;
      forall q | p < q
        ensures q !in at
      {
        Missing(p, q);
      }
    }

    lemma Missing(p: Path, q: Path)
      requires Valid() && p != [] && p !in at && p <= q
      ensures q !in at
      decreases |q|
    {
      hide Number;
      if p != q {
        var r := q[..|q| - 1];
        assert q == r + [q[|q| - 1]] && p <= r;
        Missing(p, r);
      }
    }

    /** Reads the slot b below path p. */
    method Get(level: MapNode?, ghost p: Path, b: byte) returns (node: MapNode?)
      requires Valid() && Level(level, p)
      ensures node == NodeAt(at, p + [b])
    {
      if level == null {
        assert p + [b] == [b];
        node := root[b];
      } else {
        node := level.nextLevel[b];
      }
    }

    /** A new childless node takes the slot b below path p; what hung there before is gone. */
    method Put(level: MapNode?, ghost p: Path, b: byte, node: MapNode)
      requires Valid() && Level(level, p)
      requires node !in at.Values && node.nextLevel == NoNodes() && node.valueSoFar == Number(p + [b])
      modifies this, level
      ensures Valid()
      ensures at == Without(old(at), p + [b])[p + [b] := node]
      ensures node.nextLevel == NoNodes()
    {
      hide Number, Tree, NodeAt, KidsAfter;
      assert |root| == 256 && [] !in at && Kids().Keys == at.Keys by {
        TreeBasics(root, at, Kids());
      }
      if p != [] {
        OwnSlots(root, at, Kids(), p);
      }
      PutTree(root, at, Kids(), p, b, node);
      TreeBasics(if p == [] then root[b := node] else root, Without(at, p + [b])[p + [b] := node],
                 KidsAfter(Kids(), p, b, node));
      ghost var before, kids, was := Kids(), KidsAfter(Kids(), p, b, node), at;
      if level == null {
        root := root[b := node];
      } else {
        level.nextLevel := level.nextLevel[b := node];
      }
      at := Without(at, p + [b])[p + [b] := node];
      forall q | q in at
        ensures at[q].nextLevel == kids[q]
      {
        KidsAfterAt(before, p, b, node, q);
        if q != p + [b] {
          assert at[q] == was[q] && was[q] != node && (q == p <==> at[q] == level);
        }
      }
      assert Kids() == kids;
    }

    /** One step of an insertion: the node at p + [b], created if it is missing. */
    method Descend(level: MapNode?, ghost p: Path, b: byte, valueSoFar: nat) returns (node: MapNode)
      requires Valid() && Level(level, p) && valueSoFar == Number(p + [b])
      modifies this, level
      ensures Valid() && Level(node, p + [b]) && fresh(at.Values - old(at.Values))
      ensures Contents().Keys == old(Contents()).Keys + {p + [b]}
      ensures forall q :: q in old(Contents()) ==> Contents()[q] == old(Contents())[q]
      ensures p + [b] !in old(Contents()) ==> Contents()[p + [b]] == None
    {
      hide Number, Tree, Kids;
      var child := Get(level, p, b);
      if child == null {
        node := new MapNode(valueSoFar, None);
        NothingBelow(p + [b]);
        Put(level, p, b, node);
      } else {
        node := child;
      }
    }

    /** The last step of an insertion: a new node with the value, whatever was there before. */
    method Plant(level: MapNode?, ghost p: Path, b: byte, valueSoFar: nat, value: byte)
      requires Valid() && Level(level, p) && valueSoFar == Number(p + [b])
      modifies this, level
      ensures Valid() && fresh(at.Values - old(at.Values))
      ensures forall q :: q in Contents() <==> q == p + [b] || (q in old(Contents()) && !(p + [b] < q))
      ensures forall q :: q in Contents() ==>
                Contents()[q] == if q == p + [b] then Some(value) else old(Contents())[q]
    {
      hide Number, Tree, Kids;
      var node := new MapNode(valueSoFar, Some(value));
      Put(level, p, b, node);
    }

    /** Adds one mapping; code points that have no UTF-8 encoding are refused. */
    method AddToTable(code: int, value: byte) returns (ok: bool)
      requires Valid()
      modifies this, at.Values
      ensures Valid() && fresh(at.Values - old(at.Values))
      ensures ok <==> IsScalar(code)
      ensures Contents() == if ok then Insert(old(Contents()), Encode(code), value) else old(Contents())
    {
      hide Number, Tree, Encode, Kids, NodeAt, Insert, Grown, Contents;
      if !IsScalar(code) {
        return false;
      }
      var path := Encode(code);
      var valueSoFar: nat := 0;
      var level: MapNode? := null;
      var i: nat := 0;
      NumberStart(path);
      GrownStart(Contents(), path);
      while i + 1 < |path|
        invariant i < |path| && Valid() && fresh(at.Values - old(at.Values))
        invariant Level(level, path[..i]) && valueSoFar == Number(path[..i])
        invariant Grown(old(Contents()), Contents(), path, i)
      {
        var unit := path[i];
        assert path[..i + 1] == path[..i] + [unit];
        NumberStep(path[..i], unit);
        valueSoFar := valueSoFar * 0x100 + unit;
        ghost var before := Contents();
        level := Descend(level, path[..i], unit, valueSoFar);
        GrownStep(old(Contents()), before, Contents(), path, i);
        i := i + 1;
      }
      var unit := path[i];
      assert path[..i] + [unit] == path;
      NumberStep(path[..i], unit);
      valueSoFar := valueSoFar * 0x100 + unit;
      ghost var before := Contents();
      Plant(level, path[..i], unit, valueSoFar, value);
      GrownInsert(old(Contents()), before, Contents(), path, value);
      ok := true;
    }

    // ----- traversal -----------------------------------------------------------------------------

    lemma Slots(p: Path)
      requires Valid() && p in at
      ensures |at[p].nextLevel| == 256 && forall b: byte :: at[p].nextLevel[b] == NodeAt(at, p + [b])
    {
      hide Number, NodeAt;
      assert Kids()[p] == at[p].nextLevel;
    }

    /** The tables for the children of a node, in order of their bytes, then the node's own table if it
        has any child. */
    method OutputNodes(node: MapNode, ghost p: Path) returns (tables: seq<TableDef>)
      requires Valid() && p in at && at[p] == node && WellShaped(Contents())
      ensures tables == Tables(Contents(), Order(Contents(), p))
      decreases 4 - |p|, 1
    {
      hide Number, Tree, Kids, Children, WellShaped, Rows;
      ghost var t := Contents();
      PathBound(t, p);
      Slots(p);
      var count: nat;
      tables, count := OutputChildren(node.nextLevel, p);
      if count != 0 {
        var rows := DumpRows(node.nextLevel, p, 0x80);
        tables := tables + [TableDef(node.valueSoFar, rows)];
      }
      TablesConcat(t, Children(t, p, 256), if HasChild(t, p) then [p] else []);
    }

    method OutputChildren(level: seq<MapNode?>, ghost p: Path) returns (tables: seq<TableDef>, count: nat)
      requires Valid() && WellShaped(Contents()) && |p| <= 4
      requires |level| == 256 && forall b: byte :: level[b] == NodeAt(at, p + [b])
      ensures tables == Tables(Contents(), Children(Contents(), p, 256))
      ensures count != 0 <==> HasChild(Contents(), p)
      decreases 4 - |p|, 0
    {
      hide Number, Tree, Kids, WellShaped, Rows, Order, Children;
      ghost var t := Contents();
      tables, count := [], 0;
      ChildrenStart(t, p);
      var n: nat := 0;
      while n < 256
        invariant n <= 256 && tables == Tables(t, Children(t, p, n))
        invariant count != 0 <==> exists b: byte :: b < n && p + [b] in t
      {
        if level[n] != null {
          ghost var c := p + [n];
          PathBound(t, c);
          var below := OutputNodes(level[n], c);
          TablesConcat(t, Children(t, p, n), Order(t, c));
          tables := tables + below;
          count := count + 1;
        }
        ChildrenNext(t, p, n);
        n := n + 1;
      }
    }

    /** One initializer for every child. */
    method DumpRows(level: seq<MapNode?>, ghost p: Path, offset: int) returns (rows: seq<Row>)
      requires Valid()
      requires |level| == 256 && forall b: byte :: level[b] == NodeAt(at, p + [b])
      ensures rows == Rows(Contents(), p, offset, 256)
    {
      hide Number, Tree, Kids;
      rows := [];
      var n: nat := 0;
      while n < 256
        invariant n <= 256 && rows == Rows(Contents(), p, offset, n)
      {
        var node := level[n];
        if node != null {
          rows := rows + [DumpEntryLine(offset, n, node.valueSoFar, node.mapValue)];
        }
        n := n + 1;
      }
    }

    /** The whole generated file. */
    method OutputTable() returns (image: Image)
      requires Valid() && WellShaped(Contents())
      ensures image == Generate(Contents())
    {
      hide Number, Kids, Children, WellShaped, Rows;
      assert forall b: byte :: [] + [b] == [b];
      var tables, _ := OutputChildren(root, []);
      var rows := DumpRows(root, [], 0);
      image := Image(tables, rows);
    }
  }

  /** The generator, from the mappings of the input file to the tables. */
  method Generator(ms: seq<Mapping>) returns (image: Image)
    ensures image == Generate(Built(ms)) && Compiles(image)
  {
    hide Built, Insert, Represents, WellShaped, LeavesAreEntries, Generate;
    var table := new MapTable();
    BuiltStart();
    assert ms[..0] == [];
    for i := 0 to |ms|
      invariant table.Valid() && fresh(table) && fresh(table.at.Values)
      invariant table.Contents() == Built(ms[..i])
    {
      var _ := table.AddToTable(ms[i].code, ms[i].value);
      BuiltNext(ms, i);
    }
    assert ms[..|ms|] == ms;
    BuiltIsGood(ms);
    image := table.OutputTable();
    GenerateCompiles(Built(ms));
  }

  lemma BuiltStart()
    ensures Built([]) == map[]
  {
  }

  lemma BuiltNext(ms: seq<Mapping>, i: nat)
    requires i < |ms|
    ensures Built(ms[..i + 1]) == Insert(Built(ms[..i]), Encode(ms[i].code), ms[i].value)
  {
    hide Insert, Encode;
    assert ms[..i + 1][..i] == ms[..i];
  }

  lemma PathBound(t: Trie, p: Path)
    requires WellShaped(t) && p in t
    ensures 1 <= |p| <= 4
  {
  }

  lemma TablesConcat(t: Trie, a: seq<Path>, b: seq<Path>)
    ensures Tables(t, a + b) == Tables(t, a) + Tables(t, b)
  {
    hide Rows, Number;
  }

  lemma ChildrenStart(t: Trie, p: Path)
    ensures Children(t, p, 0) == []
  {
  }

  lemma ChildrenNext(t: Trie, p: Path, n: nat)
    requires WellShaped(t) && n < 256 && |p| <= 4
    ensures Children(t, p, n + 1) == Children(t, p, n) + if p + [n] in t then Order(t, p + [n]) else []
  {
    hide Order;
    if p + [n] in t {
      PathBound(t, p + [n]);
    }
  }

  /** What the walk of an insertion has done after its first i bytes. */
  ghost predicate Grown(was: Trie, now: Trie, path: Path, i: nat)
    requires i <= |path|
  {
    && (forall p :: p in now <==> p in was || (Prefix(p, path) && |p| <= i))
    && (forall p :: p in now ==> now[p] == if p in was then was[p] else None)
  }

  lemma GrownStart(was: Trie, path: Path)
    ensures Grown(was, was, path, 0)
  {
  }

  lemma GrownStep(was: Trie, now: Trie, next: Trie, path: Path, i: nat)
    requires i < |path| && Grown(was, now, path, i)
    requires next.Keys == now.Keys + {path[..i + 1]}
    requires forall p :: p in now ==> next[p] == now[p]
    requires path[..i + 1] !in now ==> next[path[..i + 1]] == None
    ensures Grown(was, next, path, i + 1)
  {
    assert Prefix(path[..i + 1], path);
    assert forall p :: Prefix(p, path) && |p| == i + 1 ==> p == path[..i + 1];
  }

  lemma GrownInsert(was: Trie, now: Trie, next: Trie, path: Path, value: byte)
    requires path != [] && Grown(was, now, path, |path| - 1)
    requires forall p :: p in next <==> p == path || (p in now && !(path < p))
    requires forall p :: p in next ==> next[p] == if p == path then Some(value) else now[p]
    ensures next == Insert(was, path, value)
  {
    hide Insert;
    forall p
      ensures p in next <==> p in Insert(was, path, value)
      ensures p in next ==> next[p] == Insert(was, path, value)[p]
    {
      InsertAt(was, path, value, p);
      assert Prefix(p, path) && |p| == |path| ==> p == path;
    }
  }
}
