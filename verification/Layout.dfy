/** The position, width and height computation of DagGraph.tsx. */
module Layout {
  import opened Graphs
  import opened Definitions
  import opened Books
  import opened DagView

  const NODE_W := 168
  const NODE_H := 64
  const COL_GAP := 96
  const ROW_GAP := 32
  const PAD := 24

  /** A node placed by its upper left corner. */
  datatype Box = Box(node: Node, x: int, y: int)

  predicate Apart(a: Box, b: Box) {
    a.x + NODE_W <= b.x || b.x + NODE_W <= a.x || a.y + NODE_H <= b.y || b.y + NODE_H <= a.y
  }

  predicate Inside(b: Box, width: int, height: int) {
    PAD <= b.x && b.x + NODE_W + PAD <= width && PAD <= b.y && b.y + NODE_H + PAD <= height
  }

  function LevelOf(level: map<Id, nat>, x: Id): nat {
    if x in level then level[x] else 0
  }

  /** The nodes of one column, in the order in which they are listed. */
  function Column(nodes: seq<Node>, level: map<Id, nat>, col: nat): seq<Node> {
    if nodes == [] then [] else
    var last := nodes[|nodes| - 1];
    Column(nodes[..|nodes| - 1], level, col) + if LevelOf(level, last.id) == col then [last] else []
  }

  ghost function Used(nodes: seq<Node>, level: map<Id, nat>): set<nat> {
    set n | n in nodes :: LevelOf(level, n.id)
  }

  ghost predicate Increasing(cols: seq<nat>) {
    forall i, j :: 0 <= i < j < |cols| ==> cols[i] < cols[j]
  }

  ghost function Range(cols: seq<nat>): set<nat> {
    set c | c in cols
  }

  function PlaceAt(node: Node, col: nat, row: nat): Box {
    Box(node, PAD + col * (NODE_W + COL_GAP), PAD + row * (NODE_H + ROW_GAP))
  }

  function PlaceColumn(ns: seq<Node>, col: nat): seq<Box> {
    seq(|ns|, row requires 0 <= row < |ns| => PlaceAt(ns[row], col, row))
  }

  function PlaceAll(nodes: seq<Node>, level: map<Id, nat>, cols: seq<nat>): seq<Box> {
    if cols == [] then [] else
    var last := cols[|cols| - 1];
    PlaceAll(nodes, level, cols[..|cols| - 1]) + PlaceColumn(Column(nodes, level, last), last)
  }

  /** The numbers of the picture. */
  lemma Measures(node: Node, col: nat, row: nat, cols: nat, rows: nat)
    ensures PlaceAt(node, col, row) == Box(node, 24 + 264 * col, 24 + 96 * row)
    ensures WidthFor(cols) >= 320 && WidthFor(cols) >= 264 * cols - 48
    ensures WidthFor(cols) == 320 || WidthFor(cols) == 264 * cols - 48
    ensures HeightFor(rows) >= 120 && HeightFor(rows) >= 96 * rows + 16
    ensures HeightFor(rows) == 120 || HeightFor(rows) == 96 * rows + 16
  {
  }

  // ----- The computation -----

  method TakeLeast(keys: set<nat>) returns (least: nat)
    requires keys != {}
    ensures least in keys && forall a :: a in keys ==> least <= a
  {
    least :| least in keys;
    var others := keys - {least};
    while others != {}
      invariant least in keys && others <= keys
      invariant forall a :: a in keys && a !in others ==> least <= a
      decreases |others|
    {
      var a: nat :| a in others;
      others := others - {a};
      if a < least {
        least := a;
      }
    }
  }

  ghost predicate AllBelow(cols: seq<nat>, keys: set<nat>) {
    forall i, b {:trigger cols[i], b in keys} :: 0 <= i < |cols| && b in keys ==> cols[i] < b
  }

  lemma AppendLeast(cols: seq<nat>, keys: set<nat>, least: nat)
    requires Increasing(cols) && AllBelow(cols, keys)
    requires least in keys && forall a :: a in keys ==> least <= a
    ensures Increasing(cols + [least]) && AllBelow(cols + [least], keys - {least})
    ensures Range(cols + [least]) == Range(cols) + {least}
  {
  }

  /** Array.from(keys).sort((a, b) => a - b) */
  method SortColumns(keys: set<nat>) returns (cols: seq<nat>)
    ensures Increasing(cols) && Range(cols) == keys
  {
    cols := [];
    var rest := keys;
    while rest != {}
      invariant Increasing(cols) && AllBelow(cols, rest) && Range(cols) + rest == keys
      decreases |rest|
    {
      var least := TakeLeast(rest);
      AppendLeast(cols, rest, least);
      hide Increasing, AllBelow, Range;
      cols := cols + [least];
      rest := rest - {least};
    }
  }

  lemma NoNodes(level: map<Id, nat>, col: nat)
    ensures Column([], level, col) == [] && Used([], level) == {}
  {
  }

  lemma ColumnSnoc(nodes: seq<Node>, level: map<Id, nat>, last: Node, col: nat)
    ensures Column(nodes + [last], level, col) ==
            Column(nodes, level, col) + if LevelOf(level, last.id) == col then [last] else []
  {
    assert (nodes + [last])[..|nodes|] == nodes;
  }

  lemma UsedSnoc(nodes: seq<Node>, level: map<Id, nat>, last: Node)
    ensures Used(nodes + [last], level) == Used(nodes, level) + {LevelOf(level, last.id)}
  {
    assert last in nodes + [last];
    assert forall n :: n in nodes + [last] <==> n in nodes || n == last;
  }

  /** The columns hold the nodes of every used level, in order. */
  ghost predicate Grouped(columns: map<nat, seq<Node>>, nodes: seq<Node>, level: map<Id, nat>) {
    && columns.Keys == Used(nodes, level)
    && forall c: nat {:trigger columns[c]} :: c in columns ==> columns[c] == Column(nodes, level, c)
  }

  lemma NoGroups(level: map<Id, nat>)
    ensures Grouped(map[], [], level)
  {
  }

  lemma GroupOneMore(columns: map<nat, seq<Node>>, nodes: seq<Node>, level: map<Id, nat>, last: Node)
    requires Grouped(columns, nodes, level)
    ensures var col := LevelOf(level, last.id);
            Grouped(columns[col := (if col in columns then columns[col] else []) + [last]], nodes + [last], level)
  {
    var col := LevelOf(level, last.id);
    UnusedIsEmpty(nodes, level, col);
    UsedSnoc(nodes, level, last);
    forall c: nat {:trigger Column(nodes + [last], level, c)}
      ensures Column(nodes + [last], level, c) == Column(nodes, level, c) + if c == col then [last] else []
    {
      ColumnSnoc(nodes, level, last, c);
    }
    hide Used, Column;
  }

  method GroupByLevel(nodes: seq<Node>, level: map<Id, nat>) returns (columns: map<nat, seq<Node>>)
    ensures columns.Keys == Used(nodes, level)
    ensures forall c: nat {:trigger columns[c]} :: c in columns ==> columns[c] == Column(nodes, level, c)
  {
    hide Used, Column, Grouped;
    columns := map[];
    assert nodes[..0] == [];
    NoGroups(level);
    for i := 0 to |nodes|
      invariant Grouped(columns, nodes[..i], level)
    {
      assert nodes[..i + 1] == nodes[..i] + [nodes[i]];
      GroupOneMore(columns, nodes[..i], level, nodes[i]);
      var col := LevelOf(level, nodes[i].id);
      ghost var before := columns;
      if col !in columns {
        columns := columns[col := []];
      }
      columns := columns[col := columns[col] + [nodes[i]]];
      assert columns == before[col := (if col in before then before[col] else []) + [nodes[i]]];
    }
    assert nodes[..|nodes|] == nodes;
    GroupedMeans(columns, nodes, level);
  }

  lemma GroupedMeans(columns: map<nat, seq<Node>>, nodes: seq<Node>, level: map<Id, nat>)
    requires Grouped(columns, nodes, level)
    ensures columns.Keys == Used(nodes, level)
    ensures forall c: nat {:trigger columns[c]} :: c in columns ==> columns[c] == Column(nodes, level, c)
  {
  }

  lemma {:induction false} UnusedIsEmpty(nodes: seq<Node>, level: map<Id, nat>, col: nat)
    ensures Column(nodes, level, col) == [] <==> col !in Used(nodes, level)
  {
    hide Column, Used;
    if nodes == [] {
      NoNodes(level, col);
    } else {
      var rest, last := nodes[..|nodes| - 1], nodes[|nodes| - 1];
      assert nodes == rest + [last];
      UnusedIsEmpty(rest, level, col);
      ColumnSnoc(rest, level, last, col);
      UsedSnoc(rest, level, last);
    }
  }

  /** A node's row is the number of nodes of its column listed before it. */
  lemma {:induction false} RowIsRank(nodes: seq<Node>, level: map<Id, nat>, i: nat)
    requires i < |nodes|
    ensures var col := LevelOf(level, nodes[i].id);
            var row := |Column(nodes[..i], level, col)|;
            row < |Column(nodes, level, col)| && Column(nodes, level, col)[row] == nodes[i]
  {
    hide Column;
    var rest, last, col := nodes[..|nodes| - 1], nodes[|nodes| - 1], LevelOf(level, nodes[i].id);
    assert nodes == rest + [last];
    ColumnSnoc(rest, level, last, col);
    if i == |nodes| - 1 {
      assert nodes[..i] == rest;
    } else {
      assert nodes[..i] == rest[..i];
      RowIsRank(rest, level, i);
    }
  }

  /** The rows of the fullest column. */
  ghost predicate IsMaxRows(nodes: seq<Node>, level: map<Id, nat>, cols: seq<nat>, maxRows: nat) {
    && (forall c :: c in cols ==> |Column(nodes, level, c)| <= maxRows)
    && (maxRows > 0 ==> exists c :: c in cols && |Column(nodes, level, c)| == maxRows)
  }

  function Max(a: int, b: int): int {
    if a < b then b else a
  }

  function WidthFor(cols: nat): int {
    Max(PAD * 2 + cols * NODE_W + (cols - 1) * COL_GAP, 320)
  }

  function HeightFor(rows: nat): int {
    Max(PAD * 2 + rows * NODE_H + (rows - 1) * ROW_GAP, 120)
  }

  lemma OneMoreColumn(nodes: seq<Node>, level: map<Id, nat>, cols: seq<nat>, i: nat, rows: nat)
    requires i < |cols| && IsMaxRows(nodes, level, cols[..i], rows)
    ensures var column := Column(nodes, level, cols[i]);
            && PlaceAll(nodes, level, cols[..i + 1]) == PlaceAll(nodes, level, cols[..i]) + PlaceColumn(column, cols[i])
            && IsMaxRows(nodes, level, cols[..i + 1], if rows < |column| then |column| else rows)
  {
    hide Column, PlaceColumn;
    assert cols[..i + 1] == cols[..i] + [cols[i]] && cols[..i + 1][..i] == cols[..i];
    if rows > 0 {
      var c :| c in cols[..i] && |Column(nodes, level, c)| == rows;
      assert c in cols[..i + 1];
    }
  }

  method DrawColumn(ns: seq<Node>, col: nat, boxes: seq<Box>) returns (boxes': seq<Box>)
    ensures boxes' == boxes + PlaceColumn(ns, col)
  {
    boxes' := boxes;
    for row := 0 to |ns|
      invariant boxes' == boxes + PlaceColumn(ns, col)[..row]
    {
      boxes' := boxes' + [PlaceAt(ns[row], col, row)];
    }
  }

  method LayOut(nodes: seq<Node>, level: map<Id, nat>)
    returns (positioned: seq<Box>, width: int, height: int, ghost cols: seq<nat>, ghost maxRows: nat)
    ensures Increasing(cols) && Range(cols) == Used(nodes, level)
    ensures positioned == PlaceAll(nodes, level, cols) && IsMaxRows(nodes, level, cols, maxRows)
    ensures width == WidthFor(if |cols| == 0 then 1 else |cols|) && height == HeightFor(maxRows)
  {
    var columns := GroupByLevel(nodes, level);
    var sorted := SortColumns(columns.Keys);
    positioned := [];
    var rows: nat := 0;
    assert IsMaxRows(nodes, level, sorted[..0], rows);
    assert forall i {:trigger sorted[i]} :: 0 <= i < |sorted| ==> sorted[i] in Range(sorted);
    hide Column, PlaceColumn, IsMaxRows, Increasing, Range, Used;
    for i := 0 to |sorted|
      invariant positioned == PlaceAll(nodes, level, sorted[..i])
      invariant IsMaxRows(nodes, level, sorted[..i], rows)
    {
      OneMoreColumn(nodes, level, sorted, i, rows);
      var ns := columns[sorted[i]];
      rows := if rows < |ns| then |ns| else rows;
      positioned := DrawColumn(ns, sorted[i], positioned);
    }
    assert sorted[..|sorted|] == sorted;
    var count := if |sorted| == 0 then 1 else |sorted|;
    width := Max(PAD * 2 + count * NODE_W + (count - 1) * COL_GAP, 320);
    height := Max(PAD * 2 + rows * NODE_H + (rows - 1) * ROW_GAP, 120);
    cols, maxRows := sorted, rows;
  }

  // ----- What the picture looks like -----

  /** Where a box comes from. */
  lemma {:induction false} BoxOrigin(nodes: seq<Node>, level: map<Id, nat>, cols: seq<nat>, i: nat)
    returns (col: nat, row: nat)
    requires i < |PlaceAll(nodes, level, cols)|
    ensures col in cols && row < |Column(nodes, level, col)|
    ensures PlaceAll(nodes, level, cols)[i] == PlaceAt(Column(nodes, level, col)[row], col, row)
  {
    var init, last := cols[..|cols| - 1], cols[|cols| - 1];
    var n := |PlaceAll(nodes, level, init)|;
    if i < n {
      col, row := BoxOrigin(nodes, level, init, i);
    } else {
      col, row := last, i - n;
    }
  }

  /** Boxes are at least a gap apart. */
  lemma {:induction false} NoOverlap(nodes: seq<Node>, level: map<Id, nat>, cols: seq<nat>, i: nat, j: nat)
    requires Increasing(cols) && i < j < |PlaceAll(nodes, level, cols)|
    ensures Apart(PlaceAll(nodes, level, cols)[i], PlaceAll(nodes, level, cols)[j])
  {
    var init, last := cols[..|cols| - 1], cols[|cols| - 1];
    var n := |PlaceAll(nodes, level, init)|;
    if j < n {
      NoOverlap(nodes, level, init, i, j);
    } else if i < n {
      var col, row := BoxOrigin(nodes, level, init, i);
      assert col < last;
    }
  }

  predicate InColumn(b: Box, col: nat) {
    b.x == PAD + col * (NODE_W + COL_GAP)
  }

  lemma {:induction false} ColumnLevel(nodes: seq<Node>, level: map<Id, nat>, col: nat, row: nat)
    requires row < |Column(nodes, level, col)|
    ensures LevelOf(level, Column(nodes, level, col)[row].id) == col
    ensures Column(nodes, level, col)[row] in nodes
  {
    var rest := nodes[..|nodes| - 1];
    if row < |Column(rest, level, col)| {
      ColumnLevel(rest, level, col, row);
    }
  }

  lemma {:induction false} ColumnCount(nodes: seq<Node>, level: map<Id, nat>, col: nat, v: Node)
    ensures multiset(Column(nodes, level, col))[v] == if LevelOf(level, v.id) == col then multiset(nodes)[v] else 0
  {
    hide Column;
    if nodes == [] {
      NoNodes(level, col);
    } else {
      var rest, last := nodes[..|nodes| - 1], nodes[|nodes| - 1];
      assert nodes == rest + [last];
      ColumnCount(rest, level, col, v);
      ColumnSnoc(rest, level, last, col);
    }
  }

  ghost function NodesOf(boxes: seq<Box>): seq<Node> {
    seq(|boxes|, i requires 0 <= i < |boxes| => boxes[i].node)
  }

  lemma NodesOfBoth(a: seq<Box>, b: seq<Box>, v: Node)
    ensures multiset(NodesOf(a + b))[v] == multiset(NodesOf(a))[v] + multiset(NodesOf(b))[v]
  {
    assert NodesOf(a + b) == NodesOf(a) + NodesOf(b);
  }

  lemma ColumnKeepsNodes(column: seq<Node>, col: nat)
    ensures NodesOf(PlaceColumn(column, col)) == column
  {
  }

  lemma PlaceLast(nodes: seq<Node>, level: map<Id, nat>, cols: seq<nat>)
    ensures cols == [] ==> NodesOf(PlaceAll(nodes, level, cols)) == []
    ensures cols != [] ==>
              PlaceAll(nodes, level, cols) ==
              PlaceAll(nodes, level, cols[..|cols| - 1])
              + PlaceColumn(Column(nodes, level, cols[|cols| - 1]), cols[|cols| - 1])
  {
  }

  lemma {:induction false} PlacedCount(nodes: seq<Node>, level: map<Id, nat>, cols: seq<nat>, v: Node)
    requires Increasing(cols)
    ensures multiset(NodesOf(PlaceAll(nodes, level, cols)))[v] ==
            if LevelOf(level, v.id) in cols then multiset(nodes)[v] else 0
  {
    hide PlaceAll, PlaceColumn, Column, NodesOf;
    PlaceLast(nodes, level, cols);
    if cols != [] {
      var init, last := cols[..|cols| - 1], cols[|cols| - 1];
      var column := Column(nodes, level, last);
      PlacedCount(nodes, level, init, v);
      ColumnCount(nodes, level, last, v);
      NodesOfBoth(PlaceAll(nodes, level, init), PlaceColumn(column, last), v);
      ColumnKeepsNodes(column, last);
      LastIsNew(cols, LevelOf(level, v.id));
    }
  }

  lemma LastIsNew(cols: seq<nat>, c: nat)
    requires Increasing(cols) && cols != []
    ensures c in cols <==> c in cols[..|cols| - 1] || c == cols[|cols| - 1]
    ensures !(c in cols[..|cols| - 1] && c == cols[|cols| - 1])
  {
    assert cols == cols[..|cols| - 1] + [cols[|cols| - 1]];
  }

  /** Every node is drawn, exactly as often as it is listed. */
  lemma EveryNodeIsDrawn(nodes: seq<Node>, level: map<Id, nat>, cols: seq<nat>)
    requires Increasing(cols) && Range(cols) == Used(nodes, level)
    ensures multiset(NodesOf(PlaceAll(nodes, level, cols))) == multiset(nodes)
  {
    forall v ensures multiset(NodesOf(PlaceAll(nodes, level, cols)))[v] == multiset(nodes)[v] {
      PlacedCount(nodes, level, cols, v);
      if v in nodes {
        assert LevelOf(level, v.id) in Range(cols);
      }
    }
  }

  ghost predicate AllInside(boxes: seq<Box>, width: int, height: int) {
    forall i :: 0 <= i < |boxes| ==> Inside(boxes[i], width, height)
  }

  /** Every column up to the last one is used. */
  ghost predicate GapFree(cols: seq<nat>) {
    forall c :: c in cols ==> c < |cols|
  }

  /** The picture has room for all boxes exactly when the columns leave no gaps. */
  lemma InsideIffGapFree(nodes: seq<Node>, level: map<Id, nat>, cols: seq<nat>, maxRows: nat)
    requires Range(cols) == Used(nodes, level) && IsMaxRows(nodes, level, cols, maxRows)
    ensures AllInside(PlaceAll(nodes, level, cols), WidthFor(if |cols| == 0 then 1 else |cols|), HeightFor(maxRows))
            <==> GapFree(cols)
  {
    var boxes := PlaceAll(nodes, level, cols);
    var width, height := WidthFor(if |cols| == 0 then 1 else |cols|), HeightFor(maxRows);
    if GapFree(cols) {
      forall i | 0 <= i < |boxes| ensures Inside(boxes[i], width, height) {
        var col, row := BoxOrigin(nodes, level, cols, i);
      }
    }
    if AllInside(boxes, width, height) {
      forall c | c in cols ensures c < |cols| {
        var i := FirstBox(nodes, level, cols, c);
        assert Inside(boxes[i], width, height);
      }
    }
  }

  lemma {:induction false} FirstBox(nodes: seq<Node>, level: map<Id, nat>, cols: seq<nat>, c: nat) returns (i: nat)
    requires c in cols && forall d :: d in cols ==> d in Used(nodes, level)
    ensures i < |PlaceAll(nodes, level, cols)| && PlaceAll(nodes, level, cols)[i].x == PAD + c * (NODE_W + COL_GAP)
  {
    var init, last := cols[..|cols| - 1], cols[|cols| - 1];
    if c == last {
      UnusedIsEmpty(nodes, level, c);
      i := |PlaceAll(nodes, level, init)|;
    } else {
      assert cols == init + [last];
      i := FirstBox(nodes, level, init, c);
    }
  }

  // ----- Levels and layout together -----

  ghost predicate LevelUsed(level: map<Id, nat>, k: nat) {
    exists x :: x in level && level[x] == k
  }

  /** Exact levels leave no gap: below every node in column k + 1 there is one in column k. */
  lemma LevelBelow(ids: set<Id>, g: Arrows, level: map<Id, nat>, x: Id)
    requires level.Keys == ids && SourcesKnown(ids, g) && LongestPaths(g, level)
    requires x in level && level[x] > 0
    ensures LevelUsed(level, level[x] - 1)
  {
    assert Witnessed(g, x, level[x]);
    var w :| Walk(g, w) && w[0] == x && |w| == level[x] + 1;
    assert (w[0], w[1]).1 in ids;
    WalkTail(g, w, 1);
    var y := w[1];
    assert w[1..][0] == y;
    assert Witnessed(g, y, level[y]);
    var v :| Walk(g, v) && v[0] == y && |v| == level[y] + 1;
    WalkJoin(g, [x], v);
    assert ([x] + v)[0] == x;
    assert level[y] == level[x] - 1;
  }

  lemma {:induction false} LevelsBelow(ids: set<Id>, g: Arrows, level: map<Id, nat>, x: Id, k: nat)
    requires level.Keys == ids && SourcesKnown(ids, g) && LongestPaths(g, level)
    requires x in level && k <= level[x]
    ensures LevelUsed(level, k)
    decreases level[x]
  {
    if k < level[x] {
      LevelBelow(ids, g, level, x);
      var y :| y in level && level[y] == level[x] - 1;
      LevelsBelow(ids, g, level, y, k);
    } else {
      assert LevelUsed(level, level[x]);
    }
  }

  lemma {:induction false} DistinctCount(cols: seq<nat>)
    requires Increasing(cols)
    ensures |Range(cols)| == |cols|
  {
    if cols != [] {
      var init, last := cols[..|cols| - 1], cols[|cols| - 1];
      DistinctCount(init);
      LastIsNew(cols, last);
      assert cols == init + [last];
      assert Range(cols) == Range(init) + {last};
    }
  }

  /** The numbers below n. */
  ghost function Below(n: nat): (r: set<nat>)
    ensures forall k: nat :: k in r <==> k < n
    ensures |r| == n
  {
    if n == 0 then {} else Below(n - 1) + {n - 1}
  }

  lemma ExactLevelsAreGapFree(dag: Dag, level: map<Id, nat>, cols: seq<nat>)
    requires level.Keys == NodeIds(dag.nodes) && LongestPaths(Drawn(dag), level)
    requires Increasing(cols) && Range(cols) == Used(dag.nodes, level)
    ensures GapFree(cols)
  {
    forall c | c in cols ensures c < |cols| {
      assert c in Range(cols);
      var n :| n in dag.nodes && LevelOf(level, n.id) == c;
      forall k | k in Below(c + 1) ensures k in Range(cols) {
        LevelsBelow(NodeIds(dag.nodes), Drawn(dag), level, n.id, k);
        var x :| x in level && level[x] == k;
        var m :| m in dag.nodes && m.id == x;
        assert LevelOf(level, m.id) == k;
      }
      DistinctCount(cols);
      SubsetSize(Below(c + 1), Range(cols));
    }
  }

  /** Around a cycle there are walks of every length. */
  lemma {:induction false} CycleWalk(g: Arrows, loop: seq<Id>, n: nat) returns (w: seq<Id>)
    requires Walk(g, loop) && |loop| > 1 && loop[0] == loop[|loop| - 1]
    ensures Walk(g, w) && w[0] == loop[0] && |w| > n
  {
    if n == 0 {
      w := loop;
    } else {
      var rest := CycleWalk(g, loop, n - 1);
      var front := loop[..|loop| - 1];
      WalkTail(g, loop, |loop| - 2);
      WalkJoin(g, front, rest);
      w := front + rest;
    }
  }

  /** If passes ran out, a node of the cycle has been pushed beyond every column there is. */
  lemma CycleLeavesGap(dag: Dag, level: map<Id, nat>, cols: seq<nat>)
    requires level.Keys == NodeIds(dag.nodes) && !Acyclic(Drawn(dag))
    requires Counted(Drawn(dag), level, |dag.nodes| + 1)
    requires Increasing(cols) && Range(cols) == Used(dag.nodes, level)
    ensures !GapFree(cols)
  {
    var g := Drawn(dag);
    var x :| OnCycle(g, x);
    var loop :| Walk(g, loop) && |loop| > 1 && loop[0] == x && loop[|loop| - 1] == x;
    assert (loop[0], loop[1]) in g;
    var long := CycleWalk(g, loop, |dag.nodes| + 1);
    WalkTail(g, long, |dag.nodes| + 1);
    var w := long[..|dag.nodes| + 2];
    assert level[w[0]] >= |w| - 1;
    var n :| n in dag.nodes && n.id == x;
    assert LevelOf(level, n.id) in Range(cols);
    DistinctCount(cols);
    UsedCount(dag.nodes, level);
  }

  lemma {:induction false} UsedCount(nodes: seq<Node>, level: map<Id, nat>)
    ensures |Used(nodes, level)| <= |nodes|
  {
    if nodes != [] {
      var rest, last := nodes[..|nodes| - 1], nodes[|nodes| - 1];
      UsedCount(rest, level);
      assert nodes == rest + [last];
      assert Used(nodes, level) == Used(rest, level) + {LevelOf(level, last.id)};
    }
  }

  /**
   DagGraph from a graph to its picture. Every node is drawn once per listing, no two boxes
   overlap, and all boxes lie inside the picture exactly when the graph has no cycle.
   */
  method Draw(dag: Dag) returns (positioned: seq<Box>, width: int, height: int, ghost level: map<Id, nat>)
    ensures level.Keys == NodeIds(dag.nodes) && (Acyclic(Drawn(dag)) ==> LongestPaths(Drawn(dag), level))
    ensures forall i :: 0 <= i < |positioned| ==> InColumn(positioned[i], LevelOf(level, positioned[i].node.id))
    ensures multiset(NodesOf(positioned)) == multiset(dag.nodes)
    ensures forall i, j :: 0 <= i < j < |positioned| ==> Apart(positioned[i], positioned[j])
    ensures AllInside(positioned, width, height) <==> Acyclic(Drawn(dag))
  {
    var levels, settled := ComputeLevels(dag);
    level := levels;
    ghost var cols, maxRows;
    positioned, width, height, cols, maxRows := LayOut(dag.nodes, levels);
    forall i | 0 <= i < |positioned| ensures InColumn(positioned[i], LevelOf(level, positioned[i].node.id)) {
      var col, row := BoxOrigin(dag.nodes, level, cols, i);
      ColumnLevel(dag.nodes, level, col, row);
    }
    EveryNodeIsDrawn(dag.nodes, level, cols);
    forall i, j | 0 <= i < j < |positioned| ensures Apart(positioned[i], positioned[j]) {
      NoOverlap(dag.nodes, level, cols, i, j);
    }
    InsideIffGapFree(dag.nodes, level, cols, maxRows);
    if settled {
      ExactLevelsAreGapFree(dag, level, cols);
    } else {
      CycleLeavesGap(dag, level, cols);
    }
  }

  /** A box's column tells the scheduler round that resolves its step. */
  ghost predicate ColumnIsRound(ids: set<Id>, g: Arrows, b: Box) {
    forall k: nat {:trigger Resolved(ids, g, k)} ::
      b.x < PAD + k * (NODE_W + COL_GAP) <==> b.node.id in Resolved(ids, g, k)
  }

  lemma ColumnsAreRounds(dag: Dag, level: map<Id, nat>, b: Box)
    requires level.Keys == NodeIds(dag.nodes) && LongestPaths(Drawn(dag), level)
    requires b.node.id in level && InColumn(b, LevelOf(level, b.node.id))
    ensures ColumnIsRound(NodeIds(dag.nodes), Drawn(dag), b)
  {
    forall k: nat {:trigger Resolved(NodeIds(dag.nodes), Drawn(dag), k)}
      ensures b.x < PAD + k * (NODE_W + COL_GAP) <==> b.node.id in Resolved(NodeIds(dag.nodes), Drawn(dag), k)
    {
      LevelsAreRounds(dag, level, b.node.id, k);
    }
  }

  lemma BoxesShowNodes(boxes: seq<Box>, nodes: seq<Node>, i: nat)
    requires multiset(NodesOf(boxes)) == multiset(nodes) && i < |boxes|
    ensures boxes[i].node in nodes && |boxes| == |nodes|
  {
    assert NodesOf(boxes)[i] in multiset(NodesOf(boxes));
    assert |multiset(NodesOf(boxes))| == |NodesOf(boxes)|;
  }

  /**
   From a validated workflow to its picture: one box per step, none overlapping, all
   inside, and every box in the column of the round in which its step can be resolved.
   */
  method DrawWorkflow(steps: seq<Step>, statuses: map<Id, Status>)
    returns (positioned: seq<Box>, width: int, height: int)
    requires SourcesKnown(Ids(steps), Dependencies(steps)) && Acyclic(Dependencies(steps))
    ensures |positioned| == |steps|
    ensures forall i, j :: 0 <= i < j < |positioned| ==> Apart(positioned[i], positioned[j])
    ensures AllInside(positioned, width, height)
    ensures forall i :: 0 <= i < |positioned| ==> ColumnIsRound(Ids(steps), Dependencies(steps), positioned[i])
  {
    var dag := BuildDag(steps, statuses);
    NodesAreSteps(steps, statuses, dag.nodes);
    DrawnIsDependencies(steps, dag);
    ghost var level;
    positioned, width, height, level := Draw(dag);
    assert |multiset(NodesOf(positioned))| == |multiset(dag.nodes)|;
    forall i | 0 <= i < |positioned| ensures ColumnIsRound(Ids(steps), Dependencies(steps), positioned[i]) {
      BoxesShowNodes(positioned, dag.nodes, i);
      ColumnsAreRounds(dag, level, positioned[i]);
    }
  }
}
