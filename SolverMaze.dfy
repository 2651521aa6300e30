/**
  The solver's maze graph of solver/maze.py: a row-major list of cell
  bitmasks, the index arithmetic over it, the classification of cells into
  graph nodes, and the links between nodes that see each other along a row or
  a column.
*/
module SolverMaze {
  import opened Wrappers
  import opened Helpful

  // Bit positions of CellConnections (lines 4-13); the flag's value is 2 to that power.
  const UP: nat := 0     // 1
  const DOWN: nat := 1   // 2
  const LEFT: nat := 2   // 4
  const RIGHT: nat := 3  // 8
  const START: nat := 4  // 16
  const END: nat := 5    // 32
  const WALL: nat := 6   // 64

  // Slots of a node's connections and distances (line 18): up, down, left, right.
  const SlotUp: nat := 0
  const SlotDown: nat := 1
  const SlotLeft: nat := 2
  const SlotRight: nat := 3

  /**
    A node (lines 15-22): its cell index, and per slot the cell index of the
    linked node and the distance to it, None while unlinked.
  */
  datatype Node = Node(index: int, connections: seq<Option<int>>, distances: seq<Option<int>>)

  /** Node(index): no links yet. */
  function NewNode(index: int): (n: Node)
    ensures n.index == index && |n.connections| == 4 && |n.distances| == 4
    ensures forall s :: 0 <= s < 4 ==> n.connections[s].None? && n.distances[s].None?
  {
    Node(index, [None, None, None, None], [None, None, None, None])
  }

  /** The cell index of every node, in list order. */
  function Indices(nodes: seq<Node>): (idx: seq<int>)
    ensures |idx| == |nodes| && forall k :: 0 <= k < |nodes| ==> idx[k] == nodes[k].index
  {
    seq(|nodes|, k requires 0 <= k < |nodes| => nodes[k].index)
  }

  /** The position of the first node with the given cell index, or -1 when no node has it. */
  function Position(idx: seq<int>, index: int): (p: int)
    ensures -1 <= p < |idx|
    ensures p == -1 <==> index !in idx
    ensures p >= 0 ==> idx[p] == index && index !in idx[..p]
  {
    if idx == [] then -1
    else if idx[0] == index then 0
    else
      var p := Position(idx[1..], index);
      if p == -1 then -1
      else
        assert idx[..p + 1] == [idx[0]] + idx[1..][..p];
        p + 1
  }

  /** What calc_nodes makes of a cell (lines 157-172). */
  datatype Kind = Junction | Corner | DeadEnd | Plain

  /**
    The branches of calc_nodes: a junction has three or more one bits and is
    no start, end or wall; then start, end and every cell with both a
    vertical and a horizontal opening; then dead ends with a single one bit.
  */
  function Classify(c: nat): Kind
  {
    if !HasBit(c, START) && !HasBit(c, END) && !HasBit(c, WALL) && PopCount(c) >= 3 then Junction
    else if HasBit(c, START) || HasBit(c, END)
      || (HasBit(c, UP) && HasBit(c, LEFT)) || (HasBit(c, UP) && HasBit(c, RIGHT))
      || (HasBit(c, DOWN) && HasBit(c, LEFT)) || (HasBit(c, DOWN) && HasBit(c, RIGHT)) then Corner
    else if !HasBit(c, START) && !HasBit(c, END) && !HasBit(c, WALL) && PopCount(c) == 1 then DeadEnd
    else Plain
  }

  /**
    A dead end is exactly a cell that is no start, end or wall and has one
    bit set: the corner branch before it never takes a one-bit cell.
  */
  lemma DeadEndIff(c: nat)
    ensures Classify(c) == DeadEnd <==> !HasBit(c, START) && !HasBit(c, END) && !HasBit(c, WALL) && PopCount(c) == 1
  {
    PopCountLowBits(c);
  }

  /**
    Over the four direction bits alone, the cells that are not nodes are the
    closed cell and the two straight corridors (up and down, left and right).
  */
  lemma PlainCells(c: nat)
    requires c < 16
    ensures Classify(c) == Plain <==> c == 0 || c == 3 || c == 12
  {
    PopCountLowBits(c);
    assert !HasBit(c, START) && !HasBit(c, END) && !HasBit(c, WALL) by {
      var c1 := c / 2;
      var c2 := c1 / 2;
      var c3 := c2 / 2;
      assert c3 / 2 == 0;
      ZeroHasNoBits(0);
      ZeroHasNoBits(1);
      ZeroHasNoBits(2);
      assert HasBit(c, 4) == HasBit(c1, 3) == HasBit(c2, 2) == HasBit(c3, 1) == HasBit(c3 / 2, 0);
      assert HasBit(c, 5) == HasBit(c1, 4) == HasBit(c2, 3) == HasBit(c3, 2) == HasBit(c3 / 2, 1);
      assert HasBit(c, 6) == HasBit(c1, 5) == HasBit(c2, 4) == HasBit(c3, 3) == HasBit(c3 / 2, 2);
    }
  }

  lemma ZeroHasNoBits(k: nat)
    ensures !HasBit(0, k)
  {
  }

  /** The cells calc_nodes turns into nodes, in increasing cell order. */
  function NodeCells(cells: seq<nat>): (nc: seq<int>)
  {
    if cells == [] then []
    else NodeCells(cells[..|cells| - 1]) + (if Classify(cells[|cells| - 1]) != Plain then [|cells| - 1] else [])
  }

  /** The cells calc_nodes turns into junctions, in increasing cell order. */
  function JunctionCells(cells: seq<nat>): (jc: seq<int>)
  {
    if cells == [] then []
    else JunctionCells(cells[..|cells| - 1]) + (if Classify(cells[|cells| - 1]) == Junction then [|cells| - 1] else [])
  }

  /** The number of dead ends among the cells. */
  function DeadEndCount(cells: seq<nat>): nat
  {
    if cells == [] then 0
    else DeadEndCount(cells[..|cells| - 1]) + Ind(Classify(cells[|cells| - 1]) == DeadEnd)
  }

  /**
    The node cells are strictly increasing, so each cell yields at most one
    node, and they are exactly the cells that are not plain.
  */
  lemma {:induction false} NodeCellsAreTheNodes(cells: seq<nat>)
    ensures forall a :: 0 <= a < |NodeCells(cells)| ==> 0 <= NodeCells(cells)[a] < |cells|
    ensures forall a, b :: 0 <= a < b < |NodeCells(cells)| ==> NodeCells(cells)[a] < NodeCells(cells)[b]
    ensures forall i :: i in NodeCells(cells) <==> 0 <= i < |cells| && Classify(cells[i]) != Plain
  {
    if cells != [] {
      var init := cells[..|cells| - 1];
      var last := |cells| - 1;
      NodeCellsAreTheNodes(init);
      assert forall i :: 0 <= i < |init| ==> init[i] == cells[i];
      var prev := NodeCells(init);
      var tail := if Classify(cells[last]) != Plain then [last] else [];
      assert NodeCells(cells) == prev + tail;
      assert forall a :: 0 <= a < |prev| ==> prev[a] < last;
    }
  }

  /** The junction cells are exactly the cells classified as junctions. */
  lemma {:induction false} JunctionCellsAreTheJunctions(cells: seq<nat>)
    ensures forall i :: i in JunctionCells(cells) <==> 0 <= i < |cells| && Classify(cells[i]) == Junction
  {
    if cells != [] {
      var init := cells[..|cells| - 1];
      JunctionCellsAreTheJunctions(init);
      assert forall i :: 0 <= i < |init| ==> init[i] == cells[i];
    }
  }

  /** The nodes appended for a list of cell indices. */
  function NewNodes(nc: seq<int>): (ns: seq<Node>)
    ensures |ns| == |nc| && Indices(ns) == nc
    ensures forall k :: 0 <= k < |nc| ==> ns[k] == NewNode(nc[k])
  {
    seq(|nc|, k requires 0 <= k < |nc| => NewNode(nc[k]))
  }

  /** One more cell extends the node cells, the junction cells and the dead-end count by that cell's kind. */
  lemma PrefixStep(cells: seq<nat>, i: int)
    requires 0 <= i < |cells|
    ensures NewNodes(NodeCells(cells[..i + 1])) == NewNodes(NodeCells(cells[..i])) + (if Classify(cells[i]) != Plain then [NewNode(i)] else [])
    ensures NewNodes(JunctionCells(cells[..i + 1])) == NewNodes(JunctionCells(cells[..i])) + (if Classify(cells[i]) == Junction then [NewNode(i)] else [])
    ensures |JunctionCells(cells[..i + 1])| == |JunctionCells(cells[..i])| + Ind(Classify(cells[i]) == Junction)
    ensures DeadEndCount(cells[..i + 1]) == DeadEndCount(cells[..i]) + Ind(Classify(cells[i]) == DeadEnd)
  {
    assert cells[..i + 1][..i] == cells[..i];
    NewNodesAppend(NodeCells(cells[..i]), i);
    NewNodesAppend(JunctionCells(cells[..i]), i);
  }

  lemma NewNodesAppend(nc: seq<int>, x: int)
    ensures NewNodes(nc + [x]) == NewNodes(nc) + [NewNode(x)]
  {
  }

  /** The number of cells whose WALL bit is clear. */
  function NonWallCount(cells: seq<nat>): nat
  {
    if cells == [] then 0
    else NonWallCount(cells[..|cells| - 1]) + Ind(!HasBit(cells[|cells| - 1], WALL))
  }

  /** The traversible cells are at most all cells, and all of them exactly when no cell is a wall. */
  lemma {:induction false} NonWallCountBound(cells: seq<nat>)
    ensures NonWallCount(cells) <= |cells|
    ensures NonWallCount(cells) == |cells| <==> forall i :: 0 <= i < |cells| ==> !HasBit(cells[i], WALL)
  {
    if cells != [] {
      var init := cells[..|cells| - 1];
      NonWallCountBound(init);
      assert forall i :: 0 <= i < |init| ==> init[i] == cells[i];
    }
  }

  // ---------------------------------------------------------------------
  // The scans of calc_connections (lines 176-209)
  // ---------------------------------------------------------------------

  /** Every node has four connection and four distance slots. */
  predicate Shaped(nodes: seq<Node>)
  {
    forall k :: 0 <= k < |nodes| ==> |nodes[k].connections| == 4 && |nodes[k].distances| == 4
  }

  /** What the scans read: the cells, the dimensions and the cell index of each node. */
  datatype Layout = Layout(cells: seq<nat>, rows: int, cols: int, idx: seq<int>)

  /** The grid has its shape and every node sits on one of its cells. */
  predicate LayoutOk(g: Layout)
  {
    g.rows >= 0 && g.cols >= 0 && |g.cells| == g.rows * g.cols
    && forall k :: 0 <= k < |g.idx| ==> 0 <= g.idx[k] < |g.cells|
  }

  /** A scan runs along a row (`down` false) or down a column (`down` true). */
  function Limit(g: Layout, down: bool): int
  {
    if down then g.rows else g.cols
  }

  /** The coordinate a scan advances: the column along a row, the row down a column. */
  function Start(down: bool, row: int, col: int): int
  {
    if down then row else col
  }

  /** The cell at step i of a scan from (row, col). */
  function CellAt(g: Layout, down: bool, row: int, col: int, i: int): int
  {
    if down then i * g.cols + col else row * g.cols + i
  }

  /** The cell exists and is no wall. */
  predicate Clear(g: Layout, ind: int)
  {
    0 <= ind < |g.cells| && !HasBit(g.cells[ind], WALL)
  }

  /**
    The inner loops of calc_connections from step i on: a wall ends the
    scan with nothing; the first node cell ends it with (position of the
    node, its cell, distance from the starting cell).
  */
  function Scan(g: Layout, down: bool, row: int, col: int, i: int): (hit: Option<(int, int, int)>)
    requires LayoutOk(g) && 0 <= row < g.rows && 0 <= col < g.cols && i >= 0
    ensures hit.Some? ==> 0 <= hit.value.0 < |g.idx| && g.idx[hit.value.0] == hit.value.1
    ensures hit.Some? ==> hit.value.2 >= i - Start(down, row, col)
    decreases Limit(g, down) - i
  {
    if i >= Limit(g, down) then None
    else
      GridIndex(g.rows, g.cols, if down then i else row, if down then col else i);
      var ind := CellAt(g, down, row, col, i);
      if HasBit(g.cells[ind], WALL) then None
      else if Position(g.idx, ind) != -1 then Some((Position(g.idx, ind), ind, i - Start(down, row, col)))
      else Scan(g, down, row, col, i + 1)
  }

  /** The scan started from the cell of node k, one step past that cell. */
  function Hit(g: Layout, down: bool, k: int): (hit: Option<(int, int, int)>)
    requires LayoutOk(g) && 0 <= k < |g.idx|
    ensures hit.Some? ==> 0 <= hit.value.0 < |g.idx| && g.idx[hit.value.0] == hit.value.1 && hit.value.2 >= 1
  {
    CellRowCol(g.rows, g.cols, g.idx[k]);
    var row := g.idx[k] / g.cols;
    var col := g.idx[k] % g.cols;
    Scan(g, down, row, col, Start(down, row, col) + 1)
  }

  /** Node k's scan is the scan from its row and column. */
  lemma HitFromCell(g: Layout, down: bool, k: int, row: int, col: int)
    requires LayoutOk(g) && 0 <= k < |g.idx| && g.cols > 0 && row == g.idx[k] / g.cols && col == g.idx[k] % g.cols
    requires 0 <= row < g.rows && 0 <= col < g.cols
    ensures Hit(g, down, k) == Scan(g, down, row, col, Start(down, row, col) + 1)
  {
  }

  /** Entry k of the scan list hs is node k's scan. */
  predicate HitIs(g: Layout, hs: seq<Option<(int, int, int)>>, down: bool, k: int)
  {
    LayoutOk(g) && 0 <= k < |g.idx| && k < |hs| && hs[k] == Hit(g, down, k)
  }

  /** The scan list holds, for node k, the scan from k's own row and column. */
  lemma ScanOfCell(g: Layout, hs: seq<Option<(int, int, int)>>, down: bool, k: int, row: int, col: int)
    requires HitIs(g, hs, down, k) && g.cols > 0
    requires row == g.idx[k] / g.cols && col == g.idx[k] % g.cols && 0 <= row < g.rows && 0 <= col < g.cols
    ensures hs[k] == Scan(g, down, row, col, Start(down, row, col) + 1)
  {
    HitFromCell(g, down, k, row, col);
  }

  /**
    A scan that finds a node finds it on the same row (or column), d steps
    on, on a cell that is no wall, and every cell it passed on the way is
    neither a wall nor a node.
  */
  lemma {:induction false} ScanHit(g: Layout, down: bool, row: int, col: int, i: int)
    requires LayoutOk(g) && 0 <= row < g.rows && 0 <= col < g.cols && i >= 0
    requires Scan(g, down, row, col, i).Some?
    ensures var h := Scan(g, down, row, col, i).value;
      i <= Start(down, row, col) + h.2 < Limit(g, down)
      && 0 <= h.0 < |g.idx| && g.idx[h.0] == h.1 == CellAt(g, down, row, col, Start(down, row, col) + h.2)
      && Clear(g, h.1)
    ensures var h := Scan(g, down, row, col, i).value;
      forall j :: i <= j < Start(down, row, col) + h.2 ==>
        Clear(g, CellAt(g, down, row, col, j)) && CellAt(g, down, row, col, j) !in g.idx
    decreases Limit(g, down) - i
  {
    GridIndex(g.rows, g.cols, if down then i else row, if down then col else i);
    var ind := CellAt(g, down, row, col, i);
    if !HasBit(g.cells[ind], WALL) && Position(g.idx, ind) == -1 {
      ScanHit(g, down, row, col, i + 1);
    }
  }

  /** Where a scan that finds a node ends: the node's cell, d steps on. */
  lemma ScanEnd(g: Layout, down: bool, row: int, col: int, i: int)
    requires LayoutOk(g) && 0 <= row < g.rows && 0 <= col < g.cols && i >= 0
    requires Scan(g, down, row, col, i).Some?
    ensures var h := Scan(g, down, row, col, i).value;
      i <= Start(down, row, col) + h.2 < Limit(g, down)
      && 0 <= h.0 < |g.idx| && g.idx[h.0] == h.1 == CellAt(g, down, row, col, Start(down, row, col) + h.2)
  {
    ScanHit(g, down, row, col, i);
  }

  /** All cells of a scan from step a up to b are clear. */
  predicate AllClear(g: Layout, down: bool, row: int, col: int, a: int, b: int)
  {
    forall j :: a <= j < b ==> Clear(g, CellAt(g, down, row, col, j))
  }

  /** A scan that finds nothing passes no node before the first wall or the edge of the grid. */
  lemma {:induction false} ScanMiss(g: Layout, down: bool, row: int, col: int, i: int)
    requires LayoutOk(g) && 0 <= row < g.rows && 0 <= col < g.cols && i >= 0
    requires Scan(g, down, row, col, i).None?
    ensures forall j :: i <= j < Limit(g, down) && AllClear(g, down, row, col, i, j + 1) ==>
      CellAt(g, down, row, col, j) !in g.idx
    decreases Limit(g, down) - i
  {
    if i < Limit(g, down) {
      GridIndex(g.rows, g.cols, if down then i else row, if down then col else i);
      var ind := CellAt(g, down, row, col, i);
      if !HasBit(g.cells[ind], WALL) {
        ScanMiss(g, down, row, col, i + 1);
        forall j | i <= j < Limit(g, down) && AllClear(g, down, row, col, i, j + 1)
          ensures CellAt(g, down, row, col, j) !in g.idx
        {
          if j > i {
            assert AllClear(g, down, row, col, i + 1, j + 1);
          }
        }
      }
    }
  }

  /**
    Two scans that end on the same node started from the same cell: the
    nearer start would lie on the other scan's way, yet no node lies there.
  */
  lemma HitsUnique(g: Layout, down: bool, k: int, k': int)
    requires LayoutOk(g) && 0 <= k < |g.idx| && 0 <= k' < |g.idx|
    requires Hit(g, down, k).Some? && Hit(g, down, k').Some? && Hit(g, down, k).value.0 == Hit(g, down, k').value.0
    ensures g.idx[k] == g.idx[k'] && Hit(g, down, k) == Hit(g, down, k')
  {
    CellRowCol(g.rows, g.cols, g.idx[k]);
    CellRowCol(g.rows, g.cols, g.idx[k']);
    SameStart(g, down, g.idx[k] / g.cols, g.idx[k] % g.cols, g.idx[k'] / g.cols, g.idx[k'] % g.cols);
  }

  /** Scans from two node cells that end on the same node start from the same cell. */
  lemma SameStart(g: Layout, down: bool, row: int, col: int, row': int, col': int)
    requires LayoutOk(g) && 0 <= row < g.rows && 0 <= col < g.cols && 0 <= row' < g.rows && 0 <= col' < g.cols
    requires row * g.cols + col in g.idx && row' * g.cols + col' in g.idx
    requires Scan(g, down, row, col, Start(down, row, col) + 1).Some?
    requires Scan(g, down, row', col', Start(down, row', col') + 1).Some?
    requires Scan(g, down, row, col, Start(down, row, col) + 1).value.0 == Scan(g, down, row', col', Start(down, row', col') + 1).value.0
    ensures row == row' && col == col'
  {
    if down {
      assert Start(down, row, col) == row && Start(down, row', col') == row';
      SameStartDown(g, row, col, row', col');
    } else {
      assert Start(down, row, col) == col && Start(down, row', col') == col';
      SameStartRight(g, row, col, row', col');
    }
  }

  /** SameStart for the scans down a column. */
  lemma SameStartDown(g: Layout, row: int, col: int, row': int, col': int)
    requires LayoutOk(g) && 0 <= row < g.rows && 0 <= col < g.cols && 0 <= row' < g.rows && 0 <= col' < g.cols
    requires row * g.cols + col in g.idx && row' * g.cols + col' in g.idx
    requires Scan(g, true, row, col, row + 1).Some? && Scan(g, true, row', col', row' + 1).Some?
    requires Scan(g, true, row, col, row + 1).value.0 == Scan(g, true, row', col', row' + 1).value.0
    ensures row == row' && col == col'
  {
    ScanEnd(g, true, row, col, row + 1);
    ScanEnd(g, true, row', col', row' + 1);
    var h, h' := Scan(g, true, row, col, row + 1).value, Scan(g, true, row', col', row' + 1).value;
    var e, e' := row + h.2, row' + h'.2;
    assert e * g.cols + col == e' * g.cols + col';
    CoordsInjective(g.cols, e, col, e', col');
    assert col == col' && e == e';
    assert CellAt(g, true, row, col, row') == row' * g.cols + col';
    assert CellAt(g, true, row', col', row) == row * g.cols + col;
    if row < row' {
      NotPassed(g, true, row, col, row + 1, row');
    } else if row' < row {
      NotPassed(g, true, row', col', row' + 1, row);
    }
  }

  /** SameStart for the scans along a row. */
  lemma SameStartRight(g: Layout, row: int, col: int, row': int, col': int)
    requires LayoutOk(g) && 0 <= row < g.rows && 0 <= col < g.cols && 0 <= row' < g.rows && 0 <= col' < g.cols
    requires row * g.cols + col in g.idx && row' * g.cols + col' in g.idx
    requires Scan(g, false, row, col, col + 1).Some? && Scan(g, false, row', col', col' + 1).Some?
    requires Scan(g, false, row, col, col + 1).value.0 == Scan(g, false, row', col', col' + 1).value.0
    ensures row == row' && col == col'
  {
    ScanEnd(g, false, row, col, col + 1);
    ScanEnd(g, false, row', col', col' + 1);
    var h, h' := Scan(g, false, row, col, col + 1).value, Scan(g, false, row', col', col' + 1).value;
    var e, e' := col + h.2, col' + h'.2;
    assert row * g.cols + e == row' * g.cols + e';
    CoordsInjective(g.cols, row, e, row', e');
    assert row == row' && e == e';
    assert CellAt(g, false, row, col, col') == row' * g.cols + col';
    assert CellAt(g, false, row', col', col) == row * g.cols + col;
    if col < col' {
      NotPassed(g, false, row, col, col + 1, col');
    } else if col' < col {
      NotPassed(g, false, row', col', col' + 1, col);
    }
  }


  /** A scan that finds a node passes no node cell on its way there. */
  lemma NotPassed(g: Layout, down: bool, row: int, col: int, i: int, j: int)
    requires LayoutOk(g) && 0 <= row < g.rows && 0 <= col < g.cols && i >= 0
    requires Scan(g, down, row, col, i).Some?
    ensures i <= j < Start(down, row, col) + Scan(g, down, row, col, i).value.2 ==> CellAt(g, down, row, col, j) !in g.idx
  {
    ScanHit(g, down, row, col, i);
  }

  /** Row-major positions of distinct cells differ. */
  lemma CoordsInjective(cols: int, r: int, c: int, r': int, c': int)
    requires r >= 0 && r' >= 0 && 0 <= c < cols && 0 <= c' < cols
    ensures r * cols + c == r' * cols + c' ==> r == r' && c == c'
  {
    LinearDivMod(r, c, cols);
    LinearDivMod(r', c', cols);
  }

  /** Each scan result names a node by its position and its cell. */
  predicate HitsOk(hs: seq<Option<(int, int, int)>>, idx: seq<int>)
  {
    |hs| == |idx| && forall k :: 0 <= k < |hs| && hs[k].Some? ==> 0 <= hs[k].value.0 < |idx| && idx[hs[k].value.0] == hs[k].value.1
  }

  /** Scans that end on the same node started from the same cell and give the same result. */
  predicate HitsUniqueIn(hs: seq<Option<(int, int, int)>>, idx: seq<int>)
    requires |hs| == |idx|
  {
    forall k, k' :: 0 <= k < |hs| && 0 <= k' < |hs| && hs[k].Some? && hs[k'].Some? && hs[k].value.0 == hs[k'].value.0
      ==> idx[k] == idx[k'] && hs[k] == hs[k']
  }

  /** The result of every node's scan in one direction, in node order. */
  function Scans(g: Layout, down: bool): (hs: seq<Option<(int, int, int)>>)
    requires LayoutOk(g)
    ensures HitsOk(hs, g.idx) && HitsUniqueIn(hs, g.idx)
    ensures forall k :: 0 <= k < |g.idx| ==> hs[k] == Hit(g, down, k)
  {
    var hs := seq(|g.idx|, k requires 0 <= k < |g.idx| => Hit(g, down, k));
    assert HitsUniqueIn(hs, g.idx) by {
      forall k, k' | 0 <= k < |hs| && 0 <= k' < |hs| && hs[k].Some? && hs[k'].Some? && hs[k].value.0 == hs[k'].value.0
        ensures g.idx[k] == g.idx[k'] && hs[k] == hs[k']
      {
        HitsUnique(g, down, k, k');
      }
    }
    hs
  }

  /** Node k's two scans, from its own row and column, are its entries in the scan lists. */
  lemma ScansOfNode(g: Layout, rh: seq<Option<(int, int, int)>>, ch: seq<Option<(int, int, int)>>,
                    k: int, row: int, col: int, right: Option<(int, int, int)>, down: Option<(int, int, int)>)
    requires HitIs(g, rh, false, k) && HitIs(g, ch, true, k) && g.cols > 0
    requires row == g.idx[k] / g.cols && col == g.idx[k] % g.cols && 0 <= row < g.rows && 0 <= col < g.cols
    requires right == Scan(g, false, row, col, col + 1) && down == Scan(g, true, row, col, row + 1)
    ensures right == rh[k] && down == ch[k]
  {
    assert right == rh[k] by {
      ScanOfCell(g, rh, false, k, row, col);
      assert Start(false, row, col) == col;
    }
    assert down == ch[k] by {
      ScanOfCell(g, ch, true, k, row, col);
      assert Start(true, row, col) == row;
    }
  }

  /**
    The scan lists of calc_connections, described entry by entry, with the
    nodes they produce once every scan is linked.
  */
  lemma ScanLists(g: Layout, o: seq<Node>) returns (rh: seq<Option<(int, int, int)>>, ch: seq<Option<(int, int, int)>>)
    requires LayoutOk(g) && Shaped(o) && Indices(o) == g.idx
    ensures ScanState(o, rh, ch) && |rh| == |ch| == |o|
    ensures forall k :: 0 <= k < |o| ==> HitIs(g, rh, false, k) && HitIs(g, ch, true, k)
  {
    rh, ch := Scans(g, false), Scans(g, true);
    forall k | 0 <= k < |o|
      ensures HitIs(g, rh, false, k) && HitIs(g, ch, true, k)
    {
    }
  }

  /** Scan lists that agree with every node's scan are the scans, so linking them all gives Connections. */
  lemma ScanListsDone(g: Layout, o: seq<Node>, rh: seq<Option<(int, int, int)>>, ch: seq<Option<(int, int, int)>>)
    requires LayoutOk(g) && Shaped(o) && Indices(o) == g.idx && ScanState(o, rh, ch) && |rh| == |ch| == |o|
    requires forall k :: 0 <= k < |o| ==> HitIs(g, rh, false, k) && HitIs(g, ch, true, k)
    ensures Connections(g, o) == Partial(o, rh, ch, |o|, |o|)
  {
    var rs, cs := Scans(g, false), Scans(g, true);
    forall k | 0 <= k < |o|
      ensures rh[k] == rs[k] && ch[k] == cs[k]
    {
      assert HitIs(g, rh, false, k) && HitIs(g, ch, true, k);
    }
    assert rh == rs && ch == cs;
  }

  /**
    The link node p receives from the scans of nodes 0..k0-1: from the last
    of them that ended on p, the scanning node's cell and the distance.
  */
  function BackLink(hs: seq<Option<(int, int, int)>>, idx: seq<int>, k0: int, p: int): Option<(int, int)>
    requires HitsOk(hs, idx) && 0 <= k0 <= |hs|
    decreases k0
  {
    if k0 == 0 then None
    else if hs[k0 - 1].Some? && hs[k0 - 1].value.0 == p then Some((idx[k0 - 1], hs[k0 - 1].value.2))
    else BackLink(hs, idx, k0 - 1, p)
  }

  /** Any node whose scan ends on p gives p the same back link: p's back link comes from it. */
  lemma {:induction false} BackLinkOfHit(hs: seq<Option<(int, int, int)>>, idx: seq<int>, k0: int, k: int)
    requires HitsOk(hs, idx) && HitsUniqueIn(hs, idx) && 0 <= k < k0 <= |hs| && hs[k].Some?
    ensures BackLink(hs, idx, k0, hs[k].value.0) == Some((idx[k], hs[k].value.2))
    decreases k0
  {
    if k0 - 1 != k {
      BackLinkOfHit(hs, idx, k0 - 1, k);
    }
  }

  /** A node gets no back link exactly when no scan ends on it. */
  lemma {:induction false} BackLinkNone(hs: seq<Option<(int, int, int)>>, idx: seq<int>, k0: int, p: int)
    requires HitsOk(hs, idx) && 0 <= k0 <= |hs|
    ensures BackLink(hs, idx, k0, p).None? <==> forall k :: 0 <= k < k0 && hs[k].Some? ==> hs[k].value.0 != p
    decreases k0
  {
    if k0 > 0 {
      BackLinkNone(hs, idx, k0 - 1, p);
    }
  }

  /** A back link comes from some earlier scan that ended on p: that node's cell and its scan's distance. */
  lemma {:induction false} BackLinkSource(hs: seq<Option<(int, int, int)>>, idx: seq<int>, k0: int, p: int) returns (k: int)
    requires HitsOk(hs, idx) && 0 <= k0 <= |hs| && BackLink(hs, idx, k0, p).Some?
    ensures 0 <= k < k0 && hs[k].Some? && hs[k].value.0 == p
    ensures BackLink(hs, idx, k0, p) == Some((idx[k], hs[k].value.2))
    decreases k0
  {
    if hs[k0 - 1].Some? && hs[k0 - 1].value.0 == p {
      k := k0 - 1;
    } else {
      k := BackLinkSource(hs, idx, k0 - 1, p);
    }
  }

  /** The forward link of node j once the scans of nodes 0..k0-1 are done. */
  function FwdLink(hs: seq<Option<(int, int, int)>>, k0: int, j: int): Option<(int, int)>
    requires 0 <= j < |hs|
  {
    if j < k0 && hs[j].Some? then Some((hs[j].value.1, hs[j].value.2)) else None
  }

  /** The node with the given links filled into its slots; None keeps the slot. */
  function LinkedNode(n: Node, links: seq<Option<(int, int)>>): Node
    requires |n.connections| == 4 && |n.distances| == 4 && |links| == 4
  {
    Node(n.index,
      seq(4, s requires 0 <= s < 4 => if links[s].Some? then Some(links[s].value.0) else n.connections[s]),
      seq(4, s requires 0 <= s < 4 => if links[s].Some? then Some(links[s].value.1) else n.distances[s]))
  }

  /** The prerequisites of the scan bookkeeping: shaped nodes and scan results over their cells. */
  predicate ScanState(o: seq<Node>, rh: seq<Option<(int, int, int)>>, ch: seq<Option<(int, int, int)>>)
  {
    Shaped(o) && HitsOk(rh, Indices(o)) && HitsOk(ch, Indices(o))
  }

  /**
    Node j once the row scans of nodes 0..r0-1 and the column scans of nodes
    0..c0-1 are done: up, down, left and right links.
  */
  function PartialNode(o: seq<Node>, rh: seq<Option<(int, int, int)>>, ch: seq<Option<(int, int, int)>>, r0: int, c0: int, j: int): Node
    requires ScanState(o, rh, ch) && 0 <= r0 <= |o| && 0 <= c0 <= |o| && 0 <= j < |o|
  {
    LinkedNode(o[j], [BackLink(ch, Indices(o), c0, j), FwdLink(ch, c0, j), BackLink(rh, Indices(o), r0, j), FwdLink(rh, r0, j)])
  }

  /** The nodes once the row scans of nodes 0..r0-1 and the column scans of nodes 0..c0-1 are done. */
  function Partial(o: seq<Node>, rh: seq<Option<(int, int, int)>>, ch: seq<Option<(int, int, int)>>, r0: int, c0: int): (ns: seq<Node>)
    requires ScanState(o, rh, ch) && 0 <= r0 <= |o| && 0 <= c0 <= |o|
    ensures |ns| == |o| && Shaped(ns) && Indices(ns) == Indices(o)
  {
    seq(|o|, j requires 0 <= j < |o| => PartialNode(o, rh, ch, r0, c0, j))
  }

  /** The nodes after calc_connections: every scan done. */
  function Connections(g: Layout, o: seq<Node>): (ns: seq<Node>)
    requires LayoutOk(g) && Shaped(o) && Indices(o) == g.idx
    ensures |ns| == |o| && Shaped(ns) && Indices(ns) == g.idx
  {
    Partial(o, Scans(g, false), Scans(g, true), |o|, |o|)
  }

  /** Slot s of a node set to a link. */
  function SetSlot(n: Node, s: nat, ind: int, d: int): Node
    requires s < |n.connections| && s < |n.distances|
  {
    n.(connections := n.connections[s := Some(ind)], distances := n.distances[s := Some(d)])
  }

  /**
    One scan's updates, made by calc_connections when node k's scan ends on
    the node at position p with cell ind at distance d: k gets the forward
    link (slot fwd, down or right) to ind, p the backward one (slot fwd - 1,
    up or left) to k's cell.
  */
  function Relink(ns: seq<Node>, k: int, fwd: nat, hit: Option<(int, int, int)>, cell: int): (r: seq<Node>)
    requires Shaped(ns) && 1 <= fwd < 4 && 0 <= k < |ns| && (hit.Some? ==> 0 <= hit.value.0 < |ns|)
    ensures |r| == |ns| && Shaped(r) && Indices(r) == Indices(ns)
  {
    if hit.None? then ns
    else
      var (p, ind, d) := hit.value;
      var ns1 := ns[k := SetSlot(ns[k], fwd, ind, d)];
      ns1[p := SetSlot(ns1[p], fwd - 1, cell, d)]
  }

  /** Before any scan the nodes are as they were. */
  lemma PartialNone(o: seq<Node>, rh: seq<Option<(int, int, int)>>, ch: seq<Option<(int, int, int)>>)
    requires ScanState(o, rh, ch)
    ensures Partial(o, rh, ch, 0, 0) == o
  {
    forall j | 0 <= j < |o|
      ensures Partial(o, rh, ch, 0, 0)[j] == o[j]
    {
      assert PartialNode(o, rh, ch, 0, 0, j).connections == o[j].connections;
      assert PartialNode(o, rh, ch, 0, 0, j).distances == o[j].distances;
    }
  }

  /** The row scan of node r0 turns the state after r0 row scans into the state after r0 + 1. */
  lemma RowStep(o: seq<Node>, rh: seq<Option<(int, int, int)>>, ch: seq<Option<(int, int, int)>>, r0: int, c0: int)
    requires ScanState(o, rh, ch) && 0 <= r0 < |o| && 0 <= c0 <= |o|
    ensures Relink(Partial(o, rh, ch, r0, c0), r0, SlotRight, rh[r0], o[r0].index) == Partial(o, rh, ch, r0 + 1, c0)
  {
    forall j | 0 <= j < |o|
      ensures Relink(Partial(o, rh, ch, r0, c0), r0, SlotRight, rh[r0], o[r0].index)[j] == Partial(o, rh, ch, r0 + 1, c0)[j]
    {
      RowStepAt(o, rh, ch, r0, c0, j);
    }
  }

  /** The row step seen at node j. */
  lemma RowStepAt(o: seq<Node>, rh: seq<Option<(int, int, int)>>, ch: seq<Option<(int, int, int)>>, r0: int, c0: int, j: int)
    requires ScanState(o, rh, ch) && 0 <= r0 < |o| && 0 <= c0 <= |o| && 0 <= j < |o|
    ensures Relink(Partial(o, rh, ch, r0, c0), r0, SlotRight, rh[r0], o[r0].index)[j] == Partial(o, rh, ch, r0 + 1, c0)[j]
  {
    var before, after := Partial(o, rh, ch, r0, c0), Partial(o, rh, ch, r0 + 1, c0);
    var r := Relink(before, r0, SlotRight, rh[r0], o[r0].index);
    forall s | 0 <= s < 4
      ensures r[j].connections[s] == after[j].connections[s] && r[j].distances[s] == after[j].distances[s]
    {
      RowStepSlot(o, rh, ch, r0, c0, j, s);
    }
    NodeExt(r[j], after[j]);
  }

  /** The row step seen at slot s of node j. */
  lemma RowStepSlot(o: seq<Node>, rh: seq<Option<(int, int, int)>>, ch: seq<Option<(int, int, int)>>, r0: int, c0: int, j: int, s: int)
    requires ScanState(o, rh, ch) && 0 <= r0 < |o| && 0 <= c0 <= |o| && 0 <= j < |o| && 0 <= s < 4
    ensures var r := Relink(Partial(o, rh, ch, r0, c0), r0, SlotRight, rh[r0], o[r0].index);
      var after := Partial(o, rh, ch, r0 + 1, c0);
      r[j].connections[s] == after[j].connections[s] && r[j].distances[s] == after[j].distances[s]
  {
    RelinkSlot(Partial(o, rh, ch, r0, c0), r0, SlotRight, rh[r0], o[r0].index, j, s);
    PartialSlot(o, rh, ch, r0, c0, j, s);
    PartialSlot(o, rh, ch, r0 + 1, c0, j, s);
    assert Indices(o)[r0] == o[r0].index;
    assert BackLink(rh, Indices(o), r0 + 1, j)
      == if rh[r0].Some? && rh[r0].value.0 == j then Some((o[r0].index, rh[r0].value.2)) else BackLink(rh, Indices(o), r0, j);
    assert FwdLink(rh, r0 + 1, j) == if j == r0 && rh[r0].Some? then Some((rh[r0].value.1, rh[r0].value.2)) else FwdLink(rh, r0, j);
  }

  /** The column scan of node c0 turns the state after c0 column scans into the state after c0 + 1. */
  lemma ColumnStep(o: seq<Node>, rh: seq<Option<(int, int, int)>>, ch: seq<Option<(int, int, int)>>, r0: int, c0: int)
    requires ScanState(o, rh, ch) && 0 <= r0 <= |o| && 0 <= c0 < |o|
    ensures Relink(Partial(o, rh, ch, r0, c0), c0, SlotDown, ch[c0], o[c0].index) == Partial(o, rh, ch, r0, c0 + 1)
  {
    forall j | 0 <= j < |o|
      ensures Relink(Partial(o, rh, ch, r0, c0), c0, SlotDown, ch[c0], o[c0].index)[j] == Partial(o, rh, ch, r0, c0 + 1)[j]
    {
      ColumnStepAt(o, rh, ch, r0, c0, j);
    }
  }

  /** The column step seen at node j. */
  lemma ColumnStepAt(o: seq<Node>, rh: seq<Option<(int, int, int)>>, ch: seq<Option<(int, int, int)>>, r0: int, c0: int, j: int)
    requires ScanState(o, rh, ch) && 0 <= r0 <= |o| && 0 <= c0 < |o| && 0 <= j < |o|
    ensures Relink(Partial(o, rh, ch, r0, c0), c0, SlotDown, ch[c0], o[c0].index)[j] == Partial(o, rh, ch, r0, c0 + 1)[j]
  {
    var before, after := Partial(o, rh, ch, r0, c0), Partial(o, rh, ch, r0, c0 + 1);
    var r := Relink(before, c0, SlotDown, ch[c0], o[c0].index);
    forall s | 0 <= s < 4
      ensures r[j].connections[s] == after[j].connections[s] && r[j].distances[s] == after[j].distances[s]
    {
      ColumnStepSlot(o, rh, ch, r0, c0, j, s);
    }
    NodeExt(r[j], after[j]);
  }

  /** The column step seen at slot s of node j. */
  lemma ColumnStepSlot(o: seq<Node>, rh: seq<Option<(int, int, int)>>, ch: seq<Option<(int, int, int)>>, r0: int, c0: int, j: int, s: int)
    requires ScanState(o, rh, ch) && 0 <= r0 <= |o| && 0 <= c0 < |o| && 0 <= j < |o| && 0 <= s < 4
    ensures var r := Relink(Partial(o, rh, ch, r0, c0), c0, SlotDown, ch[c0], o[c0].index);
      var after := Partial(o, rh, ch, r0, c0 + 1);
      r[j].connections[s] == after[j].connections[s] && r[j].distances[s] == after[j].distances[s]
  {
    RelinkSlot(Partial(o, rh, ch, r0, c0), c0, SlotDown, ch[c0], o[c0].index, j, s);
    PartialSlot(o, rh, ch, r0, c0, j, s);
    PartialSlot(o, rh, ch, r0, c0 + 1, j, s);
    assert Indices(o)[c0] == o[c0].index;
    assert BackLink(ch, Indices(o), c0 + 1, j)
      == if ch[c0].Some? && ch[c0].value.0 == j then Some((o[c0].index, ch[c0].value.2)) else BackLink(ch, Indices(o), c0, j);
    assert FwdLink(ch, c0 + 1, j) == if j == c0 && ch[c0].Some? then Some((ch[c0].value.1, ch[c0].value.2)) else FwdLink(ch, c0, j);
  }

  /** Slot s of node j after Relink. */
  lemma RelinkSlot(ns: seq<Node>, k: int, fwd: nat, hit: Option<(int, int, int)>, cell: int, j: int, s: int)
    requires Shaped(ns) && 1 <= fwd < 4 && 0 <= k < |ns| && (hit.Some? ==> 0 <= hit.value.0 < |ns|)
    requires 0 <= j < |ns| && 0 <= s < 4
    ensures var r := Relink(ns, k, fwd, hit, cell);
      r[j].index == ns[j].index
      && r[j].connections[s] == (if hit.Some? && j == hit.value.0 && s == fwd - 1 then Some(cell)
                                 else if hit.Some? && j == k && s == fwd then Some(hit.value.1)
                                 else ns[j].connections[s])
      && r[j].distances[s] == (if hit.Some? && j == hit.value.0 && s == fwd - 1 then Some(hit.value.2)
                               else if hit.Some? && j == k && s == fwd then Some(hit.value.2)
                               else ns[j].distances[s])
  {
  }

  /** Slot s of node j in a partial state. */
  lemma PartialSlot(o: seq<Node>, rh: seq<Option<(int, int, int)>>, ch: seq<Option<(int, int, int)>>, r0: int, c0: int, j: int, s: int)
    requires ScanState(o, rh, ch) && 0 <= r0 <= |o| && 0 <= c0 <= |o| && 0 <= j < |o| && 0 <= s < 4
    ensures var n := Partial(o, rh, ch, r0, c0)[j];
      var l := [BackLink(ch, Indices(o), c0, j), FwdLink(ch, c0, j), BackLink(rh, Indices(o), r0, j), FwdLink(rh, r0, j)][s];
      n.connections[s] == (if l.Some? then Some(l.value.0) else o[j].connections[s])
      && n.distances[s] == (if l.Some? then Some(l.value.1) else o[j].distances[s])
  {
  }

  /** Nodes with the same index and the same four slots are equal. */
  lemma NodeExt(a: Node, b: Node)
    requires a.index == b.index && |a.connections| == |b.connections| == 4 && |a.distances| == |b.distances| == 4
    requires forall s :: 0 <= s < 4 ==> a.connections[s] == b.connections[s] && a.distances[s] == b.distances[s]
    ensures a == b
  {
    assert a.connections == b.connections;
    assert a.distances == b.distances;
  }

  /**
    After calc_connections on unlinked nodes every link names the cell of a
    node, and carries a distance of at least one step.
  */
  lemma ConnectionsLinkNodes(g: Layout, o: seq<Node>, j: int, s: int)
    requires LayoutOk(g) && Shaped(o) && Indices(o) == g.idx && 0 <= j < |o| && 0 <= s < 4
    requires forall k :: 0 <= k < |o| ==> o[k] == NewNode(o[k].index)
    ensures var n := Connections(g, o)[j];
      n.connections[s].Some? ==> n.connections[s].value in g.idx && n.distances[s].Some? && n.distances[s].value >= 1
  {
    var rh, ch := Scans(g, false), Scans(g, true);
    assert Connections(g, o) == Partial(o, rh, ch, |o|, |o|);
    PartialSlot(o, rh, ch, |o|, |o|, j, s);
    assert o[j].connections[s].None?;
    var hs := if s < 2 then ch else rh;
    var down := s < 2;
    assert hs == Scans(g, down);
    if s == SlotUp || s == SlotLeft {
      if BackLink(hs, g.idx, |o|, j).Some? {
        var k := BackLinkSource(hs, g.idx, |o|, j);
        assert hs[k] == Hit(g, down, k);
      }
    } else {
      if FwdLink(hs, |o|, j).Some? {
        assert hs[j] == Hit(g, down, j);
      }
    }
  }

  /**
    After calc_connections the links are symmetric: when node k's scan ends
    on node p at distance d, k links forward (right or down) to p's cell and
    p links backward (left or up) to k's cell, both at distance d.
  */
  lemma LinksSymmetric(g: Layout, o: seq<Node>, down: bool, k: int)
    requires LayoutOk(g) && Shaped(o) && Indices(o) == g.idx && 0 <= k < |o|
    requires Hit(g, down, k).Some?
    ensures var h := Hit(g, down, k).value; var fwd := if down then SlotDown else SlotRight;
      0 <= h.0 < |o| && g.idx[h.0] == h.1
      && Connections(g, o)[k].connections[fwd] == Some(h.1) && Connections(g, o)[k].distances[fwd] == Some(h.2)
      && Connections(g, o)[h.0].connections[fwd - 1] == Some(g.idx[k]) && Connections(g, o)[h.0].distances[fwd - 1] == Some(h.2)
  {
    if down {
      LinksSymmetricDown(g, o, k);
    } else {
      LinksSymmetricRight(g, o, k);
    }
  }

  /** LinksSymmetric for the scans down a column. */
  lemma LinksSymmetricDown(g: Layout, o: seq<Node>, k: int)
    requires LayoutOk(g) && Shaped(o) && Indices(o) == g.idx && 0 <= k < |o|
    requires Hit(g, true, k).Some?
    ensures var h := Hit(g, true, k).value;
      0 <= h.0 < |o| && g.idx[h.0] == h.1
      && Connections(g, o)[k].connections[SlotDown] == Some(h.1) && Connections(g, o)[k].distances[SlotDown] == Some(h.2)
      && Connections(g, o)[h.0].connections[SlotUp] == Some(g.idx[k]) && Connections(g, o)[h.0].distances[SlotUp] == Some(h.2)
  {
    var rh, ch := Scans(g, false), Scans(g, true);
    assert Connections(g, o) == Partial(o, rh, ch, |o|, |o|);
    var h := Hit(g, true, k).value;
    assert ch[k] == Some(h);
    BackLinkOfHit(ch, g.idx, |o|, k);
    PartialSlot(o, rh, ch, |o|, |o|, k, SlotDown);
    PartialSlot(o, rh, ch, |o|, |o|, h.0, SlotUp);
  }

  /** LinksSymmetric for the scans along a row. */
  lemma LinksSymmetricRight(g: Layout, o: seq<Node>, k: int)
    requires LayoutOk(g) && Shaped(o) && Indices(o) == g.idx && 0 <= k < |o|
    requires Hit(g, false, k).Some?
    ensures var h := Hit(g, false, k).value;
      0 <= h.0 < |o| && g.idx[h.0] == h.1
      && Connections(g, o)[k].connections[SlotRight] == Some(h.1) && Connections(g, o)[k].distances[SlotRight] == Some(h.2)
      && Connections(g, o)[h.0].connections[SlotLeft] == Some(g.idx[k]) && Connections(g, o)[h.0].distances[SlotLeft] == Some(h.2)
  {
    var rh, ch := Scans(g, false), Scans(g, true);
    assert Connections(g, o) == Partial(o, rh, ch, |o|, |o|);
    var h := Hit(g, false, k).value;
    assert rh[k] == Some(h);
    BackLinkOfHit(rh, g.idx, |o|, k);
    PartialSlot(o, rh, ch, |o|, |o|, k, SlotRight);
    PartialSlot(o, rh, ch, |o|, |o|, h.0, SlotLeft);
  }

  /**
    After calc_connections a slot keeps its old value when no scan sets it:
    the forward slot when the node's own scan finds nothing, the backward
    slot when no scan ends on the node.
  */
  lemma SlotsKept(g: Layout, o: seq<Node>, down: bool, j: int)
    requires LayoutOk(g) && Shaped(o) && Indices(o) == g.idx && 0 <= j < |o|
    ensures var fwd := if down then SlotDown else SlotRight;
      Hit(g, down, j).None? ==>
        Connections(g, o)[j].connections[fwd] == o[j].connections[fwd] && Connections(g, o)[j].distances[fwd] == o[j].distances[fwd]
    ensures var back := if down then SlotUp else SlotLeft;
      (forall k :: 0 <= k < |o| && Hit(g, down, k).Some? ==> Hit(g, down, k).value.0 != j) ==>
        Connections(g, o)[j].connections[back] == o[j].connections[back] && Connections(g, o)[j].distances[back] == o[j].distances[back]
  {
    var rh, ch := Scans(g, false), Scans(g, true);
    assert Connections(g, o) == Partial(o, rh, ch, |o|, |o|);
    if down {
      BackLinkNone(ch, g.idx, |o|, j);
      PartialSlot(o, rh, ch, |o|, |o|, j, SlotDown);
      PartialSlot(o, rh, ch, |o|, |o|, j, SlotUp);
    } else {
      BackLinkNone(rh, g.idx, |o|, j);
      PartialSlot(o, rh, ch, |o|, |o|, j, SlotRight);
      PartialSlot(o, rh, ch, |o|, |o|, j, SlotLeft);
    }
  }

  /** A cell of a rows-by-cols grid lies in the list of cells. */
  lemma GridIndex(rows: int, cols: int, r: int, c: int)
    requires 0 <= r < rows && 0 <= c < cols
    ensures 0 <= r * cols + c < rows * cols
  {
    MulMono(r + 1, rows, cols);
    MulMono(0, r, cols);
    assert r * cols + cols == (r + 1) * cols;
  }

  /** A cell of the list has a row and a column in the grid. */
  lemma CellRowCol(rows: int, cols: int, i: int)
    requires rows >= 0 && cols >= 0 && 0 <= i < rows * cols
    ensures cols > 0 && 0 <= i / cols < rows && 0 <= i % cols < cols && i == (i / cols) * cols + i % cols
  {
    if i / cols >= rows {
      MulMono(rows, i / cols, cols);
    }
  }

  /** The solver's maze (lines 24-36): cells in row-major order and the nodes found in them. */
  class Maze {
    const rows: int
    const cols: int
    var deadEnds: int
    var junctions: int
    var cells: seq<nat>
    var nodes: seq<Node>
    var junctionNodes: seq<Node>

    /** The grid has the shape its dimensions give it. */
    ghost predicate Valid()
      reads this
    {
      rows >= 0 && cols >= 0 && |cells| == rows * cols
    }

    /** A maze of closed cells; `[0] * n` is empty for n <= 0. */
    constructor (r: int, c: int)
      ensures rows == r && cols == c && deadEnds == 0 && junctions == 0
      ensures nodes == [] && junctionNodes == []
      ensures |cells| == (if r * c > 0 then r * c else 0) && forall i :: 0 <= i < |cells| ==> cells[i] == 0
      ensures r >= 0 && c >= 0 ==> Valid()
    {
      rows := r;
      cols := c;
      deadEnds := 0;
      junctions := 0;
      cells := seq(if r * c > 0 then r * c else 0, _ => 0);
      nodes := [];
      junctionNodes := [];
    }

    // -------------------------------------------------------------------
    // Index arithmetic (lines 72-98)
    // -------------------------------------------------------------------

    /** get_absolute_index: row-major position of a cell. */
    function AbsoluteIndex(row: int, col: int): int
      reads this
    {
      row * cols + col
    }

    /** get_row: the true quotient index / cols, clamped into [0, rows] and truncated. */
    function GetRow(index: int): (r: int)
      reads this
      requires cols > 0
      ensures rows >= 0 ==> 0 <= r <= rows
    {
      Bound(index as real / cols as real, 0.0, rows as real)
    }

    /** get_col: the remainder index % cols, clamped into [0, cols]. */
    function GetCol(index: int): (c: int)
      reads this
      requires cols > 0
      ensures 0 <= c < cols
    {
      Bound((index % cols) as real, 0.0, cols as real)
    }

    /** get_above: index - cols clamped into [0, len(cells)]. */
    function GetAbove(index: int): (r: int)
      reads this
      ensures 0 <= r <= |cells|
    {
      Bound((index - cols) as real, 0.0, |cells| as real)
    }

    /** get_below: index + cols clamped into [0, len(cells)]. */
    function GetBelow(index: int): (r: int)
      reads this
      ensures 0 <= r <= |cells|
    {
      Bound((index + cols) as real, 0.0, |cells| as real)
    }

    /** get_left: index - 1 clamped into [0, len(cells)], without regard to the row. */
    function GetLeft(index: int): (r: int)
      reads this
      ensures 0 <= r <= |cells|
    {
      Bound((index - 1) as real, 0.0, |cells| as real)
    }

    /** get_right: index + 1 clamped into [0, len(cells)], without regard to the row. */
    function GetRight(index: int): (r: int)
      reads this
      ensures 0 <= r <= |cells|
    {
      Bound((index + 1) as real, 0.0, |cells| as real)
    }

    /** A cell's row and column give back its index. */
    lemma CellCoordinates(i: int)
      requires Valid() && 0 <= i < |cells|
      ensures cols > 0 && GetRow(i) == i / cols && GetCol(i) == i % cols
      ensures 0 <= GetRow(i) < rows && AbsoluteIndex(GetRow(i), GetCol(i)) == i
    {
      FloorDiv(i, cols);
    }

    /** The index of a row and column gives back that row and column. */
    lemma CoordinatesCell(r: int, c: int)
      requires Valid() && 0 <= r < rows && 0 <= c < cols
      ensures 0 <= AbsoluteIndex(r, c) < |cells|
      ensures GetRow(AbsoluteIndex(r, c)) == r && GetCol(AbsoluteIndex(r, c)) == c
    {
      var i := AbsoluteIndex(r, c);
      assert i < |cells| by {
        MulMono(r + 1, rows, cols);
        assert r * cols + cols == (r + 1) * cols;
      }
      CellCoordinates(i);
      assert i / cols == r && i % cols == c by {
        LinearDivMod(r, c, cols);
      }
    }

    /** Away from the ends of the list the neighbours are plain offsets, whatever the row. */
    lemma NeighbourOffsets(i: int)
      requires Valid() && 0 <= i < |cells|
      ensures i - cols >= 0 ==> GetAbove(i) == i - cols
      ensures 0 <= i + cols <= |cells| ==> GetBelow(i) == i + cols
      ensures i >= 1 ==> GetLeft(i) == i - 1
      ensures GetRight(i) == i + 1
    {
    }

    /**
      get_left of the first cell of a row is the last cell of the row above,
      and get_below of the last row can be len(cells), one past the last cell.
    */
    lemma NeighboursIgnoreRows(r: int)
      requires Valid() && 1 <= r < rows && cols > 0
      ensures GetLeft(AbsoluteIndex(r, 0)) == AbsoluteIndex(r - 1, cols - 1)
      ensures GetBelow(AbsoluteIndex(rows - 1, cols - 1)) == |cells|
    {
      assert (rows - 1) * cols + cols == rows * cols;
    }

    // -------------------------------------------------------------------
    // Node lookup (lines 38-51) and traversible cells (lines 120-126)
    // -------------------------------------------------------------------

    /** get_node_array_index: the loop over the nodes, returning at the first match. */
    method GetNodeArrayIndex(index: int) returns (p: int)
      ensures p == Position(Indices(nodes), index)
    {
      var i := 0;
      while i < |nodes|
        invariant 0 <= i <= |nodes|
        invariant index !in Indices(nodes)[..i]
      {
        if nodes[i].index == index {
          return i;
        }
        i := i + 1;
      }
      return -1;
    }

    /** get_node: the first node with the given cell index, or None. */
    method GetNode(index: int) returns (n: Option<Node>)
      ensures Position(Indices(nodes), index) == -1 ==> n == None
      ensures Position(Indices(nodes), index) >= 0 ==> n == Some(nodes[Position(Indices(nodes), index)])
    {
      var i := 0;
      while i < |nodes|
        invariant 0 <= i <= |nodes|
        invariant index !in Indices(nodes)[..i]
      {
        if nodes[i].index == index {
          return Some(nodes[i]);
        }
        i := i + 1;
      }
      return None;
    }

    /** get_traversible_cells: count the cells whose WALL bit is clear. */
    method GetTraversibleCells() returns (count: int)
      ensures count == NonWallCount(cells)
    {
      count := 0;
      var i := 0;
      while i < |cells|
        invariant 0 <= i <= |cells|
        invariant count == NonWallCount(cells[..i])
      {
        assert cells[..i + 1][..i] == cells[..i];
        if !HasBit(cells[i], WALL) {
          count := count + 1;
        }
        i := i + 1;
      }
      assert cells[..i] == cells;
    }

    /** One pass of the calc_nodes loop: cell i becomes a node, and perhaps a junction or a dead end. */
    method VisitCell(i: int)
      requires 0 <= i < |cells|
      modifies this`nodes, this`junctionNodes, this`junctions, this`deadEnds
      ensures nodes == old(nodes) + (if Classify(cells[i]) != Plain then [NewNode(i)] else [])
      ensures junctionNodes == old(junctionNodes) + (if Classify(cells[i]) == Junction then [NewNode(i)] else [])
      ensures junctions == old(junctions) + Ind(Classify(cells[i]) == Junction)
      ensures deadEnds == old(deadEnds) + Ind(Classify(cells[i]) == DeadEnd)
    {
      var curr := cells[i];
      var n := NewNode(i);
      var isJunction := false;
      if !HasBit(curr, START) && !HasBit(curr, END) && !HasBit(curr, WALL) {
        var weight := HammingWeight(curr);
        isJunction := weight >= 3;
      }
      if isJunction {
        junctions := junctions + 1;
        nodes := nodes + [n];
        junctionNodes := junctionNodes + [n];
      } else if HasBit(curr, START) || HasBit(curr, END)
        || (HasBit(curr, UP) && HasBit(curr, LEFT)) || (HasBit(curr, UP) && HasBit(curr, RIGHT))
        || (HasBit(curr, DOWN) && HasBit(curr, LEFT)) || (HasBit(curr, DOWN) && HasBit(curr, RIGHT))
      {
        nodes := nodes + [n];
      } else if !HasBit(curr, START) && !HasBit(curr, END) && !HasBit(curr, WALL) {
        var weight := HammingWeight(curr);
        if weight == 1 {
          deadEnds := deadEnds + 1;
          nodes := nodes + [n];
        }
      }
    }

    /** What the scans of calc_connections read. */
    function Grid(): Layout
      reads this
    {
      Layout(cells, rows, cols, Indices(nodes))
    }

    // -------------------------------------------------------------------
    // calc_connections (lines 176-209)
    // -------------------------------------------------------------------

    /** The row scan of calc_connections (lines 183-195): columns col + 1 up to cols of the row. */
    method ScanRow(row: int, col: int) returns (hit: Option<(int, int, int)>)
      requires LayoutOk(Grid()) && 0 <= row < rows && 0 <= col < cols
      ensures hit == Scan(Grid(), false, row, col, col + 1)
    {
      ghost var g := Grid();
      var i := col + 1;
      while i < cols
        invariant col + 1 <= i <= cols
        invariant Scan(g, false, row, col, col + 1) == Scan(g, false, row, col, i)
      {
        GridIndex(rows, cols, row, i);
        var ind := AbsoluteIndex(row, i);
        if HasBit(cells[ind], WALL) {
          return None;
        }
        var nodeIndex := GetNodeArrayIndex(ind);
        if nodeIndex != -1 {
          return Some((nodeIndex, ind, i - col));
        }
        i := i + 1;
      }
      return None;
    }

    /** The column scan of calc_connections (lines 197-209): rows row + 1 up to rows of the column. */
    method ScanColumn(row: int, col: int) returns (hit: Option<(int, int, int)>)
      requires LayoutOk(Grid()) && 0 <= row < rows && 0 <= col < cols
      ensures hit == Scan(Grid(), true, row, col, row + 1)
    {
      ghost var g := Grid();
      var i := row + 1;
      while i < rows
        invariant row + 1 <= i <= rows
        invariant Scan(g, true, row, col, row + 1) == Scan(g, true, row, col, i)
      {
        GridIndex(rows, cols, i, col);
        var ind := AbsoluteIndex(i, col);
        if HasBit(cells[ind], WALL) {
          return None;
        }
        var nodeIndex := GetNodeArrayIndex(ind);
        if nodeIndex != -1 {
          return Some((nodeIndex, ind, i - row));
        }
        i := i + 1;
      }
      return None;
    }

    /** The row and column of a cell, as get_row and get_col give them. */
    method CellPosition(cell: int) returns (row: int, col: int)
      requires Valid() && 0 <= cell < |cells|
      ensures cols > 0 && row == cell / cols && col == cell % cols && 0 <= row < rows && 0 <= col < cols
    {
      CellCoordinates(cell);
      row := GetRow(cell);
      col := GetCol(cell);
    }

    /**
      calc_connections: for each node in list order, scan right along its row
      and down its column; a scan that finds a node links the two both ways.
    */
    method CalcConnections()
      requires LayoutOk(Grid()) && Shaped(nodes)
      modifies this`nodes
      ensures nodes == Connections(old(Grid()), old(nodes))
    {
      ghost var o, g := nodes, Grid();
      ghost var rh, ch := ScanLists(g, o);
      PartialNone(o, rh, ch);
      var k := 0;
      while k < |nodes|
        invariant 0 <= k <= |o|
        invariant nodes == Partial(o, rh, ch, k, k)
        invariant Grid() == g
      {
        assert HitIs(g, rh, false, k) && HitIs(g, ch, true, k);
        ConnectNode(k, g, o, rh, ch);
        k := k + 1;
      }
      ScanListsDone(g, o, rh, ch);
    }

    /**
      One pass of the calc_connections loop: node k's row scan and its
      links, then its column scan and its links (a scan reads only the
      cells, so both can be made before the links are set).
    */
    method ConnectNode(k: int, ghost g: Layout, ghost o: seq<Node>,
                       ghost rh: seq<Option<(int, int, int)>>, ghost ch: seq<Option<(int, int, int)>>)
      requires g == Grid() && LayoutOk(g) && g.idx == Indices(o) && ScanState(o, rh, ch)
      requires 0 <= k < |o| && nodes == Partial(o, rh, ch, k, k)
      requires HitIs(g, rh, false, k) && HitIs(g, ch, true, k)
      modifies this`nodes
      ensures nodes == Partial(o, rh, ch, k + 1, k + 1)
      ensures Grid() == g
    {
      var ns := nodes;
      var cell := ns[k].index;
      var row, col := CellPosition(cell);
      var right := ScanRow(row, col);
      var down := ScanColumn(row, col);
      ScansOfNode(g, rh, ch, k, row, col, right, down);
      RowStep(o, rh, ch, k, k);
      ColumnStep(o, rh, ch, k + 1, k);
      var linked := Relink(ns, k, SlotRight, right, cell);
      nodes := Relink(linked, k, SlotDown, down, cell);
    }

    // -------------------------------------------------------------------
    // calc_nodes (lines 144-172)
    // -------------------------------------------------------------------

    /**
      calc_nodes: one pass over the cells, appending a node for every cell
      that is not plain, and also to the junction list for junctions, while
      counting junctions and dead ends. Every new Node object is fresh, so its
      `not in self.nodes` test always holds.
    */
    method CalcNodes()
      modifies this`nodes, this`junctionNodes, this`junctions, this`deadEnds
      ensures nodes == old(nodes) + NewNodes(NodeCells(cells))
      ensures junctionNodes == old(junctionNodes) + NewNodes(JunctionCells(cells))
      ensures junctions == old(junctions) + |JunctionCells(cells)|
      ensures deadEnds == old(deadEnds) + DeadEndCount(cells)
      ensures old(junctions) == old(|junctionNodes|) ==> junctions == |junctionNodes|
    {
      var i := 0;
      while i < |cells|
        invariant 0 <= i <= |cells|
        invariant nodes == old(nodes) + NewNodes(NodeCells(cells[..i]))
        invariant junctionNodes == old(junctionNodes) + NewNodes(JunctionCells(cells[..i]))
        invariant junctions == old(junctions) + |JunctionCells(cells[..i])|
        invariant deadEnds == old(deadEnds) + DeadEndCount(cells[..i])
      {
        PrefixStep(cells, i);
        VisitCell(i);
        i := i + 1;
      }
      assert cells[..i] == cells;
    }
  }

  /** The floor of a true quotient of naturals is the integer quotient. */
  lemma FloorDiv(i: int, c: int)
    requires i >= 0 && c > 0
    ensures (i as real / c as real).Floor == i / c
  {
    var q := i / c;
    var r := i % c;
    assert i == q * c + r;
    assert i as real / c as real == q as real + r as real / c as real;
    assert 0.0 <= r as real / c as real < 1.0;
  }

  /** Division undoes the row-major layout. */
  lemma LinearDivMod(r: int, c: int, n: int)
    requires r >= 0 && 0 <= c < n
    ensures (r * n + c) / n == r && (r * n + c) % n == c
  {
    var x := r * n + c;
    var k := x / n - r;
    assert x == (x / n) * n + x % n;
    assert k * n == c - x % n by {
      assert (x / n) * n == (k + r) * n == k * n + r * n;
    }
    if k >= 1 {
      MulMono(1, k, n);
    } else if k <= -1 {
      MulMono(1, -k, n);
    }
  }

  /** Multiplying by a non-negative number keeps the order. */
  lemma MulMono(a: int, b: int, n: int)
    requires a <= b && n >= 0
    ensures a * n <= b * n
  {
    assert b * n - a * n == (b - a) * n;
  }
}
