/**
  The depth-first maze carver of the Java generator (class Maze).

  The maze keeps a rows x cols x 5 matrix; the third index holds the slots
  L, R, U, D (the side is a passage) and "visited". The walk starts at (0, 0)
  with (0, 0) already on an explicit stack of coordinates. A frame is an
  abstract snapshot: a copy of the matrix and the active cell; pixels are not
  modelled.
*/
module MazeGen {

  /** Slots of the third dimension of the matrix. */
  const L := 0
  const R := 1
  const U := 2
  const D := 3
  const VISITED := 4

  /** A (row, col) coordinate, as the Java Pair<Integer, Integer>. */
  type Pos = (int, int)

  /** One cell of a frame: which sides are passages and whether it was visited. */
  datatype Cell = Cell(left: bool, right: bool, up: bool, down: bool, visited: bool)

  /** A frame: the matrix at one instant and the active cell, (-1, -1) in the final frame. */
  datatype Frame = Frame(grid: seq<seq<Cell>>, col: int, row: int)

  /** A passage between two adjacent cells: East(r, c) joins (r, c) and (r, c + 1), South(r, c) joins (r, c) and (r + 1, c). */
  datatype Passage = East(r: int, c: int) | South(r: int, c: int)

  /** The cell one step from p in direction d ('L', 'R', 'U' or 'D'). */
  function Neighbour(p: Pos, d: char): Pos
  {
    match d
    case 'L' => (p.0, p.1 - 1)
    case 'R' => (p.0, p.1 + 1)
    case 'U' => (p.0 - 1, p.1)
    case 'D' => (p.0 + 1, p.1)
    case _ => (-1, -1)
  }

  /** The slot that records a passage on side d. */
  function Slot(d: char): int
  {
    match d
    case 'L' => L
    case 'R' => R
    case 'U' => U
    case _ => D
  }

  /** The side facing back: carving d on one cell carves Opposite(d) on its neighbour. */
  function Opposite(d: char): char
  {
    match d
    case 'L' => 'R'
    case 'R' => 'L'
    case 'U' => 'D'
    case _ => 'U'
  }

  /** The passage crossed by one step from p in direction d. */
  function Crossed(p: Pos, d: char): Passage
  {
    match d
    case 'L' => East(p.0, p.1 - 1)
    case 'R' => East(p.0, p.1)
    case 'U' => South(p.0 - 1, p.1)
    case _ => South(p.0, p.1)
  }

  /** The two cells a passage joins. */
  function EndA(e: Passage): Pos { (e.r, e.c) }
  function EndB(e: Passage): Pos
  {
    match e
    case East(r, c) => (r, c + 1)
    case South(r, c) => (r + 1, c)
  }

  /** The passage crossed by a step joins the cell left and the cell entered. */
  lemma CrossedJoins(p: Pos, d: char)
    requires d in "LRUD"
    ensures {EndA(Crossed(p, d)), EndB(Crossed(p, d))} == {p, Neighbour(p, d)}
  {
  }

  function AllCells(rows: int, cols: int): set<Pos>
  {
    set r, c | 0 <= r < rows && 0 <= c < cols :: (r, c)
  }

  function RowCells(r: int, cols: int): set<Pos>
  {
    set c | 0 <= c < cols :: (r, c)
  }

  lemma {:induction false} RowCellsCount(r: int, cols: nat)
    ensures |RowCells(r, cols)| == cols
  {
    if cols > 0 {
      RowCellsCount(r, cols - 1);
      assert RowCells(r, cols) == RowCells(r, cols - 1) + {(r, cols - 1)};
    } else {
      assert RowCells(r, cols) == {};
    }
  }

  /** A rows x cols grid has rows * cols cells. */
  lemma {:induction false} AllCellsCount(rows: nat, cols: nat)
    ensures |AllCells(rows, cols)| == rows * cols
  {
    if rows > 0 {
      AllCellsCount(rows - 1, cols);
      RowCellsCount(rows - 1, cols);
      var before, last := AllCells(rows - 1, cols), RowCells(rows - 1, cols);
      assert AllCells(rows, cols) == before + last by {
        forall p | p in AllCells(rows, cols) ensures p in before + last {
          if p.0 < rows - 1 { assert p in before; } else { assert p in last; }
        }
      }
      assert before !! last;
      assert |before + last| == |before| + |last|;
      assert (rows - 1) * cols + cols == rows * cols;
    } else {
      assert AllCells(rows, cols) == {};
    }
  }

  /** Wall symmetry of a frame: every right side agrees with its neighbour's left side, every bottom with the top below. */
  ghost predicate GridSymmetric(g: seq<seq<Cell>>)
  {
    && (forall r, c :: 0 <= r < |g| && 0 <= c && c + 1 < |g[r]| ==> g[r][c].right == g[r][c + 1].left)
    && (forall r, c :: 0 <= r && r + 1 < |g| && 0 <= c < |g[r]| && c < |g[r + 1]| ==> g[r][c].down == g[r + 1][c].up)
  }

  /** Every frame of an animation shows a symmetric grid and is tagged with a cell of the rows x cols grid. */
  ghost predicate Animation(fs: seq<Frame>, rows: int, cols: int)
  {
    forall i :: 0 <= i < |fs| ==> GridSymmetric(fs[i].grid) && 0 <= fs[i].row < rows && 0 <= fs[i].col < cols
  }

  /** A subset of a finite set has at most as many elements. */
  lemma {:induction false} SubsetCardinality(a: set<Pos>, b: set<Pos>)
    requires a <= b
    ensures |a| <= |b|
    decreases |a|
  {
    if a != {} {
      var x :| x in a;
      SubsetCardinality(a - {x}, b - {x});
    }
  }

  /** Appending a well-formed frame to an animation keeps it an animation. */
  lemma AnimationGrows(fs: seq<Frame>, f: Frame, rows: int, cols: int)
    requires Animation(fs, rows, cols)
    requires GridSymmetric(f.grid) && 0 <= f.row < rows && 0 <= f.col < cols
    ensures Animation(fs + [f], rows, cols)
  {
  }

  /**
    Proof bookkeeping of the walk, carried as a ghost value by dfs: the cells
    marked visited, the passages carved, a parent and a depth for every cell
    reached, and the number of pops so far.
  */
  datatype Walk = Walk(vis: set<Pos>, carved: set<Passage>, parent: map<Pos, Pos>, depth: map<Pos, nat>, pops: nat)

  /** The walk before dfs starts: nothing visited or carved, (0, 0) at depth 0. */
  ghost function Start(): Walk
  {
    Walk({}, {}, map[], map[(0, 0) := 0], 0)
  }

  /** The walk after carving from p in direction d: one more passage, and the new cell's parent is p. */
  ghost function Extend(w: Walk, p: Pos, d: char): Walk
  {
    var n := Neighbour(p, d);
    w.(carved := w.carved + {Crossed(p, d)},
       parent := w.parent[n := p],
       depth := w.depth[n := if p in w.depth then w.depth[p] + 1 else 0])
  }

  class Maze {
    const rows: int
    const cols: int
    var currentRow: int
    var currentCol: int
    const animate: bool
    var frames: seq<Frame>
    var stack: seq<Pos>
    const matrix: array3<bool>

    ghost predicate Valid()
    {
      matrix.Length0 == rows && matrix.Length1 == cols && matrix.Length2 == 5
    }

    ghost predicate InGrid(p: Pos)
    {
      0 <= p.0 < rows && 0 <= p.1 < cols
    }

    /** The neighbour of p in direction d exists and is not yet visited (the candidate test of dfs). */
    ghost predicate CanMove(p: Pos, d: char)
      reads matrix
    {
      var n := Neighbour(p, d);
      Valid() && InGrid(n) && !matrix[n.0, n.1, VISITED]
    }

    ghost predicate HasFreshNeighbour(p: Pos)
      reads matrix
    {
      CanMove(p, 'L') || CanMove(p, 'R') || CanMove(p, 'U') || CanMove(p, 'D')
    }

    /** Wall symmetry: a right side agrees with its neighbour's left side, a bottom with the top below. */
    ghost predicate Symmetric()
      reads matrix
      requires Valid()
    {
      && (forall r, c :: 0 <= r < rows && 0 <= c < cols - 1 ==> matrix[r, c, R] == matrix[r, c + 1, L])
      && (forall r, c :: 0 <= r < rows - 1 && 0 <= c < cols ==> matrix[r, c, D] == matrix[r + 1, c, U])
    }

    /** No side facing out of the grid is open. */
    ghost predicate BoundaryClosed()
      reads matrix
      requires Valid()
    {
      forall r, c :: 0 <= r < rows && 0 <= c < cols ==>
        && (c == 0 ==> !matrix[r, c, L]) && (c == cols - 1 ==> !matrix[r, c, R])
        && (r == 0 ==> !matrix[r, c, U]) && (r == rows - 1 ==> !matrix[r, c, D])
    }

    /** The only open sides facing out of the grid are the entry (left of (0, 0)) and the exit (right of the last cell). */
    ghost predicate OnlyEntryExitOpenOutward()
      reads matrix
      requires Valid()
    {
      forall r, c :: 0 <= r < rows && 0 <= c < cols ==>
        && (c == 0 && r != 0 ==> !matrix[r, c, L]) && (c == cols - 1 && r != rows - 1 ==> !matrix[r, c, R])
        && (r == 0 ==> !matrix[r, c, U]) && (r == rows - 1 ==> !matrix[r, c, D])
    }

    ghost predicate IsInterior(e: Passage)
    {
      match e
      case East(r, c) => 0 <= r < rows && 0 <= c < cols - 1
      case South(r, c) => 0 <= r < rows - 1 && 0 <= c < cols
    }

    ghost predicate IsOpen(e: Passage)
      reads matrix
    {
      Valid() && IsInterior(e) &&
      match e
      case East(r, c) => matrix[r, c, R]
      case South(r, c) => matrix[r, c, D]
    }

    /** The passages carved between two cells of the grid, each counted once. */
    ghost function OpenPassages(): set<Passage>
      reads matrix
    {
      var east := set r, c | 0 <= r < rows && 0 <= c < cols - 1 :: East(r, c);
      var south := set r, c | 0 <= r < rows - 1 && 0 <= c < cols :: South(r, c);
      set e | e in east + south && IsOpen(e)
    }

    /** Cell b is one step from a through a side that a records as open. */
    ghost predicate Linked(a: Pos, b: Pos)
      reads matrix
    {
      Valid() && InGrid(a) && InGrid(b) &&
      ((b == (a.0, a.1 - 1) && matrix[a.0, a.1, L]) ||
       (b == (a.0, a.1 + 1) && matrix[a.0, a.1, R]) ||
       (b == (a.0 - 1, a.1) && matrix[a.0, a.1, U]) ||
       (b == (a.0 + 1, a.1) && matrix[a.0, a.1, D]))
    }

    ghost predicate IsPath(p: seq<Pos>)
      reads matrix
    {
      |p| >= 1 && forall i :: 0 <= i < |p| - 1 ==> Linked(p[i], p[i + 1])
    }

    /** v can be reached from (0, 0) through open sides. */
    ghost predicate Reachable(v: Pos)
      reads matrix
    {
      exists p :: IsPath(p) && p[0] == (0, 0) && p[|p| - 1] == v
    }

    /** The cell (r, c) as a value. */
    function CellAt(r: int, c: int): (cell: Cell)
      reads matrix
      requires Valid() && 0 <= r < rows && 0 <= c < cols
      ensures cell.left == matrix[r, c, L] && cell.right == matrix[r, c, R]
      ensures cell.up == matrix[r, c, U] && cell.down == matrix[r, c, D]
      ensures cell.visited == matrix[r, c, VISITED]
    {
      Cell(matrix[r, c, L], matrix[r, c, R], matrix[r, c, U], matrix[r, c, D], matrix[r, c, VISITED])
    }

    /** An abstract frame image: a copy of the whole matrix. */
    function Snapshot(): (g: seq<seq<Cell>>)
      reads matrix
      requires Valid()
      ensures |g| == rows
      ensures forall r :: 0 <= r < rows ==> |g[r]| == cols
      ensures forall r, c :: 0 <= r < rows && 0 <= c < cols ==> g[r][c] == CellAt(r, c)
      ensures Symmetric() ==> GridSymmetric(g)
    {
      seq(rows, (r: int) requires 0 <= r < rows reads matrix =>
        seq(cols, (c: int) requires 0 <= c < cols reads matrix => CellAt(r, c)))
    }

    constructor (r: int, c: int, a: bool)
      requires r >= 0 && c >= 0
      ensures Valid() && fresh(matrix)
      ensures rows == r && cols == c && animate == a
      ensures currentRow == 0 && currentCol == 0 && stack == [(0, 0)] && frames == []
      ensures forall i, j, k :: 0 <= i < r && 0 <= j < c && 0 <= k < 5 ==> !matrix[i, j, k]
    {
      animate := a;
      rows := r;
      cols := c;
      currentRow := 0;
      currentCol := 0;
      matrix := new bool[r, c, 5]((i, j, k) => false);
      stack := [(0, 0)];
      frames := [];
    }

    /** The directions dfs may take from the current cell, in the order L, R, U, D. */
    method Candidates() returns (possible: seq<char>)
      requires Valid() && InGrid((currentRow, currentCol))
      ensures |possible| <= 4
      ensures forall i :: 0 <= i < |possible| ==> possible[i] in "LRUD" && CanMove((currentRow, currentCol), possible[i])
      ensures forall d :: d in "LRUD" && CanMove((currentRow, currentCol), d) ==> d in possible
      ensures possible == [] <==> !HasFreshNeighbour((currentRow, currentCol))
    {
      possible := [];
      if currentCol > 0 && !matrix[currentRow, currentCol - 1, VISITED] {
        possible := possible + ['L'];
      }
      if currentCol < cols - 1 && !matrix[currentRow, currentCol + 1, VISITED] {
        possible := possible + ['R'];
      }
      if currentRow > 0 && !matrix[currentRow - 1, currentCol, VISITED] {
        possible := possible + ['U'];
      }
      if currentRow < rows - 1 && !matrix[currentRow + 1, currentCol, VISITED] {
        possible := possible + ['D'];
      }
    }

    /** Opens side d of the current cell and the facing side of its neighbour, then moves there. */
    method Carve(d: char)
      requires Valid() && rows >= 1 && cols >= 1 && InGrid((currentRow, currentCol)) && d in "LRUD"
      requires InGrid(Neighbour((currentRow, currentCol), d))
      modifies this`currentRow, this`currentCol, matrix
      ensures (currentRow, currentCol) == Neighbour((old(currentRow), old(currentCol)), d)
      ensures OpenedPair((old(currentRow), old(currentCol)), d)
    {
      ghost var r0, c0 := currentRow, currentCol;
      // the slots are distinct numbers
      assert L != R && L != U && L != D && R != U && R != D && U != D;
      if d == 'L' {
        matrix[currentRow, currentCol, L] := true;
        currentCol := currentCol - 1;
        matrix[currentRow, currentCol, R] := true;
      } else if d == 'R' {
        matrix[currentRow, currentCol, R] := true;
        currentCol := currentCol + 1;
        matrix[currentRow, currentCol, L] := true;
      } else if d == 'U' {
        matrix[currentRow, currentCol, U] := true;
        currentRow := currentRow - 1;
        matrix[currentRow, currentCol, D] := true;
      } else {
        matrix[currentRow, currentCol, D] := true;
        currentRow := currentRow + 1;
        matrix[currentRow, currentCol, U] := true;
      }
      assert OpenedPair((r0, c0), d);
    }

    /** Between the old and the new state exactly side d of p and the facing side of its neighbour were opened. */
    twostate predicate OpenedPair(p: Pos, d: char)
      reads matrix
    {
      var n := Neighbour(p, d);
      && Valid()
      && rows >= 1 && cols >= 1 && InGrid(p) && d in "LRUD" && InGrid(n)
      && forall r, c, k :: 0 <= r < rows && 0 <= c < cols && 0 <= k < 5 ==>
           matrix[r, c, k] == (old(matrix[r, c, k]) || (r == p.0 && c == p.1 && k == Slot(d)) || (r == n.0 && c == n.1 && k == Slot(Opposite(d))))
    }

    twostate lemma OpeningKeepsSymmetry(move: (Pos, char))
      requires OpenedPair(move.0, move.1)
      ensures old(Symmetric()) ==> Symmetric()
    {
    }

    twostate lemma OpeningKeepsBoundary(move: (Pos, char))
      requires OpenedPair(move.0, move.1)
      ensures old(BoundaryClosed()) ==> BoundaryClosed()
    {
    }

    twostate lemma OpeningAddsPassage(move: (Pos, char))
      requires OpenedPair(move.0, move.1)
      ensures forall e :: IsOpen(e) <==> old(IsOpen(e)) || e == Crossed(move.0, move.1)
    {
    }

    twostate lemma OpeningKeepsFreshness(move: (Pos, char))
      requires OpenedPair(move.0, move.1)
      ensures forall r, c {:trigger HasFreshNeighbour((r, c))} :: HasFreshNeighbour((r, c)) <==> old(HasFreshNeighbour((r, c)))
      ensures forall r, c :: 0 <= r < rows && 0 <= c < cols ==> matrix[r, c, VISITED] == old(matrix[r, c, VISITED])
    {
    }

    twostate lemma OpeningKeepsLinks(move: (Pos, char))
      requires OpenedPair(move.0, move.1)
      ensures Linked(move.0, Neighbour(move.0, move.1))
    {
    }

    /** Between the old and the new state only the visited mark of p was set. */
    twostate predicate MarkedOnly(p: Pos)
      reads matrix
    {
      && Valid()
      && InGrid(p)
      && forall r, c, k :: 0 <= r < rows && 0 <= c < cols && 0 <= k < 5 ==>
           matrix[r, c, k] == (old(matrix[r, c, k]) || (r == p.0 && c == p.1 && k == VISITED))
    }

    twostate lemma MarkingKeepsWalls(p: Pos)
      requires MarkedOnly(p)
      ensures old(Symmetric()) ==> Symmetric()
      ensures old(BoundaryClosed()) ==> BoundaryClosed()
      ensures forall e :: IsOpen(e) <==> old(IsOpen(e))
    {
    }

    /** Marking a cell visited can only take away fresh neighbours. */
    twostate lemma MarkingKeepsFreshness(p: Pos)
      requires MarkedOnly(p)
      ensures forall r, c {:trigger HasFreshNeighbour((r, c))} :: HasFreshNeighbour((r, c)) ==> old(HasFreshNeighbour((r, c)))
    {
    }


    /** Between the old and the new state only the entry (left of (0, 0)) and the exit (right of the last cell) were opened. */
    twostate predicate EntryExitOpened()
      reads matrix, this`currentRow, this`currentCol
    {
      && Valid()
      && currentRow == old(currentRow) && currentCol == old(currentCol)
      && rows >= 1 && cols >= 1
      && forall r, c, k :: 0 <= r < rows && 0 <= c < cols && 0 <= k < 5 ==>
           matrix[r, c, k] == (old(matrix[r, c, k]) || (r == 0 && c == 0 && k == L) || (r == rows - 1 && c == cols - 1 && k == R))
    }

    twostate lemma EntryExitKeepsWalls()
      requires EntryExitOpened()
      ensures old(Symmetric()) ==> Symmetric()
      ensures old(BoundaryClosed()) ==> OnlyEntryExitOpenOutward()
      ensures forall r, c :: 0 <= r < rows && 0 <= c < cols ==> matrix[r, c, VISITED] == old(matrix[r, c, VISITED])
    {
    }

    twostate lemma EntryExitKeepsPassages()
      requires EntryExitOpened()
      ensures forall e :: IsOpen(e) <==> old(IsOpen(e))
    {
    }

    /** The cells the walk has reached: the visited ones and the current one. */
    ghost function Reached(w: Walk): set<Pos>
      reads this`currentRow, this`currentCol
    {
      w.vis + {(currentRow, currentCol)}
    }

    /** The visited marks of the matrix are exactly the cells of w.vis. */
    ghost predicate VisitedMarks(w: Walk)
      reads matrix
      requires Valid()
    {
      forall v {:trigger v in w.vis} :: v in w.vis <==> InGrid(v) && matrix[v.0, v.1, VISITED]
    }

    /**
      The shape of the explicit stack: its bottom is the initial (0, 0), the
      first push is (0, 0) again, and every visited cell that still has an
      unvisited neighbour is the current cell or was pushed.
    */
    ghost predicate StackShape(w: Walk)
      reads matrix, this`currentRow, this`currentCol, this`stack
    {
      && (forall i :: 0 <= i < |stack| ==> stack[i] in Reached(w))
      && (|stack| >= 1 ==> stack[0] == (0, 0))
      && (|stack| >= 2 ==> stack[1] == (0, 0))
      && (|stack| == 1 ==> (currentRow, currentCol) == (0, 0))
      && (stack == [] ==> (currentRow, currentCol) == (0, 0) && (0, 0) in w.vis && !HasFreshNeighbour((0, 0)))
      && forall v {:trigger HasFreshNeighbour(v)} :: v in w.vis && HasFreshNeighbour(v) ==> v == (currentRow, currentCol) || v in stack
    }

    /** The open passages are the carved ones, they join reached cells, and there is one fewer than reached cells. */
    ghost predicate CarvedTree(w: Walk)
      reads matrix, this`currentRow, this`currentCol
    {
      && (forall e :: IsOpen(e) <==> e in w.carved)
      && (forall e :: e in w.carved ==> EndA(e) in Reached(w) && EndB(e) in Reached(w))
      && |w.carved| + 1 == |Reached(w)|
    }

    /** Every cell of s other than (0, 0) is linked to a parent in s of smaller depth. */
    ghost predicate ParentLinks(parent: map<Pos, Pos>, depth: map<Pos, nat>, s: set<Pos>)
      reads matrix
    {
      && (0, 0) in s
      && (forall v :: v in s ==> v in depth)
      && (forall v :: v in s && v != (0, 0) ==> v in parent)
      && forall v {:trigger parent[v]} :: v in s && v != (0, 0) ==>
           parent[v] in s && parent[v] in depth && depth[parent[v]] < depth[v] && Linked(parent[v], v)
    }

    ghost predicate WalkLinked(w: Walk)
      reads matrix, this`currentRow, this`currentCol
    {
      ParentLinks(w.parent, w.depth, Reached(w))
    }

    /**
     * The loop invariant of dfs, as one fact.  It is written as an equation
     * over DfsInvariant so that each call, return and loop iteration checks
     * it as a whole instead of conjunct by conjunct; proofs that need a part
     * of it unfold it by asserting DfsInvariant(w).
     */
    ghost predicate Inv(w: Walk)
      reads matrix, this`currentRow, this`currentCol, this`stack
    {
      DfsInvariant(w) == true
    }

    ghost predicate DfsInvariant(w: Walk)
      reads matrix, this`currentRow, this`currentCol, this`stack
    {
      && Valid() && rows >= 1 && cols >= 1 && InGrid((currentRow, currentCol))
      && VisitedMarks(w)
      && StackShape(w)
      && Symmetric() && BoundaryClosed()
      && CarvedTree(w)
      && ParentLinks(w.parent, w.depth, Reached(w))
      && |stack| + w.pops == 1 + |w.carved|
    }

    /** Line 45 of the loop: mark the current cell visited. */
    method MarkCurrent()
      requires Valid() && InGrid((currentRow, currentCol))
      modifies matrix
      ensures MarkedOnly((currentRow, currentCol))
    {
      matrix[currentRow, currentCol, VISITED] := true;
    }

    /** Marking the current cell visited keeps the invariant, with the cell added to the visited set. */
    twostate lemma MarkingKeepsInv(w: Walk)
      requires unchanged(this`currentRow, this`currentCol, this`stack)
      requires old(Inv(w)) && old(stack) != [] && MarkedOnly(old((currentRow, currentCol)))
      ensures Inv(w.(vis := w.vis + {(currentRow, currentCol)}))
    {
      var p := old((currentRow, currentCol));
      var w1 := w.(vis := w.vis + {p});
      MarkingKeepsWalls(p);
      MarkingKeepsFreshness(p);
      assert Reached(w1) == old(Reached(w));
      assert SidesKept();
      SidesKeepParentLinks(w);
      assert ParentLinks(w1.parent, w1.depth, Reached(w1));
      assert DfsInvariant(w1);
    }

    /** One advancing step of the loop from the state recorded by step.0: the current cell was pushed and side step.1 carved. */
    twostate predicate AdvanceStep(step: (Walk, char))
      reads matrix, this`currentRow, this`currentCol, this`stack
    {
      var (w, d) := step;
      var p := old((currentRow, currentCol));
      && p in w.vis && d in "LRUD" && old(CanMove(p, d))
      && OpenedPair(p, d) && (currentRow, currentCol) == Neighbour(p, d)
      && stack == old(stack) + [p]
    }

    twostate lemma AdvanceKeepsStack(step: (Walk, char))
      requires AdvanceStep(step) && old(VisitedMarks(step.0)) && old(StackShape(step.0))
      ensures var w1 := Extend(step.0, old((currentRow, currentCol)), step.1);
        VisitedMarks(w1) && StackShape(w1) && Reached(w1) == old(Reached(step.0)) + {(currentRow, currentCol)}
    {
      var (w, d) := step;
      var p := old((currentRow, currentCol));
      var w1 := Extend(w, p, d);
      OpeningKeepsFreshness((p, d));
      assert (currentRow, currentCol) !in w.vis;
      assert old(Reached(w)) == w.vis;
      forall i | 0 <= i < |stack|
        ensures stack[i] in Reached(w1)
      {
        if i < |old(stack)| {
          assert stack[i] == old(stack)[i];
        }
      }
    }

    twostate lemma AdvanceGrowsTree(step: (Walk, char))
      requires AdvanceStep(step) && old(VisitedMarks(step.0))
      requires old(Symmetric()) && old(BoundaryClosed()) && old(CarvedTree(step.0))
      ensures (currentRow, currentCol) !in old(Reached(step.0))
      ensures var w1 := Extend(step.0, old((currentRow, currentCol)), step.1);
        Symmetric() && BoundaryClosed() && CarvedTree(w1) && |w1.carved| == |step.0.carved| + 1
    {
      var (w, d) := step;
      var p := old((currentRow, currentCol));
      var n := (currentRow, currentCol);
      var w1 := Extend(w, p, d);
      OpeningKeepsFreshness((p, d));
      OpeningKeepsSymmetry((p, d));
      OpeningKeepsBoundary((p, d));
      OpeningAddsPassage((p, d));
      CrossedJoins(p, d);
      assert n !in w.vis;
      assert old(Reached(w)) == w.vis;
      assert Reached(w1) == w.vis + {n};
      assert Crossed(p, d) !in w.carved;
    }

    twostate lemma AdvanceGrowsParents(step: (Walk, char))
      requires AdvanceStep(step) && old(VisitedMarks(step.0))
      requires old(ParentLinks(step.0.parent, step.0.depth, Reached(step.0)))
      ensures var w1 := Extend(step.0, old((currentRow, currentCol)), step.1);
        ParentLinks(w1.parent, w1.depth, Reached(w1))
    {
      var (w, d) := step;
      var p := old((currentRow, currentCol));
      var n := (currentRow, currentCol);
      var w1 := Extend(w, p, d);
      OpeningKeepsFreshness((p, d));
      OpeningKeepsLinks((p, d));
      assert n !in w.vis;
      assert old(Reached(w)) == w.vis;
      assert Reached(w1) == w.vis + {n};
      forall v | v in Reached(w1) && v != (0, 0)
        ensures v in w1.parent && w1.parent[v] in Reached(w1) && w1.parent[v] in w1.depth
        ensures w1.depth[w1.parent[v]] < w1.depth[v] && Linked(w1.parent[v], v)
      {
        if v != n {
          assert v in old(Reached(w));
          assert old(Linked(w.parent[v], v));
        }
      }
    }

    twostate lemma AdvanceKeepsInv(step: (Walk, char))
      requires AdvanceStep(step) && old(Inv(step.0)) && old(stack) != []
      ensures var w1 := Extend(step.0, old((currentRow, currentCol)), step.1);
        Inv(w1) && Reached(w1) == old(Reached(step.0)) + {(currentRow, currentCol)} && (currentRow, currentCol) !in old(Reached(step.0))
    {
      AdvanceKeepsStack(step);
      AdvanceGrowsTree(step);
      AdvanceGrowsParents(step);
    }

    /** Lines 66-97 of the loop: push the current cell and carve towards the unvisited neighbour in direction d. */
    method Advance(d: char, ghost w: Walk) returns (ghost w1: Walk)
      requires Inv(w) && stack != [] && (currentRow, currentCol) in w.vis
      requires d in "LRUD" && CanMove((currentRow, currentCol), d)
      modifies this`stack, this`currentRow, this`currentCol, matrix
      ensures stack == old(stack) + [old((currentRow, currentCol))]
      ensures (currentRow, currentCol) == Neighbour(old((currentRow, currentCol)), d)
      ensures OpenedPair(old((currentRow, currentCol)), d)
      ensures w1 == Extend(w, old((currentRow, currentCol)), d)
      ensures Inv(w1)
      ensures Reached(w1) == old(Reached(w)) + {(currentRow, currentCol)} && (currentRow, currentCol) !in old(Reached(w))
    {
      ghost var p := (currentRow, currentCol);
      stack := stack + [(currentRow, currentCol)];
      Carve(d);
      w1 := Extend(w, p, d);
      assert AdvanceStep((w, d));
      AdvanceKeepsInv((w, d));
    }

    /** One backtracking step of the loop: the top of the stack was popped into the current cell. */
    twostate predicate BacktrackStep(w: Walk)
      reads matrix, this`currentRow, this`currentCol, this`stack
    {
      && Valid() && old(stack) != [] && old((currentRow, currentCol)) in w.vis
      && !old(HasFreshNeighbour((currentRow, currentCol)))
      && old(stack) == stack + [(currentRow, currentCol)]
      && unchanged(matrix)
    }

    twostate lemma BacktrackKeepsStack(w: Walk)
      requires BacktrackStep(w) && old(InGrid((currentRow, currentCol))) && old(VisitedMarks(w)) && old(StackShape(w))
      ensures Valid() && InGrid((currentRow, currentCol))
      ensures Reached(w) == old(Reached(w))
      ensures StackShape(w)
    {
      var n := |old(stack)|;
      assert old(stack)[n - 1] == (currentRow, currentCol);
      assert (currentRow, currentCol) in old(Reached(w));
      assert old(Reached(w)) == w.vis;
      assert Reached(w) == w.vis;
      forall v | v in w.vis && HasFreshNeighbour(v)
        ensures v == (currentRow, currentCol) || v in stack
      {
        assert old(HasFreshNeighbour(v));
        assert v in old(stack);
      }
      forall i | 0 <= i < |stack|
        ensures stack[i] in Reached(w)
      {
        assert stack[i] == old(stack)[i];
      }
    }

    twostate lemma BacktrackKeepsTree(w: Walk)
      requires BacktrackStep(w) && old(Inv(w))
      requires Reached(w) == old(Reached(w))
      ensures VisitedMarks(w) && Symmetric() && BoundaryClosed() && CarvedTree(w) && ParentLinks(w.parent, w.depth, Reached(w))
    {
    }

    twostate lemma BacktrackKeepsInv(w: Walk)
      requires BacktrackStep(w) && old(Inv(w))
      ensures Inv(w.(pops := w.pops + 1)) && Reached(w.(pops := w.pops + 1)) == old(Reached(w))
    {
      BacktrackKeepsStack(w);
      BacktrackKeepsTree(w);
      var w1 := w.(pops := w.pops + 1);
      assert w1.vis == w.vis && w1.carved == w.carved && w1.parent == w.parent && w1.depth == w.depth;
      assert DfsInvariant(w1);
    }

    /** Lines 98-102 of the loop: no unvisited neighbour, so pop the top of the stack into the current cell. */
    method Backtrack()
      requires stack != []
      modifies this`stack, this`currentRow, this`currentCol
      ensures old(stack) == stack + [(currentRow, currentCol)]
    {
      var top := stack[|stack| - 1];
      stack := stack[..|stack| - 1];
      currentRow := top.0;
      currentCol := top.1;
      assert old(stack) == stack + [top];
    }

    /** Lines 113-120: open the entry and the exit, then record the final frame, tagged (-1, -1). */
    method SetEntryExit()
      requires Valid() && rows >= 1 && cols >= 1
      modifies this`frames, matrix
      ensures EntryExitOpened()
      ensures frames == old(frames) + [Frame(Snapshot(), -1, -1)]
      ensures Symmetric() ==> GridSymmetric(frames[|frames| - 1].grid)
      ensures matrix[0, 0, L] && matrix[rows - 1, cols - 1, R]
      ensures old(Symmetric()) ==> Symmetric()
      ensures old(BoundaryClosed()) ==> OnlyEntryExitOpenOutward()
      ensures forall e :: IsOpen(e) <==> old(IsOpen(e))
      ensures forall r, c :: 0 <= r < rows && 0 <= c < cols ==> matrix[r, c, VISITED] == old(matrix[r, c, VISITED])
    {
      matrix[0, 0, L] := true;
      matrix[rows - 1, cols - 1, R] := true;
      assert EntryExitOpened();
      EntryExitKeepsWalls();
      EntryExitKeepsPassages();
      AddFrame(-1, -1);
    }

    /** Between the old and the new state no side of any cell was closed. */
    twostate predicate SidesKept()
      reads matrix
    {
      && Valid()
      && forall r, c, k :: 0 <= r < rows && 0 <= c < cols && 0 <= k < VISITED && old(matrix[r, c, k]) ==> matrix[r, c, k]
    }

    /** A state change that closes no side and keeps the current cell keeps every parent link. */
    twostate lemma SidesKeepParentLinks(w: Walk)
      requires unchanged(this`currentRow, this`currentCol)
      requires SidesKept() && old(WalkLinked(w))
      ensures WalkLinked(w)
    {
      var x := w;
      forall v | v in Reached(x) && v != (0, 0)
        ensures Linked(x.parent[v], v)
      {
        assert old(Linked(x.parent[v], v));
      }
    }

    /** The open passages are exactly the interior sides the matrix records as open. */
    lemma OpenPassagesAre(s: set<Passage>)
      requires forall e :: IsOpen(e) <==> e in s
      ensures OpenPassages() == s
    {
      forall e | e in s
        ensures e in OpenPassages()
      {
        assert IsOpen(e);
        match e
        case East(r, c) =>
        case South(r, c) =>
      }
    }

    /**
      When no visited cell has an unvisited neighbour and (0, 0) is visited,
      every cell of the grid is visited: walk right along row 0, then down.
    */
    lemma {:induction false} VisitedClosedCoversGrid(w: Walk, v: Pos)
      requires Valid() && VisitedMarks(w) && (0, 0) in w.vis
      requires forall u {:trigger HasFreshNeighbour(u)} :: u in w.vis ==> !HasFreshNeighbour(u)
      requires InGrid(v)
      ensures v in w.vis
      decreases v.0 + v.1
    {
      if v != (0, 0) {
        if v.1 > 0 {
          var u := (v.0, v.1 - 1);
          VisitedClosedCoversGrid(w, u);
          assert !HasFreshNeighbour(u);
          assert !CanMove(u, 'R');
        } else {
          var u := (v.0 - 1, v.1);
          VisitedClosedCoversGrid(w, u);
          assert !HasFreshNeighbour(u);
          assert !CanMove(u, 'D');
        }
      }
    }

    /** Following parents of decreasing depth from v ends at (0, 0) along linked cells. */
    lemma {:induction false} ReachedByParents(parent: map<Pos, Pos>, depth: map<Pos, nat>, s: set<Pos>, v: Pos)
      requires ParentLinks(parent, depth, s) && v in s
      ensures Reachable(v)
      decreases depth[v]
    {
      if v == (0, 0) {
        assert IsPath([(0, 0)]);
      } else {
        var u := parent[v];
        ReachedByParents(parent, depth, s, u);
        var p :| IsPath(p) && p[0] == (0, 0) && p[|p| - 1] == u;
        var q := p + [v];
        assert Linked(u, v);
        forall i | 0 <= i < |q| - 1
          ensures Linked(q[i], q[i + 1])
        {
          if i < |p| - 1 {
            assert q[i] == p[i] && q[i + 1] == p[i + 1];
          }
        }
        assert IsPath(q) && q[0] == (0, 0) && q[|q| - 1] == v;
      }
    }

    /** When the parent links span the whole grid, every cell is reachable from (0, 0). */
    lemma GridReachable(parent: map<Pos, Pos>, depth: map<Pos, nat>)
      requires ParentLinks(parent, depth, AllCells(rows, cols))
      ensures forall v :: InGrid(v) ==> Reachable(v)
    {
      forall v | InGrid(v)
        ensures Reachable(v)
      {
        assert v in AllCells(rows, cols);
        ReachedByParents(parent, depth, AllCells(rows, cols), v);
      }
    }

    /** When the stack is empty the walk has reached every cell of the grid, through rows * cols - 1 passages. */
    lemma EmptyStackCoversGrid(w: Walk)
      requires Inv(w) && stack == []
      ensures Reached(w) == AllCells(rows, cols)
      ensures |w.carved| == rows * cols - 1 && w.pops == rows * cols
      ensures forall r, c :: 0 <= r < rows && 0 <= c < cols ==> matrix[r, c, VISITED]
    {
      forall u | u in w.vis
        ensures !HasFreshNeighbour(u)
      {
      }
      forall v | v in AllCells(rows, cols)
        ensures v in Reached(w)
      {
        VisitedClosedCoversGrid(w, v);
      }
      AllCellsCount(rows, cols);
      assert DfsInvariant(w);
      forall r, c | 0 <= r < rows && 0 <= c < cols
        ensures matrix[r, c, VISITED]
      {
        assert (r, c) in Reached(w);
      }
    }

    /** Lines 103-104: when animating, record a frame tagged with the current cell. */
    method Animate(ghost w: Walk)
      requires Inv(w)
      modifies this`frames
      ensures Inv(w) && Reached(w) == old(Reached(w))
      ensures frames == old(frames) + if animate then [Frame(Snapshot(), currentCol, currentRow)] else []
      ensures Animation(old(frames), rows, cols) ==> Animation(frames, rows, cols)
    {
      if animate {
        AddFrame(currentCol, currentRow);
        RecordingKeepsInv(w);
        if Animation(old(frames), rows, cols) {
          AnimationGrows(old(frames), frames[|frames| - 1], rows, cols);
        }
      }
    }

    /**
      Lines 44-102, one iteration of the loop without its frame: mark the
      current cell, then either carve towards a randomly chosen unvisited
      neighbour or backtrack. The choice among the candidate directions is
      left open, so every property holds for every choice.
    */
    method Step(ghost w: Walk) returns (ghost w1: Walk)
      requires Inv(w) && stack != []
      modifies this`currentRow, this`currentCol, this`stack, matrix
      ensures Inv(w1)
      ensures |w1.carved| + w1.pops == |w.carved| + w.pops + 1
    {
      label start:
      MarkCurrent();
      MarkingKeepsInv@start(w);
      w1 := w.(vis := w.vis + {(currentRow, currentCol)});
      var possible := Candidates();
      if possible != [] {
        var selection :| 0 <= selection < |possible|;
        w1 := Advance(possible[selection], w1);
      } else {
        ghost var marked := w1;
        label beforePop:
        Backtrack();
        assert BacktrackStep@beforePop(marked);
        BacktrackKeepsInv@beforePop(marked);
        w1 := marked.(pops := marked.pops + 1);
      }
    }

    /** While the stack is not empty, fewer than 2 * rows * cols iterations have run: each pushes or pops once. */
    lemma WalkBounded(w: Walk)
      requires Inv(w) && stack != []
      ensures |w.carved| + w.pops < 2 * (rows * cols)
    {
      assert Reached(w) <= AllCells(rows, cols);
      AllCellsCount(rows, cols);
      SubsetCardinality(Reached(w), AllCells(rows, cols));
    }

    /** Recording a frame changes nothing the walk invariant reads. */
    twostate lemma RecordingKeepsInv(w: Walk)
      requires old(Inv(w))
      requires unchanged(this`currentRow, this`currentCol, this`stack) && unchanged(matrix)
      ensures Inv(w)
    {
    }

    /** Lines 103-104 and 119: render the matrix with cell (r, c) highlighted and append the frame. */
    method AddFrame(c: int, r: int)
      requires Valid()
      modifies this`frames
      ensures frames == old(frames) + [Frame(Snapshot(), c, r)]
      ensures Symmetric() ==> GridSymmetric(frames[|frames| - 1].grid)
    {
      frames := frames + [Frame(Snapshot(), c, r)];
    }

    /** The walk before the first iteration: only (0, 0) reached, nothing carved. */
    lemma StartInv()
      requires Valid() && rows >= 1 && cols >= 1
      requires currentRow == 0 && currentCol == 0 && stack == [(0, 0)]
      requires forall i, j, k :: 0 <= i < rows && 0 <= j < cols && 0 <= k < 5 ==> !matrix[i, j, k]
      ensures Inv(Start())
    {
      assert Reached(Start()) == {(0, 0)};
      assert DfsInvariant(Start());
    }

    /**
      Lines 43-105, the loop of dfs, run from the state the constructor
      leaves. It returns the bookkeeping of the finished walk; the frames it
      recorded are one per iteration when animating.
    */
    method Explore() returns (ghost w: Walk)
      requires Valid() && rows >= 1 && cols >= 1
      requires currentRow == 0 && currentCol == 0 && stack == [(0, 0)] && frames == []
      requires forall i, j, k :: 0 <= i < rows && 0 <= j < cols && 0 <= k < 5 ==> !matrix[i, j, k]
      modifies this`currentRow, this`currentCol, this`stack, this`frames, matrix
      ensures Inv(w) && stack == []
      ensures |frames| == (if animate then |w.carved| + w.pops else 0) && Animation(frames, rows, cols)
    {
      w := Start();
      StartInv();
      while stack != []
        invariant Inv(w)
        invariant |frames| == if animate then |w.carved| + w.pops else 0
        invariant Animation(frames, rows, cols)
        decreases 2 * (rows * cols) - (|w.carved| + w.pops)
      {
        WalkBounded(w);
        w := Step(w);
        Animate(w);
      }
    }

    /**
      Lines 42-107: the randomized depth-first carver, run from the state the
      constructor leaves, followed by setEntryExit.
    */
    method Dfs()
      requires Valid() && rows >= 1 && cols >= 1
      requires currentRow == 0 && currentCol == 0 && stack == [(0, 0)] && frames == []
      requires forall i, j, k :: 0 <= i < rows && 0 <= j < cols && 0 <= k < 5 ==> !matrix[i, j, k]
      modifies this`currentRow, this`currentCol, this`stack, this`frames, matrix
      ensures stack == [] && currentRow == 0 && currentCol == 0
      ensures forall r, c :: 0 <= r < rows && 0 <= c < cols ==> matrix[r, c, VISITED]
      ensures Symmetric() && OnlyEntryExitOpenOutward() && matrix[0, 0, L] && matrix[rows - 1, cols - 1, R]
      ensures |OpenPassages()| == rows * cols - 1
      ensures forall v :: InGrid(v) ==> Reachable(v)
      ensures |frames| == (if animate then 2 * (rows * cols) - 1 else 0) + 1
      ensures Animation(frames[..|frames| - 1], rows, cols)
      ensures frames[|frames| - 1] == Frame(Snapshot(), -1, -1) && GridSymmetric(frames[|frames| - 1].grid)
    {
      ghost var w := Explore();
      EmptyStackCoversGrid(w);
      assert |frames| == if animate then 2 * (rows * cols) - 1 else 0;
      label carved:
      SetEntryExit();
      SidesKeepParentLinks@carved(w);
      OpenPassagesAre(w.carved);
      GridReachable(w.parent, w.depth);
    }
  }
}
