/**
  The command line front end of solver/solve.py: the option handling of
  main, and the decoder that turns an image of a maze, eight pixels per
  cell, into one bitmask per cell by sampling the cell's corner pixel and
  one clamped probe in each direction.
*/
module Solve {
  import opened Wrappers
  import opened Helpful

  // ---------------------------------------------------------------------
  // Pixels and images
  // ---------------------------------------------------------------------

  /** An RGBA pixel, as PIL's getpixel returns it. */
  type Pixel = (int, int, int, int)

  /** The colour of a wall cell's sample pixel (line 119). */
  const WallColour: Pixel := (0, 0, 255, 255)

  /** The colour of an open probe (lines 120-132). */
  const White: Pixel := (255, 255, 255, 255)

  /** CELL_SIZE(): the side of a cell in pixels. */
  const CellSize: int := 8

  /** The flags of solve.py's CellConnections. */
  const UP: int := 1
  const DOWN: int := 2
  const LEFT: int := 4
  const RIGHT: int := 8

  /** A loaded image: rows of pixels, pixels[y][x]. */
  datatype Image = Image(width: int, height: int, pixels: seq<seq<Pixel>>)

  predicate ImageOk(img: Image)
  {
    img.width >= 0 && img.height >= 0 && |img.pixels| == img.height
    && forall y :: 0 <= y < img.height ==> |img.pixels[y]| == img.width
  }

  /** getpixel((x, y)): PIL refuses a coordinate outside the image, so every caller must stay inside. */
  function GetPixel(img: Image, x: int, y: int): Pixel
    requires ImageOk(img) && 0 <= x < img.width && 0 <= y < img.height
  {
    img.pixels[y][x]
  }

  // ---------------------------------------------------------------------
  // The maze of solve.py (lines 30-58)
  // ---------------------------------------------------------------------

  /**
    The solver's maze: rows and columns of cells, each an integer that the
    decoder builds up flag by flag. The constructor is given whole numbers:
    the decoder divides image sides that are multiples of the cell size.
  */
  class Maze {
    const rows: int
    const cols: int
    var cells: seq<int>

    /** One cell per row and column. */
    ghost predicate Valid()
      reads this
    {
      rows >= 0 && cols >= 0 && |cells| == rows * cols
    }

    constructor (rows: int, cols: int)
      requires rows >= 0 && cols >= 0
      ensures Valid() && this.rows == rows && this.cols == cols
      ensures |cells| == rows * cols && forall i :: 0 <= i < |cells| ==> cells[i] == 0
    {
      this.rows := rows;
      this.cols := cols;
      cells := seq(rows * cols, _ => 0);
    }

    /** get_row: bound(index / cols, 0, rows), on Python's true division. */
    function GetRow(index: int): (r: int)
      requires cols > 0 && rows >= 0
      ensures 0 <= r <= rows
    {
      Bound(index as real / cols as real, 0.0, rows as real)
    }

    /** get_col: bound(index % cols, 0, cols). */
    function GetCol(index: int): (c: int)
      requires cols > 0
      ensures 0 <= c < cols
    {
      Bound((index % cols) as real, 0.0, cols as real)
    }

    /** get_cell: the cell at row * cols + col. */
    function GetCell(row: int, col: int): int
      reads this
      requires 0 <= row * cols + col < |cells|
    {
      cells[row * cols + col]
    }

    /** get_size: the number of cells, one per row and column. */
    function GetSize(): (n: int)
      reads this
      ensures n >= 0
      ensures Valid() ==> n == rows * cols
    {
      |cells|
    }

    /** set_cell: replace the value of one cell. */
    method SetCell(cell: int, value: int)
      requires 0 <= cell < |cells|
      modifies this
      ensures cells == old(cells)[cell := value]
      ensures Valid() <==> old(Valid())
    {
      cells := cells[cell := value];
    }
  }

  /** True division of naturals, truncated, is floor division, and stays below the row count. */
  lemma DivTruncates(i: int, c: int, rows: int)
    requires 0 <= i < rows * c && c > 0
    ensures (i as real / c as real).Floor == i / c && 0.0 <= i as real / c as real <= rows as real && i / c < rows
  {
    var q, r := i / c, i % c;
    assert i == q * c + r;
    assert (rows - q) * c == rows * c - q * c > 0;
    SplitQuotient(q, r, c);
    var x := i as real / c as real;
    assert q as real <= x < q as real + 1.0;
    assert q + 1 <= rows;
  }

  /** (q * c + r) / c is q plus a fraction below one. */
  lemma SplitQuotient(q: int, r: int, c: int)
    requires c > 0 && 0 <= r < c
    ensures var x := (q * c + r) as real / c as real; q as real <= x < q as real + 1.0
  {
    var cr := c as real;
    var x := (q * c + r) as real / cr;
    var y := x - q as real;
    assert x * cr == (q * c + r) as real;
    assert (q * c + r) as real == q as real * cr + r as real;
    assert y * cr == x * cr - q as real * cr;
    Fraction(y, cr, r as real);
  }

  /** A number that times a positive c gives some r in [0, c) lies in [0, 1). */
  lemma Fraction(y: real, c: real, r: real)
    requires c > 0.0 && y * c == r && 0.0 <= r < c
    ensures 0.0 <= y < 1.0
  {
  }

  /**
    get_row and get_col undo get_absolute_index: for a cell of the maze they
    give its row and column, and row * cols + col is the cell again.
  */
  lemma RowColOfIndex(m: Maze, i: int)
    requires m.cols > 0 && m.rows >= 0 && 0 <= i < m.rows * m.cols
    ensures m.GetRow(i) == i / m.cols && m.GetCol(i) == i % m.cols
    ensures 0 <= m.GetRow(i) < m.rows && m.GetRow(i) * m.cols + m.GetCol(i) == i
  {
    DivTruncates(i, m.cols, m.rows);
  }

  // ---------------------------------------------------------------------
  // The decoder (lines 108-135)
  // ---------------------------------------------------------------------

  /** The four probes of lines 120-132, named by the offset they take from the sample pixel. */
  datatype Probe = RowPlus | RowMinus | ColMinus | ColPlus

  /** The flag lines 120-135 add for an open probe: the column-plus probe adds LEFT, as the column-minus one does. */
  function AsWrittenFlag(p: Probe): int
  {
    match p
    case RowPlus => UP
    case RowMinus => DOWN
    case ColMinus => LEFT
    case ColPlus => LEFT
  }

  /** The flag evidently intended for each probe: RIGHT for the column-plus probe. */
  function IntendedFlag(p: Probe): int
  {
    match p
    case RowPlus => UP
    case RowMinus => DOWN
    case ColMinus => LEFT
    case ColPlus => RIGHT
  }

  function Flag(intended: bool, p: Probe): int
  {
    if intended then IntendedFlag(p) else AsWrittenFlag(p)
  }

  /** A cell of the grid the image holds: its sample pixel (col * 8, row * 8) is inside the image. */
  predicate InGrid(img: Image, row: int, col: int)
  {
    0 <= row && 0 <= col && row * CellSize < img.height && col * CellSize < img.width
  }

  /**
    The pixel a probe reads: eight pixels away from the sample pixel along
    one axis, clamped by bound into the image, so that it is always inside.
  */
  function ProbePixel(img: Image, row: int, col: int, p: Probe): (px: Pixel)
    requires ImageOk(img) && InGrid(img, row, col)
  {
    var x, y := col * CellSize, row * CellSize;
    var maxX, maxY := (img.width - 1) as real, (img.height - 1) as real;
    match p
    case RowPlus => GetPixel(img, x, Bound((y + CellSize) as real, 0.0, maxY))
    case RowMinus => GetPixel(img, x, Bound((y - CellSize) as real, 0.0, maxY))
    case ColMinus => GetPixel(img, Bound((x - CellSize) as real, 0.0, maxX), y)
    case ColPlus => GetPixel(img, Bound((x + CellSize) as real, 0.0, maxX), y)
  }

  /** Whether a probe reads pure white. */
  predicate Open(img: Image, row: int, col: int, p: Probe)
    requires ImageOk(img) && InGrid(img, row, col)
  {
    ProbePixel(img, row, col, p) == White
  }

  /** A wall cell: its sample pixel is the wall colour. */
  predicate IsWall(img: Image, row: int, col: int)
    requires ImageOk(img) && InGrid(img, row, col)
  {
    GetPixel(img, col * CellSize, row * CellSize) == WallColour
  }

  /** What one probe adds to a cell: its flag when it reads white, nothing otherwise. */
  function Added(img: Image, row: int, col: int, p: Probe, intended: bool): int
    requires ImageOk(img) && InGrid(img, row, col)
  {
    if Open(img, row, col, p) then Flag(intended, p) else 0
  }

  /** The value of cell (row, col): 0 for a wall, else the sum of what its four probes add. */
  function CellValue(img: Image, row: int, col: int, intended: bool): int
    requires ImageOk(img) && InGrid(img, row, col)
  {
    if IsWall(img, row, col) then 0
    else
      Added(img, row, col, RowPlus, intended) + Added(img, row, col, RowMinus, intended)
      + Added(img, row, col, ColMinus, intended) + Added(img, row, col, ColPlus, intended)
  }

  /** The bits of u + 2d + 4l + 8r for four zero-or-one digits are those digits. */
  lemma FourBits(u: nat, d: nat, l: nat, r: nat)
    requires u <= 1 && d <= 1 && l <= 1 && r <= 1
    ensures var v := u + 2 * d + 4 * l + 8 * r;
      v < 16 && (HasBit(v, 0) <==> u == 1) && (HasBit(v, 1) <==> d == 1) && (HasBit(v, 2) <==> l == 1) && (HasBit(v, 3) <==> r == 1)
  {
    var v := u + 2 * d + 4 * l + 8 * r;
    assert v / 2 == d + 2 * l + 4 * r && v / 2 / 2 == l + 2 * r && v / 2 / 2 / 2 == r;
    assert HasBit(v, 1) == HasBit(v / 2, 0);
    assert HasBit(v, 2) == HasBit(v / 2, 1) == HasBit(v / 2 / 2, 0);
    assert HasBit(v, 3) == HasBit(v / 2, 2) == HasBit(v / 2 / 2, 1) == HasBit(v / 2 / 2 / 2, 0);
  }

  /**
    Lines 119-135 as written: a wall cell is 0; otherwise bits 0 and 1 say
    whether the row-plus and row-minus probes are open, but the two column
    probes share the LEFT flag, so bit 2 says that exactly one of them is
    open and bit 3 (RIGHT) that both are. No value exceeds 11.
  */
  lemma AsWrittenBits(img: Image, row: int, col: int)
    requires ImageOk(img) && InGrid(img, row, col)
    ensures var v := CellValue(img, row, col, false);
      0 <= v <= 11
      && (IsWall(img, row, col) ==> v == 0)
      && (!IsWall(img, row, col) ==>
            (HasBit(v, 0) <==> Open(img, row, col, RowPlus))
            && (HasBit(v, 1) <==> Open(img, row, col, RowMinus))
            && (HasBit(v, 2) <==> Open(img, row, col, ColMinus) != Open(img, row, col, ColPlus))
            && (HasBit(v, 3) <==> Open(img, row, col, ColMinus) && Open(img, row, col, ColPlus)))
  {
    var u, d := Ind(Open(img, row, col, RowPlus)), Ind(Open(img, row, col, RowMinus));
    var l, r := Ind(Open(img, row, col, ColMinus)), Ind(Open(img, row, col, ColPlus));
    if l == 1 && r == 1 {
      FourBits(u, d, 0, 1);
    } else {
      FourBits(u, d, l + r, 0);
    }
  }

  /** A cell open on both sides decodes as open to the right only, the LEFT flag lost. */
  lemma AsWrittenLosesLeft(img: Image, row: int, col: int)
    requires ImageOk(img) && InGrid(img, row, col) && !IsWall(img, row, col)
    requires Open(img, row, col, ColMinus) && Open(img, row, col, ColPlus)
    ensures !HasBit(CellValue(img, row, col, false), 2) && HasBit(CellValue(img, row, col, false), 3)
  {
    AsWrittenBits(img, row, col);
  }

  /**
    The evidently intended decoding: a wall cell is 0, and otherwise each of
    the four flag bits says whether its probe reads white.
  */
  lemma IntendedBits(img: Image, row: int, col: int)
    requires ImageOk(img) && InGrid(img, row, col)
    ensures var v := CellValue(img, row, col, true);
      0 <= v < 16
      && (IsWall(img, row, col) ==> v == 0)
      && (!IsWall(img, row, col) ==>
            (HasBit(v, 0) <==> Open(img, row, col, RowPlus))
            && (HasBit(v, 1) <==> Open(img, row, col, RowMinus))
            && (HasBit(v, 2) <==> Open(img, row, col, ColMinus))
            && (HasBit(v, 3) <==> Open(img, row, col, ColPlus)))
  {
    FourBits(Ind(Open(img, row, col, RowPlus)), Ind(Open(img, row, col, RowMinus)),
             Ind(Open(img, row, col, ColMinus)), Ind(Open(img, row, col, ColPlus)));
  }

  /**
    One round of lines 113-135: sample cell i at its corner pixel and, unless
    it is a wall, add to the cell the flag of each open probe in turn.
  */
  method DecodeCell(maze: Maze, img: Image, i: int, intended: bool)
    requires ImageOk(img) && maze.cols > 0 && maze.rows >= 0
    requires maze.rows * CellSize == img.height && maze.cols * CellSize == img.width
    requires |maze.cells| == maze.rows * maze.cols && 0 <= i < |maze.cells| && maze.cells[i] == 0
    modifies maze
    ensures InGrid(img, i / maze.cols, i % maze.cols)
    ensures maze.cells == old(maze.cells)[i := CellValue(img, i / maze.cols, i % maze.cols, intended)]
  {
    RowColOfIndex(maze, i);
    var row := maze.GetRow(i);
    var col := maze.GetCol(i);
    assert InGrid(img, row, col) by {
      assert (row + 1) * CellSize <= maze.rows * CellSize;
    }
    var pixelX := col * CellSize;
    var pixelY := row * CellSize;
    if GetPixel(img, pixelX, pixelY) != WallColour {
      AddIfOpen(maze, img, i, row, col, RowPlus, intended);
      AddIfOpen(maze, img, i, row, col, RowMinus, intended);
      AddIfOpen(maze, img, i, row, col, ColMinus, intended);
      AddIfOpen(maze, img, i, row, col, ColPlus, intended);
    }
  }

  /**
    One of the four tests of lines 120-135: when the probe reads white, add
    its flag to the cell's current value.
  */
  method AddIfOpen(maze: Maze, img: Image, i: int, row: int, col: int, p: Probe, intended: bool)
    requires ImageOk(img) && InGrid(img, row, col) && 0 <= i < |maze.cells| && row * maze.cols + col == i
    modifies maze
    ensures maze.cells == old(maze.cells)[i := old(maze.cells)[i] + Added(img, row, col, p, intended)]
  {
    if ProbePixel(img, row, col, p) == White {
      var n := maze.GetCell(row, col) + Flag(intended, p);
      maze.SetCell(i, n);
    }
  }

  /**
    Lines 108-135: make a maze of height/8 rows and width/8 columns and set
    each cell to its decoded value; with `intended`, the column-plus probe
    adds RIGHT. The image sides are multiples of the cell size.
  */
  method Decode(img: Image, intended: bool) returns (maze: Maze)
    requires ImageOk(img) && img.width % CellSize == 0 && img.height % CellSize == 0
    ensures maze.rows == img.height / CellSize && maze.cols == img.width / CellSize
    ensures maze.Valid() && maze.GetSize() == maze.rows * maze.cols
    ensures forall i :: 0 <= i < |maze.cells| ==>
      InGrid(img, i / maze.cols, i % maze.cols) && maze.cells[i] == CellValue(img, i / maze.cols, i % maze.cols, intended)
  {
    var rows, cols := img.height / CellSize, img.width / CellSize;
    maze := new Maze(rows, cols);
    var i := 0;
    while i < maze.GetSize()
      invariant maze.Valid() && maze.rows == rows && maze.cols == cols && |maze.cells| == rows * cols && 0 <= i <= |maze.cells|
      invariant forall j :: 0 <= j < i ==> InGrid(img, j / cols, j % cols) && maze.cells[j] == CellValue(img, j / cols, j % cols, intended)
      invariant forall j :: i <= j < |maze.cells| ==> maze.cells[j] == 0
    {
      DecodeCell(maze, img, i, intended);
      i := i + 1;
    }
  }

  // ---------------------------------------------------------------------
  // The options of main (lines 82-99)
  // ---------------------------------------------------------------------

  /**
    `opt in ("-h")`: the parentheses make no tuple, so this is Python's
    substring test on the string "-h".
  */
  predicate IsHelp(opt: string)
  {
    opt == "" || opt == "-" || opt == "h" || opt == "-h"
  }

  /** `opt in ("-i", "--ifile")`. */
  predicate IsInputFlag(opt: string)
  {
    opt == "-i" || opt == "--ifile"
  }

  /** The position of the first option that asks for help, or -1. */
  function FirstHelp(opts: seq<(string, string)>): (k: int)
    ensures -1 <= k < |opts|
    ensures k >= 0 ==> IsHelp(opts[k].0)
    ensures forall j :: 0 <= j < |opts| && (k < 0 || j < k) ==> !IsHelp(opts[j].0)
  {
    if opts == [] then -1
    else if IsHelp(opts[0].0) then 0
    else
      var k := FirstHelp(opts[1..]);
      assert forall j :: 1 <= j < |opts| ==> opts[j] == opts[1..][j - 1];
      if k < 0 then -1 else k + 1
  }

  /** The position of the last option that names the input file, or -1. */
  function LastInput(opts: seq<(string, string)>): (k: int)
    ensures -1 <= k < |opts|
    ensures k >= 0 ==> IsInputFlag(opts[k].0)
    ensures forall j :: k < j < |opts| ==> !IsInputFlag(opts[j].0)
  {
    if opts == [] then -1
    else if IsInputFlag(opts[|opts| - 1].0) then |opts| - 1
    else LastInput(opts[..|opts| - 1])
  }

  /** What main goes on to do: print the usage and exit, or open the named input file. */
  datatype Outcome = Usage | Proceed(inputFile: string)

  /**
    Lines 83-99 after getopt: walk the options; a help option exits with
    the usage at once; an input option records its argument and resolves
    the required 'ifile'; at the end, an unresolved 'ifile' exits with the
    usage. The input file is the argument of the last input option.
  */
  method ProcessOptions(opts: seq<(string, string)>) returns (o: Outcome)
    ensures o.Usage? <==> FirstHelp(opts) >= 0 || LastInput(opts) < 0
    ensures o.Proceed? ==> o.inputFile == opts[LastInput(opts)].1
  {
    var inputFile := "";
    var requiredOptions := new RequiredOptions(["ifile"]);
    var i := 0;
    while i < |opts|
      invariant 0 <= i <= |opts| && FirstHelp(opts[..i]) < 0
      invariant LastInput(opts[..i]) < 0 ==> requiredOptions.requiredOptions == ["ifile"]
      invariant LastInput(opts[..i]) >= 0 ==> requiredOptions.requiredOptions == [] && inputFile == opts[LastInput(opts[..i])].1
    {
      assert opts[..i + 1] == opts[..i] + [opts[i]] && opts[..i + 1][..i] == opts[..i];
      var (opt, arg) := opts[i];
      if IsHelp(opt) {
        assert FirstHelp(opts) >= 0;
        return Usage;
      } else if IsInputFlag(opt) {
        inputFile := arg;
        requiredOptions.Resolve("ifile");
      }
      i := i + 1;
    }
    assert opts[..i] == opts;
    if !requiredOptions.OptionsResolved() {
      return Usage;
    }
    return Proceed(inputFile);
  }
}
