/**
  The application class of src/maze/Main.java, without its JavaFX surface:
  the arrow-key cycling through the generation modes, the dispatch of
  doNewMaze to a generator, and the command-line flags read by main.
*/
module MazeApp {
  import opened Wrappers
  import opened MazeModes
  import MazeGen

  // ---------------------------------------------------------------------
  // Mode cycling (lines 91-112)
  // ---------------------------------------------------------------------

  /** The index the RIGHT arrow moves to (lines 92-98): the next one, wrapping from the last to the first. */
  function NextIndex(i: int): (j: int)
    requires 0 <= i < |Values|
    ensures 0 <= j < |Values| && j == (i + 1) % |Values|
  {
    if i == |Values| - 1 then 0 else i + 1
  }

  /** The index the LEFT arrow moves to (lines 103-109): the previous one, wrapping from the first to the last. */
  function PrevIndex(i: int): (j: int)
    requires 0 <= i < |Values|
    ensures 0 <= j < |Values| && j == (i + |Values| - 1) % |Values|
  {
    if i == 0 then |Values| - 1 else i - 1
  }

  /** LEFT after RIGHT returns to the index the user started from. */
  lemma PrevUndoesNext(i: int)
    requires 0 <= i < |Values|
    ensures PrevIndex(NextIndex(i)) == i
  {
  }

  /** RIGHT after LEFT returns to the index the user started from. */
  lemma NextUndoesPrev(i: int)
    requires 0 <= i < |Values|
    ensures NextIndex(PrevIndex(i)) == i
  {
  }

  /** Pressing RIGHT then LEFT, or LEFT then RIGHT, reselects the mode the user started from. */
  lemma ArrowsCancel(m: Mode)
    ensures ByIndex(PrevIndex(NextIndex(Index(m)))) == Ok(m)
    ensures ByIndex(NextIndex(PrevIndex(Index(m)))) == Ok(m)
  {
    PrevUndoesNext(Index(m));
    NextUndoesPrev(Index(m));
    ByIndexOfIndex(m);
  }

  /** The index selected after n presses of RIGHT. */
  function NextPresses(i: int, n: nat): (j: int)
    requires 0 <= i < |Values|
    ensures 0 <= j < |Values|
  {
    if n == 0 then i else NextIndex(NextPresses(i, n - 1))
  }

  /** n presses of RIGHT advance the index by n, modulo the number of modes. */
  lemma {:induction false} NextPressesIndex(i: int, n: nat)
    requires 0 <= i < |Values|
    ensures NextPresses(i, n) == (i + n) % |Values|
  {
    if n > 0 {
      NextPressesIndex(i, n - 1);
      SuccessorMod(i + n - 1);
    }
  }

  lemma SuccessorMod(a: nat)
    ensures (a % |Values| + 1) % |Values| == (a + 1) % |Values|
  {
  }

  /** Five presses of RIGHT come back to the mode the user started from. */
  lemma FiveNextsAreIdentity(i: int)
    requires 0 <= i < |Values|
    ensures NextPresses(i, |Values|) == i
  {
    NextPressesIndex(i, |Values|);
  }

  /** Fewer than five presses of RIGHT always select a different mode. */
  lemma FewerNextsMove(i: int, k: nat)
    requires 0 <= i < |Values| && 0 < k < |Values|
    ensures NextPresses(i, k) != i
  {
    NextPressesIndex(i, k);
  }

  // ---------------------------------------------------------------------
  // Command-line flags (lines 220-240)
  // ---------------------------------------------------------------------

  const IntMin: int := -0x8000_0000
  const IntMax: int := 0x7FFF_FFFF

  /** The largest frame rate main accepts (line 233). */
  const MaxFps: int := 60

  predicate IsDigit(ch: char) { '0' <= ch <= '9' }

  predicate AllDigits(s: string) { forall i :: 0 <= i < |s| ==> IsDigit(s[i]) }

  /** The value of a run of decimal digits, most significant first. */
  function DigitsValue(s: string): nat
    requires AllDigits(s)
  {
    if s == [] then 0 else DigitsValue(s[..|s| - 1]) * 10 + (s[|s| - 1] - '0') as int
  }

  /** The decimal digits of n, without leading zeros. */
  function Decimal(n: nat): (s: string)
    ensures s != [] && AllDigits(s) && DigitsValue(s) == n
    ensures s[0] == '0' ==> n == 0
  {
    var last := ['0' + (n % 10) as char];
    if n < 10 then last
    else
      var s := Decimal(n / 10) + last;
      assert s[..|s| - 1] == Decimal(n / 10);
      s
  }

  /** Integer.toString: an optional minus sign followed by the digits. */
  function Format(n: int): (s: string)
    ensures s != []
  {
    if n < 0 then "-" + Decimal(-n) else Decimal(n)
  }

  /** Text Integer.parseInt reads as a decimal: an optional sign, then one or more digits. */
  predicate Numeric(s: string)
  {
    |s| > 0 && (IsDigit(s[0]) || ((s[0] == '-' || s[0] == '+') && |s| > 1))
    && forall i :: 0 < i < |s| ==> IsDigit(s[i])
  }

  /** The value a decimal text denotes, before any range check. */
  function SignedValue(s: string): int
    requires Numeric(s)
  {
    if IsDigit(s[0]) then DigitsValue(s)
    else if s[0] == '-' then -(DigitsValue(s[1..]) as int)
    else DigitsValue(s[1..])
  }

  /**
    Integer.parseInt in base 10: an optional sign, then at least one digit,
    and a value that fits in 32 bits; anything else is a NumberFormatException.
  */
  function ParseInt(s: string): (r: Option<int>)
    ensures r.Some? <==> Numeric(s) && IntMin <= SignedValue(s) <= IntMax
    ensures r.Some? ==> r.value == SignedValue(s)
    ensures r.Some? ==> IntMin <= r.value <= IntMax
    ensures s == [] || s == "-" || s == "+" ==> r.None?
  {
    var negative := |s| > 0 && s[0] == '-';
    var digits := if |s| > 0 && (s[0] == '-' || s[0] == '+') then s[1..] else s;
    if digits == [] || !AllDigits(digits) then None
    else
      var magnitude: int := DigitsValue(digits);
      var v := if negative then -magnitude else magnitude;
      if IntMin <= v <= IntMax then Some(v) else None
  }

  /** Every 32-bit value survives Integer.toString followed by Integer.parseInt. */
  lemma ParseFormat(n: int)
    requires IntMin <= n <= IntMax
    ensures ParseInt(Format(n)) == Some(n)
  {
    if n < 0 {
      assert Format(n)[1..] == Decimal(-n);
    }
  }

  /** Two 32-bit values with the same decimal text are equal, so the text names one value. */
  lemma FormatInjective(m: int, n: int)
    requires IntMin <= m <= IntMax && IntMin <= n <= IntMax
    ensures Format(m) == Format(n) ==> m == n
  {
    if Format(m) == Format(n) {
      ParseFormat(m);
      ParseFormat(n);
    }
  }

  /** List.indexOf: the position of the first occurrence of s, or -1. */
  function IndexOf(cmd: seq<string>, s: string): (i: int)
    ensures -1 <= i < |cmd|
    ensures i == -1 <==> s !in cmd
    ensures i >= 0 ==> cmd[i] == s && s !in cmd[..i]
  {
    if cmd == [] then -1
    else if cmd[0] == s then 0
    else
      var i := IndexOf(cmd[1..], s);
      if i == -1 then -1
      else
        assert cmd[..i + 1] == [cmd[0]] + cmd[1..][..i];
        i + 1
  }

  /**
    `Integer.parseInt(args[cmd.indexOf(flag) + 1])` for a flag present on the
    command line: the argument after its first occurrence, as an int; None
    when there is no such argument (ArrayIndexOutOfBoundsException) or it is
    not a number (NumberFormatException).
  */
  function FlagValue(args: seq<string>, flag: string): (r: Option<int>)
    requires flag in args
    ensures r.Some? <==> IndexOf(args, flag) + 1 < |args| && ParseInt(args[IndexOf(args, flag) + 1]).Some?
  {
    var i := IndexOf(args, flag) + 1;
    if i < |args| then ParseInt(args[i]) else None
  }

  /** The flags main reads, each of which must carry a readable value when present. */
  const Flags: seq<string> := ["--rows", "--cols", "--scalefactor", "--fps"]

  /** Whether main gets through its try block, or shows the usage and exits. */
  predicate ArgsValid(args: seq<string>)
  {
    forall f :: f in Flags && f in args ==> FlagValue(args, f).Some?
  }

  /**
    The static settings of Main that main assigns before launching the
    application, with their declared defaults (lines 29-33).
  */
  class Settings {
    var fps: int
    var rows: int
    var cols: int
    var scaleFactor: int

    constructor ()
      ensures fps == 30 && rows == 20 && cols == 20 && scaleFactor == 4
    {
      fps := 30;
      rows := 20;
      cols := 20;
      scaleFactor := 4;
    }

    /**
      The try block of main (lines 222-235). It returns false exactly when
      one of the flags throws, in which case main prints the usage and exits
      and the settings are never used. `--rows` sets the number of columns
      and `--cols` the number of rows, as main does.
    */
    method ApplyArgs(args: seq<string>) returns (ok: bool)
      modifies this
      ensures ok <==> ArgsValid(args)
      ensures ok ==> cols == (if "--rows" in args then FlagValue(args, "--rows").value else old(cols))
      ensures ok ==> rows == (if "--cols" in args then FlagValue(args, "--cols").value else old(rows))
      ensures ok ==> scaleFactor == (if "--scalefactor" in args then FlagValue(args, "--scalefactor").value else old(scaleFactor))
      ensures ok ==> fps == (if "--fps" in args then Min(FlagValue(args, "--fps").value, MaxFps) else old(fps))
      ensures ok && "--fps" in args ==> fps <= MaxFps
    {
      ok := true;
      if "--rows" in args {
        var v := FlagValue(args, "--rows");
        if v.None? { return false; }
        cols := v.value;
      }
      if "--cols" in args {
        var v := FlagValue(args, "--cols");
        if v.None? { return false; }
        rows := v.value;
      }
      if "--scalefactor" in args {
        var v := FlagValue(args, "--scalefactor");
        if v.None? { return false; }
        scaleFactor := v.value;
      }
      if "--fps" in args {
        var v := FlagValue(args, "--fps");
        if v.None? { return false; }
        fps := Min(v.value, MaxFps);
      }
    }
  }

  /** Math.min. */
  function Min(a: int, b: int): (m: int)
    ensures m <= a && m <= b && (m == a || m == b)
  {
    if a <= b then a else b
  }

  /** A flag followed by text that is not a decimal number makes main show the usage and exit. */
  lemma NonNumericIsInvalid(args: seq<string>, flag: string)
    requires flag in Flags && flag in args
    requires IndexOf(args, flag) + 1 < |args| && !Numeric(args[IndexOf(args, flag) + 1])
    ensures !ArgsValid(args)
  {
    assert FlagValue(args, flag).None?;
  }

  /** A flag given as the last argument has no value, so main shows the usage and exits. */
  lemma MissingValueIsInvalid(args: seq<string>, flag: string)
    requires flag in Flags && flag in args && args[|args| - 1] == flag && flag !in args[..|args| - 1]
    ensures !ArgsValid(args)
  {
    assert IndexOf(args, flag) == |args| - 1;
  }

  // ---------------------------------------------------------------------
  // The application (lines 35-37, 54-145)
  // ---------------------------------------------------------------------

  /** The keys the handler of lines 64-113 distinguishes. */
  datatype Key = F5 | F6 | X | RightArrow | LeftArrow | Other

  class App {
    /** The static rows and cols of Main, read by doNewMaze. */
    const rows: int
    const cols: int
    var currentMode: Mode
    var maze: MazeGen.Maze?
    var mazeFrames: seq<MazeGen.Frame>

    constructor (r: int, c: int)
      ensures rows == r && cols == c && currentMode == Backtrack && maze == null && mazeFrames == []
    {
      rows := r;
      cols := c;
      currentMode := Backtrack;
      maze := null;
      mazeFrames := [];
    }

    /**
      doNewMaze (lines 125-145): a fresh maze of the configured size, run
      through the generator of the current mode. Only the depth-first carver
      exists; every other mode ends in an exception, and so does a grid with
      no cell, where the carver's first marking of (0, 0) is out of bounds.
      On an exception the frames on display stay as they were.
    */
    method DoNewMaze(animate: bool) returns (r: Result<(), string>)
      modifies this`maze, this`mazeFrames
      ensures r.Ok? <==> currentMode == Backtrack && rows >= 1 && cols >= 1
      ensures rows < 0 || cols < 0 ==> maze == old(maze)
      ensures rows >= 0 && cols >= 0 ==>
        maze != null && fresh(maze) && maze.rows == rows && maze.cols == cols && maze.animate == animate
      ensures r.Err? ==> mazeFrames == old(mazeFrames)
      ensures r.Ok? ==> maze != null && maze.Valid() && mazeFrames == maze.frames
      ensures r.Ok? ==> maze.Symmetric() && maze.OnlyEntryExitOpenOutward()
      ensures r.Ok? ==> |maze.OpenPassages()| == rows * cols - 1
      ensures r.Ok? ==> forall v :: maze.InGrid(v) ==> maze.Reachable(v)
      ensures r.Ok? ==> |mazeFrames| == (if animate then 2 * (rows * cols) - 1 else 0) + 1
    {
      if rows < 0 || cols < 0 {
        return Err("NegativeArraySizeException");
      }
      var m := new MazeGen.Maze(rows, cols, animate);
      maze := m;
      match currentMode
      case Backtrack =>
        if rows < 1 || cols < 1 {
          return Err("ArrayIndexOutOfBoundsException");
        }
        m.Dfs();
        mazeFrames := m.frames;
        r := Ok(());
      case Prim =>
        r := Err("NotImplementedException");
      case _ =>
        r := Err("generator is not part of this model");
    }

    /**
      The key handler (lines 64-113) without drawing: F5 and F6 build a new
      maze without and with animation, swallowing any exception; the arrows
      cycle the mode. Exporting an image with X changes no state here.
    */
    method HandleKey(k: Key)
      modifies this`maze, this`mazeFrames, this`currentMode
      ensures k == RightArrow ==> Index(currentMode) == NextIndex(Index(old(currentMode)))
      ensures k == LeftArrow ==> Index(currentMode) == PrevIndex(Index(old(currentMode)))
      ensures k != RightArrow && k != LeftArrow ==> currentMode == old(currentMode)
      ensures k !in {F5, F6} ==> maze == old(maze) && mazeFrames == old(mazeFrames)
      ensures k in {F5, F6} && currentMode == Backtrack && rows >= 1 && cols >= 1 ==>
        maze != null && fresh(maze) && maze.animate == (k == F6) && mazeFrames == maze.frames
    {
      match k
      case F5 =>
        var _ := DoNewMaze(false);
      case F6 =>
        var _ := DoNewMaze(true);
      case RightArrow =>
        IndexOfByIndex(NextIndex(Index(currentMode)));
        currentMode := ByIndex(NextIndex(Index(currentMode))).value;
      case LeftArrow =>
        IndexOfByIndex(PrevIndex(Index(currentMode)));
        currentMode := ByIndex(PrevIndex(Index(currentMode))).value;
      case _ =>
    }
  }
}
