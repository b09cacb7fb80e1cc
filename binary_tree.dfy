/**
 * The whole-grid Binary Tree of src/algo/binary_tree.rs: one pass of
 * `zwalk` over an `Execution`'s maze, carving Right on the bottom line,
 * Down on the right column and otherwise Down or Right by a coin. The
 * coins are a parameter, `coins[k]` being the one drawn at cell `k`.
 */
module BinaryTreeWalk {
  import opened Wrappers
  import opened GridBase
  import Location
  import PathWalk
  import opened OrthoMazes
  import opened Executions

  /** The way carved at storage position `k`, and the reason recorded for it. */
  function Choice(m: OrthoMaze, k: nat, coin: bool): (c: (Way, string))
    requires m.grid.columns > 0
    ensures c.0 in {Down, Right}
    ensures Location.Line(Location.Loc(k), m.grid) + 1 >= m.grid.lines ==> c.0 == Right
    ensures (Location.Line(Location.Loc(k), m.grid) + 1 < m.grid.lines &&
             Location.Column(Location.Loc(k), m.grid) + 1 == m.grid.columns) ==> c.0 == Down
  {
    var loc := Location.Loc(k);
    if Location.IsCloseTo(loc, m.grid, Location.Down) then (Right, "bottom border, forced to carve right")
    else if Location.IsCloseTo(loc, m.grid, Location.Right) then (Down, "right border, forced to carve down")
    else if coin then (Down, "randomly choose to carve down")
    else (Right, "randomly choose to carve right")
  }

  /** The reasons recorded for the first `n` cells, in walk order. */
  function Reasons(m: OrthoMaze, coins: seq<bool>, n: nat): (r: seq<string>)
    requires m.grid.columns > 0 && n <= |coins|
    ensures |r| == n
    ensures forall k :: 0 <= k < n ==> r[k] == Choice(m, k, coins[k]).1
  {
    if n == 0 then [] else Reasons(m, coins, n - 1) + [Choice(m, n - 1, coins[n - 1]).1]
  }

  /**
   * `BinaryTree::carve`. Every carve of the walk is a Down or Right carve
   * of a cell in the grid, which never fails, so the result is Ok on every
   * grid; each cell gets exactly the gate its choice names, and the
   * history gains one reason per cell.
   */
  method Carve(exec: Execution, coins: seq<bool>) returns (r: Result<(), string>)
    requires exec.maze.grid.Valid() && |coins| == exec.maze.grid.columns * exec.maze.grid.lines
    modifies exec, exec.maze.grid
    ensures r == Ok(())
    ensures exec.maze.grid.Valid()
    ensures |exec.history| == |old(exec.history)| + |coins|
    ensures exec.maze.grid.columns > 0 ==> exec.history == old(exec.history) + Reasons(exec.maze, coins, |coins|)
    ensures forall k :: 0 <= k < |coins| ==>
              exec.maze.grid.columns > 0 &&
              exec.maze.grid.cells[k] == Opened(old(exec.maze.grid.cells)[k], Choice(exec.maze, k, coins[k]).0 == Down)
  {
    var m := exec.maze;
    var g := m.grid;
    ghost var s0 := g.cells;
    ghost var h0 := exec.history;
    var z := m.ZWalk();
    var p := z.Next();
    ghost var n := 0;
    while p.Some?
      invariant g.Valid() && g.cells == m.grid.cells
      invariant z.Valid() && z.grid == g && z.limit == |coins|
      invariant p.Some? ==> z.i == n + 1 && p.value.spos == n
      invariant p.None? ==> z.i == n == |coins|
      invariant exec.history == h0 + (if n == 0 then [] else Reasons(m, coins, n))
      invariant CarvedUpTo(m, s0, g.cells, coins, n)
      modifies exec, g, z
      decreases |coins| - z.i, p.Some?
    {
      CarveCell(exec, PathWalk.ToLoc(p.value, g), p.value.spos, coins, s0, h0);
      n := n + 1;
      p := z.Next();
    }
    r := Ok(());
  }

  /**
   * One cell of the walk: the carve of cell `k` by its choice, which
   * succeeds, and its reason appended to the history.
   */
  method CarveCell(exec: Execution, loc: Location.Loc, k: nat, coins: seq<bool>, ghost s0: seq<MazeCell>, ghost h0: seq<string>)
    requires exec.maze.grid.Valid() && exec.maze.grid.columns > 0
    requires Location.StoragePos(loc) == k < |coins| == exec.maze.grid.columns * exec.maze.grid.lines
    requires CarvedUpTo(exec.maze, s0, exec.maze.grid.cells, coins, k)
    requires exec.history == h0 + (if k == 0 then [] else Reasons(exec.maze, coins, k))
    modifies exec, exec.maze.grid
    ensures exec.maze.grid.Valid()
    ensures CarvedUpTo(exec.maze, s0, exec.maze.grid.cells, coins, k + 1)
    ensures exec.history == h0 + Reasons(exec.maze, coins, k + 1)
  {
    var choice := Choice(exec.maze, k, coins[k]);
    ghost var before := exec.maze.grid.cells;
    var step := exec.Carve(loc, choice.0, choice.1);
    assert step.Ok?;
    CarvedUpToStep(exec.maze, s0, before, coins, k);
    assert Reasons(exec.maze, coins, k + 1) == Reasons(exec.maze, coins, k) + [choice.1];
  }

  /** The first `n` cells carry the gate of their choice and the others are as they were. */
  ghost predicate CarvedUpTo(m: OrthoMaze, s0: seq<MazeCell>, s: seq<MazeCell>, coins: seq<bool>, n: nat) {
    |s| == |s0| == |coins| && n <= |coins| &&
    (forall k :: 0 <= k < n ==> m.grid.columns > 0 && s[k] == Opened(s0[k], Choice(m, k, coins[k]).0 == Down)) &&
    (forall k :: n <= k < |coins| ==> s[k] == s0[k])
  }

  /** Carving cell `n` by its choice extends the carved prefix by one cell. */
  lemma CarvedUpToStep(m: OrthoMaze, s0: seq<MazeCell>, s: seq<MazeCell>, coins: seq<bool>, n: nat)
    requires CarvedUpTo(m, s0, s, coins, n) && n < |coins| && m.grid.columns > 0
    ensures CarvedUpTo(m, s0, Carved(s, (n, Choice(m, n, coins[n]).0 == Down)), coins, n + 1)
  {
  }

  /**
   * On a 4 x 5 grid carved from scratch, whatever the coins: the top-right
   * cell opens Down only, the right cell of line 1 opens Up and Down but
   * not Right, the bottom-left cell opens Right but not Down or Left, and
   * the next bottom cell opens Left and Right but not Down.
   */
  lemma FourByFive(m: OrthoMaze, coins: seq<bool>)
    requires m.grid.Valid() && m.grid.columns == 4 && m.grid.lines == 5 && |coins| == 20
    requires forall k :: 0 <= k < 20 ==> m.grid.cells[k] == Opened(DefaultCell, Choice(m, k, coins[k]).0 == Down)
    ensures var a := m.GatesAt(At(m, 3, 0));
            !CanMove(a, Up) && CanMove(a, Down) && !CanMove(a, Right)
    ensures var a := m.GatesAt(At(m, 3, 1));
            CanMove(a, Up) && CanMove(a, Down) && !CanMove(a, Right)
    ensures var a := m.GatesAt(At(m, 0, 4));
            !CanMove(a, Down) && !CanMove(a, Left) && CanMove(a, Right)
    ensures var a := m.GatesAt(At(m, 1, 4));
            !CanMove(a, Down) && CanMove(a, Left) && CanMove(a, Right)
  {
    assert Choice(m, 3, coins[3]).0 == Down;
    assert Choice(m, 7, coins[7]).0 == Down;
    assert Choice(m, 16, coins[16]).0 == Right;
    assert Choice(m, 17, coins[17]).0 == Right;
  }
}
