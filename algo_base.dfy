/**
 * The address helpers of the carving algorithms (src/algo/base.rs): flag
 * setters on the addressed cell, border tests, and the right-then-down walk
 * that visits the cells in row-major order.
 */
module AlgoBase {
  import opened Grids
  import opened FlagMaze
  import DivMod

  /** `mark_active`, `unmark_active`, `mark_current`, ...: nothing happens out of bounds. */
  method Mark(a: Address, m: Maze, f: Flag, v: bool)
    requires m.Valid()
    modifies m.cells
    ensures m.cells[..] == Marked(m, old(m.cells[..]), a, f, v)
  {
    SetFlag(m, a, f, v);
  }

  /** `is_visited`: false out of bounds. */
  function IsVisited(m: Maze, s: seq<Cell>, a: Address): (r: bool)
    requires |s| == m.CellCount()
    ensures r ==> InMaze(m, a)
    ensures InMaze(m, a) ==> (r <==> CellAt(m, s, a).visited)
  {
    InMaze(m, a) && (SlotInRange(m, a); s[Slot(m, a)].visited)
  }

  /** On a cell of the grid, the right border is where the right neighbour leaves the grid. */
  function IsOnRightBorder(a: Address, m: Maze): (r: bool)
    ensures InMaze(m, a) ==> (r <==> !InMaze(m, Address(a.column + 1, a.line)))
  {
    a.column + 1 == m.columns
  }

  /** On a cell of the grid, the down border is where the lower neighbour leaves the grid. */
  function IsOnDownBorder(a: Address, m: Maze): (r: bool)
    ensures InMaze(m, a) ==> (r <==> !InMaze(m, Address(a.column, a.line + 1)))
  {
    a.line + 1 == m.lines
  }

  function MoveColumn(a: Address, x: nat): (r: Address)
    ensures r.line == a.line && r.column == x
  {
    Address(x, a.line)
  }

  /** Being done is being out of the grid. */
  function IsDoneWalkingRightThenDown(a: Address, m: Maze): (r: bool)
    ensures r <==> !InMaze(m, a)
  {
    a.line >= m.lines || a.column >= m.columns
  }

  /** The address one step further on the right-then-down walk. */
  function NextRightThenDown(a: Address, m: Maze): Address {
    if a.column + 1 >= m.columns then Address(0, a.line + 1) else Address(a.column + 1, a.line)
  }

  /** The cells after `walk_right_then_down` from `a`. */
  function WalkedRightThenDown(a: Address, m: Maze, s: seq<Cell>): (r: seq<Cell>)
    requires |s| == m.CellCount()
    ensures |r| == |s|
  {
    var s1 := Marked(m, s, a, Current, false);
    var b := NextRightThenDown(a, m);
    if IsDoneWalkingRightThenDown(b, m) then s1 else Marked(m, s1, b, Current, true)
  }

  /** `walk_right_then_down`: the current flag moves from `a` to the next cell, if any. */
  method WalkRightThenDown(a: Address, m: Maze) returns (b: Address)
    requires m.Valid()
    modifies m.cells
    ensures b == NextRightThenDown(a, m)
    ensures m.cells[..] == WalkedRightThenDown(a, m, old(m.cells[..]))
  {
    Mark(a, m, Current, false);
    b := a.(column := a.column + 1);
    if b.column >= m.columns {
      b := Address(0, b.line + 1);
    }
    if !IsDoneWalkingRightThenDown(b, m) {
      Mark(b, m, Current, true);
    }
  }

  /** Walking moves no gate. */
  lemma WalkedKeepsGates(a: Address, m: Maze, s: seq<Cell>)
    requires |s| == m.CellCount()
    ensures SameGates(s, WalkedRightThenDown(a, m, s))
  {
    var s1 := Marked(m, s, a, Current, false);
    MarkedKeepsGates(m, s, a, Current, false);
    MarkedKeepsGates(m, s1, NextRightThenDown(a, m), Current, true);
  }

  /** The address reached after `k` steps from the top-left cell. */
  function RightThenDownFrom(m: Maze, k: nat): Address {
    if k == 0 then Address(0, 0) else NextRightThenDown(RightThenDownFrom(m, k - 1), m)
  }

  /** After `k` steps the walk is at the cell of row-major index `k`. */
  lemma {:induction false} RightThenDownIsRowMajor(m: Maze, k: nat)
    requires m.columns > 0
    ensures RightThenDownFrom(m, k) == Address(k % m.columns, k / m.columns)
  {
    var c := m.columns;
    if k == 0 {
      DivMod.DivModOfRowMajor(0, 0, c);
    } else {
      RightThenDownIsRowMajor(m, k - 1);
      var q, r := (k - 1) / c, (k - 1) % c;
      DivMod.DivModSplit(k - 1, c);
      if r + 1 < c {
        DivMod.DivModOfRowMajor(q, r + 1, c);
      } else {
        assert k == (q + 1) * c + 0;
        DivMod.DivModOfRowMajor(q + 1, 0, c);
      }
    }
  }

  /**
   * From the top-left cell, the walk visits each of the `columns * lines`
   * cells at the step equal to its row-major index and is done exactly after
   * the last of them.
   */
  lemma RightThenDownCoversGrid(m: Maze, k: nat)
    requires m.columns > 0 && k <= m.CellCount()
    ensures k < m.CellCount() ==> InMaze(m, RightThenDownFrom(m, k)) && Slot(m, RightThenDownFrom(m, k)) == k
    ensures IsDoneWalkingRightThenDown(RightThenDownFrom(m, k), m) <==> k == m.CellCount()
  {
    RightThenDownIsRowMajor(m, k);
    var c := m.columns;
    if k < m.CellCount() {
      DivMod.RowMajorSplit(k, c, m.lines);
    } else {
      assert k == m.lines * c + 0;
      DivMod.DivModOfRowMajor(m.lines, 0, c);
    }
  }
}
