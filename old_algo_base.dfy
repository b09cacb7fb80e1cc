/**
 * `Walker` of src/algo_base.rs: the first-generation cursor of the carving
 * algorithms. It carves toward its right and lower neighbours, sets the flags
 * of its own cell, tests the borders and walks the grid right then down. The
 * walk is the same as the one of `AlgoBase`, whose specification functions
 * it reuses.
 */
module OldAlgoBase {
  import opened Grids
  import opened FlagMaze
  import opened AlgoBase
  import opened Carving

  class Walker {
    var x: nat
    var y: nat

    /** `Walker::new`: at (0, 0). */
    constructor ()
      ensures x == 0 && y == 0
    {
      x := 0;
      y := 0;
    }

    function Cursor(): Address
      reads this
    {
      Address(x, y)
    }

    /** `carve_right`: the gate toward (x + 1, y). */
    method CarveRight(m: Maze)
      requires m.Valid()
      modifies m.cells
      ensures m.cells[..] == Carved(m, old(m.cells[..]), Cursor(), Address(x + 1, y))
    {
      Carve(m, Cursor(), Address(x + 1, y));
    }

    /** `carve_down`: the gate toward (x, y + 1). */
    method CarveDown(m: Maze)
      requires m.Valid()
      modifies m.cells
      ensures m.cells[..] == Carved(m, old(m.cells[..]), Cursor(), Address(x, y + 1))
    {
      Carve(m, Cursor(), Address(x, y + 1));
    }

    /** `mark_active`, `unmark_active`, `mark_current`, `unmark_current`, on the cursor's cell. */
    method Mark(m: Maze, f: Flag, v: bool)
      requires m.Valid()
      modifies m.cells
      ensures m.cells[..] == Marked(m, old(m.cells[..]), Cursor(), f, v)
    {
      SetFlag(m, Cursor(), f, v);
    }

    /** On a cell of the grid, the right border is where the right neighbour leaves the grid. */
    function IsOnRightBorder(m: Maze): (r: bool)
      reads this
      ensures InMaze(m, Cursor()) ==> (r <==> !InMaze(m, Address(x + 1, y)))
    {
      x + 1 == m.columns
    }

    /** On a cell of the grid, the down border is where the lower neighbour leaves the grid. */
    function IsOnDownBorder(m: Maze): (r: bool)
      reads this
      ensures InMaze(m, Cursor()) ==> (r <==> !InMaze(m, Address(x, y + 1)))
    {
      y + 1 == m.lines
    }

    /** `move_x`: a new walker on column `x` of the same line. */
    method MoveX(x: nat) returns (w: Walker)
      ensures fresh(w) && w.x == x && w.y == y
    {
      w := new Walker();
      w.x := x;
      w.y := y;
    }

    /** `walk_right_then_down`: the current flag moves along with the cursor. */
    method WalkRightThenDown(m: Maze)
      requires m.Valid()
      modifies this, m.cells
      ensures Cursor() == NextRightThenDown(old(Cursor()), m)
      ensures m.cells[..] == WalkedRightThenDown(old(Cursor()), m, old(m.cells[..]))
    {
      Mark(m, Current, false);
      x := x + 1;
      if x >= m.columns {
        x := 0;
        y := y + 1;
      }
      if !IsDoneWalkingRightThenDown(m) {
        Mark(m, Current, true);
      }
    }

    /** Being done is being outside the grid. */
    function IsDoneWalkingRightThenDown(m: Maze): (r: bool)
      reads this
      ensures r <==> !InMaze(m, Cursor())
    {
      y >= m.lines || x >= m.columns
    }
  }

  /**
   * One walk step unmarks the old cell and marks the new cell current when
   * it is in the grid; every other flag and every gate stay as they were.
   */
  lemma {:induction false} WalkMovesCurrent(m: Maze, a: Address, s: seq<Cell>, b: Address)
    requires |s| == m.CellCount() && InMaze(m, a) && InMaze(m, b)
    ensures var t := WalkedRightThenDown(a, m, s); var n := NextRightThenDown(a, m);
            CellAt(m, t, b) ==
            if b == n then WithFlag(CellAt(m, s, b), Current, true)
            else if b == a then WithFlag(CellAt(m, s, b), Current, false)
            else CellAt(m, s, b)
  {
    var s1 := Marked(m, s, a, Current, false);
    var n := NextRightThenDown(a, m);
    MarkedAt(m, s, a, Current, false, b);
    if !IsDoneWalkingRightThenDown(n, m) {
      MarkedAt(m, s1, n, Current, true, b);
    } else {
      assert !InMaze(m, n);
    }
  }
}
