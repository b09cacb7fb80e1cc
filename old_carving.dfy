/**
 * The first-generation BinaryTree of src/carving.rs: an `x`, `y` cursor that
 * carves from the cell under it, then moves right, wrapping to the start of
 * the next line. It stops on the last cell without carving from it. The random
 * coin of a call is the parameter `vert`.
 */
module OldCarving {
  import opened Grids
  import opened FlagMaze
  import opened AlgoBase
  import opened Carving
  import BinaryTreeStep
  import DivMod

  /**
   * What `is_done` demands: `lines() - 1` underflows on a grid without lines,
   * and `columns() - 1`, evaluated only on the last line, on one without columns.
   */
  predicate DoneDefined(m: Maze, a: Address) {
    m.lines >= 1 && (a.line == m.lines - 1 ==> m.columns >= 1)
  }

  /** `is_done` at `a`: the cursor is on the last cell of the grid in row-major order. */
  predicate IsDoneAt(m: Maze, a: Address)
    requires DoneDefined(m, a)
  {
    a.line == m.lines - 1 && a.column == m.columns - 1
  }

  /** On a cell of the grid, being done is being on the cell of the last slot. */
  lemma DoneIsLastSlot(m: Maze, a: Address)
    requires InMaze(m, a)
    ensures DoneDefined(m, a)
    ensures IsDoneAt(m, a) <==> Slot(m, a) == m.CellCount() - 1
  {
    SlotInRange(m, a);
    var c, l := m.columns, m.lines;
    DivMod.DivModOfRowMajor(a.line, a.column, c);
    DivMod.DivModOfRowMajor(l - 1, c - 1, c);
    assert m.CellCount() - 1 == (l - 1) * c + (c - 1);
  }

  /** One `carve_one` from `a` on cells `s`: the new cursor and the new cells. */
  function Tick(m: Maze, a: Address, s: seq<Cell>, vert: bool): (r: (Address, seq<Cell>))
    requires |s| == m.CellCount() && DoneDefined(m, a)
    ensures |r.1| == |s|
  {
    if IsDoneAt(m, a) then (a, s)
    else (NextRightThenDown(a, m), Carved(m, s, a, BinaryTreeStep.Target(m, a, vert)))
  }

  class BinaryTree {
    var x: nat
    var y: nat

    /** `BinaryTree::new`: the cursor starts at (0, 0). */
    constructor ()
      ensures x == 0 && y == 0
    {
      x := 0;
      y := 0;
    }

    function Cursor(): Address
      reads this
    {
      Address(x, y)
    }

    /** On a cell of the grid, being done is being on the cell of the last slot. */
    function IsDone(m: Maze): (r: bool)
      reads this
      requires DoneDefined(m, Cursor())
      ensures InMaze(m, Cursor()) ==> (r <==> Slot(m, Cursor()) == m.CellCount() - 1)
    {
      if InMaze(m, Cursor()) then
        DoneIsLastSlot(m, Cursor());
        IsDoneAt(m, Cursor())
      else
        IsDoneAt(m, Cursor())
    }

    predicate IsLastColumn(m: Maze)
      reads this
    {
      x + 1 == m.columns
    }

    predicate IsLastRow(m: Maze)
      reads this
    {
      y + 1 == m.lines
    }

    /** `next`: one step right, wrapping to column 0 of the next line. */
    method Next(m: Maze)
      modifies this
      ensures Cursor() == NextRightThenDown(old(Cursor()), m)
    {
      x := x + 1;
      if x >= m.columns {
        x := 0;
        y := y + 1;
      }
    }

    /** `carve_one`. */
    method CarveOne(m: Maze, vert: bool)
      requires m.Valid() && DoneDefined(m, Cursor())
      modifies this, m.cells
      ensures (Cursor(), m.cells[..]) == Tick(m, old(Cursor()), old(m.cells[..]), vert)
    {
      if IsDone(m) {
        return;
      } else if IsLastRow(m) {
        CarveRight(Cursor(), m);
      } else if IsLastColumn(m) {
        CarveDown(Cursor(), m);
      } else {
        if vert {
          CarveDown(Cursor(), m);
        } else {
          CarveRight(Cursor(), m);
        }
      }
      Next(m);
    }
  }

  /** A call on the last cell changes neither the cursor nor the maze. */
  lemma TickWhenDone(m: Maze, a: Address, s: seq<Cell>, vert: bool)
    requires |s| == m.CellCount() && InMaze(m, a) && Slot(m, a) == m.CellCount() - 1
    ensures DoneDefined(m, a) && Tick(m, a, s, vert) == (a, s)
  {
    DoneIsLastSlot(m, a);
  }

  /**
   * A call on any other cell of the grid opens the gate toward the cell on
   * its right (on the last line), below it (on the last column, above the
   * last line) or one of the two, and moves the cursor on.
   */
  lemma TickCarves(m: Maze, a: Address, s: seq<Cell>, vert: bool)
    requires |s| == m.CellCount() && InMaze(m, a) && Slot(m, a) < m.CellCount() - 1
    ensures DoneDefined(m, a)
    ensures var r := Tick(m, a, s, vert); var t := BinaryTreeStep.Target(m, a, vert);
            r.0 == NextRightThenDown(a, m) && InMaze(m, t) && Open(m, r.1, a, t) &&
            (a.line + 1 == m.lines ==> t == RightOf(a)) &&
            (a.line + 1 < m.lines && a.column + 1 == m.columns ==> t == Below(a)) &&
            (t == RightOf(a) || t == Below(a))
  {
    DoneIsLastSlot(m, a);
    BinaryTreeStep.TargetInMaze(m, a, vert);
  }

  /**
   * From (0, 0), the cursor after `k` calls is the cell of slot `k` and is
   * done exactly when `k == columns * lines - 1`: that many calls reach the
   * last cell, each of the calls before carves, and the last cell never does.
   */
  lemma CallsToDone(m: Maze, s: seq<Cell>, vert: bool, k: nat)
    requires |s| == m.CellCount() && m.columns > 0 && m.lines > 0 && k < m.CellCount()
    ensures var a := RightThenDownFrom(m, k);
            InMaze(m, a) && Slot(m, a) == k && DoneDefined(m, a) &&
            (IsDoneAt(m, a) <==> k == m.CellCount() - 1)
    ensures k < m.CellCount() - 1 ==> Tick(m, RightThenDownFrom(m, k), s, vert).0 == RightThenDownFrom(m, k + 1)
    ensures k == m.CellCount() - 1 ==> Tick(m, RightThenDownFrom(m, k), s, vert) == (RightThenDownFrom(m, k), s)
  {
    RightThenDownCoversGrid(m, k);
    DoneIsLastSlot(m, RightThenDownFrom(m, k));
  }
}
