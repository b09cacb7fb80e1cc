/**
 * The step-by-step BinaryTree of src/algo/carving.rs: walking the cells
 * right then down, each cell carves either down or right, forced right on the
 * bottom row and forced down on the right column. The random coin of a step is
 * the parameter `vert`.
 */
module BinaryTreeStep {
  import opened Grids
  import opened FlagMaze
  import opened AlgoBase
  import opened Carving

  /** The neighbour the cell at `a` carves toward. */
  function Target(m: Maze, a: Address, vert: bool): Address {
    if IsOnDownBorder(a, m) then RightOf(a)
    else if IsOnRightBorder(a, m) then Below(a)
    else if vert then Below(a)
    else RightOf(a)
  }

  /** One `execute_one` from location `a` on cells `s`. */
  function Tick(m: Maze, a: Address, s: seq<Cell>, vert: bool): (r: Step<Address>)
    requires |s| == m.CellCount()
    ensures |r.cells| == |s|
  {
    if IsDoneWalkingRightThenDown(a, m) then Step(a, s, Done)
    else
      var carved := Carved(m, s, a, Target(m, a, vert));
      Step(NextRightThenDown(a, m), WalkedRightThenDown(a, m, carved), Continuing)
  }

  class BinaryTree {
    var location: Address

    /** `BinaryTree::new`: starts on the first crumb; an empty grid has none. */
    constructor (m: Maze)
      requires m.CellCount() > 0
      ensures location == Address(0, 0)
    {
      var first := FirstCrumb(m);
      location := first;
    }

    method ExecuteOne(m: Maze, vert: bool) returns (status: StepStatus)
      requires m.Valid()
      modifies this, m.cells
      ensures Step(location, m.cells[..], status) == Tick(m, old(location), old(m.cells[..]), vert)
    {
      if IsDoneWalkingRightThenDown(location, m) {
        return Done;
      } else if IsOnDownBorder(location, m) {
        CarveRight(location, m);
      } else if IsOnRightBorder(location, m) {
        CarveDown(location, m);
      } else {
        if vert {
          CarveDown(location, m);
        } else {
          CarveRight(location, m);
        }
      }
      location := WalkRightThenDown(location, m);
      status := Continuing;
    }
  }

  /**
   * A cell of the grid carves toward a cell of the grid, except the
   * bottom-right cell, whose forced right carve leaves the grid.
   */
  lemma TargetInMaze(m: Maze, a: Address, vert: bool)
    requires InMaze(m, a)
    ensures Adjacent(a, Target(m, a, vert))
    ensures InMaze(m, Target(m, a, vert)) <==> !(IsOnDownBorder(a, m) && IsOnRightBorder(a, m))
    ensures IsOnDownBorder(a, m) ==> Target(m, a, vert) == RightOf(a)
    ensures !IsOnDownBorder(a, m) && IsOnRightBorder(a, m) ==> Target(m, a, vert) == Below(a)
  {
  }

  /**
   * A step from a cell of the grid opens exactly the gate toward its target
   * (none for the bottom-right cell) and moves on along the walk.
   */
  lemma TickCarvesTarget(m: Maze, a: Address, s: seq<Cell>, vert: bool)
    requires |s| == m.CellCount() && InMaze(m, a)
    ensures var r := Tick(m, a, s, vert);
            r.state == NextRightThenDown(a, m) &&
            SameGates(r.cells, Carved(m, s, a, Target(m, a, vert))) &&
            GatesGrow(s, r.cells)
    ensures var r := Tick(m, a, s, vert);
            InMaze(m, Target(m, a, vert)) ==> Open(m, r.cells, a, Target(m, a, vert))
  {
    var carved := Carved(m, s, a, Target(m, a, vert));
    var r := Tick(m, a, s, vert);
    WalkedKeepsGates(a, m, carved);
    TargetInMaze(m, a, vert);
    if InMaze(m, Target(m, a, vert)) {
      OpenSameGates(m, carved, r.cells, a, Target(m, a, vert));
    }
  }

  /** Once the walk has left the grid, a step changes nothing and reports `Done`. */
  lemma TickWhenDone(m: Maze, a: Address, s: seq<Cell>, vert: bool)
    requires |s| == m.CellCount() && !InMaze(m, a)
    ensures Tick(m, a, s, vert) == Step(a, s, Done)
  {
  }

  /**
   * From the first crumb, the first `columns * lines` steps each carve from
   * the next cell in row-major order and report `Continuing`; the step after
   * them reports `Done`.
   */
  lemma TickCount(m: Maze, s: seq<Cell>, vert: bool, k: nat)
    requires |s| == m.CellCount() && m.columns > 0 && k <= m.CellCount()
    ensures var r := Tick(m, RightThenDownFrom(m, k), s, vert);
            (k < m.CellCount() ==> r.status == Continuing && r.state == RightThenDownFrom(m, k + 1)) &&
            (k == m.CellCount() ==> r.status == Done)
  {
    RightThenDownCoversGrid(m, k);
  }
}
