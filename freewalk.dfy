/**
 * `OrthoFreeWalk` of src/grid/freewalk.rs: a cursor over a `GridBase.Grid`
 * that steps one cell up, down, left or right. Only `can_move` looks at
 * the grid's bounds; stepping and spawning do not check them.
 */
module FreeWalk {
  import Location
  import opened GridBase

  /** The distance between two integers. */
  function Dist(a: int, b: int): nat {
    if a <= b then b - a else a - b
  }

  /** The position one step from `p` in `direction`, on signed coordinates. */
  function Stepped(p: (int, int), direction: Way): (r: (int, int))
    ensures Dist(p.0, r.0) + Dist(p.1, r.1) == 1
    ensures direction in {Left, Right} <==> r.1 == p.1
  {
    match direction
    case Up => (p.0, p.1 - 1)
    case Down => (p.0, p.1 + 1)
    case Left => (p.0 - 1, p.1)
    case Right => (p.0 + 1, p.1)
  }

  function Opposite(direction: Way): Way {
    match direction
    case Up => Down
    case Down => Up
    case Left => Right
    case Right => Left
  }

  /** A step followed by the opposite step returns to the start: Up after Down, Left after Right. */
  lemma StepBack(p: (int, int), direction: Way)
    ensures Stepped(Stepped(p, direction), Opposite(direction)) == p
  {
  }

  class OrthoFreeWalk<T> {
    var column: nat
    var line: nat
    const grid: Grid<T>

    /** `OrthoFreeWalk::new`: the walker starts at (0, 0). */
    constructor (grid: Grid<T>)
      ensures column == 0 && line == 0 && this.grid == grid
    {
      column := 0;
      line := 0;
      this.grid := grid;
    }

    predicate InBounds()
      reads this
    {
      column < grid.columns && line < grid.lines
    }

    /**
     * `can_move`. `lines - 1` and `columns - 1` underflow on an empty grid,
     * hence the precondition. From a cell of the grid it holds exactly
     * when the step lands in the grid.
     */
    function CanMove(direction: Way): (b: bool)
      reads this
      requires grid.lines >= 1 && grid.columns >= 1
      ensures InBounds() ==>
                (b <==> var t := Stepped((column, line), direction);
                        0 <= t.0 < grid.columns && 0 <= t.1 < grid.lines)
    {
      var floor := grid.lines - 1;
      var wall := grid.columns - 1;
      (direction == Up && line > 0)
      || (direction == Down && line < floor)
      || (direction == Left && column > 0)
      || (direction == Right && column < wall)
    }

    /** `step_to`: Up and Left underflow at 0, which is a precondition. */
    method StepTo(direction: Way)
      requires direction == Up ==> line > 0
      requires direction == Left ==> column > 0
      modifies this
      ensures (column as int, line as int) == Stepped((old(column), old(line)), direction)
    {
      match direction
      case Up => line := line - 1;
      case Down => line := line + 1;
      case Left => column := column - 1;
      case Right => column := column + 1;
    }

    /** `spawn_at`: both coordinates are set as given, in bounds or not. */
    method SpawnAt(column: nat, line: nat)
      modifies this
      ensures this.column == column && this.line == line
    {
      this.column := column;
      this.line := line;
    }

    /** `to_loc`: on the grid, the location reads back the walker's coordinates. */
    function ToLoc(): (l: Location.Loc)
      reads this
      ensures column < grid.columns ==> Location.Coordinates(l, grid) == (column, line)
    {
      Location.FromCoordinates(column, line, grid)
    }
  }

  /** On the 4 x 5 grid, a walker at the origin can go down and right, not up or left. */
  lemma OriginMoves<T>(w: OrthoFreeWalk<T>)
    requires w.grid.columns == 4 && w.grid.lines == 5 && w.column == 0 && w.line == 0
    ensures w.CanMove(Down) && w.CanMove(Right) && !w.CanMove(Up) && !w.CanMove(Left)
  {
  }
}
