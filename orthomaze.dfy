/**
 * `OrthoMaze` of src/maze/orthomaze.rs: a `GridBase.Grid` of cells that
 * record only their down and right gates. Carving a direction opens the
 * gate on the cell that owns it (the cell itself for Down and Right, the
 * cell above or to the left for Up and Left), and `gates_at` reads the four
 * directions of a cell back from the cell and its upper and left
 * neighbours into a bit set.
 */
module OrthoMazes {
  import opened Wrappers
  import opened GridBase
  import Location
  import PathWalk
  import FreeWalk

  datatype MazeCell = MazeCell(downGateOpen: bool, rightGateOpen: bool, visited: bool, height: Option<bool>)

  /** `MazeCell::default`: both gates closed, unvisited, no height. */
  const DefaultCell: MazeCell := MazeCell(false, false, false, None)

  /** The `Gates` bit set over a machine word. */
  datatype Gates = Gates(bits: bv64)

  const TOP: Gates := Gates(1)
  const DOWN: Gates := Gates(2)
  const LEFT: Gates := Gates(4)
  const RIGHT: Gates := Gates(8)
  const NoGates: Gates := Gates(0)

  predicate Contains(g: Gates, other: Gates) {
    g.bits & other.bits == other.bits
  }

  function Insert(g: Gates, other: Gates): Gates {
    Gates(g.bits | other.bits)
  }

  /** `Gates::to_way`: each way has its own single bit among the low four. */
  function ToWay(gateway: Way): (r: Gates)
    ensures r.bits != 0 && r.bits & (r.bits - 1) == 0 && r.bits | 15 == 15
  {
    match gateway
    case Up => TOP
    case Down => DOWN
    case Left => LEFT
    case Right => RIGHT
  }

  /** Different ways have different bits, which do not overlap. */
  lemma ToWayDistinct(w1: Way, w2: Way)
    requires w1 != w2
    ensures ToWay(w1).bits & ToWay(w2).bits == 0
  {
  }

  /** `Gates::can_move`. */
  predicate CanMove(g: Gates, gateway: Way) {
    Contains(g, ToWay(gateway))
  }

  /** After inserting the bit of `w`, a set allows `w` and every way it allowed, and no other. */
  lemma InsertThenCanMove(g: Gates, w: Way, w2: Way)
    ensures CanMove(Insert(g, ToWay(w)), w2) <==> w2 == w || CanMove(g, w2)
  {
  }

  /** The empty set allows no way. */
  lemma NoGatesBlock(w: Way)
    ensures !CanMove(NoGates, w)
  {
  }

  /** `Gates::can_move_all`: all the ways are allowed. */
  function CanMoveAll(g: Gates, gateways: seq<Way>): (b: bool)
    ensures b <==> forall i :: 0 <= i < |gateways| ==> CanMove(g, gateways[i])
  {
    if |gateways| == 0 then true
    else CanMove(g, gateways[0]) && CanMoveAll(g, gateways[1..])
  }

  /** The cell after opening its down gate (`down`) or its right gate. */
  function Opened(c: MazeCell, down: bool): (r: MazeCell)
    ensures r.downGateOpen == (c.downGateOpen || down)
    ensures r.rightGateOpen == (c.rightGateOpen || !down)
    ensures r.visited == c.visited && r.height == c.height
  {
    if down then c.(downGateOpen := true) else c.(rightGateOpen := true)
  }

  /**
   * The cells after opening gate `t.1` (down when true, right otherwise) of
   * the cell at storage position `t.0`: that one gate of that one cell
   * opens and nothing else changes.
   */
  function Carved(s: seq<MazeCell>, t: (nat, bool)): (r: seq<MazeCell>)
    requires t.0 < |s|
    ensures |r| == |s|
    ensures r[t.0] == Opened(s[t.0], t.1)
    ensures forall i :: 0 <= i < |s| && i != t.0 ==> r[i] == s[i]
  {
    s[t.0 := Opened(s[t.0], t.1)]
  }

  /** Carving the same gate twice is carving it once. */
  lemma CarvedIdempotent(s: seq<MazeCell>, t: (nat, bool))
    requires t.0 < |s|
    ensures Carved(Carved(s, t), t) == Carved(s, t)
  {
  }

  class OrthoMaze {
    const grid: Grid<MazeCell>

    /** `OrthoMaze::new`: every cell has both gates closed and is unvisited. */
    constructor New(w: nat, h: nat)
      ensures fresh(grid) && grid.Valid()
      ensures grid.columns == w && grid.lines == h
      ensures forall i :: 0 <= i < |grid.cells| ==> grid.cells[i] == DefaultCell
    {
      var g := new Grid.New(w, h, DefaultCell);
      grid := g;
    }

    /** `zwalk`: a row-major walk over the maze's grid, before its first cell. */
    method ZWalk() returns (z: PathWalk.ZWalk<MazeCell>)
      ensures fresh(z) && z.Valid() && z.i == 0
      ensures z.grid == grid && z.limit == grid.columns * grid.lines
    {
      z := new PathWalk.ZWalk(grid);
    }

    /** `freewalk`: a free walker over the maze's grid, at its origin. */
    method Freewalk() returns (w: FreeWalk.OrthoFreeWalk<MazeCell>)
      ensures fresh(w) && w.grid == grid && w.column == 0 && w.line == 0
    {
      w := new FreeWalk.OrthoFreeWalk(grid);
    }

    /**
     * Which gate `carve(loc, gateway)` opens: the storage position of the
     * owning cell and whether it is its down gate. None is the
     * "invalid carving" error. The Down and Right guards
     * (`line + 1 <= lines`, `column + 1 <= columns`) hold for every location
     * in the grid, so those two carve on the bottom and right borders too.
     */
    function CarveTarget(loc: Location.Loc, gateway: Way): (t: Option<(nat, bool)>)
      requires grid.columns > 0
      ensures t.Some? ==> t.value.0 < grid.columns * grid.lines
      ensures gateway in {Down, Right} ==> (t.Some? <==> loc.spos < grid.columns * grid.lines)
      ensures gateway in {Down, Right} && t.Some? ==> t.value == (loc.spos, gateway == Down)
      ensures gateway == Up ==>
                (t.Some? <==> Location.Line(loc, grid) >= 1 && Location.Line(loc, grid) - 1 < grid.lines)
      ensures gateway == Up && t.Some? ==>
                t.value == (grid.StoragePos(Location.Column(loc, grid), Location.Line(loc, grid) - 1).value, true)
      ensures gateway == Left ==>
                (t.Some? <==> Location.Column(loc, grid) >= 1 && Location.Line(loc, grid) < grid.lines)
      ensures gateway == Left && t.Some? ==>
                t.value == (grid.StoragePos(Location.Column(loc, grid) - 1, Location.Line(loc, grid)).value, false)
    {
      var column := Location.Column(loc, grid);
      var line := Location.Line(loc, grid);
      Location.InGridIffLine(loc, grid);
      match gateway
      case Down =>
        if line + 1 <= grid.lines && loc.spos < grid.columns * grid.lines then Some((loc.spos, true)) else None
      case Right =>
        if column + 1 <= grid.columns && loc.spos < grid.columns * grid.lines then Some((loc.spos, false)) else None
      case Up =>
        if line >= 1 then
          match grid.StoragePos(column, line - 1)
          case Some(spos) => Some((spos, true))
          case None => None
        else None
      case Left =>
        if column >= 1 then
          match grid.StoragePos(column - 1, line)
          case Some(spos) => Some((spos, false))
          case None => None
        else None
    }

    /** For a location in the grid, Up fails exactly on the top border and Left exactly on the left border. */
    lemma CarveFailsOnlyOnBorder(loc: Location.Loc)
      requires grid.columns > 0 && loc.spos < grid.columns * grid.lines
      ensures CarveTarget(loc, Up).None? <==> Location.IsCloseTo(loc, grid, Location.Top)
      ensures CarveTarget(loc, Left).None? <==> Location.IsCloseTo(loc, grid, Location.Left)
      ensures CarveTarget(loc, Down).Some? && CarveTarget(loc, Right).Some?
    {
      Location.InGridIffLine(loc, grid);
      Location.CoordinatesRoundTrip(loc, grid);
    }

    /**
     * `carve`. Reading a location's line and column divides by the width,
     * hence `columns > 0`. `try_at_loc_mut` is not part of this model; it is
     * taken to reach the cell at the location's storage position when there
     * is one, as `try_direct_at_mut` does.
     */
    method Carve(loc: Location.Loc, gateway: Way) returns (r: Result<(), string>)
      requires grid.Valid() && grid.columns > 0
      modifies grid
      ensures grid.Valid()
      ensures r.Ok? <==> CarveTarget(loc, gateway).Some?
      ensures r.Err? ==> r.error == "invalid carving" && grid.cells == old(grid.cells)
      ensures r.Ok? ==> grid.cells == Carved(old(grid.cells), CarveTarget(loc, gateway).value)
    {
      var column := Location.Column(loc, grid);
      var line := Location.Line(loc, grid);
      Location.InGridIffLine(loc, grid);
      var res: Option<()> := None;
      match gateway {
        case Down =>
          if line + 1 <= grid.lines && loc.spos < |grid.cells| {
            var found := grid.TryDirectAtMut(loc.spos, Opened(grid.cells[loc.spos], true));
            res := Some(());
          }
        case Right =>
          if column + 1 <= grid.columns && loc.spos < |grid.cells| {
            var found := grid.TryDirectAtMut(loc.spos, Opened(grid.cells[loc.spos], false));
            res := Some(());
          }
        case Up =>
          if line >= 1 {
            var cell := grid.TryAt(column, line - 1);
            if cell.Some? {
              var found := grid.TryAtMut(column, line - 1, Opened(cell.value, true));
              res := Some(());
            }
          }
        case Left =>
          if column >= 1 {
            var cell := grid.TryAt(column - 1, line);
            if cell.Some? {
              var found := grid.TryAtMut(column - 1, line, Opened(cell.value, false));
              res := Some(());
            }
          }
      }
      r := if res.Some? then Ok(()) else Err("invalid carving");
    }

    /**
     * `gates_at`: DOWN from the cell's own down gate, RIGHT from its own
     * right gate but only when the down gate is closed (the `else if`), TOP
     * from the down gate of the cell above and LEFT from the right gate of
     * the cell to the left, none of the two on the top and left borders.
     */
    function GatesAt(loc: Location.Loc): (r: Gates)
      reads grid
      requires grid.Valid() && grid.columns > 0
      ensures CanMove(r, Down) <==> loc.spos < |grid.cells| && grid.cells[loc.spos].downGateOpen
      ensures CanMove(r, Right) <==>
                loc.spos < |grid.cells| && grid.cells[loc.spos].rightGateOpen && !grid.cells[loc.spos].downGateOpen
      ensures CanMove(r, Up) <==>
                var (column, line) := Location.Coordinates(loc, grid);
                line >= 1 && line - 1 < grid.lines && grid.At(column, line - 1).downGateOpen
      ensures CanMove(r, Left) <==>
                var (column, line) := Location.Coordinates(loc, grid);
                column >= 1 && line < grid.lines && grid.At(column - 1, line).rightGateOpen
      ensures r.bits | 15 == 15
    {
      var gates := NoGates;
      var gates := match grid.TryAtLoc(loc.spos)
        case Some(cell) =>
          if cell.downGateOpen then Insert(gates, DOWN)
          else if cell.rightGateOpen then Insert(gates, RIGHT)
          else gates
        case None => gates;
      var (column, line) := Location.Coordinates(loc, grid);
      var gates := if !Location.IsCloseTo(loc, grid, Location.Top) then
          match grid.TryAt(column, line - 1)
          case Some(cell) => if cell.downGateOpen then Insert(gates, TOP) else gates
          case None => gates
        else gates;
      var gates := if !Location.IsCloseTo(loc, grid, Location.Left) then
          match grid.TryAt(column - 1, line)
          case Some(cell) => if cell.rightGateOpen then Insert(gates, LEFT) else gates
          case None => gates
        else gates;
      gates
    }
  }

  /** The location of the coordinates `(column, line)` on the maze's grid. */
  function At(m: OrthoMaze, column: nat, line: nat): Location.Loc {
    Location.FromCoordinates(column, line, m.grid)
  }

  /**
   * Whether cell `(column, line)` lets a walker out through `way`, read off
   * the gates the cells store: its own down gate, its own right gate (hidden
   * when the down gate is open), the down gate of the cell above and the
   * right gate of the cell on its left.
   */
  predicate Allows(m: OrthoMaze, column: nat, line: nat, way: Way)
    reads m.grid
    requires m.grid.Valid() && column < m.grid.columns
  {
    match way
    case Down => line < m.grid.lines && m.grid.At(column, line).downGateOpen
    case Right => line < m.grid.lines && m.grid.At(column, line).rightGateOpen && !m.grid.At(column, line).downGateOpen
    case Up => 1 <= line <= m.grid.lines && m.grid.At(column, line - 1).downGateOpen
    case Left => 1 <= column && line < m.grid.lines && m.grid.At(column - 1, line).rightGateOpen
  }

  /** The gate set `gates_at` builds allows exactly the ways the stored gates open. */
  lemma GatesAtAllows(m: OrthoMaze, column: nat, line: nat, way: Way)
    requires m.grid.Valid() && column < m.grid.columns
    ensures CanMove(m.GatesAt(At(m, column, line)), way) == Allows(m, column, line, way)
  {
    var l := At(m, column, line);
    assert Location.Coordinates(l, m.grid) == (column, line);
    Location.InGridIffLine(l, m.grid);
    if line < m.grid.lines {
      assert m.grid.StoragePos(column, line) == Some(l.spos);
    }
  }

  /**
   * Carving Down from a cell above the bottom line opens it both ways:
   * the cell allows Down and the cell below allows Up.
   */
  lemma CarveDownSeenFromBelow(m: OrthoMaze, column: nat, line: nat, s0: seq<MazeCell>)
    requires m.grid.Valid() && column < m.grid.columns && line + 1 < m.grid.lines
    requires |s0| == |m.grid.cells| && m.CarveTarget(At(m, column, line), Down).Some?
    requires m.grid.cells == Carved(s0, m.CarveTarget(At(m, column, line), Down).value)
    ensures CanMove(m.GatesAt(At(m, column, line)), Down)
    ensures CanMove(m.GatesAt(At(m, column, line + 1)), Up)
  {
    Location.CoordinatesRoundTrip(At(m, column, line + 1), m.grid);
  }

  /**
   * Carving Right from a cell left of the right column opens it towards the
   * cell to the right, which then allows Left.
   */
  lemma CarveRightSeenFromRight(m: OrthoMaze, column: nat, line: nat, s0: seq<MazeCell>)
    requires m.grid.Valid() && column + 1 < m.grid.columns && line < m.grid.lines
    requires |s0| == |m.grid.cells| && m.CarveTarget(At(m, column, line), Right).Some?
    requires m.grid.cells == Carved(s0, m.CarveTarget(At(m, column, line), Right).value)
    ensures CanMove(m.GatesAt(At(m, column + 1, line)), Left)
    ensures CanMove(m.GatesAt(At(m, column, line)), Right) <==> !s0[m.grid.StoragePos(column, line).value].downGateOpen
  {
    Location.CoordinatesRoundTrip(At(m, column + 1, line), m.grid);
  }
}
