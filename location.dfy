/**
 * `Loc` of src/grid/location.rs: a storage position into a `GridBase.Grid`,
 * read back as a column and a line by division by the grid's width. The
 * shared reference to the grid becomes a parameter of each operation.
 */
module Location {
  import opened Wrappers
  import opened DivMod
  import GridBase

  /**
   * The four sides of the grid. location.rs imports `Border` from its parent
   * module, whose declaration of it is not part of this model.
   */
  datatype Border = Top | Down | Left | Right

  datatype Loc = Loc(spos: nat)

  /** `Loc::from_storage_pos`. */
  function FromStoragePos(spos: nat): (l: Loc)
    ensures StoragePos(l) == spos
  {
    Loc(spos)
  }

  /** `Loc::from_coordinates`: the coordinates read back whenever `column < columns`. */
  function FromCoordinates<T>(column: nat, line: nat, g: GridBase.Grid<T>): (l: Loc)
    ensures column < g.columns ==> Column(l, g) == column && Line(l, g) == line
    ensures column < g.columns && line < g.lines ==> g.StoragePos(column, line) == Some(StoragePos(l))
  {
    if column < g.columns then DivModOfRowMajor(line, column, g.columns); Loc(column + line * g.columns)
    else Loc(column + line * g.columns)
  }

  function StoragePos(l: Loc): nat {
    l.spos
  }

  /** `column()`; the division panics on a grid without columns. */
  function Column<T>(l: Loc, g: GridBase.Grid<T>): (c: nat)
    requires g.columns > 0
    ensures c < g.columns
  {
    l.spos % g.columns
  }

  /** `line()`. */
  function Line<T>(l: Loc, g: GridBase.Grid<T>): (y: nat)
    requires g.columns > 0
    ensures y * g.columns <= l.spos < (y + 1) * g.columns
  {
    DivModSplit(l.spos, g.columns);
    l.spos / g.columns
  }

  function Coordinates<T>(l: Loc, g: GridBase.Grid<T>): (nat, nat)
    requires g.columns > 0
  {
    (Column(l, g), Line(l, g))
  }

  /** Reading the coordinates back rebuilds the same location. */
  lemma CoordinatesRoundTrip<T>(l: Loc, g: GridBase.Grid<T>)
    requires g.columns > 0
    ensures FromCoordinates(Coordinates(l, g).0, Coordinates(l, g).1, g) == l
  {
    DivModSplit(l.spos, g.columns);
  }

  /** A location is in the grid exactly when its line is. */
  lemma InGridIffLine<T>(l: Loc, g: GridBase.Grid<T>)
    requires g.columns > 0
    ensures l.spos < g.columns * g.lines <==> Line(l, g) < g.lines
  {
    var y := Line(l, g);
    if y < g.lines {
      MulLe(y + 1, g.lines, g.columns);
    } else {
      MulLe(g.lines, y, g.columns);
    }
  }

  /** `value()`, which panics past the end of the grid. */
  function Value<T>(l: Loc, g: GridBase.Grid<T>): (v: T)
    reads g
    requires l.spos < |g.cells|
    ensures MaybeValue(l, g) == Some(v)
  {
    g.AtLoc(l.spos)
  }

  /** `maybe_value()`. */
  function MaybeValue<T>(l: Loc, g: GridBase.Grid<T>): (r: Option<T>)
    reads g
    ensures r.None? <==> l.spos >= |g.cells|
    ensures r.Some? ==> r.value == g.cells[l.spos]
  {
    g.TryAtLoc(l.spos)
  }

  /** `is_close_to`, on the coordinates read back from the storage position. */
  function IsCloseTo<T>(l: Loc, g: GridBase.Grid<T>, border: Border): (b: bool)
    requires g.columns > 0
    ensures border == Top ==> (b <==> l.spos < g.columns)
    ensures border == Left ==> (b <==> exists y: nat :: y * g.columns == l.spos)
  {
    var (column, line) := Coordinates(l, g);
    match border
    case Top => line == 0
    case Down => line + 1 >= g.lines
    case Left =>
      DivModSplit(l.spos, g.columns);
      assert column == 0 ==> line * g.columns == l.spos;
      assert forall y: nat :: y * g.columns == l.spos ==> column == 0 by {
        forall y: nat | y * g.columns == l.spos ensures column == 0 {
          DivModOfRowMajor(y, 0, g.columns);
        }
      }
      column == 0
    case Right => column + 1 >= g.columns
  }

  /** On the coordinates a location was built from, the borders are line and column tests. */
  lemma IsCloseToAt<T>(column: nat, line: nat, g: GridBase.Grid<T>)
    requires column < g.columns
    ensures IsCloseTo(FromCoordinates(column, line, g), g, Top) <==> line == 0
    ensures IsCloseTo(FromCoordinates(column, line, g), g, Down) <==> line + 1 >= g.lines
    ensures IsCloseTo(FromCoordinates(column, line, g), g, Left) <==> column == 0
    ensures IsCloseTo(FromCoordinates(column, line, g), g, Right) <==> column + 1 >= g.columns
  {
  }

  /** The four border tests of a 4 x 5 grid at its corners (0, 0), (3, 0) and (0, 4). */
  lemma CornersOfFourByFive<T>(g: GridBase.Grid<T>)
    requires g.columns == 4 && g.lines == 5
    ensures var l := FromCoordinates(0, 0, g);
            Column(l, g) == 0 && Line(l, g) == 0 && IsCloseTo(l, g, Left) && !IsCloseTo(l, g, Right) &&
            IsCloseTo(l, g, Top) && !IsCloseTo(l, g, Down)
    ensures var l := FromCoordinates(3, 0, g);
            Column(l, g) == 3 && !IsCloseTo(l, g, Left) && IsCloseTo(l, g, Right)
    ensures var l := FromCoordinates(0, 4, g);
            Line(l, g) == 4 && !IsCloseTo(l, g, Top) && IsCloseTo(l, g, Down)
  {
    IsCloseToAt(0, 0, g);
    IsCloseToAt(3, 0, g);
    IsCloseToAt(0, 4, g);
  }
}
