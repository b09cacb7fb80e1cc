/**
 * `ZWalk` of src/grid/pathwalk.rs: an iterator over the storage positions
 * `0 .. columns * lines` of a `GridBase.Grid`, each read back as a column
 * and a line, which is the row-major ("Z") order.
 */
module PathWalk {
  import opened Wrappers
  import opened DivMod
  import GridBase
  import Location

  /** A yielded position: a storage position into the walked grid. */
  datatype Pos = Pos(spos: nat)

  /** `to_loc`: the location of the same storage position. */
  function ToLoc<T>(p: Pos, g: GridBase.Grid<T>): (l: Location.Loc)
    ensures Location.StoragePos(l) == p.spos
  {
    Location.FromStoragePos(p.spos)
  }

  /** `Pos::column`: the column of the same location; the division panics on a grid without columns. */
  function Column<T>(p: Pos, g: GridBase.Grid<T>): (c: nat)
    requires g.columns > 0
    ensures c < g.columns && c == p.spos % g.columns
  {
    Location.Column(ToLoc(p, g), g)
  }

  /** `Pos::line`: the line of the same location. */
  function Line<T>(p: Pos, g: GridBase.Grid<T>): (y: nat)
    requires g.columns > 0
    ensures y * g.columns <= p.spos < (y + 1) * g.columns
  {
    Location.Line(ToLoc(p, g), g)
  }

  /** Every position a walk of `limit` yields, in order. */
  function Walk(limit: nat): (w: seq<Pos>)
    ensures |w| == limit
  {
    seq(limit, (k: nat) => Pos(k))
  }

  /** The path the tests expect: for each line in turn, every column in turn. */
  function ExpectedPath(columns: nat, lines: nat): (r: seq<(nat, nat)>)
    ensures |r| == columns * lines
  {
    if lines == 0 then []
    else
      assert columns * lines == columns * (lines - 1) + columns;
      ExpectedPath(columns, lines - 1) + seq(columns, (x: nat) => (x, lines - 1))
  }

  /** The k-th entry of the expected path is `(k % columns, k / columns)`. */
  lemma {:induction false} ExpectedPathAt(columns: nat, lines: nat, k: nat)
    requires k < columns * lines
    ensures columns > 0 && ExpectedPath(columns, lines)[k] == (k % columns, k / columns)
  {
    RowMajorSplit(k, columns, lines);
    var l: nat := lines - 1;
    var before := ExpectedPath(columns, l);
    var last: seq<(nat, nat)> := seq(columns, (x: nat) => (x, l));
    assert ExpectedPath(columns, lines) == before + last;
    if k < |before| {
      ExpectedPathAt(columns, l, k);
      assert (before + last)[k] == before[k];
    } else {
      var x := k - |before|;
      assert |before| == l * columns;
      assert x < columns by { assert columns * lines == columns * l + columns; }
      DivModOfRowMajor(l, x, columns);
      assert (before + last)[k] == last[x];
    }
  }

  /** The coordinates of the whole walk of a grid are exactly the expected path. */
  lemma WalkIsRowMajor<T>(g: GridBase.Grid<T>)
    requires g.columns > 0
    ensures |Walk(g.columns * g.lines)| == |ExpectedPath(g.columns, g.lines)|
    ensures forall k :: 0 <= k < g.columns * g.lines ==>
              (Column(Walk(g.columns * g.lines)[k], g), Line(Walk(g.columns * g.lines)[k], g)) ==
              ExpectedPath(g.columns, g.lines)[k]
  {
    forall k | 0 <= k < g.columns * g.lines
      ensures (Column(Walk(g.columns * g.lines)[k], g), Line(Walk(g.columns * g.lines)[k], g)) ==
              ExpectedPath(g.columns, g.lines)[k]
    {
      ExpectedPathAt(g.columns, g.lines, k);
    }
  }

  class ZWalk<T> {
    var i: nat
    const limit: nat
    const grid: GridBase.Grid<T>

    /** The cursor never passes the number of cells. */
    ghost predicate Valid()
      reads this
    {
      i <= limit
    }

    /** `ZWalk::new`: the walk starts before the first cell. */
    constructor (grid: GridBase.Grid<T>)
      ensures Valid() && i == 0
      ensures limit == grid.columns * grid.lines && this.grid == grid
    {
      i := 0;
      limit := grid.columns * grid.lines;
      this.grid := grid;
    }

    /** `next`: the position under the cursor, one step ahead, until the limit. */
    method Next() returns (p: Option<Pos>)
      requires Valid()
      modifies this
      ensures Valid()
      ensures old(i) >= limit ==> p.None? && i == old(i)
      ensures old(i) < limit ==> p == Some(Walk(limit)[old(i)]) && i == old(i) + 1
    {
      if i >= limit {
        p := None;
      } else {
        var spos := i;
        i := i + 1;
        p := Some(Pos(spos));
      }
    }

    /** Iterating to the end yields the whole walk and leaves the cursor at the limit. */
    method Collect() returns (ps: seq<Pos>)
      requires Valid() && i == 0
      modifies this
      ensures Valid() && i == limit
      ensures ps == Walk(limit)
    {
      ps := [];
      var p := Next();
      while p.Some?
        invariant Valid()
        invariant p.Some? ==> 1 <= i && ps + [p.value] == Walk(limit)[..i]
        invariant p.None? ==> i == limit && ps == Walk(limit)[..i]
        decreases limit - i, p.Some?
      {
        ps := ps + [p.value];
        p := Next();
      }
    }
  }
}
