/**
 * The depth seeding task of src/algo/seeding.rs (`DjisktraWalk`): one step
 * that gives every cell of the depth map its row-major index as depth and is
 * then done. The depth map it writes is a parameter here.
 */
module Seeding {
  import opened Wrappers
  import opened Grids
  import opened DepthMap
  import Tasks
  import DivMod

  /** The cells of a depth map whose cell `i` has depth `i`. */
  function Seeded(n: nat): (r: seq<CellStatus>)
    ensures |r| == n && forall i :: 0 <= i < n ==> r[i].depth == Some(i)
  {
    seq(n, (i: nat) => CellStatus(Some(i)))
  }

  /** `DjisktraWalk::execute_one`. */
  method ExecuteOne(d: OrthoDepthMap) returns (status: Tasks.Status)
    requires d.Valid()
    modifies d.grid.cells
    ensures status == Tasks.Done
    ensures d.grid.cells[..] == Seeded(d.grid.CellCount())
  {
    var g := d.grid;
    var crumbs := new Crumbs(g.columns, g.lines);
    var i := 0;
    var pos := crumbs.Next();
    while pos.Some?
      invariant crumbs.Valid() && crumbs.columns == g.columns && crumbs.lines == g.lines
      invariant pos.Some? ==> crumbs.i == i + 1 <= crumbs.max && pos.value == Address(i % g.columns, i / g.columns)
      invariant pos.None? ==> i == crumbs.i == crumbs.max
      invariant forall k :: 0 <= k < g.cells.Length ==> g.cells[k] == (if k < i then CellStatus(Some(k)) else old(g.cells[k]))
      decreases crumbs.max - crumbs.i, pos.Some?
    {
      DivMod.RowMajorSplit(i, g.columns, g.lines);
      assert g.Contains(pos.value.column, pos.value.line) && g.Localize(pos.value.column, pos.value.line) == i;
      SetDepth(g, pos.value.column, pos.value.line, i);
      i := i + 1;
      pos := crumbs.Next();
    }
    status := Tasks.Done;
  }

  /**
   * After seeding every cell has a depth, its row-major index, so the depths
   * run from 0 to `columns * lines - 1`.
   */
  lemma SeededDepths(g: Grid<CellStatus>, x: nat, y: nat)
    requires g.Contains(x, y)
    ensures Depth(g, Seeded(g.CellCount()), x, y) == Some(g.Localize(x, y))
    ensures g.Localize(x, y) <= g.CellCount() - 1
  {
  }

  /** The last cell holds the largest depth. */
  lemma SeededLargest(g: Grid<CellStatus>)
    requires g.columns > 0 && g.lines > 0
    ensures Depth(g, Seeded(g.CellCount()), g.columns - 1, g.lines - 1) == Some(g.CellCount() - 1)
  {
    assert g.Localize(g.columns - 1, g.lines - 1) == (g.lines - 1) * g.columns + g.columns - 1;
    assert (g.lines - 1) * g.columns + g.columns == g.lines * g.columns;
  }
}
