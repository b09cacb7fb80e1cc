/**
 * The depth overlay of src/depth.rs: a grid of optional depths, all
 * absent at first, read by `depth` and written by `set_depth`.
 */
module DepthMap {
  import opened Wrappers
  import opened Grids

  datatype CellStatus = CellStatus(depth: Option<nat>)

  class OrthoDepthMap {
    const grid: Grid<CellStatus>
    var maxPathDepth: nat

    ghost predicate Valid() {
      grid.Valid()
    }

    /** `OrthoDepthMap::new`: no cell has a depth yet. */
    constructor (w: nat, h: nat)
      ensures Valid() && fresh(grid.cells) && grid.columns == w && grid.lines == h && maxPathDepth == 0
      ensures forall x, y :: Depth(grid, grid.cells[..], x, y) == None
    {
      grid := new Grid(w, h, CellStatus(None));
      maxPathDepth := 0;
    }
  }

  /** `Pos::depth` on cells `s`: absent out of bounds. */
  function Depth(g: Grid<CellStatus>, s: seq<CellStatus>, x: nat, y: nat): (r: Option<nat>)
    requires |s| == g.CellCount()
    ensures !g.Contains(x, y) ==> r == None
    ensures g.Contains(x, y) ==> g.Localize(x, y) < |s| && r == s[g.Localize(x, y)].depth
  {
    if g.Contains(x, y) then
      s[g.Localize(x, y)].depth
    else None
  }

  /** The cells after `set_depth(depth)` at `(x, y)`. */
  function SetDepthCells(g: Grid<CellStatus>, s: seq<CellStatus>, x: nat, y: nat, depth: nat): (r: seq<CellStatus>)
    requires |s| == g.CellCount()
    ensures |r| == |s|
  {
    if g.Contains(x, y) then
      s[g.Localize(x, y) := CellStatus(Some(depth))]
    else s
  }

  /** `PosMut::set_depth`: writes through `at_mut`; nothing happens out of bounds. */
  method SetDepth(g: Grid<CellStatus>, x: nat, y: nat, depth: nat)
    requires g.Valid()
    modifies g.cells
    ensures g.cells[..] == SetDepthCells(g, old(g.cells[..]), x, y, depth)
  {
    var _ := g.AtMut(x, y, CellStatus(Some(depth)));
  }

  /**
   * After `set_depth(h)` the cell reads `Some(h)`, whatever it held before,
   * and every other cell reads as before.
   */
  lemma SetDepthThenDepth(g: Grid<CellStatus>, s: seq<CellStatus>, x: nat, y: nat, h: nat, x2: nat, y2: nat)
    requires |s| == g.CellCount()
    ensures var r := SetDepthCells(g, s, x, y, h);
            Depth(g, r, x2, y2) == if g.Contains(x, y) && (x2, y2) == (x, y) then Some(h) else Depth(g, s, x2, y2)
  {
    if g.Contains(x, y) && g.Contains(x2, y2) && (x2, y2) != (x, y) {
      g.PinInvertsLocalize(x, y);
      g.PinInvertsLocalize(x2, y2);
    }
  }

  /** A second `set_depth` on the same cell overwrites the first. */
  lemma SetDepthOverwrites(g: Grid<CellStatus>, s: seq<CellStatus>, x: nat, y: nat, h1: nat, h2: nat)
    requires |s| == g.CellCount()
    ensures SetDepthCells(g, SetDepthCells(g, s, x, y, h1), x, y, h2) == SetDepthCells(g, s, x, y, h2)
  {
  }
}
