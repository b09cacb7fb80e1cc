/**
 * The maze that src/algo/carving.rs, src/algo/base.rs, src/carving.rs and
 * src/algo_base.rs carve. Its own source is not part of this model; this is
 * the minimal definition those call sites need: a grid of cells, each with a
 * down gate and a right gate (a gate is recorded on the upper or left cell of
 * the pair it joins) and three transient flags, and a `carve(c, l, c2, l2)`
 * that opens the gate between two in-bounds, orthogonally adjacent cells and
 * leaves the maze unchanged otherwise.
 */
module FlagMaze {
  import opened Grids

  datatype Cell = Cell(downOpen: bool, rightOpen: bool, active: bool, current: bool, visited: bool)

  /** The default cell: both gates closed, no flag set. */
  const Closed: Cell := Cell(false, false, false, false, false)

  type Maze = Grid<Cell>

  datatype Flag = Active | Current | Visited

  function WithFlag(c: Cell, f: Flag, v: bool): Cell {
    match f
    case Active => c.(active := v)
    case Current => c.(current := v)
    case Visited => c.(visited := v)
  }

  predicate InMaze(m: Maze, a: Address) {
    m.Contains(a.column, a.line)
  }

  function Slot(m: Maze, a: Address): nat {
    m.Localize(a.column, a.line)
  }

  lemma SlotInRange(m: Maze, a: Address)
    requires InMaze(m, a)
    ensures Slot(m, a) < m.CellCount()
  {
  }

  /** Different cells of a maze occupy different slots. */
  lemma SlotInjective(m: Maze, a: Address, b: Address)
    requires InMaze(m, a) && InMaze(m, b) && a != b
    ensures Slot(m, a) != Slot(m, b)
  {
    m.PinInvertsLocalize(a.column, a.line);
    m.PinInvertsLocalize(b.column, b.line);
  }

  /** Both sequences hold the same gates. */
  ghost predicate SameGates(s: seq<Cell>, t: seq<Cell>) {
    |s| == |t| &&
    forall i :: 0 <= i < |s| ==> s[i].downOpen == t[i].downOpen && s[i].rightOpen == t[i].rightOpen
  }

  lemma SameGatesTrans(s: seq<Cell>, t: seq<Cell>, u: seq<Cell>)
    requires SameGates(s, t) && SameGates(t, u)
    ensures SameGates(s, u)
  {
  }

  /** Every gate open in `s` is open in `t`. */
  ghost predicate GatesGrow(s: seq<Cell>, t: seq<Cell>) {
    |s| == |t| &&
    forall i :: 0 <= i < |s| ==> (s[i].downOpen ==> t[i].downOpen) && (s[i].rightOpen ==> t[i].rightOpen)
  }

  /** Both sequences hold the same transient flags. */
  ghost predicate SameFlags(s: seq<Cell>, t: seq<Cell>) {
    |s| == |t| &&
    forall i :: 0 <= i < |s| ==>
      s[i].active == t[i].active && s[i].current == t[i].current && s[i].visited == t[i].visited
  }

  /** The cells of `s` after setting flag `f` to `v` on the cell at `a`, if any. */
  function Marked(m: Maze, s: seq<Cell>, a: Address, f: Flag, v: bool): (r: seq<Cell>)
    requires |s| == m.CellCount()
    ensures |r| == |s|
  {
    if InMaze(m, a) then
      SlotInRange(m, a);
      s[Slot(m, a) := WithFlag(s[Slot(m, a)], f, v)]
    else s
  }

  /** The cell at `a` in cells `s`. */
  function CellAt(m: Maze, s: seq<Cell>, a: Address): Cell
    requires |s| == m.CellCount() && InMaze(m, a)
  {
    SlotInRange(m, a);
    s[Slot(m, a)]
  }

  /** Marking `a` sets the flag on the cell at `a` and leaves every other cell as it was. */
  lemma MarkedAt(m: Maze, s: seq<Cell>, a: Address, f: Flag, v: bool, b: Address)
    requires |s| == m.CellCount() && InMaze(m, b)
    ensures CellAt(m, Marked(m, s, a, f, v), b) ==
            if b == a then WithFlag(CellAt(m, s, b), f, v) else CellAt(m, s, b)
  {
    SlotInRange(m, b);
    if b == a {
      MarkedHere(m, s, a, f, v);
    } else {
      MarkedElsewhere(m, s, a, f, v, b);
    }
  }

  /** Cells with the same flags have the same flags at every address. */
  lemma SameFlagsAt(m: Maze, s: seq<Cell>, t: seq<Cell>, b: Address)
    requires |s| == m.CellCount() && SameFlags(s, t) && InMaze(m, b)
    ensures CellAt(m, t, b).active == CellAt(m, s, b).active
    ensures CellAt(m, t, b).current == CellAt(m, s, b).current
    ensures CellAt(m, t, b).visited == CellAt(m, s, b).visited
  {
    SlotInRange(m, b);
  }

  /** Marking changes no gate. */
  lemma MarkedKeepsGates(m: Maze, s: seq<Cell>, a: Address, f: Flag, v: bool)
    requires |s| == m.CellCount()
    ensures SameGates(s, Marked(m, s, a, f, v))
  {
  }

  /** Marking sets the named flag of the addressed cell and changes nothing else. */
  lemma MarkedHere(m: Maze, s: seq<Cell>, a: Address, f: Flag, v: bool)
    requires |s| == m.CellCount()
    ensures InMaze(m, a) ==> Slot(m, a) < |s| && Marked(m, s, a, f, v)[Slot(m, a)] == WithFlag(s[Slot(m, a)], f, v)
    ensures !InMaze(m, a) ==> Marked(m, s, a, f, v) == s
  {
    if InMaze(m, a) {
      SlotInRange(m, a);
    }
  }

  /** Marking leaves every other cell as it was. */
  lemma MarkedElsewhere(m: Maze, s: seq<Cell>, a: Address, f: Flag, v: bool, b: Address)
    requires |s| == m.CellCount() && InMaze(m, b) && b != a
    ensures Slot(m, b) < |s| && Marked(m, s, a, f, v)[Slot(m, b)] == s[Slot(m, b)]
  {
    SlotInRange(m, b);
    if InMaze(m, a) {
      SlotInjective(m, a, b);
    }
  }

  /** The gate between `a` and `b` is open in `s`. */
  predicate Open(m: Maze, s: seq<Cell>, a: Address, b: Address)
    requires |s| == m.CellCount() && InMaze(m, a) && InMaze(m, b)
  {
    SlotInRange(m, a);
    SlotInRange(m, b);
    if a.line == b.line && a.column + 1 == b.column then s[Slot(m, a)].rightOpen
    else if a.line == b.line && b.column + 1 == a.column then s[Slot(m, b)].rightOpen
    else if a.column == b.column && a.line + 1 == b.line then s[Slot(m, a)].downOpen
    else if a.column == b.column && b.line + 1 == a.line then s[Slot(m, b)].downOpen
    else false
  }

  /** Of two cells, the left one on a line and the upper one in a column: the cell that stores their gate. */
  function Owner(a: Address, b: Address): (o: Address)
    requires Adjacent(a, b)
    ensures o == a || o == b
    ensures o.column <= a.column && o.column <= b.column && o.line <= a.line && o.line <= b.line
  {
    if a.line == b.line then (if a.column < b.column then a else b)
    else if a.line < b.line then a else b
  }

  /**
   * `carve(a, b)` on cells `s`: for two neighbouring cells of the grid it
   * opens their gate, stored on the owner, and changes nothing else; for any
   * other pair it changes nothing.
   */
  function Carved(m: Maze, s: seq<Cell>, a: Address, b: Address): (r: seq<Cell>)
    requires |s| == m.CellCount()
    ensures |r| == |s| && SameFlags(s, r) && GatesGrow(s, r)
    ensures InMaze(m, a) && InMaze(m, b) && Adjacent(a, b) ==> Open(m, r, a, b) && Open(m, r, b, a)
    ensures InMaze(m, a) && InMaze(m, b) && Adjacent(a, b) ==>
              var k := Slot(m, Owner(a, b));
              k < |s| &&
              (forall i :: 0 <= i < |s| && i != k ==> r[i] == s[i]) &&
              (a.line == b.line ==> r[k].downOpen == s[k].downOpen) &&
              (a.column == b.column ==> r[k].rightOpen == s[k].rightOpen)
    ensures !(InMaze(m, a) && InMaze(m, b) && Adjacent(a, b)) ==> r == s
  {
    if !(InMaze(m, a) && InMaze(m, b) && Adjacent(a, b)) then s
    else
      SlotInRange(m, a);
      SlotInRange(m, b);
      var u := Owner(a, b);
      if a.line == b.line then s[Slot(m, u) := s[Slot(m, u)].(rightOpen := true)]
      else s[Slot(m, u) := s[Slot(m, u)].(downOpen := true)]
  }

  /** Opened gates stay open when no gate closes. */
  lemma OpenGrows(m: Maze, s: seq<Cell>, t: seq<Cell>, a: Address, b: Address)
    requires |s| == m.CellCount() && InMaze(m, a) && InMaze(m, b)
    requires GatesGrow(s, t) && Open(m, s, a, b)
    ensures Open(m, t, a, b)
  {
    SlotInRange(m, a);
    SlotInRange(m, b);
  }

  /** The same gates give the same openings. */
  lemma OpenSameGates(m: Maze, s: seq<Cell>, t: seq<Cell>, a: Address, b: Address)
    requires |s| == m.CellCount() && InMaze(m, a) && InMaze(m, b)
    requires SameGates(s, t)
    ensures Open(m, s, a, b) == Open(m, t, a, b)
  {
    SlotInRange(m, a);
    SlotInRange(m, b);
  }

  /** Carving cells with the same gates gives cells with the same gates. */
  lemma CarvedSameGates(m: Maze, s: seq<Cell>, t: seq<Cell>, a: Address, b: Address)
    requires |s| == m.CellCount() && SameGates(s, t)
    ensures SameGates(Carved(m, s, a, b), Carved(m, t, a, b))
  {
  }

  /** Every cell of the maze is visited (`is_visitation_complete`). */
  predicate AllVisited(s: seq<Cell>) {
    forall i :: 0 <= i < |s| ==> s[i].visited
  }

  /** `carve(c, l, c2, l2)` on the maze. */
  method Carve(m: Maze, a: Address, b: Address)
    requires m.Valid()
    modifies m.cells
    ensures m.cells[..] == Carved(m, old(m.cells[..]), a, b)
  {
    if InMaze(m, a) && InMaze(m, b) && Adjacent(a, b) {
      SlotInRange(m, a);
      SlotInRange(m, b);
      if a.line == b.line {
        var u := if a.column < b.column then a else b;
        m.cells[Slot(m, u)] := m.cells[Slot(m, u)].(rightOpen := true);
      } else {
        var u := if a.line < b.line then a else b;
        m.cells[Slot(m, u)] := m.cells[Slot(m, u)].(downOpen := true);
      }
    }
  }

  /** The flag setter of the maze's cells (`mark_active`, `unmark_visit`, ...). */
  method SetFlag(m: Maze, a: Address, f: Flag, v: bool)
    requires m.Valid()
    modifies m.cells
    ensures m.cells[..] == Marked(m, old(m.cells[..]), a, f, v)
  {
    if InMaze(m, a) {
      SlotInRange(m, a);
      m.cells[Slot(m, a)] := WithFlag(m.cells[Slot(m, a)], f, v);
    }
  }
}
