/**
 * What the four carving algorithms of src/algo/carving.rs share: their step
 * status, the `carve_right` / `carve_down` / `carve_to` helpers, flag updates
 * over a list of addresses and the clearing of every visit flag.
 */
module Carving {
  import opened Wrappers
  import opened Grids
  import opened FlagMaze
  import opened AlgoBase
  import DivMod

  /**
   * The status an `execute_one` of src/algo/carving.rs returns. It is not the
   * `Status` of src/task.rs, which has no `Aborted`.
   */
  datatype StepStatus = Done | Continuing | Aborted(reason: string)

  /** One step of a carving algorithm on the maze's cells: its new state, the new cells, its status. */
  datatype Step<S> = Step(state: S, cells: seq<Cell>, status: StepStatus)

  const NoNeighbours: string := "impossible situation - no neighbours"
  const NoMoreUnvisited: string := "impossible situation - no more unvisited cell"

  function RightOf(a: Address): Address { Address(a.column + 1, a.line) }
  function Below(a: Address): Address { Address(a.column, a.line + 1) }

  /** `neighbours`: the at most four cells of the grid next to `a`. */
  function Neighbours(m: Maze, a: Address): (r: seq<Address>)
    ensures |r| <= 4
    ensures forall b :: b in r <==> InMaze(m, b) && Adjacent(a, b)
  {
    m.NeighbourList(a.column, a.line)
  }

  /** `choice` can be what `choose` draws among the neighbours of `a`. */
  predicate ChoiceFits(m: Maze, a: Address, choice: nat) {
    |Neighbours(m, a)| == 0 || choice < |Neighbours(m, a)|
  }

  /**
   * `pick_next`: the chosen neighbour, or the error of a cell without
   * neighbours; the location must be in the grid (`expect`).
   */
  function PickNext(m: Maze, a: Address, choice: nat): (r: Result<Address, string>)
    requires InMaze(m, a) && ChoiceFits(m, a, choice)
    ensures r.Err? <==> |Neighbours(m, a)| == 0
    ensures r.Err? ==> r.error == NoNeighbours
    ensures r.Ok? ==> InMaze(m, r.value) && Adjacent(a, r.value)
  {
    var candidates := Neighbours(m, a);
    if |candidates| == 0 then Err(NoNeighbours)
    else
      assert candidates[choice] in candidates;
      Ok(candidates[choice])
  }

  /** A cell of the grid has no neighbour exactly when the grid is a single cell. */
  lemma NeighboursEmptyIffSingle(m: Maze, a: Address)
    requires InMaze(m, a)
    ensures |Neighbours(m, a)| == 0 <==> m.columns == 1 && m.lines == 1
  {
    if m.columns > 1 {
      var b := if a.column + 1 < m.columns then Address(a.column + 1, a.line) else Address(a.column - 1, a.line);
      assert b in Neighbours(m, a);
    } else if m.lines > 1 {
      var b := if a.line + 1 < m.lines then Address(a.column, a.line + 1) else Address(a.column, a.line - 1);
      assert b in Neighbours(m, a);
    } else {
      assert Neighbours(m, a) == [];
    }
  }

  /** `carve_right`: opens the gate to the right neighbour when there is one. */
  method CarveRight(a: Address, m: Maze)
    requires m.Valid()
    modifies m.cells
    ensures m.cells[..] == Carved(m, old(m.cells[..]), a, RightOf(a))
  {
    Carve(m, a, RightOf(a));
  }

  /** `carve_down`: opens the gate to the neighbour below when there is one. */
  method CarveDown(a: Address, m: Maze)
    requires m.Valid()
    modifies m.cells
    ensures m.cells[..] == Carved(m, old(m.cells[..]), a, Below(a))
  {
    Carve(m, a, Below(a));
  }

  /** `carve_to`. */
  method CarveTo(a: Address, b: Address, m: Maze)
    requires m.Valid()
    modifies m.cells
    ensures m.cells[..] == Carved(m, old(m.cells[..]), a, b)
  {
    Carve(m, a, b);
  }

  /** The cells after setting flag `f` to `v` on each address of `addrs`, in order. */
  function MarkedAll(m: Maze, s: seq<Cell>, addrs: seq<Address>, f: Flag, v: bool): (r: seq<Cell>)
    requires |s| == m.CellCount()
    ensures |r| == |s|
    decreases |addrs|
  {
    if |addrs| == 0 then s
    else Marked(m, MarkedAll(m, s, addrs[..|addrs| - 1], f, v), addrs[|addrs| - 1], f, v)
  }

  /** Marking a list of addresses moves no gate. */
  lemma {:induction false} MarkedAllKeepsGates(m: Maze, s: seq<Cell>, addrs: seq<Address>, f: Flag, v: bool)
    requires |s| == m.CellCount()
    ensures SameGates(s, MarkedAll(m, s, addrs, f, v))
    decreases |addrs|
  {
    if |addrs| > 0 {
      MarkedAllKeepsGates(m, s, addrs[..|addrs| - 1], f, v);
      MarkedKeepsGates(m, MarkedAll(m, s, addrs[..|addrs| - 1], f, v), addrs[|addrs| - 1], f, v);
    }
  }

  /**
   * Marking a list of addresses sets the flag on each listed cell (however
   * often it is listed) and leaves every other cell as it was.
   */
  lemma {:induction false} MarkedAllSpec(m: Maze, s: seq<Cell>, addrs: seq<Address>, f: Flag, v: bool, b: Address)
    requires |s| == m.CellCount() && InMaze(m, b)
    ensures Slot(m, b) < |s|
    ensures b in addrs ==> MarkedAll(m, s, addrs, f, v)[Slot(m, b)] == WithFlag(s[Slot(m, b)], f, v)
    ensures b !in addrs ==> MarkedAll(m, s, addrs, f, v)[Slot(m, b)] == s[Slot(m, b)]
    decreases |addrs|
  {
    SlotInRange(m, b);
    if |addrs| > 0 {
      var init, last := addrs[..|addrs| - 1], addrs[|addrs| - 1];
      assert addrs == init + [last];
      MarkedAllSpec(m, s, init, f, v, b);
      var t := MarkedAll(m, s, init, f, v);
      if b == last {
        MarkedHere(m, t, b, f, v);
      } else {
        MarkedElsewhere(m, t, last, f, v, b);
      }
    }
  }

  /** `MarkedAllSpec` at an address. */
  lemma MarkedAllAt(m: Maze, s: seq<Cell>, addrs: seq<Address>, f: Flag, v: bool, b: Address)
    requires |s| == m.CellCount() && InMaze(m, b)
    ensures CellAt(m, MarkedAll(m, s, addrs, f, v), b) ==
            if b in addrs then WithFlag(CellAt(m, s, b), f, v) else CellAt(m, s, b)
  {
    MarkedAllSpec(m, s, addrs, f, v, b);
  }

  /**
   * The active marks are exactly the cells of `walk`, which all lie in the
   * grid: the invariant the random-walk algorithms keep between steps.
   */
  ghost predicate WalkMarked(m: Maze, s: seq<Cell>, walk: seq<Address>) {
    |s| == m.CellCount() &&
    (forall b :: b in walk ==> InMaze(m, b)) &&
    (forall b :: InMaze(m, b) ==> (CellAt(m, s, b).active <==> b in walk))
  }

  /** Unmarking the whole walk leaves no active mark. */
  lemma ClearWalkMarks(m: Maze, s: seq<Cell>, walk: seq<Address>)
    requires WalkMarked(m, s, walk)
    ensures WalkMarked(m, MarkedAll(m, s, walk, Active, false), [])
  {
    forall b | InMaze(m, b)
      ensures !CellAt(m, MarkedAll(m, s, walk, Active, false), b).active
    {
      MarkedAllAt(m, s, walk, Active, false, b);
    }
  }

  /** Flags that do not change keep the invariant. */
  lemma SameFlagsWalkMarks(m: Maze, s: seq<Cell>, t: seq<Cell>, walk: seq<Address>)
    requires WalkMarked(m, s, walk) && SameFlags(s, t)
    ensures WalkMarked(m, t, walk)
  {
    forall b | InMaze(m, b)
      ensures CellAt(m, t, b).active == CellAt(m, s, b).active
    {
      SameFlagsAt(m, s, t, b);
    }
  }

  /** Setting a flag other than the active one keeps the invariant. */
  lemma MarkedWalkMarks(m: Maze, s: seq<Cell>, walk: seq<Address>, a: Address, f: Flag, v: bool)
    requires WalkMarked(m, s, walk) && f != Active
    ensures WalkMarked(m, Marked(m, s, a, f, v), walk)
  {
    forall b | InMaze(m, b)
      ensures CellAt(m, Marked(m, s, a, f, v), b).active == CellAt(m, s, b).active
    {
      MarkedAt(m, s, a, f, v, b);
    }
  }

  /** Marking a cell of the grid active while appending it to the walk keeps the invariant. */
  lemma PushWalkMarks(m: Maze, s: seq<Cell>, walk: seq<Address>, a: Address)
    requires WalkMarked(m, s, walk) && InMaze(m, a)
    ensures WalkMarked(m, Marked(m, s, a, Active, true), walk + [a])
  {
    forall b | InMaze(m, b)
      ensures CellAt(m, Marked(m, s, a, Active, true), b).active <==> b in walk + [a]
    {
      MarkedAt(m, s, a, Active, true, b);
    }
  }

  /** Clearing the visit flags keeps the invariant. */
  lemma VisitsClearedWalkMarks(m: Maze, s: seq<Cell>, walk: seq<Address>)
    requires WalkMarked(m, s, walk)
    ensures WalkMarked(m, VisitsCleared(s), walk)
  {
    forall b | InMaze(m, b)
      ensures CellAt(m, VisitsCleared(s), b).active == CellAt(m, s, b).active
    {
      SlotInRange(m, b);
    }
  }

  /** The loop `for addr in addrs { addr.<set flag>(maze) }`. */
  method MarkEach(addrs: seq<Address>, m: Maze, f: Flag, v: bool)
    requires m.Valid()
    modifies m.cells
    ensures m.cells[..] == MarkedAll(m, old(m.cells[..]), addrs, f, v)
  {
    ghost var s0 := m.cells[..];
    for k := 0 to |addrs|
      invariant m.cells[..] == MarkedAll(m, s0, addrs[..k], f, v)
    {
      assert addrs[..k + 1][..k] == addrs[..k];
      Mark(addrs[k], m, f, v);
    }
    assert addrs[..|addrs|] == addrs;
  }

  /** The cells with every visit flag cleared and nothing else changed. */
  function VisitsCleared(s: seq<Cell>): (r: seq<Cell>)
    ensures |r| == |s| && SameGates(s, r) && !AnyVisited(r)
    ensures forall i :: 0 <= i < |s| ==>
              r[i].active == s[i].active && r[i].current == s[i].current
  {
    seq(|s|, i requires 0 <= i < |s| => s[i].(visited := false))
  }

  predicate AnyVisited(s: seq<Cell>) {
    exists i :: 0 <= i < |s| && s[i].visited
  }

  /** The crumb at step `k` is the cell in slot `k`. */
  lemma CrumbSlot(m: Maze, k: nat)
    requires k < m.CellCount()
    ensures m.columns > 0
    ensures InMaze(m, Address(k % m.columns, k / m.columns)) && Slot(m, Address(k % m.columns, k / m.columns)) == k
  {
    DivMod.RowMajorSplit(k, m.columns, m.lines);
  }

  /** `t` is `s` with the visit flags of its first `n` slots cleared. */
  ghost predicate ClearedUpTo(s: seq<Cell>, t: seq<Cell>, n: nat) {
    |t| == |s| &&
    forall i :: 0 <= i < |s| ==> t[i] == (if i < n then s[i].(visited := false) else s[i])
  }

  /** Unmarking the visit of the cell in slot `k` extends the cleared prefix by one slot. */
  lemma ClearStep(m: Maze, s: seq<Cell>, t: seq<Cell>, a: Address)
    requires |s| == m.CellCount() && InMaze(m, a) && ClearedUpTo(s, t, Slot(m, a))
    ensures ClearedUpTo(s, Marked(m, t, a, Visited, false), Slot(m, a) + 1)
  {
    MarkedHere(m, t, a, Visited, false);
    forall i | 0 <= i < |s| && i != Slot(m, a)
      ensures Marked(m, t, a, Visited, false)[i] == t[i]
    {
      var p := m.Pin(i);
      MarkedElsewhere(m, t, a, Visited, false, Address(p.0, p.1));
    }
  }

  /** `clear_visit`: `unmark_visit` on every crumb of the grid. */
  method ClearVisit(m: Maze)
    requires m.Valid()
    modifies m.cells
    ensures m.cells[..] == VisitsCleared(old(m.cells[..]))
  {
    ghost var s0 := m.cells[..];
    var crumbs := new Crumbs(m.columns, m.lines);
    var r := crumbs.Next();
    while r.Some?
      invariant crumbs.Valid() && crumbs.columns == m.columns && crumbs.lines == m.lines
      invariant r.Some? ==> 1 <= crumbs.i <= crumbs.max
      invariant r.None? ==> crumbs.i == crumbs.max == |s0|
      invariant r.Some? ==> r.value == Address((crumbs.i - 1) % m.columns, (crumbs.i - 1) / m.columns)
      invariant ClearedUpTo(s0, m.cells[..], if r.Some? then crumbs.i - 1 else crumbs.i)
      decreases crumbs.max - crumbs.i, r.Some?
    {
      CrumbSlot(m, crumbs.i - 1);
      ClearStep(m, s0, m.cells[..], r.value);
      Mark(r.value, m, Visited, false);
      r := crumbs.Next();
    }
    assert m.cells[..] == VisitsCleared(s0);
  }

  /** `maze.grid().crumbs().next().expect(..)`: the first crumb of a non-empty grid. */
  method FirstCrumb(m: Maze) returns (a: Address)
    requires m.CellCount() > 0
    ensures a == Address(0, 0) && InMaze(m, a)
  {
    var crumbs := new Crumbs(m.columns, m.lines);
    var r := crumbs.Next();
    a := r.value;
  }
}
