/**
 * The step-by-step SideWinder of src/algo/carving.rs: walking the cells right
 * then down, a cell either extends the current horizontal group (mark it
 * active, carve right) or closes it (clear the group's active marks, carve
 * down from one of its cells). The random coin of a step is `buildGroup` and
 * the random door column is `door`.
 */
module SideWinder {
  import opened Grids
  import opened FlagMaze
  import opened AlgoBase
  import opened Carving

  /** The location and the first column of the current group. */
  datatype State = State(location: Address, startX: nat)

  /** The group never starts right of the location. */
  predicate GroupValid(st: State) {
    st.startX <= st.location.column
  }

  /** The addresses `start_x..column` of the location's line, the loop of `close_group`. */
  function GroupRun(a: Address, startX: nat): (r: seq<Address>)
    ensures |r| == if startX <= a.column then a.column - startX else 0
    ensures forall j :: 0 <= j < |r| ==> r[j] == MoveColumn(a, startX + j)
  {
    if startX <= a.column then seq(a.column - startX, (j: nat) => MoveColumn(a, startX + j)) else []
  }

  /** `close_group` with door column `door`. */
  function ClosedGroup(m: Maze, s: seq<Cell>, a: Address, startX: nat, door: nat): (r: seq<Cell>)
    requires |s| == m.CellCount()
    ensures |r| == |s|
  {
    var unmarked := MarkedAll(m, s, GroupRun(a, startX), Active, false);
    Carved(m, unmarked, MoveColumn(a, door), Below(MoveColumn(a, door)))
  }

  /** `continue_group`. */
  function ContinuedGroup(m: Maze, s: seq<Cell>, a: Address): (r: seq<Cell>)
    requires |s| == m.CellCount()
    ensures |r| == |s|
  {
    Carved(m, Marked(m, s, a, Active, true), a, RightOf(a))
  }

  /** Whether a step on `a` closes the group. */
  predicate Closes(m: Maze, a: Address, buildGroup: bool) {
    IsOnRightBorder(a, m) || (!IsOnDownBorder(a, m) && !buildGroup)
  }

  /** One `execute_one`. */
  function Tick(m: Maze, st: State, s: seq<Cell>, buildGroup: bool, door: nat): (r: Step<State>)
    requires |s| == m.CellCount()
    ensures |r.cells| == |s|
  {
    var a := st.location;
    if IsDoneWalkingRightThenDown(a, m) then Step(st, s, Done)
    else
      var close := Closes(m, a, buildGroup);
      var s1 := if close then ClosedGroup(m, s, a, st.startX, door) else ContinuedGroup(m, s, a);
      var b := NextRightThenDown(a, m);
      var startX := if close then b.column else st.startX;
      Step(State(b, startX), WalkedRightThenDown(a, m, s1),
           if IsDoneWalkingRightThenDown(b, m) then Done else Continuing)
  }

  class SideWinder {
    var location: Address
    var startX: nat

    ghost predicate Valid()
      reads this
    {
      GroupValid(State(location, startX))
    }

    /** `SideWinder::new`: the group starts on the first crumb. */
    constructor (m: Maze)
      requires m.CellCount() > 0
      ensures Valid() && location == Address(0, 0) && startX == 0
    {
      var first := FirstCrumb(m);
      location := first;
      startX := first.column;
    }

    method CloseGroup(m: Maze, door: nat)
      requires m.Valid()
      modifies m.cells
      ensures m.cells[..] == ClosedGroup(m, old(m.cells[..]), location, startX, door)
    {
      MarkEach(GroupRun(location, startX), m, Active, false);
      var doorCell := MoveColumn(location, door);
      CarveDown(doorCell, m);
    }

    method ContinueGroup(m: Maze)
      requires m.Valid()
      modifies m.cells
      ensures m.cells[..] == ContinuedGroup(m, old(m.cells[..]), location)
    {
      Mark(location, m, Active, true);
      CarveRight(location, m);
    }

    /** `door` is the draw of `gen_range(start_x, column + 1)`. */
    method ExecuteOne(m: Maze, buildGroup: bool, door: nat) returns (status: StepStatus)
      requires m.Valid() && Valid() && startX <= door <= location.column
      modifies this, m.cells
      ensures Valid()
      ensures Step(State(location, startX), m.cells[..], status) ==
              Tick(m, old(State(location, startX)), old(m.cells[..]), buildGroup, door)
    {
      var updateStart := false;
      if IsDoneWalkingRightThenDown(location, m) {
        return Done;
      } else if IsOnRightBorder(location, m) {
        CloseGroup(m, door);
        updateStart := true;
      } else if IsOnDownBorder(location, m) {
        ContinueGroup(m);
      } else {
        if buildGroup {
          ContinueGroup(m);
        } else {
          CloseGroup(m, door);
          updateStart := true;
        }
      }
      location := WalkRightThenDown(location, m);
      if updateStart {
        startX := location.column;
      }
      if IsDoneWalkingRightThenDown(location, m) {
        status := Done;
      } else {
        status := Continuing;
      }
    }
  }

  /** A step keeps the group from starting right of the location. */
  lemma TickKeepsValid(m: Maze, st: State, s: seq<Cell>, buildGroup: bool, door: nat)
    requires |s| == m.CellCount() && GroupValid(st)
    ensures GroupValid(Tick(m, st, s, buildGroup, door).state)
  {
  }

  /**
   * Closing a group clears the active mark of its cells left of the location
   * and of no other cell, keeps every visited mark, opens only the gate below
   * the door cell, and starts the next group at the new location.
   */
  lemma TickClosesGroup(m: Maze, st: State, s: seq<Cell>, buildGroup: bool, door: nat)
    requires |s| == m.CellCount() && InMaze(m, st.location) && Closes(m, st.location, buildGroup)
    requires st.startX <= door <= st.location.column
    ensures var r := Tick(m, st, s, buildGroup, door);
            var d := MoveColumn(st.location, door);
            SameGates(r.cells, Carved(m, s, d, Below(d))) &&
            (InMaze(m, Below(d)) ==> Open(m, r.cells, d, Below(d))) &&
            r.state.startX == r.state.location.column
    ensures var r := Tick(m, st, s, buildGroup, door);
            forall x :: st.startX <= x < st.location.column ==>
              Slot(m, MoveColumn(st.location, x)) < |s| &&
              !r.cells[Slot(m, MoveColumn(st.location, x))].active
    ensures var r := Tick(m, st, s, buildGroup, door);
            forall b :: InMaze(m, b) ==>
              CellAt(m, r.cells, b).visited == CellAt(m, s, b).visited &&
              (!(b.line == st.location.line && st.startX <= b.column < st.location.column) ==>
                 CellAt(m, r.cells, b).active == CellAt(m, s, b).active)
  {
    var a := st.location;
    var d := MoveColumn(a, door);
    var run := GroupRun(a, st.startX);
    var unmarked := MarkedAll(m, s, run, Active, false);
    var s1 := ClosedGroup(m, s, a, st.startX, door);
    var r := Tick(m, st, s, buildGroup, door);
    MarkedAllKeepsGates(m, s, run, Active, false);
    WalkedKeepsGates(a, m, s1);
    assert SameGates(r.cells, Carved(m, s, d, Below(d))) by {
      assert SameGates(unmarked, s);
      assert SameGates(Carved(m, unmarked, d, Below(d)), Carved(m, s, d, Below(d))) by {
        CarvedSameGates(m, s, unmarked, d, Below(d));
      }
    }
    if InMaze(m, Below(d)) {
      OpenSameGates(m, Carved(m, s, d, Below(d)), r.cells, d, Below(d));
    }
    forall x | st.startX <= x < st.location.column
      ensures Slot(m, MoveColumn(a, x)) < |s| && !r.cells[Slot(m, MoveColumn(a, x))].active
    {
      var b := MoveColumn(a, x);
      assert run[x - st.startX] == b;
      MarkedAllSpec(m, s, run, Active, false, b);
      SlotInRange(m, b);
      ActiveAfterCloseAt(m, unmarked, a, d, b);
    }
    forall b | InMaze(m, b)
      ensures CellAt(m, r.cells, b).visited == CellAt(m, s, b).visited &&
              (!(b.line == a.line && st.startX <= b.column < a.column) ==>
                 CellAt(m, r.cells, b).active == CellAt(m, s, b).active)
    {
      ClosedGroupFlagsAt(m, s, a, st.startX, door, b);
    }
  }

  /**
   * After closing the group and walking on, cell `b` keeps its visited mark,
   * and its active mark too unless it is one of the group's cells.
   */
  lemma ClosedGroupFlagsAt(m: Maze, s: seq<Cell>, a: Address, startX: nat, door: nat, b: Address)
    requires |s| == m.CellCount() && InMaze(m, b)
    ensures var r := WalkedRightThenDown(a, m, ClosedGroup(m, s, a, startX, door));
            CellAt(m, r, b).visited == CellAt(m, s, b).visited &&
            (!(b.line == a.line && startX <= b.column < a.column) ==> CellAt(m, r, b).active == CellAt(m, s, b).active)
  {
    var run := GroupRun(a, startX);
    var unmarked := MarkedAll(m, s, run, Active, false);
    var d := MoveColumn(a, door);
    MarkedAllSpec(m, s, run, Active, false, b);
    ActiveAfterCloseAt(m, unmarked, a, d, b);
  }

  /** Carving and the right-then-down walk leave the active mark of a cell of the grid as it was. */
  lemma ActiveAfterCloseAt(m: Maze, t: seq<Cell>, a: Address, d: Address, b: Address)
    requires |t| == m.CellCount() && InMaze(m, b)
    ensures Slot(m, b) < |t|
    ensures WalkedRightThenDown(a, m, Carved(m, t, d, Below(d)))[Slot(m, b)].active == t[Slot(m, b)].active
    ensures WalkedRightThenDown(a, m, Carved(m, t, d, Below(d)))[Slot(m, b)].visited == t[Slot(m, b)].visited
  {
    SlotInRange(m, b);
    var c := Carved(m, t, d, Below(d));
    WalkedKeepsActive(a, m, c, b);
  }

  /** The walk changes only the current marks: active and visited stay. */
  lemma WalkedKeepsActive(a: Address, m: Maze, s: seq<Cell>, b: Address)
    requires |s| == m.CellCount() && InMaze(m, b)
    ensures Slot(m, b) < |s|
    ensures WalkedRightThenDown(a, m, s)[Slot(m, b)].active == s[Slot(m, b)].active
    ensures WalkedRightThenDown(a, m, s)[Slot(m, b)].visited == s[Slot(m, b)].visited
  {
    SlotInRange(m, b);
    var s1 := Marked(m, s, a, Current, false);
    var n := NextRightThenDown(a, m);
    MarkedCellAt(m, s, a, Current, false, b);
    MarkedCellAt(m, s1, n, Current, true, b);
  }

  /** Setting the current mark on any cell leaves the active and visited marks of `b` as they were. */
  lemma MarkedCellAt(m: Maze, s: seq<Cell>, a: Address, f: Flag, v: bool, b: Address)
    requires |s| == m.CellCount() && InMaze(m, b) && f != Active
    ensures Slot(m, b) < |s|
    ensures Marked(m, s, a, f, v)[Slot(m, b)].active == s[Slot(m, b)].active
    ensures f != Visited ==> Marked(m, s, a, f, v)[Slot(m, b)].visited == s[Slot(m, b)].visited
  {
    SlotInRange(m, b);
    if b == a {
      MarkedHere(m, s, a, f, v);
    } else {
      MarkedElsewhere(m, s, a, f, v, b);
    }
  }

  /**
   * Extending a group marks the location active, opens only the gate to its
   * right, and keeps the group's first column.
   */
  lemma TickContinuesGroup(m: Maze, st: State, s: seq<Cell>, buildGroup: bool, door: nat)
    requires |s| == m.CellCount() && InMaze(m, st.location) && !Closes(m, st.location, buildGroup)
    ensures var r := Tick(m, st, s, buildGroup, door);
            var a := st.location;
            SameGates(r.cells, Carved(m, s, a, RightOf(a))) &&
            InMaze(m, RightOf(a)) && Open(m, r.cells, a, RightOf(a)) &&
            r.state.startX == st.startX
    ensures var r := Tick(m, st, s, buildGroup, door);
            Slot(m, st.location) < |s| && r.cells[Slot(m, st.location)].active
  {
    var a := st.location;
    var marked := Marked(m, s, a, Active, true);
    var s1 := ContinuedGroup(m, s, a);
    var r := Tick(m, st, s, buildGroup, door);
    MarkedKeepsGates(m, s, a, Active, true);
    CarvedSameGates(m, s, marked, a, RightOf(a));
    WalkedKeepsGates(a, m, s1);
    OpenSameGates(m, Carved(m, s, a, RightOf(a)), r.cells, a, RightOf(a));
    MarkedHere(m, s, a, Active, true);
    WalkedKeepsActive(a, m, s1, a);
  }

  /** On the bottom row a group always extends, except on the last column where it closes. */
  lemma BottomRowExtends(m: Maze, a: Address, buildGroup: bool)
    requires InMaze(m, a) && IsOnDownBorder(a, m)
    ensures Closes(m, a, buildGroup) <==> IsOnRightBorder(a, m)
  {
  }

  /**
   * From the first crumb the step on the last cell of the grid already
   * reports `Done`; the steps on the other cells report `Continuing`.
   */
  lemma TickCount(m: Maze, st: State, s: seq<Cell>, buildGroup: bool, door: nat, k: nat)
    requires |s| == m.CellCount() && m.columns > 0 && k < m.CellCount()
    requires st.location == RightThenDownFrom(m, k)
    ensures var r := Tick(m, st, s, buildGroup, door);
            r.state.location == RightThenDownFrom(m, k + 1) &&
            (r.status == Done <==> k + 1 == m.CellCount())
  {
    RightThenDownCoversGrid(m, k);
    RightThenDownCoversGrid(m, k + 1);
  }
}
