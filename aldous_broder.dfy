/**
 * The step-by-step Aldous-Broder random walk of src/algo/carving.rs: each
 * step moves to a random neighbour, carving the gate when that neighbour was
 * never visited. The random neighbour of a step is `choice`, an index into
 * the neighbour list.
 */
module AldousBroder {
  import opened Grids
  import opened FlagMaze
  import opened AlgoBase
  import opened Carving

  datatype State = State(location: Address, walk: seq<Address>, restartWalk: bool)

  /** The cells after `walk_to(b)` from `a`. */
  function WalkedTo(m: Maze, s: seq<Cell>, a: Address, b: Address): (r: seq<Cell>)
    requires |s| == m.CellCount()
    ensures |r| == |s|
  {
    var s1 := Marked(m, s, a, Current, false);
    var s2 := Marked(m, s1, a, Visited, true);
    var s3 := Marked(m, s2, a, Active, true);
    Marked(m, s3, b, Current, true)
  }

  /** The cells after `clear_all` at location `a` with walk `walk`. */
  function ClearedAll(m: Maze, s: seq<Cell>, a: Address, walk: seq<Address>): (r: seq<Cell>)
    requires |s| == m.CellCount()
    ensures |r| == |s|
  {
    VisitsCleared(MarkedAll(m, Marked(m, s, a, Current, false), walk, Active, false))
  }

  /** The walk and cells once a pending restart is done. */
  function RestartedWalk(st: State): seq<Address> {
    if st.restartWalk then [] else st.walk
  }

  function RestartedCells(m: Maze, st: State, s: seq<Cell>): (r: seq<Cell>)
    requires |s| == m.CellCount()
    ensures |r| == |s|
  {
    if st.restartWalk then MarkedAll(m, s, st.walk, Active, false) else s
  }

  /** One `execute_one`. */
  function Tick(m: Maze, st: State, s: seq<Cell>, choice: nat): (r: Step<State>)
    requires |s| == m.CellCount() && InMaze(m, st.location) && ChoiceFits(m, st.location, choice)
    ensures |r.cells| == |s|
  {
    var a := st.location;
    var walk0 := RestartedWalk(st);
    var s0 := RestartedCells(m, st, s);
    match PickNext(m, a, choice)
    case Err(msg) => Step(State(a, walk0, false), s0, Aborted(msg))
    case Ok(next) =>
      var mustCarve := !IsVisited(m, s0, next);
      var s1 := if mustCarve then Carved(m, s0, a, next) else s0;
      var restart := !mustCarve || next in walk0;
      var s2 := WalkedTo(m, s1, a, next);
      var walk1 := walk0 + [a];
      if AllVisited(s2) then Step(State(next, [], restart), ClearedAll(m, s2, next, walk1), Done)
      else Step(State(next, walk1, restart), s2, Continuing)
  }

  class AldousBroder {
    var location: Address
    var walk: seq<Address>
    var restartWalk: bool

    /** `AldousBroder::new`: on the first crumb, with a restart pending. */
    constructor (m: Maze)
      requires m.CellCount() > 0
      ensures InMaze(m, location) && location == Address(0, 0) && walk == [] && restartWalk
    {
      var first := FirstCrumb(m);
      location := first;
      walk := [];
      restartWalk := true;
    }

    method ClearWalk(m: Maze)
      requires m.Valid()
      modifies this, m.cells
      ensures m.cells[..] == MarkedAll(m, old(m.cells[..]), old(walk), Active, false)
      ensures walk == [] && location == old(location) && restartWalk == old(restartWalk)
    {
      MarkEach(walk, m, Active, false);
      walk := [];
    }

    method ClearAll(m: Maze)
      requires m.Valid()
      modifies this, m.cells
      ensures m.cells[..] == ClearedAll(m, old(m.cells[..]), location, old(walk))
      ensures walk == [] && location == old(location) && restartWalk == old(restartWalk)
    {
      Mark(location, m, Current, false);
      ClearWalk(m);
      ClearVisit(m);
    }

    method WalkTo(addr: Address, m: Maze)
      requires m.Valid()
      modifies this, m.cells
      ensures m.cells[..] == WalkedTo(m, old(m.cells[..]), old(location), addr)
      ensures walk == old(walk) + [old(location)] && location == addr && restartWalk == old(restartWalk)
    {
      Mark(location, m, Current, false);
      Mark(location, m, Visited, true);
      Mark(location, m, Active, true);
      walk := walk + [location];
      Mark(addr, m, Current, true);
      location := addr;
    }

    method ExecuteOne(m: Maze, choice: nat) returns (status: StepStatus)
      requires m.Valid() && InMaze(m, location) && ChoiceFits(m, location, choice)
      modifies this, m.cells
      ensures Step(State(location, walk, restartWalk), m.cells[..], status) ==
              Tick(m, old(State(location, walk, restartWalk)), old(m.cells[..]), choice)
    {
      ghost var st := State(location, walk, restartWalk);
      ghost var s := m.cells[..];
      if restartWalk {
        ClearWalk(m);
        restartWalk := false;
      }
      assert walk == RestartedWalk(st) && m.cells[..] == RestartedCells(m, st, s);
      var picked := PickNext(m, location, choice);
      if picked.Err? {
        return Aborted(picked.error);
      }
      var nextAddr := picked.value;
      ghost var s0 := m.cells[..];
      var mustCarve := !IsVisited(m, m.cells[..], nextAddr);
      if mustCarve {
        CarveTo(location, nextAddr, m);
      }
      ghost var s1 := m.cells[..];
      assert s1 == if mustCarve then Carved(m, s0, st.location, nextAddr) else s0;
      restartWalk := !mustCarve || nextAddr in walk;
      WalkTo(nextAddr, m);
      assert m.cells[..] == WalkedTo(m, s1, st.location, nextAddr);
      if AllVisited(m.cells[..]) {
        ClearAll(m);
        status := Done;
      } else {
        status := Continuing;
      }
    }
  }

  /** Walking from `a` to `next` pushes `a` onto the marked walk. */
  lemma WalkedToMarks(m: Maze, s: seq<Cell>, walk: seq<Address>, a: Address, next: Address)
    requires WalkMarked(m, s, walk) && InMaze(m, a) && InMaze(m, next)
    ensures WalkMarked(m, WalkedTo(m, s, a, next), walk + [a])
  {
    var t1 := Marked(m, s, a, Current, false);
    MarkedWalkMarks(m, s, walk, a, Current, false);
    var t2 := Marked(m, t1, a, Visited, true);
    MarkedWalkMarks(m, t1, walk, a, Visited, true);
    var t3 := Marked(m, t2, a, Active, true);
    PushWalkMarks(m, t2, walk, a);
    MarkedWalkMarks(m, t3, walk + [a], next, Current, true);
  }

  /** Clearing everything once the walk is marked leaves no mark. */
  lemma ClearedAllMarks(m: Maze, s: seq<Cell>, walk: seq<Address>, a: Address)
    requires WalkMarked(m, s, walk) && InMaze(m, a)
    ensures WalkMarked(m, ClearedAll(m, s, a, walk), [])
  {
    var u := Marked(m, s, a, Current, false);
    MarkedWalkMarks(m, s, walk, a, Current, false);
    ClearWalkMarks(m, u, walk);
    var cleared := MarkedAll(m, u, walk, Active, false);
    forall b | InMaze(m, b)
      ensures !CellAt(m, VisitsCleared(cleared), b).active
    {
      SlotInRange(m, b);
    }
  }

  /** A step keeps the location in the grid and the active marks equal to the walk. */
  lemma TickKeepsWalkMarked(m: Maze, st: State, s: seq<Cell>, choice: nat)
    requires InMaze(m, st.location) && WalkMarked(m, s, st.walk) && ChoiceFits(m, st.location, choice)
    ensures var r := Tick(m, st, s, choice);
            InMaze(m, r.state.location) && WalkMarked(m, r.cells, r.state.walk)
  {
    var a := st.location;
    var walk0 := RestartedWalk(st);
    var s0 := RestartedCells(m, st, s);
    if st.restartWalk {
      ClearWalkMarks(m, s, st.walk);
    }
    assert WalkMarked(m, s0, walk0);
    var picked := PickNext(m, a, choice);
    if picked.Ok? {
      var next := picked.value;
      var mustCarve := !IsVisited(m, s0, next);
      var s1 := if mustCarve then Carved(m, s0, a, next) else s0;
      SameFlagsWalkMarks(m, s0, s1, walk0);
      WalkedToMarks(m, s1, walk0, a, next);
      var s2 := WalkedTo(m, s1, a, next);
      if AllVisited(s2) {
        ClearedAllMarks(m, s2, walk0 + [a], next);
      }
    }
  }

  /** A step aborts exactly on a cell without neighbours, a 1 x 1 grid, and then opens no gate. */
  lemma TickAbortsOnlyAlone(m: Maze, st: State, s: seq<Cell>, choice: nat)
    requires |s| == m.CellCount() && InMaze(m, st.location) && ChoiceFits(m, st.location, choice)
    ensures var r := Tick(m, st, s, choice);
            r.status.Aborted? <==> m.columns == 1 && m.lines == 1
    ensures var r := Tick(m, st, s, choice);
            r.status.Aborted? ==> r.status.reason == NoNeighbours && SameGates(s, r.cells)
  {
    NeighboursEmptyIffSingle(m, st.location);
    if st.restartWalk {
      MarkedAllKeepsGates(m, s, st.walk, Active, false);
    }
  }

  /** Visit flags before the step are those after the pending restart. */
  lemma RestartKeepsVisits(m: Maze, st: State, s: seq<Cell>, b: Address)
    requires |s| == m.CellCount() && InMaze(m, b)
    ensures SameGates(s, RestartedCells(m, st, s))
    ensures CellAt(m, RestartedCells(m, st, s), b).visited == CellAt(m, s, b).visited
  {
    if st.restartWalk {
      MarkedAllKeepsGates(m, s, st.walk, Active, false);
      MarkedAllAt(m, s, st.walk, Active, false, b);
    }
  }

  /** The walk-to moves no gate. */
  lemma WalkedToKeepsGates(m: Maze, s: seq<Cell>, a: Address, b: Address)
    requires |s| == m.CellCount()
    ensures SameGates(s, WalkedTo(m, s, a, b))
  {
    var s1 := Marked(m, s, a, Current, false);
    var s2 := Marked(m, s1, a, Visited, true);
    var s3 := Marked(m, s2, a, Active, true);
    MarkedKeepsGates(m, s, a, Current, false);
    MarkedKeepsGates(m, s1, a, Visited, true);
    MarkedKeepsGates(m, s2, a, Active, true);
    MarkedKeepsGates(m, s3, b, Current, true);
  }

  /** Clearing all marks moves no gate. */
  lemma ClearedAllKeepsGates(m: Maze, s: seq<Cell>, a: Address, walk: seq<Address>)
    requires |s| == m.CellCount()
    ensures SameGates(s, ClearedAll(m, s, a, walk))
  {
    var u := Marked(m, s, a, Current, false);
    MarkedKeepsGates(m, s, a, Current, false);
    MarkedAllKeepsGates(m, u, walk, Active, false);
  }

  /** The cells after a step that does not abort, phase by phase. */
  lemma TickCells(m: Maze, st: State, s: seq<Cell>, choice: nat)
    requires |s| == m.CellCount() && InMaze(m, st.location) && ChoiceFits(m, st.location, choice)
    requires |Neighbours(m, st.location)| > 0
    ensures var next := Neighbours(m, st.location)[choice];
            var s0 := RestartedCells(m, st, s);
            var s1 := if IsVisited(m, s, next) then s0 else Carved(m, s0, st.location, next);
            var s2 := WalkedTo(m, s1, st.location, next);
            InMaze(m, next) &&
            Tick(m, st, s, choice).cells ==
              if AllVisited(s2) then ClearedAll(m, s2, next, RestartedWalk(st) + [st.location]) else s2
  {
    var next := Neighbours(m, st.location)[choice];
    assert next in Neighbours(m, st.location);
    RestartKeepsVisits(m, st, s, next);
    SlotInRange(m, next);
  }

  /** The gates after a step that does not abort: those of the carve, if any, toward `next`. */
  lemma TickGates(m: Maze, st: State, s: seq<Cell>, choice: nat)
    requires |s| == m.CellCount() && InMaze(m, st.location) && ChoiceFits(m, st.location, choice)
    requires |Neighbours(m, st.location)| > 0
    ensures var next := Neighbours(m, st.location)[choice];
            InMaze(m, next) &&
            SameGates(Tick(m, st, s, choice).cells,
                      if IsVisited(m, s, next) then s else Carved(m, s, st.location, next))
  {
    var a := st.location;
    var next := Neighbours(m, a)[choice];
    TickCells(m, st, s, choice);
    var s0 := RestartedCells(m, st, s);
    RestartKeepsVisits(m, st, s, next);
    var target := if IsVisited(m, s, next) then s else Carved(m, s, a, next);
    var s1 := if IsVisited(m, s, next) then s0 else Carved(m, s0, a, next);
    CarvedSameGates(m, s0, s, a, next);
    assert SameGates(s1, target);
    var s2 := WalkedTo(m, s1, a, next);
    WalkedToKeepsGates(m, s1, a, next);
    ClearedAllKeepsGates(m, s2, next, RestartedWalk(st) + [a]);
    var r := Tick(m, st, s, choice).cells;
    assert SameGates(r, s2);
    SameGatesTrans(s2, s1, target);
    SameGatesTrans(r, s2, target);
  }

  /**
   * A step that does not abort moves to the chosen neighbour, opens the gate
   * toward it exactly when that neighbour was unvisited and no other gate, and
   * restarts the next walk when it did not carve or came back onto the walk.
   */
  lemma TickCarvesIffUnvisited(m: Maze, st: State, s: seq<Cell>, choice: nat)
    requires |s| == m.CellCount() && InMaze(m, st.location) && ChoiceFits(m, st.location, choice)
    requires |Neighbours(m, st.location)| > 0
    ensures var r := Tick(m, st, s, choice);
            var next := Neighbours(m, st.location)[choice];
            r.state.location == next && InMaze(m, next) && Adjacent(st.location, next) &&
            (IsVisited(m, s, next) ==> SameGates(s, r.cells)) &&
            (!IsVisited(m, s, next) ==> SameGates(Carved(m, s, st.location, next), r.cells) &&
                                        Open(m, r.cells, st.location, next)) &&
            r.state.restartWalk == (IsVisited(m, s, next) || next in RestartedWalk(st))
  {
    var a := st.location;
    var next := Neighbours(m, a)[choice];
    assert next in Neighbours(m, a);
    var r := Tick(m, st, s, choice);
    TickGates(m, st, s, choice);
    RestartKeepsVisits(m, st, s, next);
    SlotInRange(m, next);
    if !IsVisited(m, s, next) {
      OpenSameGates(m, Carved(m, s, a, next), r.cells, a, next);
    }
  }

  /**
   * A step that continues leaves the previous location visited and on the
   * walk; a step reports `Done` exactly when the move visits the last
   * unvisited cell, and then clears every visit flag and the walk.
   */
  lemma TickWalksOrEnds(m: Maze, st: State, s: seq<Cell>, choice: nat)
    requires |s| == m.CellCount() && InMaze(m, st.location) && ChoiceFits(m, st.location, choice)
    requires |Neighbours(m, st.location)| > 0
    ensures var r := Tick(m, st, s, choice);
            var next := Neighbours(m, st.location)[choice];
            var s2 := WalkedTo(m, if !IsVisited(m, s, next) then Carved(m, RestartedCells(m, st, s), st.location, next)
                                  else RestartedCells(m, st, s), st.location, next);
            (r.status == Done <==> AllVisited(s2)) &&
            (r.status == Done ==> r.state.walk == [] && !AnyVisited(r.cells)) &&
            (r.status == Continuing ==> r.state.walk == RestartedWalk(st) + [st.location] &&
                                        CellAt(m, r.cells, st.location).visited &&
                                        CellAt(m, r.cells, next).current)
  {
    var a := st.location;
    var next := Neighbours(m, a)[choice];
    assert next in Neighbours(m, a);
    var s0 := RestartedCells(m, st, s);
    RestartKeepsVisits(m, st, s, next);
    SlotInRange(m, next);
    var mustCarve := !IsVisited(m, s0, next);
    var s1 := if mustCarve then Carved(m, s0, a, next) else s0;
    var t1 := Marked(m, s1, a, Current, false);
    var t2 := Marked(m, t1, a, Visited, true);
    var t3 := Marked(m, t2, a, Active, true);
    MarkedAt(m, t1, a, Visited, true, a);
    MarkedAt(m, t2, a, Active, true, a);
    MarkedAt(m, t3, next, Current, true, a);
    MarkedAt(m, t3, next, Current, true, next);
  }
}
