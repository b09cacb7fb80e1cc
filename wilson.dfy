/**
 * The step-by-step Wilson loop-erased random walk of src/algo/carving.rs.
 * From a random unvisited cell the walk wanders over unvisited cells, erasing
 * any loop it closes; once it steps onto a visited cell the whole walk is
 * carved into the maze and marked visited. The random neighbour of a step is
 * `choice` and the draws of `anywhere_rand_match` are `picks`.
 */
module Wilson {
  import opened Wrappers
  import opened Grids
  import opened FlagMaze
  import opened AlgoBase
  import opened Carving

  datatype State = State(location: Address, started: bool, walk: seq<Address>)

  /** `picks` can be the draws of one `anywhere_rand_match` on the maze. */
  predicate PicksFit(m: Maze, picks: seq<nat>) {
    |picks| > m.CellCount() && forall j :: 0 <= j < |picks| ==> picks[j] < m.CellCount()
  }

  /** The filter of `pick_rand_unvisited`. */
  function UnvisitedCell(x: nat, y: nat, c: Cell): bool {
    !c.visited
  }

  /**
   * `pick_rand_unvisited` on cells `s`: an unvisited cell of the grid, or the
   * error when none of the draws the search may use hits an unvisited cell.
   */
  function PickRandUnvisited(m: Maze, s: seq<Cell>, picks: seq<nat>): (r: Result<Address, string>)
    requires |s| == m.CellCount() && PicksFit(m, picks)
    ensures r.Ok? ==> InMaze(m, r.value) && !CellAt(m, s, r.value).visited
    ensures r.Err? <==> forall j :: 0 <= j < |s| ==> !m.Matches(s, UnvisitedCell, picks[j])
    ensures r.Err? ==> r.error == NoMoreUnvisited
  {
    m.RandMatchSpec(s, UnvisitedCell, picks);
    match m.RandMatch(s, UnvisitedCell, picks)
    case None => Err(NoMoreUnvisited)
    case Some(a) => Ok(a)
  }

  /** `relocate_rand`: the current mark moves to a random unvisited cell. */
  function Relocated(m: Maze, st: State, s: seq<Cell>, picks: seq<nat>): (r: Step<State>)
    requires |s| == m.CellCount() && PicksFit(m, picks)
    ensures |r.cells| == |s|
  {
    var s0 := Marked(m, s, st.location, Current, false);
    match PickRandUnvisited(m, s0, picks)
    case Err(msg) => Step(st, s0, Aborted(msg))
    case Ok(a) => Step(st.(location := a), Marked(m, s0, a, Current, true), Continuing)
  }

  /** The cells after `walk_to(b)` from `a`. */
  function WalkedTo(m: Maze, s: seq<Cell>, a: Address, b: Address): (r: seq<Cell>)
    requires |s| == m.CellCount()
    ensures |r| == |s|
  {
    Marked(m, Marked(m, Marked(m, s, a, Current, false), a, Active, true), b, Current, true)
  }

  /** One window of `commit_walk`. */
  function CommittedPair(m: Maze, s: seq<Cell>, src: Address, dst: Address): (r: seq<Cell>)
    requires |s| == m.CellCount()
    ensures |r| == |s|
  {
    Carved(m, Marked(m, Marked(m, s, src, Active, false), src, Visited, true), src, dst)
  }

  /** The cells after the loop of `commit_walk` over the windows of `path`. */
  function Committed(m: Maze, s: seq<Cell>, path: seq<Address>): (r: seq<Cell>)
    requires |s| == m.CellCount()
    ensures |r| == |s|
    decreases |path|
  {
    if |path| < 2 then s
    else CommittedPair(m, Committed(m, s, path[..|path| - 1]), path[|path| - 2], path[|path| - 1])
  }

  /** Committing one more window of `path`. */
  lemma CommittedSnoc(m: Maze, s: seq<Cell>, path: seq<Address>, i: nat)
    requires |s| == m.CellCount() && 1 <= i < |path|
    ensures Committed(m, s, path[..i + 1]) == CommittedPair(m, Committed(m, s, path[..i]), path[i - 1], path[i])
  {
    var p := path[..i + 1];
    assert p[..|p| - 1] == path[..i];
    assert p[|p| - 2] == path[i - 1] && p[|p| - 1] == path[i];
  }

  /** The length of the `take_while(x != addr)` prefix of `walk`. */
  function FirstIndex(walk: seq<Address>, addr: Address): (k: nat)
    ensures k <= |walk| && addr !in walk[..k]
    ensures k < |walk| ==> walk[k] == addr
    ensures addr in walk <==> k < |walk|
  {
    if |walk| == 0 then 0
    else if walk[0] == addr then 0
    else
      var k := 1 + FirstIndex(walk[1..], addr);
      assert walk[..k] == [walk[0]] + walk[1..][..k - 1];
      k
  }

  /** What the iterator still holds after `take_while` stopped on `addr` or ran out. */
  function AfterFirst(walk: seq<Address>, addr: Address): seq<Address> {
    var k := FirstIndex(walk, addr);
    if k < |walk| then walk[k + 1..] else []
  }

  /** The cells after `rewind_to(addr)`. */
  function Rewound(m: Maze, s: seq<Cell>, st: State, addr: Address): (r: seq<Cell>)
    requires |s| == m.CellCount()
    ensures |r| == |s|
  {
    var s1 := MarkedAll(m, Marked(m, s, addr, Active, false), AfterFirst(st.walk, addr), Active, false);
    Marked(m, Marked(m, s1, st.location, Current, false), addr, Current, true)
  }

  /** The cells after `clear_all` at `a`. */
  function ClearedAll(m: Maze, s: seq<Cell>, a: Address): (r: seq<Cell>)
    requires |s| == m.CellCount()
    ensures |r| == |s|
  {
    VisitsCleared(Marked(m, s, a, Current, false))
  }

  /** One `execute_one`. */
  function Tick(m: Maze, st: State, s: seq<Cell>, choice: nat, picks: seq<nat>): (r: Step<State>)
    requires |s| == m.CellCount() && InMaze(m, st.location) && ChoiceFits(m, st.location, choice)
    requires PicksFit(m, picks)
    ensures |r.cells| == |s|
  {
    var a := st.location;
    if !st.started then
      Relocated(m, st.(started := true), Marked(m, s, a, Visited, true), picks)
    else
      match PickNext(m, a, choice)
      case Err(msg) => Step(st, s, Aborted(msg))
      case Ok(next) =>
        if IsVisited(m, s, next) then
          var s1 := Committed(m, s, st.walk + [a, next]);
          if AllVisited(s1) then Step(st.(walk := []), ClearedAll(m, s1, a), Done)
          else Relocated(m, st.(walk := []), s1, picks)
        else if next in st.walk then
          Step(State(next, true, st.walk[..FirstIndex(st.walk, next)]), Rewound(m, s, st, next), Continuing)
        else
          Step(State(next, true, st.walk + [a]), WalkedTo(m, s, a, next), Continuing)
  }

  class Wilson {
    var location: Address
    var started: bool
    var walk: seq<Address>

    /** `Wilson::new`: on the first crumb, not started. */
    constructor (m: Maze)
      requires m.CellCount() > 0
      ensures InMaze(m, location) && location == Address(0, 0) && !started && walk == []
    {
      var first := FirstCrumb(m);
      location := first;
      started := false;
      walk := [];
    }

    method ClearAll(m: Maze)
      requires m.Valid()
      modifies m.cells
      ensures m.cells[..] == ClearedAll(m, old(m.cells[..]), location)
    {
      Mark(location, m, Current, false);
      ClearVisit(m);
    }

    method WalkTo(addr: Address, m: Maze)
      requires m.Valid()
      modifies this, m.cells
      ensures m.cells[..] == WalkedTo(m, old(m.cells[..]), old(location), addr)
      ensures walk == old(walk) + [old(location)] && location == addr && started == old(started)
    {
      Mark(location, m, Current, false);
      Mark(location, m, Active, true);
      walk := walk + [location];
      Mark(addr, m, Current, true);
      location := addr;
    }

    method CommitWalk(addr: Address, m: Maze)
      requires m.Valid()
      modifies this, m.cells
      ensures m.cells[..] == Committed(m, old(m.cells[..]), old(walk) + [old(location), addr])
      ensures walk == [] && location == old(location) && started == old(started)
    {
      ghost var s0 := m.cells[..];
      walk := walk + [location];
      walk := walk + [addr];
      var path := walk;
      assert path == old(walk) + [location, addr];
      for i := 1 to |path|
        invariant m.cells[..] == Committed(m, s0, path[..i])
        modifies m.cells
      {
        var source, dest := path[i - 1], path[i];
        CommittedSnoc(m, s0, path, i);
        Mark(source, m, Active, false);
        Mark(source, m, Visited, true);
        CarveTo(source, dest, m);
      }
      assert path[..|path|] == path;
      walk := [];
    }

    method PickRandUnvisitedIn(m: Maze, picks: seq<nat>) returns (r: Result<Address, string>)
      requires m.Valid() && m.CellCount() > 0 && PicksFit(m, picks)
      ensures r == PickRandUnvisited(m, m.cells[..], picks)
    {
      var found := m.AnywhereRandMatch(UnvisitedCell, picks);
      match found
      case None => r := Err(NoMoreUnvisited);
      case Some(a) => r := Ok(a);
    }

    method RewindTo(addr: Address, m: Maze)
      requires m.Valid()
      modifies this, m.cells
      ensures m.cells[..] == Rewound(m, old(m.cells[..]), old(State(location, started, walk)), addr)
      ensures walk == old(walk)[..FirstIndex(old(walk), addr)] && location == addr && started == old(started)
    {
      var res: seq<Address> := [];
      var i := 0;
      while i < |walk| && walk[i] != addr
        invariant i <= |walk| && res == walk[..i] && addr !in res
      {
        res := res + [walk[i]];
        i := i + 1;
      }
      assert i == FirstIndex(walk, addr);
      Mark(addr, m, Active, false);
      var rest := if i < |walk| then walk[i + 1..] else [];
      MarkEach(rest, m, Active, false);
      walk := res;
      Mark(location, m, Current, false);
      Mark(addr, m, Current, true);
      location := addr;
    }

    method RelocateRand(m: Maze, picks: seq<nat>) returns (status: StepStatus)
      requires m.Valid() && InMaze(m, location) && PicksFit(m, picks)
      modifies this, m.cells
      ensures var r := Relocated(m, old(State(location, started, walk)), old(m.cells[..]), picks);
              State(location, started, walk) == r.state && m.cells[..] == r.cells && status == r.status
    {
      Mark(location, m, Current, false);
      SlotInRange(m, location);
      var picked := PickRandUnvisitedIn(m, picks);
      if picked.Err? {
        return Aborted(picked.error);
      }
      location := picked.value;
      Mark(location, m, Current, true);
      status := Continuing;
    }

    method ExecuteOne(m: Maze, choice: nat, picks: seq<nat>) returns (status: StepStatus)
      requires m.Valid() && InMaze(m, location) && ChoiceFits(m, location, choice) && PicksFit(m, picks)
      modifies this, m.cells
      ensures Step(State(location, started, walk), m.cells[..], status) ==
              Tick(m, old(State(location, started, walk)), old(m.cells[..]), choice, picks)
    {
      ghost var st := State(location, started, walk);
      ghost var s := m.cells[..];
      if !started {
        started := true;
        Mark(location, m, Visited, true);
        status := RelocateRand(m, picks);
        return;
      }
      var picked := PickNext(m, location, choice);
      if picked.Err? {
        return Aborted(picked.error);
      }
      var nextAddr := picked.value;
      var nextIsVisited := IsVisited(m, m.cells[..], nextAddr);
      if nextIsVisited {
        CommitWalk(nextAddr, m);
        if AllVisited(m.cells[..]) {
          ClearAll(m);
          status := Done;
        } else {
          status := RelocateRand(m, picks);
        }
      } else {
        var isInCurrentWalk := nextAddr in walk;
        if isInCurrentWalk {
          RewindTo(nextAddr, m);
        } else {
          WalkTo(nextAddr, m);
        }
        status := Continuing;
      }
    }
  }

  /** Every address of `path` lies in the grid. */
  predicate AllInMaze(m: Maze, path: seq<Address>) {
    forall k :: 0 <= k < |path| ==> InMaze(m, path[k])
  }

  /** Consecutive addresses of `path` are neighbours. */
  predicate Linked(path: seq<Address>) {
    forall k :: 0 <= k < |path| - 1 ==> Adjacent(path[k], path[k + 1])
  }

  predicate NoDup(walk: seq<Address>) {
    forall i, j :: 0 <= i < j < |walk| ==> walk[i] != walk[j]
  }

  /** The sources of the windows of `path`: all but its last address. */
  function Sources(path: seq<Address>): seq<Address> {
    if |path| < 2 then [] else path[..|path| - 1]
  }

  /** One window unmarks and visits its source and carves toward its destination. */
  lemma CommittedPairAt(m: Maze, s: seq<Cell>, src: Address, dst: Address, b: Address)
    requires |s| == m.CellCount() && InMaze(m, b)
    ensures var c := CellAt(m, CommittedPair(m, s, src, dst), b);
            c.active == (b != src && CellAt(m, s, b).active) &&
            c.visited == (b == src || CellAt(m, s, b).visited) &&
            c.current == CellAt(m, s, b).current
    ensures GatesGrow(s, CommittedPair(m, s, src, dst))
  {
    var s1 := Marked(m, s, src, Active, false);
    var s2 := Marked(m, s1, src, Visited, true);
    MarkedAt(m, s, src, Active, false, b);
    MarkedAt(m, s1, src, Visited, true, b);
    SameFlagsAt(m, s2, Carved(m, s2, src, dst), b);
    MarkedKeepsGates(m, s, src, Active, false);
    MarkedKeepsGates(m, s1, src, Visited, true);
  }

  /**
   * Committing `path` unmarks and visits every window source and leaves the
   * flags of every other cell as they were; no gate closes.
   */
  lemma {:induction false} CommittedAt(m: Maze, s: seq<Cell>, path: seq<Address>, b: Address)
    requires |s| == m.CellCount() && InMaze(m, b)
    ensures var c := CellAt(m, Committed(m, s, path), b);
            c.active == (b !in Sources(path) && CellAt(m, s, b).active) &&
            c.visited == (b in Sources(path) || CellAt(m, s, b).visited) &&
            c.current == CellAt(m, s, b).current
    ensures GatesGrow(s, Committed(m, s, path))
    decreases |path|
  {
    if |path| >= 2 {
      var init := path[..|path| - 1];
      CommittedAt(m, s, init, b);
      CommittedPairAt(m, Committed(m, s, init), path[|path| - 2], path[|path| - 1], b);
      assert Sources(path) == Sources(init) + [path[|path| - 2]] by {
        if |path| == 2 {
          assert Sources(init) == [];
        }
      }
    }
  }

  /** Committing a path of neighbouring cells of the grid opens the gate of every window. */
  lemma {:induction false} CommitOpensPath(m: Maze, s: seq<Cell>, path: seq<Address>)
    requires |s| == m.CellCount() && AllInMaze(m, path) && Linked(path)
    ensures forall k :: 0 <= k < |path| - 1 ==> Open(m, Committed(m, s, path), path[k], path[k + 1])
    decreases |path|
  {
    if |path| >= 2 {
      var n := |path|;
      var init := path[..n - 1];
      var c := Committed(m, s, init);
      CommitOpensPath(m, s, init);
      var r := Committed(m, s, path);
      var s2 := Marked(m, Marked(m, c, path[n - 2], Active, false), path[n - 2], Visited, true);
      assert r == Carved(m, s2, path[n - 2], path[n - 1]);
      assert Adjacent(path[n - 2], path[n - 1]);
      CommittedPairAt(m, c, path[n - 2], path[n - 1], path[0]);
      forall k | 0 <= k < n - 1
        ensures Open(m, r, path[k], path[k + 1])
      {
        if k < n - 2 {
          assert init[k] == path[k] && init[k + 1] == path[k + 1];
          OpenGrows(m, c, r, path[k], path[k + 1]);
        }
      }
    }
  }

  /**
   * The invariant of the walk between steps: the location is in the grid and
   * off the walk, the walk has no repeated cell, each cell of the walk then
   * the location is a neighbour of the one before, the active marks are
   * exactly the walk, and the walk is empty before the first step.
   */
  ghost predicate Valid(m: Maze, st: State, s: seq<Cell>) {
    |s| == m.CellCount() && InMaze(m, st.location) &&
    (!st.started ==> st.walk == []) &&
    NoDup(st.walk) && st.location !in st.walk &&
    AllInMaze(m, st.walk + [st.location]) && Linked(st.walk + [st.location]) &&
    WalkMarked(m, s, st.walk)
  }

  /** Relocating with an empty walk keeps the invariant. */
  lemma RelocatedKeepsValid(m: Maze, st: State, s: seq<Cell>, picks: seq<nat>)
    requires Valid(m, st, s) && st.walk == [] && PicksFit(m, picks)
    ensures Valid(m, Relocated(m, st, s, picks).state, Relocated(m, st, s, picks).cells)
  {
    var s0 := Marked(m, s, st.location, Current, false);
    MarkedWalkMarks(m, s, [], st.location, Current, false);
    SlotInRange(m, st.location);
    m.RandMatchSpec(s0, UnvisitedCell, picks);
    match m.RandMatch(s0, UnvisitedCell, picks)
    case None =>
    case Some(a) =>
      MarkedWalkMarks(m, s0, [], a, Current, true);
      assert [] + [a] == [a];
  }

  /** Committing the walk and the step onto a visited cell leaves no active mark. */
  lemma CommitClearsMarks(m: Maze, st: State, s: seq<Cell>, next: Address)
    requires Valid(m, st, s)
    ensures WalkMarked(m, Committed(m, s, st.walk + [st.location, next]), [])
  {
    var path := st.walk + [st.location, next];
    assert Sources(path) == st.walk + [st.location];
    forall b | InMaze(m, b)
      ensures !CellAt(m, Committed(m, s, path), b).active
    {
      CommittedAt(m, s, path, b);
    }
  }

  /** After the rewind the active marks are exactly the walk up to the first occurrence of `next`. */
  lemma RewoundMarks(m: Maze, st: State, s: seq<Cell>, next: Address)
    requires WalkMarked(m, s, st.walk) && NoDup(st.walk) && next in st.walk
    ensures WalkMarked(m, Rewound(m, s, st, next), st.walk[..FirstIndex(st.walk, next)])
  {
    var k := FirstIndex(st.walk, next);
    var w := st.walk[..k];
    var rest := AfterFirst(st.walk, next);
    assert rest == st.walk[k + 1..];
    var s0 := Marked(m, s, next, Active, false);
    var s1 := MarkedAll(m, s0, rest, Active, false);
    forall b | InMaze(m, b)
      ensures CellAt(m, s1, b).active <==> b in w
    {
      MarkedAllAt(m, s0, rest, Active, false, b);
      MarkedAt(m, s, next, Active, false, b);
      RewindSplit(st.walk, k, b);
    }
    var s2 := Marked(m, s1, st.location, Current, false);
    MarkedWalkMarks(m, s1, w, st.location, Current, false);
    MarkedWalkMarks(m, s2, w, next, Current, true);
  }

  /** In a walk without repeats, an address is before position `k`, at it, after it, or absent. */
  lemma RewindSplit(walk: seq<Address>, k: nat, b: Address)
    requires NoDup(walk) && k < |walk|
    ensures b in walk[..k] <==> b in walk && b != walk[k] && b !in walk[k + 1..]
  {
    if b in walk[..k] {
      var i :| 0 <= i < k && walk[..k][i] == b;
      assert walk[i] == b;
    } else if b in walk && b != walk[k] {
      var i :| 0 <= i < |walk| && walk[i] == b;
      assert walk[k + 1..][i - k - 1] == b;
    }
  }

  /** The rewind to the first occurrence of `next` keeps the invariant. */
  lemma RewoundKeepsValid(m: Maze, st: State, s: seq<Cell>, next: Address)
    requires Valid(m, st, s) && next in st.walk
    ensures Valid(m, State(next, true, st.walk[..FirstIndex(st.walk, next)]), Rewound(m, s, st, next))
  {
    var k := FirstIndex(st.walk, next);
    RewoundMarks(m, st, s, next);
    var p := st.walk + [st.location];
    assert st.walk[..k] + [next] == p[..k + 1];
  }

  /** Walking on to an unvisited neighbour off the walk keeps the invariant. */
  lemma WalkedToKeepsValid(m: Maze, st: State, s: seq<Cell>, next: Address)
    requires Valid(m, st, s) && st.started && InMaze(m, next) && Adjacent(st.location, next) && next !in st.walk
    ensures Valid(m, State(next, true, st.walk + [st.location]), WalkedTo(m, s, st.location, next))
  {
    var a := st.location;
    var s1 := Marked(m, s, a, Current, false);
    MarkedWalkMarks(m, s, st.walk, a, Current, false);
    PushWalkMarks(m, s1, st.walk, a);
    MarkedWalkMarks(m, Marked(m, s1, a, Active, true), st.walk + [a], next, Current, true);
    var p := st.walk + [a] + [next];
    assert p[..|p| - 1] == st.walk + [a];
  }

  /** Every step keeps the invariant. */
  lemma TickKeepsValid(m: Maze, st: State, s: seq<Cell>, choice: nat, picks: seq<nat>)
    requires Valid(m, st, s) && ChoiceFits(m, st.location, choice) && PicksFit(m, picks)
    ensures var r := Tick(m, st, s, choice, picks);
            Valid(m, r.state, r.cells)
  {
    var a := st.location;
    if !st.started {
      MarkedWalkMarks(m, s, [], a, Visited, true);
      RelocatedKeepsValid(m, st.(started := true), Marked(m, s, a, Visited, true), picks);
    } else if PickNext(m, a, choice).Ok? {
      var next := PickNext(m, a, choice).value;
      if IsVisited(m, s, next) {
        CommitKeepsValid(m, st, s, next, picks);
      } else if next in st.walk {
        RewoundKeepsValid(m, st, s, next);
      } else {
        WalkedToKeepsValid(m, st, s, next);
      }
    }
  }

  /** Committing the walk onto a visited cell keeps the invariant, whether the maze is then done or relocates. */
  lemma CommitKeepsValid(m: Maze, st: State, s: seq<Cell>, next: Address, picks: seq<nat>)
    requires Valid(m, st, s) && PicksFit(m, picks)
    ensures var s1 := Committed(m, s, st.walk + [st.location, next]);
            if AllVisited(s1) then Valid(m, st.(walk := []), ClearedAll(m, s1, st.location))
            else Valid(m, Relocated(m, st.(walk := []), s1, picks).state, Relocated(m, st.(walk := []), s1, picks).cells)
  {
    var a := st.location;
    var s1 := Committed(m, s, st.walk + [a, next]);
    CommitClearsMarks(m, st, s, next);
    if AllVisited(s1) {
      MarkedWalkMarks(m, s1, [], a, Current, false);
      VisitsClearedWalkMarks(m, Marked(m, s1, a, Current, false), []);
    } else {
      RelocatedKeepsValid(m, st.(walk := []), s1, picks);
    }
  }

  /** Relocating and clearing move no gate. */
  lemma RelocatedKeepsGates(m: Maze, st: State, s: seq<Cell>, picks: seq<nat>)
    requires |s| == m.CellCount() && PicksFit(m, picks)
    ensures SameGates(s, Relocated(m, st, s, picks).cells)
  {
    var s0 := Marked(m, s, st.location, Current, false);
    MarkedKeepsGates(m, s, st.location, Current, false);
    match PickRandUnvisited(m, s0, picks)
    case Err(_) =>
    case Ok(a) => MarkedKeepsGates(m, s0, a, Current, true);
  }

  lemma ClearedAllKeepsGates(m: Maze, s: seq<Cell>, a: Address)
    requires |s| == m.CellCount()
    ensures SameGates(s, ClearedAll(m, s, a))
  {
    MarkedKeepsGates(m, s, a, Current, false);
  }

  /**
   * The first step marks the start visited, moves no gate, and either aborts
   * or relocates to an unvisited cell of the grid.
   */
  lemma TickStarts(m: Maze, st: State, s: seq<Cell>, choice: nat, picks: seq<nat>)
    requires |s| == m.CellCount() && InMaze(m, st.location) && !st.started
    requires ChoiceFits(m, st.location, choice) && PicksFit(m, picks)
    ensures var r := Tick(m, st, s, choice, picks);
            r.state.started && r.state.walk == st.walk && SameGates(s, r.cells) &&
            CellAt(m, r.cells, st.location).visited
    ensures var r := Tick(m, st, s, choice, picks);
            (r.status.Aborted? ==> r.status.reason == NoMoreUnvisited && r.state.location == st.location) &&
            (r.status == Continuing ==> InMaze(m, r.state.location) && !CellAt(m, r.cells, r.state.location).visited &&
                                        r.state.location != st.location)
    ensures Tick(m, st, s, choice, picks).status != Done
  {
    var a := st.location;
    var s1 := Marked(m, s, a, Visited, true);
    MarkedKeepsGates(m, s, a, Visited, true);
    MarkedAt(m, s, a, Visited, true, a);
    RelocatedKeepsGates(m, st.(started := true), s1, picks);
    var s0 := Marked(m, s1, a, Current, false);
    MarkedAt(m, s1, a, Current, false, a);
    m.RandMatchSpec(s0, UnvisitedCell, picks);
    match m.RandMatch(s0, UnvisitedCell, picks)
    case None =>
      MarkedAt(m, s1, a, Current, false, a);
    case Some(b) =>
      SlotInRange(m, b);
      MarkedAt(m, s0, b, Current, true, b);
      MarkedAt(m, s0, b, Current, true, a);
  }

  /**
   * A step onto a visited neighbour commits the walk: the gate of every
   * window of the walk, the location and that neighbour is open afterwards,
   * no gate closes, the walk is emptied, and the maze is done exactly when
   * every cell is then visited.
   */
  lemma TickCommits(m: Maze, st: State, s: seq<Cell>, choice: nat, picks: seq<nat>)
    requires Valid(m, st, s) && st.started && ChoiceFits(m, st.location, choice) && PicksFit(m, picks)
    requires PickNext(m, st.location, choice).Ok? && IsVisited(m, s, PickNext(m, st.location, choice).value)
    ensures var r := Tick(m, st, s, choice, picks);
            var path := st.walk + [st.location, PickNext(m, st.location, choice).value];
            AllInMaze(m, path) && GatesGrow(s, r.cells) && r.state.walk == [] &&
            (forall k :: 0 <= k < |path| - 1 ==> Open(m, r.cells, path[k], path[k + 1])) &&
            (r.status == Done <==> AllVisited(Committed(m, s, path)))
  {
    var a := st.location;
    var next := PickNext(m, a, choice).value;
    var path := st.walk + [a, next];
    var c := Committed(m, s, path);
    CommitPath(m, st, s, next);
    var r := Tick(m, st, s, choice, picks);
    if AllVisited(c) {
      ClearedAllKeepsGates(m, c, a);
    } else {
      RelocatedKeepsGates(m, st.(walk := []), c, picks);
    }
    OpenPathSameGates(m, c, r.cells, path);
  }

  /**
   * The walk, the location and a visited neighbour form a path of
   * neighbouring cells of the grid, and committing it opens every window.
   */
  lemma CommitPath(m: Maze, st: State, s: seq<Cell>, next: Address)
    requires Valid(m, st, s) && InMaze(m, next) && Adjacent(st.location, next)
    ensures var path := st.walk + [st.location, next];
            AllInMaze(m, path) && Linked(path) && GatesGrow(s, Committed(m, s, path)) &&
            forall k :: 0 <= k < |path| - 1 ==> Open(m, Committed(m, s, path), path[k], path[k + 1])
  {
    var a := st.location;
    var path := st.walk + [a, next];
    var before := st.walk + [a];
    assert path == before + [next];
    assert forall k :: 0 <= k < |before| ==> path[k] == before[k];
    assert AllInMaze(m, path) && Linked(path);
    CommitOpensPath(m, s, path);
    CommittedAt(m, s, path, a);
  }

  /** Cells with the same gates open the same windows of a path. */
  lemma OpenPathSameGates(m: Maze, s: seq<Cell>, t: seq<Cell>, path: seq<Address>)
    requires |s| == m.CellCount() && AllInMaze(m, path) && SameGates(s, t)
    requires forall k :: 0 <= k < |path| - 1 ==> Open(m, s, path[k], path[k + 1])
    ensures forall k :: 0 <= k < |path| - 1 ==> Open(m, t, path[k], path[k + 1])
  {
    forall k | 0 <= k < |path| - 1
      ensures Open(m, t, path[k], path[k + 1])
    {
      OpenSameGates(m, s, t, path[k], path[k + 1]);
    }
  }

  /**
   * A step onto an unvisited neighbour already on the walk erases the loop:
   * the walk is cut just before that neighbour's first occurrence, the
   * location becomes that neighbour, and no gate moves.
   */
  lemma TickRewinds(m: Maze, st: State, s: seq<Cell>, choice: nat, picks: seq<nat>)
    requires |s| == m.CellCount() && InMaze(m, st.location) && st.started
    requires ChoiceFits(m, st.location, choice) && PicksFit(m, picks)
    requires PickNext(m, st.location, choice).Ok?
    requires var next := PickNext(m, st.location, choice).value;
             !IsVisited(m, s, next) && next in st.walk
    ensures var r := Tick(m, st, s, choice, picks);
            var next := PickNext(m, st.location, choice).value;
            r.status == Continuing && r.state.location == next &&
            (exists k :: 0 <= k < |st.walk| && st.walk[k] == next && next !in st.walk[..k] &&
                         r.state.walk == st.walk[..k]) &&
            SameGates(s, r.cells)
  {
    var next := PickNext(m, st.location, choice).value;
    var k := FirstIndex(st.walk, next);
    var s0 := Marked(m, s, next, Active, false);
    MarkedKeepsGates(m, s, next, Active, false);
    var rest := AfterFirst(st.walk, next);
    var s1 := MarkedAll(m, s0, rest, Active, false);
    MarkedAllKeepsGates(m, s0, rest, Active, false);
    MarkedKeepsGates(m, s1, st.location, Current, false);
    MarkedKeepsGates(m, Marked(m, s1, st.location, Current, false), next, Current, true);
  }

  /**
   * A step onto an unvisited neighbour off the walk extends the walk by the
   * location and moves there; no gate moves.
   */
  lemma TickExtends(m: Maze, st: State, s: seq<Cell>, choice: nat, picks: seq<nat>)
    requires |s| == m.CellCount() && InMaze(m, st.location) && st.started
    requires ChoiceFits(m, st.location, choice) && PicksFit(m, picks)
    requires PickNext(m, st.location, choice).Ok?
    requires var next := PickNext(m, st.location, choice).value;
             !IsVisited(m, s, next) && next !in st.walk
    ensures var r := Tick(m, st, s, choice, picks);
            var next := PickNext(m, st.location, choice).value;
            r.status == Continuing && r.state == State(next, true, st.walk + [st.location]) &&
            SameGates(s, r.cells) && CellAt(m, r.cells, st.location).active
  {
    var a := st.location;
    var next := PickNext(m, a, choice).value;
    var s1 := Marked(m, s, a, Current, false);
    var s2 := Marked(m, s1, a, Active, true);
    MarkedKeepsGates(m, s, a, Current, false);
    MarkedKeepsGates(m, s1, a, Active, true);
    MarkedKeepsGates(m, s2, next, Current, true);
    MarkedAt(m, s1, a, Active, true, a);
    MarkedAt(m, s2, next, Current, true, a);
  }

  /** A started step aborts exactly on a single-cell grid, and then changes nothing. */
  lemma TickAbortsOnlyAlone(m: Maze, st: State, s: seq<Cell>, choice: nat, picks: seq<nat>)
    requires |s| == m.CellCount() && InMaze(m, st.location) && st.started
    requires ChoiceFits(m, st.location, choice) && PicksFit(m, picks)
    requires PickNext(m, st.location, choice).Err?
    ensures m.columns == 1 && m.lines == 1
    ensures Tick(m, st, s, choice, picks) == Step(st, s, Aborted(NoNeighbours))
  {
    NeighboursEmptyIffSingle(m, st.location);
  }
}
