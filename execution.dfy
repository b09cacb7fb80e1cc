/**
 * `Execution` of src/algo/execution.rs (declared again, identically, in
 * src/algo/binary_tree.rs): an `OrthoMaze` being carved and the history of
 * the reasons given for each successful carve. Printing the reason is left
 * out.
 */
module Executions {
  import opened Wrappers
  import opened GridBase
  import Location
  import opened OrthoMazes

  class Execution {
    const maze: OrthoMaze
    var history: seq<string>

    /** `Execution::new`: the given maze and an empty history. */
    constructor (maze: OrthoMaze)
      ensures this.maze == maze && history == []
    {
      this.maze := maze;
      history := [];
    }

    /**
     * `carve`: the maze's own carve; on success `why` is appended to the
     * history, on failure the maze's error is passed on and the history is
     * left alone.
     */
    method Carve(loc: Location.Loc, gateway: Way, why: string) returns (r: Result<(), string>)
      requires maze.grid.Valid() && maze.grid.columns > 0
      modifies this, maze.grid
      ensures maze.grid.Valid()
      ensures r.Ok? <==> maze.CarveTarget(loc, gateway).Some?
      ensures r.Err? ==> r.error == "invalid carving" && maze.grid.cells == old(maze.grid.cells)
      ensures r.Err? ==> history == old(history)
      ensures r.Ok? ==> maze.grid.cells == Carved(old(maze.grid.cells), maze.CarveTarget(loc, gateway).value)
      ensures r.Ok? ==> history == old(history) + [why]
    {
      var res := maze.Carve(loc, gateway);
      if res.Err? {
        return Err(res.error);
      }
      history := history + [why];
      r := Ok(());
    }
  }
}
