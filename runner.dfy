/** The program's top level, without its threads and its output: find the
    entrance, seed the queue with it, explore, and report the flag. */
module Runner {
  import opened Grid
  import opened Loader
  import opened Explorer

  /** The three ways a run ends: no entrance to start from (the failing exit
      status), or one of the two final messages. */
  datatype Outcome = NoEntrance | ExitFound | NoExit

  /** Runs the maze: no entrance, or whether an exit is reachable from the
      first entrance in row-major order (which is unique, `FirstEntranceUnique`). */
  method Run(maze: array2<char>) returns (outcome: Outcome)
    modifies maze
    ensures outcome == NoEntrance <==> !HasEntrance(old(Cells(maze)))
    ensures outcome != NoEntrance ==>
      exists e :: IsFirstEntrance(old(Cells(maze)), e) && (outcome == ExitFound <==> ExitReachable(old(Cells(maze)), e))
    ensures forall e :: IsFirstEntrance(old(Cells(maze)), e) ==>
      (outcome == ExitFound <==> ExitReachable(old(Cells(maze)), e))
  {
    var start := FindEntrance(maze);
    if start.row == -1 || start.col == -1 {
      return NoEntrance;
    }
    ghost var g := Cells(maze);
    var explorer := new MazeExplorer(maze, start);
    explorer.Explore();
    outcome := if explorer.exitFound then ExitFound else NoExit;
    forall e | IsFirstEntrance(g, e)
      ensures e == start
    {
      FirstEntranceUnique(g, e, start);
    }
  }
}
