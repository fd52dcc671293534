/** The part of loading a maze that is not file input: finding where the
    exploration starts in a grid that has already been filled. */
module Loader {
  import opened Grid

  /** Scans `maze` row by row, left to right, and returns the first cell
      holding 'e', or `NoPosition` when there is none. */
  method FindEntrance(maze: array2<char>) returns (p: Pos)
    ensures p == NoPosition <==> !HasEntrance(Cells(maze))
    ensures p != NoPosition ==> IsFirstEntrance(Cells(maze), p)
  {
    ghost var g := Cells(maze);
    var i := 0;
    while i < maze.Length0
      invariant 0 <= i <= maze.Length0
      invariant forall q :: InGrid(g, q) && q.row < i ==> At(g, q) != 'e'
    {
      var j := 0;
      while j < maze.Length1
        invariant 0 <= j <= maze.Length1
        invariant forall q :: InGrid(g, q) && RowMajorBefore(q, Pos(i, j)) ==> At(g, q) != 'e'
      {
        if maze[i, j] == 'e' {
          return Pos(i, j);
        }
        j := j + 1;
      }
      i := i + 1;
    }
    return NoPosition;
  }
}
