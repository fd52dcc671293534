/** Two small mazes on which the reachability the exploration decides can be
    seen to go either way. */
module Mazes {
  import opened Grid
  import opened Search

  /** Entrance at the top middle, exit at the bottom right, everything else open. */
  lemma OpenMazeReachesExit()
    ensures ExitReachable(["xex", "xxx", "xxs"], Pos(0, 1))
  {
    var g := ["xex", "xxx", "xxs"];
    var t0 := [Pos(0, 1)];
    assert IsWalk(g, Pos(0, 1), t0);
    ExtendWalk(g, Pos(0, 1), t0, Pos(1, 1));
    var t1 := t0 + [Pos(1, 1)];
    ExtendWalk(g, Pos(0, 1), t1, Pos(2, 1));
    var t2 := t1 + [Pos(2, 1)];
    ExtendWalk(g, Pos(0, 1), t2, Pos(2, 2));
    assert IsExitPath(g, Pos(0, 1), t2 + [Pos(2, 2)]);
  }

  /** A wall column separates the entrance from the exit: the cells left of it
      form a closed visited set, so no exit path exists. */
  lemma WalledMazeHasNoExit()
    ensures !ExitReachable(["e#s", "x#x", "x#x"], Pos(0, 0))
  {
    var g := ["e#s", "x#x", "x#x"];
    var v := {Pos(0, 0), Pos(1, 0), Pos(2, 0)};
    forall p, n | p in v && n in Neighbours(p) && InGrid(g, n) && IsOpen(At(g, n))
      ensures n in v
    {
      assert n.col == 0;
    }
    NoExitWhenExhausted(g, Pos(0, 0), v);
  }
}
