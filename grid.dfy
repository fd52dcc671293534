/** Positions, the four-neighbourhood, and the value-level view of a maze
    (a rectangular table of characters) in which reachability is stated. */
module Grid {

  /** A cell coordinate: the program's `Position` record. */
  datatype Pos = Pos(row: int, col: int)

  /** The invalid position the entrance scan returns when no cell holds 'e'. */
  const NoPosition: Pos := Pos(-1, -1)

  /** The characters a neighbour may hold to be queued: an open path or the exit. */
  predicate IsOpen(ch: char)
  {
    ch == 'x' || ch == 's'
  }

  function Abs(n: int): nat
  {
    if n < 0 then -n else n
  }

  /** The neighbours of `p` in the order they are tried: up, down, left, right. */
  function Neighbours(p: Pos): (ns: seq<Pos>)
    ensures |ns| == 4
    ensures forall n :: n in ns <==> Abs(n.row - p.row) + Abs(n.col - p.col) == 1
  {
    [Pos(p.row - 1, p.col), Pos(p.row + 1, p.col), Pos(p.row, p.col - 1), Pos(p.row, p.col + 1)]
  }

  /** Whether `p` lies inside the table `g`. */
  predicate InGrid(g: seq<seq<char>>, p: Pos)
  {
    0 <= p.row < |g| && 0 <= p.col < |g[p.row]|
  }

  function At(g: seq<seq<char>>, p: Pos): char
    requires InGrid(g, p)
  {
    g[p.row][p.col]
  }

  /** `g` has `rows` rows of `cols` characters each. */
  predicate IsRectangle(g: seq<seq<char>>, rows: int, cols: int)
  {
    |g| == rows && forall r :: 0 <= r < |g| ==> |g[r]| == cols
  }

  /** The contents of a two-dimensional character array, as a value. */
  ghost function Cells(a: array2<char>): (g: seq<seq<char>>)
    reads a
    ensures IsRectangle(g, a.Length0, a.Length1)
    ensures forall r, c :: 0 <= r < a.Length0 && 0 <= c < a.Length1 ==> g[r][c] == a[r, c]
  {
    seq(a.Length0, r requires 0 <= r < a.Length0 reads a =>
      seq(a.Length1, c requires 0 <= c < a.Length1 reads a => a[r, c]))
  }

  /** `t` starts at `e`, moves one orthogonal step at a time inside `g`,
      enters only 'x' or 's' cells, and passes only through 'x' cells. */
  ghost predicate IsWalk(g: seq<seq<char>>, e: Pos, t: seq<Pos>)
  {
    && |t| > 0
    && t[0] == e
    && (forall i :: 0 <= i < |t| ==> InGrid(g, t[i]))
    // each step is to a neighbour; two indices give the solver the triggers
    // t[i] and t[j] rather than t[i + 1], which loops
    && (forall i, j :: 0 <= i < j < |t| && j == i + 1 ==> t[j] in Neighbours(t[i]))
    && (forall i :: 0 < i < |t| ==> IsOpen(At(g, t[i])))
    && (forall i :: 0 < i < |t| - 1 ==> At(g, t[i]) == 'x')
  }

  /** A walk from `e` that ends on an exit cell. */
  ghost predicate IsExitPath(g: seq<seq<char>>, e: Pos, t: seq<Pos>)
  {
    IsWalk(g, e, t) && At(g, t[|t| - 1]) == 's'
  }

  /** Some walk from `e` ends at `p`. */
  ghost predicate Reaches(g: seq<seq<char>>, e: Pos, p: Pos)
  {
    exists t :: IsWalk(g, e, t) && t[|t| - 1] == p
  }

  /** Some 's' cell is joined to `e` by orthogonal steps through 'x' cells. */
  ghost predicate ExitReachable(g: seq<seq<char>>, e: Pos)
  {
    exists t :: IsExitPath(g, e, t)
  }

  /** Row-major order: `a` is scanned before `b`. */
  predicate RowMajorBefore(a: Pos, b: Pos)
  {
    a.row < b.row || (a.row == b.row && a.col < b.col)
  }

  ghost predicate HasEntrance(g: seq<seq<char>>)
  {
    exists p :: InGrid(g, p) && At(g, p) == 'e'
  }

  /** `p` holds 'e' and no cell before it in row-major order does. */
  ghost predicate IsFirstEntrance(g: seq<seq<char>>, p: Pos)
  {
    && InGrid(g, p)
    && At(g, p) == 'e'
    && forall q :: InGrid(g, q) && RowMajorBefore(q, p) ==> At(g, q) != 'e'
  }

  /** Any two cells are ordered one way or the other, so the first entrance is unique. */
  lemma FirstEntranceUnique(g: seq<seq<char>>, p: Pos, q: Pos)
    requires IsFirstEntrance(g, p) && IsFirstEntrance(g, q)
    ensures p == q
  {
  }

  /** Extending a walk by one open neighbour of its last cell, where that last
      cell is the start or an 'x' cell, gives a walk. */
  lemma {:induction false} ExtendWalk(g: seq<seq<char>>, e: Pos, t: seq<Pos>, n: Pos)
    requires IsWalk(g, e, t)
    requires |t| > 1 ==> At(g, t[|t| - 1]) == 'x'
    requires InGrid(g, n) && IsOpen(At(g, n)) && n in Neighbours(t[|t| - 1])
    ensures IsWalk(g, e, t + [n])
    ensures (t + [n])[|t|] == n
  {
    var u := t + [n];
    assert u[|t| - 1] == t[|t| - 1] && u[|t|] == n;
    assert forall i :: 0 <= i < |t| ==> u[i] == t[i];
  }

  /** A cell reached from the entrance reaches each of its open neighbours,
      unless it is an exit: the walk may pass only through 'x' cells. */
  lemma ReachesNeighbour(g: seq<seq<char>>, e: Pos, p: Pos, n: Pos)
    requires Reaches(g, e, p) && InGrid(g, e) && At(g, e) == 'e'
    requires p == e || At(g, p) == 'x'
    requires InGrid(g, n) && IsOpen(At(g, n)) && n in Neighbours(p)
    ensures Reaches(g, e, n)
  {
    var t :| IsWalk(g, e, t) && t[|t| - 1] == p;
    ExtendWalk(g, e, t, n);
  }

  /** A reached exit cell makes the exit reachable. */
  lemma ReachedExit(g: seq<seq<char>>, e: Pos, p: Pos)
    requires Reaches(g, e, p) && InGrid(g, p) && At(g, p) == 's'
    ensures ExitReachable(g, e)
  {
    var t :| IsWalk(g, e, t) && t[|t| - 1] == p;
    assert IsExitPath(g, e, t);
  }

  /** A reached cell is the start itself or an open cell. */
  lemma ReachedIsEntranceOrOpen(g: seq<seq<char>>, e: Pos, p: Pos)
    requires Reaches(g, e, p)
    ensures InGrid(g, p) && (p == e || IsOpen(At(g, p)))
  {
    var t :| IsWalk(g, e, t) && t[|t| - 1] == p;
    if |t| > 1 {
      assert IsOpen(At(g, t[|t| - 1]));
    }
  }
}
