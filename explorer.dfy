/** The exploration itself: the maze, the queue of open positions and the
    exit flag, with one worker stepping through the queue. */
module Explorer {
  import opened Grid
  import opened Search

  class MazeExplorer {
    /** The maze; visited cells are overwritten with '.' in place. */
    const maze: array2<char>
    /** Positions waiting to be explored, front first. */
    var openPositions: seq<Pos>
    /** Set once an exit cell is popped; never cleared. */
    var exitFound: bool

    /** The maze as it was loaded. */
    ghost const initial: seq<seq<char>>
    /** The position the queue was seeded with. */
    ghost const entrance: Pos
    /** The cells this exploration has overwritten with '.'. */
    ghost var visited: set<Pos>

    predicate InBounds(p: Pos)
    {
      0 <= p.row < maze.Length0 && 0 <= p.col < maze.Length1
    }

    function Cur(p: Pos): char
      reads maze
      requires InBounds(p)
    {
      maze[p.row, p.col]
    }

    /** The grid is the loaded maze with exactly the visited cells turned to '.'. */
    ghost predicate Matches()
      reads this, maze
    {
      && IsRectangle(initial, maze.Length0, maze.Length1)
      && InGrid(initial, entrance) && At(initial, entrance) == 'e'
      && (forall p :: InBounds(p) ==> InGrid(initial, p) && Cur(p) == if p in visited then '.' else At(initial, p))
    }

    /** The invariant, for a given queue: every queued position is in bounds
        and reached from the entrance; until the exit is found nothing open is
        lost; once it is found, an exit is reachable. */
    ghost predicate ValidWith(queue: seq<Pos>)
      reads this, maze
    {
      && Matches()
      && VisitedEligible(initial, entrance, visited)
      && (forall p :: p in queue ==> InBounds(p) && Reaches(initial, entrance, p))
      && (!exitFound ==> Closed(initial, entrance, visited, queue))
      && (exitFound ==> ExitReachable(initial, entrance))
    }

    ghost predicate Valid()
      reads this, maze
    {
      ValidWith(openPositions)
    }

    /** The program's `is_valid_position`: a position is valid exactly when it
        is a cell of the current grid holding 'x' or 's'. */
    function IsValidPosition(row: int, col: int): (b: bool)
      reads maze
      ensures b <==> InGrid(Cells(maze), Pos(row, col)) && IsOpen(At(Cells(maze), Pos(row, col)))
    {
      0 <= row < maze.Length0 && 0 <= col < maze.Length1 && (maze[row, col] == 'x' || maze[row, col] == 's')
    }

    /** A position is valid exactly when it was an open cell of the loaded
        maze and has not been visited since. */
    lemma ValidPositionIsUnvisitedOpen(p: Pos)
      requires Matches()
      ensures IsValidPosition(p.row, p.col) <==> InGrid(initial, p) && IsOpen(At(initial, p)) && p !in visited
    {
    }

    /** The entries of `ns` that pass `is_valid_position`, in their order.
        The length bound is what caps the pushes of one pass at four in the
        termination measure. */
    function Eligible(ns: seq<Pos>): (r: seq<Pos>)
      reads maze
      ensures |r| <= |ns|
    {
      if ns == [] then []
      else
        var n := ns[|ns| - 1];
        Eligible(ns[..|ns| - 1]) + if IsValidPosition(n.row, n.col) then [n] else []
    }

    /** Exactly the valid entries survive. */
    lemma {:induction false} EligibleMembers(ns: seq<Pos>)
      ensures forall n :: n in Eligible(ns) <==> n in ns && IsValidPosition(n.row, n.col)
    {
      if ns != [] {
        assert ns == ns[..|ns| - 1] + [ns[|ns| - 1]];
        EligibleMembers(ns[..|ns| - 1]);
      }
    }

    lemma EligibleSnoc(ns: seq<Pos>, n: Pos)
      ensures Eligible(ns + [n]) == Eligible(ns) + if IsValidPosition(n.row, n.col) then [n] else []
    {
      assert (ns + [n])[..|ns|] == ns;
    }

    ghost function AllCells(): set<Pos>
    {
      set r, c | 0 <= r < maze.Length0 && 0 <= c < maze.Length1 :: Pos(r, c)
    }

    /** The cells not yet visited: shrinks when an unvisited cell is popped. */
    ghost function Unvisited(): set<Pos>
      reads this
    {
      AllCells() - visited
    }

    /** Work left in the queue: drops when a visited cell is popped again. */
    ghost function Pending(): nat
      reads this
    {
      Potential(openPositions, visited)
    }

    /** Seeds the queue with the entrance. */
    constructor (grid: array2<char>, start: Pos)
      requires InGrid(Cells(grid), start) && At(Cells(grid), start) == 'e'
      ensures Valid()
      ensures maze == grid && initial == Cells(grid) && entrance == start
      ensures openPositions == [start] && !exitFound && visited == {}
    {
      maze := grid;
      openPositions := [start];
      exitFound := false;
      initial := Cells(grid);
      entrance := start;
      visited := {};
      new;
      assert IsWalk(initial, start, [start]);
    }

    /** Pushes, in the order up, down, left, right, each neighbour of
        `current` that passes `is_valid_position`. */
    method QueueValidNeighbours(current: Pos)
      modifies this`openPositions
      ensures openPositions == old(openPositions) + Eligible(Neighbours(current))
    {
      var neighbours := Neighbours(current);
      ghost var rest := openPositions;
      assert Eligible(neighbours[..0]) == [];
      for k := 0 to 4
        invariant openPositions == rest + Eligible(neighbours[..k])
      {
        var n := neighbours[k];
        assert neighbours[..k + 1] == neighbours[..k] + [n];
        EligibleSnoc(neighbours[..k], n);
        if IsValidPosition(n.row, n.col) {
          openPositions := openPositions + [n];
        }
      }
      assert neighbours[..4] == neighbours;
    }

    /** Overwrites the cell at `current` with '.', recording it as visited. */
    method MarkVisited(current: Pos)
      requires Matches() && InBounds(current)
      modifies maze, this`visited
      ensures Matches()
      ensures visited == old(visited) + {current}
      ensures Cur(current) == '.'
      ensures forall q :: InBounds(q) && q != current ==> Cur(q) == old(Cur(q))
    {
      maze[current.row, current.col] := '.';
      visited := visited + {current};
      forall p | InBounds(p)
        ensures InGrid(initial, p) && Cur(p) == if p in visited then '.' else At(initial, p)
      {
        if p != current {
          assert Cur(p) == old(Cur(p));
        }
      }
    }

    /** Popping `current` off `queue0`, marking it and queuing its valid
        neighbours re-establishes the invariant. */
    lemma VisitKeepsValid(current: Pos, queue0: seq<Pos>, visited0: set<Pos>)
      requires Matches() && !exitFound
      requires queue0 != [] && current == queue0[0] && visited == visited0 + {current}
      requires VisitedEligible(initial, entrance, visited0) && Closed(initial, entrance, visited0, queue0)
      requires forall p :: p in queue0 ==> InBounds(p) && Reaches(initial, entrance, p)
      requires current !in visited0 ==> At(initial, current) != 's'
      requires openPositions == queue0[1..] + Eligible(Neighbours(current))
      ensures Valid()
    {
      assert current in queue0;
      ReachedIsEntranceOrOpen(initial, entrance, current);
      ghost var pushed := Eligible(Neighbours(current));
      EligibleMembers(Neighbours(current));
      forall n | n in pushed
        ensures InBounds(n) && Reaches(initial, entrance, n)
      {
        ValidPositionIsUnvisitedOpen(n);
        ReachesNeighbour(initial, entrance, current, n);
      }
      forall n | n in Neighbours(current) && InGrid(initial, n) && IsOpen(At(initial, n)) && n !in visited0
        ensures n in pushed
      {
        ValidPositionIsUnvisitedOpen(n);
      }
      PopKeepsClosed(initial, entrance, visited0, queue0, pushed);
      forall p | p in openPositions
        ensures InBounds(p) && Reaches(initial, entrance, p)
      {
        if p !in pushed {
          assert p in queue0[1..];
        }
      }
    }

    /** Popping an unvisited cell shrinks the unvisited cells; popping a
        visited one again leaves them alone and lowers the potential. */
    lemma VisitProgresses(current: Pos, queue0: seq<Pos>, visited0: set<Pos>)
      requires Matches() && InBounds(current)
      requires queue0 != [] && current == queue0[0] && visited == visited0 + {current}
      requires openPositions == queue0[1..] + Eligible(Neighbours(current))
      ensures Unvisited() < AllCells() - visited0
        || (Unvisited() == AllCells() - visited0 && Pending() < Potential(queue0, visited0))
    {
      ghost var pushed := Eligible(Neighbours(current));
      EligibleMembers(Neighbours(current));
      if current in visited0 {
        forall n | n in pushed
          ensures n !in visited
        {
          ValidPositionIsUnvisitedOpen(n);
        }
        CountInAppend(queue0[1..], pushed, visited);
        assert visited == visited0;
        assert CountIn(pushed, visited) == 0;
        assert CountIn(queue0, visited0) == 1 + CountIn(queue0[1..], visited0);
        assert |pushed| <= 4;
      } else {
        assert current == Pos(current.row, current.col);
        assert current in AllCells();
      }
    }

    /** One pass of the exploration loop: stop if the exit is found or the
        queue is empty; otherwise pop the front position and either record
        the exit or mark the cell '.' and queue its valid neighbours. */
    method Step() returns (stop: bool)
      requires Valid()
      modifies this, maze
      ensures Valid()
      ensures old(exitFound) ==> exitFound
      ensures stop ==> exitFound || openPositions == []
      ensures old(exitFound) || old(openPositions) == [] ==> stop && unchanged(this, maze)
      ensures !old(exitFound) && old(openPositions) != [] ==>
        var p := old(openPositions[0]);
        && InBounds(p)
        && (old(Cur(p)) == 's' ==>
              stop && exitFound && openPositions == old(openPositions[1..]) && unchanged(maze))
        && (old(Cur(p)) != 's' ==>
              && !stop && !exitFound
              && Cur(p) == '.'
              && (forall q :: InBounds(q) && q != p ==> Cur(q) == old(Cur(q)))
              && openPositions == old(openPositions[1..]) + Eligible(Neighbours(p)))
      ensures forall q :: InBounds(q) ==> Cur(q) == old(Cur(q)) || (Cur(q) == '.' && old(Cur(q)) in {'x', 'e', '.'})
      ensures !stop ==> Unvisited() < old(Unvisited()) || (Unvisited() == old(Unvisited()) && Pending() < old(Pending()))
    {
      if exitFound || openPositions == [] {
        return true;
      }
      var current := openPositions[0];
      assert current in openPositions;
      ghost var queue0, visited0 := openPositions, visited;
      openPositions := openPositions[1..];
      if maze[current.row, current.col] == 's' {
        exitFound := true;
        ReachedExit(initial, entrance, current);
        return true;
      }
      ReachedIsEntranceOrOpen(initial, entrance, current);
      MarkVisited(current);
      QueueValidNeighbours(current);
      VisitKeepsValid(current, queue0, visited0);
      VisitProgresses(current, queue0, visited0);
      stop := false;
    }

    /** The exploration loop run by a single worker: step until the exit is
        found or the queue is empty. It ends with the exit found exactly when
        an exit cell is joined to the entrance through 'x' cells, and it only
        ever turns 'x', 'e' or '.' cells into '.'. */
    method Explore()
      requires Valid()
      modifies this, maze
      ensures Valid()
      ensures exitFound || openPositions == []
      ensures exitFound <==> ExitReachable(initial, entrance)
      ensures old(exitFound) ==> exitFound
      ensures forall q :: InBounds(q) ==> Cur(q) == old(Cur(q)) || (Cur(q) == '.' && old(Cur(q)) in {'x', 'e', '.'})
      ensures forall q :: InBounds(q) && q != entrance && At(initial, q) != 'x' ==> Cur(q) == At(initial, q)
    {
      while true
        invariant Valid()
        invariant old(exitFound) ==> exitFound
        invariant forall q :: InBounds(q) ==> Cur(q) == old(Cur(q)) || (Cur(q) == '.' && old(Cur(q)) in {'x', 'e', '.'})
        decreases Unvisited(), Pending()
      {
        var stop := Step();
        if stop {
          break;
        }
      }
      if !exitFound {
        NoExitWhenExhausted(initial, entrance, visited);
      }
    }
  }
}
