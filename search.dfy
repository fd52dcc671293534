/** The facts that hold of the exploration state between steps, stated on
    values: the visited cells, the queue of open positions, and the walk that
    explains each queued position. */
module Search {
  import opened Grid

  /** The cells the exploration has overwritten with '.' are inside `g` and
      were the entrance or 'x' cells when the maze was loaded. */
  ghost predicate VisitedEligible(g: seq<seq<char>>, e: Pos, visited: set<Pos>)
  {
    forall p :: p in visited ==> InGrid(g, p) && (p == e || At(g, p) == 'x')
  }

  /** Nothing open has been lost: the entrance, and every open neighbour of a
      visited cell, is visited or still waiting in the queue. */
  ghost predicate Closed(g: seq<seq<char>>, e: Pos, visited: set<Pos>, queue: seq<Pos>)
  {
    && (e in visited || e in queue)
    && forall p, n :: p in visited && n in Neighbours(p) && InGrid(g, n) && IsOpen(At(g, n)) ==>
         n in visited || n in queue
  }

  /** How many entries of `s` are in `v`. */
  function CountIn(s: seq<Pos>, v: set<Pos>): (k: nat)
    ensures k <= |s|
    ensures k == 0 <== forall x :: x in s ==> x !in v
  {
    if s == [] then 0 else (if s[0] in v then 1 else 0) + CountIn(s[1..], v)
  }

  /** The work left in a queue: one per entry, plus four more for each entry
      already visited. */
  function Potential(queue: seq<Pos>, visited: set<Pos>): nat
  {
    |queue| + 4 * CountIn(queue, visited)
  }

  lemma {:induction false} CountInAppend(a: seq<Pos>, b: seq<Pos>, v: set<Pos>)
    ensures CountIn(a + b, v) == CountIn(a, v) + CountIn(b, v)
  {
    if a == [] {
      assert a + b == b;
    } else {
      assert (a + b)[1..] == a[1..] + b;
      CountInAppend(a[1..], b, v);
    }
  }

  /** Popping the front of the queue, marking it visited and pushing its open
      unvisited neighbours keeps the queue closed. */
  lemma PopKeepsClosed(g: seq<seq<char>>, e: Pos, visited: set<Pos>, queue: seq<Pos>, pushed: seq<Pos>)
    requires Closed(g, e, visited, queue) && queue != []
    requires forall n :: n in Neighbours(queue[0]) && InGrid(g, n) && IsOpen(At(g, n)) && n !in visited ==> n in pushed
    ensures Closed(g, e, visited + {queue[0]}, queue[1..] + pushed)
  {
    var v', q' := visited + {queue[0]}, queue[1..] + pushed;
    forall x | x in queue
      ensures x in v' || x in q'
    {
      if x != queue[0] {
        var i :| 0 <= i < |queue| && queue[i] == x;
        assert q'[i - 1] == x;
      }
    }
  }

  /** When the queue is empty and closed, every cell of a walk from the
      entrance has been visited. */
  lemma {:induction false} WalkStaysVisited(g: seq<seq<char>>, e: Pos, visited: set<Pos>, t: seq<Pos>, i: nat)
    requires Closed(g, e, visited, []) && IsWalk(g, e, t) && i < |t|
    ensures t[i] in visited
  {
    if i > 0 {
      WalkStaysVisited(g, e, visited, t, i - 1);
    }
  }

  /** An exhausted, closed exploration from the entrance proves that no exit
      is reachable, since exit cells are never visited. */
  lemma NoExitWhenExhausted(g: seq<seq<char>>, e: Pos, visited: set<Pos>)
    requires Closed(g, e, visited, []) && VisitedEligible(g, e, visited)
    requires InGrid(g, e) && At(g, e) == 'e'
    ensures !ExitReachable(g, e)
  {
    forall t | IsExitPath(g, e, t)
      ensures false
    {
      WalkStaysVisited(g, e, visited, t, |t| - 1);
    }
  }
}
