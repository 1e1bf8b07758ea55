/**
 * The bookkeeping of findPath (openSet, closedSet, cameFrom, gScore, fScore)
 * and the invariant its main loop keeps, with the lemmas that turn that
 * invariant into the search's guarantees: a popped goal has an optimal
 * score, and an exhausted open set means the goal is unreachable.
 */
module SearchState {
  import opened Grid

  /**
   * cameFrom and gScore: start scores 0 and has no predecessor; every other
   * scored cell is passable and has a predecessor one step away whose score
   * is exactly one less.
   */
  ghost predicate Chained(start: Cell, cameFrom: map<Cell, Cell>, g: map<Cell, int>, walls: set<Cell>, size: int) {
    && start in g && g[start] == 0 && start !in cameFrom
    && (forall k :: k in g ==> g[k] >= 0 && (k == start || k in cameFrom))
    && (forall k {:trigger cameFrom[k]} :: k in cameFrom ==>
          && k in g && cameFrom[k] in g && g[k] == g[cameFrom[k]] + 1
          && Adjacent(cameFrom[k], k) && Passable(k, walls, size))
  }

  /** fScore = gScore + h, where h is the Manhattan distance to the goal. */
  ghost predicate Scored(end: Cell, g: map<Cell, int>, f: map<Cell, int>) {
    && (forall k :: k in g <==> k in f)
    && (forall k :: k in f ==> f[k] == g[k] + Distance(end, k))
  }

  /**
   * The open list holds distinct scored cells that are not closed; closed
   * cells are scored; predecessors are closed; the start stays open until the
   * first expansion; the goal is never closed.
   */
  ghost predicate Queued(start: Cell, end: Cell, walls: set<Cell>, size: int, open: seq<Cell>,
                         closed: set<Cell>, cameFrom: map<Cell, Cell>, g: map<Cell, int>) {
    && (forall i :: 0 <= i < |open| ==>
          open[i] in g && open[i] !in closed && (open[i] == start || Passable(open[i], walls, size)))
    && (forall i, j :: 0 <= i < j < |open| ==> open[i] != open[j])
    && (forall c :: c in closed ==> c in g && (c == start || Passable(c, walls, size)))
    && (forall k {:trigger cameFrom[k]} :: k in cameFrom ==> cameFrom[k] in closed)
    && (start !in closed ==> open == [start] && closed == {})
    && end !in closed
  }

  /** The step from closed c to u has been looked at: u is closed, or open with gScore at most g(c) + 1. */
  ghost predicate Settled(c: Cell, u: Cell, open: seq<Cell>, closed: set<Cell>, g: map<Cell, int>) {
    u in closed || (u in open && u in g && c in g && g[u] <= g[c] + 1)
  }

  /** Every passable step out of a closed cell, other than those of the cells in `pending`, is settled. */
  ghost predicate Explored(walls: set<Cell>, size: int, open: seq<Cell>, closed: set<Cell>,
                           g: map<Cell, int>, pending: set<Cell>) {
    forall c, u {:trigger Adjacent(c, u)} :: c in closed && c !in pending && Adjacent(c, u) && Passable(u, walls, size) ==>
      Settled(c, u, open, closed, g)
  }

  /** A closed cell's gScore is no longer than any walk to it from the start. */
  ghost predicate Optimal(start: Cell, walls: set<Cell>, size: int, closed: set<Cell>, g: map<Cell, int>) {
    forall c, q {:trigger IsPathBetween(q, walls, size, start, c)} :: c in closed && IsPathBetween(q, walls, size, start, c) ==> c in g && g[c] <= |q| - 1
  }

  ghost predicate Inv(start: Cell, end: Cell, walls: set<Cell>, size: int, open: seq<Cell>, closed: set<Cell>,
                      cameFrom: map<Cell, Cell>, g: map<Cell, int>, f: map<Cell, int>, pending: set<Cell>) {
    && Chained(start, cameFrom, g, walls, size)
    && Scored(end, g, f)
    && Queued(start, end, walls, size, open, closed, cameFrom, g)
    && Explored(walls, size, open, closed, g, pending)
    && Optimal(start, walls, size, closed, g)
  }

  /** The first index of q whose cell lies outside s. */
  function FirstOutside(q: seq<Cell>, s: set<Cell>): (i: nat)
    requires |q| > 0 && q[|q| - 1] !in s
    ensures i < |q| && q[i] !in s
    ensures forall j :: 0 <= j < i ==> q[j] in s
  {
    if q[0] !in s then 0 else 1 + FirstOutside(q[1..], s)
  }

  /**
   * The A* step: the open cell of least fScore has an optimal gScore.
   * Take any walk to it and the first cell of that walk not yet closed: that
   * cell is open with gScore no more than its position on the walk, and the
   * Manhattan heuristic is consistent, so its fScore bounds the walk's length.
   */
  lemma CurrentIsOptimal(start: Cell, end: Cell, walls: set<Cell>, size: int, open: seq<Cell>, closed: set<Cell>,
                         cameFrom: map<Cell, Cell>, g: map<Cell, int>, f: map<Cell, int>, k: nat)
    requires Inv(start, end, walls, size, open, closed, cameFrom, g, f, {})
    requires k < |open|
    requires forall i :: 0 <= i < |open| ==> f[open[k]] <= f[open[i]]
    ensures forall q {:trigger IsPathBetween(q, walls, size, start, open[k])} :: IsPathBetween(q, walls, size, start, open[k]) ==> g[open[k]] <= |q| - 1
  {
    var current := open[k];
    forall q | IsPathBetween(q, walls, size, start, current)
      ensures g[current] <= |q| - 1
    {
      var i := FirstOutside(q, closed);
      if i == 0 {
        assert open == [start];
      } else {
        FrontierBound(start, end, walls, size, open, closed, g, f, k, q, i);
      }
    }
  }

  /** One walk of CurrentIsOptimal, entered at its first open cell q[i]. */
  lemma FrontierBound(start: Cell, end: Cell, walls: set<Cell>, size: int, open: seq<Cell>, closed: set<Cell>,
                      g: map<Cell, int>, f: map<Cell, int>, k: nat, q: seq<Cell>, i: nat)
    requires Scored(end, g, f)
    requires Explored(walls, size, open, closed, g, {})
    requires Optimal(start, walls, size, closed, g)
    requires k < |open| && open[k] in g
    requires forall j :: 0 <= j < |open| ==> open[j] in g && f[open[k]] <= f[open[j]]
    requires IsPathBetween(q, walls, size, start, open[k])
    requires 0 < i < |q| && q[i] !in closed && q[i - 1] in closed
    ensures g[open[k]] <= |q| - 1
  {
    var prev, next := q[i - 1], q[i];
    PrefixIsWalk(q, walls, size, i);
    assert IsPathBetween(q[..i], walls, size, start, prev);
    assert g[prev] <= i - 1;
    assert Adjacent(prev, next) && Passable(next, walls, size);
    assert Settled(prev, next, open, closed, g);
    assert g[next] <= i;
    var j :| 0 <= j < |open| && open[j] == next;
    SuffixIsWalk(q, walls, size, i);
    WalkCoversDistance(q[i..], walls, size);
    assert Distance(next, open[k]) <= |q| - 1 - i;
    assert f[open[k]] <= f[next];
  }

  /** openSet.splice(k, 1) on a list without repeats: the other entries stay, still without repeats. */
  lemma RemoveAt(open: seq<Cell>, k: nat)
    requires k < |open|
    requires forall i, j :: 0 <= i < j < |open| ==> open[i] != open[j]
    ensures var rest := open[..k] + open[k + 1..];
      && (forall u :: u in rest <==> u in open && u != open[k])
      && (forall i, j :: 0 <= i < j < |rest| ==> rest[i] != rest[j])
  {
    var rest := open[..k] + open[k + 1..];
    forall i | 0 <= i < |rest| ensures rest[i] in open && rest[i] != open[k] {
      if i < k { assert rest[i] == open[i]; } else { assert rest[i] == open[i + 1]; }
    }
    forall u | u in open && u != open[k] ensures u in rest {
      var i :| 0 <= i < |open| && open[i] == u;
      if i < k { assert rest[i] == u; } else { assert rest[i - 1] == u; }
    }
    forall i, j | 0 <= i < j < |rest| ensures rest[i] != rest[j] {
      var i0 := if i < k then i else i + 1;
      var j0 := if j < k then j else j + 1;
      assert rest[i] == open[i0] && rest[j] == open[j0];
    }
  }

  /** Popping the open cell of least fScore (not the goal) and closing it leaves only its own steps to explore. */
  lemma CloseCurrent(start: Cell, end: Cell, walls: set<Cell>, size: int, open: seq<Cell>, closed: set<Cell>,
                     cameFrom: map<Cell, Cell>, g: map<Cell, int>, f: map<Cell, int>, k: nat)
    requires Inv(start, end, walls, size, open, closed, cameFrom, g, f, {})
    requires k < |open| && open[k] != end
    requires forall i :: 0 <= i < |open| ==> f[open[k]] <= f[open[i]]
    ensures Inv(start, end, walls, size, open[..k] + open[k + 1..], closed + {open[k]}, cameFrom, g, f, {open[k]})
  {
    CurrentIsOptimal(start, end, walls, size, open, closed, cameFrom, g, f, k);
    RemoveAt(open, k);
    QueuedAfterClose(start, end, walls, size, open, closed, cameFrom, g, k);
    ExploredAfterClose(walls, size, open, closed, g, k);
  }

  lemma QueuedAfterClose(start: Cell, end: Cell, walls: set<Cell>, size: int, open: seq<Cell>, closed: set<Cell>,
                         cameFrom: map<Cell, Cell>, g: map<Cell, int>, k: nat)
    requires Queued(start, end, walls, size, open, closed, cameFrom, g)
    requires k < |open| && open[k] != end
    requires var rest := open[..k] + open[k + 1..];
      && (forall u :: u in rest <==> u in open && u != open[k])
      && (forall i, j :: 0 <= i < j < |rest| ==> rest[i] != rest[j])
    ensures Queued(start, end, walls, size, open[..k] + open[k + 1..], closed + {open[k]}, cameFrom, g)
  {
    var open', closed' := open[..k] + open[k + 1..], closed + {open[k]};
    assert start in closed' by {
      if start !in closed { assert open == [start]; }
    }
    forall i | 0 <= i < |open'|
      ensures open'[i] in g && open'[i] !in closed' && (open'[i] == start || Passable(open'[i], walls, size))
    {
      assert open'[i] in open;
    }
  }

  lemma ExploredAfterClose(walls: set<Cell>, size: int, open: seq<Cell>, closed: set<Cell>, g: map<Cell, int>, k: nat)
    requires Explored(walls, size, open, closed, g, {})
    requires k < |open|
    requires forall u :: u in open[..k] + open[k + 1..] <==> u in open && u != open[k]
    ensures Explored(walls, size, open[..k] + open[k + 1..], closed + {open[k]}, g, {open[k]})
  {
  }

  /**
   * One relaxation of the neighbour loop: `neighbor`, a passable step from
   * the closed cell `current`, is not closed and is either new to the open
   * list or reached more cheaply than before; it is (appended and) given
   * `current` as predecessor and the scores g(current) + 1 and g + h.
   */
  lemma Relax(start: Cell, end: Cell, walls: set<Cell>, size: int, current: Cell, neighbor: Cell,
              open: seq<Cell>, closed: set<Cell>, cameFrom: map<Cell, Cell>, g: map<Cell, int>, f: map<Cell, int>,
              open': seq<Cell>, cameFrom': map<Cell, Cell>, g': map<Cell, int>, f': map<Cell, int>)
    requires Inv(start, end, walls, size, open, closed, cameFrom, g, f, {current})
    requires current in closed && neighbor !in closed
    requires Adjacent(current, neighbor) && Passable(neighbor, walls, size)
    requires neighbor in open ==> g[current] + 1 < g[neighbor]
    requires open' == if neighbor in open then open else open + [neighbor]
    requires cameFrom' == cameFrom[neighbor := current]
    requires g' == g[neighbor := g[current] + 1]
    requires f' == f[neighbor := g[current] + 1 + Distance(end, neighbor)]
    ensures Inv(start, end, walls, size, open', closed, cameFrom', g', f', {current})
    ensures Settled(current, neighbor, open', closed, g')
    ensures forall u :: Settled(current, u, open, closed, g) ==> Settled(current, u, open', closed, g')
  {
    assert forall u :: u in open ==> u in open';
    assert Chained(start, cameFrom', g', walls, size) by {
      assert neighbor != start;
    }
    QueuedAfterRelax(start, end, walls, size, current, neighbor, open, closed, cameFrom, g);
    ExploredAfterRelax(walls, size, current, neighbor, open, closed, g);
  }

  lemma QueuedAfterRelax(start: Cell, end: Cell, walls: set<Cell>, size: int, current: Cell, neighbor: Cell,
                         open: seq<Cell>, closed: set<Cell>, cameFrom: map<Cell, Cell>, g: map<Cell, int>)
    requires Queued(start, end, walls, size, open, closed, cameFrom, g)
    requires current in closed && neighbor !in closed && Passable(neighbor, walls, size)
    ensures Queued(start, end, walls, size, if neighbor in open then open else open + [neighbor], closed,
                   cameFrom[neighbor := current], g[neighbor := g[current] + 1])
  {
    if neighbor !in open {
      var open' := open + [neighbor];
      assert start in closed;
      assert forall i :: 0 <= i < |open| ==> open'[i] == open[i];
    }
  }

  lemma ExploredAfterRelax(walls: set<Cell>, size: int, current: Cell, neighbor: Cell,
                           open: seq<Cell>, closed: set<Cell>, g: map<Cell, int>)
    requires Explored(walls, size, open, closed, g, {current})
    requires current in closed && current in g && neighbor !in closed
    requires neighbor in open ==> neighbor in g && g[current] + 1 < g[neighbor]
    ensures var open' := if neighbor in open then open else open + [neighbor];
      var g' := g[neighbor := g[current] + 1];
      && Explored(walls, size, open', closed, g', {current})
      && (forall u :: Settled(current, u, open, closed, g) ==> Settled(current, u, open', closed, g'))
  {
    var open' := if neighbor in open then open else open + [neighbor];
    assert forall u :: u in open ==> u in open';
  }

  /** Once every passable step out of `current` is settled, nothing is pending any more. */
  lemma AllNeighborsSettled(start: Cell, end: Cell, walls: set<Cell>, size: int, current: Cell, neighbors: seq<Cell>,
                            open: seq<Cell>, closed: set<Cell>, cameFrom: map<Cell, Cell>, g: map<Cell, int>, f: map<Cell, int>)
    requires Inv(start, end, walls, size, open, closed, cameFrom, g, f, {current})
    requires forall u :: Adjacent(current, u) && Passable(u, walls, size) ==> u in neighbors
    requires forall j :: 0 <= j < |neighbors| ==> Settled(current, neighbors[j], open, closed, g)
    ensures Inv(start, end, walls, size, open, closed, cameFrom, g, f, {})
  {
    forall c, u | c in closed && Adjacent(c, u) && Passable(u, walls, size)
      ensures Settled(c, u, open, closed, g)
    {
      if c == current {
        var j :| 0 <= j < |neighbors| && neighbors[j] == u;
      }
    }
  }

  /** When the open list runs dry, the closed cells hold every cell reachable from the start, and the goal is not one of them. */
  lemma ExhaustedMeansUnreachable(start: Cell, end: Cell, walls: set<Cell>, size: int, closed: set<Cell>,
                                  cameFrom: map<Cell, Cell>, g: map<Cell, int>, f: map<Cell, int>)
    requires Inv(start, end, walls, size, [], closed, cameFrom, g, f, {})
    ensures !Reachable(walls, size, start, end)
  {
    forall q | IsPathBetween(q, walls, size, start, end)
      ensures false
    {
      WalkStaysInside(q, walls, size, closed);
    }
  }
}
