/**
 * findPath: A* search from `start` to `end` over the 4-connected board,
 * with the Manhattan heuristic, an open list scanned for the least fScore,
 * a closed set, and the cameFrom / gScore / fScore maps.
 */
module PathFinder {
  import opened Grid
  import opened SearchState

  /**
   * `openSet.reduce((a, b) => f(a) < f(b) ? a : b)`: an entry of least fScore;
   * the comparison is strict, so among equal scores the LAST entry wins.
   */
  method SelectCurrent(open: seq<Cell>, f: map<Cell, int>) returns (k: nat)
    requires |open| > 0
    requires forall i :: 0 <= i < |open| ==> open[i] in f
    ensures k < |open|
    ensures forall i :: 0 <= i < |open| ==> f[open[k]] <= f[open[i]]
    ensures forall i :: k < i < |open| ==> f[open[k]] < f[open[i]]
  {
    k := 0;
    var i := 1;
    while i < |open|
      invariant 1 <= i <= |open| && k < i
      invariant forall j :: 0 <= j < i ==> f[open[k]] <= f[open[j]]
      invariant forall j :: k < j < i ==> f[open[k]] < f[open[j]]
    {
      if !(f[open[k]] < f[open[i]]) {
        k := i;
      }
      i := i + 1;
    }
  }

  /**
   * The `for (const neighbor of getNeighbors(current))` loop of findPath,
   * run after `current` has been moved to the closed set.
   */
  method ExpandNeighbors(start: Cell, end: Cell, walls: set<Cell>, size: int, current: Cell,
                         open0: seq<Cell>, closed: set<Cell>,
                         cameFrom0: map<Cell, Cell>, g0: map<Cell, int>, f0: map<Cell, int>)
    returns (open: seq<Cell>, cameFrom: map<Cell, Cell>, g: map<Cell, int>, f: map<Cell, int>)
    requires current in closed
    requires Inv(start, end, walls, size, open0, closed, cameFrom0, g0, f0, {current})
    ensures Inv(start, end, walls, size, open, closed, cameFrom, g, f, {})
  {
    open, cameFrom, g, f := open0, cameFrom0, g0, f0;
    var neighbors := Neighbors(current, walls, size);
    for i := 0 to |neighbors|
      invariant Inv(start, end, walls, size, open, closed, cameFrom, g, f, {current})
      invariant forall j :: 0 <= j < i ==> Settled(current, neighbors[j], open, closed, g)
    {
      ghost var open1, g1 := open, g;
      open, cameFrom, g, f := VisitNeighbor(start, end, walls, size, current, neighbors[i], open, closed, cameFrom, g, f);
      SettledPrefix(current, neighbors, i, closed, open1, g1, open, g);
    }
    AllNeighborsSettled(start, end, walls, size, current, neighbors, open, closed, cameFrom, g, f);
  }

  /** After visiting neighbors[i], the first i + 1 neighbours are settled. */
  lemma SettledPrefix(current: Cell, neighbors: seq<Cell>, i: nat, closed: set<Cell>,
                      open0: seq<Cell>, g0: map<Cell, int>, open: seq<Cell>, g: map<Cell, int>)
    requires i < |neighbors|
    requires forall j :: 0 <= j < i ==> Settled(current, neighbors[j], open0, closed, g0)
    requires Settled(current, neighbors[i], open, closed, g)
    requires forall u :: Settled(current, u, open0, closed, g0) ==> Settled(current, u, open, closed, g)
    ensures forall j :: 0 <= j <= i ==> Settled(current, neighbors[j], open, closed, g)
  {
    forall j | 0 <= j <= i ensures Settled(current, neighbors[j], open, closed, g) {
      if j < i {
        assert Settled(current, neighbors[j], open0, closed, g0);
      }
    }
  }

  /**
   * One pass of that loop: a neighbour that is closed is skipped; one not
   * yet open is appended to the open list; one already open is skipped
   * unless the step through `current` is strictly cheaper. Appended and
   * improved neighbours get `current` as predecessor and fresh scores.
   */
  method VisitNeighbor(start: Cell, end: Cell, walls: set<Cell>, size: int, current: Cell, neighbor: Cell,
                       open0: seq<Cell>, closed: set<Cell>,
                       cameFrom0: map<Cell, Cell>, g0: map<Cell, int>, f0: map<Cell, int>)
    returns (open: seq<Cell>, cameFrom: map<Cell, Cell>, g: map<Cell, int>, f: map<Cell, int>)
    requires current in closed
    requires Adjacent(current, neighbor) && Passable(neighbor, walls, size)
    requires Inv(start, end, walls, size, open0, closed, cameFrom0, g0, f0, {current})
    ensures Inv(start, end, walls, size, open, closed, cameFrom, g, f, {current})
    ensures Settled(current, neighbor, open, closed, g)
    ensures forall u :: Settled(current, u, open0, closed, g0) ==> Settled(current, u, open, closed, g)
    ensures neighbor in closed ==> open == open0 && cameFrom == cameFrom0 && g == g0 && f == f0
    ensures neighbor !in closed && neighbor in open0 && g0[current] + 1 >= g0[neighbor] ==>
      open == open0 && cameFrom == cameFrom0 && g == g0 && f == f0
    ensures neighbor !in closed && (neighbor !in open0 || g0[current] + 1 < g0[neighbor]) ==>
      && open == (if neighbor in open0 then open0 else open0 + [neighbor])
      && cameFrom == cameFrom0[neighbor := current]
      && g == g0[neighbor := g0[current] + 1]
      && f == f0[neighbor := g0[current] + 1 + Distance(end, neighbor)]
  {
    open, cameFrom, g, f := open0, cameFrom0, g0, f0;
    if neighbor in closed {
      return;
    }
    var tentativeG := g[current] + 1;
    if neighbor !in open {
      open := open + [neighbor];
    } else if tentativeG >= g[neighbor] {
      return;
    }
    cameFrom := cameFrom[neighbor := current];
    g := g[neighbor := tentativeG];
    f := f[neighbor := tentativeG + Distance(end, neighbor)];
    Relax(start, end, walls, size, current, neighbor, open0, closed, cameFrom0, g0, f0, open, cameFrom, g, f);
  }

  /**
   * Path reconstruction: walk cameFrom back from the goal, prepending each
   * cell (`path.unshift`), then prepend `start`.
   */
  method Reconstruct(start: Cell, current: Cell, cameFrom: map<Cell, Cell>, g: map<Cell, int>,
                     ghost walls: set<Cell>, ghost size: int) returns (path: seq<Cell>)
    requires Chained(start, cameFrom, g, walls, size)
    requires current in g
    ensures IsPathBetween(path, walls, size, start, current)
    ensures |path| == g[current] + 1
  {
    path := [];
    var temp := current;
    while temp in cameFrom
      invariant temp in g
      invariant |path| == g[current] - g[temp]
      invariant path == [] ==> temp == current
      invariant path != [] ==> path[|path| - 1] == current && Adjacent(temp, path[0])
      invariant forall i :: 0 <= i < |path| ==> Passable(path[i], walls, size)
      invariant forall i :: 1 <= i < |path| ==> Adjacent(path[i - 1], path[i])
      decreases g[temp]
    {
      path := [temp] + path;
      temp := cameFrom[temp];
    }
    path := [start] + path;
  }

  /**
   * findPath(start, end): the shortest walk from start to end through
   * passable cells, or None when there is none.
   */
  method FindPath(start: Cell, end: Cell, walls: set<Cell>, size: int)
    returns (result: Option<seq<Cell>>, ghost expansions: nat)
    ensures result.Some? ==> IsPathBetween(result.value, walls, size, start, end)
    ensures result.None? <==> !Reachable(walls, size, start, end)
    ensures result.Some? ==> forall q {:trigger IsPathBetween(q, walls, size, start, end)} :: IsPathBetween(q, walls, size, start, end) ==> |result.value| <= |q|
    ensures start == end ==> result == Some([start])
    ensures end != start && !Passable(end, walls, size) ==> result.None?
    ensures InBounds(start, size) ==> expansions <= size * size
  {
    var open := [start];
    var closed: set<Cell> := {};
    var cameFrom: map<Cell, Cell> := map[];
    var g := map[start := 0];
    var f := map[start := Distance(end, start)];
    ghost var universe := Board(size) + {start};
    expansions := 0;
    while |open| > 0
      invariant Inv(start, end, walls, size, open, closed, cameFrom, g, f, {})
      invariant closed <= universe
      invariant expansions == |closed|
      decreases |universe - closed|
    {
      var k := SelectCurrent(open, f);
      var current := open[k];
      if current == end {
        CurrentIsOptimal(start, end, walls, size, open, closed, cameFrom, g, f, k);
        var path := Reconstruct(start, current, cameFrom, g, walls, size);
        result := Some(path);
        BoundedExpansions(start, size, closed, universe);
        if start == end {
          assert IsPathBetween([start], walls, size, start, end);
          assert path == [path[0]];
        }
        assert end != start ==> Passable(path[|path| - 1], walls, size);
        return;
      }
      CloseCurrent(start, end, walls, size, open, closed, cameFrom, g, f, k);
      assert current in universe;
      open := open[..k] + open[k + 1..];
      closed := closed + {current};
      expansions := expansions + 1;
      open, cameFrom, g, f := ExpandNeighbors(start, end, walls, size, current, open, closed, cameFrom, g, f);
    }
    ExhaustedMeansUnreachable(start, end, walls, size, closed, cameFrom, g, f);
    BoundedExpansions(start, size, closed, universe);
    result := None;
    assert start != end by {
      assert IsPathBetween([start], walls, size, start, start);
    }
  }

  lemma BoundedExpansions(start: Cell, size: int, closed: set<Cell>, universe: set<Cell>)
    requires universe == Board(size) + {start} && closed <= universe
    ensures InBounds(start, size) ==> |closed| <= size * size
  {
    if InBounds(start, size) {
      assert universe == Board(size);
      BoardCardinality(size);
      assert universe == closed + (universe - closed);
    }
  }
}
