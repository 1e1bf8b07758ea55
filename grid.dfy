/**
 * The Pac-Man board: cells, the 4-connected move relation, the Manhattan
 * heuristic, and walks through open cells.
 *
 * The game keys cells by the string "x,y"; here a cell is an integer pair and
 * the walls are a set of cells, since only membership is ever asked.
 */
module Grid {

  /** GRID_SIZE: the board is GridSize x GridSize cells. */
  const GridSize: nat := 15

  datatype Cell = Cell(x: int, y: int)

  datatype Option<T> = None | Some(value: T)

  function Abs(v: int): nat {
    if v < 0 then -v else v
  }

  /** Manhattan distance; the heuristic h of findPath is Distance(end, pos). */
  function Distance(a: Cell, b: Cell): nat {
    Abs(a.x - b.x) + Abs(a.y - b.y)
  }

  /** One step up, down, left or right: the two cells differ by one unit in exactly one coordinate. */
  predicate Adjacent(a: Cell, b: Cell) {
    Distance(a, b) == 1
  }

  predicate InBounds(c: Cell, size: int) {
    0 <= c.x < size && 0 <= c.y < size
  }

  /** A cell the search may step onto: on the board and not a wall. */
  predicate Passable(c: Cell, walls: set<Cell>, size: int) {
    InBounds(c, size) && c !in walls
  }

  /** All cells of a size x size board. */
  ghost function Board(size: int): (b: set<Cell>)
    ensures forall c :: c in b <==> InBounds(c, size)
  {
    var b := set x, y | 0 <= x < size && 0 <= y < size :: Cell(x, y);
    assert forall c :: InBounds(c, size) ==> Cell(c.x, c.y) in b;
    b
  }

  /** The cells (x, y) with 0 <= x < width and 0 <= y < height. */
  ghost function Rect(width: nat, height: nat): set<Cell> {
    set x, y | 0 <= x < width && 0 <= y < height :: Cell(x, y)
  }

  ghost function Row(y: int, width: nat): set<Cell> {
    set x | 0 <= x < width :: Cell(x, y)
  }

  lemma {:induction false} RowCardinality(y: int, width: nat)
    ensures |Row(y, width)| == width
  {
    if width > 0 {
      RowCardinality(y, width - 1);
      assert Row(y, width) == Row(y, width - 1) + {Cell(width - 1, y)};
    }
  }

  lemma {:induction false} RectCardinality(width: nat, height: nat)
    ensures |Rect(width, height)| == width * height
  {
    if height > 0 {
      RectCardinality(width, height - 1);
      RowCardinality(height - 1, width);
      RectLastRow(width, height);
      assert width * height == width * (height - 1) + width;
    }
  }

  lemma RectLastRow(width: nat, height: nat)
    requires height > 0
    ensures Rect(width, height) == Rect(width, height - 1) + Row(height - 1, width)
    ensures Rect(width, height - 1) !! Row(height - 1, width)
  {
    forall c | c in Rect(width, height) ensures c in Rect(width, height - 1) + Row(height - 1, width) {
      if c.y < height - 1 {
        assert Cell(c.x, c.y) in Rect(width, height - 1);
      } else {
        assert Cell(c.x, height - 1) in Row(height - 1, width);
      }
    }
  }

  /** A size x size board has size * size cells. */
  lemma BoardCardinality(size: int)
    ensures |Board(size)| == if size < 0 then 0 else size * size
  {
    if size < 0 {
      assert Board(size) == {};
    } else {
      RectCardinality(size, size);
      assert Board(size) == Rect(size, size);
    }
  }

  /** The candidates of getNeighbors, kept when passable. */
  function KeepPassable(cs: seq<Cell>, walls: set<Cell>, size: int): (r: seq<Cell>)
    ensures forall c :: c in r <==> c in cs && Passable(c, walls, size)
    ensures |r| <= |cs|
  {
    if cs == [] then []
    else (if Passable(cs[0], walls, size) then [cs[0]] else []) + KeepPassable(cs[1..], walls, size)
  }

  /**
   * getNeighbors: the four moves in the order (0,1), (1,0), (0,-1), (-1,0),
   * dropping those that leave the board or hit a wall.
   */
  function Neighbors(pos: Cell, walls: set<Cell>, size: int): (r: seq<Cell>)
    ensures forall c :: c in r <==> Adjacent(pos, c) && Passable(c, walls, size)
    ensures |r| <= 4
  {
    var moves := [Cell(pos.x, pos.y + 1), Cell(pos.x + 1, pos.y), Cell(pos.x, pos.y - 1), Cell(pos.x - 1, pos.y)];
    var r := KeepPassable(moves, walls, size);
    assert forall c :: Adjacent(pos, c) <==> c in moves;
    r
  }

  /**
   * A walk of 4-connected unit moves; every cell after the first is on the
   * board and not a wall (the first cell is where the walk starts, whatever it is).
   */
  predicate IsWalk(p: seq<Cell>, walls: set<Cell>, size: int) {
    |p| >= 1 &&
    forall i :: 1 <= i < |p| ==> Adjacent(p[i - 1], p[i]) && Passable(p[i], walls, size)
  }

  predicate IsPathBetween(p: seq<Cell>, walls: set<Cell>, size: int, from: Cell, to: Cell) {
    IsWalk(p, walls, size) && p[0] == from && p[|p| - 1] == to
  }

  ghost predicate Reachable(walls: set<Cell>, size: int, from: Cell, to: Cell) {
    exists p :: IsPathBetween(p, walls, size, from, to)
  }

  /** A walk of k steps covers at most Manhattan distance k: the heuristic never overestimates. */
  lemma {:induction false} WalkCoversDistance(p: seq<Cell>, walls: set<Cell>, size: int)
    requires IsWalk(p, walls, size)
    ensures Distance(p[0], p[|p| - 1]) <= |p| - 1
  {
    if |p| > 1 {
      var rest := p[1..];
      assert IsWalk(rest, walls, size) by {
        forall i | 1 <= i < |rest|
          ensures Adjacent(rest[i - 1], rest[i]) && Passable(rest[i], walls, size)
        {
          assert rest[i - 1] == p[i] && rest[i] == p[i + 1];
        }
      }
      WalkCoversDistance(rest, walls, size);
      assert Adjacent(p[0], p[1]);
    }
  }

  /** Every cell of a walk from a region closed under passable steps stays in that region. */
  lemma {:induction false} WalkStaysInside(p: seq<Cell>, walls: set<Cell>, size: int, region: set<Cell>)
    requires IsWalk(p, walls, size) && p[0] in region
    requires forall c, u :: c in region && Adjacent(c, u) && Passable(u, walls, size) ==> u in region
    ensures forall i :: 0 <= i < |p| ==> p[i] in region
  {
    var k := 1;
    while k < |p|
      invariant 1 <= k <= |p|
      invariant forall i :: 0 <= i < k ==> p[i] in region
    {
      assert Adjacent(p[k - 1], p[k]) && Passable(p[k], walls, size);
      k := k + 1;
    }
  }

  /** A walk cut before index k is still a walk. */
  lemma PrefixIsWalk(p: seq<Cell>, walls: set<Cell>, size: int, k: nat)
    requires IsWalk(p, walls, size) && 1 <= k <= |p|
    ensures IsWalk(p[..k], walls, size)
  {
    var q := p[..k];
    forall i | 1 <= i < |q|
      ensures Adjacent(q[i - 1], q[i]) && Passable(q[i], walls, size)
    {
      assert q[i - 1] == p[i - 1] && q[i] == p[i];
    }
  }

  /** A walk entered at index k is still a walk. */
  lemma SuffixIsWalk(p: seq<Cell>, walls: set<Cell>, size: int, k: nat)
    requires IsWalk(p, walls, size) && k < |p|
    ensures IsWalk(p[k..], walls, size)
  {
    var q := p[k..];
    forall i | 1 <= i < |q|
      ensures Adjacent(q[i - 1], q[i]) && Passable(q[i], walls, size)
    {
      assert q[i - 1] == p[k + i - 1] && q[i] == p[k + i];
    }
  }
}
