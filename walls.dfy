/**
 * The maze initializeGame lays out: walls on the whole border of the board,
 * then fifty random interior cells, none of them Pac-Man's start (1, 1).
 *
 * The walls are kept as the game keeps them, a list with possible repeats;
 * the search only ever asks whether a cell is in it.
 */
module Walls {
  import opened Rolls
  import opened Grid

  /** Pac-Man's starting cell, which the random walls avoid. */
  const Start: Cell := Cell(1, 1)

  /** A cell on the outer ring of the board. */
  predicate OnBorder(c: Cell) {
    InBounds(c, GridSize) && (c.x == 0 || c.x == GridSize - 1 || c.y == 0 || c.y == GridSize - 1)
  }

  /** A cell strictly inside the border. */
  predicate Interior(c: Cell) {
    1 <= c.x <= GridSize - 2 && 1 <= c.y <= GridSize - 2
  }

  /**
   * The border walls pushed by the first n rounds of the first loop:
   * (i, 0), (i, GRID_SIZE - 1), (0, i) and (GRID_SIZE - 1, i) for each i < n.
   */
  function BorderWalls(n: nat): (r: seq<Cell>)
    ensures |r| == 4 * n
  {
    if n == 0 then []
    else BorderWalls(n - 1) + [Cell(n - 1, 0), Cell(n - 1, GridSize - 1), Cell(0, n - 1), Cell(GridSize - 1, n - 1)]
  }

  /** The first n rounds wall off the first n cells of each of the four sides, and nothing else. */
  lemma {:induction false} BorderWallsCover(n: nat)
    ensures forall c :: c in BorderWalls(n) <==>
      || (0 <= c.x < n && (c.y == 0 || c.y == GridSize - 1))
      || (0 <= c.y < n && (c.x == 0 || c.x == GridSize - 1))
  {
    if n > 0 {
      BorderWallsCover(n - 1);
    }
  }

  /** The cell one pair of draws names: `Math.floor(Math.random() * (GRID_SIZE - 2)) + 1` for each coordinate. */
  function DrawnCell(draw: (real, real)): (c: Cell)
    requires IsRoll(draw.0) && IsRoll(draw.1)
    ensures Interior(c)
  {
    Cell(Pick(draw.0, GridSize - 2) + 1, Pick(draw.1, GridSize - 2) + 1)
  }

  predicate AllRolls(draws: seq<(real, real)>) {
    forall k :: 0 <= k < |draws| ==> IsRoll(draws[k].0) && IsRoll(draws[k].1)
  }

  /** The interior walls a run of draws pushes, in order: each drawn cell except the start. */
  function RandomWalls(draws: seq<(real, real)>): (r: seq<Cell>)
    requires AllRolls(draws)
    ensures |r| <= |draws|
  {
    if draws == [] then []
    else
      var c := DrawnCell(draws[|draws| - 1]);
      RandomWalls(draws[..|draws| - 1]) + (if c != Start then [c] else [])
  }

  /** The random walls are interior cells, and the start is never among them. */
  lemma {:induction false} RandomWallsInside(draws: seq<(real, real)>)
    requires AllRolls(draws)
    ensures forall c :: c in RandomWalls(draws) ==> Interior(c) && c != Start
  {
    if draws != [] {
      RandomWallsInside(draws[..|draws| - 1]);
    }
  }

  /**
   * The layout initializeGame builds: every border cell is a wall, every
   * other wall is an interior cell, and the start is never walled in.
   */
  lemma LayoutShape(draws: seq<(real, real)>)
    requires AllRolls(draws)
    ensures var walls := BorderWalls(GridSize) + RandomWalls(draws);
      && (forall c :: OnBorder(c) ==> c in walls)
      && (forall c :: c in walls ==> OnBorder(c) || (Interior(c) && c != Start))
      && Start !in walls
      && 4 * GridSize <= |walls| <= 4 * GridSize + |draws|
  {
    BorderWallsCover(GridSize);
    RandomWallsInside(draws);
  }

  /**
   * initializeGame's wall layout for the fifty pairs of draws `draws`: the
   * border, then the drawn interior cells.
   */
  method InitialWalls(draws: seq<(real, real)>) returns (walls: seq<Cell>)
    requires |draws| == 50 && AllRolls(draws)
    ensures walls == BorderWalls(GridSize) + RandomWalls(draws)
    ensures forall c :: OnBorder(c) ==> c in walls
    ensures forall c :: c in walls ==> OnBorder(c) || (Interior(c) && c != Start)
    ensures Start !in walls
    ensures 4 * GridSize <= |walls| <= 4 * GridSize + 50
  {
    walls := [];
    for i := 0 to GridSize
      invariant walls == BorderWalls(i)
    {
      walls := walls + [Cell(i, 0)];
      walls := walls + [Cell(i, GridSize - 1)];
      walls := walls + [Cell(0, i)];
      walls := walls + [Cell(GridSize - 1, i)];
    }
    ghost var border := walls;
    for i := 0 to 50
      invariant walls == border + RandomWalls(draws[..i])
    {
      var x := Pick(draws[i].0, GridSize - 2) + 1;
      var y := Pick(draws[i].1, GridSize - 2) + 1;
      ghost var before := RandomWalls(draws[..i]);
      assert RandomWalls(draws[..i + 1]) == before + (if Cell(x, y) != Start then [Cell(x, y)] else []) by {
        assert draws[..i + 1][..i] == draws[..i] && draws[..i + 1][i] == draws[i];
      }
      if x != 1 || y != 1 {
        walls := walls + [Cell(x, y)];
        assert walls == border + (before + [Cell(x, y)]);
      }
    }
    assert draws[..50] == draws;
    LayoutShape(draws);
  }
}
