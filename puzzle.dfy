/**
 * The 8-puzzle of EightPuzzleGame: a 3x3 board held row by row as nine
 * numbers, 0 being the blank.
 *
 * The player clicks a tile next to the blank to slide it there (moveTile);
 * "Shuffle" starts a new game from a board made by five random blank moves
 * away from the solved board, redrawn while it fails the inversion-parity
 * test (shufflePuzzle, generateEasyPuzzle, isSolvable).
 */
module EightPuzzle {
  import opened Rolls
  import opened InversionCount

  /** The goal board `[1, 2, 3, 4, 5, 6, 7, 8, 0]`. */
  const Solved: seq<int> := [1, 2, 3, 4, 5, 6, 7, 8, 0]

  /** A board: nine cells holding the tiles 0..8, no two cells the same tile. */
  predicate IsBoard(b: seq<int>) {
    && |b| == 9
    && (forall i :: 0 <= i < 9 ==> 0 <= b[i] < 9)
    && (forall i, j :: 0 <= i < j < 9 ==> b[i] != b[j])
  }

  /** The test isSolvable applies: an even number of inversions. */
  predicate Solvable(b: seq<int>) {
    Inversions(b) % 2 == 0
  }

  /** A cell of the 3x3 board, numbered row by row from 0. */
  type Index = i: int | 0 <= i < 9

  /** The row of cell i, `Math.floor(i / 3)`. */
  function Row(i: int): (r: int)
    ensures 0 <= i < 9 ==> 0 <= r < 3
  {
    i / 3
  }

  /** The column of cell i, `i % 3`. */
  function Col(i: int): (c: int)
    ensures 0 <= c < 3
  {
    i % 3
  }

  /**
   * moveTile's adjacency test between cells i and j: same column and rows
   * one apart, or same row and columns one apart.
   */
  predicate Slidable(i: int, j: int) {
    ((Row(i) - Row(j) == 1 || Row(j) - Row(i) == 1) && Col(i) == Col(j)) ||
    ((Col(i) - Col(j) == 1 || Col(j) - Col(i) == 1) && Row(i) == Row(j))
  }

  /** The board with cells i and j exchanged (`[a[i], a[j]] = [a[j], a[i]]`). */
  function Swap(b: seq<int>, i: int, j: int): (r: seq<int>)
    requires 0 <= i < |b| && 0 <= j < |b|
    ensures |r| == |b| && r[i] == b[j] && r[j] == b[i]
    ensures forall k :: 0 <= k < |b| && k != i && k != j ==> r[k] == b[k]
  {
    b[i := b[j]][j := b[i]]
  }

  /** Exchanging two cells of a board gives a board. */
  lemma SwapIsBoard(b: seq<int>, i: Index, j: Index)
    requires IsBoard(b)
    ensures IsBoard(Swap(b, i, j))
  {
  }

  lemma SolvedIsBoard()
    ensures IsBoard(Solved)
  {
  }

  /** The tiles on the first k cells of b. */
  ghost function TilesBefore(b: seq<int>, k: nat): set<int>
    requires k <= |b|
  {
    set i | 0 <= i < k :: b[i]
  }

  lemma {:induction false} TilesBeforeCount(b: seq<int>, k: nat)
    requires k <= |b| && forall i, j :: 0 <= i < j < |b| ==> b[i] != b[j]
    ensures |TilesBefore(b, k)| == k
  {
    if k > 0 {
      TilesBeforeCount(b, k - 1);
      assert TilesBefore(b, k) == TilesBefore(b, k - 1) + {b[k - 1]};
    }
  }

  /** The numbers 0..n-1. */
  ghost function Below(n: nat): (r: set<int>)
    ensures forall v :: v in r <==> 0 <= v < n
  {
    if n == 0 then {} else Below(n - 1) + {n - 1}
  }

  lemma {:induction false} BelowCount(n: nat)
    ensures |Below(n)| == n
  {
    if n > 0 {
      BelowCount(n - 1);
    }
  }

  lemma SubsetCount(a: set<int>, b: set<int>)
    requires a <= b
    ensures |a| <= |b|
  {
    assert b == a + (b - a);
  }

  /** Nine different tiles from 0..8 are all of them: every tile, the blank included, is on a board. */
  lemma AllTiles(b: seq<int>)
    requires IsBoard(b)
    ensures forall v :: 0 <= v < 9 ==> v in b
  {
    var s := TilesBefore(b, 9);
    TilesBeforeCount(b, 9);
    BelowCount(9);
    forall v | 0 <= v < 9 ensures v in b {
      if v !in s {
        assert s <= Below(9) - {v};
        SubsetCount(s, Below(9) - {v});
      }
    }
  }

  /** The cells next to cell j are exactly those one row or one column away. */
  lemma SlideSpan(i: Index, j: Index)
    ensures Slidable(i, j) <==> Slidable(j, i)
    ensures Slidable(i, j) ==> i - j == 1 || j - i == 1 || i - j == 3 || j - i == 3
  {
  }

  /**
   * getBlankPosition (`grid.indexOf(0)`): the first index holding the blank,
   * or -1 when there is none.
   */
  function BlankPosition(grid: seq<int>): (r: int)
    ensures -1 <= r < |grid|
    ensures r == -1 <==> 0 !in grid
    ensures r >= 0 ==> grid[r] == 0 && 0 !in grid[..r]
  {
    if grid == [] then -1
    else if grid[0] == 0 then 0
    else
      var k := BlankPosition(grid[1..]);
      if k < 0 then -1
      else
        assert grid[..k + 1] == [grid[0]] + grid[1..][..k];
        k + 1
  }

  /** On a board the blank sits in exactly one cell, the one getBlankPosition finds. */
  lemma BlankOfBoard(b: seq<int>)
    requires IsBoard(b)
    ensures 0 <= BlankPosition(b) < 9 && b[BlankPosition(b)] == 0
    ensures forall k :: 0 <= k < 9 && b[k] == 0 ==> k == BlankPosition(b)
  {
    AllTiles(b);
  }

  /**
   * isSolved: every cell agrees with the solved board (`grid.every`). A
   * shorter grid is compared on its own cells only; a longer one fails, its
   * extra cells being compared with `undefined`.
   */
  function IsSolved(grid: seq<int>): (r: bool)
    ensures r <==> |grid| <= |Solved| && grid == Solved[..|grid|]
    ensures |grid| == 9 ==> (r <==> grid == Solved)
    ensures |grid| == 9 && r ==> Solvable(grid)
  {
    SolvedIsSolvable();
    |grid| <= |Solved| && forall i :: 0 <= i < |grid| ==> grid[i] == Solved[i]
  }

  /**
   * isSolvable: the nested loop counting pairs i < j of non-blank tiles with
   * grid[i] > grid[j]; the answer is whether that count is even.
   */
  method IsSolvable(grid: seq<int>) returns (r: bool)
    ensures r <==> Solvable(grid)
  {
    var inversions := 0;
    for i := 0 to |grid|
      invariant inversions + Inversions(grid[i..]) == Inversions(grid)
    {
      ghost var before := inversions;
      for j := i + 1 to |grid|
        invariant inversions == before + CountBelow(grid[i], grid[i + 1..j])
      {
        if grid[i] != 0 && grid[j] != 0 && grid[i] > grid[j] {
          inversions := inversions + 1;
        }
        CountBelowExtend(grid[i], grid, i + 1, j);
      }
      assert grid[i..][1..] == grid[i + 1..|grid|];
    }
    r := inversions % 2 == 0;
  }

  /**
   * Exchanging the blank with a tile hi - lo cells away, across cells that
   * hold neither the blank nor that tile, keeps the parity of the inversion
   * count when hi - lo is odd.
   */
  lemma SwapParityAt(b: seq<int>, lo: int, hi: int)
    requires 0 <= lo < hi < |b| && (hi - lo) % 2 == 1
    requires (b[lo] == 0) != (b[hi] == 0)
    requires forall k :: lo < k < hi ==> b[k] != b[lo] && b[k] != b[hi]
    ensures Inversions(Swap(b, lo, hi)) % 2 == Inversions(b) % 2
  {
    var p, m, q := b[..lo], b[lo + 1..hi], b[hi + 1..];
    var d := if b[lo] == 0 then b[hi] else b[lo];
    assert |m| % 2 == 0 by {
      assert |m| == hi - lo - 1;
    }
    forall k | 0 <= k < |m| ensures m[k] != 0 && m[k] != d {
      assert m[k] == b[lo + 1 + k];
    }
    SplitAround(b, lo, hi);
    SwapKeepsParity(p, m, d, q);
  }

  /** b cut around cells lo and hi, before and after exchanging them. */
  lemma SplitAround(b: seq<int>, lo: int, hi: int)
    requires 0 <= lo < hi < |b|
    ensures b == b[..lo] + ([b[lo]] + b[lo + 1..hi] + [b[hi]]) + b[hi + 1..]
    ensures Swap(b, lo, hi) == b[..lo] + ([b[hi]] + b[lo + 1..hi] + [b[lo]]) + b[hi + 1..]
  {
  }

  /** Sliding the tile at i into the blank at j keeps a board and the parity of its inversions. */
  lemma MoveParity(b: seq<int>, i: Index, j: Index)
    requires IsBoard(b) && b[j] == 0 && Slidable(i, j)
    ensures IsBoard(Swap(b, j, i))
    ensures Inversions(Swap(b, j, i)) % 2 == Inversions(b) % 2
  {
    SlideSpan(i, j);
    SwapIsBoard(b, j, i);
    if i < j {
      SwapParityAt(b, i, j);
      SwapSymmetric(b, i, j);
    } else {
      SwapParityAt(b, j, i);
    }
  }

  lemma SwapSymmetric(b: seq<int>, i: int, j: int)
    requires 0 <= i < |b| && 0 <= j < |b|
    ensures Swap(b, i, j) == Swap(b, j, i)
  {
  }

  /** The component's state that moveTile reads and sets. */
  datatype Puzzle = Puzzle(tiles: seq<int>, userMoves: seq<int>, gameWon: bool)

  /**
   * moveTile(index): nothing once the game is won or when the clicked cell
   * is not next to the blank; otherwise the clicked tile and the blank trade
   * places and the click is appended to userMoves.
   */
  function MoveTile(p: Puzzle, index: Index): (r: Puzzle)
    requires IsBoard(p.tiles)
    ensures IsBoard(r.tiles) && r.gameWon == p.gameWon
    ensures Inversions(r.tiles) % 2 == Inversions(p.tiles) % 2
    ensures 0 <= BlankPosition(p.tiles) < 9
    ensures var blank := BlankPosition(p.tiles);
      && (r == p <==> p.gameWon || !Slidable(index, blank))
      && (r != p ==>
            && r.tiles[index] == 0 && r.tiles[blank] == p.tiles[index]
            && (forall k :: 0 <= k < 9 && k != index && k != blank ==> r.tiles[k] == p.tiles[k])
            && r.userMoves == p.userMoves + [index])
  {
    BlankOfBoard(p.tiles);
    if p.gameWon then p
    else
      var blankIndex := BlankPosition(p.tiles);
      if Slidable(index, blankIndex) then
        MoveParity(p.tiles, index, blankIndex);
        Puzzle(Swap(p.tiles, blankIndex, index), p.userMoves + [index], p.gameWon)
      else p
  }

  /**
   * The effect run after every change of the board: a solved board marks
   * the game as won; nothing else changes.
   */
  function CheckWin(p: Puzzle): (r: Puzzle)
    ensures r.tiles == p.tiles && r.userMoves == p.userMoves
    ensures |p.tiles| == 9 ==> (r.gameWon <==> p.gameWon || p.tiles == Solved)
  {
    if IsSolved(p.tiles) then p.(gameWon := true) else p
  }

  /** Once the solved board has been seen, clicks change nothing. */
  lemma SolvedFreezes(p: Puzzle, index: Index)
    requires IsBoard(p.tiles) && p.tiles == Solved
    ensures CheckWin(p).gameWon && MoveTile(CheckWin(p), index) == CheckWin(p)
  {
  }

  /** A click next to the blank, before the game is won, swaps the two cells and records the click. */
  lemma MoveTileSlides(p: Puzzle, index: Index)
    requires IsBoard(p.tiles) && !p.gameWon
    requires Slidable(index, BlankPosition(p.tiles))
    ensures 0 <= BlankPosition(p.tiles) < 9
    ensures MoveTile(p, index) == Puzzle(Swap(p.tiles, BlankPosition(p.tiles), index), p.userMoves + [index], false)
  {
    BlankOfBoard(p.tiles);
  }

  /** MoveTileSlides with the blank's cell given: the click swaps the tile into it. */
  lemma MoveTileAt(p: Puzzle, index: Index, blank: Index)
    requires IsBoard(p.tiles) && !p.gameWon && p.tiles[blank] == 0 && Slidable(index, blank)
    ensures MoveTile(p, index) == Puzzle(Swap(p.tiles, blank, index), p.userMoves + [index], false)
  {
    BlankOfBoard(p.tiles);
  }

  /** Swapping the same two cells twice gives the board back. */
  lemma SwapTwice(b: seq<int>, i: Index, j: Index)
    requires |b| == 9
    ensures Swap(Swap(b, i, j), j, i) == b
  {
    var t := Swap(Swap(b, i, j), j, i);
    assert forall k :: 0 <= k < 9 ==> t[k] == b[k];
  }

  /**
   * Calling moveTile on the cell the blank just left slides the tile back:
   * the board is as before. The win effect between the two calls is not
   * applied here; ClickUndo states what the game does.
   */
  lemma MoveTileUndo(p: Puzzle, index: Index)
    requires IsBoard(p.tiles) && !p.gameWon
    requires Slidable(index, BlankPosition(p.tiles))
    ensures var blank := BlankPosition(p.tiles);
      && 0 <= blank < 9
      && MoveTile(MoveTile(p, index), blank) == Puzzle(p.tiles, p.userMoves + [index] + [blank], false)
  {
    var blank := BlankPosition(p.tiles);
    assert 0 <= blank < 9 && p.tiles[blank] == 0 by {
      BlankOfBoard(p.tiles);
    }
    var t := Swap(p.tiles, blank, index);
    assert IsBoard(t) && t[index] == 0 && Slidable(blank, index) by {
      SwapIsBoard(p.tiles, blank, index);
      SlideSpan(index, blank);
    }
    MoveTileAt(p, index, blank);
    MoveTileAt(Puzzle(t, p.userMoves + [index], false), blank, index);
    SwapTwice(p.tiles, blank, index);
  }

  /** A run of plain moveTile calls, without the win effect between them. */
  function Replay(p: Puzzle, clicks: seq<Index>): (r: Puzzle)
    requires IsBoard(p.tiles)
    ensures IsBoard(r.tiles)
    ensures Inversions(r.tiles) % 2 == Inversions(p.tiles) % 2
    decreases |clicks|
  {
    if clicks == [] then p else Replay(MoveTile(p, clicks[0]), clicks[1..])
  }

  /**
   * One click as the game handles it: moveTile, then the effect that runs
   * whenever the board changes and marks a solved board as won. (On a board
   * the click leaves unchanged the effect does not run again; in the game a
   * solved board is then already marked won, so applying it anyway agrees.)
   */
  function Click(p: Puzzle, index: Index): (r: Puzzle)
    requires IsBoard(p.tiles)
    ensures IsBoard(r.tiles)
    ensures r.gameWon <==> p.gameWon || r.tiles == Solved
  {
    CheckWin(MoveTile(p, index))
  }

  /** A run of clicks as the game handles them, the win check after each. */
  function Play(p: Puzzle, clicks: seq<Index>): Puzzle
    requires IsBoard(p.tiles)
    decreases |clicks|
  {
    if clicks == [] then p else Play(Click(p, clicks[0]), clicks[1..])
  }

  /** Any run of clicks in the game keeps a board and the parity of its inversions. */
  lemma {:induction false} PlayKeepsParity(p: Puzzle, clicks: seq<Index>)
    requires IsBoard(p.tiles)
    ensures IsBoard(Play(p, clicks).tiles)
    ensures Inversions(Play(p, clicks).tiles) % 2 == Inversions(p.tiles) % 2
    decreases |clicks|
  {
    if clicks != [] {
      PlayKeepsParity(Click(p, clicks[0]), clicks[1..]);
    }
  }

  /** Once the game is won, no run of clicks changes anything. */
  lemma {:induction false} WonIgnoresClicks(p: Puzzle, clicks: seq<Index>)
    requires IsBoard(p.tiles) && p.gameWon
    ensures Play(p, clicks) == p
    decreases |clicks|
  {
    if clicks != [] {
      assert Click(p, clicks[0]) == p;
      WonIgnoresClicks(p, clicks[1..]);
    }
  }

  /**
   * As long as no click produces the solved board, the game's clicks are
   * plain moveTile calls: the win check never fires.
   */
  lemma {:induction false} PlayFollowsReplay(p: Puzzle, clicks: seq<Index>)
    requires IsBoard(p.tiles) && !p.gameWon
    requires forall k :: 1 <= k <= |clicks| ==> Replay(p, clicks[..k]).tiles != Solved
    ensures Play(p, clicks) == Replay(p, clicks)
    decreases |clicks|
  {
    if clicks != [] {
      var q := MoveTile(p, clicks[0]);
      assert Replay(p, clicks[..1]) == q by {
        assert clicks[..1][0] == clicks[0] && clicks[..1][1..] == [];
      }
      assert Click(p, clicks[0]) == q;
      forall k | 1 <= k <= |clicks[1..]|
        ensures Replay(q, clicks[1..][..k]).tiles != Solved
      {
        assert clicks[..k + 1][0] == clicks[0] && clicks[..k + 1][1..] == clicks[1..][..k];
        assert Replay(p, clicks[..k + 1]) == Replay(q, clicks[1..][..k]);
      }
      PlayFollowsReplay(q, clicks[1..]);
    }
  }

  /**
   * Clicking a tile next to the blank and then the cell the blank just left,
   * in the game: the first board comes back, unless the first click solved
   * the puzzle, in which case the game is won and the second click is ignored.
   */
  lemma ClickUndo(p: Puzzle, index: Index, blank: Index)
    requires IsBoard(p.tiles) && !p.gameWon
    requires p.tiles[blank] == 0 && Slidable(index, blank)
    ensures var q := Puzzle(Swap(p.tiles, blank, index), p.userMoves + [index], false);
      Play(p, [index, blank]) ==
        if q.tiles == Solved then q.(gameWon := true)
        else Puzzle(p.tiles, p.userMoves + [index] + [blank], p.tiles == Solved)
  {
    var t := Swap(p.tiles, blank, index);
    var q := Puzzle(t, p.userMoves + [index], false);
    assert MoveTile(p, index) == q by {
      MoveTileAt(p, index, blank);
    }
    PlayTwo(p, index, blank);
    if t == Solved {
      var c := q.(gameWon := true);
      assert Click(p, index) == c;
      ClickAfterWin(c, blank);
    } else {
      assert Click(p, index) == q;
      assert MoveTile(q, blank) == Puzzle(p.tiles, p.userMoves + [index] + [blank], false) by {
        assert IsBoard(t) && t[index] == 0 && Slidable(blank, index) by {
          SwapIsBoard(p.tiles, blank, index);
          SlideSpan(index, blank);
        }
        MoveTileAt(q, blank, index);
        SwapTwice(p.tiles, blank, index);
      }
    }
  }

  lemma PlayTwo(p: Puzzle, i: Index, j: Index)
    requires IsBoard(p.tiles)
    ensures Play(p, [i, j]) == Click(Click(p, i), j)
  {
    var c := Click(p, i);
    PlayStep(p, [i, j]);
    assert [i, j][0] == i && [i, j][1..] == [j];
    PlayStep(c, [j]);
    assert [j][0] == j && [j][1..] == [];
  }

  /** One step of Play: the first click, then the rest. */
  lemma PlayStep(p: Puzzle, clicks: seq<Index>)
    requires IsBoard(p.tiles) && clicks != []
    ensures Play(p, clicks) == Play(Click(p, clicks[0]), clicks[1..])
  {
  }

  /** After a win a click changes nothing. */
  lemma ClickAfterWin(p: Puzzle, index: Index)
    requires IsBoard(p.tiles) && p.gameWon
    ensures Click(p, index) == p
  {
    assert MoveTile(p, index) == p;
  }

  /** The solved board has no inversions. */
  lemma SolvedIsSolvable()
    ensures Inversions(Solved) == 0 && Solvable(Solved)
  {
    NoInversions(Solved);
  }

  /** The board with 7 and 8 exchanged has exactly one inversion, so isSolvable rejects it. */
  lemma SwappedPairIsUnsolvable()
    ensures Inversions([1, 2, 3, 4, 5, 6, 8, 7, 0]) == 1
  {
    var front, back := [1, 2, 3, 4, 5, 6], [8, 7, 0];
    assert [1, 2, 3, 4, 5, 6, 8, 7, 0] == front + back;
    InversionsAppend(front, back);
    FrontInOrder();
    assert Inversions(back) == 1 by {
      assert back[1..] == [7, 0] && back[1..][1..] == [0];
    }
  }

  /** The tiles 1..6 are in order, and each is below 8 and 7. */
  lemma FrontInOrder()
    ensures Inversions([1, 2, 3, 4, 5, 6]) == 0
    ensures Cross([1, 2, 3, 4, 5, 6], [8, 7, 0]) == 0
  {
    NoInversions([1, 2, 3, 4, 5, 6]);
    NoCross([1, 2, 3, 4, 5, 6], [8, 7, 0]);
  }

  lemma {:induction false} NoCross(s: seq<int>, t: seq<int>)
    requires forall i, j :: 0 <= i < |s| && 0 <= j < |t| ==> !Inverted(s[i], t[j])
    ensures Cross(s, t) == 0
  {
    if s != [] {
      NoneBelow(s[0], t);
      NoCross(s[1..], t);
    }
  }

  /**
   * No run of clicks from a board that passes isSolvable (the solved board,
   * or any board shufflePuzzle deals) reaches the board with 7 and 8
   * exchanged, with or without the win check between clicks.
   */
  lemma SwappedPairUnreachable(p: Puzzle, clicks: seq<Index>)
    requires IsBoard(p.tiles) && Solvable(p.tiles)
    ensures Replay(p, clicks).tiles != [1, 2, 3, 4, 5, 6, 8, 7, 0]
    ensures Play(p, clicks).tiles != [1, 2, 3, 4, 5, 6, 8, 7, 0]
  {
    NotSwappedPair(Replay(p, clicks).tiles);
    PlayKeepsParity(p, clicks);
    NotSwappedPair(Play(p, clicks).tiles);
  }

  lemma NotSwappedPair(b: seq<int>)
    requires Solvable(b)
    ensures b != [1, 2, 3, 4, 5, 6, 8, 7, 0]
  {
    SwappedPairIsUnsolvable();
  }

  /**
   * The moves generateEasyPuzzle offers for the blank at `blank`, in the
   * order up, down, left, right: exactly the cells next to it.
   */
  function PossibleMoves(blank: Index): (r: seq<Index>)
    ensures 2 <= |r| <= 4
  {
    var row, col := Row(blank), Col(blank);
    var up: seq<Index> := if row > 0 then [blank - 3] else [];
    var down := if row < 2 then up + [blank + 3] else up;
    var left := if col > 0 then down + [blank - 1] else down;
    if col < 2 then left + [blank + 1] else left
  }

  /** The moves offered are exactly the cells next to the blank. */
  lemma PossibleMovesAreSlides(blank: Index)
    ensures forall i :: i in PossibleMoves(blank) <==> 0 <= i < 9 && Slidable(i, blank)
  {
  }

  /** The move a draw selects: `possibleMoves[Math.floor(Math.random() * possibleMoves.length)]`. */
  function BlankMove(blank: Index, roll: real): (target: Index)
    requires IsRoll(roll)
    ensures target in PossibleMoves(blank)
  {
    var moves := PossibleMoves(blank);
    moves[Pick(roll, |moves|)]
  }

  /** The picked move is a cell next to the blank. */
  lemma BlankMoveSlides(blank: Index, roll: real)
    requires IsRoll(roll)
    ensures Slidable(BlankMove(blank, roll), blank)
  {
    PossibleMovesAreSlides(blank);
  }

  /**
   * The cells the blank visits when generateEasyPuzzle moves it away from
   * `blank`, one per draw: each is the move that draw picks.
   */
  function ScrambleClicks(blank: Index, rolls: seq<real>): (clicks: seq<Index>)
    requires forall k :: 0 <= k < |rolls| ==> IsRoll(rolls[k])
    ensures |clicks| == |rolls|
    decreases |rolls|
  {
    if rolls == [] then []
    else
      var target := BlankMove(blank, rolls[0]);
      [target] + ScrambleClicks(target, rolls[1..])
  }

  /**
   * The board generateEasyPuzzle builds from `b` with the blank at `blank`:
   * one blank move per draw, to the cell the draw picks.
   */
  function Scramble(b: seq<int>, blank: Index, rolls: seq<real>): (r: seq<int>)
    requires |b| == 9
    requires forall k :: 0 <= k < |rolls| ==> IsRoll(rolls[k])
    ensures |r| == 9
    decreases |rolls|
  {
    if rolls == [] then b
    else
      var target := BlankMove(blank, rolls[0]);
      Scramble(Swap(b, blank, target), target, rolls[1..])
  }

  /** Scrambling a board with the blank where it is said to be gives a board of the same parity. */
  lemma {:induction false} ScrambleKeepsParity(b: seq<int>, blank: Index, rolls: seq<real>)
    requires IsBoard(b) && b[blank] == 0
    requires forall k :: 0 <= k < |rolls| ==> IsRoll(rolls[k])
    ensures IsBoard(Scramble(b, blank, rolls))
    ensures Inversions(Scramble(b, blank, rolls)) % 2 == Inversions(b) % 2
    decreases |rolls|
  {
    if rolls != [] {
      var target := BlankMove(blank, rolls[0]);
      BlankMoveSlides(blank, rolls[0]);
      MoveParity(b, target, blank);
      ScrambleKeepsParity(Swap(b, blank, target), target, rolls[1..]);
    }
  }

  /** The cell the blank ends on after the moves the draws pick. */
  function ScrambleEnd(blank: Index, rolls: seq<real>): Index
    requires forall k :: 0 <= k < |rolls| ==> IsRoll(rolls[k])
    decreases |rolls|
  {
    if rolls == [] then blank else ScrambleEnd(BlankMove(blank, rolls[0]), rolls[1..])
  }

  /** A slide moves the blank 1 or 3 cells, an odd distance: it changes the parity of the blank's cell. */
  lemma SlideChangesParity(i: Index, j: Index)
    requires Slidable(i, j)
    ensures i % 2 != j % 2
  {
    SlideSpan(i, j);
  }

  /**
   * The blank ends on ScrambleEnd, and each draw changes the parity of its
   * cell: after an odd number of draws its cell has the other parity.
   */
  lemma {:induction false} ScrambleBlank(b: seq<int>, blank: Index, rolls: seq<real>)
    requires |b| == 9 && b[blank] == 0
    requires forall k :: 0 <= k < |rolls| ==> IsRoll(rolls[k])
    ensures var e := ScrambleEnd(blank, rolls);
      && Scramble(b, blank, rolls)[e] == 0
      && (e % 2 == blank % 2 <==> |rolls| % 2 == 0)
    decreases |rolls|
  {
    if rolls != [] {
      var target := BlankMove(blank, rolls[0]);
      var b', rest := Swap(b, blank, target), rolls[1..];
      var e := ScrambleEnd(target, rest);
      assert target % 2 != blank % 2 by {
        BlankMoveSlides(blank, rolls[0]);
        SlideChangesParity(target, blank);
      }
      assert Scramble(b', target, rest)[e] == 0 && (e % 2 == target % 2 <==> |rest| % 2 == 0) by {
        ScrambleBlank(b', target, rest);
      }
      assert ScrambleEnd(blank, rolls) == e;
      assert Scramble(b, blank, rolls) == Scramble(b', target, rest);
      assert e % 2 == blank % 2 <==> |rolls| % 2 == 0 by {
        ParityStep(e, target, blank, |rolls|);
      }
    }
  }

  /** One more parity change: if t and b differ in parity, e agrees with b after n steps iff it agreed with t after n - 1. */
  lemma ParityStep(e: int, t: int, b: int, n: int)
    requires n >= 1 && t % 2 != b % 2
    requires e % 2 == t % 2 <==> (n - 1) % 2 == 0
    ensures e % 2 == b % 2 <==> n % 2 == 0
  {
  }

  /**
   * Five blank moves from the solved board never lead back to it: the blank
   * ends on an odd cell, never on its corner 8. A new game is never
   * won before the first click.
   */
  lemma GeneratedNotSolved(rolls: seq<real>)
    requires |rolls| == 5 && forall k :: 0 <= k < |rolls| ==> IsRoll(rolls[k])
    ensures Scramble(Solved, 8, rolls) != Solved && !IsSolved(Scramble(Solved, 8, rolls))
  {
    var e := ScrambleEnd(8, rolls);
    OddScrambleMovesBlank(Solved, 8, rolls);
    assert Solved[e] != 0;
  }

  /** After an odd number of blank moves the blank is somewhere else. */
  lemma OddScrambleMovesBlank(b: seq<int>, blank: Index, rolls: seq<real>)
    requires |b| == 9 && b[blank] == 0 && |rolls| % 2 == 1
    requires forall k :: 0 <= k < |rolls| ==> IsRoll(rolls[k])
    ensures var e := ScrambleEnd(blank, rolls); e != blank && Scramble(b, blank, rolls)[e] == 0
  {
    ScrambleBlank(b, blank, rolls);
  }

  /**
   * Every scramble is a run of legal moves: calling moveTile on the cells
   * the blank visits, in order, gives the scrambled board. In the game the
   * same clicks agree with it while none of them produces the solved board
   * (PlayFollowsReplay).
   */
  lemma {:induction false} ScrambleIsPlayable(p: Puzzle, blank: Index, rolls: seq<real>)
    requires IsBoard(p.tiles) && p.tiles[blank] == 0 && !p.gameWon
    requires forall k :: 0 <= k < |rolls| ==> IsRoll(rolls[k])
    ensures Replay(p, ScrambleClicks(blank, rolls)).tiles == Scramble(p.tiles, blank, rolls)
    decreases |rolls|
  {
    if rolls != [] {
      var target := BlankMove(blank, rolls[0]);
      var q := Puzzle(Swap(p.tiles, blank, target), p.userMoves + [target], false);
      assert MoveTile(p, target) == q && IsBoard(q.tiles) by {
        BlankMoveSlides(blank, rolls[0]);
        BlankOfBoard(p.tiles);
        MoveTileSlides(p, target);
      }
      var clicks := ScrambleClicks(blank, rolls);
      assert clicks[0] == target && clicks[1..] == ScrambleClicks(target, rolls[1..]);
      ScrambleIsPlayable(q, target, rolls[1..]);
    }
  }

  /**
   * generateEasyPuzzle: from the solved board, five times, list the blank's
   * possible moves, pick one with a draw and swap the blank there.
   */
  method GenerateEasyPuzzle(rolls: seq<real>) returns (puzzle: seq<int>)
    requires |rolls| == 5 && forall k :: 0 <= k < |rolls| ==> IsRoll(rolls[k])
    ensures puzzle == Scramble(Solved, 8, rolls)
    ensures IsBoard(puzzle) && Solvable(puzzle)
  {
    var a := new int[] [1, 2, 3, 4, 5, 6, 7, 8, 0];
    var blankIndex: Index := 8;
    assert a[..] == Solved;
    SolvedIsBoard();
    for i := 0 to 5
      invariant IsBoard(a[..]) && a[blankIndex] == 0
      invariant Scramble(a[..], blankIndex, rolls[i..]) == Scramble(Solved, 8, rolls)
    {
      var possibleMoves := PossibleMoves(blankIndex);
      var moveIndex := possibleMoves[Pick(rolls[i], |possibleMoves|)];
      ghost var before := a[..];
      assert rolls[i..][1..] == rolls[i + 1..];
      BlankMoveSlides(blankIndex, rolls[i]);
      MoveParity(before, moveIndex, blankIndex);
      a[blankIndex], a[moveIndex] := a[moveIndex], a[blankIndex];
      assert a[..] == Swap(before, blankIndex, moveIndex);
      blankIndex := moveIndex;
    }
    assert rolls[5..] == [];
    puzzle := a[..];
    SolvedIsSolvable();
    ScrambleKeepsParity(Solved, 8, rolls);
  }

  /**
   * shufflePuzzle: draw boards until one passes isSolvable, then start a new
   * game on it with no moves recorded and the game not won. Every drawn
   * board passes, so the loop body runs once.
   */
  method ShufflePuzzle(rolls: seq<real>) returns (r: Puzzle)
    requires |rolls| == 5 && forall k :: 0 <= k < |rolls| ==> IsRoll(rolls[k])
    ensures r == Puzzle(Scramble(Solved, 8, rolls), [], false)
    ensures IsBoard(r.tiles) && Solvable(r.tiles) && !IsSolved(r.tiles)
  {
    var shuffled: seq<int> := [];
    var solvable := false;
    while !solvable
      invariant solvable ==> shuffled == Scramble(Solved, 8, rolls)
      invariant solvable ==> IsBoard(shuffled) && Solvable(shuffled)
      decreases if solvable then 0 else 1
    {
      shuffled := GenerateEasyPuzzle(rolls);
      solvable := IsSolvable(shuffled);
    }
    r := Puzzle(shuffled, [], false);
    GeneratedNotSolved(rolls);
  }
}
