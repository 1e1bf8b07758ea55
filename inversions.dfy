/**
 * Inversion counting for the 8-puzzle's solvability test.
 *
 * A pair of positions i < j is an inversion when both tiles are real tiles
 * (the blank, 0, never counts) and the earlier one is larger. The count is
 * defined recursively here; the puzzle's nested loop is proved to compute it.
 * The main fact is that swapping the blank with a tile that lies an even
 * number of cells further on keeps the parity of the count.
 */
module InversionCount {

  /** `grid[i] && grid[j] && grid[i] > grid[j]`: both non-zero and out of order. */
  predicate Inverted(a: int, b: int) {
    a != 0 && b != 0 && a > b
  }

  /** How many entries of t form an inversion with v placed before them. */
  function CountBelow(v: int, t: seq<int>): (n: nat)
    ensures n <= |t|
    ensures v == 0 ==> n == 0
  {
    if t == [] then 0 else (if Inverted(v, t[0]) then 1 else 0) + CountBelow(v, t[1..])
  }

  /** The inversions between every entry of s and every entry of t, s placed before t. */
  function Cross(s: seq<int>, t: seq<int>): nat {
    if s == [] then 0 else CountBelow(s[0], t) + Cross(s[1..], t)
  }

  /** The number of inversions of s. */
  function Inversions(s: seq<int>): nat {
    if s == [] then 0 else CountBelow(s[0], s[1..]) + Inversions(s[1..])
  }

  lemma {:induction false} CountBelowAppend(v: int, x: seq<int>, y: seq<int>)
    ensures CountBelow(v, x + y) == CountBelow(v, x) + CountBelow(v, y)
  {
    if x != [] {
      assert (x + y)[1..] == x[1..] + y;
      CountBelowAppend(v, x[1..], y);
    } else {
      assert x + y == y;
    }
  }

  /** Extending the window s[lo..j] by one entry adds that entry's inversion with v, if any. */
  lemma CountBelowExtend(v: int, s: seq<int>, lo: int, j: int)
    requires 0 <= lo <= j < |s|
    ensures CountBelow(v, s[lo..j + 1]) == CountBelow(v, s[lo..j]) + (if Inverted(v, s[j]) then 1 else 0)
  {
    assert s[lo..j + 1] == s[lo..j] + [s[j]];
    CountBelowAppend(v, s[lo..j], [s[j]]);
  }

  lemma {:induction false} CrossAppendLeft(x: seq<int>, y: seq<int>, t: seq<int>)
    ensures Cross(x + y, t) == Cross(x, t) + Cross(y, t)
  {
    if x != [] {
      assert (x + y)[1..] == x[1..] + y;
      CrossAppendLeft(x[1..], y, t);
    } else {
      assert x + y == y;
    }
  }

  lemma {:induction false} CrossAppendRight(s: seq<int>, x: seq<int>, y: seq<int>)
    ensures Cross(s, x + y) == Cross(s, x) + Cross(s, y)
  {
    if s != [] {
      CountBelowAppend(s[0], x, y);
      CrossAppendRight(s[1..], x, y);
    }
  }

  /** Inversions of a concatenation: those inside each part plus those across. */
  lemma {:induction false} InversionsAppend(x: seq<int>, y: seq<int>)
    ensures Inversions(x + y) == Inversions(x) + Inversions(y) + Cross(x, y)
  {
    if x != [] {
      assert (x + y)[1..] == x[1..] + y;
      CountBelowAppend(x[0], x[1..], y);
      InversionsAppend(x[1..], y);
    } else {
      assert x + y == y;
    }
  }

  /** Nothing forms an inversion with a blank placed after it. */
  lemma {:induction false} CrossBlank(s: seq<int>)
    ensures Cross(s, [0]) == 0
  {
    if s != [] {
      CrossBlank(s[1..]);
    }
  }

  /**
   * Against a tile d distinct from them, every tile of m is either larger
   * (an inversion when m comes first) or smaller (one when d comes first).
   */
  lemma {:induction false} CrossComplement(m: seq<int>, d: int)
    requires d != 0
    requires forall k :: 0 <= k < |m| ==> m[k] != 0 && m[k] != d
    ensures Cross(m, [d]) + CountBelow(d, m) == |m|
  {
    if m != [] {
      CrossComplement(m[1..], d);
    }
  }

  /**
   * The blank and the tile d trade places across the block m: the parity of
   * the count is kept exactly when m has even length.
   */
  lemma BlockSwapParity(m: seq<int>, d: int)
    requires d != 0
    requires forall k :: 0 <= k < |m| ==> m[k] != 0 && m[k] != d
    ensures Inversions([0] + m + [d]) + Inversions([d] + m + [0]) == 2 * Inversions(m) + |m|
  {
    InversionsAppend([0] + m, [d]);
    InversionsAppend([0], m);
    CrossAppendLeft([0], m, [d]);
    InversionsAppend([d] + m, [0]);
    InversionsAppend([d], m);
    CrossAppendLeft([d], m, [0]);
    CrossBlank(m);
    CrossComplement(m, d);
    assert Inversions([d]) == 0 && Inversions([0]) == 0;
    assert Cross([0], m) == 0 && Cross([0], [d]) == 0;
    assert Cross([d], m) == CountBelow(d, m) && Cross([d], [0]) == 0;
  }

  /** Inversions of p + x + q, split by where the two entries of each pair lie. */
  lemma InversionsThree(p: seq<int>, x: seq<int>, q: seq<int>)
    ensures Inversions(p + x + q)
         == Inversions(p) + Inversions(x) + Inversions(q) + Cross(p, x) + Cross(p, q) + Cross(x, q)
  {
    assert p + x + q == p + (x + q);
    InversionsAppend(p, x + q);
    InversionsAppend(x, q);
    CrossAppendRight(p, x, q);
  }

  /**
   * Trading the blank with a tile d an odd number of places away (|m| even)
   * keeps the parity of the inversion count of the whole row.
   */
  lemma SwapKeepsParity(p: seq<int>, m: seq<int>, d: int, q: seq<int>)
    requires d != 0 && |m| % 2 == 0
    requires forall k :: 0 <= k < |m| ==> m[k] != 0 && m[k] != d
    ensures Inversions(p + ([0] + m + [d]) + q) % 2 == Inversions(p + ([d] + m + [0]) + q) % 2
  {
    var x, x' := [0] + m + [d], [d] + m + [0];
    CrossAppendRight(p, [0] + m, [d]);
    CrossAppendRight(p, [0], m);
    CrossAppendRight(p, [d] + m, [0]);
    CrossAppendRight(p, [d], m);
    assert Cross(p, x) == Cross(p, x');
    CrossAppendLeft([0] + m, [d], q);
    CrossAppendLeft([0], m, q);
    CrossAppendLeft([d] + m, [0], q);
    CrossAppendLeft([d], m, q);
    assert Cross(x, q) == Cross(x', q);
    InversionsThree(p, x, q);
    InversionsThree(p, x', q);
    BlockSwapParity(m, d);
  }

  /** A row with no out-of-order pair of tiles has no inversions. */
  lemma {:induction false} NoInversions(s: seq<int>)
    requires forall i, j :: 0 <= i < j < |s| ==> !Inverted(s[i], s[j])
    ensures Inversions(s) == 0
  {
    if s != [] {
      NoneBelow(s[0], s[1..]);
      NoInversions(s[1..]);
    }
  }

  lemma {:induction false} NoneBelow(v: int, t: seq<int>)
    requires forall j :: 0 <= j < |t| ==> !Inverted(v, t[j])
    ensures CountBelow(v, t) == 0
  {
    if t != [] {
      NoneBelow(v, t[1..]);
    }
  }
}
