/**
 * The combined heuristic of the second solver (`Taquin.heuristiques`):
 * the per-tile distances d1..d8, six weighted sums h1..h6 (three of them
 * divided by 4, h6 the plain Manhattan distance) and their minimum. Values
 * are exact rationals, standing for the source's floats.
 */
module Heuristics {
  import opened Board
  import opened Distance

  /** Every tile 1..8 occurs; otherwise some `dist_*` would be unbound. */
  predicate TilesPresent(b: Board)
  {
    forall v :: 1 <= v <= 8 ==> v in b
  }

  lemma ValidTilesPresent(b: Board)
    requires Valid(b)
    ensures TilesPresent(b)
  {
    forall v | 1 <= v <= 8 ensures v in b {
      ValidCell(b, v);
    }
  }

  /** The last row-major cell on `0..k` holding `v`. */
  function LastUpTo(b: Board, v: int, k: int): (l: int)
    requires 0 <= k < Size
    requires v in b[..k + 1]
    ensures 0 <= l <= k && b[l] == v
    ensures forall j :: l < j <= k ==> b[j] != v
    decreases k
  {
    if b[k] == v then k else LastUpTo(b, v, k - 1)
  }

  /**
   * The cell where the scan over the board finds `v` for the last time:
   * a later find overwrites an earlier one.
   */
  function LastIndexOf(b: Board, v: int): (l: int)
    requires v in b
    ensures 0 <= l < Size && b[l] == v
    ensures forall j :: l < j < Size ==> b[j] != v
  {
    assert b[..Size] == b;
    LastUpTo(b, v, Size - 1)
  }

  /** `dist_a` .. `dist_i`: the Manhattan term of tile `v` on that cell. */
  function D(b: Board, v: int): int
    requires v in b
  {
    TileDistance(v, LastIndexOf(b, v))
  }

  /** Python's `abs` on exact values. */
  function AbsR(x: real): (r: real)
    ensures r >= 0.0 && (r == x || r == -x)
  {
    if x < 0.0 then -x else x
  }

  /** `n` quarters. */
  function Quarter(n: int): real
  {
    n as real / 4.0
  }

  /** `x` is a whole number of quarters. */
  ghost predicate Quarters(x: real)
  {
    exists n: int :: x == Quarter(n)
  }

  /** The weights of h1. */
  function W1(b: Board): int
    requires TilesPresent(b)
  {
    36 * D(b, 1) + 12 * D(b, 2) + 12 * D(b, 3) + 4 * D(b, 4) + D(b, 5) + D(b, 6) + 4 * D(b, 7) + D(b, 8)
  }

  /** The weights of h2 and h3. */
  function W2(b: Board): int
    requires TilesPresent(b)
  {
    8 * D(b, 1) + 7 * D(b, 2) + 6 * D(b, 3) + 5 * D(b, 4) + 4 * D(b, 5) + 3 * D(b, 6) + 2 * D(b, 7) + D(b, 8)
  }

  /** The weights of h4 and h5. */
  function W4(b: Board): int
    requires TilesPresent(b)
  {
    8 * D(b, 1) + 7 * D(b, 2) + 6 * D(b, 3) + 5 * D(b, 4) + 3 * D(b, 5) + 2 * D(b, 6) + 4 * D(b, 7) + D(b, 8)
  }

  /** `abs(sum / 4)`: a whole number of quarters. */
  function H1(b: Board): (h: real)
    requires TilesPresent(b)
    ensures h >= 0.0 && h == Quarter(Abs(W1(b)))
  {
    AbsR(W1(b) as real / 4.0)
  }

  /** `abs(sum)`: a whole number. */
  function H2(b: Board): (h: real)
    requires TilesPresent(b)
    ensures h >= 0.0 && h == Quarter(4 * Abs(W2(b)))
  {
    AbsR(W2(b) as real)
  }

  function H3(b: Board): (h: real)
    requires TilesPresent(b)
    ensures h >= 0.0 && h == Quarter(Abs(W2(b)))
  {
    AbsR(W2(b) as real / 4.0)
  }

  function H4(b: Board): (h: real)
    requires TilesPresent(b)
    ensures h >= 0.0 && h == Quarter(4 * Abs(W4(b)))
  {
    AbsR(W4(b) as real)
  }

  function H5(b: Board): (h: real)
    requires TilesPresent(b)
    ensures h >= 0.0 && h == Quarter(Abs(W4(b)))
  {
    AbsR(W4(b) as real / 4.0)
  }

  /** h6 is `manhattan`. */
  function H6(b: Board): (h: real)
    ensures h >= 0.0 && h == Quarter(4 * Manhattan(b))
  {
    Manhattan(b) as real
  }

  /**
   * The running minimum of the source: start from `h1` and replace the
   * current value by each later candidate that is smaller. The result is
   * one of the six and no larger than any of them.
   */
  function Smallest(h1: real, h2: real, h3: real, h4: real, h5: real, h6: real): (h: real)
    ensures h == h1 || h == h2 || h == h3 || h == h4 || h == h5 || h == h6
    ensures h <= h1 && h <= h2 && h <= h3 && h <= h4 && h <= h5 && h <= h6
  {
    var h := h1;
    var h := if h > h2 then h2 else h;
    var h := if h > h3 then h3 else h;
    var h := if h > h4 then h4 else h;
    var h := if h > h5 then h5 else h;
    if h > h6 then h6 else h
  }

  /**
   * `heuristiques`: the smallest of h1..h6, hence non-negative, at most
   * `manhattan` (which is h6), and a whole number of quarters.
   */
  function Heuristiques(b: Board): (h: real)
    requires TilesPresent(b)
    ensures h == H1(b) || h == H2(b) || h == H3(b) || h == H4(b) || h == H5(b) || h == H6(b)
    ensures h <= H1(b) && h <= H2(b) && h <= H3(b) && h <= H4(b) && h <= H5(b) && h <= H6(b)
    ensures 0.0 <= h <= Manhattan(b) as real
    ensures Quarters(h)
  {
    Smallest(H1(b), H2(b), H3(b), H4(b), H5(b), H6(b))
  }

  /** On a valid board a value's last cell is its only cell. */
  lemma LastAt(b: Board, v: int, k: int)
    requires Valid(b)
    requires v in b
    requires 0 <= k < Size
    ensures LastIndexOf(b, v) == k <==> b[k] == v
  {
    if b[k] == v && LastIndexOf(b, v) != k {
      ValidDistinct(b, k, LastIndexOf(b, v));
    }
  }

  /** The term of tile `v` if its cell lies on `k..`. */
  function Share(b: Board, v: int, k: int): int
    requires v in b
  {
    if LastIndexOf(b, v) >= k then D(b, v) else 0
  }

  /** d1..d8, each counted only if the tile lies on `k..`. */
  function SharesFrom(b: Board, k: int): int
    requires TilesPresent(b)
  {
    Share(b, 1, k) + Share(b, 2, k) + Share(b, 3, k) + Share(b, 4, k)
    + Share(b, 5, k) + Share(b, 6, k) + Share(b, 7, k) + Share(b, 8, k)
  }

  /** Passing cell `k` drops tile `v`'s term exactly when `v` is on cell `k`. */
  lemma ShareStep(b: Board, v: int, k: int)
    requires Valid(b)
    requires v in b && v != 0
    requires 0 <= k < Size
    ensures Share(b, v, k) == (if b[k] == v then TileDistance(v, k) else 0) + Share(b, v, k + 1)
  {
    LastAt(b, v, k);
  }

  /** Passing cell `k` drops exactly the term of the tile on it. */
  lemma SharesStep(b: Board, k: int)
    requires Valid(b) && TilesPresent(b)
    requires 0 <= k < Size
    ensures SharesFrom(b, k) == TileDistance(b[k], k) + SharesFrom(b, k + 1)
  {
    ValidCell(b, k);
    ShareStep(b, 1, k);
    ShareStep(b, 2, k);
    ShareStep(b, 3, k);
    ShareStep(b, 4, k);
    ShareStep(b, 5, k);
    ShareStep(b, 6, k);
    ShareStep(b, 7, k);
    ShareStep(b, 8, k);
  }

  lemma {:induction false} SharesFromManhattan(b: Board, k: nat)
    requires Valid(b) && TilesPresent(b)
    requires k <= Size
    ensures SharesFrom(b, k) == ManhattanFrom(b, k)
    decreases Size - k
  {
    if k < Size {
      SharesFromManhattan(b, k + 1);
      SharesStep(b, k);
    } else {
      SharesEnd(b);
    }
  }

  /** Past the last cell no tile is counted. */
  lemma SharesEnd(b: Board)
    requires TilesPresent(b)
    ensures SharesFrom(b, Size) == 0
  {
  }

  /** On a valid board d1 + ... + d8 is the Manhattan distance. */
  lemma DistSum(b: Board)
    requires Valid(b)
    ensures TilesPresent(b)
    ensures D(b, 1) + D(b, 2) + D(b, 3) + D(b, 4) + D(b, 5) + D(b, 6) + D(b, 7) + D(b, 8) == Manhattan(b)
  {
    ValidTilesPresent(b);
    SharesFromManhattan(b, 0);
  }

  /** On a valid board the combined heuristic vanishes exactly on the goal board. */
  lemma HeuristiquesZeroIff(b: Board)
    requires Valid(b)
    ensures TilesPresent(b)
    ensures Heuristiques(b) == 0.0 <==> b == Solved
  {
    DistSum(b);
    ManhattanZeroIff(b);
  }
}
