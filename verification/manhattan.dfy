/**
 * The Manhattan distance of a board (`Taquin.manhattan`): for every cell
 * holding a tile `v != 0`, the grid distance between the cell and the
 * tile's home cell `divmod(v - 1, 3)`.
 */
module Distance {
  import opened Board
  import opened Moves

  /** Python's `abs` on integers. */
  function Abs(x: int): (r: int)
    ensures r >= 0 && (r == x || r == -x)
  {
    if x < 0 then -x else x
  }

  /**
   * The term of value `v` on cell `k`: nothing for the blank, otherwise the
   * distance to the home cell. Dafny's `/` and `%` by 3 agree with Python's
   * `divmod` by 3 for every integer, negative ones included.
   */
  function TileDistance(v: int, k: int): (d: int)
    requires 0 <= k < Size
    ensures d >= 0
    ensures v != 0 ==> (d == 0 <==> v == k + 1)
  {
    if v == 0 then 0 else Abs((v - 1) / 3 - k / 3) + Abs((v - 1) % 3 - k % 3)
  }

  /** The double loop over the cells from row-major index `k` on. */
  function ManhattanFrom(b: Board, k: nat): (d: int)
    requires k <= Size
    ensures d >= 0
    decreases Size - k
  {
    if k == Size then 0 else TileDistance(b[k], k) + ManhattanFrom(b, k + 1)
  }

  function Manhattan(b: Board): (d: int)
    ensures d >= 0
  {
    ManhattanFrom(b, 0)
  }

  /** The goal board is at distance 0. */
  lemma ManhattanSolved()
    ensures Manhattan(Solved) == 0
  {
    assert ManhattanFrom(Solved, 5) == 0;
  }

  /** A zero sum of non-negative terms: every tile on `k..` is home or blank. */
  lemma {:induction false} ManhattanFromZero(b: Board, k: nat)
    requires k <= Size
    requires ManhattanFrom(b, k) == 0
    ensures forall j :: k <= j < Size ==> b[j] == 0 || b[j] == j + 1
    decreases Size - k
  {
    if k < Size {
      ManhattanFromZero(b, k + 1);
    }
  }

  /** On a valid board, distance 0 means the goal board. */
  lemma ManhattanZero(b: Board)
    requires Valid(b)
    requires Manhattan(b) == 0
    ensures b == Solved
  {
    ManhattanFromZero(b, 0);
    ValidCell(b, 8);
    forall j | 0 <= j < 8 ensures b[j] == j + 1 {
      if b[j] == 0 {
        ValidDistinct(b, j, 8);
      }
    }
    assert forall j :: 0 <= j < Size ==> b[j] == Solved[j];
  }

  /** `manhattan` is 0 exactly on the goal board, among valid boards. */
  lemma ManhattanZeroIff(b: Board)
    requires Valid(b)
    ensures Manhattan(b) == 0 <==> b == Solved
  {
    if Manhattan(b) == 0 {
      ManhattanZero(b);
    } else if b == Solved {
      ManhattanSolved();
    }
  }

  /** The part of the change between `b` and `r` contributed by cell `i`, if it lies on `k..`. */
  function CellChange(b: Board, r: Board, i: int, k: int): int
    requires 0 <= i < Size
  {
    if i >= k then TileDistance(r[i], i) - TileDistance(b[i], i) else 0
  }

  /** Boards that differ at most on cells `i` and `j` differ in distance by those two cells' terms. */
  lemma {:induction false} ManhattanFromChange(b: Board, r: Board, i: int, j: int, k: nat)
    requires 0 <= i < Size && 0 <= j < Size && i != j
    requires forall l :: 0 <= l < Size && l != i && l != j ==> r[l] == b[l]
    requires k <= Size
    ensures ManhattanFrom(r, k) - ManhattanFrom(b, k) == CellChange(b, r, i, k) + CellChange(b, r, j, k)
    decreases Size - k
  {
    if k < Size {
      ManhattanFromChange(b, r, i, j, k + 1);
    }
  }

  /** The row and column of a cell are recovered from its row-major index. */
  lemma IndexDivMod(c: Cell)
    requires InGrid(c)
    ensures Index(c) / 3 == c.row && Index(c) % 3 == c.col
  {
  }

  /** The term of a tile on a grid cell, by rows and columns. */
  lemma CellDistance(v: int, c: Cell)
    requires v != 0
    requires InGrid(c)
    ensures TileDistance(v, Index(c)) == Abs((v - 1) / 3 - c.row) + Abs((v - 1) % 3 - c.col)
  {
    IndexDivMod(c);
  }

  /** One step in any direction changes the grid distance to a fixed cell `(row, col)` by one. */
  lemma GridStep(row: int, col: int, c: Cell, d: Label)
    ensures var n := Neighbour(c, d);
      Abs(Abs(row - n.row) + Abs(col - n.col) - (Abs(row - c.row) + Abs(col - c.col))) == 1
  {
    match d
    case LaGauche =>
    case LaDroite =>
    case LeHaut =>
    case LeBas =>
  }

  /** One step to a neighbouring cell moves a tile one unit nearer or farther from home. */
  lemma TileStep(v: int, c: Cell, d: Label)
    requires v != 0
    requires InGrid(c) && InGrid(Neighbour(c, d))
    ensures Abs(TileDistance(v, Index(Neighbour(c, d))) - TileDistance(v, Index(c))) == 1
  {
    CellDistance(v, c);
    CellDistance(v, Neighbour(c, d));
    GridStep((v - 1) / 3, (v - 1) % 3, c, d);
  }

  /** Moving tile `v` from `at` onto the blank `to` changes the distance by that tile's term only. */
  lemma ExchangeManhattan(b: Board, at: Cell, to: Cell)
    requires InGrid(at) && InGrid(to) && Index(at) != Index(to)
    requires At(b, to) == 0
    ensures Manhattan(Exchange(b, at, to)) - Manhattan(b)
      == TileDistance(At(b, at), Index(to)) - TileDistance(At(b, at), Index(at))
  {
    ManhattanFromChange(b, Exchange(b, at, to), Index(at), Index(to), 0);
  }

  /** Every legal move changes `manhattan` by exactly one. */
  lemma ManhattanMove(b: Board, m: Move)
    requires Valid(b)
    requires Legal(b, m)
    ensures Abs(Manhattan(Apply(b, m)) - Manhattan(b)) == 1
  {
    NeighbourDistinct(m.at, m.action);
    LegalTile(b, m);
    ExchangeManhattan(b, m.at, m.to);
    TileStep(At(b, m.at), m.at, m.action);
  }
}
