/**
 * The 3x3 board (`Taquin`): nine cells read row-major, 0 is the blank.
 * Row-major order is the order of the board's `__iter__`, so the grid of
 * rows is represented directly by its flattening.
 */
module Board {
  import opened Text

  /** The board's width; `manhattan` and `heuristiques` hard-code it. */
  const Width: int := 3

  /** Number of cells, `width * width`. */
  const Size: int := 9

  type Board = b: seq<int> | |b| == 9 witness [1, 2, 3, 4, 5, 6, 7, 8, 0]

  /** The goal: tiles 1..8 in row-major order, blank last. */
  const Solved: Board := [1, 2, 3, 4, 5, 6, 7, 8, 0]

  /** A grid position `(i, j)`; the source indexes `plateau[i][j]`. */
  datatype Cell = Cell(row: int, col: int)

  predicate InGrid(c: Cell)
  {
    0 <= c.row < Width && 0 <= c.col < Width
  }

  /** The row-major index of a grid cell. */
  function Index(c: Cell): (k: int)
    requires InGrid(c)
    ensures 0 <= k < Size
  {
    Width * c.row + c.col
  }

  /** The grid cell of a row-major index (`divmod(k, width)`). */
  function CellOf(k: int): (c: Cell)
    requires 0 <= k < Size
    ensures InGrid(c) && Index(c) == k
  {
    Cell(k / Width, k % Width)
  }

  /** Grid cells and row-major indices correspond one to one. */
  lemma CellOfIndex(c: Cell)
    requires InGrid(c)
    ensures CellOf(Index(c)) == c
  {
  }

  /** The cell's value, `plateau[i][j]`. */
  function At(b: Board, c: Cell): int
    requires InGrid(c)
  {
    b[Index(c)]
  }

  /** The row-major index of the first cell holding `v`. */
  function Position(b: Board, v: int): (k: int)
    requires v in b
    ensures 0 <= k < Size && b[k] == v
    ensures forall j :: 0 <= j < k ==> b[j] != v
  {
    FirstFrom(b, v, 0)
  }

  function FirstFrom(b: Board, v: int, k: nat): (r: int)
    requires k <= Size
    requires v in b[k..]
    ensures k <= r < Size && b[r] == v
    ensures forall j :: k <= j < r ==> b[j] != v
    decreases Size - k
  {
    if b[k] == v then k else FirstFrom(b, v, k + 1)
  }

  /**
   * The board invariant the console input guarantees: the nine cells hold
   * 0..8, each exactly once. Stated cell by cell from `k` on: the cell
   * holds a value in range and is the first cell holding it, and the value
   * `k` occurs somewhere.
   */
  predicate ValidFrom(b: Board, k: nat)
    decreases Size - k
  {
    k >= Size || (0 <= b[k] < Size && Position(b, b[k]) == k && k in b && ValidFrom(b, k + 1))
  }

  /**
   * A valid board is a permutation of 0..8: every cell holds a value in
   * 0..8, every value 0..8 is present, and no two cells hold the same
   * value (`ValidIntro` and `ValidDistinct` state it in these terms).
   */
  predicate Valid(b: Board)
  {
    ValidFrom(b, 0)
  }

  lemma {:induction false} ValidFromCell(b: Board, j: nat, k: int)
    requires ValidFrom(b, j)
    requires j <= k < Size
    ensures 0 <= b[k] < Size && Position(b, b[k]) == k && k in b
    decreases k - j
  {
    if j < k {
      ValidFromCell(b, j + 1, k);
    }
  }

  /** What the invariant says about one cell and one value. */
  lemma ValidCell(b: Board, k: int)
    requires Valid(b)
    requires 0 <= k < Size
    ensures 0 <= b[k] < Size && Position(b, b[k]) == k && k in b
  {
    ValidFromCell(b, 0, k);
  }

  /** On a valid board every cell holds a value in 0..8. */
  lemma ValidRange(b: Board)
    requires Valid(b)
    ensures forall k :: 0 <= k < Size ==> 0 <= b[k] < Size
  {
    forall k | 0 <= k < Size ensures 0 <= b[k] < Size {
      ValidCell(b, k);
    }
  }

  /** On a valid board no value occurs twice. */
  lemma ValidDistinct(b: Board, i: int, j: int)
    requires Valid(b)
    requires 0 <= i < Size && 0 <= j < Size && i != j
    ensures b[i] != b[j]
  {
    ValidCell(b, i);
    ValidCell(b, j);
  }

  lemma {:induction false} ValidFromIntro(b: Board, k: nat)
    requires forall k :: 0 <= k < Size ==> 0 <= b[k] < Size
    requires forall v :: 0 <= v < Size ==> v in b
    requires forall i, j :: 0 <= i < j < Size ==> b[i] != b[j]
    ensures ValidFrom(b, k)
    decreases Size - k
  {
    if k < Size {
      ValidFromIntro(b, k + 1);
      var p := Position(b, b[k]);
      assert b[p] == b[k];
    }
  }

  /** The board invariant from its three plain parts: values in range, all present, no repeats. */
  lemma ValidIntro(b: Board)
    requires forall k :: 0 <= k < Size ==> 0 <= b[k] < Size
    requires forall v :: 0 <= v < Size ==> v in b
    requires forall i, j :: 0 <= i < j < Size ==> b[i] != b[j]
    ensures Valid(b)
  {
    ValidFromIntro(b, 0);
  }

  /** The cell holding the blank. */
  function Blank(b: Board): (k: int)
    requires 0 in b
    ensures 0 <= k < Size && b[k] == 0
  {
    Position(b, 0)
  }

  /** On a valid board the blank is the only cell holding 0. */
  lemma BlankUnique(b: Board, k: int)
    requires Valid(b)
    requires 0 <= k < Size && b[k] == 0
    ensures Blank(b) == k
  {
    ValidCell(b, k);
  }

  /** `copy`: a fresh board with the same cells. */
  function Copy(b: Board): (r: Board)
    ensures r == b
  {
    seq(Size, k requires 0 <= k < Size => b[k])
  }

  /** The index exchanged with `k` when cells `i` and `j` are exchanged. */
  function Transpose(i: int, j: int, k: int): int
  {
    if k == i then j else if k == j then i else k
  }

  /**
   * `_move(at, to)`: a copy of the board in which the cells `at` and `to`
   * are exchanged; every other cell keeps its value.
   */
  function Exchange(b: Board, at: Cell, to: Cell): (r: Board)
    requires InGrid(at) && InGrid(to)
    ensures At(r, at) == At(b, to) && At(r, to) == At(b, at)
    ensures forall k :: 0 <= k < Size ==> r[k] == b[Transpose(Index(at), Index(to), k)]
  {
    var c := Copy(b);
    c[Index(at) := At(b, to)][Index(to) := At(b, at)]
  }

  /** Exchanging the same two cells again restores the board. */
  lemma ExchangeInvolution(b: Board, at: Cell, to: Cell)
    requires InGrid(at) && InGrid(to)
    ensures Exchange(Exchange(b, at, to), at, to) == b
  {
    var r := Exchange(Exchange(b, at, to), at, to);
    forall k | 0 <= k < Size ensures r[k] == b[k] {
    }
  }

  lemma ExchangeRange(b: Board, at: Cell, to: Cell)
    requires InGrid(at) && InGrid(to)
    requires forall k :: 0 <= k < Size ==> 0 <= b[k] < Size
    ensures forall k :: 0 <= k < Size ==> 0 <= Exchange(b, at, to)[k] < Size
  {
  }

  lemma ExchangePresent(b: Board, at: Cell, to: Cell, v: int)
    requires InGrid(at) && InGrid(to)
    requires v in b
    ensures v in Exchange(b, at, to)
  {
    var p := Position(b, v);
    assert Exchange(b, at, to)[Transpose(Index(at), Index(to), p)] == v;
  }

  lemma ExchangeDistinct(b: Board, at: Cell, to: Cell)
    requires InGrid(at) && InGrid(to)
    requires Valid(b)
    ensures forall l, k :: 0 <= l < k < Size ==> Exchange(b, at, to)[l] != Exchange(b, at, to)[k]
  {
    var r, i, j := Exchange(b, at, to), Index(at), Index(to);
    forall l, k | 0 <= l < k < Size ensures r[l] != r[k] {
      ValidDistinct(b, Transpose(i, j, l), Transpose(i, j, k));
    }
  }

  /** Exchanging `at` with `to` is exchanging `to` with `at`. */
  lemma ExchangeSymmetric(b: Board, at: Cell, to: Cell)
    requires InGrid(at) && InGrid(to)
    ensures Exchange(b, at, to) == Exchange(b, to, at)
  {
    var r, s := Exchange(b, at, to), Exchange(b, to, at);
    forall k | 0 <= k < Size ensures r[k] == s[k] {
    }
  }

  /** An exchange permutes the cells, so it keeps the board invariant. */
  lemma ExchangeValid(b: Board, at: Cell, to: Cell)
    requires InGrid(at) && InGrid(to)
    requires Valid(b)
    ensures Valid(Exchange(b, at, to))
  {
    var r := Exchange(b, at, to);
    ValidRange(b);
    ExchangeRange(b, at, to);
    forall v | 0 <= v < Size ensures v in r {
      ValidCell(b, v);
      ExchangePresent(b, at, to, v);
    }
    ExchangeDistinct(b, at, to);
    ValidIntro(r);
  }

  /** `str(taquin)`: the state key used for the visited set. */
  function Key(b: Board): string
  {
    Join(b)
  }

  /** `range(lo, hi)`. */
  function Range(lo: int, hi: int): (r: seq<int>)
    ensures |r| == if lo < hi then hi - lo else 0
    ensures forall i :: 0 <= i < |r| ==> r[i] == lo + i
    decreases hi - lo
  {
    if lo >= hi then [] else [lo] + Range(lo + 1, hi)
  }

  /**
   * `resolu`: the key equals `''.join(map(str, range(1, N))) + '0'` with
   * `N = width * width`.
   */
  predicate Resolu(b: Board)
  {
    Key(b) == Join(Range(1, Width * Width)) + "0"
  }

  /** The goal string is the key of the solved board, one digit per cell. */
  lemma GoalString()
    ensures Join(Range(1, Width * Width)) + "0" == Key(Solved)
  {
    assert Range(1, Width * Width) + [0] == Solved;
    JoinSnoc(Range(1, Width * Width), 0);
  }

  /**
   * The goal test holds exactly on the solved board, for every nine-cell
   * board of integers (multi-digit or negative values included).
   */
  lemma ResoluIff(b: Board)
    ensures Resolu(b) <==> b == Solved
  {
    GoalString();
    if Resolu(b) {
      SolvedKey(b);
    }
  }

  /** Only the solved board has the solved board's key. */
  lemma SolvedKey(b: Board)
    requires Key(b) == Key(Solved)
    ensures b == Solved
  {
    SolvedDigits();
    KeyInjective(b, Solved);
  }

  lemma SolvedDigits()
    ensures Digits(Solved)
  {
  }

  /**
   * The state key is injective against single-digit boards: a board whose
   * key equals that of a board of digits is that board.
   */
  lemma KeyInjective(a: Board, b: Board)
    requires Digits(b)
    requires Key(a) == Key(b)
    ensures a == b
  {
    JoinInjective(a, b);
  }

  /** Valid boards hold single digits, so their keys identify them. */
  lemma ValidKeyInjective(a: Board, b: Board)
    requires Valid(a) && Valid(b)
    ensures Key(a) == Key(b) <==> a == b
  {
    if Key(a) == Key(b) {
      ValidRange(b);
      KeyInjective(a, b);
    }
  }
}
