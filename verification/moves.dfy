/**
 * Move generation (`Taquin.actions`): for every cell in row-major order and
 * every direction in the order left, right, up, down, a move of the cell's
 * tile onto a neighbouring blank. The label names the direction in which
 * the TILE slides.
 */
module Moves {
  import opened Board

  /** `'La gauche'`, `'La droite'`, `'Le haut'`, `'Le bas'`. */
  datatype Label = LaGauche | LaDroite | LeHaut | LeBas

  /**
   * A move: the tile on `at` slides onto `to`, where the blank is
   * (`_move(at, to)`), labelled with its direction.
   */
  datatype Move = Move(at: Cell, to: Cell, action: Label)

  /** The neighbour of `c` in direction `d`, possibly off the grid. */
  function Neighbour(c: Cell, d: Label): Cell
  {
    match d
    case LaGauche => Cell(c.row, c.col - 1)
    case LaDroite => Cell(c.row, c.col + 1)
    case LeHaut => Cell(c.row - 1, c.col)
    case LeBas => Cell(c.row + 1, c.col)
  }

  function Opposite(d: Label): Label
  {
    match d
    case LaGauche => LaDroite
    case LaDroite => LaGauche
    case LeHaut => LeBas
    case LeBas => LeHaut
  }

  /** Going one way and then back is standing still. */
  lemma NeighbourOpposite(c: Cell, d: Label)
    ensures Neighbour(Neighbour(c, d), Opposite(d)) == c
  {
  }

  /** A neighbour on the grid is another cell. */
  lemma NeighbourDistinct(c: Cell, d: Label)
    requires InGrid(c) && InGrid(Neighbour(c, d))
    ensures Index(c) != Index(Neighbour(c, d))
  {
  }

  /** The move of the tile on `c` in direction `d`, if that neighbour is on the grid and blank. */
  function TryMove(b: Board, c: Cell, d: Label): seq<Move>
    requires InGrid(c)
  {
    var n := Neighbour(c, d);
    if n.row >= 0 && n.col >= 0 && n.row < Width && n.col < Width && At(b, n) == 0
    then [Move(c, n, d)]
    else []
  }

  /** The direction table of `actions`, in its insertion order. */
  const Directions: seq<Label> := [LaGauche, LaDroite, LeHaut, LeBas]

  /** The moves of the tile on `c` over the directions `ds`, in order. */
  function MovesIn(b: Board, c: Cell, ds: seq<Label>): seq<Move>
    requires InGrid(c)
  {
    if ds == [] then [] else TryMove(b, c, ds[0]) + MovesIn(b, c, ds[1..])
  }

  /** The moves of the tile on `c`, in the order of the direction table. */
  function CellMoves(b: Board, c: Cell): seq<Move>
    requires InGrid(c)
  {
    MovesIn(b, c, Directions)
  }

  /**
   * The moves of the tiles from cell (i, j) onwards in row-major order: the
   * nested loops of `itertools.product(range(3), range(3))`.
   */
  function ActionsFrom(b: Board, i: nat, j: nat): seq<Move>
    requires i <= Width && j <= Width
    decreases Width - i, Width - j
  {
    if i == Width then []
    else if j == Width then ActionsFrom(b, i + 1, 0)
    else CellMoves(b, Cell(i, j)) + ActionsFrom(b, i, j + 1)
  }

  /** `actions`: every legal move, row-major over the moving tile. */
  function Actions(b: Board): seq<Move>
  {
    ActionsFrom(b, 0, 0)
  }

  /** What makes a move legal: both cells on the grid, adjacent in the labelled direction, target blank. */
  predicate Legal(b: Board, m: Move)
  {
    && InGrid(m.at) && InGrid(m.to)
    && Neighbour(m.at, m.action) == m.to
    && At(b, m.to) == 0
  }

  /** Cell `c` comes at or after (i, j) in row-major order. */
  predicate FromCell(c: Cell, i: int, j: int)
  {
    c.row > i || (c.row == i && c.col >= j)
  }

  lemma {:induction false} MovesInMembership(b: Board, c: Cell, ds: seq<Label>, m: Move)
    requires InGrid(c)
    ensures m in MovesIn(b, c, ds) <==> Legal(b, m) && m.at == c && m.action in ds
  {
    if ds != [] {
      MovesInMembership(b, c, ds[1..], m);
      assert m.action in ds <==> m.action == ds[0] || m.action in ds[1..];
    }
  }

  lemma CellMovesMembership(b: Board, c: Cell, m: Move)
    requires InGrid(c)
    ensures m in CellMoves(b, c) <==> Legal(b, m) && m.at == c
  {
    MovesInMembership(b, c, Directions, m);
    assert Directions[0] == LaGauche && Directions[1] == LaDroite;
    assert Directions[2] == LeHaut && Directions[3] == LeBas;
  }

  /** Passing the end of a row: the membership facts carry over to the next row. */
  lemma RowStepMembership(b: Board, i: nat, m: Move)
    requires i < Width
    requires m in ActionsFrom(b, i + 1, 0) <==> Legal(b, m) && FromCell(m.at, i + 1, 0)
    ensures m in ActionsFrom(b, i, Width) <==> Legal(b, m) && FromCell(m.at, i, Width)
  {
  }

  /** One cell further: its own moves are added in front of the rest. */
  lemma CellStepMembership(b: Board, i: nat, j: nat, m: Move)
    requires i < Width && j < Width
    requires m in ActionsFrom(b, i, j + 1) <==> Legal(b, m) && FromCell(m.at, i, j + 1)
    requires m in CellMoves(b, Cell(i, j)) <==> Legal(b, m) && m.at == Cell(i, j)
    ensures m in ActionsFrom(b, i, j) <==> Legal(b, m) && FromCell(m.at, i, j)
  {
    assert ActionsFrom(b, i, j) == CellMoves(b, Cell(i, j)) + ActionsFrom(b, i, j + 1);
  }

  lemma {:induction false} ActionsFromMembership(b: Board, i: nat, j: nat, m: Move)
    requires i <= Width && j <= Width
    ensures m in ActionsFrom(b, i, j) <==> Legal(b, m) && FromCell(m.at, i, j)
    decreases Width - i, Width - j, 1
  {
    if i == Width {
      assert ActionsFrom(b, i, j) == [];
    } else if j == Width {
      RowCaseMembership(b, i, m);
    } else {
      CellCaseMembership(b, i, j, m);
    }
  }

  lemma {:induction false} RowCaseMembership(b: Board, i: nat, m: Move)
    requires i < Width
    ensures m in ActionsFrom(b, i, Width) <==> Legal(b, m) && FromCell(m.at, i, Width)
    decreases Width - i, 0, 0
  {
    ActionsFromMembership(b, i + 1, 0, m);
    assert ActionsFrom(b, i, Width) == ActionsFrom(b, i + 1, 0);
    assert Legal(b, m) ==> (FromCell(m.at, i, Width) <==> FromCell(m.at, i + 1, 0));
  }

  lemma {:induction false} CellCaseMembership(b: Board, i: nat, j: nat, m: Move)
    requires i < Width && j < Width
    ensures m in ActionsFrom(b, i, j) <==> Legal(b, m) && FromCell(m.at, i, j)
    decreases Width - i, Width - j, 0
  {
    ActionsFromMembership(b, i, j + 1, m);
    CellMovesMembership(b, Cell(i, j), m);
    CellStepMembership(b, i, j, m);
  }

  /**
   * On any nine-cell board, the generated moves are exactly the legal ones:
   * a tile on the grid next to a 0 in the labelled direction.
   */
  lemma ActionsMembership(b: Board, m: Move)
    ensures m in Actions(b) <==> Legal(b, m)
  {
    ActionsFromMembership(b, 0, 0, m);
  }

  /** `deplacement()`: `_move` applied to a move's two cells; the tile on `at` lands on `to` and the two trade places. */
  function Apply(b: Board, m: Move): (r: Board)
    requires InGrid(m.at) && InGrid(m.to)
    ensures At(r, m.to) == At(b, m.at) && At(r, m.at) == At(b, m.to)
    ensures forall k :: 0 <= k < Size && k != Index(m.at) && k != Index(m.to) ==> r[k] == b[k]
  {
    Exchange(b, m.at, m.to)
  }

  /**
   * Reference definition, from the blank's point of view: the tile above
   * slides down, the one on the left slides right, the one on the right
   * slides left, the one below slides up, each when it exists.
   */
  function BlankMoves(z: Cell): seq<Move>
    requires InGrid(z)
  {
    (if z.row > 0 then [Move(Cell(z.row - 1, z.col), z, LeBas)] else [])
    + (if z.col > 0 then [Move(Cell(z.row, z.col - 1), z, LaDroite)] else [])
    + (if z.col < Width - 1 then [Move(Cell(z.row, z.col + 1), z, LaGauche)] else [])
    + (if z.row < Width - 1 then [Move(Cell(z.row + 1, z.col), z, LeHaut)] else [])
  }

  // From here to `CellStepSweep`: proof aids that connect `Actions` to
  // `BlankMoves`. On a valid board the generated moves are the moves toward
  // the blank, swept over the nine cells in row-major order (`SweepFrom`),
  // and that sweep is unrolled to its nine literal terms. The unrolling is
  // split into small functions and per-cell lemmas so that each proof stays
  // within the verifier's resource budget; they model nothing of their own.

  /** The moves of the tile on `c` onto `z` over the directions `ds`: at most one, when `z` is a neighbour. */
  function TowardIn(c: Cell, z: Cell, ds: seq<Label>): seq<Move>
  {
    if ds == [] then []
    else (if Neighbour(c, ds[0]) == z then [Move(c, z, ds[0])] else []) + TowardIn(c, z, ds[1..])
  }

  function Toward(c: Cell, z: Cell): seq<Move>
  {
    TowardIn(c, z, Directions)
  }

  /** The move of the tile on `c` onto `z` in direction `d`, if `z` is that neighbour. */
  function Step(c: Cell, z: Cell, d: Label): seq<Move>
  {
    if Neighbour(c, d) == z then [Move(c, z, d)] else []
  }

  /** `Toward` with the direction table written out. */
  function Steps(c: Cell, z: Cell): seq<Move>
  {
    Step(c, z, LaGauche) + Step(c, z, LaDroite) + Step(c, z, LeHaut) + Step(c, z, LeBas)
  }

  lemma TowardSteps(c: Cell, z: Cell)
    ensures Toward(c, z) == Steps(c, z)
  {
    var ds := Directions;
    assert ds[1..] == [LaDroite, LeHaut, LeBas];
    assert ds[1..][1..] == [LeHaut, LeBas];
    assert ds[1..][1..][1..] == [LeBas];
    assert [LeBas][1..] == [];
    var t3 := TowardIn(c, z, [LeBas]);
    assert t3 == Step(c, z, LeBas) + TowardIn(c, z, []);
    var t2 := TowardIn(c, z, [LeHaut, LeBas]);
    assert t2 == Step(c, z, LeHaut) + t3;
    var t1 := TowardIn(c, z, [LaDroite, LeHaut, LeBas]);
    assert t1 == Step(c, z, LaDroite) + t2;
    assert Toward(c, z) == Step(c, z, LaGauche) + t1;
  }

  /** `Toward` the blank cell `z`, swept over the cells from (i, j) on in row-major order. */
  function SweepFrom(z: Cell, i: nat, j: nat): seq<Move>
    requires i <= Width && j <= Width
    decreases Width - i, Width - j
  {
    if i == Width then []
    else if j == Width then SweepFrom(z, i + 1, 0)
    else Toward(Cell(i, j), z) + SweepFrom(z, i, j + 1)
  }

  /** One row of the sweep, written out. */
  function SweepRow(z: Cell, i: int): seq<Move>
  {
    Steps(Cell(i, 0), z) + Steps(Cell(i, 1), z) + Steps(Cell(i, 2), z)
  }

  /** The nine terms of the sweep, row by row. */
  function Sweep(z: Cell): seq<Move>
  {
    SweepRow(z, 0) + (SweepRow(z, 1) + SweepRow(z, 2))
  }

  lemma SweepRowUnfold(z: Cell, i: nat)
    requires i < Width
    ensures SweepFrom(z, i, 0) == SweepRow(z, i) + SweepFrom(z, i + 1, 0)
  {
    TowardSteps(Cell(i, 0), z);
    TowardSteps(Cell(i, 1), z);
    TowardSteps(Cell(i, 2), z);
    assert SweepFrom(z, i, 2) == Toward(Cell(i, 2), z) + SweepFrom(z, i + 1, 0);
    assert SweepFrom(z, i, 1) == Toward(Cell(i, 1), z) + SweepFrom(z, i, 2);
    assert SweepFrom(z, i, 0) == Toward(Cell(i, 0), z) + SweepFrom(z, i, 1);
  }

  /** The sweep from row `i` on is the three rows; `i` stays symbolic so the sweep is not evaluated eagerly. */
  lemma SweepUnfold(z: Cell, i: nat)
    requires i == 0
    ensures SweepFrom(z, i, 0) == Sweep(z)
  {
    SweepRowUnfold(z, i);
    SweepRowUnfold(z, i + 1);
    SweepRowUnfold(z, i + 2);
    assert SweepFrom(z, i + 3, 0) == [];
    AppendEmpty(SweepRow(z, i + 2));
  }

  lemma AppendEmpty(s: seq<Move>)
    ensures s + [] == s
  {
  }

  // The sweep evaluated for each of the nine blank cells, one lemma per
  // cell: evaluating all nine in one proof exceeds the resource budget.

  lemma SweepAt00()
    ensures Sweep(Cell(0, 0)) == BlankMoves(Cell(0, 0))
  {
  }

  lemma SweepAt01()
    ensures Sweep(Cell(0, 1)) == BlankMoves(Cell(0, 1))
  {
  }

  lemma SweepAt02()
    ensures Sweep(Cell(0, 2)) == BlankMoves(Cell(0, 2))
  {
  }

  lemma SweepAt10()
    ensures Sweep(Cell(1, 0)) == BlankMoves(Cell(1, 0))
  {
  }

  lemma SweepAt11()
    ensures Sweep(Cell(1, 1)) == BlankMoves(Cell(1, 1))
  {
  }

  lemma SweepAt12()
    ensures Sweep(Cell(1, 2)) == BlankMoves(Cell(1, 2))
  {
  }

  lemma SweepAt20()
    ensures Sweep(Cell(2, 0)) == BlankMoves(Cell(2, 0))
  {
  }

  lemma SweepAt21()
    ensures Sweep(Cell(2, 1)) == BlankMoves(Cell(2, 1))
  {
  }

  lemma SweepAt22()
    ensures Sweep(Cell(2, 2)) == BlankMoves(Cell(2, 2))
  {
  }

  /** The row-major sweep toward a blank cell lists the blank's moves in the reference order. */
  lemma SweepIsBlankMoves(z: Cell)
    requires InGrid(z)
    ensures SweepFrom(z, 0, 0) == BlankMoves(z)
  {
    SweepUnfold(z, 0);
    match z
    case Cell(0, 0) => SweepAt00();
    case Cell(0, 1) => SweepAt01();
    case Cell(0, 2) => SweepAt02();
    case Cell(1, 0) => SweepAt10();
    case Cell(1, 1) => SweepAt11();
    case Cell(1, 2) => SweepAt12();
    case Cell(2, 0) => SweepAt20();
    case Cell(2, 1) => SweepAt21();
    case Cell(2, 2) => SweepAt22();
  }

  lemma {:induction false} ActionsFromIsSweep(b: Board, i: nat, j: nat)
    requires Valid(b)
    requires i <= Width && j <= Width
    ensures ActionsFrom(b, i, j) == SweepFrom(CellOf(Blank(b)), i, j)
    decreases Width - i, Width - j, 1
  {
    if i == Width {
      assert ActionsFrom(b, i, j) == [] == SweepFrom(CellOf(Blank(b)), i, j);
    } else if j == Width {
      RowCaseSweep(b, i);
    } else {
      CellCaseSweep(b, i, j);
    }
  }

  lemma {:induction false} RowCaseSweep(b: Board, i: nat)
    requires Valid(b)
    requires i < Width
    ensures ActionsFrom(b, i, Width) == SweepFrom(CellOf(Blank(b)), i, Width)
    decreases Width - i, 0, 0
  {
    ActionsFromIsSweep(b, i + 1, 0);
    RowStepSweep(b, CellOf(Blank(b)), i);
  }

  lemma {:induction false} CellCaseSweep(b: Board, i: nat, j: nat)
    requires Valid(b)
    requires i < Width && j < Width
    ensures ActionsFrom(b, i, j) == SweepFrom(CellOf(Blank(b)), i, j)
    decreases Width - i, Width - j, 0
  {
    ActionsFromIsSweep(b, i, j + 1);
    CellMovesToward(b, Cell(i, j), Directions);
    CellStepSweep(b, CellOf(Blank(b)), i, j);
  }

  lemma RowStepSweep(b: Board, z: Cell, i: nat)
    requires i < Width
    requires ActionsFrom(b, i + 1, 0) == SweepFrom(z, i + 1, 0)
    ensures ActionsFrom(b, i, Width) == SweepFrom(z, i, Width)
  {
  }

  lemma CellStepSweep(b: Board, z: Cell, i: nat, j: nat)
    requires i < Width && j < Width
    requires ActionsFrom(b, i, j + 1) == SweepFrom(z, i, j + 1)
    requires MovesIn(b, Cell(i, j), Directions) == TowardIn(Cell(i, j), z, Directions)
    ensures ActionsFrom(b, i, j) == SweepFrom(z, i, j)
  {
  }

  /** On a valid board a tile can only move onto the blank's cell. */
  lemma TryMoveToward(b: Board, c: Cell, d: Label)
    requires Valid(b)
    requires InGrid(c)
    ensures TryMove(b, c, d) == if Neighbour(c, d) == CellOf(Blank(b)) then [Move(c, CellOf(Blank(b)), d)] else []
  {
    var n := Neighbour(c, d);
    if InGrid(n) && At(b, n) == 0 {
      BlankUnique(b, Index(n));
      CellOfIndex(n);
    }
  }

  /** On a valid board the moves of a tile are its moves toward the blank. */
  lemma {:induction false} CellMovesToward(b: Board, c: Cell, ds: seq<Label>)
    requires Valid(b)
    requires InGrid(c)
    ensures MovesIn(b, c, ds) == TowardIn(c, CellOf(Blank(b)), ds)
  {
    if ds != [] {
      CellMovesToward(b, c, ds[1..]);
      TryMoveToward(b, c, ds[0]);
    }
  }

  /**
   * On a valid board `actions` lists one move per grid neighbour of the
   * unique blank, in the order: tile above (slides down), tile on the left
   * (slides right), tile on the right (slides left), tile below (slides up).
   */
  lemma ActionsAreBlankMoves(b: Board)
    requires Valid(b)
    ensures Actions(b) == BlankMoves(CellOf(Blank(b)))
  {
    ActionsFromIsSweep(b, 0, 0);
    SweepIsBlankMoves(CellOf(Blank(b)));
  }

  /** The position of a label in the order the moves come out. */
  function Rank(d: Label): int
  {
    match d
    case LeBas => 0
    case LaDroite => 1
    case LaGauche => 2
    case LeHaut => 3
  }

  /**
   * The blank's moves: two at a corner, three on an edge, four at the
   * centre; labels strictly in the order `Le bas, La droite, La gauche,
   * Le haut`, tiles strictly in row-major order, every move ending on the
   * blank and legal there.
   */
  predicate Shaped(ms: seq<Move>, z: Cell)
    requires InGrid(z)
  {
    && |ms| == (if z == Cell(1, 1) then 4 else if z.row != 1 && z.col != 1 then 2 else 3)
    && (forall i, j :: 0 <= i < j < |ms| ==> Rank(ms[i].action) < Rank(ms[j].action))
    && (forall i :: 0 <= i < |ms| ==> ms[i].to == z && InGrid(ms[i].at) && Neighbour(ms[i].at, ms[i].action) == z)
    && (forall i, j :: 0 <= i < j < |ms| ==> Index(ms[i].at) < Index(ms[j].at))
  }

  lemma BlankMovesCount(z: Cell)
    requires InGrid(z)
    ensures |BlankMoves(z)| == (if z == Cell(1, 1) then 4 else if z.row != 1 && z.col != 1 then 2 else 3)
  {
  }

  lemma BlankMovesRanked(z: Cell)
    requires InGrid(z)
    ensures forall i, j :: 0 <= i < j < |BlankMoves(z)| ==> Rank(BlankMoves(z)[i].action) < Rank(BlankMoves(z)[j].action)
  {
  }

  lemma BlankMovesOnto(z: Cell)
    requires InGrid(z)
    ensures forall i :: 0 <= i < |BlankMoves(z)| ==>
      BlankMoves(z)[i].to == z && InGrid(BlankMoves(z)[i].at) && Neighbour(BlankMoves(z)[i].at, BlankMoves(z)[i].action) == z
  {
  }

  lemma BlankMovesOrdered(z: Cell)
    requires InGrid(z)
    ensures forall i :: 0 <= i < |BlankMoves(z)| ==> InGrid(BlankMoves(z)[i].at)
    ensures forall i, j :: 0 <= i < j < |BlankMoves(z)| ==> Index(BlankMoves(z)[i].at) < Index(BlankMoves(z)[j].at)
  {
  }

  lemma BlankMovesShape(z: Cell)
    requires InGrid(z)
    ensures Shaped(BlankMoves(z), z)
  {
    BlankMovesCount(z);
    BlankMovesRanked(z);
    BlankMovesOnto(z);
    BlankMovesOrdered(z);
  }

  lemma ActionsShape(b: Board)
    requires Valid(b)
    ensures Shaped(Actions(b), CellOf(Blank(b)))
  {
    ActionsAreBlankMoves(b);
    BlankMovesShape(CellOf(Blank(b)));
  }

  /** A valid board always has a move. */
  lemma ActionsNonEmpty(b: Board)
    requires Valid(b)
    ensures |Actions(b)| >= 2
  {
    ActionsShape(b);
  }

  /**
   * A legal move keeps the board valid, moves a tile (never the blank) onto
   * the blank's cell and leaves the blank on the tile's former cell.
   */
  lemma LegalEffect(b: Board, m: Move)
    requires Valid(b)
    requires Legal(b, m)
    ensures Valid(Apply(b, m))
    ensures At(b, m.at) != 0
    ensures At(Apply(b, m), m.at) == 0 && At(Apply(b, m), m.to) == At(b, m.at)
    ensures Blank(Apply(b, m)) == Index(m.at)
  {
    LegalExchange(b, m);
    BlankUnique(Apply(b, m), Index(m.at));
  }

  /** A legal move never moves the blank. */
  lemma LegalTile(b: Board, m: Move)
    requires Valid(b)
    requires Legal(b, m)
    ensures At(b, m.at) != 0
  {
    NeighbourDistinct(m.at, m.action);
    ValidDistinct(b, Index(m.at), Index(m.to));
  }

  lemma LegalExchange(b: Board, m: Move)
    requires Valid(b)
    requires Legal(b, m)
    ensures Valid(Apply(b, m))
    ensures At(b, m.at) != 0
    ensures At(Apply(b, m), m.at) == 0 && At(Apply(b, m), m.to) == At(b, m.at)
  {
    ExchangeValid(b, m.at, m.to);
    LegalTile(b, m);
  }

  /** The same, for a move produced by `actions`. */
  lemma MoveEffect(b: Board, m: Move)
    requires Valid(b)
    requires m in Actions(b)
    ensures Legal(b, m)
    ensures Valid(Apply(b, m))
    ensures At(b, m.at) != 0 && At(b, m.to) == 0
    ensures Blank(Apply(b, m)) == Index(m.at)
  {
    ActionsMembership(b, m);
    LegalEffect(b, m);
  }

  /** The move that undoes `m`: the tile slides back the opposite way. */
  function Reverse(m: Move): Move
  {
    Move(m.to, m.at, Opposite(m.action))
  }

  /**
   * From the child, the reverse move (opposite label) is legal and restores
   * the original board.
   */
  lemma ReverseRestores(b: Board, m: Move)
    requires Legal(b, m)
    ensures Legal(Apply(b, m), Reverse(m))
    ensures Apply(Apply(b, m), Reverse(m)) == b
  {
    NeighbourOpposite(m.at, m.action);
    ExchangeInvolution(b, m.at, m.to);
    ExchangeSymmetric(Exchange(b, m.at, m.to), m.to, m.at);
  }

  /** `b2` is reachable from `b1` by one legal move. */
  ghost predicate Successor(b1: Board, b2: Board)
  {
    exists m :: Legal(b1, m) && Apply(b1, m) == b2
  }

  /** The successors are exactly the children `actions` generates. */
  lemma SuccessorIff(b1: Board, b2: Board)
    ensures Successor(b1, b2) <==> exists i :: 0 <= i < |Actions(b1)| && Legal(b1, Actions(b1)[i]) && Apply(b1, Actions(b1)[i]) == b2
  {
    var acts := Actions(b1);
    if Successor(b1, b2) {
      var m :| Legal(b1, m) && Apply(b1, m) == b2;
      ActionsMembership(b1, m);
      var i :| 0 <= i < |acts| && acts[i] == m;
      assert Legal(b1, acts[i]) && Apply(b1, acts[i]) == b2;
    }
    if exists i :: 0 <= i < |acts| && Legal(b1, acts[i]) && Apply(b1, acts[i]) == b2 {
      var i :| 0 <= i < |acts| && Legal(b1, acts[i]) && Apply(b1, acts[i]) == b2;
      var m := acts[i];
      assert Legal(b1, m) && Apply(b1, m) == b2;
    }
  }

  /** A sequence of boards starting at `start`, each reached from the previous by a legal move. */
  ghost predicate Walk(start: Board, w: seq<Board>)
  {
    && |w| >= 1 && w[0] == start
    && forall k :: 0 <= k < |w| - 1 ==> Successor(w[k], w[k + 1])
  }

  /** Moves between valid boards are symmetric. */
  lemma SuccessorSymmetric(b1: Board, b2: Board)
    requires Valid(b1)
    requires Successor(b1, b2)
    ensures Valid(b2) && Successor(b2, b1)
  {
    var m :| Legal(b1, m) && Apply(b1, m) == b2;
    LegalEffect(b1, m);
    ReverseRestores(b1, m);
  }

  /** Every board on a walk from a valid board is valid. */
  lemma {:induction false} WalkValidAt(start: Board, w: seq<Board>, k: int)
    requires Valid(start) && Walk(start, w)
    requires 0 <= k < |w|
    ensures Valid(w[k])
  {
    if k > 0 {
      WalkValidAt(start, w, k - 1);
      SuccessorSymmetric(w[k - 1], w[k]);
    }
  }

  /** Every step of a walk from a valid board can be taken back. */
  lemma WalkStepBack(start: Board, w: seq<Board>, j: int)
    requires Valid(start) && Walk(start, w)
    requires 0 <= j < |w| - 1
    ensures Successor(w[j + 1], w[j])
  {
    WalkValidAt(start, w, j);
    SuccessorSymmetric(w[j], w[j + 1]);
  }

  /** The boards of `w` from last to first. */
  function Reversed(w: seq<Board>): (r: seq<Board>)
    ensures |r| == |w|
    ensures forall k :: 0 <= k < |w| ==> r[k] == w[|w| - 1 - k]
  {
    seq(|w|, k requires 0 <= k < |w| => w[|w| - 1 - k])
  }

  /** Reading a walk backwards is a walk again: every shuffle can be undone. */
  lemma WalkReversed(start: Board, w: seq<Board>)
    requires Valid(start) && Walk(start, w)
    ensures Walk(w[|w| - 1], Reversed(w))
  {
    var r := Reversed(w);
    forall k | 0 <= k < |r| - 1 ensures Successor(r[k], r[k + 1]) {
      var j := |w| - 2 - k;
      WalkStepBack(start, w, j);
      assert r[k] == w[j + 1] && r[k + 1] == w[j];
    }
  }
}
