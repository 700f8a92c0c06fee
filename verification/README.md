# Taquin: the 8-puzzle solver core, modelled in Dafny

This project models the search core of a 3x3 sliding-tile puzzle (taquin) solver, as written twice in `taquin.py` and `TaquinV5.py`. It covers:

- the board (`Taquin`): goal test `resolu`, move generation `actions`, the copying swap `_move`, the Manhattan distance and the string key `__str__`;
- the search node (`Node`): `g`, `f`, `state` and `chemin`;
- the best-first search `Solver.resoudre`;
- the combined heuristic `heuristiques` of the second file;
- `shuffle`, with its random choices given as picks.

Modules, one per file:

| module | file | models |
|---|---|---|
| `Wrappers` | wrappers.dfy | `Option` |
| `Text` | text.dfy | `str(int)` and `''.join(map(str, xs))` |
| `Board` | board.dfy | the board, the board invariant, `copy`, `_move`, the key, `resolu` |
| `Moves` | moves.dfy | labels and moves, `actions`, legality, reverse moves, walks |
| `Distance` | manhattan.dfy | `manhattan` |
| `Heuristics` | heuristics.dfy | `heuristiques`: d1..d8, h1..h6 and their minimum |
| `Sorting` | sorting.dfy | `sorted(..., key=...)`, a stable sort |
| `Nodes` | node.dfy | `Node`, `g`, `h`, `f`, `state`, `chemin` |
| `Solver` | solver.dfy | `resoudre`, its loop and invariants |
| `Shuffle` | shuffle.dfy | `shuffle` |

A board is the row-major flattening of the 3x3 `plateau`, a `seq<int>` of length 9. This flattening is exactly the order of `__iter__`. The board invariant `Valid` says the cells hold 0..8, each once; the console input guarantees it. A `Move(at, to, action)` slides the tile on `at` onto the blank on `to`. Its label names the direction the TILE slides; this is what the code computes, while the docstring of `actions` speaks of the blank. The two solvers differ only in `Node.h`. The search is written once, over a priority function, and `Resoudre` instantiates it with `f` of either variant.

## Model

| member | source | states |
|---|---|---|
| Text.JoinInjective | taquin.py:214-219 | Two boards of the same length whose joined digit strings are equal are equal, provided one of them holds single digits only. |
| Text.JoinLength | taquin.py:214-215 | For `Text.Join` (`''.join(map(str, xs))`): every value contributes at least one character; the string has one character per value exactly when all values are digits. |
| Board.Exchange | taquin.py:196-207 | `_move` on a copy: the two given cells trade values, and every cell of the result is the original's cell under the transposition of the two indices. |
| Board.Copy | taquin.py:187-194 | `copy` yields a board equal to the original. |
| Board.ExchangeInvolution | taquin.py:196-207 | Exchanging the same two cells twice gives back the original board. |
| Board.ExchangeSymmetric | taquin.py:196-207 | Exchanging `at` with `to` is the same as exchanging `to` with `at`. |
| Board.ExchangeValid | taquin.py:196-207 | An exchange keeps the board a permutation of 0..8. |
| Board.ValidIntro | taquin.py:238-251 | Values in range, all present and pairwise distinct together make a valid board. |
| Board.ValidDistinct | taquin.py:238-251 | On a valid board no value occurs in two cells. |
| Board.BlankUnique | taquin.py:159-160 | On a valid board the blank found by the first-occurrence scan is the only cell holding 0, the one every move targets. |
| Board.GoalString | taquin.py:128-135 | The goal string `'12345678' + '0'` is the key of the solved board. |
| Board.ResoluIff | taquin.py:128-135 | `resolu` (`Board.Resolu`) holds exactly on the board 1..8 followed by 0, for every nine-cell board of integers, multi-digit and negative values included. |
| Board.ValidKeyInjective | taquin.py:214-219 | On valid boards the key `Board.Key` (`__str__`) identifies the board: equal keys exactly when the boards are equal. |
| Board.Range | taquin.py:135 | `range(lo, hi)` has `hi - lo` elements when `lo < hi` and none otherwise; element `i` is `lo + i`. |
| Text.IntToStr | taquin.py:215 | `str` of an integer has at least one character, exactly one when the integer is 0..9, and then it is that digit. |
| Moves.NeighbourOpposite | taquin.py:153-156 | Stepping in a direction and then in its opposite returns to the start cell. |
| Moves.ActionsMembership | taquin.py:150-162 | Characterises `actions` (`Moves.Actions`) on every nine-cell board: a move is in it exactly when both its cells are on the grid, the target is the labelled neighbour of the tile's cell, and the target holds the blank. |
| Moves.ActionsAreBlankMoves | taquin.py:150-162 | On a valid board `actions` equals an independent list built from the blank's side: the tile above, then left, then right, then below, each present only if on the grid. |
| Moves.ActionsShape | taquin.py:150-162 | On a valid board there are 2 moves at a corner, 3 on an edge and 4 at the centre. Labels come in the order Le bas, La droite, La gauche, Le haut. The moving tiles are in row-major order and every move ends on the blank. |
| Moves.ActionsNonEmpty | taquin.py:150-162 | A valid board always has at least two moves. |
| Moves.Apply | taquin.py:144-145 | Calling `deplacement()`, i.e. `_move(de, vers)`: the tile on the move's first cell lands on its second cell, the two cells trade values, and the other seven cells keep theirs. |
| Moves.LegalEffect | taquin.py:158-162 | A legal move keeps the board valid and moves a tile, never the blank, onto the blank's cell. Afterwards the blank is on the tile's former cell. |
| Moves.MoveEffect | taquin.py:158-162 | The same for every move `actions` produces: it is legal, its target is blank, the result is valid and the blank ends on the tile's former cell. |
| Moves.ReverseRestores | taquin.py:196-207 | For any legal move, valid board or not: from the child, the reverse move (opposite label) is legal and gives back the original board. |
| Moves.SuccessorIff | taquin.py:150-162 | A board is a successor of another exactly when it is the child of one of the other's `actions`. |
| Moves.SuccessorSymmetric | taquin.py:158-162 | Between valid boards, being one move apart is symmetric, and the successor is valid. |
| Moves.WalkValidAt | taquin.py:158-162 | Every board on a walk of legal moves from a valid board is valid. |
| Moves.WalkReversed | taquin.py:178-185 | A walk of legal moves read backwards is a walk again, from its last board to its first. |
| Distance.TileDistance | taquin.py:171-175 | A tile's term is non-negative; for a tile it is 0 exactly when the tile stands on its home cell. |
| Distance.Manhattan | taquin.py:165-176 | `manhattan` is never negative; `ManhattanZeroIff` and `ManhattanMove` below characterise it further. |
| Distance.ManhattanSolved | taquin.py:165-176 | `manhattan` is 0 on the solved board. |
| Distance.ManhattanZeroIff | taquin.py:165-176 | On a valid board `manhattan` is 0 exactly on the solved board. |
| Distance.ManhattanFromChange | taquin.py:165-176 | Boards that agree outside two cells differ in distance by exactly those two cells' terms. |
| Distance.TileStep | taquin.py:171-175 | Moving a tile to a neighbouring cell changes its term by exactly one. |
| Distance.ManhattanMove | taquin.py:165-176 | Every legal move changes `manhattan` by exactly one. |
| Heuristics.ValidTilesPresent | TaquinV5.py:203-229 | On a valid board every tile 1..8 is present, so every `dist_*` is bound. |
| Heuristics.LastIndexOf | TaquinV5.py:203-229 | The cell the scan records for a value holds it, and no later cell does: a later find overwrites an earlier one. |
| Heuristics.H1 | TaquinV5.py:231-232 | h1 is non-negative and a whole number of quarters: `abs(W1)/4`. |
| Heuristics.H2 | TaquinV5.py:237-238 | h2 is non-negative and a whole number. |
| Heuristics.H3 | TaquinV5.py:244-245 | h3 is non-negative and a whole number of quarters. |
| Heuristics.H4 | TaquinV5.py:251-252 | h4 is non-negative and a whole number. |
| Heuristics.H5 | TaquinV5.py:258-259 | h5 is non-negative and a whole number of quarters. |
| Heuristics.H6 | TaquinV5.py:265-268 | h6 is `manhattan`, a non-negative whole number. |
| Heuristics.Smallest | TaquinV5.py:234-268 | The running minimum is one of the six candidates and no larger than any of them. |
| Heuristics.Heuristiques | TaquinV5.py:230-271 | `heuristiques` is one of h1..h6 and at most each of them. Hence it is non-negative, at most `manhattan` and a whole number of quarters. |
| Heuristics.DistSum | TaquinV5.py:176-187 | On a valid board the per-tile distances d1 + ... + d8, computed by `Heuristics.D` from the `dist_a`..`dist_i` positions, sum to `manhattan`. |
| Heuristics.SharesFromManhattan | TaquinV5.py:201-229 | Summing the per-tile terms over the tiles found on cells `k..` gives the Manhattan loop's sum over the same cells. |
| Heuristics.HeuristiquesZeroIff | TaquinV5.py:190-271 | On a valid board `heuristiques` is 0 exactly on the solved board. |
| Sorting.SortByKey | taquin.py:99 | The sort returns a permutation of its input, sorted by key. |
| Sorting.SortStable | taquin.py:99 | For every key, the entries with that key keep their relative order: the sort is stable. |
| Sorting.StableUnique | taquin.py:99 | Two sorted lists that agree on every key's subsequence are equal, so every stable sort gives the same result, Python's `sorted` included. |
| Sorting.SortHead | taquin.py:99-101 | The front of the sorted list is the first entry of smallest key in the original order. |
| Nodes.MakeNode | taquin.py:15-24 | The constructor stores board, parent and action. A root has depth 0 and a child has its parent's depth plus one. So a root's depths are consistent, and so are a child's under a parent with consistent depths. |
| Nodes.StateIdentifies | taquin.py:33-38 | On valid boards two nodes have the same `state` exactly when they hold the same board, so `vu` can stand for the set of boards seen. |
| Nodes.H | TaquinV5.py:72-75 | `h` of either variant is non-negative and at most `manhattan`. |
| Nodes.F | TaquinV5.py:77-80 | `f` is at least the depth and at most depth plus `manhattan`. |
| Nodes.Chemin | taquin.py:40-49 | `chemin` starts at a root, ends at the node, and each node on it is the parent of the next. |
| Nodes.CheminDepths | taquin.py:40-49 | On a path with consistent depths, the node at position `k` has depth `k`, and the path has `g + 1` nodes. |
| Nodes.RootedValid | taquin.py:108-109 | Every node grown from a valid start by legal moves has a valid board. |
| Nodes.CheminSolution | taquin.py:103-104 | The path of a node grown from the start and on a solved board is a solution path: it starts at the root on the start board, each node is a child of the previous one by a legal move with its label, depths are positions, and the last board is solved. |
| Nodes.SolutionWalk | taquin.py:40-49 | The boards of a solution path form a walk of legal moves. |
| Solver.Select | taquin.py:99-101 | Sorting and popping takes the first entry of minimal `f` in deque order. The rest is sorted, the two together are the deque's entries, and entries with equal `f` keep their deque order: the sort is stable. |
| Solver.SelectIsSorted | taquin.py:99-101 | Any sorted list that keeps the deque order among equal `f` values, as Python's stable `sorted` does, is exactly the popped entry followed by the rest. |
| Solver.SelectMembers | taquin.py:99-101 | An entry is on the deque exactly when it is the popped one or on the rest. |
| Solver.DistinctBoards | taquin.py:108-114 | A deque with as many boards as entries has no board twice. |
| Solver.PushStep | taquin.py:108-114 | Pushing a child with a new key and recording it keeps the invariant. The invariant: entries are rooted, valid and carry their priority; the keys in `vu` are exactly those of the seen boards; every seen board is closed or on the deque; the deque holds no board twice; no closed board is solved. |
| Solver.PopDistinct | taquin.py:99-101 | Popping keeps the deque's boards distinct. |
| Solver.PopCovered | taquin.py:99-101 | After closing the popped board, every seen board is still closed or on the deque. |
| Solver.InitState | taquin.py:93-96 | The start state (root alone on the deque, its key alone in `vu`) satisfies the invariant. |
| Solver.ChildOf | taquin.py:109 | `Node(deplacement(), node, action)`: the child's parent is the node, its action is the move's label and its board is the move applied to the node's board; its depth is the node's plus one, and consistent under a node with consistent depths. |
| Solver.PushAll | taquin.py:108-114 | Reference definition of the loop, one move at a time in `actions` order: a child with a new key goes on the front and its key into `vu`. The old deque stays at the back and `vu` only grows. |
| Solver.Expand | taquin.py:108-114 | The loop leaves exactly the deque and `vu` of `PushAll`, so the children are on the front in the reverse of their `actions` order, which decides ties in `f`. It keeps the invariant, and afterwards every child of the node has been seen. If nothing new was seen, the deque is unchanged. |
| Solver.Shrinks | taquin.py:97-114 | Each round that records a new board strictly reduces the set of unseen valid boards; this bounds the loop. |
| Solver.Exhausted | taquin.py:97-114 | When the deque runs empty, no walk of legal moves from the start reaches a solved board. |
| Solver.Search | taquin.py:93-114 | For any priority defined on boards holding all tiles: a returned path is a solution path from the start. `None` means no walk of legal moves from the start reaches the goal. |
| Solver.Resoudre | TaquinV5.py:96-125 | `resoudre` of either variant, ordered by its `f`, has the same two guarantees as `Search`. |
| Shuffle.Pick | TaquinV5.py:275-282 | The given choice is an element of the list, and the element at that index when the index is in range. |
| Shuffle.Choose | taquin.py:184 | The move `random.choice(taquin.actions)` makes, with its choice given as a pick, is legal. |
| Shuffle.ChooseAction | taquin.py:178-185 | The chosen move is one of `actions`, and the one at the pick's index when that is in range. |
| Shuffle.Trail | taquin.py:178-185 | The boards the shuffle passes through: one more than there are picks, starting at the start board, all valid. |
| Shuffle.Scramble | taquin.py:178-185 | The board `shuffle` returns, the last of the trail, is valid. |
| Shuffle.TrailWalk | taquin.py:178-185 | Every step of the shuffle is one legal move. |
| Shuffle.ScrambleUndo | taquin.py:178-185 | The shuffle can be undone: its trail read backwards is a walk of legal moves from the shuffled board back to the start. |

## Left out

- Console interaction is not modelled: reading the board from the user, the top-level script, `afficher` and timing. These are I/O only. What the input loop guarantees (nine values in 0..8, none repeated, taquin.py:238-251) is the precondition `Valid`.
- Randomness in `shuffle` is not modelled: the choices of `random.choice` are given as a list of picks. The fixed count of 1000 is the length of that list.
- The statistics globals and `nb_iterations` of the second file are not modelled: they record values and do not affect any result.
- Floats are not modelled: h1..h6 and `f` are exact rationals. `/4` on the integer sums is exact there, while the source rounds to binary floating point.
- Generators are not modelled: `chemin` is a sequence rather than a lazy generator.
- Widths other than 3 are not modelled; `manhattan` and `heuristiques` hard-code 3 anyway.
- Optimality of the returned path is not modelled: the source closes a board when it is enqueued and never reopens it, and promises no shortest path.
- Calls to `Node.resolu`, `Node.actions` and `Node.__str__` are not modelled separately: they delegate to the board.
- `Taquin.__init__` is not modelled: its `width` is always 3, the length of the first row of a 3x3 plateau.
- Nodes.H: states the bound `0 <= h <= manhattan` rather than the value, which `Heuristics.Heuristiques` and `Distance.Manhattan` define.
- Nodes.F: states only the bounds of `f = h + g`; the value is `H + g` by definition.
- Solver.Search: is written over any priority on nodes, not over the two concrete `f`; `Solver.Resoudre` supplies them. Its contract proves soundness and completeness of the answer, and termination through `Shrinks`, but not which solution path is found.
