/**
 * Search nodes (`Node`): a board, the parent node, the label of the move
 * that produced it, and its depth `g`. `f = h + g`, with `h` the heuristic
 * of the solver variant; `chemin` is the path from the root.
 */
module Nodes {
  import opened Wrappers
  import opened Board
  import opened Moves
  import opened Distance
  import opened Heuristics

  datatype Node = Node(taquin: Board, parent: Option<Node>, action: Option<Label>, g: int)

  /** `Node(taquin, parent, action)`: the depth is 0 at the root and one more than the parent's below it. */
  function MakeNode(taquin: Board, parent: Option<Node>, action: Option<Label>): (n: Node)
    ensures n.taquin == taquin && n.parent == parent && n.action == action
    ensures parent.None? ==> n.g == 0 && Depths(n)
    ensures parent.Some? ==> n.g == parent.value.g + 1
    ensures parent.Some? && Depths(parent.value) ==> Depths(n)
  {
    Node(taquin, parent, action, if parent.Some? then parent.value.g + 1 else 0)
  }

  /** Every depth on the parent chain is the one the constructor computes. */
  predicate Depths(n: Node)
    decreases n
  {
    match n.parent
    case None => n.g == 0
    case Some(p) => n.g == p.g + 1 && Depths(p)
  }

  /** The two solvers: `taquin.py` drives the search with `manhattan`, `TaquinV5.py` with `heuristiques`. */
  datatype Variant = Classic | Combined

  /** `Node.h` of the variant, as an exact value. */
  function H(variant: Variant, b: Board): (h: real)
    requires variant.Combined? ==> TilesPresent(b)
    ensures 0.0 <= h <= Manhattan(b) as real
  {
    match variant
    case Classic => Manhattan(b) as real
    case Combined => Heuristiques(b)
  }

  /** `Node.f` (and `Node.score`, which is the same sum): depth plus heuristic, never below the depth. */
  function F(variant: Variant, n: Node): (f: real)
    requires variant.Combined? ==> TilesPresent(n.taquin)
    ensures n.g as real <= f <= (n.g + Manhattan(n.taquin)) as real
  {
    H(variant, n.taquin) + n.g as real
  }

  /** `Node.state`: the board's key. */
  function State(n: Node): string
  {
    Key(n.taquin)
  }

  /** On valid boards `state` identifies the board: two nodes have the same state exactly when they hold the same board. */
  lemma StateIdentifies(n1: Node, n2: Node)
    requires Valid(n1.taquin) && Valid(n2.taquin)
    ensures State(n1) == State(n2) <==> n1.taquin == n2.taquin
  {
    ValidKeyInjective(n1.taquin, n2.taquin);
  }

  /** `chemin`: the nodes from the root down to `n`. */
  function Chemin(n: Node): (p: seq<Node>)
    ensures |p| >= 1 && p[|p| - 1] == n && p[0].parent.None?
    ensures forall k :: 1 <= k < |p| ==> p[k].parent == Some(p[k - 1])
    decreases n
  {
    match n.parent
    case None => [n]
    case Some(q) => Chemin(q) + [n]
  }

  /** Along a path whose depths are consistent, the node at position `k` has depth `k`. */
  lemma {:induction false} CheminDepths(n: Node)
    requires Depths(n)
    ensures |Chemin(n)| == n.g + 1
    ensures forall k :: 0 <= k < |Chemin(n)| ==> Chemin(n)[k].g == k
    decreases n
  {
    match n.parent
    case None =>
    case Some(q) =>
      CheminDepths(q);
  }

  /** `n` is produced from `p` by one legal move with its label. */
  ghost predicate Child(p: Node, n: Node)
  {
    exists m :: Legal(p.taquin, m) && n.action == Some(m.action) && n.taquin == Apply(p.taquin, m)
  }

  /** `n` descends from a root on `start` by legal moves, with consistent depths. */
  ghost predicate Rooted(start: Board, n: Node)
    decreases n
  {
    match n.parent
    case None => n.taquin == start && n.g == 0 && n.action.None?
    case Some(p) => n.g == p.g + 1 && Child(p, n) && Rooted(start, p)
  }

  lemma {:induction false} RootedDepths(start: Board, n: Node)
    requires Rooted(start, n)
    ensures Depths(n)
    decreases n
  {
    match n.parent
    case None =>
    case Some(p) =>
      RootedDepths(start, p);
  }

  /** Every board reached from a valid start is valid. */
  lemma {:induction false} RootedValid(start: Board, n: Node)
    requires Valid(start)
    requires Rooted(start, n)
    ensures Valid(n.taquin)
    decreases n
  {
    match n.parent
    case None =>
    case Some(p) =>
      RootedValid(start, p);
      var m :| Legal(p.taquin, m) && n.action == Some(m.action) && n.taquin == Apply(p.taquin, m);
      LegalEffect(p.taquin, m);
  }

  /**
   * What `resoudre` promises of a returned path: it starts with the root on
   * the start board, every node is a child of the previous one by a legal
   * move with its label, the node at position `k` has depth `k`, and the
   * last board passes the goal test.
   */
  ghost predicate SolutionPath(start: Board, p: seq<Node>)
  {
    && |p| >= 1
    && p[0].taquin == start && p[0].parent.None? && p[0].action.None?
    && (forall k :: 0 <= k < |p| ==> p[k].g == k)
    && (forall k :: 1 <= k < |p| ==> p[k].parent == Some(p[k - 1]) && Child(p[k - 1], p[k]))
    && Resolu(p[|p| - 1].taquin)
  }

  /** Each node of `chemin` of a rooted node is rooted too. */
  lemma {:induction false} CheminRooted(start: Board, n: Node)
    requires Rooted(start, n)
    ensures forall k :: 0 <= k < |Chemin(n)| ==> Rooted(start, Chemin(n)[k])
    decreases n
  {
    match n.parent
    case None =>
    case Some(q) =>
      CheminRooted(start, q);
      assert Chemin(n) == Chemin(q) + [n];
  }

  /** The path of a rooted node on the goal board is a solution path. */
  lemma CheminSolution(start: Board, n: Node)
    requires Rooted(start, n)
    requires Resolu(n.taquin)
    ensures SolutionPath(start, Chemin(n))
  {
    var p := Chemin(n);
    RootedDepths(start, n);
    CheminDepths(n);
    CheminRooted(start, n);
    forall k | 1 <= k < |p| ensures Child(p[k - 1], p[k]) {
      assert Rooted(start, p[k]);
    }
    assert Rooted(start, p[0]);
  }

  /** The boards of a solution path form a walk from the start to a solved board. */
  lemma SolutionWalk(start: Board, p: seq<Node>)
    requires SolutionPath(start, p)
    ensures Walk(start, seq(|p|, k requires 0 <= k < |p| => p[k].taquin))
  {
    var w := seq(|p|, k requires 0 <= k < |p| => p[k].taquin);
    forall k | 0 <= k < |w| - 1 ensures Successor(w[k], w[k + 1]) {
      assert Child(p[k], p[k + 1]);
    }
  }
}
