/**
 * `Solver.resoudre`: best-first graph search. Each round the deque is
 * stable-sorted by `f` and its front popped; a solved board returns its
 * path, otherwise every child whose key is not yet in `vu` is pushed on the
 * front of the deque and its key recorded. An empty deque gives `None`.
 */
module Solver {
  import opened Wrappers
  import opened Board
  import opened Moves
  import opened Heuristics
  import opened Sorting
  import opened Nodes

  /** A deque entry: the node with its `f`, which never changes once the node exists. */
  type Frontier = seq<Entry<Node>>

  /** All sequences of `n` values in 0..8: a finite bound on the boards the search can meet. */
  ghost function Words(n: nat): set<seq<int>>
  {
    if n == 0 then {[]}
    else set w, v | w in Words(n - 1) && 0 <= v < Size :: w + [v]
  }

  lemma {:induction false} WordsContain(s: seq<int>)
    requires forall i :: 0 <= i < |s| ==> 0 <= s[i] < Size
    ensures s in Words(|s|)
    decreases |s|
  {
    if |s| > 0 {
      var w := s[..|s| - 1];
      WordsContain(w);
      assert s == w + [s[|s| - 1]];
    }
  }

  lemma ValidInWords(b: Board)
    requires Valid(b)
    ensures b in Words(Size)
  {
    ValidRange(b);
    WordsContain(b);
  }

  /**
   * One round's choice: sort the deque stably by `f`, pop the front. The
   * popped entry is the first of smallest `f` in deque order, and it and
   * the rest are the deque's entries.
   */
  function Select(q: Frontier): (r: (Entry<Node>, Frontier))
    requires |q| > 0
    ensures r.0 == q[FirstMin(q)]
    ensures multiset(r.1) + multiset{r.0} == multiset(q)
    ensures |r.1| == |q| - 1
    ensures Sorted(r.1)
    ensures forall k :: WithKey([r.0] + r.1, k) == WithKey(q, k)
  {
    var s := SortByKey(q);
    SortHead(q);
    assert forall k :: WithKey(s, k) == WithKey(q, k) by {
      forall k ensures WithKey(s, k) == WithKey(q, k) {
        SortStable(q, k);
      }
    }
    assert s == [s[0]] + s[1..];
    (s[0], s[1..])
  }

  /**
   * The popped entry followed by the rest is the one stable sort of the
   * deque: any sorted list that keeps every `f` value's entries in deque
   * order, as Python's `sorted` does, is this list.
   */
  lemma SelectIsSorted(q: Frontier, sorted: Frontier)
    requires |q| > 0
    requires Sorted(sorted)
    requires forall k :: WithKey(sorted, k) == WithKey(q, k)
    ensures sorted == [Select(q).0] + Select(q).1
  {
    var r := Select(q);
    var t := [r.0] + r.1;
    forall i, j | 0 <= i < j < |t| ensures t[i].0 <= t[j].0 {
      if i > 0 {
        assert t[i] == r.1[i - 1] && t[j] == r.1[j - 1];
      } else {
        assert t[j] in multiset(q);
        assert t[j] in q;
      }
    }
    StableUnique(sorted, t);
  }

  lemma SelectMembers(q: Frontier)
    requires |q| > 0
    ensures forall e :: e in q <==> e == Select(q).0 || e in Select(q).1
  {
    var r := Select(q);
    forall e ensures e in q <==> e == r.0 || e in r.1 {
      assert e in q <==> e in multiset(q);
      assert e in r.1 <==> e in multiset(r.1);
    }
  }

  /** The priority `prio` is defined on every node whose board holds all tiles. */
  ghost predicate KeyDefined(prio: Node --> real)
  {
    forall n: Node :: TilesPresent(n.taquin) ==> prio.requires(n)
  }

  /** A deque entry as the search keeps it: a rooted node on a valid board, with its priority. */
  ghost predicate Good(prio: Node --> real, start: Board, e: Entry<Node>)
  {
    && Rooted(start, e.1)
    && Valid(e.1.taquin) && TilesPresent(e.1.taquin)
    && prio.requires(e.1) && e.0 == prio(e.1)
  }

  /** The boards of the deque's entries. */
  ghost function BoardsOf(q: Frontier): set<Board>
  {
    if q == [] then {} else {q[0].1.taquin} + BoardsOf(q[1..])
  }

  lemma {:induction false} BoardsOfIn(q: Frontier, e: Entry<Node>)
    requires e in q
    ensures e.1.taquin in BoardsOf(q)
  {
    if q[0] != e {
      BoardsOfIn(q[1..], e);
    }
  }

  lemma {:induction false} BoardsOfOut(q: Frontier, b: Board)
    requires b in BoardsOf(q)
    ensures exists e :: e in q && e.1.taquin == b
  {
    if q[0].1.taquin != b {
      BoardsOfOut(q[1..], b);
      var e :| e in q[1..] && e.1.taquin == b;
      assert e in q;
    }
  }

  /** Deques with the same entries have the same boards. */
  lemma BoardsOfSame(q1: Frontier, q2: Frontier)
    requires forall e :: e in q1 <==> e in q2
    ensures BoardsOf(q1) == BoardsOf(q2)
  {
    forall b | b in BoardsOf(q1) ensures b in BoardsOf(q2) {
      BoardsOfOut(q1, b);
      var e :| e in q1 && e.1.taquin == b;
      BoardsOfIn(q2, e);
    }
    forall b | b in BoardsOf(q2) ensures b in BoardsOf(q1) {
      BoardsOfOut(q2, b);
      var e :| e in q2 && e.1.taquin == b;
      BoardsOfIn(q1, e);
    }
  }

  lemma BoardsOfCons(x: Entry<Node>, q: Frontier)
    ensures BoardsOf([x] + q) == BoardsOf(q) + {x.1.taquin}
  {
    assert ([x] + q)[1..] == q;
  }

  /** A deque never holds more boards than entries. */
  lemma {:induction false} BoardsOfSize(q: Frontier)
    ensures |BoardsOf(q)| <= |q|
  {
    if q != [] {
      BoardsOfSize(q[1..]);
    }
  }

  /** No board is on the deque twice: as many boards as entries. */
  ghost predicate Distinct(q: Frontier)
  {
    |BoardsOf(q)| == |q|
  }

  /** A deque with as many boards as entries has no two entries on the same board. */
  lemma {:induction false} DistinctBoards(q: Frontier)
    requires Distinct(q)
    ensures forall i, j :: 0 <= i < j < |q| ==> q[i].1.taquin != q[j].1.taquin
  {
    if q != [] {
      var t := q[1..];
      BoardsOfSize(t);
      assert q[0].1.taquin !in BoardsOf(t);
      DistinctBoards(t);
      forall i, j | 0 <= i < j < |q| ensures q[i].1.taquin != q[j].1.taquin {
        if i == 0 {
          BoardsOfIn(t, q[j]);
        } else {
          assert q[i] == t[i - 1] && q[j] == t[j - 1];
        }
      }
    }
  }

  /** Every board reached by legal moves from a board of `closed` is in `closed`. */
  ghost predicate Closed(closed: set<Board>)
  {
    forall b, m :: b in closed && Legal(b, m) ==> Apply(b, m) in closed
  }

  /** A walk from a board of a closed set never leaves it. */
  lemma {:induction false} ClosedWalk(start: Board, w: seq<Board>, closed: set<Board>, k: int)
    requires start in closed && Closed(closed)
    requires Walk(start, w)
    requires 0 <= k < |w|
    ensures w[k] in closed
  {
    if k > 0 {
      ClosedWalk(start, w, closed, k - 1);
      assert Successor(w[k - 1], w[k]);
    }
  }

  /** The child of a rooted node by a legal move is rooted. */
  lemma ChildRooted(start: Board, p: Node, m: Move)
    requires Rooted(start, p)
    requires Legal(p.taquin, m)
    ensures Rooted(start, MakeNode(Apply(p.taquin, m), Some(p), Some(m.action)))
  {
    var c := MakeNode(Apply(p.taquin, m), Some(p), Some(m.action));
    assert Child(p, c);
  }

  /** The child of a good entry by a legal move, with its priority, is good. */
  lemma ChildGood(prio: Node --> real, start: Board, e: Entry<Node>, m: Move)
    requires KeyDefined(prio)
    requires Good(prio, start, e)
    requires Legal(e.1.taquin, m)
    ensures var c := MakeNode(Apply(e.1.taquin, m), Some(e.1), Some(m.action));
      Valid(c.taquin) && TilesPresent(c.taquin) && prio.requires(c) && Good(prio, start, (prio(c), c))
  {
    LegalEffect(e.1.taquin, m);
    ValidTilesPresent(Apply(e.1.taquin, m));
    ChildRooted(start, e.1, m);
  }

  /** Recording a new valid board keeps the keys of `vu` and the boards of `seen` in step. */
  lemma RecordKey(vu: set<string>, seen: set<Board>, c: Board)
    requires Valid(c)
    requires forall b: Board :: Valid(b) ==> (Key(b) in vu <==> b in seen)
    ensures forall b: Board :: Valid(b) ==> (Key(b) in vu + {Key(c)} <==> b in seen + {c})
  {
    forall b: Board | Valid(b) ensures Key(b) in vu + {Key(c)} <==> b in seen + {c} {
      ValidKeyInjective(b, c);
    }
  }

  /** Every deque entry is good and its board has been seen. */
  ghost predicate Entries(prio: Node --> real, start: Board, queue: Frontier, seen: set<Board>)
  {
    forall e :: e in queue ==> Good(prio, start, e) && e.1.taquin in seen
  }

  /** `vu` holds exactly the keys of the seen boards, all of them valid. */
  ghost predicate KeysMatch(vu: set<string>, seen: set<Board>)
  {
    && (forall b :: b in seen ==> Valid(b))
    && (forall b: Board :: Valid(b) ==> (Key(b) in vu <==> b in seen))
  }

  /** A seen board is closed or still waits on the deque. */
  ghost predicate Covered(seen: set<Board>, closed: set<Board>, queue: Frontier)
  {
    seen <= closed + BoardsOf(queue) && closed <= seen
  }

  /** What the search keeps true between rounds. */
  ghost predicate Invariant(prio: Node --> real, start: Board, queue: Frontier, vu: set<string>, seen: set<Board>, closed: set<Board>)
  {
    && Entries(prio, start, queue, seen)
    && KeysMatch(vu, seen)
    && start in seen
    && Covered(seen, closed, queue)
    && Distinct(queue)
    && (forall b :: b in closed ==> !Resolu(b))
  }

  /** Pushing a good child whose key is new, and recording it, keeps the invariant. */
  lemma PushStep(prio: Node --> real, start: Board, queue: Frontier, vu: set<string>, seen: set<Board>, closed: set<Board>, c: Node)
    requires Invariant(prio, start, queue, vu, seen, closed)
    requires prio.requires(c) && Good(prio, start, (prio(c), c))
    requires Key(c.taquin) !in vu
    ensures c.taquin !in seen
    ensures Invariant(prio, start, [(prio(c), c)] + queue, vu + {Key(c.taquin)}, seen + {c.taquin}, closed)
  {
    PushEntries(prio, start, queue, seen, c);
    PushKeys(vu, seen, c.taquin);
    PushCovered(seen, closed, queue, (prio(c), c));
    PushDistinct(queue, seen, (prio(c), c));
  }

  lemma PushEntries(prio: Node --> real, start: Board, queue: Frontier, seen: set<Board>, c: Node)
    requires Entries(prio, start, queue, seen)
    requires prio.requires(c) && Good(prio, start, (prio(c), c))
    ensures Entries(prio, start, [(prio(c), c)] + queue, seen + {c.taquin})
  {
  }

  /** A valid board with a new key is a new board, and recording it keeps keys and boards in step. */
  lemma PushKeys(vu: set<string>, seen: set<Board>, c: Board)
    requires KeysMatch(vu, seen)
    requires Valid(c) && Key(c) !in vu
    ensures c !in seen
    ensures KeysMatch(vu + {Key(c)}, seen + {c})
  {
    RecordKey(vu, seen, c);
  }

  lemma PushCovered(seen: set<Board>, closed: set<Board>, queue: Frontier, x: Entry<Node>)
    requires Covered(seen, closed, queue)
    ensures Covered(seen + {x.1.taquin}, closed, [x] + queue)
  {
    BoardsOfCons(x, queue);
  }

  /** Pushing an unseen board onto a deque of seen, distinct boards keeps them distinct. */
  lemma PushDistinct(queue: Frontier, seen: set<Board>, x: Entry<Node>)
    requires Distinct(queue)
    requires forall e :: e in queue ==> e.1.taquin in seen
    requires x.1.taquin !in seen
    ensures Distinct([x] + queue)
  {
    if x.1.taquin in BoardsOf(queue) {
      BoardsOfOut(queue, x.1.taquin);
    }
    BoardsOfCons(x, queue);
  }

  /** A child whose key is already recorded has been seen. */
  lemma KnownChild(vu: set<string>, seen: set<Board>, c: Board)
    requires KeysMatch(vu, seen)
    requires Valid(c) && Key(c) in vu
    ensures c in seen
  {
  }

  /** `q0` is what is left of `q` after dropping entries from its front. */
  predicate Suffix(q0: Frontier, q: Frontier)
  {
    |q0| <= |q| && q[|q| - |q0|..] == q0
  }

  /** Pushing on the front keeps every suffix a suffix. */
  lemma PushSuffix(q0: Frontier, q: Frontier, x: Entry<Node>)
    requires Suffix(q0, q)
    ensures Suffix(q0, [x] + q)
  {
    assert ([x] + q)[|[x] + q| - |q0|..] == q[|q| - |q0|..];
  }

  lemma SuffixTrans(q0: Frontier, q1: Frontier, q2: Frontier)
    requires Suffix(q0, q1) && Suffix(q1, q2)
    ensures Suffix(q0, q2)
  {
    assert q2[|q2| - |q0|..] == q2[|q2| - |q1|..][|q1| - |q0|..];
  }

  /** Every child of `b` by a legal move among `ms` has been seen. */
  ghost predicate ChildrenSeen(b: Board, ms: seq<Move>, seen: set<Board>)
  {
    forall m :: m in ms && Legal(b, m) ==> Apply(b, m) in seen
  }

  lemma ChildrenSeenStep(b: Board, acts: seq<Move>, i: int, seen: set<Board>, seen': set<Board>)
    requires 0 <= i < |acts|
    requires ChildrenSeen(b, acts[..i], seen) && seen <= seen'
    requires Legal(b, acts[i]) ==> Apply(b, acts[i]) in seen'
    ensures ChildrenSeen(b, acts[..i + 1], seen')
  {
    assert acts[..i + 1] == acts[..i] + [acts[i]];
  }

  lemma ChildrenSeenAll(b: Board, acts: seq<Move>, seen: set<Board>)
    requires ChildrenSeen(b, acts[..|acts|], seen)
    requires forall m :: Legal(b, m) ==> m in acts
    ensures forall m :: Legal(b, m) ==> Apply(b, m) in seen
  {
    assert acts[..|acts|] == acts;
  }

  /** The child of `node` by move `m`, as the loop over `node.actions` builds it. */
  function ChildOf(node: Node, m: Move): (c: Node)
    requires Legal(node.taquin, m)
    ensures c.parent == Some(node) && c.action == Some(m.action) && c.taquin == Apply(node.taquin, m)
    ensures c.g == node.g + 1 && (Depths(node) ==> Depths(c))
  {
    MakeNode(Apply(node.taquin, m), Some(node), Some(m.action))
  }

  /** The priority is defined on every child by a legal move. */
  lemma ChildDefined(prio: Node --> real, node: Node, m: Move)
    requires KeyDefined(prio)
    requires Valid(node.taquin) && Legal(node.taquin, m)
    ensures prio.requires(ChildOf(node, m))
  {
    LegalEffect(node.taquin, m);
    ValidTilesPresent(Apply(node.taquin, m));
  }

  /**
   * Reference definition of the loop over `node.actions`, one move at a
   * time in list order: a child whose key is not in `vu` goes on the front
   * of the deque and its key into `vu`; any other child is dropped. So the
   * children end up on the deque in the reverse of their order in `acts`.
   */
  function PushAll(prio: Node --> real, node: Node, acts: seq<Move>, queue: Frontier, vu: set<string>): (r: (Frontier, set<string>))
    requires KeyDefined(prio)
    requires Valid(node.taquin)
    requires forall m :: m in acts ==> Legal(node.taquin, m)
    ensures Suffix(queue, r.0) && vu <= r.1
    decreases |acts|
  {
    if acts == [] then (queue, vu)
    else
      var m := acts[0];
      var child := ChildOf(node, m);
      ChildDefined(prio, node, m);
      if State(child) in vu then PushAll(prio, node, acts[1..], queue, vu)
      else
        var r := PushAll(prio, node, acts[1..], [(prio(child), child)] + queue, vu + {State(child)});
        PushSuffix(queue, queue, (prio(child), child));
        SuffixTrans(queue, [(prio(child), child)] + queue, r.0);
        r
  }

  /**
   * The loop over `node.actions`, given as `acts`: every child whose key is
   * new is pushed on the front of the deque and recorded. Afterwards every
   * child of the node has been seen; the seen set grows, or else the deque
   * did not change.
   */
  method Expand(prio: Node --> real, start: Board, e: Entry<Node>, acts: seq<Move>,
                queue0: Frontier, vu0: set<string>, ghost seen0: set<Board>, ghost closed: set<Board>)
    returns (queue: Frontier, vu: set<string>, ghost seen: set<Board>)
    requires KeyDefined(prio)
    requires Good(prio, start, e)
    requires forall m :: m in acts <==> Legal(e.1.taquin, m)
    requires Invariant(prio, start, queue0, vu0, seen0, closed)
    ensures Invariant(prio, start, queue, vu, seen, closed)
    ensures seen0 <= seen && (seen == seen0 ==> queue == queue0)
    ensures vu0 <= vu && Suffix(queue0, queue)
    ensures (queue, vu) == PushAll(prio, e.1, acts, queue0, vu0)
    ensures forall m :: Legal(e.1.taquin, m) ==> Apply(e.1.taquin, m) in seen
  {
    var node := e.1;
    queue, vu, seen := queue0, vu0, seen0;
    var i := 0;
    while i < |acts|
      invariant i <= |acts|
      invariant Invariant(prio, start, queue, vu, seen, closed)
      invariant seen0 <= seen && (seen == seen0 ==> queue == queue0)
      invariant vu0 <= vu && Suffix(queue0, queue)
      invariant ChildrenSeen(node.taquin, acts[..i], seen)
      invariant PushAll(prio, node, acts[i..], queue, vu) == PushAll(prio, node, acts, queue0, vu0)
    {
      var m := acts[i];
      ghost var before := seen;
      ChildGood(prio, start, e, m);
      var child := ChildOf(node, m);
      assert acts[i..][1..] == acts[i + 1..];
      if State(child) !in vu {
        PushStep(prio, start, queue, vu, seen, closed, child);
        PushSuffix(queue0, queue, (prio(child), child));
        queue := [(prio(child), child)] + queue;
        vu := vu + {State(child)};
        seen := seen + {child.taquin};
      } else {
        KnownChild(vu, seen, child.taquin);
      }
      ChildrenSeenStep(node.taquin, acts, i, before, seen);
      i := i + 1;
    }
    ChildrenSeenAll(node.taquin, acts, seen);
    assert acts[i..] == [];
  }

  /** The popped entry is good, and the rest of the deque keeps every other entry. */
  lemma PopEntries(prio: Node --> real, start: Board, queue: Frontier, seen: set<Board>)
    requires Entries(prio, start, queue, seen)
    requires |queue| > 0
    ensures Good(prio, start, Select(queue).0)
    ensures Entries(prio, start, Select(queue).1, seen)
  {
    SelectMembers(queue);
  }

  /** Closing the popped board keeps every seen board closed or waiting. */
  lemma PopCovered(seen: set<Board>, closed: set<Board>, queue: Frontier)
    requires Covered(seen, closed, queue)
    requires |queue| > 0
    requires Select(queue).0.1.taquin in seen
    ensures Covered(seen, closed + {Select(queue).0.1.taquin}, Select(queue).1)
  {
    var (e, rest) := Select(queue);
    SelectMembers(queue);
    BoardsOfSame(queue, [e] + rest);
    BoardsOfCons(e, rest);
  }

  /** Popping keeps the boards of the deque distinct. */
  lemma PopDistinct(queue: Frontier)
    requires Distinct(queue)
    requires |queue| > 0
    ensures Distinct(Select(queue).1)
  {
    var (e, rest) := Select(queue);
    SelectMembers(queue);
    BoardsOfSame(queue, [e] + rest);
    BoardsOfCons(e, rest);
    BoardsOfSize(rest);
  }

  /** The start state: the root alone on the deque, its key alone recorded, nothing closed. */
  lemma InitState(prio: Node --> real, start: Board)
    requires KeyDefined(prio)
    requires Valid(start)
    ensures var root := MakeNode(start, None, None);
      prio.requires(root) && Invariant(prio, start, [(prio(root), root)], {State(root)}, {start}, {})
  {
    var root := MakeNode(start, None, None);
    ValidTilesPresent(start);
    forall b: Board | Valid(b) ensures Key(b) in {State(root)} <==> b in {start} {
      ValidKeyInjective(b, start);
    }
    BoardsOfCons((prio(root), root), []);
    assert [(prio(root), root)] + [] == [(prio(root), root)];
  }

  /** Every child of a board of `closed` has been seen. */
  ghost predicate ClosedSeen(closed: set<Board>, seen: set<Board>)
  {
    forall b, m :: b in closed && Legal(b, m) ==> Apply(b, m) in seen
  }

  lemma CloseStep(closed: set<Board>, seen: set<Board>, seen': set<Board>, b: Board)
    requires ClosedSeen(closed, seen) && seen <= seen'
    requires forall m :: Legal(b, m) ==> Apply(b, m) in seen'
    ensures ClosedSeen(closed + {b}, seen')
  {
  }

  /** `all` holds every valid board. */
  ghost predicate Bound(all: set<Board>)
  {
    forall b: Board :: Valid(b) ==> b in all
  }

  /** There are finitely many valid boards. */
  lemma BoundExists()
    ensures exists all :: Bound(all)
  {
    var all := set b: Board | b in Words(Size);
    forall b: Board | Valid(b) ensures b in all {
      ValidInWords(b);
    }
    assert Bound(all);
  }

  /** A strictly larger set of seen valid boards leaves strictly fewer valid boards unseen. */
  lemma Shrinks(all: set<Board>, seen0: set<Board>, seen: set<Board>)
    requires Bound(all)
    requires forall b :: b in seen ==> Valid(b)
    requires seen0 <= seen && seen != seen0
    ensures all - seen < all - seen0
  {
    var b :| b in seen && b !in seen0;
    assert b in all - seen0 && b !in all - seen;
  }

  /**
   * An empty deque: every seen board is closed, so the closed boards are
   * closed under moves, contain the start and none of them is solved.
   */
  lemma Exhausted(prio: Node --> real, start: Board, vu: set<string>, seen: set<Board>, closed: set<Board>)
    requires Invariant(prio, start, [], vu, seen, closed)
    requires ClosedSeen(closed, seen)
    ensures forall w :: Walk(start, w) ==> !Resolu(w[|w| - 1])
  {
    EmptyQueueClosed(start, seen, closed);
    forall w | Walk(start, w) ensures !Resolu(w[|w| - 1]) {
      ClosedWalk(start, w, closed, |w| - 1);
    }
  }

  /** With the queue empty, every board seen has been closed, so the closed set contains the start and is closed under moves. */
  lemma EmptyQueueClosed(start: Board, seen: set<Board>, closed: set<Board>)
    requires start in seen && Covered(seen, closed, [])
    requires ClosedSeen(closed, seen)
    ensures start in closed && Closed(closed)
  {
    assert BoardsOf([]) == {};
    assert seen == closed;
  }

  /**
   * The search loop of `resoudre`, for any priority defined on boards
   * holding all tiles. A returned path leads by legal moves from the start
   * board to a solved board, with depth `k` at position `k`. `None` is
   * returned only when no sequence of legal moves from the start reaches a
   * solved board: the search closes every board it meets.
   */
  method Search(prio: Node --> real, start: Board) returns (r: Option<seq<Node>>)
    requires KeyDefined(prio)
    requires Valid(start)
    ensures r.Some? ==> SolutionPath(start, r.value)
    ensures r.None? ==> forall w :: Walk(start, w) ==> !Resolu(w[|w| - 1])
  {
    InitState(prio, start);
    var root := MakeNode(start, None, None);
    var queue: Frontier := [(prio(root), root)];
    var vu: set<string> := {State(root)};
    ghost var seen: set<Board> := {start};
    ghost var closed: set<Board> := {};
    BoundExists();
    ghost var all: set<Board> :| Bound(all);
    while queue != []
      invariant Invariant(prio, start, queue, vu, seen, closed)
      invariant ClosedSeen(closed, seen)
      decreases all - seen, |queue|
    {
      var (e, rest) := Select(queue);
      var node := e.1;
      PopEntries(prio, start, queue, seen);
      if Resolu(node.taquin) {
        CheminSolution(start, node);
        return Some(Chemin(node));
      }
      PopCovered(seen, closed, queue);
      PopDistinct(queue);
      ghost var seen0 := seen;
      var acts := Actions(node.taquin);
      forall m ensures m in acts <==> Legal(node.taquin, m) {
        ActionsMembership(node.taquin, m);
      }
      queue, vu, seen := Expand(prio, start, e, acts, rest, vu, seen, closed + {node.taquin});
      CloseStep(closed, seen0, seen, node.taquin);
      closed := closed + {node.taquin};
      if seen != seen0 {
        Shrinks(all, seen0, seen);
      }
    }
    Exhausted(prio, start, vu, seen, closed);
    return None;
  }

  /**
   * `resoudre`: the search ordered by `f` of the solver variant. A returned
   * path is a solution path from the start board; `None` means no sequence
   * of legal moves from the start reaches the goal board.
   */
  method Resoudre(variant: Variant, start: Board) returns (r: Option<seq<Node>>)
    requires Valid(start)
    ensures r.Some? ==> SolutionPath(start, r.value)
    ensures r.None? ==> forall w :: Walk(start, w) ==> !Resolu(w[|w| - 1])
  {
    r := Search((n: Node) requires TilesPresent(n.taquin) => F(variant, n), start);
  }
}
