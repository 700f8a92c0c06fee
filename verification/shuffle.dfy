/**
 * `Taquin.shuffle`: repeatedly replace the board by the child of one of its
 * `actions`. The random choices are given as a list of picks; pick `p`
 * selects `actions[p % len(actions)]`, which is `actions[p]` for every pick
 * `random.choice` can make.
 */
module Shuffle {
  import opened Board
  import opened Moves

  /** `random.choice` with its choice given: element `p` of `s`, wrapped around. */
  function Pick<T>(s: seq<T>, p: nat): (x: T)
    requires |s| > 0
    ensures x in s
    ensures p < |s| ==> x == s[p]
  {
    s[p % |s|]
  }

  /** The move chosen by pick `p`: one of `actions`, hence legal. */
  function Choose(b: Board, p: nat): (m: Move)
    requires Valid(b)
    ensures Legal(b, m)
  {
    ActionsNonEmpty(b);
    var m := Pick(Actions(b), p);
    ActionsMembership(b, m);
    m
  }

  /** A pick within range chooses that entry of `actions`; any pick chooses one of them. */
  lemma ChooseAction(b: Board, p: nat)
    requires Valid(b)
    ensures Choose(b, p) in Actions(b)
    ensures p < |Actions(b)| ==> Choose(b, p) == Actions(b)[p]
  {
    ActionsNonEmpty(b);
  }

  /** Every board of `w` is valid. */
  ghost predicate AllValid(w: seq<Board>)
  {
    forall k :: 0 <= k < |w| ==> Valid(w[k])
  }

  lemma AllValidCons(b: Board, t: seq<Board>)
    requires Valid(b) && AllValid(t)
    ensures AllValid([b] + t)
  {
    forall k | 0 <= k < |t| + 1 ensures Valid(([b] + t)[k]) {
      if k > 0 {
        assert ([b] + t)[k] == t[k - 1];
      }
    }
  }

  /** The boards the shuffle passes through, the start included. */
  function Trail(b: Board, picks: seq<nat>): (w: seq<Board>)
    requires Valid(b)
    ensures |w| == |picks| + 1 && w[0] == b
    ensures AllValid(w)
    decreases |picks|
  {
    if picks == [] then [b]
    else
      var m := Choose(b, picks[0]);
      LegalEffect(b, m);
      var t := Trail(Apply(b, m), picks[1..]);
      AllValidCons(b, t);
      [b] + t
  }

  /** The shuffled board: the last board of the trail. */
  function Scramble(b: Board, picks: seq<nat>): (r: Board)
    requires Valid(b)
    ensures Valid(r)
  {
    var w := Trail(b, picks);
    w[|w| - 1]
  }

  /** Every step of the trail is one legal move. */
  lemma {:induction false} TrailWalk(b: Board, picks: seq<nat>)
    requires Valid(b)
    ensures Walk(b, Trail(b, picks))
    decreases |picks|
  {
    if picks != [] {
      var m := Choose(b, picks[0]);
      LegalEffect(b, m);
      var c := Apply(b, m);
      TrailWalk(c, picks[1..]);
      assert Successor(b, c) by {
        assert Legal(b, m) && Apply(b, m) == c;
      }
      WalkCons(b, c, Trail(c, picks[1..]));
    }
  }

  /** A step followed by a walk is a walk. */
  lemma WalkCons(b: Board, c: Board, t: seq<Board>)
    requires Successor(b, c) && Walk(c, t)
    ensures Walk(b, [b] + t)
  {
    var w := [b] + t;
    forall k | 0 <= k < |w| - 1 ensures Successor(w[k], w[k + 1]) {
      if k > 0 {
        assert w[k] == t[k - 1] && w[k + 1] == t[k];
      }
    }
  }

  /** The shuffle can be undone: its trail read backwards leads from the shuffled board back to the start. */
  lemma ScrambleUndo(b: Board, picks: seq<nat>)
    requires Valid(b)
    ensures Walk(Scramble(b, picks), Reversed(Trail(b, picks)))
    ensures Reversed(Trail(b, picks))[|picks|] == b
  {
    TrailWalk(b, picks);
    WalkReversed(b, Trail(b, picks));
  }
}
