/**
 * The depth-limited minimax of MinMaxStrategy::minmax. The score is always
 * taken from the strategy's player `p`: max nodes move `p`, min nodes move its
 * opponent. A node at depth 0, or whose side to move has no legal move, is
 * worth its static score (there is no pass). `root` is the strategy's
 * configured depth: only a max node at that depth saves moves.
 *
 * The search is stated over the rules `gen` and `play` of module Game; the
 * strategies use computeValidMoves and applyMove (`Rules`, `Play`).
 */
module Minimax {
  import opened Boards
  import opened Game

  function Max(x: int, y: int): int { if x < y then y else x }
  function Min(x: int, y: int): int { if x < y then x else y }

  /** minmax(b, d, isMax): the minimax value of the node. */
  function Value(gen: Generator, play: Transition, b: Board, p: Player, d: nat, isMax: bool): (v: int)
    ensures -SIZE * SIZE <= v <= SIZE * SIZE
    decreases d, 1, 0
  {
    if d == 0 then Score(b, p)
    else
      var n := |NodeMoves(gen, b, p, isMax)|;
      if n == 0 then Score(b, p) else Best(gen, play, b, p, d, isMax, n)
  }

  /** The value of the `i`-th child, one ply down with the other side to move. */
  function ChildValue(gen: Generator, play: Transition, b: Board, p: Player, d: nat, isMax: bool, i: int): int
    requires 1 <= d && 0 <= i < |NodeMoves(gen, b, p, isMax)|
    decreases d, 0, 0
  {
    Value(gen, play, Child(gen, play, b, p, isMax, i), p, d - 1, !isMax)
  }

  /**
   * best_score after the first `k` children: the running maximum from
   * INT8_MIN at a max node, the running minimum from INT8_MAX at a min node.
   */
  function Best(gen: Generator, play: Transition, b: Board, p: Player, d: nat, isMax: bool, k: nat): (v: int)
    requires 1 <= d && k <= |NodeMoves(gen, b, p, isMax)|
    ensures 0 < k ==> -SIZE * SIZE <= v <= SIZE * SIZE
    decreases d, 0, k + 1
  {
    if k == 0 then (if isMax then INT8_MIN else INT8_MAX)
    else
      var prev := Best(gen, play, b, p, d, isMax, k - 1);
      var v := ChildValue(gen, play, b, p, d, isMax, k - 1);
      if isMax then (if v > prev then v else prev)
      else (if v < prev then v else prev)
  }

  /** One more iteration of the loop: best_score takes the child's value when it beats it. */
  lemma BestNext(gen: Generator, play: Transition, b: Board, p: Player, d: nat, isMax: bool, k: nat)
    requires 1 <= d && k < |NodeMoves(gen, b, p, isMax)|
    ensures var v, prev := ChildValue(gen, play, b, p, d, isMax, k), Best(gen, play, b, p, d, isMax, k);
      Best(gen, play, b, p, d, isMax, k + 1) == if isMax then Max(prev, v) else Min(prev, v)
  {
  }

  /**
   * After `k >= 1` children the running best is the maximum (at a max node) or
   * the minimum (at a min node) of their values, and one of them attains it.
   */
  lemma {:induction false} BestSpec(gen: Generator, play: Transition, b: Board, p: Player, d: nat, isMax: bool, k: nat)
    requires 1 <= d && 0 < k <= |NodeMoves(gen, b, p, isMax)|
    ensures forall i :: 0 <= i < k ==>
      if isMax then ChildValue(gen, play, b, p, d, isMax, i) <= Best(gen, play, b, p, d, isMax, k)
      else ChildValue(gen, play, b, p, d, isMax, i) >= Best(gen, play, b, p, d, isMax, k)
    ensures exists i ::
      0 <= i < k && ChildValue(gen, play, b, p, d, isMax, i) == Best(gen, play, b, p, d, isMax, k)
  {
    var v := ChildValue(gen, play, b, p, d, isMax, k - 1);
    if k == 1 {
      assert ChildValue(gen, play, b, p, d, isMax, 0) == Best(gen, play, b, p, d, isMax, 1);
    } else {
      BestSpec(gen, play, b, p, d, isMax, k - 1);
      var prev := Best(gen, play, b, p, d, isMax, k - 1);
      if Best(gen, play, b, p, d, isMax, k) == v {
        assert ChildValue(gen, play, b, p, d, isMax, k - 1) == Best(gen, play, b, p, d, isMax, k);
      } else {
        var j :| 0 <= j < k - 1 && ChildValue(gen, play, b, p, d, isMax, j) == prev;
        assert ChildValue(gen, play, b, p, d, isMax, j) == Best(gen, play, b, p, d, isMax, k);
      }
    }
  }

  /**
   * The max/min recurrence: a max node is worth the largest value of its
   * children, a min node the smallest.
   */
  lemma ValueOfNode(gen: Generator, play: Transition, b: Board, p: Player, d: nat, isMax: bool)
    requires 1 <= d && NodeMoves(gen, b, p, isMax) != []
    ensures forall i :: 0 <= i < |NodeMoves(gen, b, p, isMax)| ==>
      if isMax then ChildValue(gen, play, b, p, d, isMax, i) <= Value(gen, play, b, p, d, isMax)
      else ChildValue(gen, play, b, p, d, isMax, i) >= Value(gen, play, b, p, d, isMax)
    ensures exists i ::
      0 <= i < |NodeMoves(gen, b, p, isMax)| && ChildValue(gen, play, b, p, d, isMax, i) == Value(gen, play, b, p, d, isMax)
  {
    BestSpec(gen, play, b, p, d, isMax, |NodeMoves(gen, b, p, isMax)|);
  }

  /** The moves minmax(b, d, isMax) passes to the save sink, in order. */
  function Saves(gen: Generator, play: Transition, b: Board, p: Player, root: nat, d: nat, isMax: bool): seq<Move>
    decreases d, 1, 0
  {
    if d == 0 then []
    else
      var n := |NodeMoves(gen, b, p, isMax)|;
      if n == 0 then [] else SavesUpTo(gen, play, b, p, root, d, isMax, n)
  }

  /**
   * The saves of the first `k` iterations: each child's own saves, then the
   * child's move when this is a max node at the root depth and the child's
   * value strictly beats best_score.
   */
  function SavesUpTo(gen: Generator, play: Transition, b: Board, p: Player, root: nat, d: nat, isMax: bool, k: nat): seq<Move>
    requires 1 <= d && k <= |NodeMoves(gen, b, p, isMax)|
    decreases d, 0, k
  {
    if k == 0 then []
    else
      SavesUpTo(gen, play, b, p, root, d, isMax, k - 1)
      + Saves(gen, play, Child(gen, play, b, p, isMax, k - 1), p, root, d - 1, !isMax)
      + (if isMax && d == root && ChildValue(gen, play, b, p, d, isMax, k - 1) > Best(gen, play, b, p, d, isMax, k - 1)
         then [NodeMoves(gen, b, p, isMax)[k - 1]] else [])
  }

  /** One more iteration of the loop: the child's saves, then its move if it improves a root max node. */
  lemma SavesUpToNext(gen: Generator, play: Transition, b: Board, p: Player, root: nat, d: nat, isMax: bool, k: nat)
    requires 1 <= d && k < |NodeMoves(gen, b, p, isMax)|
    ensures SavesUpTo(gen, play, b, p, root, d, isMax, k + 1)
         == SavesUpTo(gen, play, b, p, root, d, isMax, k)
            + Saves(gen, play, Child(gen, play, b, p, isMax, k), p, root, d - 1, !isMax)
            + (if isMax && d == root && ChildValue(gen, play, b, p, d, isMax, k) > Best(gen, play, b, p, d, isMax, k)
               then [NodeMoves(gen, b, p, isMax)[k]] else [])
  {
  }

  /**
   * One iteration of minmax's loop once the child's value `score` is known:
   * the new best score, and the saves so far (after `before`) extended by the
   * child's saves and, at a root max node on a strict improvement, its move.
   */
  lemma StepSaves(gen: Generator, play: Transition, b: Board, p: Player, root: nat, d: nat, isMax: bool,
                  k: nat, score: int, before: seq<Move>)
    requires 1 <= d && k < |NodeMoves(gen, b, p, isMax)|
    requires score == ChildValue(gen, play, b, p, d, isMax, k)
    ensures var prev := Best(gen, play, b, p, d, isMax, k);
      Best(gen, play, b, p, d, isMax, k + 1) == if isMax then Max(prev, score) else Min(prev, score)
    ensures var prev := Best(gen, play, b, p, d, isMax, k);
      var more := Saves(gen, play, Child(gen, play, b, p, isMax, k), p, root, d - 1, !isMax);
      var next := before + SavesUpTo(gen, play, b, p, root, d, isMax, k + 1);
      (isMax && d == root && score > prev ==>
         before + SavesUpTo(gen, play, b, p, root, d, isMax, k) + more + [NodeMoves(gen, b, p, isMax)[k]] == next)
      && (!(isMax && d == root && score > prev) ==>
         before + SavesUpTo(gen, play, b, p, root, d, isMax, k) + more == next)
  {
    var prev := Best(gen, play, b, p, d, isMax, k);
    var extra: seq<Move> := if isMax && d == root && score > prev then [NodeMoves(gen, b, p, isMax)[k]] else [];
    BestNext(gen, play, b, p, d, isMax, k);
    SavesUpToNext(gen, play, b, p, root, d, isMax, k);
    ConcatStep(before, SavesUpTo(gen, play, b, p, root, d, isMax, k),
               Saves(gen, play, Child(gen, play, b, p, isMax, k), p, root, d - 1, !isMax), extra,
               SavesUpTo(gen, play, b, p, root, d, isMax, k + 1));
  }

  /** Below the root depth minmax saves nothing. */
  lemma {:induction false} SavesBelowRoot(gen: Generator, play: Transition, b: Board, p: Player, root: nat, d: nat, isMax: bool)
    requires d < root
    ensures Saves(gen, play, b, p, root, d, isMax) == []
    decreases d, 1, 0
  {
    if d > 0 {
      var n := |NodeMoves(gen, b, p, isMax)|;
      if n > 0 {
        SavesUpToBelowRoot(gen, play, b, p, root, d, isMax, n);
      }
    }
  }

  lemma {:induction false} SavesUpToBelowRoot(gen: Generator, play: Transition, b: Board, p: Player, root: nat, d: nat, isMax: bool, k: nat)
    requires 1 <= d < root && k <= |NodeMoves(gen, b, p, isMax)|
    ensures SavesUpTo(gen, play, b, p, root, d, isMax, k) == []
    decreases d, 0, k
  {
    if k > 0 {
      SavesUpToBelowRoot(gen, play, b, p, root, d, isMax, k - 1);
      SavesBelowRoot(gen, play, Child(gen, play, b, p, isMax, k - 1), p, root, d - 1, !isMax);
    }
  }

  /** Child `j` is the first of the first `k` children to attain their best value. */
  predicate FirstBest(gen: Generator, play: Transition, b: Board, p: Player, d: nat, k: nat, j: int)
    requires 1 <= d && k <= |NodeMoves(gen, b, p, true)|
  {
    0 <= j < k && ChildValue(gen, play, b, p, d, true, j) == Best(gen, play, b, p, d, true, k)
    && forall i :: 0 <= i < j ==> ChildValue(gen, play, b, p, d, true, i) < Best(gen, play, b, p, d, true, k)
  }

  /**
   * At the root the saves are the strict improvements of best_score: the first
   * child is always saved (best_score starts at INT8_MIN), and the last save
   * is the earliest move whose child attains the running best.
   */
  lemma {:induction false} RootSavesUpTo(gen: Generator, play: Transition, b: Board, p: Player, d: nat, k: nat)
    requires 1 <= d && 0 < k <= |NodeMoves(gen, b, p, true)|
    ensures var s := SavesUpTo(gen, play, b, p, d, d, true, k);
      s != [] && s[0] == NodeMoves(gen, b, p, true)[0]
      && exists j :: FirstBest(gen, play, b, p, d, k, j) && s[|s| - 1] == NodeMoves(gen, b, p, true)[j]
  {
    var moves := NodeMoves(gen, b, p, true);
    if k == 1 {
      RootSavedNext(gen, play, b, p, d, 1);
      ConcatEmpty([moves[0]]);
      BestNext(gen, play, b, p, d, true, 0);
      assert FirstBest(gen, play, b, p, d, k, 0);
    } else {
      RootSavesUpTo(gen, play, b, p, d, k - 1);
      var t := SavesUpTo(gen, play, b, p, d, d, true, k - 1);
      var j :| FirstBest(gen, play, b, p, d, k - 1, j) && t[|t| - 1] == moves[j];
      RootSavesStep(gen, play, b, p, d, k, j);
    }
  }

  /** At the root, one more child appends its move exactly when it beats the running best. */
  lemma RootSavedNext(gen: Generator, play: Transition, b: Board, p: Player, d: nat, k: nat)
    requires 1 <= d && 0 < k <= |NodeMoves(gen, b, p, true)|
    ensures SavesUpTo(gen, play, b, p, d, d, true, k)
         == SavesUpTo(gen, play, b, p, d, d, true, k - 1)
            + if ChildValue(gen, play, b, p, d, true, k - 1) > Best(gen, play, b, p, d, true, k - 1)
              then [NodeMoves(gen, b, p, true)[k - 1]] else []
  {
    SavesUpToNext(gen, play, b, p, d, d, true, k - 1);
    SavesBelowRoot(gen, play, Child(gen, play, b, p, true, k - 1), p, d, d - 1, false);
    ConcatEmpty(SavesUpTo(gen, play, b, p, d, d, true, k - 1));
  }

  /** The earliest child attaining the running best moves to the new child exactly when it beats it. */
  lemma FirstBestNext(gen: Generator, play: Transition, b: Board, p: Player, d: nat, k: nat, j: int)
    requires 1 <= d && 1 < k <= |NodeMoves(gen, b, p, true)|
    requires FirstBest(gen, play, b, p, d, k - 1, j)
    ensures FirstBest(gen, play, b, p, d, k,
      if ChildValue(gen, play, b, p, d, true, k - 1) > Best(gen, play, b, p, d, true, k - 1) then k - 1 else j)
  {
    BestNext(gen, play, b, p, d, true, k - 1);
    if ChildValue(gen, play, b, p, d, true, k - 1) > Best(gen, play, b, p, d, true, k - 1) {
      BestSpec(gen, play, b, p, d, true, k - 1);
    }
  }

  /**
   * One more child at the root: it is saved exactly when it beats the running
   * best, and then it becomes the earliest child attaining the new best.
   */
  lemma RootSavesStep(gen: Generator, play: Transition, b: Board, p: Player, d: nat, k: nat, j: int)
    requires 1 <= d && 1 < k <= |NodeMoves(gen, b, p, true)|
    requires var t := SavesUpTo(gen, play, b, p, d, d, true, k - 1);
      t != [] && t[0] == NodeMoves(gen, b, p, true)[0]
      && FirstBest(gen, play, b, p, d, k - 1, j) && t[|t| - 1] == NodeMoves(gen, b, p, true)[j]
    ensures var s := SavesUpTo(gen, play, b, p, d, d, true, k);
      var j' := if ChildValue(gen, play, b, p, d, true, k - 1) > Best(gen, play, b, p, d, true, k - 1) then k - 1 else j;
      s != [] && s[0] == NodeMoves(gen, b, p, true)[0]
      && FirstBest(gen, play, b, p, d, k, j') && s[|s| - 1] == NodeMoves(gen, b, p, true)[j']
  {
    var v := ChildValue(gen, play, b, p, d, true, k - 1);
    var prev := Best(gen, play, b, p, d, true, k - 1);
    RootSavedNext(gen, play, b, p, d, k);
    FirstBestNext(gen, play, b, p, d, k, j);
    AppendEnds(SavesUpTo(gen, play, b, p, d, d, true, k - 1), if v > prev then [NodeMoves(gen, b, p, true)[k - 1]] else []);
  }

  /**
   * `m` is the earliest root move whose child has the root's minimax value:
   * the move a max node at depth `d` settles on.
   */
  predicate EarliestBest(gen: Generator, play: Transition, b: Board, p: Player, d: nat, m: Move)
    requires 1 <= d
  {
    exists j ::
      0 <= j < |NodeMoves(gen, b, p, true)| && NodeMoves(gen, b, p, true)[j] == m
      && ChildValue(gen, play, b, p, d, true, j) == Value(gen, play, b, p, d, true)
      && forall i :: 0 <= i < j ==> ChildValue(gen, play, b, p, d, true, i) < Value(gen, play, b, p, d, true)
  }

  /**
   * What MinMaxStrategy::computeBestMove leaves as the authoritative (last)
   * save: with a positive depth and at least one legal move, the earliest
   * legal move whose child has the root's minimax value; the first legal move
   * is always saved first. Without a legal move, or at depth 0, nothing is saved.
   */
  lemma RootSaves(gen: Generator, play: Transition, b: Board, p: Player, d: nat)
    ensures d == 0 || NodeMoves(gen, b, p, true) == [] ==> Saves(gen, play, b, p, d, d, true) == []
    ensures 1 <= d && NodeMoves(gen, b, p, true) != [] ==>
      var s, moves := Saves(gen, play, b, p, d, d, true), NodeMoves(gen, b, p, true);
      s != [] && s[0] == moves[0] && EarliestBest(gen, play, b, p, d, s[|s| - 1])
  {
    var moves := NodeMoves(gen, b, p, true);
    if 1 <= d && moves != [] {
      var s := Saves(gen, play, b, p, d, d, true);
      RootSavesUpTo(gen, play, b, p, d, |moves|);
      var j :| FirstBest(gen, play, b, p, d, |moves|, j) && s[|s| - 1] == moves[j];
      assert Value(gen, play, b, p, d, true) == Best(gen, play, b, p, d, true, |moves|);
      assert ChildValue(gen, play, b, p, d, true, j) == Value(gen, play, b, p, d, true);
    }
  }
}
