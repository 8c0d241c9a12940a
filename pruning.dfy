/**
 * AlphaBetaStrategy::alphabeta as a function. A call returns the score and the
 * moves it passes to the save sink, in order. A node's loop over its children
 * is the tail recursion MaxLoop/MinLoop, carrying the loop's variables: the
 * child index, the window bound the loop narrows, and the running best
 * (`m` at max nodes, `M` at min nodes).
 *
 * The search agrees with minimax inside its window (WindowAgrees); with the
 * full INT8 window at the root it returns the minimax value and saves exactly
 * what minimax saves (RootAgrees).
 */
module Pruning {
  import opened Boards
  import opened Game
  import opened Minimax

  /** What a call of alphabeta returns, with the moves it saved on the way. */
  datatype Outcome = Outcome(score: int, saves: seq<Move>)

  /** x clamped into [lo, hi]. */
  function Clamp(x: int, lo: int, hi: int): int {
    if x < lo then lo else if x > hi then hi else x
  }

  /** alphabeta(b, d, alpha, beta, isMax), `root` being MAX_DEPTH_ALPHA_BETA. */
  function AlphaBeta(gen: Generator, play: Transition, b: Board, p: Player, root: nat, d: nat,
                     alpha: int, beta: int, isMax: bool): Outcome
    decreases d, 1, 0
  {
    if d == 0 then Outcome(Score(b, p), [])
    else if NodeMoves(gen, b, p, isMax) == [] then Outcome(Score(b, p), [])
    else if isMax then MaxLoop(gen, play, b, p, root, d, 0, alpha, beta, INT8_MIN)
    else MinLoop(gen, play, b, p, root, d, 0, alpha, beta, INT8_MAX)
  }

  /**
   * The max node's loop from child `i` on, with the current alpha and the
   * running maximum `m`: a strictly better child is saved at the root depth,
   * a maximum reaching beta is returned at once, and alpha rises to `m`.
   */
  function MaxLoop(gen: Generator, play: Transition, b: Board, p: Player, root: nat, d: nat,
                   i: nat, alpha: int, beta: int, m: int): Outcome
    requires 1 <= d && i <= |NodeMoves(gen, b, p, true)|
    decreases d, 0, |NodeMoves(gen, b, p, true)| - i
  {
    if i == |NodeMoves(gen, b, p, true)| then Outcome(m, [])
    else
      var r := AlphaBeta(gen, play, Child(gen, play, b, p, true, i), p, root, d - 1, alpha, beta, false);
      var saved := if r.score > m && d == root then [NodeMoves(gen, b, p, true)[i]] else [];
      var m' := if r.score > m then r.score else m;
      if m' >= beta then Outcome(m', r.saves + saved)
      else
        var rest := MaxLoop(gen, play, b, p, root, d, i + 1, Max(alpha, m'), beta, m');
        Outcome(rest.score, r.saves + saved + rest.saves)
  }

  /**
   * The min node's loop from child `i` on, with the current beta and the
   * running minimum `M`: a minimum reaching alpha is returned at once, and
   * beta falls to `M`.
   */
  function MinLoop(gen: Generator, play: Transition, b: Board, p: Player, root: nat, d: nat,
                   i: nat, alpha: int, beta: int, M: int): Outcome
    requires 1 <= d && i <= |NodeMoves(gen, b, p, false)|
    decreases d, 0, |NodeMoves(gen, b, p, false)| - i
  {
    if i == |NodeMoves(gen, b, p, false)| then Outcome(M, [])
    else
      var r := AlphaBeta(gen, play, Child(gen, play, b, p, false, i), p, root, d - 1, alpha, beta, true);
      var M' := if r.score < M then r.score else M;
      if M' <= alpha then Outcome(M', r.saves)
      else
        var rest := MinLoop(gen, play, b, p, root, d, i + 1, alpha, Min(beta, M'), M');
        Outcome(rest.score, r.saves + rest.saves)
  }

  // ---------------------------------------------------------------------------
  // Agreement with minimax inside the window

  /** The running best of minimax only improves as the loop goes on. */
  lemma {:induction false} BestMonotone(gen: Generator, play: Transition, b: Board, p: Player, d: nat,
                                        isMax: bool, j: nat, k: nat)
    requires 1 <= d && j <= k <= |NodeMoves(gen, b, p, isMax)|
    ensures isMax ==> Best(gen, play, b, p, d, isMax, j) <= Best(gen, play, b, p, d, isMax, k)
    ensures !isMax ==> Best(gen, play, b, p, d, isMax, j) >= Best(gen, play, b, p, d, isMax, k)
    decreases k - j
  {
    if j < k {
      BestMonotone(gen, play, b, p, d, isMax, j, k - 1);
    }
  }

  /**
   * Seen through the window [alpha, beta], alphabeta and minimax agree: the
   * search returns the minimax value when that lies strictly inside the
   * window, at most alpha when the value is at most alpha, and at least beta
   * when the value is at least beta.
   */
  lemma {:induction false} WindowAgrees(gen: Generator, play: Transition, b: Board, p: Player, root: nat,
                                        d: nat, alpha: int, beta: int, isMax: bool)
    requires INT8_MIN <= alpha < beta <= INT8_MAX
    ensures Clamp(AlphaBeta(gen, play, b, p, root, d, alpha, beta, isMax).score, alpha, beta)
         == Clamp(Value(gen, play, b, p, d, isMax), alpha, beta)
    decreases d, 1, 0
  {
    if d > 0 && NodeMoves(gen, b, p, isMax) != [] {
      if isMax {
        MaxLoopAgrees(gen, play, b, p, root, d, 0, alpha, alpha, beta, INT8_MIN);
      } else {
        MinLoopAgrees(gen, play, b, p, root, d, 0, alpha, beta, beta, INT8_MAX);
      }
    }
  }

  /**
   * The invariant of the max loop: alpha is the larger of the caller's alpha
   * `a0` and the running maximum `m`, `m` is below beta, and through the
   * caller's window `m` looks like minimax's running best.
   */
  lemma {:induction false} MaxLoopAgrees(gen: Generator, play: Transition, b: Board, p: Player, root: nat,
                                         d: nat, i: nat, a0: int, alpha: int, beta: int, m: int)
    requires 1 <= d && i <= |NodeMoves(gen, b, p, true)|
    requires INT8_MIN <= a0 < beta <= INT8_MAX && m < beta && alpha == Max(a0, m)
    requires Clamp(m, a0, beta) == Clamp(Best(gen, play, b, p, d, true, i), a0, beta)
    ensures Clamp(MaxLoop(gen, play, b, p, root, d, i, alpha, beta, m).score, a0, beta)
         == Clamp(Best(gen, play, b, p, d, true, |NodeMoves(gen, b, p, true)|), a0, beta)
    decreases d, 0, |NodeMoves(gen, b, p, true)| - i
  {
    var n := |NodeMoves(gen, b, p, true)|;
    if i < n {
      var c := Child(gen, play, b, p, true, i);
      var r := AlphaBeta(gen, play, c, p, root, d - 1, alpha, beta, false);
      var v := ChildValue(gen, play, b, p, d, true, i);
      WindowAgrees(gen, play, c, p, root, d - 1, alpha, beta, false);
      var m' := if r.score > m then r.score else m;
      assert Clamp(m', a0, beta) == Clamp(Best(gen, play, b, p, d, true, i + 1), a0, beta);
      if m' >= beta {
        BestMonotone(gen, play, b, p, d, true, i + 1, n);
      } else {
        MaxLoopAgrees(gen, play, b, p, root, d, i + 1, a0, Max(alpha, m'), beta, m');
      }
    }
  }

  /** The invariant of the min loop, the mirror image of MaxLoopAgrees. */
  lemma {:induction false} MinLoopAgrees(gen: Generator, play: Transition, b: Board, p: Player, root: nat,
                                         d: nat, i: nat, alpha: int, b0: int, beta: int, M: int)
    requires 1 <= d && i <= |NodeMoves(gen, b, p, false)|
    requires INT8_MIN <= alpha < b0 <= INT8_MAX && alpha < M && beta == Min(b0, M)
    requires Clamp(M, alpha, b0) == Clamp(Best(gen, play, b, p, d, false, i), alpha, b0)
    ensures Clamp(MinLoop(gen, play, b, p, root, d, i, alpha, beta, M).score, alpha, b0)
         == Clamp(Best(gen, play, b, p, d, false, |NodeMoves(gen, b, p, false)|), alpha, b0)
    decreases d, 0, |NodeMoves(gen, b, p, false)| - i
  {
    var n := |NodeMoves(gen, b, p, false)|;
    if i < n {
      var c := Child(gen, play, b, p, false, i);
      var r := AlphaBeta(gen, play, c, p, root, d - 1, alpha, beta, true);
      WindowAgrees(gen, play, c, p, root, d - 1, alpha, beta, true);
      var M' := if r.score < M then r.score else M;
      assert Clamp(M', alpha, b0) == Clamp(Best(gen, play, b, p, d, false, i + 1), alpha, b0);
      if M' <= alpha {
        BestMonotone(gen, play, b, p, d, false, i + 1, n);
      } else {
        MinLoopAgrees(gen, play, b, p, root, d, i + 1, alpha, b0, Min(beta, M'), M');
      }
    }
  }

  // ---------------------------------------------------------------------------
  // Saves

  /** Below the root depth alphabeta saves nothing, whatever its window. */
  lemma {:induction false} QuietBelowRoot(gen: Generator, play: Transition, b: Board, p: Player, root: nat,
                                          d: nat, alpha: int, beta: int, isMax: bool)
    requires d < root
    ensures AlphaBeta(gen, play, b, p, root, d, alpha, beta, isMax).saves == []
    decreases d, 1, 0
  {
    if d > 0 && NodeMoves(gen, b, p, isMax) != [] {
      if isMax {
        MaxLoopQuiet(gen, play, b, p, root, d, 0, alpha, beta, INT8_MIN);
      } else {
        MinLoopQuiet(gen, play, b, p, root, d, 0, alpha, beta, INT8_MAX);
      }
    }
  }

  lemma {:induction false} MaxLoopQuiet(gen: Generator, play: Transition, b: Board, p: Player, root: nat,
                                        d: nat, i: nat, alpha: int, beta: int, m: int)
    requires 1 <= d < root && i <= |NodeMoves(gen, b, p, true)|
    ensures MaxLoop(gen, play, b, p, root, d, i, alpha, beta, m).saves == []
    decreases d, 0, |NodeMoves(gen, b, p, true)| - i
  {
    if i < |NodeMoves(gen, b, p, true)| {
      var c := Child(gen, play, b, p, true, i);
      var r := AlphaBeta(gen, play, c, p, root, d - 1, alpha, beta, false);
      QuietBelowRoot(gen, play, c, p, root, d - 1, alpha, beta, false);
      var m' := if r.score > m then r.score else m;
      if m' < beta {
        MaxLoopQuiet(gen, play, b, p, root, d, i + 1, Max(alpha, m'), beta, m');
      }
    }
  }

  lemma {:induction false} MinLoopQuiet(gen: Generator, play: Transition, b: Board, p: Player, root: nat,
                                        d: nat, i: nat, alpha: int, beta: int, M: int)
    requires 1 <= d < root && i <= |NodeMoves(gen, b, p, false)|
    ensures MinLoop(gen, play, b, p, root, d, i, alpha, beta, M).saves == []
    decreases d, 0, |NodeMoves(gen, b, p, false)| - i
  {
    if i < |NodeMoves(gen, b, p, false)| {
      var c := Child(gen, play, b, p, false, i);
      var r := AlphaBeta(gen, play, c, p, root, d - 1, alpha, beta, true);
      QuietBelowRoot(gen, play, c, p, root, d - 1, alpha, beta, true);
      var M' := if r.score < M then r.score else M;
      if M' > alpha {
        MinLoopQuiet(gen, play, b, p, root, d, i + 1, alpha, Min(beta, M'), M');
      }
    }
  }

  // ---------------------------------------------------------------------------
  // Bounds on every score

  /**
   * Every alpha-beta score, at any depth and for any window, is a static
   * score: it lies in -64..64, well inside the INT8 start values and Sint32.
   */
  lemma {:induction false} ScoreBound(gen: Generator, play: Transition, b: Board, p: Player, root: nat,
                                      d: nat, alpha: int, beta: int, isMax: bool)
    ensures -SIZE * SIZE <= AlphaBeta(gen, play, b, p, root, d, alpha, beta, isMax).score <= SIZE * SIZE
    decreases d, 1, 0
  {
    if d > 0 && NodeMoves(gen, b, p, isMax) != [] {
      if isMax {
        MaxLoopBound(gen, play, b, p, root, d, 0, alpha, beta, INT8_MIN);
      } else {
        MinLoopBound(gen, play, b, p, root, d, 0, alpha, beta, INT8_MAX);
      }
    }
  }

  /** The running maximum starts below every score and is a score after one child. */
  lemma {:induction false} MaxLoopBound(gen: Generator, play: Transition, b: Board, p: Player, root: nat,
                                        d: nat, i: nat, alpha: int, beta: int, m: int)
    requires 1 <= d && i <= |NodeMoves(gen, b, p, true)|
    requires m <= SIZE * SIZE && (i < |NodeMoves(gen, b, p, true)| || -SIZE * SIZE <= m)
    ensures -SIZE * SIZE <= MaxLoop(gen, play, b, p, root, d, i, alpha, beta, m).score <= SIZE * SIZE
    decreases d, 0, |NodeMoves(gen, b, p, true)| - i
  {
    if i < |NodeMoves(gen, b, p, true)| {
      var c := Child(gen, play, b, p, true, i);
      var r := AlphaBeta(gen, play, c, p, root, d - 1, alpha, beta, false);
      ScoreBound(gen, play, c, p, root, d - 1, alpha, beta, false);
      var m' := if r.score > m then r.score else m;
      if m' < beta {
        MaxLoopBound(gen, play, b, p, root, d, i + 1, Max(alpha, m'), beta, m');
      }
    }
  }

  /** The running minimum starts above every score and is a score after one child. */
  lemma {:induction false} MinLoopBound(gen: Generator, play: Transition, b: Board, p: Player, root: nat,
                                        d: nat, i: nat, alpha: int, beta: int, M: int)
    requires 1 <= d && i <= |NodeMoves(gen, b, p, false)|
    requires -SIZE * SIZE <= M && (i < |NodeMoves(gen, b, p, false)| || M <= SIZE * SIZE)
    ensures -SIZE * SIZE <= MinLoop(gen, play, b, p, root, d, i, alpha, beta, M).score <= SIZE * SIZE
    decreases d, 0, |NodeMoves(gen, b, p, false)| - i
  {
    if i < |NodeMoves(gen, b, p, false)| {
      var c := Child(gen, play, b, p, false, i);
      var r := AlphaBeta(gen, play, c, p, root, d - 1, alpha, beta, true);
      ScoreBound(gen, play, c, p, root, d - 1, alpha, beta, true);
      var M' := if r.score < M then r.score else M;
      if M' > alpha {
        MinLoopBound(gen, play, b, p, root, d, i + 1, alpha, Min(beta, M'), M');
      }
    }
  }

  // ---------------------------------------------------------------------------
  // The root call of AlphaBetaStrategy::computeBestMove

  /**
   * At the root, with beta = INT8_MAX, alpha and the running maximum both
   * equal minimax's running best; the rest of the loop then finishes with
   * minimax's value and completes minimax's saves.
   */
  lemma {:induction false} RootLoop(gen: Generator, play: Transition, b: Board, p: Player, d: nat, i: nat)
    requires 1 <= d && i <= |NodeMoves(gen, b, p, true)|
    ensures var best := Best(gen, play, b, p, d, true, i);
      var o := MaxLoop(gen, play, b, p, d, d, i, best, INT8_MAX, best);
      o.score == Best(gen, play, b, p, d, true, |NodeMoves(gen, b, p, true)|)
      && SavesUpTo(gen, play, b, p, d, d, true, i) + o.saves
         == SavesUpTo(gen, play, b, p, d, d, true, |NodeMoves(gen, b, p, true)|)
    decreases |NodeMoves(gen, b, p, true)| - i
  {
    var n := |NodeMoves(gen, b, p, true)|;
    var best := Best(gen, play, b, p, d, true, i);
    var done := SavesUpTo(gen, play, b, p, d, d, true, i);
    if i < n {
      var c := Child(gen, play, b, p, true, i);
      var r := AlphaBeta(gen, play, c, p, d, d - 1, best, INT8_MAX, false);
      var v := ChildValue(gen, play, b, p, d, true, i);
      WindowAgrees(gen, play, c, p, d, d - 1, best, INT8_MAX, false);
      QuietBelowRoot(gen, play, c, p, d, d - 1, best, INT8_MAX, false);
      SavesBelowRoot(gen, play, c, p, d, d - 1, false);
      SavesUpToNext(gen, play, b, p, d, d, true, i);
      BestNext(gen, play, b, p, d, true, i);
      ConcatEmpty(done);
      var best' := Best(gen, play, b, p, d, true, i + 1);
      assert (r.score > best) == (v > best);
      assert r.score > best ==> r.score == v;
      var saved := if r.score > best then [NodeMoves(gen, b, p, true)[i]] else [];
      RootLoop(gen, play, b, p, d, i + 1);
      var rest := MaxLoop(gen, play, b, p, d, d, i + 1, best', INT8_MAX, best');
      assert Max(best, best') == best';
      ConcatShift(done, r.saves, saved, rest.saves);
    } else {
      ConcatEmpty(done);
    }
  }

  /**
   * AlphaBetaStrategy::computeBestMove: the root call with the full INT8
   * window returns the minimax value and saves exactly the moves that
   * MinMaxStrategy::computeBestMove saves at the same depth, so both
   * strategies settle on the same move.
   */
  lemma RootAgrees(gen: Generator, play: Transition, b: Board, p: Player, d: nat)
    ensures AlphaBeta(gen, play, b, p, d, d, INT8_MIN, INT8_MAX, true).score == Value(gen, play, b, p, d, true)
    ensures AlphaBeta(gen, play, b, p, d, d, INT8_MIN, INT8_MAX, true).saves == Saves(gen, play, b, p, d, d, true)
  {
    if d > 0 && NodeMoves(gen, b, p, true) != [] {
      RootLoop(gen, play, b, p, d, 0);
    }
  }
}
