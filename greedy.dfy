/**
 * The greedy strategy: among the legal moves, the one whose destination has
 * the most enemy neighbours; on a tie a later clone replaces the current best,
 * a later jump never does.
 */
module Greedy {
  import opened Boards
  import opened Applying
  import opened MoveGen

  /** The scan's state: the best enemy count so far and the index of the best move. */
  datatype Pick = Pick(score: nat, index: nat)

  /** The scan of strategy.cc after the first `k` candidates, starting from (0, front). */
  function Scan(b: Board, h: Holes, p: Player, moves: seq<Move>, k: nat): Pick
    requires k <= |moves|
  {
    if k == 0 then Pick(0, 0)
    else
      var prev := Scan(b, h, p, moves, k - 1);
      var s := EnemiesAround(b, h, p, moves[k - 1]);
      if s > prev.score then Pick(s, k - 1)
      else if s == prev.score && IsClone(moves[k - 1]) then Pick(prev.score, k - 1)
      else prev
  }

  /** The move GreedyStrategy::computeBestMove saves, or None when there is no legal move. */
  function Choice(b: Board, h: Holes, p: Player): Option<Move> {
    var moves := ValidMoves(b, h, p);
    if moves == [] then None
    else
      ScanSpec(b, h, p, moves, |moves|);
      Some(moves[Scan(b, h, p, moves, |moves|).index])
  }

  /**
   * After `k >= 1` candidates the scan holds a maximal one; it is the last
   * clone attaining the maximum when a clone attains it, and otherwise the
   * first candidate attaining it.
   */
  lemma {:induction false} ScanSpec(b: Board, h: Holes, p: Player, moves: seq<Move>, k: nat)
    requires 0 < k <= |moves|
    ensures Scan(b, h, p, moves, k).index < k
    ensures Scan(b, h, p, moves, k).score == EnemiesAround(b, h, p, moves[Scan(b, h, p, moves, k).index])
    ensures forall i :: 0 <= i < k ==> EnemiesAround(b, h, p, moves[i]) <= Scan(b, h, p, moves, k).score
    ensures var r := Scan(b, h, p, moves, k);
      IsClone(moves[r.index]) ==>
        forall i :: r.index < i < k && EnemiesAround(b, h, p, moves[i]) == r.score ==> !IsClone(moves[i])
    ensures var r := Scan(b, h, p, moves, k);
      !IsClone(moves[r.index]) ==>
        (forall i :: 0 <= i < k && EnemiesAround(b, h, p, moves[i]) == r.score ==> !IsClone(moves[i]))
        && (forall i :: 0 <= i < r.index ==> EnemiesAround(b, h, p, moves[i]) < r.score)
  {
    if k > 1 {
      ScanSpec(b, h, p, moves, k - 1);
    }
  }

  /**
   * What the greedy strategy saves: nothing without legal moves; otherwise a
   * legal move with the most enemies around its destination, which is the last
   * such clone if there is one and else the first such move.
   */
  lemma ChoiceSpec(b: Board, h: Holes, p: Player)
    ensures Choice(b, h, p).None? <==> ValidMoves(b, h, p) == []
    ensures Choice(b, h, p).Some? ==>
      var moves, m := ValidMoves(b, h, p), Choice(b, h, p).value;
      var best := EnemiesAround(b, h, p, m);
      Legal(b, h, m, p)
      && (exists j :: 0 <= j < |moves| && moves[j] == m
            && (forall i :: 0 <= i < |moves| ==> EnemiesAround(b, h, p, moves[i]) <= best)
            && (IsClone(m) ==>
                  forall i :: j < i < |moves| && EnemiesAround(b, h, p, moves[i]) == best ==> !IsClone(moves[i]))
            && (!IsClone(m) ==>
                  (forall i :: 0 <= i < |moves| && EnemiesAround(b, h, p, moves[i]) == best ==> !IsClone(moves[i]))
                  && (forall i :: 0 <= i < j ==> EnemiesAround(b, h, p, moves[i]) < best)))
  {
    var moves := ValidMoves(b, h, p);
    if moves != [] {
      ScanSpec(b, h, p, moves, |moves|);
      var j := Scan(b, h, p, moves, |moves|).index;
      assert moves[j] == Choice(b, h, p).value;
      ValidMovesLegal(b, h, p, j);
    }
  }
}
