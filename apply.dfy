/**
 * applyMove as a function on boards: the destination takes the mover's blob,
 * a jump empties its origin, and the opponent's blobs around the destination
 * are infected. Also countEnnemies, the greedy strategy's measure.
 */
module Applying {
  import opened Boards

  /** The eight neighbour offsets, in the order strategy.cc visits them. */
  const NEIGHBORS: seq<(int, int)> :=
    [(-1, 0), (-1, 1), (0, 1), (1, 1), (1, 0), (1, -1), (0, -1), (-1, -1)]

  /** (i, j) is one of the eight cells around (x, y). */
  predicate Adjacent(i: int, j: int, x: int, y: int) {
    (i, j) != (x, y) && Abs(i - x) <= 1 && Abs(j - y) <= 1
  }

  /** The offsets are exactly the eight directions to an adjacent cell. */
  lemma NeighborsAdjacent(dx: int, dy: int)
    ensures (dx, dy) in NEIGHBORS <==> Adjacent(dx, dy, 0, 0)
  {
  }

  lemma NeighborsDistinct(k: nat)
    requires k < |NEIGHBORS|
    ensures NEIGHBORS[k] !in NEIGHBORS[..k]
  {
  }

  /**
   * The board once the infection loop has visited the first `k` neighbours
   * of (x, y): an in-bounds, non-hole neighbour that holds the opponent of `p`
   * is turned into `p`.
   */
  function Infect(b: Board, h: Holes, x: int, y: int, p: Player, k: nat): Board
    requires k <= |NEIGHBORS|
  {
    if k == 0 then b
    else InfectAt(Infect(b, h, x, y, p, k - 1), h, x + NEIGHBORS[k - 1].0, y + NEIGHBORS[k - 1].1, p)
  }

  /** The loop's next step visits the `k`-th neighbour. */
  lemma InfectNext(b: Board, h: Holes, x: int, y: int, p: Player, k: nat)
    requires k < |NEIGHBORS|
    ensures Infect(b, h, x, y, p, k + 1) == InfectAt(Infect(b, h, x, y, p, k), h, x + NEIGHBORS[k].0, y + NEIGHBORS[k].1, p)
  {
  }

  /** One infection step: an in-bounds, non-hole cell (i, j) holding the opponent of `p` becomes `p`. */
  function InfectAt(c: Board, h: Holes, i: int, j: int, p: Player): Board {
    if !InBounds(i, j) || h[i][j] then c
    else if c[i][j] == Opponent(p) then Set(c, i, j, p)
    else c
  }

  /**
   * applyMove: the destination takes `p`, a jump empties the origin, then the
   * neighbours of the destination are infected. The source assumes the move is
   * legal (strategy.h).
   */
  function Applied(b: Board, h: Holes, mv: Move, p: Player): Board
    requires Legal(b, h, mv, p)
  {
    var placed := Set(b, mv.nx, mv.ny, p);
    var lifted := if IsJump(mv) then Set(placed, mv.ox, mv.oy, EMPTY) else placed;
    Infect(lifted, h, mv.nx, mv.ny, p, |NEIGHBORS|)
  }

  /** The first `k` infection steps change exactly the visited neighbours that held the opponent. */
  lemma {:induction false} InfectCell(b: Board, h: Holes, x: int, y: int, p: Player, k: nat, i: int, j: int)
    requires k <= |NEIGHBORS| && InBounds(i, j)
    ensures Infect(b, h, x, y, p, k)[i][j]
         == if (i - x, j - y) in NEIGHBORS[..k] && !h[i][j] && b[i][j] == Opponent(p) then p else b[i][j]
  {
    if k > 0 {
      InfectCell(b, h, x, y, p, k - 1, i, j);
      NeighborsDistinct(k - 1);
      assert NEIGHBORS[..k] == NEIGHBORS[..k - 1] + [NEIGHBORS[k - 1]];
    }
  }

  /**
   * Cell by cell, the board after a move: the destination holds the mover, the
   * origin is emptied exactly for a jump, an adjacent non-hole cell of the
   * opponent is infected, and every other cell keeps its value.
   */
  lemma AppliedCell(b: Board, h: Holes, mv: Move, p: Player, i: int, j: int)
    requires Legal(b, h, mv, p) && InBounds(i, j)
    ensures Applied(b, h, mv, p)[i][j]
         == if (i, j) == (mv.nx, mv.ny) then p
            else if (i, j) == (mv.ox, mv.oy) && IsJump(mv) then EMPTY
            else if Adjacent(i, j, mv.nx, mv.ny) && !h[i][j] && b[i][j] == Opponent(p) then p
            else b[i][j]
  {
    var placed := Set(b, mv.nx, mv.ny, p);
    var lifted := if IsJump(mv) then Set(placed, mv.ox, mv.oy, EMPTY) else placed;
    InfectCell(lifted, h, mv.nx, mv.ny, p, |NEIGHBORS|, i, j);
    assert NEIGHBORS[..|NEIGHBORS|] == NEIGHBORS;
    NeighborsAdjacent(i - mv.nx, j - mv.ny);
  }

  /** The board keeps every hole empty. */
  predicate HolesEmpty(b: Board, h: Holes) {
    forall i, j :: 0 <= i < SIZE && 0 <= j < SIZE && h[i][j] ==> b[i][j] == EMPTY
  }

  /** A move never writes a hole, so a board whose holes are empty keeps them empty. */
  lemma AppliedKeepsHoles(b: Board, h: Holes, mv: Move, p: Player)
    requires Legal(b, h, mv, p) && HolesEmpty(b, h)
    ensures HolesEmpty(Applied(b, h, mv, p), h)
    ensures forall i, j :: InBounds(i, j) && h[i][j] ==> Applied(b, h, mv, p)[i][j] == b[i][j]
  {
    forall i, j | InBounds(i, j) && h[i][j]
      ensures Applied(b, h, mv, p)[i][j] == b[i][j]
    {
      AppliedCell(b, h, mv, p, i, j);
    }
  }

  /**
   * countEnnemies over the first `k` neighbours of (x, y): in-bounds, non-hole
   * cells holding the opponent of `p`.
   */
  function Enemies(b: Board, h: Holes, p: Player, x: int, y: int, k: nat): (n: nat)
    requires k <= |NEIGHBORS|
    ensures n <= k
  {
    if k == 0 then 0
    else
      var i, j := x + NEIGHBORS[k - 1].0, y + NEIGHBORS[k - 1].1;
      Enemies(b, h, p, x, y, k - 1)
        + if InBounds(i, j) && !h[i][j] && b[i][j] == Opponent(p) then 1 else 0
  }

  /** The enemies around a move's destination. */
  function EnemiesAround(b: Board, h: Holes, p: Player, mv: Move): nat {
    Enemies(b, h, p, mv.nx, mv.ny, |NEIGHBORS|)
  }

  /** Two boards that agree around (x, y) see the same enemies there. */
  lemma {:induction false} EnemiesAgree(b: Board, c: Board, h: Holes, p: Player, x: int, y: int, k: nat)
    requires k <= |NEIGHBORS|
    requires forall i, j :: InBounds(i, j) && Adjacent(i, j, x, y) ==> b[i][j] == c[i][j]
    ensures Enemies(b, h, p, x, y, k) == Enemies(c, h, p, x, y, k)
  {
    if k > 0 {
      EnemiesAgree(b, c, h, p, x, y, k - 1);
      NeighborsAdjacent(NEIGHBORS[k - 1].0, NEIGHBORS[k - 1].1);
    }
  }

  /** One infection step gains two for `p` exactly when it turns an enemy blob. */
  lemma InfectAtScore(c: Board, h: Holes, i: int, j: int, p: Player)
    ensures Score(InfectAt(c, h, i, j, p), p)
         == Score(c, p) + if InBounds(i, j) && !h[i][j] && c[i][j] == Opponent(p) then 2 else 0
  {
    if InBounds(i, j) && !h[i][j] && c[i][j] == Opponent(p) {
      ScoreSet(c, i, j, p, p);
    }
  }

  /** The first `k` steps leave the `k`-th neighbour as it was. */
  lemma InfectUntouched(b: Board, h: Holes, x: int, y: int, p: Player, k: nat)
    requires k < |NEIGHBORS| && InBounds(x + NEIGHBORS[k].0, y + NEIGHBORS[k].1)
    ensures var i, j := x + NEIGHBORS[k].0, y + NEIGHBORS[k].1;
      Infect(b, h, x, y, p, k)[i][j] == b[i][j]
  {
    InfectCell(b, h, x, y, p, k, x + NEIGHBORS[k].0, y + NEIGHBORS[k].1);
    NeighborsDistinct(k);
  }

  /** Visiting the `k`-th neighbour gains two for `p` exactly when it is an enemy. */
  lemma InfectStepScore(b: Board, h: Holes, x: int, y: int, p: Player, k: nat)
    requires k < |NEIGHBORS|
    ensures Score(Infect(b, h, x, y, p, k + 1), p) - Score(Infect(b, h, x, y, p, k), p)
         == 2 * (Enemies(b, h, p, x, y, k + 1) - Enemies(b, h, p, x, y, k))
  {
    var i, j := x + NEIGHBORS[k].0, y + NEIGHBORS[k].1;
    InfectNext(b, h, x, y, p, k);
    InfectAtScore(Infect(b, h, x, y, p, k), h, i, j, p);
    if InBounds(i, j) {
      InfectUntouched(b, h, x, y, p, k);
    }
  }

  /** Each infected cell moves the score of `p` by two. */
  lemma {:induction false} InfectScore(b: Board, h: Holes, x: int, y: int, p: Player, k: nat)
    requires k <= |NEIGHBORS|
    ensures Score(Infect(b, h, x, y, p, k), p) == Score(b, p) + 2 * Enemies(b, h, p, x, y, k)
  {
    if k > 0 {
      InfectScore(b, h, x, y, p, k - 1);
      InfectStepScore(b, h, x, y, p, k - 1);
    }
  }

  /**
   * The mover's score rises by twice the greedy measure, the enemies around
   * the destination, plus one for a clone (the new blob), while a jump only
   * relocates its blob.
   */
  lemma ScoreAfterMove(b: Board, h: Holes, mv: Move, p: Player)
    requires Legal(b, h, mv, p)
    ensures Score(Applied(b, h, mv, p), p)
         == Score(b, p) + 2 * EnemiesAround(b, h, p, mv) + (if IsJump(mv) then 0 else 1)
  {
    var placed := Set(b, mv.nx, mv.ny, p);
    var lifted := if IsJump(mv) then Set(placed, mv.ox, mv.oy, EMPTY) else placed;
    ScoreSet(b, mv.nx, mv.ny, p, p);
    if IsJump(mv) {
      ScoreSet(placed, mv.ox, mv.oy, EMPTY, p);
    }
    InfectScore(lifted, h, mv.nx, mv.ny, p, |NEIGHBORS|);
    EnemiesAgree(lifted, b, h, p, mv.nx, mv.ny, |NEIGHBORS|);
  }
}
