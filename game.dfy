/**
 * The game tree the searches walk: the moves a side may play (computeValidMoves)
 * and the board a move leads to (applyMove on a fresh copy). The searches are
 * stated over these two rules as parameters, and `Rules`/`Play` are the
 * blobwar rules themselves.
 */
module Game {
  import opened Boards
  import opened Applying
  import opened MoveGen

  /** The moves a generator lists for player `q` on board `b`. */
  type Generator = (Board, Player) -> seq<Move>

  /** The board after player `q` plays a move. */
  type Transition = (Board, Move, Player) -> Board

  /**
   * applyMove as a transition. applyMove assumes a legal move; the transition
   * leaves the board as it is on any other move, which the searches never
   * play (`RulesChild`).
   */
  function Play(h: Holes): (play: Transition)
    ensures forall b: Board, mv: Move, q: Player | Legal(b, h, mv, q) :: play(b, mv, q) == Applied(b, h, mv, q)
  {
    (b: Board, mv: Move, q: Player) => if Legal(b, h, mv, q) then Applied(b, h, mv, q) else b
  }

  /** computeValidMoves as a generator. */
  function Rules(h: Holes): (gen: Generator)
    ensures forall b: Board, q: Player :: gen(b, q) == ValidMoves(b, h, q)
  {
    (b: Board, q: Player) => ValidMoves(b, h, q)
  }

  /** The side to move: the strategy's player at max nodes, its opponent at min nodes. */
  function Mover(p: Player, isMax: bool): Player {
    if isMax then p else Opponent(p)
  }

  /** The moves of the side to move. */
  function NodeMoves(gen: Generator, b: Board, p: Player, isMax: bool): seq<Move> {
    gen(b, Mover(p, isMax))
  }

  /** The board after the `i`-th move of the side to move. */
  function Child(gen: Generator, play: Transition, b: Board, p: Player, isMax: bool, i: int): Board
    requires 0 <= i < |NodeMoves(gen, b, p, isMax)|
  {
    play(b, NodeMoves(gen, b, p, isMax)[i], Mover(p, isMax))
  }

  /** Under the blobwar rules a node's moves are the legal moves of its side to move. */
  lemma RulesMoves(h: Holes, b: Board, p: Player, isMax: bool)
    ensures NodeMoves(Rules(h), b, p, isMax) == ValidMoves(b, h, Mover(p, isMax))
  {
  }

  /** Under the blobwar rules the `i`-th child is the board applyMove leaves. */
  lemma RulesChild(h: Holes, b: Board, p: Player, isMax: bool, i: int)
    requires 0 <= i < |ValidMoves(b, h, Mover(p, isMax))|
    ensures Legal(b, h, ValidMoves(b, h, Mover(p, isMax))[i], Mover(p, isMax))
    ensures Child(Rules(h), Play(h), b, p, isMax, i)
         == Applied(b, h, ValidMoves(b, h, Mover(p, isMax))[i], Mover(p, isMax))
  {
    ValidMovesLegal(b, h, Mover(p, isMax), i);
  }
}
