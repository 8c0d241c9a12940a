/**
 * The opening position with a lone blob of player 0 in the corner (0, 0) and
 * a lone blob of player 1 at (1, 1), no holes: the moves the generator lists
 * for player 0, and the boards a clone and a jump lead to. Also, on any board
 * with a single legal move, every strategy ends up saving that move.
 */
module Scenarios {
  import opened Boards
  import opened Applying
  import opened MoveGen
  import Game
  import Greedy
  import Minimax
  import Strategies

  /** Player 0 at (0, 0), player 1 at (1, 1), every other cell empty. */
  function Corner(): (b: Board)
    ensures b[0][0] == 0 && b[1][1] == 1
    ensures forall i, j :: InBounds(i, j) && (i, j) != (0, 0) && (i, j) != (1, 1) ==> b[i][j] == EMPTY
  {
    seq(SIZE, i => seq(SIZE, j => if i == 0 && j == 0 then 0 else if i == 1 && j == 1 then 1 else EMPTY))
  }

  function NoHoles(): (h: Holes)
    ensures forall i, j :: InBounds(i, j) ==> !h[i][j]
  {
    seq(SIZE, i => seq(SIZE, j => false))
  }

  /**
   * From the corner the window is the 3x3 block at (0, 0); without the origin
   * and the opponent's blob seven destinations remain, in the generator's order.
   */
  lemma CornerMoves()
    ensures ValidMoves(Corner(), NoHoles(), 0)
         == [Move(0, 0, 0, 1), Move(0, 0, 0, 2), Move(0, 0, 1, 0), Move(0, 0, 1, 2),
             Move(0, 0, 2, 0), Move(0, 0, 2, 1), Move(0, 0, 2, 2)]
    ensures |ValidMoves(Corner(), NoHoles(), 0)| == 7
  {
    var b, h := Corner(), NoHoles();
    var s := [Move(0, 0, 0, 1), Move(0, 0, 0, 2), Move(0, 0, 1, 0), Move(0, 0, 1, 2),
              Move(0, 0, 2, 0), Move(0, 0, 2, 1), Move(0, 0, 2, 2)];
    forall m: Move
      ensures m in s <==> Legal(b, h, m, 0)
    {
      if Legal(b, h, m, 0) {
        assert m.ox == 0 && m.oy == 0;
        assert 0 <= m.nx <= 2 && 0 <= m.ny <= 2;
      }
    }
    ValidMovesUnique(b, h, 0, s);
  }

  /**
   * A player with a single legal move: greedy, and minimax and alpha-beta at
   * any depth of at least one, all save it last, so the game plays it.
   */
  lemma SingleMove(kind: Strategies.Kind, depth: nat, b: Board, h: Holes, p: Player, m: Move)
    requires ValidMoves(b, h, p) == [m]
    requires kind.GreedyKind? || 1 <= depth
    ensures var s := Strategies.Decision(kind, depth, b, h, p); s != [] && s[|s| - 1] == m
  {
    Strategies.DecisionSpec(kind, depth, b, h, p);
    Game.RulesMoves(h, b, p, true);
    if kind.GreedyKind? {
      Greedy.ChoiceSpec(b, h, p);
    }
  }

  /** The clone to (0, 1) keeps the origin and infects (1, 1): player 0 leads by three. */
  lemma CornerClone()
    ensures var c := Applied(Corner(), NoHoles(), Move(0, 0, 0, 1), 0);
      c[0][0] == 0 && c[0][1] == 0 && c[1][1] == 0 && Score(c, 0) == 3
  {
    var b, h, mv := Corner(), NoHoles(), Move(0, 0, 0, 1);
    AppliedCell(b, h, mv, 0, 0, 0);
    AppliedCell(b, h, mv, 0, 0, 1);
    AppliedCell(b, h, mv, 0, 1, 1);
    CornerEnemies(mv);
    ScoreAfterMove(b, h, mv, 0);
    CornerScore();
  }

  /**
   * The jump to (0, 2) empties the origin, and (1, 1) is adjacent to (0, 2), so
   * it is infected as well: player 0 leads by two.
   */
  lemma CornerJump()
    ensures var c := Applied(Corner(), NoHoles(), Move(0, 0, 0, 2), 0);
      c[0][0] == EMPTY && c[0][2] == 0 && c[1][1] == 0 && Score(c, 0) == 2
  {
    var b, h, mv := Corner(), NoHoles(), Move(0, 0, 0, 2);
    AppliedCell(b, h, mv, 0, 0, 0);
    AppliedCell(b, h, mv, 0, 0, 2);
    AppliedCell(b, h, mv, 0, 1, 1);
    CornerEnemies(mv);
    ScoreAfterMove(b, h, mv, 0);
    CornerScore();
  }

  /** One enemy, at (1, 1), around either destination. */
  lemma CornerEnemies(mv: Move)
    requires mv == Move(0, 0, 0, 1) || mv == Move(0, 0, 0, 2)
    ensures EnemiesAround(Corner(), NoHoles(), 0, mv) == 1
  {
  }

  /** The position is even: one blob each. */
  lemma CornerScore()
    ensures Score(Corner(), 0) == 0
  {
    var e: Board := seq(SIZE, i => seq(SIZE, j => EMPTY));
    FlattenAll(e, SIZE);
    assert e[..SIZE] == e;
    WeightsEmpty(Flatten(e), 0);
    var one := Set(e, 0, 0, 0);
    ScoreSet(e, 0, 0, 0, 0);
    ScoreSet(one, 1, 1, 1, 0);
    var c := Set(one, 1, 1, 1);
    forall i | 0 <= i < SIZE
      ensures c[i] == Corner()[i]
    {
      assert forall j :: 0 <= j < SIZE ==> c[i][j] == Corner()[i][j];
    }
    assert c == Corner();
  }

  /** The cells of the first `k` rows of the empty board are all empty. */
  lemma {:induction false} FlattenAll(e: Board, k: nat)
    requires k <= SIZE && forall i, j :: InBounds(i, j) ==> e[i][j] == EMPTY
    ensures forall n :: 0 <= n < |Flatten(e[..k])| ==> Flatten(e[..k])[n] == EMPTY
  {
    if k > 0 {
      FlattenAll(e, k - 1);
      assert e[..k][..k - 1] == e[..k - 1];
    }
  }

  /** Empty cells weigh nothing. */
  lemma {:induction false} WeightsEmpty(s: seq<int>, p: Player)
    requires forall n :: 0 <= n < |s| ==> s[n] == EMPTY
    ensures Weights(s, p) == 0
  {
    if s != [] {
      WeightsEmpty(s[..|s| - 1], p);
    }
  }
}
