/**
 * The Strategy class of strategy.h with its three strategies. The board the
 * strategy was built from (`_blobs`) is an 8x8 array the strategy owns; the
 * searches work on fresh copies of it, as strategy.cc copies a bidiarray for
 * every child. The save sink `_saveBestMove` is modelled by the history of
 * the moves passed to it, `saves`; the game uses the last one.
 */
module Strategies {
  import opened Boards
  import opened Applying
  import opened MoveGen
  import opened Game
  import opened Minimax
  import opened Pruning
  import opened Greedy

  /** MAX_DEPTH, the depth strategy.cc gives MinMaxStrategy. */
  const MAX_DEPTH: nat := 4
  /** MAX_DEPTH_ALPHA_BETA, the depth strategy.cc gives AlphaBetaStrategy. */
  const MAX_DEPTH_ALPHA_BETA: nat := 5

  /** Which of the strategy classes the object is. */
  datatype Kind = GreedyKind | MinMaxKind | AlphaBetaKind

  predicate IsBoardArray(a: array2<int>) {
    a.Length0 == SIZE && a.Length1 == SIZE
  }

  /** The board an 8x8 array holds. */
  function Grid(a: array2<int>): (b: Board)
    requires IsBoardArray(a)
    reads a
    ensures forall i, j :: 0 <= i < SIZE && 0 <= j < SIZE ==> b[i][j] == a[i, j]
  {
    seq(SIZE, i requires 0 <= i < SIZE reads a => seq(SIZE, j requires 0 <= j < SIZE reads a => a[i, j]))
  }

  /** Array `a` holds board `b`, cell by cell. */
  predicate Holds(a: array2<int>, b: Board)
    reads a
  {
    IsBoardArray(a) && forall i, j :: 0 <= i < SIZE && 0 <= j < SIZE ==> a[i, j] == b[i][j]
  }

  /** Every 8x8 array holds the board it shows. */
  lemma GridHolds(a: array2<int>)
    requires IsBoardArray(a)
    ensures Holds(a, Grid(a))
  {
  }

  /** Two arrays with the same cells hold the same board. */
  lemma GridSame(a: array2<int>, c: array2<int>)
    requires IsBoardArray(a) && IsBoardArray(c)
    requires forall i, j :: 0 <= i < SIZE && 0 <= j < SIZE ==> a[i, j] == c[i, j]
    ensures Grid(a) == Grid(c)
  {
    forall i | 0 <= i < SIZE
      ensures Grid(a)[i] == Grid(c)[i]
    {
    }
  }

  /**
   * What computeBestMove passes to the save sink: the greedy choice (nothing
   * without a legal move), or the saves of the root search of depth `depth`.
   */
  function Decision(kind: Kind, depth: nat, b: Board, h: Holes, p: Player): seq<Move> {
    match kind
    case GreedyKind => (match Choice(b, h, p) case None => [] case Some(m) => [m])
    case MinMaxKind => Saves(Rules(h), Play(h), b, p, depth, depth, true)
    case AlphaBetaKind => AlphaBeta(Rules(h), Play(h), b, p, depth, depth, INT8_MIN, INT8_MAX, true).saves
  }

  /**
   * The move the game plays after computeBestMove, the last one saved: there
   * is none exactly when the player has no legal move (or a search has depth
   * 0); otherwise it is the greedy choice, or, for both searches, the earliest
   * legal move whose child has the root's minimax value.
   */
  lemma DecisionSpec(kind: Kind, depth: nat, b: Board, h: Holes, p: Player)
    ensures Decision(kind, depth, b, h, p) == []
        <==> ValidMoves(b, h, p) == [] || (depth == 0 && !kind.GreedyKind?)
    ensures Decision(kind, depth, b, h, p) != [] ==>
      var s := Decision(kind, depth, b, h, p);
      if kind.GreedyKind? then Choice(b, h, p) == Some(s[|s| - 1])
      else 1 <= depth && EarliestBest(Rules(h), Play(h), b, p, depth, s[|s| - 1])
  {
    RulesMoves(h, b, p, true);
    match kind
    case GreedyKind =>
      ChoiceSpec(b, h, p);
    case MinMaxKind =>
      RootSaves(Rules(h), Play(h), b, p, depth);
    case AlphaBetaKind =>
      RootSaves(Rules(h), Play(h), b, p, depth);
      RootAgrees(Rules(h), Play(h), b, p, depth);
  }

  /**
   * The strategies of strategy.cc, at MAX_DEPTH for minimax and
   * MAX_DEPTH_ALPHA_BETA for alpha-beta: each saves a move exactly when the
   * player has one, and the last move saved is the earliest root move whose
   * child has the minimax value at that strategy's depth.
   */
  lemma SourceDepths(b: Board, h: Holes, p: Player)
    ensures Decision(MinMaxKind, MAX_DEPTH, b, h, p) == [] <==> ValidMoves(b, h, p) == []
    ensures Decision(AlphaBetaKind, MAX_DEPTH_ALPHA_BETA, b, h, p) == [] <==> ValidMoves(b, h, p) == []
    ensures ValidMoves(b, h, p) != [] ==>
      var s, t := Decision(MinMaxKind, MAX_DEPTH, b, h, p), Decision(AlphaBetaKind, MAX_DEPTH_ALPHA_BETA, b, h, p);
      EarliestBest(Rules(h), Play(h), b, p, MAX_DEPTH, s[|s| - 1])
      && EarliestBest(Rules(h), Play(h), b, p, MAX_DEPTH_ALPHA_BETA, t[|t| - 1])
  {
    DecisionSpec(MinMaxKind, MAX_DEPTH, b, h, p);
    DecisionSpec(AlphaBetaKind, MAX_DEPTH_ALPHA_BETA, b, h, p);
  }

  class Strategy {
    /** _blobs: the board the strategy decides on. */
    const blobs: array2<int>
    /** _holes: the hole mask, never written by the strategy. */
    const holes: Holes
    /** _current_player: the player the strategy moves for. */
    const player: Player
    const kind: Kind
    /** The search depth: MAX_DEPTH for minmax, MAX_DEPTH_ALPHA_BETA for alphabeta. */
    const rootDepth: nat
    /** Every move passed to _saveBestMove so far, oldest first. */
    var saves: seq<Move>

    ghost predicate Valid()
      reads this
    {
      IsBoardArray(blobs)
    }

    /** The board the strategy decides on. */
    function Current(): Board
      requires Valid()
      reads this, blobs
    {
      Grid(blobs)
    }

    /** The move the game will play: the last one saved, if any. */
    function LastSaved(): (r: Option<Move>)
      reads this
      ensures r.Some? <==> saves != []
      ensures r.Some? ==> r.value == saves[|saves| - 1]
    {
      if saves == [] then None else Some(saves[|saves| - 1])
    }

    /** Strategy(blobs, holes, current_player, saveBestMove): copies the board. */
    constructor(board: array2<int>, holes: Holes, player: Player, kind: Kind, rootDepth: nat)
      requires IsBoardArray(board)
      ensures Valid() && fresh(blobs)
      ensures Current() == Grid(board)
      ensures this.holes == holes && this.player == player && this.kind == kind && this.rootDepth == rootDepth
      ensures saves == []
    {
      var copy := new int[SIZE, SIZE]((i, j) reads board requires 0 <= i < SIZE && 0 <= j < SIZE => board[i, j]);
      GridSame(copy, board);
      this.blobs := copy;
      this.holes := holes;
      this.player := player;
      this.kind := kind;
      this.rootDepth := rootDepth;
      this.saves := [];
    }

    /** Strategy(const Strategy&): copies the board, the holes and the player, but no sink. */
    constructor Copy(st: Strategy)
      requires st.Valid()
      ensures Valid() && fresh(blobs)
      ensures Current() == st.Current()
      ensures holes == st.holes && player == st.player && kind == st.kind && rootDepth == st.rootDepth
      ensures saves == []
    {
      var board := st.blobs;
      var copy := new int[SIZE, SIZE]((i, j) reads board requires 0 <= i < SIZE && 0 <= j < SIZE => board[i, j]);
      GridSame(copy, board);
      this.blobs := copy;
      this.holes := st.holes;
      this.player := st.player;
      this.kind := st.kind;
      this.rootDepth := st.rootDepth;
      this.saves := [];
    }

    /** _saveBestMove(mv). */
    method SaveBestMove(mv: Move)
      modifies this
      ensures saves == old(saves) + [mv]
    {
      saves := saves + [mv];
    }

    /**
     * applyMove, in place: the board becomes the one the move leads to. The
     * move must be legal, as strategy.h requires.
     */
    method ApplyMove(a: array2<int>, ghost b: Board, mv: Move, q: Player)
      requires Holds(a, b) && Legal(b, holes, mv, q)
      modifies a
      ensures Holds(a, Applied(b, holes, mv, q))
    {
      ghost var c := Set(b, mv.nx, mv.ny, q);
      a[mv.nx, mv.ny] := q;
      if Abs(mv.ox - mv.nx) > 1 || Abs(mv.oy - mv.ny) > 1 {
        a[mv.ox, mv.oy] := EMPTY;
        c := Set(c, mv.ox, mv.oy, EMPTY);
      }
      ghost var lifted := c;
      var k := 0;
      while k < |NEIGHBORS|
        invariant 0 <= k <= |NEIGHBORS|
        invariant Holds(a, Infect(lifted, holes, mv.nx, mv.ny, q, k))
      {
        InfectStep(a, lifted, mv.nx, mv.ny, q, k);
        k := k + 1;
      }
    }

    /**
     * One iteration of applyMove's infection loop, on the `k`-th neighbour of
     * (x, y): an in-bounds, non-hole cell holding the opponent of `q` becomes `q`.
     */
    method InfectStep(a: array2<int>, ghost lifted: Board, x: int, y: int, q: Player, k: nat)
      requires k < |NEIGHBORS| && Holds(a, Infect(lifted, holes, x, y, q, k))
      modifies a
      ensures Holds(a, Infect(lifted, holes, x, y, q, k + 1))
    {
      InfectNext(lifted, holes, x, y, q, k);
      var i, j := x + NEIGHBORS[k].0, y + NEIGHBORS[k].1;
      if 0 <= i < SIZE && 0 <= j < SIZE && !holes[i][j] && a[i, j] == 1 - q {
        a[i, j] := q;
      }
    }

    /** estimateCurrentScore: the blobs of the strategy's player minus its opponent's. */
    method EstimateCurrentScore(a: array2<int>, ghost b: Board) returns (score: int)
      requires Holds(a, b)
      ensures score == Score(b, player)
    {
      score := 0;
      var i := 0;
      while i < SIZE
        invariant 0 <= i <= SIZE
        invariant score == Weights(Flatten(b[..i]), player)
      {
        var j := 0;
        while j < SIZE
          invariant 0 <= j <= SIZE
          invariant score == Weights(Flatten(b[..i]), player) + Weights(b[i][..j], player)
        {
          assert b[i][..j + 1][..j] == b[i][..j];
          if a[i, j] == player {
            score := score + 1;
          } else if a[i, j] == 1 - player {
            score := score - 1;
          }
          j := j + 1;
        }
        assert b[..i + 1][..i] == b[..i] && b[i][..SIZE] == b[i];
        WeightsAppend(Flatten(b[..i]), b[i], player);
        i := i + 1;
      }
      assert b[..SIZE] == b;
    }

    /**
     * computeValidMoves: appends to `valid` the legal moves of `q`, origin by
     * origin in row-major order, each origin's destinations row by row.
     */
    method ComputeValidMoves(a: array2<int>, ghost b: Board, valid: seq<Move>, q: Player) returns (r: seq<Move>)
      requires Holds(a, b)
      ensures r == valid + ValidMoves(b, holes, q)
    {
      r := valid;
      var ox := 0;
      while ox < SIZE
        invariant 0 <= ox <= SIZE
        invariant r == valid + MovesBefore(b, holes, q, ox)
      {
        r := AppendRow(a, b, r, ox, q);
        ConcatAssoc(valid, MovesBefore(b, holes, q, ox), RowMoves(b, holes, q, ox, SIZE));
        ox := ox + 1;
      }
    }

    /** The origin-column loop of computeValidMoves for origin row `ox`. */
    method AppendRow(a: array2<int>, ghost b: Board, valid: seq<Move>, ox: int, q: Player) returns (r: seq<Move>)
      requires Holds(a, b) && 0 <= ox < SIZE
      ensures r == valid + RowMoves(b, holes, q, ox, SIZE)
    {
      r := valid;
      var oy := 0;
      while oy < SIZE
        invariant 0 <= oy <= SIZE
        invariant r == valid + RowMoves(b, holes, q, ox, oy)
      {
        if a[ox, oy] == q {
          r := AppendTargets(a, b, r, ox, oy);
          ConcatAssoc(valid, RowMoves(b, holes, q, ox, oy), OriginMoves(b, holes, q, ox, oy));
        }
        oy := oy + 1;
      }
    }

    /**
     * The two inner loops of computeValidMoves for origin (ox, oy): every
     * empty non-hole cell at most two rows and two columns away, row by row.
     */
    method AppendTargets(a: array2<int>, ghost b: Board, valid: seq<Move>, ox: int, oy: int) returns (r: seq<Move>)
      requires Holds(a, b) && InBounds(ox, oy)
      ensures r == valid + Targets(b, holes, ox, oy, Hi(ox) + 1)
    {
      r := valid;
      var nx := Lo(ox);
      while nx <= Hi(ox)
        invariant Lo(ox) <= nx <= Hi(ox) + 1
        invariant r == valid + Targets(b, holes, ox, oy, nx)
      {
        ghost var rowStart := r;
        var ny := Lo(oy);
        while ny <= Hi(oy)
          invariant Lo(oy) <= ny <= Hi(oy) + 1
          invariant r == rowStart + RowTargets(b, holes, ox, oy, nx, ny)
        {
          if !holes[nx][ny] && a[nx, ny] == EMPTY {
            ConcatAssoc(rowStart, RowTargets(b, holes, ox, oy, nx, ny), [Move(ox, oy, nx, ny)]);
            r := r + [Move(ox, oy, nx, ny)];
          }
          ny := ny + 1;
        }
        ConcatAssoc(valid, Targets(b, holes, ox, oy, nx), RowTargets(b, holes, ox, oy, nx, Hi(oy) + 1));
        nx := nx + 1;
      }
    }

    /** countEnnemies: the opponent's blobs around the move's destination. */
    method CountEnemies(mv: Move) returns (n: nat)
      requires Valid()
      ensures n == EnemiesAround(Current(), holes, player, mv)
    {
      n := 0;
      var k := 0;
      while k < |NEIGHBORS|
        invariant 0 <= k <= |NEIGHBORS|
        invariant n == Enemies(Current(), holes, player, mv.nx, mv.ny, k)
      {
        var x, y := mv.nx + NEIGHBORS[k].0, mv.ny + NEIGHBORS[k].1;
        if 0 <= x < SIZE && 0 <= y < SIZE && !holes[x][y] && blobs[x, y] == 1 - player {
          n := n + 1;
        }
        k := k + 1;
      }
    }

    /** GreedyStrategy::computeBestMove. */
    method GreedyBestMove()
      requires Valid()
      modifies this
      ensures saves == old(saves) + Decision(GreedyKind, rootDepth, Current(), holes, player)
    {
      ghost var b := Current();
      GridHolds(blobs);
      var moves := ComputeValidMoves(blobs, b, [], player);
      ConcatEmpty(ValidMoves(b, holes, player));
      ConcatEmpty(saves);
      if moves == [] {
        assert Choice(b, holes, player) == None;
        assert Decision(GreedyKind, rootDepth, b, holes, player) == [];
        return;
      }
      var bestMove := GreedyScan(moves);
      assert Choice(b, holes, player) == Some(bestMove);
      assert Decision(GreedyKind, rootDepth, b, holes, player) == [bestMove];
      SaveBestMove(bestMove);
      assert Current() == b;
    }

    /**
     * The scan of GreedyStrategy::computeBestMove over the legal moves: a
     * strictly higher enemy count, or an equal one reached by a clone, takes
     * over the best move.
     */
    method GreedyScan(moves: seq<Move>) returns (bestMove: Move)
      requires Valid() && moves == ValidMoves(Current(), holes, player) && moves != []
      ensures Choice(Current(), holes, player) == Some(bestMove)
    {
      ghost var b := Current();
      var bestScore: nat := 0;
      bestMove := moves[0];
      ghost var bestIndex := 0;
      var i := 0;
      while i < |moves|
        invariant 0 <= i <= |moves|
        invariant Scan(b, holes, player, moves, i) == Pick(bestScore, bestIndex)
        invariant bestIndex < |moves| && bestMove == moves[bestIndex]
      {
        var mv := moves[i];
        var score := CountEnemies(mv);
        if score > bestScore {
          bestScore, bestMove, bestIndex := score, mv, i;
        } else if score == bestScore && Abs(mv.ox - mv.nx) <= 1 && Abs(mv.oy - mv.ny) <= 1 {
          bestMove, bestIndex := mv, i;
        }
        i := i + 1;
      }
    }

    /**
     * MinMaxStrategy::minmax: the minimax value of the node; a max node at
     * depth rootDepth saves every child that beats its best score so far.
     */
    method MinMax(a: array2<int>, ghost b: Board, depth: nat, isMax: bool) returns (bestScore: int)
      requires Holds(a, b)
      modifies this
      ensures bestScore == Value(Rules(holes), Play(holes), b, player, depth, isMax)
      ensures saves == old(saves) + Saves(Rules(holes), Play(holes), b, player, rootDepth, depth, isMax)
      decreases depth, 4
    {
      if depth == 0 {
        bestScore := EstimateCurrentScore(a, b);
      } else if isMax {
        bestScore := MaxNode(a, b, depth);
      } else {
        bestScore := MinNode(a, b, depth);
      }
    }

    /** The max branch of minmax: the strategy's player moves and the best child is kept. */
    method MaxNode(a: array2<int>, ghost b: Board, depth: nat) returns (bestScore: int)
      requires Holds(a, b) && 1 <= depth
      modifies this
      ensures bestScore == Value(Rules(holes), Play(holes), b, player, depth, true)
      ensures saves == old(saves) + Saves(Rules(holes), Play(holes), b, player, rootDepth, depth, true)
      decreases depth, 3
    {
      ghost var gen, play := Rules(holes), Play(holes);
      bestScore := INT8_MIN;
      var moves := ComputeValidMoves(a, b, [], player);
      ConcatEmpty(ValidMoves(b, holes, player));
      ConcatEmpty(saves);
      RulesMoves(holes, b, player, true);
      if moves == [] {
        bestScore := EstimateCurrentScore(a, b);
        return;
      }
      bestScore := MaxChildren(a, b, depth, moves, bestScore);
    }

    /** The loop of minmax over the children of a maximising node, in the generator's order. */
    method MaxChildren(a: array2<int>, ghost b: Board, depth: nat, moves: seq<Move>, best: int) returns (bestScore: int)
      requires Holds(a, b) && 1 <= depth
      requires moves == NodeMoves(Rules(holes), b, player, true)
      requires best == Best(Rules(holes), Play(holes), b, player, depth, true, 0)
      modifies this
      ensures bestScore == Best(Rules(holes), Play(holes), b, player, depth, true, |moves|)
      ensures saves == old(saves) + SavesUpTo(Rules(holes), Play(holes), b, player, rootDepth, depth, true, |moves|)
      decreases depth, 2
    {
      ghost var gen, play := Rules(holes), Play(holes);
      ConcatEmpty(saves);
      bestScore := best;
      var i := 0;
      while i < |moves|
        invariant 0 <= i <= |moves|
        invariant bestScore == Best(gen, play, b, player, depth, true, i)
        invariant saves == old(saves) + SavesUpTo(gen, play, b, player, rootDepth, depth, true, i)
      {
        bestScore := MaxStep(a, b, depth, moves, i, bestScore, old(saves));
        i := i + 1;
      }
    }

    /**
     * One iteration of the max branch's loop, on the `i`-th move: a copy of the
     * board with the move applied, the search one ply down, and the move saved
     * when the node is the root and the child beats the best score so far.
     */
    method MaxStep(a: array2<int>, ghost b: Board, depth: nat, moves: seq<Move>, i: nat, best: int, ghost before: seq<Move>)
      returns (newBest: int)
      requires Holds(a, b) && 1 <= depth
      requires moves == NodeMoves(Rules(holes), b, player, true) && i < |moves|
      requires best == Best(Rules(holes), Play(holes), b, player, depth, true, i)
      requires saves == before + SavesUpTo(Rules(holes), Play(holes), b, player, rootDepth, depth, true, i)
      modifies this
      ensures newBest == Best(Rules(holes), Play(holes), b, player, depth, true, i + 1)
      ensures saves == before + SavesUpTo(Rules(holes), Play(holes), b, player, rootDepth, depth, true, i + 1)
      decreases depth, 1
    {
      ghost var gen, play := Rules(holes), Play(holes);
      var score := MinMaxChild(a, b, depth, moves, i, true);
      StepSaves(gen, play, b, player, rootDepth, depth, true, i, score, before);
      newBest := best;
      if score > best {
        newBest := score;
        if depth == rootDepth {
          SaveBestMove(moves[i]);
        }
      }
    }

    /**
     * The search one ply down from the `i`-th move of the side to move, as the
     * loop of minmax runs it: a copy of the board (`new_blobs(blobs)`) with the
     * move applied, searched with the other side to move.
     */
    method MinMaxChild(a: array2<int>, ghost b: Board, depth: nat, moves: seq<Move>, i: nat, isMax: bool)
      returns (score: int)
      requires Holds(a, b) && 1 <= depth
      requires moves == NodeMoves(Rules(holes), b, player, isMax) && i < |moves|
      modifies this
      ensures score == ChildValue(Rules(holes), Play(holes), b, player, depth, isMax, i)
      ensures saves == old(saves)
        + Saves(Rules(holes), Play(holes), Child(Rules(holes), Play(holes), b, player, isMax, i), player, rootDepth, depth - 1, !isMax)
      decreases depth, 0
    {
      var newBlobs := new int[SIZE, SIZE]((x, y) reads a requires 0 <= x < SIZE && 0 <= y < SIZE => a[x, y]);
      RulesMoves(holes, b, player, isMax);
      RulesChild(holes, b, player, isMax, i);
      ApplyMove(newBlobs, b, moves[i], Mover(player, isMax));
      score := MinMax(newBlobs, Child(Rules(holes), Play(holes), b, player, isMax, i), depth - 1, !isMax);
    }

    /** The min branch of minmax: the opponent moves and the worst child is kept. */
    method MinNode(a: array2<int>, ghost b: Board, depth: nat) returns (bestScore: int)
      requires Holds(a, b) && 1 <= depth
      modifies this
      ensures bestScore == Value(Rules(holes), Play(holes), b, player, depth, false)
      ensures saves == old(saves) + Saves(Rules(holes), Play(holes), b, player, rootDepth, depth, false)
      decreases depth, 3
    {
      ghost var gen, play := Rules(holes), Play(holes);
      bestScore := INT8_MAX;
      var moves := ComputeValidMoves(a, b, [], 1 - player);
      ConcatEmpty(ValidMoves(b, holes, 1 - player));
      ConcatEmpty(saves);
      RulesMoves(holes, b, player, false);
      if moves == [] {
        bestScore := EstimateCurrentScore(a, b);
        return;
      }
      bestScore := MinChildren(a, b, depth, moves, bestScore);
    }

    /** The loop of minmax over the children of a minimising node, in the generator's order. */
    method MinChildren(a: array2<int>, ghost b: Board, depth: nat, moves: seq<Move>, best: int) returns (bestScore: int)
      requires Holds(a, b) && 1 <= depth
      requires moves == NodeMoves(Rules(holes), b, player, false)
      requires best == Best(Rules(holes), Play(holes), b, player, depth, false, 0)
      modifies this
      ensures bestScore == Best(Rules(holes), Play(holes), b, player, depth, false, |moves|)
      ensures saves == old(saves) + SavesUpTo(Rules(holes), Play(holes), b, player, rootDepth, depth, false, |moves|)
      decreases depth, 2
    {
      ghost var gen, play := Rules(holes), Play(holes);
      ConcatEmpty(saves);
      bestScore := best;
      var i := 0;
      while i < |moves|
        invariant 0 <= i <= |moves|
        invariant bestScore == Best(gen, play, b, player, depth, false, i)
        invariant saves == old(saves) + SavesUpTo(gen, play, b, player, rootDepth, depth, false, i)
      {
        bestScore := MinStep(a, b, depth, moves, i, bestScore, old(saves));
        i := i + 1;
      }
    }

    /**
     * One iteration of the min branch's loop, on the `i`-th move: a copy of the
     * board with the opponent's move applied, the search one ply down, and the
     * lower of the two scores kept.
     */
    method MinStep(a: array2<int>, ghost b: Board, depth: nat, moves: seq<Move>, i: nat, best: int, ghost before: seq<Move>)
      returns (newBest: int)
      requires Holds(a, b) && 1 <= depth
      requires moves == NodeMoves(Rules(holes), b, player, false) && i < |moves|
      requires best == Best(Rules(holes), Play(holes), b, player, depth, false, i)
      requires saves == before + SavesUpTo(Rules(holes), Play(holes), b, player, rootDepth, depth, false, i)
      modifies this
      ensures newBest == Best(Rules(holes), Play(holes), b, player, depth, false, i + 1)
      ensures saves == before + SavesUpTo(Rules(holes), Play(holes), b, player, rootDepth, depth, false, i + 1)
      decreases depth, 1
    {
      ghost var gen, play := Rules(holes), Play(holes);
      var score := MinMaxChild(a, b, depth, moves, i, false);
      StepSaves(gen, play, b, player, rootDepth, depth, false, i, score, before);
      newBest := Min(best, score);
    }

    /**
     * AlphaBetaStrategy::alphabeta: the search with cut-offs; a max node at
     * depth rootDepth saves every child that beats its running
     * maximum.
     */
    method AlphaBetaSearch(a: array2<int>, ghost b: Board, depth: nat, alpha: int, beta: int, isMax: bool) returns (score: int)
      requires Holds(a, b)
      modifies this
      ensures var o := AlphaBeta(Rules(holes), Play(holes), b, player, rootDepth, depth, alpha, beta, isMax);
        score == o.score && saves == old(saves) + o.saves
      decreases depth, 4
    {
      if depth == 0 {
        score := EstimateCurrentScore(a, b);
        ConcatEmpty(saves);
      } else if isMax {
        score := AlphaBetaMax(a, b, depth, alpha, beta);
      } else {
        score := AlphaBetaMin(a, b, depth, alpha, beta);
      }
    }

    /** The max branch of alphabeta: the running maximum `m` and a rising alpha. */
    method AlphaBetaMax(a: array2<int>, ghost b: Board, depth: nat, alpha: int, beta: int) returns (m: int)
      requires Holds(a, b) && 1 <= depth
      modifies this
      ensures var o := AlphaBeta(Rules(holes), Play(holes), b, player, rootDepth, depth, alpha, beta, true);
        m == o.score && saves == old(saves) + o.saves
      decreases depth, 3
    {
      m := INT8_MIN;
      var moves := ComputeValidMoves(a, b, [], player);
      ConcatEmpty(ValidMoves(b, holes, player));
      ConcatEmpty(saves);
      RulesMoves(holes, b, player, true);
      if moves == [] {
        m := EstimateCurrentScore(a, b);
        return;
      }
      m := AlphaBetaMaxChildren(a, b, depth, moves, alpha, beta, m);
    }

    /** The loop of alphabeta over the children of a maximising node, with its cut-off. */
    method AlphaBetaMaxChildren(a: array2<int>, ghost b: Board, depth: nat, moves: seq<Move>, alpha: int, beta: int, m0: int)
      returns (m: int)
      requires Holds(a, b) && 1 <= depth
      requires moves == NodeMoves(Rules(holes), b, player, true)
      modifies this
      ensures var o := MaxLoop(Rules(holes), Play(holes), b, player, rootDepth, depth, 0, alpha, beta, m0);
        m == o.score && saves == old(saves) + o.saves
      decreases depth, 2
    {
      ghost var gen, play := Rules(holes), Play(holes);
      ghost var o := MaxLoop(gen, play, b, player, rootDepth, depth, 0, alpha, beta, m0);
      m := m0;
      var lo := alpha;
      var i := 0;
      while i < |moves|
        invariant 0 <= i <= |moves|
        invariant var rest := MaxLoop(gen, play, b, player, rootDepth, depth, i, lo, beta, m);
          rest.score == o.score && old(saves) + o.saves == saves + rest.saves
      {
        var cut;
        m, cut := AlphaBetaMaxStep(a, b, depth, moves, i, lo, beta, m, o, old(saves));
        if cut {
          return;
        }
        lo := Max(lo, m);
        i := i + 1;
      }
      ConcatEmpty(saves);
    }

    /**
     * One iteration of the max branch's loop, on the `i`-th move: the search
     * one ply down on a copy of the board with the move applied, the move saved
     * at the root when it beats `m`, and `cut` when the new maximum reaches beta.
     */
    method AlphaBetaMaxStep(a: array2<int>, ghost b: Board, depth: nat, moves: seq<Move>, i: nat,
                            lo: int, hi: int, m: int, ghost o: Outcome, ghost before: seq<Move>)
      returns (newM: int, cut: bool)
      requires Holds(a, b) && 1 <= depth
      requires moves == NodeMoves(Rules(holes), b, player, true) && i < |moves|
      requires var rest := MaxLoop(Rules(holes), Play(holes), b, player, rootDepth, depth, i, lo, hi, m);
        rest.score == o.score && before + o.saves == saves + rest.saves
      modifies this
      ensures cut ==> newM == o.score && before + o.saves == saves
      ensures !cut ==>
        var rest := MaxLoop(Rules(holes), Play(holes), b, player, rootDepth, depth, i + 1, Max(lo, newM), hi, newM);
        rest.score == o.score && before + o.saves == saves + rest.saves
      decreases depth, 1
    {
      ghost var gen, play := Rules(holes), Play(holes);
      ghost var child := Child(gen, play, b, player, true, i);
      ghost var r := AlphaBeta(gen, play, child, player, rootDepth, depth - 1, lo, hi, false);
      var score := AlphaBetaChild(a, b, depth, moves, i, true, lo, hi);
      ghost var saved: seq<Move> := if score > m && depth == rootDepth then [moves[i]] else [];
      ghost var m' := if score > m then score else m;
      ghost var next := MaxLoop(gen, play, b, player, rootDepth, depth, i + 1, Max(lo, m'), hi, m');
      ConcatShift(old(saves), r.saves, saved, next.saves);
      newM := m;
      if score > m {
        if depth == rootDepth {
          SaveBestMove(moves[i]);
        }
        newM := score;
      }
      cut := newM >= hi;
    }

    /**
     * The search one ply down from the `i`-th move of the side to move, as the
     * loop of alphabeta runs it: a copy of the board with the move applied,
     * searched with the window [lo, hi] and the other side to move.
     */
    method AlphaBetaChild(a: array2<int>, ghost b: Board, depth: nat, moves: seq<Move>, i: nat, isMax: bool,
                          lo: int, hi: int) returns (score: int)
      requires Holds(a, b) && 1 <= depth
      requires moves == NodeMoves(Rules(holes), b, player, isMax) && i < |moves|
      modifies this
      ensures var r := AlphaBeta(Rules(holes), Play(holes), Child(Rules(holes), Play(holes), b, player, isMax, i),
                                 player, rootDepth, depth - 1, lo, hi, !isMax);
        score == r.score && saves == old(saves) + r.saves
      decreases depth, 0
    {
      var newBlobs := new int[SIZE, SIZE]((x, y) reads a requires 0 <= x < SIZE && 0 <= y < SIZE => a[x, y]);
      RulesMoves(holes, b, player, isMax);
      RulesChild(holes, b, player, isMax, i);
      ApplyMove(newBlobs, b, moves[i], Mover(player, isMax));
      score := AlphaBetaSearch(newBlobs, Child(Rules(holes), Play(holes), b, player, isMax, i), depth - 1, lo, hi, !isMax);
    }

    /** The min branch of alphabeta: the running minimum `M` and a falling beta. */
    method AlphaBetaMin(a: array2<int>, ghost b: Board, depth: nat, alpha: int, beta: int) returns (M: int)
      requires Holds(a, b) && 1 <= depth
      modifies this
      ensures var o := AlphaBeta(Rules(holes), Play(holes), b, player, rootDepth, depth, alpha, beta, false);
        M == o.score && saves == old(saves) + o.saves
      decreases depth, 3
    {
      M := INT8_MAX;
      var moves := ComputeValidMoves(a, b, [], 1 - player);
      ConcatEmpty(ValidMoves(b, holes, 1 - player));
      ConcatEmpty(saves);
      RulesMoves(holes, b, player, false);
      if moves == [] {
        M := EstimateCurrentScore(a, b);
        return;
      }
      M := AlphaBetaMinChildren(a, b, depth, moves, alpha, beta, M);
    }

    /** The loop of alphabeta over the children of a minimising node, with its cut-off. */
    method AlphaBetaMinChildren(a: array2<int>, ghost b: Board, depth: nat, moves: seq<Move>, alpha: int, beta: int, M0: int)
      returns (M: int)
      requires Holds(a, b) && 1 <= depth
      requires moves == NodeMoves(Rules(holes), b, player, false)
      modifies this
      ensures var o := MinLoop(Rules(holes), Play(holes), b, player, rootDepth, depth, 0, alpha, beta, M0);
        M == o.score && saves == old(saves) + o.saves
      decreases depth, 2
    {
      ghost var gen, play := Rules(holes), Play(holes);
      ghost var o := MinLoop(gen, play, b, player, rootDepth, depth, 0, alpha, beta, M0);
      M := M0;
      var hi := beta;
      var i := 0;
      while i < |moves|
        invariant 0 <= i <= |moves|
        invariant var rest := MinLoop(gen, play, b, player, rootDepth, depth, i, alpha, hi, M);
          rest.score == o.score && old(saves) + o.saves == saves + rest.saves
      {
        var cut;
        M, cut := AlphaBetaMinStep(a, b, depth, moves, i, alpha, hi, M, o, old(saves));
        if cut {
          return;
        }
        hi := Min(hi, M);
        i := i + 1;
      }
      ConcatEmpty(saves);
    }

    /**
     * One iteration of the min branch's loop, on the `i`-th move: the search
     * one ply down on a copy of the board with the opponent's move applied,
     * and `cut` when the new minimum falls to alpha.
     */
    method AlphaBetaMinStep(a: array2<int>, ghost b: Board, depth: nat, moves: seq<Move>, i: nat,
                            lo: int, hi: int, M: int, ghost o: Outcome, ghost before: seq<Move>)
      returns (newM: int, cut: bool)
      requires Holds(a, b) && 1 <= depth
      requires moves == NodeMoves(Rules(holes), b, player, false) && i < |moves|
      requires var rest := MinLoop(Rules(holes), Play(holes), b, player, rootDepth, depth, i, lo, hi, M);
        rest.score == o.score && before + o.saves == saves + rest.saves
      modifies this
      ensures cut ==> newM == o.score && before + o.saves == saves
      ensures !cut ==>
        var rest := MinLoop(Rules(holes), Play(holes), b, player, rootDepth, depth, i + 1, lo, Min(hi, newM), newM);
        rest.score == o.score && before + o.saves == saves + rest.saves
      decreases depth, 1
    {
      ghost var gen, play := Rules(holes), Play(holes);
      ghost var child := Child(gen, play, b, player, false, i);
      ghost var r := AlphaBeta(gen, play, child, player, rootDepth, depth - 1, lo, hi, true);
      var score := AlphaBetaChild(a, b, depth, moves, i, false, lo, hi);
      ghost var M' := if score < M then score else M;
      ghost var next := MinLoop(gen, play, b, player, rootDepth, depth, i + 1, lo, Min(hi, M'), M');
      ConcatShift(old(saves), r.saves, [], next.saves);
      ConcatEmpty(r.saves);
      newM := M;
      if score < M {
        newM := score;
      }
      cut := newM <= lo;
    }

    /** computeBestMove of the strategy's class. */
    method ComputeBestMove()
      requires Valid()
      modifies this
      ensures saves == old(saves) + Decision(kind, rootDepth, Current(), holes, player)
      ensures var s := Decision(kind, rootDepth, Current(), holes, player);
        LastSaved() == if s == [] then old(LastSaved()) else Some(s[|s| - 1])
    {
      match kind
      case GreedyKind =>
        GreedyBestMove();
      case MinMaxKind =>
        GridHolds(blobs);
        var _ := MinMax(blobs, Current(), rootDepth, true);
      case AlphaBetaKind =>
        GridHolds(blobs);
        var _ := AlphaBetaSearch(blobs, Current(), rootDepth, INT8_MIN, INT8_MAX, true);
      ghost var s := Decision(kind, rootDepth, Current(), holes, player);
      ConcatEmpty(old(saves));
      if s != [] {
        assert saves[|saves| - 1] == s[|s| - 1];
      }
    }
  }
}
