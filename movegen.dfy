/**
 * computeValidMoves as functions: one per loop of the generator, each giving
 * the moves the loops have produced up to a given loop index. The generator's
 * output is exactly the set of legal moves, listed in increasing
 * (origin row, origin column, destination row, destination column) order.
 */
module MoveGen {
  import opened Boards

  /** First and last row (or column) of the window within two cells of `v`. */
  function Lo(v: int): int { if v - 2 < 0 then 0 else v - 2 }
  function Hi(v: int): int { if v + 2 > SIZE - 1 then SIZE - 1 else v + 2 }

  /** The lexicographic order on (ox, oy, nx, ny). */
  predicate Before(a: Move, b: Move) {
    a.ox < b.ox || (a.ox == b.ox && (a.oy < b.oy || (a.oy == b.oy &&
      (a.nx < b.nx || (a.nx == b.nx && a.ny < b.ny)))))
  }

  predicate Increasing(s: seq<Move>) {
    forall i, j :: 0 <= i < j < |s| ==> Before(s[i], s[j])
  }

  lemma IncreasingConcat(a: seq<Move>, b: seq<Move>)
    requires Increasing(a) && Increasing(b)
    requires forall x, y :: x in a && y in b ==> Before(x, y)
    ensures Increasing(a + b)
  {
    forall i, j | 0 <= i < j < |a + b|
      ensures Before((a + b)[i], (a + b)[j])
    {
      if j >= |a| && i < |a| {
        assert (a + b)[i] == a[i] && (a + b)[j] == b[j - |a|];
      }
    }
  }

  /** A destination cell the generator emits: not a hole and empty. */
  predicate Free(b: Board, h: Holes, x: int, y: int)
    requires InBounds(x, y)
  {
    !h[x][y] && b[x][y] == EMPTY
  }

  /** Innermost loop: origin (ox, oy), destination row nx, columns Lo(oy) up to ny - 1. */
  function RowTargets(b: Board, h: Holes, ox: int, oy: int, nx: int, ny: int): seq<Move>
    requires InBounds(ox, oy) && Lo(ox) <= nx <= Hi(ox) && Lo(oy) <= ny <= Hi(oy) + 1
    decreases ny
  {
    if ny == Lo(oy) then []
    else
      var prefix := RowTargets(b, h, ox, oy, nx, ny - 1);
      if Free(b, h, nx, ny - 1) then prefix + [Move(ox, oy, nx, ny - 1)] else prefix
  }

  /** Third loop: origin (ox, oy), destination rows Lo(ox) up to nx - 1. */
  function Targets(b: Board, h: Holes, ox: int, oy: int, nx: int): seq<Move>
    requires InBounds(ox, oy) && Lo(ox) <= nx <= Hi(ox) + 1
    decreases nx
  {
    if nx == Lo(ox) then []
    else Targets(b, h, ox, oy, nx - 1) + RowTargets(b, h, ox, oy, nx - 1, Hi(oy) + 1)
  }

  /** The moves of one origin: all its targets when it holds `p`, none otherwise. */
  function OriginMoves(b: Board, h: Holes, p: Player, ox: int, oy: int): seq<Move>
    requires InBounds(ox, oy)
  {
    if b[ox][oy] == p then Targets(b, h, ox, oy, Hi(ox) + 1) else []
  }

  /** Second loop: origins (ox, 0) up to (ox, oy - 1). */
  function RowMoves(b: Board, h: Holes, p: Player, ox: int, oy: int): seq<Move>
    requires 0 <= ox < SIZE && 0 <= oy <= SIZE
  {
    if oy == 0 then []
    else RowMoves(b, h, p, ox, oy - 1) + OriginMoves(b, h, p, ox, oy - 1)
  }

  /** Outer loop: origin rows 0 up to ox - 1. */
  function MovesBefore(b: Board, h: Holes, p: Player, ox: int): seq<Move>
    requires 0 <= ox <= SIZE
  {
    if ox == 0 then []
    else MovesBefore(b, h, p, ox - 1) + RowMoves(b, h, p, ox - 1, SIZE)
  }

  /**
   * The innermost loop emits the free cells of destination row nx, left to
   * right.
   */
  lemma {:induction false} RowTargetsSpec(b: Board, h: Holes, ox: int, oy: int, nx: int, ny: int)
    requires InBounds(ox, oy) && Lo(ox) <= nx <= Hi(ox) && Lo(oy) <= ny <= Hi(oy) + 1
    ensures var r := RowTargets(b, h, ox, oy, nx, ny);
      (forall m :: m in r <==>
        m.ox == ox && m.oy == oy && m.nx == nx && Lo(oy) <= m.ny < ny && Free(b, h, nx, m.ny))
      && Increasing(r)
    decreases ny
  {
    if ny > Lo(oy) {
      RowTargetsSpec(b, h, ox, oy, nx, ny - 1);
      IncreasingConcat(RowTargets(b, h, ox, oy, nx, ny - 1),
                       if Free(b, h, nx, ny - 1) then [Move(ox, oy, nx, ny - 1)] else []);
    }
  }

  /** The destination loops emit the free cells of the window, row by row. */
  lemma {:induction false} TargetsSpec(b: Board, h: Holes, ox: int, oy: int, nx: int)
    requires InBounds(ox, oy) && Lo(ox) <= nx <= Hi(ox) + 1
    ensures var r := Targets(b, h, ox, oy, nx);
      (forall m :: m in r <==>
        m.ox == ox && m.oy == oy && Lo(ox) <= m.nx < nx && Lo(oy) <= m.ny <= Hi(oy)
        && Free(b, h, m.nx, m.ny))
      && Increasing(r)
    decreases nx
  {
    if nx > Lo(ox) {
      TargetsSpec(b, h, ox, oy, nx - 1);
      RowTargetsSpec(b, h, ox, oy, nx - 1, Hi(oy) + 1);
      IncreasingConcat(Targets(b, h, ox, oy, nx - 1), RowTargets(b, h, ox, oy, nx - 1, Hi(oy) + 1));
    }
  }

  /** The window of `v` is the on-board range within two of it. */
  lemma WindowSpec(v: int, w: int)
    requires 0 <= v < SIZE
    ensures Lo(v) <= w <= Hi(v) <==> 0 <= w < SIZE && Abs(v - w) <= 2
  {
  }

  /** One origin contributes exactly its legal moves. */
  lemma OriginMovesSpec(b: Board, h: Holes, p: Player, ox: int, oy: int)
    requires InBounds(ox, oy)
    ensures var r := OriginMoves(b, h, p, ox, oy);
      (forall m :: m in r <==> m.ox == ox && m.oy == oy && Legal(b, h, m, p))
      && Increasing(r)
  {
    TargetsSpec(b, h, ox, oy, Hi(ox) + 1);
    forall m: Move
      ensures Lo(ox) <= m.nx <= Hi(ox) <==> 0 <= m.nx < SIZE && Abs(ox - m.nx) <= 2
      ensures Lo(oy) <= m.ny <= Hi(oy) <==> 0 <= m.ny < SIZE && Abs(oy - m.ny) <= 2
    {
      WindowSpec(ox, m.nx);
      WindowSpec(oy, m.ny);
    }
  }

  /** The first `oy` origins of row `ox` contribute exactly their legal moves. */
  lemma {:induction false} RowMovesSpec(b: Board, h: Holes, p: Player, ox: int, oy: int)
    requires 0 <= ox < SIZE && 0 <= oy <= SIZE
    ensures var r := RowMoves(b, h, p, ox, oy);
      (forall m :: m in r <==> m.ox == ox && m.oy < oy && Legal(b, h, m, p))
      && Increasing(r)
  {
    if oy > 0 {
      RowMovesSpec(b, h, p, ox, oy - 1);
      OriginMovesSpec(b, h, p, ox, oy - 1);
      IncreasingConcat(RowMoves(b, h, p, ox, oy - 1), OriginMoves(b, h, p, ox, oy - 1));
    }
  }

  /** The first `ox` rows of origins contribute exactly their legal moves. */
  lemma {:induction false} MovesBeforeSpec(b: Board, h: Holes, p: Player, ox: int)
    requires 0 <= ox <= SIZE
    ensures var r := MovesBefore(b, h, p, ox);
      (forall m :: m in r <==> m.ox < ox && Legal(b, h, m, p))
      && Increasing(r)
  {
    if ox > 0 {
      MovesBeforeSpec(b, h, p, ox - 1);
      RowMovesSpec(b, h, p, ox - 1, SIZE);
      IncreasingConcat(MovesBefore(b, h, p, ox - 1), RowMoves(b, h, p, ox - 1, SIZE));
    }
  }

  /** computeValidMoves: the moves its loops list, in their order. */
  function ValidMoves(b: Board, h: Holes, p: Player): seq<Move> {
    MovesBefore(b, h, p, SIZE)
  }

  /**
   * The generator lists the legal moves of `p`, each exactly once, in
   * increasing (origin row, origin column, destination row, destination
   * column) order.
   */
  lemma ValidMovesSpec(b: Board, h: Holes, p: Player)
    ensures forall m :: m in ValidMoves(b, h, p) <==> Legal(b, h, m, p)
    ensures Increasing(ValidMoves(b, h, p))
  {
    MovesBeforeSpec(b, h, p, SIZE);
  }

  /** Index form of the soundness of the generator. */
  lemma ValidMovesLegal(b: Board, h: Holes, p: Player, i: int)
    requires 0 <= i < |ValidMoves(b, h, p)|
    ensures Legal(b, h, ValidMoves(b, h, p)[i], p)
  {
    ValidMovesSpec(b, h, p);
    assert ValidMoves(b, h, p)[i] in ValidMoves(b, h, p);
  }

  /**
   * The order fixes the list: any increasing list of exactly the legal moves
   * is the generator's output.
   */
  lemma ValidMovesUnique(b: Board, h: Holes, p: Player, s: seq<Move>)
    requires Increasing(s)
    requires forall m :: m in s <==> Legal(b, h, m, p)
    ensures s == ValidMoves(b, h, p)
  {
    ValidMovesSpec(b, h, p);
    SameIncreasing(s, ValidMoves(b, h, p));
  }

  lemma {:induction false} SameIncreasing(s: seq<Move>, t: seq<Move>)
    requires Increasing(s) && Increasing(t)
    requires forall m :: m in s <==> m in t
    ensures s == t
    decreases |s|
  {
    assert s != [] ==> s[0] in t;
    assert t != [] ==> t[0] in s;
    if s != [] && t != [] {
      var i :| 0 <= i < |s| && s[i] == t[0];
      var j :| 0 <= j < |t| && t[j] == s[0];
      assert i == 0 || Before(s[0], t[0]);
      assert j == 0 || Before(t[0], s[0]);
      BeforeAsymmetric(s[0], t[0]);
      assert s[0] == t[0];
      forall m
        ensures m in s[1..] <==> m in t[1..]
      {
        if m in s[1..] {
          var i :| 1 <= i < |s| && s[i] == m;
          assert Before(s[0], s[i]);
          BeforeIrreflexive(s[0]);
          assert m != t[0] && m in t;
          var j :| 0 <= j < |t| && t[j] == m;
          assert t[1..][j - 1] == m;
        }
        if m in t[1..] {
          var j :| 1 <= j < |t| && t[j] == m;
          assert Before(t[0], t[j]);
          BeforeIrreflexive(t[0]);
          assert m != s[0] && m in s;
          var i :| 0 <= i < |s| && s[i] == m;
          assert s[1..][i - 1] == m;
        }
      }
      SameIncreasing(s[1..], t[1..]);
      assert s == [s[0]] + s[1..] && t == [t[0]] + t[1..];
    }
  }

  lemma BeforeIrreflexive(a: Move)
    ensures !Before(a, a)
  {
  }

  lemma BeforeAsymmetric(a: Move, b: Move)
    ensures !(Before(a, b) && Before(b, a))
  {
  }
}
