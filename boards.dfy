/**
 * The 8x8 board of the infection game, its hole mask, players, moves,
 * and the static evaluation (the material difference between the players).
 */
module Boards {

  const SIZE := 8
  /** Value of a cell that holds no blob. */
  const EMPTY := -1
  /** Start values of the running best score in the searches (INT8_MIN, INT8_MAX). */
  const INT8_MIN := -128
  const INT8_MAX := 127

  predicate IsGrid<T>(g: seq<seq<T>>) {
    |g| == SIZE && forall i :: 0 <= i < SIZE ==> |g[i]| == SIZE
  }

  /** A board cell holds EMPTY or the id of the player owning the blob. */
  type Board = b: seq<seq<int>> | IsGrid(b) witness seq(8, i => seq(8, j => EMPTY))

  /** The hole mask: true where the cell is a permanent hole. */
  type Holes = h: seq<seq<bool>> | IsGrid(h) witness seq(8, i => seq(8, j => false))

  type Player = p: int | 0 <= p <= 1

  function Opponent(p: Player): Player {
    1 - p
  }

  datatype Option<T> = None | Some(value: T)

  /** A move from the origin cell (ox, oy) to the destination cell (nx, ny). */
  datatype Move = Move(ox: int, oy: int, nx: int, ny: int)

  predicate InBounds(x: int, y: int) {
    0 <= x < SIZE && 0 <= y < SIZE
  }

  function Abs(x: int): nat {
    if x < 0 then -x else x
  }

  /** A jump leaves its origin: some coordinate moves by more than one. */
  predicate IsJump(mv: Move) {
    Abs(mv.ox - mv.nx) > 1 || Abs(mv.oy - mv.ny) > 1
  }

  /** A clone keeps its origin: both coordinates move by at most one. */
  predicate IsClone(mv: Move) {
    Abs(mv.ox - mv.nx) <= 1 && Abs(mv.oy - mv.ny) <= 1
  }

  /**
   * A move is legal for `p` when its origin holds `p` and its destination is an
   * in-bounds, empty, non-hole cell at most two rows and two columns away.
   */
  predicate Legal(b: Board, h: Holes, mv: Move, p: Player) {
    InBounds(mv.ox, mv.oy) && InBounds(mv.nx, mv.ny)
    && b[mv.ox][mv.oy] == p
    && Abs(mv.ox - mv.nx) <= 2 && Abs(mv.oy - mv.ny) <= 2
    && !h[mv.nx][mv.ny] && b[mv.nx][mv.ny] == EMPTY
  }

  /** The board with cell (x, y) set to `v` (bidiarray::set). */
  function Set(b: Board, x: int, y: int, v: int): Board
    requires InBounds(x, y)
  {
    b[x := b[x][y := v]]
  }

  lemma ConcatEmpty<T>(s: seq<T>)
    ensures [] + s == s && s + [] == s
  {
  }

  lemma ConcatAssoc<T>(a: seq<T>, b: seq<T>, c: seq<T>)
    ensures a + b + c == a + (b + c)
  {
  }

  /** Regrouping a list made of a prefix and three pieces. */
  lemma ConcatShift<T>(s: seq<T>, a: seq<T>, c: seq<T>, r: seq<T>)
    ensures s + (a + c + r) == s + a + c + r
    ensures s + (a + c) == s + a + c
    ensures c == [] ==> s + a + c == s + a
  {
  }

  /** The ends of a non-empty list extended by `e`. */
  lemma AppendEnds<T>(t: seq<T>, e: seq<T>)
    requires t != []
    ensures (t + e)[0] == t[0]
    ensures e == [] ==> (t + e)[|t + e| - 1] == t[|t| - 1]
    ensures |e| == 1 ==> (t + e)[|t + e| - 1] == e[0]
  {
  }

  /** Appending a list piece by piece appends the whole of it. */
  lemma ConcatStep<T>(s: seq<T>, done: seq<T>, more: seq<T>, extra: seq<T>, next: seq<T>)
    requires next == done + more + extra
    ensures s + done + more + extra == s + next
    ensures extra == [] ==> s + done + more == s + next
  {
  }

  // ---------------------------------------------------------------------------
  // Counting blobs

  /** The cells of the rows, row after row. */
  function Flatten(rows: seq<seq<int>>): seq<int> {
    if rows == [] then [] else Flatten(rows[..|rows| - 1]) + rows[|rows| - 1]
  }

  /** Number of cells of `b` that hold `v`. */
  function Count(b: Board, v: int): nat {
    multiset(Flatten(b))[v]
  }

  /** The contribution of one cell to the score of `p`. */
  function Weight(c: int, p: Player): int {
    if c == p then 1 else if c == Opponent(p) then -1 else 0
  }

  /** The summed weights of a sequence of cells, first to last. */
  function Weights(s: seq<int>, p: Player): int {
    if s == [] then 0 else Weights(s[..|s| - 1], p) + Weight(s[|s| - 1], p)
  }

  /**
   * estimateCurrentScore: the board's cells row after row, each adding +1 for
   * `p` and -1 for its opponent; an empty cell counts for neither side. A hole
   * counts by what it holds, which is nothing on a board whose holes are empty
   * (`HolesEmpty`, kept by every move).
   */
  function Score(b: Board, p: Player): (r: int)
    ensures -SIZE * SIZE <= r <= SIZE * SIZE
  {
    FlattenLength(b);
    WeightsBound(Flatten(b), p);
    Weights(Flatten(b), p)
  }

  lemma {:induction false} FlattenLength(b: Board)
    ensures |Flatten(b)| == SIZE * SIZE
  {
    RowsLength(b, SIZE);
    assert b[..SIZE] == b;
  }

  lemma {:induction false} RowsLength(b: Board, k: nat)
    requires k <= SIZE
    ensures |Flatten(b[..k])| == SIZE * k
  {
    if k > 0 {
      RowsLength(b, k - 1);
      assert b[..k][..k - 1] == b[..k - 1];
    }
  }

  /** Each cell moves the sum by at most one. */
  lemma {:induction false} WeightsBound(s: seq<int>, p: Player)
    ensures -|s| <= Weights(s, p) <= |s|
  {
    if s != [] {
      WeightsBound(s[..|s| - 1], p);
    }
  }

  /** Swapping the point of view negates every weight. */
  lemma {:induction false} WeightsSwap(s: seq<int>, p: Player)
    ensures Weights(s, Opponent(p)) == -Weights(s, p)
  {
    if s != [] {
      WeightsSwap(s[..|s| - 1], p);
    }
  }

  /** Swapping the point of view negates the score. */
  lemma ScoreSwap(b: Board, p: Player)
    ensures Score(b, Opponent(p)) == -Score(b, p)
  {
    WeightsSwap(Flatten(b), p);
  }

  lemma {:induction false} WeightsAppend(s: seq<int>, t: seq<int>, p: Player)
    ensures Weights(s + t, p) == Weights(s, p) + Weights(t, p)
    decreases |t|
  {
    if t != [] {
      WeightsAppend(s, t[..|t| - 1], p);
      assert (s + t)[..|s + t| - 1] == s + t[..|t| - 1];
    } else {
      assert s + t == s;
    }
  }

  /** Summing the weights counts the blobs of `p` minus those of its opponent. */
  lemma {:induction false} WeightsCount(s: seq<int>, p: Player)
    ensures Weights(s, p) == multiset(s)[p] as int - multiset(s)[Opponent(p)] as int
  {
    if s != [] {
      WeightsCount(s[..|s| - 1], p);
      assert s == s[..|s| - 1] + [s[|s| - 1]];
    }
  }

  /** The score is the number of blobs of `p` minus the number of its opponent's. */
  lemma ScoreCounts(b: Board, p: Player)
    ensures Score(b, p) == Count(b, p) - Count(b, Opponent(p))
  {
    WeightsCount(Flatten(b), p);
  }

  /** Setting one cell trades one occurrence of its old value for one of `v`. */
  lemma CountSet(b: Board, x: int, y: int, v: int, w: int)
    requires InBounds(x, y)
    ensures Count(Set(b, x, y, v), w)
         == Count(b, w) - (if b[x][y] == w then 1 else 0) + (if v == w then 1 else 0)
  {
    var row := b[x][y := v];
    FlattenUpdate(b, x, row);
    RowUpdate(b[x], y, v);
    var m: multiset<int> := multiset(Flatten(b));
    var m': multiset<int> := multiset(Flatten(b[x := row]));
    assert (m' + multiset(b[x]))[w] == (m + multiset(row))[w];
    assert (multiset(row) + multiset{b[x][y]})[w] == (multiset(b[x]) + multiset{v})[w];
  }

  /** Setting one cell changes the score by the change of that cell's weight. */
  lemma ScoreSet(b: Board, x: int, y: int, v: int, p: Player)
    requires InBounds(x, y)
    ensures Score(Set(b, x, y, v), p) == Score(b, p) - Weight(b[x][y], p) + Weight(v, p)
  {
    CountSet(b, x, y, v, p);
    CountSet(b, x, y, v, Opponent(p));
    ScoreCounts(Set(b, x, y, v), p);
    ScoreCounts(b, p);
  }

  /** Updating one cell of a row trades the old value for the new one. */
  lemma RowUpdate(row: seq<int>, y: int, v: int)
    requires 0 <= y < |row|
    ensures multiset(row[y := v]) + multiset{row[y]} == multiset(row) + multiset{v}
  {
    assert row == row[..y] + [row[y]] + row[y + 1..];
    assert row[y := v] == row[..y] + [v] + row[y + 1..];
  }

  /** Replacing row `x` by `r` trades that row's cells for the cells of `r`. */
  lemma {:induction false} FlattenUpdate(rows: seq<seq<int>>, x: nat, r: seq<int>)
    requires x < |rows|
    ensures multiset(Flatten(rows[x := r])) + multiset(rows[x])
         == multiset(Flatten(rows)) + multiset(r)
  {
    var n := |rows| - 1;
    var rows' := rows[x := r];
    assert Flatten(rows) == Flatten(rows[..n]) + rows[n];
    assert Flatten(rows') == Flatten(rows'[..n]) + rows'[n];
    if x < n {
      assert rows'[..n] == rows[..n][x := r];
      FlattenUpdate(rows[..n], x, r);
      calc {
        multiset(Flatten(rows')) + multiset(rows[x]);
        multiset(Flatten(rows[..n][x := r])) + multiset(rows[x]) + multiset(rows[n]);
        multiset(Flatten(rows[..n])) + multiset(r) + multiset(rows[n]);
        multiset(Flatten(rows)) + multiset(r);
      }
    } else {
      assert rows'[..n] == rows[..n];
    }
  }
}
