/**
 * Win detection for a 3x3 tic-tac-toe board.
 *
 * A board is nine cells in row-major order (index 3 * row + column). The
 * eight winning lines are fixed: the three rows, then the three columns,
 * then the two diagonals, and they are scanned in that order.
 */
module Boards {

  /** An optional value; `None` stands for the `null` the game code returns. */
  datatype Option<T> = None | Some(value: T)

  /** The content of one square: nothing yet (`null`), or a player's mark. */
  datatype Cell = Empty | X | O

  /** A square's position on the board. */
  type Index = n: nat | n < 9

  /** A board snapshot; a well-formed one has exactly nine cells. */
  type Board = seq<Cell>

  predicate IsBoard(b: seq<Cell>) {
    |b| == 9
  }

  /** The board a game starts from: nine empty squares. */
  function EmptyBoard(): (b: Board)
    ensures IsBoard(b)
    ensures forall k :: 0 <= k < |b| ==> b[k] == Empty
  {
    [Empty, Empty, Empty, Empty, Empty, Empty, Empty, Empty, Empty]
  }

  /** The eight winning lines, in the order they are checked. */
  const Lines: seq<(Index, Index, Index)> := [
    (0, 1, 2), (3, 4, 5), (6, 7, 8),  // rows
    (0, 3, 6), (1, 4, 7), (2, 5, 8),  // columns
    (0, 4, 8), (2, 4, 6)              // diagonals
  ]

  /** Line `k` is held by one player: its three squares are marked and equal. */
  predicate LineWins(b: Board, k: nat)
    requires IsBoard(b) && k < |Lines|
  {
    var (p, q, r) := Lines[k];
    b[p] != Empty && b[p] == b[q] && b[p] == b[r]
  }

  /** The owner of the first winning line among lines `k`, `k + 1`, ... */
  function FirstWin(b: Board, k: nat): (r: Option<Cell>)
    requires IsBoard(b) && k <= |Lines|
    ensures r.None? <==> forall j :: k <= j < |Lines| ==> !LineWins(b, j)
    ensures r.Some? ==>
      exists j :: k <= j < |Lines| && LineWins(b, j) && r.value == b[Lines[j].0]
        && forall j' :: k <= j' < j ==> !LineWins(b, j')
    decreases |Lines| - k
  {
    if k == |Lines| then None
    else if LineWins(b, k) then Some(b[Lines[k].0])
    else FirstWin(b, k + 1)
  }

  /**
   * The winner of a board: the mark on the first winning line in scan
   * order, or `None` when no line is held by one player. A full board
   * without a winning line also yields `None`; there is no draw value.
   */
  function Winner(b: Board): (r: Option<Cell>)
    requires IsBoard(b)
    ensures r.Some? ==> r.value != Empty
    ensures r.None? <==> forall j :: 0 <= j < |Lines| ==> !LineWins(b, j)
    ensures r.Some? ==>
      exists j :: 0 <= j < |Lines| && LineWins(b, j) && r.value == b[Lines[j].0]
        && forall j' :: 0 <= j' < j ==> !LineWins(b, j')
  {
    FirstWin(b, 0)
  }

  /** The scan over the winning lines, with an early return on the first hit. */
  method CalculateWinner(squares: Board) returns (r: Option<Cell>)
    requires IsBoard(squares)
    ensures r == Winner(squares)
  {
    var i := 0;
    while i < |Lines|
      invariant 0 <= i <= |Lines|
      invariant Winner(squares) == FirstWin(squares, i)
    {
      var (a, b, c) := Lines[i];
      if squares[a] != Empty && squares[a] == squares[b] && squares[a] == squares[c] {
        return Some(squares[a]);
      }
      i := i + 1;
    }
    return None;
  }

  /** Any winning line determines the winner when all winning lines agree on their mark. */
  lemma {:induction false} WinnerOfAgreeingLines(b: Board, k: nat, m: Cell)
    requires IsBoard(b) && k < |Lines| && LineWins(b, k)
    requires forall j :: 0 <= j < |Lines| && LineWins(b, j) ==> b[Lines[j].0] == m
    ensures Winner(b) == Some(m)
  {
  }

  /** The number of cells of `b` that hold `c`. */
  function Count(b: seq<Cell>, c: Cell): (n: nat)
    ensures n <= |b|
    ensures n == 0 <==> forall k :: 0 <= k < |b| ==> b[k] != c
  {
    if b == [] then 0
    else
      assert forall k :: 1 <= k < |b| ==> b[k] == b[1..][k - 1];
      (if b[0] == c then 1 else 0) + Count(b[1..], c)
  }

  /** Overwriting one cell moves it from the count of its old value to that of its new value. */
  lemma {:induction false} CountUpdate(b: seq<Cell>, j: nat, v: Cell, c: Cell)
    requires j < |b|
    ensures Count(b[j := v], c)
         == Count(b, c) - (if b[j] == c then 1 else 0) + (if v == c then 1 else 0)
  {
    if j > 0 {
      assert b[j := v][1..] == b[1..][j - 1 := v];
      CountUpdate(b[1..], j - 1, v, c);
    } else {
      assert b[j := v][1..] == b[1..];
    }
  }

  /** Marking an empty square takes one from the empty count and adds one to the mark's count. */
  lemma MarkCounts(b: Board, j: Index, m: Cell)
    requires IsBoard(b) && b[j] == Empty && m != Empty
    ensures Count(b[j := m], Empty) == Count(b, Empty) - 1
    ensures Count(b[j := m], X) == Count(b, X) + (if m == X then 1 else 0)
    ensures Count(b[j := m], O) == Count(b, O) + (if m == O then 1 else 0)
  {
    CountUpdate(b, j, m, Empty);
    CountUpdate(b, j, m, X);
    CountUpdate(b, j, m, O);
  }

  /** On the empty board every square counts as empty and none as marked. */
  lemma EmptyBoardCounts()
    ensures Count(EmptyBoard(), Empty) == 9
    ensures Count(EmptyBoard(), X) == 0 && Count(EmptyBoard(), O) == 0
  {
  }

  /** A row win, a column win, and a full board with no winning line. */
  lemma WinnerExamples()
    ensures Winner([X, X, X, O, O, Empty, Empty, Empty, Empty]) == Some(X)
    ensures Winner([X, O, Empty, X, O, Empty, X, Empty, Empty]) == Some(X)
    ensures Winner([X, O, X, O, X, O, O, X, O]) == None
  {
    assert LineWins([X, X, X, O, O, Empty, Empty, Empty, Empty], 0);
    assert LineWins([X, O, Empty, X, O, Empty, X, Empty, Empty], 3);
    var full := [X, O, X, O, X, O, O, X, O];
    forall j | 0 <= j < |Lines| ensures !LineWins(full, j) {
    }
  }
}
