/**
 * The game's history and time-travel state.
 *
 * A game records every board it has passed through (`history`), a cursor
 * to the board on view (`stepNumber`) and whose turn it is (`xIsNext`).
 * A click on a square either does nothing or truncates the history to the
 * viewed board and appends that board with the square marked; a jump moves
 * only the cursor. The state as a value (`GameState`) and the operations on
 * it as functions (`Click`, `Jump`) specify the class `Game`, whose methods
 * update the same three fields in place.
 */
module Games {
  import opened Boards

  /** The three fields of the game's state. */
  datatype GameState = GameState(history: seq<Board>, stepNumber: nat, xIsNext: bool)

  /** The mark the player to move writes. */
  function Mark(xIsNext: bool): (c: Cell)
    ensures c != Empty
  {
    if xIsNext then X else O
  }

  /** The mark written by the move that leaves board `step`: X from even boards, O from odd ones. */
  function MoverAt(step: nat): Cell {
    Mark(step % 2 == 0)
  }

  /** `next` is `prev`, on which nobody has won yet, with one empty square given mark `m`. */
  ghost predicate IsMove(prev: Board, next: Board, m: Cell) {
    && IsBoard(prev)
    && (forall l :: 0 <= l < |Lines| ==> !LineWins(prev, l))
    && exists j :: 0 <= j < 9 && prev[j] == Empty && next == prev[j := m]
  }

  /** Board `k` of `h` follows from board `k - 1` by a move of the player whose turn it was. */
  ghost predicate MoveAt(h: seq<Board>, k: nat)
    requires 0 < k < |h|
  {
    IsMove(h[k - 1], h[k], MoverAt(k - 1))
  }

  /**
   * The invariant every reachable state keeps: the cursor points into the
   * history, the turn flag is the parity of the cursor, the history starts
   * at the empty board, and each later board is its predecessor plus one
   * legal move by the player whose turn it was.
   */
  ghost predicate ValidState(s: GameState) {
    && 0 < |s.history|
    && s.stepNumber < |s.history|
    && s.xIsNext == (s.stepNumber % 2 == 0)
    && s.history[0] == EmptyBoard()
    && (forall k :: 0 <= k < |s.history| ==> IsBoard(s.history[k]))
    && (forall k :: 0 < k < |s.history| ==> MoveAt(s.history, k))
  }

  /** The board on view. */
  function Current(s: GameState): (b: Board)
    requires ValidState(s)
    ensures IsBoard(b)
  {
    s.history[s.stepNumber]
  }

  /** A click on square `i` is accepted: nobody has won on the viewed board and the square is empty. */
  predicate Legal(s: GameState, i: Index)
    requires ValidState(s)
  {
    Winner(Current(s)).None? && Current(s)[i] == Empty
  }

  /** The state a game is created in. */
  function Initial(): (s: GameState)
    ensures ValidState(s)
    ensures |s.history| == 1 && Current(s) == EmptyBoard() && s.xIsNext
  {
    GameState([EmptyBoard()], 0, true)
  }

  /**
   * The effect of a click on square `i`. A rejected click leaves the whole
   * state as it was, history included; an accepted one discards the boards
   * after the viewed one and appends the viewed board with square `i`
   * marked, which becomes the board on view.
   */
  function Click(s: GameState, i: Index): (r: GameState)
    requires ValidState(s)
    ensures ValidState(r)
    ensures r == s <==> !Legal(s, i)
  {
    var history := s.history[..s.stepNumber + 1];
    var current := history[|history| - 1];
    if Winner(current).Some? || current[i] != Empty then s
    else
      AppendMoveValid(s, i);
      GameState(history + [current[i := Mark(s.xIsNext)]], |history|, !s.xIsNext)
  }

  /** Appending the viewed board with a legal move, after truncating to it, keeps the invariant. */
  lemma AppendMoveValid(s: GameState, i: Index)
    requires ValidState(s) && Legal(s, i)
    ensures ValidState(GameState(s.history[..s.stepNumber + 1] + [Current(s)[i := Mark(s.xIsNext)]],
                                 s.stepNumber + 1, !s.xIsNext))
  {
    var h := s.history[..s.stepNumber + 1] + [Current(s)[i := Mark(s.xIsNext)]];
    PrefixMovesValid(s.history, h, s.stepNumber + 1);
    assert MoveAt(h, s.stepNumber + 1) by {
      assert h[s.stepNumber] == Current(s);
      assert h[s.stepNumber + 1] == Current(s)[i := MoverAt(s.stepNumber)];
    }
  }

  /** The moves recorded in the first `n` boards of a history stay valid in any history that shares them. */
  lemma PrefixMovesValid(h: seq<Board>, h': seq<Board>, n: nat)
    requires 0 < n <= |h| && n <= |h'| && h[..n] == h'[..n]
    requires forall k :: 0 < k < |h| ==> MoveAt(h, k)
    ensures forall k :: 0 < k < n ==> MoveAt(h', k)
  {
    forall k | 0 < k < n ensures MoveAt(h', k) {
      assert MoveAt(h, k);
      assert h[k - 1] == h[..n][k - 1] && h[k] == h[..n][k];
    }
  }

  /** The square filled by the move that produced board `k`. */
  lemma MoveSquare(s: GameState, k: nat) returns (j: Index)
    requires ValidState(s) && 0 < k < |s.history|
    ensures s.history[k - 1][j] == Empty && s.history[k] == s.history[k - 1][j := MoverAt(k - 1)]
    ensures Winner(s.history[k - 1]).None?
  {
    assert MoveAt(s.history, k);
    j :| 0 <= j < 9 && s.history[k - 1][j] == Empty && s.history[k] == s.history[k - 1][j := MoverAt(k - 1)];
  }

  /** The effect of a jump to board `step`, which must be a recorded board. */
  function Jump(s: GameState, step: nat): (r: GameState)
    requires ValidState(s) && step < |s.history|
    ensures ValidState(r)
    ensures r.history == s.history && Current(r) == s.history[step]
    ensures r.xIsNext <==> step % 2 == 0
  {
    GameState(s.history, step, step % 2 == 0)
  }

  /**
   * An accepted click keeps the boards up to the viewed one unchanged,
   * drops those after it, appends exactly one board and views it; the turn
   * passes to the other player; the new board differs from the viewed one
   * only in square `i`, which goes from empty to the mover's mark.
   */
  lemma ClickAppendsOneMove(s: GameState, i: Index)
    requires ValidState(s) && Legal(s, i)
    ensures var r := Click(s, i);
      && |r.history| == s.stepNumber + 2
      && r.history[..s.stepNumber + 1] == s.history[..s.stepNumber + 1]
      && r.stepNumber == |r.history| - 1
      && r.xIsNext == !s.xIsNext
      && Current(s)[i] == Empty && Current(r)[i] == Mark(s.xIsNext)
      && forall j :: 0 <= j < 9 && j != i ==> Current(r)[j] == Current(s)[j]
  {
  }

  /** Consecutive boards of a reachable history differ in exactly one square, which the mover filled. */
  lemma ConsecutiveBoardsDifferInOneSquare(s: GameState, k: nat)
    requires ValidState(s) && 0 < k < |s.history|
    ensures exists j :: (0 <= j < 9
      && s.history[k - 1][j] == Empty && s.history[k][j] == MoverAt(k - 1)
      && forall j' :: 0 <= j' < 9 && j' != j ==> s.history[k][j'] == s.history[k - 1][j'])
  {
    var j := MoveSquare(s, k);
    assert s.history[k][j] == MoverAt(k - 1);
  }

  /**
   * Board `k` of a reachable history holds `k` marks: (k + 1) / 2 X's and
   * k / 2 O's, because X moves from even boards and O from odd ones.
   */
  lemma {:induction false} StepCounts(s: GameState, k: nat)
    requires ValidState(s) && k < |s.history|
    ensures Count(s.history[k], Empty) == 9 - k
    ensures Count(s.history[k], X) == (k + 1) / 2
    ensures Count(s.history[k], O) == k / 2
  {
    if k == 0 {
      EmptyBoardCounts();
    } else {
      StepCounts(s, k - 1);
      var j := MoveSquare(s, k);
      MarkCounts(s.history[k - 1], j, MoverAt(k - 1));
      if (k - 1) % 2 == 0 {
        assert MoverAt(k - 1) == X && (k + 1) / 2 == k / 2 + 1 && k / 2 == (k - 1) / 2;
      } else {
        assert MoverAt(k - 1) == O && (k + 1) / 2 == k / 2 && k / 2 == (k - 1) / 2 + 1;
      }
    }
  }

  /**
   * Only the newest board of a reachable history can have a winner: every
   * earlier board had a move made from it. So after a jump back from a won
   * board, clicks are accepted again, and the first accepted one discards
   * the win.
   */
  lemma EarlierBoardsHaveNoWinner(s: GameState, k: nat)
    requires ValidState(s) && k + 1 < |s.history|
    ensures Winner(s.history[k]).None?
    ensures forall i: Index :: s.history[k][i] == Empty ==> Legal(Jump(s, k), i)
  {
    var j := MoveSquare(s, k + 1);
  }

  /** A game never records more than ten boards: the empty one and at most nine moves. */
  lemma HistoryAtMostTen(s: GameState)
    requires ValidState(s)
    ensures |s.history| <= 10
  {
    StepCounts(s, |s.history| - 1);
  }

  /** A full board accepts no click; no separate draw check is needed for that. */
  lemma FullBoardIgnoresClicks(s: GameState, i: Index)
    requires ValidState(s)
    requires forall j :: 0 <= j < 9 ==> Current(s)[j] != Empty
    ensures Click(s, i) == s
  {
  }

  /** Board 9, the one after nine moves, is full, so every click on it is rejected. */
  lemma NinthBoardIgnoresClicks(s: GameState, i: Index)
    requires ValidState(s) && s.stepNumber == 9
    ensures Click(s, i) == s
  {
    StepCounts(s, 9);
  }

  /**
   * On every board of a reachable history all winning lines carry the same
   * mark, so the order in which the lines are scanned does not change the
   * winner found: the move that completes a line is the first to complete any.
   */
  lemma {:induction false} WinningLinesAgree(s: GameState, k: nat, l: nat)
    requires ValidState(s) && k < |s.history| && l < |Lines|
    requires LineWins(s.history[k], l)
    ensures Winner(s.history[k]) == Some(s.history[k][Lines[l].0])
  {
    if k == 0 {
      assert false;
    } else {
      var prev := s.history[k - 1];
      var m := MoverAt(k - 1);
      var j := MoveSquare(s, k);
      // A line that wins now must run through square j: without it, it would already have won on prev.
      forall l' | 0 <= l' < |Lines| && LineWins(s.history[k], l')
        ensures s.history[k][Lines[l'].0] == m
      {
        assert !LineWins(prev, l');
      }
      WinnerOfAgreeingLines(s.history[k], l, m);
    }
  }

  /**
   * Jumping back to board `k` and then clicking discards the boards after
   * `k` for good: the new history is the first `k + 1` boards followed by
   * board `k` with the clicked square marked by the player to move at `k`.
   */
  lemma JumpThenClickTruncates(s: GameState, k: nat, i: Index)
    requires ValidState(s) && k < |s.history|
    requires Legal(Jump(s, k), i)
    ensures Click(Jump(s, k), i).history == s.history[..k + 1] + [s.history[k][i := MoverAt(k)]]
    ensures Click(Jump(s, k), i).stepNumber == k + 1
  {
  }

  /**
   * Time travel back over an accepted click restores the view and the turn
   * the click was made from, although the new board stays recorded.
   */
  lemma JumpBackAfterClick(s: GameState, i: Index)
    requires ValidState(s) && Legal(s, i)
    ensures var r := Jump(Click(s, i), s.stepNumber);
      && Current(r) == Current(s) && r.stepNumber == s.stepNumber && r.xIsNext == s.xIsNext
      && |r.history| == s.stepNumber + 2
      && r.history == Click(s, i).history
      && r.history[s.stepNumber + 1] == Current(s)[i := Mark(s.xIsNext)]
  {
    ClickAppendsOneMove(s, i);
  }

  /**
   * Without an intervening jump the board on view is the last one, and an
   * accepted click simply appends one board: the history grows by one per
   * accepted move and the cursor stays on the newest board.
   */
  lemma ClickAtLatestAppends(s: GameState, i: Index)
    requires ValidState(s) && s.stepNumber == |s.history| - 1 && Legal(s, i)
    ensures Click(s, i) == GameState(s.history + [Current(s)[i := MoverAt(s.stepNumber)]], |s.history|, !s.xIsNext)
    ensures Click(s, i).stepNumber == |Click(s, i).history| - 1
  {
    assert s.history[..s.stepNumber + 1] == s.history;
  }

  /** The game component: the three fields that its click and jump handlers update. */
  class Game {
    var history: seq<Board>
    var stepNumber: nat
    var xIsNext: bool

    /** The fields as a value. */
    function State(): GameState
      reads this
    {
      GameState(history, stepNumber, xIsNext)
    }

    ghost predicate Valid()
      reads this
    {
      ValidState(State())
    }

    /** A new game: one empty board, on view, X to move. */
    constructor ()
      ensures Valid() && State() == Initial()
      ensures history == [EmptyBoard()] && stepNumber == 0 && xIsNext
    {
      history := [EmptyBoard()];
      stepNumber := 0;
      xIsNext := true;
    }

    /** The click handler for square `i`. */
    method HandleClick(i: Index)
      requires Valid()
      modifies this
      ensures Valid() && State() == Click(old(State()), i)
      ensures !Legal(old(State()), i) ==>
        history == old(history) && stepNumber == old(stepNumber) && xIsNext == old(xIsNext)
      ensures Legal(old(State()), i) ==>
        && history == old(history[..stepNumber + 1]) + [old(history[stepNumber][i := Mark(xIsNext)])]
        && stepNumber == old(stepNumber) + 1 == |history| - 1
        && xIsNext == !old(xIsNext)
    {
      ghost var s := State();
      var hist := history[..stepNumber + 1];
      var current := hist[|hist| - 1];
      assert current == Current(s);
      var squaresCopy := current;
      var winner := CalculateWinner(squaresCopy);
      if winner.Some? || squaresCopy[i] != Empty {
        assert !Legal(s, i);
        return;
      }
      AppendMoveValid(s, i);
      squaresCopy := squaresCopy[i := if xIsNext then X else O];
      history, stepNumber, xIsNext := hist + [squaresCopy], |hist|, !xIsNext;
      assert State() == Click(s, i);
    }

    /** The jump handler: view board `step` and set the turn from its parity. */
    method JumpTo(step: nat)
      requires Valid() && step < |history|
      modifies this
      ensures Valid() && State() == Jump(old(State()), step)
      ensures history == old(history) && stepNumber == step && xIsNext == (step % 2 == 0)
    {
      stepNumber, xIsNext := step, step % 2 == 0;
    }
  }

  /** The boards of the row-win game below, after 0, 1, ..., 5 moves. */
  function RowWinBoards(): (h: seq<Board>)
    ensures |h| == 6
  {
    var e := Empty;
    [ EmptyBoard(),
      [X, e, e, e, e, e, e, e, e],
      [X, e, e, e, O, e, e, e, e],
      [X, X, e, e, O, e, e, e, e],
      [X, X, e, e, O, O, e, e, e],
      [X, X, X, e, O, O, e, e, e] ]
  }

  /** The five moves X 0, O 4, X 1, O 5, X 2 from a new game record the boards above. */
  lemma RowWinPlay()
    ensures Click(Click(Click(Click(Click(Initial(), 0), 4), 1), 5), 2) == GameState(RowWinBoards(), 5, false)
  {
    var h := RowWinBoards();
    forall j | 0 <= j < |Lines|
      ensures !LineWins(h[0], j) && !LineWins(h[1], j) && !LineWins(h[2], j)
      ensures !LineWins(h[3], j) && !LineWins(h[4], j)
    {
    }
    var s0 := Initial();
    ClickAtLatestAppends(s0, 0);
    assert h[0][0 := X] == h[1];
    var s1 := Click(s0, 0);
    ClickAtLatestAppends(s1, 4);
    assert h[1][4 := O] == h[2];
    var s2 := Click(s1, 4);
    ClickAtLatestAppends(s2, 1);
    assert h[2][1 := X] == h[3];
    var s3 := Click(s2, 1);
    ClickAtLatestAppends(s3, 5);
    assert h[3][5 := O] == h[4];
    var s4 := Click(s3, 5);
    ClickAtLatestAppends(s4, 2);
    assert h[4][2 := X] == h[5];
    assert s4.history + [h[5]] == h;
  }

  /** The boards of the row-win game form a reachable history. */
  lemma RowWinReachable()
    ensures ValidState(GameState(RowWinBoards(), 5, false))
  {
    RowWinPlay();
  }

  /**
   * The state the row-win game reaches (X plays 0, 1 and 2 while O plays 4
   * and 5; `RowWinPlay` shows those five clicks give exactly this state) is
   * reachable, and X has won it on the top row. A jump back to the start
   * shows the empty board, which has no winner.
   */
  lemma RowWinScenario()
    ensures var s5 := GameState(RowWinBoards(), 5, false);
      && ValidState(s5)
      && Winner(Current(s5)) == Some(X)
      && Current(Jump(s5, 0)) == EmptyBoard() && Winner(Current(Jump(s5, 0))).None?
  {
    RowWinReachable();
    var h := RowWinBoards();
    assert LineWins(h[5], 0) && FirstWin(h[5], 0) == Some(X);
    forall j | 0 <= j < |Lines| ensures !LineWins(h[0], j) {
    }
  }
}
