# Tic-tac-toe with time travel: a Dafny model of the game state

This project models the game logic of a React tic-tac-toe game with move
history. It has two parts:

- **Win detection** (`boards.dfy`, module `Boards`). `calculateWinner`
  scans the eight winning lines of the 3x3 board in a fixed order: rows,
  then columns, then diagonals. It returns the mark on the first line whose
  three squares are marked and equal, or `null` (here `None`).
- **Game state** (`games.dfy`, module `Games`). The `Game` component keeps
  three fields:
  - `history`: every board the game has passed through;
  - `stepNumber`: the board on view;
  - `xIsNext`: whose turn it is.

  Two handlers change these fields:
  - `handleClick(i)` either does nothing, or cuts the history back to the
    viewed board and appends a copy of it with square `i` marked;
  - `jumpTo(step)` moves the cursor and resets the turn from the cursor's
    parity.

The state is also modelled as a value, `GameState`, with the operations as
functions `Initial`, `Click` and `Jump`. `ValidState` is the invariant every
reachable state keeps:
- the cursor lies inside the history;
- `xIsNext` is the cursor's parity;
- board 0 is empty and every board has nine squares;
- every later board is its predecessor plus one legal move by the player
  whose turn it was. A legal move marks an empty square on a board nobody
  has won.

The class `Game` holds the three fields and updates them in place. Its
methods `HandleClick` and `JumpTo` are proved to produce exactly
`Click(old state)` and `Jump(old state)`. `HandleClick` finds the winner
with the looping `CalculateWinner`, which is proved equal to the
specification function `Winner`.

A square holding `null` is `Cell.Empty`, and `'X'` and `'O'` are `Cell.X`
and `Cell.O`. A board is a `seq<Cell>` of length 9. The source copies a
board with `slice()` and then writes into the copy. That is a sequence
update here, which keeps the same value semantics: earlier boards never
change.

Two points about the code that the model keeps:
- Whose turn it is could be derived from the cursor's parity alone. The
  code instead stores it as the separate field `xIsNext`, and
  `handleClick` reads that field. The model keeps the field and proves that
  it always equals the parity (`ValidState`).
- The code has no draw check. A full board with no winner still reports no
  winner. It rejects clicks only because no square is empty
  (`FullBoardIgnoresClicks`, `NinthBoardIgnoresClicks`).

## Model

The contracts below are written in terms of some vocabulary that has no row
of its own:
- `Boards.Lines`: the eight lines of src/index.js:211-220, in their order.
- `Boards.LineWins`: the test on one line at src/index.js:223.
- `Boards.EmptyBoard`: the nine `null` squares of src/index.js:116.
- `Games.Mark`: the mark of the player to move at src/index.js:137.
- `Games.Legal`: a click passes the rejection test at src/index.js:132.
- `Games.ValidState`: the invariant described above.

| member | source | states |
|---|---|---|
| `Boards.FirstWin` | src/index.js:221-227 | Scanning from line `k`: the result is `None` exactly when no line from `k` on is held by one player. Otherwise it is the mark of a winning line with no winning line before it in the scan. |
| `Boards.Winner` | src/index.js:210-228 | The winner is never the empty cell. It is `None` if and only if none of the eight lines has three equal marked squares. Otherwise it is the mark on the first such line in the order rows, columns, diagonals. |
| `Boards.CalculateWinner` | src/index.js:210-228 | The loop over the lines, with an early return on the first hit, returns exactly `Winner(squares)`. |
| `Boards.WinnerExamples` | src/index.js:210-228 | X wins a top-row board and a left-column board. A full board with no three in a row has no winner. |
| `Boards.WinnerOfAgreeingLines` | src/index.js:221-225 | If every winning line carries the same mark, any one winning line names the winner. |
| `Games.Initial` | src/index.js:114-120 | A new game has one empty board, on view, with X to move, and satisfies the invariant. |
| `Games.Click` | src/index.js:124-146 | A click keeps the invariant. It leaves the state entirely unchanged, history included, if and only if the viewed board has a winner or square `i` is taken. |
| `Games.AppendMoveValid` | src/index.js:129-144 | Cutting the history back to the viewed board and appending it with a legal move by the player to move keeps the invariant. |
| `Games.Jump` | src/index.js:148-153 | A jump keeps the invariant and the history. It shows the chosen board and sets the turn to X exactly when the step is even. |
| `Games.ClickAppendsOneMove` | src/index.js:129-144 | After an accepted click, the boards up to the viewed one are unchanged and exactly one board follows them. That board is on view and the turn flips. It differs from the previously viewed board only in square `i`, which goes from empty to the mover's mark. |
| `Games.ClickAtLatestAppends` | src/index.js:139-144 | When the newest board is on view, an accepted click appends one board and nothing is discarded. The cursor stays on the last board. |
| `Games.JumpThenClickTruncates` | src/index.js:125-131 | A jump to board `k` followed by an accepted click discards every board after `k`. The new history is boards `0..k` plus board `k` with the square marked by the player to move at `k`. |
| `Games.JumpBackAfterClick` | src/index.js:148-153 | Jumping back over an accepted click restores the viewed board, the cursor and the turn. The history stays the one the click produced, and its last board is the viewed board with square `i` marked by the player who clicked. |
| `Games.ConsecutiveBoardsDifferInOneSquare` | src/index.js:130-142 | In every reachable history, consecutive boards differ in exactly one square. That square was empty and now holds the mark of the player whose turn it was. |
| `Games.StepCounts` | src/index.js:137-144 | Board `k` of a reachable history has `9 - k` empty squares, `(k + 1) / 2` X's and `k / 2` O's. |
| `Games.HistoryAtMostTen` | src/index.js:129-144 | A reachable history never holds more than ten boards. |
| `Games.FullBoardIgnoresClicks` | src/index.js:132-134 | On a full board every click is rejected and changes nothing. There is no separate draw check. |
| `Games.NinthBoardIgnoresClicks` | src/index.js:132-134 | Board 9 is full, so every click made while it is on view changes nothing. |
| `Games.WinningLinesAgree` | src/index.js:221-225 | On every board of a reachable history, all winning lines carry the same mark. So the scan order never changes the winner under play through the click handler. |
| `Games.EarlierBoardsHaveNoWinner` | src/index.js:129-134 | Every board of a reachable history except the newest has no winner. So after a jump back from a won board, every click on an empty square is accepted again. |
| `Games.RowWinPlay` | src/index.js:124-146 | From a new game, the clicks X 0, O 4, X 1, O 5, X 2 record exactly the six expected boards and leave board 5 on view with O to move. |
| `Games.RowWinScenario` | src/index.js:148-153 | On the state `GameState(RowWinBoards(), 5, false)`, which `RowWinPlay` shows is exactly what those five clicks reach, the viewed board is won by X on the top row. A jump to step 0 shows the empty board, which has no winner. |
| `Games.Game.constructor` | src/index.js:112-121 | The fields start as one empty board, cursor 0 and X to move, which satisfies the invariant. |
| `Games.Game.HandleClick` | src/index.js:124-146 | The fields become `Click` of the old state. A rejected click leaves all three fields untouched. An accepted one sets `history` to the old boards up to the cursor plus the viewed board with square `i` marked. It advances `stepNumber` to the new last index and flips `xIsNext`. |
| `Games.Game.JumpTo` | src/index.js:148-153 | `history` is unchanged, `stepNumber` becomes `step` and `xIsNext` becomes `step % 2 == 0`. The invariant is kept. |

## Left out

- Rendering is not modelled. This covers the `Square` and `Board` components, `Game.render`, the commented-out `Square` class and the `ReactDOM.render` mount (src/index.js:13-107, 157-208). They only draw the state and forward clicks.
- The status text ("Winner: ", "Next player: ") and the labels of the jump list are not modelled. They are presentation. The values they show are the winner of the viewed board (`Winner(Current(s))`), whose turn it is (`xIsNext`) and the indices of `history`.
- The stylesheet import is not modelled.
- React's `setState` is asynchronous and may be batched. Each handler is modelled as one atomic update of the three fields.
- `Games.Game.HandleClick`: takes `i` as an `Index` (0 to 8), because the board only ever passes square indices 0 to 8. An index outside that range would touch a missing array slot in the source; that case is not modelled.
- `Games.Game.JumpTo`: requires `step < |history|`. The source does no bounds check and trusts its only caller, the jump list, which passes the indices of `history`.
