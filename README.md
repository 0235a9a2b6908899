# Tic-tac-toe with time travel: a verified model of the game logic

The program is a browser tic-tac-toe game. Its logic lives in `tictacotoe.js`:

- a **win detector** (`calculateWinner`) that scans a fixed table of eight
  lines (three rows, three columns, two diagonals) and returns the mark of the
  first line whose three squares hold the same mark, or nothing;
- a **coordinate conversion** (`calculateColRow`) from a square index 0..8 to
  the (column, row) pair shown in the move list;
- the **game component** (`Game`) whose state is the `history` of board
  snapshots, the pointer `stepNumber` into it and the turn flag `xIsNext`.
  A click on a square (`handleClick`) is ignored on a won board or a filled
  square. Otherwise it drops the history after the pointer, appends a copy
  of the board with the square marked, moves the pointer to the new entry
  and passes the turn. A jump (`jumpTo`) only moves the pointer and sets the
  turn flag from the parity of the target;
- the read-outs of `Game.render`: the board shown (`history[stepNumber]`),
  the status line (the winner, or the next player) and one descriptor per
  history entry ("Go to game start" or "Go to move # k, Position: (col,row)").

The Dafny project has three modules:

- `WinDetector` (`win_detector.dfy`): squares (`Cell = Empty | X | O`),
  boards (sequences of exactly nine cells), the line table, the
  specification `Winner` and the loop `CalculateWinner` proved equal to it.
- `Coordinates` (`coordinates.dfy`): `ColRow` and its inverse `IndexOf`.
- `TicTacToe` (`game.dfy`): snapshots, the value-level state `GameState`
  with the effects `Click` and `Jump`, the invariant `ValidState` of every
  reachable state, the read-outs, the lemmas about them, and the class
  `Game`. Its fields `history`, `stepNumber` and `xIsNext` are updated in
  place by `HandleClick` and `JumpTo`. The postcondition of `HandleClick`
  ties the new state to `Click` of the old one and keeps the invariant. The
  postcondition of `JumpTo` gives the new fields, and the invariant holds
  afterwards exactly when the step names an existing entry.
  A sample game (X at 0, 1, 2 and O at 3, 4, then a jump back to entry 2
  and X at 5) is worked through as lemmas.

The invariant `ValidState` says: the history starts with the empty board; the
pointer lies inside the history; X is to move exactly at even pointers; and
every entry is the entry before it with one legal move played on it, by the
player whose turn it was, at the position `ColRow` gives. From it the model
proves that consecutive entries differ in exactly one square, that the marks
of the two players alternate, X first, and that a history never grows beyond
ten entries.

Three choices follow the code:

- The turn flag is a stored field that `handleClick` flips (line 96); its
  agreement with pointer parity is part of the invariant.
- `handleClick` takes `history.slice(0, stepNumber + 1)`, which keeps the
  whole history when the pointer lies past its end. `Kept` and `Click`
  model that clamp.
- `jumpTo` checks no bound. `JumpTo` accepts any step. Its postcondition
  says that the invariant survives exactly when the step names an existing
  entry.

## Model

| member | source | states |
|---|---|---|
| WinDetector.WinnerFrom | tictacotoe.js:190-196 | the scan over the line table from position k onwards; its meaning is stated by WinnerFromSpec |
| WinDetector.Winner | tictacotoe.js:179-197 | the winner of a board, the scan from the first line; its meaning is stated by WinnerSpec, and CalculateWinner is proved equal to it |
| WinDetector.WinnerFromSpec | tictacotoe.js:190-196 | scanning the line table from position k yields Empty exactly when no line from k on is complete, and otherwise the mark of the first complete line from k on |
| WinDetector.WinnerSpec | tictacotoe.js:179-197 | the winner is Empty exactly when none of the eight lines is complete; a winning mark fills the first complete line of the table |
| WinDetector.CalculateWinner | tictacotoe.js:179-197 | the loop with early return over the eight lines returns exactly the specified winner |
| WinDetector.EmptyBoardHasNoWinner | tictacotoe.js:179-197 | the all-empty board has no winner |
| WinDetector.CompletedLineWins | tictacotoe.js:190-196 | a complete line makes the board won, by that line's mark when every complete line carries the same mark |
| WinDetector.FirstCompletedIsWinner | tictacotoe.js:190-196 | the mark of the first complete line in table order is the winner |
| Coordinates.ColRow | tictacotoe.js:200-207 | the column is below 3 and 3 * row + column equals the index; on the board (index below 9) the row is below 3 too |
| Coordinates.ColRowOfIndexOf | tictacotoe.js:200-205 | converting a board position to its row-major index and back gives the position |
| Coordinates.IndexOfColRow | tictacotoe.js:200-205 | converting a square index to its position and back gives the index |
| TicTacToe.CurrentBoard | tictacotoe.js:115 | the board shown is the history entry the pointer selects; CurrentStatus and the Click lemmas read it |
| TicTacToe.Legal | tictacotoe.js:80 | a click is accepted exactly when the board has no winner and the square is empty; ClickNoOpExactlyWhenIllegal ties Click to it |
| TicTacToe.Click | tictacotoe.js:73-99 | the effect of a click on the state: the result has a non-empty history, and when it differs from the state it starts with the kept entries, adds one, points at the new last entry and flips the turn; the Click lemmas below specify it fully |
| TicTacToe.Jump | tictacotoe.js:101-108 | the effect of a jump: the history is unchanged, the pointer is the step and X is next exactly when the step is even; JumpPreservesValid and JumpOutOfRangeInvalid relate it to the invariant |
| TicTacToe.MarkFor | tictacotoe.js:84 | the mark placed is never Empty, and it is X exactly when X is next |
| TicTacToe.Kept | tictacotoe.js:75-77 | the entries kept by a click form a non-empty prefix of the history: the first stepNumber + 1 entries when the pointer is in range, the whole history otherwise |
| TicTacToe.Initial | tictacotoe.js:56-71 | a new game has one entry, the empty board with no winner, pointer 0 and X to move, and satisfies the invariant |
| TicTacToe.CurrentStatus | tictacotoe.js:151-156 | the status is a win exactly when some line of the board shown is complete, naming the mark of the first complete line; otherwise it names the player the turn flag selects |
| TicTacToe.Describe | tictacotoe.js:123-125 | entry 0 is described as the game start, every other entry as a move with its number and the entry's stored position |
| TicTacToe.MoveList | tictacotoe.js:118-125 | the move list has one descriptor per history entry, each describing that entry |
| TicTacToe.ClickNoOpExactlyWhenIllegal | tictacotoe.js:75-98 | a click leaves the state unchanged if and only if the board it acts on is won or the square is filled |
| TicTacToe.ClickIgnoredWhenWonOrFilled | tictacotoe.js:80-83 | with the pointer in range, a click on a won board or a filled square changes nothing |
| TicTacToe.ClickTruncates | tictacotoe.js:87-96 | an accepted click keeps entries 0..stepNumber unchanged, appends exactly one entry, moves the pointer to stepNumber + 1, the new last index, and flips the turn |
| TicTacToe.ClickPlaysOneSquare | tictacotoe.js:77-93 | the appended entry equals the board shown except at the clicked square, which holds the mover's mark, and records the position ColRow gives |
| TicTacToe.ClickAccepted | tictacotoe.js:75-96 | an accepted click with the pointer on the newest entry appends that board with the mover's mark on the square and its position, points at the new entry and flips the turn |
| TicTacToe.ClickIdempotent | tictacotoe.js:80-84 | clicking the same square twice has the effect of clicking it once |
| TicTacToe.WonIsTerminal | tictacotoe.js:80-83 | once the status shows a winner no click changes the state |
| TicTacToe.MovesSurviveTruncation | tictacotoe.js:75-94 | dropping the entries after the pointer and appending one keeps every earlier move of the history |
| TicTacToe.ClickPreservesValid | tictacotoe.js:73-98 | every click, accepted or ignored, keeps the invariant: pointer in range, X to move at even pointers, each entry one legal move after the previous |
| TicTacToe.JumpPreservesValid | tictacotoe.js:101-108 | a jump to an existing entry keeps the invariant |
| TicTacToe.JumpOutOfRangeInvalid | tictacotoe.js:101-108 | a jump past the last entry leaves the pointer outside the history |
| TicTacToe.JumpThenClick | tictacotoe.js:73-108 | a click after a jump to entry k keeps entries 0..k, appends entry k with the mark of the player whose turn k's parity gives, and points at it |
| TicTacToe.StatusFollowsParity | tictacotoe.js:151-156 | in a reachable state the next player shown is X at even pointers and O at odd ones |
| TicTacToe.EntriesDifferInOneSquare | tictacotoe.js:77-93 | in a reachable state consecutive history entries differ in exactly one square, empty before and marked after |
| TicTacToe.MoveListNamesPlayedSquares | tictacotoe.js:118-125 | in a reachable state entry 0 is the game start and entry k names move k at the position of the square that move filled |
| TicTacToe.MarksAlternate | tictacotoe.js:84-96 | in a history grown by moves from a board without marks, entry k holds k marks, X leading O by one exactly when k is odd |
| TicTacToe.HistoryBounded | tictacotoe.js:73-98 | a reachable history has at most ten entries |
| TicTacToe.TopRowOpeningPlayed | tictacotoe.js:73-99 | in the sample game X at 0 and O at 3 are both accepted, giving three entries, no winner and X to move |
| TicTacToe.TopRowMiddlePlayed | tictacotoe.js:73-99 | X at 1 and O at 4 are then accepted, giving five entries whose first three are the opening's |
| TicTacToe.TopRowGamePlayed | tictacotoe.js:73-99 | X at 2 is then accepted, giving six entries, the pointer on entry 5 and X's top row |
| TicTacToe.TopRowGameWon | tictacotoe.js:151-156 | the sample game's status names X as the winner and a further click on square 5 changes nothing |
| TicTacToe.TopRowGameBranch | tictacotoe.js:73-108 | jumping back to entry 2 of the sample game and clicking square 5 leaves four entries, the first three unchanged, the last with X on square 5, and O to move |
| TicTacToe.Game.constructor | tictacotoe.js:56-71 | a new game object holds one empty snapshot, pointer 0, X to move, and satisfies the invariant |
| TicTacToe.Game.HandleClick | tictacotoe.js:73-99 | the fields after a click are Click of the fields before, and the invariant is kept |
| TicTacToe.Game.JumpTo | tictacotoe.js:101-109 | a jump sets the pointer to step and the turn flag to the parity of step, leaves the history alone, and keeps the invariant exactly when step is inside the history |

## Left out

- Rendering: the `Square` and `Board` components and the list and button
  markup of `Game.render`, including the bold current entry. This is view
  code; the board's keys 0..8 are why `HandleClick` takes a square index
  below 9.
- Mounting the component on the page with `ReactDOM.createRoot`, which is
  I/O.
- The asynchrony and batching of React's `setState`. Each state update is
  modelled as one atomic assignment of the fields.
- Draw detection. The program has none, so a full board without a winner
  shows "Next player".
- The exact text of the status line and the move descriptors. They are the
  datatypes `Status` and `Descriptor`, which carry the same information.
- The failure the page would hit after a jump past the end of the history,
  when `render` reads a missing entry. `CurrentStatus` and `CurrentBoard`
  require the pointer to be inside the history.
