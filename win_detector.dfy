/** The win detector: a fixed table of the eight three-in-a-row lines over a
    3x3 board, and the scan that returns the mark of the first complete line. */
module WinDetector {

  /** What a square holds: nothing yet, or one of the two marks. */
  datatype Cell = Empty | X | O

  /** A square index, 0..8, row-major. */
  type CellIndex = i: nat | i < 9

  /** A board snapshot: exactly nine squares, row-major. */
  type Board = b: seq<Cell> | |b| == 9
    witness [Empty, Empty, Empty, Empty, Empty, Empty, Empty, Empty, Empty]

  const EmptyBoard: Board := [Empty, Empty, Empty, Empty, Empty, Empty, Empty, Empty, Empty]

  /** Three squares that win when they hold the same mark. */
  datatype Line = Line(a: CellIndex, b: CellIndex, c: CellIndex)

  /** The winning lines in scan order: rows top to bottom, columns left to
      right, then the two diagonals. */
  const Lines: seq<Line> := [
    Line(0, 1, 2),
    Line(3, 4, 5),
    Line(6, 7, 8),
    Line(0, 3, 6),
    Line(1, 4, 7),
    Line(2, 5, 8),
    Line(0, 4, 8),
    Line(2, 4, 6)
  ]

  /** Line k of the table is filled with one and the same mark. */
  predicate Completes(board: Board, k: nat)
    requires k < |Lines|
  {
    var l := Lines[k];
    board[l.a] != Empty && board[l.a] == board[l.b] && board[l.a] == board[l.c]
  }

  /** Line k is complete and no line before it in the table is. */
  predicate FirstCompleted(board: Board, k: nat)
  {
    k < |Lines| && Completes(board, k) && forall j :: 0 <= j < k ==> !Completes(board, j)
  }

  /** The mark of the first complete line at position k or later in the
      table, or Empty when there is none. */
  function WinnerFrom(board: Board, k: nat): Cell
    requires k <= |Lines|
    decreases |Lines| - k
  {
    if k == |Lines| then Empty
    else if Completes(board, k) then board[Lines[k].a]
    else WinnerFrom(board, k + 1)
  }

  /** WinnerFrom(board, k) is Empty exactly when no line from k on is
      complete, and otherwise the mark of the first complete one. */
  lemma {:induction false} WinnerFromSpec(board: Board, k: nat)
    requires k <= |Lines|
    ensures WinnerFrom(board, k) == Empty <==> forall j :: k <= j < |Lines| ==> !Completes(board, j)
    ensures WinnerFrom(board, k) != Empty ==>
      exists j :: k <= j < |Lines| && Completes(board, j) && board[Lines[j].a] == WinnerFrom(board, k) &&
        forall j' :: k <= j' < j ==> !Completes(board, j')
    decreases |Lines| - k
  {
    if k < |Lines| && !Completes(board, k) {
      WinnerFromSpec(board, k + 1);
    }
  }

  /** The winner of a board: the mark on the first complete line, Empty if none. */
  function Winner(board: Board): Cell
  {
    WinnerFrom(board, 0)
  }

  /** The winner is Empty exactly when no line is complete; a mark that wins
      heads the first complete line of the table. */
  lemma WinnerSpec(board: Board)
    ensures Winner(board) == Empty <==> forall j :: 0 <= j < |Lines| ==> !Completes(board, j)
    ensures Winner(board) != Empty ==>
      exists k: nat :: FirstCompleted(board, k) && board[Lines[k].a] == Winner(board)
  {
    WinnerFromSpec(board, 0);
  }

  /** The scan over the line table with an early return on the first
      complete line. */
  method CalculateWinner(squares: Board) returns (w: Cell)
    ensures w == Winner(squares)
  {
    for i := 0 to |Lines|
      invariant WinnerFrom(squares, i) == Winner(squares)
    {
      var l := Lines[i];
      if squares[l.a] != Empty && squares[l.a] == squares[l.b] && squares[l.a] == squares[l.c] {
        return squares[l.a];
      }
    }
    return Empty;
  }

  /** A board on which no mark has been placed has no winner. */
  lemma EmptyBoardHasNoWinner()
    ensures Winner(EmptyBoard) == Empty
  {
    WinnerSpec(EmptyBoard);
  }

  /** Any complete line makes the board won, by the mark of that line when
      every complete line carries the same mark. */
  lemma CompletedLineWins(board: Board, k: nat)
    requires k < |Lines| && Completes(board, k)
    requires forall j :: 0 <= j < |Lines| && Completes(board, j) ==> board[Lines[j].a] == board[Lines[k].a]
    ensures Winner(board) == board[Lines[k].a]
  {
    WinnerSpec(board);
  }

  /** The scan's answer is determined: a mark that heads the first complete
      line is the winner. */
  lemma FirstCompletedIsWinner(board: Board, k: nat)
    requires FirstCompleted(board, k)
    ensures Winner(board) == board[Lines[k].a]
  {
    WinnerSpec(board);
  }
}
