/** The game state machine: a history of board snapshots, a pointer into it
    and the turn flag; a move truncates the history after the pointer and
    appends one snapshot, a jump only moves the pointer. */
module TicTacToe {
  import opened WinDetector
  import opened Coordinates

  datatype Option<T> = None | Some(value: T)

  /** One history entry: the nine squares and the position of the move that
      produced them (None for the initial entry). */
  datatype Snapshot = Snapshot(squares: Board, position: Option<Position>)

  const Start: Snapshot := Snapshot(EmptyBoard, None)

  /** The state of the game: history, pointer and whose turn it is. */
  datatype GameState = GameState(history: seq<Snapshot>, stepNumber: nat, xIsNext: bool)

  /** The mark the player to move places. */
  function MarkFor(xIsNext: bool): (m: Cell)
    ensures m != Empty
    ensures m == X <==> xIsNext
  {
    if xIsNext then X else O
  }

  /** The board shown: the snapshot the pointer selects. */
  function CurrentBoard(s: GameState): Board
    requires s.stepNumber < |s.history|
  {
    s.history[s.stepNumber].squares
  }

  /** A click on square i is accepted: nobody has won yet and the square is free. */
  predicate Legal(board: Board, i: CellIndex)
  {
    Winner(board) == Empty && board[i] == Empty
  }

  /** The history entries a move keeps: those up to and including the
      pointer, or all of them if the pointer lies past the end. */
  function Kept(s: GameState): (h: seq<Snapshot>)
    requires |s.history| > 0
    ensures 0 < |h| <= |s.history| && h == s.history[..|h|]
    ensures s.stepNumber < |s.history| ==> |h| == s.stepNumber + 1
    ensures |s.history| <= s.stepNumber ==> h == s.history
  {
    s.history[..if s.stepNumber < |s.history| then s.stepNumber + 1 else |s.history|]
  }

  /** The effect of a click on square i. */
  function Click(s: GameState, i: CellIndex): (r: GameState)
    requires |s.history| > 0
    ensures |r.history| > 0
    ensures r != s ==> |r.history| == |Kept(s)| + 1 && r.history[..|Kept(s)|] == Kept(s) &&
                       r.stepNumber == |r.history| - 1 && r.xIsNext == !s.xIsNext
  {
    var kept := Kept(s);
    var current := kept[|kept| - 1].squares;
    if !Legal(current, i) then s
    else
      GameState(kept + [Snapshot(current[i := MarkFor(s.xIsNext)], Some(ColRow(i)))],
                |kept|, !s.xIsNext)
  }

  /** The effect of a jump to history entry step. */
  function Jump(s: GameState, step: nat): (r: GameState)
    ensures r.history == s.history && r.stepNumber == step
    ensures r.xIsNext <==> r.stepNumber % 2 == 0
  {
    s.(stepNumber := step, xIsNext := step % 2 == 0)
  }

  /** Entry k of h is entry k - 1 with one legal move played on it by the
      player whose turn it was at pointer k - 1. */
  ghost predicate MoveAt(h: seq<Snapshot>, k: nat)
    requires 1 <= k < |h|
  {
    exists i: CellIndex :: Legal(h[k - 1].squares, i) &&
      h[k] == Snapshot(h[k - 1].squares[i := MarkFor((k - 1) % 2 == 0)], Some(ColRow(i)))
  }

  /** The invariant of every state the game reaches: the history starts with
      the empty board, the pointer is in range, X is to move exactly at even
      pointers, and each entry is the one before it plus one move. */
  ghost predicate ValidState(s: GameState)
  {
    |s.history| > 0 && s.history[0] == Start &&
    s.stepNumber < |s.history| &&
    s.xIsNext == (s.stepNumber % 2 == 0) &&
    forall k :: 1 <= k < |s.history| ==> MoveAt(s.history, k)
  }

  /** The state a new game starts in. */
  function Initial(): (s: GameState)
    ensures ValidState(s)
    ensures |s.history| == 1 && s.stepNumber == 0 && s.xIsNext
    ensures CurrentBoard(s) == EmptyBoard && Winner(CurrentBoard(s)) == Empty
  {
    EmptyBoardHasNoWinner();
    GameState([Start], 0, true)
  }

  // ---------------------------------------------------------------------
  // Read-outs

  datatype Status = Won(winner: Cell) | NextPlayer(player: Cell)

  /** The status line: the winner of the board shown, otherwise whose turn it is. */
  function CurrentStatus(s: GameState): (st: Status)
    requires s.stepNumber < |s.history|
    ensures st.Won? <==> exists k :: 0 <= k < |Lines| && Completes(CurrentBoard(s), k)
    ensures st.Won? ==> exists k: nat :: FirstCompleted(CurrentBoard(s), k) &&
                                   CurrentBoard(s)[Lines[k].a] == st.winner
    ensures st.NextPlayer? ==> st.player == MarkFor(s.xIsNext)
  {
    WinnerSpec(CurrentBoard(s));
    var w := Winner(CurrentBoard(s));
    if w != Empty then Won(w) else NextPlayer(MarkFor(s.xIsNext))
  }

  /** The text of history entry `move` in the move list. */
  datatype Descriptor = GameStart | GoToMove(move: nat, position: Option<Position>)

  function Describe(move: nat, step: Snapshot): (d: Descriptor)
    ensures d.GameStart? <==> move == 0
    ensures d.GoToMove? ==> d.move == move && d.position == step.position
  {
    if move != 0 then GoToMove(move, step.position) else GameStart
  }

  /** The move list: one descriptor per history entry. */
  function MoveList(s: GameState): (ds: seq<Descriptor>)
    ensures |ds| == |s.history|
    ensures forall k :: 0 <= k < |ds| ==> ds[k] == Describe(k, s.history[k])
  {
    seq(|s.history|, k requires 0 <= k < |s.history| => Describe(k, s.history[k]))
  }

  // ---------------------------------------------------------------------
  // Properties of a click

  /** A click changes nothing exactly when it is illegal on the board the
      pointer selects (the last entry when the pointer lies past the end). */
  lemma ClickNoOpExactlyWhenIllegal(s: GameState, i: CellIndex)
    requires |s.history| > 0
    ensures var kept := Kept(s);
            Click(s, i) == s <==> !Legal(kept[|kept| - 1].squares, i)
  {
    var kept := Kept(s);
    if Legal(kept[|kept| - 1].squares, i) {
      var r := Click(s, i);
      if |kept| == |s.history| {
        assert |r.history| != |s.history|;
      } else {
        assert r.stepNumber != s.stepNumber;
      }
    }
  }

  /** A click while the pointer is in range on a won board or a filled square
      leaves the state unchanged. */
  lemma ClickIgnoredWhenWonOrFilled(s: GameState, i: CellIndex)
    requires s.stepNumber < |s.history|
    requires Winner(CurrentBoard(s)) != Empty || CurrentBoard(s)[i] != Empty
    ensures Click(s, i) == s
  {
    assert Kept(s)[|Kept(s)| - 1] == s.history[s.stepNumber];
  }

  /** The truncation law: an accepted click keeps the entries up to the
      pointer, appends one entry and points at it. */
  lemma ClickTruncates(s: GameState, i: CellIndex)
    requires s.stepNumber < |s.history|
    requires Legal(CurrentBoard(s), i)
    ensures var r := Click(s, i);
            |r.history| == s.stepNumber + 2 &&
            r.history[..s.stepNumber + 1] == s.history[..s.stepNumber + 1] &&
            r.stepNumber == s.stepNumber + 1 == |r.history| - 1 &&
            r.xIsNext == !s.xIsNext
  {
    assert Kept(s)[|Kept(s)| - 1] == s.history[s.stepNumber];
  }

  /** The appended entry is the board shown with square i, and only square
      i, set to the mark of the player to move, at the position of i. */
  lemma ClickPlaysOneSquare(s: GameState, i: CellIndex)
    requires s.stepNumber < |s.history|
    requires Legal(CurrentBoard(s), i)
    ensures var r := Click(s, i);
            var after := r.history[s.stepNumber + 1];
            after.squares[i] == MarkFor(s.xIsNext) &&
            (forall j :: 0 <= j < 9 && j != i ==> after.squares[j] == CurrentBoard(s)[j]) &&
            after.position == Some(ColRow(i))
  {
    assert Kept(s)[|Kept(s)| - 1] == s.history[s.stepNumber];
  }

  /** An accepted click on the newest entry appends one entry: the current
      board with the mover's mark on square i. */
  lemma ClickAccepted(s: GameState, i: CellIndex)
    requires s.stepNumber == |s.history| - 1
    requires Legal(CurrentBoard(s), i)
    ensures Click(s, i) ==
            GameState(s.history + [Snapshot(CurrentBoard(s)[i := MarkFor(s.xIsNext)], Some(ColRow(i)))],
                      |s.history|, !s.xIsNext)
  {
    assert Kept(s) == s.history;
  }

  /** Clicking the same square twice has the effect of clicking it once. */
  lemma ClickIdempotent(s: GameState, i: CellIndex)
    requires |s.history| > 0
    ensures Click(Click(s, i), i) == Click(s, i)
  {
    var kept := Kept(s);
    var r := Click(s, i);
    if Legal(kept[|kept| - 1].squares, i) {
      var kept' := Kept(r);
      assert kept' == r.history;
      assert kept'[|kept'| - 1].squares[i] == MarkFor(s.xIsNext);
    }
  }

  /** Once the board shown is won, no click is accepted. */
  lemma WonIsTerminal(s: GameState, i: CellIndex)
    requires s.stepNumber < |s.history|
    requires CurrentStatus(s).Won?
    ensures Click(s, i) == s
  {
    ClickIgnoredWhenWonOrFilled(s, i);
  }

  // ---------------------------------------------------------------------
  // The invariant

  /** Cutting a history after entry n - 1 and appending any entry keeps
      every move among the first n entries. */
  lemma MovesSurviveTruncation(h: seq<Snapshot>, n: nat, after: Snapshot)
    requires 1 <= n <= |h|
    requires forall k :: 1 <= k < |h| ==> MoveAt(h, k)
    ensures forall k :: 1 <= k < n ==> MoveAt(h[..n] + [after], k)
  {
    var h' := h[..n] + [after];
    forall k | 1 <= k < n
      ensures MoveAt(h', k)
    {
      assert MoveAt(h, k);
      assert h'[k] == h[k] && h'[k - 1] == h[k - 1];
    }
  }

  /** Every accepted or ignored click keeps the invariant. */
  lemma ClickPreservesValid(s: GameState, i: CellIndex)
    requires ValidState(s)
    ensures ValidState(Click(s, i))
  {
    var h, p := s.history, s.stepNumber;
    if Legal(h[p].squares, i) {
      var after := Snapshot(h[p].squares[i := MarkFor(s.xIsNext)], Some(ColRow(i)));
      var h' := h[..p + 1] + [after];
      assert Kept(s) == h[..p + 1];
      assert Click(s, i) == GameState(h', p + 1, !s.xIsNext);
      MovesSurviveTruncation(h, p + 1, after);
      assert h'[p] == h[p] && h'[p + 1] == after;
      assert MoveAt(h', p + 1);
      assert h'[0] == h[0];
      assert forall k :: 1 <= k < |h'| ==> MoveAt(h', k);
      assert (p + 1) % 2 == 0 <==> !s.xIsNext;
    } else {
      ClickIgnoredWhenWonOrFilled(s, i);
    }
  }

  /** A jump to an existing entry keeps the invariant. */
  lemma JumpPreservesValid(s: GameState, step: nat)
    requires ValidState(s) && step < |s.history|
    ensures ValidState(Jump(s, step))
  {
  }

  /** A jump past the end of the history breaks the invariant: the pointer
      selects no snapshot. */
  lemma JumpOutOfRangeInvalid(s: GameState, step: nat)
    requires |s.history| <= step
    ensures !ValidState(Jump(s, step))
  {
  }

  /** A click after a jump to entry k builds on entry k: the entries after k
      are dropped and the new entry holds the mark whose turn entry k gives. */
  lemma JumpThenClick(s: GameState, k: nat, i: CellIndex)
    requires k < |s.history| && Legal(s.history[k].squares, i)
    ensures Click(Jump(s, k), i) ==
            GameState(s.history[..k + 1] + [Snapshot(s.history[k].squares[i := MarkFor(k % 2 == 0)], Some(ColRow(i)))],
                      k + 1, k % 2 != 0)
  {
    assert Kept(Jump(s, k)) == s.history[..k + 1];
  }

  /** In a reachable state the status names the player by pointer parity. */
  lemma StatusFollowsParity(s: GameState)
    requires ValidState(s)
    ensures CurrentStatus(s).NextPlayer? ==>
              CurrentStatus(s).player == (if s.stepNumber % 2 == 0 then X else O)
  {
  }

  /** Consecutive entries differ in exactly one square, which was empty and
      now holds a mark. */
  lemma EntriesDifferInOneSquare(s: GameState, k: nat)
    requires ValidState(s) && 1 <= k < |s.history|
    ensures exists i: CellIndex ::
              s.history[k - 1].squares[i] == Empty && s.history[k].squares[i] != Empty &&
              forall j :: 0 <= j < 9 && j != i ==> s.history[k].squares[j] == s.history[k - 1].squares[j]
  {
    assert MoveAt(s.history, k);
    var i: CellIndex :| Legal(s.history[k - 1].squares, i) &&
      s.history[k] == Snapshot(s.history[k - 1].squares[i := MarkFor((k - 1) % 2 == 0)], Some(ColRow(i)));
    assert s.history[k].squares[i] != Empty;
  }

  /** The move list starts with the game start entry, and every later entry
      names the position of the square its move filled. */
  lemma MoveListNamesPlayedSquares(s: GameState, k: nat)
    requires ValidState(s) && k < |s.history|
    ensures k == 0 ==> MoveList(s)[k] == GameStart
    ensures k > 0 ==> exists i: CellIndex ::
              MoveList(s)[k] == GoToMove(k, Some(ColRow(i))) &&
              s.history[k - 1].squares[i] == Empty && s.history[k].squares[i] != Empty
  {
    if k > 0 {
      assert MoveAt(s.history, k);
      var i: CellIndex :| Legal(s.history[k - 1].squares, i) &&
        s.history[k] == Snapshot(s.history[k - 1].squares[i := MarkFor((k - 1) % 2 == 0)], Some(ColRow(i)));
      assert MoveList(s)[k] == GoToMove(k, Some(ColRow(i)));
    }
  }

  // ---------------------------------------------------------------------
  // Counting marks

  /** The number of squares of b that hold m. */
  function Count(b: seq<Cell>, m: Cell): (n: nat)
    ensures n <= |b|
  {
    if b == [] then 0 else (if b[0] == m then 1 else 0) + Count(b[1..], m)
  }

  /** Every square holds exactly one of the three values. */
  lemma {:induction false} CountTotal(b: seq<Cell>)
    ensures Count(b, X) + Count(b, O) + Count(b, Empty) == |b|
  {
    if b != [] {
      CountTotal(b[1..]);
    }
  }

  /** The initial board holds no mark of either player. */
  lemma EmptyBoardHoldsNoMarks()
    ensures Count(EmptyBoard, X) == 0 && Count(EmptyBoard, O) == 0
  {
    CountAbsent(EmptyBoard, X);
    CountAbsent(EmptyBoard, O);
  }

  /** A value that occurs in no square is counted zero times. */
  lemma {:induction false} CountAbsent(b: seq<Cell>, m: Cell)
    requires forall j :: 0 <= j < |b| ==> b[j] != m
    ensures Count(b, m) == 0
  {
    if b != [] {
      CountAbsent(b[1..], m);
    }
  }

  /** Placing m on an empty square adds one m, removes one Empty and leaves
      the count of the other mark alone. */
  lemma {:induction false} CountPlace(b: seq<Cell>, i: nat, m: Cell, c: Cell)
    requires i < |b| && b[i] == Empty && m != Empty
    ensures Count(b[i := m], c) ==
              Count(b, c) + (if c == m then 1 else 0) - (if c == Empty then 1 else 0)
  {
    if i == 0 {
      assert b[i := m][1..] == b[1..];
    } else {
      assert b[i := m][1..] == b[1..][i - 1 := m];
      CountPlace(b[1..], i - 1, m, c);
    }
  }

  /** A move adds one mark of the player whose turn it was and none of the
      other player's. */
  lemma MoveAddsOneMark(h: seq<Snapshot>, k: nat)
    requires 1 <= k < |h| && MoveAt(h, k)
    ensures Count(h[k].squares, X) == Count(h[k - 1].squares, X) + (if (k - 1) % 2 == 0 then 1 else 0)
    ensures Count(h[k].squares, O) == Count(h[k - 1].squares, O) + (if (k - 1) % 2 == 0 then 0 else 1)
  {
    var b := h[k - 1].squares;
    var m := MarkFor((k - 1) % 2 == 0);
    var i: CellIndex :| Legal(b, i) && h[k] == Snapshot(b[i := m], Some(ColRow(i)));
    CountPlace(b, i, m, X);
    CountPlace(b, i, m, O);
  }

  /** The arithmetic of one move: adding the mover's mark to counts that
      alternate keeps them alternating. */
  lemma AlternationStep(k: nat, x: nat, o: nat, x': nat, o': nat)
    requires k >= 1 && x + o == k - 1 && x == o + (k - 1) % 2
    requires x' == x + (if (k - 1) % 2 == 0 then 1 else 0)
    requires o' == o + (if (k - 1) % 2 == 0 then 0 else 1)
    ensures x' + o' == k && x' == o' + k % 2
  {
  }

  /** In a history that starts with no marks and grows by moves, snapshot k
      holds k marks, and X is one ahead of O exactly after an odd number of
      moves: the players alternate, X first. */
  lemma {:induction false} MarksAlternate(h: seq<Snapshot>, k: nat)
    requires k < |h| && Count(h[0].squares, X) == 0 && Count(h[0].squares, O) == 0
    requires forall j :: 1 <= j < |h| ==> MoveAt(h, j)
    ensures Count(h[k].squares, X) + Count(h[k].squares, O) == k
    ensures Count(h[k].squares, X) == Count(h[k].squares, O) + k % 2
  {
    if k > 0 {
      MarksAlternate(h, k - 1);
      MoveAddsOneMark(h, k);
      var b, b' := h[k - 1].squares, h[k].squares;
      AlternationStep(k, Count(b, X), Count(b, O), Count(b', X), Count(b', O));
    }
  }

  /** Nine squares allow at most nine moves, so a reachable history has at
      most ten entries. */
  lemma HistoryBounded(s: GameState)
    requires ValidState(s)
    ensures |s.history| <= 10
  {
    var k := |s.history| - 1;
    EmptyBoardHoldsNoMarks();
    MarksAlternate(s.history, k);
    CountTotal(s.history[k].squares);
  }

  // ---------------------------------------------------------------------
  // A sample game

  /** The opening of the sample game: X plays 0, then O plays 3. */
  function TopRowOpening(): GameState
  {
    Click(Click(Initial(), 0), 3)
  }

  /** The middle of the sample game: after the opening X plays 1, then O plays 4. */
  function TopRowMiddle(): GameState
  {
    Click(Click(TopRowOpening(), 1), 4)
  }

  /** The sample game: after the middle X plays 2. */
  function TopRowGame(): GameState
  {
    Click(TopRowMiddle(), 2)
  }

  /** Both opening clicks are accepted: the history holds three entries, the
      pointer is on the last, and it is X's turn again. */
  lemma TopRowOpeningPlayed()
    ensures var g := TopRowOpening();
            |g.history| == 3 && g.stepNumber == 2 && g.xIsNext &&
            g.history[2].squares == [X, Empty, Empty, O, Empty, Empty, Empty, Empty, Empty] &&
            Winner(CurrentBoard(g)) == Empty
  {
    var s0 := Initial();
    ClickAccepted(s0, 0);
    var s1 := Click(s0, 0);
    assert CurrentBoard(s1) == [X, Empty, Empty, Empty, Empty, Empty, Empty, Empty, Empty];
    WinnerSpec(CurrentBoard(s1));
    ClickAccepted(s1, 3);
    var s2 := Click(s1, 3);
    assert CurrentBoard(s2) == [X, Empty, Empty, O, Empty, Empty, Empty, Empty, Empty];
    WinnerSpec(CurrentBoard(s2));
  }

  /** Both middle clicks are accepted: five entries, the pointer on the last,
      the first three those of the opening, and X's turn. */
  lemma TopRowMiddlePlayed()
    ensures var g := TopRowMiddle();
            |g.history| == 5 && g.stepNumber == 4 && g.xIsNext &&
            g.history[..3] == TopRowOpening().history &&
            CurrentBoard(g) == [X, X, Empty, O, O, Empty, Empty, Empty, Empty] &&
            Winner(CurrentBoard(g)) == Empty
  {
    TopRowOpeningPlayed();
    var s2 := TopRowOpening();
    ClickAccepted(s2, 1);
    var s3 := Click(s2, 1);
    assert CurrentBoard(s3) == [X, X, Empty, O, Empty, Empty, Empty, Empty, Empty];
    WinnerSpec(CurrentBoard(s3));
    ClickAccepted(s3, 4);
    var s4 := Click(s3, 4);
    assert CurrentBoard(s4) == [X, X, Empty, O, O, Empty, Empty, Empty, Empty];
    WinnerSpec(CurrentBoard(s4));
    assert s4.history[..3] == s2.history;
  }

  /** The closing click of the sample game is accepted: six entries, the
      pointer on the last, the first three those of the opening, and X's
      marks fill the top row. */
  lemma TopRowGamePlayed()
    ensures var g := TopRowGame();
            |g.history| == 6 && g.stepNumber == 5 && !g.xIsNext &&
            g.history[..3] == TopRowOpening().history &&
            CurrentBoard(g) == [X, X, X, O, O, Empty, Empty, Empty, Empty]
  {
    TopRowMiddlePlayed();
    var s4 := TopRowMiddle();
    ClickAccepted(s4, 2);
    var s5 := Click(s4, 2);
    assert s5.history[..3] == s4.history[..3];
  }

  /** In the sample game X completes the top row after five moves: the status
      names X and a further click is ignored. */
  lemma TopRowGameWon()
    ensures var g := TopRowGame();
            CurrentStatus(g) == Won(X) && Click(g, 5) == g
  {
    TopRowGamePlayed();
    var g := TopRowGame();
    FirstCompletedIsWinner(CurrentBoard(g), 0);
    ClickIgnoredWhenWonOrFilled(g, 5);
  }

  /** Jumping back to entry 2 of the sample game and clicking square 5 drops
      the three later entries: four remain, the first three unchanged, and
      the new one adds X, whose turn entry 2 gives, on square 5. */
  lemma TopRowGameBranch()
    ensures var g := TopRowGame();
            var r := Click(Jump(g, 2), 5);
            |r.history| == 4 && r.stepNumber == 3 && r.xIsNext == false &&
            r.history[..3] == g.history[..3] &&
            r.history[3].squares == [X, Empty, Empty, O, Empty, X, Empty, Empty, Empty]
  {
    TopRowGamePlayed();
    TopRowOpeningPlayed();
    var g := TopRowGame();
    assert g.history[2] == TopRowOpening().history[2];
    JumpThenClick(g, 2, 5);
  }

  // ---------------------------------------------------------------------
  // The game object

  /** The game component: its state fields are updated in place by clicks
      and jumps. */
  class Game {
    var history: seq<Snapshot>
    var stepNumber: nat
    var xIsNext: bool

    /** The abstract value of the object. */
    function State(): GameState
      reads this
    {
      GameState(history, stepNumber, xIsNext)
    }

    ghost predicate Valid()
      reads this
    {
      ValidState(State())
    }

    /** A new game: one empty snapshot, pointer 0, X to move. */
    constructor ()
      ensures Valid()
      ensures history == [Start] && stepNumber == 0 && xIsNext
    {
      history := [Start];
      stepNumber := 0;
      xIsNext := true;
      EmptyBoardHasNoWinner();
    }

    /** A click on square i: ignored on a won board or a filled square;
        otherwise the history after the pointer is dropped, a copy of the
        board with square i marked is appended, the pointer moves to it and
        the turn passes. */
    method HandleClick(i: CellIndex)
      requires Valid()
      modifies this
      ensures Valid()
      ensures State() == Click(old(State()), i)
    {
      ghost var s := State();
      var kept := history[..stepNumber + 1];
      var current := kept[|kept| - 1];
      assert kept == Kept(s) && current == history[stepNumber];
      var squares := new Cell[9](k requires 0 <= k < 9 => current.squares[k]);
      assert squares[..] == current.squares;
      var winner := CalculateWinner(squares[..]);
      if winner != Empty || squares[i] != Empty {
        ClickIgnoredWhenWonOrFilled(s, i);
        return;
      }
      assert Legal(current.squares, i);
      squares[i] := if xIsNext then X else O;
      assert squares[..] == current.squares[i := MarkFor(s.xIsNext)];
      var position := ColRow(i);
      history, stepNumber, xIsNext := kept + [Snapshot(squares[..], Some(position))], |kept|, !xIsNext;
      assert State() == Click(s, i);
      ClickPreservesValid(s, i);
    }

    /** A jump to history entry step: only the pointer and the turn flag
        change; the history is kept whole. The state stays valid exactly
        when step names an existing entry. */
    method JumpTo(step: nat)
      requires Valid()
      modifies this
      ensures history == old(history)
      ensures stepNumber == step && xIsNext == (step % 2 == 0)
      ensures Valid() <==> step < |history|
    {
      ghost var s := State();
      stepNumber := step;
      xIsNext := step % 2 == 0;
      if step < |history| {
        JumpPreservesValid(s, step);
      } else {
        JumpOutOfRangeInvalid(s, step);
      }
    }
  }
}
