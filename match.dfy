/**
 * The match controller as a state machine over values: the board, the
 * two players' marks and scores, whose turn it is, the round/game flags,
 * whether player 2 is the computer, and how many deferred full resets
 * have been scheduled. These functions are the specification the
 * imperative controller in TicTacToe is proved against.
 */
module Match {
  import opened Grid
  import opened Search

  datatype Turn = First | Second

  datatype State = State(
    board: Board,
    mark1: Mark,
    mark2: Mark,
    score1: nat,
    score2: nat,
    current: Turn,
    roundFinished: bool,
    gameFinished: bool,
    botMode: bool,
    // how many times resetGame has been handed to the timer
    scheduledResets: nat)

  /** The players' marks are real marks and distinct ("X" and "O" in every call). */
  predicate WellFormed(s: State)
  {
    s.mark1 != Blank && s.mark2 != Blank && s.mark1 != s.mark2
  }

  function Other(t: Turn): Turn
  {
    if t == First then Second else First
  }

  function MarkOf(s: State, t: Turn): Mark
  {
    if t == First then s.mark1 else s.mark2
  }

  function ScoreOf(s: State, t: Turn): nat
  {
    if t == First then s.score1 else s.score2
  }

  function Empties(b: Board): nat
  {
    |EmptyCells(b)|
  }

  /** The current player takes the round on board b: upScore, and the game ends at 3. */
  function WinRound(s: State, b: Board): State
  {
    var score := ScoreOf(s, s.current) + 1;
    var scored := if s.current == First then s.(score1 := score) else s.(score2 := score);
    scored.(board := b, roundFinished := true, gameFinished := if score == 3 then true else s.gameFinished)
  }

  /**
   * The closing part of playTurn, run on every call: a finished game
   * schedules resetGame; a finished round clears the board at once and
   * hands the next round to player 1.
   */
  function AfterTurn(s: State): State
  {
    if !s.roundFinished then s
    else if s.gameFinished then s.(scheduledResets := s.scheduledResets + 1)
    else s.(board := EmptyBoard, roundFinished := false, current := First)
  }

  /**
   * playTurn(index): the guarded move, then the closing part. When the
   * computer plays player 2 and the turn passes to it, botPlay runs inside
   * the move and plays its own playTurn.
   */
  function PlayTurn(s: State, index: nat): (r: State)
    requires WellFormed(s) && index < 9
    ensures WellFormed(r) && r.mark1 == s.mark1 && r.mark2 == s.mark2 && r.botMode == s.botMode
    ensures r.scheduledResets >= s.scheduledResets
    decreases Empties(s.board), 2
  {
    AfterTurn(Move(s, index))
  }

  /**
   * The first part of playTurn: only during a round and only on an empty
   * cell, place the current mark; a line wins the round (checked before
   * the full board), a full board draws it, otherwise the turn passes.
   */
  function Move(s: State, index: nat): (r: State)
    requires WellFormed(s) && index < 9
    ensures WellFormed(r) && r.mark1 == s.mark1 && r.mark2 == s.mark2 && r.botMode == s.botMode
    ensures r.scheduledResets >= s.scheduledResets
    decreases Empties(s.board), 1
  {
    if !s.roundFinished && s.board[index] == Blank then
      var b := s.board[index := MarkOf(s, s.current)];
      if CheckAnyWin(b) then WinRound(s, b)
      else if CheckTie(b) then s.(board := b, roundFinished := true)
      else
        var next := s.(board := b, current := Other(s.current));
        if s.botMode && next.current == Second then
          PlaceShrinks(s.board, index, MarkOf(s, s.current));
          BotPlay(next)
        else next
    else s
  }

  /** Move, one case at a time. */
  lemma MoveCases(s: State, index: nat)
    requires WellFormed(s) && index < 9
    ensures s.roundFinished || s.board[index] != Blank ==> Move(s, index) == s
    ensures !s.roundFinished && s.board[index] == Blank ==>
      var b := s.board[index := MarkOf(s, s.current)];
      var next := s.(board := b, current := Other(s.current));
      && (CheckAnyWin(b) ==> Move(s, index) == WinRound(s, b))
      && (!CheckAnyWin(b) && CheckTie(b) ==> Move(s, index) == s.(board := b, roundFinished := true))
      && (!CheckAnyWin(b) && !CheckTie(b) && !(s.botMode && next.current == Second) ==> Move(s, index) == next)
      && (!CheckAnyWin(b) && !CheckTie(b) && s.botMode && next.current == Second ==> Move(s, index) == BotPlay(next))
  {
  }

  /** botPlay: play the cell the search ranks best (0 when none beats -Infinity). */
  function BotPlay(s: State): (r: State)
    requires WellFormed(s)
    ensures WellFormed(r) && r.mark1 == s.mark1 && r.mark2 == s.mark2 && r.botMode == s.botMode
    ensures r.scheduledResets >= s.scheduledResets
    decreases Empties(s.board), 3
  {
    BestMoveSpec(s.board, s.mark1, s.mark2);
    PlayTurn(s, BestMove(s.board, s.mark1, s.mark2))
  }

  /** resetGame */
  function ResetGame(s: State): State
  {
    s.(board := EmptyBoard, current := First, gameFinished := false, roundFinished := false,
       score1 := 0, score2 := 0)
  }

  // ---------------------------------------------------------------------
  // The state between two calls
  // ---------------------------------------------------------------------

  /**
   * What holds once the move part of playTurn is done: scores stay within
   * 0..3 and the game is over exactly when one of them is 3, with the
   * round finished and the winning line still on the board; an ongoing
   * round has neither a line nor a full board; and every cell is empty or
   * holds one of the two marks.
   */
  predicate Settled(s: State)
  {
    && WellFormed(s)
    && s.score1 <= 3 && s.score2 <= 3
    && !(s.score1 == 3 && s.score2 == 3)
    && (s.gameFinished <==> s.score1 == 3 || s.score2 == 3)
    && (s.gameFinished ==> s.roundFinished && CheckAnyWin(s.board))
    && (!s.roundFinished ==> !CheckAnyWin(s.board) && !CheckTie(s.board))
    && (forall i :: 0 <= i < 9 ==> s.board[i] == Blank || s.board[i] == s.mark1 || s.board[i] == s.mark2)
  }

  /**
   * What holds whenever no call is running: all of the above, and a round
   * is left finished only when the game is over.
   */
  predicate Inv(s: State)
  {
    Settled(s) && (s.roundFinished ==> s.gameFinished)
  }

  lemma EmptyBoardIsOpen()
    ensures !CheckAnyWin(EmptyBoard) && !CheckTie(EmptyBoard)
  {
    assert EmptyBoard[0] == Blank;
  }

  /** resetGame leaves any match at rest: empty board, no points, player 1 to move. */
  lemma ResetGameSpec(s: State)
    requires WellFormed(s)
    ensures var r := ResetGame(s);
      && Inv(r)
      && r.board == EmptyBoard && r.score1 == 0 && r.score2 == 0 && r.current == First
      && !r.roundFinished && !r.gameFinished
      && r.mark1 == s.mark1 && r.mark2 == s.mark2 && r.botMode == s.botMode
  {
    EmptyBoardIsOpen();
  }

  /**
   * The match startGame leaves on a fresh page (empty board, no points,
   * both flags false, player 1 to move) satisfies the invariant.
   */
  lemma StartStateInv(mark1: Mark, mark2: Mark, mode: bool)
    requires mark1 != Blank && mark2 != Blank && mark1 != mark2
    ensures Inv(State(EmptyBoard, mark1, mark2, 0, 0, First, false, false, mode, 0))
  {
    var s := State(EmptyBoard, mark1, mark2, 0, 0, First, false, false, mode, 0);
    ResetGameSpec(s);
    assert ResetGame(s) == s;
  }

  /** The closing part of playTurn turns a settled state into one at rest. */
  lemma AfterTurnRests(s: State)
    requires Settled(s)
    ensures Inv(AfterTurn(s))
  {
    EmptyBoardIsOpen();
  }

  lemma {:induction false} MoveSettles(s: State, index: nat)
    requires Inv(s) && index < 9
    ensures Settled(Move(s, index))
    decreases Empties(s.board), 1
  {
    if !s.roundFinished && s.board[index] == Blank {
      var b := s.board[index := MarkOf(s, s.current)];
      if !CheckAnyWin(b) && !CheckTie(b) {
        var next := s.(board := b, current := Other(s.current));
        if s.botMode && next.current == Second {
          PlaceShrinks(s.board, index, MarkOf(s, s.current));
          BotPlayKeepsInv(next);
        }
      }
    }
  }

  /** Between calls the invariant holds: playTurn keeps it, computer replies included. */
  lemma {:induction false} PlayTurnKeepsInv(s: State, index: nat)
    requires Inv(s) && index < 9
    ensures Inv(PlayTurn(s, index))
    decreases Empties(s.board), 2
  {
    MoveSettles(s, index);
    AfterTurnRests(Move(s, index));
  }

  lemma {:induction false} BotPlayKeepsInv(s: State)
    requires Inv(s)
    ensures Inv(BotPlay(s))
    decreases Empties(s.board), 3
  {
    BestMoveSpec(s.board, s.mark1, s.mark2);
    PlayTurnKeepsInv(s, BestMove(s.board, s.mark1, s.mark2));
  }

  // ---------------------------------------------------------------------
  // What one call of playTurn does
  // ---------------------------------------------------------------------

  /** A click on an occupied cell during a round changes nothing. */
  lemma OccupiedCellIsNoOp(s: State, index: nat)
    requires WellFormed(s) && index < 9
    requires !s.roundFinished && s.board[index] != Blank
    ensures PlayTurn(s, index) == s
  {
  }

  /**
   * A click while the game is over places nothing and changes no score,
   * but schedules one more resetGame.
   */
  lemma ClickAfterGameOver(s: State, index: nat)
    requires Inv(s) && index < 9 && s.gameFinished
    ensures PlayTurn(s, index) == s.(scheduledResets := s.scheduledResets + 1)
  {
  }

  /**
   * A move that completes a line gives the mover exactly one point, even
   * when it also fills the board; the game ends exactly when that point
   * is the third. An ended game keeps the winning board until resetGame;
   * otherwise the board is cleared and player 1 opens the next round,
   * scores kept.
   */
  lemma WinningMove(s: State, index: nat)
    requires Inv(s) && index < 9 && !s.roundFinished && s.board[index] == Blank
    requires CheckAnyWin(s.board[index := MarkOf(s, s.current)])
    ensures var r := PlayTurn(s, index);
      && ScoreOf(r, s.current) == ScoreOf(s, s.current) + 1
      && ScoreOf(r, Other(s.current)) == ScoreOf(s, Other(s.current))
      && (r.gameFinished <==> ScoreOf(r, s.current) == 3)
      && (r.gameFinished ==>
            r.board == s.board[index := MarkOf(s, s.current)] && r.roundFinished
            && r.current == s.current && r.scheduledResets == s.scheduledResets + 1)
      && (!r.gameFinished ==>
            r.board == EmptyBoard && !r.roundFinished && r.current == First
            && r.scheduledResets == s.scheduledResets)
  {
  }

  /**
   * A move that fills the board without a line draws the round: no score
   * changes, the board is cleared and player 1 opens the next round.
   */
  lemma DrawingMove(s: State, index: nat)
    requires Inv(s) && index < 9 && !s.roundFinished && s.board[index] == Blank
    requires var b := s.board[index := MarkOf(s, s.current)]; !CheckAnyWin(b) && CheckTie(b)
    ensures PlayTurn(s, index) == s.(board := EmptyBoard, current := First)
  {
  }

  /**
   * Any other move places the mark and passes the turn; when the turn
   * passes to a computer player 2, its reply is played within the same call.
   */
  lemma OrdinaryMove(s: State, index: nat)
    requires Inv(s) && index < 9 && !s.roundFinished && s.board[index] == Blank
    requires var b := s.board[index := MarkOf(s, s.current)]; !CheckAnyWin(b) && !CheckTie(b)
    ensures var next := s.(board := s.board[index := MarkOf(s, s.current)], current := Other(s.current));
      && (!(s.botMode && next.current == Second) ==> PlayTurn(s, index) == next)
      && (s.botMode && next.current == Second ==> PlayTurn(s, index) == AfterTurn(BotPlay(next)))
  {
  }

  /**
   * botPlay's default cell 0 is used when no cell scores above -Infinity;
   * if cell 0 is taken, the computer's playTurn is a no-op and the turn
   * stays with player 2.
   */
  lemma BotDefaultMoveOnTakenCell(s: State)
    requires Inv(s) && !s.roundFinished && s.board[0] != Blank
    requires forall k :: 0 <= k < 9 && s.board[k] == Blank ==> CellScore(s.board, k, s.mark1, s.mark2) == NegInf
    ensures BotPlay(s) == s
  {
    BestMoveSpec(s.board, s.mark1, s.mark2);
    assert BestMove(s.board, s.mark1, s.mark2) == 0;
    assert Move(s, 0) == s;
  }

  /**
   * When some cell scores above -Infinity, the computer marks the
   * row-major-first empty cell of greatest score, with player 2's mark.
   */
  lemma BotPlaysBestCell(s: State)
    requires Inv(s) && !s.roundFinished && s.current == Second
    requires exists k :: 0 <= k < 9 && s.board[k] == Blank && CellScore(s.board, k, s.mark1, s.mark2) != NegInf
    ensures var m := BestMove(s.board, s.mark1, s.mark2);
      && m < 9 && s.board[m] == Blank
      && (forall k :: 0 <= k < 9 && s.board[k] == Blank ==>
            Le(CellScore(s.board, k, s.mark1, s.mark2), CellScore(s.board, m, s.mark1, s.mark2)))
      && (forall k :: 0 <= k < m && s.board[k] == Blank ==>
            Lt(CellScore(s.board, k, s.mark1, s.mark2), CellScore(s.board, m, s.mark1, s.mark2)))
      && BotPlay(s) == PlayTurn(s, m)
      && MarkOf(s, s.current) == s.mark2
  {
    BestMoveSpec(s.board, s.mark1, s.mark2);
  }

  // ---------------------------------------------------------------------
  // Worked examples (two human players, marks X and O)
  // ---------------------------------------------------------------------

  /** Player 1 opens in the centre: X lands at index 4 and player 2 is to move. */
  lemma CentreOpening()
    ensures var s := State(EmptyBoard, "X", "O", 0, 0, First, false, false, false, 0);
      PlayTurn(s, 4) == s.(board := ["", "", "", "", "X", "", "", "", ""], current := Second)
  {
    var b: Board := ["", "", "", "", "X", "", "", "", ""];
    assert !CheckTie(b) by { assert b[0] == Blank; }
  }

  /** X X _ / O O _ / _ _ _ and X plays index 2: X takes the round, the board is cleared. */
  lemma TopRowWin()
    ensures var s := State(["X", "X", "", "O", "O", "", "", "", ""], "X", "O", 0, 0, First, false, false, false, 0);
      PlayTurn(s, 2) == s.(board := EmptyBoard, score1 := 1)
  {
    var b: Board := ["X", "X", "X", "O", "O", "", "", "", ""];
    assert CheckAnyWin(b) by { assert AnyWinFrom(b, 0); }
  }
}
