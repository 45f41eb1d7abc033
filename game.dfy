/**
 * The game module as the page runs it: a player object with a mutable
 * score, and the game object whose fields are the module's variables.
 * Each method is proved to move the game's state exactly as the
 * corresponding function of module Match says.
 */
module TicTacToe {
  import opened Grid
  import opened Search
  import Match

  /** createPlayer: name and symbol are fixed, the score changes. */
  class Player {
    const name: string
    const symbol: Mark
    var score: nat

    constructor (name: string, symbol: Mark)
      ensures this.name == name && this.symbol == symbol && score == 0
    {
      this.name := name;
      this.symbol := symbol;
      score := 0;
    }

    /** upScore */
    method UpScore()
      modifies this
      ensures score == old(score) + 1
    {
      score := score + 1;
    }

    /** resetScore */
    method ResetScore()
      modifies this
      ensures score == 0
    {
      score := 0;
    }
  }

  class Game {
    var board: Board
    var currentPlayer: Player?
    var gameFinished: bool
    var roundFinished: bool
    var player1: Player?
    var player2: Player?
    var botMode: bool
    /** How many times resetGame has been handed to the timer. */
    var scheduledResets: nat

    /** The module's initial state, before a mode is chosen. */
    constructor ()
      ensures board == EmptyBoard && currentPlayer == null && player1 == null && player2 == null
      ensures !gameFinished && !roundFinished && !botMode && scheduledResets == 0
    {
      board := EmptyBoard;
      currentPlayer := null;
      gameFinished := false;
      roundFinished := false;
      player1 := null;
      player2 := null;
      botMode := false;
      scheduledResets := 0;
    }

    /** Both players exist, are distinct, carry distinct marks, and one of them is to move. */
    ghost predicate Valid()
      reads this
    {
      && player1 != null && player2 != null && player1 != player2
      && (currentPlayer == player1 || currentPlayer == player2)
      && player1.symbol != Blank && player2.symbol != Blank && player1.symbol != player2.symbol
    }

    /** The game's state as a value. */
    ghost function State(): Match.State
      reads this, player1, player2
      requires Valid()
    {
      Match.State(board, player1.symbol, player2.symbol, player1.score, player2.score,
                  if currentPlayer == player1 then Match.First else Match.Second,
                  roundFinished, gameFinished, botMode, scheduledResets)
    }

    /**
     * startGame: two fresh players with score 0, the mode, and player 1 to
     * move. The board and the flags are left as they are.
     */
    method StartGame(player1Name: string, player2Name: string, player1Symbol: Mark, player2Symbol: Mark, mode: bool)
      requires player1Symbol != Blank && player2Symbol != Blank && player1Symbol != player2Symbol
      modifies this
      ensures Valid() && fresh(player1) && fresh(player2)
      ensures player1.name == player1Name && player2.name == player2Name
      ensures State() == Match.State(old(board), player1Symbol, player2Symbol, 0, 0, Match.First,
                                     old(roundFinished), old(gameFinished), mode, old(scheduledResets))
      ensures old(board) == EmptyBoard && !old(roundFinished) && !old(gameFinished) ==> Match.Inv(State())
    {
      player1 := new Player(player1Name, player1Symbol);
      player2 := new Player(player2Name, player2Symbol);
      botMode := mode;
      currentPlayer := player1;
      Match.StartStateInv(player1Symbol, player2Symbol, mode);
    }

    /**
     * playTurn(index), for a cell index 0..8: the move, then the closing
     * part, which schedules resetGame when the game is over and starts the
     * next round when only the round is.
     */
    method PlayTurn(index: nat)
      requires Valid() && index < 9
      modifies this, player1, player2
      ensures Valid() && player1 == old(player1) && player2 == old(player2)
      ensures State() == Match.PlayTurn(old(State()), index)
      decreases Match.Empties(board), 2
    {
      Move(index);
      if roundFinished {
        if gameFinished {
          // delay(resetGame, 2): the reset runs later, as its own call
          scheduledResets := scheduledResets + 1;
        } else {
          board := EmptyBoard;
          roundFinished := false;
          currentPlayer := player1;
        }
      }
    }

    /**
     * The first part of playTurn: in an unfinished round, mark an empty
     * cell for the current player, then score a win, note a full board,
     * or pass the turn (to the computer's reply in bot mode).
     */
    method Move(index: nat)
      requires Valid() && index < 9
      modifies this, player1, player2
      ensures Valid() && player1 == old(player1) && player2 == old(player2)
      ensures State() == Match.Move(old(State()), index)
      decreases Match.Empties(board), 1
    {
      ghost var s := State();
      Match.MoveCases(s, index);
      if !roundFinished && board[index] == Blank {
        board := board[index := currentPlayer.symbol];
        if CheckAnyWin(board) {
          roundFinished := true;
          currentPlayer.UpScore();
          if currentPlayer.score == 3 {
            gameFinished := true;
          }
        } else if CheckTie(board) {
          roundFinished := true;
        } else {
          currentPlayer := if currentPlayer == player1 then player2 else player1;
          if botMode && currentPlayer == player2 {
            PlaceShrinks(s.board, index, Match.MarkOf(s, s.current));
            BotPlay();
          }
        }
      }
    }

    /**
     * botPlay: try player 2's mark in each empty cell in row-major order,
     * score it with minimax, take the mark back, and play the first cell
     * whose score beats every earlier one (cell 0 if none beats -Infinity).
     */
    method BotPlay()
      requires Valid()
      modifies this, player1, player2
      ensures Valid() && player1 == old(player1) && player2 == old(player2)
      ensures State() == Match.BotPlay(old(State()))
      decreases Match.Empties(board), 3
    {
      var bestScore := NegInf;
      var bestMove := 0;
      for row := 0 to 3
        modifies this`board
        invariant board == old(board)
        invariant (bestScore, bestMove) == Scan(board, CellScores(board, player1.symbol, player2.symbol), 3 * row)
      {
        for col := 0 to 3
          modifies this`board
          invariant board == old(board)
          invariant (bestScore, bestMove) == Scan(board, CellScores(board, player1.symbol, player2.symbol), 3 * row + col)
        {
          var k := row * 3 + col;
          if board[k] == Blank {
            board := board[k := player2.symbol];
            var score := Minimax(board, BotDepth, false, NegInf, PosInf,
                                 Outside(board, player1.symbol, player2.symbol));
            board := board[k := Blank];
            if Lt(bestScore, score) {
              bestScore := score;
              bestMove := k;
            }
          }
        }
      }
      BestMoveSpec(board, player1.symbol, player2.symbol);
      PlayTurn(bestMove);
    }

    /** resetGame: the deferred full reset after a game ends. */
    method ResetGame()
      requires Valid()
      modifies this, player1, player2
      ensures Valid() && player1 == old(player1) && player2 == old(player2)
      ensures State() == Match.ResetGame(old(State()))
      ensures Match.Inv(State())
    {
      Match.ResetGameSpec(State());
      board := EmptyBoard;
      currentPlayer := null;
      gameFinished := false;
      roundFinished := false;
      player1.ResetScore();
      player2.ResetScore();
      currentPlayer := player1;
    }
  }
}
