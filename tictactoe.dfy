/**
  The Tic-Tac-Toe engine (games/tictactoe.py): a nine-cell board, the player
  to move, the two win counters, the theme flag, and a flag standing for the
  buttons that disable_all switches off after a win.
 */
module TicTacToe {
  import opened Wrappers

  /** The content of a cell; Empty is the source's "". */
  datatype Mark = Empty | X | O

  type Index = i: int | 0 <= i < 9

  /** The eight winning triples, in the order check_winner scans them. */
  const Lines: seq<(Index, Index, Index)> :=
    [(0, 1, 2), (3, 4, 5), (6, 7, 8),
     (0, 3, 6), (1, 4, 7), (2, 5, 8),
     (0, 4, 8), (2, 4, 6)]

  /** Triple k holds three equal marks that are not Empty. */
  predicate LineWon(board: seq<Mark>, k: int)
    requires |board| == 9 && 0 <= k < |Lines|
  {
    var (a, b, c) := Lines[k];
    board[a] == board[b] && board[b] == board[c] && board[a] != Empty
  }

  /** The first triple at or after `from`, in table order, that is won. */
  function FirstWin(board: seq<Mark>, from: nat): (w: Option<nat>)
    requires |board| == 9 && from <= |Lines|
    decreases |Lines| - from
    ensures w.Some? ==>
              from <= w.value < |Lines| && LineWon(board, w.value) &&
              forall k :: from <= k < w.value ==> !LineWon(board, k)
    ensures w.None? ==> forall k :: from <= k < |Lines| ==> !LineWon(board, k)
  {
    if from == |Lines| then None
    else if LineWon(board, from) then Some(from)
    else FirstWin(board, from + 1)
  }

  /**
    The player check_winner declares the winner, Empty when no triple is won:
    the mark of the first won triple in table order.
   */
  function Winner(board: seq<Mark>): (m: Mark)
    requires |board| == 9
    ensures m != Empty <==> exists k :: 0 <= k < |Lines| && LineWon(board, k)
    ensures m != Empty ==>
              exists k :: 0 <= k < |Lines| && LineWon(board, k) && board[Lines[k].0] == m &&
                          forall j :: 0 <= j < k ==> !LineWon(board, j)
  {
    match FirstWin(board, 0)
    case None => Empty
    case Some(k) => board[Lines[k].0]
  }

  /** No cell is empty (the source's `"" not in self.board`). */
  predicate Full(board: seq<Mark>) {
    forall i :: 0 <= i < |board| ==> board[i] != Empty
  }

  function Other(m: Mark): Mark {
    if m == X then O else X
  }

  /**
    Placing a mark on an empty cell of a board that nobody has won yet can
    make only that mark the winner: every newly won triple passes through
    the cell just played.
   */
  lemma OnlyMoverCanWin(board: seq<Mark>, index: Index, m: Mark)
    requires |board| == 9 && board[index] == Empty && m != Empty
    requires Winner(board) == Empty
    ensures Winner(board[index := m]) in {Empty, m}
  {
    var after := board[index := m];
    if Winner(after) != Empty {
      var k :| 0 <= k < |Lines| && LineWon(after, k) && after[Lines[k].0] == Winner(after);
      assert !LineWon(board, k);
      var (a, b, c) := Lines[k];
      assert index == a || index == b || index == c;
    }
  }

  class Game {
    var board: seq<Mark>
    var currentPlayer: Mark
    var xWins: int
    var oWins: int
    var darkMode: bool
    /** The buttons are disabled (disable_all has run since the last restart). */
    var disabled: bool

    /** A nine-cell board and a player to move; while the buttons are enabled, nobody has won yet. */
    ghost predicate Valid()
      reads this
    {
      |board| == 9 && currentPlayer != Empty && (!disabled ==> Winner(board) == Empty)
    }

    /** The panel as __init__ leaves it; the three stored values come from the data file. */
    constructor (storedXWins: int, storedOWins: int, storedDarkMode: bool)
      ensures Valid()
      ensures board == seq(9, _ => Empty) && currentPlayer == X && !disabled
      ensures xWins == storedXWins && oWins == storedOWins && darkMode == storedDarkMode
    {
      board := seq(9, _ => Empty);
      currentPlayer := X;
      xWins, oWins, darkMode := storedXWins, storedOWins, storedDarkMode;
      disabled := false;
    }

    /**
      check_winner: scans the triples in order; on the first won one the
      owner's counter goes up and the buttons are disabled; otherwise a full
      board is a draw. The result says whether the game is over.
     */
    method CheckWinner() returns (over: bool)
      requires |board| == 9 && currentPlayer != Empty
      modifies this`xWins, this`oWins, this`disabled
      ensures Valid()
      ensures over <==> Winner(board) != Empty || Full(board)
      ensures Winner(board) == X ==> xWins == old(xWins) + 1 && oWins == old(oWins) && disabled
      ensures Winner(board) == O ==> oWins == old(oWins) + 1 && xWins == old(xWins) && disabled
      ensures Winner(board) == Empty ==>
                xWins == old(xWins) && oWins == old(oWins) && disabled == old(disabled)
    {
      for k := 0 to |Lines|
        invariant xWins == old(xWins) && oWins == old(oWins) && disabled == old(disabled)
        invariant forall j :: 0 <= j < k ==> !LineWon(board, j)
      {
        var (a, b, c) := Lines[k];
        if board[a] == board[b] && board[b] == board[c] && board[a] != Empty {
          assert FirstWin(board, 0) == Some(k);
          if board[a] == X {
            xWins := xWins + 1;
          } else {
            oWins := oWins + 1;
          }
          disabled := true;
          return true;
        }
      }
      assert FirstWin(board, 0) == None;
      if Empty !in board {
        return true;
      }
      return false;
    }

    /**
      on_click: a click on an occupied cell does nothing; otherwise the cell
      gets the current player's mark and, unless that move ended the game,
      the turn passes to the other player. Disabled buttons deliver no click.
     */
    method OnClick(index: int)
      requires Valid() && 0 <= index < 9 && !disabled
      modifies this`board, this`currentPlayer, this`xWins, this`oWins, this`disabled
      ensures Valid()
      ensures old(board[index]) != Empty ==>
                board == old(board) && currentPlayer == old(currentPlayer) &&
                xWins == old(xWins) && oWins == old(oWins) && !disabled
      ensures old(board[index]) == Empty ==> board == old(board)[index := old(currentPlayer)]
      ensures Winner(board) in {Empty, old(currentPlayer)}
      ensures old(board[index]) == Empty && Winner(board) == X ==>
                xWins == old(xWins) + 1 && oWins == old(oWins) && disabled && currentPlayer == old(currentPlayer)
      ensures old(board[index]) == Empty && Winner(board) == O ==>
                oWins == old(oWins) + 1 && xWins == old(xWins) && disabled && currentPlayer == old(currentPlayer)
      ensures old(board[index]) == Empty && Winner(board) == Empty ==>
                xWins == old(xWins) && oWins == old(oWins) && !disabled
      ensures old(board[index]) == Empty && Winner(board) == Empty && Full(board) ==>
                currentPlayer == old(currentPlayer)
      ensures old(board[index]) == Empty && Winner(board) == Empty && !Full(board) ==>
                currentPlayer == Other(old(currentPlayer))
    {
      if board[index] == Empty {
        OnlyMoverCanWin(board, index, currentPlayer);
        board := board[index := currentPlayer];
        var over := CheckWinner();
        if over {
          return;
        }
        currentPlayer := if currentPlayer == X then O else X;
      }
    }

    /** restart_game: an empty board, X to move, the buttons enabled again. */
    method RestartGame()
      modifies this`board, this`currentPlayer, this`disabled
      ensures Valid()
      ensures board == seq(9, _ => Empty) && currentPlayer == X && !disabled
      ensures xWins == old(xWins) && oWins == old(oWins) && darkMode == old(darkMode)
    {
      board := seq(9, _ => Empty);
      currentPlayer := X;
      disabled := false;
    }

    /** reset_scores: both counters back to zero. */
    method ResetScores()
      modifies this`xWins, this`oWins
      ensures xWins == 0 && oWins == 0
    {
      xWins, oWins := 0, 0;
    }

    /** toggle_theme: flips the theme flag. */
    method ToggleTheme()
      modifies this`darkMode
      ensures darkMode == !old(darkMode)
    {
      darkMode := !darkMode;
    }
  }

  /** Toggling the theme twice restores it. */
  method ToggleThemeTwice(g: Game)
    modifies g`darkMode
    ensures g.darkMode == old(g.darkMode)
    ensures g.board == old(g.board) && g.xWins == old(g.xWins) && g.oWins == old(g.oWins)
  {
    g.ToggleTheme();
    g.ToggleTheme();
  }

  /** X@0, O@1, X@4, O@2 on a fresh panel: nobody has won, X is to move again. */
  method DiagonalOpening() returns (g: Game)
    ensures fresh(g) && g.Valid()
    ensures g.board == [X, O, O, Empty, X, Empty, Empty, Empty, Empty]
    ensures g.currentPlayer == X && !g.disabled && g.xWins == 0 && g.oWins == 0
  {
    g := new Game(0, 0, false);
    g.OnClick(0);
    assert g.board == [X, Empty, Empty, Empty, Empty, Empty, Empty, Empty, Empty];
    assert FirstWin(g.board, 0) == None;
    g.OnClick(1);
    assert g.board == [X, O, Empty, Empty, Empty, Empty, Empty, Empty, Empty];
    assert FirstWin(g.board, 0) == None;
    g.OnClick(4);
    assert g.board == [X, O, Empty, Empty, X, Empty, Empty, Empty, Empty];
    assert FirstWin(g.board, 0) == None;
    g.OnClick(2);
    assert g.board == [X, O, O, Empty, X, Empty, Empty, Empty, Empty];
    assert FirstWin(g.board, 0) == None;
  }

  /** X@8 after that opening: X wins along the diagonal 0, 4, 8 and the buttons are disabled. */
  method DiagonalScenario() {
    var g := DiagonalOpening();
    g.OnClick(8);
    assert g.board == [X, O, O, Empty, X, Empty, Empty, Empty, X];
    assert FirstWin(g.board, 0) == Some(6);
    assert g.xWins == 1 && g.oWins == 0 && g.disabled;
  }
}
