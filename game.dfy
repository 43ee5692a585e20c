/**
  The game itself: the board held by the game, a move by either player, and
  the click handler that plays the human's move and answers it with the
  move the search picks for the automated player.
 */
module TicTacToe {
  import opened BoardState
  import opened Search

  /** What the automated player does after the human's move. */
  datatype Reply =
    | NoReply                                  // the game was declared a tie
    | AiMove(index: nat, aiWin: Option<Win>)   // it marked index; aiWin is what win detection then reported
    | Fault                                    // the search returned no position to play

  /** The result of a click on a slot. */
  datatype ClickOutcome =
    | Ignored                                          // the slot was already marked
    | Played(humanWin: Option<Win>, tie: bool, reply: Reply)

  class Game {
    /** The nine slots, in the order of the line table. */
    var board: array<Cell>

    ghost predicate Valid()
      reads this
    {
      board.Length == Size
    }

    /** A new game starts on a board with every slot empty. */
    constructor StartGame()
      ensures Valid()
      ensures board[..] == FreshBoard
      ensures fresh(board)
    {
      var slots := new Cell[Size](_ => Empty);
      assert slots[..] == FreshBoard;
      board := slots;
    }

    /**
      A move: p's mark goes into slot c whatever the slot held, and win
      detection is run for p on the new board.
     */
    method Turn(c: nat, p: Player) returns (won: Option<Win>)
      requires Valid() && c < Size
      modifies board
      ensures Valid()
      ensures board[..] == old(board[..])[c := Mark(p)]
      ensures board[c] == Mark(p)
      ensures forall k :: 0 <= k < Size && k != c ==> board[k] == old(board[k])
      ensures won == CheckWin(board[..], p)
    {
      board[c] := Mark(p);
      won := CheckWin(board[..], p);
    }

    /**
      A click by the human on slot c. A marked slot is ignored. Otherwise the
      human's mark is placed; unless the tie condition holds, the search is
      run for the automated player on the new board and its mark is placed
      on the position the search returns.
     */
    method TurnClick(c: nat) returns (o: ClickOutcome)
      requires Valid() && c < Size
      modifies board
      ensures Valid()
      ensures old(board[c]) != Empty ==> o == Ignored && board[..] == old(board[..])
      ensures old(board[c]) == Empty ==>
        var afterHuman := old(board[..])[c := Mark(Human)];
        && o.Played?
        && o.humanWin == CheckWin(afterHuman, Human)
        && o.tie == TieAsWritten(afterHuman)
        && (o.tie ==> o.reply == NoReply && board[..] == afterHuman)
        && (!o.tie && Terminal(afterHuman) ==> o.reply == Fault && board[..] == afterHuman)
        && (!o.tie && !Terminal(afterHuman) ==>
              && o.reply.AiMove?
              && IsBestChoice(afterHuman, Ai, Move(Some(o.reply.index), Value(afterHuman, Ai)))
              && board[..] == afterHuman[o.reply.index := Mark(Ai)]
              && o.reply.aiWin == CheckWin(board[..], Ai))
      ensures o.Played? && o.humanWin.Some? && |EmptyCells(old(board[..])[c := Mark(Human)])| > 0 ==>
                o.reply == Fault
    {
      if board[c] != Empty {
        return Ignored;
      }
      ghost var before := board[..];
      var humanWin := Turn(c, Human);
      ghost var afterHuman := board[..];
      assert afterHuman == before[c := Mark(Human)];
      var tie := TieAsWritten(board[..]);
      if tie {
        return Played(humanWin, true, NoReply);
      }
      var m := Minimax(board, Ai);
      if m.index.None? {
        return Played(humanWin, false, Fault);
      }
      var k := m.index.value;
      var aiWin := Turn(k, Ai);
      o := Played(humanWin, false, AiMove(k, aiWin));
    }
  }
}
