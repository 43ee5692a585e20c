# Tic-tac-toe with a minimax opponent

A Dafny model of the game engine in `main.js` of a browser tic-tac-toe game.
The human plays against an automated player that picks its moves by
exhaustive minimax search. The board has nine slots in row-major order. A
fixed table lists the eight winning lines: three rows, three columns and two
diagonals.

The model has four modules:

- `BoardState` (`board.dfy`) holds the board as values. A slot is `Empty` or
  `Mark(player)`. The module has the line table, the list of empty slots
  (`EmptyCells`), win detection (`CheckWin`) and the tie condition of the
  click handler.
- `Search` (`search.dfy`) is the minimax search.
  - `Value` is a pure function giving the minimax value of a board.
  - `IsBestChoice` says which answer the search must give.
  - `Minimax` is the search as the source runs it: a method over an
    `array<Cell>` that writes each trial mark into the array and undoes it.
    Its contract ties its result to `Value` and `IsBestChoice`, and says the
    array ends as it started.
- `Scenarios` (`scenarios.dfy`) works the search out on two positions. On
  one the automated player completes its own line; on the other it must
  block the human.
- `TicTacToe` (`game.dfy`) is the game. It is a class holding the board
  array, with the start of a game, a move (`Turn`) and the click handler
  (`TurnClick`).

Scores use the source's fixed perspective: a human line is -10, a line of
the automated player +10, a full board 0. The automated player maximises
and the human minimises. Both selections start from a sentinel (-10000 and
10000) and replace the best so far only on a strictly better score, so on
equal scores the lowest empty position wins.

## Model

| member | source | states |
|---|---|---|
| BoardState.Positions | main.js:168-169 | the result holds exactly the positions whose slot holds the given cell, in strictly ascending order; it is empty exactly when no slot holds that cell |
| BoardState.EmptyCells | main.js:121-124 | exactly the unmarked positions, each in range and empty, in strictly ascending order; empty exactly when every slot is marked |
| BoardState.Plays | main.js:168-169 | exactly the positions holding p's mark |
| BoardState.SlotsPartition | main.js:123 | the number of empty slots plus the number of each player's marks equals the board size (9 on a game board) |
| BoardState.PositionsAfterWrite | main.js:73 | writing a mark into one empty slot removes exactly one position from the empty list, which is what makes the search terminate |
| BoardState.FirstWin | main.js:174-183 | the first line, from a start index on in table order, whose every position is among the plays, reported with the player; None only when no line from there is covered |
| BoardState.CoveredIsComplete | main.js:178 | the plays cover line i exactly when every slot of line i holds p's mark |
| BoardState.CheckWin | main.js:162-185 | Some(Win(i, p)) means line i is entirely p's and no earlier line of the table is; None exactly when p owns no line |
| BoardState.FirstWinAt | main.js:174-183 | a line p owns, with no earlier line owned by p, is the one win detection reports |
| BoardState.NoLineNoWin | main.js:184 | win detection reports nothing when p owns none of the eight lines |
| BoardState.UnmarkedBoard | main.js:123 | on a board with no mark every position is listed as empty |
| BoardState.FreshBoardAllEmpty | main.js:230 | the starting board has nine empty slots, exactly the positions 0 to 8 |
| BoardState.FreshBoardHasNoWinner | main.js:230 | neither player has a line on the starting board |
| BoardState.TopRowWins | main.js:14-16 | marks at 0, 1 and 2 are reported as line 0 |
| BoardState.DiagonalWins | main.js:14-21 | marks at 0, 4 and 8 are reported as line 6, the first line of the table they complete |
| BoardState.TieAsWrittenMeaning | main.js:33-34 | the tie condition as written holds exactly when every slot is marked and not both players own a line |
| BoardState.WonBoardIsFull | main.js:33 | the example board has no empty slot |
| BoardState.WonBoardWinners | main.js:34 | on the example board the human owns line 0 and the automated player owns no line |
| BoardState.TieAsWrittenOnWonBoard | main.js:33-34 | on a full board the human has won, the condition as written declares a tie and the intended condition does not |
| BoardState.IsTieMeaning | main.js:33-34 | the intended tie condition holds exactly when every slot is marked and neither player owns a line |
| BoardState.Other | main.js:75-84 | the player to move next is the other player |
| Search.Extreme | main.js:90-115 | no score of the list is better for p than the result, and the result is one of the scores |
| Search.Value | main.js:52-116 | the minimax value is -10, 0 or 10 |
| Search.ChildValue | main.js:72-84 | the value after p marks an empty slot, with the other player to move, is -10, 0 or 10 |
| Search.ValueBounds | main.js:68-115 | on a board that is not terminal, no empty position has a child value better than the minimax value, and some empty position attains it |
| Search.ValueIsBestChild | main.js:90-115 | a child value that no empty position beats is the minimax value |
| Search.BestChoiceHasValue | main.js:90-115 | the answer the search must give scores the minimax value |
| Search.BestChoiceUnique | main.js:90-115 | there is only one such answer, so the search is deterministic |
| Search.SelectBest | main.js:90-115 | the selection loop from the sentinel with a strict comparison returns an index in range whose score no candidate beats and which strictly beats every earlier candidate |
| Search.ChoiceOfCandidates | main.js:68-115 | the candidate kept by the selection is the lowest empty position that no other beats, scored with its child value |
| Search.Candidates | main.js:68-88 | one candidate per empty position in ascending order, each scored with its child value; the board ends unchanged |
| Search.TryPosition | main.js:72-85 | marking one empty slot, searching on for the other player and restoring the slot yields the child value and leaves the board unchanged |
| Search.Minimax | main.js:52-116 | the board ends unchanged; on a board with a human line the result is (no position, -10), else with a line of the automated player (no position, 10), else on a full board (no position, 0); otherwise the result is the best choice, an empty position scored with its child value; the score is always the minimax value |
| Search.MarkKeepsOtherLines | main.js:73 | a mark of one player never gives the other player a line |
| Search.ThreatDecides | main.js:56-84 | a player who can complete a line with one mark gets the best score there is: -10 for the human, 10 for the automated player |
| Search.LowestWinningSlotChosen | main.js:90-115 | when the lowest empty slot already reaches the best score, the search picks that slot with that score |
| Scenarios.CanWinIsOpen | main.js:56-67 | the first example board is not terminal |
| Scenarios.CanWinCompletesTopRow | main.js:60-62 | marking slot 2 there completes the automated player's top row, scoring 10 |
| Scenarios.CanWinValue | main.js:52-116 | the value of that board for the automated player is 10 |
| Scenarios.CanWinChoice | main.js:90-102 | the search answers that board with slot 2 and score 10 |
| Scenarios.AiTakesTheWin | main.js:52-116 | with a line to complete, the automated player completes it |
| Scenarios.MustBlockIsOpen | main.js:56-67 | the second example board is not terminal and only slots 2 and 8 are empty |
| Scenarios.MustBlockLosesElsewhere | main.js:56-84 | marking slot 8 lets the human complete the top row, scoring -10 |
| Scenarios.BlockedIsOpen | main.js:56-67 | after the block the board is not terminal and only slot 8 is empty |
| Scenarios.BlockedEndsLevel | main.js:64-66 | the last mark completes no line, so the game ends level at 0 |
| Scenarios.BlockedIsLevel | main.js:52-116 | blocking at slot 2 scores 0 |
| Scenarios.BlockIsBest | main.js:90-102 | no empty slot scores better than the block |
| Scenarios.MustBlockValue | main.js:52-116 | the value of the second board for the automated player is 0 |
| Scenarios.BlockChosen | main.js:90-102 | the search answers the second board with slot 2 and score 0 |
| Scenarios.AiBlocks | main.js:52-116 | facing a line the human can complete, the automated player blocks it |
| TicTacToe.Game.StartGame | main.js:230 | a new game's board has nine empty slots |
| TicTacToe.Game.Turn | main.js:191-200 | slot c gets p's mark whatever it held, every other slot is unchanged, and the win reported is win detection for p on the new board |
| TicTacToe.Game.TurnClick | main.js:205-220 | a click on a marked slot is ignored and changes nothing. Otherwise the human's mark is placed and the tie condition as written is evaluated. On a tie nothing more happens. Otherwise the search runs for the automated player: on a terminal board it returns no position (a fault), else its best choice is marked. A human win with empty slots left always ends in the fault |

## Left out

- The page: the cell elements and their listeners, cell colours, the text
  written into cells, and the end-of-game banner. `DeclareWinner` and the
  display part of `GameOver` are not part of this model. The model records
  what a click decided in `ClickOutcome` instead of drawing it.
- The global variables `originalBoard` and `allCellsFilled`. The board is a
  field of `TicTacToe.Game`. `allCellsFilled` is never changed from 0, so
  the tie condition compares the number of empty slots with 0.
- BoardState.EmptyCells: the source ignores its argument and always reads
  the global board. The model takes the board as a parameter. The two agree
  because the search is only ever started on the global board and changes
  that same array in place.
- The sentinel encoding: an empty slot holds its own index and a mark holds
  the player's symbol. The `typeof` test and the coercion of the element id
  to an index are replaced by the `Empty | Mark(player)` slot type. The
  model saves and restores the slot's old content (`Empty`) where the source
  restores the index the slot held.
- Search.SelectBest: the source has two selection loops, one for each
  player. The model has one loop that takes its sentinel and its strict
  comparison from the player. The behaviour is the same.
- TicTacToe.Game.TurnClick: after a human win with empty slots left, the
  source hands the missing position of the search result to `Turn`, and the
  page update then throws. The model stops with the outcome `Fault` and
  leaves the board as the human's move left it. What the thrown error does
  to the page is not modelled.
- The end of a game after a win: `GameOver` removes the click listeners, so
  no further clicks arrive. The model has no listeners and leaves this to
  the caller.

## Findings

| source | as written | input that shows it | evidently intended | confidence | as-written member | corrected member |
|---|---|---|---|---|---|---|
| main.js:33-34 | a full board is a tie when either player has no line (`!humanWon \|\| !aiWon`) | the full board 0 0 0 / X X 0 / X 0 X, on which the human owns the top row | a full board is a tie only when neither player owns a line | not executed | BoardState.TieAsWrittenOnWonBoard | BoardState.IsTieMeaning |

`TicTacToe.Game.TurnClick` keeps the condition as written, because that is
what the page runs. With the intended condition alone, a human win on the
last empty slot would no longer count as a tie. The search would then run
on the won board and reach the same fault as a human win with slots left.
