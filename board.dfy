/**
  The board of a 3x3 tic-tac-toe game: nine slots in row-major order, the
  table of the eight winning lines, the enumeration of empty slots, win
  detection and the tie condition.
 */
module BoardState {

  datatype Option<T> = None | Some(value: T)

  /** The human plays the symbol '0', the automated player the symbol 'X'. */
  datatype Player = Human | Ai

  function Other(p: Player): (q: Player)
    ensures q != p
  {
    if p == Human then Ai else Human
  }

  /** A slot is either still empty or holds one player's mark. */
  datatype Cell = Empty | Mark(player: Player)

  type Board = seq<Cell>

  /** The number of slots of a game board. */
  const Size: nat := 9

  /** The winning lines in table order: three rows, three columns, two diagonals. */
  const Lines: seq<seq<nat>> := [
    [0, 1, 2],
    [3, 4, 5],
    [6, 7, 8],
    [0, 3, 6],
    [1, 4, 7],
    [2, 5, 8],
    [0, 4, 8],
    [6, 4, 2]
  ]

  /** What win detection reports: the index of the line in the table and its owner. */
  datatype Win = Win(index: nat, player: Player)

  /** The board at the start of a game: every slot empty. */
  const FreshBoard: Board := [Empty, Empty, Empty, Empty, Empty, Empty, Empty, Empty, Empty]

  /** The positions of b whose slot holds c, in ascending order. */
  function Positions(b: Board, c: Cell): (r: seq<nat>)
    ensures forall k: nat {:trigger k in r} :: k in r <==> k < |b| && b[k] == c
    ensures forall i, j :: 0 <= i < j < |r| ==> r[i] < r[j]
    ensures |r| == 0 <==> forall k :: 0 <= k < |b| ==> b[k] != c
    decreases |b|
  {
    if |b| == 0 then []
    else
      var n := |b| - 1;
      var front := Positions(b[..n], c);
      assert forall k: nat :: k in front ==> k < n && b[k] == c;
      assert forall k: nat :: k < n && b[k] == c ==> k in front by {
        forall k: nat | k < n && b[k] == c ensures k in front {
          assert b[..n][k] == b[k];
        }
      }
      assert forall i :: 0 <= i < |front| ==> front[i] in front;
      front + (if b[n] == c then [n] else [])
  }

  /** The unoccupied positions of b, in ascending order. */
  function EmptyCells(b: Board): (r: seq<nat>)
    ensures forall k: nat {:trigger k in r} :: k in r <==> k < |b| && b[k] == Empty
    ensures forall i :: 0 <= i < |r| ==> r[i] < |b| && b[r[i]] == Empty
    ensures forall i, j :: 0 <= i < j < |r| ==> r[i] < r[j]
    ensures |r| == 0 <==> forall k :: 0 <= k < |b| ==> b[k] != Empty
  {
    var r := Positions(b, Empty);
    assert forall i :: 0 <= i < |r| ==> r[i] in r;
    r
  }

  /** The positions p has marked, in ascending order. */
  function Plays(b: Board, p: Player): (r: seq<nat>)
    ensures forall k: nat {:trigger k in r} :: k in r <==> k < |b| && b[k] == Mark(p)
  {
    Positions(b, Mark(p))
  }

  /** Every slot is empty or marked by exactly one player, so the counts add up to the board size. */
  lemma {:induction false} SlotsPartition(b: Board)
    ensures |EmptyCells(b)| + |Plays(b, Human)| + |Plays(b, Ai)| == |b|
    decreases |b|
  {
    if |b| > 0 {
      var n := |b| - 1;
      SlotsPartition(b[..n]);
      assert EmptyCells(b[..n]) == Positions(b[..n], Empty);
      assert Plays(b[..n], Human) == Positions(b[..n], Mark(Human));
      assert Plays(b[..n], Ai) == Positions(b[..n], Mark(Ai));
      assert EmptyCells(b) == Positions(b[..n], Empty) + (if b[n] == Empty then [n] else []);
      assert Plays(b, Human) == Positions(b[..n], Mark(Human)) + (if b[n] == Mark(Human) then [n] else []);
      assert Plays(b, Ai) == Positions(b[..n], Mark(Ai)) + (if b[n] == Mark(Ai) then [n] else []);
      assert b[n].Empty? || b[n].player.Human? || b[n].player.Ai?;
    }
  }

  /** Overwriting one slot that holds c with something else removes exactly one position of c. */
  lemma {:induction false} PositionsAfterWrite(b: Board, s: nat, c: Cell, d: Cell)
    requires s < |b| && b[s] == c && d != c
    ensures |Positions(b[s := d], c)| == |Positions(b, c)| - 1
    decreases |b|
  {
    var n := |b| - 1;
    var b' := b[s := d];
    assert Positions(b, c) == Positions(b[..n], c) + (if b[n] == c then [n] else []);
    assert Positions(b', c) == Positions(b'[..n], c) + (if b'[n] == c then [n] else []);
    if s == n {
      assert b'[..n] == b[..n];
    } else {
      assert b'[..n] == b[..n][s := d];
      PositionsAfterWrite(b[..n], s, c, d);
    }
  }

  predicate Owns(b: Board, p: Player, k: nat)
  {
    k < |b| && b[k] == Mark(p)
  }

  /** Line i of the table is entirely p's marks on b. */
  predicate LineComplete(b: Board, p: Player, i: nat)
    requires i < |Lines|
  {
    Owns(b, p, Lines[i][0]) && Owns(b, p, Lines[i][1]) && Owns(b, p, Lines[i][2])
  }

  /** p owns some line of b. */
  predicate HasLine(b: Board, p: Player)
  {
    exists i :: 0 <= i < |Lines| && LineComplete(b, p, i)
  }

  /** Every position of the line is among the plays. */
  predicate Covered(plays: seq<nat>, line: seq<nat>)
  {
    forall j :: 0 <= j < |line| ==> line[j] in plays
  }

  /** The scan of the line table from index `from` on: the first line the plays cover. */
  function FirstWin(plays: seq<nat>, p: Player, from: nat): (r: Option<Win>)
    requires from <= |Lines|
    ensures r.Some? ==> r.value.player == p && from <= r.value.index < |Lines|
    ensures r.Some? ==> Covered(plays, Lines[r.value.index])
    ensures r.Some? ==> forall j :: from <= j < r.value.index ==> !Covered(plays, Lines[j])
    ensures r.None? ==> forall j :: from <= j < |Lines| ==> !Covered(plays, Lines[j])
    decreases |Lines| - from
  {
    if from == |Lines| then None
    else if Covered(plays, Lines[from]) then Some(Win(from, p))
    else FirstWin(plays, p, from + 1)
  }

  /** The plays cover line i exactly when p owns every slot of it. */
  lemma CoveredIsComplete(b: Board, p: Player, i: nat)
    requires i < |Lines|
    ensures Covered(Plays(b, p), Lines[i]) <==> LineComplete(b, p, i)
  {
    var line := Lines[i];
    assert |line| == 3;
    if LineComplete(b, p, i) {
      forall j | 0 <= j < |line| ensures line[j] in Plays(b, p) {
        assert j == 0 || j == 1 || j == 2;
      }
    }
  }

  /** Win detection: the first line in table order that p owns, or None when p owns no line. */
  function CheckWin(b: Board, p: Player): (r: Option<Win>)
    ensures r.Some? ==> r.value.player == p && r.value.index < |Lines|
    ensures r.Some? ==> LineComplete(b, p, r.value.index)
    ensures r.Some? ==> forall j :: 0 <= j < r.value.index ==> !LineComplete(b, p, j)
    ensures r.None? <==> forall j :: 0 <= j < |Lines| ==> !LineComplete(b, p, j)
  {
    var plays := Plays(b, p);
    forall j | 0 <= j < |Lines| ensures Covered(plays, Lines[j]) <==> LineComplete(b, p, j) {
      CoveredIsComplete(b, p, j);
    }
    FirstWin(plays, p, 0)
  }

  /** A line p owns, preceded only by lines p does not own, is the one win detection reports. */
  lemma FirstWinAt(b: Board, p: Player, i: nat)
    requires i < |Lines| && LineComplete(b, p, i)
    requires forall j :: 0 <= j < i ==> !LineComplete(b, p, j)
    ensures CheckWin(b, p) == Some(Win(i, p))
  {
  }

  /** Win detection finds nothing when p owns none of the eight lines, checked line by line. */
  lemma NoLineNoWin(b: Board, p: Player)
    requires !LineComplete(b, p, 0) && !LineComplete(b, p, 1) && !LineComplete(b, p, 2)
    requires !LineComplete(b, p, 3) && !LineComplete(b, p, 4) && !LineComplete(b, p, 5)
    requires !LineComplete(b, p, 6) && !LineComplete(b, p, 7)
    ensures CheckWin(b, p) == None
  {
    forall j | 0 <= j < |Lines| ensures !LineComplete(b, p, j) {
      assert j == 0 || j == 1 || j == 2 || j == 3 || j == 4 || j == 5 || j == 6 || j == 7;
    }
  }

  /** On a board with no mark at all, every position is listed as empty. */
  lemma UnmarkedBoard(b: Board)
    requires forall k :: 0 <= k < |b| ==> b[k] == Empty
    ensures |EmptyCells(b)| == |b|
  {
    assert |Positions(b, Mark(Human))| == 0 && |Positions(b, Mark(Ai))| == 0;
    SlotsPartition(b);
  }

  /** A fresh board has nine empty slots. */
  lemma FreshBoardAllEmpty()
    ensures |EmptyCells(FreshBoard)| == Size
    ensures forall k: nat :: k in EmptyCells(FreshBoard) <==> k < Size
  {
    UnmarkedBoard(FreshBoard);
  }

  /** Neither player has won on a fresh board. */
  lemma FreshBoardHasNoWinner(p: Player)
    ensures CheckWin(FreshBoard, p) == None
  {
    NoLineNoWin(FreshBoard, p);
  }

  /** A player holding the top row wins on line 0. */
  lemma TopRowWins(p: Player)
    ensures CheckWin([Mark(p), Mark(p), Mark(p), Empty, Empty, Empty, Empty, Empty, Empty], p)
            == Some(Win(0, p))
  {
    var b := [Mark(p), Mark(p), Mark(p), Empty, Empty, Empty, Empty, Empty, Empty];
    FirstWinAt(b, p, 0);
  }

  /** A player holding the main diagonal wins on line 6, the first line of the table it completes. */
  lemma DiagonalWins(p: Player)
    ensures CheckWin([Mark(p), Empty, Empty, Empty, Mark(p), Empty, Empty, Empty, Mark(p)], p)
            == Some(Win(6, p))
  {
    var b := [Mark(p), Empty, Empty, Empty, Mark(p), Empty, Empty, Empty, Mark(p)];
    assert !LineComplete(b, p, 0) && !LineComplete(b, p, 1) && !LineComplete(b, p, 2);
    assert !LineComplete(b, p, 3) && !LineComplete(b, p, 4) && !LineComplete(b, p, 5);
    FirstWinAt(b, p, 6);
  }

  /**
    The tie condition of the click handler as written: no empty slot left and
    at least one of the two players without a line.
   */
  predicate TieAsWritten(b: Board)
  {
    |EmptyCells(b)| == 0 && (CheckWin(b, Human).None? || CheckWin(b, Ai).None?)
  }

  /** As written, a full board is a tie unless both players own a line. */
  lemma TieAsWrittenMeaning(b: Board)
    ensures TieAsWritten(b) <==>
            (forall k :: 0 <= k < |b| ==> b[k] != Empty) && !(HasLine(b, Human) && HasLine(b, Ai))
  {
  }

  /** A full board on which the human has completed the top row. */
  const HumanWonFullBoard: Board := [
    Mark(Human), Mark(Human), Mark(Human),
    Mark(Ai),    Mark(Ai),    Mark(Human),
    Mark(Ai),    Mark(Human), Mark(Ai)
  ]

  lemma WonBoardIsFull()
    ensures |EmptyCells(HumanWonFullBoard)| == 0
  {
    assert forall k :: 0 <= k < |HumanWonFullBoard| ==> HumanWonFullBoard[k] != Empty;
  }

  lemma WonBoardWinners()
    ensures CheckWin(HumanWonFullBoard, Human) == Some(Win(0, Human))
    ensures CheckWin(HumanWonFullBoard, Ai) == None
  {
    FirstWinAt(HumanWonFullBoard, Human, 0);
    NoLineNoWin(HumanWonFullBoard, Ai);
  }

  /** Counterexample: the condition as written declares a tie on a board the human has won. */
  lemma TieAsWrittenOnWonBoard()
    ensures CheckWin(HumanWonFullBoard, Human) == Some(Win(0, Human))
    ensures TieAsWritten(HumanWonFullBoard)
    ensures !IsTie(HumanWonFullBoard)
  {
    WonBoardIsFull();
    WonBoardWinners();
  }

  /** The intended tie condition: no empty slot left and neither player owns a line. */
  predicate IsTie(b: Board)
  {
    |EmptyCells(b)| == 0 && CheckWin(b, Human).None? && CheckWin(b, Ai).None?
  }

  lemma IsTieMeaning(b: Board)
    ensures IsTie(b) <==>
            (forall k :: 0 <= k < |b| ==> b[k] != Empty) && !HasLine(b, Human) && !HasLine(b, Ai)
  {
  }
}
