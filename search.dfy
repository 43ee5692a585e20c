/**
  Exhaustive minimax search over the board. Scores use a fixed perspective:
  a human line is -10, a line of the automated player +10, a full board 0,
  whoever is to move. The automated player maximises, the human minimises,
  and ties between equally good positions go to the lowest position.
 */
module Search {
  import opened BoardState

  /** What the search returns: the position it picked (absent on a terminal board) and its score. */
  datatype Move = Move(index: Option<nat>, score: int)

  /** A board on which the search stops: a line for either player, or no empty slot left. */
  predicate Terminal(b: Board)
  {
    CheckWin(b, Human).Some? || CheckWin(b, Ai).Some? || |EmptyCells(b)| == 0
  }

  /** The terminal checks in their fixed order: human line, then AI line, then full board. */
  function TerminalScore(b: Board): int
    requires Terminal(b)
  {
    if CheckWin(b, Human).Some? then -10
    else if CheckWin(b, Ai).Some? then 10
    else 0
  }

  /** Score x is strictly better than score y for p: higher for the automated player, lower for the human. */
  predicate Better(p: Player, x: int, y: int)
  {
    if p == Ai then x > y else x < y
  }

  /**
    The best of the scores xs for p, the first one on equal scores: no score
    of xs is better, and it is one of xs.
   */
  function Extreme(p: Player, xs: seq<int>): (v: int)
    requires |xs| > 0
    ensures forall i :: 0 <= i < |xs| ==> !Better(p, xs[i], v)
    ensures exists i :: 0 <= i < |xs| && xs[i] == v
  {
    if |xs| == 1 then xs[0]
    else
      var rest := Extreme(p, xs[1..]);
      assert forall i :: 1 <= i < |xs| ==> xs[i] == xs[1..][i - 1];
      if Better(p, rest, xs[0]) then rest else xs[0]
  }

  /** The minimax value of b with p to move. */
  function Value(b: Board, p: Player): (v: int)
    ensures v == -10 || v == 0 || v == 10
    decreases |EmptyCells(b)|, 1
  {
    if Terminal(b) then TerminalScore(b)
    else
      var es := EmptyCells(b);
      Extreme(p, seq(|es|, i requires 0 <= i < |es| => ChildValue(b, p, es[i])))
  }

  /** The value of placing p's mark on the empty slot e, with the other player to move. */
  function ChildValue(b: Board, p: Player, e: nat): (v: int)
    requires e < |b| && b[e] == Empty
    ensures v == -10 || v == 0 || v == 10
    decreases |EmptyCells(b)|, 0
  {
    PositionsAfterWrite(b, e, Empty, Mark(p));
    Value(b[e := Mark(p)], Other(p))
  }

  /** On a board that is not terminal, no empty position beats the value and some attains it. */
  lemma ValueBounds(b: Board, p: Player)
    requires !Terminal(b)
    ensures forall e :: 0 <= e < |b| && b[e] == Empty ==> !Better(p, ChildValue(b, p, e), Value(b, p))
    ensures exists e :: 0 <= e < |b| && b[e] == Empty && ChildValue(b, p, e) == Value(b, p)
  {
    var es := EmptyCells(b);
    var xs := seq(|es|, i requires 0 <= i < |es| => ChildValue(b, p, es[i]));
    assert Value(b, p) == Extreme(p, xs);
    forall e | 0 <= e < |b| && b[e] == Empty
      ensures !Better(p, ChildValue(b, p, e), Value(b, p))
    {
      assert e in es;
      var i :| 0 <= i < |es| && es[i] == e;
      assert xs[i] == ChildValue(b, p, e);
    }
    var i :| 0 <= i < |xs| && xs[i] == Extreme(p, xs);
    assert ChildValue(b, p, es[i]) == Value(b, p);
  }

  /**
    The answer the search must give on a board that is not terminal: the
    lowest empty position whose child value no other empty position beats,
    scored with that child value.
   */
  ghost predicate IsBestChoice(b: Board, p: Player, m: Move)
  {
    && m.index.Some?
    && m.index.value < |b| && b[m.index.value] == Empty
    && m.score == ChildValue(b, p, m.index.value)
    && (forall e {:trigger ChildValue(b, p, e)} :: 0 <= e < |b| && b[e] == Empty ==>
          !Better(p, ChildValue(b, p, e), m.score))
    && (forall e {:trigger ChildValue(b, p, e)} :: 0 <= e < m.index.value && b[e] == Empty ==>
          Better(p, m.score, ChildValue(b, p, e)))
  }

  /** A child value no other empty position beats is the minimax value of the board. */
  lemma ValueIsBestChild(b: Board, p: Player, e: nat)
    requires !Terminal(b) && e < |b| && b[e] == Empty
    requires forall k :: 0 <= k < |b| && b[k] == Empty ==> !Better(p, ChildValue(b, p, k), ChildValue(b, p, e))
    ensures Value(b, p) == ChildValue(b, p, e)
  {
    ValueBounds(b, p);
    var k :| 0 <= k < |b| && b[k] == Empty && ChildValue(b, p, k) == Value(b, p);
    assert !Better(p, ChildValue(b, p, k), ChildValue(b, p, e));
  }

  /** The best choice scores the minimax value of the board. */
  lemma BestChoiceHasValue(b: Board, p: Player, m: Move)
    requires !Terminal(b) && IsBestChoice(b, p, m)
    ensures m.score == Value(b, p)
  {
    ValueBounds(b, p);
    var e :| 0 <= e < |b| && b[e] == Empty && ChildValue(b, p, e) == Value(b, p);
    assert !Better(p, ChildValue(b, p, e), m.score);
    assert !Better(p, ChildValue(b, p, m.index.value), Value(b, p));
  }

  /** There is only one best choice: the search is deterministic. */
  lemma BestChoiceUnique(b: Board, p: Player, m1: Move, m2: Move)
    requires IsBestChoice(b, p, m1) && IsBestChoice(b, p, m2)
    ensures m1 == m2
  {
  }

  /**
    The selection step of the search: scanning the scores in order from the
    sentinel -10000 (automated player) or 10000 (human) and replacing the
    best so far only on a strictly better score yields the first best score.
   */
  method SelectBest(moves: seq<Move>, player: Player) returns (best: nat)
    requires |moves| > 0
    requires forall t :: 0 <= t < |moves| ==> -10 <= moves[t].score <= 10
    ensures best < |moves|
    ensures forall t :: 0 <= t < |moves| ==> !Better(player, moves[t].score, moves[best].score)
    ensures forall t :: 0 <= t < best ==> Better(player, moves[best].score, moves[t].score)
  {
    var bestScore := if player == Ai then -10000 else 10000;
    best := 0;
    var i := 0;
    while i < |moves|
      invariant 0 <= i <= |moves|
      invariant i == 0 ==> bestScore == (if player == Ai then -10000 else 10000)
      invariant best < |moves| && (i > 0 ==> best < i && bestScore == moves[best].score)
      invariant forall t :: 0 <= t < i ==> !Better(player, moves[t].score, bestScore)
      invariant forall t :: 0 <= t < best ==> Better(player, bestScore, moves[t].score)
    {
      if Better(player, moves[i].score, bestScore) {
        bestScore := moves[i].score;
        best := i;
      }
      i := i + 1;
    }
  }

  /**
    The selection yields the best choice: given the candidates in ascending
    order of the empty positions, each scored with its child value, the first
    one no other beats is the answer the search must give.
   */
  lemma ChoiceOfCandidates(b: Board, p: Player, moves: seq<Move>, best: nat)
    requires |moves| == |EmptyCells(b)| && best < |moves|
    requires forall j :: 0 <= j < |moves| ==> moves[j].index == Some(EmptyCells(b)[j])
    requires forall j :: 0 <= j < |moves| ==> moves[j].score == ChildValue(b, p, EmptyCells(b)[j])
    requires forall t :: 0 <= t < |moves| ==> !Better(p, moves[t].score, moves[best].score)
    requires forall t :: 0 <= t < best ==> Better(p, moves[best].score, moves[t].score)
    ensures IsBestChoice(b, p, moves[best])
  {
    var spots, m := EmptyCells(b), moves[best];
    forall e | 0 <= e < |b| && b[e] == Empty
      ensures !Better(p, ChildValue(b, p, e), m.score)
    {
      assert e in spots;
      var t :| 0 <= t < |spots| && spots[t] == e;
      assert moves[t].score == ChildValue(b, p, e);
    }
    forall e | 0 <= e < spots[best] && b[e] == Empty
      ensures Better(p, m.score, ChildValue(b, p, e))
    {
      assert e in spots;
      var t :| 0 <= t < |spots| && spots[t] == e;
      assert t < best;
      assert moves[t].score == ChildValue(b, p, e);
    }
  }

  /**
    Minimax as the source runs it: on a board that is not terminal, the
    candidates are collected and the first strictly best one is kept.
   */
  method Minimax(board: array<Cell>, player: Player) returns (m: Move)
    modifies board
    ensures board[..] == old(board[..])
    ensures Terminal(board[..]) ==> m == Move(None, TerminalScore(board[..]))
    ensures !Terminal(board[..]) ==> IsBestChoice(board[..], player, m)
    ensures m.score == Value(board[..], player)
    decreases |EmptyCells(board[..])|, 2
  {
    var availableSpots := EmptyCells(board[..]);
    if CheckWin(board[..], Human).Some? {
      return Move(None, -10);
    } else if CheckWin(board[..], Ai).Some? {
      return Move(None, 10);
    } else if |availableSpots| == 0 {
      return Move(None, 0);
    }
    ghost var b := board[..];
    var moves := Candidates(board, player, availableSpots);
    var best := SelectBest(moves, player);
    m := moves[best];
    ChoiceOfCandidates(b, player, moves, best);
    BestChoiceHasValue(b, player, m);
  }

  /**
    The candidate loop of the search: for each empty position in ascending
    order, the position is tried and recorded with its score.
   */
  method Candidates(board: array<Cell>, player: Player, availableSpots: seq<nat>) returns (moves: seq<Move>)
    requires availableSpots == EmptyCells(board[..])
    modifies board
    ensures board[..] == old(board[..])
    ensures |moves| == |availableSpots|
    ensures forall j :: 0 <= j < |moves| ==> moves[j].index == Some(availableSpots[j])
    ensures forall j :: 0 <= j < |moves| ==> moves[j].score == ChildValue(board[..], player, availableSpots[j])
    decreases |EmptyCells(board[..])|, 1
  {
    ghost var b := board[..];
    moves := [];
    var i := 0;
    while i < |availableSpots|
      invariant 0 <= i <= |availableSpots|
      invariant board[..] == b
      invariant |moves| == i
      invariant forall j :: 0 <= j < i ==> moves[j].index == Some(availableSpots[j])
      invariant forall j :: 0 <= j < i ==> moves[j].score == ChildValue(b, player, availableSpots[j])
    {
      var spot := availableSpots[i];
      var score := TryPosition(board, player, spot);
      moves := moves + [Move(Some(spot), score)];
      i := i + 1;
    }
  }

  /**
    One step of the candidate loop: place the mark on the empty slot, search
    on for the other player, and put the slot back as it was.
   */
  method TryPosition(board: array<Cell>, player: Player, spot: nat) returns (score: int)
    requires spot < board.Length && board[spot] == Empty
    modifies board
    ensures board[..] == old(board[..])
    ensures score == ChildValue(board[..], player, spot)
    decreases |EmptyCells(board[..])|, 0
  {
    ghost var b := board[..];
    var saved := board[spot];
    board[spot] := Mark(player);
    assert board[..] == b[spot := Mark(player)];
    PositionsAfterWrite(b, spot, Empty, Mark(player));
    var result := Minimax(board, Other(player));
    score := result.score;
    board[spot] := saved;
    assert board[..] == b;
  }

  /** A mark of one player never completes a line of the other. */
  lemma MarkKeepsOtherLines(c: Board, p: Player, e: nat)
    requires e < |c| && CheckWin(c, Other(p)).None?
    ensures CheckWin(c[e := Mark(p)], Other(p)).None?
  {
    var child := c[e := Mark(p)];
    forall j | 0 <= j < |Lines| ensures !LineComplete(child, Other(p), j) {
      assert !LineComplete(c, Other(p), j);
    }
  }

  /** A player who can complete a line with one mark gets the best score there is. */
  lemma ThreatDecides(c: Board, p: Player, e: nat)
    requires !Terminal(c) && e < |c| && c[e] == Empty
    requires CheckWin(c[e := Mark(p)], p).Some?
    ensures Value(c, p) == (if p == Human then -10 else 10)
  {
    var child := c[e := Mark(p)];
    if p == Ai {
      MarkKeepsOtherLines(c, p, e);
    }
    assert Terminal(child);
    assert ChildValue(c, p, e) == TerminalScore(child) == (if p == Human then -10 else 10);
    ValueBounds(c, p);
  }

  /**
    When the lowest empty slot already reaches the best score there is, the
    search picks that slot.
   */
  lemma LowestWinningSlotChosen(b: Board, p: Player, e: nat)
    requires e < |b| && b[e] == Empty && ChildValue(b, p, e) == (if p == Human then -10 else 10)
    requires forall k :: 0 <= k < e ==> b[k] != Empty
    ensures forall m :: IsBestChoice(b, p, m) ==> m == Move(Some(e), ChildValue(b, p, e))
  {
    forall m | IsBestChoice(b, p, m) ensures m == Move(Some(e), ChildValue(b, p, e)) {
      assert !(m.index.value > e);
    }
  }
}
