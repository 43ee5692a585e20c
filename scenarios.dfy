/**
  Two positions on which the search is worked out by hand: the automated
  player takes a line it can complete, and it blocks a line the human is
  about to complete.
 */
module Scenarios {
  import opened BoardState
  import opened Search

  /** The automated player holds 0 and 1, the human 3, 4 and 8; the automated player is to move. */
  const CanWin: Board := [
    Mark(Ai),    Mark(Ai),    Empty,
    Mark(Human), Mark(Human), Empty,
    Empty,       Empty,       Mark(Human)
  ]

  lemma CanWinIsOpen()
    ensures !Terminal(CanWin)
  {
    NoLineNoWin(CanWin, Human);
    NoLineNoWin(CanWin, Ai);
    assert 2 in EmptyCells(CanWin);
  }

  lemma CanWinCompletesTopRow()
    ensures ChildValue(CanWin, Ai, 2) == 10
  {
    var child := CanWin[2 := Mark(Ai)];
    FirstWinAt(child, Ai, 0);
    NoLineNoWin(CanWin, Human);
    MarkKeepsOtherLines(CanWin, Ai, 2);
    assert Terminal(child);
  }

  /** With a line to complete, the automated player completes it, scoring 10. */
  lemma AiTakesTheWin()
    ensures !Terminal(CanWin) && Value(CanWin, Ai) == 10
    ensures forall m :: IsBestChoice(CanWin, Ai, m) ==> m == Move(Some(2), 10)
  {
    CanWinValue();
    CanWinChoice();
  }

  lemma CanWinChoice()
    ensures forall m :: IsBestChoice(CanWin, Ai, m) ==> m == Move(Some(2), 10)
  {
    assert 2 < |CanWin| && CanWin[2] == Empty;
    assert forall k :: 0 <= k < 2 ==> CanWin[k] != Empty;
    CanWinCompletesTopRow();
    LowestWinningSlotChosen(CanWin, Ai, 2);
  }

  lemma CanWinValue()
    ensures !Terminal(CanWin) && Value(CanWin, Ai) == 10
  {
    assert 2 < |CanWin| && CanWin[2] == Empty;
    CanWinIsOpen();
    FirstWinAt(CanWin[2 := Mark(Ai)], Ai, 0);
    ThreatDecides(CanWin, Ai, 2);
  }

  /**
    The human holds 0, 1, 5 and 6, the automated player 3, 4 and 7; slots 2
    and 8 are empty and the automated player is to move. The human threatens
    the top row at 2.
   */
  const MustBlock: Board := [
    Mark(Human), Mark(Human), Empty,
    Mark(Ai),    Mark(Ai),    Mark(Human),
    Mark(Human), Mark(Ai),    Empty
  ]

  lemma MustBlockIsOpen()
    ensures !Terminal(MustBlock)
    ensures forall e :: 0 <= e < |MustBlock| && MustBlock[e] == Empty ==> e == 2 || e == 8
  {
    NoLineNoWin(MustBlock, Human);
    NoLineNoWin(MustBlock, Ai);
    assert 2 in EmptyCells(MustBlock);
    forall e | 0 <= e < |MustBlock| && MustBlock[e] == Empty ensures e == 2 || e == 8 {
      assert e != 0 && e != 1 && e != 3 && e != 4 && e != 5 && e != 6 && e != 7;
    }
  }

  /** Leaving slot 2 open lets the human complete the top row. */
  lemma MustBlockLosesElsewhere()
    ensures ChildValue(MustBlock, Ai, 8) == -10
  {
    var c := MustBlock[8 := Mark(Ai)];
    NoLineNoWin(c, Human);
    NoLineNoWin(c, Ai);
    assert 2 in EmptyCells(c);
    FirstWinAt(c[2 := Mark(Human)], Human, 0);
    ThreatDecides(c, Human, 2);
  }

  /** The board after the block: only slot 8 is left. */
  const Blocked: Board := [
    Mark(Human), Mark(Human), Mark(Ai),
    Mark(Ai),    Mark(Ai),    Mark(Human),
    Mark(Human), Mark(Ai),    Empty
  ]

  lemma BlockedIsOpen()
    ensures !Terminal(Blocked)
    ensures forall e :: 0 <= e < |Blocked| && Blocked[e] == Empty ==> e == 8
  {
    NoLineNoWin(Blocked, Human);
    NoLineNoWin(Blocked, Ai);
    assert 8 in EmptyCells(Blocked);
    forall e | 0 <= e < |Blocked| && Blocked[e] == Empty ensures e == 8 {
      assert e != 0 && e != 1 && e != 2 && e != 3 && e != 4 && e != 5 && e != 6 && e != 7;
    }
  }

  /** The last mark on the blocked board completes no line: the game ends level. */
  lemma BlockedEndsLevel()
    ensures ChildValue(Blocked, Human, 8) == 0
  {
    assert 8 < |Blocked| && Blocked[8] == Empty;
    var full := Blocked[8 := Mark(Human)];
    NoLineNoWin(full, Human);
    NoLineNoWin(full, Ai);
    assert forall k :: 0 <= k < |full| ==> full[k] != Empty;
  }

  lemma BlockedIsLevel()
    ensures ChildValue(MustBlock, Ai, 2) == 0
  {
    assert MustBlock[2 := Mark(Ai)] == Blocked;
    BlockedIsOpen();
    BlockedEndsLevel();
    ValueBounds(Blocked, Human);
  }

  /** Facing a line the human can complete, the automated player blocks it and the game is level. */
  lemma AiBlocks()
    ensures !Terminal(MustBlock) && Value(MustBlock, Ai) == 0
    ensures forall m :: IsBestChoice(MustBlock, Ai, m) ==> m == Move(Some(2), 0)
  {
    MustBlockValue();
    forall m | IsBestChoice(MustBlock, Ai, m) ensures m == Move(Some(2), 0) {
      BlockChosen(m);
    }
  }

  lemma MustBlockValue()
    ensures !Terminal(MustBlock) && Value(MustBlock, Ai) == 0
  {
    assert 2 < |MustBlock| && MustBlock[2] == Empty;
    MustBlockIsOpen();
    BlockedIsLevel();
    BlockIsBest();
    ValueIsBestChild(MustBlock, Ai, 2);
  }

  /** No empty slot of the board scores better than the block. */
  lemma BlockIsBest()
    ensures forall k :: 0 <= k < |MustBlock| && MustBlock[k] == Empty ==>
              !Better(Ai, ChildValue(MustBlock, Ai, k), ChildValue(MustBlock, Ai, 2))
  {
    assert MustBlock[2] == Empty && MustBlock[8] == Empty;
    MustBlockIsOpen();
    MustBlockLosesElsewhere();
    BlockedIsLevel();
    forall k | 0 <= k < |MustBlock| && MustBlock[k] == Empty
      ensures !Better(Ai, ChildValue(MustBlock, Ai, k), ChildValue(MustBlock, Ai, 2))
    {
      if k != 2 {
        assert k == 8;
      }
    }
  }

  lemma BlockChosen(m: Move)
    requires IsBestChoice(MustBlock, Ai, m)
    ensures m == Move(Some(2), 0)
  {
    assert MustBlock[2] == Empty && MustBlock[8] == Empty;
    MustBlockIsOpen();
    MustBlockLosesElsewhere();
    BlockedIsLevel();
    assert !Better(Ai, ChildValue(MustBlock, Ai, 2), m.score);
  }
}
