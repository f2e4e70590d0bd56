/**
 * What the search promises: terminal scoring, the max/min characterisation
 * of inner nodes, the score range, and the choice `best_move` makes.
 */
module SearchProperties {
  import opened Evaluator
  import opened Search

  /** Writing a mark into a free cell removes exactly that cell from the free ones. */
  lemma PlaceShrinksFreeCells(b: seq<Cell>, i: nat, m: Mark)
    requires |b| == 9 && i < 9 && b[i].Free?
    ensures FreeCells(b[i := Taken(m)]) == FreeCells(b) - {i}
    ensures |FreeCells(b[i := Taken(m)])| == |FreeCells(b)| - 1
  {
  }

  /** A board has at most nine free cells. */
  lemma FreeCellsAtMostNine(b: seq<Cell>)
    requires |b| == 9
    ensures |FreeCells(b)| <= 9
  {
    var all: set<int> := {0, 1, 2, 3, 4, 5, 6, 7, 8};
    assert FreeCells(b) <= all;
    assert |all| == 9;
    assert all * FreeCells(b) == FreeCells(b);
    assert |all - FreeCells(b)| == |all| - |FreeCells(b)|;
  }

  /** Terminal scoring: an AI win, a human win and a draw end the search. */
  lemma TerminalScore(b: seq<Cell>, isMax: bool, ai: Mark, human: Mark, depth: int)
    requires |b| == 9 && ai != human
    ensures CheckWinner(b) == Win(ai) ==> Value(b, isMax, ai, human, depth) == Finite(10 - depth)
    ensures CheckWinner(b) == Win(human) ==> Value(b, isMax, ai, human, depth) == Finite(depth - 10)
    ensures CheckWinner(b) == Draw ==> Value(b, isMax, ai, human, depth) == Finite(0)
    ensures CheckWinner(b) == Ongoing ==>
      Value(b, isMax, ai, human, depth) == BestUpTo(b, isMax, ai, human, depth, 9)
  {
  }

  /**
   * After the loop has seen cells 0..n-1, the running best is at least (at
   * most, when minimizing) every free cell's child value seen so far, and
   * equals one of them when there is one.
   */
  lemma {:induction false} BestUpToExtremum(b: seq<Cell>, isMax: bool, ai: Mark, human: Mark, depth: int, n: nat)
    requires |b| == 9 && n <= 9 && ai != human
    ensures forall j :: 0 <= j < n && b[j].Free? ==>
      var r, c := BestUpTo(b, isMax, ai, human, depth, n), Child(b, isMax, ai, human, depth, j);
      r.Finite? && (if isMax then c.v <= r.v else r.v <= c.v)
    ensures (exists j :: 0 <= j < n && b[j].Free?) ==>
      exists j :: 0 <= j < n && b[j].Free? &&
        Child(b, isMax, ai, human, depth, j) == BestUpTo(b, isMax, ai, human, depth, n)
  {
    if n > 0 {
      BestUpToExtremum(b, isMax, ai, human, depth, n - 1);
      if b[n - 1].Free? {
        var acc := BestUpTo(b, isMax, ai, human, depth, n - 1);
        var c := Child(b, isMax, ai, human, depth, n - 1);
        var r := BestUpTo(b, isMax, ai, human, depth, n);
        assert r == (if isMax then Max(acc, c) else Min(acc, c));
        if exists j :: 0 <= j < n - 1 && b[j].Free? {
          var j :| 0 <= j < n - 1 && b[j].Free? && Child(b, isMax, ai, human, depth, j) == acc;
          assert r == acc || r == c;
        } else {
          assert r == c;
        }
      }
    }
  }

  /**
   * At a node that is not terminal, a maximizing call returns the largest and
   * a minimizing call the smallest child value over the free cells, where a
   * child is scored with the other side to move and depth + 1.
   */
  lemma NonTerminalValue(b: seq<Cell>, isMax: bool, ai: Mark, human: Mark, depth: int)
    requires |b| == 9 && ai != human && CheckWinner(b) == Ongoing
    ensures forall j :: 0 <= j < 9 && b[j].Free? ==>
      var r, c := Value(b, isMax, ai, human, depth), Child(b, isMax, ai, human, depth, j);
      if isMax then c.v <= r.v else r.v <= c.v
    ensures exists j :: 0 <= j < 9 && b[j].Free? &&
                        Child(b, isMax, ai, human, depth, j) == Value(b, isMax, ai, human, depth)
  {
    BestUpToExtremum(b, isMax, ai, human, depth, 9);
  }

  /**
   * Scores stay within [depth - 10, 10 - depth] as long as the game cannot
   * run past ply 10; a node that is not terminal is one ply tighter. At the
   * root of `best_move` (depth 0) every score is in [-10, 10], so it is
   * never an infinity.
   */
  lemma {:induction false} ValueBounds(b: seq<Cell>, isMax: bool, ai: Mark, human: Mark, depth: int)
    requires |b| == 9 && ai != human
    requires 0 <= depth && depth + |FreeCells(b)| <= 10
    ensures var r := Value(b, isMax, ai, human, depth);
      r.Finite? && depth - 10 <= r.v <= 10 - depth
    ensures CheckWinner(b) == Ongoing ==>
      var r := Value(b, isMax, ai, human, depth);
      depth - 9 <= r.v <= 9 - depth
    decreases FreeCells(b), 1
  {
    if CheckWinner(b) == Ongoing {
      NonTerminalValue(b, isMax, ai, human, depth);
      var j :| 0 <= j < 9 && b[j].Free? &&
        Child(b, isMax, ai, human, depth, j) == Value(b, isMax, ai, human, depth);
      ChildBounds(b, isMax, ai, human, depth, j);
    }
  }

  lemma {:induction false} ChildBounds(b: seq<Cell>, isMax: bool, ai: Mark, human: Mark, depth: int, j: nat)
    requires |b| == 9 && ai != human && j < 9 && b[j].Free?
    requires 0 <= depth && depth + |FreeCells(b)| <= 10
    ensures var c := Child(b, isMax, ai, human, depth, j);
      depth - 9 <= c.v <= 9 - depth
    decreases FreeCells(b), 0
  {
    var m := Mover(isMax, ai, human);
    PlaceShrinksFreeCells(b, j, m);
    ValueBounds(b[j := Taken(m)], !isMax, ai, human, depth + 1);
  }

  /** Scanning the root in order, the kept choice is the first free cell of greatest score. */
  lemma {:induction false} RootScanChoice(b: seq<Cell>, scores: seq<Score>, n: nat)
    requires |b| == 9 && |scores| == 9 && n <= 9
    ensures var (best, move) := RootScan(b, scores, n);
      && (move.None? ==> best == NegInf)
      && (move.Some? ==>
            move.value < n && b[move.value].Free? && best == scores[move.value] &&
            forall j :: 0 <= j < move.value && b[j].Free? ==> Above(best, scores[j]))
      && (forall j :: 0 <= j < n && b[j].Free? ==> !Above(scores[j], best))
  {
    if n > 0 {
      RootScanChoice(b, scores, n - 1);
      var (best, move) := RootScan(b, scores, n - 1);
      if b[n - 1].Free? && Above(scores[n - 1], best) {
        forall j | 0 <= j < n - 1 && b[j].Free?
          ensures Above(scores[n - 1], scores[j])
        {
          AboveTransitive(scores[n - 1], best, scores[j]);
        }
      }
    }
  }

  lemma AboveTransitive(a: Score, b: Score, c: Score)
    requires Above(a, b) && !Above(c, b)
    ensures Above(a, c)
  {
  }

  /** The move `best_move` returns is a free cell of the board. */
  lemma BestMoveIsFreeCell(b: seq<Cell>, ai: Mark, human: Mark)
    requires |b| == 9
    ensures BestMoveOf(b, ai, human).Some? ==>
      var k := BestMoveOf(b, ai, human).value;
      0 <= k < 9 && b[k].Free?
  {
    RootScanChoice(b, RootScores(b, ai, human), 9);
  }

  /** `best_move` finds no move exactly when no cell is free. */
  lemma BestMoveNoneIffFull(b: seq<Cell>, ai: Mark, human: Mark)
    requires |b| == 9 && ai != human
    ensures BestMoveOf(b, ai, human).None? <==> Full(b)
  {
    RootScanChoice(b, RootScores(b, ai, human), 9);
    if !Full(b) {
      var j :| 0 <= j < 9 && b[j].Free?;
      assert RootScore(b, ai, human, j).Finite?;
    }
  }

  /**
   * `best_move` returns a free cell of maximal score, and every free cell
   * before it scores strictly less: ties go to the lowest index.
   */
  lemma BestMoveFirstMaximal(b: seq<Cell>, ai: Mark, human: Mark)
    requires |b| == 9 && ai != human && !Full(b)
    ensures BestMoveOf(b, ai, human).Some?
    ensures var k := BestMoveOf(b, ai, human).value;
      && k < 9 && b[k].Free?
      && (forall j :: 0 <= j < 9 && b[j].Free? ==>
            RootScore(b, ai, human, j).v <= RootScore(b, ai, human, k).v)
      && (forall j :: 0 <= j < k && b[j].Free? ==>
            RootScore(b, ai, human, j).v < RootScore(b, ai, human, k).v)
  {
    BestMoveNoneIffFull(b, ai, human);
    RootScanChoice(b, RootScores(b, ai, human), 9);
  }

  /**
   * When the AI can win at once, `best_move` takes the lowest free cell that
   * wins at once: such a cell scores 10, every other cell at most 9.
   */
  lemma ImmediateWinChosen(b: seq<Cell>, ai: Mark, human: Mark, k: nat)
    requires |b| == 9 && ai != human
    requires k < 9 && b[k].Free? && CheckWinner(b[k := Taken(ai)]) == Win(ai)
    requires forall j :: 0 <= j < k && b[j].Free? ==> CheckWinner(b[j := Taken(ai)]) != Win(ai)
    ensures RootScore(b, ai, human, k) == Finite(10)
    ensures forall j :: 0 <= j < 9 && b[j].Free? && CheckWinner(b[j := Taken(ai)]) != Win(ai) ==>
      RootScore(b, ai, human, j).v <= 9
    ensures BestMoveOf(b, ai, human) == Some(k)
  {
    forall j | 0 <= j < 9 && b[j].Free?
      ensures CheckWinner(b[j := Taken(ai)]) == Win(ai) ==> RootScore(b, ai, human, j) == Finite(10)
      ensures CheckWinner(b[j := Taken(ai)]) != Win(ai) ==> RootScore(b, ai, human, j).v <= 9
    {
      var c := b[j := Taken(ai)];
      FreeCellsAtMostNine(b);
      PlaceShrinksFreeCells(b, j, ai);
      ValueBounds(c, false, ai, human, 0);
    }
    BestMoveFirstMaximal(b, ai, human);
  }

  /** On board `c`, some free cell lets the human complete a line at once. */
  ghost predicate HumanWinsAtOnce(c: seq<Cell>, human: Mark)
    requires |c| == 9
  {
    exists j :: 0 <= j < 9 && c[j].Free? && CheckWinner(c[j := Taken(human)]) == Win(human)
  }

  /**
   * Cell `k` loses at once: after the AI takes it the game goes on, and the
   * human can complete a line on the next ply.
   */
  ghost predicate LosesAtOnce(b: seq<Cell>, ai: Mark, human: Mark, k: nat)
    requires |b| == 9 && k < 9
  {
    b[k].Free? && CheckWinner(b[k := Taken(ai)]) == Ongoing && HumanWinsAtOnce(b[k := Taken(ai)], human)
  }

  /** With the human to move at depth 0 and a winning reply available, the score is -9. */
  lemma ThreatenedValue(c: seq<Cell>, ai: Mark, human: Mark)
    requires |c| == 9 && ai != human
    requires CheckWinner(c) == Ongoing && HumanWinsAtOnce(c, human)
    ensures Value(c, false, ai, human, 0) == Finite(-9)
  {
    var j :| 0 <= j < 9 && c[j].Free? && CheckWinner(c[j := Taken(human)]) == Win(human);
    NonTerminalValue(c, false, ai, human, 0);
    assert Child(c, false, ai, human, 0, j) == Finite(-9);
    FreeCellsAtMostNine(c);
    ValueBounds(c, false, ai, human, 0);
  }

  /** With the human to move at depth 0 and no winning reply, the score is at least -8. */
  lemma UnthreatenedValue(c: seq<Cell>, ai: Mark, human: Mark)
    requires |c| == 9 && ai != human
    requires CheckWinner(c) == Ongoing && !HumanWinsAtOnce(c, human)
    ensures Value(c, false, ai, human, 0).v >= -8
  {
    NonTerminalValue(c, false, ai, human, 0);
    var j :| 0 <= j < 9 && c[j].Free? &&
      Child(c, false, ai, human, 0, j) == Value(c, false, ai, human, 0);
    var d := c[j := Taken(human)];
    assert Child(c, false, ai, human, 0, j) == Value(d, true, ai, human, 1);
    assert CheckWinner(d) != Win(human);
    TerminalScore(d, true, ai, human, 1);
    if CheckWinner(d) == Ongoing {
      FreeCellsAtMostNine(c);
      PlaceShrinksFreeCells(c, j, human);
      ValueBounds(d, true, ai, human, 1);
    }
  }

  /**
   * `best_move` prefers a delaying move to an immediate loss: when some free
   * cell neither loses at once nor leaves the human already winning, the
   * chosen cell does neither either, and scores at least -8.
   */
  lemma ImmediateLossAvoided(b: seq<Cell>, ai: Mark, human: Mark, k: nat)
    requires |b| == 9 && ai != human && k < 9 && b[k].Free?
    requires CheckWinner(b[k := Taken(ai)]) != Win(human)
    requires !LosesAtOnce(b, ai, human, k)
    ensures BestMoveOf(b, ai, human).Some?
    ensures var m := BestMoveOf(b, ai, human).value;
      m < 9 && b[m].Free? && !LosesAtOnce(b, ai, human, m) &&
      CheckWinner(b[m := Taken(ai)]) != Win(human) && RootScore(b, ai, human, m).v >= -8
  {
    assert !Full(b);
    BestMoveFirstMaximal(b, ai, human);
    var m := BestMoveOf(b, ai, human).value;
    var c := b[k := Taken(ai)];
    if CheckWinner(c) == Ongoing {
      UnthreatenedValue(c, ai, human);
    }
    assert RootScore(b, ai, human, k).v >= -8;
    if LosesAtOnce(b, ai, human, m) {
      ThreatenedValue(b[m := Taken(ai)], ai, human);
      assert false;
    }
  }

  /**
   * The board X X _ / O O _ / _ _ _ with the AI playing X: the immediate win
   * at cell 2 is chosen over blocking or any slower line.
   */
  lemma ImmediateWinExample()
    ensures
      var b := [Taken(X), Taken(X), Free(3), Taken(O), Taken(O), Free(6), Free(7), Free(8), Free(9)];
      BestMoveOf(b, X, O) == Some(2)
  {
    var b := [Taken(X), Taken(X), Free(3), Taken(O), Taken(O), Free(6), Free(7), Free(8), Free(9)];
    assert LineHeldBy(b[2 := Taken(X)], 0, X);
    assert !LineComplete(b[2 := Taken(X)], 1) && !LineComplete(b[2 := Taken(X)], 2);
    SoleWinner(b[2 := Taken(X)], 0, X);
    ImmediateWinChosen(b, X, O, 2);
  }
}
