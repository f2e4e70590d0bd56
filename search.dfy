/**
 * The minimax search: `minimax`, which explores every continuation by writing
 * a mark into a free cell and restoring it afterwards, and `best_move`, the
 * root driver that keeps the first cell of strictly greater score.
 *
 * Each method works in place on an `array<Cell>` and is proved equal to a
 * pure function of the board it started from (Value, BestMoveOf).
 */
module Search {
  import opened Evaluator

  /**
   * A score as the search computes it: an integer, or one of the infinities
   * that start the running maximum and minimum.
   */
  datatype Score = NegInf | Finite(v: int) | PosInf

  /** `a > b` on scores. */
  predicate Above(a: Score, b: Score)
  {
    match a
    case NegInf => false
    case PosInf => !b.PosInf?
    case Finite(x) => b.NegInf? || (b.Finite? && x > b.v)
  }

  /** max(a, b): the first argument unless the second is strictly greater. */
  function Max(a: Score, b: Score): Score
  {
    if Above(b, a) then b else a
  }

  /** min(a, b): the first argument unless the second is strictly smaller. */
  function Min(a: Score, b: Score): Score
  {
    if Above(a, b) then b else a
  }

  /** The positions of the free cells; it shrinks with every move. */
  ghost function FreeCells(b: seq<Cell>): set<int>
  {
    set i | 0 <= i < |b| && b[i].Free?
  }

  /** The mark written by the side to move. */
  function Mover(isMax: bool, ai: Mark, human: Mark): Mark
  {
    if isMax then ai else human
  }

  /**
   * The value `minimax(b, isMax, ai, human, depth)` returns. Terminal boards
   * score 10 - depth for the AI, depth - 10 for the human and 0 for a draw;
   * otherwise the maximum (or minimum) over the free cells of the child values.
   */
  function Value(b: seq<Cell>, isMax: bool, ai: Mark, human: Mark, depth: int): (r: Score)
    requires |b| == 9
    ensures ai != human ==> r.Finite?
    decreases FreeCells(b), 2, 0
  {
    match CheckWinner(b)
    case Win(m) =>
      if m == ai then Finite(10 - depth)
      else if m == human then Finite(depth - 10)
      else BestUpTo(b, isMax, ai, human, depth, 9)
    case Draw => Finite(0)
    case Ongoing => BestUpTo(b, isMax, ai, human, depth, 9)
  }

  /**
   * The running best after the loop has looked at cells 0..n-1: starting
   * from -inf (maximizing) or +inf (minimizing), each free cell's child
   * value is folded in with max (or min).
   */
  function BestUpTo(b: seq<Cell>, isMax: bool, ai: Mark, human: Mark, depth: int, n: nat): (r: Score)
    requires |b| == 9 && n <= 9
    ensures ai != human ==>
      if exists j :: 0 <= j < n && b[j].Free? then r.Finite? else r == (if isMax then NegInf else PosInf)
    decreases FreeCells(b), 1, n
  {
    if n == 0 then (if isMax then NegInf else PosInf)
    else
      var acc := BestUpTo(b, isMax, ai, human, depth, n - 1);
      if b[n - 1].Free? then
        var s := Child(b, isMax, ai, human, depth, n - 1);
        if isMax then Max(acc, s) else Min(acc, s)
      else acc
  }

  /** The value of the child reached by the side to move taking free cell `i`. */
  function Child(b: seq<Cell>, isMax: bool, ai: Mark, human: Mark, depth: int, i: nat): (r: Score)
    requires |b| == 9 && i < 9 && b[i].Free?
    ensures ai != human ==> r.Finite?
    decreases FreeCells(b), 0, 0
  {
    var b' := b[i := Taken(Mover(isMax, ai, human))];
    assert i in FreeCells(b) && i !in FreeCells(b');
    Value(b', !isMax, ai, human, depth + 1)
  }

  /**
   * The score `best_move` gives cell `i`: the AI's mark is placed first and
   * the search then starts at depth 0 with the human to move.
   */
  function RootScore(b: seq<Cell>, ai: Mark, human: Mark, i: nat): (r: Score)
    requires |b| == 9 && i < 9 && b[i].Free?
    ensures ai != human ==> r.Finite?
  {
    Value(b[i := Taken(ai)], false, ai, human, 0)
  }

  /**
   * The root score of every free cell, in board order. `best_move` never
   * scores an occupied cell; its entry here is -inf and is never consulted.
   */
  function RootScores(b: seq<Cell>, ai: Mark, human: Mark): (s: seq<Score>)
    requires |b| == 9
  {
    seq(9, i requires 0 <= i < 9 => if b[i].Free? then RootScore(b, ai, human, i) else NegInf)
  }

  /**
   * The pair (best_score, move) after the root loop has looked at cells
   * 0..n-1 with the given scores: a free cell replaces the current choice
   * only when its score is strictly greater.
   */
  function RootScan(b: seq<Cell>, scores: seq<Score>, n: nat): (Score, Option<nat>)
    requires |b| == 9 && |scores| == 9 && n <= 9
  {
    if n == 0 then (NegInf, None)
    else
      var (best, move) := RootScan(b, scores, n - 1);
      if b[n - 1].Free? && Above(scores[n - 1], best)
      then (scores[n - 1], Some(n - 1))
      else (best, move)
  }

  /** The cell `best_move` returns, or None. */
  function BestMoveOf(b: seq<Cell>, ai: Mark, human: Mark): Option<nat>
    requires |b| == 9
  {
    RootScan(b, RootScores(b, ai, human), 9).1
  }

  /**
   * minimax: mutates `board` while it explores and leaves it exactly as it
   * found it, digits of free cells included.
   */
  method Minimax(board: array<Cell>, isMax: bool, ai: Mark, human: Mark, depth: int) returns (score: Score)
    requires board.Length == 9
    modifies board
    ensures board[..] == old(board[..])
    ensures score == Value(old(board[..]), isMax, ai, human, depth)
    decreases FreeCells(board[..])
  {
    ghost var b0 := board[..];
    var result := CheckWinner(board[..]);
    if result == Win(ai) {
      return Finite(10 - depth);
    } else if result == Win(human) {
      return Finite(depth - 10);
    } else if result == Draw {
      return Finite(0);
    }

    if isMax {
      score := NegInf;
      for i := 0 to 9
        invariant board[..] == b0
        invariant score == BestUpTo(b0, true, ai, human, depth, i)
      {
        if board[i].Free? {
          var saved := board[i];
          board[i] := Taken(ai);
          assert i in FreeCells(b0) && i !in FreeCells(board[..]);
          var s := Minimax(board, false, ai, human, depth + 1);
          board[i] := saved;
          assert board[..] == b0;
          score := Max(score, s);
        }
      }
    } else {
      score := PosInf;
      for i := 0 to 9
        invariant board[..] == b0
        invariant score == BestUpTo(b0, false, ai, human, depth, i)
      {
        if board[i].Free? {
          var saved := board[i];
          board[i] := Taken(human);
          assert i in FreeCells(b0) && i !in FreeCells(board[..]);
          var s := Minimax(board, true, ai, human, depth + 1);
          board[i] := saved;
          assert board[..] == b0;
          score := Min(score, s);
        }
      }
    }
  }

  /**
   * best_move: scores every free cell in ascending order and keeps the first
   * one whose score is strictly greater than the best so far; the board is
   * left as it was.
   */
  method BestMove(board: array<Cell>, ai: Mark, human: Mark) returns (move: Option<nat>)
    requires board.Length == 9
    modifies board
    ensures board[..] == old(board[..])
    ensures move == BestMoveOf(old(board[..]), ai, human)
  {
    ghost var b0 := board[..];
    var bestScore := NegInf;
    move := None;
    for i := 0 to 9
      invariant board[..] == b0
      invariant (bestScore, move) == RootScan(b0, RootScores(b0, ai, human), i)
    {
      if board[i].Free? {
        var saved := board[i];
        board[i] := Taken(ai);
        var score := Minimax(board, false, ai, human, 0);
        board[i] := saved;
        assert board[..] == b0;
        if Above(score, bestScore) {
          bestScore := score;
          move := Some(i);
        }
      }
    }
  }
}
