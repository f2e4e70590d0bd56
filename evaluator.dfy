/**
 * The outcome evaluator of the tic-tac-toe game: the board, its cells and
 * `check_winner`, which scans the eight winning lines in a fixed order.
 */
module Evaluator {

  datatype Option<T> = None | Some(value: T)

  /** The two marks a player can place. */
  datatype Mark = X | O

  /**
   * A cell either holds a mark or is free. A free cell keeps the digit it
   * shows (the game labels the cells 1..9); the search treats every cell
   * that is not a mark as free and must put that digit back exactly.
   */
  datatype Cell = Taken(mark: Mark) | Free(digit: int)

  /** What `check_winner` reports: a winning mark, a draw, or no result yet. */
  datatype Outcome = Win(winner: Mark) | Draw | Ongoing

  /** A board position, 0..8 in row-major order. */
  type Pos = i: int | 0 <= i < 9

  /** The eight winning lines, in the order they are scanned: rows, columns, diagonals. */
  const Lines: seq<(Pos, Pos, Pos)> :=
    [(0, 1, 2), (3, 4, 5), (6, 7, 8),
     (0, 3, 6), (1, 4, 7), (2, 5, 8),
     (0, 4, 8), (2, 4, 6)]

  /** Line `k` holds the same mark in all three of its cells. */
  predicate LineComplete(b: seq<Cell>, k: nat)
    requires |b| == 9 && k < |Lines|
  {
    var (p, q, r) := Lines[k];
    b[p] == b[q] && b[q] == b[r] && b[p].Taken?
  }

  /** Line `k` holds mark `m` in all three of its cells. */
  predicate LineHeldBy(b: seq<Cell>, k: nat, m: Mark)
    requires |b| == 9 && k < |Lines|
  {
    var (p, q, r) := Lines[k];
    b[p] == Taken(m) && b[q] == Taken(m) && b[r] == Taken(m)
  }

  predicate HasCompleteLine(b: seq<Cell>)
    requires |b| == 9
  {
    exists k :: 0 <= k < |Lines| && LineComplete(b, k)
  }

  /** Every cell holds a mark. */
  predicate Full(b: seq<Cell>)
  {
    forall i :: 0 <= i < |b| ==> b[i].Taken?
  }

  /** The index of the first complete line at or after `k`, scanning in list order. */
  function FirstCompleteLine(b: seq<Cell>, k: nat): (r: Option<nat>)
    requires |b| == 9 && k <= |Lines|
    ensures r.Some? ==> k <= r.value < |Lines| && LineComplete(b, r.value)
    ensures r.Some? ==> forall j :: k <= j < r.value ==> !LineComplete(b, j)
    ensures r.None? <==> forall j :: k <= j < |Lines| ==> !LineComplete(b, j)
    decreases |Lines| - k
  {
    if k == |Lines| then None
    else if LineComplete(b, k) then Some(k)
    else FirstCompleteLine(b, k + 1)
  }

  /**
   * check_winner: the mark of the first complete line in list order; otherwise
   * a draw when every cell holds a mark; otherwise no result yet.
   */
  function CheckWinner(b: seq<Cell>): (r: Outcome)
    requires |b| == 9
    ensures r.Win? <==> HasCompleteLine(b)
    ensures r.Win? ==>
      exists k :: 0 <= k < |Lines| && LineHeldBy(b, k, r.winner) &&
        forall j :: 0 <= j < k ==> !LineComplete(b, j)
    ensures r == Draw <==> !HasCompleteLine(b) && Full(b)
    ensures r == Ongoing <==> !HasCompleteLine(b) && exists i :: 0 <= i < 9 && b[i].Free?
  {
    match FirstCompleteLine(b, 0)
    case Some(k) =>
      assert LineHeldBy(b, k, b[Lines[k].0].mark);
      Win(b[Lines[k].0].mark)
    case None => if Full(b) then Draw else Ongoing
  }

  /**
   * When some line is held by `m` and every complete line is held by `m`,
   * the evaluator reports a win for `m`, whichever line it meets first.
   */
  lemma SoleWinner(b: seq<Cell>, k: nat, m: Mark)
    requires |b| == 9 && k < |Lines|
    requires LineHeldBy(b, k, m)
    requires forall j :: 0 <= j < |Lines| && LineComplete(b, j) ==> LineHeldBy(b, j, m)
    ensures CheckWinner(b) == Win(m)
  {
  }
}
