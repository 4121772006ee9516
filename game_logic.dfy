/** The board of a 3x3 tic-tac-toe game as a value, and the terminal evaluator
    that decides whether a player has completed a line and whether the game is
    over. Cells are stored row-major: the cell at (row, col) has index row*3+col. */
module GameLogic {

  /** The content of a cell (an unsigned byte): 0 is an empty cell, 1 and 2 are the players. */
  type PlayerId = x: int | 0 <= x < 256

  /** The nine cells of a board, row-major. */
  type Grid = g: seq<PlayerId> | |g| == 9 witness [0, 0, 0, 0, 0, 0, 0, 0, 0]

  /** Only 1 and 2 may play; 0 is reserved for the empty cell. */
  predicate IsPlayer(id: int) {
    id == 1 || id == 2
  }

  datatype GameStatus = Won(winner: PlayerId) | Draw | InProgress

  /** The result of playing one cell: the error case carries the cell's current occupant. */
  datatype PlayOutcome = Placed | Occupied(occupant: PlayerId)

  /** A fresh board: nine empty cells. */
  function EmptyGrid(): (g: Grid)
    ensures forall i :: 0 <= i < 9 ==> g[i] == 0
  {
    [0, 0, 0, 0, 0, 0, 0, 0, 0]
  }

  /** Indexing by a (row, column) pair. */
  function AtRowCol(g: Grid, row: nat, col: nat): PlayerId
    requires row * 3 + col < 9
  {
    g[row * 3 + col]
  }

  /** Every index 0..8 is reached by exactly one (row, column) pair with both below 3. */
  lemma RowColCoversEveryCell(g: Grid)
    ensures forall i :: 0 <= i < 9 ==> i / 3 < 3 && i % 3 < 3 && AtRowCol(g, i / 3, i % 3) == g[i]
    ensures forall row: nat, col: nat :: row < 3 && col < 3 ==>
      row * 3 + col < 9 && AtRowCol(g, row, col) == g[row * 3 + col] &&
      (row * 3 + col) / 3 == row && (row * 3 + col) % 3 == col
  {
    forall i | 0 <= i < 9
      ensures i / 3 < 3 && i % 3 < 3 && AtRowCol(g, i / 3, i % 3) == g[i]
    {
      assert i == 0 || i == 1 || i == 2 || i == 3 || i == 4 || i == 5 || i == 6 || i == 7 || i == 8;
    }
    forall row: nat, col: nat | row < 3 && col < 3
      ensures row * 3 + col < 9 && AtRowCol(g, row, col) == g[row * 3 + col]
      ensures (row * 3 + col) / 3 == row && (row * 3 + col) % 3 == col
    {
      assert row == 0 || row == 1 || row == 2;
      assert col == 0 || col == 1 || col == 2;
    }
  }

  /** Playing `id` at `pos`: the cell is written only when it is empty; otherwise
      the board is left as it was and the error names the occupant. */
  function Place(g: Grid, id: PlayerId, pos: nat): (r: (Grid, PlayOutcome))
    requires pos < 9 && IsPlayer(id)
    ensures r.1 == Placed <==> g[pos] == 0
    ensures r.1 == Placed ==> r.0[pos] == id && forall i :: 0 <= i < 9 && i != pos ==> r.0[i] == g[i]
    ensures r.1 != Placed ==> r.1 == Occupied(g[pos]) && r.1.occupant != 0 && r.0 == g
  {
    if g[pos] == 0 then (g[pos := id], Placed) else (g, Occupied(g[pos]))
  }

  /** True when no cell is empty. */
  function NoneEmpty(g: Grid): bool {
    !(exists i :: 0 <= i < 9 && g[i] == 0)
  }

  /** Every listed index is an empty cell of `g`. */
  predicate AllEmpty(g: Grid, ms: seq<nat>) {
    forall i :: 0 <= i < |ms| ==> ms[i] < 9 && g[ms[i]] == 0
  }

  predicate Increasing(s: seq<nat>) {
    forall i, j :: 0 <= i < j < |s| ==> s[i] < s[j]
  }

  /** The indices of the empty cells from index `k` on, in ascending order. */
  function AvailableFrom(g: Grid, k: nat): (r: seq<nat>)
    requires k <= 9
    ensures AllEmpty(g, r)
    ensures forall j :: 0 <= j < |r| ==> k <= r[j]
    ensures Increasing(r)
    decreases 9 - k
  {
    if k == 9 then []
    else if g[k] == 0 then [k] + AvailableFrom(g, k + 1)
    else AvailableFrom(g, k + 1)
  }

  /** There are as many available moves from `k` on as zero cells from `k` on. */
  lemma {:induction false} AvailableFromCount(g: Grid, k: nat)
    requires k <= 9
    ensures |AvailableFrom(g, k)| == multiset(g[k..])[0]
    decreases 9 - k
  {
    if k < 9 {
      assert g[k..] == [g[k]] + g[k + 1..];
      AvailableFromCount(g, k + 1);
    }
  }

  /** The indices of all empty cells, ascending; there are as many as there are zero cells. */
  function AvailableMoves(g: Grid): (r: seq<nat>)
    ensures AllEmpty(g, r)
    ensures Increasing(r)
    ensures |r| == multiset(g)[0]
  {
    assert g[0..] == g;
    AvailableFromCount(g, 0);
    AvailableFrom(g, 0)
  }

  /** Every empty cell from index `k` on is listed. */
  lemma {:induction false} AvailableFromComplete(g: Grid, k: nat, i: nat)
    requires k <= i < 9 && g[i] == 0
    ensures i in AvailableFrom(g, k)
    decreases 9 - k
  {
    if k < i {
      AvailableFromComplete(g, k + 1, i);
    }
  }

  /** Every empty cell is an available move. */
  lemma AvailableMovesComplete(g: Grid)
    ensures forall i :: 0 <= i < 9 && g[i] == 0 ==> i in AvailableMoves(g)
  {
    forall i | 0 <= i < 9 && g[i] == 0
      ensures i in AvailableMoves(g)
    {
      AvailableFromComplete(g, 0, i);
    }
  }

  /** The board is full exactly when no move is available, exactly when no cell holds 0. */
  lemma NoneEmptyIffNoMoves(g: Grid)
    ensures NoneEmpty(g) <==> AvailableMoves(g) == []
    ensures NoneEmpty(g) <==> multiset(g)[0] == 0
  {
    if !NoneEmpty(g) {
      var i :| 0 <= i < 9 && g[i] == 0;
      AvailableFromComplete(g, 0, i);
    }
    if AvailableMoves(g) != [] {
      assert AvailableMoves(g)[0] in AvailableMoves(g);
    }
  }

  /** A successful play removes exactly the played cell from the available moves. */
  lemma PlaceShrinksMoves(g: Grid, id: PlayerId, pos: nat)
    requires pos < 9 && IsPlayer(id) && g[pos] == 0
    ensures |AvailableMoves(Place(g, id, pos).0)| == |AvailableMoves(g)| - 1
    ensures forall i :: i in AvailableMoves(Place(g, id, pos).0) <==> i in AvailableMoves(g) && i != pos
  {
    var next := Place(g, id, pos).0;
    assert next == g[pos := id];
    assert multiset(next) == multiset(g) - multiset{0} + multiset{id};
    AvailableMovesComplete(g);
    AvailableMovesComplete(next);
    forall i | i in AvailableMoves(next)
      ensures i in AvailableMoves(g) && i != pos
    {
      var k :| 0 <= k < |AvailableMoves(next)| && AvailableMoves(next)[k] == i;
    }
    forall i | i in AvailableMoves(g) && i != pos
      ensures i in AvailableMoves(next)
    {
      var k :| 0 <= k < |AvailableMoves(g)| && AvailableMoves(g)[k] == i;
    }
  }

  /** On a full board every play fails and names the occupant. */
  lemma FullBoardRejectsEveryPlay(g: Grid, id: PlayerId)
    requires IsPlayer(id) && NoneEmpty(g)
    ensures forall pos :: 0 <= pos < 9 ==> Place(g, id, pos) == (g, Occupied(g[pos]))
  {
  }

  // ----- Terminal evaluator -----

  /** How a line is traced: `Locate(l, c1, c2)` is the (row, column) of the
      `c2`-th cell of line number `c1` of kind `l`. */
  datatype Locator = Row | Column | Diag1 | Diag2

  function Locate(l: Locator, c1: nat, c2: nat): (nat, nat)
    requires c1 < 3 && c2 < 3
  {
    match l
    case Row => (c1, c2)
    case Column => (c2, c1)
    case Diag1 => (c2, c2)
    case Diag2 => (2 - c2, c2)
  }

  /** 1 when the cell at `rc` belongs to `id`, else 0. */
  function CellValue(g: Grid, id: PlayerId, rc: (nat, nat)): nat
    requires rc.0 < 3 && rc.1 < 3
  {
    if AtRowCol(g, rc.0, rc.1) == id then 1 else 0
  }

  /** The fold that sums the indicators of the first `n` cells of a line. */
  function LineSum(g: Grid, id: PlayerId, l: Locator, c1: nat, n: nat): nat
    requires c1 < 3 && n <= 3
  {
    if n == 0 then 0 else LineSum(g, id, l, c1, n - 1) + CellValue(g, id, Locate(l, c1, n - 1))
  }

  function Full(g: Grid, id: PlayerId, l: Locator, c1: nat): bool
    requires c1 < 3
  {
    LineSum(g, id, l, c1, 3) == 3
  }

  /** Whether some line of the given kind (number 0, 1 or 2) is full. */
  function AnyFull(g: Grid, id: PlayerId, l: Locator): bool {
    Full(g, id, l, 0) || Full(g, id, l, 1) || Full(g, id, l, 2)
  }

  /** Rows, then columns, then the two diagonals (both traced as line number 0). */
  function HasWon(g: Grid, id: PlayerId): bool {
    AnyFull(g, id, Row) || AnyFull(g, id, Column) || Full(g, id, Diag1, 0) || Full(g, id, Diag2, 0)
  }

  /** Game status as seen by player `id`: the other player's lines are not looked at. */
  function CheckWinCondition(g: Grid, id: PlayerId): GameStatus {
    if HasWon(g, id) then Won(id)
    else if NoneEmpty(g) then Draw
    else InProgress
  }

  // ----- Reference definition of a win -----

  /** The eight winning lines as index triples: rows, columns, the two diagonals. */
  const WinningLines: seq<(nat, nat, nat)> :=
    [(0, 1, 2), (3, 4, 5), (6, 7, 8), (0, 3, 6), (1, 4, 7), (2, 5, 8), (0, 4, 8), (2, 4, 6)]

  predicate OwnsLine(g: Grid, id: PlayerId, line: (nat, nat, nat)) {
    line.0 < 9 && line.1 < 9 && line.2 < 9 && g[line.0] == id && g[line.1] == id && g[line.2] == id
  }

  predicate HasCompleteLine(g: Grid, id: PlayerId) {
    exists k :: 0 <= k < 8 && OwnsLine(g, id, WinningLines[k])
  }

  /** A traced line is full exactly when its three cells all belong to `id`. */
  lemma FullIffThreeCells(g: Grid, id: PlayerId, l: Locator, c1: nat)
    requires c1 < 3
    ensures Full(g, id, l, c1) <==>
      CellValue(g, id, Locate(l, c1, 0)) == 1 &&
      CellValue(g, id, Locate(l, c1, 1)) == 1 &&
      CellValue(g, id, Locate(l, c1, 2)) == 1
  {
    assert LineSum(g, id, l, c1, 1) == CellValue(g, id, Locate(l, c1, 0));
    assert LineSum(g, id, l, c1, 2) == CellValue(g, id, Locate(l, c1, 0)) + CellValue(g, id, Locate(l, c1, 1));
    assert LineSum(g, id, l, c1, 3) ==
      CellValue(g, id, Locate(l, c1, 0)) + CellValue(g, id, Locate(l, c1, 1)) + CellValue(g, id, Locate(l, c1, 2));
  }

  /** `HasWon` holds exactly when one of the eight lines is entirely `id`'s. */
  lemma HasWonIffCompleteLine(g: Grid, id: PlayerId)
    ensures HasWon(g, id) <==> HasCompleteLine(g, id)
  {
    FullIffThreeCells(g, id, Row, 0);
    FullIffThreeCells(g, id, Row, 1);
    FullIffThreeCells(g, id, Row, 2);
    FullIffThreeCells(g, id, Column, 0);
    FullIffThreeCells(g, id, Column, 1);
    FullIffThreeCells(g, id, Column, 2);
    FullIffThreeCells(g, id, Diag1, 0);
    FullIffThreeCells(g, id, Diag2, 0);
    if HasWon(g, id) {
      if Full(g, id, Row, 0) { assert OwnsLine(g, id, WinningLines[0]); }
      else if Full(g, id, Row, 1) { assert OwnsLine(g, id, WinningLines[1]); }
      else if Full(g, id, Row, 2) { assert OwnsLine(g, id, WinningLines[2]); }
      else if Full(g, id, Column, 0) { assert OwnsLine(g, id, WinningLines[3]); }
      else if Full(g, id, Column, 1) { assert OwnsLine(g, id, WinningLines[4]); }
      else if Full(g, id, Column, 2) { assert OwnsLine(g, id, WinningLines[5]); }
      else if Full(g, id, Diag1, 0) { assert OwnsLine(g, id, WinningLines[6]); }
      else { assert OwnsLine(g, id, WinningLines[7]); }
    }
    if HasCompleteLine(g, id) {
      var k :| 0 <= k < 8 && OwnsLine(g, id, WinningLines[k]);
      assert k == 0 || k == 1 || k == 2 || k == 3 || k == 4 || k == 5 || k == 6 || k == 7;
    }
  }

  /** The status classifies the position: a win for `id` first, then a full board, then neither. */
  lemma CheckWinConditionClassifies(g: Grid, id: PlayerId)
    ensures CheckWinCondition(g, id) == Won(id) <==> HasCompleteLine(g, id)
    ensures CheckWinCondition(g, id) == Draw <==> !HasCompleteLine(g, id) && AvailableMoves(g) == []
    ensures CheckWinCondition(g, id) == InProgress <==> !HasCompleteLine(g, id) && AvailableMoves(g) != []
    ensures CheckWinCondition(g, id).Won? ==> CheckWinCondition(g, id).winner == id
  {
    HasWonIffCompleteLine(g, id);
    NoneEmptyIffNoMoves(g);
  }

  /** The status depends only on which cells are `id`'s and which are empty:
      how the other cells are filled is never inspected. */
  lemma CheckWinConditionIgnoresOtherCells(g: Grid, h: Grid, id: PlayerId)
    requires forall i :: 0 <= i < 9 ==> (g[i] == id <==> h[i] == id) && (g[i] == 0 <==> h[i] == 0)
    ensures CheckWinCondition(g, id) == CheckWinCondition(h, id)
  {
    HasWonIffCompleteLine(g, id);
    HasWonIffCompleteLine(h, id);
    assert forall k :: 0 <= k < 8 ==> (OwnsLine(g, id, WinningLines[k]) <==> OwnsLine(h, id, WinningLines[k]));
  }
}
