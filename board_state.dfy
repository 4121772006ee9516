/** The mutable board: nine cells in an array that `Play` writes in place. */
module BoardState {
  import opened GameLogic

  class Board {
    var cells: array<PlayerId>

    ghost predicate Valid()
      reads this
    {
      cells.Length == 9
    }

    /** The board's cells as a value. */
    function Contents(): Grid
      reads this, cells
      requires Valid()
    {
      cells[..]
    }

    /** A new board: all nine cells empty. */
    constructor ()
      ensures Valid() && fresh(cells)
      ensures Contents() == EmptyGrid()
    {
      var a := new PlayerId[9](_ => 0);
      assert a[..] == EmptyGrid();
      cells := a;
    }

    /** A board holding the given cells. */
    constructor FromGrid(g: Grid)
      ensures Valid() && fresh(cells)
      ensures Contents() == g
    {
      var a := new PlayerId[9](i requires 0 <= i < 9 => g[i]);
      assert a[..] == g;
      cells := a;
    }

    /** Indexing by position; the position must be on the board. */
    function At(pos: nat): (v: PlayerId)
      reads this, cells
      requires Valid() && pos < 9
      ensures v == Contents()[pos]
    {
      cells[pos]
    }

    /** Indexing by (row, column), which reads position row*3+column. */
    function AtRowCol(row: nat, col: nat): (v: PlayerId)
      reads this, cells
      requires Valid() && row * 3 + col < 9
      ensures v == GameLogic.AtRowCol(Contents(), row, col)
    {
      At(row * 3 + col)
    }

    /** Plays `id` at `pos` when that cell is empty; otherwise reports the
        occupant and changes nothing. */
    method Play(id: PlayerId, pos: nat) returns (outcome: PlayOutcome)
      requires Valid() && pos < 9 && IsPlayer(id)
      modifies cells
      ensures Valid()
      ensures (Contents(), outcome) == Place(old(Contents()), id, pos)
    {
      if cells[pos] == 0 {
        cells[pos] := id;
        outcome := Placed;
      } else {
        outcome := Occupied(cells[pos]);
      }
    }

    /** A deep copy: a new board over a new array. */
    method Clone() returns (copy: Board)
      requires Valid()
      ensures fresh(copy) && fresh(copy.cells)
      ensures copy.Valid() && copy.Contents() == Contents()
    {
      copy := new Board.FromGrid(Contents());
    }
  }

  /** Playing positions 0..8 in turn, alternating players 1 and 2, on a new
      board: every play succeeds and the board ends as 1,2,1,2,1,2,1,2,1. */
  method FillInOrder() returns (allPlaced: bool, final: Grid)
    ensures allPlaced
    ensures final == [1, 2, 1, 2, 1, 2, 1, 2, 1]
  {
    var b := new Board();
    allPlaced := true;
    var i := 0;
    while i < 9
      invariant 0 <= i <= 9
      invariant b.Valid() && fresh(b.cells) && allPlaced
      invariant forall k :: 0 <= k < i ==> b.Contents()[k] == k % 2 + 1
      invariant forall k :: i <= k < 9 ==> b.Contents()[k] == 0
    {
      var outcome := b.Play(i % 2 + 1, i);
      allPlaced := allPlaced && outcome == Placed;
      i := i + 1;
    }
    final := b.Contents();
  }

  /** On the full board 1,1,1,2,1,1,2,1,1 every position is refused for player 1,
      each time naming the occupant, and the board never changes. */
  method PlayEveryCellOfFullBoard() returns (outcomes: seq<PlayOutcome>, final: Grid)
    ensures |outcomes| == 9
    ensures forall k :: 0 <= k < 9 ==> outcomes[k] == Occupied([1, 1, 1, 2, 1, 1, 2, 1, 1][k])
    ensures final == [1, 1, 1, 2, 1, 1, 2, 1, 1]
  {
    var start: Grid := [1, 1, 1, 2, 1, 1, 2, 1, 1];
    var b := new Board.FromGrid(start);
    outcomes := [];
    var i := 0;
    while i < 9
      invariant 0 <= i <= 9
      invariant b.Valid() && fresh(b.cells) && b.Contents() == start
      invariant |outcomes| == i
      invariant forall k :: 0 <= k < i ==> outcomes[k] == Occupied(start[k])
    {
      var outcome := b.Play(1, i);
      outcomes := outcomes + [outcome];
      i := i + 1;
    }
    final := b.Contents();
  }
}
