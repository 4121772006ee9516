/** Concrete positions on which the board, the evaluator and the search are
    pinned down, each derived from the general lemmas of the other modules. */
module Scenarios {
  import opened GameLogic
  import opened BoardState
  import opened Search
  import opened Computer

  /** The board 1,0,1,1,0,2,2,0,0 has exactly the moves 1, 4, 7 and 8. */
  lemma {:induction false} FourMovesAvailable()
    ensures AvailableMoves([1, 0, 1, 1, 0, 2, 2, 0, 0]) == [1, 4, 7, 8]
  {
    var g: Grid := [1, 0, 1, 1, 0, 2, 2, 0, 0];
    assert AvailableFrom(g, 9) == [];
    assert AvailableFrom(g, 7) == [7, 8];
    assert AvailableFrom(g, 4) == [4, 7, 8];
    assert AvailableFrom(g, 1) == [1, 4, 7, 8];
  }

  /** A board with empty cells is not full; a board of nine 1s is. */
  lemma NoneEmptyExamples()
    ensures !NoneEmpty([0, 1, 1, 1, 0, 1, 0, 0, 0])
    ensures NoneEmpty([1, 1, 1, 1, 1, 1, 1, 1, 1])
  {
    var g: Grid := [0, 1, 1, 1, 0, 1, 0, 0, 0];
    assert g[0] == 0;
  }

  /** Each of the eight lines, filled by either player, is a win for that player. */
  lemma {:induction false} EveryLineWins(i: PlayerId)
    requires IsPlayer(i)
    ensures HasWon([i, i, i, 0, 0, 0, 0, 0, 0], i)
    ensures HasWon([0, 0, 0, i, i, i, 0, 0, 0], i)
    ensures HasWon([0, 0, 0, 0, 0, 0, i, i, i], i)
    ensures HasWon([i, 0, 0, i, 0, 0, i, 0, 0], i)
    ensures HasWon([0, i, 0, 0, i, 0, 0, i, 0], i)
    ensures HasWon([0, 0, i, 0, 0, i, 0, 0, i], i)
    ensures HasWon([0, 0, i, 0, i, 0, i, 0, 0], i)
    ensures HasWon([i, 0, 0, 0, i, 0, 0, 0, i], i)
  {
    LineWins([i, i, i, 0, 0, 0, 0, 0, 0], i, 0);
    LineWins([0, 0, 0, i, i, i, 0, 0, 0], i, 1);
    LineWins([0, 0, 0, 0, 0, 0, i, i, i], i, 2);
    LineWins([i, 0, 0, i, 0, 0, i, 0, 0], i, 3);
    LineWins([0, i, 0, 0, i, 0, 0, i, 0], i, 4);
    LineWins([0, 0, i, 0, 0, i, 0, 0, i], i, 5);
    LineWins([0, 0, i, 0, i, 0, i, 0, 0], i, 7);
    LineWins([i, 0, 0, 0, i, 0, 0, 0, i], i, 6);
  }

  /** A board on which `i` owns winning line number `line` is a win for `i`. */
  lemma LineWins(g: Grid, i: PlayerId, line: nat)
    requires line < 8 && OwnsLine(g, i, WinningLines[line])
    ensures HasWon(g, i)
  {
    HasWonIffCompleteLine(g, i);
  }

  /** Three cells that do not form a line, or four that contain none, are no win. */
  lemma {:induction false} NearMissesDoNotWin(i: PlayerId)
    requires IsPlayer(i)
    ensures !HasWon([0, i, 0, 0, i, 0, 0, 0, i], i)
    ensures !HasWon([0, i, 0, 0, i, 0, i, 0, 0], i)
    ensures !HasWon([0, i, 0, 0, i, 0, i, 0, i], i)
  {
    var boards: seq<Grid> := [[0, i, 0, 0, i, 0, 0, 0, i], [0, i, 0, 0, i, 0, i, 0, 0], [0, i, 0, 0, i, 0, i, 0, i]];
    forall k | 0 <= k < 3
      ensures !HasWon(boards[k], i)
    {
      HasWonIffCompleteLine(boards[k], i);
      forall n | 0 <= n < 8
        ensures !OwnsLine(boards[k], i, WinningLines[n])
      {
        assert boards[k][0] == 0 && boards[k][2] == 0 && boards[k][3] == 0 && boards[k][5] == 0;
      }
    }
    assert !HasWon(boards[0], i) && !HasWon(boards[1], i) && !HasWon(boards[2], i);
  }

  // The search scenarios take the board as a parameter equal to the test's board, and
  // get its moves from lemmas about the literal alone: a search function applied to a
  // literal board would be unfolded by the verifier over the whole game tree.

  /** With one empty cell left, which wins, the search returns that cell alone with score 100. */
  lemma {:induction false} LastCellIsTheOnlyBestMove(g: Grid, depth: nat)
    requires g == [1, 2, 1, 2, 0, 2, 1, 2, 1]
    ensures BestMovesValue(g, 1, depth) == (100, [Candidate(4, depth + 1)])
  {
    LastCellBoard();
    OnlyMoveWins(g, depth, 4, 6);
  }

  lemma {:induction false} LastCellBoard()
    ensures AvailableMoves([1, 2, 1, 2, 0, 2, 1, 2, 1]) == [4]
  {
  }

  /** When the only empty cell completes line number `line` for player 1, the
      search keeps that cell alone, scoring 100 at once. */
  lemma {:induction false} OnlyMoveWins(g: Grid, depth: nat, m: nat, line: nat)
    requires m < 9 && AvailableMoves(g) == [m] && line < 8
    requires OwnsLine(g[m := 1], 1, WinningLines[line])
    ensures BestMovesValue(g, 1, depth) == (100, [Candidate(m, depth + 1)])
  {
    assert AllEmpty(g, [m]) && [m][0] == m;
    WinsAt(g, m, line, depth);
    ScanOfWins(g, depth, [m]);
    assert AllAt([m], depth + 1) == [Candidate(m, depth + 1)];
  }

  /** Every empty cell of 1,1,0,1,1,0,0,1,0 wins at once for player 1, so the
      search scores 100 and keeps all four cells in order, each resolving at once. */
  lemma {:induction false} EveryWinningCellIsKept(g: Grid, depth: nat)
    requires g == [1, 1, 0, 1, 1, 0, 0, 1, 0]
    ensures BestMovesValue(g, 1, depth) ==
      (100, [Candidate(2, depth + 1), Candidate(5, depth + 1), Candidate(6, depth + 1), Candidate(8, depth + 1)])
  {
    FourWinsBoard();
    FourWinsLines(g, [2, 5, 6, 8], [0, 1, 3, 6]);
    FourMovesWin(g, depth, [2, 5, 6, 8], [0, 1, 3, 6]);
  }

  /** Each empty cell of that board completes a line for player 1. */
  lemma {:induction false} FourWinsLines(g: Grid, ms: seq<nat>, lines: seq<nat>)
    requires g == [1, 1, 0, 1, 1, 0, 0, 1, 0] && ms == [2, 5, 6, 8] && lines == [0, 1, 3, 6]
    ensures forall k :: 0 <= k < 4 ==> lines[k] < 8 && OwnsLine(g[ms[k] := 1], 1, WinningLines[lines[k]])
  {
    forall k | 0 <= k < 4
      ensures lines[k] < 8 && OwnsLine(g[ms[k] := 1], 1, WinningLines[lines[k]])
    {
      assert k == 0 || k == 1 || k == 2 || k == 3;
    }
  }

  lemma {:induction false} FourWinsBoard()
    ensures AvailableMoves([1, 1, 0, 1, 1, 0, 0, 1, 0]) == [2, 5, 6, 8]
  {
  }

  /** When each of the four empty cells `ms[k]` completes line number `lines[k]`
      for player 1, the search keeps all four, in order, scoring 100 at once. */
  lemma {:induction false} FourMovesWin(g: Grid, depth: nat, ms: seq<nat>, lines: seq<nat>)
    requires AvailableMoves(g) == ms && |ms| == 4 && |lines| == 4
    requires forall k :: 0 <= k < 4 ==> lines[k] < 8 && OwnsLine(g[ms[k] := 1], 1, WinningLines[lines[k]])
    ensures var d := depth + 1;
      BestMovesValue(g, 1, depth) == (100, [Candidate(ms[0], d), Candidate(ms[1], d), Candidate(ms[2], d), Candidate(ms[3], d)])
  {
    forall k | 0 <= k < 4
      ensures MinMaxValue(g, 1, ms[k], depth + 1) == (100, depth + 1)
    {
      WinsAt(g, ms[k], lines[k], depth);
    }
    ScanOfWins(g, depth, ms);
    var d := depth + 1;
    assert AllAt(ms, d) == [Candidate(ms[0], d), Candidate(ms[1], d), Candidate(ms[2], d), Candidate(ms[3], d)];
  }

  /** The candidate list that keeps every move of `ms`, each resolving at `d`. */
  function AllAt(ms: seq<nat>, d: nat): (r: seq<Candidate>)
    ensures |r| == |ms|
    ensures forall i :: 0 <= i < |ms| ==> r[i] == Candidate(ms[i], d)
  {
    if ms == [] then [] else AllAt(ms[..|ms| - 1], d) + [Candidate(ms[|ms| - 1], d)]
  }

  /** When every available move of player 1 wins at once, the search scores 100
      and keeps all of them, in order. */
  lemma {:induction false} ScanOfWins(g: Grid, depth: nat, ms: seq<nat>)
    requires AvailableMoves(g) == ms && ms != []
    requires forall i :: 0 <= i < |ms| ==> MinMaxValue(g, 1, ms[i], depth + 1) == (100, depth + 1)
    ensures BestMovesValue(g, 1, depth) == (100, AllAt(ms, depth + 1))
  {
    var os := Outcomes(g, 1, depth, ms);
    forall i | 0 <= i < |ms|
      ensures os[i] == Scored(ms[i], 100, depth + 1)
    {
      OutcomeAt(g, 1, depth, ms, i);
    }
    BestMovesIsScan(g, 1, depth);
    ScanAllWins(os, ms, depth + 1);
  }

  /** Scanning moves that all score 100 keeps every one of them. */
  lemma {:induction false} ScanAllWins(os: seq<Scored>, ms: seq<nat>, d: nat)
    requires |os| == |ms| && ms != []
    requires forall i :: 0 <= i < |ms| ==> os[i] == Scored(ms[i], 100, d)
    ensures Scan(os) == (100, AllAt(ms, d))
    decreases |ms|
  {
    var init, last := os[..|os| - 1], os[|os| - 1];
    assert os == init + [last];
    ScanStep(init, last);
    if |ms| > 1 {
      ScanAllWins(init, ms[..|ms| - 1], d);
    } else {
      assert init == [];
      assert AllAt(ms, d) == [Candidate(ms[0], d)];
    }
  }

  /** Player 1 playing the empty cell `pos` of `g` completes winning line number `line`,
      so that move scores 100 at the depth it is made. */
  lemma {:induction false} WinsAt(g: Grid, pos: nat, line: nat, depth: nat)
    requires pos < 9 && g[pos] == 0 && line < 8
    requires OwnsLine(g[pos := 1], 1, WinningLines[line])
    ensures MinMaxValue(g, 1, pos, depth + 1) == (100, depth + 1)
  {
    HasWonIffCompleteLine(Place(g, 1, pos).0, 1);
    ImmediateResolution(g, 1, pos, depth + 1);
  }

  /** On the three positions where the source expects an immediate win for
      player 1, the computer's move wins. */
  lemma {:induction false} ComputerTakesTheWin(g: Grid)
    requires g == [1, 1, 0, 2, 0, 0, 2, 0, 0] || g == [1, 1, 0, 2, 1, 0, 2, 0, 0] || g == [0, 0, 0, 2, 0, 1, 2, 0, 1]
    ensures AvailableMoves(g) != []
    ensures HasWon(Place(g, 1, FirstBestMove(g, 1, 0)).0, 1)
  {
    if g[5] == 1 {
      WinningCellWins(g, 2, 5);
    } else {
      WinningCellWins(g, 2, 0);
    }
  }

  /** The computer's move for player 1 wins when the empty cell `pos` completes line number `line`. */
  lemma {:induction false} WinningCellWins(g: Grid, pos: nat, line: nat)
    requires pos < 9 && g[pos] == 0 && line < 8
    requires OwnsLine(g[pos := 1], 1, WinningLines[line])
    ensures AvailableMoves(g) != []
    ensures HasWon(Place(g, 1, FirstBestMove(g, 1, 0)).0, 1)
  {
    HasWonIffCompleteLine(Place(g, 1, pos).0, 1);
    FirstBestMoveWinsImmediately(g, 1, 0, pos);
  }

  // ----- A position two moves from the end: the computer blocks a loss -----

  /** On 1,2,2,2,1,0,1,1,0 player 2 has cells 5 and 8. Playing 5 lets player 1
      complete the bottom row with 8 (a loss two levels down); playing 8 leaves
      cell 5, which fills the board without a line (a draw). The search scores
      the draw best and keeps cell 8 alone. */
  lemma {:induction false} BlocksTheLoss(g: Grid, depth: nat)
    requires g == [1, 2, 2, 2, 1, 0, 1, 1, 0]
    ensures AvailableMoves(g) == [5, 8]
    ensures BestMovesValue(g, 2, depth) == (0, [Candidate(8, depth + 2)])
  {
    BlocksTheLossBoard(g);
    LastReply(g, 2, 5, 8, depth + 1);
    LastReply(g, 2, 8, 5, depth + 1);
    SecondMoveBetter(g, 2, depth, 5, 8);
  }

  /** The computer playing 2 on that board, searching from depth 0, picks cell 8. */
  lemma {:induction false} ComputerBlocksTheLoss(g: Grid)
    requires g == [1, 2, 2, 2, 1, 0, 1, 1, 0]
    ensures AvailableMoves(g) != []
    ensures FirstBestMove(g, 2, 0) == 8
  {
    BlocksTheLoss(g, 0);
    SortSingleton(Candidate(8, 2));
  }

  /** The facts about the board and the boards reached from it that the search needs. */
  lemma {:induction false} BlocksTheLossBoard(g: Grid)
    requires g == [1, 2, 2, 2, 1, 0, 1, 1, 0]
    ensures AvailableMoves(g) == [5, 8]
    ensures !HasWon(g[5 := 2], 2) && AvailableMoves(g[5 := 2]) == [8] && HasWon(g[5 := 2][8 := 1], 1)
    ensures !HasWon(g[8 := 2], 2) && AvailableMoves(g[8 := 2]) == [5] && !HasWon(g[8 := 2][5 := 1], 1)
  {
    BlocksTheLossMoves();
    AfterFive(g, g[5 := 2], g[5 := 2][8 := 1]);
    AfterEight(g, g[8 := 2], g[8 := 2][5 := 1]);
  }

  lemma {:induction false} AfterFive(g: Grid, next: Grid, after: Grid)
    requires g == [1, 2, 2, 2, 1, 0, 1, 1, 0] && next == g[5 := 2] && after == next[8 := 1]
    ensures !HasWon(next, 2) && AvailableMoves(next) == [8] && HasWon(after, 1)
  {
    assert next == [1, 2, 2, 2, 1, 2, 1, 1, 0];
    assert after == [1, 2, 2, 2, 1, 2, 1, 1, 1];
    BlocksTheLossMovesAfter5();
    BlocksTheLossLine5();
    BlocksTheLossLine58();
  }

  lemma {:induction false} AfterEight(g: Grid, next: Grid, after: Grid)
    requires g == [1, 2, 2, 2, 1, 0, 1, 1, 0] && next == g[8 := 2] && after == next[5 := 1]
    ensures !HasWon(next, 2) && AvailableMoves(next) == [5] && !HasWon(after, 1)
  {
    assert next == [1, 2, 2, 2, 1, 0, 1, 1, 2];
    assert after == [1, 2, 2, 2, 1, 1, 1, 1, 2];
    BlocksTheLossMovesAfter8();
    BlocksTheLossLine8();
    BlocksTheLossLine85(after);
  }

  lemma {:induction false} BlocksTheLossMoves()
    ensures AvailableMoves([1, 2, 2, 2, 1, 0, 1, 1, 0]) == [5, 8]
  {
  }

  lemma {:induction false} BlocksTheLossMovesAfter5()
    ensures AvailableMoves([1, 2, 2, 2, 1, 2, 1, 1, 0]) == [8]
  {
  }

  lemma {:induction false} BlocksTheLossMovesAfter8()
    ensures AvailableMoves([1, 2, 2, 2, 1, 0, 1, 1, 2]) == [5]
  {
  }

  lemma {:induction false} BlocksTheLossLine5()
    ensures !HasWon([1, 2, 2, 2, 1, 2, 1, 1, 0], 2)
  {
  }

  lemma {:induction false} BlocksTheLossLine58()
    ensures HasWon([1, 2, 2, 2, 1, 2, 1, 1, 1], 1)
  {
  }

  lemma {:induction false} BlocksTheLossLine8()
    ensures !HasWon([1, 2, 2, 2, 1, 0, 1, 1, 2], 2)
  {
  }

  lemma {:induction false} BlocksTheLossLine85(g: Grid)
    requires g == [1, 2, 2, 2, 1, 1, 1, 1, 2]
    ensures !HasWon(g, 1)
  {
    HasWonIffCompleteLine(g, 1);
    forall n | 0 <= n < 8
      ensures !OwnsLine(g, 1, WinningLines[n])
    {
      assert g[1] == 2 && g[2] == 2 && g[3] == 2 && g[8] == 2;
    }
  }

  /** A move that does not win and leaves exactly one empty cell, `reply`, scores
      -100 when the opponent's reply wins and 0 otherwise (the reply fills the
      board), and resolves one level deeper. */
  lemma {:induction false} LastReply(g: Grid, player: PlayerId, pos: nat, reply: nat, depth: nat)
    requires IsPlayer(player) && pos < 9 && g[pos] == 0 && reply < 9
    requires !HasWon(g[pos := player], player) && AvailableMoves(g[pos := player]) == [reply]
    ensures MinMaxValue(g, player, pos, depth) ==
      (if HasWon(g[pos := player][reply := Opponent(player)], Opponent(player)) then -100 else 0, depth + 1)
  {
    var next := Place(g, player, pos).0;
    assert next == g[pos := player];
    var opp := Opponent(player);
    assert AllEmpty(next, [reply]) && [reply][0] == reply;
    NoneEmptyIffNoMoves(next);
    var after := Place(next, opp, reply).0;
    assert after == next[reply := opp];
    PlaceShrinksMoves(next, opp, reply);
    NoneEmptyIffNoMoves(after);
    assert MinMaxValue(next, opp, reply, depth + 1) == (if HasWon(after, opp) then 100 else 0, depth + 1);
    SingleMoveBest(next, opp, depth, reply);
    assert MinDepth([Candidate(reply, depth + 1)]) == depth + 1;
  }

  /** With one empty cell, the search keeps that cell with its own score. */
  lemma {:induction false} SingleMoveBest(g: Grid, player: PlayerId, depth: nat, m: nat)
    requires IsPlayer(player) && m < 9 && g[m] == 0 && AvailableMoves(g) == [m]
    ensures var r := MinMaxValue(g, player, m, depth + 1);
      BestMovesValue(g, player, depth) == (r.0, [Candidate(m, r.1)])
  {
    var r := MinMaxValue(g, player, m, depth + 1);
    var o := Scored(m, r.0, r.1);
    OutcomeAt(g, player, depth, [m], 0);
    assert Outcomes(g, player, depth, [m]) == [] + [o];
    BestMovesIsScan(g, player, depth);
    ScanStep([], o);
  }

  /** With two empty cells, when the second scores strictly better than the
      first, the search keeps the second alone. */
  lemma {:induction false} SecondMoveBetter(g: Grid, player: PlayerId, depth: nat, a: nat, b: nat)
    requires IsPlayer(player) && a < 9 && b < 9 && g[a] == 0 && g[b] == 0 && AvailableMoves(g) == [a, b]
    requires MinMaxValue(g, player, a, depth + 1).0 < MinMaxValue(g, player, b, depth + 1).0
    ensures var r := MinMaxValue(g, player, b, depth + 1);
      BestMovesValue(g, player, depth) == (r.0, [Candidate(b, r.1)])
  {
    var ra := MinMaxValue(g, player, a, depth + 1);
    var rb := MinMaxValue(g, player, b, depth + 1);
    var oa, ob := Scored(a, ra.0, ra.1), Scored(b, rb.0, rb.1);
    OutcomeAt(g, player, depth, [a, b], 0);
    OutcomeAt(g, player, depth, [a, b], 1);
    assert Outcomes(g, player, depth, [a, b]) == [] + [oa] + [ob];
    BestMovesIsScan(g, player, depth);
    ScanStep([], oa);
    ScanStep([] + [oa], ob);
  }

  /** Sorting a single candidate leaves it in place. */
  lemma {:induction false} SortSingleton(c: Candidate)
    ensures SortByDepth([c]) == [c]
  {
    assert [c][..0] == [];
  }
}
