/** Full-depth, unpruned minimax. `MinMaxValue` scores one move of `player`;
    `BestMovesValue` scans the empty cells in ascending order and keeps those
    with the best score. A score is +100 (a win for the player who moved),
    0 (a draw) or -100 (a loss); it is negated at each level while the depth
    at which the branch resolved is passed up unchanged. */
module Search {
  import opened GameLogic
  import opened BoardState

  /** A candidate move: the cell played and the depth at which its branch resolves. */
  datatype Candidate = Candidate(pos: nat, depth: nat)

  predicate IsValue(v: int) {
    v == -100 || v == 0 || v == 100
  }

  /** The other player, computed as `3 - player`. */
  function Opponent(player: PlayerId): (r: PlayerId)
    requires IsPlayer(player)
    ensures IsPlayer(r) && r != player
  {
    3 - player
  }

  /** The score of `player` playing the empty cell `pos`, and the depth at which
      that branch resolves, counting the move itself as `depth`. */
  function MinMaxValue(g: Grid, player: PlayerId, pos: nat, depth: nat): (r: (int, nat))
    requires IsPlayer(player) && pos < 9 && g[pos] == 0
    ensures IsValue(r.0)
    ensures depth <= r.1 < depth + |AvailableMoves(g)|
    decreases |AvailableMoves(g)|, 0, 0
  {
    AvailableFromComplete(g, 0, pos);
    PlaceShrinksMoves(g, player, pos);
    var next := Place(g, player, pos).0;
    if HasWon(next, player) then (100, depth)
    else if NoneEmpty(next) then (0, depth)
    else
      NoneEmptyIffNoMoves(next);
      var best := BestMovesValue(next, Opponent(player), depth);
      (-best.0, MinDepth(best.1))
  }

  /** A move together with its score and resolution depth. */
  datatype Scored = Scored(pos: nat, value: int, depth: nat)

  /** The scores of the moves `ms`, in the order of `ms`, one level below `depth`. */
  function Outcomes(g: Grid, player: PlayerId, depth: nat, ms: seq<nat>): (r: seq<Scored>)
    requires IsPlayer(player) && AllEmpty(g, ms)
    ensures |r| == |ms|
    ensures forall i :: 0 <= i < |r| ==>
      r[i].pos == ms[i] && IsValue(r[i].value) && depth + 1 <= r[i].depth <= depth + |AvailableMoves(g)|
    decreases |AvailableMoves(g)|, 1, |ms|
  {
    if ms == [] then []
    else
      var (v, d) := MinMaxValue(g, player, ms[0], depth + 1);
      [Scored(ms[0], v, d)] + Outcomes(g, player, depth, ms[1..])
  }

  /** The best score `player` can reach by one move from `g`, with every move
      that reaches it; a board with no empty cell gives (-100, []). */
  function BestMovesValue(g: Grid, player: PlayerId, depth: nat): (r: (int, seq<Candidate>))
    requires IsPlayer(player)
    ensures IsValue(r.0)
    ensures AvailableMoves(g) == [] ==> r == (-100, [])
    ensures AvailableMoves(g) != [] ==> r.1 != []
    ensures forall j :: 0 <= j < |r.1| ==> depth + 1 <= r.1[j].depth <= depth + |AvailableMoves(g)|
    decreases |AvailableMoves(g)|, 2, 0
  {
    var os := Outcomes(g, player, depth, AvailableMoves(g));
    if os == [] then Scan(os)
    else
      var cands := Keep(os, MaxValue(os));
      assert Scan(os) == (MaxValue(os), cands) && cands != [] &&
        forall j :: 0 <= j < |cands| ==> depth + 1 <= cands[j].depth <= depth + |AvailableMoves(g)|
      by {
        ScanIsArgmax(os);
        var k :| 0 <= k < |os| && os[k].value == MaxValue(os);
        var j := KeepCompleteAt(os, MaxValue(os), k);
        forall j | 0 <= j < |cands|
          ensures depth + 1 <= cands[j].depth <= depth + |AvailableMoves(g)|
        {
          var i := KeepSoundAt(os, MaxValue(os), j);
        }
      }
      Scan(os)
  }

  /** The source's loop over scored moves in order: the running maximum starts
      at -100; a higher score replaces the candidates, an equal one is appended,
      a lower one is dropped. */
  function Scan(os: seq<Scored>): (int, seq<Candidate>) {
    if os == [] then (-100, [])
    else
      var acc := Scan(os[..|os| - 1]);
      var o := os[|os| - 1];
      if o.value > acc.0 then (o.value, [Candidate(o.pos, o.depth)])
      else if o.value == acc.0 then (acc.0, acc.1 + [Candidate(o.pos, o.depth)])
      else acc
  }

  /** The smallest depth among the candidates. */
  function MinDepth(cs: seq<Candidate>): (r: nat)
    requires cs != []
    ensures exists i :: 0 <= i < |cs| && cs[i].depth == r
    ensures forall i :: 0 <= i < |cs| ==> r <= cs[i].depth
  {
    if |cs| == 1 then cs[0].depth
    else
      var rest := MinDepth(cs[1..]);
      if cs[0].depth <= rest then cs[0].depth else rest
  }

  // ----- Reference definition: the arg-max of the scores -----

  /** The largest score among the moves. */
  function MaxValue(os: seq<Scored>): (r: int)
    requires os != []
    ensures exists i :: 0 <= i < |os| && os[i].value == r
    ensures forall i :: 0 <= i < |os| ==> os[i].value <= r
  {
    if |os| == 1 then os[0].value
    else
      var rest := MaxValue(os[..|os| - 1]);
      var o := os[|os| - 1];
      assert forall i :: 0 <= i < |os| - 1 ==> os[..|os| - 1][i] == os[i];
      if o.value > rest then o.value else rest
  }

  /** The moves whose score is `v`, in order, with their depths. */
  function Keep(os: seq<Scored>, v: int): seq<Candidate> {
    if os == [] then []
    else
      var o := os[|os| - 1];
      var rest := Keep(os[..|os| - 1], v);
      if o.value == v then rest + [Candidate(o.pos, o.depth)] else rest
  }

  /** Every kept candidate is a move with score `v`; `i` is its index. */
  lemma {:induction false} KeepSoundAt(os: seq<Scored>, v: int, j: nat) returns (i: nat)
    requires j < |Keep(os, v)|
    ensures i < |os| && os[i] == Scored(Keep(os, v)[j].pos, v, Keep(os, v)[j].depth)
  {
    var prefix := os[..|os| - 1];
    if j < |Keep(prefix, v)| {
      i := KeepSoundAt(prefix, v, j);
    } else {
      i := |os| - 1;
    }
  }

  /** Every move with score `v` is kept; `j` is its place among the candidates. */
  lemma {:induction false} KeepCompleteAt(os: seq<Scored>, v: int, i: nat) returns (j: nat)
    requires i < |os| && os[i].value == v
    ensures j < |Keep(os, v)| && Keep(os, v)[j] == Candidate(os[i].pos, os[i].depth)
  {
    var prefix := os[..|os| - 1];
    if i == |os| - 1 {
      j := |Keep(prefix, v)|;
    } else {
      j := KeepCompleteAt(prefix, v, i);
    }
  }

  /** Keeping preserves the order of positions. */
  lemma {:induction false} KeepIncreasing(os: seq<Scored>, v: int)
    requires forall i, j :: 0 <= i < j < |os| ==> os[i].pos < os[j].pos
    ensures forall i, j :: 0 <= i < j < |Keep(os, v)| ==> Keep(os, v)[i].pos < Keep(os, v)[j].pos
  {
    if os != [] {
      var prefix := os[..|os| - 1];
      KeepIncreasing(prefix, v);
      forall j | 0 <= j < |Keep(prefix, v)|
        ensures Keep(prefix, v)[j].pos < os[|os| - 1].pos
      {
        var i := KeepSoundAt(prefix, v, j);
      }
    }
  }

  /** With no score equal to `v`, nothing is kept. */
  lemma {:induction false} KeepNone(os: seq<Scored>, v: int)
    requires forall i :: 0 <= i < |os| ==> os[i].value != v
    ensures Keep(os, v) == []
  {
    if os != [] {
      KeepNone(os[..|os| - 1], v);
    }
  }

  /** When every score is at least -100 (as every score of the search is), the
      scan computes the arg-max: the largest score, and exactly the moves
      reaching it, in order. */
  lemma {:induction false} ScanIsArgmax(os: seq<Scored>)
    requires os != [] && forall i :: 0 <= i < |os| ==> os[i].value >= -100
    ensures Scan(os) == (MaxValue(os), Keep(os, MaxValue(os)))
  {
    var prefix := os[..|os| - 1];
    var o := os[|os| - 1];
    var c := Candidate(o.pos, o.depth);
    if prefix == [] {
      assert Keep(os, o.value) == Keep(prefix, o.value) + [c];
      assert Keep(prefix, o.value) == [];
      assert Scan(prefix) == (-100, []);
      assert [] + [c] == [c];
    } else {
      assert forall i :: 0 <= i < |prefix| ==> prefix[i] == os[i];
      ScanIsArgmax(prefix);
      var m := MaxValue(prefix);
      assert Scan(prefix) == (m, Keep(prefix, m));
      if o.value > m {
        KeepNone(prefix, o.value);
        assert MaxValue(os) == o.value;
        assert Keep(os, o.value) == [] + [c];
        assert [] + [c] == [c];
        assert Scan(os) == (o.value, [c]);
      } else if o.value == m {
        assert MaxValue(os) == m;
        assert Keep(os, m) == Keep(prefix, m) + [c];
        assert Scan(os) == (m, Keep(prefix, m) + [c]);
      } else {
        assert MaxValue(os) == m;
        assert Keep(os, m) == Keep(prefix, m);
        assert Scan(os) == (m, Keep(prefix, m));
      }
    }
  }

  /** The i-th outcome is the score of the i-th move. */
  lemma {:induction false} OutcomeAt(g: Grid, player: PlayerId, depth: nat, ms: seq<nat>, i: nat)
    requires IsPlayer(player) && AllEmpty(g, ms) && i < |ms|
    ensures var (v, d) := MinMaxValue(g, player, ms[i], depth + 1);
      Outcomes(g, player, depth, ms)[i] == Scored(ms[i], v, d)
  {
    if i > 0 {
      OutcomeAt(g, player, depth, ms[1..], i - 1);
    }
  }

  /** `BestMovesValue` is the scan of the scored empty cells, which computes their arg-max. */
  lemma {:induction false} BestMovesUnfold(g: Grid, player: PlayerId, depth: nat)
    requires IsPlayer(player) && AvailableMoves(g) != []
    ensures var os := Outcomes(g, player, depth, AvailableMoves(g));
      os != [] && BestMovesValue(g, player, depth) == (MaxValue(os), Keep(os, MaxValue(os)))
  {
    ScanIsArgmax(Outcomes(g, player, depth, AvailableMoves(g)));
  }

  /** No empty cell scores above the value of `BestMovesValue`. */
  lemma {:induction false} BestMovesValueIsUpperBound(g: Grid, player: PlayerId, depth: nat, m: nat)
    requires IsPlayer(player) && m < 9 && g[m] == 0
    ensures MinMaxValue(g, player, m, depth + 1).0 <= BestMovesValue(g, player, depth).0
  {
    var ms := AvailableMoves(g);
    AvailableMovesComplete(g);
    var i :| 0 <= i < |ms| && ms[i] == m;
    BestMovesUnfold(g, player, depth);
    OutcomeAt(g, player, depth, ms, i);
  }

  /** Some empty cell reaches the value of `BestMovesValue` when there is an empty cell. */
  lemma {:induction false} BestMovesValueIsReached(g: Grid, player: PlayerId, depth: nat) returns (m: nat)
    requires IsPlayer(player) && AvailableMoves(g) != []
    ensures m < 9 && g[m] == 0
    ensures MinMaxValue(g, player, m, depth + 1).0 == BestMovesValue(g, player, depth).0
  {
    var ms := AvailableMoves(g);
    var os := Outcomes(g, player, depth, ms);
    BestMovesUnfold(g, player, depth);
    var k :| 0 <= k < |os| && os[k].value == MaxValue(os);
    OutcomeAt(g, player, depth, ms, k);
    m := ms[k];
  }

  /** Every candidate of `BestMovesValue` is an empty cell that reaches the best
      score, listed with the depth its branch resolves at. */
  lemma {:induction false} BestMovesCandidateSound(g: Grid, player: PlayerId, depth: nat, j: nat)
    requires IsPlayer(player) && j < |BestMovesValue(g, player, depth).1|
    ensures var (best, cands) := BestMovesValue(g, player, depth);
      cands[j].pos < 9 && g[cands[j].pos] == 0 &&
      MinMaxValue(g, player, cands[j].pos, depth + 1) == (best, cands[j].depth)
  {
    var ms := AvailableMoves(g);
    var os := Outcomes(g, player, depth, ms);
    BestMovesUnfold(g, player, depth);
    var i := KeepSoundAt(os, MaxValue(os), j);
    OutcomeAt(g, player, depth, ms, i);
  }

  /** Every empty cell that reaches the best score is a candidate of `BestMovesValue`. */
  lemma {:induction false} BestMovesCandidateComplete(g: Grid, player: PlayerId, depth: nat, m: nat) returns (j: nat)
    requires IsPlayer(player) && m < 9 && g[m] == 0
    requires MinMaxValue(g, player, m, depth + 1).0 == BestMovesValue(g, player, depth).0
    ensures j < |BestMovesValue(g, player, depth).1| && BestMovesValue(g, player, depth).1[j].pos == m
  {
    var ms := AvailableMoves(g);
    var os := Outcomes(g, player, depth, ms);
    AvailableMovesComplete(g);
    var i :| 0 <= i < |ms| && ms[i] == m;
    BestMovesUnfold(g, player, depth);
    OutcomeAt(g, player, depth, ms, i);
    j := KeepCompleteAt(os, MaxValue(os), i);
  }

  /** The candidates of `BestMovesValue` are in ascending cell order. */
  lemma {:induction false} BestMovesCandidatesAscending(g: Grid, player: PlayerId, depth: nat)
    requires IsPlayer(player)
    ensures var cands := BestMovesValue(g, player, depth).1;
      forall i, j :: 0 <= i < j < |cands| ==> cands[i].pos < cands[j].pos
  {
    if AvailableMoves(g) != [] {
      var os := Outcomes(g, player, depth, AvailableMoves(g));
      BestMovesUnfold(g, player, depth);
      KeepIncreasing(os, MaxValue(os));
    }
  }

  /** A move resolves at the depth it is made exactly when it wins or fills the
      board; and it scores 100 at that depth exactly when it wins. */
  lemma {:induction false} ImmediateResolution(g: Grid, player: PlayerId, pos: nat, depth: nat)
    requires IsPlayer(player) && pos < 9 && g[pos] == 0
    ensures var next := Place(g, player, pos).0;
      MinMaxValue(g, player, pos, depth).1 == depth <==> HasWon(next, player) || NoneEmpty(next)
    ensures MinMaxValue(g, player, pos, depth) == (100, depth) <==> HasWon(Place(g, player, pos).0, player)
  {
    var next := Place(g, player, pos).0;
    if !HasWon(next, player) && !NoneEmpty(next) {
      NoneEmptyIffNoMoves(next);
      var best := BestMovesValue(next, Opponent(player), depth);
      assert AvailableMoves(next) != [];
      assert best.1 != [];
      assert MinMaxValue(g, player, pos, depth).1 == MinDepth(best.1);
      var i :| 0 <= i < |best.1| && best.1[i].depth == MinDepth(best.1);
      assert best.1[i].depth >= depth + 1;
    }
  }

  // ----- The search as the source runs it: on boards that are cloned and played in place -----

  /** Scores one move on a clone of `board`; the caller's board is not modified. */
  method MinMax(board: Board, player: PlayerId, pos: nat, depth: nat) returns (value: int, resolvedAt: nat)
    requires board.Valid() && IsPlayer(player) && pos < 9 && board.Contents()[pos] == 0
    ensures (value, resolvedAt) == MinMaxValue(board.Contents(), player, pos, depth)
    decreases |AvailableMoves(board.Contents())|, 0, 0
  {
    var b := board.Clone();
    var outcome := b.Play(player, pos);
    assert outcome == Placed;
    if HasWon(b.Contents(), player) {
      return 100, depth;
    }
    if NoneEmpty(b.Contents()) {
      return 0, depth;
    }
    PlaceShrinksMoves(board.Contents(), player, pos);
    NoneEmptyIffNoMoves(b.Contents());
    var v, candidates := BestMoves(b, Opponent(player), depth);
    return -v, MinDepth(candidates);
  }

  lemma {:induction false} PrefixStep<T>(s: seq<T>, i: nat)
    requires i < |s|
    ensures s[..i + 1] == s[..i] + [s[i]]
  {
  }

  /** One step of the scan: a better score starts a new candidate list, an equal one joins it. */
  lemma {:induction false} ScanStep(os: seq<Scored>, o: Scored)
    ensures var acc := Scan(os);
      Scan(os + [o]) ==
        if o.value > acc.0 then (o.value, [Candidate(o.pos, o.depth)])
        else if o.value == acc.0 then (acc.0, acc.1 + [Candidate(o.pos, o.depth)])
        else acc
  {
    assert (os + [o])[..|os|] == os;
  }

  /** `BestMovesValue` is the scan of the scored empty cells. */
  lemma {:induction false} BestMovesIsScan(g: Grid, player: PlayerId, depth: nat)
    requires IsPlayer(player)
    ensures BestMovesValue(g, player, depth) == Scan(Outcomes(g, player, depth, AvailableMoves(g)))
  {
  }

  /** Scores every empty cell of `board` in ascending order, keeping the best. */
  method BestMoves(board: Board, player: PlayerId, depth: nat) returns (currentMax: int, possibilities: seq<Candidate>)
    requires board.Valid() && IsPlayer(player)
    ensures (currentMax, possibilities) == BestMovesValue(board.Contents(), player, depth)
    decreases |AvailableMoves(board.Contents())|, 2, 0
  {
    ghost var g := board.Contents();
    var moves := AvailableMoves(board.Contents());
    ghost var scored := Outcomes(g, player, depth, moves);
    currentMax, possibilities := -100, [];
    var i := 0;
    while i < |moves|
      invariant 0 <= i <= |moves|
      invariant board.Contents() == g
      invariant (currentMax, possibilities) == Scan(scored[..i])
    {
      var m := moves[i];
      var moveValue, moveDepth := MinMax(board, player, m, depth + 1);
      OutcomeAt(g, player, depth, moves, i);
      assert scored[i] == Scored(m, moveValue, moveDepth);
      PrefixStep(scored, i);
      ScanStep(scored[..i], scored[i]);
      if moveValue > currentMax {
        currentMax := moveValue;
        possibilities := [Candidate(m, moveDepth)];
      } else if moveValue == currentMax {
        possibilities := possibilities + [Candidate(m, moveDepth)];
      }
      i := i + 1;
    }
    assert scored[..i] == scored;
    BestMovesIsScan(g, player, depth);
  }
}
