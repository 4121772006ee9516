/** The computer player: it asks the search for the best moves from the
    current board, sorts them by the depth at which they resolve with a stable
    sort, and plays the first one. */
module Computer {
  import opened GameLogic
  import opened BoardState
  import opened Search

  // ----- The stable sort by depth -----

  /** `x` placed after the last element of `s` whose depth is at most its own,
      with the elements of greater depth behind it shifted one place back. */
  function Insert(s: seq<Candidate>, x: Candidate): seq<Candidate>
    decreases |s|
  {
    if s == [] || s[|s| - 1].depth <= x.depth then s + [x]
    else Insert(s[..|s| - 1], x) + [s[|s| - 1]]
  }

  /** Insertion sort by depth: each element in turn is inserted into the sorted prefix. */
  function SortByDepth(s: seq<Candidate>): seq<Candidate>
    decreases |s|
  {
    if s == [] then [] else Insert(SortByDepth(s[..|s| - 1]), s[|s| - 1])
  }

  predicate SortedByDepth(s: seq<Candidate>) {
    forall i, j :: 0 <= i < j < |s| ==> s[i].depth <= s[j].depth
  }

  /** The elements of `s` whose depth is `d`, in their order in `s`. */
  function WithDepth(s: seq<Candidate>, d: nat): seq<Candidate>
    decreases |s|
  {
    if s == [] then []
    else WithDepth(s[..|s| - 1], d) + (if s[|s| - 1].depth == d then [s[|s| - 1]] else [])
  }

  lemma {:induction false} InsertSorted(s: seq<Candidate>, x: Candidate)
    requires SortedByDepth(s)
    ensures SortedByDepth(Insert(s, x))
    decreases |s|
  {
    if s != [] && s[|s| - 1].depth > x.depth {
      var init, last := s[..|s| - 1], s[|s| - 1];
      InsertSorted(init, x);
      var r := Insert(init, x);
      InsertBound(init, x, last.depth);
      assert Insert(s, x) == r + [last];
      forall i, j | 0 <= i < j < |r| + 1
        ensures (r + [last])[i].depth <= (r + [last])[j].depth
      {
        if j == |r| {
          assert (r + [last])[i] == r[i];
        } else {
          assert (r + [last])[i] == r[i] && (r + [last])[j] == r[j];
        }
      }
    }
  }

  /** Inserting adds exactly `x`. */
  lemma {:induction false} InsertPermutes(s: seq<Candidate>, x: Candidate)
    ensures multiset(Insert(s, x)) == multiset(s) + multiset{x}
    ensures |Insert(s, x)| == |s| + 1
    decreases |s|
  {
    if s != [] && s[|s| - 1].depth > x.depth {
      var init, last := s[..|s| - 1], s[|s| - 1];
      InsertPermutes(init, x);
      assert s == init + [last];
    }
  }

  /** Every element of `Insert(s, x)` has depth at most `d` when every element of `s` and `x` do. */
  lemma {:induction false} InsertBound(s: seq<Candidate>, x: Candidate, d: nat)
    requires forall i :: 0 <= i < |s| ==> s[i].depth <= d
    requires x.depth <= d
    ensures forall i :: 0 <= i < |Insert(s, x)| ==> Insert(s, x)[i].depth <= d
    decreases |s|
  {
    if s == [] || s[|s| - 1].depth <= x.depth {
    } else {
      InsertBound(s[..|s| - 1], x, d);
    }
  }

  /** Inserting `x` keeps every depth class of `s` in order and puts `x` at the end of its own. */
  lemma {:induction false} InsertKeepsOrder(s: seq<Candidate>, x: Candidate, d: nat)
    ensures WithDepth(Insert(s, x), d) == WithDepth(s, d) + (if x.depth == d then [x] else [])
    decreases |s|
  {
    if s == [] || s[|s| - 1].depth <= x.depth {
      WithDepthAppend(s, x, d);
    } else {
      var init := s[..|s| - 1];
      var last := s[|s| - 1];
      InsertKeepsOrder(init, x, d);
      WithDepthAppend(Insert(init, x), last, d);
      assert s == init + [last];
      WithDepthAppend(init, last, d);
    }
  }

  lemma {:induction false} WithDepthAppend(s: seq<Candidate>, x: Candidate, d: nat)
    ensures WithDepth(s + [x], d) == WithDepth(s, d) + (if x.depth == d then [x] else [])
  {
    assert (s + [x])[..|s|] == s;
  }

  /** The sort's output is ordered by depth and is a permutation of its input. */
  lemma {:induction false} SortByDepthSorts(s: seq<Candidate>)
    ensures SortedByDepth(SortByDepth(s))
    ensures multiset(SortByDepth(s)) == multiset(s)
    ensures |SortByDepth(s)| == |s|
    decreases |s|
  {
    if s != [] {
      var init, last := s[..|s| - 1], s[|s| - 1];
      SortByDepthSorts(init);
      InsertSorted(SortByDepth(init), last);
      InsertPermutes(SortByDepth(init), last);
      assert SortByDepth(s) == Insert(SortByDepth(init), last);
      assert multiset(s) == multiset(init) + multiset{last} by {
        assert s == init + [last];
      }
    }
  }

  /** The sort is stable: the elements of each depth keep their relative order. */
  lemma {:induction false} SortByDepthIsStable(s: seq<Candidate>, d: nat)
    ensures WithDepth(SortByDepth(s), d) == WithDepth(s, d)
    decreases |s|
  {
    if s != [] {
      var init, last := s[..|s| - 1], s[|s| - 1];
      SortByDepthIsStable(init, d);
      InsertKeepsOrder(SortByDepth(init), last, d);
      assert SortByDepth(s) == Insert(SortByDepth(init), last);
      assert WithDepth(s, d) == WithDepth(init, d) + (if last.depth == d then [last] else []);
    }
  }

  /** When `k` is the first index of `s` with depth `d`, the depth class `d` starts with `s[k]`. */
  lemma {:induction false} WithDepthHead(s: seq<Candidate>, d: nat, k: nat)
    requires k < |s| && s[k].depth == d
    requires forall i :: 0 <= i < k ==> s[i].depth != d
    ensures WithDepth(s, d) != [] && WithDepth(s, d)[0] == s[k]
    decreases |s|
  {
    var init := s[..|s| - 1];
    assert s == init + [s[|s| - 1]];
    WithDepthAppend(init, s[|s| - 1], d);
    if k < |s| - 1 {
      WithDepthHead(init, d, k);
    } else {
      WithDepthNone(init, d);
    }
  }

  lemma {:induction false} WithDepthNone(s: seq<Candidate>, d: nat)
    requires forall i :: 0 <= i < |s| ==> s[i].depth != d
    ensures WithDepth(s, d) == []
    decreases |s|
  {
    if s != [] {
      WithDepthNone(s[..|s| - 1], d);
    }
  }

  /** `s[k]` has the least depth in `s`, and no element before it has that depth. */
  predicate FirstShallowest(s: seq<Candidate>, k: nat) {
    k < |s| &&
    (forall i :: 0 <= i < |s| ==> s[k].depth <= s[i].depth) &&
    (forall i :: 0 <= i < k ==> s[i].depth > s[k].depth)
  }

  /** The head of the sorted sequence is the first element of the input among those of least depth. */
  lemma {:induction false} SortedHead(s: seq<Candidate>) returns (k: nat)
    requires s != []
    ensures FirstShallowest(s, k) && SortByDepth(s)[0] == s[k]
  {
    var r := SortByDepth(s);
    SortByDepthSorts(s);
    assert r[0] in multiset(s);
    var d := r[0].depth;
    forall i | 0 <= i < |s|
      ensures d <= s[i].depth
    {
      assert s[i] in multiset(r);
      var j :| 0 <= j < |r| && r[j] == s[i];
    }
    k := FirstWithDepth(s, d);
    WithDepthHead(s, d, k);
    SortByDepthIsStable(s, d);
    WithDepthHead(r, d, 0);
  }

  /** The first index of `s` holding depth `d`, when one does. */
  lemma {:induction false} FirstWithDepth(s: seq<Candidate>, d: nat) returns (k: nat)
    requires exists i :: 0 <= i < |s| && s[i].depth == d
    ensures k < |s| && s[k].depth == d
    ensures forall i :: 0 <= i < k ==> s[i].depth != d
  {
    k := 0;
    while s[k].depth != d
      invariant k < |s|
      invariant forall i :: 0 <= i < k ==> s[i].depth != d
      invariant exists i :: k <= i < |s| && s[i].depth == d
      decreases |s| - k
    {
      k := k + 1;
    }
  }

  /** `Insert` puts `x` right after the last element of depth at most its own:
      when `s[j..]` are exactly the elements of greater depth at the end, `x` goes at `j`. */
  lemma {:induction false} InsertSplit(s: seq<Candidate>, j: nat, x: Candidate)
    requires j <= |s| && (j == 0 || s[j - 1].depth <= x.depth)
    requires forall k :: j <= k < |s| ==> s[k].depth > x.depth
    ensures Insert(s, x) == s[..j] + [x] + s[j..]
    decreases |s|
  {
    if j < |s| {
      var init := s[..|s| - 1];
      InsertSplit(init, j, x);
      assert init[..j] == s[..j];
      assert s[j..] == init[j..] + [s[|s| - 1]];
    }
  }

  /** The sort `Computer::play` applies to the candidates, done in place by
      insertion: each element is shifted left past the elements of greater
      depth, so equal depths keep their order. */
  method SortCandidates(a: array<Candidate>)
    modifies a
    ensures a[..] == SortByDepth(old(a[..]))
  {
    ghost var input := a[..];
    var i := 0;
    while i < a.Length
      invariant 0 <= i <= a.Length
      invariant a[..i] == SortByDepth(input[..i])
      invariant a[i..] == input[i..]
    {
      assert a[i + 1..] == input[i + 1..] by {
        assert a[i + 1..] == a[i..][1..];
        assert input[i + 1..] == input[i..][1..];
      }
      InsertAt(a, i);
      assert input[..i + 1][..i] == input[..i];
      i := i + 1;
    }
    assert input[..a.Length] == input;
  }

  /** Moves `a[i]` left into the prefix `a[..i]` past every element of greater depth. */
  method InsertAt(a: array<Candidate>, i: nat)
    requires i < a.Length
    modifies a
    ensures a[..i + 1] == Insert(old(a[..i]), old(a[i]))
    ensures a[i + 1..] == old(a[i + 1..])
  {
    var x := a[i];
    ghost var sorted := a[..i];
    var j := i;
    while j > 0 && a[j - 1].depth > x.depth
      invariant 0 <= j <= i
      invariant forall k :: 0 <= k < j ==> a[k] == sorted[k]
      invariant forall k :: j < k <= i ==> a[k] == sorted[k - 1]
      invariant forall k :: i < k < a.Length ==> a[k] == old(a[k])
      invariant forall k :: j <= k < i ==> sorted[k].depth > x.depth
    {
      a[j] := a[j - 1];
      j := j - 1;
    }
    a[j] := x;
    assert a[..i + 1] == sorted[..j] + [x] + sorted[j..];
    InsertSplit(sorted, j, x);
  }

  // ----- The computer's move -----

  /** The cell chosen from `g` by a search for `id` from `depth`: the first of
      the best candidates once they are sorted by the depth at which they
      resolve. `Computer::play` searches from depth 0. The first element is
      indexed without a check, so a board with an empty cell is required. */
  function FirstBestMove(g: Grid, id: PlayerId, depth: nat): (pos: nat)
    requires IsPlayer(id) && AvailableMoves(g) != []
    ensures pos < 9 && g[pos] == 0
  {
    var cands := BestMovesValue(g, id, depth).1;
    HeadIsEmptyCell(g, id, depth);
    SortByDepth(cands)[0].pos
  }

  /** The head of the sorted candidates is one of the candidates, hence an empty cell. */
  lemma {:induction false} HeadIsEmptyCell(g: Grid, id: PlayerId, depth: nat)
    requires IsPlayer(id) && AvailableMoves(g) != []
    ensures var sorted := SortByDepth(BestMovesValue(g, id, depth).1);
      sorted != [] && sorted[0].pos < 9 && g[sorted[0].pos] == 0
  {
    var cands := BestMovesValue(g, id, depth).1;
    var k := SortedHead(cands);
    BestMovesCandidateSound(g, id, depth, k);
  }

  /** `Computer::play`: search from depth 0, sort the candidates by depth with a
      stable sort, and return the cell of the first. */
  method ComputerPlay(board: Board, id: PlayerId) returns (pos: nat)
    requires board.Valid() && IsPlayer(id) && AvailableMoves(board.Contents()) != []
    ensures pos == FirstBestMove(board.Contents(), id, 0)
  {
    var _, moves := BestMoves(board, id, 0);
    var first := FirstAfterSort(moves);
    pos := first.pos;
  }

  /** Sorts a copy of the candidates in place and takes the first. */
  method FirstAfterSort(moves: seq<Candidate>) returns (first: Candidate)
    requires moves != []
    ensures SortByDepth(moves) != [] && first == SortByDepth(moves)[0]
  {
    var a := new Candidate[|moves|](k requires 0 <= k < |moves| => moves[k]);
    assert a[..] == moves;
    SortCandidates(a);
    SortByDepthSorts(moves);
    first := a[0];
  }

  /** The chosen cell is the first, among the candidates of least depth, of the
      best candidates. */
  lemma {:induction false} ChoiceIsHeadCandidate(g: Grid, id: PlayerId, depth: nat) returns (k: nat)
    requires IsPlayer(id) && AvailableMoves(g) != []
    ensures FirstShallowest(BestMovesValue(g, id, depth).1, k)
    ensures BestMovesValue(g, id, depth).1[k].pos == FirstBestMove(g, id, depth)
  {
    var cands := BestMovesValue(g, id, depth).1;
    k := SortedHead(cands);
  }

  /** The chosen cell scores at least as well as any empty cell. */
  lemma {:induction false} FirstBestMoveScoresBest(g: Grid, id: PlayerId, depth: nat, m: nat)
    requires IsPlayer(id) && m < 9 && g[m] == 0
    ensures AvailableMoves(g) != []
    ensures MinMaxValue(g, id, m, depth + 1).0 <= MinMaxValue(g, id, FirstBestMove(g, id, depth), depth + 1).0
  {
    AvailableFromComplete(g, 0, m);
    var p := FirstBestMove(g, id, depth);
    var k := ChoiceIsHeadCandidate(g, id, depth);
    BestMovesCandidateSound(g, id, depth, k);
    BestMovesValueIsUpperBound(g, id, depth, m);
  }

  /** Among the empty cells with the chosen cell's score, the chosen cell
      resolves soonest, and every lower-numbered one resolves strictly later:
      ties in depth go to the lowest cell. */
  lemma {:induction false} FirstBestMoveResolvesSoonest(g: Grid, id: PlayerId, depth: nat, m: nat)
    requires IsPlayer(id) && m < 9 && g[m] == 0 && AvailableMoves(g) != []
    requires MinMaxValue(g, id, m, depth + 1).0 == MinMaxValue(g, id, FirstBestMove(g, id, depth), depth + 1).0
    ensures MinMaxValue(g, id, FirstBestMove(g, id, depth), depth + 1).1 <= MinMaxValue(g, id, m, depth + 1).1
    ensures m < FirstBestMove(g, id, depth) ==>
      MinMaxValue(g, id, FirstBestMove(g, id, depth), depth + 1).1 < MinMaxValue(g, id, m, depth + 1).1
  {
    var p := FirstBestMove(g, id, depth);
    var cands := BestMovesValue(g, id, depth).1;
    var k := ChoiceIsHeadCandidate(g, id, depth);
    BestMovesCandidateSound(g, id, depth, k);
    var j := BestMovesCandidateComplete(g, id, depth, m);
    BestMovesCandidateSound(g, id, depth, j);
    BestMovesCandidatesAscending(g, id, depth);
    if m < p {
      assert j < k;
    }
  }

  /** When some empty cell wins at once, the chosen cell wins at once too. */
  lemma {:induction false} FirstBestMoveWinsImmediately(g: Grid, id: PlayerId, depth: nat, m: nat)
    requires IsPlayer(id) && m < 9 && g[m] == 0 && HasWon(Place(g, id, m).0, id)
    ensures AvailableMoves(g) != []
    ensures HasWon(Place(g, id, FirstBestMove(g, id, depth)).0, id)
  {
    ImmediateResolution(g, id, m, depth + 1);
    FirstBestMoveScoresBest(g, id, depth, m);
    var p := FirstBestMove(g, id, depth);
    FirstBestMoveResolvesSoonest(g, id, depth, m);
    assert MinMaxValue(g, id, p, depth + 1) == (100, depth + 1);
    ImmediateResolution(g, id, p, depth + 1);
  }
}
