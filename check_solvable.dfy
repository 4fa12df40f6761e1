/**
 * utilities/check_solvable.py: a depth-first solver that branches on the
 * empty cell with the fewest candidates and answers whether the puzzle
 * can be completed. backend/services/validation_service.py's is_solvable
 * imports helpers.check_solvable, which is not part of this model; it is
 * taken to be this one.
 */
module CheckSolvable {
  import opened Wrappers
  import opened Geometry
  import opened Search

  /** Which cells are empty, row-major. */
  function EmptyFlags(g: IntGrid): (e: seq<bool>)
    requires |g| == 81
    ensures |e| == 81 && forall j :: 0 <= j < 81 ==> (e[j] <==> g[j] == 0)
  {
    seq(81, j requires 0 <= j < 81 => g[j] == 0)
  }

  /** The number of candidates of every cell, row-major. */
  function CandidateCounts(g: IntGrid): (n: seq<int>)
    requires |g| == 81
    ensures |n| == 81 && forall j :: 0 <= j < 81 ==> n[j] == |Candidates(g, PosOf(j))| && 0 <= n[j] <= 9
  {
    seq(81, j requires 0 <= j < 81 => |Candidates(g, PosOf(j))|)
  }

  /**
   * The cell the scan picks, given which cells are empty and how many
   * candidates each has: an empty cell such that every empty cell before
   * it has more candidates and at least two, and, unless the pick has at
   * most one candidate, no empty cell after it has fewer. (A pick with one
   * candidate ends the scan; a pick with none cannot be bettered.)
   */
  predicate PickAmong(empty: seq<bool>, counts: seq<int>, i: int)
    requires |empty| == 81 && |counts| == 81
  {
    0 <= i < 81 && empty[i]
    && (forall j :: 0 <= j < i && empty[j] ==> counts[j] > counts[i] && counts[j] >= 2)
    && (counts[i] <= 1 || forall j :: i < j < 81 && empty[j] ==> counts[j] >= counts[i])
  }

  predicate FewestPick(g: IntGrid, i: int)
    requires |g| == 81
  {
    PickAmong(EmptyFlags(g), CandidateCounts(g), i)
  }

  /** At most one cell is the pick. */
  lemma PickUnique(empty: seq<bool>, counts: seq<int>, i: int, j: int)
    requires |empty| == 81 && |counts| == 81 && PickAmong(empty, counts, i) && PickAmong(empty, counts, j)
    ensures i == j
  {
  }

  /**
   * The scan state after cells 0..i - 1: no pick yet and minimum 10 while
   * no empty cell was seen; otherwise the pick so far, its candidate count
   * as the minimum (never 1, since a minimum of 1 ends the scan), every
   * empty cell before the pick with more candidates and at least two, and
   * every empty cell between the pick and i with no fewer.
   */
  predicate Scanned(empty: seq<bool>, counts: seq<int>, i: int, minCandidates: int, minCell: Option<Pos>)
    requires |empty| == 81 && |counts| == 81 && 0 <= i <= 81
  {
    match minCell
    case None => minCandidates == 10 && forall j :: 0 <= j < i ==> !empty[j]
    case Some(p) =>
      ValidPos(p) && Idx(p) < i && empty[Idx(p)]
      && minCandidates == counts[Idx(p)] && minCandidates != 1
      && (forall j :: 0 <= j < Idx(p) && empty[j] ==> counts[j] > minCandidates && counts[j] >= 2)
      && (forall j :: Idx(p) < j < i && empty[j] ==> counts[j] >= minCandidates)
  }

  /** A filled cell, or an empty one with no fewer candidates than the minimum, leaves the pick alone. */
  lemma ScanKeep(empty: seq<bool>, counts: seq<int>, i: int, minCandidates: int, minCell: Option<Pos>)
    requires |empty| == 81 && |counts| == 81 && 0 <= i < 81 && counts[i] <= 9
    requires Scanned(empty, counts, i, minCandidates, minCell)
    requires empty[i] ==> counts[i] >= minCandidates
    ensures Scanned(empty, counts, i + 1, minCandidates, minCell)
  {
  }

  /** An empty cell with strictly fewer candidates becomes the pick; with one candidate it is final. */
  lemma ScanTake(empty: seq<bool>, counts: seq<int>, i: int, minCandidates: int, minCell: Option<Pos>)
    requires |empty| == 81 && |counts| == 81 && 0 <= i < 81
    requires Scanned(empty, counts, i, minCandidates, minCell)
    requires empty[i] && 0 <= counts[i] < minCandidates
    ensures counts[i] != 1 ==> Scanned(empty, counts, i + 1, counts[i], Some(PosOf(i)))
    ensures counts[i] == 1 ==> PickAmong(empty, counts, i)
  {
  }

  /** At the end of the scan there is a pick exactly when some cell is empty, and it is the cell PickAmong names. */
  lemma ScanDone(empty: seq<bool>, counts: seq<int>, minCandidates: int, minCell: Option<Pos>)
    requires |empty| == 81 && |counts| == 81 && Scanned(empty, counts, 81, minCandidates, minCell)
    ensures minCell.None? <==> forall j :: 0 <= j < 81 ==> !empty[j]
    ensures minCell.Some? ==> ValidPos(minCell.value) && PickAmong(empty, counts, Idx(minCell.value))
  {
  }

  /**
   * find_empty_cell_with_fewest_candidates: scan the cells in row-major
   * order keeping the first empty cell with strictly fewest candidates,
   * stopping as soon as that minimum is 1; None when no cell is empty.
   */
  method FewestEmptyCell(g: IntGrid) returns (cell: Option<Pos>)
    requires |g| == 81
    ensures cell.None? <==> NoEmpty(g)
    ensures cell.Some? ==> ValidPos(cell.value) && g[Idx(cell.value)] == 0 && FewestPick(g, Idx(cell.value))
  {
    ghost var empty, counts := EmptyFlags(g), CandidateCounts(g);
    var minCandidates := 10;
    var minCell: Option<Pos> := None;
    for i := 0 to 81
      invariant Scanned(empty, counts, i, minCandidates, minCell)
    {
      var r, c := i / 9, i % 9;
      assert (r, c) == PosOf(i);
      if g[i] == 0 {
        var candidates := Candidates(g, (r, c));
        assert counts[i] == |candidates|;
        if |candidates| < minCandidates {
          ScanTake(empty, counts, i, minCandidates, minCell);
          minCandidates := |candidates|;
          minCell := Some((r, c));
          if minCandidates == 1 {
            return minCell;
          }
        } else {
          ScanKeep(empty, counts, i, minCandidates, minCell);
        }
      } else {
        ScanKeep(empty, counts, i, minCandidates, minCell);
      }
    }
    ScanDone(empty, counts, minCandidates, minCell);
    return minCell;
  }

  /**
   * solve: branch on the fewest-candidates cell over its candidates in
   * ascending order. On success the board is a completion of the board it
   * started from; on failure every trial was reset to 0, the board is
   * unchanged and it has no completion. A board without an empty cell
   * counts as solved, whatever digits it repeats.
   */
  method Solve(board: array<int>) returns (solved: bool)
    requires board.Length == 81
    modifies board
    ensures solved ==> IsCompletion(old(board[..]), board[..])
    ensures !solved ==> board[..] == old(board[..]) && forall s :: !IsCompletion(old(board[..]), s)
    decreases Zeros(board[..])
  {
    ghost var g := board[..];
    var cell := FewestEmptyCell(board[..]);
    if cell.None? {
      NoEmptyCompletion(g, g);
      return true;
    }
    var (row, col) := cell.value;
    var i := 9 * row + col;
    var candidates := Candidates(board[..], (row, col));
    PosOfIdx((row, col));
    for k := 0 to |candidates|
      invariant board[..] == g
      invariant forall s :: IsCompletion(g, s) ==> s[i] !in candidates[..k]
    {
      var num := candidates[k];
      board[i] := num;
      ZerosFill(g, i, num);
      var ok := Solve(board);
      if ok {
        TrialSucceeds(g, i, num, board[..]);
        return true;
      }
      board[i] := 0;
      assert board[..] == g;
      TrialFails(g, i, candidates, k, g[i := num]);
    }
    NoTrialLeft(g, i, candidates);
    return false;
  }

  /** A completion found below a candidate digit completes the board it was tried on. */
  lemma TrialSucceeds(g: IntGrid, i: int, v: int, s: IntGrid)
    requires |g| == 81 && 0 <= i < 81 && g[i] == 0
    requires v in Candidates(g, PosOf(i)) && IsCompletion(g[i := v], s)
    ensures IsCompletion(g, s)
  {
    CompletionKeeps(g[i := v], s, i);
    CompletionSplit(g, i, s);
  }

  /** When no candidate digit of cell i is held there by a completion, there is no completion. */
  lemma NoTrialLeft(g: IntGrid, i: int, cs: seq<int>)
    requires |g| == 81 && 0 <= i < 81 && g[i] == 0 && cs == Candidates(g, PosOf(i))
    requires forall s :: IsCompletion(g, s) ==> s[i] !in cs[..|cs|]
    ensures forall s :: !IsCompletion(g, s)
  {
    forall s
      ensures !IsCompletion(g, s)
    {
      CompletionSplit(g, i, s);
      assert cs[..|cs|] == cs;
    }
  }

  /** Once trial digit cs[k] has no completion, no completion holds any of cs[..k + 1] at i. */
  lemma TrialFails(g: IntGrid, i: int, cs: seq<int>, k: int, h: IntGrid)
    requires |g| == 81 && 0 <= i < 81 && g[i] == 0 && 0 <= k < |cs| && h == g[i := cs[k]]
    requires forall s :: IsCompletion(g, s) ==> s[i] !in cs[..k]
    requires forall s :: !IsCompletion(h, s)
    ensures forall s :: IsCompletion(g, s) ==> s[i] !in cs[..k + 1]
  {
    forall s | IsCompletion(g, s)
      ensures s[i] !in cs[..k + 1]
    {
      CompletionSplit(g, i, s);
      assert cs[..k + 1] == cs[..k] + [cs[k]];
    }
  }

  /** check_solvable: solve a copy of the board; the answer is whether the board has a completion. */
  method CheckSolvable(board: seq<seq<int>>) returns (solvable: bool)
    requires NineByNine(board)
    ensures solvable <==> Completable(Flatten(board))
  {
    var boardCopy := new int[81](i requires 0 <= i < 81 => board[i / 9][i % 9]);
    assert boardCopy[..] == Flatten(board);
    solvable := Solve(boardCopy);
  }
}
