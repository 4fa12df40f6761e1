/**
 * backend/services/validation_service.py: the format check, the
 * backtracking uniqueness oracle and the solvability check it delegates. backend/api/validators.py carries
 * copies of the same code (its format check adds an isinstance test that
 * integer entries always pass, and its has_unique_solution nests the same
 * three helpers), so both files are modelled here.
 */
module ValidationService {
  import opened Geometry
  import opened Search
  import CheckSolvable

  /** The entries row[j..] all lie in 0..9. */
  function ValuesInRange(row: seq<int>, j: nat): (ok: bool)
    ensures ok <==> forall m :: j <= m < |row| ==> 0 <= row[m] <= 9
    decreases |row| - j
  {
    j >= |row| || (0 <= row[j] <= 9 && ValuesInRange(row, j + 1))
  }

  /** The rows rows[k..] each have nine entries, all in 0..9. */
  function RowsValid(rows: seq<seq<int>>, k: nat): (ok: bool)
    ensures ok <==> forall r :: k <= r < |rows| ==> |rows[r]| == 9 && forall c :: 0 <= c < 9 ==> 0 <= rows[r][c] <= 9
    decreases |rows| - k
  {
    k >= |rows| || (|rows[k]| == 9 && ValuesInRange(rows[k], 0) && RowsValid(rows, k + 1))
  }

  /** is_valid_format: nine rows of nine entries, every entry in 0..9. */
  function IsValidFormat(puzzle: seq<seq<int>>): (ok: bool)
    ensures ok <==> NineByNine(puzzle) && forall r, c :: 0 <= r < 9 && 0 <= c < 9 ==> 0 <= puzzle[r][c] <= 9
  {
    |puzzle| == 9 && RowsValid(puzzle, 0)
  }

  /**
   * count_solutions: backtracking over the first empty cell, trying its
   * candidates in ascending order and writing 0 back after each trial, so
   * the board ends as it began. The count is exact while it stays below
   * maxSolutions; once a partial sum reaches maxSolutions the search
   * stops and returns that sum, which can exceed maxSolutions (two leaves
   * found below one trial digit add to one found earlier) but never
   * exceeds the number of completions. A full grid counts as one
   * solution, whatever digits it repeats.
   */
  method CountSolutions(board: array<int>, maxSolutions: int) returns (count: int)
    requires board.Length == 81
    modifies board
    ensures board[..] == old(board[..])
    ensures 0 <= count <= |Solutions(old(board[..]))|
    ensures count < maxSolutions ==> count == |Solutions(old(board[..]))|
    decreases Zeros(board[..]), 2
  {
    var cell := FirstEmpty(board[..]);
    if cell.None? {
      return 1;
    }
    var (row, col) := cell.value;
    var candidates := Candidates(board[..], (row, col));
    count := TryAll(board, 9 * row + col, candidates, maxSolutions);
  }

  /** `for num in candidates` at the empty cell i, stopping once the tally reaches maxSolutions. */
  method TryAll(board: array<int>, i: int, candidates: seq<int>, maxSolutions: int) returns (count: int)
    requires board.Length == 81 && 0 <= i < 81 && board[i] == 0
    requires forall m :: 0 <= m < |candidates| ==> candidates[m] != 0
    requires forall m, l :: 0 <= m < l < |candidates| ==> candidates[m] < candidates[l]
    modifies board
    ensures board[..] == old(board[..])
    ensures 0 <= count <= |Branches(old(board[..]), i, candidates, 0)|
    ensures count < maxSolutions ==> count == |Branches(old(board[..]), i, candidates, 0)|
    decreases Zeros(board[..]), 1
  {
    ghost var g := board[..];
    ghost var total := |Branches(g, i, candidates, 0)|;
    count := 0;
    for k := 0 to |candidates|
      invariant board[..] == g
      invariant 0 <= count <= total - |Branches(g, i, candidates, k)|
      invariant count < maxSolutions ==> count == total - |Branches(g, i, candidates, k)|
    {
      var num := candidates[k];
      var found := Trial(board, i, num, maxSolutions);
      TallyStep(g, i, candidates, k, total, count, found, maxSolutions);
      count := count + found;
      if count >= maxSolutions {
        return;
      }
    }
  }

  /** One trial digit: place num in the empty cell i, count the completions, clear the cell again. */
  method Trial(board: array<int>, i: int, num: int, maxSolutions: int) returns (found: int)
    requires board.Length == 81 && 0 <= i < 81 && board[i] == 0 && num != 0
    modifies board
    ensures board[..] == old(board[..])
    ensures 0 <= found <= |Solutions(old(board[..])[i := num])|
    ensures found < maxSolutions ==> found == |Solutions(old(board[..])[i := num])|
    decreases Zeros(board[..]), 0
  {
    ghost var g := board[..];
    board[i] := num;
    assert board[..] == g[i := num];
    ZerosFill(g, i, num);
    found := CountSolutions(board, maxSolutions);
    board[i] := 0;
    assert board[..] == g;
  }

  /** Adding the count below trial digit cs[k] keeps the tally's bounds. */
  lemma TallyStep(g: IntGrid, i: int, cs: seq<int>, k: int, total: int, count: int, found: int, maxSolutions: int)
    requires |g| == 81 && 0 <= i < 81 && g[i] == 0
    requires 0 <= k < |cs| && forall m :: 0 <= m < |cs| ==> cs[m] != 0
    requires forall m, l :: 0 <= m < l < |cs| ==> cs[m] < cs[l]
    requires 0 <= count <= total - |Branches(g, i, cs, k)|
    requires count < maxSolutions ==> count == total - |Branches(g, i, cs, k)|
    requires 0 <= found <= |Solutions(g[i := cs[k]])|
    requires found < maxSolutions ==> found == |Solutions(g[i := cs[k]])|
    ensures 0 <= count + found <= total - |Branches(g, i, cs, k + 1)| <= total
    ensures count + found < maxSolutions ==> count + found == total - |Branches(g, i, cs, k + 1)|
  {
    BranchesStep(g, i, cs, k);
  }

  /**
   * has_unique_solution: count up to two solutions on a copy of the
   * puzzle; the answer is whether exactly one was found, i.e. whether the
   * puzzle has exactly one completion.
   */
  method HasUniqueSolution(puzzle: seq<seq<int>>) returns (unique: bool)
    requires NineByNine(puzzle)
    ensures unique <==> UniqueCompletion(Flatten(puzzle))
  {
    var boardCopy := new int[81](i requires 0 <= i < 81 => puzzle[i / 9][i % 9]);
    assert boardCopy[..] == Flatten(puzzle);
    var solutionCount := CountSolutions(boardCopy, 2);
    UniqueMeaning(Flatten(puzzle));
    unique := solutionCount == 1;
  }

  /**
   * is_solvable: the answer of the check_solvable function it imports,
   * taken here to be utilities/check_solvable.py's: whether the puzzle has
   * a completion.
   */
  method IsSolvable(puzzle: seq<seq<int>>) returns (solvable: bool)
    requires NineByNine(puzzle)
    ensures solvable <==> Completable(Flatten(puzzle))
  {
    solvable := CheckSolvable.CheckSolvable(puzzle);
  }
}
