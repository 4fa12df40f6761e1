/**
 * SudokuSolver: apply the all-at-once techniques in a fixed order, round
 * after round, and report the grid reached and the techniques that
 * reported progress.
 *
 * The loop is meant to stop once a round changes nothing. Two of the four
 * techniques return a (changed, steps) tuple, which `if technique_func(board):`
 * always finds true, so every round counts as a change and the loop always
 * runs its 100 rounds.
 */
module SolverService {
  import opened Wrappers
  import opened Geometry
  import opened Board
  import opened Dispatch
  import opened Trace

  /** max_iterations */
  const MaxIterations := 100

  // ---------------------------------------------------------------------
  // What each call returned and did

  /**
   * What one `technique_func(board)` call returned: a tuple exactly for
   * the tuple techniques, true for those and otherwise when the technique
   * reported progress.
   */
  predicate Returned(t: AllTechnique, r: AllReturn) {
    (r.TupleReturn? <==> ReturnsTuple(t))
    && (Truthy(r) <==> ReturnsTuple(t) || Progress(r))
  }

  /** The results of one round: results[k] is what the k-th technique of the table returned. */
  predicate Fired(table: seq<(string, AllTechnique)>, results: seq<AllReturn>) {
    |results| == |table| && forall k :: 0 <= k < |results| ==> Returned(table[k].1, results[k])
  }

  /**
   * What one `technique_func(board)` call did: it returned `r` and moved
   * the board from `before` to `after`; a call whose result is false only
   * refreshed the candidates.
   */
  ghost predicate Called(t: AllTechnique, before: Grid, after: Grid, r: AllReturn) {
    |before| == 81 && Advances(before, after) && Returned(t, r)
    && (!Truthy(r) ==> after == PropagateAll(before))
  }

  /** The calls so far: results[j] came from table[j], which moved the board from boards[j] to boards[j + 1]. */
  ghost predicate Calls(table: seq<(string, AllTechnique)>, boards: seq<Grid>, results: seq<AllReturn>) {
    |results| <= |table| && |boards| == |results| + 1
    && forall j :: 0 <= j < |results| ==> Called(table[j].1, boards[j], boards[j + 1], results[j])
  }

  /** One more call that did what Called says extends the calls so far. */
  lemma CallsNext(table: seq<(string, AllTechnique)>, boards: seq<Grid>, results: seq<AllReturn>, after: Grid, r: AllReturn)
    requires Calls(table, boards, results) && |results| < |table|
    requires Called(table[|results|].1, boards[|results|], after, r)
    ensures Calls(table, boards + [after], results + [r])
  {
    assert forall j :: 0 <= j <= |results| ==> (boards + [after])[j] == boards[j];
  }

  /** A whole round of calls returned what Fired says. */
  lemma CallsFired(table: seq<(string, AllTechnique)>, boards: seq<Grid>, results: seq<AllReturn>)
    requires Calls(table, boards, results) && |results| == |table|
    ensures Fired(table, results)
  {
    forall k | 0 <= k < |results|
      ensures Returned(table[k].1, results[k])
    {
      assert Called(table[k].1, boards[k], boards[k + 1], results[k]);
    }
  }

  // ---------------------------------------------------------------------
  // The names of the calls whose result was true

  /**
   * The names, in call order, of the calls whose result was true, where
   * results[k] is the result of the call named names[k].
   */
  function FiredNames(names: seq<string>, results: seq<AllReturn>): (fired: seq<string>)
    requires |results| <= |names|
    ensures |fired| <= |results| && forall x :: x in fired ==> x in names
    decreases |results|
  {
    if results == [] then []
    else
      var n := |results| - 1;
      FiredNames(names, results[..n]) + (if Truthy(results[n]) then [names[n]] else [])
  }

  /** A name is fired exactly when one of the calls under that name returned true. */
  lemma {:induction false} FiredNamesMembers(names: seq<string>, results: seq<AllReturn>, x: string)
    requires |results| <= |names|
    ensures x in FiredNames(names, results) <==> exists k :: 0 <= k < |results| && names[k] == x && Truthy(results[k])
    decreases |results|
  {
    if results != [] {
      var n := |results| - 1;
      FiredNamesMembers(names, results[..n], x);
      assert forall k :: 0 <= k < n ==> results[..n][k] == results[k];
    }
  }

  /** One more call adds its name to the fired names exactly when its result is true. */
  lemma FiredNamesLast(names: seq<string>, results: seq<AllReturn>, result: AllReturn)
    requires |results| < |names|
    ensures FiredNames(names, results + [result])
            == FiredNames(names, results) + (if Truthy(result) then [names[|results|]] else [])
  {
    assert (results + [result])[..|results|] == results;
  }

  /** A first call whose result is true gives the first fired name. */
  lemma {:induction false} FiredNamesHead(names: seq<string>, results: seq<AllReturn>)
    requires 0 < |results| <= |names| && Truthy(results[0])
    ensures |FiredNames(names, results)| > 0 && FiredNames(names, results)[0] == names[0]
    decreases |results|
  {
    var n := |results| - 1;
    if n > 0 {
      assert results[..n][0] == results[0];
      FiredNamesHead(names, results[..n]);
    }
  }

  /** The fired names of every round, one round after the other. */
  function AllFired(names: seq<string>, rounds: seq<seq<AllReturn>>): (calls: seq<string>)
    requires forall i :: 0 <= i < |rounds| ==> |rounds[i]| == |names|
    ensures forall x :: x in calls ==> x in names
    decreases |rounds|
  {
    if rounds == [] then []
    else
      var n := |rounds| - 1;
      AllFired(names, rounds[..n]) + FiredNames(names, rounds[n])
  }

  /** One more round adds its fired names at the end. */
  lemma AllFiredNext(names: seq<string>, rounds: seq<seq<AllReturn>>, results: seq<AllReturn>)
    requires forall i :: 0 <= i < |rounds| ==> |rounds[i]| == |names|
    requires |results| == |names|
    ensures forall i :: 0 <= i < |rounds| + 1 ==> (rounds + [results])[i] == if i < |rounds| then rounds[i] else results
    ensures AllFired(names, rounds + [results]) == AllFired(names, rounds) + FiredNames(names, results)
  {
    assert (rounds + [results])[..|rounds|] == rounds;
  }

  // ---------------------------------------------------------------------
  // techniques_applied: noting names

  /** `if name not in applied: applied.append(name)`, for each name of xs in turn. */
  function NoteAll(applied: seq<string>, xs: seq<string>): (r: seq<string>)
    ensures |applied| <= |r| && r[..|applied|] == applied
    decreases |xs|
  {
    if xs == [] then applied
    else
      var n := |xs| - 1;
      var before := NoteAll(applied, xs[..n]);
      var r := NoteApplied(before, xs[n]);
      assert r[..|applied|] == before[..|applied|];
      r
  }

  /**
   * Noting xs adds exactly the names of xs to applied, and never lists a
   * name twice that was not listed twice before.
   */
  lemma {:induction false} NoteAllMeaning(applied: seq<string>, xs: seq<string>)
    ensures forall x :: x in NoteAll(applied, xs) <==> x in applied || x in xs
    ensures NoDuplicates(applied) ==> NoDuplicates(NoteAll(applied, xs))
    decreases |xs|
  {
    if xs != [] {
      var n := |xs| - 1;
      assert xs == xs[..n] + [xs[n]];
      NoteAllMeaning(applied, xs[..n]);
    }
  }

  /** The last name noted is the last of xs. */
  lemma NoteAllLast(applied: seq<string>, xs: seq<string>)
    requires xs != []
    ensures NoteAll(applied, xs) == NoteApplied(NoteAll(applied, xs[..|xs| - 1]), xs[|xs| - 1])
  {
  }

  /** Noting xs and then ys is noting xs + ys. */
  lemma {:induction false} NoteAllAppend(applied: seq<string>, xs: seq<string>, ys: seq<string>)
    ensures NoteAll(NoteAll(applied, xs), ys) == NoteAll(applied, xs + ys)
    decreases |ys|
  {
    if ys == [] {
      assert xs + ys == xs;
    } else {
      var n := |ys| - 1;
      NoteAllAppend(applied, xs, ys[..n]);
      NoteAllLast(applied, xs + ys);
      NoteAllLast(NoteAll(applied, xs), ys);
      assert (xs + ys)[..|xs + ys| - 1] == xs + ys[..n];
    }
  }

  /** Noting from nothing puts the first name first. */
  lemma {:induction false} NoteAllHead(xs: seq<string>)
    requires xs != []
    ensures |NoteAll([], xs)| > 0 && NoteAll([], xs)[0] == xs[0]
    decreases |xs|
  {
    var n := |xs| - 1;
    NoteAllLast([], xs);
    if n > 0 {
      assert xs[..n][0] == xs[0];
      NoteAllHead(xs[..n]);
    }
  }

  /** One more call notes its name exactly when its result is true. */
  lemma NoteFiredNext(applied: seq<string>, names: seq<string>, results: seq<AllReturn>, result: AllReturn)
    requires |results| < |names|
    ensures var before := NoteAll(applied, FiredNames(names, results));
      NoteAll(applied, FiredNames(names, results + [result]))
      == if Truthy(result) then NoteApplied(before, names[|results|]) else before
  {
    var fired := FiredNames(names, results);
    FiredNamesLast(names, results, result);
    if Truthy(result) {
      NoteAllLast(applied, fired + [names[|results|]]);
      assert (fired + [names[|results|]])[..|fired|] == fired;
    } else {
      assert fired + [] == fired;
    }
  }

  /**
   * After a round whose first call (naked singles) and third call (hidden
   * pairs) were true, the applied list starts with naked singles and holds
   * hidden pairs.
   */
  lemma AppliedAfterRound(applied: seq<string>, names: seq<string>, results: seq<AllReturn>)
    requires |results| == |names| == 4 && names[0] == "Naked Singles" && names[2] == "Hidden Pairs"
    requires Truthy(results[0]) && Truthy(results[2])
    requires |applied| > 0 ==> applied[0] == "Naked Singles"
    ensures var a := NoteAll(applied, FiredNames(names, results));
      |a| >= 2 && a[0] == "Naked Singles" && "Hidden Pairs" in a
  {
    var fired := FiredNames(names, results);
    var a := NoteAll(applied, fired);
    FiredNamesMembers(names, results, "Naked Singles");
    FiredNamesMembers(names, results, "Hidden Pairs");
    FiredNamesHead(names, results);
    NoteAllMeaning(applied, fired);
    if applied == [] {
      NoteAllHead(fired);
    } else {
      assert a[..|applied|][0] == a[0];
    }
    TwoNames(a, "Naked Singles", "Hidden Pairs");
  }

  // ---------------------------------------------------------------------
  // The order of first use

  /** The position of the first x in xs, or |xs| when x is not there. */
  function FirstIndex(xs: seq<string>, x: string): (i: nat)
    ensures i <= |xs| && (i < |xs| <==> x in xs)
    ensures i < |xs| ==> xs[i] == x
    ensures forall k :: 0 <= k < i ==> xs[k] != x
  {
    if xs == [] then 0
    else if xs[0] == x then 0
    else
      var i := FirstIndex(xs[1..], x);
      assert forall k :: 0 < k <= i ==> xs[k] == xs[1..][k - 1];
      i + 1
  }

  /**
   * Adding a name at the end does not move the first use of a name already
   * there, and a new name is first used at the end.
   */
  lemma FirstIndexSnoc(xs: seq<string>, y: string, x: string)
    ensures FirstIndex(xs, x) < |xs| ==> FirstIndex(xs + [y], x) == FirstIndex(xs, x)
    ensures y !in xs ==> FirstIndex(xs + [y], y) == |xs|
  {
    assert forall k :: 0 <= k < |xs| ==> (xs + [y])[k] == xs[k];
  }

  /** a lists the names used in xs, each once, in the order of first use. */
  ghost predicate InFirstUseOrder(a: seq<string>, xs: seq<string>) {
    (forall x :: x in a <==> x in xs)
    && NoDuplicates(a)
    && forall i, j :: 0 <= i < j < |a| ==> FirstIndex(xs, a[i]) < FirstIndex(xs, a[j])
  }

  /** Noting the names of xs one by one, from nothing, lists them in the order of first use. */
  lemma {:induction false} FirstUseOrder(xs: seq<string>)
    ensures InFirstUseOrder(NoteAll([], xs), xs)
    decreases |xs|
  {
    if xs != [] {
      var n := |xs| - 1;
      var ys, y := xs[..n], xs[n];
      assert xs == ys + [y];
      FirstUseOrder(ys);
      var a, b := NoteAll([], xs), NoteAll([], ys);
      NoteAllLast([], xs);
      forall i | 0 <= i < |b|
        ensures FirstIndex(xs, b[i]) == FirstIndex(ys, b[i]) < n
      {
        FirstIndexSnoc(ys, y, b[i]);
      }
      if y !in b {
        assert a == b + [y];
        FirstIndexSnoc(ys, y, y);
      }
    }
  }

  // ---------------------------------------------------------------------
  // What the rounds so far leave behind

  /**
   * What the rounds so far leave behind: every round ran the whole table,
   * and the applied list notes, from nothing, every name fired in any round.
   */
  ghost predicate History(table: seq<(string, AllTechnique)>, names: seq<string>, rounds: seq<seq<AllReturn>>, applied: seq<string>) {
    |names| == |table|
    && (forall i :: 0 <= i < |rounds| ==> Fired(table, rounds[i]))
    && applied == NoteAll([], AllFired(names, rounds))
  }

  /** One more round, its fired names noted, extends the history. */
  lemma HistoryNext(table: seq<(string, AllTechnique)>, names: seq<string>, rounds: seq<seq<AllReturn>>,
                    applied: seq<string>, results: seq<AllReturn>)
    requires History(table, names, rounds, applied) && Fired(table, results)
    ensures History(table, names, rounds + [results], NoteAll(applied, FiredNames(names, results)))
  {
    NoteAllAppend([], AllFired(names, rounds), FiredNames(names, results));
    AllFiredNext(names, rounds, results);
  }

  class SudokuSolver {
    /** The techniques, in the order they are tried. */
    const techniques: seq<(string, AllTechnique)> := [
      ("Naked Singles", NakedSinglesAll),
      ("Hidden Singles", HiddenSinglesAll),
      ("Hidden Pairs", HiddenPairsAll),
      ("Naked Pairs", NakedPairsAll)
    ]

    constructor () {
    }

    /** get_available_techniques: the names of the table, in order, none twice. */
    function GetAvailableTechniques(): (names: seq<string>)
      ensures |names| == |techniques| && forall k :: 0 <= k < |names| ==> names[k] == techniques[k].0
      ensures NoDuplicates(names)
    {
      seq(|techniques|, k requires 0 <= k < |techniques| => techniques[k].0)
    }

    /**
     * solve: the grid reached extends the puzzle and is_solved says whether
     * it is a solution. `rounds` holds every round's four results (Fired
     * says what each one means), and techniques_applied is exactly the
     * names whose call returned true in some round, each once, in the
     * order first used. It starts with naked singles and always holds
     * hidden pairs (the two techniques whose tuple result is always true),
     * and the loop runs exactly MaxIterations rounds.
     */
    method Solve(puzzle: seq<seq<int>>) returns (r: SolveResult, ghost rounds: seq<seq<AllReturn>>)
      requires NineByNine(puzzle)
      ensures NineByNine(r.solvedGrid) && Extends(puzzle, r.solvedGrid)
      ensures r.isSolved <==> GridSolved(r.solvedGrid)
      ensures r.iterations == MaxIterations == |rounds|
      ensures forall i :: 0 <= i < |rounds| ==> Fired(techniques, rounds[i]) && |rounds[i]| == |techniques|
      ensures r.techniquesApplied == NoteAll([], AllFired(GetAvailableTechniques(), rounds))
      ensures InFirstUseOrder(r.techniquesApplied, AllFired(GetAvailableTechniques(), rounds))
      ensures NoDuplicates(r.techniquesApplied)
      ensures forall x :: x in r.techniquesApplied ==> x in GetAvailableTechniques()
      ensures |r.techniquesApplied| >= 2 && r.techniquesApplied[0] == "Naked Singles"
      ensures "Hidden Pairs" in r.techniquesApplied
      ensures r.solvingSteps == [] && r.totalSteps == None
      ensures r.message.SolvedMessage? ==> r.message.steps == None && r.message.techniques == |r.techniquesApplied|
    {
      var board := new SudokuBoard(puzzle);
      var applied, iterations;
      applied, iterations, rounds := Loop(board);
      AdvancedExtends(puzzle, board.grid[..]);
      FirstUseOrder(AllFired(GetAvailableTechniques(), rounds));
      r := Outcome(board.grid[..], applied, iterations, [], None, false, None);
    }

    /**
     * The while loop of solve: rounds until one changes nothing or
     * MaxIterations are done, which, every round counting as a change, is
     * always the latter.
     */
    method Loop(board: SudokuBoard) returns (applied: seq<string>, iteration: int, ghost rounds: seq<seq<AllReturn>>)
      requires board.Valid()
      modifies board.grid
      ensures board.Valid() && Advances(old(board.grid[..]), board.grid[..])
      ensures iteration == MaxIterations == |rounds|
      ensures History(techniques, GetAvailableTechniques(), rounds, applied)
      ensures |applied| >= 2 && applied[0] == "Naked Singles" && "Hidden Pairs" in applied
    {
      ghost var names := GetAvailableTechniques();
      ghost var g0 := board.grid[..];
      applied := [];
      var changed := true;
      iteration := 0;
      rounds := [];
      while changed && iteration < MaxIterations
        invariant board.Valid() && Advances(g0, board.grid[..])
        invariant 0 <= iteration <= MaxIterations && changed
        invariant |rounds| == iteration
        invariant History(techniques, names, rounds, applied)
        invariant NoDuplicates(applied) && forall x :: x in applied ==> x in names
        invariant iteration > 0 ==> |applied| >= 2 && applied[0] == "Naked Singles" && "Hidden Pairs" in applied
        decreases MaxIterations - iteration
      {
        changed := false;
        iteration := iteration + 1;
        ghost var before := board.grid[..];
        ghost var results, boards;
        ghost var prev := applied;
        changed, applied, results, boards := Round(board, applied);
        AdvancesTrans(g0, before, board.grid[..]);
        HistoryNext(techniques, names, rounds, prev, results);
        rounds := rounds + [results];
      }
    }

    /**
     * One pass of the for loop: each technique in turn, noting its name
     * when its result is true (`results` holds the four results, `boards`
     * the board before the pass and after each call). A call whose result
     * is false only refreshed the candidates. Naked singles and hidden
     * pairs are always noted, so the round always reports a change.
     */
    method Round(board: SudokuBoard, applied: seq<string>)
        returns (changed: bool, applied': seq<string>, ghost results: seq<AllReturn>, ghost boards: seq<Grid>)
      requires board.Valid()
      requires NoDuplicates(applied) && forall x :: x in applied ==> x in GetAvailableTechniques()
      requires |applied| > 0 ==> applied[0] == "Naked Singles"
      modifies board.grid
      ensures board.Valid() && Advances(old(board.grid[..]), board.grid[..])
      ensures Fired(techniques, results) && Calls(techniques, boards, results)
      ensures boards[0] == old(board.grid[..]) && boards[|techniques|] == board.grid[..]
      ensures applied' == NoteAll(applied, FiredNames(GetAvailableTechniques(), results))
      ensures changed
      ensures NoDuplicates(applied') && forall x :: x in applied' ==> x in GetAvailableTechniques()
      ensures |applied'| >= 2 && applied'[0] == "Naked Singles" && "Hidden Pairs" in applied'
      ensures |applied| <= |applied'| && applied'[..|applied|] == applied
    {
      ghost var g0 := board.grid[..];
      ghost var names := GetAvailableTechniques();
      changed, applied' := false, applied;
      results, boards := [], [g0];
      for k := 0 to |techniques|
        invariant board.Valid() && Advances(g0, board.grid[..])
        invariant |results| == k && Calls(techniques, boards, results)
        invariant boards[0] == g0 && boards[k] == board.grid[..]
        invariant applied' == NoteAll(applied, FiredNames(names, results))
        invariant k >= 1 ==> changed
      {
        var (name, technique) := techniques[k];
        ghost var before := board.grid[..];
        var result := RunAll(technique, board);
        AdvancesTrans(g0, before, board.grid[..]);
        assert name == names[k];
        NoteFiredNext(applied, names, results, result);
        if Truthy(result) {
          changed := true;
          applied' := NoteApplied(applied', name);
        }
        assert Called(technique, before, board.grid[..], result);
        CallsNext(techniques, boards, results, board.grid[..], result);
        results, boards := results + [result], boards + [board.grid[..]];
      }
      assert Called(techniques[0].1, boards[0], boards[1], results[0]);
      assert Called(techniques[2].1, boards[2], boards[3], results[2]);
      AppliedAfterRound(applied, names, results);
      NoteAllMeaning(applied, FiredNames(names, results));
      CallsFired(techniques, boards, results);
    }
  }
}
