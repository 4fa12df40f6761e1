/**
 * FrontendSudokuSolver: the solve loop that splits its record into
 * technique steps (what a technique filled and what it removed from cells
 * it left empty) and constraint-elimination steps (what update_candidates
 * removed after cells were filled).
 *
 * step_number goes up on every true technique result, whether or not a
 * step was recorded, and the result reports step_number - 1 as
 * total_logical_steps. Three of the five techniques return a tuple, which
 * is always true, so every round counts as a change and runs three to
 * five logical steps.
 */
module FrontendSolver {
  import opened Wrappers
  import opened Geometry
  import opened Board
  import opened Dispatch
  import opened Trace

  /** A technique step: what the technique filled, and what it removed from cells still empty after it. */
  predicate TechniqueShown(s: SolvingStep) {
    s.kind == TechniqueApplied && Shaped(s) && ShowsFills(s) && ShowsChanges(s, true)
    && AllTagged(s.candidateChanges, Untagged)
    && s.candidatesEliminated == |s.candidateChanges|
    && (s.cellsSolved > 0 || s.candidateChanges != [])
  }

  /** A constraint step: no cell filled, and every recorded loss shown against a still empty cell. */
  predicate ConstraintShown(s: SolvingStep) {
    Shaped(s) && s.cellsSolved == 0 && ShowsChanges(s, true) && AllTagged(s.candidateChanges, Untagged)
    && s.candidatesEliminated == |s.candidateChanges| && s.candidateChanges != []
  }

  /**
   * The shape of solving_steps: an initial_constraints step can only come
   * first; each technique step names a technique of the table; each
   * constraint step directly follows the technique step whose fills
   * caused it and cites the same solved positions.
   */
  predicate FrontendTrace(steps: seq<SolvingStep>, names: seq<string>) {
    forall k :: 0 <= k < |steps| ==> FitsAt(steps, k, names)
  }

  /** Step k of the trace on its own and next to the step before it. */
  predicate FitsAt(steps: seq<SolvingStep>, k: int, names: seq<string>)
    requires 0 <= k < |steps|
  {
    EntryFits(steps[k], names)
    && (steps[k].kind == InitialConstraints ==> k == 0)
    && (steps[k].kind == ConstraintElimination ==> k > 0 && Follows(steps[k - 1], steps[k]))
  }

  /** What each kind of step must satisfy on its own. */
  predicate EntryFits(s: SolvingStep, names: seq<string>) {
    (s.kind == InitialConstraints || s.kind == TechniqueApplied || s.kind == ConstraintElimination)
    && (s.kind == InitialConstraints ==> s.technique == "Initial Setup" && ConstraintShown(s))
    && (s.kind == TechniqueApplied ==> s.technique in names && TechniqueShown(s))
    && (s.kind == ConstraintElimination ==> s.technique == "Constraint Propagation" && ConstraintShown(s))
  }

  /** A constraint step follows the technique step whose fills caused it and cites its solved positions. */
  predicate Follows(prev: SolvingStep, s: SolvingStep) {
    prev.kind == TechniqueApplied && prev.cellsSolved > 0 && s.solvedPositions == prev.solvedPositions
  }

  /**
   * The steps one technique call adds: nothing, a technique step, or a
   * technique step and its constraint step. The technique step carries the
   * step_number its description is written with.
   */
  predicate BlockShape(block: seq<SolvingStep>, name: string, stepNumber: int) {
    |block| <= 2
    && (|block| >= 1 ==> block[0].technique == name && TechniqueShown(block[0]) && block[0].stepNumber == Some(stepNumber))
    && (|block| == 2 ==>
          block[1].kind == ConstraintElimination && block[1].technique == "Constraint Propagation"
          && ConstraintShown(block[1]) && block[0].cellsSolved > 0
          && block[1].solvedPositions == block[0].solvedPositions)
  }

  /** Appending a block keeps the shape of the trace and whether it starts with the initial step. */
  lemma AppendBlock(steps: seq<SolvingStep>, block: seq<SolvingStep>, names: seq<string>, name: string, stepNumber: int)
    requires FrontendTrace(steps, names) && BlockShape(block, name, stepNumber) && name in names
    ensures FrontendTrace(steps + block, names)
    ensures StartsWithInitial(steps + block) <==> StartsWithInitial(steps)
  {
    var all := steps + block;
    forall k | 0 <= k < |all|
      ensures FitsAt(all, k, names)
    {
      if k < |steps| {
        assert all[k] == steps[k];
        if k > 0 { assert all[k - 1] == steps[k - 1]; }
        assert FitsAt(steps, k, names);
      } else if k == |steps| {
        assert all[k] == block[0];
      } else {
        assert all[k] == block[1] && all[k - 1] == block[0];
        assert TechniqueShown(block[0]);
        assert Follows(block[0], block[1]);
      }
    }
    if steps == [] && block != [] {
      assert all[0] == block[0];
    }
  }

  /** The step update_candidates adds when it finds fresh eliminations. */
  function ConstraintStep(kind: StepKind, technique: string, g: Grid, changes: seq<Change>, solved: seq<Filled>): SolvingStep
    requires |g| == 81
  {
    ChangeStep(kind, technique, g, Tag(changes, Untagged), solved)
  }

  /** A constraint step reporting the diff from before to after (cells still empty only) is shown faithfully. */
  lemma ConstraintStepShown(kind: StepKind, technique: string, before: Grid, after: Grid,
                            changes: seq<Change>, solved: seq<Filled>)
    requires |before| == 81 && |after| == 81
    requires changes == CandidateDiff(before, after, 81, true) && changes != []
    ensures ConstraintShown(ConstraintStep(kind, technique, after, changes, solved))
  {
    var s := ConstraintStep(kind, technique, after, changes, solved);
    DiffShown(before, after, true, Untagged, s);
  }

  /**
   * The technique step for one true call: the technique's name and the
   * step_number, the board after the call, how many more cells are
   * filled, which cells were filled, and what was removed from cells
   * still empty after it.
   */
  function TechniqueStep(name: string, stepNumber: int, before: Grid, after: Grid): SolvingStep
    requires |before| == 81 && |after| == 81
  {
    var changes := CandidateDiff(before, after, 81, true);
    SolvingStep(TechniqueApplied, name, Some(stepNumber), ValueGrid(after), CandidatesGrid(after),
                FilledCount(after, 81) - FilledCount(before, 81), |changes|, Tag(changes, Untagged),
                NewlyFilled(before, after, 81), [], None, None, None)
  }

  /**
   * Step s was recorded from the boards of sh: a technique step from the
   * snapshot before its technique and the board the technique left; an
   * initial or constraint step from what an update_candidates run removed.
   */
  predicate Made(s: SolvingStep, sh: Shot) {
    |sh.before| == 81 && |sh.mid| == 81 && |sh.after| == 81
    && if s.kind == TechniqueApplied then
         sh.mid == sh.after && Advances(sh.before, sh.after) && s.stepNumber.Some?
         && s == TechniqueStep(s.technique, s.stepNumber.value, sh.before, sh.after)
       else
         sh.mid == sh.before && sh.after == PropagateAll(sh.before)
         && s == ConstraintStep(s.kind, s.technique, sh.after, Propagate(sh.before, AllPositions()).1, s.solvedPositions)
  }

  /** A step made from what one update_candidates run removed opens a run from the board it started on. */
  lemma ConstraintRecorded(kind: StepKind, technique: string, g: Grid, solved: seq<Filled>)
    requires |g| == 81 && kind != TechniqueApplied
    ensures var h := PropagateAll(g);
      Recorded(Made, g, [ConstraintStep(kind, technique, h, Propagate(g, AllPositions()).1, solved)], [Shot(g, g, h)], h)
  {
    var h := PropagateAll(g);
    var steps, shots := [ConstraintStep(kind, technique, h, Propagate(g, AllPositions()).1, solved)], [Shot(g, g, h)];
    assert Recorded(Made, g, steps[..0], shots[..0], g);
  }

  /**
   * The technique step for a call that filled cells or emptied candidates
   * of cells still empty is shown faithfully, counts the cells it lists,
   * and is made from the boards before and after the call.
   */
  lemma TechniqueRecorded(name: string, stepNumber: int, before: Grid, after: Grid)
    requires |before| == 81 && |after| == 81 && Advances(before, after)
    requires NewlyFilled(before, after, 81) != [] || CandidateDiff(before, after, 81, true) != []
    ensures var s := TechniqueStep(name, stepNumber, before, after);
      TechniqueShown(s) && s.cellsSolved == |s.solvedPositions|
      && Recorded(Made, before, [s], [Shot(before, after, after)], after)
  {
    var s := TechniqueStep(name, stepNumber, before, after);
    CellsSolvedCount(before, after, 81);
    DiffShown(before, after, true, Untagged, s);
    FillsShown(before, after, s);
    assert Recorded(Made, before, [s][..0], [Shot(before, after, after)][..0], before);
  }

  /** Three different names in a list make it at least three long. */
  lemma ThreeNames(names: seq<string>, a: string, b: string, c: string)
    requires a in names && b in names && c in names && a != b && a != c && b != c
    ensures |names| >= 3
  {
    var i :| 0 <= i < |names| && names[i] == a;
    var j :| 0 <= j < |names| && names[j] == b;
    var k :| 0 <= k < |names| && names[k] == c;
    assert i != j && i != k && j != k;
  }

  /**
   * After k techniques of a round that started from `start`: the names
   * noted are distinct table names with naked singles first; naked singles
   * (k >= 1), hidden pairs (k >= 3) and naked triples (k >= 5) have been
   * noted; step_number went up for at least half of them; the trace keeps
   * its shape and its first step.
   */
  predicate RoundSoFar(st: RoundState, k: int, start: RoundState, names: seq<string>) {
    NoDuplicates(st.applied) && (forall x :: x in st.applied ==> x in names)
    && (|st.applied| > 0 ==> st.applied[0] == "Naked Singles")
    && (k >= 1 ==> st.changed && "Naked Singles" in st.applied)
    && (k >= 3 ==> "Hidden Pairs" in st.applied)
    && (k >= 5 ==> "Naked Triples" in st.applied)
    && start.stepNumber + (k + 1) / 2 <= st.stepNumber <= start.stepNumber + k
    && FrontendTrace(st.steps, names)
    && (StartsWithInitial(st.steps) <==> StartsWithInitial(start.steps))
  }

  /** The round state after one technique: name noted and step_number advanced when the result was true. */
  function Next(st: RoundState, name: string, truthy: bool, block: seq<SolvingStep>): (st': RoundState)
    ensures st'.steps == st.steps + block
  {
    if truthy then RoundState(true, NoteApplied(st.applied, name), st.steps + block, st.stepNumber + 1)
    else st.(steps := st.steps + block)
  }

  /** The k-th technique of a round keeps RoundSoFar; the first, third and fifth are always true. */
  lemma NextSoFar(st: RoundState, k: int, start: RoundState, names: seq<string>, name: string, truthy: bool,
                  block: seq<SolvingStep>)
    requires RoundSoFar(st, k, start, names) && 0 <= k < 5 && name in names
    requires k == 0 ==> name == "Naked Singles"
    requires k == 2 ==> name == "Hidden Pairs"
    requires k == 4 ==> name == "Naked Triples"
    requires (k == 0 || k == 2 || k == 4) ==> truthy
    requires !truthy ==> block == []
    requires BlockShape(block, name, st.stepNumber)
    ensures RoundSoFar(Next(st, name, truthy, block), k + 1, start, names)
  {
    AppendBlock(st.steps, block, names, name, st.stepNumber);
  }

  class FrontendSudokuSolver {
    /** self.MAX_ITERATIONS */
    const maxIterations: int

    /** The techniques, in the order they are tried. */
    const techniques: seq<(string, AllTechnique)> := [
      ("Naked Singles", NakedSinglesAll),
      ("Hidden Singles", HiddenSinglesAll),
      ("Hidden Pairs", HiddenPairsAll),
      ("Naked Pairs", NakedPairsAll),
      ("Naked Triples", NakedTriplesAll)
    ]

    constructor (cap: int)
      ensures maxIterations == cap
    {
      maxIterations := cap;
    }

    /**
     * FrontendSudokuSolver(max_iterations): the cap is the argument when
     * one is given. Without one it is read from a settings attribute the
     * settings module does not define, so construction fails; that is also
     * what happens to the module-level instance.
     */
    static method Create(maxIterations: Option<int>) returns (r: Result<FrontendSudokuSolver>)
      ensures r.Ok? <==> maxIterations.Some?
      ensures r.Ok? ==> r.value.maxIterations == maxIterations.value
      ensures r.Err? ==> r.error.AttributeError?
    {
      if maxIterations.None? {
        return Err(AttributeError("SUDOKU_MAX_ITERATIONS"));
      }
      var solver := new FrontendSudokuSolver(maxIterations.value);
      return Ok(solver);
    }

    /** get_available_techniques: the names of the table, in order, none twice. */
    function GetAvailableTechniques(): (names: seq<string>)
      ensures |names| == |techniques| && forall k :: 0 <= k < |names| ==> names[k] == techniques[k].0
      ensures NoDuplicates(names)
    {
      seq(|techniques|, k requires 0 <= k < |techniques| => techniques[k].0)
    }

    /**
     * solve: the grid reached extends the puzzle and is_solved says whether
     * it is a solution; the loop runs exactly max(MAX_ITERATIONS, 0)
     * rounds; each round adds three to five logical steps; the trace has
     * the shape FrontendTrace describes and starts with an
     * initial_constraints step exactly when the first update_candidates
     * removed something.
     */
    method Solve(puzzle: seq<seq<int>>) returns (r: SolveResult, ghost shots: seq<Shot>, ghost g: Grid)
      requires NineByNine(puzzle)
      ensures NineByNine(r.solvedGrid) && Extends(puzzle, r.solvedGrid)
      ensures r.isSolved <==> GridSolved(r.solvedGrid)
      ensures r.iterations == if maxIterations >= 1 then maxIterations else 0
      ensures r.totalSteps.Some? && 3 * r.iterations <= r.totalSteps.value <= 5 * r.iterations
      ensures r.message.steps == r.totalSteps
      ensures NoDuplicates(r.techniquesApplied)
      ensures forall x :: x in r.techniquesApplied ==> x in GetAvailableTechniques()
      ensures r.iterations > 0 ==>
        |r.techniquesApplied| >= 3 && r.techniquesApplied[0] == "Naked Singles"
        && "Hidden Pairs" in r.techniquesApplied && "Naked Triples" in r.techniquesApplied
      ensures FrontendTrace(r.solvingSteps, GetAvailableTechniques())
      ensures StartsWithInitial(r.solvingSteps) <==> Propagate(NewGrid(puzzle), AllPositions()).1 != []
      ensures |g| == 81 && Recorded(Made, NewGrid(puzzle), r.solvingSteps, shots, g) && r.solvedGrid == ValueGrid(g)
    {
      var board := new SudokuBoard(puzzle);
      ghost var g0 := board.grid[..];
      var steps;
      steps, shots := InitialStep(board);
      var applied, iteration, stepNumber;
      ghost var g1 := board.grid[..];
      applied, steps, iteration, stepNumber, shots := Loop(board, steps, g0, shots);
      AdvancesTrans(g0, g1, board.grid[..]);
      AdvancedExtends(puzzle, board.grid[..]);
      g := board.grid[..];
      r := Outcome(board.grid[..], applied, iteration, steps, Some(stepNumber - 1), true, Some(stepNumber - 1));
    }

    /**
     * The while loop: it stops when a round reports no change, which never
     * happens, or after maxIterations rounds.
     */
    method Loop(board: SudokuBoard, steps: seq<SolvingStep>, ghost g0: Grid, ghost shots: seq<Shot>)
      returns (applied: seq<string>, steps': seq<SolvingStep>, iteration: int, stepNumber: int, ghost shots': seq<Shot>)
      requires board.Valid() && FrontendTrace(steps, GetAvailableTechniques())
      requires Recorded(Made, g0, steps, shots, board.grid[..])
      modifies board.grid
      ensures board.Valid() && Advances(old(board.grid[..]), board.grid[..])
      ensures iteration == if maxIterations >= 1 then maxIterations else 0
      ensures 3 * iteration <= stepNumber - 1 <= 5 * iteration
      ensures NoDuplicates(applied) && forall x :: x in applied ==> x in GetAvailableTechniques()
      ensures iteration > 0 ==>
        |applied| >= 3 && applied[0] == "Naked Singles" && "Hidden Pairs" in applied && "Naked Triples" in applied
      ensures FrontendTrace(steps', GetAvailableTechniques())
      ensures StartsWithInitial(steps') <==> StartsWithInitial(steps)
      ensures Recorded(Made, g0, steps', shots', board.grid[..])
    {
      ghost var names := GetAvailableTechniques();
      ghost var g1 := board.grid[..];
      applied, steps', iteration, stepNumber, shots' := [], steps, 0, 1, shots;
      var changed := true;
      while changed && iteration < maxIterations
        invariant board.Valid() && Advances(g1, board.grid[..])
        invariant Recorded(Made, g0, steps', shots', board.grid[..])
        invariant 0 <= iteration && (iteration == 0 || iteration <= maxIterations) && changed
        invariant 3 * iteration <= stepNumber - 1 <= 5 * iteration
        invariant NoDuplicates(applied) && forall x :: x in applied ==> x in names
        invariant iteration == 0 ==> applied == []
        invariant iteration > 0 ==>
          |applied| >= 3 && applied[0] == "Naked Singles" && "Hidden Pairs" in applied && "Naked Triples" in applied
        invariant FrontendTrace(steps', names)
        invariant StartsWithInitial(steps') <==> StartsWithInitial(steps)
        decreases maxIterations - iteration
      {
        changed := false;
        iteration := iteration + 1;
        ghost var before := board.grid[..];
        changed, applied, steps', stepNumber, shots' := Round(board, applied, steps', stepNumber, g0, shots');
        AdvancesTrans(g1, before, board.grid[..]);
      }
    }

    /** The first update_candidates, and the initial_constraints step when it removed anything. */
    method InitialStep(board: SudokuBoard) returns (steps: seq<SolvingStep>, ghost shots: seq<Shot>)
      requires board.Valid()
      modifies board.grid
      ensures board.Valid() && board.grid[..] == PropagateAll(old(board.grid[..]))
      ensures Advances(old(board.grid[..]), board.grid[..])
      ensures FrontendTrace(steps, GetAvailableTechniques())
      ensures StartsWithInitial(steps) <==> Propagate(old(board.grid[..]), AllPositions()).1 != []
      ensures Recorded(Made, old(board.grid[..]), steps, shots, board.grid[..])
    {
      ghost var g0 := board.grid[..];
      var constraintChanges := board.UpdateCandidates();
      NarrowsAdvances(g0, board.grid[..]);
      steps, shots := [], [];
      if constraintChanges != [] {
        UpdateCandidatesIsDiff(g0, true);
        ConstraintStepShown(InitialConstraints, "Initial Setup", g0, board.grid[..], constraintChanges, []);
        steps := [ConstraintStep(InitialConstraints, "Initial Setup", board.grid[..], constraintChanges, [])];
        assert FitsAt(steps, 0, GetAvailableTechniques());
        shots := [Shot(g0, g0, board.grid[..])];
        ConstraintRecorded(InitialConstraints, "Initial Setup", g0, []);
      }
    }

    /**
     * One pass of the for loop over the techniques. Naked singles, hidden
     * pairs and naked triples are always true, so the round reports a
     * change, notes those three names and advances step_number by three
     * to five.
     */
    method Round(board: SudokuBoard, applied: seq<string>, steps: seq<SolvingStep>, stepNumber: int,
                 ghost g0: Grid, ghost shots: seq<Shot>)
      returns (changed: bool, applied': seq<string>, steps': seq<SolvingStep>, stepNumber': int, ghost shots': seq<Shot>)
      requires board.Valid()
      requires Recorded(Made, g0, steps, shots, board.grid[..])
      requires NoDuplicates(applied) && forall x :: x in applied ==> x in GetAvailableTechniques()
      requires |applied| > 0 ==> applied[0] == "Naked Singles"
      requires FrontendTrace(steps, GetAvailableTechniques())
      modifies board.grid
      ensures board.Valid() && Advances(old(board.grid[..]), board.grid[..])
      ensures changed && stepNumber + 3 <= stepNumber' <= stepNumber + 5
      ensures NoDuplicates(applied') && forall x :: x in applied' ==> x in GetAvailableTechniques()
      ensures |applied'| >= 3 && applied'[0] == "Naked Singles"
      ensures "Hidden Pairs" in applied' && "Naked Triples" in applied'
      ensures FrontendTrace(steps', GetAvailableTechniques())
      ensures StartsWithInitial(steps') <==> StartsWithInitial(steps)
      ensures Recorded(Made, g0, steps', shots', board.grid[..])
    {
      ghost var g1 := board.grid[..];
      var st := RoundState(false, applied, steps, stepNumber);
      ghost var start := st;
      shots' := shots;
      for k := 0 to |techniques|
        invariant board.Valid() && Advances(g1, board.grid[..])
        invariant RoundSoFar(st, k, start, GetAvailableTechniques())
        invariant Recorded(Made, g0, st.steps, shots', board.grid[..])
      {
        ghost var before := board.grid[..];
        st, shots' := Attempt(board, k, start, st, g0, shots');
        AdvancesTrans(g1, before, board.grid[..]);
      }
      ThreeNames(st.applied, "Naked Singles", "Hidden Pairs", "Naked Triples");
      changed, applied', steps', stepNumber' := st.changed, st.applied, st.steps, st.stepNumber;
    }

    /**
     * The k-th technique of a round: its result is examined, its name noted,
     * step_number advanced and its steps appended when the result is true.
     */
    method Attempt(board: SudokuBoard, k: int, ghost start: RoundState, st: RoundState, ghost g0: Grid, ghost shots: seq<Shot>)
      returns (st': RoundState, ghost shots': seq<Shot>)
      requires board.Valid() && 0 <= k < |techniques|
      requires RoundSoFar(st, k, start, GetAvailableTechniques())
      requires Recorded(Made, g0, st.steps, shots, board.grid[..])
      modifies board.grid
      ensures board.Valid() && Advances(old(board.grid[..]), board.grid[..])
      ensures RoundSoFar(st', k + 1, start, GetAvailableTechniques())
      ensures Recorded(Made, g0, st'.steps, shots', board.grid[..])
    {
      ghost var names := GetAvailableTechniques();
      ghost var before := board.grid[..];
      var (name, technique) := techniques[k];
      assert name == names[k];
      var truthy, block;
      ghost var blockShots;
      truthy, block, blockShots := Record(board, name, technique, st.stepNumber);
      NextSoFar(st, k, start, names, name, truthy, block);
      st' := Next(st, name, truthy, block);
      RecordedAppend(Made, g0, st.steps, shots, before, block, blockShots, board.grid[..]);
      shots' := shots + blockShots;
    }

    /**
     * One technique call with its bookkeeping: snapshot, call, and when the
     * result is true, a technique step if cells were filled or still empty
     * cells lost candidates, numbered with the current step_number, then,
     * if cells were filled, update_candidates and a constraint step if it
     * removed anything.
     */
    method Record(board: SudokuBoard, name: string, technique: AllTechnique, stepNumber: int)
      returns (truthy: bool, block: seq<SolvingStep>, ghost shots: seq<Shot>)
      requires board.Valid()
      modifies board.grid
      ensures board.Valid() && Advances(old(board.grid[..]), board.grid[..])
      ensures ReturnsTuple(technique) ==> truthy
      ensures !truthy ==> block == [] && board.grid[..] == PropagateAll(old(board.grid[..]))
      ensures truthy && block == [] ==> board.grid[..] == old(board.grid[..])
      ensures BlockShape(block, name, stepNumber)
      ensures block != [] ==>
                |shots| >= 1 && |shots[0].after| == 81
                && block[0] == TechniqueStep(name, stepNumber, old(board.grid[..]), shots[0].after)
      ensures |block| == 2 ==>
                board.grid[..] == PropagateAll(shots[0].after)
                && block[1] == ConstraintStep(ConstraintElimination, "Constraint Propagation", board.grid[..],
                                              Propagate(shots[0].after, AllPositions()).1, block[0].solvedPositions)
      ensures Recorded(Made, old(board.grid[..]), block, shots, board.grid[..])
    {
      var before := board.grid[..];
      var result := RunAll(technique, board);
      truthy := Truthy(result);
      block, shots := [], [];
      if truthy {
        block, shots := Report(board, name, stepNumber, before);
      }
    }

    /**
     * The bookkeeping after a true result, with the board the technique
     * left: the technique step when it filled cells or emptied candidates
     * of cells still empty, then update_candidates and its constraint step
     * when it filled cells.
     */
    method Report(board: SudokuBoard, name: string, stepNumber: int, before: Grid)
      returns (block: seq<SolvingStep>, ghost shots: seq<Shot>)
      requires board.Valid() && |before| == 81 && Advances(before, board.grid[..])
      modifies board.grid
      ensures board.Valid() && Advances(before, board.grid[..])
      ensures block == [] ==> board.grid[..] == before
      ensures BlockShape(block, name, stepNumber)
      ensures block != [] ==>
                |shots| >= 1 && |shots[0].after| == 81
                && block[0] == TechniqueStep(name, stepNumber, before, shots[0].after)
      ensures |block| == 2 ==>
                board.grid[..] == PropagateAll(shots[0].after)
                && block[1] == ConstraintStep(ConstraintElimination, "Constraint Propagation", board.grid[..],
                                              Propagate(shots[0].after, AllPositions()).1, block[0].solvedPositions)
      ensures Recorded(Made, before, block, shots, board.grid[..])
    {
      block, shots := [], [];
      var after := board.grid[..];
      var cellsSolved := FilledCount(after, 81) - FilledCount(before, 81);
      var solvedPositions := SolvedPositions(before, after);
      var eliminations := CandidateChanges(before, after, true);
      CellsSolvedCount(before, after, 81);
      if cellsSolved > 0 || eliminations != [] {
        var step := TechniqueStep(name, stepNumber, before, after);
        TechniqueRecorded(name, stepNumber, before, after);
        block, shots := [step], [Shot(before, after, after)];
      } else {
        QuietCall(before, after);
      }
      if cellsSolved > 0 {
        var follow;
        ghost var followShots;
        follow, followShots := Propagation(board, solvedPositions);
        AdvancesTrans(before, after, board.grid[..]);
        RecordedAppend(Made, before, block, shots, after, follow, followShots, board.grid[..]);
        block, shots := block + follow, shots + followShots;
      }
    }

    /**
     * The update_candidates run after a technique filled cells, and the
     * constraint step citing those cells when it removed anything.
     */
    method Propagation(board: SudokuBoard, solvedPositions: seq<Filled>)
      returns (follow: seq<SolvingStep>, ghost shots: seq<Shot>)
      requires board.Valid()
      modifies board.grid
      ensures board.Valid() && Advances(old(board.grid[..]), board.grid[..])
      ensures board.grid[..] == PropagateAll(old(board.grid[..]))
      ensures |follow| <= 1 && (follow == [] <==> Propagate(old(board.grid[..]), AllPositions()).1 == [])
      ensures |follow| == 1 ==>
        follow[0].kind == ConstraintElimination && follow[0].technique == "Constraint Propagation"
        && ConstraintShown(follow[0]) && follow[0].solvedPositions == solvedPositions
        && follow[0] == ConstraintStep(ConstraintElimination, "Constraint Propagation", board.grid[..],
                                       Propagate(old(board.grid[..]), AllPositions()).1, solvedPositions)
      ensures Recorded(Made, old(board.grid[..]), follow, shots, board.grid[..])
    {
      var after := board.grid[..];
      var constraintChanges := board.UpdateCandidates();
      NarrowsAdvances(after, board.grid[..]);
      follow, shots := [], [];
      if constraintChanges != [] {
        UpdateCandidatesIsDiff(after, true);
        ConstraintStepShown(ConstraintElimination, "Constraint Propagation", after, board.grid[..],
                            constraintChanges, solvedPositions);
        follow := [ConstraintStep(ConstraintElimination, "Constraint Propagation", board.grid[..],
                                  constraintChanges, solvedPositions)];
        shots := [Shot(after, after, board.grid[..])];
        ConstraintRecorded(ConstraintElimination, "Constraint Propagation", after, solvedPositions);
      }
    }
  }
}
