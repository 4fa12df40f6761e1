/**
 * AdvancedSudokuSolver: the solve loop that records, for every true
 * technique result, one step listing what the technique removed (tagged
 * "technique") followed by what the update_candidates run after it removed
 * (tagged "constraint_propagation"), and closes with a "Final State" step
 * when the board is left unsolved.
 */
module AdvancedSolver {
  import opened Wrappers
  import opened Geometry
  import opened Board
  import opened Dispatch
  import opened Trace

  /** MAX_ITERATIONS */
  const MaxIterations := 100

  /** A technique change: a board cell that lost candidates, and the step's candidates are no more than what it kept. */
  predicate TechniqueChangeShown(s: SolvingStep, ch: Change)
    requires Shaped(s)
  {
    ValidPos(ch.position) && ch.location == Label(ch.position) && Loss(ch)
    && s.candidates[ch.position.0][ch.position.1] <= ch.newCandidates
  }

  /** The first t changes are the technique's, tagged "technique", each a loss the step's candidates reflect. */
  predicate TechniquePart(s: SolvingStep, t: int)
    requires Shaped(s) && 0 <= t <= |s.candidateChanges|
  {
    forall k :: 0 <= k < t ==>
      s.candidateChanges[k].tag == TechniqueTag && TechniqueChangeShown(s, s.candidateChanges[k].change)
  }

  /** The changes from t on are update_candidates', tagged "constraint_propagation", on cells still empty. */
  predicate ConstraintPart(s: SolvingStep, t: int)
    requires Shaped(s) && 0 <= t <= |s.candidateChanges|
  {
    forall k :: t <= k < |s.candidateChanges| ==>
      s.candidateChanges[k].tag == ConstraintTag && ShowsChange(s, s.candidateChanges[k].change)
      && s.grid[s.candidateChanges[k].change.position.0][s.candidateChanges[k].change.position.1] == 0
  }

  /**
   * A technique step: the technique's changes come first, then the
   * constraint changes; candidates_eliminated is their total, and the two
   * counts are recorded.
   */
  predicate StepShown(s: SolvingStep) {
    s.kind == TechniqueApplied && Shaped(s) && ShowsFills(s)
    && s.techniqueEliminations.Some? && s.constraintEliminations.Some?
    && 0 <= s.techniqueEliminations.value && 0 <= s.constraintEliminations.value
    && s.techniqueEliminations.value + s.constraintEliminations.value == |s.candidateChanges| == s.candidatesEliminated
    && TechniquePart(s, s.techniqueEliminations.value) && ConstraintPart(s, s.techniqueEliminations.value)
  }

  /** The initial step: the first update_candidates' changes, tagged "constraint_propagation". */
  predicate InitialShown(s: SolvingStep) {
    s.kind == InitialConstraints && s.technique == "Initial Constraint Propagation"
    && Shaped(s) && s.cellsSolved == 0 && ShowsChanges(s, true) && AllTagged(s.candidateChanges, ConstraintTag)
    && s.candidatesEliminated == |s.candidateChanges| && s.candidateChanges != []
  }

  /** A step of the main part of the trace, at index k. */
  predicate LoopStep(s: SolvingStep, k: int, names: seq<string>) {
    (k == 0 && InitialShown(s)) || (s.technique in names && StepShown(s))
  }

  /** The trace before the final step, built one step at a time. */
  predicate LoopTrace(steps: seq<SolvingStep>, names: seq<string>)
    decreases |steps|
  {
    steps == [] || (LoopTrace(steps[..|steps| - 1], names) && LoopStep(steps[|steps| - 1], |steps| - 1, names))
  }

  /** Every step of a main part is a well-formed step at its index. */
  lemma {:induction false} LoopTraceSteps(steps: seq<SolvingStep>, names: seq<string>)
    requires LoopTrace(steps, names)
    ensures forall k :: 0 <= k < |steps| ==> LoopStep(steps[k], k, names)
    decreases |steps|
  {
    if steps != [] {
      var init := steps[..|steps| - 1];
      LoopTraceSteps(init, names);
      forall k | 0 <= k < |steps| ensures LoopStep(steps[k], k, names) {
        if k < |init| {
          assert steps[k] == init[k];
        }
      }
    }
  }

  /** The whole trace: the main part, possibly closed by one final-state step that reports nothing. */
  predicate AdvancedTrace(steps: seq<SolvingStep>, names: seq<string>) {
    forall k :: 0 <= k < |steps| ==>
      LoopStep(steps[k], k, names)
      || (k == |steps| - 1 && k > 0 && steps[k].kind == FinalState && steps[k].technique == "Final State"
          && steps[k].cellsSolved == 0 && steps[k].candidatesEliminated == 0 && steps[k].candidateChanges == [])
  }

  /** The step solve records for a true technique result, from the snapshot before and the board after the technique. */
  function TechniqueStep(name: string, before: Grid, mid: Grid): SolvingStep
    requires |before| == 81 && |mid| == 81
  {
    var after := PropagateAll(mid);
    var techniqueChanges := Tag(CandidateDiff(before, mid, 81, false), TechniqueTag);
    var constraintChanges := Propagate(mid, AllPositions()).1;
    var allChanges := techniqueChanges + Tag(constraintChanges, ConstraintTag);
    SolvingStep(TechniqueApplied, name, None, ValueGrid(after), CandidatesGrid(after),
                FilledCount(after, 81) - FilledCount(before, 81), |allChanges|, allChanges,
                NewlyFilled(before, after, 81), [], None, Some(|techniqueChanges|), Some(|constraintChanges|))
  }

  /** Every technique step is shown faithfully: the counts add up and each change is where the step says. */
  lemma TechniqueStepShown(name: string, before: Grid, mid: Grid)
    requires |before| == 81 && |mid| == 81 && Advances(before, mid)
    ensures StepShown(TechniqueStep(name, before, mid))
    ensures TechniqueStep(name, before, mid).technique == name
  {
    var after := PropagateAll(mid);
    var s := TechniqueStep(name, before, mid);
    var diff := CandidateDiff(before, mid, 81, false);
    var constraintChanges := Propagate(mid, AllPositions()).1;
    assert s.candidateChanges == Tag(diff, TechniqueTag) + Tag(constraintChanges, ConstraintTag);
    NarrowsAdvances(mid, after);
    AdvancesTrans(before, mid, after);
    FillsShown(before, after, s);
    TechniquePartShown(before, mid, after, s, diff, Tag(constraintChanges, ConstraintTag));
    UpdateCandidatesIsDiff(mid, true);
    ConstraintPartShown(mid, after, s, Tag(diff, TechniqueTag), constraintChanges);
  }

  lemma TechniquePartShown(before: Grid, mid: Grid, after: Grid, s: SolvingStep, diff: seq<Change>, rest: seq<TaggedChange>)
    requires |before| == 81 && |mid| == 81 && |after| == 81 && Narrows(mid, after)
    requires diff == CandidateDiff(before, mid, 81, false)
    requires s.candidates == CandidatesGrid(after) && NineByNine(s.grid)
    requires s.candidateChanges == Tag(diff, TechniqueTag) + rest
    ensures Shaped(s) && TechniquePart(s, |diff|)
  {
    CandidateDiffMeaning(before, mid, 81, false);
    forall k | 0 <= k < |diff|
      ensures s.candidateChanges[k].tag == TechniqueTag && TechniqueChangeShown(s, s.candidateChanges[k].change)
    {
      assert s.candidateChanges[k] == TaggedChange(diff[k], TechniqueTag);
      assert RecordsLoss(before, mid, diff[k]);
    }
  }

  lemma ConstraintPartShown(mid: Grid, after: Grid, s: SolvingStep, first: seq<TaggedChange>, changes: seq<Change>)
    requires |mid| == 81 && |after| == 81
    requires changes == CandidateDiff(mid, after, 81, true)
    requires s.candidates == CandidatesGrid(after) && s.grid == ValueGrid(after)
    requires s.candidateChanges == first + Tag(changes, ConstraintTag)
    ensures Shaped(s) && ConstraintPart(s, |first|)
  {
    CandidateDiffMeaning(mid, after, 81, true);
    var t := |first|;
    forall k | t <= k < |s.candidateChanges|
      ensures s.candidateChanges[k].tag == ConstraintTag && ShowsChange(s, s.candidateChanges[k].change)
      ensures s.grid[s.candidateChanges[k].change.position.0][s.candidateChanges[k].change.position.1] == 0
    {
      assert s.candidateChanges[k] == TaggedChange(changes[k - t], ConstraintTag);
      LossShown(mid, after, true, s, changes[k - t]);
    }
  }

  /** The initial step. */
  function InitialStep(g: Grid, changes: seq<Change>): SolvingStep
    requires |g| == 81
  {
    ChangeStep(InitialConstraints, "Initial Constraint Propagation", g, Tag(changes, ConstraintTag), [])
  }

  /**
   * Step s was recorded from the boards of sh: the initial step from what
   * the first update_candidates removed, a technique step from the snapshot
   * before its technique, the board the technique left and the
   * update_candidates run after it, and the final step from the board left
   * at the end.
   */
  predicate Made(s: SolvingStep, sh: Shot) {
    |sh.before| == 81 && |sh.mid| == 81 && |sh.after| == 81
    && if s.kind == InitialConstraints then
         sh.mid == sh.before && sh.after == PropagateAll(sh.before)
         && s == InitialStep(sh.after, Propagate(sh.before, AllPositions()).1)
       else if s.kind == FinalState then
         sh.mid == sh.before && sh.after == sh.before && s == FinalStep(sh.before)
       else
         Advances(sh.before, sh.mid) && sh.after == PropagateAll(sh.mid) && s == TechniqueStep(s.technique, sh.before, sh.mid)
  }

  /** The final step, made from the board left at the end, extends a run that ends there. */
  lemma FinalRecorded(g0: Grid, steps: seq<SolvingStep>, shots: seq<Shot>, g: Grid)
    requires Recorded(Made, g0, steps, shots, g) && |g| == 81
    ensures Recorded(Made, g0, steps + [FinalStep(g)], shots + [Shot(g, g, g)], g)
  {
    var last := [FinalStep(g)];
    assert Recorded(Made, g, last[..0], [Shot(g, g, g)][..0], g);
    RecordedAppend(Made, g0, steps, shots, g, last, [Shot(g, g, g)], g);
  }

  /**
   * Where the solve loop stands after `iteration` rounds that took the
   * board from g1 to g: the counts and names of the rounds so far, and the
   * trace recorded along the run from g0, which starts with the initial
   * step exactly when `opens` holds.
   */
  ghost predicate Running(g1: Grid, g: Grid, g0: Grid, applied: seq<string>, steps: seq<SolvingStep>, shots: seq<Shot>,
                          stepNumber: int, iteration: int, opens: bool, names: seq<string>)
  {
    Advances(g1, g) && 0 <= iteration <= MaxIterations
    && 2 * iteration <= stepNumber - 1 <= 4 * iteration
    && NoDuplicates(applied) && (forall x :: x in applied ==> x in names)
    && (iteration == 0 ==> applied == [])
    && (iteration > 0 ==> |applied| >= 2 && applied[0] == "Naked Singles" && "Hidden Pairs" in applied)
    && LoopTrace(steps, names) && TechniqueStepCount(steps) == stepNumber - 1
    && (StartsWithInitial(steps) <==> opens)
    && Recorded(Made, g0, steps, shots, g)
  }

  /** The initial step, made from what the first update_candidates removed, opens a run. */
  lemma InitialRecorded(g0: Grid)
    requires |g0| == 81
    ensures var g := PropagateAll(g0);
      Recorded(Made, g0, [InitialStep(g, Propagate(g0, AllPositions()).1)], [Shot(g0, g0, g)], g)
  {
    var g := PropagateAll(g0);
    var steps, shots := [InitialStep(g, Propagate(g0, AllPositions()).1)], [Shot(g0, g0, g)];
    assert Recorded(Made, g0, steps[..0], shots[..0], g0);
  }

  /** Closing the trace: the main part is a whole trace, and so is the main part with a final step. */
  lemma CloseTrace(steps: seq<SolvingStep>, names: seq<string>, g: Grid)
    requires LoopTrace(steps, names) && |g| == 81
    ensures AdvancedTrace(steps, names) && !EndsWithFinal(steps)
    ensures steps != [] ==> AdvancedTrace(steps + [FinalStep(g)], names)
  {
    LoopTraceSteps(steps, names);
    if steps != [] {
      var all := steps + [FinalStep(g)];
      forall k | 0 <= k < |steps| ensures LoopStep(all[k], k, names) {
        assert all[k] == steps[k];
      }
    }
  }

  /**
   * After k techniques of a round that started from `start`: the names
   * noted are distinct table names with naked singles first; naked singles
   * (k >= 1) and hidden pairs (k >= 3) have been noted; one step has been
   * recorded for each of at least half of them; the trace is well formed,
   * counts its technique steps and keeps its first step.
   */
  predicate RoundSoFar(st: RoundState, k: int, start: RoundState, names: seq<string>) {
    NoDuplicates(st.applied) && (forall x :: x in st.applied ==> x in names)
    && (|st.applied| > 0 ==> st.applied[0] == "Naked Singles")
    && (k >= 1 ==> st.changed && "Naked Singles" in st.applied)
    && (k >= 3 ==> "Hidden Pairs" in st.applied)
    && start.stepNumber + (k + 1) / 2 <= st.stepNumber <= start.stepNumber + k
    && LoopTrace(st.steps, names) && TechniqueStepCount(st.steps) == st.stepNumber - 1
    && (StartsWithInitial(st.steps) <==> StartsWithInitial(start.steps))
  }

  /** The round's variables after the technique `name` ran and recorded `block`. */
  function Next(st: RoundState, name: string, block: seq<SolvingStep>): RoundState {
    if block != [] then RoundState(true, NoteApplied(st.applied, name), st.steps + block, st.stepNumber + 1)
    else st
  }

  /** The k-th technique of a round keeps RoundSoFar; the first and third always record a step. */
  lemma NextSoFar(st: RoundState, k: int, start: RoundState, names: seq<string>, name: string, block: seq<SolvingStep>)
    requires RoundSoFar(st, k, start, names) && 0 <= k < 4
    requires name in names && (k == 0 ==> name == "Naked Singles") && (k == 2 ==> name == "Hidden Pairs")
    requires (k == 0 || k == 2) ==> block != []
    requires |block| <= 1 && (|block| == 1 ==> block[0].technique == name && StepShown(block[0]))
    ensures RoundSoFar(Next(st, name, block), k + 1, start, names)
  {
    TechniqueStepCountAppend(st.steps, block);
    AppendStep(st.steps, block, names);
    if block == [] {
      assert st.steps + block == st.steps;
    }
  }

  class AdvancedSudokuSolver {
    /** The techniques, in the order they are tried. */
    const techniques: seq<(string, AllTechnique)> := [
      ("Naked Singles", NakedSinglesAll),
      ("Hidden Singles", HiddenSinglesAll),
      ("Hidden Pairs", HiddenPairsAll),
      ("Naked Pairs", NakedPairsAll)
    ]

    constructor () {
    }

    /** get_available_techniques: the names of the table, in order, none twice. */
    function GetAvailableTechniques(): (names: seq<string>)
      ensures |names| == |techniques| && forall k :: 0 <= k < |names| ==> names[k] == techniques[k].0
      ensures NoDuplicates(names)
    {
      seq(|techniques|, k requires 0 <= k < |techniques| => techniques[k].0)
    }

    /**
     * apply_technique_eliminations: call the technique and return its
     * result unchanged with the cells whose candidate sets lost values,
     * row by row, tagged "technique".
     */
    method ApplyTechniqueEliminations(board: SudokuBoard, name: string, technique: AllTechnique)
      returns (result: AllReturn, changes: seq<TaggedChange>)
      requires board.Valid()
      modifies board.grid
      ensures board.Valid() && Advances(old(board.grid[..]), board.grid[..])
      ensures Truthy(result) <==> ReturnsTuple(technique) || Progress(result)
      ensures changes == Tag(CandidateDiff(old(board.grid[..]), board.grid[..], 81, false), TechniqueTag)
      ensures !Truthy(result) ==> board.grid[..] == PropagateAll(old(board.grid[..]))
    {
      var before := board.grid[..];
      result := RunAll(technique, board);
      var after := board.grid[..];
      var diff := CandidateChanges(before, after, false);
      changes := Tag(diff, TechniqueTag);
    }

    /**
     * solve: the grid reached extends the puzzle and is_solved says whether
     * it is a solution; the loop runs exactly MaxIterations rounds; each
     * round records two to four technique steps, and the message counts
     * them; the trace has the shape AdvancedTrace describes, starts with
     * the initial step exactly when the first update_candidates removed
     * something, and ends with a final step exactly when there are steps,
     * the board is unsolved and a cell is empty.
     */
    method Solve(puzzle: seq<seq<int>>) returns (r: SolveResult, ghost shots: seq<Shot>, ghost g: Grid)
      requires NineByNine(puzzle)
      ensures NineByNine(r.solvedGrid) && Extends(puzzle, r.solvedGrid)
      ensures r.isSolved <==> GridSolved(r.solvedGrid)
      ensures r.iterations == MaxIterations
      ensures r.message.steps.Some? && 2 * MaxIterations <= r.message.steps.value <= 4 * MaxIterations
      ensures r.message.steps.value == TechniqueStepCount(r.solvingSteps)
      ensures NoDuplicates(r.techniquesApplied)
      ensures forall x :: x in r.techniquesApplied ==> x in GetAvailableTechniques()
      ensures |r.techniquesApplied| >= 2 && r.techniquesApplied[0] == "Naked Singles"
      ensures "Hidden Pairs" in r.techniquesApplied
      ensures AdvancedTrace(r.solvingSteps, GetAvailableTechniques())
      ensures StartsWithInitial(r.solvingSteps) <==> Propagate(NewGrid(puzzle), AllPositions()).1 != []
      ensures EndsWithFinal(r.solvingSteps) <==> !r.isSolved && HasEmpty(r.solvedGrid)
      ensures r.totalSteps == None
      ensures |g| == 81 && Recorded(Made, NewGrid(puzzle), r.solvingSteps, shots, g) && r.solvedGrid == ValueGrid(g)
    {
      var board := new SudokuBoard(puzzle);
      ghost var g0 := board.grid[..];
      var steps;
      steps, shots := Initial(board);
      ghost var g1 := board.grid[..];
      ghost var opens := StartsWithInitial(steps);
      var applied, stepNumber;
      applied, steps, stepNumber, shots := Loop(board, steps, g0, shots);
      AdvancesTrans(g0, g1, board.grid[..]);
      AdvancedExtends(puzzle, board.grid[..]);
      g := board.grid[..];
      r, shots := Close(board.grid[..], applied, steps, stepNumber, g1, g0, shots, opens);
    }

    /**
     * The while loop: it stops when a round reports no change, which never
     * happens, or after MaxIterations rounds.
     */
    method Loop(board: SudokuBoard, steps: seq<SolvingStep>, ghost g0: Grid, ghost shots: seq<Shot>)
      returns (applied: seq<string>, steps': seq<SolvingStep>, stepNumber: int, ghost shots': seq<Shot>)
      requires board.Valid()
      requires LoopTrace(steps, GetAvailableTechniques()) && TechniqueStepCount(steps) == 0
      requires Recorded(Made, g0, steps, shots, board.grid[..])
      modifies board.grid
      ensures board.Valid() && Advances(old(board.grid[..]), board.grid[..])
      ensures Running(old(board.grid[..]), board.grid[..], g0, applied, steps', shots', stepNumber, MaxIterations,
                      StartsWithInitial(steps), GetAvailableTechniques())
    {
      ghost var names := GetAvailableTechniques();
      ghost var g1 := board.grid[..];
      applied, steps', stepNumber, shots' := [], steps, 1, shots;
      var changed := true;
      var iteration := 0;
      while changed && iteration < MaxIterations
        invariant board.Valid() && changed
        invariant Running(g1, board.grid[..], g0, applied, steps', shots', stepNumber, iteration, StartsWithInitial(steps), names)
        decreases MaxIterations - iteration
      {
        changed, applied, steps', stepNumber, shots' :=
          Iterate(board, applied, steps', stepNumber, iteration, g1, g0, shots', StartsWithInitial(steps));
        iteration := iteration + 1;
      }
    }

    /** One round of the while loop, with the loop's invariant before and after it. */
    method Iterate(board: SudokuBoard, applied: seq<string>, steps: seq<SolvingStep>, stepNumber: int, iteration: int,
                   ghost g1: Grid, ghost g0: Grid, ghost shots: seq<Shot>, ghost opens: bool)
      returns (changed: bool, applied': seq<string>, steps': seq<SolvingStep>, stepNumber': int, ghost shots': seq<Shot>)
      requires board.Valid() && iteration < MaxIterations
      requires Running(g1, board.grid[..], g0, applied, steps, shots, stepNumber, iteration, opens, GetAvailableTechniques())
      modifies board.grid
      ensures board.Valid() && changed
      ensures Running(g1, board.grid[..], g0, applied', steps', shots', stepNumber', iteration + 1, opens, GetAvailableTechniques())
    {
      ghost var before := board.grid[..];
      changed, applied', steps', stepNumber', shots' := Round(board, applied, steps, stepNumber, g0, shots);
      AdvancesTrans(g1, before, board.grid[..]);
    }

    /** The end of solve: add the final step when the board is left unsolved, and build the result. */
    method Close(g: Grid, applied: seq<string>, steps: seq<SolvingStep>, stepNumber: int,
                 ghost g1: Grid, ghost g0: Grid, ghost shots: seq<Shot>, ghost opens: bool)
      returns (r: SolveResult, ghost shots': seq<Shot>)
      requires |g| == 81
      requires Running(g1, g, g0, applied, steps, shots, stepNumber, MaxIterations, opens, GetAvailableTechniques())
      ensures r.solvedGrid == ValueGrid(g) && NineByNine(r.solvedGrid) && (r.isSolved <==> GridSolved(r.solvedGrid))
      ensures r.techniquesApplied == applied && r.iterations == MaxIterations && r.totalSteps == None
      ensures r.message.steps == Some(stepNumber - 1) && r.message.steps.value == TechniqueStepCount(r.solvingSteps)
      ensures 2 * MaxIterations <= r.message.steps.value <= 4 * MaxIterations
      ensures NoDuplicates(applied) && forall x :: x in applied ==> x in GetAvailableTechniques()
      ensures |applied| >= 2 && applied[0] == "Naked Singles" && "Hidden Pairs" in applied
      ensures AdvancedTrace(r.solvingSteps, GetAvailableTechniques())
      ensures StartsWithInitial(r.solvingSteps) <==> opens
      ensures EndsWithFinal(r.solvingSteps) <==> !r.isSolved && HasEmpty(r.solvedGrid)
      ensures Recorded(Made, g0, r.solvingSteps, shots', g)
    {
      CloseTrace(steps, GetAvailableTechniques(), g);
      var all := AddFinalStep(steps, g);
      assert all[0] == steps[0];
      r := Outcome(g, applied, MaxIterations, all, Some(stepNumber - 1), true, None);
      assert all == steps || all == steps + [FinalStep(g)];
      shots' := shots;
      if all != steps {
        TechniqueStepCountAppend(steps, [FinalStep(g)]);
        FinalRecorded(g0, steps, shots, g);
        shots' := shots + [Shot(g, g, g)];
      }
      BoardSolvedIsGridSolved(g);
    }

    /** The first update_candidates, and the initial step when it removed anything. */
    method Initial(board: SudokuBoard) returns (steps: seq<SolvingStep>, ghost shots: seq<Shot>)
      requires board.Valid()
      modifies board.grid
      ensures board.Valid() && board.grid[..] == PropagateAll(old(board.grid[..]))
      ensures Advances(old(board.grid[..]), board.grid[..])
      ensures LoopTrace(steps, GetAvailableTechniques()) && TechniqueStepCount(steps) == 0
      ensures StartsWithInitial(steps) <==> Propagate(old(board.grid[..]), AllPositions()).1 != []
      ensures Recorded(Made, old(board.grid[..]), steps, shots, board.grid[..])
    {
      ghost var g0 := board.grid[..];
      var constraintChanges := board.UpdateCandidates();
      NarrowsAdvances(g0, board.grid[..]);
      steps, shots := [], [];
      if constraintChanges != [] {
        UpdateCandidatesIsDiff(g0, true);
        var step := InitialStep(board.grid[..], constraintChanges);
        DiffShown(g0, board.grid[..], true, ConstraintTag, step);
        assert LoopStep(step, 0, GetAvailableTechniques());
        steps := [step];
        assert steps[..0] == [];
        TechniqueStepCountAppend([], steps);
        assert [] + steps == steps;
        shots := [Shot(g0, g0, board.grid[..])];
        InitialRecorded(g0);
      }
    }

    /**
     * One pass of the for loop over the techniques. Naked singles and
     * hidden pairs are always true, so the round reports a change, notes
     * those two names and records two to four steps.
     */
    method Round(board: SudokuBoard, applied: seq<string>, steps: seq<SolvingStep>, stepNumber: int,
                 ghost g0: Grid, ghost shots: seq<Shot>)
      returns (changed: bool, applied': seq<string>, steps': seq<SolvingStep>, stepNumber': int, ghost shots': seq<Shot>)
      requires board.Valid()
      requires Recorded(Made, g0, steps, shots, board.grid[..])
      requires NoDuplicates(applied) && forall x :: x in applied ==> x in GetAvailableTechniques()
      requires |applied| > 0 ==> applied[0] == "Naked Singles"
      requires LoopTrace(steps, GetAvailableTechniques()) && TechniqueStepCount(steps) == stepNumber - 1
      modifies board.grid
      ensures board.Valid() && Advances(old(board.grid[..]), board.grid[..])
      ensures changed && stepNumber + 2 <= stepNumber' <= stepNumber + 4
      ensures NoDuplicates(applied') && forall x :: x in applied' ==> x in GetAvailableTechniques()
      ensures |applied'| >= 2 && applied'[0] == "Naked Singles" && "Hidden Pairs" in applied'
      ensures LoopTrace(steps', GetAvailableTechniques()) && TechniqueStepCount(steps') == stepNumber' - 1
      ensures StartsWithInitial(steps') <==> StartsWithInitial(steps)
      ensures Recorded(Made, g0, steps', shots', board.grid[..])
    {
      ghost var g1 := board.grid[..];
      var st := RoundState(false, applied, steps, stepNumber);
      ghost var start := st;
      shots' := shots;
      for k := 0 to |techniques|
        invariant board.Valid() && Advances(g1, board.grid[..])
        invariant RoundSoFar(st, k, start, GetAvailableTechniques())
        invariant Recorded(Made, g0, st.steps, shots', board.grid[..])
      {
        ghost var before := board.grid[..];
        st, shots' := Attempt(board, k, start, st, g0, shots');
        AdvancesTrans(g1, before, board.grid[..]);
      }
      TwoNames(st.applied, "Naked Singles", "Hidden Pairs");
      changed, applied', steps', stepNumber' := st.changed, st.applied, st.steps, st.stepNumber;
    }

    /**
     * The k-th technique of a round: its result is examined, its name noted
     * and its step appended to the trace when the result is true.
     */
    method Attempt(board: SudokuBoard, k: int, ghost start: RoundState, st: RoundState, ghost g0: Grid, ghost shots: seq<Shot>)
      returns (st': RoundState, ghost shots': seq<Shot>)
      requires board.Valid() && 0 <= k < |techniques|
      requires RoundSoFar(st, k, start, GetAvailableTechniques())
      requires Recorded(Made, g0, st.steps, shots, board.grid[..])
      modifies board.grid
      ensures board.Valid() && Advances(old(board.grid[..]), board.grid[..])
      ensures RoundSoFar(st', k + 1, start, GetAvailableTechniques())
      ensures Recorded(Made, g0, st'.steps, shots', board.grid[..])
    {
      ghost var names := GetAvailableTechniques();
      ghost var before := board.grid[..];
      var (name, technique) := techniques[k];
      assert name == names[k];
      var block;
      ghost var blockShots;
      block, blockShots := Record(board, name, technique);
      NextSoFar(st, k, start, names, name, block);
      st' := Next(st, name, block);
      RecordedAppend(Made, g0, st.steps, shots, before, block, blockShots, board.grid[..]);
      shots' := shots + blockShots;
      assert st'.steps == st.steps + block;
    }

    /**
     * One technique call: when its result is true, the step built from the
     * snapshot before, the technique's changes, and the update_candidates
     * that follows.
     */
    method Record(board: SudokuBoard, name: string, technique: AllTechnique)
      returns (block: seq<SolvingStep>, ghost shots: seq<Shot>)
      requires board.Valid()
      modifies board.grid
      ensures board.Valid() && Advances(old(board.grid[..]), board.grid[..])
      ensures ReturnsTuple(technique) ==> block != []
      ensures block != [] ==> |block| == 1 && block[0].technique == name && StepShown(block[0])
      ensures block != [] ==>
                |shots| == 1 && |shots[0].mid| == 81 && board.grid[..] == PropagateAll(shots[0].mid)
                && block[0] == TechniqueStep(name, old(board.grid[..]), shots[0].mid)
      ensures block == [] ==> board.grid[..] == PropagateAll(old(board.grid[..]))
      ensures Recorded(Made, old(board.grid[..]), block, shots, board.grid[..])
    {
      var before := board.grid[..];
      var result, techniqueChanges := ApplyTechniqueEliminations(board, name, technique);
      block, shots := [], [];
      if Truthy(result) {
        ghost var mid := board.grid[..];
        var step := TechniqueRecord(board, name, before, techniqueChanges);
        AdvancesTrans(before, mid, board.grid[..]);
        TechniqueStepShown(name, before, mid);
        block, shots := [step], [Shot(before, mid, board.grid[..])];
        assert Recorded(Made, before, block[..0], shots[..0], before);
      }
    }

    /**
     * The bookkeeping after a truthy result: update_candidates, then the
     * step listing the technique's and the propagation's changes.
     */
    method TechniqueRecord(board: SudokuBoard, name: string, before: Grid, techniqueChanges: seq<TaggedChange>)
      returns (step: SolvingStep)
      requires board.Valid() && |before| == 81 && Advances(before, board.grid[..])
      requires techniqueChanges == Tag(CandidateDiff(before, board.grid[..], 81, false), TechniqueTag)
      modifies board.grid
      ensures board.Valid() && Advances(old(board.grid[..]), board.grid[..])
      ensures step.technique == name && StepShown(step)
      ensures step == TechniqueStep(name, before, old(board.grid[..])) && board.grid[..] == PropagateAll(old(board.grid[..]))
    {
      var mid := board.grid[..];
      var constraintChanges := board.UpdateCandidates();
      NarrowsAdvances(mid, board.grid[..]);
      var after := board.grid[..];
      var cellsSolved := FilledCount(after, 81) - FilledCount(before, 81);
      var solvedPositions := SolvedPositions(before, after);
      var allChanges := techniqueChanges + Tag(constraintChanges, ConstraintTag);
      step := SolvingStep(TechniqueApplied, name, None, ValueGrid(after), CandidatesGrid(after),
                          cellsSolved, |allChanges|, allChanges, solvedPositions,
                          [], None, Some(|techniqueChanges|), Some(|constraintChanges|));
      TechniqueStepShown(name, before, mid);
      assert step == TechniqueStep(name, before, mid);
    }
  }

  /** Appending a technique step keeps the main part of the trace well formed. */
  lemma AppendStep(steps: seq<SolvingStep>, block: seq<SolvingStep>, names: seq<string>)
    requires LoopTrace(steps, names)
    requires |block| <= 1 && (|block| == 1 ==> block[0].technique in names && StepShown(block[0]))
    ensures LoopTrace(steps + block, names)
    ensures StartsWithInitial(steps + block) <==> StartsWithInitial(steps)
  {
    var all := steps + block;
    if block == [] {
      assert all == steps;
    } else {
      assert all[..|all| - 1] == steps;
    }
    if steps != [] {
      assert all[0] == steps[0];
    } else if block != [] {
      assert all[0] == block[0];
    }
  }
}
