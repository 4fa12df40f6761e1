/**
 * EnhancedSudokuSolver: the solve loop that records an "Initial State"
 * step showing the puzzle before the first update_candidates together with
 * what that update removed, then one step for every true technique result
 * with the cells it filled and the candidates it removed, and closes with a
 * "Final State" step when the board is left unsolved.
 */
module EnhancedSolver {
  import opened Wrappers
  import opened Geometry
  import opened Board
  import opened Dispatch
  import opened Trace

  /** MAX_ITERATIONS */
  const MaxIterations := 100

  /** A change shown against the snapshot before it: the step's candidates are the ones the cell had. */
  predicate ShowsOldChange(s: SolvingStep, ch: Change)
    requires Shaped(s)
  {
    ValidPos(ch.position) && ch.location == Label(ch.position) && Loss(ch)
    && s.candidates[ch.position.0][ch.position.1] == ch.oldCandidates
  }

  /**
   * The initial step shows the board before the first update_candidates,
   * and each change of that update is of an empty cell and starts from the
   * candidates the step shows.
   */
  predicate InitialShown(s: SolvingStep) {
    s.kind == InitialState && s.technique == "Initial State" && Shaped(s)
    && s.cellsSolved == 0 && s.candidatesEliminated == |s.candidateChanges|
    && AllTagged(s.candidateChanges, Untagged)
    && forall k :: 0 <= k < |s.candidateChanges| ==>
      ShowsOldChange(s, s.candidateChanges[k].change)
      && s.grid[s.candidateChanges[k].change.position.0][s.candidateChanges[k].change.position.1] == 0
  }

  /** A technique step: its fills and its changes are the ones its snapshot shows. */
  predicate StepShown(s: SolvingStep) {
    s.kind == TechniqueApplied && Shaped(s) && ShowsFills(s) && ShowsChanges(s, false)
    && AllTagged(s.candidateChanges, Untagged) && s.candidatesEliminated == |s.candidateChanges|
  }

  /** A step of the main part of the trace, at index k: the initial step first, technique steps after it. */
  predicate LoopStep(s: SolvingStep, k: int, names: seq<string>) {
    if k == 0 then InitialShown(s) else s.technique in names && StepShown(s)
  }

  /** The trace before the final step, built one step at a time. */
  predicate LoopTrace(steps: seq<SolvingStep>, names: seq<string>)
    decreases |steps|
  {
    steps == [] || (LoopTrace(steps[..|steps| - 1], names) && LoopStep(steps[|steps| - 1], |steps| - 1, names))
  }

  /** Every step of a main part is a well-formed step at its index. */
  lemma {:induction false} LoopTraceSteps(steps: seq<SolvingStep>, names: seq<string>)
    requires LoopTrace(steps, names)
    ensures forall k :: 0 <= k < |steps| ==> LoopStep(steps[k], k, names)
    decreases |steps|
  {
    if steps != [] {
      var init := steps[..|steps| - 1];
      LoopTraceSteps(init, names);
      forall k | 0 <= k < |steps| ensures LoopStep(steps[k], k, names) {
        if k < |init| {
          assert steps[k] == init[k];
        }
      }
    }
  }

  /** The whole trace: the main part, possibly closed by one final-state step that reports nothing. */
  predicate EnhancedTrace(steps: seq<SolvingStep>, names: seq<string>) {
    forall k :: 0 <= k < |steps| ==>
      LoopStep(steps[k], k, names)
      || (k == |steps| - 1 && k > 0 && steps[k].kind == FinalState && steps[k].technique == "Final State"
          && steps[k].cellsSolved == 0 && steps[k].candidatesEliminated == 0 && steps[k].candidateChanges == [])
  }

  /** The "Initial State" step: the board before propagation and the changes propagation made. */
  function InitialStep(g: Grid, changes: seq<Change>): SolvingStep
    requires |g| == 81
  {
    ChangeStep(InitialState, "Initial State", g, Tag(changes, Untagged), [])
  }

  /**
   * The initial step is shown faithfully: update_candidates only empties
   * candidates of empty cells, so each of its records starts from what the
   * board showed before it.
   */
  lemma InitialStepShown(g: Grid)
    requires |g| == 81
    ensures InitialShown(InitialStep(g, Propagate(g, AllPositions()).1))
  {
    var h := PropagateAll(g);
    var changes := Propagate(g, AllPositions()).1;
    var s := InitialStep(g, changes);
    UpdateCandidatesIsDiff(g, true);
    CandidateDiffMeaning(g, h, 81, true);
    forall k | 0 <= k < |s.candidateChanges|
      ensures ShowsOldChange(s, s.candidateChanges[k].change)
      ensures s.grid[s.candidateChanges[k].change.position.0][s.candidateChanges[k].change.position.1] == 0
    {
      var ch := changes[k];
      assert s.candidateChanges[k] == TaggedChange(ch, Untagged);
      assert RecordsLoss(g, h, ch);
      assert h[Idx(ch.position)].value == g[Idx(ch.position)].value;
    }
  }

  /** The step solve records for a true technique result, from the snapshots before and after it. */
  function TechniqueStep(name: string, before: Grid, after: Grid): SolvingStep
    requires |before| == 81 && |after| == 81
  {
    var changes := CandidateDiff(before, after, 81, false);
    SolvingStep(TechniqueApplied, name, None, ValueGrid(after), CandidatesGrid(after),
                FilledCount(after, 81) - FilledCount(before, 81), |changes|, Tag(changes, Untagged),
                NewlyFilled(before, after, 81), [], None, None, None)
  }

  /** Every technique step is shown faithfully: its fills and changes are what its snapshot shows. */
  lemma TechniqueStepShown(name: string, before: Grid, after: Grid)
    requires |before| == 81 && |after| == 81 && Advances(before, after)
    ensures StepShown(TechniqueStep(name, before, after))
    ensures TechniqueStep(name, before, after).technique == name
  {
    var s := TechniqueStep(name, before, after);
    DiffShown(before, after, false, Untagged, s);
    FillsShown(before, after, s);
  }

  /**
   * Step s was recorded from the boards of sh: the initial step from the
   * puzzle as given and what the first update_candidates removed, a
   * technique step from the snapshots taken before and after its technique,
   * and the final step from the board left at the end.
   */
  predicate Made(s: SolvingStep, sh: Shot) {
    |sh.before| == 81 && |sh.mid| == 81 && |sh.after| == 81
    && if s.kind == InitialState then
         sh.mid == sh.before && sh.after == PropagateAll(sh.before)
         && s == InitialStep(sh.before, Propagate(sh.before, AllPositions()).1)
       else if s.kind == FinalState then
         sh.mid == sh.before && sh.after == sh.before && s == FinalStep(sh.before)
       else
         sh.mid == sh.after && Advances(sh.before, sh.after) && s == TechniqueStep(s.technique, sh.before, sh.after)
  }

  /** Closing the trace: the main part is a whole trace, and so is the main part with a final step. */
  lemma CloseTrace(steps: seq<SolvingStep>, names: seq<string>, g: Grid)
    requires LoopTrace(steps, names) && |g| == 81
    ensures EnhancedTrace(steps, names) && !EndsWithFinal(steps)
    ensures steps != [] ==> EnhancedTrace(steps + [FinalStep(g)], names)
  {
    LoopTraceSteps(steps, names);
    if steps != [] {
      var all := steps + [FinalStep(g)];
      forall k | 0 <= k < |steps| ensures LoopStep(all[k], k, names) {
        assert all[k] == steps[k];
      }
    }
  }

  /** Appending a technique step keeps the main part of the trace well formed. */
  lemma AppendStep(steps: seq<SolvingStep>, block: seq<SolvingStep>, names: seq<string>)
    requires LoopTrace(steps, names) && steps != []
    requires |block| <= 1 && (|block| == 1 ==> block[0].technique in names && StepShown(block[0]))
    ensures LoopTrace(steps + block, names)
    ensures (steps + block)[0] == steps[0]
  {
    var all := steps + block;
    if block == [] {
      assert all == steps;
    } else {
      assert all[..|all| - 1] == steps;
    }
  }

  /**
   * After k techniques of a round that started from `start`: the names
   * noted are distinct table names with naked singles first; naked singles
   * (k >= 1) and hidden pairs (k >= 3) have been noted; one step has been
   * recorded for each of at least half of them; the trace is well formed
   * and counts its technique steps.
   */
  predicate RoundSoFar(st: RoundState, k: int, start: RoundState, names: seq<string>) {
    NoDuplicates(st.applied) && (forall x :: x in st.applied ==> x in names)
    && (|st.applied| > 0 ==> st.applied[0] == "Naked Singles")
    && (k >= 1 ==> st.changed && "Naked Singles" in st.applied)
    && (k >= 3 ==> "Hidden Pairs" in st.applied)
    && start.stepNumber + (k + 1) / 2 <= st.stepNumber <= start.stepNumber + k
    && LoopTrace(st.steps, names) && st.steps != [] && start.steps != [] && st.steps[0] == start.steps[0]
    && TechniqueStepCount(st.steps) == st.stepNumber - 1
  }

  /** The round's variables after the technique `name` ran and recorded `block`. */
  function Next(st: RoundState, name: string, block: seq<SolvingStep>): RoundState {
    if block != [] then RoundState(true, NoteApplied(st.applied, name), st.steps + block, st.stepNumber + 1)
    else st
  }

  /** The k-th technique of a round keeps RoundSoFar; the first and third always record a step. */
  lemma NextSoFar(st: RoundState, k: int, start: RoundState, names: seq<string>, name: string, block: seq<SolvingStep>)
    requires RoundSoFar(st, k, start, names) && 0 <= k < 4
    requires name in names && (k == 0 ==> name == "Naked Singles") && (k == 2 ==> name == "Hidden Pairs")
    requires (k == 0 || k == 2) ==> block != []
    requires |block| <= 1 && (|block| == 1 ==> block[0].technique == name && StepShown(block[0]))
    ensures RoundSoFar(Next(st, name, block), k + 1, start, names)
  {
    TechniqueStepCountAppend(st.steps, block);
    AppendStep(st.steps, block, names);
    if block == [] {
      assert st.steps + block == st.steps;
    }
  }

  /** The final step, made from the board left at the end, extends a run that ends there. */
  lemma FinalRecorded(g0: Grid, steps: seq<SolvingStep>, shots: seq<Shot>, g: Grid)
    requires Recorded(Made, g0, steps, shots, g) && |g| == 81
    ensures Recorded(Made, g0, steps + [FinalStep(g)], shots + [Shot(g, g, g)], g)
  {
    var last := [FinalStep(g)];
    assert Recorded(Made, g, last[..0], [Shot(g, g, g)][..0], g);
    RecordedAppend(Made, g0, steps, shots, g, last, [Shot(g, g, g)], g);
  }

  /**
   * Where the solve loop stands after `iteration` rounds that took the
   * board from g1 to g: the counts and names of the rounds so far, and the
   * trace recorded along the run from g0, which keeps its first step.
   */
  ghost predicate Running(g1: Grid, g: Grid, g0: Grid, applied: seq<string>, steps: seq<SolvingStep>, shots: seq<Shot>,
                          stepNumber: int, iteration: int, first: SolvingStep, names: seq<string>)
  {
    Advances(g1, g) && 0 <= iteration <= MaxIterations
    && 2 * iteration <= stepNumber - 1 <= 4 * iteration
    && NoDuplicates(applied) && (forall x :: x in applied ==> x in names)
    && (iteration == 0 ==> applied == [])
    && (iteration > 0 ==> |applied| >= 2 && applied[0] == "Naked Singles" && "Hidden Pairs" in applied)
    && LoopTrace(steps, names) && steps != [] && steps[0] == first
    && TechniqueStepCount(steps) == stepNumber - 1
    && Recorded(Made, g0, steps, shots, g)
  }

  class EnhancedSudokuSolver {
    /** The techniques, in the order they are tried. */
    const techniques: seq<(string, AllTechnique)> := [
      ("Naked Singles", NakedSinglesAll),
      ("Hidden Singles", HiddenSinglesAll),
      ("Hidden Pairs", HiddenPairsAll),
      ("Naked Pairs", NakedPairsAll)
    ]

    constructor () {
    }

    /** get_available_techniques: the names of the table, in order, none twice. */
    function GetAvailableTechniques(): (names: seq<string>)
      ensures |names| == |techniques| && forall k :: 0 <= k < |names| ==> names[k] == techniques[k].0
      ensures NoDuplicates(names)
    {
      seq(|techniques|, k requires 0 <= k < |techniques| => techniques[k].0)
    }

    /**
     * solve: the grid reached extends the puzzle and is_solved says whether
     * it is a solution; the loop runs exactly MaxIterations rounds; each
     * round records two to four technique steps, and the message counts
     * them; the trace opens with the puzzle as given and the changes of the
     * first update_candidates, has the shape EnhancedTrace describes, and
     * ends with a final step exactly when the board is unsolved and a cell
     * is empty.
     */
    method Solve(puzzle: seq<seq<int>>) returns (r: SolveResult, ghost shots: seq<Shot>, ghost g: Grid)
      requires NineByNine(puzzle)
      ensures NineByNine(r.solvedGrid) && Extends(puzzle, r.solvedGrid)
      ensures r.isSolved <==> GridSolved(r.solvedGrid)
      ensures r.iterations == MaxIterations
      ensures r.message.steps.Some? && 2 * MaxIterations <= r.message.steps.value <= 4 * MaxIterations
      ensures r.message.steps.value == TechniqueStepCount(r.solvingSteps)
      ensures NoDuplicates(r.techniquesApplied)
      ensures forall x :: x in r.techniquesApplied ==> x in GetAvailableTechniques()
      ensures |r.techniquesApplied| >= 2 && r.techniquesApplied[0] == "Naked Singles"
      ensures "Hidden Pairs" in r.techniquesApplied
      ensures EnhancedTrace(r.solvingSteps, GetAvailableTechniques())
      ensures r.solvingSteps != [] && r.solvingSteps[0] == InitialStep(NewGrid(puzzle), Propagate(NewGrid(puzzle), AllPositions()).1)
      ensures EndsWithFinal(r.solvingSteps) <==> !r.isSolved && HasEmpty(r.solvedGrid)
      ensures r.totalSteps == None
      ensures |g| == 81 && Recorded(Made, NewGrid(puzzle), r.solvingSteps, shots, g) && r.solvedGrid == ValueGrid(g)
    {
      var board := new SudokuBoard(puzzle);
      ghost var g0 := board.grid[..];
      var steps;
      steps, shots := Initial(board);
      var applied, stepNumber;
      ghost var g1 := board.grid[..];
      ghost var first := steps[0];
      applied, steps, stepNumber, shots := Loop(board, steps, g0, shots);
      AdvancesTrans(g0, g1, board.grid[..]);
      AdvancedExtends(puzzle, board.grid[..]);
      g := board.grid[..];
      r, shots := Close(board.grid[..], applied, steps, stepNumber, g1, g0, shots, first);
    }

    /**
     * The while loop: it stops when a round reports no change, which never
     * happens, or after MaxIterations rounds.
     */
    method Loop(board: SudokuBoard, steps: seq<SolvingStep>, ghost g0: Grid, ghost shots: seq<Shot>)
      returns (applied: seq<string>, steps': seq<SolvingStep>, stepNumber: int, ghost shots': seq<Shot>)
      requires board.Valid()
      requires LoopTrace(steps, GetAvailableTechniques()) && steps != [] && TechniqueStepCount(steps) == 0
      requires Recorded(Made, g0, steps, shots, board.grid[..])
      modifies board.grid
      ensures board.Valid() && Advances(old(board.grid[..]), board.grid[..])
      ensures Running(old(board.grid[..]), board.grid[..], g0, applied, steps', shots', stepNumber, MaxIterations,
                      steps[0], GetAvailableTechniques())
    {
      ghost var names := GetAvailableTechniques();
      ghost var g1 := board.grid[..];
      applied, steps', stepNumber, shots' := [], steps, 1, shots;
      var changed := true;
      var iteration := 0;
      while changed && iteration < MaxIterations
        invariant board.Valid() && changed
        invariant Running(g1, board.grid[..], g0, applied, steps', shots', stepNumber, iteration, steps[0], names)
        decreases MaxIterations - iteration
      {
        changed, applied, steps', stepNumber, shots' := Iterate(board, applied, steps', stepNumber, iteration, g1, g0, shots', steps[0]);
        iteration := iteration + 1;
      }
    }

    /** One round of the while loop, with the loop's invariant before and after it. */
    method Iterate(board: SudokuBoard, applied: seq<string>, steps: seq<SolvingStep>, stepNumber: int, iteration: int,
                   ghost g1: Grid, ghost g0: Grid, ghost shots: seq<Shot>, ghost first: SolvingStep)
      returns (changed: bool, applied': seq<string>, steps': seq<SolvingStep>, stepNumber': int, ghost shots': seq<Shot>)
      requires board.Valid() && iteration < MaxIterations
      requires Running(g1, board.grid[..], g0, applied, steps, shots, stepNumber, iteration, first, GetAvailableTechniques())
      modifies board.grid
      ensures board.Valid() && changed
      ensures Running(g1, board.grid[..], g0, applied', steps', shots', stepNumber', iteration + 1, first, GetAvailableTechniques())
    {
      ghost var before := board.grid[..];
      changed, applied', steps', stepNumber', shots' := Round(board, applied, steps, stepNumber, g0, shots);
      AdvancesTrans(g1, before, board.grid[..]);
    }

    /** The end of solve: add the final step when the board is left unsolved, and build the result. */
    method Close(g: Grid, applied: seq<string>, steps: seq<SolvingStep>, stepNumber: int,
                 ghost g1: Grid, ghost g0: Grid, ghost shots: seq<Shot>, ghost first: SolvingStep)
      returns (r: SolveResult, ghost shots': seq<Shot>)
      requires |g| == 81
      requires Running(g1, g, g0, applied, steps, shots, stepNumber, MaxIterations, first, GetAvailableTechniques())
      ensures r.solvedGrid == ValueGrid(g) && NineByNine(r.solvedGrid) && (r.isSolved <==> GridSolved(r.solvedGrid))
      ensures r.techniquesApplied == applied && r.iterations == MaxIterations && r.totalSteps == None
      ensures r.message.steps == Some(stepNumber - 1) && r.message.steps.value == TechniqueStepCount(r.solvingSteps)
      ensures 2 * MaxIterations <= r.message.steps.value <= 4 * MaxIterations
      ensures NoDuplicates(applied) && forall x :: x in applied ==> x in GetAvailableTechniques()
      ensures |applied| >= 2 && applied[0] == "Naked Singles" && "Hidden Pairs" in applied
      ensures EnhancedTrace(r.solvingSteps, GetAvailableTechniques())
      ensures r.solvingSteps != [] && r.solvingSteps[0] == first
      ensures EndsWithFinal(r.solvingSteps) <==> !r.isSolved && HasEmpty(r.solvedGrid)
      ensures Recorded(Made, g0, r.solvingSteps, shots', g)
    {
      CloseTrace(steps, GetAvailableTechniques(), g);
      var all := AddFinalStep(steps, g);
      assert all[0] == steps[0];
      r := Outcome(g, applied, MaxIterations, all, Some(stepNumber - 1), true, None);
      assert all == steps || all == steps + [FinalStep(g)];
      shots' := shots;
      if all != steps {
        TechniqueStepCountAppend(steps, [FinalStep(g)]);
        FinalRecorded(g0, steps, shots, g);
        shots' := shots + [Shot(g, g, g)];
      }
      BoardSolvedIsGridSolved(g);
    }

    /** The "Initial State" step, recorded before and around the first update_candidates. */
    method Initial(board: SudokuBoard) returns (steps: seq<SolvingStep>, ghost shots: seq<Shot>)
      requires board.Valid()
      modifies board.grid
      ensures board.Valid() && board.grid[..] == PropagateAll(old(board.grid[..]))
      ensures Advances(old(board.grid[..]), board.grid[..])
      ensures LoopTrace(steps, GetAvailableTechniques()) && TechniqueStepCount(steps) == 0
      ensures steps != [] && steps[0] == InitialStep(old(board.grid[..]), Propagate(old(board.grid[..]), AllPositions()).1)
      ensures Recorded(Made, old(board.grid[..]), steps, shots, board.grid[..])
    {
      var g0 := board.grid[..];
      var candidateChanges := board.UpdateCandidates();
      NarrowsAdvances(g0, board.grid[..]);
      var step := InitialStep(g0, candidateChanges);
      InitialStepShown(g0);
      assert LoopStep(step, 0, GetAvailableTechniques());
      steps := [step];
      assert steps[..0] == [];
      TechniqueStepCountAppend([], steps);
      assert [] + steps == steps;
      shots := [Shot(g0, g0, board.grid[..])];
      assert Recorded(Made, g0, steps[..0], shots[..0], g0);
    }

    /**
     * One pass of the for loop over the techniques. Naked singles and
     * hidden pairs are always true, so the round reports a change, notes
     * those two names and records two to four steps.
     */
    method Round(board: SudokuBoard, applied: seq<string>, steps: seq<SolvingStep>, stepNumber: int,
                 ghost g0: Grid, ghost shots: seq<Shot>)
      returns (changed: bool, applied': seq<string>, steps': seq<SolvingStep>, stepNumber': int, ghost shots': seq<Shot>)
      requires board.Valid()
      requires Recorded(Made, g0, steps, shots, board.grid[..])
      requires NoDuplicates(applied) && forall x :: x in applied ==> x in GetAvailableTechniques()
      requires |applied| > 0 ==> applied[0] == "Naked Singles"
      requires LoopTrace(steps, GetAvailableTechniques()) && steps != []
      requires TechniqueStepCount(steps) == stepNumber - 1
      modifies board.grid
      ensures board.Valid() && Advances(old(board.grid[..]), board.grid[..])
      ensures changed && stepNumber + 2 <= stepNumber' <= stepNumber + 4
      ensures NoDuplicates(applied') && forall x :: x in applied' ==> x in GetAvailableTechniques()
      ensures |applied'| >= 2 && applied'[0] == "Naked Singles" && "Hidden Pairs" in applied'
      ensures LoopTrace(steps', GetAvailableTechniques()) && steps' != [] && steps'[0] == steps[0]
      ensures TechniqueStepCount(steps') == stepNumber' - 1
      ensures Recorded(Made, g0, steps', shots', board.grid[..])
    {
      ghost var g1 := board.grid[..];
      var st := RoundState(false, applied, steps, stepNumber);
      ghost var start := st;
      shots' := shots;
      for k := 0 to |techniques|
        invariant board.Valid() && Advances(g1, board.grid[..])
        invariant RoundSoFar(st, k, start, GetAvailableTechniques())
        invariant Recorded(Made, g0, st.steps, shots', board.grid[..])
      {
        ghost var before := board.grid[..];
        st, shots' := Attempt(board, k, start, st, g0, shots');
        AdvancesTrans(g1, before, board.grid[..]);
      }
      TwoNames(st.applied, "Naked Singles", "Hidden Pairs");
      changed, applied', steps', stepNumber' := st.changed, st.applied, st.steps, st.stepNumber;
    }

    /**
     * The k-th technique of a round: its result is examined, its name noted
     * and its step appended to the trace when the result is true.
     */
    method Attempt(board: SudokuBoard, k: int, ghost start: RoundState, st: RoundState, ghost g0: Grid, ghost shots: seq<Shot>)
      returns (st': RoundState, ghost shots': seq<Shot>)
      requires board.Valid() && 0 <= k < |techniques|
      requires RoundSoFar(st, k, start, GetAvailableTechniques())
      requires Recorded(Made, g0, st.steps, shots, board.grid[..])
      modifies board.grid
      ensures board.Valid() && Advances(old(board.grid[..]), board.grid[..])
      ensures RoundSoFar(st', k + 1, start, GetAvailableTechniques())
      ensures Recorded(Made, g0, st'.steps, shots', board.grid[..])
    {
      ghost var names := GetAvailableTechniques();
      ghost var before := board.grid[..];
      var (name, technique) := techniques[k];
      assert name == names[k];
      var block;
      ghost var blockShots;
      block, blockShots := Record(board, name, technique);
      NextSoFar(st, k, start, names, name, block);
      st' := Next(st, name, block);
      RecordedAppend(Made, g0, st.steps, shots, before, block, blockShots, board.grid[..]);
      shots' := shots + blockShots;
      assert st'.steps == st.steps + block;
    }

    /**
     * One technique call: when its result is true, the step built from the
     * snapshots taken before and after it.
     */
    method Record(board: SudokuBoard, name: string, technique: AllTechnique)
      returns (block: seq<SolvingStep>, ghost shots: seq<Shot>)
      requires board.Valid()
      modifies board.grid
      ensures board.Valid() && Advances(old(board.grid[..]), board.grid[..])
      ensures ReturnsTuple(technique) ==> block != []
      ensures block != [] ==> |block| == 1 && block[0].technique == name && StepShown(block[0])
      ensures block != [] ==> block[0] == TechniqueStep(name, old(board.grid[..]), board.grid[..])
      ensures block == [] ==> board.grid[..] == PropagateAll(old(board.grid[..]))
      ensures Recorded(Made, old(board.grid[..]), block, shots, board.grid[..])
    {
      var before := board.grid[..];
      var result := RunAll(technique, board);
      block, shots := [], [];
      if Truthy(result) {
        var after := board.grid[..];
        var cellsSolved := FilledCount(after, 81) - FilledCount(before, 81);
        var solvedPositions := SolvedPositions(before, after);
        var changes := CandidateChanges(before, after, false);
        var step := SolvingStep(TechniqueApplied, name, None, ValueGrid(after), CandidatesGrid(after),
                                cellsSolved, |changes|, Tag(changes, Untagged), solvedPositions,
                                [], None, None, None);
        TechniqueStepShown(name, before, after);
        assert step == TechniqueStep(name, before, after);
        block, shots := [step], [Shot(before, after, after)];
        assert Recorded(Made, before, block[..0], shots[..0], before);
      }
    }
  }
}
