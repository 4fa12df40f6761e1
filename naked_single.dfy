/**
 * Naked single (logic/naked_single.py of the backend): after a full
 * candidate update, the first empty cell, row by row, that has exactly one
 * candidate receives it; the value is then removed from the cell's peers
 * and the eliminations are collected by comparing every other cell's
 * candidates with a snapshot taken before the placement.
 */
module NakedSingles {
  import opened Wrappers
  import opened Cells
  import opened Geometry
  import opened Board
  import opened Steps

  const Technique := "Naked Single"

  /** An empty cell with exactly one candidate. */
  predicate IsSingle(c: CellState) {
    !Solved(c) && |c.candidates| == 1
  }

  /** The first naked single at index i or later, row by row. */
  function FirstSingleFrom(g: Grid, i: nat): (r: Option<nat>)
    requires |g| == 81 && i <= 81
    ensures r.Some? ==> i <= r.value < 81 && IsSingle(g[r.value])
    ensures r.Some? ==> forall j :: i <= j < r.value ==> !IsSingle(g[j])
    ensures r.None? ==> forall j :: i <= j < 81 ==> !IsSingle(g[j])
    decreases 81 - i
  {
    if i == 81 then None
    else if IsSingle(g[i]) then Some(i)
    else FirstSingleFrom(g, i + 1)
  }

  lemma ElementOfSingleton(s: set<int>)
    requires |s| == 1
    ensures exists v :: v in s
  {
    assert (forall w :: w !in s) ==> s == {};
  }

  /** The value of a one-candidate cell: next(iter(candidates)). */
  function OnlyDigit(s: set<int>): (v: int)
    requires |s| == 1
    ensures s == {v}
  {
    ElementOfSingleton(s);
    var v :| v in s;
    assert s == {v} by {
      assert |s - {v}| == 0;
    }
    v
  }

  /** Placing v in cell i and removing v from the unsolved peers of i. */
  function Fill(g: Grid, i: int, v: int): (h: Grid)
    requires |g| == 81 && 0 <= i < 81 && 1 <= v <= 9
    ensures |h| == 81
  {
    RemoveFromPeers(g[i := Place(g[i], v)], PosOf(i), v)
  }

  /**
   * What filling a naked single does: the cell holds its candidate and no
   * candidates, each unsolved peer loses that value, every other cell is
   * left alone, and one empty cell fewer remains.
   */
  lemma FillEffect(g: Grid, i: int, v: int)
    requires ValidGrid(g) && 0 <= i < 81 && IsSingle(g[i]) && g[i].candidates == {v}
    ensures 1 <= v <= 9
    ensures ValidGrid(Fill(g, i, v))
    ensures Fill(g, i, v)[i] == CellState(v, {}, g[i].isInitial)
    ensures forall j :: 0 <= j < 81 && j != i ==> Fill(g, i, v)[j].value == g[j].value
    ensures forall j :: 0 <= j < 81 && j != i ==>
      Fill(g, i, v)[j].candidates
        == if IsPeer(PosOf(i), PosOf(j)) && !Solved(g[j]) then g[j].candidates - {v} else g[j].candidates
    ensures forall j :: 0 <= j < 81 && IsPeer(PosOf(i), PosOf(j)) && !Solved(Fill(g, i, v)[j]) ==>
      v !in Fill(g, i, v)[j].candidates
    ensures Advances(g, Fill(g, i, v))
    ensures UnsolvedCount(Fill(g, i, v)) == UnsolvedCount(g) - 1
  {
    assert v in g[i].candidates;
    var g1 := g[i := Place(g[i], v)];
    var h := Fill(g, i, v);
    RemoveFromPeersEffect(g1, PosOf(i), v);
    assert Solved(g1[i]);
    UnsolvedCountFill(g, i, Place(g[i], v));
    UnsolvedCountValues(g1, h);
    assert !IsPeer(PosOf(i), PosOf(i));
  }

  /** Filling a naked single on a consistent board leaves it consistent. */
  lemma FillConsistent(g: Grid, i: int, v: int)
    requires ValidGrid(g) && Consistent(g) && 0 <= i < 81 && IsSingle(g[i]) && g[i].candidates == {v}
    ensures Consistent(Fill(g, i, v))
  {
    FillEffect(g, i, v);
    var h := Fill(g, i, v);
    forall j | 0 <= j < 81 && !Solved(h[j])
      ensures h[j].candidates !! UsedValues(h, PosOf(j))
    {
      var p := PosOf(j);
      assert j != i;
      forall k | 0 <= k < 81 && SharesUnit(PosOf(k), p) && Solved(h[k])
        ensures h[k].value !in h[j].candidates
      {
        if k == i {
          PosOfIdx(p);
          PosOfIdx(PosOf(i));
          assert PosOf(i) != p;
          assert IsPeer(PosOf(i), p);
        } else {
          UsedValuesFromCell(g, p, k);
        }
      }
      forall w | w in UsedValues(h, p) ensures w !in h[j].candidates {
        UsedValuesMeaning(h, p, w);
      }
    }
  }

  /**
   * The eliminations in cell order: for row-major index j below n other
   * than skip, each digit lost between before and after is recorded
   * against cell j.
   */
  function DiffElims(before: Grid, after: Grid, skip: int, n: nat): ElimMap
    requires |before| == 81 && |after| == 81 && n <= 81
  {
    if n == 0 then []
    else
      var m := DiffElims(before, after, skip, n - 1);
      if n - 1 == skip then m
      else RecordRemoved(m, before[n - 1].candidates - after[n - 1].candidates, PosOf(n - 1))
  }

  /** The map lists (w, cell j) exactly for the digits w cell j lost, j below n and not skip. */
  ghost predicate ElimsExact(before: Grid, after: Grid, skip: int, n: nat, m: ElimMap)
    requires |before| == 81 && |after| == 81 && n <= 81
  {
    (forall w, j :: 0 <= j < 81 ==>
      ((w, PosOf(j)) in Pairs(m) <==> j < n && j != skip && w in before[j].candidates - after[j].candidates))
    && (forall x :: x in Pairs(m) ==> ValidPos(x.1))
    && (forall w :: w in KeyList(m) ==>
          exists j :: 0 <= j < n && j != skip && w in before[j].candidates - after[j].candidates)
  }

  /** Distinct indices have distinct positions. */
  lemma PosOfInjective(i: int, j: int)
    requires 0 <= i < 81 && 0 <= j < 81 && PosOf(i) == PosOf(j)
    ensures i == j
  {
    PosOfIdx(PosOf(i));
    PosOfIdx(PosOf(j));
  }

  /** One more cell of DiffElims. */
  lemma DiffElimsStep(before: Grid, after: Grid, skip: int, n: nat, m: ElimMap)
    requires ValidGrid(before) && |after| == 81 && 0 < n <= 81 && n - 1 != skip
    requires KeysDistinct(m) && ElimsExact(before, after, skip, n - 1, m)
    ensures KeysDistinct(RecordRemoved(m, before[n - 1].candidates - after[n - 1].candidates, PosOf(n - 1)))
    ensures ElimsExact(before, after, skip, n,
                       RecordRemoved(m, before[n - 1].candidates - after[n - 1].candidates, PosOf(n - 1)))
  {
    var k := n - 1;
    var removed := before[k].candidates - after[k].candidates;
    var m' := RecordRemoved(m, removed, PosOf(k));
    RecordRemovedEffect(m, removed, PosOf(k));
    forall w, j | 0 <= j < 81
      ensures (w, PosOf(j)) in Pairs(m') <==> j < n && j != skip && w in before[j].candidates - after[j].candidates
    {
      if j != k {
        if PosOf(j) == PosOf(k) { PosOfInjective(j, k); }
        assert (w, PosOf(j)) in Pairs(m') <==> (w, PosOf(j)) in Pairs(m);
      }
    }
  }

  /** The collected eliminations are exactly the (digit, cell) pairs lost outside skip. */
  lemma {:induction false} DiffElimsEffect(before: Grid, after: Grid, skip: int, n: nat)
    requires ValidGrid(before) && |after| == 81 && n <= 81
    ensures KeysDistinct(DiffElims(before, after, skip, n))
    ensures ElimsExact(before, after, skip, n, DiffElims(before, after, skip, n))
    decreases n
  {
    if n > 0 {
      DiffElimsEffect(before, after, skip, n - 1);
      if n - 1 != skip {
        DiffElimsStep(before, after, skip, n, DiffElims(before, after, skip, n - 1));
      }
    }
  }

  /**
   * The eliminations of a naked single at i with value v: at most one key,
   * v, listing exactly the unsolved peers of i that held v.
   */
  lemma FillEliminations(g: Grid, i: int, v: int)
    requires ValidGrid(g) && 0 <= i < 81 && IsSingle(g[i]) && g[i].candidates == {v}
    ensures KeysDistinct(DiffElims(g, Fill(g, i, v), i, 81))
    ensures forall w :: w in KeyList(DiffElims(g, Fill(g, i, v), i, 81)) ==> w == v
    ensures forall w, j :: 0 <= j < 81 ==>
      ((w, PosOf(j)) in Pairs(DiffElims(g, Fill(g, i, v), i, 81)) <==>
        w == v && IsPeer(PosOf(i), PosOf(j)) && HoldsOpen(g, PosOf(j), v))
    ensures forall x :: x in Pairs(DiffElims(g, Fill(g, i, v), i, 81)) ==> ValidPos(x.1)
  {
    FillEffect(g, i, v);
    DiffElimsEffect(g, Fill(g, i, v), i, 81);
    forall j | 0 <= j < 81 ensures Idx(PosOf(j)) == j {
      PosOfIdx(PosOf(j));
    }
  }

  /** The step record of a naked single at i with value v, given the board before and after. */
  function SingleStep(before: Grid, after: Grid, i: int, v: int): TechniqueStep
    requires |before| == 81 && |after| == 81 && 0 <= i < 81
  {
    var elims := DiffElims(before, after, i, 81);
    MakeStep(Technique, NakedSingleText(PosOf(i), v, elims), [PosOf(i)], Some(v), Some(elims))
  }

  /** What apply_one_naked_single finds on a board whose candidates are up to date. */
  ghost function Hit(g: Grid): (r: Option<(int, int)>)
    requires ValidGrid(g)
    ensures r.Some? ==> 0 <= r.value.0 < 81 && IsSingle(g[r.value.0])
    ensures r.Some? ==> g[r.value.0].candidates == {r.value.1} && 1 <= r.value.1 <= 9
  {
    match FirstSingleFrom(g, 0)
    case None => None
    case Some(i) => Some((i, OnlyDigit(g[i].candidates)))
  }

  lemma HitAt(g: Grid, i: int, v: int)
    requires ValidGrid(g) && 0 <= i < 81 && FirstSingleFrom(g, 0) == Some(i) && g[i].candidates == {v}
    ensures Hit(g) == Some((i, v))
  {
  }

  /**
   * The elimination collection of apply_one_naked_single: every cell but
   * skip, row by row, its lost digits in ascending order.
   */
  method CollectEliminations(before: Grid, after: Grid, skip: int) returns (m: ElimMap)
    requires |before| == 81 && |after| == 81
    ensures m == DiffElims(before, after, skip, 81)
  {
    m := [];
    for pr := 0 to 9
      invariant m == DiffElims(before, after, skip, 9 * pr)
    {
      for pc := 0 to 9
        invariant m == DiffElims(before, after, skip, 9 * pr + pc)
      {
        m := CollectCell(before, after, skip, pr, pc, m);
      }
    }
  }

  /** The body of the scan for cell (pr, pc): record each digit it lost, unless it is skip. */
  method CollectCell(before: Grid, after: Grid, skip: int, pr: int, pc: int, m: ElimMap) returns (m': ElimMap)
    requires |before| == 81 && |after| == 81 && 0 <= pr < 9 && 0 <= pc < 9
    requires m == DiffElims(before, after, skip, 9 * pr + pc)
    ensures m' == DiffElims(before, after, skip, 9 * pr + pc + 1)
  {
    var j := 9 * pr + pc;
    assert j == Idx((pr, pc));
    PosOfIdx((pr, pc));
    m' := m;
    if j != skip {
      var removed := before[j].candidates - after[j].candidates;
      for v := 1 to 10
        invariant m' == RecordUpTo(m, removed, (pr, pc), v)
      {
        if v in removed {
          m' := Record(m', v, (pr, pc));
        }
      }
    }
  }

  /** Lines 22-66 of apply_one_naked_single: place the single at i, update the peers, record the step. */
  method PlaceSingle(b: SudokuBoard, r: int, c: int, value: int) returns (step: TechniqueStep)
    requires b.Valid() && 0 <= r < 9 && 0 <= c < 9
    requires IsSingle(b.grid[9 * r + c]) && b.grid[9 * r + c].candidates == {value}
    modifies b.grid
    ensures b.Valid()
    ensures b.grid[..] == Fill(old(b.grid[..]), 9 * r + c, value)
    ensures step == SingleStep(old(b.grid[..]), b.grid[..], 9 * r + c, value)
  {
    var i := 9 * r + c;
    assert i == Idx((r, c));
    PosOfIdx((r, c));
    ghost var g := b.grid[..];
    FillEffect(g, i, value);
    var cell := b.grid[i];
    var prev := b.grid[..];
    b.grid[i] := AssignCandidates(AssignValue(cell, value).value, {});
    var _ := b.UpdatePeersCandidates(r, c, value);
    var elims := CollectEliminations(prev, b.grid[..], i);
    step := MakeStep(Technique, NakedSingleText((r, c), value, elims), [(r, c)], Some(value), Some(elims));
  }

  /**
   * apply_one_naked_single: update the candidates, then fill the first
   * naked single and return its step, or report that there is none.
   */
  method ApplyOne(b: SudokuBoard) returns (changed: bool, step: Option<TechniqueStep>)
    requires b.Valid()
    modifies b.grid
    ensures b.Valid()
    ensures changed <==> Hit(PropagateAll(old(b.grid[..]))).Some?
    ensures !changed ==> step.None? && b.grid[..] == PropagateAll(old(b.grid[..]))
    ensures changed ==>
      var (i, v) := Hit(PropagateAll(old(b.grid[..]))).value;
      b.grid[..] == Fill(PropagateAll(old(b.grid[..])), i, v)
      && step == Some(SingleStep(PropagateAll(old(b.grid[..])), b.grid[..], i, v))
  {
    var _ := b.UpdateCandidates();
    var found := FindSingle(b.grid);
    if found.None? {
      return false, None;
    }
    var i := found.value;
    var r, c := i / 9, i % 9;
    var value := OnlyDigit(b.grid[i].candidates);
    HitAt(b.grid[..], i, value);
    var s := PlaceSingle(b, r, c, value);
    return true, Some(s);
  }

  /** The row-major scan of apply_one_naked_single for an empty cell with one candidate. */
  method FindSingle(grid: array<CellState>) returns (found: Option<nat>)
    requires grid.Length == 81
    ensures found == FirstSingleFrom(grid[..], 0)
  {
    for r := 0 to 9
      invariant FirstSingleFrom(grid[..], 0) == FirstSingleFrom(grid[..], 9 * r)
    {
      for c := 0 to 9
        invariant FirstSingleFrom(grid[..], 0) == FirstSingleFrom(grid[..], 9 * r + c)
      {
        var cell := grid[9 * r + c];
        if !Solved(cell) {
          var candidates := cell.candidates;
          if |candidates| == 1 {
            return Some(9 * r + c);
          }
        }
      }
    }
    return None;
  }

  /** A round without a naked single: the candidate update only, after which none is left. */
  lemma NoHitRound(before: Grid)
    requires ValidGrid(before) && Hit(PropagateAll(before)).None?
    ensures ValidGrid(PropagateAll(before)) && Advances(before, PropagateAll(before))
    ensures Consistent(PropagateAll(before)) && FirstSingleFrom(PropagateAll(before), 0).None?
    ensures UnsolvedCount(PropagateAll(before)) == UnsolvedCount(before)
  {
    PropagateAllEffect(before);
    NarrowsAdvances(before, PropagateAll(before));
    UnsolvedCountValues(before, PropagateAll(before));
  }

  /** The step's one focus cell holds the step's digit in g. */
  predicate FillsFocus(g: Grid, s: TechniqueStep)
    requires |g| == 81
  {
    |s.focusCells| == 1 && ValidPos(s.focusCells[0]) && s.value.Some? && 1 <= s.value.value <= 9
    && g[Idx(s.focusCells[0])].value == s.value.value
  }

  /** A naked-single step whose focus cell was empty on board g0 and holds the step's digit on board g. */
  predicate StepFilled(g0: Grid, g: Grid, s: TechniqueStep)
    requires |g0| == 81 && |g| == 81
  {
    s.technique == Technique && FillsFocus(g, s) && !Solved(g0[Idx(s.focusCells[0])])
  }

  /** Every one of the steps is StepFilled(g0, g, _). */
  ghost predicate StepsFilled(g0: Grid, g: Grid, steps: seq<TechniqueStep>)
    requires |g0| == 81 && |g| == 81
    decreases |steps|
  {
    steps == [] || (StepsFilled(g0, g, steps[..|steps| - 1]) && StepFilled(g0, g, steps[|steps| - 1]))
  }

  /** StepsFilled read step by step. */
  lemma {:induction false} StepsFilledAt(g0: Grid, g: Grid, steps: seq<TechniqueStep>, k: int)
    requires |g0| == 81 && |g| == 81 && StepsFilled(g0, g, steps) && 0 <= k < |steps|
    ensures StepFilled(g0, g, steps[k])
    decreases |steps|
  {
    if k < |steps| - 1 {
      StepsFilledAt(g0, g, steps[..|steps| - 1], k);
    }
  }

  /** Filled focus cells stay filled while the board only advances. */
  lemma {:induction false} StepsFilledKept(g0: Grid, g: Grid, h: Grid, steps: seq<TechniqueStep>)
    requires |g0| == 81 && Advances(g, h) && |g| == 81 && StepsFilled(g0, g, steps)
    ensures StepsFilled(g0, h, steps)
    decreases |steps|
  {
    if steps != [] {
      StepsFilledKept(g0, g, h, steps[..|steps| - 1]);
      FillsFocusKept(g, h, steps[|steps| - 1]);
    }
  }

  /** One more round that filled a cell empty before it extends the steps. */
  lemma StepsFilledSnoc(g0: Grid, before: Grid, after: Grid, steps: seq<TechniqueStep>, step: TechniqueStep)
    requires |g0| == 81 && Advances(g0, before) && Advances(before, after) && StepsFilled(g0, before, steps)
    requires step.technique == Technique && FillsFocus(after, step) && !Solved(before[Idx(step.focusCells[0])])
    ensures StepsFilled(g0, after, steps + [step])
  {
    StepsFilledKept(g0, before, after, steps);
    assert (steps + [step])[..|steps|] == steps;
  }

  /** A filled focus cell stays filled, with the same digit, on a board that only advances. */
  lemma FillsFocusKept(g: Grid, h: Grid, s: TechniqueStep)
    requires |g| == 81 && Advances(g, h) && FillsFocus(g, s)
    ensures FillsFocus(h, s)
  {
    assert Solved(g[Idx(s.focusCells[0])]);
  }

  /** A round that fills a naked single advances the board and leaves one empty cell fewer. */
  lemma HitRound(before: Grid, i: int, v: int)
    requires ValidGrid(before) && Hit(PropagateAll(before)) == Some((i, v))
    ensures ValidGrid(Fill(PropagateAll(before), i, v))
    ensures Advances(before, Fill(PropagateAll(before), i, v))
    ensures UnsolvedCount(Fill(PropagateAll(before), i, v)) == UnsolvedCount(before) - 1
    ensures !Solved(before[i]) && Fill(PropagateAll(before), i, v)[i].value == v && 1 <= v <= 9
  {
    var g1 := PropagateAll(before);
    PropagateAllEffect(before);
    NarrowsAdvances(before, g1);
    UnsolvedCountValues(before, g1);
    FillEffect(g1, i, v);
    AdvancesTrans(before, g1, Fill(g1, i, v));
  }

  /** One pass of the loop: apply_naked_singles once, with what it means for the loop. */
  method Round(b: SudokuBoard) returns (changed: bool, step: Option<TechniqueStep>)
    requires b.Valid()
    modifies b.grid
    ensures b.Valid() && Advances(old(b.grid[..]), b.grid[..])
    ensures changed ==> step.Some? && UnsolvedCount(b.grid[..]) == UnsolvedCount(old(b.grid[..])) - 1
    ensures changed ==> step.value.technique == Technique && FillsFocus(b.grid[..], step.value)
    ensures changed ==> !Solved(old(b.grid[..])[Idx(step.value.focusCells[0])])
    ensures !changed ==> UnsolvedCount(b.grid[..]) == UnsolvedCount(old(b.grid[..]))
    ensures !changed ==> Consistent(b.grid[..]) && FirstSingleFrom(b.grid[..], 0).None?
  {
    ghost var before := b.grid[..];
    changed, step := ApplyOne(b);
    if changed {
      ghost var hit := Hit(PropagateAll(before)).value;
      HitRound(before, hit.0, hit.1);
      assert step.value.focusCells == [PosOf(hit.0)];
    } else {
      NoHitRound(before);
    }
  }

  /**
   * apply_all_naked_singles: fill naked singles until none is left. Each
   * round fills an empty cell, so the loop ends; when it does, the
   * candidates are up to date and no naked single remains. There is one
   * step per filled cell: each names a cell that was empty at the start and
   * holds the step's digit at the end.
   */
  method ApplyAll(b: SudokuBoard) returns (changed: bool, steps: seq<TechniqueStep>)
    requires b.Valid()
    modifies b.grid
    ensures b.Valid()
    ensures changed <==> |steps| > 0
    ensures Advances(old(b.grid[..]), b.grid[..])
    ensures Consistent(b.grid[..]) && FirstSingleFrom(b.grid[..], 0).None?
    ensures |steps| == UnsolvedCount(old(b.grid[..])) - UnsolvedCount(b.grid[..])
    ensures StepsFilled(old(b.grid[..]), b.grid[..], steps)
  {
    changed, steps := false, [];
    ghost var g0 := b.grid[..];
    while true
      invariant b.Valid()
      invariant changed <==> |steps| > 0
      invariant Advances(g0, b.grid[..])
      invariant |steps| == UnsolvedCount(g0) - UnsolvedCount(b.grid[..])
      invariant StepsFilled(g0, b.grid[..], steps)
      decreases UnsolvedCount(b.grid[..])
    {
      ghost var before := b.grid[..];
      var stepChanged, step := Round(b);
      AdvancesTrans(g0, before, b.grid[..]);
      if !stepChanged {
        StepsFilledKept(g0, before, b.grid[..], steps);
        break;
      }
      StepsFilledSnoc(g0, before, b.grid[..], steps, step.value);
      changed := true;
      steps := steps + [step.value];
    }
  }
}
