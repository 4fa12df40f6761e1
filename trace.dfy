/**
 * What the solver services record around each technique call: snapshots
 * of the board before and after, the cells that were filled in between
 * (solved_positions), the cells whose candidate sets lost values
 * (candidate_changes), and the solving-step dicts built from them.
 *
 * The services take their snapshots with list comprehensions and
 * copy.deepcopy; a snapshot here is the value of the board's cell array.
 * Descriptions, explanations, messages and the "A1=5" strings are text
 * built from the recorded data; a filled cell is kept as its position and
 * value instead.
 */
module Trace {
  import opened Wrappers
  import opened Cells
  import opened Geometry
  import opened Board
  import opened Steps
  import Location

  // ---------------------------------------------------------------------
  // Filled cells

  /** A cell a technique filled: one "A1=5" entry of solved_positions. */
  datatype Filled = Filled(position: Pos, value: int)

  /** The number of filled cells among the first n: `sum(1 for ... if cell != 0)`. */
  function FilledCount(g: Grid, n: nat): (k: nat)
    requires n <= |g|
    ensures k <= n
  {
    if n == 0 then 0 else FilledCount(g, n - 1) + (if Solved(g[n - 1]) then 1 else 0)
  }

  /** The cells below n that are empty before and filled after, row by row. */
  function NewlyFilled(before: Grid, after: Grid, n: nat): seq<Filled>
    requires |before| == 81 && |after| == 81 && n <= 81
  {
    if n == 0 then []
    else
      NewlyFilled(before, after, n - 1)
      + if !Solved(before[n - 1]) && Solved(after[n - 1]) then [Filled(PosOf(n - 1), after[n - 1].value)] else []
  }

  /**
   * solved_positions lists exactly the cells that went from empty to
   * filled, each once, in row-major order, with the value after.
   */
  lemma {:induction false} NewlyFilledMeaning(before: Grid, after: Grid, n: nat)
    requires |before| == 81 && |after| == 81 && n <= 81
    ensures forall k :: 0 <= k < |NewlyFilled(before, after, n)| ==>
      var f := NewlyFilled(before, after, n)[k];
      ValidPos(f.position) && Idx(f.position) < n
      && !Solved(before[Idx(f.position)]) && Solved(after[Idx(f.position)]) && f.value == after[Idx(f.position)].value
    ensures forall i :: 0 <= i < n && !Solved(before[i]) && Solved(after[i]) ==>
      exists k :: 0 <= k < |NewlyFilled(before, after, n)| && NewlyFilled(before, after, n)[k].position == PosOf(i)
    ensures forall a, b :: 0 <= a < b < |NewlyFilled(before, after, n)| ==>
      Idx(NewlyFilled(before, after, n)[a].position) < Idx(NewlyFilled(before, after, n)[b].position)
    decreases n
  {
    if n > 0 {
      NewlyFilledMeaning(before, after, n - 1);
      var pre := NewlyFilled(before, after, n - 1);
      if !Solved(before[n - 1]) && Solved(after[n - 1]) {
        NewlyFilledStep(before, after, n - 1, n);
      } else {
        assert NewlyFilled(before, after, n) == pre;
      }
    }
  }

  /** One more cell that went from empty to filled keeps the listing exact and ordered. */
  lemma NewlyFilledStep(before: Grid, after: Grid, m: nat, n: nat)
    requires |before| == 81 && |after| == 81 && n <= 81 && n == m + 1
    requires !Solved(before[m]) && Solved(after[m])
    requires forall k :: 0 <= k < |NewlyFilled(before, after, m)| ==>
      var f := NewlyFilled(before, after, m)[k];
      ValidPos(f.position) && Idx(f.position) < m
      && !Solved(before[Idx(f.position)]) && Solved(after[Idx(f.position)]) && f.value == after[Idx(f.position)].value
    requires forall i :: 0 <= i < m && !Solved(before[i]) && Solved(after[i]) ==>
      exists k :: 0 <= k < |NewlyFilled(before, after, m)| && NewlyFilled(before, after, m)[k].position == PosOf(i)
    requires forall a, b :: 0 <= a < b < |NewlyFilled(before, after, m)| ==>
      Idx(NewlyFilled(before, after, m)[a].position) < Idx(NewlyFilled(before, after, m)[b].position)
    ensures forall k :: 0 <= k < |NewlyFilled(before, after, n)| ==>
      var f := NewlyFilled(before, after, n)[k];
      ValidPos(f.position) && Idx(f.position) < n
      && !Solved(before[Idx(f.position)]) && Solved(after[Idx(f.position)]) && f.value == after[Idx(f.position)].value
    ensures forall i :: 0 <= i < n && !Solved(before[i]) && Solved(after[i]) ==>
      exists k :: 0 <= k < |NewlyFilled(before, after, n)| && NewlyFilled(before, after, n)[k].position == PosOf(i)
    ensures forall a, b :: 0 <= a < b < |NewlyFilled(before, after, n)| ==>
      Idx(NewlyFilled(before, after, n)[a].position) < Idx(NewlyFilled(before, after, n)[b].position)
  {
    var pre := NewlyFilled(before, after, m);
    var nf := NewlyFilled(before, after, n);
    assert nf == pre + [Filled(PosOf(m), after[m].value)];
    assert nf[|pre|].position == PosOf(m);
    forall k | 0 <= k < |nf|
      ensures ValidPos(nf[k].position) && Idx(nf[k].position) < n
      ensures !Solved(before[Idx(nf[k].position)]) && Solved(after[Idx(nf[k].position)])
      ensures nf[k].value == after[Idx(nf[k].position)].value
    {
      if k < |pre| { assert nf[k] == pre[k]; }
    }
    forall a, b | 0 <= a < b < |nf| ensures Idx(nf[a].position) < Idx(nf[b].position) {
      assert nf[a] == pre[a];
      if b < |pre| { assert nf[b] == pre[b]; }
    }
    forall i | 0 <= i < n && !Solved(before[i]) && Solved(after[i])
      ensures exists k :: 0 <= k < |nf| && nf[k].position == PosOf(i)
    {
      if i < m {
        var k :| 0 <= k < |pre| && pre[k].position == PosOf(i);
        assert nf[k] == pre[k];
      } else {
        assert nf[|pre|].position == PosOf(i);
      }
    }
  }

  /**
   * When solved cells stay solved, the change in the number of filled
   * cells (the services' cells_solved) is the length of solved_positions.
   */
  lemma {:induction false} CellsSolvedCount(before: Grid, after: Grid, n: nat)
    requires |before| == 81 && |after| == 81 && n <= 81 && Advances(before, after)
    ensures FilledCount(after, n) == FilledCount(before, n) + |NewlyFilled(before, after, n)|
    decreases n
  {
    if n > 0 {
      CellsSolvedCount(before, after, n - 1);
    }
  }

  /** Some cell is empty exactly when fewer than 81 are filled. */
  lemma {:induction false} FilledCountFull(g: Grid, n: nat)
    requires n <= |g|
    ensures FilledCount(g, n) == n <==> forall i :: 0 <= i < n ==> Solved(g[i])
    decreases n
  {
    if n > 0 {
      FilledCountFull(g, n - 1);
    }
  }

  /** The solved_positions loop: every cell, row by row. */
  method SolvedPositions(before: Grid, after: Grid) returns (positions: seq<Filled>)
    requires |before| == 81 && |after| == 81
    ensures positions == NewlyFilled(before, after, 81)
  {
    positions := [];
    for row := 0 to 9
      invariant positions == NewlyFilled(before, after, 9 * row)
    {
      for col := 0 to 9
        invariant positions == NewlyFilled(before, after, 9 * row + col)
      {
        var i := 9 * row + col;
        assert i == Idx((row, col));
        PosOfIdx((row, col));
        if !Solved(before[i]) && Solved(after[i]) {
          positions := positions + [Filled((row, col), after[i].value)];
        }
      }
    }
  }

  // ---------------------------------------------------------------------
  // Candidate changes between two snapshots

  /** Cell i lost candidates between the snapshots (and, when openOnly, is still empty after). */
  predicate LostAt(before: Grid, after: Grid, i: int, openOnly: bool)
    requires |before| == 81 && |after| == 81 && 0 <= i < 81
  {
    before[i].candidates - after[i].candidates != {} && (openOnly ==> !Solved(after[i]))
  }

  /** The change records of the cells below n that lost candidates, row by row. */
  function CandidateDiff(before: Grid, after: Grid, n: nat, openOnly: bool): seq<Change>
    requires |before| == 81 && |after| == 81 && n <= 81
  {
    if n == 0 then []
    else
      CandidateDiff(before, after, n - 1, openOnly)
      + if LostAt(before, after, n - 1, openOnly)
        then [ChangeRecord(PosOf(n - 1), before[n - 1].candidates, after[n - 1].candidates)]
        else []
  }

  /** A record of a cell whose candidates went from before to after, with what it lost. */
  predicate RecordsLoss(before: Grid, after: Grid, ch: Change)
    requires |before| == 81 && |after| == 81
  {
    ValidPos(ch.position)
    && ch.location == Label(ch.position)
    && ch.oldCandidates == before[Idx(ch.position)].candidates
    && ch.newCandidates == after[Idx(ch.position)].candidates
    && ch.eliminated == ch.oldCandidates - ch.newCandidates
    && ch.eliminated != {}
  }

  /**
   * The diff lists exactly the cells that lost candidates (and stayed
   * empty, when openOnly), each once, in row-major order, each with its old
   * and new candidates and the difference, which is never empty.
   */
  lemma {:induction false} CandidateDiffMeaning(before: Grid, after: Grid, n: nat, openOnly: bool)
    requires |before| == 81 && |after| == 81 && n <= 81
    ensures DiffRecords(before, after, n, openOnly, CandidateDiff(before, after, n, openOnly))
    ensures DiffCovers(before, after, n, openOnly, CandidateDiff(before, after, n, openOnly))
    ensures DiffOrdered(CandidateDiff(before, after, n, openOnly))
    decreases n
  {
    if n > 0 {
      CandidateDiffMeaning(before, after, n - 1, openOnly);
      DiffStep(before, after, n - 1, n, openOnly);
    }
  }

  /** Every record is a loss of a cell below n that LostAt picks out. */
  ghost predicate DiffRecords(before: Grid, after: Grid, n: nat, openOnly: bool, cd: seq<Change>)
    requires |before| == 81 && |after| == 81
  {
    forall k :: 0 <= k < |cd| ==>
      RecordsLoss(before, after, cd[k]) && Idx(cd[k].position) < n && Idx(cd[k].position) < 81
      && LostAt(before, after, Idx(cd[k].position), openOnly)
  }

  /** Every cell below n that lost candidates has a record. */
  ghost predicate DiffCovers(before: Grid, after: Grid, n: nat, openOnly: bool, cd: seq<Change>)
    requires |before| == 81 && |after| == 81 && n <= 81
  {
    forall i :: 0 <= i < n ==> (LostAt(before, after, i, openOnly) <==> PosOf(i) in ChangedPositions(cd))
  }

  /** The records are in strictly increasing row-major order. */
  ghost predicate DiffOrdered(cd: seq<Change>) {
    forall a, b :: 0 <= a < b < |cd| ==>
      ValidPos(cd[a].position) && ValidPos(cd[b].position) && Idx(cd[a].position) < Idx(cd[b].position)
  }

  /** Extending the diff by cell m keeps its three properties. */
  lemma DiffStep(before: Grid, after: Grid, m: nat, n: nat, openOnly: bool)
    requires |before| == 81 && |after| == 81 && n <= 81 && n == m + 1
    requires DiffRecords(before, after, m, openOnly, CandidateDiff(before, after, m, openOnly))
    requires DiffCovers(before, after, m, openOnly, CandidateDiff(before, after, m, openOnly))
    requires DiffOrdered(CandidateDiff(before, after, m, openOnly))
    ensures DiffRecords(before, after, n, openOnly, CandidateDiff(before, after, n, openOnly))
    ensures DiffCovers(before, after, n, openOnly, CandidateDiff(before, after, n, openOnly))
    ensures DiffOrdered(CandidateDiff(before, after, n, openOnly))
  {
    var pre := CandidateDiff(before, after, m, openOnly);
    var extra := DiffExtra(before, after, m, openOnly);
    assert CandidateDiff(before, after, n, openOnly) == pre + extra;
    DiffStepRecords(before, after, m, n, openOnly, pre, extra);
    DiffStepOrdered(before, after, m, n, openOnly, pre, extra);
    DiffStepCovers(before, after, m, n, openOnly, pre, extra);
  }

  /** The record, if any, that cell m adds to the diff. */
  function DiffExtra(before: Grid, after: Grid, m: nat, openOnly: bool): (extra: seq<Change>)
    requires |before| == 81 && |after| == 81 && m < 81
    ensures |extra| <= 1
    ensures extra != [] <==> LostAt(before, after, m, openOnly)
    ensures extra != [] ==> extra[0].position == PosOf(m)
  {
    if LostAt(before, after, m, openOnly)
    then [ChangeRecord(PosOf(m), before[m].candidates, after[m].candidates)]
    else []
  }

  lemma DiffStepRecords(before: Grid, after: Grid, m: nat, n: nat, openOnly: bool, pre: seq<Change>, extra: seq<Change>)
    requires |before| == 81 && |after| == 81 && n <= 81 && n == m + 1
    requires DiffRecords(before, after, m, openOnly, pre)
    requires extra == DiffExtra(before, after, m, openOnly)
    ensures DiffRecords(before, after, n, openOnly, pre + extra)
  {
    var cd := pre + extra;
    forall k | 0 <= k < |cd|
      ensures RecordsLoss(before, after, cd[k]) && Idx(cd[k].position) < n && Idx(cd[k].position) < 81
      ensures LostAt(before, after, Idx(cd[k].position), openOnly)
    {
      if k < |pre| { assert cd[k] == pre[k]; } else { assert cd[k] == extra[0]; }
    }
  }

  lemma DiffStepOrdered(before: Grid, after: Grid, m: nat, n: nat, openOnly: bool, pre: seq<Change>, extra: seq<Change>)
    requires |before| == 81 && |after| == 81 && n <= 81 && n == m + 1
    requires DiffRecords(before, after, m, openOnly, pre)
    requires DiffOrdered(pre)
    requires extra == DiffExtra(before, after, m, openOnly)
    ensures DiffOrdered(pre + extra)
  {
    var cd := pre + extra;
    forall a, b | 0 <= a < b < |cd|
      ensures ValidPos(cd[a].position) && ValidPos(cd[b].position) && Idx(cd[a].position) < Idx(cd[b].position)
    {
      assert cd[a] == pre[a];
      if b < |pre| { assert cd[b] == pre[b]; } else { assert cd[b] == extra[0]; }
    }
  }

  lemma DiffStepCovers(before: Grid, after: Grid, m: nat, n: nat, openOnly: bool, pre: seq<Change>, extra: seq<Change>)
    requires |before| == 81 && |after| == 81 && n <= 81 && n == m + 1
    requires DiffRecords(before, after, m, openOnly, pre)
    requires DiffCovers(before, after, m, openOnly, pre)
    requires extra == DiffExtra(before, after, m, openOnly)
    ensures DiffCovers(before, after, n, openOnly, pre + extra)
  {
    ChangedPositionsAppend(pre, extra);
    if extra != [] {
      ChangedPositionsSingle(extra);
    } else {
      assert ChangedPositions(extra) == {};
    }
    forall i | 0 <= i < n
      ensures LostAt(before, after, i, openOnly) <==> PosOf(i) in ChangedPositions(pre + extra)
    {
      if i < m {
        assert PosOf(i) != PosOf(m);
      } else if extra == [] {
        forall k | 0 <= k < |pre| ensures pre[k].position != PosOf(i) {
          assert Idx(pre[k].position) < m;
        }
      }
    }
  }

  lemma ChangedPositionsSingle(cs: seq<Change>)
    requires |cs| == 1
    ensures ChangedPositions(cs) == {cs[0].position}
  {
    assert cs[0].position in ChangedPositions(cs);
  }

  /** Two snapshots with no candidate lost anywhere give no records. */
  lemma {:induction false} CandidateDiffEmpty(g: Grid, n: nat, openOnly: bool)
    requires |g| == 81 && n <= 81
    ensures CandidateDiff(g, g, n, openOnly) == []
    decreases n
  {
    if n > 0 {
      CandidateDiffEmpty(g, n - 1, openOnly);
    }
  }

  /**
   * The services' candidate-change loop: cells whose candidates differ and
   * lost something (and, when openOnly, are still empty after).
   */
  method CandidateChanges(before: Grid, after: Grid, openOnly: bool) returns (changes: seq<Change>)
    requires |before| == 81 && |after| == 81
    ensures changes == CandidateDiff(before, after, 81, openOnly)
  {
    changes := [];
    for row := 0 to 9
      invariant changes == CandidateDiff(before, after, 9 * row, openOnly)
    {
      for col := 0 to 9
        invariant changes == CandidateDiff(before, after, 9 * row + col, openOnly)
      {
        var i := 9 * row + col;
        assert i == Idx((row, col));
        PosOfIdx((row, col));
        if before[i].candidates != after[i].candidates {
          var eliminated := before[i].candidates - after[i].candidates;
          if eliminated != {} && (openOnly ==> after[i].value == 0) {
            changes := changes + [ChangeRecord((row, col), before[i].candidates, after[i].candidates)];
          }
        }
      }
    }
  }

  /**
   * The change list update_candidates returns is the snapshot diff the
   * services compute around it: one record per cell that lost candidates,
   * row by row. The cells it touches stay empty, so the diff is the same
   * whether or not it is restricted to cells still empty after.
   */
  lemma UpdateCandidatesIsDiff(g: Grid, openOnly: bool)
    requires |g| == 81
    ensures Propagate(g, AllPositions()).1 == CandidateDiff(g, PropagateAll(g), 81, openOnly)
  {
    var ps := AllPositions();
    AllPositionsDistinct();
    PropagateChanges(g, ps);
    PropagateAllClosedForm(g);
    PlannedIsDiff(g, PropagateAll(g), 81, openOnly);
    assert ps[..81] == ps;
  }

  /** The full scan visits 81 distinct positions. */
  lemma AllPositionsDistinct()
    ensures DistinctPositions(AllPositions())
  {
    var ps := AllPositions();
    forall a, b | 0 <= a < b < 81 ensures ps[a] != ps[b] {
      assert Idx(ps[a]) != Idx(ps[b]);
    }
  }

  /** update_candidates recomputes every empty cell from the board it started from. */
  lemma PropagateAllClosedForm(g: Grid)
    requires |g| == 81
    ensures forall i :: 0 <= i < 81 ==> PropagateAll(g)[i] == PropagatedCell(g, i, true)
  {
    var ps := AllPositions();
    PropagateClosedForm(g, ps);
    forall i | 0 <= i < 81 ensures i in IndexSet(ps) {
      assert Idx(ps[i]) == i;
    }
  }

  lemma {:induction false} PlannedIsDiff(g: Grid, h: Grid, n: nat, openOnly: bool)
    requires |g| == 81 && |h| == 81 && n <= 81
    requires forall i :: 0 <= i < 81 ==> h[i] == PropagatedCell(g, i, true)
    ensures PlannedChanges(g, AllPositions()[..n]) == CandidateDiff(g, h, n, openOnly)
    decreases n
  {
    if n > 0 {
      PlannedIsDiff(g, h, n - 1, openOnly);
      PlannedStep(g, h, n - 1, n, openOnly);
    }
  }

  /** Propagation and the diff agree on one more cell. */
  lemma PlannedStep(g: Grid, h: Grid, m: nat, n: nat, openOnly: bool)
    requires |g| == 81 && |h| == 81 && n <= 81 && n == m + 1
    requires h[m] == PropagatedCell(g, m, true)
    requires PlannedChanges(g, AllPositions()[..m]) == CandidateDiff(g, h, m, openOnly)
    ensures PlannedChanges(g, AllPositions()[..n]) == CandidateDiff(g, h, n, openOnly)
  {
    var all := AllPositions();
    var ps := all[..n];
    assert ps[..m] == all[..m] && ps[m] == all[m];
    PosOfIdx(all[m]);
    PlannedCellIsDiff(g, h, m, openOnly);
    var extra := if LostAt(g, h, m, openOnly) then [ChangeRecord(PosOf(m), g[m].candidates, h[m].candidates)] else [];
    assert PlannedChange(g, all[m]) == extra;
    assert CandidateDiff(g, h, n, openOnly) == CandidateDiff(g, h, m, openOnly) + extra;
    assert PlannedChanges(g, ps) == PlannedChanges(g, all[..m]) + PlannedChange(g, all[m]);
  }

  /** At one cell: propagation records a change exactly where the diff finds a loss. */
  lemma PlannedCellIsDiff(g: Grid, h: Grid, i: int, openOnly: bool)
    requires |g| == 81 && |h| == 81 && 0 <= i < 81
    requires h[i] == PropagatedCell(g, i, true)
    ensures PlannedChange(g, PosOf(i)) ==
      if LostAt(g, h, i, openOnly) then [ChangeRecord(PosOf(i), g[i].candidates, h[i].candidates)] else []
  {
    var p := PosOf(i);
    assert Idx(p) == i;
    var cands := g[i].candidates;
    if !Solved(g[i]) {
      var after := cands - UsedValues(g, p);
      assert h[i].candidates == after && !Solved(h[i]);
      assert after != cands <==> cands - after != {} by {
        if after != cands {
          var x :| x in cands && x !in after;
          assert x in cands - after;
        }
      }
    }
  }

  // ---------------------------------------------------------------------
  // The reported grid

  /** The value grid is solved: every entry filled, none repeated in a row, column or box. */
  predicate GridSolved(vg: seq<seq<int>>)
    requires NineByNine(vg)
  {
    (forall r, c :: 0 <= r < 9 && 0 <= c < 9 ==> vg[r][c] != 0)
    && forall r, c, r', c' ::
         (0 <= r < 9 && 0 <= c < 9 && 0 <= r' < 9 && 0 <= c' < 9 && (r, c) != (r', c') && SharesUnit((r, c), (r', c')))
         ==> vg[r][c] != vg[r'][c']
  }

  /** The reported is_solved, board.is_solved(), is a property of the reported grid alone. */
  lemma BoardSolvedIsGridSolved(g: Grid)
    requires |g| == 81
    ensures BoardSolved(g) <==> GridSolved(ValueGrid(g))
  {
    var vg := ValueGrid(g);
    if BoardSolved(g) {
      forall r, c | 0 <= r < 9 && 0 <= c < 9 ensures vg[r][c] != 0 {
        assert Solved(g[Idx((r, c))]);
      }
      forall r, c, r', c' | 0 <= r < 9 && 0 <= c < 9 && 0 <= r' < 9 && 0 <= c' < 9
        && (r, c) != (r', c') && SharesUnit((r, c), (r', c'))
        ensures vg[r][c] != vg[r'][c']
      {
        var i, j := Idx((r, c)), Idx((r', c'));
        PosOfIdx((r, c));
        PosOfIdx((r', c'));
        assert NoRepeatAt(g, i);
      }
    }
    if GridSolved(vg) {
      forall i | 0 <= i < 81 ensures Solved(g[i]) && NoRepeatAt(g, i) {
        var p := PosOf(i);
        assert vg[p.0][p.1] != 0;
        forall j | 0 <= j < 81 && j != i && SharesUnit(PosOf(i), PosOf(j)) ensures g[j].value != g[i].value {
          var q := PosOf(j);
          assert vg[p.0][p.1] != vg[q.0][q.1];
        }
      }
    }
  }

  /** The puzzle has an empty entry. */
  predicate HasEmpty(vg: seq<seq<int>>)
    requires NineByNine(vg)
  {
    exists r, c :: 0 <= r < 9 && 0 <= c < 9 && vg[r][c] == 0
  }

  /** `sum(1 for row in grid for cell in row if cell == 0) > 0` on the board's value grid. */
  lemma HasEmptyCount(g: Grid)
    requires |g| == 81
    ensures HasEmpty(ValueGrid(g)) <==> FilledCount(g, 81) < 81
  {
    FilledCountFull(g, 81);
    if FilledCount(g, 81) < 81 {
      var i :| 0 <= i < 81 && !Solved(g[i]);
      assert ValueGrid(g)[PosOf(i).0][PosOf(i).1] == 0;
    }
  }

  /** The zero entries among the first n of a row. */
  function RowZeros(row: seq<int>, n: nat): (z: nat)
    requires n <= |row|
    ensures z <= n
  {
    if n == 0 then 0 else RowZeros(row, n - 1) + (if row[n - 1] == 0 then 1 else 0)
  }

  /** `sum(1 for row in solved_grid for cell in row if cell == 0)` over the first n rows. */
  function Zeros(vg: seq<seq<int>>, n: nat): nat
    requires n <= |vg|
  {
    if n == 0 then 0 else Zeros(vg, n - 1) + RowZeros(vg[n - 1], |vg[n - 1]|)
  }

  /** The zeros among the first c entries of row r are the empty cells among the board's cells 9r .. 9r + c. */
  lemma {:induction false} RowZerosCount(g: Grid, r: nat, c: nat)
    requires |g| == 81 && r < 9 && c <= 9
    ensures RowZeros(ValueGrid(g)[r], c) == c - (FilledCount(g, 9 * r + c) - FilledCount(g, 9 * r))
    ensures FilledCount(g, 9 * r) <= FilledCount(g, 9 * r + c) <= FilledCount(g, 9 * r) + c
  {
    if c > 0 {
      RowZerosCount(g, r, c - 1);
      assert ValueGrid(g)[r][c - 1] == g[9 * r + c - 1].value by {
        assert Idx((r, c - 1)) == 9 * r + c - 1;
      }
    }
  }

  /** The zeros of the first r rows of the value grid are the empty cells among the board's first 9r. */
  lemma {:induction false} ZerosCount(g: Grid, r: nat)
    requires |g| == 81 && r <= 9
    ensures Zeros(ValueGrid(g), r) == 9 * r - FilledCount(g, 9 * r)
  {
    if r > 0 {
      ZerosCount(g, r - 1);
      RowZerosCount(g, r - 1, 9);
      assert 9 * (r - 1) + 9 == 9 * r;
    }
  }

  /**
   * The reported grid extends the puzzle: every given entry is still
   * there, and every entry filled since is a digit 1..9.
   */
  predicate Extends(puzzle: seq<seq<int>>, vg: seq<seq<int>>)
    requires NineByNine(puzzle) && NineByNine(vg)
  {
    forall r, c :: 0 <= r < 9 && 0 <= c < 9 ==>
      (puzzle[r][c] != 0 ==> vg[r][c] == puzzle[r][c])
      && (puzzle[r][c] == 0 && vg[r][c] != 0 ==> 1 <= vg[r][c] <= 9)
  }

  /** A board the techniques advanced from the puzzle reports a grid that extends the puzzle. */
  lemma AdvancedExtends(puzzle: seq<seq<int>>, h: Grid)
    requires NineByNine(puzzle) && Advances(NewGrid(puzzle), h)
    ensures Extends(puzzle, ValueGrid(h))
  {
    var g := NewGrid(puzzle);
    forall r, c | 0 <= r < 9 && 0 <= c < 9
      ensures puzzle[r][c] != 0 ==> ValueGrid(h)[r][c] == puzzle[r][c]
      ensures puzzle[r][c] == 0 && ValueGrid(h)[r][c] != 0 ==> 1 <= ValueGrid(h)[r][c] <= 9
    {
      var i := Idx((r, c));
      assert g[i] == NewCell(puzzle[r][c], puzzle[r][c] != 0);
    }
  }

  // ---------------------------------------------------------------------
  // Solving steps

  /** step_type (or technique_type) of a solving step. */
  datatype StepKind = InitialConstraints | InitialState | TechniqueApplied | ConstraintElimination | FinalState

  /** elimination_type of a change record in the advanced solver; the other services set none. */
  datatype ChangeTag = Untagged | TechniqueTag | ConstraintTag

  datatype TaggedChange = TaggedChange(change: Change, tag: ChangeTag)

  /**
   * One solving-step dict. Keys a service does not set are None or empty:
   * step_number and focus_cells/value come from the step-by-step solver,
   * technique_eliminations/constraint_eliminations from the advanced one.
   * The frontend solver's technique steps set no step_number key but write
   * the number into their description; stepNumber keeps it for them.
   */
  datatype SolvingStep = SolvingStep(
    kind: StepKind, technique: string, stepNumber: Option<int>,
    grid: seq<seq<int>>, candidates: seq<seq<set<int>>>,
    cellsSolved: int, candidatesEliminated: int, candidateChanges: seq<TaggedChange>,
    solvedPositions: seq<Filled>, focusCells: seq<Pos>, value: Option<int>,
    techniqueEliminations: Option<int>, constraintEliminations: Option<int>)

  /** Both snapshots of a step are 9 by 9. */
  predicate Shaped(s: SolvingStep) {
    NineByNine(s.grid) && NineByNine(s.candidates)
  }

  /** A record's eliminated set is what the cell lost, and it lost something. */
  predicate Loss(ch: Change) {
    ch.eliminated == ch.oldCandidates - ch.newCandidates && ch.eliminated != {}
  }

  /** A change record of a board cell whose new candidates are the ones the step shows. */
  predicate ShowsChange(s: SolvingStep, ch: Change)
    requires Shaped(s)
  {
    ValidPos(ch.position) && ch.location == Label(ch.position) && Loss(ch)
    && s.candidates[ch.position.0][ch.position.1] == ch.newCandidates
  }

  /** A solved_positions entry whose cell the step's grid shows filled with that value. */
  predicate ShowsFill(s: SolvingStep, f: Filled)
    requires Shaped(s)
  {
    ValidPos(f.position) && f.value != 0 && s.grid[f.position.0][f.position.1] == f.value
  }

  /** cells_solved is the length of solved_positions, and every entry is shown in the grid. */
  predicate ShowsFills(s: SolvingStep)
    requires Shaped(s)
  {
    s.cellsSolved == |s.solvedPositions|
    && forall k :: 0 <= k < |s.solvedPositions| ==> ShowsFill(s, s.solvedPositions[k])
  }

  /** Every change of the step is shown by it; when open, its cell is still empty in the grid. */
  predicate ShowsChanges(s: SolvingStep, open: bool)
    requires Shaped(s)
  {
    forall k :: 0 <= k < |s.candidateChanges| ==>
      ShowsChange(s, s.candidateChanges[k].change)
      && (open ==> s.grid[s.candidateChanges[k].change.position.0][s.candidateChanges[k].change.position.1] == 0)
  }

  /** Every change carries the same elimination_type. */
  predicate AllTagged(changes: seq<TaggedChange>, tag: ChangeTag) {
    forall k :: 0 <= k < |changes| ==> changes[k].tag == tag
  }

  /**
   * A step showing the snapshot `after` reports the diff from `before`
   * faithfully: each record's new candidates are the ones shown, and with
   * openOnly each recorded cell is still empty in the grid shown.
   */
  lemma DiffShown(before: Grid, after: Grid, openOnly: bool, tag: ChangeTag, s: SolvingStep)
    requires |before| == 81 && |after| == 81
    requires s.grid == ValueGrid(after) && s.candidates == CandidatesGrid(after)
    requires s.candidateChanges == Tag(CandidateDiff(before, after, 81, openOnly), tag)
    ensures Shaped(s) && ShowsChanges(s, openOnly) && AllTagged(s.candidateChanges, tag)
  {
    CandidateDiffMeaning(before, after, 81, openOnly);
    var diff := CandidateDiff(before, after, 81, openOnly);
    forall k | 0 <= k < |s.candidateChanges|
      ensures ShowsChange(s, s.candidateChanges[k].change)
      ensures openOnly ==> s.grid[s.candidateChanges[k].change.position.0][s.candidateChanges[k].change.position.1] == 0
    {
      assert s.candidateChanges[k].change == diff[k];
      LossShown(before, after, openOnly, s, diff[k]);
    }
  }

  /** A recorded loss is shown by a step displaying the later grid, on an empty cell when only those count. */
  lemma LossShown(before: Grid, after: Grid, openOnly: bool, s: SolvingStep, ch: Change)
    requires |before| == 81 && |after| == 81
    requires s.grid == ValueGrid(after) && s.candidates == CandidatesGrid(after)
    requires RecordsLoss(before, after, ch) && LostAt(before, after, Idx(ch.position), openOnly)
    ensures Shaped(s) && ShowsChange(s, ch)
    ensures openOnly ==> s.grid[ch.position.0][ch.position.1] == 0
  {
  }

  /**
   * A step showing the grid `after` with the cells filled since `before`
   * as solved_positions, and the change in the filled count as
   * cells_solved, shows every fill, and the two numbers agree.
   */
  lemma FillsShown(before: Grid, after: Grid, s: SolvingStep)
    requires |before| == 81 && |after| == 81 && Advances(before, after)
    requires Shaped(s) && s.grid == ValueGrid(after)
    requires s.solvedPositions == NewlyFilled(before, after, 81)
    requires s.cellsSolved == FilledCount(after, 81) - FilledCount(before, 81)
    ensures ShowsFills(s)
  {
    CellsSolvedCount(before, after, 81);
    NewlyFilledMeaning(before, after, 81);
  }

  /** The change records with one elimination_type (or none) attached. */
  function Tag(changes: seq<Change>, tag: ChangeTag): (r: seq<TaggedChange>)
    ensures |r| == |changes| && forall k :: 0 <= k < |r| ==> r[k] == TaggedChange(changes[k], tag)
  {
    seq(|changes|, k requires 0 <= k < |changes| => TaggedChange(changes[k], tag))
  }

  /** A step that only reports a board snapshot and some change records. */
  function ChangeStep(kind: StepKind, technique: string, g: Grid, changes: seq<TaggedChange>,
                      solvedPositions: seq<Filled>): SolvingStep
    requires |g| == 81
  {
    SolvingStep(kind, technique, None, ValueGrid(g), CandidatesGrid(g), 0, |changes|, changes,
                solvedPositions, [], None, None, None)
  }

  /** The variables one pass of a solve loop's for loop updates. */
  datatype RoundState = RoundState(changed: bool, applied: seq<string>, steps: seq<SolvingStep>, stepNumber: int)

  /** The number of technique steps in a trace. */
  function TechniqueStepCount(steps: seq<SolvingStep>): (n: nat)
    ensures n <= |steps|
    decreases |steps|
  {
    if steps == [] then 0
    else TechniqueStepCount(steps[..|steps| - 1]) + (if steps[|steps| - 1].kind == TechniqueApplied then 1 else 0)
  }

  /** Appending a step adds one to the count exactly when it is a technique step. */
  lemma TechniqueStepCountAppend(steps: seq<SolvingStep>, block: seq<SolvingStep>)
    requires |block| <= 1
    ensures TechniqueStepCount(steps + block) ==
      TechniqueStepCount(steps) + (if |block| == 1 && block[0].kind == TechniqueApplied then 1 else 0)
  {
    if |block| == 1 {
      assert (steps + block)[..|steps|] == steps;
    } else {
      assert steps + block == steps;
    }
  }

  /** The "Final State" step of the advanced and enhanced solvers. */
  function FinalStep(g: Grid): SolvingStep
    requires |g| == 81
  {
    ChangeStep(FinalState, "Final State", g, [], [])
  }

  /** The trace starts with an initial-constraints step. */
  predicate StartsWithInitial(steps: seq<SolvingStep>) {
    |steps| > 0 && steps[0].kind == InitialConstraints
  }

  /** The trace ends with a final-state step. */
  predicate EndsWithFinal(steps: seq<SolvingStep>) {
    |steps| > 0 && steps[|steps| - 1].kind == FinalState
  }

  /**
   * The advanced and enhanced solvers' closing rule: the final-state step
   * is appended exactly when there are steps, the board is not solved and
   * an empty cell remains.
   */
  method AddFinalStep(steps: seq<SolvingStep>, g: Grid) returns (r: seq<SolvingStep>)
    requires |g| == 81 && !EndsWithFinal(steps)
    ensures EndsWithFinal(r) <==> steps != [] && !BoardSolved(g) && HasEmpty(ValueGrid(g))
    ensures r == steps || r == steps + [FinalStep(g)]
  {
    r := steps;
    if steps != [] && !BoardSolved(g) {
      HasEmptyCount(g);
      if 81 - FilledCount(g, 81) > 0 {
        r := steps + [FinalStep(g)];
      }
    }
  }

  // ---------------------------------------------------------------------
  // The result dicts

  /**
   * The result message, kept as the counts it is written from. steps is
   * the step count a service mentions (None where it mentions none);
   * techniques is len(techniques_applied), which the partial message of
   * one service leaves out.
   */
  datatype Message =
    | SolvedMessage(steps: Option<int>, techniques: int)
    | PartialMessage(emptyCells: int, steps: Option<int>, techniquesMentioned: Option<int>)

  /**
   * What a service's solve returns. solving_steps and the step total are
   * empty and None for the service that reports no steps.
   */
  datatype SolveResult = SolveResult(
    solvedGrid: seq<seq<int>>, isSolved: bool, message: Message, techniquesApplied: seq<string>,
    iterations: int, solvingSteps: seq<SolvingStep>, totalSteps: Option<int>)

  /**
   * The closing part every service shares: solved_grid is the value grid,
   * is_solved is board.is_solved(), and the message counts the empty cells
   * of solved_grid when the board is not solved.
   */
  function Outcome(g: Grid, applied: seq<string>, iterations: int, steps: seq<SolvingStep>,
                   stepCount: Option<int>, partialCountsTechniques: bool, totalSteps: Option<int>): (r: SolveResult)
    requires |g| == 81
    ensures r.solvedGrid == ValueGrid(g) && NineByNine(r.solvedGrid)
    ensures r.isSolved <==> GridSolved(r.solvedGrid)
    ensures r.message.SolvedMessage? <==> r.isSolved
    ensures r.message.SolvedMessage? ==> r.message == SolvedMessage(stepCount, |applied|)
    ensures r.message.PartialMessage? ==>
      r.message.emptyCells == Zeros(r.solvedGrid, 9) && (r.message.emptyCells > 0 <==> HasEmpty(r.solvedGrid))
      && r.message.steps == stepCount
      && r.message.techniquesMentioned == if partialCountsTechniques then Some(|applied|) else None
    ensures r.techniquesApplied == applied && r.iterations == iterations
    ensures r.solvingSteps == steps && r.totalSteps == totalSteps
  {
    BoardSolvedIsGridSolved(g);
    HasEmptyCount(g);
    ZerosCount(g, 9);
    var solved := BoardSolved(g);
    var message :=
      if solved then SolvedMessage(stepCount, |applied|)
      else PartialMessage(81 - FilledCount(g, 81), stepCount, if partialCountsTechniques then Some(|applied|) else None);
    SolveResult(ValueGrid(g), solved, message, applied, iterations, steps, totalSteps)
  }

  // ---------------------------------------------------------------------
  // The boards a trace was recorded from

  /**
   * The boards around one call that recorded a step: before the call,
   * right after the technique itself, and after the call's own
   * update_candidates, if it ran one.
   */
  datatype Shot = Shot(before: Grid, mid: Grid, after: Grid)

  /**
   * What can happen to the board between two calls that record steps:
   * nothing, or one update_candidates, which is what a technique whose
   * result is false leaves behind.
   */
  predicate Gap(g: Grid, h: Grid) {
    |g| == 81 && (h == g || h == PropagateAll(g))
  }

  /** Two gaps in a row are one gap, because update_candidates is idempotent. */
  lemma GapTrans(a: Grid, b: Grid, c: Grid)
    requires Gap(a, b) && Gap(b, c)
    ensures Gap(a, c)
  {
    if b != a && c != b {
      PropagateIdempotent(a);
    }
  }

  /**
   * The steps of a trace as recorded along a run from g0 to g: step k was
   * built from the boards shots[k] as `made` says, and before the first
   * call, between two calls and after the last one the board changed by at
   * most one update_candidates.
   */
  predicate Recorded(made: (SolvingStep, Shot) -> bool, g0: Grid, steps: seq<SolvingStep>, shots: seq<Shot>, g: Grid)
    decreases |steps|
  {
    |shots| == |steps|
    && if steps == [] then Gap(g0, g)
       else Recorded(made, g0, steps[..|steps| - 1], shots[..|steps| - 1], shots[|steps| - 1].before)
            && made(steps[|steps| - 1], shots[|steps| - 1]) && Gap(shots[|steps| - 1].after, g)
  }

  /** A run that ends in a gap still ends in a gap. */
  lemma RecordedGap(made: (SolvingStep, Shot) -> bool, g0: Grid, steps: seq<SolvingStep>, shots: seq<Shot>, g: Grid, h: Grid)
    requires Recorded(made, g0, steps, shots, g) && Gap(g, h)
    ensures Recorded(made, g0, steps, shots, h)
  {
    if steps == [] {
      GapTrans(g0, g, h);
    } else {
      GapTrans(shots[|steps| - 1].after, g, h);
    }
  }

  /** A step appended, then a tail appended: the step and the tail appended together. */
  lemma AppendThenTail(steps: seq<SolvingStep>, s: SolvingStep, tail: seq<SolvingStep>)
    ensures (steps + [s]) + tail == steps + ([s] + tail)
  {
  }

  /** A run from g0 to g followed by a run from g to h is a run from g0 to h. */
  lemma {:induction false} RecordedAppend(made: (SolvingStep, Shot) -> bool, g0: Grid, steps: seq<SolvingStep>, shots: seq<Shot>,
                                          g: Grid, block: seq<SolvingStep>, blockShots: seq<Shot>, h: Grid)
    requires Recorded(made, g0, steps, shots, g) && Recorded(made, g, block, blockShots, h)
    ensures Recorded(made, g0, steps + block, shots + blockShots, h)
    decreases |block|
  {
    if block == [] {
      assert steps + block == steps && shots + blockShots == shots;
      RecordedGap(made, g0, steps, shots, g, h);
    } else {
      var n := |block| - 1;
      RecordedAppend(made, g0, steps, shots, g, block[..n], blockShots[..n], blockShots[n].before);
      assert (steps + block)[..|steps| + n] == steps + block[..n];
      assert (shots + blockShots)[..|steps| + n] == shots + blockShots[..n];
    }
  }

  /**
   * Reading a run index by index: step k was made from shots[k], the board
   * before its call is at most one update_candidates away from the board
   * after the previous call (from g0 for the first), and g is at most one
   * update_candidates away from the board after the last call.
   */
  lemma {:induction false} RecordedAt(made: (SolvingStep, Shot) -> bool, g0: Grid, steps: seq<SolvingStep>, shots: seq<Shot>,
                                      g: Grid, k: int)
    requires Recorded(made, g0, steps, shots, g) && 0 <= k < |steps|
    ensures made(steps[k], shots[k])
    ensures Gap(if k == 0 then g0 else shots[k - 1].after, shots[k].before)
    ensures Gap(shots[|steps| - 1].after, g)
    decreases |steps|
  {
    var n := |steps| - 1;
    if k < n {
      RecordedAt(made, g0, steps[..n], shots[..n], shots[n].before, k);
    } else if k > 0 {
      RecordedAt(made, g0, steps[..n], shots[..n], shots[n].before, k - 1);
    }
  }

  /**
   * A call that leaves no mark: when a technique filled no cell and took no
   * candidate from a cell still empty, the board is what it was.
   */
  lemma QuietCall(before: Grid, after: Grid)
    requires |before| == 81 && Advances(before, after)
    requires NewlyFilled(before, after, 81) == [] && CandidateDiff(before, after, 81, true) == []
    ensures after == before
  {
    NewlyFilledMeaning(before, after, 81);
    CandidateDiffMeaning(before, after, 81, true);
    forall i | 0 <= i < 81 ensures after[i] == before[i] {
      if !Solved(before[i]) {
        assert PosOf(i) !in ChangedPositions([]);
        assert before[i].candidates - after[i].candidates == {};
        assert !Solved(after[i]) && after[i].candidates <= before[i].candidates;
        assert after[i].isInitial == before[i].isInitial && after[i].value == 0 == before[i].value;
        forall x | x in before[i].candidates ensures x in after[i].candidates {
          assert x !in before[i].candidates - after[i].candidates;
        }
      }
    }
  }
}
