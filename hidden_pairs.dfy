/**
 * Hidden pairs (backend/logic/hidden_pairs.py). In every unit, the map
 * from each value 1..9 to the unit indices of the empty cells holding it
 * is built once, as the unit is entered. Every pair c1 < c2 whose two
 * index sets are equal and of size two is a hidden pair: its two cells are
 * cut down to {c1, c2}. The map is not refreshed after a cut, so later
 * pairs of the same unit are judged on the unit as it was entered; the
 * cuts themselves act on the cells as they are.
 *
 * logic/hidden_pairs.py performs the same cuts and returns only the flag;
 * it is modelled in the Legacy module.
 */
module HiddenPairs {
  import opened Wrappers
  import opened Cells
  import opened Geometry
  import opened Board
  import opened Units
  import opened Steps

  const Technique := "Hidden Pair"

  /** The unit indices below n whose empty cell holds num. */
  function PositionsBelow(cells: seq<CellState>, num: int, n: int): (s: set<int>)
    requires 0 <= n <= |cells|
  {
    set idx | 0 <= idx < n && !Solved(cells[idx]) && num in cells[idx].candidates
  }

  /** candidate_positions as built when the unit is entered. */
  function PositionMap(cells: seq<CellState>): (pm: map<int, set<int>>)
    requires |cells| == 9
    ensures pm.Keys == Digits
  {
    map n | n in Digits :: PositionsBelow(cells, n, 9)
  }

  /** A map from the digits to sets of unit indices. */
  predicate PositionSets(pm: map<int, set<int>>) {
    pm.Keys == Digits && forall n, i :: n in pm && i in pm[n] ==> 0 <= i < 9
  }

  /** c1 and c2 sit in exactly the same two cells. */
  predicate Fires(pm: map<int, set<int>>, c1: int, c2: int)
    requires PositionSets(pm) && c1 in Digits && c2 in Digits
  {
    |pm[c1]| == 2 && pm[c1] == pm[c2]
  }

  /** The board, the focus cells and the elimination map the unit callbacks share. */
  datatype PassState = PassState(grid: Grid, focus: seq<Pos>, elims: ElimMap)

  /** One cell of a hidden pair: if it holds anything besides the pair, keep only the pair and record the rest. */
  function Cut(st: PassState, p: Pos, allowed: set<int>): (r: PassState)
    requires |st.grid| == 81 && ValidPos(p)
    ensures |r.grid| == 81 && r.focus == st.focus
  {
    var cell := st.grid[Idx(p)];
    if cell.candidates <= allowed then st
    else PassState(st.grid[Idx(p) := AssignCandidates(cell, cell.candidates * allowed)], st.focus,
                   RecordRemoved(st.elims, cell.candidates - allowed, p))
  }

  /** `for pos in pos1` over the indices below n, in ascending order: cut each. */
  function CutUpTo(st: PassState, ps: seq<Pos>, s: set<int>, allowed: set<int>, n: int): (r: PassState)
    requires |st.grid| == 81 && ValidUnit(ps) && 0 <= n <= 9
    ensures |r.grid| == 81 && r.focus == st.focus
  {
    if n == 0 then st
    else
      var r := CutUpTo(st, ps, s, allowed, n - 1);
      if n - 1 in s then Cut(r, ps[n - 1], allowed) else r
  }

  /** The focus cells appended for a pair: its cells' positions in ascending index order. */
  function FocusUpTo(ps: seq<Pos>, s: set<int>, n: int): (f: seq<Pos>)
    requires ValidUnit(ps) && 0 <= n <= 9
    ensures forall q :: q in f ==> exists i :: 0 <= i < n && i in s && q == ps[i]
  {
    if n == 0 then [] else FocusUpTo(ps, s, n - 1) + (if n - 1 in s then [ps[n - 1]] else [])
  }

  /** The body of the pair loop for (c1, c2). */
  function ProcessPair(st: PassState, ps: seq<Pos>, pm: map<int, set<int>>, c1: int, c2: int): (r: PassState)
    requires |st.grid| == 81 && ValidUnit(ps) && PositionSets(pm) && c1 in Digits && c2 in Digits
    ensures |r.grid| == 81
  {
    if Fires(pm, c1, c2) then
      var r := CutUpTo(st, ps, pm[c1], {c1, c2}, 9);
      r.(focus := r.focus + FocusUpTo(ps, pm[c1], 9))
    else st
  }

  /** The inner loop: the pairs (c1, c2) with c1 < c2 < m. */
  function AfterRow(st: PassState, ps: seq<Pos>, pm: map<int, set<int>>, c1: int, m: int): (r: PassState)
    requires |st.grid| == 81 && ValidUnit(ps) && PositionSets(pm) && 1 <= c1 <= 9 && c1 < m <= 10
    ensures |r.grid| == 81
    decreases m
  {
    if m == c1 + 1 then st else ProcessPair(AfterRow(st, ps, pm, c1, m - 1), ps, pm, c1, m - 1)
  }

  /** The outer loop: every pair whose first value is below n. */
  function AfterRows(st: PassState, ps: seq<Pos>, pm: map<int, set<int>>, n: int): (r: PassState)
    requires |st.grid| == 81 && ValidUnit(ps) && PositionSets(pm) && 1 <= n <= 10
    ensures |r.grid| == 81
  {
    if n == 1 then st else AfterRow(AfterRows(st, ps, pm, n - 1), ps, pm, n - 1, 10)
  }

  /** process_unit for unit k. */
  function PairUnit(st: PassState, k: int): (r: PassState)
    requires |st.grid| == 81 && 0 <= k < UnitCount
    ensures |r.grid| == 81
  {
    UnitAtValid(k);
    UnitAtAllValid(k);
    var pm := PositionMap(UnitCells(st.grid, UnitAt(k)));
    AfterRows(st, UnitAt(k), pm, 10)
  }

  /** The units below k, as process_all_units visits them. */
  function PairUnits(st: PassState, k: int): (r: PassState)
    requires |st.grid| == 81 && 0 <= k <= UnitCount
    ensures |r.grid| == 81
  {
    if k == 0 then st else PairUnit(PairUnits(st, k - 1), k - 1)
  }

  /** apply_one_hidden_pair's shared state after the scan: update_candidates first, then all 27 units. */
  function HiddenPairPass(g: Grid): (r: PassState)
    requires |g| == 81
    ensures |r.grid| == 81
  {
    PairUnits(PassState(PropagateAll(g), [], []), UnitCount)
  }

  /** The step apply_one_hidden_pair reports for a scan that cut something. */
  function PairStep(st: PassState): TechniqueStep {
    MakeStep(Technique, EliminationText(Technique, st.elims), st.focus, None, Some(st.elims))
  }

  // ---------------------------------------------------------------------
  // What a unit keeps

  /** Pair (a, b) comes before the loop position (c1, m). */
  predicate Before(a: int, b: int, c1: int, m: int) {
    a < c1 || (a == c1 && b < m)
  }

  /** The values of cands cell idx keeps once the pairs before (c1, m) are done: those every fired pair holding it allows. */
  ghost function KeptBy(pm: map<int, set<int>>, idx: int, c1: int, m: int, cands: set<int>): set<int>
    requires PositionSets(pm)
  {
    set v | v in cands && forall a, b :: 1 <= a < b <= 9 && Before(a, b, c1, m) && Fires(pm, a, b) && idx in pm[a] ==> v == a || v == b
  }

  /** Values a and b occupy exactly the same two empty cells of the unit. */
  predicate HiddenPair(cells: seq<CellState>, a: int, b: int)
    requires |cells| == 9
  {
    1 <= a < b <= 9 && |PositionsBelow(cells, a, 9)| == 2 && PositionsBelow(cells, a, 9) == PositionsBelow(cells, b, 9)
  }

  /** What empty cell idx keeps: the candidates every hidden pair of the unit that holds the cell allows. */
  ghost function Kept(cells: seq<CellState>, idx: int): set<int>
    requires |cells| == 9 && 0 <= idx < 9
  {
    set v | v in cells[idx].candidates &&
      forall a, b :: HiddenPair(cells, a, b) && idx in PositionsBelow(cells, a, 9) ==> v == a || v == b
  }

  /** Cell idx of the unit once the pairs before (c1, m) are done: a solved cell stays, an empty one keeps KeptBy. */
  ghost function KeptCell(pm: map<int, set<int>>, idx: int, c1: int, m: int, c: CellState): CellState
    requires PositionSets(pm)
  {
    if Solved(c) then c else AssignCandidates(c, KeptBy(pm, idx, c1, m, c.candidates))
  }

  /**
   * The unit cells of g against those of g0: a cell with an index in some
   * set of pm is empty in g0, every unit cell is g0's cell cut down to
   * KeptBy(.., c1, m, ..), and cells outside the unit are untouched.
   */
  ghost predicate UnitSoFar(g0: Grid, g: Grid, ps: seq<Pos>, pm: map<int, set<int>>, c1: int, m: int)
    requires |g0| == 81 && |g| == 81 && ValidUnit(ps) && PositionSets(pm)
  {
    (forall n, i :: n in pm && i in pm[n] ==> !Solved(g0[Idx(ps[i])]))
    && (forall i :: 0 <= i < 9 ==> g[Idx(ps[i])] == KeptCell(pm, i, c1, m, g0[Idx(ps[i])]))
    && (forall j :: 0 <= j < 81 && (forall i :: 0 <= i < 9 ==> Idx(ps[i]) != j) ==> g[j] == g0[j])
  }

  /** Cutting the cells of a set: each cell with an index in s is intersected with allowed, nothing else changes. */
  lemma {:induction false} CutUpToEffect(st: PassState, ps: seq<Pos>, s: set<int>, allowed: set<int>, n: int)
    requires |st.grid| == 81 && ValidUnit(ps) && 0 <= n <= 9
    ensures forall i :: 0 <= i < 9 ==>
      var c := st.grid[Idx(ps[i])];
      CutUpTo(st, ps, s, allowed, n).grid[Idx(ps[i])] ==
      if i < n && i in s then AssignCandidates(c, c.candidates * allowed) else c
    ensures forall j :: 0 <= j < 81 && (forall i :: 0 <= i < 9 ==> Idx(ps[i]) != j) ==>
      CutUpTo(st, ps, s, allowed, n).grid[j] == st.grid[j]
    decreases n
  {
    if n > 0 {
      CutUpToEffect(st, ps, s, allowed, n - 1);
      forall i | 0 <= i < 9 && i != n - 1 ensures Idx(ps[i]) != Idx(ps[n - 1]) {
        IdxDistinct(ps[i], ps[n - 1]);
      }
      var c := st.grid[Idx(ps[n - 1])];
      if c.candidates <= allowed {
        assert c.candidates * allowed == c.candidates;
      }
    }
  }

  /** One more pair (c1, m): a fired pair cuts its cells to {c1, m}, which is the next KeptBy. */
  lemma PairStepEffect(g0: Grid, st: PassState, ps: seq<Pos>, pm: map<int, set<int>>, c1: int, m: int)
    requires |g0| == 81 && |st.grid| == 81 && ValidUnit(ps) && PositionSets(pm) && 1 <= c1 < m <= 9
    requires UnitSoFar(g0, st.grid, ps, pm, c1, m)
    ensures UnitSoFar(g0, ProcessPair(st, ps, pm, c1, m).grid, ps, pm, c1, m + 1)
  {
    var g := st.grid;
    var h := ProcessPair(st, ps, pm, c1, m).grid;
    if Fires(pm, c1, m) {
      CutUpToEffect(st, ps, pm[c1], {c1, m}, 9);
    }
    forall i | 0 <= i < 9 && !Solved(g0[Idx(ps[i])])
      ensures KeptBy(pm, i, c1, m + 1, g0[Idx(ps[i])].candidates) ==
        if Fires(pm, c1, m) && i in pm[c1] then KeptBy(pm, i, c1, m, g0[Idx(ps[i])].candidates) * {c1, m}
        else KeptBy(pm, i, c1, m, g0[Idx(ps[i])].candidates)
    {
      var cands := g0[Idx(ps[i])].candidates;
      forall v | v in cands
        ensures v in KeptBy(pm, i, c1, m + 1, cands) <==>
          v in KeptBy(pm, i, c1, m, cands) && (Fires(pm, c1, m) && i in pm[c1] ==> v == c1 || v == m)
      {
        assert Before(c1, m, c1, m + 1);
      }
    }
    forall i | 0 <= i < 9 && Solved(g0[Idx(ps[i])]) ensures h[Idx(ps[i])] == g[Idx(ps[i])] {
      assert !(Fires(pm, c1, m) && i in pm[c1]);
    }
  }

  /** The inner loop keeps the unit description, ending at the row's last pair. */
  lemma {:induction false} AfterRowEffect(g0: Grid, st: PassState, ps: seq<Pos>, pm: map<int, set<int>>, c1: int, m: int)
    requires |g0| == 81 && |st.grid| == 81 && ValidUnit(ps) && PositionSets(pm) && 1 <= c1 <= 9 && c1 < m <= 10
    requires UnitSoFar(g0, st.grid, ps, pm, c1, c1 + 1)
    ensures UnitSoFar(g0, AfterRow(st, ps, pm, c1, m).grid, ps, pm, c1, m)
    decreases m
  {
    if m > c1 + 1 {
      AfterRowEffect(g0, st, ps, pm, c1, m - 1);
      var r := AfterRow(st, ps, pm, c1, m - 1);
      assert AfterRow(st, ps, pm, c1, m).grid == ProcessPair(r, ps, pm, c1, m - 1).grid;
      PairStepEffect(g0, r, ps, pm, c1, m - 1);
    }
  }

  /** Finishing the row of c1 is starting the row of c1 + 1. */
  lemma RowBoundary(g0: Grid, g: Grid, ps: seq<Pos>, pm: map<int, set<int>>, c1: int)
    requires |g0| == 81 && |g| == 81 && ValidUnit(ps) && PositionSets(pm) && 1 <= c1 <= 9
    requires UnitSoFar(g0, g, ps, pm, c1, 10)
    ensures UnitSoFar(g0, g, ps, pm, c1 + 1, c1 + 2)
  {
    forall i, cands | 0 <= i < 9 ensures KeptBy(pm, i, c1, 10, cands) == KeptBy(pm, i, c1 + 1, c1 + 2, cands) {
      assert forall a, b :: 1 <= a < b <= 9 ==> (Before(a, b, c1, 10) <==> Before(a, b, c1 + 1, c1 + 2));
    }
  }

  /** The outer loop keeps the unit description. */
  lemma {:induction false} AfterRowsEffect(g0: Grid, st: PassState, ps: seq<Pos>, pm: map<int, set<int>>, n: int)
    requires |g0| == 81 && |st.grid| == 81 && ValidUnit(ps) && PositionSets(pm) && 1 <= n <= 10
    requires UnitSoFar(g0, st.grid, ps, pm, 1, 2)
    ensures UnitSoFar(g0, AfterRows(st, ps, pm, n).grid, ps, pm, n, n + 1)
    decreases n
  {
    if n > 1 {
      AfterRowsEffect(g0, st, ps, pm, n - 1);
      var r := AfterRows(st, ps, pm, n - 1);
      var h := AfterRow(r, ps, pm, n - 1, 10).grid;
      assert AfterRows(st, ps, pm, n).grid == h;
      AfterRowEffect(g0, r, ps, pm, n - 1, 10);
      RowBoundary(g0, h, ps, pm, n - 1);
    }
  }

  /** The map of a unit sends each value to the cells holding it. */
  lemma PositionMapSets(g: Grid, ps: seq<Pos>)
    requires |g| == 81 && ValidUnit(ps) && AllValid(ps)
    ensures PositionSets(PositionMap(UnitCells(g, ps)))
    ensures forall n, i :: n in Digits && i in PositionMap(UnitCells(g, ps))[n] ==> !Solved(g[Idx(ps[i])])
  {
  }

  /** At the start of a unit nothing is cut: KeptBy before the first pair is every candidate. */
  lemma UnitStart(g: Grid, ps: seq<Pos>, pm: map<int, set<int>>)
    requires |g| == 81 && ValidUnit(ps) && PositionSets(pm)
    requires forall n, i :: n in pm && i in pm[n] ==> !Solved(g[Idx(ps[i])])
    ensures UnitSoFar(g, g, ps, pm, 1, 2)
  {
    forall i | 0 <= i < 9 ensures KeptBy(pm, i, 1, 2, g[Idx(ps[i])].candidates) == g[Idx(ps[i])].candidates {
    }
  }

  /**
   * process_unit as a whole: each empty cell of unit k keeps exactly the
   * candidates that every hidden pair of the unit holding the cell allows,
   * the pairs judged on the unit as it was entered; solved cells and the
   * cells outside the unit do not change.
   */
  lemma PairUnitEffect(st: PassState, k: int)
    requires |st.grid| == 81 && 0 <= k < UnitCount
    ensures AllValid(UnitAt(k)) && |UnitAt(k)| == 9
    ensures forall i :: 0 <= i < 9 ==>
      var c := st.grid[Idx(UnitAt(k)[i])];
      PairUnit(st, k).grid[Idx(UnitAt(k)[i])] ==
        if Solved(c) then c else AssignCandidates(c, Kept(UnitCells(st.grid, UnitAt(k)), i))
    ensures forall j :: 0 <= j < 81 && (forall i :: 0 <= i < 9 ==> Idx(UnitAt(k)[i]) != j) ==>
      PairUnit(st, k).grid[j] == st.grid[j]
  {
    UnitAtValid(k);
    UnitAtAllValid(k);
    var ps := UnitAt(k);
    var cells := UnitCells(st.grid, ps);
    var pm := PositionMap(cells);
    PositionMapSets(st.grid, ps);
    UnitStart(st.grid, ps, pm);
    AfterRowsEffect(st.grid, st, ps, pm, 10);
    forall i | 0 <= i < 9 ensures KeptBy(pm, i, 10, 11, cells[i].candidates) == Kept(cells, i) {
      forall a, b | 1 <= a < b <= 9 ensures Fires(pm, a, b) <==> HiddenPair(cells, a, b) {
      }
    }
  }

  /** Three values confined to the same two cells: the stale map lets their three pairs empty both cells. */
  lemma ThreeInTwoEmpties(cells: seq<CellState>, idx: int, a: int, b: int, c: int)
    requires |cells| == 9 && 0 <= idx < 9 && 1 <= a < b < c <= 9
    requires |PositionsBelow(cells, a, 9)| == 2 && idx in PositionsBelow(cells, a, 9)
    requires PositionsBelow(cells, a, 9) == PositionsBelow(cells, b, 9) == PositionsBelow(cells, c, 9)
    ensures Kept(cells, idx) == {}
  {
    assert HiddenPair(cells, a, b) && HiddenPair(cells, a, c) && HiddenPair(cells, b, c);
  }

  // ---------------------------------------------------------------------
  // Frames

  /** Cutting a cell only narrows the board, and records exactly what it removed. */
  lemma CutEffect(h0: Grid, st: PassState, p: Pos, allowed: set<int>)
    requires |h0| == 81 && |st.grid| == 81 && ValidPos(p) && ValidGrid(h0)
    requires Narrows(h0, st.grid) && RecordsRemovals(h0, st.grid, st.elims) && !Solved(st.grid[Idx(p)])
    ensures Narrows(st.grid, Cut(st, p, allowed).grid) && Narrows(h0, Cut(st, p, allowed).grid)
    ensures RecordsRemovals(h0, Cut(st, p, allowed).grid, Cut(st, p, allowed).elims)
    ensures Cut(st, p, allowed).grid != st.grid ==> TotalCandidates(Cut(st, p, allowed).grid) < TotalCandidates(st.grid)
  {
    var cell := st.grid[Idx(p)];
    if !(cell.candidates <= allowed) {
      assert cell.candidates * allowed == cell.candidates - (cell.candidates - allowed);
      RecordShrink(h0, st.grid, st.elims, p, cell.candidates - allowed);
    }
    NarrowsTotal(st.grid, Cut(st, p, allowed).grid);
  }

  /** Both grids agree and the second narrows the first; the count tells whether it changed. */
  lemma FlagStep(g0: Grid, g1: Grid, g2: Grid)
    requires Narrows(g0, g1) && Narrows(g1, g2)
    ensures Narrows(g0, g2)
    ensures TotalCandidates(g2) <= TotalCandidates(g1) <= TotalCandidates(g0)
    ensures g2 != g1 ==> TotalCandidates(g2) < TotalCandidates(g1)
  {
    NarrowsTrans(g0, g1, g2);
    NarrowsTotal(g0, g1);
    NarrowsTotal(g1, g2);
  }

  /** A non-empty index set of the unit gives a non-empty focus list. */
  lemma {:induction false} FocusNonEmpty(ps: seq<Pos>, s: set<int>, n: int, i: int)
    requires ValidUnit(ps) && 0 <= i < n <= 9 && i in s
    ensures |FocusUpTo(ps, s, n)| > 0
    decreases n
  {
    if i < n - 1 {
      FocusNonEmpty(ps, s, n - 1, i);
    }
  }

  /** The pass only narrows the board. */
  lemma {:induction false} PairUnitsNarrows(st: PassState, k: int)
    requires |st.grid| == 81 && 0 <= k <= UnitCount
    ensures Narrows(st.grid, PairUnits(st, k).grid)
    decreases k
  {
    if k > 0 {
      PairUnitsNarrows(st, k - 1);
      var r := PairUnits(st, k - 1);
      PairUnitNarrows(r, k - 1);
      NarrowsTrans(st.grid, r.grid, PairUnits(st, k).grid);
    }
  }

  /** One unit only narrows the board. */
  lemma PairUnitNarrows(st: PassState, k: int)
    requires |st.grid| == 81 && 0 <= k < UnitCount
    ensures Narrows(st.grid, PairUnit(st, k).grid)
  {
    PairUnitEffect(st, k);
    var h := PairUnit(st, k).grid;
    UnitAtValid(k);
    forall j | 0 <= j < 81
      ensures h[j].value == st.grid[j].value && h[j].isInitial == st.grid[j].isInitial
      ensures h[j].candidates <= st.grid[j].candidates
      ensures Solved(st.grid[j]) ==> h[j] == st.grid[j]
    {
      if exists i :: 0 <= i < 9 && Idx(UnitAt(k)[i]) == j {
        var i :| 0 <= i < 9 && Idx(UnitAt(k)[i]) == j;
      }
    }
  }

  /** On a board update_candidates leaves alone, a scan that cuts nothing is a fixpoint. */
  lemma PassFixpoint(g: Grid)
    requires |g| == 81 && HiddenPairPass(g).grid == PropagateAll(g)
    ensures HiddenPairPass(HiddenPairPass(g).grid).grid == HiddenPairPass(g).grid
  {
    PropagateIdempotent(g);
  }

  // ---------------------------------------------------------------------
  // The loops

  /** Adding one cell's candidates to the position sets, in any order. */
  method AddCell(pm: map<int, set<int>>, candidates: set<int>, idx: int) returns (r: map<int, set<int>>)
    requires pm.Keys == Digits && candidates <= Digits
    ensures r.Keys == Digits
    ensures forall n :: n in Digits ==> r[n] == pm[n] + (if n in candidates then {idx} else {})
  {
    r := pm;
    for num := 1 to 10
      invariant r.Keys == Digits
      invariant forall n :: n in Digits ==> r[n] == pm[n] + (if n in candidates && n < num then {idx} else {})
    {
      if num in candidates {
        r := r[num := r[num] + {idx}];
      }
    }
  }

  /** The candidate_positions loop of process_unit. */
  method BuildPositions(grid: array<CellState>, ps: seq<Pos>) returns (pm: map<int, set<int>>)
    requires grid.Length == 81 && ValidUnit(ps) && ValidGrid(grid[..])
    ensures pm == PositionMap(UnitCells(grid[..], ps))
  {
    ghost var cells := UnitCells(grid[..], ps);
    pm := map n | n in Digits :: {};
    for idx := 0 to 9
      invariant pm.Keys == Digits
      invariant forall n :: n in Digits ==> pm[n] == PositionsBelow(cells, n, idx)
    {
      var cell := grid[Idx(ps[idx])];
      if !Solved(cell) {
        pm := AddCell(pm, cell.candidates, idx);
      }
      assert forall n :: n in Digits ==>
        PositionsBelow(cells, n, idx + 1) ==
        PositionsBelow(cells, n, idx) + (if !Solved(cells[idx]) && n in cells[idx].candidates then {idx} else {});
    }
  }

  /** One cell of a hidden pair. */
  method CutCell(grid: array<CellState>, p: Pos, allowed: set<int>, focus: seq<Pos>, elims: ElimMap, ghost h0: Grid)
    returns (elims': ElimMap, cut: bool)
    requires grid.Length == 81 && ValidPos(p) && |h0| == 81 && ValidGrid(h0)
    requires Narrows(h0, grid[..]) && RecordsRemovals(h0, grid[..], elims) && !Solved(grid[Idx(p)])
    modifies grid
    ensures PassState(grid[..], focus, elims') == Cut(PassState(old(grid[..]), focus, elims), p, allowed)
    ensures Narrows(h0, grid[..]) && RecordsRemovals(h0, grid[..], elims')
    ensures Narrows(old(grid[..]), grid[..])
    ensures cut <==> grid[..] != old(grid[..])
  {
    CutEffect(h0, PassState(grid[..], focus, elims), p, allowed);
    var i := Idx(p);
    var cell := grid[i];
    var current := cell.candidates;
    if !(current <= allowed) {
      var eliminated := current - allowed;
      var newCandidates := current * allowed;
      grid[i] := AssignCandidates(cell, newCandidates);
      elims' := RecordRemoved(elims, eliminated, p);
      assert grid[..][i].candidates != old(grid[..])[i].candidates;
      return elims', true;
    }
    return elims, false;
  }

  /** The two loops over pos1 of a fired pair: cut each cell, then append the cells to the focus. */
  method FirePair(grid: array<CellState>, ps: seq<Pos>, s: set<int>, allowed: set<int>, focus: seq<Pos>,
                  elims: ElimMap, ghost h0: Grid)
    returns (focus': seq<Pos>, elims': ElimMap, cut: bool)
    requires grid.Length == 81 && ValidUnit(ps) && |h0| == 81 && ValidGrid(h0)
    requires Narrows(h0, grid[..]) && RecordsRemovals(h0, grid[..], elims)
    requires forall i :: i in s ==> 0 <= i < 9 && !Solved(grid[Idx(ps[i])])
    modifies grid
    ensures PassState(grid[..], focus', elims') ==
      var r := CutUpTo(PassState(old(grid[..]), focus, elims), ps, s, allowed, 9);
      r.(focus := r.focus + FocusUpTo(ps, s, 9))
    ensures Narrows(h0, grid[..]) && RecordsRemovals(h0, grid[..], elims')
    ensures Narrows(old(grid[..]), grid[..])
    ensures cut <==> TotalCandidates(grid[..]) < TotalCandidates(old(grid[..]))
    ensures |focus'| >= |focus| && (cut ==> |focus'| > |focus|)
  {
    ghost var g0 := grid[..];
    ghost var held := 0;
    elims' := elims;
    cut := false;
    for pos := 0 to 9
      invariant PassState(grid[..], focus, elims') == CutUpTo(PassState(g0, focus, elims), ps, s, allowed, pos)
      invariant Narrows(h0, grid[..]) && RecordsRemovals(h0, grid[..], elims')
      invariant Narrows(g0, grid[..])
      invariant cut <==> TotalCandidates(grid[..]) < TotalCandidates(g0)
      invariant cut ==> 0 <= held < pos && held in s
    {
      if pos in s && !cut {
        held := pos;
      }
      elims', cut := CutStep(grid, ps, s, allowed, focus, elims, elims', h0, g0, pos, cut);
    }
    focus' := focus;
    for pos := 0 to 9
      invariant focus' == focus + FocusUpTo(ps, s, pos)
    {
      if pos in s {
        focus' := focus' + [ps[pos]];
      }
    }
    if cut {
      FocusNonEmpty(ps, s, 9, held);
    }
  }

  /** One index of `for pos in pos1` (the indices outside the set skipped), keeping the loop's description of the cuts so far. */
  method CutStep(grid: array<CellState>, ps: seq<Pos>, s: set<int>, allowed: set<int>, focus: seq<Pos>,
                 ghost elims0: ElimMap, elims: ElimMap, ghost h0: Grid, ghost g0: Grid, pos: int, cut: bool)
    returns (elims': ElimMap, cut': bool)
    requires grid.Length == 81 && ValidUnit(ps) && |h0| == 81 && ValidGrid(h0) && |g0| == 81 && 0 <= pos < 9
    requires forall i :: i in s ==> 0 <= i < 9 && !Solved(g0[Idx(ps[i])])
    requires PassState(grid[..], focus, elims) == CutUpTo(PassState(g0, focus, elims0), ps, s, allowed, pos)
    requires Narrows(h0, grid[..]) && RecordsRemovals(h0, grid[..], elims)
    requires Narrows(g0, grid[..])
    requires cut <==> TotalCandidates(grid[..]) < TotalCandidates(g0)
    modifies grid
    ensures PassState(grid[..], focus, elims') == CutUpTo(PassState(g0, focus, elims0), ps, s, allowed, pos + 1)
    ensures Narrows(h0, grid[..]) && RecordsRemovals(h0, grid[..], elims')
    ensures Narrows(g0, grid[..])
    ensures cut' <==> TotalCandidates(grid[..]) < TotalCandidates(g0)
    ensures pos !in s ==> cut' == cut
  {
    elims', cut' := elims, cut;
    if pos in s {
      assert g0[Idx(ps[pos])].value == grid[Idx(ps[pos])].value;
      ghost var before := grid[..];
      var c;
      elims', c := CutCell(grid, ps[pos], allowed, focus, elims, h0);
      FlagStep(g0, before, grid[..]);
      cut' := cut || c;
    }
  }

  /** The inner loop of process_unit: the pairs (c1, c2) for every c2 above c1. */
  method ProcessRow(grid: array<CellState>, ps: seq<Pos>, pm: map<int, set<int>>, c1: int,
                    focus: seq<Pos>, elims: ElimMap, ghost h0: Grid)
    returns (focus': seq<Pos>, elims': ElimMap, changed: bool)
    requires grid.Length == 81 && ValidUnit(ps) && PositionSets(pm) && 1 <= c1 <= 9 && |h0| == 81 && ValidGrid(h0)
    requires Narrows(h0, grid[..]) && RecordsRemovals(h0, grid[..], elims)
    requires forall n, i :: n in pm && i in pm[n] ==> !Solved(grid[Idx(ps[i])])
    modifies grid
    ensures PassState(grid[..], focus', elims') == AfterRow(PassState(old(grid[..]), focus, elims), ps, pm, c1, 10)
    ensures Narrows(h0, grid[..]) && RecordsRemovals(h0, grid[..], elims')
    ensures Narrows(old(grid[..]), grid[..])
    ensures changed <==> TotalCandidates(grid[..]) < TotalCandidates(old(grid[..]))
    ensures |focus'| >= |focus| && (changed ==> |focus'| > |focus|)
  {
    ghost var g0 := grid[..];
    ghost var st0 := PassState(g0, focus, elims);
    focus', elims', changed := focus, elims, false;
    for c2 := c1 + 1 to 10
      invariant PassState(grid[..], focus', elims') == AfterRow(st0, ps, pm, c1, c2)
      invariant Narrows(h0, grid[..]) && RecordsRemovals(h0, grid[..], elims')
      invariant Narrows(g0, grid[..])
      invariant changed <==> TotalCandidates(grid[..]) < TotalCandidates(g0)
      invariant |focus'| >= |focus| && (changed ==> |focus'| > |focus|)
    {
      var pos1, pos2 := pm[c1], pm[c2];
      if |pos1| == 2 && pos1 == pos2 {
        assert forall i :: i in pos1 ==> g0[Idx(ps[i])].value == grid[Idx(ps[i])].value;
        ghost var before := grid[..];
        var cut;
        focus', elims', cut := FirePair(grid, ps, pos1, {c1, c2}, focus', elims', h0);
        FlagStep(g0, before, grid[..]);
        changed := changed || cut;
      }
    }
  }

  /** process_unit: build the position sets, then look at every pair c1 < c2. */
  method ProcessUnit(grid: array<CellState>, k: int, focus: seq<Pos>, elims: ElimMap, ghost h0: Grid)
    returns (focus': seq<Pos>, elims': ElimMap, changed: bool)
    requires grid.Length == 81 && 0 <= k < UnitCount && |h0| == 81 && ValidGrid(h0)
    requires Narrows(h0, grid[..]) && RecordsRemovals(h0, grid[..], elims)
    modifies grid
    ensures PassState(grid[..], focus', elims') == PairUnit(PassState(old(grid[..]), focus, elims), k)
    ensures Narrows(h0, grid[..]) && RecordsRemovals(h0, grid[..], elims')
    ensures Narrows(old(grid[..]), grid[..])
    ensures changed <==> TotalCandidates(grid[..]) < TotalCandidates(old(grid[..]))
    ensures |focus'| >= |focus| && (changed ==> |focus'| > |focus|)
  {
    ghost var g0 := grid[..];
    ghost var st0 := PassState(g0, focus, elims);
    UnitAtValid(k);
    UnitAtAllValid(k);
    var ps := UnitAt(k);
    NarrowsValid(h0, grid[..]);
    var pm := BuildPositions(grid, ps);
    PositionMapSets(g0, ps);
    focus', elims', changed := focus, elims, false;
    for c1 := 1 to 10
      invariant PassState(grid[..], focus', elims') == AfterRows(st0, ps, pm, c1)
      invariant Narrows(h0, grid[..]) && RecordsRemovals(h0, grid[..], elims')
      invariant Narrows(g0, grid[..])
      invariant changed <==> TotalCandidates(grid[..]) < TotalCandidates(g0)
      invariant |focus'| >= |focus| && (changed ==> |focus'| > |focus|)
    {
      assert forall n, i :: n in pm && i in pm[n] ==> g0[Idx(ps[i])].value == grid[Idx(ps[i])].value;
      ghost var before := grid[..];
      var rowChanged;
      focus', elims', rowChanged := ProcessRow(grid, ps, pm, c1, focus', elims', h0);
      FlagStep(g0, before, grid[..]);
      changed := changed || rowChanged;
    }
  }

  /** process_all_units with the hidden-pair callback. */
  method ProcessUnits(grid: array<CellState>) returns (changed: bool, focus: seq<Pos>, elims: ElimMap)
    requires grid.Length == 81 && ValidGrid(grid[..])
    modifies grid
    ensures PassState(grid[..], focus, elims) == PairUnits(PassState(old(grid[..]), [], []), UnitCount)
    ensures Narrows(old(grid[..]), grid[..]) && RecordsRemovals(old(grid[..]), grid[..], elims)
    ensures changed <==> grid[..] != old(grid[..])
    ensures changed ==> focus != []
  {
    ghost var h0 := grid[..];
    changed, focus, elims := false, [], [];
    RecordsNothing(h0);
    for k := 0 to UnitCount
      invariant PassState(grid[..], focus, elims) == PairUnits(PassState(h0, [], []), k)
      invariant Narrows(h0, grid[..]) && RecordsRemovals(h0, grid[..], elims)
      invariant changed <==> TotalCandidates(grid[..]) < TotalCandidates(h0)
      invariant changed ==> focus != []
    {
      focus, elims, changed := UnitStep(grid, k, focus, elims, h0, changed);
    }
    NarrowsTotal(h0, grid[..]);
  }

  /** One unit of process_all_units, keeping the loop's description of the pass so far. */
  method UnitStep(grid: array<CellState>, k: int, focus: seq<Pos>, elims: ElimMap, ghost h0: Grid, changed: bool)
    returns (focus': seq<Pos>, elims': ElimMap, changed': bool)
    requires grid.Length == 81 && 0 <= k < UnitCount && |h0| == 81 && ValidGrid(h0)
    requires PassState(grid[..], focus, elims) == PairUnits(PassState(h0, [], []), k)
    requires Narrows(h0, grid[..]) && RecordsRemovals(h0, grid[..], elims)
    requires changed <==> TotalCandidates(grid[..]) < TotalCandidates(h0)
    requires changed ==> focus != []
    modifies grid
    ensures PassState(grid[..], focus', elims') == PairUnits(PassState(h0, [], []), k + 1)
    ensures Narrows(h0, grid[..]) && RecordsRemovals(h0, grid[..], elims')
    ensures changed' <==> TotalCandidates(grid[..]) < TotalCandidates(h0)
    ensures changed' ==> focus' != []
  {
    ghost var before := grid[..];
    var unitChanged;
    focus', elims', unitChanged := ProcessUnit(grid, k, focus, elims, h0);
    FlagStep(h0, before, grid[..]);
    changed' := changed || unitChanged;
  }

  /**
   * apply_one_hidden_pair: update the candidates, scan every unit, and
   * report (False, None) when nothing was cut, else (True, step).
   */
  method ApplyOne(b: SudokuBoard) returns (changed: bool, step: Option<TechniqueStep>)
    requires b.Valid()
    modifies b.grid
    ensures b.Valid()
    ensures b.grid[..] == HiddenPairPass(old(b.grid[..])).grid
    ensures Narrows(PropagateAll(old(b.grid[..])), b.grid[..])
    ensures changed <==> b.grid[..] != PropagateAll(old(b.grid[..]))
    ensures !changed ==> step.None?
    ensures changed ==> step == Some(PairStep(HiddenPairPass(old(b.grid[..]))))
    ensures changed ==> step.value.focusCells != []
    ensures changed ==> RecordsRemovals(PropagateAll(old(b.grid[..])), b.grid[..], step.value.eliminations)
  {
    ghost var g := b.grid[..];
    var _ := b.UpdateCandidates();
    var focus, elims;
    changed, focus, elims := ProcessUnits(b.grid);
    NarrowsValid(PropagateAll(g), b.grid[..]);
    if !changed {
      return false, None;
    }
    step := Some(MakeStep(Technique, EliminationText(Technique, elims), focus, None, Some(elims)));
  }

  /**
   * One scan that cut something: on board g it gave board h and reported
   * step, whose map lists exactly the candidates the scan removed.
   */
  ghost predicate Link(g: Grid, h: Grid, step: TechniqueStep) {
    |g| == 81 && |h| == 81
    && h == HiddenPairPass(g).grid && h != PropagateAll(g)
    && step == PairStep(HiddenPairPass(g))
    && RecordsRemovals(PropagateAll(g), h, step.eliminations)
  }

  /**
   * The boards gs[0], gs[1], ... that apply_all_hidden_pairs passes through:
   * scan k took gs[k] to gs[k + 1] and reported steps[k].
   */
  ghost predicate PassChain(gs: seq<Grid>, steps: seq<TechniqueStep>)
    decreases |steps|
  {
    |gs| == |steps| + 1
    && (steps == [] || (PassChain(gs[..|steps|], steps[..|steps| - 1])
                        && Link(gs[|steps| - 1], gs[|steps|], steps[|steps| - 1])))
  }

  /** Every link of a chain is a scan that cut something. */
  lemma {:induction false} PassChainAt(gs: seq<Grid>, steps: seq<TechniqueStep>, k: int)
    requires PassChain(gs, steps) && 0 <= k < |steps|
    ensures Link(gs[k], gs[k + 1], steps[k])
    decreases |steps|
  {
    if k < |steps| - 1 {
      PassChainAt(gs[..|steps|], steps[..|steps| - 1], k);
    }
  }

  /** One more scan that cut something extends the chain. */
  lemma PassChainExtend(gs: seq<Grid>, steps: seq<TechniqueStep>, h: Grid, step: TechniqueStep)
    requires PassChain(gs, steps) && Link(gs[|steps|], h, step)
    ensures PassChain(gs + [h], steps + [step]) && (gs + [h])[0] == gs[0] && (gs + [h])[|steps| + 1] == h
  {
    var gs', steps' := gs + [h], steps + [step];
    assert gs'[..|steps'|] == gs && steps'[..|steps'| - 1] == steps;
    assert gs'[|steps'| - 1] == gs[|steps|] && gs'[|steps'|] == h && steps'[|steps'| - 1] == step;
  }

  /** Appending a "Hidden Pair" step with focus cells keeps every step one. */
  lemma StepsSnoc(steps: seq<TechniqueStep>, step: TechniqueStep)
    requires forall k :: 0 <= k < |steps| ==> steps[k].technique == Technique && steps[k].focusCells != []
    requires step.technique == Technique && step.focusCells != []
    ensures var steps' := steps + [step];
      forall k :: 0 <= k < |steps'| ==> steps'[k].technique == Technique && steps'[k].focusCells != []
  {
    var steps' := steps + [step];
    forall k | 0 <= k < |steps'| ensures steps'[k].technique == Technique && steps'[k].focusCells != [] {
      if k < |steps| {
        assert steps'[k] == steps[k];
      }
    }
  }

  /** apply_all_hidden_pairs: repeat until a scan cuts nothing, collecting the steps. */
  method ApplyAll(b: SudokuBoard) returns (changed: bool, steps: seq<TechniqueStep>, ghost gs: seq<Grid>)
    requires b.Valid()
    modifies b.grid
    ensures b.Valid()
    ensures PassChain(gs, steps) && gs[0] == old(b.grid[..]) && b.grid[..] == PropagateAll(gs[|steps|])
    ensures Narrows(old(b.grid[..]), b.grid[..])
    ensures HiddenPairPass(b.grid[..]).grid == b.grid[..]
    ensures changed <==> |steps| > 0
    ensures !changed ==> b.grid[..] == PropagateAll(old(b.grid[..]))
    ensures forall k :: 0 <= k < |steps| ==> steps[k].technique == Technique && steps[k].focusCells != []
  {
    ghost var g0 := b.grid[..];
    changed, steps, gs := false, [], [g0];
    while true
      invariant b.Valid()
      invariant Narrows(g0, b.grid[..])
      invariant changed <==> |steps| > 0
      invariant !changed ==> b.grid[..] == g0
      invariant forall k :: 0 <= k < |steps| ==> steps[k].technique == Technique && steps[k].focusCells != []
      invariant PassChain(gs, steps) && gs[0] == g0 && gs[|steps|] == b.grid[..]
      decreases TotalCandidates(b.grid[..])
    {
      ghost var before := b.grid[..];
      var stepChanged, step := Round(b);
      NarrowsTrans(g0, before, b.grid[..]);
      if !stepChanged {
        break;
      }
      PassChainExtend(gs, steps, b.grid[..], step.value);
      StepsSnoc(steps, step.value);
      changed := true;
      steps := steps + [step.value];
      gs := gs + [b.grid[..]];
    }
  }

  /** One pass of the outer loop, with what the loop needs: progress, or a fixpoint. */
  method Round(b: SudokuBoard) returns (changed: bool, step: Option<TechniqueStep>)
    requires b.Valid()
    modifies b.grid
    ensures b.Valid() && Narrows(old(b.grid[..]), b.grid[..])
    ensures changed ==> TotalCandidates(b.grid[..]) < TotalCandidates(old(b.grid[..]))
    ensures changed ==> step.Some? && step.value.technique == Technique && step.value.focusCells != []
    ensures changed ==> Link(old(b.grid[..]), b.grid[..], step.value)
    ensures !changed ==> b.grid[..] == PropagateAll(old(b.grid[..])) && HiddenPairPass(b.grid[..]).grid == b.grid[..]
  {
    ghost var before := b.grid[..];
    changed, step := ApplyOne(b);
    NarrowsTrans(before, PropagateAll(before), b.grid[..]);
    NarrowsTotal(before, PropagateAll(before));
    NarrowsTotal(PropagateAll(before), b.grid[..]);
    if !changed {
      PassFixpoint(before);
    }
  }
}
