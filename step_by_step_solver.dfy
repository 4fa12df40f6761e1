/**
 * StepByStepSolver: one technique per iteration, trying naked single,
 * hidden single, naked pair and hidden pair in that order and stopping at
 * the first that fires, with a step for each technique that fired and a
 * constraint step for each update_candidates that removed something.
 *
 * Only naked single hands back what the loop expects. apply_one_hidden_single
 * returns a position tuple where a TechniqueStep is expected, so reading its
 * .eliminations raises AttributeError, and apply_one_naked_pair returns a
 * bare bool, which the `technique_applied, technique_step = ...` unpacking
 * rejects with a TypeError. A solve therefore returns normally only when
 * naked singles fire in every iteration until the board is solved or the
 * cap is reached, and hidden pair is never called.
 */
module StepByStepSolver {
  import opened Wrappers
  import opened Geometry
  import opened Cells
  import opened Board
  import opened Steps
  import opened Dispatch
  import opened Trace
  import NakedSingles
  import HiddenSingles
  import Location

  const UnpackError := "cannot unpack non-iterable bool object"
  const EliminationsError := "'tuple' object has no attribute 'eliminations'"

  // ---------------------------------------------------------------------
  // _format_eliminations

  /** The (value, cell) listings of one `{str(v): cells}` entry, in list order. */
  function EntryListing(e: ElimEntry): (l: seq<(int, Pos)>)
    ensures |l| == |e.cells| && forall j :: 0 <= j < |l| ==> l[j] == (e.key, e.cells[j])
  {
    seq(|e.cells|, j requires 0 <= j < |e.cells| => (e.key, e.cells[j]))
  }

  /** The listings of a whole eliminations list, entry after entry. */
  function Listing(m: ElimMap): seq<(int, Pos)>
    decreases |m|
  {
    if m == [] then [] else Listing(m[..|m| - 1]) + EntryListing(m[|m| - 1])
  }

  /** The listings of two lists one after the other. */
  lemma {:induction false} ListingAppend(a: ElimMap, b: ElimMap)
    ensures Listing(a + b) == Listing(a) + Listing(b)
    decreases |b|
  {
    if b == [] {
      assert a + b == a;
    } else {
      var b' := b[..|b| - 1];
      var e := b[|b| - 1];
      assert (a + b)[..|a + b| - 1] == a + b' && (a + b)[|a + b| - 1] == e;
      assert Listing(a + b) == Listing(a + b') + EntryListing(e);
      ListingAppend(a, b');
      assert Listing(b) == Listing(b') + EntryListing(e);
    }
  }

  /** The pairs recorded by a list with one more entry at its end. */
  lemma {:induction false} PairsSnoc(m: ElimMap, e: ElimEntry)
    ensures Pairs(m + [e]) == Pairs(m) + set q | q in e.cells :: (e.key, q)
    decreases |m|
  {
    if m == [] {
      assert [] + [e] == [e];
      assert [e][1..] == [];
    } else {
      assert (m + [e])[0] == m[0];
      assert (m + [e])[1..] == m[1..] + [e];
      PairsSnoc(m[1..], e);
    }
  }

  /** The pairs one entry records are at most its length, exactly that when its cells differ. */
  lemma {:induction false} EntryPairsCard(k: int, cells: seq<Pos>)
    ensures |set q | q in cells :: (k, q)| <= |cells|
    ensures DistinctPositions(cells) ==> |set q | q in cells :: (k, q)| == |cells|
    decreases |cells|
  {
    if cells != [] {
      var init, last := cells[..|cells| - 1], cells[|cells| - 1];
      EntryPairsCard(k, init);
      assert cells == init + [last];
      assert (set q | q in cells :: (k, q)) == (set q | q in init :: (k, q)) + {(k, last)};
      if DistinctPositions(cells) {
        assert DistinctPositions(init) by {
          forall a, b | 0 <= a < b < |init| ensures init[a] != init[b] {
            assert init[a] == cells[a] && init[b] == cells[b];
          }
        }
        assert last !in init by {
          forall j | 0 <= j < |init| ensures init[j] != last {
            assert init[j] == cells[j];
          }
        }
      }
    }
  }

  /** Every recorded pair is filed under one of the map's keys. */
  lemma {:induction false} PairsKeys(m: ElimMap, v: int, q: Pos)
    requires (v, q) in Pairs(m)
    ensures v in KeyList(m)
    decreases |m|
  {
    if (v, q) !in set c | c in m[0].cells :: (m[0].key, c) {
      PairsKeys(m[1..], v, q);
      assert KeyList(m[1..]) == KeyList(m)[1..];
    }
  }

  /**
   * candidates_eliminated never undercounts the recorded pairs, and counts
   * them exactly when no key and no cell under a key is listed twice, as
   * in every map the techniques build.
   */
  lemma {:induction false} ElimCountPairs(m: ElimMap)
    ensures |Pairs(m)| <= ElimCount(m)
    ensures KeysDistinct(m) && (forall i :: 0 <= i < |m| ==> DistinctPositions(m[i].cells)) ==>
      |Pairs(m)| == ElimCount(m)
    decreases |m|
  {
    if m != [] {
      var init, e := m[..|m| - 1], m[|m| - 1];
      assert m == init + [e];
      ElimCountPairs(init);
      PairsSnoc(init, e);
      EntryPairsCard(e.key, e.cells);
      if KeysDistinct(m) && (forall i :: 0 <= i < |m| ==> DistinctPositions(m[i].cells)) {
        DistinctInit(m);
        PairsApart(init, e);
      }
    }
  }

  /** Dropping the last entry of a map without repeats leaves one, and its keys miss the last key. */
  lemma DistinctInit(m: ElimMap)
    requires m != [] && KeysDistinct(m) && forall i :: 0 <= i < |m| ==> DistinctPositions(m[i].cells)
    ensures var init := m[..|m| - 1];
      KeysDistinct(init) && (forall i :: 0 <= i < |init| ==> DistinctPositions(init[i].cells))
      && m[|m| - 1].key !in KeyList(init)
  {
  }

  /** An entry under a new key records pairs the map does not have yet. */
  lemma PairsApart(m: ElimMap, e: ElimEntry)
    requires e.key !in KeyList(m)
    ensures Pairs(m) * (set q | q in e.cells :: (e.key, q)) == {}
  {
    forall x | x in Pairs(m) ensures x !in set q | q in e.cells :: (e.key, q) {
      PairsKeys(m, x.0, x.1);
    }
  }

  /**
   * The listings of a list are its recorded (value, cell) pairs, and there
   * are as many as the candidates_eliminated count says.
   */
  lemma {:induction false} ListingMeaning(m: ElimMap)
    ensures |Listing(m)| == ElimCount(m)
    ensures forall x :: x in Listing(m) <==> x in Pairs(m)
    decreases |m|
  {
    if m != [] {
      var m' := m[..|m| - 1];
      var e := m[|m| - 1];
      ListingMeaning(m');
      assert m == m' + [e];
      PairsSnoc(m', e);
      forall x ensures x in EntryListing(e) <==> x in set q | q in e.cells :: (e.key, q) {
        if x in EntryListing(e) {
          var j :| 0 <= j < |e.cells| && EntryListing(e)[j] == x;
        }
      }
    }
  }

  /** The record _format_eliminations writes for one listing; old and new candidates are left empty. */
  function ElimRecord(x: (int, Pos)): Change
    requires ValidPos(x.1)
  {
    Change(x.1, Label(x.1), {}, {}, {x.0})
  }

  /** The formatted records of some listings, or the ValueError of the first cell off the board. */
  function Formatted(l: seq<(int, Pos)>): Result<seq<Change>>
    decreases |l|
  {
    if l == [] then Ok([])
    else
      match Formatted(l[..|l| - 1])
      case Err(e) => Err(e)
      case Ok(records) =>
        var x := l[|l| - 1];
        match Location.CellLocation(x.1.0, x.1.1)
        case Err(e) => Err(e)
        case Ok(location) => Ok(records + [Change(x.1, location, {}, {}, {x.0})])
  }

  /**
   * Formatting succeeds exactly when every listed cell is on the board;
   * then it gives one record per listing, in order, and otherwise the
   * ValueError get_cell_location raises.
   */
  lemma {:induction false} FormattedMeaning(l: seq<(int, Pos)>)
    ensures Formatted(l).Ok? <==> forall k :: 0 <= k < |l| ==> ValidPos(l[k].1)
    ensures Formatted(l).Ok? ==>
      |Formatted(l).value| == |l| && forall k :: 0 <= k < |l| ==> Formatted(l).value[k] == ElimRecord(l[k])
    ensures Formatted(l).Err? ==> Formatted(l).error.ValueError?
    decreases |l|
  {
    if l != [] {
      var l' := l[..|l| - 1];
      FormattedMeaning(l');
      var x := l[|l| - 1];
      if ValidPos(x.1) {
        assert Location.CellLocation(x.1.0, x.1.1) == Ok(Label(x.1));
      }
      if Formatted(l).Ok? {
        forall k | 0 <= k < |l| ensures ValidPos(l[k].1) {
          if k < |l'| { assert l[k] == l'[k]; }
        }
        forall k | 0 <= k < |l| ensures Formatted(l).value[k] == ElimRecord(l[k]) {
          if k < |l'| { assert l[k] == l'[k]; }
        }
      } else if Formatted(l').Err? {
        var k :| 0 <= k < |l'| && !ValidPos(l'[k].1);
        assert l[k] == l'[k];
      }
    }
  }

  /** Once a listing fails, the records after it are never reached. */
  lemma {:induction false} FormattedSticky(a: seq<(int, Pos)>, b: seq<(int, Pos)>)
    requires Formatted(a).Err?
    ensures Formatted(a + b) == Formatted(a)
    decreases |b|
  {
    if b == [] {
      assert a + b == a;
    } else {
      var b' := b[..|b| - 1];
      assert (a + b)[..|a + b| - 1] == a + b';
      FormattedSticky(a, b');
    }
  }

  /** The listings of the first e + 1 entries, followed by those of the rest. */
  lemma ListingSplit(m: ElimMap, e: int)
    requires 0 <= e < |m|
    ensures Listing(m) == Listing(m[..e + 1]) + Listing(m[e + 1..])
  {
    assert m == m[..e + 1] + m[e + 1..];
    ListingAppend(m[..e + 1], m[e + 1..]);
  }

  /** The listings of the first e + 1 entries. */
  lemma ListingStep(m: ElimMap, e: int)
    requires 0 <= e < |m|
    ensures Listing(m[..e + 1]) == Listing(m[..e]) + EntryListing(m[e])
  {
    assert m[..e + 1][..e] == m[..e];
  }

  /** Formatting one more listing after some that formatted without error. */
  lemma FormattedSnoc(l: seq<(int, Pos)>, x: (int, Pos))
    requires Formatted(l).Ok?
    ensures Formatted(l + [x]) ==
      match Location.CellLocation(x.1.0, x.1.1)
      case Err(e) => Err(e)
      case Ok(location) => Ok(Formatted(l).value + [Change(x.1, location, {}, {}, {x.0})])
  {
    assert (l + [x])[..|l + [x]| - 1] == l;
  }

  /** _format_eliminations: for each entry, for each cell, one record. */
  method FormatEliminations(m: ElimMap) returns (r: Result<seq<Change>>)
    ensures r == Formatted(Listing(m))
  {
    var formatted: seq<Change> := [];
    for e := 0 to |m|
      invariant Formatted(Listing(m[..e])) == Ok(formatted)
    {
      ListingStep(m, e);
      var entry := FormatEntry(m[e], Listing(m[..e]), formatted);
      if entry.Err? {
        ListingSplit(m, e);
        FormattedSticky(Listing(m[..e + 1]), Listing(m[e + 1..]));
        return entry;
      }
      formatted := entry.value;
    }
    assert m[..|m|] == m;
    r := Ok(formatted);
  }

  /** The inner loop of _format_eliminations: the cells of one entry, after the records made so far. */
  method FormatEntry(entry: ElimEntry, ghost done: seq<(int, Pos)>, formatted: seq<Change>)
    returns (r: Result<seq<Change>>)
    requires Formatted(done) == Ok(formatted)
    ensures r == Formatted(done + EntryListing(entry))
  {
    var records := formatted;
    assert done + EntryListing(entry)[..0] == done;
    for j := 0 to |entry.cells|
      invariant Formatted(done + EntryListing(entry)[..j]) == Ok(records)
    {
      var pos := entry.cells[j];
      ghost var before := done + EntryListing(entry)[..j];
      FormattedSnoc(before, (entry.key, pos));
      assert before + [(entry.key, pos)] == done + EntryListing(entry)[..j + 1];
      var location := Location.CellLocation(pos.0, pos.1);
      if location.Err? {
        assert done + EntryListing(entry) == (done + EntryListing(entry)[..j + 1]) + EntryListing(entry)[j + 1..];
        FormattedSticky(done + EntryListing(entry)[..j + 1], EntryListing(entry)[j + 1..]);
        return Err(location.error);
      }
      records := records + [Change(pos, location.value, {}, {}, {entry.key})];
    }
    assert EntryListing(entry)[..|entry.cells|] == EntryListing(entry);
    r := Ok(records);
  }

  /** The eliminations_count loop: the length of every cell list. */
  method CountEliminations(m: ElimMap) returns (n: nat)
    ensures n == ElimCount(m)
  {
    n := 0;
    for e := 0 to |m|
      invariant n == ElimCount(m[..e])
    {
      assert m[..e + 1][..e] == m[..e];
      n := n + |m[e].cells|;
    }
    assert m[..|m|] == m;
  }

  // ---------------------------------------------------------------------
  // The steps

  /** _create_constraint_step: the board after update_candidates and that update's records. */
  function ConstraintStep(g: Grid, changes: seq<Change>, solvedPositions: seq<Filled>): SolvingStep
    requires |g| == 81
  {
    ChangeStep(ConstraintElimination, "Constraint Propagation", g, Tag(changes, Untagged), solvedPositions)
  }

  /**
   * A constraint step: no cells solved, at least one record, every record
   * of an empty cell that lost candidates, with the new candidates the step
   * shows.
   */
  predicate ConstraintShown(s: SolvingStep) {
    s.kind == ConstraintElimination && s.technique == "Constraint Propagation" && s.stepNumber.None?
    && Shaped(s) && s.cellsSolved == 0 && s.candidateChanges != [] && s.candidatesEliminated == |s.candidateChanges|
    && ShowsChanges(s, true) && AllTagged(s.candidateChanges, Untagged)
    && s.focusCells == [] && s.value.None?
  }

  /** The constraint step after an update_candidates on g that removed anything shows what it removed. */
  lemma ConstraintStepShown(g: Grid, solvedPositions: seq<Filled>)
    requires |g| == 81
    ensures Propagate(g, AllPositions()).1 != [] ==>
              ConstraintShown(ConstraintStep(PropagateAll(g), Propagate(g, AllPositions()).1, solvedPositions))
  {
    UpdateCandidatesIsDiff(g, true);
    DiffStepShown(g, PropagateAll(g), Propagate(g, AllPositions()).1, solvedPositions);
  }

  /** A constraint step whose records are the candidate differences between two boards shows them. */
  lemma DiffStepShown(before: Grid, after: Grid, changes: seq<Change>, solvedPositions: seq<Filled>)
    requires |before| == 81 && |after| == 81 && changes == CandidateDiff(before, after, 81, true)
    ensures changes != [] ==> ConstraintShown(ConstraintStep(after, changes, solvedPositions))
  {
    DiffShown(before, after, true, Untagged, ConstraintStep(after, changes, solvedPositions));
  }

  /** A record of a value the step's cell no longer has as a candidate. */
  predicate ShowsElimination(s: SolvingStep, ch: Change)
    requires Shaped(s)
  {
    ValidPos(ch.position) && ch.location == Label(ch.position)
    && ch.oldCandidates == {} && ch.newCandidates == {}
    && |ch.eliminated| == 1 && ch.eliminated !! s.candidates[ch.position.0][ch.position.1]
  }

  /**
   * A naked-single step: one cell, its focus cell, filled with the step's
   * value, and every record names a cell whose shown candidates no longer
   * hold the eliminated value.
   */
  predicate TechniqueShown(s: SolvingStep) {
    s.kind == TechniqueApplied && s.technique == NakedSingles.Technique && Shaped(s)
    && |s.focusCells| == 1 && ValidPos(s.focusCells[0]) && s.value.Some? && s.value.value != 0
    && s.grid[s.focusCells[0].0][s.focusCells[0].1] == s.value.value
    && s.solvedPositions == [Filled(s.focusCells[0], s.value.value)] && s.cellsSolved == 1
    && ShowsFills(s)
    && s.candidatesEliminated == |s.candidateChanges| && AllTagged(s.candidateChanges, Untagged)
    && forall k :: 0 <= k < |s.candidateChanges| ==> ShowsElimination(s, s.candidateChanges[k].change)
  }

  /** The step built from a TechniqueStep, the snapshots around it and the formatted records. */
  function TechStep(before: Grid, after: Grid, step: TechniqueStep, stepNumber: int, records: seq<Change>): SolvingStep
    requires |before| == 81 && |after| == 81
  {
    var positions := NewlyFilled(before, after, 81);
    SolvingStep(TechniqueApplied, step.technique, Some(stepNumber), ValueGrid(after), CandidatesGrid(after),
                |positions|, ElimCount(step.eliminations), Tag(records, Untagged), positions,
                step.focusCells, step.value, None, None)
  }

  /** Only cell i went from empty to filled: solved_positions lists it alone. */
  lemma {:induction false} NewlyFilledSingle(before: Grid, after: Grid, i: int, n: nat)
    requires |before| == 81 && |after| == 81 && 0 <= i < 81 && n <= 81
    requires forall j :: 0 <= j < 81 && j != i ==> after[j].value == before[j].value
    requires !Solved(before[i]) && Solved(after[i])
    ensures NewlyFilled(before, after, n) == if n > i then [Filled(PosOf(i), after[i].value)] else []
    decreases n
  {
    if n > 0 {
      NewlyFilledSingle(before, after, i, n - 1);
    }
  }

  /** What naked single lists as eliminated: its value, at the open peers of the filled cell that held it. */
  lemma SingleEliminationsListed(g1: Grid, i: int, v: int)
    requires ValidGrid(g1) && 0 <= i < 81 && NakedSingles.IsSingle(g1[i]) && g1[i].candidates == {v}
    ensures forall x :: x in Pairs(NakedSingles.DiffElims(g1, NakedSingles.Fill(g1, i, v), i, 81)) ==>
      x.0 == v && IsPeer(PosOf(i), x.1) && HoldsOpen(g1, x.1, v)
  {
    NakedSingles.FillEliminations(g1, i, v);
    var m := NakedSingles.DiffElims(g1, NakedSingles.Fill(g1, i, v), i, 81);
    forall x | x in Pairs(m) ensures x.0 == v && IsPeer(PosOf(i), x.1) && HoldsOpen(g1, x.1, v) {
      assert ValidPos(x.1);
      PosOfIdx(x.1);
      assert (x.0, PosOf(Idx(x.1))) in Pairs(m);
    }
  }

  /** Every value naked single lists as eliminated is gone from its cell after the fill. */
  lemma SingleEliminationsGone(g1: Grid, i: int, v: int)
    requires ValidGrid(g1) && 0 <= i < 81 && NakedSingles.IsSingle(g1[i]) && g1[i].candidates == {v}
    ensures forall x :: x in Pairs(NakedSingles.DiffElims(g1, NakedSingles.Fill(g1, i, v), i, 81)) ==>
      ValidPos(x.1) && x.0 !in NakedSingles.Fill(g1, i, v)[Idx(x.1)].candidates
  {
    SingleEliminationsListed(g1, i, v);
    NakedSingles.FillEffect(g1, i, v);
    var h := NakedSingles.Fill(g1, i, v);
    var m := NakedSingles.DiffElims(g1, h, i, 81);
    forall x | x in Pairs(m) ensures ValidPos(x.1) && x.0 !in h[Idx(x.1)].candidates {
      var j := Idx(x.1);
      PosOfIdx(x.1);
      assert IsPeer(PosOf(i), PosOf(j));
      assert j != i;
      assert h[j].value == g1[j].value;
    }
  }

  /** A formatted record of a cell whose candidates in h no longer hold the value it names. */
  predicate RecordGone(h: Grid, ch: Change)
    requires |h| == 81
  {
    ValidPos(ch.position) && ch.location == Label(ch.position)
    && ch.oldCandidates == {} && ch.newCandidates == {}
    && |ch.eliminated| == 1 && ch.eliminated !! h[Idx(ch.position)].candidates
  }

  /**
   * When every listed cell is on the board and lost the listed value in h,
   * formatting succeeds with one such record per listing.
   */
  lemma RecordsGone(h: Grid, m: ElimMap)
    requires |h| == 81
    requires forall x :: x in Pairs(m) ==> ValidPos(x.1) && x.0 !in h[Idx(x.1)].candidates
    ensures Formatted(Listing(m)).Ok? && |Formatted(Listing(m)).value| == ElimCount(m)
    ensures forall k :: 0 <= k < |Formatted(Listing(m)).value| ==> RecordGone(h, Formatted(Listing(m)).value[k])
  {
    ListingMeaning(m);
    var l := Listing(m);
    forall k | 0 <= k < |l| ensures ValidPos(l[k].1) && l[k].0 !in h[Idx(l[k].1)].candidates {
      assert l[k] in Pairs(m);
    }
    FormattedMeaning(l);
    forall k | 0 <= k < |l| ensures RecordGone(h, Formatted(l).value[k]) {
      ElimRecordGone(h, l[k]);
    }
  }

  /** The record of a listing whose cell no longer holds its value. */
  lemma ElimRecordGone(h: Grid, x: (int, Pos))
    requires |h| == 81 && ValidPos(x.1) && x.0 !in h[Idx(x.1)].candidates
    ensures RecordGone(h, ElimRecord(x))
  {
    assert |{x.0}| == 1;
  }

  /** What apply_one_naked_single did when it fired on `before`, leaving `after` and returning `step`. */
  ghost predicate FiredSingle(before: Grid, after: Grid, step: TechniqueStep) {
    ValidGrid(before) && NakedSingles.Hit(PropagateAll(before)).Some?
    && var (i, v) := NakedSingles.Hit(PropagateAll(before)).value;
       after == NakedSingles.Fill(PropagateAll(before), i, v)
       && step == NakedSingles.SingleStep(PropagateAll(before), after, i, v)
  }

  /** Naked single filled exactly its focus cell, with its value, and every other cell kept its value. */
  lemma SingleFill(before: Grid, after: Grid, step: TechniqueStep)
    requires FiredSingle(before, after, step)
    ensures |after| == 81 && |step.focusCells| == 1 && ValidPos(step.focusCells[0]) && step.value.Some?
    ensures 1 <= step.value.value <= 9 && after[Idx(step.focusCells[0])].value == step.value.value
    ensures NewlyFilled(before, after, 81) == [Filled(step.focusCells[0], step.value.value)]
    ensures forall x :: x in Pairs(step.eliminations) ==> ValidPos(x.1) && x.0 !in after[Idx(x.1)].candidates
    ensures step.technique == NakedSingles.Technique
  {
    var g1 := PropagateAll(before);
    PropagateAllEffect(before);
    var (i, v) := NakedSingles.Hit(g1).value;
    NakedSingles.FillEffect(g1, i, v);
    SingleEliminationsGone(g1, i, v);
    forall j | 0 <= j < 81 && j != i ensures after[j].value == before[j].value {
    }
    NewlyFilledSingle(before, after, i, 81);
  }

  /**
   * The step recorded for a naked single: its records format without
   * error, and the step shows its fill and its eliminations.
   */
  lemma SingleStepShown(before: Grid, after: Grid, step: TechniqueStep, stepNumber: int)
    requires FiredSingle(before, after, step)
    ensures |before| == 81 && |after| == 81 && Formatted(Listing(step.eliminations)).Ok?
    ensures TechniqueShown(TechStep(before, after, step, stepNumber, Formatted(Listing(step.eliminations)).value))
  {
    SingleFill(before, after, step);
    RecordsGone(after, step.eliminations);
    var records := Formatted(Listing(step.eliminations)).value;
    var s := TechStep(before, after, step, stepNumber, records);
    var p := step.focusCells[0];
    PosOfIdx(p);
    assert ShowsFill(s, s.solvedPositions[0]);
    forall k | 0 <= k < |s.candidateChanges| ensures ShowsElimination(s, s.candidateChanges[k].change) {
      assert s.candidateChanges[k].change == records[k];
      assert RecordGone(after, records[k]);
    }
  }

  // ---------------------------------------------------------------------
  // The trace

  /**
   * The last step of a trace, given the steps before it: a constraint step
   * comes first or right after a technique step, whose solved_positions it
   * repeats; a technique step carries step_number one more than the
   * technique steps before it, counted from 1.
   */
  predicate LastStepOk(init: seq<SolvingStep>, s: SolvingStep) {
    (ConstraintShown(s)
     && if init == [] then s.solvedPositions == []
        else init[|init| - 1].kind == TechniqueApplied && s.solvedPositions == init[|init| - 1].solvedPositions)
    || (TechniqueShown(s) && s.stepNumber == Some(TechniqueStepCount(init) + 2))
  }

  /** The step-by-step trace, built one step at a time. */
  predicate StepTrace(steps: seq<SolvingStep>)
    decreases |steps|
  {
    steps == [] || (StepTrace(steps[..|steps| - 1]) && LastStepOk(steps[..|steps| - 1], steps[|steps| - 1]))
  }

  /**
   * Step k of a trace is a constraint step, first or following a technique
   * step, or a naked-single step numbered after the technique steps before it.
   */
  predicate StepAt(steps: seq<SolvingStep>, k: int)
    requires 0 <= k < |steps|
  {
    (ConstraintShown(steps[k]) && (k == 0 || steps[k - 1].kind == TechniqueApplied))
    || (TechniqueShown(steps[k]) && steps[k].stepNumber == Some(TechniqueStepCount(steps[..k]) + 2))
  }

  /** Every step of a trace is well placed. */
  lemma {:induction false} StepTraceSteps(steps: seq<SolvingStep>)
    requires StepTrace(steps)
    ensures forall k :: 0 <= k < |steps| ==> StepAt(steps, k)
    decreases |steps|
  {
    if steps != [] {
      var init := steps[..|steps| - 1];
      StepTraceSteps(init);
      forall k | 0 <= k < |steps| ensures StepAt(steps, k) {
        if k < |init| {
          assert StepAt(init, k);
          assert steps[k] == init[k];
          assert steps[..k] == init[..k];
          if k > 0 { assert steps[k - 1] == init[k - 1]; }
        } else {
          assert steps[..k] == init;
          if k > 0 { assert steps[k - 1] == init[k - 1]; }
        }
      }
    }
  }

  /** The trace opens with a constraint step. */
  predicate OpensWithConstraint(steps: seq<SolvingStep>) {
    |steps| > 0 && steps[0].kind == ConstraintElimination
  }

  /** Appending a naked-single step numbered after the technique steps so far. */
  lemma AppendTechnique(steps: seq<SolvingStep>, s: SolvingStep)
    requires StepTrace(steps) && TechniqueShown(s) && s.stepNumber == Some(TechniqueStepCount(steps) + 2)
    ensures StepTrace(steps + [s]) && TechniqueStepCount(steps + [s]) == TechniqueStepCount(steps) + 1
    ensures OpensWithConstraint(steps + [s]) <==> OpensWithConstraint(steps)
  {
    var t := steps + [s];
    assert t[..|t| - 1] == steps && t[|t| - 1] == s;
    assert LastStepOk(steps, s);
    assert t[0] == if steps == [] then s else steps[0];
    TechniqueStepCountAppend(steps, [s]);
  }

  /** A trace extended by a step that is well placed after it. */
  lemma AppendStep(steps: seq<SolvingStep>, s: SolvingStep)
    requires StepTrace(steps) && LastStepOk(steps, s)
    ensures StepTrace(steps + [s])
  {
    var t := steps + [s];
    assert t[..|t| - 1] == steps && t[|t| - 1] == s;
  }

  /** A constraint step is well placed after a technique step whose solved_positions it cites. */
  lemma ConstraintFollows(steps: seq<SolvingStep>, s: SolvingStep)
    requires steps != [] && steps[|steps| - 1].kind == TechniqueApplied
    requires ConstraintShown(s) && s.solvedPositions == steps[|steps| - 1].solvedPositions
    ensures LastStepOk(steps, s)
  {
  }

  /** Appending to a trace that has a first step keeps that first step. */
  lemma AppendKeepsOpening(steps: seq<SolvingStep>, block: seq<SolvingStep>)
    requires steps != []
    ensures OpensWithConstraint(steps + block) <==> OpensWithConstraint(steps)
  {
    assert (steps + block)[0] == steps[0];
  }

  // ---------------------------------------------------------------------
  // When a solve fails

  /*
   * The while loop as a function of what one iteration does: `next(g)` is
   * the board an iteration started on g leaves, or None when it raises
   * `raised(g)`, and `done(g)` is board.is_solved(). Stated for any
   * iteration, so that reasoning about the loop does not unfold the boards.
   */

  /** None when the loop returns normally from g with n iterations left, otherwise the error it raises. */
  ghost function Failure<S>(next: S -> Option<S>, done: S -> bool, raised: S -> Error, g: S, n: int): Option<Error>
    decreases n
  {
    if n <= 0 || done(g) then None
    else match next(g)
      case None => Some(raised(g))
      case Some(h) => Failure(next, done, raised, h, n - 1)
  }

  /** The state after k iterations from g, each started on an unsolved state and not raising; None when one cannot. */
  ghost function After<S>(next: S -> Option<S>, done: S -> bool, g: S, k: nat): Option<S>
    decreases k
  {
    if k == 0 then Some(g)
    else if done(g) then None
    else match next(g)
      case None => None
      case Some(h) => After(next, done, h, k - 1)
  }

  /** One more iteration extends the state reached. */
  lemma {:induction false} AfterSnoc<S>(next: S -> Option<S>, done: S -> bool, g: S, k: nat, k': nat, h: S)
    requires After(next, done, g, k) == Some(h) && !done(h) && k' == k + 1
    ensures After(next, done, g, k') == next(h)
    decreases k
  {
    if k > 0 {
      AfterSnoc(next, done, next(g).value, k - 1, k, h);
    }
  }

  /** A property every iteration keeps holds of every state reached, and a measure every iteration lowers by one falls by k. */
  lemma {:induction false} AfterKeeps<S>(next: S -> Option<S>, done: S -> bool, inv: S -> bool, g: S, k: nat)
    requires inv(g) && After(next, done, g, k).Some?
    requires forall x :: inv(x) && next(x).Some? ==> inv(next(x).value)
    ensures inv(After(next, done, g, k).value)
    decreases k
  {
    if k > 0 {
      AfterKeeps(next, done, inv, next(g).value, k - 1);
    }
  }

  /** A loop that raises has an iteration below the cap, started unsolved, that raises, with every iteration before it passing. */
  lemma {:induction false} FailureWitness<S>(next: S -> Option<S>, done: S -> bool, raised: S -> Error, g: S, n: int)
    requires Failure(next, done, raised, g, n).Some?
    ensures exists k: nat :: (k < n && After(next, done, g, k).Some? && !done(After(next, done, g, k).value)
      && next(After(next, done, g, k).value).None?
      && Failure(next, done, raised, g, n) == Some(raised(After(next, done, g, k).value)))
    decreases n
  {
    if next(g).None? {
      assert After(next, done, g, 0) == Some(g);
    } else {
      var h := next(g).value;
      FailureWitness(next, done, raised, h, n - 1);
      var k: nat :| k < n - 1 && After(next, done, h, k).Some? && !done(After(next, done, h, k).value)
        && next(After(next, done, h, k).value).None?
        && Failure(next, done, raised, h, n - 1) == Some(raised(After(next, done, h, k).value));
      assert After(next, done, g, k + 1) == After(next, done, h, k);
    }
  }

  /** An iteration below the cap, started unsolved, that raises makes the loop raise its error. */
  lemma {:induction false} WitnessFailure<S>(next: S -> Option<S>, done: S -> bool, raised: S -> Error, g: S, n: int, k: nat)
    requires k < n && After(next, done, g, k).Some? && !done(After(next, done, g, k).value)
    requires next(After(next, done, g, k).value).None?
    ensures Failure(next, done, raised, g, n) == Some(raised(After(next, done, g, k).value))
    decreases k
  {
    if k > 0 {
      WitnessFailure(next, done, raised, next(g).value, n - 1, k - 1);
    }
  }

  /** A larger cap does not change a loop that raises. */
  lemma {:induction false} FailureCap<S>(next: S -> Option<S>, done: S -> bool, raised: S -> Error, g: S, n: int, m: int)
    requires n <= m && Failure(next, done, raised, g, n).Some?
    ensures Failure(next, done, raised, g, m) == Failure(next, done, raised, g, n)
    decreases n
  {
    if next(g).Some? {
      FailureCap(next, done, raised, next(g).value, n - 1, m - 1);
    }
  }

  /** After k iterations that pass, the loop goes on as it would from the state reached, with k iterations fewer. */
  lemma {:induction false} AfterFailure<S>(next: S -> Option<S>, done: S -> bool, raised: S -> Error, g: S, k: nat, n: int, m: int, h: S)
    requires After(next, done, g, k) == Some(h) && m == n - k
    ensures Failure(next, done, raised, g, n) == Failure(next, done, raised, h, m)
    decreases k
  {
    if k > 0 && n > 0 {
      AfterFailure(next, done, raised, next(g).value, k - 1, n - 1, m, h);
    }
  }

  /**
   * The board an iteration leaves when naked single fires on g:
   * update_candidates, the first naked single filled, then
   * update_candidates for the filled cell. None when the updated board has
   * no naked single.
   */
  ghost function SinglePass(g: Grid): (h: Option<Grid>)
    requires ValidGrid(g)
    ensures h.Some? <==> NakedSingles.Hit(PropagateAll(g)).Some?
    ensures h.Some? ==> ValidGrid(h.value) && UnsolvedCount(h.value) == UnsolvedCount(g) - 1
  {
    var g1 := PropagateAll(g);
    match NakedSingles.Hit(g1)
    case None => None
    case Some((i, v)) =>
      NakedSingles.HitRound(g, i, v);
      UnsolvedCountValues(NakedSingles.Fill(g1, i, v), PropagateAll(NakedSingles.Fill(g1, i, v)));
      Some(PropagateAll(NakedSingles.Fill(g1, i, v)))
  }

  /**
   * What an iteration on g raises when naked single does not fire: the
   * AttributeError on `.eliminations` when hidden single fires, otherwise
   * naked pair's bare bool fails the unpacking.
   */
  ghost function StuckError(g: Grid): Error
    requires |g| == 81
  {
    if HiddenSingles.HiddenHit(PropagateAll(g)).Some? then AttributeError(EliminationsError) else TypeError(UnpackError)
  }

  /** The solver's iteration on any board; only valid boards occur. */
  ghost function Iteration(g: Grid): Option<Grid> {
    if ValidGrid(g) then SinglePass(g) else None
  }

  ghost predicate SolvedBoard(g: Grid) {
    |g| == 81 && BoardSolved(g)
  }

  ghost function IterationError(g: Grid): Error {
    if |g| == 81 then StuckError(g) else TypeError(UnpackError)
  }

  /**
   * How the solver's while loop ends when it starts at board g with n
   * iterations left: None when it returns, otherwise the error of the
   * first iteration that starts on an unsolved board with no naked single.
   */
  ghost function LoopFailure(g: Grid, n: int): Option<Error> {
    Failure(Iteration, SolvedBoard, IterationError, g, n)
  }

  /** The board after k iterations from g that each filled a naked single. */
  ghost function Reach(g: Grid, k: nat): Option<Grid> {
    After(Iteration, SolvedBoard, g, k)
  }

  /** An iteration that fires leaves a valid board. */
  lemma IterationKeeps()
    ensures forall x :: ValidGrid(x) && Iteration(x).Some? ==> ValidGrid(Iteration(x).value)
  {
  }

  /** Every board reached is valid. */
  lemma ReachValid(g: Grid, k: nat)
    requires ValidGrid(g) && Reach(g, k).Some?
    ensures ValidGrid(Reach(g, k).value)
  {
    IterationKeeps();
    AfterKeeps(Iteration, SolvedBoard, ValidGrid, g, k);
  }

  /** An iteration from an unsolved board with no naked single raises its error. */
  lemma LoopFailureStuck(g: Grid, n: int)
    requires ValidGrid(g) && n > 0 && !BoardSolved(g) && SinglePass(g).None?
    ensures LoopFailure(g, n) == Some(StuckError(g))
  {
  }

  /** A solved board, or no iterations left, ends the loop normally. */
  lemma LoopFailureDone(g: Grid, n: int)
    requires |g| == 81 && (n <= 0 || BoardSolved(g))
    ensures LoopFailure(g, n).None?
  {
  }

  /** One more iteration that fires extends the board reached. */
  lemma ReachSnoc(g: Grid, k: nat, k': nat, h: Grid)
    requires ValidGrid(h) && Reach(g, k) == Some(h) && !BoardSolved(h) && SinglePass(h).Some? && k' == k + 1
    ensures Reach(g, k') == SinglePass(h)
  {
    AfterSnoc(Iteration, SolvedBoard, g, k, k', h);
  }

  /**
   * The solve fails exactly when some iteration below the cap starts on
   * an unsolved board without a naked single, every iteration before it
   * having filled one; the error is the one that iteration raises.
   */
  lemma LoopFailureMeaning(g: Grid, n: int)
    requires ValidGrid(g)
    ensures LoopFailure(g, n).Some? ==>
      exists k: nat :: (k < n && Reach(g, k).Some? && ValidGrid(Reach(g, k).value) && !BoardSolved(Reach(g, k).value)
        && NakedSingles.Hit(PropagateAll(Reach(g, k).value)).None?
        && LoopFailure(g, n) == Some(StuckError(Reach(g, k).value)))
    ensures forall k: nat :: (k < n && Reach(g, k).Some? && ValidGrid(Reach(g, k).value) && !BoardSolved(Reach(g, k).value)
        && NakedSingles.Hit(PropagateAll(Reach(g, k).value)).None?) ==>
        LoopFailure(g, n) == Some(StuckError(Reach(g, k).value))
  {
    if LoopFailure(g, n).Some? {
      FailureWitness(Iteration, SolvedBoard, IterationError, g, n);
      var k: nat :| k < n && After(Iteration, SolvedBoard, g, k).Some? && !SolvedBoard(After(Iteration, SolvedBoard, g, k).value)
        && Iteration(After(Iteration, SolvedBoard, g, k).value).None?
        && LoopFailure(g, n) == Some(IterationError(After(Iteration, SolvedBoard, g, k).value));
      ReachValid(g, k);
    }
    forall k: nat | k < n && Reach(g, k).Some? && ValidGrid(Reach(g, k).value) && !BoardSolved(Reach(g, k).value)
        && NakedSingles.Hit(PropagateAll(Reach(g, k).value)).None?
      ensures LoopFailure(g, n) == Some(StuckError(Reach(g, k).value))
    {
      WitnessFailure(Iteration, SolvedBoard, IterationError, g, n, k);
    }
  }

  /** Raising the cap never rescues a failing solve: the same iteration fails with the same error. */
  lemma LoopFailureCap(g: Grid, n: int, m: int)
    requires n <= m && LoopFailure(g, n).Some?
    ensures LoopFailure(g, m) == LoopFailure(g, n)
  {
    FailureCap(Iteration, SolvedBoard, IterationError, g, n, m);
  }

  /** k iterations that each filled a naked single hand the loop on to the board they reached. */
  lemma ReachFailure(g0: Grid, cap: int, k: nat, h: Grid, left: int)
    requires Reach(g0, k) == Some(h) && left == cap - k
    ensures LoopFailure(g0, cap) == LoopFailure(h, left)
  {
    AfterFailure(Iteration, SolvedBoard, IterationError, g0, k, cap, left, h);
  }

  /** An iteration reached below the cap that starts unsolved with no naked single makes the loop raise its error. */
  lemma ReachStuck(g0: Grid, cap: int, k: nat, h: Grid)
    requires Reach(g0, k) == Some(h) && k < cap && ValidGrid(h) && !BoardSolved(h) && NakedSingles.Hit(PropagateAll(h)).None?
    ensures LoopFailure(g0, cap) == Some(StuckError(h))
  {
    ghost var left := cap - k;
    ReachFailure(g0, cap, k, h, left);
    LoopFailureStuck(h, left);
  }

  /** A loop that reaches a solved board, or the cap, returns normally. */
  lemma ReachDone(g0: Grid, cap: int, k: nat, h: Grid)
    requires Reach(g0, k) == Some(h) && |h| == 81 && (k >= cap || BoardSolved(h))
    ensures LoopFailure(g0, cap).None?
  {
    ghost var left := cap - k;
    ReachFailure(g0, cap, k, h, left);
    LoopFailureDone(h, left);
  }

  /**
   * The technique step an iteration records when naked single fires on
   * before and leaves filled is the one SingleRecord describes.
   */
  lemma IterationStepsMade(before: Grid, filled: Grid, step: TechniqueStep, n: int)
    requires FiredSingle(before, filled, step)
    ensures |before| == 81 && filled == FillOf(before) && Formatted(Listing(step.eliminations)).Ok?
    ensures TechStep(before, filled, step, n, Formatted(Listing(step.eliminations)).value) == SingleRecord(before, n)
  {
    SingleStepShown(before, filled, step, n);
  }

  /** A fired naked single followed by update_candidates is the iteration that fires. */
  lemma SinglePassFired(before: Grid, filled: Grid, step: TechniqueStep)
    requires FiredSingle(before, filled, step)
    ensures SinglePass(before) == Some(PropagateAll(filled))
  {
  }

  // ---------------------------------------------------------------------
  // What each recorded step was made from

  /** The board apply_one_naked_single leaves on b: the first naked single of the updated board, filled. */
  ghost function FillOf(b: Grid): (h: Grid)
    requires ValidGrid(b) && NakedSingles.Hit(PropagateAll(b)).Some?
    ensures |h| == 81
  {
    var g1 := PropagateAll(b);
    var (i, v) := NakedSingles.Hit(g1).value;
    NakedSingles.Fill(g1, i, v)
  }

  /** The technique step numbered n that an iteration firing on b records. */
  ghost function SingleRecord(b: Grid, n: int): (s: SolvingStep)
    requires ValidGrid(b) && NakedSingles.Hit(PropagateAll(b)).Some?
    ensures TechniqueShown(s) && s.stepNumber == Some(n)
  {
    var g1 := PropagateAll(b);
    var (i, v) := NakedSingles.Hit(g1).value;
    var h := NakedSingles.Fill(g1, i, v);
    var step := NakedSingles.SingleStep(g1, h, i, v);
    SingleStepShown(b, h, step, n);
    TechStep(b, h, step, n, Formatted(Listing(step.eliminations)).value)
  }

  /**
   * What the propagation after a step that solved the cells sp appends when
   * update_candidates runs on h: the constraint step citing sp when the
   * update removed anything, and nothing otherwise.
   */
  function ConstraintTail(h: Grid, sp: seq<Filled>): seq<SolvingStep>
    requires |h| == 81
  {
    var changes := Propagate(h, AllPositions()).1;
    if changes != [] then [ConstraintStep(PropagateAll(h), changes, sp)] else []
  }

  /**
   * The steps an iteration firing on b appends: the naked-single step
   * numbered n, then the constraint step citing its solved_positions when
   * update_candidates after the fill removed anything.
   */
  ghost function IterationSteps(b: Grid, n: int): seq<SolvingStep>
    requires ValidGrid(b) && NakedSingles.Hit(PropagateAll(b)).Some?
  {
    [SingleRecord(b, n)] + ConstraintTail(FillOf(b), SingleRecord(b, n).solvedPositions)
  }

  /** A run that reaches b, extended by an iteration firing on b, reaches the board that iteration leaves. */
  lemma IterationExtends(g0: Grid, steps: seq<SolvingStep>, shots: seq<Shot>, b: Grid, n: int)
    requires Recorded(Made, g0, steps, shots, b) && ValidGrid(b) && NakedSingles.Hit(PropagateAll(b)).Some?
    ensures SinglePass(b) == Some(PropagateAll(FillOf(b)))
    ensures Recorded(Made, g0, steps + IterationSteps(b, n), shots + IterationShots(b), PropagateAll(FillOf(b)))
  {
    IterationRecorded(b, n);
    RecordedAppend(Made, g0, steps, shots, b, IterationSteps(b, n), IterationShots(b), PropagateAll(FillOf(b)));
  }

  /** The snapshots around the calls of IterationSteps(b, n). */
  ghost function IterationShots(b: Grid): seq<Shot>
    requires ValidGrid(b) && NakedSingles.Hit(PropagateAll(b)).Some?
  {
    var h := FillOf(b);
    [Shot(b, h, h)] + if Propagate(h, AllPositions()).1 != [] then [Shot(h, h, PropagateAll(h))] else []
  }

  /**
   * A step of the trace and the boards it was made from: a technique step
   * is the naked single that fires on the board before it, filled, and a
   * constraint step is update_candidates on the board before it, with the
   * records that update produced.
   */
  ghost predicate Made(s: SolvingStep, sh: Shot) {
    |sh.before| == 81 && |sh.mid| == 81 && |sh.after| == 81
    && if s.kind == TechniqueApplied then
         ValidGrid(sh.before) && NakedSingles.Hit(PropagateAll(sh.before)).Some? && s.stepNumber.Some?
         && sh.mid == FillOf(sh.before) && sh.after == sh.mid && s == SingleRecord(sh.before, s.stepNumber.value)
       else
         sh.mid == sh.before && sh.after == PropagateAll(sh.before)
         && s == ConstraintStep(sh.after, Propagate(sh.before, AllPositions()).1, s.solvedPositions)
  }

  /** A constraint step made by update_candidates on g is a run from g to the updated board. */
  lemma ConstraintRecorded(g: Grid, solved: seq<Filled>)
    requires |g| == 81
    ensures Recorded(Made, g, [ConstraintStep(PropagateAll(g), Propagate(g, AllPositions()).1, solved)],
                     [Shot(g, g, PropagateAll(g))], PropagateAll(g))
  {
    var steps := [ConstraintStep(PropagateAll(g), Propagate(g, AllPositions()).1, solved)];
    var shots := [Shot(g, g, PropagateAll(g))];
    assert Recorded(Made, g, steps[..0], shots[..0], g);
  }

  /** The naked-single step made on b is a run from b to the filled board. */
  lemma SingleRecorded(b: Grid, n: int)
    requires ValidGrid(b) && NakedSingles.Hit(PropagateAll(b)).Some?
    ensures Recorded(Made, b, [SingleRecord(b, n)], [Shot(b, FillOf(b), FillOf(b))], FillOf(b))
  {
    var h := FillOf(b);
    var first, firstShots := [SingleRecord(b, n)], [Shot(b, h, h)];
    assert Made(first[0], firstShots[0]);
    assert Recorded(Made, b, first[..0], firstShots[..0], b);
    assert Recorded(Made, b, first, firstShots, h);
  }

  /**
   * An iteration firing on b is the iteration SinglePass describes, and
   * the steps it appends are a run from b to the board it leaves.
   */
  lemma IterationRecorded(b: Grid, n: int)
    requires ValidGrid(b) && NakedSingles.Hit(PropagateAll(b)).Some?
    ensures SinglePass(b) == Some(PropagateAll(FillOf(b)))
    ensures Recorded(Made, b, IterationSteps(b, n), IterationShots(b), PropagateAll(FillOf(b)))
  {
    var h := FillOf(b);
    var first, firstShots := [SingleRecord(b, n)], [Shot(b, h, h)];
    SingleRecorded(b, n);
    assert IterationSteps(b, n) == first + ConstraintTail(h, SingleRecord(b, n).solvedPositions);
    var changes := Propagate(h, AllPositions()).1;
    if changes != [] {
      ConstraintRecorded(h, SingleRecord(b, n).solvedPositions);
      RecordedAppend(Made, b, first, firstShots, h, [ConstraintStep(PropagateAll(h), changes, SingleRecord(b, n).solvedPositions)],
                     [Shot(h, h, PropagateAll(h))], PropagateAll(h));
    } else {
      RecordedGap(Made, b, first, firstShots, h, PropagateAll(h));
    }
  }

  // ---------------------------------------------------------------------
  // The solver

  class StepByStepSolver {
    /** self.MAX_ITERATIONS */
    const maxIterations: int

    /** The techniques, in the order they are tried. */
    const techniques: seq<(string, OneTechnique)> := [
      ("Naked Single", NakedSingleOne),
      ("Hidden Single", HiddenSingleOne),
      ("Naked Pair", NakedPairOne),
      ("Hidden Pair", HiddenPairOne)
    ]

    constructor (cap: int)
      ensures maxIterations == cap
    {
      maxIterations := cap;
    }

    /**
     * StepByStepSolver(max_iterations): the cap is the argument when one is
     * given; without one it is read from a settings attribute the settings
     * module does not define, so construction fails.
     */
    static method Create(maxIterations: Option<int>) returns (r: Result<StepByStepSolver>)
      ensures r.Ok? <==> maxIterations.Some?
      ensures r.Ok? ==> r.value.maxIterations == maxIterations.value
      ensures r.Err? ==> r.error.AttributeError?
    {
      if maxIterations.None? {
        return Err(AttributeError("SUDOKU_MAX_ITERATIONS"));
      }
      var solver := new StepByStepSolver(maxIterations.value);
      return Ok(solver);
    }

    /** get_available_techniques: the names of the table, in order, none twice. */
    function GetAvailableTechniques(): (names: seq<string>)
      ensures |names| == |techniques| && forall k :: 0 <= k < |names| ==> names[k] == techniques[k].0
      ensures NoDuplicates(names)
    {
      seq(|techniques|, k requires 0 <= k < |techniques| => techniques[k].0)
    }

    /**
     * solve: it fails with the TypeError or the AttributeError described
     * above, or it returns a grid that extends the puzzle, with is_solved
     * saying whether it is a solution, after stopping at a solved board or
     * at the cap; each iteration filled one cell by naked single and
     * recorded one technique step, so there are as many technique steps as
     * iterations and no more than the puzzle's empty cells.
     */
    method Solve(puzzle: seq<seq<int>>) returns (r: Result<SolveResult>, ghost shots: seq<Shot>, ghost g: Grid)
      requires NineByNine(puzzle)
      ensures r.Err? ==> r.error == TypeError(UnpackError) || r.error == AttributeError(EliminationsError)
      ensures r.Err? <==> LoopFailure(PropagateAll(NewGrid(puzzle)), maxIterations).Some?
      ensures r.Err? ==> r.error == LoopFailure(PropagateAll(NewGrid(puzzle)), maxIterations).value
      ensures maxIterations <= 0 ==> r.Ok?
      ensures r.Ok? ==> NineByNine(r.value.solvedGrid) && Extends(puzzle, r.value.solvedGrid)
      ensures r.Ok? ==> (r.value.isSolved <==> GridSolved(r.value.solvedGrid))
      ensures r.Ok? ==> 0 <= r.value.iterations <= if maxIterations > 0 then maxIterations else 0
      ensures r.Ok? ==> r.value.isSolved || r.value.iterations == if maxIterations > 0 then maxIterations else 0
      ensures r.Ok? ==> TechniqueStepCount(r.value.solvingSteps) == r.value.iterations
      ensures r.Ok? ==> r.value.iterations <= UnsolvedCount(NewGrid(puzzle))
      ensures r.Ok? && maxIterations > UnsolvedCount(NewGrid(puzzle)) ==> r.value.isSolved
      ensures r.Ok? ==> r.value.techniquesApplied == if r.value.iterations == 0 then [] else [NakedSingles.Technique]
      ensures r.Ok? ==> r.value.totalSteps == Some(|r.value.solvingSteps|) && r.value.message.steps == r.value.totalSteps
      ensures r.Ok? ==> StepTrace(r.value.solvingSteps)
      ensures r.Ok? ==> (OpensWithConstraint(r.value.solvingSteps) <==> Propagate(NewGrid(puzzle), AllPositions()).1 != [])
      ensures r.Ok? ==>
                |g| == 81 && Reach(PropagateAll(NewGrid(puzzle)), r.value.iterations) == Some(g)
                && r.value.solvedGrid == ValueGrid(g) && Recorded(Made, NewGrid(puzzle), r.value.solvingSteps, shots, g)
    {
      var board := new SudokuBoard(puzzle);
      var steps;
      steps, shots := Initial(board);
      UnsolvedCountValues(NewGrid(puzzle), board.grid[..]);
      NarrowsAdvances(NewGrid(puzzle), board.grid[..]);
      ghost var g1 := board.grid[..];
      if maxIterations <= 0 {
        LoopFailureDone(g1, maxIterations);
      }
      var outcome;
      ghost var stuckAt, stuck;
      outcome, stuckAt, stuck, shots := Loop(board, steps, NewGrid(puzzle), shots);
      g := board.grid[..];
      if outcome.Err? {
        ReachStuck(g1, maxIterations, stuckAt, stuck);
        r := Err(outcome.error);
        return;
      }
      var (applied, steps', iteration) := outcome.value;
      ReachDone(g1, maxIterations, iteration, board.grid[..]);
      AdvancesTrans(NewGrid(puzzle), PropagateAll(NewGrid(puzzle)), board.grid[..]);
      AdvancedExtends(puzzle, board.grid[..]);
      r := Ok(Outcome(board.grid[..], applied, iteration, steps', Some(|steps'|), true, Some(|steps'|)));
    }

    /** Step 1: update_candidates, recorded as a constraint step when it removed anything. */
    method Initial(board: SudokuBoard) returns (steps: seq<SolvingStep>, ghost shots: seq<Shot>)
      requires board.Valid()
      modifies board.grid
      ensures board.Valid() && board.grid[..] == PropagateAll(old(board.grid[..]))
      ensures Narrows(old(board.grid[..]), board.grid[..])
      ensures StepTrace(steps) && TechniqueStepCount(steps) == 0
      ensures OpensWithConstraint(steps) <==> Propagate(old(board.grid[..]), AllPositions()).1 != []
      ensures var changes := Propagate(old(board.grid[..]), AllPositions()).1;
        steps == if changes != [] then [ConstraintStep(board.grid[..], changes, [])] else []
      ensures Recorded(Made, old(board.grid[..]), steps, shots, board.grid[..])
    {
      ghost var g0 := board.grid[..];
      var changes := board.UpdateCandidates();
      steps, shots := [], [];
      if changes != [] {
        var step := ConstraintStep(board.grid[..], changes, []);
        ConstraintStepShown(g0, []);
        steps := [step];
        assert steps[..0] == [];
        shots := [Shot(g0, g0, board.grid[..])];
        ConstraintRecorded(g0, []);
      }
    }

    /**
     * The while loop: it runs while the last iteration changed something,
     * the cap is not reached and the board is not solved. An iteration
     * that changes nothing fails instead, so on return either the board is
     * solved or the cap was reached.
     */
    method Loop(board: SudokuBoard, steps: seq<SolvingStep>, ghost gs: Grid, ghost shots: seq<Shot>)
      returns (r: Result<(seq<string>, seq<SolvingStep>, int)>, ghost stuckAt: nat, ghost stuck: Grid, ghost shots': seq<Shot>)
      requires board.Valid() && StepTrace(steps) && TechniqueStepCount(steps) == 0
      requires Recorded(Made, gs, steps, shots, board.grid[..])
      modifies board.grid
      ensures board.Valid() && Advances(old(board.grid[..]), board.grid[..])
      ensures r.Err? ==> r.error == TypeError(UnpackError) || r.error == AttributeError(EliminationsError)
      ensures r.Err? ==> stuckAt < maxIterations && Reach(old(board.grid[..]), stuckAt) == Some(stuck) && ValidGrid(stuck)
      ensures r.Err? ==> !BoardSolved(stuck) && NakedSingles.Hit(PropagateAll(stuck)).None? && r.error == StuckError(stuck)
      ensures r.Ok? ==>
        var (applied, steps', iteration) := r.value;
        0 <= iteration <= (if maxIterations > 0 then maxIterations else 0)
        && (BoardSolved(board.grid[..]) || iteration == if maxIterations > 0 then maxIterations else 0)
        && TechniqueStepCount(steps') == iteration
        && iteration + UnsolvedCount(board.grid[..]) <= UnsolvedCount(old(board.grid[..]))
        && applied == (if iteration == 0 then [] else [NakedSingles.Technique])
        && StepTrace(steps') && (OpensWithConstraint(steps') <==> OpensWithConstraint(steps))
      ensures r.Ok? ==> r.value.2 >= 0 && Reach(old(board.grid[..]), r.value.2) == Some(board.grid[..])
      ensures r.Ok? ==> Recorded(Made, gs, r.value.1, shots', board.grid[..])
    {
      ghost var g0 := board.grid[..];
      var st := RoundState(true, [], steps, 1);
      var iteration := 0;
      shots' := shots;
      while st.changed && iteration < maxIterations && !BoardSolved(board.grid[..])
        invariant board.Valid() && 0 <= iteration && (iteration == 0 || iteration <= maxIterations)
        invariant Running(g0, board.grid[..], st, iteration, OpensWithConstraint(steps), gs, shots')
        decreases maxIterations - iteration
      {
        ghost var before := board.grid[..];
        var pass;
        pass, shots' := Iterate(board, st, g0, iteration, iteration + 1, OpensWithConstraint(steps), gs, shots');
        if pass.Err? {
          return Err(pass.error), iteration, before, shots';
        }
        iteration := iteration + 1;
        st := pass.value;
      }
      return Ok((st.applied, st.steps, iteration)), 0, g0, shots';
    }

    /**
     * Where the while loop stands after `iteration` iterations from g0: at
     * board g, reached by that many naked-single iterations, with as many
     * technique steps recorded and at least as many cells filled, the
     * steps being a run from the puzzle gs to g.
     */
    static ghost predicate Running(g0: Grid, g: Grid, st: RoundState, iteration: nat, opens: bool, gs: Grid, shots: seq<Shot>) {
      ValidGrid(g0) && ValidGrid(g) && Advances(g0, g) && st.changed
      && TechniqueStepCount(st.steps) == iteration && st.stepNumber == iteration + 1
      && iteration + UnsolvedCount(g) <= UnsolvedCount(g0)
      && st.applied == (if iteration == 0 then [] else [NakedSingles.Technique])
      && StepTrace(st.steps) && (OpensWithConstraint(st.steps) <==> opens)
      && Reach(g0, iteration) == Some(g) && Recorded(Made, gs, st.steps, shots, g)
    }

    /**
     * One iteration of the while loop, started on an unsolved board: either
     * naked single fires and the loop moves on by one iteration, or the
     * iteration raises the error of a board without a naked single.
     */
    method Iterate(board: SudokuBoard, st: RoundState, ghost g0: Grid, ghost done: nat, ghost done': nat, ghost opens: bool,
                   ghost gs: Grid, ghost shots: seq<Shot>)
      returns (pass: Result<RoundState>, ghost shots': seq<Shot>)
      requires board.Valid() && !BoardSolved(board.grid[..]) && done' == done + 1
      requires Running(g0, board.grid[..], st, done, opens, gs, shots)
      modifies board.grid
      ensures board.Valid() && Advances(g0, board.grid[..])
      ensures pass.Err? ==> pass.error == TypeError(UnpackError) || pass.error == AttributeError(EliminationsError)
      ensures pass.Err? ==> NakedSingles.Hit(PropagateAll(old(board.grid[..]))).None? && pass.error == StuckError(old(board.grid[..]))
      ensures pass.Ok? ==> Running(g0, board.grid[..], pass.value, done', opens, gs, shots')
    {
      ghost var before := board.grid[..];
      pass := Pass(board, st.(changed := false));
      AdvancesTrans(g0, before, board.grid[..]);
      shots' := shots;
      if pass.Ok? {
        RunningNext(g0, before, board.grid[..], st, pass.value, done, done', opens, gs, shots);
        shots' := shots + IterationShots(before);
      }
    }

    /** A pass that fired moves the while loop on by one iteration, its steps extending the run. */
    static lemma RunningNext(g0: Grid, before: Grid, g: Grid, st: RoundState, st': RoundState, done: nat, done': nat,
                             opens: bool, gs: Grid, shots: seq<Shot>)
      requires Running(g0, before, st, done, opens, gs, shots) && done' == done + 1 && !BoardSolved(before)
      requires Advances(g0, g) && NakedSingles.Hit(PropagateAll(before)).Some? && SinglePass(before) == Some(g)
      requires st'.changed && st'.applied == [NakedSingles.Technique] && st'.stepNumber == st.stepNumber + 1
      requires TechniqueStepCount(st'.steps) == TechniqueStepCount(st.steps) + 1 && UnsolvedCount(g) < UnsolvedCount(before)
      requires StepTrace(st'.steps) && (OpensWithConstraint(st'.steps) <==> OpensWithConstraint(st.steps))
      requires st'.steps == st.steps + IterationSteps(before, st.stepNumber + 1)
      ensures Running(g0, g, st', done', opens, gs, shots + IterationShots(before))
    {
      ReachSnoc(g0, done, done', before);
      IterationExtends(gs, st.steps, shots, before, st.stepNumber + 1);
    }

    /** What a pass that stops promises: the two errors it can raise, or one recorded naked single. */
    static ghost predicate PassResult(g0: Grid, g: Grid, st: RoundState, r: Result<RoundState>) {
      (r.Err? ==> r.error == TypeError(UnpackError) || r.error == AttributeError(EliminationsError))
      && (r.Ok? ==>
        r.value.changed && r.value.applied == [NakedSingles.Technique]
        && r.value.stepNumber == st.stepNumber + 1
        && TechniqueStepCount(r.value.steps) == TechniqueStepCount(st.steps) + 1
        && UnsolvedCount(g) < UnsolvedCount(g0)
        && StepTrace(r.value.steps) && (OpensWithConstraint(r.value.steps) <==> OpensWithConstraint(st.steps)))
    }

    /**
     * One pass of the for loop: it stops at a solved board, and otherwise
     * at the first technique that fires. Naked single either fires, and its
     * step is recorded, or leaves the values as they were, so hidden single
     * runs next and fails if it fires, and if it does not, naked pair's bare
     * bool fails the unpacking.
     */
    method Pass(board: SudokuBoard, st: RoundState) returns (r: Result<RoundState>)
      requires board.Valid() && !BoardSolved(board.grid[..])
      requires StepTrace(st.steps) && st.stepNumber == TechniqueStepCount(st.steps) + 1
      requires st.applied == [] || st.applied == [NakedSingles.Technique]
      modifies board.grid
      ensures board.Valid() && Advances(old(board.grid[..]), board.grid[..])
      ensures r.Err? ==> r.error == TypeError(UnpackError) || r.error == AttributeError(EliminationsError)
      ensures r.Ok? <==> NakedSingles.Hit(PropagateAll(old(board.grid[..]))).Some?
      ensures r.Ok? ==> SinglePass(old(board.grid[..])) == Some(board.grid[..])
      ensures r.Err? ==> r.error == StuckError(old(board.grid[..]))
      ensures r.Err? ==> (r.error == AttributeError(EliminationsError) <==> HiddenSingles.HiddenHit(PropagateAll(old(board.grid[..]))).Some?)
      ensures r.Ok? ==>
        r.value.changed && r.value.applied == [NakedSingles.Technique]
        && r.value.stepNumber == st.stepNumber + 1
        && TechniqueStepCount(r.value.steps) == TechniqueStepCount(st.steps) + 1
        && UnsolvedCount(board.grid[..]) < UnsolvedCount(old(board.grid[..]))
        && StepTrace(r.value.steps) && (OpensWithConstraint(r.value.steps) <==> OpensWithConstraint(st.steps))
      ensures r.Ok? ==> r.value.steps == st.steps + IterationSteps(old(board.grid[..]), st.stepNumber + 1)
    {
      ghost var g0 := board.grid[..];
      r := Ok(st);
      for k := 0 to |techniques|
        invariant k <= 2 && r == Ok(st)
        invariant board.Valid() && Narrows(g0, board.grid[..]) && !BoardSolved(board.grid[..])
        invariant board.grid[..] == if k == 0 then g0 else PropagateAll(g0)
        invariant k > 0 ==> NakedSingles.Hit(PropagateAll(g0)).None?
        invariant k == 2 ==> HiddenSingles.HiddenHit(PropagateAll(g0)).None?
      {
        if BoardSolved(board.grid[..]) {
          break;
        }
        var outcome := Try(board, k, g0, st);
        if outcome.Some? {
          return outcome.value;
        }
      }
    }

    /**
     * Technique k of the for loop: None when it did not fire and the loop
     * goes on, otherwise the pass's result.
     */
    method Try(board: SudokuBoard, k: int, ghost g0: Grid, st: RoundState) returns (outcome: Option<Result<RoundState>>)
      requires 0 <= k <= 2 && board.Valid() && ValidGrid(g0) && Narrows(g0, board.grid[..]) && !BoardSolved(board.grid[..])
      requires board.grid[..] == if k == 0 then g0 else PropagateAll(g0)
      requires k > 0 ==> NakedSingles.Hit(PropagateAll(g0)).None?
      requires k == 2 ==> HiddenSingles.HiddenHit(PropagateAll(g0)).None?
      requires StepTrace(st.steps) && st.stepNumber == TechniqueStepCount(st.steps) + 1
      requires st.applied == [] || st.applied == [NakedSingles.Technique]
      modifies board.grid
      ensures board.Valid()
      ensures outcome.None? ==> k < 2 && Narrows(g0, board.grid[..]) && !BoardSolved(board.grid[..])
      ensures outcome.None? ==> board.grid[..] == PropagateAll(g0)
      ensures k == 0 ==> (outcome.Some? <==> NakedSingles.Hit(PropagateAll(g0)).Some?)
      ensures k == 1 ==> (outcome.Some? <==> HiddenSingles.HiddenHit(PropagateAll(g0)).Some?)
      ensures outcome.Some? && k == 0 ==> outcome.value.Ok? && SinglePass(g0) == Some(board.grid[..])
      ensures outcome.Some? && k == 0 ==>
                NakedSingles.Hit(PropagateAll(g0)).Some? && outcome.value.Ok?
                && outcome.value.value.steps == st.steps + IterationSteps(g0, st.stepNumber + 1)
      ensures outcome.Some? && k > 0 ==> outcome.value == Err(StuckError(g0))
      ensures outcome.Some? ==> Advances(g0, board.grid[..]) && PassResult(g0, board.grid[..], st, outcome.value)
    {
      if k > 0 {
        PropagateIdempotent(g0);
      }
      var (name, technique) := techniques[k];
      assert k == 0 ==> name == NakedSingles.Technique && technique == NakedSingleOne;
      assert k == 1 ==> technique == HiddenSingleOne;
      assert k == 2 ==> technique == NakedPairOne;
      var before := board.grid[..];
      var result := RunOne(technique, board);
      match result
      case BareBool(_) =>
        NarrowsAdvances(g0, before);
        AdvancesTrans(g0, before, board.grid[..]);
        return Some(Err(TypeError(UnpackError)));
      case PositionPair(applied, pos) =>
        if applied && pos.Some? {
          NarrowsAdvances(g0, before);
          AdvancesTrans(g0, before, board.grid[..]);
          return Some(Err(AttributeError(EliminationsError)));
        }
        NoFire(g0, before, board.grid[..]);
        outcome := None;
      case StepPair(applied, step) =>
        if applied && step.Some? {
          var st' := Fired(board, g0, before, name, step.value, st);
          return Some(Ok(st'));
        }
        NoFire(g0, before, board.grid[..]);
        outcome := None;
    }

    /** A technique that did not fire left the board propagated: it narrows and is still unsolved. */
    static lemma NoFire(g0: Grid, before: Grid, after: Grid)
      requires |g0| == 81 && ValidGrid(before) && Narrows(g0, before) && !BoardSolved(before)
      requires after == PropagateAll(before)
      ensures Narrows(g0, after) && !BoardSolved(after)
    {
      PropagateAllEffect(before);
      NarrowsTrans(g0, before, after);
      BoardSolvedValues(before, after);
    }

    /** The branch of the for loop where a naked single fired, with what it means for the whole pass. */
    method Fired(board: SudokuBoard, ghost g0: Grid, before: Grid, name: string, step: TechniqueStep, st: RoundState)
      returns (st': RoundState)
      requires board.Valid() && name == NakedSingles.Technique && FiredSingle(before, board.grid[..], step)
      requires |g0| == 81 && Narrows(g0, before)
      requires Advances(before, board.grid[..]) && UnsolvedCount(board.grid[..]) < UnsolvedCount(before)
      requires StepTrace(st.steps) && st.stepNumber == TechniqueStepCount(st.steps) + 1
      requires st.applied == [] || st.applied == [NakedSingles.Technique]
      modifies board.grid
      ensures board.Valid() && Advances(g0, board.grid[..]) && UnsolvedCount(board.grid[..]) < UnsolvedCount(g0)
      ensures board.grid[..] == PropagateAll(old(board.grid[..])) && SinglePass(before) == Some(board.grid[..])
      ensures st'.changed && st'.applied == [NakedSingles.Technique] && st'.stepNumber == st.stepNumber + 1
      ensures TechniqueStepCount(st'.steps) == TechniqueStepCount(st.steps) + 1
      ensures StepTrace(st'.steps) && (OpensWithConstraint(st'.steps) <==> OpensWithConstraint(st.steps))
      ensures st'.steps == st.steps + IterationSteps(before, st.stepNumber + 1)
    {
      ghost var filled := board.grid[..];
      SinglePassFired(before, filled, step);
      st' := Record(board, before, name, step, st);
      NarrowsAdvances(g0, before);
      NarrowsAdvances(filled, board.grid[..]);
      AdvancesTrans(before, filled, board.grid[..]);
      AdvancesTrans(g0, before, board.grid[..]);
      UnsolvedCountValues(g0, before);
      UnsolvedCountValues(filled, board.grid[..]);
    }

    /**
     * A naked single fired: note its name, number the step, record it with
     * the cells filled and the eliminations listed, then run
     * update_candidates for the filled cell and record a constraint step
     * when that removed anything.
     */
    method Record(board: SudokuBoard, before: Grid, name: string, step: TechniqueStep, st: RoundState)
      returns (st': RoundState)
      requires board.Valid() && name == NakedSingles.Technique && FiredSingle(before, board.grid[..], step)
      requires StepTrace(st.steps) && st.stepNumber == TechniqueStepCount(st.steps) + 1
      requires st.applied == [] || st.applied == [NakedSingles.Technique]
      modifies board.grid
      ensures board.Valid() && Narrows(old(board.grid[..]), board.grid[..])
      ensures board.grid[..] == PropagateAll(old(board.grid[..]))
      ensures st'.changed && st'.applied == [NakedSingles.Technique] && st'.stepNumber == st.stepNumber + 1
      ensures TechniqueStepCount(st'.steps) == TechniqueStepCount(st.steps) + 1
      ensures StepTrace(st'.steps) && (OpensWithConstraint(st'.steps) <==> OpensWithConstraint(st.steps))
      ensures st'.steps == st.steps + IterationSteps(before, st.stepNumber + 1)
    {
      ghost var filled := board.grid[..];
      var stepNumber := st.stepNumber + 1;
      var applied := NoteApplied(st.applied, name);
      var recorded := AppendRecord(st.steps, before, board.grid[..], step, stepNumber);
      var steps := Propagation(board, recorded);
      IterationStepsMade(before, filled, step, stepNumber);
      AppendThenTail(st.steps, SingleRecord(before, stepNumber), ConstraintTail(filled, SingleRecord(before, stepNumber).solvedPositions));
      st' := RoundState(true, applied, steps, stepNumber);
    }

    /** steps.append(solving_step): the technique record placed at the end of the trace. */
    static method AppendRecord(steps: seq<SolvingStep>, before: Grid, after: Grid, step: TechniqueStep, stepNumber: int)
      returns (steps': seq<SolvingStep>)
      requires FiredSingle(before, after, step)
      requires StepTrace(steps) && stepNumber == TechniqueStepCount(steps) + 2
      ensures steps' != [] && steps'[..|steps'| - 1] == steps && steps'[|steps'| - 1].kind == TechniqueApplied
      ensures steps'[|steps'| - 1].cellsSolved == 1
      ensures StepTrace(steps') && TechniqueStepCount(steps') == TechniqueStepCount(steps) + 1
      ensures OpensWithConstraint(steps') <==> OpensWithConstraint(steps)
      ensures |before| == 81 && |after| == 81 && Formatted(Listing(step.eliminations)).Ok?
      ensures steps' == steps + [TechStep(before, after, step, stepNumber, Formatted(Listing(step.eliminations)).value)]
    {
      var solvingStep := TechniqueRecord(before, after, step, stepNumber);
      AppendTechnique(steps, solvingStep);
      steps' := steps + [solvingStep];
      assert steps'[..|steps'| - 1] == steps;
    }

    /** The solving_step dict built from the TechniqueStep and the snapshots before and after. */
    static method TechniqueRecord(before: Grid, after: Grid, step: TechniqueStep, stepNumber: int)
      returns (s: SolvingStep)
      requires FiredSingle(before, after, step)
      ensures |before| == 81 && |after| == 81 && Formatted(Listing(step.eliminations)).Ok?
      ensures s == TechStep(before, after, step, stepNumber, Formatted(Listing(step.eliminations)).value)
      ensures TechniqueShown(s) && s.stepNumber == Some(stepNumber) && s.cellsSolved == 1
    {
      SingleStepShown(before, after, step, stepNumber);
      SingleFill(before, after, step);
      var cellsSolved := CountSolved(before, after);
      var positions := SolvedPositions(before, after);
      var count := CountEliminations(step.eliminations);
      var formatted := FormatEliminations(step.eliminations);
      s := SolvingStep(TechniqueApplied, step.technique, Some(stepNumber), ValueGrid(after),
        CandidatesGrid(after), cellsSolved, count, Tag(formatted.value, Untagged), positions,
        step.focusCells, step.value, None, None);
    }

    /**
     * Constraint propagation after a technique step that solved cells:
     * update_candidates, and a constraint step citing the step's
     * solved_positions when it removed anything.
     */
    method Propagation(board: SudokuBoard, steps: seq<SolvingStep>) returns (steps': seq<SolvingStep>)
      requires board.Valid() && steps != [] && StepTrace(steps) && steps[|steps| - 1].kind == TechniqueApplied
      modifies board.grid
      ensures board.Valid() && Narrows(old(board.grid[..]), board.grid[..])
      ensures board.grid[..] == if steps[|steps| - 1].cellsSolved > 0 then PropagateAll(old(board.grid[..])) else old(board.grid[..])
      ensures StepTrace(steps') && TechniqueStepCount(steps') == TechniqueStepCount(steps)
      ensures OpensWithConstraint(steps') <==> OpensWithConstraint(steps)
      ensures steps' == if steps[|steps| - 1].cellsSolved > 0 then
                          steps + ConstraintTail(old(board.grid[..]), steps[|steps| - 1].solvedPositions)
                        else steps
    {
      steps' := steps;
      var last := steps[|steps| - 1];
      if last.cellsSolved > 0 {
        ghost var g := board.grid[..];
        var changes := board.UpdateCandidates();
        if changes != [] {
          var constraintStep := ConstraintStep(board.grid[..], changes, last.solvedPositions);
          ConstraintStepShown(g, last.solvedPositions);
          ConstraintFollows(steps, constraintStep);
          AppendStep(steps, constraintStep);
          TechniqueStepCountAppend(steps, [constraintStep]);
          AppendKeepsOpening(steps, [constraintStep]);
          steps' := steps + [constraintStep];
        }
      }
    }

    /** The cells_solved loop: the cells empty before and filled after. */
    static method CountSolved(before: Grid, after: Grid) returns (n: nat)
      requires |before| == 81 && |after| == 81
      ensures n == |NewlyFilled(before, after, 81)|
    {
      n := 0;
      for row := 0 to 9
        invariant n == |NewlyFilled(before, after, 9 * row)|
      {
        for col := 0 to 9
          invariant n == |NewlyFilled(before, after, 9 * row + col)|
        {
          var i := 9 * row + col;
          if !Solved(before[i]) && Solved(after[i]) {
            n := n + 1;
          }
        }
      }
    }
  }
}
