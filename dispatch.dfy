/**
 * The technique tables of the solver services. Each service lists its
 * techniques as (name, function) pairs and calls them in order; here a
 * table entry names the function by a tag, and RunAll/RunOne call the modelled
 * technique and hands back exactly what the Python function returns.
 *
 * The return shapes differ: apply_all_naked_singles, apply_all_hidden_pairs
 * and apply_all_naked_triples return a (changed, steps) tuple, while
 * apply_all_hidden_singles and apply_all_naked_pairs return a bare bool.
 * The services test the result with `if result:`, and a Python tuple is
 * true whatever it holds.
 */
module Dispatch {
  import opened Wrappers
  import opened Geometry
  import opened Board
  import opened Steps
  import NakedSingles
  import HiddenSingles
  import NakedPairs
  import HiddenPairs
  import NakedTriples

  /** The apply_all_* functions of backend/logic. */
  datatype AllTechnique = NakedSinglesAll | HiddenSinglesAll | HiddenPairsAll | NakedPairsAll | NakedTriplesAll

  /** What an apply_all_* call returns. */
  datatype AllReturn = BoolReturn(flag: bool) | TupleReturn(changed: bool, steps: seq<TechniqueStep>)

  /** `if result:` on a bool or a tuple. */
  predicate Truthy(r: AllReturn) {
    r.TupleReturn? || r.flag
  }

  /** The functions that return a tuple. */
  predicate ReturnsTuple(t: AllTechnique) {
    t == NakedSinglesAll || t == HiddenPairsAll || t == NakedTriplesAll
  }

  /** The technique reported progress: the bool itself, or the tuple's first element. */
  function Progress(r: AllReturn): bool {
    if r.BoolReturn? then r.flag else r.changed
  }

  /**
   * Call one apply_all_* function. Every technique keeps the board valid and
   * only advances it: solved cells stay, unsolved cells lose candidates, a
   * newly solved cell takes one of its former candidates. A false result
   * leaves only the update_candidates the technique starts with.
   */
  method RunAll(t: AllTechnique, b: SudokuBoard) returns (r: AllReturn)
    requires b.Valid()
    modifies b.grid
    ensures b.Valid()
    ensures Advances(old(b.grid[..]), b.grid[..])
    ensures r.TupleReturn? <==> ReturnsTuple(t)
    ensures Truthy(r) <==> ReturnsTuple(t) || Progress(r)
    ensures !Truthy(r) ==> b.grid[..] == PropagateAll(old(b.grid[..]))
  {
    ghost var g0 := b.grid[..];
    match t
    case NakedSinglesAll =>
      var changed, steps := NakedSingles.ApplyAll(b);
      r := TupleReturn(changed, steps);
    case HiddenSinglesAll =>
      var changed := HiddenSingles.ApplyAll(b);
      r := BoolReturn(changed);
    case HiddenPairsAll =>
      var changed, steps;
      ghost var gs;
      changed, steps, gs := HiddenPairs.ApplyAll(b);
      NarrowsAdvances(g0, b.grid[..]);
      r := TupleReturn(changed, steps);
    case NakedPairsAll =>
      var changed := NakedPairs.ApplyAll(b);
      NarrowsAdvances(g0, b.grid[..]);
      r := BoolReturn(changed);
    case NakedTriplesAll =>
      var changed, steps;
      ghost var gs;
      changed, steps, gs := NakedTriples.ApplyAll(b);
      NarrowsAdvances(g0, b.grid[..]);
      r := TupleReturn(changed, steps);
  }

  // ---------------------------------------------------------------------
  // The apply_one_* functions the step-by-step solver calls

  datatype OneTechnique = NakedSingleOne | HiddenSingleOne | NakedPairOne | HiddenPairOne

  /**
   * What an apply_one_* call returns: (bool, TechniqueStep or None) for
   * naked single and hidden pair, (bool, (row, col) or None) for hidden
   * single, a bare bool for naked pair.
   */
  datatype OneReturn =
    | StepPair(changed: bool, step: Option<TechniqueStep>)
    | PositionPair(changed: bool, pos: Option<Pos>)
    | BareBool(flag: bool)

  /**
   * What apply_one_naked_single does to a valid board g, leaving h: it
   * brings the candidates up to date and then fills the first naked single
   * it finds, reporting the step, or reports (False, None).
   */
  ghost predicate NakedSingleResult(g: Grid, h: Grid, r: OneReturn)
    requires ValidGrid(g)
  {
    var g1 := PropagateAll(g);
    r.StepPair?
    && (r.changed <==> NakedSingles.Hit(g1).Some?)
    && if r.changed then
         var (i, v) := NakedSingles.Hit(g1).value;
         h == NakedSingles.Fill(g1, i, v) && r.step == Some(NakedSingles.SingleStep(g1, h, i, v))
       else r.step.None? && h == g1
  }

  /** Call one apply_one_* function; it keeps the board valid and only advances it. */
  method RunOne(t: OneTechnique, b: SudokuBoard) returns (r: OneReturn)
    requires b.Valid()
    modifies b.grid
    ensures b.Valid()
    ensures Advances(old(b.grid[..]), b.grid[..])
    ensures t == NakedSingleOne || t == HiddenPairOne <==> r.StepPair?
    ensures t == HiddenSingleOne <==> r.PositionPair?
    ensures r.StepPair? ==> (r.changed <==> r.step.Some?)
    ensures r.PositionPair? ==> (r.changed <==> r.pos.Some?)
    ensures t == NakedSingleOne && r.changed ==>
      r.step.value.technique == NakedSingles.Technique && UnsolvedCount(b.grid[..]) < UnsolvedCount(old(b.grid[..]))
    ensures t == NakedSingleOne ==> NakedSingleResult(old(b.grid[..]), b.grid[..], r)
    ensures t == HiddenSingleOne && !r.changed ==> b.grid[..] == PropagateAll(old(b.grid[..]))
    ensures t == HiddenSingleOne ==> (r.changed <==> HiddenSingles.HiddenHit(PropagateAll(old(b.grid[..]))).Some?)
  {
    ghost var g0 := b.grid[..];
    ghost var g1 := PropagateAll(g0);
    PropagateAllEffect(g0);
    NarrowsAdvances(g0, g1);
    match t
    case NakedSingleOne =>
      var changed, step := NakedSingles.ApplyOne(b);
      if changed {
        ghost var hit := NakedSingles.Hit(g1).value;
        NakedSingles.HitRound(g0, hit.0, hit.1);
      }
      r := StepPair(changed, step);
    case HiddenSingleOne =>
      var changed, pos := HiddenSingles.ApplyOne(b);
      if changed {
        HiddenSingles.PlaceHiddenEffect(g1);
        AdvancesTrans(g0, g1, b.grid[..]);
      }
      r := PositionPair(changed, pos);
    case NakedPairOne =>
      var changed := NakedPairs.ApplyOne(b);
      NakedPairs.NakedPairPassNarrows(g0);
      NarrowsAdvances(g0, b.grid[..]);
      r := BareBool(changed);
    case HiddenPairOne =>
      var changed, step := HiddenPairs.ApplyOne(b);
      NarrowsTrans(g0, g1, b.grid[..]);
      NarrowsAdvances(g0, b.grid[..]);
      r := StepPair(changed, step);
  }

  // ---------------------------------------------------------------------
  // techniques_applied

  /** No name is listed twice. */
  predicate NoDuplicates(names: seq<string>) {
    forall a, b :: 0 <= a < b < |names| ==> names[a] != names[b]
  }

  /** `if name not in applied: applied.append(name)` */
  function NoteApplied(applied: seq<string>, name: string): (r: seq<string>)
    ensures NoDuplicates(applied) ==> NoDuplicates(r)
    ensures name in r && forall x :: x in r <==> x in applied || x == name
    ensures |applied| <= |r| && r[..|applied|] == applied
  {
    if name in applied then applied else applied + [name]
  }

  /** Two different names in a list make it at least two long. */
  lemma TwoNames(names: seq<string>, a: string, b: string)
    requires a in names && b in names && a != b
    ensures |names| >= 2
  {
    var i :| 0 <= i < |names| && names[i] == a;
    var j :| 0 <= j < |names| && names[j] == b;
    assert i != j;
  }
}
